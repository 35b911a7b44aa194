/** kernel/pipe.c: the ring buffer behind a pipe, and the byte stream it carries. */
module Pipes {
  import opened Bytes

  const PIPE_SIZE := 4096

  /** A pipe: the ring, its two indices, and how many ends of each kind are open. */
  datatype Pipe = Pipe(buf: seq<Byte>, rd: nat, wr: nat, readers: nat, writers: nat) {
    ghost predicate Valid() { |buf| == PIPE_SIZE && rd < PIPE_SIZE && wr < PIPE_SIZE }

    /** pipe_used */
    function Used(): (n: nat)
      requires rd < PIPE_SIZE && wr < PIPE_SIZE
      ensures n < PIPE_SIZE
    {
      (wr + PIPE_SIZE - rd) % PIPE_SIZE
    }

    /** pipe_space: one slot is never used, so that full and empty stay distinct. */
    function Space(): (n: nat)
      requires rd < PIPE_SIZE && wr < PIPE_SIZE
    {
      PIPE_SIZE - 1 - Used()
    }

    /** The buffered bytes, oldest first. */
    ghost function Contents(): (s: seq<Byte>)
      requires Valid()
      ensures |s| == Used()
    {
      seq<Byte>(Used(), i requires 0 <= i < Used() => buf[(rd + i) % PIPE_SIZE])
    }
  }

  /** pipe_create */
  function Fresh(): (p: Pipe)
    ensures p.Valid() && p.Contents() == [] && p.readers == 0 && p.writers == 0
  {
    Pipe(Zeros(PIPE_SIZE), 0, 0, 0, 0)
  }

  lemma Wrap(rd: nat, i: nat)
    requires rd < PIPE_SIZE && i < PIPE_SIZE
    ensures (rd + i) % PIPE_SIZE == if rd + i < PIPE_SIZE then rd + i else rd + i - PIPE_SIZE
  {
  }

  lemma UsedIs(p: Pipe)
    requires p.Valid()
    ensures p.Used() == if p.wr >= p.rd then p.wr - p.rd else p.wr + PIPE_SIZE - p.rd
  {
  }

  /** One byte out. */
  lemma TakeOne(p: Pipe)
    requires p.Valid() && p.Used() > 0
    ensures var q := p.(rd := (p.rd + 1) % PIPE_SIZE);
            q.Valid() && p.Contents()[0] == p.buf[p.rd] && q.Contents() == p.Contents()[1..]
  {
    hide Pipe.Used;
    var q := p.(rd := (p.rd + 1) % PIPE_SIZE);
    UsedIs(p);
    UsedIs(q);
    Wrap(p.rd, 0);
    Wrap(p.rd, 1);
    forall i | 0 <= i < q.Used() ensures q.Contents()[i] == p.Contents()[i + 1] {
      Wrap(p.rd, i + 1);
      Wrap(q.rd, i);
    }
  }

  /** One byte in. */
  lemma PutOne(p: Pipe, b: Byte)
    requires p.Valid() && p.Used() < PIPE_SIZE - 1
    ensures var q := p.(buf := p.buf[p.wr := b], wr := (p.wr + 1) % PIPE_SIZE);
            q.Valid() && q.Contents() == p.Contents() + [b]
  {
    hide Pipe.Used;
    var q := p.(buf := p.buf[p.wr := b], wr := (p.wr + 1) % PIPE_SIZE);
    UsedIs(p);
    UsedIs(q);
    Wrap(p.wr, 1);
    forall i | 0 <= i < q.Used() ensures q.Contents()[i] == (p.Contents() + [b])[i] {
      Wrap(p.rd, i);
    }
  }

  /** The transfer loop of pipe_read: the first `n` buffered bytes come out in order. */
  method Drain(p: Pipe, n: nat) returns (q: Pipe, out: seq<Byte>)
    requires p.Valid() && n <= p.Used()
    ensures q.Valid() && out == p.Contents()[..n] && q.Contents() == p.Contents()[n..]
    ensures q.readers == p.readers && q.writers == p.writers
  {
    hide Pipe.Contents, Pipe.Used;
    q, out := p, [];
    var i := 0;
    while i < n
      invariant 0 <= i <= n && q.Valid() && out == p.Contents()[..i] && q.Contents() == p.Contents()[i..]
      invariant q.readers == p.readers && q.writers == p.writers
    {
      TakeOne(q);
      out := out + [q.buf[q.rd]];
      q := q.(rd := (q.rd + 1) % PIPE_SIZE);
      i := i + 1;
    }
  }

  /** The transfer loop of pipe_write: the bytes go in behind what is buffered. */
  method Fill(p: Pipe, bytes: seq<Byte>) returns (q: Pipe)
    requires p.Valid() && |bytes| <= p.Space()
    ensures q.Valid() && q.Contents() == p.Contents() + bytes
    ensures q.readers == p.readers && q.writers == p.writers
  {
    hide Pipe.Contents, Pipe.Used;
    q := p;
    var i := 0;
    assert bytes[..0] == [];
    while i < |bytes|
      invariant 0 <= i <= |bytes| && q.Valid() && q.Contents() == p.Contents() + bytes[..i]
      invariant q.readers == p.readers && q.writers == p.writers
    {
      PutOne(q, bytes[i]);
      q := q.(buf := q.buf[q.wr := bytes[i]], wr := (q.wr + 1) % PIPE_SIZE);
      assert bytes[..i + 1] == bytes[..i] + [bytes[i]];
      i := i + 1;
    }
    assert bytes[..|bytes|] == bytes;
  }

  /** What a read or write of a pipe comes to. */
  datatype Outcome = Moved(n: nat) | EndOfFile | Park | Broken

  /** One pipe over its life, with every byte ever written to it and every byte ever read from it. */
  class Stream {
    var p: Pipe
    ghost var written: seq<Byte>
    ghost var got: seq<Byte>
    ghost var ended: bool         // some read has returned end of file

    /** What was read is a prefix of what was written, and the ring holds exactly the rest. */
    ghost predicate Valid()
      reads this
    {
      p.Valid() && written == got + p.Contents() && (ended ==> p.Contents() == [] && p.writers == 0)
    }

    constructor ()
      ensures Valid() && written == [] && got == [] && !ended && p.readers == 0 && p.writers == 0
    {
      p := Fresh();
      written, got, ended := [], [], false;
    }

    /** pipe_read: bytes if there are any; end of file exactly when everything written was read and no writer is
        left. */
    method Read(len: nat) returns (o: Outcome, out: seq<Byte>)
      requires Valid() && len > 0
      modifies this
      ensures Valid() && written == old(written) && got == old(got) + out && p.readers == old(p.readers)
      ensures p.writers == old(p.writers)
      ensures o == if old(p).Used() > 0 then Moved(|out|) else if old(p).writers > 0 then Park else EndOfFile
      ensures old(p).Used() > 0 ==> |out| == (if old(p).Used() < len then old(p).Used() else len) && ended == old(ended)
      ensures old(p).Used() == 0 ==> out == [] && p == old(p)
      ensures o == EndOfFile <==> old(got) == written && p.writers == 0
      ensures old(ended) ==> o == EndOfFile
      ensures ended == (old(ended) || o == EndOfFile)
    {
      hide Pipe.Used;
      out := [];
      var used := p.Used();
      if used > 0 {
        var n := if used < len then used else len;
        p, out := Drain(p, n);
        got := got + out;
        o := Moved(n);
      } else if p.writers > 0 {
        o := Park;
      } else {
        ended := true;
        o := EndOfFile;
      }
    }

    /** pipe_write: as many bytes as fit; broken exactly when no reader is left. */
    method Write(bytes: seq<Byte>) returns (o: Outcome)
      requires Valid() && bytes != [] && p.writers > 0
      modifies this
      ensures Valid() && got == old(got) && p.readers == old(p.readers) && p.writers == old(p.writers)
      ensures ended == old(ended)
      ensures o == Broken <==> p.readers == 0
      ensures o == Park <==> p.readers > 0 && old(p).Used() == PIPE_SIZE - 1
      ensures o.Moved? ==> 0 < o.n <= |bytes| && o.n == (if old(p).Space() < |bytes| then old(p).Space() else |bytes|)
                           && written == old(written) + bytes[..o.n]
      ensures !o.Moved? ==> p == old(p) && written == old(written)
      ensures o != EndOfFile
    {
      hide Pipe.Used;
      if p.readers == 0 {
        return Broken;
      }
      var space := p.Space();
      if space == 0 {
        return Park;
      }
      var n := if space < |bytes| then space else |bytes|;
      p := Fill(p, bytes[..n]);
      written := written + bytes[..n];
      o := Moved(n);
    }

    /** An end is duplicated or opened; a new writer needs an old one, except on a pipe nobody has used. */
    method Open(writable: bool)
      requires Valid() && (writable ==> p.writers > 0 || !ended)
      modifies `p
      ensures Valid()
      ensures p == (if writable then old(p).(writers := old(p).writers + 1) else old(p).(readers := old(p).readers + 1))
    {
      p := if writable then p.(writers := p.writers + 1) else p.(readers := p.readers + 1);
    }

    method Close(writable: bool)
      requires Valid() && (if writable then p.writers > 0 else p.readers > 0)
      modifies `p
      ensures Valid()
      ensures p == (if writable then old(p).(writers := old(p).writers - 1) else old(p).(readers := old(p).readers - 1))
    {
      p := if writable then p.(writers := p.writers - 1) else p.(readers := p.readers - 1);
    }

    ghost function Now(): Look
      reads this
    {
      Look(p, written, got)
    }

    /** Any interleaving of reads, writes, duplications and closes: every call does what it has to where it finds
        the pipe, what comes out is a prefix of what went in, in order, and after the first end of file every read is
        one. */
    method Run(ops: seq<Op>) returns (log: seq<Outcome>, ghost st: seq<Look>)
      requires Valid() && !ended
      modifies this
      ensures Valid() && got <= written && written == got + p.Contents()
      ensures |log| == |ops| && |st| == |ops| + 1 && st[0] == old(Now()) && st[|ops|] == Now()
      ensures forall k :: 0 <= k < |ops| ==> Did(ops[k], st[k], st[k + 1], log[k])
      ensures forall i, j :: 0 <= i < j < |ops| && ops[i].Get? && log[i] == EndOfFile && ops[j].Get? ==>
                log[j] == EndOfFile
    {
      hide Did;
      log, st := [], [Now()];
      for k := 0 to |ops|
        invariant Valid() && |log| == k && |st| == k + 1 && st[0] == old(Now()) && st[k] == Now()
        invariant forall i :: 0 <= i < k ==> Did(ops[i], st[i], st[i + 1], log[i])
        invariant forall i :: 0 <= i < k && ops[i].Get? && log[i] == EndOfFile ==> ended
        invariant forall i, j :: 0 <= i < j < k && ops[i].Get? && log[i] == EndOfFile && ops[j].Get? ==>
                    log[j] == EndOfFile
      {
        var o := Step(ops[k]);
        log, st := log + [o], st + [Now()];
      }
    }

    method Step(op: Op) returns (o: Outcome)
      requires Valid()
      modifies this
      ensures Valid() && Did(op, old(Now()), Now(), o)
      ensures (old(ended) ==> ended) && (op.Get? && o == EndOfFile ==> ended)
      ensures op.Get? && old(ended) ==> o == EndOfFile
    {
      ghost var was := p.Contents();
      o := Park;
      match op
      case Get(len) =>
        var out;
        o, out := Read(len + 1);
        assert was == out + p.Contents() by {
          assert old(got) + was == old(got) + (out + p.Contents());
          assert (old(got) + was)[|old(got)|..] == was;
        }
      case Put(bytes) =>
        if bytes != [] && p.writers > 0 {
          o := Write(bytes);
        }
      case Dup(w) =>
        if (if w then p.writers > 0 else p.readers > 0) {
          Open(w);
        }
      case Shut(w) =>
        if (if w then p.writers > 0 else p.readers > 0) {
          Close(w);
        }
    }
  }

  /** A read of up to `len` + 1 bytes, a write, a duplicated end, a closed end. */
  datatype Op = Get(len: nat) | Put(bytes: seq<Byte>) | Dup(writable: bool) | Shut(writable: bool)

  /** A pipe, with what has gone in and what has come out. */
  datatype Look = Look(p: Pipe, written: seq<Byte>, got: seq<Byte>)

  predicate SameEnds(a: Pipe, b: Pipe) {
    a.readers == b.readers && a.writers == b.writers
  }

  /** What a call does to the pipe and says, where it finds the pipe in `a`; a write needs a writing end and a byte,
      and a duplicate or a close an end to work on. */
  ghost predicate Did(op: Op, a: Look, b: Look, o: Outcome) {
    && a.p.Valid()
    && match op
    case Get(len) =>
      var n := if a.p.Used() < len + 1 then a.p.Used() else len + 1;
      && b.written == a.written && b.got == a.got + a.p.Contents()[..n] && SameEnds(a.p, b.p)
      && o == (if n > 0 then Moved(n) else if a.p.writers > 0 then Park else EndOfFile)
    case Put(bytes) =>
      if bytes == [] || a.p.writers == 0 then b == a
      else if a.p.readers == 0 then b == a && o == Broken
      else if a.p.Space() == 0 then b == a && o == Park
      else
        var n := if a.p.Space() < |bytes| then a.p.Space() else |bytes|;
        b.got == a.got && b.written == a.written + bytes[..n] && SameEnds(a.p, b.p) && o == Moved(n)
    case Dup(w) =>
      if w then b == a.(p := a.p.(writers := if a.p.writers > 0 then a.p.writers + 1 else 0))
      else b == a.(p := a.p.(readers := if a.p.readers > 0 then a.p.readers + 1 else 0))
    case Shut(w) =>
      if w then b == a.(p := a.p.(writers := if a.p.writers > 0 then a.p.writers - 1 else 0))
      else b == a.(p := a.p.(readers := if a.p.readers > 0 then a.p.readers - 1 else 0))
  }
}
