/** fs/fat32.c: the driver itself, over a disk whose every single-sector write is recorded. */
module Fat32Driver {
  import opened Bytes
  import opened Fat32Disk
  import opened Fat32Volume
  import opened Fat32Alloc
  import opened Fat32Names
  import opened Fat32Layout
  import opened Fat32Commit
  import Fat32Format
  import opened Grants
  import Signals

  ghost function Merge(old_: nat, value: nat): (m: nat)
    ensures old_ < 0x1_0000_0000 ==> m < 0x1_0000_0000
    ensures m / ENTRY_MOD == old_ / ENTRY_MOD && m % ENTRY_MOD == value % ENTRY_MOD
  {
    old_ / ENTRY_MOD * ENTRY_MOD + value % ENTRY_MOD
  }

  /** `later` continues the write history `earlier`. */
  ghost predicate Continues(earlier: seq<Disk>, later: seq<Disk>) {
    |earlier| <= |later| && later[..|earlier|] == earlier
  }

  lemma ContinuesJoin(a: seq<Disk>, b: seq<Disk>, c: seq<Disk>)
    requires Continues(a, b) && Continues(b, c)
    ensures Continues(a, c)
  {
    forall i | 0 <= i < |a| ensures c[i] == a[i] {
      assert c[i] == c[..|b|][i];
      assert b[i] == b[..|a|][i];
    }
  }

  /** Every state written since `n` differs from `d` only in the clusters of `S`. */
  ghost predicate AllWithin(g: Geometry, d: Disk, log: seq<Disk>, n: nat, S: set<nat>)
    requires Fits(g, d)
  {
    forall i :: n <= i < |log| ==> Within(g, d, log[i], S)
  }

  /** Histories compose: what was written up to `d1`, then what was written from there. */
  lemma LogJoin(g: Geometry, d0: Disk, d1: Disk, log1: seq<Disk>, log2: seq<Disk>, n: nat, S: set<nat>, U: set<nat>)
    requires Fits(g, d0) && Within(g, d0, d1, U) && n <= |log1|
    requires AllWithin(g, d0, log1, n, U) && Continues(log1, log2) && AllWithin(g, d1, log2, |log1|, S) && S <= U
    ensures AllWithin(g, d0, log2, n, U)
  {
    hide Within;
    forall i | n <= i < |log2| ensures Within(g, d0, log2[i], U) {
      if i < |log1| {
        assert log2[i] == log1[i];
      } else {
        WithinJoin(g, d0, d1, log2[i], U, S, U);
      }
    }
  }

  /** `b`, if it is there and the buffer holds it. */
  function Fitting(b: Option<seq<Byte>>, bufsize: nat): Option<seq<Byte>> {
    if b.Some? && |b.value| <= bufsize then b else None
  }

  /** `rest` with `out` in front. */
  function After(out: seq<Byte>, rest: Option<seq<Byte>>): Option<seq<Byte>> {
    match rest
    case None => None
    case Some(b) => Some(out + b)
  }

  lemma AfterNil(rest: Option<seq<Byte>>)
    ensures After([], rest) == rest
  {
    if rest.Some? {
      assert [] + rest.value == rest.value;
    }
  }

  lemma AfterAfter(a: seq<Byte>, b: seq<Byte>, rest: Option<seq<Byte>>)
    ensures After(a, After(b, rest)) == After(a + b, rest)
  {
    if rest.Some? {
      assert a + (b + rest.value) == a + b + rest.value;
    }
  }

  /** A read delivers the size its entry gives or nothing. */
  lemma ReadFromSize(g: Geometry, v: Vol, c: nat, rem: nat, pos: nat)
    requires Shape(g, v)
    ensures ReadFrom(g, v, c, rem, pos).Some? ==> |ReadFrom(g, v, c, rem, pos).value| == rem
  {
  }

  /** A buffer half written over: the first `n` bytes new. */
  ghost function Mix(new_: seq<Byte>, was: seq<Byte>, n: nat): (r: seq<Byte>)
    requires |new_| == |was| && n <= |new_|
    ensures |r| == |new_|
  {
    new_[..n] + was[n..]
  }

  lemma MixEnds(new_: seq<Byte>, was: seq<Byte>)
    requires |new_| == |was|
    ensures Mix(new_, was, 0) == was && Mix(new_, was, |new_|) == new_
  {
  }

  lemma MixStep(new_: seq<Byte>, was: seq<Byte>, j: nat)
    requires |new_| == |was| && 512 * j + 512 <= |new_|
    ensures Splice(Mix(new_, was, 512 * j), 512 * j, new_[512 * j..512 * j + 512]) == Mix(new_, was, 512 * (j + 1))
  {
  }

  lemma CatNone(g: Geometry, v: Vol)
    requires Shape(g, v)
    ensures Cat(g, v, []) == []
  {
  }

  /** Full clusters `a` holding `s`, then the cluster `x` starting with `t`. */
  lemma LastChunk(g: Geometry, v: Vol, ch: seq<nat>, a: seq<nat>, x: nat, src: seq<Byte>, s: seq<Byte>, t: seq<Byte>)
    requires Shape(g, v) && AllInRange(g, ch) && 0 < |t| <= g.Bpc()
    requires AllInRange(g, a) && g.InRange(x) && |v.data[x]| == g.Bpc() && ch == a + [x] && src == s + t
    requires Cat(g, v, a) == s && v.data[x][..|t|] == t
    ensures Content(g, v, ch, |src|) == Some(src)
  {
    hide Cat, Content, Geometry.Bpc, Geometry.Valid, Shape;
    ContentCat(g, v, a, x, |t|);
  }

  /** What the search for a directory slot found. */
  datatype SlotSearch = SearchFailed | SlotAt(k: nat, cluster: nat, index: nat) | DirFull(last: nat)

  lemma NoneFree(s: seq<Dirent>, a: seq<Dirent>, base: nat, i: nat)
    requires i <= |a| && base + |a| <= |s| && forall j: nat :: j < |a| ==> s[base + j] == a[j]
    requires forall j :: 0 <= j < base ==> !FreeSlot(s[j])
    requires forall j :: 0 <= j < i ==> !FreeSlot(a[j])
    ensures forall j :: 0 <= j < base + i ==> !FreeSlot(s[j])
  {
    forall j | base <= j < base + i ensures !FreeSlot(s[j]) {
      assert s[base + (j - base)] == a[j - base];
    }
  }

  /** Some layout fits the volume. */
  ghost predicate HasLayout(g: Geometry, v: Vol) { exists L: Layout :: Wf(g, v, L) }

  /** Every state written since `n` is well formed and gives every name the contents `v` does. */
  ghost predicate AllRead(g: Geometry, v: Vol, log: seq<Disk>, n: nat)
    requires Shape(g, v)
  {
    forall i :: n <= i < |log| ==> Fits(g, log[i]) && SameReads(g, v, Abs(g, log[i])) && HasLayout(g, Abs(g, log[i]))
  }

  /** More states, all of them the volume `w`. */
  lemma AllReadMore(g: Geometry, v: Vol, log1: seq<Disk>, log2: seq<Disk>, n: nat, w: Vol)
    requires Shape(g, v) && Shape(g, w) && AllRead(g, v, log1, n) && Continues(log1, log2) && SameReads(g, v, w)
    requires HasLayout(g, w) && forall i :: |log1| <= i < |log2| ==> Fits(g, log2[i]) && Abs(g, log2[i]) == w
    ensures AllRead(g, v, log2, n)
  {
    hide Abs, SameReads, Fits, HasLayout;
    forall i | n <= i < |log2|
      ensures Fits(g, log2[i]) && SameReads(g, v, Abs(g, log2[i])) && HasLayout(g, Abs(g, log2[i]))
    {
      if i < |log1| { assert log2[i] == log1[i]; }
    }
  }

  lemma LinkValue(g: Geometry, c: nat, L: Layout, v: Vol)
    requires Wf(g, v, L) && CanGrow(g, v, L, c)
    ensures c % ENTRY_MOD == c
  {
  }

  lemma WithinFits(g: Geometry, d: Disk, d': Disk, U: set<nat>)
    requires Fits(g, d) && Within(g, d, d', U)
    ensures Fits(g, d')
  {
  }

  lemma AllFit(g: Geometry, d: Disk, log: seq<Disk>, n: nat, U: set<nat>)
    requires Fits(g, d) && AllWithin(g, d, log, n, U)
    ensures forall i :: n <= i < |log| ==> Fits(g, log[i])
  {
    hide Within, Fits;
    forall i | n <= i < |log| ensures Fits(g, log[i]) {
      WithinFits(g, d, log[i], U);
    }
  }

  /** No owned cluster is free. */
  lemma FreeNotOwned(g: Geometry, v: Vol, L: Layout)
    requires Wf(g, v, L)
    ensures forall c :: c in FreeSet(g, v.fat) ==> !Owned(L, c)
  {
    hide Wf, Owned;
    WfRoot(g, v, L);
    forall c | c in FreeSet(g, v.fat) ensures !Owned(L, c) {
      if Owned(L, c) { OwnedNotFree(g, v, L, c); }
    }
  }

  lemma ClaimedOne(g: Geometry, v0: Vol, v: Vol, ch: seq<nat>)
    requires Shape(g, v0) && Shape(g, v) && Claimed(g, v0, v, ch) && |ch| == 1
    ensures ch == [ch[0]] && ch[0] in FreeSet(g, v0.fat) && Elems(ch) <= FreeSet(g, v0.fat)
    ensures v.fat[ch[0]] >= CLUSTER_END && g.InRange(ch[0]) && v.data == v0.data
    ensures forall c: nat :: c < |v.fat| && c != ch[0] ==> v.fat[c] == v0.fat[c]
  {
    assert ch[0] in Elems(ch);
  }

  /** Patching a sector's worth of a buffer is patching the buffer. */
  lemma SpliceSector(buf: seq<Byte>, j: nat, off: nat, e: seq<Byte>)
    requires 512 * j + 512 <= |buf| && off + |e| <= 512
    ensures Splice(buf, 512 * j, Splice(buf[512 * j..512 * j + 512], off, e)) == Splice(buf, 512 * j + off, e)
  {
    hide Splice;
    SpliceWithin(buf, 512 * j, off, e);
  }

  lemma SpliceWithin(buf: seq<Byte>, b: nat, off: nat, e: seq<Byte>)
    requires b + 512 <= |buf| && off + |e| <= 512
    ensures Splice(buf, b, Splice(buf[b..b + 512], off, e)) == Splice(buf, b + off, e)
  {
    hide Splice;
    var s := buf[b..b + 512];
    var t, l, r := Splice(s, off, e), Splice(buf, b, Splice(s, off, e)), Splice(buf, b + off, e);
    forall x | 0 <= x < |buf| ensures l[x] == r[x] {
      SpliceAt(buf, b, t, x);
      SpliceAt(buf, b + off, e, x);
      if b <= x < b + 512 {
        SpliceAt(s, off, e, x - b);
      }
    }
  }

  lemma SpliceAt(s: seq<Byte>, off: nat, part: seq<Byte>, x: nat)
    requires off + |part| <= |s| && x < |s|
    ensures Splice(s, off, part)[x] == if off <= x < off + |part| then part[x - off] else s[x]
  {
  }

  ghost predicate NoFreeSlot(s: seq<Dirent>) {
    forall j :: 0 <= j < |s| ==> !FreeSlot(s[j])
  }

  /** Entry `k`, number `i` of cluster `c`, is the first free one of the directory, grown by `gr` if it was full. */
  ghost predicate Offered(g: Geometry, v0: Vol, v: Vol, L: Layout, gr: seq<nat>, k: nat, c: nat, i: nat)
    requires Shape(g, v0) && Shape(g, v) && Wf(g, v0, L)
  {
    && GrewBy(g, v0, v, L, gr) && Wf(g, v, Extended(g, L, gr))
    && Lies(g, Extended(g, L, gr).root, k, c, i) && g.InRange(c) && i < Epc(g)
    && FirstFree(Dir(g, v, Extended(g, L, gr).root), k)
    && (gr == [] || Dir(g, v, Extended(g, L, gr).root) == Dir(g, v0, L.root) + Slots(Zeros(g.Bpc())))
    && (gr != [] <==> NoFreeSlot(Dir(g, v0, L.root)))
  }

  /** The first entry of the cluster a full directory grew by. */
  lemma NewSlot(g: Geometry, v0: Vol, v: Vol, L: Layout, c: nat)
    requires Wf(g, v0, L) && Shape(g, v) && g.InRange(c) && AllInRange(g, L.root + [c])
    requires Dir(g, v, L.root + [c]) == Dir(g, v0, L.root) + Slots(Zeros(g.Bpc())) && NoFreeSlot(Dir(g, v0, L.root))
    ensures Lies(g, L.root + [c], |Dir(g, v0, L.root)|, c, 0) && 0 < Epc(g)
    ensures FirstFree(Dir(g, v, L.root + [c]), |Dir(g, v0, L.root)|)
  {
    hide Wf, Dir, Lies;
    WfRoot(g, v0, L);
    LiesLast(g, v0, L.root, c);
    ZeroSlots(g.Bpc());
  }

  /** Every state written since `n` is well formed and reads as the old volume or as the new one. */
  ghost predicate AllCrash(g: Geometry, v0: Vol, name: Name, bytes: seq<Byte>, log: seq<Disk>, n: nat)
    requires Shape(g, v0)
  {
    forall i :: n <= i < |log| ==>
      Fits(g, log[i]) && OldOrNew(g, v0, Abs(g, log[i]), name, bytes) && HasLayout(g, Abs(g, log[i]))
  }

  /** States that all read as `v`, itself old or new, after states that were. */
  lemma AllCrashMore(g: Geometry, v0: Vol, v: Vol, name: Name, bytes: seq<Byte>, log1: seq<Disk>, log2: seq<Disk>,
                     n: nat)
    requires Shape(g, v0) && Shape(g, v) && AllCrash(g, v0, name, bytes, log1, n) && Continues(log1, log2)
    requires SameReads(g, v0, v) || NowReads(g, v0, v, name, bytes)
    requires AllRead(g, v, log2, |log1|)
    ensures AllCrash(g, v0, name, bytes, log2, n)
  {
    hide Abs, SameReads, NowReads, OldOrNew, Fits, HasLayout;
    forall i | n <= i < |log2|
      ensures Fits(g, log2[i]) && OldOrNew(g, v0, Abs(g, log2[i]), name, bytes) && HasLayout(g, Abs(g, log2[i]))
    {
      if i < |log1| {
        assert log2[i] == log1[i];
      } else {
        ReadsOldOrNew(g, v0, v, Abs(g, log2[i]), name, bytes);
      }
    }
  }

  lemma AllCrashOne(g: Geometry, v0: Vol, name: Name, bytes: seq<Byte>, log: seq<Disk>, d: Disk, n: nat)
    requires Shape(g, v0) && AllCrash(g, v0, name, bytes, log, n) && Fits(g, d)
    requires OldOrNew(g, v0, Abs(g, d), name, bytes)
    requires HasLayout(g, Abs(g, d))
    ensures AllCrash(g, v0, name, bytes, log + [d], n)
  {
    hide Abs, OldOrNew, HasLayout, Fits;
  }

  /** At no moment of a write is the volume without a layout. */
  lemma CrashNoGap(g: Geometry, v0: Vol, name: Name, bytes: seq<Byte>, log: seq<Disk>, n: nat)
    requires Shape(g, v0) && AllCrash(g, v0, name, bytes, log, n)
    ensures !HasGap(g, log, n)
  {
    hide Abs, OldOrNew, Fits, Wf;
    forall i | n <= i < |log| && Fits(g, log[i]) ensures !NoLayout(g, Abs(g, log[i])) {
      assert HasLayout(g, Abs(g, log[i]));
    }
  }

  lemma NowReadsFrom(g: Geometry, v0: Vol, v1: Vol, v: Vol, n: Name, bytes: seq<Byte>)
    requires Shape(g, v0) && Shape(g, v1) && Shape(g, v) && SameReads(g, v0, v1) && NowReads(g, v1, v, n, bytes)
    ensures NowReads(g, v0, v, n, bytes)
  {
    hide ReadName;
  }

  /** From disk `d0` and history `log0` to `d` and `log`: every state written is within `U`, and the
      FAT copies agree at the end if they did at the start. */
  ghost predicate Span(g: Geometry, d0: Disk, log0: seq<Disk>, d: Disk, log: seq<Disk>, U: set<nat>) {
    && Fits(g, d0) && Fits(g, d) && |log| > 0 && log[|log| - 1] == d && Continues(log0, log)
    && Within(g, d0, d, U) && AllWithin(g, d0, log, |log0|, U)
    && (Mirrored(g, d0) ==> Mirrored(g, d))
  }

  lemma SpanWider(g: Geometry, d0: Disk, log0: seq<Disk>, d: Disk, log: seq<Disk>, S: set<nat>, U: set<nat>)
    requires Span(g, d0, log0, d, log, S) && S <= U
    ensures Span(g, d0, log0, d, log, U)
  {
    hide Mirrored, Raw, Data, Geometry.Laid;
  }

  /** One operation after another. */
  lemma SpanJoin(g: Geometry, d0: Disk, log0: seq<Disk>, d1: Disk, log1: seq<Disk>, d2: Disk, log2: seq<Disk>,
                 S: set<nat>, T: set<nat>, U: set<nat>)
    requires Span(g, d0, log0, d1, log1, S) && Span(g, d1, log1, d2, log2, T) && S <= U && T <= U
    ensures Span(g, d0, log0, d2, log2, U)
  {
    SpanWider(g, d0, log0, d1, log1, S, U);
    hide Within, AllWithin, Mirrored, Geometry.Laid;
    ContinuesJoin(log0, log1, log2);
    WithinJoin(g, d0, d1, d2, U, T, U);
    LogJoin(g, d0, d1, log1, log2, |log0|, T, U);
  }

  lemma SameReadsJoin(g: Geometry, v0: Vol, v1: Vol, v2: Vol)
    requires Shape(g, v0) && Shape(g, v1) && Shape(g, v2) && SameReads(g, v0, v1) && SameReads(g, v1, v2)
    ensures SameReads(g, v0, v2)
  {
    hide ReadName;
  }

  /** How many clusters a directory must grow by to take one more entry. */
  ghost function Growth(s: seq<Dirent>): nat { if NoFreeSlot(s) then 1 else 0 }

  lemma StagedFree(g: Geometry, v0: Vol, v: Vol, L: Layout, ch: seq<nat>, bytes: seq<Byte>)
    requires Shape(g, v0) && Shape(g, v) && Staged(g, v0, v, L, ch, bytes)
    ensures FreeSet(g, v.fat) <= FreeSet(g, v0.fat) && |FreeSet(g, v.fat)| == |FreeSet(g, v0.fat)| - Needed(g, |bytes|)
    ensures Elems(ch) <= FreeSet(g, v0.fat)
  {
    FreeLeft(g, v0.fat, ch);
  }

  /** What is left once the data is staged suffices for the directory exactly when there is a cluster more than the data
      needs. */
  lemma StagedRoom(g: Geometry, v0: Vol, v: Vol, L: Layout, ch: seq<nat>, bytes: seq<Byte>, s: seq<Dirent>)
    requires Shape(g, v0) && Shape(g, v) && Staged(g, v0, v, L, ch, bytes)
    ensures FreeSet(g, v.fat) <= FreeSet(g, v0.fat)
    ensures (NoFreeSlot(s) ==> FreeSet(g, v.fat) != {}) <==>
              (Growth(s) == 1 ==> Needed(g, |bytes|) < |FreeSet(g, v0.fat)|)
  {
    hide FreeSet, Staged, NoFreeSlot;
    StagedFree(g, v0, v, L, ch, bytes);
  }

  lemma UnstageFat(g: Geometry, v0: Vol, v: Vol, L: Layout, ch: seq<nat>, bytes: seq<Byte>)
    requires Shape(g, v0) && Shape(g, v) && Staged(g, v0, v, L, ch, bytes)
    ensures Zeroed(v.fat, Elems(ch)) == v0.fat && Elems(ch) <= FreeSet(g, v0.fat)
    ensures (ch == [] ==> v.fat == v0.fat) && (ch != [] ==> IsChain(g, v.fat, ch) && Start(ch) != 0)
  {
    var fat := Zeroed(v.fat, Elems(ch));
    forall c: nat | c < |fat| ensures fat[c] == v0.fat[c] {
      if c in ch { assert c in Elems(ch); }
    }
    assert fat == v0.fat;
    if ch == [] { assert v.fat == fat; }
  }

  lemma VacantBound(s: seq<Dirent>, k: nat, n: Name)
    requires Vacant(s, k, n)
    ensures k < |s|
  {
  }

  /** States that all read as `v1`, which reads as `v0`. */
  lemma AllCrashAfter(g: Geometry, v0: Vol, v1: Vol, name: Name, bytes: seq<Byte>, log1: seq<Disk>, log2: seq<Disk>,
                      n: nat)
    requires Shape(g, v0) && Shape(g, v1) && AllCrash(g, v0, name, bytes, log1, n) && SameReads(g, v0, v1)
    requires AllRead(g, v1, log2, |log1|) && Continues(log1, log2)
    ensures AllCrash(g, v0, name, bytes, log2, n)
  {
    AllCrashMore(g, v0, v1, name, bytes, log1, log2, n);
  }

  /** A name missing from the directory is missing from the grown one. */
  lemma MissGrown(g: Geometry, v1: Vol, v2: Vol, L: Layout, gr: seq<nat>, n: Name)
    requires Wf(g, v1, L) && Shape(g, v2) && GrewBy(g, v1, v2, L, gr) && AllInRange(g, Extended(g, L, gr).root)
    requires gr == [] || Dir(g, v2, Extended(g, L, gr).root) == Dir(g, v1, L.root) + Slots(Zeros(g.Bpc()))
    requires IsMiss(Dir(g, v1, L.root), n)
    ensures IsMiss(Dir(g, v2, Extended(g, L, gr).root), n) && |gr| <= 1
  {
    GrowSearch(Dir(g, v1, L.root), g.Bpc(), n);
  }

  lemma SpanContinues(g: Geometry, d0: Disk, log0: seq<Disk>, d: Disk, log: seq<Disk>, U: set<nat>)
    requires Span(g, d0, log0, d, log, U)
    ensures Continues(log0, log)
  {
  }

  lemma RootExtended(g: Geometry, v1: Vol, v2: Vol, L: Layout, gr: seq<nat>, c: nat)
    requires Wf(g, v1, L) && Shape(g, v2) && GrewBy(g, v1, v2, L, gr) && c in Extended(g, L, gr).root
    ensures c in L.root || c in FreeSet(g, v1.fat)
  {
  }

  // ---------------------------------------------------------------------------
  // What a write of a name replaces and touches
  // ---------------------------------------------------------------------------

  /** The chain of the file that now has the name, [] if there is none. */
  ghost function Replaced(g: Geometry, v: Vol, L: Layout, n: Name): seq<nat>
    requires Wf(g, v, L)
  {
    if k: nat :| IsHit(Dir(g, v, L.root), n, k) then L.files[k] else []
  }

  /** How many clusters the directory grows by when the name is written. */
  ghost function Grows(g: Geometry, v: Vol, L: Layout, n: Name): nat
    requires Wf(g, v, L)
  {
    if IsMiss(Dir(g, v, L.root), n) then Growth(Dir(g, v, L.root)) else 0
  }

  /** The buffers staging `len` bytes asks for. */
  ghost function Staging(len: nat): nat { if len == 0 then 0 else 1 }

  /** The cluster buffers a write of `len` bytes asks for: one to look for the name, one to stage data, and for a
      new name one to look for a slot and one to grow the directory. */
  ghost function Buffers(g: Geometry, v: Vol, L: Layout, n: Name, len: nat): (k: nat)
    requires Wf(g, v, L)
    ensures k > 0
  {
    1 + Staging(len) + if IsMiss(Dir(g, v, L.root), n) then 1 + Growth(Dir(g, v, L.root)) else 0
  }

  /** The buffers entering a file in the directory asks for. */
  ghost function Entering(loc: Loc, s: seq<Dirent>): nat { if loc.LocAbsent? then 1 + Growth(s) else 0 }

  lemma FirstRefused(g: seq<bool>, k: nat)
    requires k > 0 && !Yes(g)
    ensures !Granted(g, k)
  {
    assert !g[0];
  }

  /** Those requests in the order they are made. */
  lemma WriteGrants(g: seq<bool>, st: nat, k: nat)
    ensures Granted(g, 1 + st + k) <==> Yes(g) && Granted(Rest(g, 1), st) && Granted(Rest(Rest(g, 1), st), k)
    ensures Rest(Rest(Rest(g, 1), st), k) == Rest(g, 1 + st + k) && Later(g, Rest(g, 1)) && Later(g, g)
  {
    hide Granted, Rest, Later;
    OneRequest(g);
    InTurn(g, 1, st);
    InTurn(g, 1 + st, k);
    LaterBy(g, 1);
  }

  /** The buffers a read asks for: one to look for the name, and one to copy through if there is something to copy. */
  ghost function ReadBuffers(g: Geometry, v: Vol, n: Name, bufsize: nat): nat
    requires Shape(g, v)
  {
    match Locate(g, v, g.root, 0, 0, n)
    case LocFound(_, c, i) =>
      var e := Slot(v.data[c], i);
      if IsDirectory(e) || Size(e) > bufsize || Size(e) == 0 || !g.InRange(First(e)) then 1 else 2
    case _ => 1
  }

  /** Every cluster a write may change: free ones, the root directory's, the replaced file's. */
  ghost function Touched(g: Geometry, v: Vol, L: Layout, n: Option<Name>): set<nat>
    requires Wf(g, v, L)
  {
    FreeSet(g, v.fat) + Elems(L.root) + if n.Some? then Elems(Replaced(g, v, L, n.value)) else {}
  }

  /** The name is not a directory's and there is room for the new chain beside the old one. */
  ghost predicate CanWrite(g: Geometry, v: Vol, L: Layout, n: Name, len: nat)
    requires Wf(g, v, L)
  {
    && (forall k: nat :: IsHit(Dir(g, v, L.root), n, k) ==> !IsDirectory(Dir(g, v, L.root)[k]))
    && Needed(g, len) + Grows(g, v, L, n) <= |FreeSet(g, v.fat)|
  }

  lemma AllCrashNone(g: Geometry, v0: Vol, name: Name, bytes: seq<Byte>, log: seq<Disk>)
    requires Shape(g, v0)
    ensures AllCrash(g, v0, name, bytes, log, |log|)
  {
  }

  lemma LocateRoot(g: Geometry, v: Vol, L: Layout, n: Name)
    requires Wf(g, v, L)
    ensures LocOk(g, v, L.root, 0, n, Locate(g, v, g.root, 0, 0, n))
  {
    ChainFits(g, L.root);
    LocateMeans(g, v, L.root, 0, 0, n);
  }

  lemma LocatedMeans(g: Geometry, v: Vol, L: Layout, n: Name, loc: Loc, len: nat)
    requires Wf(g, v, L) && LocOk(g, v, L.root, 0, n, loc)
    ensures loc.LocFound? ==>
              && Lies(g, L.root, loc.k, loc.cluster, loc.index) && IsHit(Dir(g, v, L.root), n, loc.k)
              && loc.k < |L.files|
              && g.InRange(loc.cluster) && loc.index < Epc(g)
              && Dir(g, v, L.root)[loc.k] == Slot(v.data[loc.cluster], loc.index)
              && Replaced(g, v, L, n) == L.files[loc.k] && Grows(g, v, L, n) == 0
              && Touched(g, v, L, Some(n)) == FreeSet(g, v.fat) + Elems(L.root) + Elems(L.files[loc.k])
              && (CanWrite(g, v, L, n, len) <==>
                    !IsDirectory(Dir(g, v, L.root)[loc.k]) && Needed(g, len) <= |FreeSet(g, v.fat)|)
              && Buffers(g, v, L, n, len) == 1 + Staging(len)
    ensures loc.LocAbsent? ==>
              && IsMiss(Dir(g, v, L.root), n) && Replaced(g, v, L, n) == []
              && Grows(g, v, L, n) == Growth(Dir(g, v, L.root))
              && Touched(g, v, L, Some(n)) >= FreeSet(g, v.fat) + Elems(L.root)
              && (CanWrite(g, v, L, n, len) <==> Needed(g, len) + Growth(Dir(g, v, L.root)) <= |FreeSet(g, v.fat)|)
              && Buffers(g, v, L, n, len) == 1 + Staging(len) + (1 + Growth(Dir(g, v, L.root)))
  {
    hide Lies, Slot, Needed, FreeSet;
    WfRoot(g, v, L);
    var s := Dir(g, v, L.root);
    if loc.LocFound? {
      LiesSlot(g, v, L.root, loc.k, loc.cluster, loc.index);
      forall k: nat ensures IsHit(s, n, k) ==> k == loc.k {
        HitOrMiss(s, n, loc.k, k);
      }
      HitOrMiss(s, n, loc.k, loc.k);
    } else if loc.LocAbsent? {
      forall k: nat ensures !IsHit(s, n, k) {
        if IsHit(s, n, k) { HitOrMiss(s, n, k, k); }
      }
    }
  }

  /** The name is a file's. */
  ghost predicate CanErase(g: Geometry, v: Vol, L: Layout, n: Name)
    requires Wf(g, v, L)
  {
    exists k: nat :: IsHit(Dir(g, v, L.root), n, k) && !IsDirectory(Dir(g, v, L.root)[k])
  }

  lemma ErasedMeans(g: Geometry, v: Vol, L: Layout, n: Name, loc: Loc)
    requires Wf(g, v, L) && LocOk(g, v, L.root, 0, n, loc)
    ensures loc.LocAbsent? ==> !CanErase(g, v, L, n)
    ensures loc.LocFound? ==>
              loc.k < |Dir(g, v, L.root)| && (CanErase(g, v, L, n) <==> !IsDirectory(Dir(g, v, L.root)[loc.k]))
  {
    hide Wf, Dir, Lies;
    WfRoot(g, v, L);
    var s := Dir(g, v, L.root);
    forall k: nat ensures IsHit(s, n, k) ==> loc.LocFound? && k == loc.k {
      if IsHit(s, n, k) {
        HitOrMiss(s, n, k, if loc.LocFound? then loc.k else 0);
      }
    }
  }

  /** `v` is `v0` with some of the entries of `W` zeroed. */
  ghost predicate Partly(v0: Vol, v: Vol, W: set<nat>) {
    && v.data == v0.data && |v.fat| == |v0.fat|
    && forall c: nat :: c < |v.fat| ==> v.fat[c] == v0.fat[c] || (c in W && v.fat[c] == CLUSTER_FREE)
  }

  ghost predicate AllPartly(g: Geometry, v0: Vol, log: seq<Disk>, n: nat, W: set<nat>) {
    forall i :: n <= i < |log| ==> Fits(g, log[i]) && Partly(v0, Abs(g, log[i]), W)
  }

  lemma ContinuesSelf(log: seq<Disk>)
    ensures Continues(log, log)
  {
  }

  lemma PartlyMore(g: Geometry, v0: Vol, v: Vol, log1: seq<Disk>, log2: seq<Disk>, n: nat, S: set<nat>, W: set<nat>)
    requires AllPartly(g, v0, log1, n, W) && Continues(log1, log2) && v == v0.(fat := Zeroed(v0.fat, S)) && S <= W
    requires forall i :: |log1| <= i < |log2| ==> Fits(g, log2[i]) && Abs(g, log2[i]) == v
    ensures AllPartly(g, v0, log2, n, W)
  {
    hide Abs, Fits;
    forall i | n <= i < |log2| ensures Fits(g, log2[i]) && Partly(v0, Abs(g, log2[i]), W) {
      if i < |log1| {
        assert log2[i] == log1[i];
      }
    }
  }

  /** Every name reads as in `v0`, except that `n` may already be gone. */
  ghost predicate OldOrGone(g: Geometry, v0: Vol, v: Vol, n: Name)
    requires Shape(g, v0) && Shape(g, v)
  {
    forall m: Name :: ReadName(g, v, m) == ReadName(g, v0, m) || (m == n && ReadName(g, v, m) == None)
  }

  /** Every state written since `n` reads as the old volume, or as the old volume without the name. */
  ghost predicate AllErase(g: Geometry, v0: Vol, name: Name, log: seq<Disk>, n: nat)
    requires Shape(g, v0)
  {
    forall i :: n <= i < |log| ==> Fits(g, log[i]) && OldOrGone(g, v0, Abs(g, log[i]), name)
  }

  /** A read through a table with entries zeroed delivers the same bytes or fails. */
  lemma {:induction false} ReadFromPartly(g: Geometry, v0: Vol, v: Vol, W: set<nat>, c: nat, rem: nat, pos: nat)
    requires Shape(g, v0) && Shape(g, v) && Partly(v0, v, W)
    ensures ReadFrom(g, v, c, rem, pos) == ReadFrom(g, v0, c, rem, pos) || ReadFrom(g, v, c, rem, pos) == None
    decreases g.total + 1 - pos
  {
    if rem > g.Bpc() && pos <= g.total && g.InRange(c) && NextCluster(g, v0.fat[c]).ChainNext? {
      ReadFromPartly(g, v0, v, W, NextCluster(g, v0.fat[c]).next, rem - g.Bpc(), pos + 1);
    }
  }

  /** A name reads as its entry says on any volume whose root chain is whole. */
  lemma ReadNameAt(g: Geometry, v: Vol, root: seq<nat>, n: Name, k: nat)
    requires Shape(g, v) && IsChain(g, v.fat, root) && root[0] == g.root
    ensures IsMiss(Dir(g, v, root), n) ==> ReadName(g, v, n) == None
    ensures IsHit(Dir(g, v, root), n, k) ==> ReadName(g, v, n) == EntryBytes(g, v, Dir(g, v, root)[k])
    ensures !IsMiss(Dir(g, v, root), n) ==> exists h: nat :: IsHit(Dir(g, v, root), n, h)
  {
    hide EntryBytes, IsHit, IsMiss, Lies, Locate;
    ChainFits(g, root);
    LocateMeans(g, v, root, 0, 0, n);
    var s := Dir(g, v, root);
    match Locate(g, v, g.root, 0, 0, n)
    case LocAbsent =>
      if IsHit(s, n, k) { HitOrMiss(s, n, k, k); }
    case LocFound(h, c, i) =>
      LiesSlot(g, v, root, h, c, i);
      HitOrMiss(s, n, h, k);
  }

  /** With some of a file's own entries zeroed, its name reads as before or as nothing, and every other as before. */
  lemma PartlyReads(g: Geometry, v0: Vol, v: Vol, L: Layout, k: nat, n: Name)
    requires Wf(g, v0, L) && Shape(g, v) && IsHit(Dir(g, v0, L.root), n, k) && k < |L.files|
    requires Partly(v0, v, Elems(L.files[k]))
    ensures OldOrGone(g, v0, v, n)
  {
    hide ReadName, IsHit, IsMiss, Dir, EntryBytes, Wf;
    WfRoot(g, v0, L);
    PartlyRoot(g, v0, v, L, k);
    var s := Dir(g, v0, L.root);
    forall m: Name ensures ReadName(g, v, m) == ReadName(g, v0, m) || (m == n && ReadName(g, v, m) == None) {
      ReadNameAt(g, v0, L.root, m, 0);
      ReadNameAt(g, v, L.root, m, 0);
      if !IsMiss(s, m) {
        var h: nat :| IsHit(s, m, h);
        ReadNameAt(g, v0, L.root, m, h);
        ReadNameAt(g, v, L.root, m, h);
        HitName(s, m, h, n, k);
        PartlyEntry(g, v0, v, L, k, h);
      }
    }
  }

  lemma HitName(s: seq<Dirent>, m: Name, h: nat, n: Name, k: nat)
    requires IsHit(s, m, h) && IsHit(s, n, k)
    ensures h < |s| && Live(s[h]) && (h == k ==> m == n)
  {
  }

  lemma PartlyRoot(g: Geometry, v0: Vol, v: Vol, L: Layout, k: nat)
    requires Wf(g, v0, L) && Shape(g, v) && k < |L.files| && Partly(v0, v, Elems(L.files[k]))
    ensures IsChain(g, v.fat, L.root) && Dir(g, v, L.root) == Dir(g, v0, L.root)
  {
    hide Dir, EntryOk, IsChain;
    WfRoot(g, v0, L);
    assert Apart(L.files[k], L.root);
    ChainFrame(g, v0.fat, v.fat, L.root);
    DirFrame(g, v0, v, L.root);
  }

  lemma PartlyEntry(g: Geometry, v0: Vol, v: Vol, L: Layout, k: nat, h: nat)
    requires Wf(g, v0, L) && Shape(g, v) && k < |L.files| && Partly(v0, v, Elems(L.files[k]))
    requires h < |Dir(g, v0, L.root)| && Live(Dir(g, v0, L.root)[h])
    ensures var e := Dir(g, v0, L.root)[h];
            EntryBytes(g, v, e) == EntryBytes(g, v0, e) || (h == k && EntryBytes(g, v, e) == None)
  {
    hide Dir, IsChain, ReadFrom;
    WfRoot(g, v0, L);
    var e := Dir(g, v0, L.root)[h];
    ReadFromPartly(g, v0, v, Elems(L.files[k]), First(e), Size(e), 0);
    if h != k {
      var ch := L.files[h];
      assert Apart(ch, L.files[k]);
      if Owns(e) {
        ChainFrame(g, v0.fat, v.fat, ch);
      }
      EntryBytesMeans(g, v0, e, ch);
      EntryBytesMeans(g, v, e, ch);
      EntryRange(g, v0, e, ch);
      ContentFrame(g, v0, v, ch, Size(e));
    }
  }

  lemma EntryRange(g: Geometry, v: Vol, e: Dirent, ch: seq<nat>)
    requires Shape(g, v) && EntryOk(g, v, e, ch)
    ensures AllInRange(g, ch)
  {
  }

  /** Some state written since `n` has no layout at all. */
  ghost predicate HasGap(g: Geometry, log: seq<Disk>, n: nat) {
    exists i :: n <= i < |log| && Fits(g, log[i]) && NoLayout(g, Abs(g, log[i]))
  }

  ghost predicate NoLayout(g: Geometry, v: Vol) {
    forall L: Layout :: !Wf(g, v, L)
  }

  lemma GapLogged(g: Geometry, d0: Disk, log0: seq<Disk>, d1: Disk, log1: seq<Disk>, log: seq<Disk>, och: seq<nat>)
    requires Span(g, d0, log0, d1, log1, Elems(och)) && |log1| <= |log| && log[..|log1|] == log1
    requires |log0| > 0 && log0[|log0| - 1] == d0 && !NoLayout(g, Abs(g, d0)) && NoLayout(g, Abs(g, d1))
    ensures HasGap(g, log, |log0|)
  {
    hide Abs, Within, AllWithin, Mirrored, NoLayout;
    assert log[|log1| - 1] == log1[|log1| - 1] == d1;
  }

  /** Further states, all of them the well-formed volume `v`, open no gap and close none. */
  lemma GapLater(g: Geometry, log1: seq<Disk>, log2: seq<Disk>, n: nat, v: Vol, L: Layout)
    requires Continues(log1, log2) && Wf(g, v, L)
    requires forall i :: |log1| <= i < |log2| ==> Fits(g, log2[i]) && Abs(g, log2[i]) == v
    ensures HasGap(g, log1, n) <==> HasGap(g, log2, n)
  {
    hide NoLayout, Abs, Fits, Wf;
    LaidOut(g, v, L);
    if HasGap(g, log1, n) {
      var i :| n <= i < |log1| && Fits(g, log1[i]) && NoLayout(g, Abs(g, log1[i]));
      assert log2[i] == log1[i];
    }
    if HasGap(g, log2, n) {
      var i :| n <= i < |log2| && Fits(g, log2[i]) && NoLayout(g, Abs(g, log2[i]));
      assert i < |log1| && log2[i] == log1[i];
    }
  }

  lemma NoGapNone(g: Geometry, log: seq<Disk>)
    ensures !HasGap(g, log, |log|)
  {
  }

  lemma LaidOut(g: Geometry, v: Vol, L: Layout)
    requires Wf(g, v, L)
    ensures !NoLayout(g, v)
  {
  }

  lemma NoGapOne(g: Geometry, log: seq<Disk>, d: Disk, v: Vol, L: Layout)
    requires Fits(g, d) && Abs(g, d) == v && Wf(g, v, L)
    ensures !HasGap(g, log + [d], |log|)
  {
    hide Abs, Fits, Wf, NoLayout;
    LaidOut(g, v, L);
    assert (log + [d])[|log|] == d;
  }

  lemma NothingErased(g: Geometry, v: Vol, n: Name, log: seq<Disk>)
    requires Shape(g, v)
    ensures AllErase(g, v, n, log, |log|)
  {
  }

  lemma PartlyErase(g: Geometry, v0: Vol, L: Layout, k: nat, n: Name, log: seq<Disk>, m: nat)
    requires Wf(g, v0, L) && IsHit(Dir(g, v0, L.root), n, k) && k < |L.files|
    requires AllPartly(g, v0, log, m, Elems(L.files[k]))
    ensures AllErase(g, v0, n, log, m)
  {
    hide Abs, Fits, OldOrGone, Partly, IsHit, Dir, Wf;
    WfRoot(g, v0, L);
    forall i | m <= i < |log| ensures Fits(g, log[i]) && OldOrGone(g, v0, Abs(g, log[i]), n) {
      PartlyReads(g, v0, Abs(g, log[i]), L, k, n);
    }
  }

  lemma ErasedOne(g: Geometry, v0: Vol, n: Name, log: seq<Disk>, d: Disk, m: nat, v: Vol)
    requires Shape(g, v0) && AllErase(g, v0, n, log, m) && Fits(g, d) && v == Abs(g, d)
    requires SameReadsBut(g, v0, v, n) && ReadName(g, v, n) == None
    ensures AllErase(g, v0, n, log + [d], m)
  {
    hide Abs, Fits, ReadName;
  }

  lemma EraseLater(g: Geometry, v0: Vol, n: Name, log1: seq<Disk>, log2: seq<Disk>, m: nat, v: Vol)
    requires Shape(g, v0) && Shape(g, v) && AllErase(g, v0, n, log1, m) && Continues(log1, log2)
    requires SameReadsBut(g, v0, v, n) && ReadName(g, v, n) == None
    requires forall i :: |log1| <= i < |log2| ==> Fits(g, log2[i]) && Abs(g, log2[i]) == v
    ensures AllErase(g, v0, n, log2, m)
  {
    hide Abs, Fits, ReadName;
    forall i | m <= i < |log2| ensures Fits(g, log2[i]) && OldOrGone(g, v0, Abs(g, log2[i]), n) {
      if i < |log1| {
        assert log2[i] == log1[i];
      }
    }
  }

  lemma SameReadsSelf(g: Geometry, v: Vol)
    requires Shape(g, v)
    ensures SameReads(g, v, v)
  {
  }

  lemma WroteReads(g: Geometry, v0: Vol, L: Layout, v: Vol, L': Layout, n: Name, bytes: seq<Byte>, freed: nat,
                   grown: nat)
    requires Shape(g, v0) && Shape(g, v) && Wrote(g, v0, L, v, L', n, bytes, freed, grown)
    ensures NowReads(g, v0, v, n, bytes) && HasLayout(g, v)
  {
    hide NowReads;
  }

  lemma WithSlotData(g: Geometry, v: Vol, v': Vol, c: nat, i: nat, e: Dirent)
    requires Shape(g, v) && Shape(g, v') && g.InRange(c) && i < Epc(g) && v'.data == v.data
    ensures WithSlot(g, v', c, i, e).data == WithSlot(g, v, c, i, e).data
  {
  }

  /** No cluster of [lo, hi) is free. */
  ghost predicate NoneFreeIn(fat: seq<nat>, lo: nat, hi: nat) {
    hi <= |fat| && forall x :: lo <= x < hi ==> fat[x] != CLUSTER_FREE
  }

  // ---------------------------------------------------------------------------
  // Runs
  // ---------------------------------------------------------------------------

  datatype Op = Write(name: seq<Byte>, bytes: seq<Byte>) | Remove(name: seq<Byte>)

  /** A call the syscall layer can make: a C string and a length that does not wrap. */
  ghost predicate Proper(g: Geometry, op: Op) {
    && 0 !in op.name
    && (op.Write? ==> |op.bytes| + g.Bpc() - 1 < 0x1_0000_0000)
  }

  /** SYS_WRITEFILE passes on no other length: its buffer lies in the ring-3 region. */
  lemma CallerFits(g: Geometry, ptr: nat, len: nat)
    requires g.Valid() && Signals.RangeOk(ptr, len)
    ensures len + g.Bpc() - 1 < 0x1_0000_0000
  {
  }

  lemma ProperMeans(g: Geometry, op: Op)
    requires Proper(g, op)
    ensures 0 !in op.name
    ensures op.Write? ==> |op.bytes| + g.Bpc() - 1 < 0x1_0000_0000
  {
  }

  /** The clusters that a call with outcome `ok` leaves to nobody: those of a file whose stored name is the deleted
      mark's. */
  ghost function Lost(g: Geometry, op: Op, ok: bool): nat
    requires g.spc > 0
  {
    if op.Write? && ok && Name83(op.name).Some? && Name83(op.name).value[0] == DIRENT_DELETED
    then Needed(g, |op.bytes|)
    else 0
  }

  ghost function AllLost(g: Geometry, ops: seq<Op>, oks: seq<bool>): nat
    requires g.spc > 0 && |oks| <= |ops|
  {
    if oks == [] then 0 else AllLost(g, ops, oks[..|oks| - 1]) + Lost(g, ops[|oks| - 1], oks[|oks| - 1])
  }

  /** Where a run stands: the volume, who owns what on it, and the memory answers to come. */
  datatype Stand = Stand(v: Vol, L: Layout, grants: seq<bool>)

  /** The call can be served where it stands. */
  ghost predicate Can(g: Geometry, op: Op, a: Stand)
    requires Wf(g, a.v, a.L)
  {
    Name83(op.name).Some? && match op
    case Write(name, bytes) =>
      && CanWrite(g, a.v, a.L, Name83(name).value, |bytes|)
      && Granted(a.grants, Buffers(g, a.v, a.L, Name83(name).value, |bytes|))
    case Remove(name) => CanErase(g, a.v, a.L, Name83(name).value) && Yes(a.grants)
  }

  /** What a name that read as `r` reads as after the call. */
  ghost function Becomes(op: Op, ok: bool, m: Name, r: Option<seq<Byte>>): Option<seq<Byte>> {
    if !ok || Name83(op.name) != Some(m) then r
    else if op.Remove? then None
    else if m[0] == DIRENT_DELETED then r
    else Some(op.bytes)
  }

  ghost predicate Stepped(g: Geometry, op: Op, a: Stand, b: Stand, ok: bool) {
    && Wf(g, a.v, a.L) && Wf(g, b.v, b.L) && (ok <==> Can(g, op, a)) && Later(a.grants, b.grants)
    && forall m: Name :: ReadName(g, b.v, m) == Becomes(op, ok, m, ReadName(g, a.v, m))
  }

  lemma IdleStep(g: Geometry, op: Op, a: Stand, b: Stand)
    requires Wf(g, a.v, a.L) && Wf(g, b.v, b.L) && !Can(g, op, a) && SameReads(g, a.v, b.v) && Later(a.grants, b.grants)
    ensures Stepped(g, op, a, b, false)
  {
    hide Wf, Can, ReadName;
  }

  lemma WroteStep(g: Geometry, name: seq<Byte>, bytes: seq<Byte>, a: Stand, b: Stand, freed: nat, grown: nat)
    requires Wf(g, a.v, a.L) && Can(g, Write(name, bytes), a) && Shape(g, b.v) && Later(a.grants, b.grants)
    requires Wrote(g, a.v, a.L, b.v, b.L, Name83(name).value, bytes, freed, grown)
    ensures Stepped(g, Write(name, bytes), a, b, true)
  {
    hide Wf, Can, ReadName, Name83, Unowned, FreeSet, Needed;
    CanName(g, Write(name, bytes), a);
  }

  lemma CanName(g: Geometry, op: Op, a: Stand)
    requires Wf(g, a.v, a.L) && Can(g, op, a)
    ensures Name83(op.name).Some?
  {
  }

  lemma ErasedStep(g: Geometry, name: seq<Byte>, a: Stand, b: Stand)
    requires Wf(g, a.v, a.L) && Wf(g, b.v, b.L) && Name83(name).Some? && Can(g, Remove(name), a)
    requires SameReadsBut(g, a.v, b.v, Name83(name).value) && ReadName(g, b.v, Name83(name).value) == None
    requires Later(a.grants, b.grants)
    ensures Stepped(g, Remove(name), a, b, true)
  {
    hide Wf, Can, ReadName, Name83;
  }

  /** The calls of a run, one after another. */
  ghost predicate Steps(g: Geometry, ops: seq<Op>, oks: seq<bool>, st: seq<Stand>) {
    && |oks| <= |ops| && |st| == |oks| + 1
    && forall j :: 0 <= j < |oks| ==> Stepped(g, ops[j], st[j], st[j + 1], oks[j])
  }

  lemma StepsOn(g: Geometry, ops: seq<Op>, oks: seq<bool>, st: seq<Stand>, ok: bool, b: Stand)
    requires Steps(g, ops, oks, st) && |oks| < |ops| && Stepped(g, ops[|oks|], st[|oks|], b, ok)
    ensures Steps(g, ops, oks + [ok], st + [b])
  {
    hide Stepped;
  }

  /** What a name that read as `r` at the start reads as after a run: what the last successful call on it left. */
  ghost function LastOf(ops: seq<Op>, oks: seq<bool>, m: Name, r: Option<seq<Byte>>): Option<seq<Byte>>
    requires |oks| <= |ops|
  {
    if oks == [] then r else
      var k := |oks| - 1;
      Becomes(ops[k], oks[k], m, LastOf(ops, oks[..k], m, r))
  }

  lemma {:induction false} LastRead(g: Geometry, ops: seq<Op>, oks: seq<bool>, st: seq<Stand>, m: Name)
    requires Steps(g, ops, oks, st) && Shape(g, st[0].v) && Shape(g, st[|oks|].v)
    ensures ReadName(g, st[|oks|].v, m) == LastOf(ops, oks, m, ReadName(g, st[0].v, m))
  {
    hide ReadName, Becomes, Can, Wf;
    if oks != [] {
      var k := |oks| - 1;
      assert Stepped(g, ops[k], st[k], st[k + 1], oks[k]);
      WfRoot(g, st[k].v, st[k].L);
      LastRead(g, ops, oks[..k], st[..k + 1], m);
    }
  }

  /** No successful write of a name that begins with the deleted mark, nothing lost. */
  lemma {:induction false} NothingLost(g: Geometry, ops: seq<Op>, oks: seq<bool>)
    requires g.spc > 0 && |oks| <= |ops|
    requires forall j :: 0 <= j < |oks| && ops[j].Write? && oks[j] && ops[j].name != [] ==>
              ops[j].name[0] != DIRENT_DELETED
    ensures AllLost(g, ops, oks) == 0
  {
    if oks != [] {
      var j := |oks| - 1;
      NothingLost(g, ops, oks[..j]);
      if Name83(ops[j].name).Some? {
        LostNames(ops[j].name, Name83(ops[j].name).value);
      }
    }
  }

  /** The set of clusters nobody owns has grown by `lost`. */
  ghost predicate Leaked(g: Geometry, v0: Vol, L: Layout, v: Vol, L': Layout, lost: nat)
    requires Shape(g, v0) && Shape(g, v)
  {
    Unowned(g, v0, L) <= Unowned(g, v, L') && |Unowned(g, v, L')| == |Unowned(g, v0, L)| + lost
  }

  lemma LeakedJoin(g: Geometry, v0: Vol, L0: Layout, v1: Vol, L1: Layout, v2: Vol, L2: Layout, a: nat, b: nat)
    requires Shape(g, v0) && Shape(g, v1) && Shape(g, v2) && Leaked(g, v0, L0, v1, L1, a)
    requires Leaked(g, v1, L1, v2, L2, b)
    ensures Leaked(g, v0, L0, v2, L2, a + b)
  {
    hide Unowned;
  }

  lemma LeakedNone(g: Geometry, v0: Vol, L: Layout, v: Vol, L': Layout)
    requires Shape(g, v0) && Shape(g, v)
    ensures Leaked(g, v0, L, v, L', 0) <==> Unowned(g, v, L') == Unowned(g, v0, L)
  {
    hide Unowned;
    if Leaked(g, v0, L, v, L', 0) {
      SameSize(Unowned(g, v0, L), Unowned(g, v, L'));
    }
  }

  lemma SameSize(a: set<nat>, b: set<nat>)
    requires a <= b && |a| == |b|
    ensures a == b
  {
    if x :| x in b && x !in a {
      SubsetSize(a, b - {x});
    }
  }

  lemma WroteUnowned(g: Geometry, v0: Vol, L: Layout, v: Vol, L': Layout, name: seq<Byte>, bytes: seq<Byte>,
                     freed: nat, grown: nat)
    requires Shape(g, v0) && Shape(g, v) && Name83(name).Some?
    requires Wrote(g, v0, L, v, L', Name83(name).value, bytes, freed, grown)
    ensures Wf(g, v, L') && Leaked(g, v0, L, v, L', Lost(g, Write(name, bytes), true))
  {
    hide Name83, NowReads, Wf, FreeSet, Needed;
    LeakedNone(g, v0, L, v, L');
  }

  lemma UnownedSame(g: Geometry, v0: Vol, v: Vol, L: Layout)
    requires Shape(g, v0) && Shape(g, v) && v.fat == v0.fat
    ensures Unowned(g, v, L) == Unowned(g, v0, L)
  {
  }

  lemma TouchedInRange(g: Geometry, v: Vol, L: Layout, n: Option<Name>)
    requires Wf(g, v, L)
    ensures Touched(g, v, L, n) <= Clusters(g)
  {
    hide Wf, Owned;
    WfRoot(g, v, L);
    forall c | c in Touched(g, v, L, n) ensures g.InRange(c) {
      if c in L.root {
        InChain(g, v.fat, L.root, c);
      } else if c !in FreeSet(g, v.fat) {
        var k: nat :| k < |L.files| && c in L.files[k];
        OwnedIntro(L, k);
        OwnedNotFree(g, v, L, c);
      }
    }
  }

  lemma EndMasked()
    ensures CLUSTER_END % ENTRY_MOD == CLUSTER_END
  {
  }

  lemma FlatBlank(d: Disk, base: nat, n: nat)
    requires base + n <= |d| && forall b :: 0 <= b < |d| ==> d[b] == Zeros(512)
    ensures Flat(d, base, n) == Zeros(512 * n)
  {
    forall i | 0 <= i < 512 * n ensures Flat(d, base, n)[i] == 0 {
      assert d[base + i / 512] == Zeros(512);
    }
  }

  lemma SameLength(g: Geometry, d: Disk, d': Disk, S: set<nat>)
    requires Fits(g, d) && Within(g, d, d', S)
    ensures |d'| == |d|
  {
  }

  /** Nothing on the volume but an empty root directory of one cluster. */
  ghost predicate IsBlank(g: Geometry, v: Vol) {
    && Shape(g, v) && g.InRange(g.root) && v.fat[g.root] >= CLUSTER_END && v.data[g.root] == Zeros(g.Bpc())
    && forall c: nat :: g.InRange(c) && c != g.root ==> v.fat[c] == CLUSTER_FREE
  }

  /** Such a volume has room for whatever fits its other clusters, and no cluster without an owner. */
  lemma BlankRoom(g: Geometry, v: Vol, n: Name, len: nat)
    requires g.Valid() && IsBlank(g, v) && Wf(g, v, Layout([g.root], seq(Epc(g), i => [])))
    ensures var L := Layout([g.root], seq(Epc(g), i => []));
            && (CanWrite(g, v, L, n, len) <==> Needed(g, len) < g.total) && Unowned(g, v, L) == {}
            && ReadName(g, v, n) == None
  {
    hide Needed;
    var L := Layout([g.root], seq(Epc(g), i => []));
    assert L.root[1..] == [];
    ZeroSlots(g.Bpc());
    assert Dir(g, v, L.root) == Slots(Zeros(g.Bpc()));
    var s := Dir(g, v, L.root);
    EpcSome(g);
    assert s[0][0] == DIRENT_FREE && AllPass(s, n, 0) && IsMiss(s, n);
    assert FreeSlot(s[0]);
    assert FreeSet(g, v.fat) == Clusters(g) - {g.root};
    ReadNameAt(g, v, L.root, n, 0);
  }

  lemma EpcSome(g: Geometry)
    requires g.Valid()
    ensures Epc(g) > 0
  {
  }

  lemma BlankMeans(g: Geometry, d: Disk)
    requires Fits(g, d) && forall b :: 0 <= b < |d| ==> d[b] == Zeros(512)
    ensures Mirrored(g, d) && g.InRange(g.root) && Abs(g, d).data[g.root] == Zeros(g.Bpc())
    ensures forall c: nat :: g.InRange(c) ==> Abs(g, d).fat[c] == CLUSTER_FREE
  {
    hide Abs, Flat, Geometry.FatBlock;
    forall c: nat | g.InRange(c) ensures Abs(g, d).fat[c] == CLUSTER_FREE {
      AbsMeans(g, d, c);
      FatBlockBounds(g, 0, c);
    }
    AbsMeans(g, d, g.root);
    ClusterBlockBounds(g, g.root);
    FlatBlank(d, g.ClusterBlock(g.root), g.spc);
    forall k, c | 0 <= k < g.nfats && 0 <= c < 128 * g.spf ensures Raw(g, d, k, c) == 0 {
      FatBlockBounds(g, k, c);
    }
  }

  lemma LosesClusters(g: Geometry, bytes: seq<Byte>)
    requires g.Valid() && bytes != []
    ensures Name83([DIRENT_DELETED]).Some? && Name83([DIRENT_DELETED]).value[0] == DIRENT_DELETED
    ensures Needed(g, |bytes|) > 0
  {
    var name := [DIRENT_DELETED];
    assert BaseEnd(name) == 1;
    LostNames(name, Name83(name).value);
  }

  /** A file written to a fresh volume under a name nobody can find keeps its clusters for ever. */
  method LoseClusters(g: Geometry, n: nat, bytes: seq<Byte>) returns (fs: Fat32, ghost L: Layout)
    requires g.Valid() && g.Laid(n) && bytes != [] && |bytes| + g.Bpc() - 1 < 0x1_0000_0000
    requires Needed(g, |bytes|) < g.total
    ensures fresh(fs) && fs.Valid() && fs.g == g && Wf(g, fs.V(), L)
    ensures |Unowned(g, fs.V(), L)| == Needed(g, |bytes|) > 0
    ensures forall m: Name :: ReadName(g, fs.V(), m) == None
  {
    hide Abs, Wf, Span, Unowned, Touched, CanWrite, ReadName, Name83, AllCrash, HasGap, Needed, Geometry.Bpc,
         Geometry.Laid, Mirrored;
    hide FreeSet, SameReads, Replaced, Grows, IsBlank;
    fs := Fat32.Format(g, n, []);
    ghost var L0, v0 := Layout([g.root], seq(Epc(g), i => [])), fs.V();
    LosesClusters(g, bytes);
    ghost var wanted := Name83([DIRENT_DELETED]).value;
    forall m: Name ensures ReadName(g, v0, m) == None {
      BlankRoom(g, v0, m, 0);
    }
    BlankRoom(g, v0, wanted, |bytes|);
    var ok;
    ok, L := fs.WriteFile([DIRENT_DELETED], bytes, L0);
  }

  class Fat32 {
    const g: Geometry
    var disk: Disk
    var hint: nat           // fs_next_free_hint
    ghost var log: seq<Disk>  // the disk after each single-sector write so far
    var grants: seq<bool>     // how the requests for memory to come are answered

    ghost predicate Valid()
      reads this`disk, this`log
    {
      Fits(g, disk) && |log| > 0 && log[|log| - 1] == disk
    }

    ghost function V(): Vol
      reads this`disk, this`log
      requires Valid()
    {
      Abs(g, disk)
    }

    constructor (g: Geometry, disk: Disk, grants: seq<bool>)
      requires Fits(g, disk)
      ensures Valid() && this.g == g && this.disk == disk && this.grants == grants
    {
      this.g := g;
      this.disk := disk;
      this.hint := 2;
      this.log := [disk];
      this.grants := grants;
    }

    /** A blank disk with the root cluster marked: the smallest well-formed volume, copies in step. */
    static method Format(g: Geometry, n: nat, grants: seq<bool>) returns (fs: Fat32)
      requires g.Valid() && g.Laid(n)
      ensures fresh(fs) && fs.Valid() && fs.g == g && |fs.disk| == n && Mirrored(g, fs.disk) && fs.grants == grants
      ensures Wf(g, fs.V(), Layout([g.root], seq(Epc(g), i => []))) && IsBlank(g, fs.V())
    {
      hide Abs, Wf, Geometry.Laid, Within, Mirrored;
      var d: Disk := seq(n, b => Zeros(512));
      fs := new Fat32(g, d, grants);
      BlankMeans(g, d);
      ghost var v := fs.V();
      fs.SetEntry(g.root, CLUSTER_END);
      SameLength(g, d, fs.disk, {g.root});
      EndMasked();
      EmptyWf(g, fs.V());
    }

    /** disk_write of one sector. */
    method WriteSector(b: nat, s: Sector)
      requires Valid() && b < |disk|
      modifies this`disk, this`log
      ensures disk == old(disk)[b := s]
      ensures log == old(log) + [disk]
    {
      disk := disk[b := s];
      log := log + [disk];
    }

    /** kmalloc of a cluster buffer. */
    method Kmalloc() returns (ok: bool)
      modifies this`grants
      ensures ok == Yes(old(grants)) && grants == Rest(old(grants), 1)
    {
      ok := Yes(grants);
      grants := Rest(grants, 1);
    }

    method GetEntry(c: nat) returns (value: nat)
      requires Valid() && g.InRange(c)
      ensures value == V().fat[c] == Fat32Format.Link(g, disk, c)
    {
      hide Abs, LE32, Geometry.Laid;
      Fat32Format.PlainLink(g, disk, c);
      EntryInSector(g, disk, c);
      var buf := disk[g.reserved + c / 128];
      value := LE32(buf, 4 * (c % 128)) % ENTRY_MOD;
    }

    /** One pass of fat32_set_entry's loop: the read-modify-write of copy `k`. */
    method SetCopy(k: nat, c: nat, value: nat)
      requires Valid() && k < g.nfats && c < 128 * g.spf
      modifies this`disk, this`log
      ensures Valid() && log == old(log) + [disk] && |disk| == |old(disk)|
      ensures Raw(g, disk, k, c) == Merge(Raw(g, old(disk), k, c), value)
      ensures forall k', c' :: 0 <= k' < g.nfats && 0 <= c' < 128 * g.spf && (k' != k || c' != c) ==>
                Raw(g, disk, k', c') == Raw(g, old(disk), k', c')
      ensures forall x: nat :: g.InRange(x) ==> Data(g, disk, x) == Data(g, old(disk), x)
      ensures forall b :: 0 <= b < |disk| && (b < g.reserved || g.DataEnd() <= b) ==> disk[b] == old(disk)[b]
    {
      hide Data, LE32, Put32, Geometry.DataEnd, Geometry.Valid;
      FatBlockBounds(g, k, c);
      var block := g.reserved + k * g.spf + c / 128;
      var offset := c % 128 * 4;
      var buf := disk[block];
      var was := LE32(buf, offset);
      var merged := was / ENTRY_MOD * ENTRY_MOD + value % ENTRY_MOD;
      FatSectorWrite(g, disk, k, c, merged, disk[block := Put32(buf, offset, merged)]);
      WriteSector(block, Put32(buf, offset, merged));
    }

    /** Write `value` into slot `c` of every FAT copy. The first copy is written first, so from the
        first sector on a reader sees the new entry, and nothing else ever changes. */
    method SetEntry(c: nat, value: nat)
      requires Valid() && g.InRange(c)
      modifies this`disk, this`log
      ensures Valid() && Continues(old(log), log)
      ensures AllWithin(g, old(disk), log, |old(log)|, {c}) && Within(g, old(disk), disk, {c})
      ensures forall i :: |old(log)| <= i < |log| ==>
                Abs(g, log[i]) == old(V()).(fat := old(V()).fat[c := value % ENTRY_MOD])
      ensures V() == old(V()).(fat := old(V()).fat[c := value % ENTRY_MOD])
      ensures Mirrored(g, old(disk)) ==> Mirrored(g, disk)
      ensures forall k :: 0 <= k < g.nfats ==> Raw(g, disk, k, c) % 0x1000_0000 == value % 0x1000_0000
    {
      hide Raw, Data, Merge, Geometry.FatBlock, Geometry.DataEnd, Geometry.Laid;
      var k := 0;
      while k < g.nfats
        invariant 0 <= k <= g.nfats
        invariant Valid() && Continues(old(log), log) && |log| == |old(log)| + k
        invariant AllWithin(g, old(disk), log, |old(log)|, {c}) && Within(g, old(disk), disk, {c})
        invariant forall x: nat :: g.InRange(x) ==> Data(g, disk, x) == Data(g, old(disk), x)
        invariant forall j :: 0 <= j < k ==> Raw(g, disk, j, c) % ENTRY_MOD == value % ENTRY_MOD
        invariant forall i :: |old(log)| <= i < |log| ==>
                    Abs(g, log[i]) == old(V()).(fat := old(V()).fat[c := value % ENTRY_MOD])
      {
        SetCopy(k, c, value);
        k := k + 1;
      }
    }

    /** Everything written since the history was `log0` and the disk `d0` is within `U`. */
    ghost predicate Since(d0: Disk, log0: seq<Disk>, U: set<nat>)
      reads this`disk, this`log
    {
      Span(g, d0, log0, disk, log, U)
    }

    /** SetEntry as one step of a longer operation confined to `U`. */
    method SetEntryIn(c: nat, value: nat, ghost d0: Disk, ghost log0: seq<Disk>, ghost U: set<nat>)
      requires Valid() && g.InRange(c) && value < ENTRY_MOD && c in U && Since(d0, log0, U)
      modifies this`disk, this`log
      ensures Valid() && Since(d0, log0, U)
      ensures V() == old(V()).(fat := old(V()).fat[c := value])
      ensures Continues(old(log), log)
      ensures forall i :: |old(log)| <= i < |log| ==> Fits(g, log[i]) && Abs(g, log[i]) == V()
    {
      hide Abs, Within, AllWithin, Mirrored, Continues, Geometry.Laid;
      SetEntry(c, value);
      SpanJoin(g, d0, log0, old(disk), old(log), disk, log, U, {c}, U);
      AllFit(g, old(disk), log, |old(log)|, {c});
    }

    lemma SinceNow(U: set<nat>)
      requires Valid()
      ensures Since(disk, log, U)
    {
      WithinSelf(g, disk, U);
    }

    /** One span of find_free_cluster's scan, a FAT sector at a time: the first free cluster of
        [lo, hi), if there is one. */
    method ScanSpan(lo: nat, hi: nat) returns (found: bool, cluster: nat)
      requires Valid() && 2 <= lo <= hi <= g.total + 2
      ensures found ==> lo <= cluster < hi && V().fat[cluster] == CLUSTER_FREE
      ensures NoneFreeIn(V().fat, lo, if found then cluster else hi)
    {
      hide Abs, LE32, Geometry.Laid;
      ghost var fat := V().fat;
      cluster := lo;
      while cluster < hi
        invariant lo <= cluster <= hi && NoneFreeIn(fat, lo, cluster)
      {
        EntryInSector(g, disk, cluster);
        var sector := cluster / 128;
        var buf := disk[g.reserved + sector];
        var idx := cluster % 128;
        while idx < 128 && cluster < hi
          invariant lo <= cluster <= hi && cluster == 128 * sector + idx && idx <= 128
          invariant NoneFreeIn(fat, lo, cluster)
        {
          EntryInSector(g, disk, cluster);
          if LE32(buf, 4 * idx) % ENTRY_MOD == CLUSTER_FREE {
            return true, cluster;
          }
          idx, cluster := idx + 1, cluster + 1;
        }
      }
      found := false;
    }

    /** Find one free cluster, scanning from the hint and wrapping once. */
    method FindFreeCluster() returns (found: bool, cluster: nat)
      requires Valid()
      modifies this`hint
      ensures found <==> FreeSet(g, V().fat) != {}
      ensures found ==> cluster in FreeSet(g, V().fat)
      ensures found ==> hint == if cluster + 1 < g.total + 2 then cluster + 1 else 2
      ensures !found ==> hint == old(hint)
      ensures found ==>
                var start := if 2 <= old(hint) < g.total + 2 then old(hint) else 2;
                if cluster >= start then NoneFreeIn(V().fat, start, cluster)
                else NoneFreeIn(V().fat, start, g.total + 2) && NoneFreeIn(V().fat, 2, cluster)
    {
      hide Abs, Geometry.Laid;
      var limit := g.total + 2;
      var start := hint;
      if start < 2 || start >= limit {
        start := 2;
      }
      found, cluster := ScanSpan(start, limit);
      if !found {
        found, cluster := ScanSpan(2, start);
      }
      if found {
        hint := if cluster + 1 < limit then cluster + 1 else 2;
      }
    }

    /** Count every free cluster, a FAT sector at a time. */
    method FreeCount() returns (free: nat)
      requires Valid()
      ensures free == |FreeSet(g, V().fat)|
    {
      hide Abs, LE32, FreeBelow, FreeSet, Fits;
      ghost var fat := V().fat;
      var limit := g.total + 2;
      free := 0;
      var cluster := 2;
      FreeBelowFirst(g, fat);
      while cluster < limit
        invariant 2 <= cluster <= limit && free == |FreeBelow(g, fat, cluster)|
        invariant cluster == limit ==> FreeBelow(g, fat, cluster) == FreeSet(g, fat)
      {
        EntryInSector(g, disk, cluster);
        var sector := cluster / 128;
        var buf := disk[g.reserved + sector];
        var idx := cluster % 128;
        while idx < 128 && cluster < limit
          invariant 2 <= cluster <= limit && cluster == 128 * sector + idx && idx <= 128
          invariant free == |FreeBelow(g, fat, cluster)|
          invariant cluster == limit ==> FreeBelow(g, fat, cluster) == FreeSet(g, fat)
        {
          EntryInSector(g, disk, cluster);
          FreeBelowStep(g, fat, cluster);
          if LE32(buf, 4 * idx) % ENTRY_MOD == CLUSTER_FREE {
            free := free + 1;
          }
          idx, cluster := idx + 1, cluster + 1;
        }
      }
    }

    /** Free every cluster reachable from `first`, on any table at all. The walk fails only when it
        covers the whole volume and still closes a cycle. */
    method FreeChain(first: nat) returns (ok: bool)
      requires Valid()
      modifies this`disk, this`log, this`hint
      ensures Valid()
      ensures var w := Walk(g, old(V()).fat, first, {});
              && V() == old(V()).(fat := Zeroed(old(V()).fat, Elems(w)))
              && Since(old(disk), old(log), Elems(w))
              && (ok <==> !(|w| == g.total && Cyclic(g, old(V()).fat, first)))
              && (if ok && w != [] then hint in w && forall x :: x in w ==> hint <= x else hint == old(hint))
              && AllPartly(g, old(V()), log, |old(log)|, Elems(w)) && Continues(old(log), log)
    {
      hide Abs, Within, Mirrored, Walk, WalkEnd, WalkState, Zeroed, Cyclic, Span, Partly, Continues;
      ghost var v0, w := V(), Walk(g, V().fat, first, {});
      var cluster, steps, lowest, foundLowest := first, 0, 0, false;
      ghost var visited: seq<nat>, looped := [], false;
      SinceNow(Elems(w));
      WalkStateInit(g, v0.fat, first);
      ChainFits(g, w);
      assert Zeroed(v0.fat, Elems(visited)) == v0.fat;
      ContinuesSelf(log);
      while steps <= g.total
        invariant Valid() && Since(old(disk), old(log), Elems(w))
        invariant AllPartly(g, v0, log, |old(log)|, Elems(w)) && Continues(old(log), log) && Elems(visited) <= Elems(w)
        invariant V() == v0.(fat := Zeroed(v0.fat, Elems(visited)))
        invariant !looped ==> steps == |visited| && WalkState(g, v0.fat, first, visited, cluster)
        invariant looped ==> steps == |visited| + 1 && visited == w && cluster == 0 && Cyclic(g, v0.fat, first)
        invariant hint == old(hint) && (foundLowest <==> visited != [])
        invariant foundLowest ==> lowest in visited && forall x :: x in visited ==> lowest <= x
        decreases g.total + 1 - steps
      {
        if !g.InRange(cluster) { break; }
        WalkStateFits(g, v0.fat, first, visited, cluster);
        ZeroedStep(v0.fat, visited, cluster);
        if cluster in visited {
          WalkStateDone(g, v0.fat, first, visited, cluster);
        } else {
          WalkStateStep(g, v0.fat, first, visited, cluster);
        }
        var next := GetEntry(cluster);
        ghost var log1 := log;
        SetEntryIn(cluster, CLUSTER_FREE, old(disk), old(log), Elems(w));
        ContinuesJoin(old(log), log1, log);
        PartlyMore(g, v0, V(), log1, log, |old(log)|, Elems(visited) + {cluster}, Elems(w));
        if cluster in visited { looped := true; } else { visited := visited + [cluster]; }
        if !foundLowest || cluster < lowest {
          lowest, foundLowest := cluster, true;
        }
        cluster, steps := next, steps + 1;
      }
      if !looped {
        WalkStateFits(g, v0.fat, first, visited, cluster);
        WalkStateDone(g, v0.fat, first, visited, cluster);
      }
      if steps > g.total {
        return false;
      }
      if foundLowest {
        hint := lowest;
      }
      ok := true;
    }

    /** Claim `cluster` as the new tail: mark it END, then point the old tail at it. */
    method ClaimCluster(cluster: nat, prev: nat, ghost ch: seq<nat>, ghost d0: Disk, ghost log0: seq<Disk>,
                        ghost F: set<nat>)
      requires Valid() && Since(d0, log0, F) && g.InRange(cluster) && cluster in F
      requires if ch == [] then prev == 0 else prev == ch[|ch| - 1] && g.InRange(prev) && prev in F
      modifies this`disk, this`log
      ensures Valid() && Since(d0, log0, F)
      ensures V() == old(V()).(fat := ClaimFat(old(V()).fat, ch, cluster))
    {
      hide Abs, Span;
      SetEntryIn(cluster, CLUSTER_END, d0, log0, F);
      if prev != 0 {
        SetEntryIn(prev, cluster, d0, log0, F);
      }
    }

    /** alloc_chain for `bytes` bytes. It succeeds exactly when the clusters it asks for are free; a
        failure leaves every slot as it was. */
    method AllocChain(bytes: nat) returns (ok: bool, first: nat, ghost ch: seq<nat>)
      requires Valid() && bytes < 0x1_0000_0000
      modifies this`disk, this`log, this`hint
      ensures Valid() && Since(old(disk), old(log), FreeSet(g, old(V()).fat))
      ensures ok <==> bytes != 0 && Asked(g, bytes) <= |FreeSet(g, old(V()).fat)|
      ensures !ok ==> V() == old(V())
      ensures ok ==> Claiming(g, old(V()), V(), ch) && first == Start(ch) && |ch| == Asked(g, bytes)
    {
      hide Abs, Span, FreeSet, Claimed, ClaimFat, Asked, Geometry.Bpc, Geometry.Laid;
      ghost var v0, F := V(), FreeSet(g, V().fat);
      first := 0;
      ch := [];
      SinceNow(F);
      if bytes == 0 {
        return false, 0, [];
      }
      var needed := Asked(g, bytes);
      var prev := 0;
      var i := 0;
      while i < needed
        invariant 0 <= i <= needed && |ch| == i
        invariant Valid() && Since(old(disk), old(log), F) && Claiming(g, v0, V(), ch)
        invariant if i == 0 then first == prev == 0
                  else first == ch[0] && prev == ch[i - 1] && g.InRange(first) && g.InRange(prev)
      {
        FreeAfter(g, v0, V(), ch);
        var found, cluster := FindFreeCluster();
        if !found {
          if first != 0 {
            Release(first, v0, ch, old(disk), old(log), F);
          }
          return false, 0, [];
        }
        ClaimStep(g, v0, V(), ch, cluster);
        ClaimCluster(cluster, prev, ch, old(disk), old(log), F);
        if prev == 0 {
          first := cluster;
        }
        ch := ch + [cluster];
        prev, i := cluster, i + 1;
      }
      FreeAfter(g, v0, V(), ch);
      ok := true;
    }

    /** The unwind of a half-built or abandoned chain: free_chain on it. */
    method Release(first: nat, ghost v0: Vol, ghost ch: seq<nat>, ghost d0: Disk, ghost log0: seq<Disk>,
                   ghost F: set<nat>)
      requires Valid() && Shape(g, v0) && Claimed(g, v0, V(), ch) && first == ch[0]
      requires Since(d0, log0, F) && Elems(ch) <= F
      modifies this`disk, this`log, this`hint
      ensures Valid() && Since(d0, log0, F) && V() == v0
    {
      hide Abs, Walk, Within, AllWithin, Mirrored, Continues;
      Unclaim(g, v0, V(), ch);
      var _ := FreeChain(first);
      SpanJoin(g, d0, log0, old(disk), old(log), disk, log, F, Elems(ch), F);
    }

    // -------------------------------------------------------------------------
    // Reading
    // -------------------------------------------------------------------------

    /** disk_read of one whole cluster. */
    method ReadCluster(c: nat) returns (buf: seq<Byte>)
      requires Valid() && g.InRange(c)
      ensures buf == V().data[c]
    {
      hide Abs, Flat, Geometry.DataEnd;
      ClusterBlockBounds(g, c);
      AbsMeans(g, disk, c);
      buf := Flat(disk, g.ClusterBlock(c), g.spc);
    }

    /** The inner loop of the directory searches. */
    method ScanCluster(buf: seq<Byte>, n: Name) returns (r: Scan)
      ensures r == ScanFrom(buf, 0, n)
    {
      var entries := |buf| / 32;
      var i := 0;
      while i < entries
        invariant 0 <= i <= entries && ScanFrom(buf, 0, n) == ScanFrom(buf, i, n)
      {
        var e := Slot(buf, i);
        if e[0] == DIRENT_FREE {
          return Stop;
        }
        if e[0] != DIRENT_DELETED && Usable(e) && e[..11] == n {
          return Hit(i);
        }
        i := i + 1;
      }
      r := More;
    }

    /** locate_root_entry, and walk_directory's lookup: `r` tells where the entry is. The walk answers
        what Locate says of the volume, unless the cluster buffer was refused. */
    method LocateRootEntry(n: Name) returns (r: Loc, e: Dirent)
      requires Valid()
      modifies this`grants
      ensures grants == Rest(old(grants), 1)
      ensures r == if Yes(old(grants)) then Locate(g, V(), g.root, 0, 0, n) else LocError
      ensures r.LocFound? ==> e == Slot(V().data[r.cluster], r.index)
    {
      hide Abs, ScanFrom, Slot, Geometry.Laid, Rest;
      e := Zeros(32);
      var ok := Kmalloc();
      if !ok {
        return LocError, e;
      }
      ghost var v := V();
      var cluster, steps, base := g.root, 0, 0;
      while steps <= g.total
        invariant steps <= g.total + 1 && base >= 0 && grants == Rest(old(grants), 1)
        invariant Locate(g, v, g.root, 0, 0, n) == Locate(g, v, cluster, steps, base, n)
        decreases g.total + 1 - steps
      {
        if !g.InRange(cluster) {
          return LocError, e;
        }
        var buf := ReadCluster(cluster);
        var scan := ScanCluster(buf, n);
        if scan.Hit? {
          e := Slot(buf, scan.i);
          return LocFound(base + scan.i, cluster, scan.i), e;
        }
        if scan.Stop? {
          return LocAbsent, e;
        }
        var entry := GetEntry(cluster);
        var step := NextCluster(g, entry);
        if step.ChainEnd? {
          return LocAbsent, e;
        }
        if step.ChainError? {
          return LocError, e;
        }
        cluster, steps, base := step.next, steps + 1, base + Epc(g);
      }
      r := LocError;
    }

    /** fat32_read_file: the contents of the file of that name on the disk, if there is one and it fits; the two buffers
        it asks for aside, nothing else decides. */
    method ReadFile(name: seq<Byte>, bufsize: nat) returns (r: Option<seq<Byte>>)
      requires Valid()
      modifies this`grants
      ensures r == match Name83(name)
                   case None => None
                   case Some(n) =>
                     if Granted(old(grants), ReadBuffers(g, V(), n, bufsize))
                     then Fitting(ReadName(g, V(), n), bufsize)
                     else None
      ensures Later(old(grants), grants)
      ensures forall b :: r == Some(b) ==>
                && |b| <= bufsize && Name83(name).Some?
                && exists path, i, ch :: Fat32Format.Filed(g, disk, Name83(name).value, path, i, ch, b)
      ensures Name83(name).Some? && Granted(old(grants), 2) ==>
                forall path, i, ch, b ::
                  Fat32Format.Filed(g, disk, Name83(name).value, path, i, ch, b) && |b| <= bufsize ==> r == Some(b)
    {
      hide Abs, Name83, ReadName, ReadBuffers, Geometry.Laid, Granted, Rest, Later, Fat32Format.Filed;
      r := Fetch(name, bufsize);
      if Name83(name).Some? {
        ghost var n := Name83(name).value;
        AtMostTwo(old(grants), n, bufsize);
        forall b: seq<Byte>
          ensures ReadName(g, V(), n) == Some(b) <==>
                    exists path, i, ch :: Fat32Format.Filed(g, disk, n, path, i, ch, b)
        {
          Fat32Format.ReadsFormat(g, disk, n, b);
        }
      }
    }

    lemma AtMostTwo(gs: seq<bool>, n: Name, bufsize: nat)
      requires Valid()
      ensures Granted(gs, 2) ==> Granted(gs, ReadBuffers(g, V(), n, bufsize))
    {
    }

    /** fat32_read_file: the bytes the name reads as, if they fit the caller's buffer. */
    method Fetch(name: seq<Byte>, bufsize: nat) returns (r: Option<seq<Byte>>)
      requires Valid()
      modifies this`grants
      ensures r == match Name83(name)
                   case None => None
                   case Some(n) =>
                     if Granted(old(grants), ReadBuffers(g, V(), n, bufsize))
                     then Fitting(ReadName(g, V(), n), bufsize)
                     else None
      ensures Later(old(grants), grants)
    {
      hide Abs, Name83, Locate, Slot, Geometry.Laid, Granted, Rest, Later;
      LaterBy(grants, 0);
      LaterBy(grants, 1);
      LaterBy(grants, 2);
      OneRequest(grants);
      InTurn(grants, 1, 0);
      InTurn(grants, 1, 1);
      OneRequest(Rest(grants, 1));
      var wanted := NameTo83(name);
      if wanted == None {
        return None;
      }
      var loc, e := LocateRootEntry(wanted.value);
      if !loc.LocFound? || IsDirectory(e) {
        return None;
      }
      if Size(e) > bufsize {
        ReadFromSize(g, V(), First(e), Size(e), 0);
        return None;
      }
      r := ReadEntry(First(e), Size(e));
    }

    /** The data walk of fat32_read_file. */
    method ReadEntry(first: nat, size: nat) returns (r: Option<seq<Byte>>)
      requires Valid()
      modifies this`grants
      ensures grants == Rest(old(grants), if size == 0 || !g.InRange(first) then 0 else 1)
      ensures r == if size == 0 || !g.InRange(first) || Yes(old(grants)) then ReadFrom(g, V(), first, size, 0) else None
    {
      hide Abs, Geometry.Laid, Rest;
      OneRequest(grants);
      if size == 0 {
        return Some([]);
      }
      if !g.InRange(first) {
        return None;
      }
      var ok := Kmalloc();
      if !ok {
        return None;
      }
      ghost var v := V();
      var out: seq<Byte>, cluster, remaining, steps := [], first, size, 0;
      AfterNil(ReadFrom(g, v, first, size, 0));
      while steps <= g.total && remaining > 0
        invariant steps <= g.total + 1 && 0 < remaining && grants == Rest(old(grants), 1)
        invariant ReadFrom(g, v, first, size, 0) == After(out, ReadFrom(g, v, cluster, remaining, steps))
        decreases g.total + 1 - steps
      {
        if !g.InRange(cluster) {
          return None;
        }
        var buf := ReadCluster(cluster);
        var chunk := if remaining < g.Bpc() then remaining else g.Bpc();
        AfterAfter(out, buf[..chunk], ReadFrom(g, v, cluster, remaining, steps));
        if chunk == remaining {
          return Some(out + buf[..chunk]);
        }
        assert buf[..chunk] == buf;
        var entry := GetEntry(cluster);
        var step := NextCluster(g, entry);
        if !step.ChainNext? {
          return None;
        }
        AfterAfter(out, buf, ReadFrom(g, v, step.next, remaining - chunk, steps + 1));
        out, cluster, remaining, steps := out + buf, step.next, remaining - chunk, steps + 1;
      }
      r := None;
    }

    // -------------------------------------------------------------------------
    // Writing
    // -------------------------------------------------------------------------

    /** disk_write of one sector of a data cluster, as one step of an operation confined to `U`. */
    method WriteDataSector(c: nat, j: nat, s: Sector, ghost d0: Disk, ghost log0: seq<Disk>, ghost U: set<nat>)
      requires Valid() && g.InRange(c) && j < g.spc && c in U && Since(d0, log0, U)
      modifies this`disk, this`log
      ensures Valid() && Since(d0, log0, U) && log == old(log) + [disk]
      ensures V() == old(V()).(data := old(V()).data[c := Splice(old(V()).data[c], 512 * j, s)])
    {
      hide Abs, Within, Mirrored, Splice, Geometry.ClusterBlock, Geometry.DataEnd;
      ClusterBlockBounds(g, c);
      AbsSectorWrite(g, disk, c, j, s, disk[g.ClusterBlock(c) + j := s]);
      WriteSector(g.ClusterBlock(c) + j, s);
      SpanJoin(g, d0, log0, old(disk), old(log), disk, log, U, {c}, U);
    }

    /** disk_write of one whole cluster: its sectors, in order. */
    method WriteCluster(c: nat, buf: seq<Byte>, ghost d0: Disk, ghost log0: seq<Disk>, ghost U: set<nat>)
      requires Valid() && g.InRange(c) && |buf| == g.Bpc() && c in U && Since(d0, log0, U)
      modifies this`disk, this`log
      ensures Valid() && Since(d0, log0, U)
      ensures V() == old(V()).(data := old(V()).data[c := buf])
    {
      hide Abs, Span, Splice, Geometry.Laid;
      ghost var v0 := V();
      var j := 0;
      MixEnds(buf, v0.data[c]);
      assert v0.data == v0.data[c := v0.data[c]];
      while j < g.spc
        invariant 0 <= j <= g.spc
        invariant Valid() && Since(d0, log0, U)
        invariant V() == v0.(data := v0.data[c := Mix(buf, v0.data[c], 512 * j)])
      {
        MixStep(buf, v0.data[c], j);
        WriteDataSector(c, j, buf[512 * j..512 * j + 512], d0, log0, U);
        j := j + 1;
      }
    }

    /** Step 4 of fat32_write_file: lay `src` into the claimed chain, zero-filling the last cluster. */
    method FillChain(first: nat, src: seq<Byte>, ghost ch: seq<nat>, ghost d0: Disk, ghost log0: seq<Disk>,
                     ghost U: set<nat>)
      returns (failed: bool)
      requires Valid() && src != [] && IsChain(g, V().fat, ch) && ch[0] == first && |ch| == Needed(g, |src|)
      requires Elems(ch) <= U && Since(d0, log0, U)
      modifies this`disk, this`log
      ensures Valid() && Since(d0, log0, U) && !failed
      ensures V().fat == old(V()).fat && forall c: nat :: c < |V().data| && c !in ch ==> V().data[c] == old(V()).data[c]
      ensures Content(g, V(), ch, |src|) == Some(src)
    {
      hide Abs, Span, Geometry.Laid, Geometry.Bpc, Needed, Cat, Content;
      var off, remaining, cluster := 0, |src|, first;
      ghost var p := 0;
      CatNone(g, V());
      while remaining > 0
        invariant off + remaining == |src| && 0 < remaining
        invariant 0 <= p < |ch| && cluster == ch[p] && |ch| - p == Needed(g, remaining)
        invariant Valid() && Since(d0, log0, U) && V().fat == old(V()).fat
        invariant forall c: nat :: c < |V().data| && c !in ch ==> V().data[c] == old(V()).data[c]
        invariant Cat(g, V(), ch[..p]) == src[..off]
        decreases remaining
      {
        var chunk := if remaining < g.Bpc() then remaining else g.Bpc();
        var buf := src[off..off + chunk] + Zeros(g.Bpc() - chunk);
        ghost var v1 := V();
        WriteCluster(cluster, buf, d0, log0, U);
        CatFrame(g, v1, V(), ch[..p]);
        NeededStep(g, remaining);
        off, remaining := off + chunk, remaining - chunk;
        if remaining == 0 {
          assert ch == ch[..p] + [cluster] && src == src[..off - chunk] + src[off - chunk..];
          LastChunk(g, V(), ch, ch[..p], cluster, src, src[..off - chunk], src[off - chunk..]);
          return false;
        }
        CatAppend(g, V(), ch[..p], cluster);
        assert ch[..p + 1] == ch[..p] + [cluster];
        assert p + 1 < |ch| && V().fat[ch[p]] == ch[p + 1];
        var entry := GetEntry(cluster);
        var step := NextCluster(g, entry);
        if !step.ChainNext? {
          return true;
        }
        cluster, p := step.next, p + 1;
      }
    }

    /** The search of find_free_dirent: the first slot a new entry may take, or the last cluster of a
        directory that has none. */
    method FindSlot(ghost L: Layout) returns (r: SlotSearch)
      requires Valid() && Wf(g, V(), L)
      modifies this`grants
      ensures grants == Rest(old(grants), 1) && (!r.SearchFailed? <==> Yes(old(grants)))
      ensures match r
              case SearchFailed => true
              case SlotAt(k, c, i) =>
                && Lies(g, L.root, k, c, i) && k < |Dir(g, V(), L.root)|
                && (Dir(g, V(), L.root)[k][0] == 0 || Dir(g, V(), L.root)[k][0] == 0xE5)
                && forall j :: 0 <= j < k ==> Dir(g, V(), L.root)[j][0] != 0 && Dir(g, V(), L.root)[j][0] != 0xE5
              case DirFull(last) =>
                && last == L.root[|L.root| - 1]
                && forall j :: 0 <= j < |Dir(g, V(), L.root)| ==>
                     Dir(g, V(), L.root)[j][0] != 0 && Dir(g, V(), L.root)[j][0] != 0xE5
    {
      hide Abs, Wf, At, Dir, Lies, Geometry.Laid, Slots, Rest;
      var ok := Kmalloc();
      if !ok {
        return SearchFailed;
      }
      ghost var v, p := V(), 0;
      var cluster, steps, base := g.root, 0, 0;
      WfRoot(g, v, L);
      AtStart(g, v, L.root);
      ghost var s := Dir(g, v, L.root);
      while steps <= g.total
        invariant 0 <= p < |L.root| && steps == p && cluster == L.root[p] && base >= 0
        invariant At(g, v, L.root, p, base) && base <= |s| && grants == Rest(old(grants), 1)
        invariant forall j :: 0 <= j < base ==> !FreeSlot(s[j])
        decreases g.total + 1 - steps
      {
        AtStep(g, v, L.root, p, base);
        var buf := ReadCluster(cluster);
        var i := ScanFree(buf);
        NoneFree(s, Slots(buf), base, i);
        assert p + 1 < |L.root| ==> v.fat[L.root[p]] == L.root[p + 1];
        if i < |buf| / 32 {
          return SlotAt(base + i, cluster, i);
        }
        var entry := GetEntry(cluster);
        var step := NextCluster(g, entry);
        if step.ChainEnd? {
          AtEnd(g, v, L.root, p + 1, base + Epc(g));
          return DirFull(cluster);
        }
        if step.ChainError? {
          return SearchFailed;
        }
        cluster, steps, base, p := step.next, steps + 1, base + Epc(g), p + 1;
      }
      r := SearchFailed;
    }

    /** Its inner loop: the first free slot of one cluster, or how many there are. */
    method ScanFree(buf: seq<Byte>) returns (i: nat)
      ensures i <= |buf| / 32 && (i < |buf| / 32 ==> FreeSlot(Slots(buf)[i]))
      ensures forall j :: 0 <= j < i ==> !FreeSlot(Slots(buf)[j])
    {
      i := 0;
      while i < |buf| / 32
        invariant i <= |buf| / 32 && forall j :: 0 <= j < i ==> !FreeSlot(Slots(buf)[j])
      {
        var first := buf[32 * i];
        assert Slots(buf)[i] == Slot(buf, i);
        if first == DIRENT_FREE || first == DIRENT_DELETED {
          return;
        }
        i := i + 1;
      }
    }

    /** Every state since `log0` reads as `d0` did: all of them are within clusters `L` does not own. */
    lemma SinceReads(d0: Disk, log0: seq<Disk>, U: set<nat>, L: Layout)
      requires Since(d0, log0, U) && Wf(g, Abs(g, d0), L)
      requires forall c :: c in U ==> !Owned(L, c)
      ensures AllRead(g, Abs(g, d0), log, |log0|)
      ensures Wf(g, V(), L) && Dir(g, V(), L.root) == Dir(g, Abs(g, d0), L.root) && SameReads(g, Abs(g, d0), V())
    {
      hide Abs, Within, Wf, Owned, Dir, SameReads, Mirrored, Geometry.Laid;
      WithinReads(g, d0, disk, U, L);
      forall i | |log0| <= i < |log|
        ensures Fits(g, log[i]) && SameReads(g, Abs(g, d0), Abs(g, log[i])) && HasLayout(g, Abs(g, log[i]))
      {
        WithinFits(g, d0, log[i], U);
        WithinReads(g, d0, log[i], U, L);
      }
    }

    lemma SinceReadsNow()
      requires Valid()
      ensures AllRead(g, V(), log, |log|) && SameReads(g, V(), V())
    {
    }

    /** The growing half of find_free_dirent: a fresh cluster, zeroed, then linked onto the root chain. */
    method GrowDirectory(last: nat, ghost L: Layout) returns (ok: bool, c: nat)
      requires Valid() && Wf(g, V(), L) && last == L.root[|L.root| - 1]
      modifies this`disk, this`log, this`hint, this`grants
      ensures Valid() && Since(old(disk), old(log), FreeSet(g, old(V()).fat) + {last})
      ensures AllRead(g, old(V()), log, |old(log)|) && SameReads(g, old(V()), V())
      ensures !ok ==> V() == old(V())
      ensures ok ==> c in FreeSet(g, old(V()).fat) && V().fat[c] >= CLUSTER_END && V().fat[last] == c
      ensures ok ==> forall x: nat :: x < |V().fat| && x != c ==>
                       V().data[x] == old(V()).data[x] && (x != last ==> V().fat[x] == old(V()).fat[x])
      ensures ok ==> Wf(g, V(), Grown(g, L, c))
      ensures ok <==> FreeSet(g, old(V()).fat) != {} && Yes(old(grants))
      ensures grants == Rest(old(grants), if FreeSet(g, old(V()).fat) != {} then 1 else 0)
      ensures ok ==> Dir(g, V(), L.root + [c]) == Dir(g, old(V()), L.root) + Slots(Zeros(g.Bpc()))
    {
      hide Abs, Span, Wf, Owned, Dir, SameReads, FreeSet, AllRead, Claimed, Needed, Geometry.Laid, Rest;
      ghost var v0, F := V(), FreeSet(g, V().fat);
      FreeNotOwned(g, v0, L);
      WfRoot(g, v0, L);
      ghost var ch: seq<nat>;
      AskedExact(g, g.Bpc());
      OneRequest(grants);
      ok, c, ch := AllocChain(g.Bpc());
      NeededStep(g, g.Bpc());
      if !ok {
        SinceReads(old(disk), old(log), F, L);
        SpanWider(g, old(disk), old(log), disk, log, F, F + {last});
        return;
      }
      var buffer := Kmalloc();
      if !buffer {
        ClaimedOne(g, v0, V(), ch);
        Release(c, v0, ch, old(disk), old(log), F);
        SinceReads(old(disk), old(log), F, L);
        SpanWider(g, old(disk), old(log), disk, log, F, F + {last});
        ok := false;
        return;
      }
      ZeroAndLink(last, c, ch, v0, L, old(disk), old(log));
    }

    /** Zero the claimed cluster, and only then link it. */
    method ZeroAndLink(last: nat, c: nat, ghost ch: seq<nat>, ghost v0: Vol, ghost L: Layout, ghost d0: Disk,
                       ghost log0: seq<Disk>)
      requires Valid() && Fits(g, d0) && v0 == Abs(g, d0) && Wf(g, v0, L) && last == L.root[|L.root| - 1]
      requires Claimed(g, v0, V(), ch) && ch == [c] && Since(d0, log0, FreeSet(g, v0.fat))
      modifies this`disk, this`log
      ensures Valid() && Since(d0, log0, FreeSet(g, v0.fat) + {last})
      ensures AllRead(g, v0, log, |log0|) && SameReads(g, v0, V())
      ensures c in FreeSet(g, v0.fat) && V().fat[c] >= CLUSTER_END && V().fat[last] == c
      ensures forall x: nat :: x < |V().fat| && x != c ==>
                V().data[x] == v0.data[x] && (x != last ==> V().fat[x] == v0.fat[x])
      ensures Wf(g, V(), Grown(g, L, c))
      ensures Dir(g, V(), L.root + [c]) == Dir(g, v0, L.root) + Slots(Zeros(g.Bpc()))
    {
      hide Abs, Span, Wf, Owned, Dir, SameReads, FreeSet, AllRead, Claimed, Slots, Geometry.Laid, Geometry.Bpc;
      ghost var F := FreeSet(g, v0.fat);
      FreeNotOwned(g, v0, L);
      WfRoot(g, v0, L);
      InChain(g, v0.fat, L.root, last);
      ClaimedOne(g, v0, V(), ch);
      WriteCluster(c, Zeros(g.Bpc()), d0, log0, F);
      SinceReads(d0, log0, F, L);
      LinkDirectory(last, c, L, d0, log0, F);
    }

    /** Publish a zeroed cluster as the new tail of the directory. */
    method LinkDirectory(last: nat, c: nat, ghost L: Layout, ghost d0: Disk, ghost log0: seq<Disk>, ghost F: set<nat>)
      requires Valid() && Since(d0, log0, F) && AllRead(g, Abs(g, d0), log, |log0|) && SameReads(g, Abs(g, d0), V())
      requires Wf(g, V(), L) && CanGrow(g, V(), L, c) && last == L.root[|L.root| - 1]
      modifies this`disk, this`log
      ensures Valid() && Since(d0, log0, F + {last})
      ensures AllRead(g, Abs(g, d0), log, |log0|) && SameReads(g, Abs(g, d0), V())
      ensures V() == Linked(g, old(V()), L, c) && Wf(g, V(), Grown(g, L, c))
      ensures Dir(g, V(), L.root + [c]) == Dir(g, old(V()), L.root) + Slots(Zeros(g.Bpc()))
    {
      hide Abs, Wf, Dir, Within, Mirrored, Slots, Geometry.Laid, CanGrow, Continues;
      WfRoot(g, V(), L);
      GrowReads(g, V(), L, c);
      GrowWf(g, V(), L, c);
      ghost var v1 := V();
      LinkValue(g, c, L, v1);
      SetEntry(last, c);
      SpanJoin(g, d0, log0, old(disk), old(log), disk, log, F, {last}, F + {last});
      assert V() == Linked(g, v1, L, c);
      forall i | |old(log)| <= i < |log| ensures Fits(g, log[i]) {
        WithinFits(g, old(disk), log[i], {last});
      }
      AllReadMore(g, Abs(g, d0), old(log), log, |log0|, V());
    }

    /** write_dirent_at: splice a 32-byte entry into slot `i` of directory cluster `c`, one sector
        read, patched and written back. */
    method WriteDirentAt(c: nat, i: nat, e: Dirent)
      requires Valid() && g.InRange(c) && i < Epc(g)
      modifies this`disk, this`log
      ensures Valid() && Since(old(disk), old(log), {c}) && log == old(log) + [disk]
      ensures V() == WithSlot(g, old(V()), c, i, e)
    {
      hide Abs, Span, Splice, Geometry.Laid, Geometry.ClusterBlock;
      var byte := i * 32;
      var j, offset := byte / 512, byte % 512;
      SectorOf(g, disk, c, j);
      var buf := disk[g.ClusterBlock(c) + j];
      SpliceSector(V().data[c], j, offset, e);
      SinceNow({c});
      WriteDataSector(c, j, Splice(buf, offset, e), disk, log, {c});
    }

    /** fat32_fsinfo_invalidate: the cached counts become "unknown" if the sector is a real FSInfo
        sector, and nothing else on the disk changes. */
    method FsinfoInvalidate()
      requires Valid()
      modifies this`disk, this`log
      ensures Valid() && Since(old(disk), old(log), {}) && V() == old(V())
      ensures |log| <= |old(log)| + 1 && forall i :: |old(log)| <= i < |log| ==> log[i] == disk
      ensures |disk| == |old(disk)| && (g.fsinfo == 0 || g.fsinfo == 0xFFFF ==> disk == old(disk))
      ensures g.fsinfo != 0 && g.fsinfo != 0xFFFF ==>
                && g.fsinfo < |disk|
                && var was, now := old(disk)[g.fsinfo], disk[g.fsinfo];
                   if LE32(was, 0) == 0x4161_5252 && LE32(was, 484) == 0x6141_7272 && LE32(was, 508) == 0xAA55_0000
                   then && LE32(now, 488) == 0xFFFF_FFFF && LE32(now, 492) == 0xFFFF_FFFF
                        && disk == old(disk)[g.fsinfo := now]
                        && forall x :: 0 <= x < 512 && !(488 <= x < 496) ==> now[x] == was[x]
                   else disk == old(disk)
    {
      hide Abs, Within, Splice, Mirrored, Geometry.DataEnd;
      SinceNow({});
      if g.fsinfo == 0 || g.fsinfo == 0xFFFF {
        return;
      }
      FatBlockBounds(g, 0, 0);
      var buf := disk[g.fsinfo];
      if LE32(buf, 0) != 0x41615252 || LE32(buf, 484) != 0x61417272 || LE32(buf, 508) != 0xAA550000 {
        return;
      }
      var ones: seq<Byte> := seq(8, x => 0xFF);
      FsinfoSectorWrite(g, disk, Splice(buf, 488, ones), disk[g.fsinfo := Splice(buf, 488, ones)]);
      WriteSector(g.fsinfo, Splice(buf, 488, ones));
      WithinNothing(g, old(disk), disk);
    }

    /** find_free_dirent: the first usable slot of the root directory, growing it by one zeroed cluster
        if it is full. No name changes at any moment of it. */
    method FindFreeDirent(ghost L: Layout) returns (ok: bool, c: nat, i: nat, ghost k: nat, ghost gr: seq<nat>)
      requires Valid() && Wf(g, V(), L)
      modifies this`disk, this`log, this`hint, this`grants
      ensures Valid() && Since(old(disk), old(log), FreeSet(g, old(V()).fat) + Elems(L.root))
      ensures AllRead(g, old(V()), log, |old(log)|) && SameReads(g, old(V()), V())
      ensures !ok ==> V() == old(V()) && gr == []
      ensures ok ==> Offered(g, old(V()), V(), L, gr, k, c, i)
      ensures (ok ==> grants == Rest(old(grants), 1 + Growth(Dir(g, old(V()), L.root)))) && Later(old(grants), grants)
      ensures ok <==>
                && Granted(old(grants), 1 + Growth(Dir(g, old(V()), L.root)))
                && (NoFreeSlot(Dir(g, old(V()), L.root)) ==> FreeSet(g, old(V()).fat) != {})
    {
      hide Abs, Span, Wf, Dir, Lies, FreeSet, AllRead, SameReads, Slots, Geometry.Laid, Granted, Rest, Later;
      WfRoot(g, V(), L);
      LaterBy(grants, 1);
      LaterBy(grants, 2);
      OneRequest(grants);
      InTurn(grants, 1, 0);
      InTurn(grants, 1, 1);
      OneRequest(Rest(grants, 1));
      SinceNow(FreeSet(g, V().fat) + Elems(L.root));
      SinceReadsNow();
      c, i, k, gr := 0, 0, 0, [];
      var r := FindSlot(L);
      match r
      case SearchFailed =>
        ok := false;
      case SlotAt(k', c', i') =>
        ok, c, i, k := true, c', i', k';
        LiesSlot(g, V(), L.root, k', c', i');
      case DirFull(last) =>
        ok, c := GrowDirectory(last, L);
        SpanWider(g, old(disk), old(log), disk, log, FreeSet(g, old(V()).fat) + {last},
                  FreeSet(g, old(V()).fat) + Elems(L.root));
        if ok {
          gr := [c];
          k := |Dir(g, old(V()), L.root)|;
          NewSlot(g, old(V()), V(), L, c);
        }
    }

    /** Steps 3 and 4 of fat32_write_file: a fresh chain holding `bytes`, built in free space only. */
    method StageData(bytes: seq<Byte>, ghost L: Layout) returns (ok: bool, start: nat, ghost ch: seq<nat>)
      requires Valid() && Wf(g, V(), L) && |bytes| + g.Bpc() - 1 < 0x1_0000_0000
      modifies this`disk, this`log, this`hint, this`grants
      ensures Valid() && Since(old(disk), old(log), FreeSet(g, old(V()).fat))
      ensures AllRead(g, old(V()), log, |old(log)|) && SameReads(g, old(V()), V())
      ensures Wf(g, V(), L) && Dir(g, V(), L.root) == Dir(g, old(V()), L.root)
      ensures !ok ==> V() == old(V())
      ensures ok ==> start == Start(ch) && Staged(g, old(V()), V(), L, ch, bytes)
      ensures (ok ==> grants == Rest(old(grants), Staging(|bytes|))) && Later(old(grants), grants)
      ensures ok <==> Granted(old(grants), Staging(|bytes|)) && Needed(g, |bytes|) <= |FreeSet(g, old(V()).fat)|
    {
      hide Abs, Span, Wf, Dir, FreeSet, AllRead, SameReads, Claimed, Content, Owned, Needed, Staged, Geometry.Laid,
           Geometry.Bpc, Granted, Rest, Later;
      ghost var v0, F := V(), FreeSet(g, V().fat);
      WfRoot(g, v0, L);
      FreeNotOwned(g, v0, L);
      SinceNow(F);
      OneRequest(grants);
      LaterBy(grants, 1);
      start, ch, ok := 0, [], true;
      if bytes != [] {
        AskedExact(g, |bytes|);
        ok, start, ch := AllocChain(|bytes|);
        if ok {
          var buffer := Kmalloc();
          FreeAfter(g, v0, V(), ch);
          if !buffer {
            Release(start, v0, ch, old(disk), old(log), F);
            ok, start, ch := false, 0, [];
          } else {
            ghost var v1 := V();
            ClaimedMeans(g, v0, v1, ch);
            var _ := FillChain(start, bytes, ch, old(disk), old(log), F);
            StagedIntro(g, v0, v1, V(), L, ch, bytes);
          }
        }
      } else {
        StagedNone(g, v0, L);
      }
      SinceReads(old(disk), old(log), F, L);
    }

    /** Step 6, the commit point: one sector write turns the name from its old contents to `bytes`. */
    method CommitEntry(c: nat, i: nat, start: nat, n: Name, bytes: seq<Byte>,
                       ghost k: nat, ghost ch: seq<nat>, ghost L: Layout, ghost v0: Vol, ghost m: nat)
      requires Valid() && Wf(g, V(), L) && Holds(g, V(), L, ch, bytes) && start == Start(ch)
      requires Vacant(Dir(g, V(), L.root), k, n) && n[0] != DIRENT_FREE && |bytes| < 0x1_0000_0000
      requires Live(Dir(g, V(), L.root)[k]) ==> Dir(g, V(), L.root)[k][..11] == n
      requires Lies(g, L.root, k, c, i) && g.InRange(c) && i < Epc(g)
      requires Shape(g, v0) && SameReads(g, v0, V()) && AllCrash(g, v0, n, bytes, log, m)
      modifies this`disk, this`log
      ensures Valid() && Since(old(disk), old(log), {c}) && c in L.root && start < 0x1_0000_0000
      ensures V() == WithSlot(g, old(V()), c, i, NewEntry(n, start, |bytes|))
      ensures Wf(g, V(), Placed(L, k, Published(n, ch))) && NowReads(g, v0, V(), n, bytes)
      ensures AllCrash(g, v0, n, bytes, log, m)
    {
      hide Abs, Wf, Span, Dir, Lies, Holds, Vacant, WithSlot, NewEntry, ReadName, Continues, Geometry.Laid, Fits;
      ghost var v1 := V();
      WfRoot(g, v1, L);
      HeldStart(g, v1, L, ch, bytes);
      LiesSlot(g, v1, L.root, k, c, i);
      PublishReads(g, v1, L, k, c, i, n, ch, bytes);
      var e := NewEntry(n, start, |bytes|);
      WriteDirentAt(c, i, e);
      NowReadsFrom(g, v0, v1, V(), n, bytes);
      ReadsOldOrNew(g, v0, V(), V(), n, bytes);
      AllCrashOne(g, v0, n, bytes, old(log), disk, m);
    }

    /** Step 7: give the old chain back, which nothing names any more. */
    method ReleaseOld(start: nat, n: Name, bytes: seq<Byte>, ghost och: seq<nat>, ghost L: Layout, ghost v0: Vol,
                      ghost m: nat)
      requires Valid() && Wf(g, V(), L) && IsChain(g, V().fat, och) && start == och[0]
      requires forall x :: x in och ==> !Owned(L, x)
      requires Shape(g, v0) && NowReads(g, v0, V(), n, bytes) && AllCrash(g, v0, n, bytes, log, m)
      modifies this`disk, this`log, this`hint
      ensures Valid() && Since(old(disk), old(log), Elems(och))
      ensures V() == old(V()).(fat := Zeroed(old(V()).fat, Elems(och)))
      ensures Wf(g, V(), L) && NowReads(g, v0, V(), n, bytes) && AllCrash(g, v0, n, bytes, log, m)
    {
      hide Abs, Wf, Dir, Walk, Owned, NowReads, SameReads, AllRead, AllCrash, Within, Mirrored, AllWithin,
           Geometry.Laid;
      ghost var v1 := V();
      WalkOfChain(g, v1.fat, och, {});
      var _ := FreeChain(start);
      SinceReads(old(disk), old(log), Elems(och), L);
      ReadsOldOrNew(g, v0, v1, V(), n, bytes);
      AllCrashMore(g, v0, v1, n, bytes, old(log), log, m);
    }

    /** Steps 6 and 7 over an existing entry: commit in its slot, then free what it owned. */
    method ReplaceEntry(c: nat, i: nat, oldStart: nat, start: nat, n: Name, bytes: seq<Byte>,
                        ghost k: nat, ghost ch: seq<nat>, ghost L: Layout, ghost v0: Vol, ghost m: nat)
      requires Valid() && Wf(g, v0, L) && Wf(g, V(), L) && Staged(g, v0, V(), L, ch, bytes) && start == Start(ch)
      requires Dir(g, V(), L.root) == Dir(g, v0, L.root) && IsHit(Dir(g, v0, L.root), n, k) && Lies(g, L.root, k, c, i)
      requires oldStart == First(Dir(g, v0, L.root)[k]) && n[0] != DIRENT_FREE && |bytes| < 0x1_0000_0000
      requires SameReads(g, v0, V()) && AllCrash(g, v0, n, bytes, log, m)
      modifies this`disk, this`log, this`hint
      ensures Valid() && k < |L.files| && Since(old(disk), old(log), Elems(L.root) + Elems(L.files[k]))
      ensures Wrote(g, v0, L, V(), Placed(L, k, ch), n, bytes, |L.files[k]|, 0)
      ensures AllCrash(g, v0, n, bytes, log, m)
    {
      hide Abs, Wf, Dir, Lies, Span, NowReads, SameReads, AllCrash, Staged, Owned, Wrote, EntryOk, Geometry.Laid,
           Holds;
      hide WithSlot, NewEntry;
      ghost var v1, och := V(), [];
      WfRoot(g, v0, L);
      WfRoot(g, v1, L);
      WfUnique(g, v1, L);
      FoundVacant(Dir(g, v1, L.root), k, n);
      StagedHolds(g, v0, v1, L, ch, bytes);
      LiesSlot(g, v1, L.root, k, c, i);
      OldChain(g, v1, L, k, ch);
      och := L.files[k];
      CommitEntry(c, i, start, n, bytes, k, ch, L, v0, m);
      ghost var v2 := V();
      WithSlotFat(g, v1, c, i, NewEntry(n, start, |bytes|));
      SpanWider(g, old(disk), old(log), disk, log, {c}, Elems(L.root) + Elems(och));
      ghost var d2, log2 := disk, log;
      if oldStart != 0 {
        OldIsChain(g, v1, v2, Dir(g, v1, L.root)[k], och);
        ReleaseOld(oldStart, n, bytes, och, Placed(L, k, ch), v0, m);
        SpanJoin(g, old(disk), old(log), d2, log2, disk, log, Elems(L.root) + Elems(och), Elems(och),
                 Elems(L.root) + Elems(och));
      } else {
        OldIsNone(g, v1, v2, Dir(g, v1, L.root)[k], och);
      }
      WroteOver(g, v0, v1, V(), L, k, n, ch, bytes);
    }

    /** The unwind of a staged chain whose entry found no place. */
    method Unstage(start: nat, n: Name, bytes: seq<Byte>, ghost ch: seq<nat>, ghost L: Layout, ghost v0: Vol,
                   ghost m: nat)
      requires Valid() && Wf(g, v0, L) && Wf(g, V(), L) && Staged(g, v0, V(), L, ch, bytes) && start == Start(ch)
      requires SameReads(g, v0, V()) && AllCrash(g, v0, n, bytes, log, m)
      modifies this`disk, this`log, this`hint
      ensures Valid() && Since(old(disk), old(log), FreeSet(g, v0.fat))
      ensures V().fat == v0.fat && Wf(g, V(), L) && SameReads(g, v0, V()) && AllCrash(g, v0, n, bytes, log, m)
    {
      hide Abs, Wf, Dir, Walk, Owned, NowReads, SameReads, AllRead, AllCrash, Staged, FreeSet, Zeroed, Content,
           Geometry.Laid;
      hide Within, AllWithin, Mirrored;
      WfRoot(g, v0, L);
      ghost var v1 := V();
      SinceNow({});
      SpanWider(g, disk, log, disk, log, {}, FreeSet(g, v0.fat));
      UnstageFat(g, v0, v1, L, ch, bytes);
      if start != 0 {
        StagedHolds(g, v0, v1, L, ch, bytes);
        WalkOfChain(g, v1.fat, ch, {});
        var _ := FreeChain(start);
        SinceReads(old(disk), old(log), Elems(ch), L);
        AllCrashMore(g, v0, v1, n, bytes, old(log), log, m);
        SameReadsJoin(g, v0, v1, V());
        SpanWider(g, old(disk), old(log), disk, log, Elems(ch), FreeSet(g, v0.fat));
      }
    }

    /** Steps 6 and 7 for a name that does not exist: a free slot, then the commit. */
    method AddEntry(start: nat, n: Name, bytes: seq<Byte>, ghost ch: seq<nat>, ghost L: Layout, ghost v0: Vol,
                    ghost m: nat)
      returns (ok: bool, ghost L': Layout)
      requires Valid() && Wf(g, v0, L) && Wf(g, V(), L) && Staged(g, v0, V(), L, ch, bytes) && start == Start(ch)
      requires Dir(g, V(), L.root) == Dir(g, v0, L.root) && IsMiss(Dir(g, v0, L.root), n)
      requires n[0] != DIRENT_FREE && |bytes| < 0x1_0000_0000
      requires SameReads(g, v0, V()) && AllCrash(g, v0, n, bytes, log, m)
      modifies this`disk, this`log, this`hint, this`grants
      ensures Valid() && Since(old(disk), old(log), FreeSet(g, v0.fat) + Elems(L.root))
      ensures AllCrash(g, v0, n, bytes, log, m)
      ensures !ok ==> V().fat == v0.fat && Wf(g, V(), L) && SameReads(g, v0, V()) && L' == L
      ensures ok ==> Wrote(g, v0, L, V(), L', n, bytes, 0, Growth(Dir(g, v0, L.root)))
      ensures (ok ==> grants == Rest(old(grants), 1 + Growth(Dir(g, v0, L.root)))) && Later(old(grants), grants)
      ensures ok <==> Granted(old(grants), 1 + Growth(Dir(g, v0, L.root)))
                      && (Growth(Dir(g, v0, L.root)) == 1 ==> Needed(g, |bytes|) < |FreeSet(g, v0.fat)|)
    {
      hide Abs, Wf, Dir, Lies, Span, NowReads, SameReads, AllCrash, AllRead, Staged, Owned, Wrote, EntryOk,
           Geometry.Laid, Holds;
      hide Continues, WithSlot, NewEntry, FreeSet, Extended, GrewBy, FirstFree, IsMiss, Needed, NoFreeSlot, Slots,
           Placed, Vacant, Granted, Rest, Later;
      WfRoot(g, v0, L);
      ghost var v1, F := V(), FreeSet(g, v0.fat);
      StagedRoom(g, v0, v1, L, ch, bytes, Dir(g, v0, L.root));
      var c, i;
      ghost var k, gr;
      ok, c, i, k, gr := FindFreeDirent(L);
      ghost var v2, d2, log2 := V(), disk, log;
      SpanContinues(g, old(disk), old(log), disk, log, FreeSet(g, v1.fat) + Elems(L.root));
      AllCrashAfter(g, v0, v1, n, bytes, old(log), log, m);
      if !ok {
        L' := L;
        Unstage(start, n, bytes, ch, L, v0, m);
        SpanJoin(g, old(disk), old(log), d2, log2, disk, log, FreeSet(g, v1.fat) + Elems(L.root), F, F + Elems(L.root));
        return;
      }
      SameReadsJoin(g, v0, v1, v2);
      L' := PublishFresh(c, i, start, n, bytes, k, ch, L, gr, v0, v1, m);
      SpanJoin(g, old(disk), old(log), d2, log2, disk, log, FreeSet(g, v1.fat) + Elems(L.root), F + Elems(L.root),
               F + Elems(L.root));
    }

    /** The commit of a new name in the first free slot, perhaps of a directory just grown by `gr`. */
    method PublishFresh(c: nat, i: nat, start: nat, n: Name, bytes: seq<Byte>,
                        ghost k: nat, ghost ch: seq<nat>, ghost L: Layout, ghost gr: seq<nat>, ghost v0: Vol,
                        ghost v1: Vol, ghost m: nat)
      returns (ghost L': Layout)
      requires Valid() && Wf(g, v0, L) && Wf(g, v1, L) && Staged(g, v0, v1, L, ch, bytes) && start == Start(ch)
      requires Offered(g, v1, V(), L, gr, k, c, i) && IsMiss(Dir(g, v1, L.root), n)
      requires n[0] != DIRENT_FREE && |bytes| < 0x1_0000_0000
      requires SameReads(g, v0, V()) && AllCrash(g, v0, n, bytes, log, m)
      modifies this`disk, this`log
      ensures Valid() && Since(old(disk), old(log), FreeSet(g, v0.fat) + Elems(L.root)) && |gr| <= 1
      ensures AllCrash(g, v0, n, bytes, log, m) && Wrote(g, v0, L, V(), L', n, bytes, 0, |gr|)
    {
      hide Abs, Wf, Dir, Lies, Span, NowReads, SameReads, AllCrash, Staged, Owned, Wrote, EntryOk, Geometry.Laid,
           Holds;
      hide WithSlot, NewEntry, FreeSet, Extended, GrewBy, FirstFree, IsMiss, Needed, Slots, Placed, Vacant;
      ghost var v2, L1 := V(), Extended(g, L, gr);
      WfRoot(g, v0, L);
      WfRoot(g, v1, L);
      WfRoot(g, v2, L1);
      StagedFree(g, v0, v1, L, ch, bytes);
      HoldsGrown(g, v0, v1, v2, L, ch, bytes, gr);
      MissGrown(g, v1, v2, L, gr, n);
      WfUnique(g, v2, L1);
      FreshVacant(Dir(g, v2, L1.root), k, n);
      VacantBound(Dir(g, v2, L1.root), k, n);
      CommitEntry(c, i, start, n, bytes, k, ch, L1, v0, m);
      WithSlotFat(g, v2, c, i, NewEntry(n, start, |bytes|));
      RootExtended(g, v1, v2, L, gr, c);
      SpanWider(g, old(disk), old(log), disk, log, {c}, FreeSet(g, v0.fat) + Elems(L.root));
      L' := Placed(L1, k, Published(n, ch));
      WroteNew(g, v0, v1, v2, V(), L, gr, k, n, ch, bytes);
    }

    /** fat32_write_file: create or wholly replace a file. At every moment every name reads as it did,
        or the written one already as `bytes`; the volume stays well formed and loses no cluster. */
    method WriteFile(name: seq<Byte>, bytes: seq<Byte>, ghost L: Layout) returns (ok: bool, ghost L': Layout)
      requires Valid() && Wf(g, V(), L) && 0 !in name && |bytes| + g.Bpc() - 1 < 0x1_0000_0000
      modifies this`disk, this`log, this`hint, this`grants
      ensures Valid() && Since(old(disk), old(log), Touched(g, old(V()), L, Name83(name)))
      ensures Name83(name).Some? ==> AllCrash(g, old(V()), Name83(name).value, bytes, log, |old(log)|)
      ensures !HasGap(g, log, |old(log)|)
      ensures Name83(name) == None ==> log == old(log) && !ok
      ensures !ok ==> V().fat == old(V()).fat && Wf(g, V(), L) && SameReads(g, old(V()), V()) && L' == L
      ensures ok ==>
                Wrote(g, old(V()), L, V(), L', Name83(name).value, bytes,
                      |Replaced(g, old(V()), L, Name83(name).value)|, Grows(g, old(V()), L, Name83(name).value))
      ensures ok <==> Name83(name).Some? && CanWrite(g, old(V()), L, Name83(name).value, |bytes|)
                      && Granted(old(grants), Buffers(g, old(V()), L, Name83(name).value, |bytes|))
      ensures ok ==> grants == Rest(old(grants), Buffers(g, old(V()), L, Name83(name).value, |bytes|))
      ensures Later(old(grants), grants)
      ensures ok && Name83(name).value[0] != 0xE5 ==>
                exists path, i, ch :: Fat32Format.Filed(g, disk, Name83(name).value, path, i, ch, bytes)
    {
      hide Abs, Wf, Dir, Lies, Span, NowReads, SameReads, AllCrash, AllRead, Staged, Owned, Wrote, Geometry.Laid,
           Holds;
      hide Continues, FreeSet, Needed, Slot, Locate, Name83, NoFreeSlot, Placed, IsMiss, IsHit, Touched, Replaced,
           Grows, CanWrite, LocOk, HasGap, HasLayout, Granted, Rest, Later, Buffers, Fat32Format.Filed;
      ghost var v0, d0, log0 := V(), disk, log;
      NoGapNone(g, log);
      WfRoot(g, v0, L);
      ok, L' := false, L;
      SinceNow({});
      SpanWider(g, disk, log, disk, log, {}, Touched(g, v0, L, Name83(name)));
      SinceReadsNow();
      LaterBy(grants, 1);
      var wanted := NameTo83(name);
      if wanted == None {
        return;
      }
      var n := wanted.value;
      FirstByte(name, n);
      AllCrashNone(g, v0, n, bytes, log);
      var loc, e := LocateRootEntry(n);
      LocateRoot(g, v0, L, n);
      if loc.LocError? {
        FirstRefused(old(grants), Buffers(g, v0, L, n, |bytes|));
        return;
      }
      LocatedMeans(g, v0, L, n, loc, |bytes|);
      WriteGrants(old(grants), Staging(|bytes|), Entering(loc, Dir(g, v0, L.root)));
      assert Buffers(g, v0, L, n, |bytes|) == 1 + Staging(|bytes|) + Entering(loc, Dir(g, v0, L.root));
      if loc.LocFound? && IsDirectory(e) {
        return;
      }
      var start;
      ghost var ch;
      ghost var g1 := grants;
      ok, start, ch := StageData(bytes, L);
      LaterJoin(old(grants), g1, grants);
      ghost var g2 := grants;
      ghost var d1, log1 := disk, log;
      SpanContinues(g, d0, log0, d1, log1, FreeSet(g, v0.fat));
      AllCrashAfter(g, v0, v0, n, bytes, log0, log1, |log0|);
      SpanWider(g, d0, log0, d1, log1, FreeSet(g, v0.fat), Touched(g, v0, L, Some(n)));
      if !ok {
        CrashNoGap(g, v0, n, bytes, log, |log0|);
        return;
      }
      ok, L' := Settle(loc, e, start, n, bytes, ch, L, v0, d0, log0);
      LaterJoin(old(grants), g2, grants);
      CrashNoGap(g, v0, n, bytes, log, |log0|);
    }

    /** Steps 6 to 8: the entry, over the one found or in a free slot, and FSInfo. */
    method Settle(loc: Loc, e: Dirent, start: nat, n: Name, bytes: seq<Byte>, ghost ch: seq<nat>, ghost L: Layout,
                  ghost v0: Vol, ghost d0: Disk, ghost log0: seq<Disk>)
      returns (ok: bool, ghost L': Layout)
      requires Valid() && Fits(g, d0) && v0 == Abs(g, d0) && Wf(g, v0, L) && Wf(g, V(), L)
      requires Staged(g, v0, V(), L, ch, bytes) && start == Start(ch) && Dir(g, V(), L.root) == Dir(g, v0, L.root)
      requires SameReads(g, v0, V()) && AllCrash(g, v0, n, bytes, log, |log0|) && Since(d0, log0, FreeSet(g, v0.fat))
      requires LocOk(g, v0, L.root, 0, n, loc) && !loc.LocError? && n[0] != DIRENT_FREE && |bytes| < 0x1_0000_0000
      requires loc.LocFound? ==> loc.k < |Dir(g, v0, L.root)| && e == Dir(g, v0, L.root)[loc.k] && !IsDirectory(e)
      requires Needed(g, |bytes|) <= |FreeSet(g, v0.fat)|
      modifies this`disk, this`log, this`hint, this`grants
      ensures Valid() && Since(d0, log0, Touched(g, v0, L, Some(n))) && AllCrash(g, v0, n, bytes, log, |log0|)
      ensures !ok ==> V().fat == v0.fat && Wf(g, V(), L) && SameReads(g, v0, V()) && L' == L
      ensures ok ==> Wrote(g, v0, L, V(), L', n, bytes, |Replaced(g, v0, L, n)|, Grows(g, v0, L, n))
      ensures var k := Entering(loc, Dir(g, v0, L.root));
              && (ok <==> CanWrite(g, v0, L, n, |bytes|) && Granted(old(grants), k))
              && (ok ==> grants == Rest(old(grants), k)) && Later(old(grants), grants)
      ensures ok && n[0] != 0xE5 ==> exists path, i, ch :: Fat32Format.Filed(g, disk, n, path, i, ch, bytes)
    {
      hide Abs, Wf, Dir, Lies, Span, NowReads, SameReads, AllCrash, AllRead, Staged, Owned, Wrote, Geometry.Laid,
           Holds;
      hide Continues, FreeSet, Needed, Slot, Name83, NoFreeSlot, Placed, IsMiss, IsHit, Touched, Replaced, Grows,
           CanWrite;
      hide HasGap, HasLayout, Granted, Rest, Later, Buffers, LocOk, ReadName, Fat32Format.Filed;
      ghost var d1, log1 := disk, log;
      LocatedMeans(g, v0, L, n, loc, |bytes|);
      OneRequest(grants);
      LaterBy(grants, 0);
      SpanWider(g, d0, log0, d1, log1, FreeSet(g, v0.fat), Touched(g, v0, L, Some(n)));
      if loc.LocFound? {
        ReplaceEntry(loc.cluster, loc.index, First(e), start, n, bytes, loc.k, ch, L, v0, |log0|);
        SpanJoin(g, d0, log0, d1, log1, disk, log, FreeSet(g, v0.fat), Elems(L.root) + Elems(L.files[loc.k]),
                 Touched(g, v0, L, Some(n)));
        ok, L' := true, Placed(L, loc.k, ch);
      } else {
        ok, L' := AddEntry(start, n, bytes, ch, L, v0, |log0|);
        SpanJoin(g, d0, log0, d1, log1, disk, log, FreeSet(g, v0.fat), FreeSet(g, v0.fat) + Elems(L.root),
                 Touched(g, v0, L, Some(n)));
      }
      if ok {
        WroteReads(g, v0, L, V(), L', n, bytes, |Replaced(g, v0, L, n)|, Grows(g, v0, L, n));
        ghost var d2, log2 := disk, log;
        InvalidateAfter(n, bytes, v0, |log0|);
        SpanJoin(g, d0, log0, d2, log2, disk, log, Touched(g, v0, L, Some(n)), {}, Touched(g, v0, L, Some(n)));
        if n[0] != DIRENT_DELETED {
          WroteReadsBack(g, v0, L, V(), L', n, bytes, |Replaced(g, v0, L, n)|, Grows(g, v0, L, n));
          Fat32Format.ReadsFormat(g, disk, n, bytes);
        }
      }
    }

    /** A write and then a read, under any spelling with the same stored form and into a buffer that is large enough:
        exactly the bytes written come back. */
    method WriteThenRead(name: seq<Byte>, spelling: seq<Byte>, bytes: seq<Byte>, bufsize: nat, ghost L: Layout)
      returns (ok: bool, r: Option<seq<Byte>>, ghost L': Layout)
      requires Valid() && Wf(g, V(), L) && 0 !in name && |bytes| + g.Bpc() - 1 < 0x1_0000_0000
      requires Name83(spelling) == Name83(name) && |bytes| <= bufsize
      modifies this`disk, this`log, this`hint, this`grants
      ensures ok ==> Name83(name).Some?
      ensures ok && Granted(old(grants), Buffers(g, old(V()), L, Name83(name).value, |bytes|) + 2) ==>
                (Name83(name).value[0] != DIRENT_DELETED ==> r == Some(bytes))
    {
      hide Abs, Span, Wf, FreeSet, AllCrash, SameReads, Unowned, Replaced, Grows, CanWrite, Touched, Wrote, Name83,
           ReadName, Geometry.Laid, Geometry.Bpc;
      ok, L' := WriteFile(name, bytes, L);
      if ok && Name83(name).value[0] != DIRENT_DELETED {
        WroteReadsBack(g, old(V()), L, V(), L', Name83(name).value, bytes,
                       |Replaced(g, old(V()), L, Name83(name).value)|, Grows(g, old(V()), L, Name83(name).value));
      }
      r := ReadFile(spelling, bufsize);
    }

    /** The FSInfo write that ends a successful write: a reader cannot tell it happened. */
    method InvalidateAfter(n: Name, bytes: seq<Byte>, ghost v0: Vol, ghost m: nat)
      requires Valid() && Shape(g, v0) && NowReads(g, v0, V(), n, bytes) && AllCrash(g, v0, n, bytes, log, m)
      requires HasLayout(g, V())
      modifies this`disk, this`log
      ensures Valid() && Since(old(disk), old(log), {}) && V() == old(V()) && AllCrash(g, v0, n, bytes, log, m)
    {
      hide Abs, NowReads, SameReads, OldOrNew, Span, Geometry.Laid, HasLayout;
      ghost var v1 := V();
      FsinfoInvalidate();
      SameReadsSelf(g, v1);
      ReadsOldOrNew(g, v0, v1, v1, n, bytes);
      SpanContinues(g, old(disk), old(log), disk, log, {});
      forall i | m <= i < |log|
        ensures Fits(g, log[i]) && OldOrNew(g, v0, Abs(g, log[i]), n, bytes) && HasLayout(g, Abs(g, log[i]))
      {
        if i < |old(log)| {
          assert log[i] == old(log)[i];
        }
      }
    }

    /** fat32_delete. A completed delete removes the name, gives back exactly the file's clusters and
        changes no other name. At every moment every name reads as it did, or the deleted one as nothing.
        Between its two halves, exactly when the file owns clusters, the volume is not well formed under
        any layout: the entry still names clusters that are already free. */
    method Delete(name: seq<Byte>, ghost L: Layout) returns (ok: bool, ghost L': Layout)
      requires Valid() && Wf(g, V(), L) && 0 !in name
      modifies this`disk, this`log, this`hint, this`grants
      ensures Valid() && Since(old(disk), old(log), Touched(g, old(V()), L, Name83(name)))
      ensures !ok ==> V() == old(V()) && log == old(log) && L' == L
      ensures Later(old(grants), grants)
      ensures ok <==> Yes(old(grants)) && Name83(name).Some? && CanErase(g, old(V()), L, Name83(name).value)
      ensures ok ==> Wf(g, V(), L') && SameReadsBut(g, old(V()), V(), Name83(name).value)
                     && ReadName(g, V(), Name83(name).value) == None
                     && |FreeSet(g, V().fat)| ==
                        |FreeSet(g, old(V()).fat)| + |Replaced(g, old(V()), L, Name83(name).value)|
                     && Unowned(g, V(), L') == Unowned(g, old(V()), L)
      ensures ok ==> AllErase(g, old(V()), Name83(name).value, log, |old(log)|)
      ensures ok ==> (HasGap(g, log, |old(log)|) <==> Replaced(g, old(V()), L, Name83(name).value) != [])
    {
      hide Abs, Wf, Dir, Lies, Span, SameReadsBut, ReadName, Owned, Unowned, Geometry.Laid, Walk, HasGap, AllErase,
           OldOrGone;
      hide Continues, FreeSet, Slot, Locate, Name83, IsMiss, IsHit, Touched, Replaced, CanErase, Placed, EntryOk;
      ghost var v0, d0, log0 := V(), disk, log;
      WfRoot(g, v0, L);
      ok, L' := false, L;
      SinceNow({});
      LaterBy(grants, 1);
      SpanWider(g, disk, log, disk, log, {}, Touched(g, v0, L, Name83(name)));
      var wanted := NameTo83(name);
      if wanted == None {
        return;
      }
      var n := wanted.value;
      var loc, e := LocateRootEntry(n);
      LocateRoot(g, v0, L, n);
      if loc.LocError? {
        return;
      }
      ErasedMeans(g, v0, L, n, loc);
      if loc.LocAbsent? {
        return;
      }
      LocatedMeans(g, v0, L, n, loc, 0);
      if IsDirectory(e) {
        return;
      }
      L' := Placed(L, loc.k, []);
      ok := EraseEntry(loc.cluster, loc.index, e, n, loc.k, L);
      ghost var d1, log1 := disk, log;
      ghost var v1 := V();
      FsinfoInvalidate();
      SpanContinues(g, d1, log1, disk, log, {});
      GapLater(g, log1, log, |log0|, v1, L');
      EraseLater(g, v0, n, log1, log, |log0|, v1);
      SpanJoin(g, d0, log0, d1, log1, disk, log, Elems(L.root) + Elems(L.files[loc.k]), {}, Touched(g, v0, L, Some(n)));
    }

    /** The two halves of a delete: free the chain, then mark the entry. */
    method EraseEntry(c: nat, i: nat, e: Dirent, n: Name, ghost k: nat, ghost L: Layout) returns (ok: bool)
      requires Valid() && Wf(g, V(), L) && IsHit(Dir(g, V(), L.root), n, k) && Lies(g, L.root, k, c, i)
      requires g.InRange(c) && i < Epc(g) && k < |L.files| && e == Dir(g, V(), L.root)[k]
      modifies this`disk, this`log, this`hint
      ensures Valid() && Since(old(disk), old(log), Elems(L.root) + Elems(L.files[k])) && ok
      ensures Wf(g, V(), Placed(L, k, [])) && SameReadsBut(g, old(V()), V(), n) && ReadName(g, V(), n) == None
      ensures |FreeSet(g, V().fat)| == |FreeSet(g, old(V()).fat)| + |L.files[k]|
      ensures Unowned(g, V(), Placed(L, k, [])) == Unowned(g, old(V()), L)
      ensures HasGap(g, log, |old(log)|) <==> L.files[k] != []
      ensures AllErase(g, old(V()), n, log, |old(log)|)
    {
      hide Abs, Wf, Dir, Lies, Span, SameReadsBut, ReadName, Owned, Unowned, Geometry.Laid, Walk, FreeSet, Placed,
           EntryOk, HasGap, Continues;
      hide AllErase, OldOrGone, AllPartly, IsHit;
      ghost var v0, d0, log0, och := V(), disk, log, L.files[k];
      WfRoot(g, v0, L);
      OldChain(g, v0, L, k, []);
      LiesSlot(g, v0, L.root, k, c, i);
      SinceNow(Elems(och));
      NothingErased(g, v0, n, log);
      HitName(Dir(g, v0, L.root), n, k, n, k);
      var start := First(e);
      if start != 0 {
        OldIsChain(g, v0, v0, e, och);
        WalkOfChain(g, v0.fat, och, {});
        var freed := FreeChain(start);
        if !freed {
          return false;
        }
        DeleteGap(g, v0, V(), L, k);
        PartlyErase(g, v0, L, k, n, log, |log0|);
      } else {
        OldIsNone(g, v0, v0, e, och);
      }
      ghost var v1, d1, log1 := V(), disk, log;
      WriteDirentAt(c, i, Deleted(e));
      WithSlotFat(g, v1, c, i, Deleted(e));
      SpanJoin(g, d0, log0, d1, log1, disk, log, Elems(och), {c}, Elems(L.root) + Elems(och));
      if och != [] {
        GapLogged(g, d0, log0, d1, log1, log, och);
      }
      WithSlotData(g, v0, v1, c, i, Deleted(e));
      DeleteDone(g, v0, V(), L, k, c, i, n);
      ErasedOne(g, v0, n, log1, disk, |log0|, V());
      if och == [] {
        NoGapOne(g, log0, disk, V(), Placed(L, k, []));
      }
      ok := true;
    }

    ghost function Here(L: Layout): Stand
      reads this`disk, this`log, this`grants
      requires Valid()
    {
      Stand(V(), L, grants)
    }

    /** Any run of writes and deletes, successful or not: each succeeds exactly when it can where it stands, every
        name reads as what was last written to it or as nothing once deleted, the volume stays well formed, its FAT
        copies in step and its reserved bits and reserved sectors as they were. The clusters nobody owns stay nobody's,
        and exactly those of files written under a name nobody can find join them. */
    method Run(ops: seq<Op>, ghost L: Layout) returns (oks: seq<bool>, ghost L': Layout, ghost st: seq<Stand>)
      requires Valid() && Wf(g, V(), L) && forall j :: 0 <= j < |ops| ==> Proper(g, ops[j])
      modifies this`disk, this`log, this`hint, this`grants
      ensures Valid() && Wf(g, V(), L') && Since(old(disk), old(log), Clusters(g))
      ensures |oks| == |ops| && Leaked(g, old(V()), L, V(), L', AllLost(g, ops, oks))
      ensures AllLost(g, ops, oks) == 0 ==> Unowned(g, V(), L') == Unowned(g, old(V()), L)
      ensures Steps(g, ops, oks, st) && st[0] == old(Here(L)) && st[|ops|] == Here(L')
      ensures forall m: Name :: ReadName(g, V(), m) == LastOf(ops, oks, m, ReadName(g, old(V()), m))
    {
      hide Abs, Wf, Span, Leaked, Unowned, Lost, Touched, Proper, ReadName, Stepped, Becomes;
      L' := L;
      oks := [];
      st := [Here(L)];
      SinceNow(Clusters(g));
      LeakedNone(g, V(), L, V(), L);
      var j := 0;
      while j < |ops|
        invariant 0 <= j == |oks| <= |ops| && Steps(g, ops, oks, st) && st[0] == old(Here(L))
        invariant Valid() && Wf(g, V(), L') && st[j] == Here(L') && Since(old(disk), old(log), Clusters(g))
        invariant Leaked(g, old(V()), L, V(), L', AllLost(g, ops, oks))
      {
        ghost var v1, d1, log1, L1 := V(), disk, log, L';
        ProperMeans(g, ops[j]);
        TouchedInRange(g, v1, L1, Name83(ops[j].name));
        var ok;
        ok, L' := Step(ops[j], L1);
        SpanJoin(g, old(disk), old(log), d1, log1, disk, log, Clusters(g), Touched(g, v1, L1, Name83(ops[j].name)),
                 Clusters(g));
        LeakedJoin(g, old(V()), L, v1, L1, V(), L', AllLost(g, ops, oks), Lost(g, ops[j], ok));
        assert (oks + [ok])[..j] == oks;
        StepsOn(g, ops, oks, st, ok, Here(L'));
        st := st + [Here(L')];
        oks := oks + [ok];
        j := j + 1;
      }
      LeakedNone(g, old(V()), L, V(), L');
      forall m: Name ensures ReadName(g, V(), m) == LastOf(ops, oks, m, ReadName(g, old(V()), m)) {
        LastRead(g, ops, oks, st, m);
      }
    }

    method Step(op: Op, ghost L: Layout) returns (ok: bool, ghost L': Layout)
      requires Valid() && Wf(g, V(), L) && 0 !in op.name && (op.Write? ==> |op.bytes| + g.Bpc() - 1 < 0x1_0000_0000)
      modifies this`disk, this`log, this`hint, this`grants
      ensures Valid() && Wf(g, V(), L') && Since(old(disk), old(log), Touched(g, old(V()), L, Name83(op.name)))
      ensures Leaked(g, old(V()), L, V(), L', Lost(g, op, ok)) && Stepped(g, op, old(Here(L)), Here(L'), ok)
    {
      hide Abs, Wf, Span, Unowned, Wrote, Touched, CanWrite, CanErase, Replaced, Grows, ReadName, Name83, AllCrash,
           HasGap, Needed, Leaked;
      hide AllErase, Geometry.Bpc, SameReads, SameReadsBut, Granted, Buffers, Stepped, Later;
      ghost var v1, a := V(), Here(L);
      match op {
        case Write(name, bytes) =>
          ok, L' := WriteFile(name, bytes, L);
          if ok {
            WroteUnowned(g, v1, L, V(), L', name, bytes, |Replaced(g, v1, L, Name83(name).value)|,
                         Grows(g, v1, L, Name83(name).value));
            WroteStep(g, name, bytes, a, Here(L'), |Replaced(g, v1, L, Name83(name).value)|,
                      Grows(g, v1, L, Name83(name).value));
          } else {
            UnownedSame(g, v1, V(), L);
            LeakedNone(g, v1, L, V(), L');
            IdleStep(g, op, a, Here(L'));
          }
        case Remove(name) =>
          ok, L' := Delete(name, L);
          LeakedNone(g, v1, L, V(), L');
          if ok {
            ErasedStep(g, name, a, Here(L'));
          } else {
            SameReadsSelf(g, v1);
            IdleStep(g, op, a, Here(L'));
          }
      }
    }
  }
}
