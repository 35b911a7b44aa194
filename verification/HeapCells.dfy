/** The words kernel/heap.c keeps inside the memory it hands out: block headers and footers, as cells
    of a byte memory that never overlap. */
module HeapCells {
  import opened Bytes

  const NULL := 0
  const HEAD := 32              // sizeof(el_blockhead_t): size, state, next, prev
  const FOOT := 8               // sizeof(el_blockfoot_t)
  const OVERHEAD := 40          // EL_BLOCK_OVERHEAD

  const AVAILABLE: Byte := 0x61     // 'a'
  const USED: Byte := 0x75          // 'u'
  const BEGIN: Byte := 0x42         // 'B'
  const END: Byte := 0x45           // 'E'

  datatype Header = Header(size: nat, state: Byte, next: nat, prev: nat)

  function HeadAt(mem: seq<Byte>, a: nat): Header
    requires a + HEAD <= |mem|
  {
    Header(Word(mem, a), mem[a + 8], Word(mem, a + 16), Word(mem, a + 24))
  }

  /** Where the headers and footers are, and what they hold. */
  datatype Cells = Cells(head: map<nat, Header>, foot: map<nat, nat>)

  /** No two cells share a byte. */
  ghost predicate Sep(C: Cells) {
    && (forall a, b :: a in C.head && b in C.head && a != b ==> a + HEAD <= b || b + HEAD <= a)
    && (forall a, f :: a in C.head && f in C.foot ==> a + HEAD <= f || f + FOOT <= a)
    && (forall e, f :: e in C.foot && f in C.foot && e != f ==> e + FOOT <= f || f + FOOT <= e)
  }

  /** The memory holds the cells. */
  ghost predicate Rep(mem: seq<Byte>, C: Cells) {
    && Sep(C)
    && (forall a :: a in C.head ==> a + HEAD <= |mem| && HeadAt(mem, a) == C.head[a])
    && (forall f :: f in C.foot ==> f + FOOT <= |mem| && Word(mem, f) == C.foot[f])
  }

  lemma HeadFrame(m: seq<Byte>, m': seq<Byte>, a: nat)
    requires |m'| == |m| && a + HEAD <= |m| && forall x :: a <= x < a + HEAD ==> m'[x] == m[x]
    ensures HeadAt(m', a) == HeadAt(m, a)
  {
    WordFrame(m, m', a);
    WordFrame(m, m', a + 16);
    WordFrame(m, m', a + 24);
  }

  /** Changing bytes of header `a` only: every other cell keeps its value. */
  lemma RepHead(m: seq<Byte>, m': seq<Byte>, C: Cells, a: nat)
    requires Rep(m, C) && a in C.head && |m'| == |m|
    requires forall x :: 0 <= x < |m| && !(a <= x < a + HEAD) ==> m'[x] == m[x]
    ensures Rep(m', C.(head := C.head[a := HeadAt(m', a)]))
  {
    hide HeadAt, Word;
    forall b | b in C.head && b != a ensures HeadAt(m', b) == C.head[b] {
      HeadFrame(m, m', b);
    }
    forall f | f in C.foot ensures Word(m', f) == C.foot[f] {
      WordFrame(m, m', f);
    }
  }

  lemma RepFoot(m: seq<Byte>, m': seq<Byte>, C: Cells, f: nat)
    requires Rep(m, C) && f in C.foot && |m'| == |m|
    requires forall x :: 0 <= x < |m| && !(f <= x < f + FOOT) ==> m'[x] == m[x]
    ensures Rep(m', C.(foot := C.foot[f := Word(m', f)]))
  {
    hide HeadAt, Word;
    forall b | b in C.head ensures HeadAt(m', b) == C.head[b] {
      HeadFrame(m, m', b);
    }
    forall e | e in C.foot && e != f ensures Word(m', e) == C.foot[e] {
      WordFrame(m, m', e);
    }
  }

  /** What one field write does to a header. */
  lemma HeadFields(m: seq<Byte>, a: nat, v: nat, s: Byte)
    requires a + HEAD <= |m| && v < WORD_MOD
    ensures HeadAt(PutWord(m, a, v), a) == HeadAt(m, a).(size := v)
    ensures HeadAt(PutWord(m, a + 16, v), a) == HeadAt(m, a).(next := v)
    ensures HeadAt(PutWord(m, a + 24, v), a) == HeadAt(m, a).(prev := v)
    ensures HeadAt(m[a + 8 := s], a) == HeadAt(m, a).(state := s)
  {
    hide Word, PutWord;
    WordFrame(m, PutWord(m, a, v), a + 16);
    WordFrame(m, PutWord(m, a, v), a + 24);
    WordFrame(m, PutWord(m, a + 16, v), a);
    WordFrame(m, PutWord(m, a + 16, v), a + 24);
    WordFrame(m, PutWord(m, a + 24, v), a);
    WordFrame(m, PutWord(m, a + 24, v), a + 16);
    WordFrame(m, m[a + 8 := s], a);
    WordFrame(m, m[a + 8 := s], a + 16);
    WordFrame(m, m[a + 8 := s], a + 24);
  }

  /** Bytes no cell may touch: the payloads of live blocks. */
  ghost predicate Clear(C: Cells, P: iset<nat>) {
    && (forall a, x :: a in C.head && x in P ==> x < a || a + HEAD <= x)
    && (forall f, x :: f in C.foot && x in P ==> x < f || f + FOOT <= x)
  }

  ghost predicate Keeps(m: seq<Byte>, m': seq<Byte>, P: iset<nat>) {
    |m'| == |m| && forall x :: x in P && x < |m| ==> m'[x] == m[x]
  }

  /** No cell and no protected byte lies in [lo, hi). */
  ghost predicate Alone(C: Cells, P: iset<nat>, lo: nat, hi: nat) {
    && (forall a :: a in C.head ==> a + HEAD <= lo || hi <= a)
    && (forall f :: f in C.foot ==> f + FOOT <= lo || hi <= f)
    && (forall x :: x in P ==> x < lo || hi <= x)
  }

  lemma AddFoot(m: seq<Byte>, C: Cells, P: iset<nat>, f: nat)
    requires Rep(m, C) && Clear(C, P) && f + FOOT <= |m| && Alone(C, P, f, f + FOOT)
    ensures var C' := C.(foot := C.foot[f := Word(m, f)]); Rep(m, C') && Clear(C', P)
  {
    hide HeadAt, Word;
  }

  lemma AddHead(m: seq<Byte>, C: Cells, P: iset<nat>, a: nat)
    requires Rep(m, C) && Clear(C, P) && a + HEAD <= |m| && Alone(C, P, a, a + HEAD)
    ensures var C' := C.(head := C.head[a := HeadAt(m, a)]); Rep(m, C') && Clear(C', P)
  {
    hide HeadAt, Word;
  }

  lemma DropCells(m: seq<Byte>, C: Cells, P: iset<nat>, A: set<nat>, F: set<nat>)
    requires Rep(m, C) && Clear(C, P)
    ensures var C' := Cells(C.head - A, C.foot - F); Rep(m, C') && Clear(C', P)
  {
    hide HeadAt, Word;
  }

  ghost predicate Outside(x: nat, lo: nat, hi: nat) { x < lo || hi <= x }

  /** All bytes outside the two ranges. */
  ghost function AllBut(lo: nat, hi: nat, lo': nat, hi': nat): iset<nat> {
    iset x: nat | Outside(x, lo, hi) && Outside(x, lo', hi')
  }
}
