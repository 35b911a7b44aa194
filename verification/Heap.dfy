/** kernel/heap.c: the boundary-tag allocator, working in place on memory. libc/malloc.c is the same code again. */
module Heap {
  import opened Bytes
  import opened HeapCells
  import opened HeapBlocks

  class ElHeap {
    const ctl: nat                // address of el_ctl_actual
    var mem: seq<Byte>
    var heapStart: nat
    var heapEnd: nat
    var heapBytes: nat
    var availLen: nat
    var availBytes: nat
    var usedLen: nat
    var usedBytes: nat
    ghost var C: Cells
    ghost var V: View

    /** The memory holds the cells, and since `m0` none of the bytes `P` was written. */
    ghost predicate Safe(m0: seq<Byte>, P: iset<nat>)
      reads `mem, `C
    {
      Rep(mem, C) && Clear(C, P) && Keeps(m0, mem, P) && |mem| + OVERHEAD < WORD_MOD
    }

    /** The structure holds while the blocks at `off` are in neither list. */
    ghost predicate Good(off: set<nat>)
      reads this
    {
      && Core(ctl, C, V, off)
      && heapStart == V.lo && heapEnd == V.hi && V.hi <= |mem| && heapBytes == V.hi - V.lo
      && availLen == |V.av| && availBytes == Total(V.bs, false, off)
      && usedLen == |V.us| && usedBytes == Total(V.bs, true, off)
    }

    ghost predicate Valid()
      reads this
    {
      Good({}) && Rep(mem, C) && |mem| + OVERHEAD < WORD_MOD && NoTwoAvailable(V.bs) && V.bs != []
    }

    lemma TilesOf()
      requires Valid()
      ensures Tiles(V.bs, V.lo, V.hi) && V.lo == heapStart && V.hi == heapEnd && V.hi <= |mem| && V.bs != [] && 0 < V.lo
    {
    }

    // -------------------------------------------------------------------------
    // Header and footer fields
    // -------------------------------------------------------------------------

    method Head(a: nat) returns (h: Header)
      requires Rep(mem, C) && a in C.head
      ensures h == C.head[a]
    {
      h := HeadAt(mem, a);
    }

    method FootSize(f: nat) returns (v: nat)
      requires Rep(mem, C) && f in C.foot
      ensures v == C.foot[f]
    {
      v := Word(mem, f);
    }

    method SetSize(a: nat, v: nat, ghost m0: seq<Byte>, ghost P: iset<nat>)
      requires Safe(m0, P) && a in C.head && v < WORD_MOD
      modifies `mem, `C
      ensures Safe(m0, P) && C == old(C).(head := old(C.head)[a := old(C.head)[a].(size := v)]) && |mem| == |old(mem)|
    {
      hide HeadAt, PutWord;
      HeadFields(mem, a, v, 0);
      RepHead(mem, PutWord(mem, a, v), C, a);
      mem := PutWord(mem, a, v);
      C := C.(head := C.head[a := C.head[a].(size := v)]);
    }

    method SetState(a: nat, s: Byte, ghost m0: seq<Byte>, ghost P: iset<nat>)
      requires Safe(m0, P) && a in C.head
      modifies `mem, `C
      ensures Safe(m0, P) && C == old(C).(head := old(C.head)[a := old(C.head)[a].(state := s)]) && |mem| == |old(mem)|
    {
      hide HeadAt;
      HeadFields(mem, a, 0, s);
      RepHead(mem, mem[a + 8 := s], C, a);
      mem := mem[a + 8 := s];
      C := C.(head := C.head[a := C.head[a].(state := s)]);
    }

    method SetNext(a: nat, v: nat, ghost m0: seq<Byte>, ghost P: iset<nat>)
      requires Safe(m0, P) && a in C.head && v < WORD_MOD
      modifies `mem, `C
      ensures Safe(m0, P) && C == old(C).(head := old(C.head)[a := old(C.head)[a].(next := v)]) && |mem| == |old(mem)|
    {
      hide HeadAt, PutWord;
      HeadFields(mem, a, v, 0);
      RepHead(mem, PutWord(mem, a + 16, v), C, a);
      mem := PutWord(mem, a + 16, v);
      C := C.(head := C.head[a := C.head[a].(next := v)]);
    }

    method SetPrev(a: nat, v: nat, ghost m0: seq<Byte>, ghost P: iset<nat>)
      requires Safe(m0, P) && a in C.head && v < WORD_MOD
      modifies `mem, `C
      ensures Safe(m0, P) && C == old(C).(head := old(C.head)[a := old(C.head)[a].(prev := v)]) && |mem| == |old(mem)|
    {
      hide HeadAt, PutWord;
      HeadFields(mem, a, v, 0);
      RepHead(mem, PutWord(mem, a + 24, v), C, a);
      mem := PutWord(mem, a + 24, v);
      C := C.(head := C.head[a := C.head[a].(prev := v)]);
    }

    method SetFoot(f: nat, v: nat, ghost m0: seq<Byte>, ghost P: iset<nat>)
      requires Safe(m0, P) && f in C.foot && v < WORD_MOD
      modifies `mem, `C
      ensures Safe(m0, P) && C == old(C).(foot := old(C.foot)[f := v]) && |mem| == |old(mem)|
    {
      hide HeadAt, PutWord, Word;
      RepFoot(mem, PutWord(mem, f, v), C, f);
      mem := PutWord(mem, f, v);
      C := C.(foot := C.foot[f := v]);
    }

    // -------------------------------------------------------------------------
    // List surgery
    // -------------------------------------------------------------------------

    lemma CellRange(a: nat)
      requires Rep(mem, C) && a in C.head
      ensures a + HEAD <= |mem|
    {
    }

    method CountIn(w: Which, bytes: nat)
      modifies `availLen, `availBytes, `usedLen, `usedBytes
      ensures w.Avail? ==> availLen == old(availLen) + 1 && availBytes == old(availBytes) + bytes
                           && usedLen == old(usedLen) && usedBytes == old(usedBytes)
      ensures w.Used? ==> usedLen == old(usedLen) + 1 && usedBytes == old(usedBytes) + bytes
                          && availLen == old(availLen) && availBytes == old(availBytes)
    {
      if w.Avail? {
        availLen, availBytes := availLen + 1, availBytes + bytes;
      } else {
        usedLen, usedBytes := usedLen + 1, usedBytes + bytes;
      }
    }

    method CountOut(w: Which, bytes: nat)
      requires w.Avail? ==> availLen >= 1 && availBytes >= bytes
      requires w.Used? ==> usedLen >= 1 && usedBytes >= bytes
      modifies `availLen, `availBytes, `usedLen, `usedBytes
      ensures w.Avail? ==> availLen == old(availLen) - 1 && availBytes == old(availBytes) - bytes
                           && usedLen == old(usedLen) && usedBytes == old(usedBytes)
      ensures w.Used? ==> usedLen == old(usedLen) - 1 && usedBytes == old(usedBytes) - bytes
                          && availLen == old(availLen) && availBytes == old(availBytes)
    {
      if w.Avail? {
        availLen, availBytes := availLen - 1, availBytes - bytes;
      } else {
        usedLen, usedBytes := usedLen - 1, usedBytes - bytes;
      }
    }

    /** The pointer writes of el_add_block_front. */
    method LinkNodes(first: nat, a: nat, ghost m0: seq<Byte>, ghost P: iset<nat>)
      requires Safe(m0, P) && first in C.head && C.head[first].next in C.head && a in C.head
      modifies `mem, `C
      ensures Safe(m0, P) && C == old(C).(head := Link(old(C.head), first, a)) && |mem| == |old(mem)|
    {
      hide Rep, Clear, Keeps;
      var start := Head(first);
      var next := start.next;
      CellRange(a);
      CellRange(next);
      CellRange(first);
      SetNext(a, next, m0, P);
      SetPrev(next, a, m0, P);
      SetPrev(a, first, m0, P);
      SetNext(first, a, m0, P);
    }

    /** el_add_block_front: a block in neither list becomes the first of the list of its state. */
    method AddFront(w: Which, a: nat, ghost b: Block, ghost off: set<nat>, ghost m0: seq<Byte>, ghost P: iset<nat>)
      requires Safe(m0, P) && Good(off) && b in V.bs && b.addr == a && a in off && b.used == w.Holding()
      requires a in C.head && C.head[a].state == b.State()
      modifies `mem, `C, `V, `availLen, `availBytes, `usedLen, `usedBytes
      ensures Safe(m0, P) && Good(off - {a}) && V == old(V).WithList(w, [a] + old(V).List(w))
      ensures SameTags(old(C.head), C.head) && C.foot == old(C.foot) && |mem| == |old(mem)|
    {
      hide Rep, Clear, Keeps, Core, Total, SameTags, Link;
      LinkCore(ctl, C, V, off, w, b);
      BlockOf(off, b);
      TotalOff(V.bs, V.lo, V.hi, off - {a}, b);
      assert off - {a} + {a} == off;
      LinkNodes(First(ctl, w), a, m0, P);
      SameSize(old(C.head), C.head, a);
      var h := Head(a);
      CountIn(w, h.size + OVERHEAD);
      V := V.WithList(w, [a] + V.List(w));
    }

    lemma SameSize(head: map<nat, Header>, head': map<nat, Header>, a: nat)
      requires SameTags(head, head') && a in head
      ensures a in head' && head'[a].size == head[a].size && head'[a].state == head[a].state
    {
    }

    lemma BlockOf(off: set<nat>, b: Block)
      requires Core(ctl, C, V, off) && b in V.bs
      ensures Tiles(V.bs, V.lo, V.hi) && Tagged(C, b, off)
    {
    }

    /** The pointer writes of el_remove_block. */
    method UnlinkNodes(a: nat, ghost m0: seq<Byte>, ghost P: iset<nat>)
      requires Safe(m0, P) && a in C.head && C.head[a].prev in C.head && C.head[a].next in C.head
      modifies `mem, `C
      ensures Safe(m0, P) && C == old(C).(head := Unlink(old(C.head), a)) && |mem| == |old(mem)|
    {
      hide Rep, Clear, Keeps;
      var block := Head(a);
      var prev, next := block.prev, block.next;
      CellRange(prev);
      CellRange(next);
      SetNext(prev, next, m0, P);
      SetPrev(next, prev, m0, P);
      SetNext(a, NULL, m0, P);
      SetPrev(a, NULL, m0, P);
    }

    /** el_remove_block: a block leaves the list of its state. */
    method Remove(w: Which, a: nat, ghost b: Block, ghost off: set<nat>, ghost m0: seq<Byte>, ghost P: iset<nat>)
      requires Safe(m0, P) && Good(off) && b in V.bs && b.addr == a && a in V.List(w)
      modifies `mem, `C, `V, `availLen, `availBytes, `usedLen, `usedBytes
      ensures Safe(m0, P) && Good(off + {a}) && V == old(V).WithList(w, Without(old(V).List(w), a))
      ensures SameTags(old(C.head), C.head) && C.foot == old(C.foot) && |mem| == |old(mem)|
    {
      hide Rep, Clear, Keeps, Core, Total, SameTags, Without, Unlink;
      UnlinkCore(ctl, C, V, off, w, a);
      BlockOf(off, b);
      OnListState(off, w, b);
      TotalOff(V.bs, V.lo, V.hi, off, b);
      UnlinkNodes(a, m0, P);
      SameSize(old(C.head), C.head, a);
      var h := Head(a);
      WithoutLess(V.List(w), a);
      CountOut(w, h.size + OVERHEAD);
      V := V.WithList(w, Without(V.List(w), a));
    }

    lemma WithoutLess(list: seq<nat>, a: nat)
      requires a in list
      ensures |Without(list, a)| == |list| - 1
    {
    }

    lemma OnListState(off: set<nat>, w: Which, b: Block)
      requires Core(ctl, C, V, off) && b in V.bs && b.addr in V.List(w)
      ensures b.used == w.Holding() && b.addr !in off
    {
      hide Tiles, Links;
      HoldsIn(V, b.addr, w.Holding());
      assert Holds(V.bs, b.addr, b.used);
    }

    // -------------------------------------------------------------------------
    // Set-up
    // -------------------------------------------------------------------------

    /** el_init on a slab of `bytes` bytes at `start`: one available block. */
    constructor (c: nat, m: seq<Byte>, start: nat, bytes: nat)
      requires 0 < c && c + CTL <= start && OVERHEAD <= bytes && start + bytes <= |m| && |m| + OVERHEAD < WORD_MOD
      ensures Valid() && ctl == c
      ensures V == View(start, start + bytes, [Block(start, bytes - OVERHEAD, false)], [start], [])
      ensures Keeps(m, mem, AllBut(c, c + CTL, start, start + bytes))
      ensures heapStart == start && heapEnd == start + bytes && |mem| == |m|
    {
      ctl, mem := c, m;
      heapBytes, heapStart, heapEnd := bytes, start, start + bytes;
      availLen, availBytes, usedLen, usedBytes := 0, 0, 0, 0;
      C := Cells(Found(c, m), map[]);
      V := View(start, start, [], [], []);
      new;
      hide *;
      SetUp(start, bytes);
    }

    method SetUp(start: nat, bytes: nat)
      requires ctl + CTL <= |mem| && |mem| + OVERHEAD < WORD_MOD && C == Cells(Found(ctl, mem), map[])
      requires V == View(start, start, [], [], [])
      requires heapStart == start && heapEnd == start + bytes && heapBytes == bytes && 0 < ctl && ctl + CTL <= start
      requires OVERHEAD <= bytes && start + bytes <= |mem|
      requires availLen == 0 && availBytes == 0 && usedLen == 0 && usedBytes == 0
      modifies `mem, `C, `V, `availLen, `availBytes
      ensures Valid() && V == View(start, start + bytes, [Block(start, bytes - OVERHEAD, false)], [start], [])
      ensures Keeps(old(mem), mem, AllBut(ctl, ctl + CTL, start, start + bytes)) && |mem| == |old(mem)|
    {
      hide Rep, Clear, Keeps, HeadAt, Found, ElHeap.Valid, AllBut;
      ghost var m, P := mem, AllBut(ctl, ctl + CTL, start, start + bytes);
      InitFacts(start, bytes, P);
      InitBlocklist(Avail, m, P);
      InitBlocklist(Used, m, P);
      FirstBlock(start, bytes, m, P);
    }

    /** The four fixed nodes before anything was written to them. */
    static ghost function Found(c: nat, m: seq<Byte>): map<nat, Header>
      requires c + CTL <= |m|
    {
      map a | a in {First(c, Avail), Last(c, Avail), First(c, Used), Last(c, Used)} :: HeadAt(m, a)
    }

    lemma InitFacts(start: nat, bytes: nat, P: iset<nat>)
      requires ctl + CTL <= |mem| && |mem| + OVERHEAD < WORD_MOD && C == Cells(Found(ctl, mem), map[])
      requires P == AllBut(ctl, ctl + CTL, start, start + bytes)
      ensures Safe(mem, P) && (forall a :: a in C.head <==> Sentinel(ctl, a))
      ensures forall x :: x in P ==> x < start || start + bytes <= x
    {
      hide HeadAt, Word;
    }

    /** el_init_blocklist. */
    method InitBlocklist(w: Which, ghost m0: seq<Byte>, ghost P: iset<nat>)
      requires Safe(m0, P) && First(ctl, w) in C.head && Last(ctl, w) in C.head && Last(ctl, w) < WORD_MOD
      modifies `mem, `C
      ensures Safe(m0, P) && |mem| == |old(mem)| && C.head.Keys == old(C.head).Keys && C.foot == old(C.foot)
      ensures Bare(ctl, C.head, w)
      ensures forall a :: a in C.head && a != First(ctl, w) && a != Last(ctl, w) ==> C.head[a] == old(C.head)[a]
    {
      hide Rep, Clear, Keeps;
      var beg, end := First(ctl, w), Last(ctl, w);
      SetState(beg, BEGIN, m0, P);
      SetSize(beg, 0, m0, P);
      SetState(end, END, m0, P);
      SetSize(end, 0, m0, P);
      SetNext(beg, end, m0, P);
      SetPrev(beg, NULL, m0, P);
      SetNext(end, NULL, m0, P);
      SetPrev(end, beg, m0, P);
    }

    method TagFirst(a: nat, size: nat, ghost m0: seq<Byte>, ghost P: iset<nat>)
      requires Safe(m0, P) && a + size + OVERHEAD <= |mem| && Alone(C, P, a, a + size + OVERHEAD)
      modifies `mem, `C
      ensures Safe(m0, P) && |mem| == |old(mem)|
      ensures a in C.head && C.head[a].size == size && C.head[a].state == AVAILABLE
      ensures C == Cells(old(C).head[a := C.head[a]], old(C).foot[a + HEAD + size := size])
    {
      hide Rep, Clear, Keeps;
      MakeHead(a, size, m0, P);
      SetState(a, AVAILABLE, m0, P);
      MakeFoot(a + HEAD + size, size, m0, P);
    }

    method LinkFirst(a: nat, ghost m0: seq<Byte>, ghost P: iset<nat>)
      requires Safe(m0, P) && Bare(ctl, C.head, Avail) && a in C.head && a != First(ctl, Avail) && a != Last(ctl, Avail)
      modifies `mem, `C
      ensures Safe(m0, P) && |mem| == |old(mem)|
      ensures C == old(C).(head := Link(old(C).head, First(ctl, Avail), a))
    {
      hide Rep, Clear, Keeps;
      var first, last := First(ctl, Avail), Last(ctl, Avail);
      CellRange(a);
      CellRange(last);
      CellRange(first);
      SetPrev(a, first, m0, P);
      SetNext(a, last, m0, P);
      SetNext(first, a, m0, P);
      SetPrev(last, a, m0, P);
      assert C.head == Link(old(C).head, first, a);
    }

    /** The slab becomes one available block, the only node of the available list. */
    method FirstBlock(a: nat, bytes: nat, ghost m0: seq<Byte>, ghost P: iset<nat>)
      requires Safe(m0, P) && Bare(ctl, C.head, Avail) && Bare(ctl, C.head, Used) && C.foot == map[]
      requires (forall x :: x in C.head <==> Sentinel(ctl, x)) && V == View(a, a, [], [], [])
      requires heapStart == a && heapEnd == a + bytes && heapBytes == bytes && 0 < ctl && ctl + CTL <= a
      requires OVERHEAD <= bytes && a + bytes <= |mem| && forall x :: x in P ==> x < a || a + bytes <= x
      requires availLen == 0 && availBytes == 0 && usedLen == 0 && usedBytes == 0
      modifies `mem, `C, `V, `availLen, `availBytes
      ensures Valid() && Keeps(m0, mem, P) && |mem| == |old(mem)|
      ensures V == View(a, a + bytes, [Block(a, bytes - OVERHEAD, false)], [a], [])
    {
      hide Rep, Clear, Keeps, Core, Total, Tiles, Link;
      BareCore(ctl, C.head, a);
      ghost var C0, b := C, Block(a, bytes - OVERHEAD, false);
      var size := bytes - OVERHEAD;
      TagFirst(a, size, m0, P);
      GrowCore(ctl, C0, C, V, bytes, C.head[a]);
      assert [] + [b] == [b];
      V := Grown(V, bytes).(av := []);
      LinkCore(ctl, C, V, {a}, Avail, b);
      LinkFirst(a, m0, P);
      SizeAfterLink(a, b);
      assert {a} - {a} == {} && [a] + [] == [a];
      var h := Head(a);
      availLen, availBytes := availLen + 1, availBytes + h.size + OVERHEAD;
      V := V.(av := [a]);
      SingleTotal(b);
    }

    lemma SizeAfterLink(a: nat, b: Block)
      requires Core(ctl, C, V.WithList(Avail, [a] + V.av), {a} - {a}) && V.bs == [b] && b.addr == a
      ensures a in C.head && C.head[a].size == b.size
    {
      assert b in V.bs;
      assert Tagged(C, b, {a} - {a});
    }

    lemma SingleTotal(b: Block)
      ensures !b.used ==> Total([b], false, {}) == b.size + OVERHEAD && Total([b], true, {}) == 0
    {
      assert [b][1..] == [];
    }

    // -------------------------------------------------------------------------
    // Allocation
    // -------------------------------------------------------------------------

    /** el_find_first_avail: the first block of the available list that holds `size` bytes. */
    method FindFirstAvail(size: nat) returns (f: nat)
      requires Valid()
      ensures f == NULL ==> forall b :: b in V.bs && !b.used ==> b.size < size
      ensures f != NULL ==> f in V.av && f in C.head && C.head[f].size >= size
                            && forall k :: 0 <= k < Position(V.av, f) ==>
                                 V.av[k] in C.head && C.head[V.av[k]].size < size
    {
      hide Rep, Core, Total;
      AvailStart();
      var h := Head(First(ctl, Avail));
      f := h.next;
      ghost var k := 0;
      AvailNode(0);
      h := Head(f);
      while h.state != END
        invariant 0 <= k <= |V.av| && f == Node(k) && f in C.head && h == C.head[f]
        invariant forall j :: 0 <= j < k ==> V.av[j] in C.head && C.head[V.av[j]].size < size
        decreases |V.av| - k
      {
        AvailNode(k);
        if h.state == AVAILABLE {
          if h.size >= size {
            AvailAt(k);
            return;
          }
        }
        f := h.next;
        k := k + 1;
        AvailNode(k);
        h := Head(f);
      }
      AvailNode(k);
      AvailAll(size);
      f := NULL;
    }

    /** The `k`th node of the available list, the end node last. */
    ghost function Node(k: nat): nat
      reads `V
      requires k <= |V.av|
    {
      if k < |V.av| then V.av[k] else Last(ctl, Avail)
    }

    lemma AvailStart()
      requires Good({})
      ensures First(ctl, Avail) in C.head && C.head[First(ctl, Avail)].next == Node(0)
    {
      var ns := Ring(ctl, Avail, V.av);
      assert ns[0] == First(ctl, Avail) && ns[1] == Node(0);
    }

    lemma AvailNode(k: nat)
      requires Good({}) && k <= |V.av|
      ensures Node(k) in C.head
      ensures k < |V.av| ==>
                C.head[Node(k)].state == AVAILABLE && C.head[Node(k)].next == Node(k + 1) && Node(k) != NULL
      ensures k == |V.av| ==> C.head[Node(k)].state == END
    {
      hide Tiles, Exact, Total;
      var ns := Ring(ctl, Avail, V.av);
      assert ns[k + 1] == Node(k);
      if k < |V.av| {
        assert ns[k + 2] == Node(k + 1);
        assert Node(k) in V.av;
        HoldsIn(V, Node(k), false);
        var b :| b in V.bs && b.addr == Node(k) && !b.used;
        assert Tagged(C, b, {});
      }
    }

    lemma AvailAt(k: nat)
      requires Good({}) && k < |V.av|
      ensures Position(V.av, V.av[k]) == k
    {
      var p := Position(V.av, V.av[k]);
      assert p < k || k < p || p == k;
    }

    lemma AvailAll(size: nat)
      requires Good({}) && forall j :: 0 <= j < |V.av| ==> V.av[j] in C.head && C.head[V.av[j]].size < size
      ensures forall b :: b in V.bs && !b.used ==> b.size < size
    {
      hide Tiles, Exact, Total, Links;
      forall b | b in V.bs && !b.used ensures b.size < size {
        assert Holds(V.bs, b.addr, false);
        assert b.addr in V.av && Tagged(C, b, {});
      }
    }

    /** A footer is written where there was none. */
    method MakeFoot(f: nat, v: nat, ghost m0: seq<Byte>, ghost P: iset<nat>)
      requires Safe(m0, P) && f + FOOT <= |mem| && Alone(C, P, f, f + FOOT) && v < WORD_MOD
      modifies `mem, `C
      ensures Safe(m0, P) && C == old(C).(foot := old(C.foot)[f := v]) && |mem| == |old(mem)|
    {
      hide Keeps, Rep, Clear, Alone, Word;
      AddFoot(mem, C, P, f);
      C := C.(foot := C.foot[f := Word(mem, f)]);
      SetFoot(f, v, m0, P);
    }

    /** A header is begun where there was none: its size is written, the rest is what was there. */
    method MakeHead(a: nat, v: nat, ghost m0: seq<Byte>, ghost P: iset<nat>)
      requires Safe(m0, P) && a + HEAD <= |mem| && Alone(C, P, a, a + HEAD) && v < WORD_MOD
      modifies `mem, `C
      ensures Safe(m0, P) && |mem| == |old(mem)| && a in C.head && C.head[a].size == v
      ensures C == old(C).(head := old(C.head)[a := C.head[a]])
    {
      hide Keeps, Rep, Clear, Alone, HeadAt;
      AddHead(mem, C, P, a);
      C := C.(head := C.head[a := HeadAt(mem, a)]);
      SetSize(a, v, m0, P);
    }

    /** el_split_block on the cells: an available block of `size` bytes is cut after `n`. */
    method CutBlock(a: nat, n: nat, ghost b: Block, ghost off: set<nat>, ghost m0: seq<Byte>,
                    ghost P: iset<nat>) returns (newb: nat)
      requires Safe(m0, P) && Core(ctl, C, V, off) && V.hi <= |mem| && b in V.bs && b.addr == a
      requires n + OVERHEAD <= b.size
      requires forall x :: x in P ==> x < a || b.End() <= x
      modifies `mem, `C
      ensures Safe(m0, P) && |mem| == |old(mem)| && newb == a + n + OVERHEAD
      ensures Recelled(old(C), C, [b], Taken(b, n))
    {
      hide Core, Keeps, Rep, Clear, Recelled, Taken;
      SpanClear(ctl, C, V, off, b);
      var block := Head(a);
      var olds := block.size;
      var oldf := a + HEAD + olds;
      var left := olds - n - OVERHEAD;
      SetSize(a, n, m0, P);
      var shrunkf := a + HEAD + n;
      MakeFoot(shrunkf, n, m0, P);
      SetFoot(oldf, left, m0, P);
      var tag := FootSize(oldf);
      newb := oldf - HEAD - tag;
      MakeHead(newb, left, m0, P);
      CutRecelled(old(C), C, b, n, old(C).head[a].(size := n), C.head[newb]);
    }

    lemma CutRecelled(C0: Cells, C1: Cells, b: Block, n: nat, h: Header, g: Header)
      requires b.addr in C0.head && b.Foot() in C0.foot && n + OVERHEAD <= b.size
      requires C1.head == C0.head[b.addr := h][b.addr + n + OVERHEAD := g] && h.size == n
      requires g.size == b.size - n - OVERHEAD
      requires C1.foot == C0.foot[b.addr + HEAD + n := n][b.Foot() := b.size - n - OVERHEAD]
      ensures Recelled(C0, C1, [b], Taken(b, n))
    {
      hide Addrs, Feet, Taken;
      AddrsTaken(b, n);
      assert forall c :: c in Taken(b, n) ==>
               c == Block(b.addr, n, true) || c == Block(b.addr + n + OVERHEAD, b.size - n - OVERHEAD, false) by {
        TakenOnly(b, n);
      }
    }

    lemma TakenOnly(b: Block, n: nat)
      requires n + OVERHEAD <= b.size
      ensures forall c :: c in Taken(b, n) ==>
                c == Block(b.addr, n, true) || c == Block(b.addr + n + OVERHEAD, b.size - n - OVERHEAD, false)
    {
    }

    /** el_split_block, and the block's change of hands: `V` already counts it as used. */
    method Split(a: nat, n: nat, ghost i: nat, ghost m0: seq<Byte>, ghost P: iset<nat>) returns (newb: nat)
      requires Safe(m0, P) && Good({a}) && i < |V.bs| && V.bs[i].addr == a && n + OVERHEAD < WORD_MOD
      requires forall x :: x in P ==> x < a || V.bs[i].End() <= x
      modifies `mem, `C, `V
      ensures Safe(m0, P) && |mem| == |old(mem)| && V == old(V).(bs := Carve(old(V).bs, i, n))
      ensures (newb == NULL) == (old(V).bs[i].size < n + OVERHEAD)
      ensures newb == NULL ==> Good({a})
      ensures newb != NULL ==> newb == a + n + OVERHEAD && Good({a, newb})
    {
      hide Core, Keeps, Rep, Clear, Tiles, Recelled, Total, Addrs, Taken, Carve;
      ghost var b := V.bs[i];
      BlockOf({a}, b);
      var block := Head(a);
      if block.size < n + OVERHEAD {
        KeepRecelled(C, b, {a}, n);
        newb := NULL;
      } else {
        newb := CutBlock(a, n, b, {a}, m0, P);
      }
      AddrsTaken(b, n);
      CarveCore(ctl, old(C), C, V, i, n);
      V := V.(bs := Carve(V.bs, i, n));
    }

    lemma KeepRecelled(C0: Cells, b: Block, off: set<nat>, n: nat)
      requires Tagged(C0, b, off) && b.size < n + OVERHEAD
      ensures Recelled(C0, C0, [b], Taken(b, n))
    {
      AddrsTaken(b, n);
    }

    /** SetState on a block that is in neither list. */
    method Mark(a: nat, s: Byte, ghost b: Block, ghost off: set<nat>, ghost m0: seq<Byte>, ghost P: iset<nat>)
      requires Safe(m0, P) && Good(off) && b in V.bs && b.addr == a && a in off
      modifies `mem, `C
      ensures Safe(m0, P) && Good(off) && |mem| == |old(mem)| && a in C.head && C.head[a].state == s
    {
      hide Core, Rep, Clear, Keeps, Total;
      StateCore(ctl, C, V, off, b, s);
      SetState(a, s, m0, P);
    }

    /** The available block that starts at `a`. */
    lemma AvailBlock(a: nat, n: nat) returns (i: nat)
      requires Good({}) && a in V.av && a in C.head && C.head[a].size >= n
      requires forall k :: 0 <= k < Position(V.av, a) ==> V.av[k] in C.head && C.head[V.av[k]].size < n
      ensures FirstFit(V, i, n) && V.bs[i].addr == a
    {
      hide Tiles, Exact, Links, Total;
      assert Holds(V.bs, a, false);
      var b :| b in V.bs && b.addr == a && !b.used;
      i :| 0 <= i < |V.bs| && V.bs[i] == b;
      assert Tagged(C, b, {});
      forall c | c in V.bs && c.addr in V.av[..Position(V.av, a)] ensures c.size < n {
        assert Tagged(C, c, {});
      }
    }

    /** el_malloc: the first fitting block of the available list is handed out; with none, nothing changes. */
    method Malloc(n: nat) returns (p: nat, ghost i: nat)
      requires Valid()
      modifies `mem, `C, `V, `availLen, `availBytes, `usedLen, `usedBytes
      ensures Valid() && Keeps(old(mem), mem, Payload(old(V).bs)) && |mem| == |old(mem)|
      ensures p == NULL ==> V == old(V) && mem == old(mem) && forall b :: b in V.bs && !b.used ==> b.size < n
      ensures p != NULL ==> FirstFit(old(V), i, n) && p == old(V).bs[i].Pay() && V == Allocated(old(V), i, n)
    {
      hide Core, Rep, Clear, Keeps, Total, Carve, Tiles, NoTwoAvailable, FirstFit, Payload;
      i := 0;
      var f := FindFirstAvail(n);
      if f == NULL {
        assert Keeps(mem, mem, Payload(V.bs)) by { KeepsSelf(mem, Payload(V.bs)); }
        return NULL, i;
      }
      i := AvailBlock(f, n);
      ghost var V0, P := V, Payload(V.bs);
      FitFacts(i, n);
      HandOut(f, n, i, mem, P);
      CarveApart(V0.bs, i, n);
      p := f + HEAD;
    }

    /** Available block `i` goes to the used list, what it does not need back to the available one. */
    method HandOut(f: nat, n: nat, ghost i: nat, ghost m0: seq<Byte>, ghost P: iset<nat>)
      requires Safe(m0, P) && Good({}) && i < |V.bs| && V.bs[i].addr == f && f in V.av && n + OVERHEAD < WORD_MOD
      requires forall x :: x in P ==> x < f || V.bs[i].End() <= x
      modifies `mem, `C, `V, `availLen, `availBytes, `usedLen, `usedBytes
      ensures Safe(m0, P) && Good({}) && V == Allocated(old(V), i, n) && |mem| == |old(mem)|
    {
      hide Core, Rep, Clear, Keeps, Total, Carve, Tiles, Without;
      ghost var bs := V.bs;
      Remove(Avail, f, V.bs[i], {}, m0, P);
      assert {} + {f} == {f};
      var newb := Split(f, n, i, m0, P);
      CarveHas(bs, i, n);
      ghost var off := if newb == NULL then {f} else {f, newb};
      Mark(f, USED, V.bs[i], off, m0, P);
      AddFront(Used, f, V.bs[i], off, m0, P);
      if newb != NULL {
        assert off - {f} == {newb};
        Mark(newb, AVAILABLE, V.bs[i + 1], {newb}, m0, P);
        AddFront(Avail, newb, V.bs[i + 1], {newb}, m0, P);
        assert {newb} - {newb} == {};
      } else {
        assert off - {f} == {};
      }
    }

    lemma KeepsSelf(m: seq<Byte>, P: iset<nat>)
      ensures Keeps(m, m, P)
    {
    }

    lemma CarveHas(bs: seq<Block>, i: nat, n: nat)
      requires i < |bs|
      ensures i < |Carve(bs, i, n)| && Carve(bs, i, n)[i] in Carve(bs, i, n)
      ensures Carve(bs, i, n)[i].addr == bs[i].addr && Carve(bs, i, n)[i].used
      ensures bs[i].size >= n + OVERHEAD ==>
                i + 1 < |Carve(bs, i, n)| && Carve(bs, i, n)[i + 1] in Carve(bs, i, n)
                && Carve(bs, i, n)[i + 1].addr == bs[i].addr + n + OVERHEAD && !Carve(bs, i, n)[i + 1].used
    {
    }

    lemma FitFacts(i: nat, n: nat)
      requires Valid() && FirstFit(V, i, n)
      ensures Safe(mem, Payload(V.bs)) && i < |V.bs| && V.bs[i] in V.bs && V.bs[i].addr in V.av && !V.bs[i].used
      ensures n + OVERHEAD < WORD_MOD
      ensures forall x :: x in Payload(V.bs) ==> x < V.bs[i].addr || V.bs[i].End() <= x
    {
      hide Rep, Clear, Payload, Total, Tiles, NoTwoAvailable;
      KeepsSelf(mem, Payload(V.bs));
      PayloadClear(ctl, C, V, {});
      PayloadApart(V, V.bs[i]);
      SpanClear(ctl, C, V, {}, V.bs[i]);
    }

    // -------------------------------------------------------------------------
    // Freeing
    // -------------------------------------------------------------------------

    /** el_block_above: the next block in address order, NULL for the last one. */
    method BlockAbove(a: nat, ghost i: nat, ghost off: set<nat>) returns (r: nat)
      requires Good(off) && Rep(mem, C) && i < |V.bs| && V.bs[i].addr == a
      ensures r == if i + 1 < |V.bs| then V.bs[i + 1].addr else NULL
    {
      hide Rep, Core, Total;
      BlockOf(off, V.bs[i]);
      TilesNext(V.bs, V.lo, V.hi, i);
      TilesIn(V.bs, V.lo, V.hi);
      var h := Head(a);
      var higher := a + h.size + OVERHEAD;
      r := if higher >= heapEnd then NULL else higher;
    }

    /** el_block_below: the block before in address order, found through its footer; NULL for the first one. */
    method BlockBelow(a: nat, ghost i: nat, ghost off: set<nat>) returns (r: nat)
      requires Good(off) && Rep(mem, C) && i < |V.bs| && V.bs[i].addr == a
      ensures r == if i > 0 then V.bs[i - 1].addr else NULL
    {
      hide Rep, Core, Total;
      BlockOf(off, V.bs[i]);
      TilesNext(V.bs, V.lo, V.hi, i);
      if i > 0 {
        BlockOf(off, V.bs[i - 1]);
        TilesNext(V.bs, V.lo, V.hi, i - 1);
        TilesIn(V.bs, V.lo, V.hi);
      }
      if a <= heapStart {
        return NULL;
      }
      var footer := a - FOOT;
      var size := FootSize(footer);
      r := footer - HEAD - size;
    }

    /** Two neighbours in neither list become one on the cells. */
    method JoinCells(a: nat, up: nat, ghost i: nat, ghost m0: seq<Byte>, ghost P: iset<nat>)
      requires Safe(m0, P) && i + 1 < |V.bs| && V.bs[i].addr == a && V.bs[i + 1].addr == up
      requires Core(ctl, C, V, {a, up}) && V.hi <= |mem| && a in C.head
      modifies `mem, `C
      ensures Safe(m0, P) && |mem| == |old(mem)| && a in C.head && C.head[a].state == old(C.head)[a].state
      ensures Recelled(old(C), C, [V.bs[i], V.bs[i + 1]], [Joined(V.bs[i], V.bs[i + 1])])
    {
      hide Core, Rep, Clear, Keeps, Recelled, Tiles;
      ghost var lower, upper := V.bs[i], V.bs[i + 1];
      BlockOf({a, up}, lower);
      BlockOf({a, up}, upper);
      TilesNext(V.bs, V.lo, V.hi, i);
      TilesIn(V.bs, V.lo, V.hi);
      var h := Head(a);
      var g := Head(up);
      var size := h.size + OVERHEAD + g.size;
      SetSize(a, size, m0, P);
      var newf := a + HEAD + size;
      SetFoot(newf, size, m0, P);
      DropCells(mem, C, P, {up}, {lower.Foot()});
      C := Cells(C.head - {up}, C.foot - {lower.Foot()});
      MergeRecelled(old(C), C, lower, upper);
    }

    /** el_merge_block_with_above. */
    method MergeWithAbove(a: nat, ghost i: nat, ghost m0: seq<Byte>, ghost P: iset<nat>)
      requires Safe(m0, P) && Good({}) && (a != NULL ==> i < |V.bs| && V.bs[i].addr == a)
      modifies `mem, `C, `V, `availLen, `availBytes, `usedLen, `usedBytes
      ensures Safe(m0, P) && Good({}) && |mem| == |old(mem)|
      ensures V == if a == NULL then old(V) else Merged(old(V), i)
    {
      hide Core, Rep, Clear, Keeps, Total, Tiles, Recelled, MergeAt, SameTags;
      if a == NULL {
        return;
      }
      BlockState(i);
      var h := Head(a);
      if h.state != AVAILABLE {
        return;
      }
      var up := BlockAbove(a, i, {});
      if up == NULL {
        if i + 1 < |V.bs| {
          BlockState(i + 1);
        }
        return;
      }
      BlockState(i + 1);
      var g := Head(up);
      if g.state != AVAILABLE {
        return;
      }
      MergePair(a, up, i, m0, P);
    }

    /** Two available neighbours become one, which goes to the front of the available list. */
    method MergePair(a: nat, up: nat, ghost i: nat, ghost m0: seq<Byte>, ghost P: iset<nat>)
      requires Safe(m0, P) && Good({}) && i + 1 < |V.bs| && V.bs[i].addr == a && V.bs[i + 1].addr == up
      requires !V.bs[i].used && !V.bs[i + 1].used
      modifies `mem, `C, `V, `availLen, `availBytes, `usedLen, `usedBytes
      ensures Safe(m0, P) && Good({}) && |mem| == |old(mem)|
      ensures V == Merged(old(V), i)
    {
      hide Core, Rep, Clear, Keeps, Total, Tiles, Recelled, MergeAt, SameTags, Without;
      ghost var lower, upper := V.bs[i], V.bs[i + 1];
      BlockState(i);
      Remove(Avail, a, lower, {}, m0, P);
      assert {} + {a} == {a};
      StillListed(i);
      SameSize(old(C.head), C.head, a);
      ghost var head1 := C.head;
      Remove(Avail, up, upper, {a}, m0, P);
      assert {a} + {up} == {a, up};
      SameSize(head1, C.head, a);
      ghost var C1 := C;
      JoinCells(a, up, i, m0, P);
      MergeCore(ctl, C1, C, V, i);
      V := V.(bs := MergeAt(V.bs, i));
      JoinedIn(old(V).bs, i);
      BlockOf({a}, Joined(lower, upper));
      AddFront(Avail, a, Joined(lower, upper), {a}, m0, P);
      assert {a} - {a} == {};
    }

    lemma BlockState(i: nat)
      requires Core(ctl, C, V, {}) && i < |V.bs|
      ensures Tagged(C, V.bs[i], {}) && V.bs[i].addr != NULL
      ensures V.bs[i].addr in if V.bs[i].used then V.us else V.av
    {
      hide Tiles, Links, Exact;
      assert V.bs[i] in V.bs;
      HoldsOf(V, V.bs[i]);
    }

    lemma StillListed(i: nat)
      requires i + 1 < |V.bs| && !V.bs[i + 1].used && Core(ctl, C, V, {V.bs[i].addr})
      ensures V.bs[i + 1].addr in V.av
    {
      hide Links, Exact;
      TilesNext(V.bs, V.lo, V.hi, i);
      assert V.bs[i + 1] in V.bs;
      assert Holds(V.bs, V.bs[i + 1].addr, false);
    }

    lemma JoinedIn(bs: seq<Block>, i: nat)
      requires i + 1 < |bs| && !bs[i].used && !bs[i + 1].used
      ensures Joined(bs[i], bs[i + 1]) in MergeAt(bs, i)
    {
      assert MergeAt(bs, i)[i] == Joined(bs[i], bs[i + 1]);
    }

    /** What el_free may be given: NULL, or an address whose header is either not marked used or a live block's. */
    ghost predicate FreeArg(ptr: nat)
      reads this
    {
      ptr == NULL || (HEAD <= ptr <= |mem| && (mem[ptr - HEAD + 8] == USED ==> Holds(V.bs, ptr - HEAD, true)))
    }

    /** el_free: a live block is given back and merged with its neighbours; anything else changes nothing. */
    method Free(ptr: nat) returns (ghost i: nat)
      requires Valid() && FreeArg(ptr)
      modifies `mem, `C, `V, `availLen, `availBytes, `usedLen, `usedBytes
      ensures Valid() && |mem| == |old(mem)|
      ensures if ptr == NULL || old(mem)[ptr - HEAD + 8] != USED
              then V == old(V) && mem == old(mem)
              else i < |old(V).bs| && old(V).bs[i].used && old(V).bs[i].Pay() == ptr && V == Returned(old(V), i)
                   && Keeps(old(mem), mem, Payload(Flipped(old(V).bs, i, false)))
    {
      hide Core, Rep, Clear, Keeps, Total, Tiles, NoTwoAvailable, Payload, Merged, Moved, Freed, Flipped;
      i := 0;
      if ptr == NULL {
        return;
      }
      var block := ptr - HEAD;
      if mem[block + 8] != USED {
        return;
      }
      i := UsedBlock(block);
      ghost var V0, m0, P := V, mem, Payload(Flipped(V.bs, i, false));
      LiveFacts(i);
      GiveBack(block, i, m0, P);
      MovedAt(V0, i);
      MergeWithAbove(block, i, m0, P);
      var lower := BlockBelow(block, i, {});
      LowerNotNull(i);
      MergeWithAbove(lower, if i > 0 then i - 1 else 0, m0, P);
      ReturnedBlocks(V0, i);
      FreedApart(V0.bs, i);
    }

    /** A used block changes hands and lists; its neighbours are not looked at yet. */
    method GiveBack(a: nat, ghost i: nat, ghost m0: seq<Byte>, ghost P: iset<nat>)
      requires Safe(m0, P) && Good({}) && i < |V.bs| && V.bs[i].addr == a && a in V.us
      modifies `mem, `C, `V, `availLen, `availBytes, `usedLen, `usedBytes
      ensures Safe(m0, P) && Good({}) && |mem| == |old(mem)| && V == Moved(old(V), i)
    {
      hide Core, Rep, Clear, Keeps, Total, Tiles, Without;
      Remove(Used, a, V.bs[i], {}, m0, P);
      assert {} + {a} == {a};
      FlipCore(ctl, C, V, i, false);
      V := V.(bs := Flipped(V.bs, i, false));
      Mark(a, AVAILABLE, V.bs[i], {a}, m0, P);
      AddFront(Avail, a, V.bs[i], {a}, m0, P);
      assert {a} - {a} == {};
    }

    lemma MovedAt(W: View, i: nat)
      requires i < |W.bs|
      ensures i < |Moved(W, i).bs| && Moved(W, i).bs[i].addr == W.bs[i].addr
      ensures i < |Merged(Moved(W, i), i).bs| && Merged(Moved(W, i), i).bs[i].addr == W.bs[i].addr
    {
    }

    lemma LowerNotNull(i: nat)
      requires Core(ctl, C, V, {}) && i < |V.bs|
      ensures i > 0 ==> V.bs[i - 1].addr != NULL
    {
      hide Core;
      if i > 0 {
        BlockState(i - 1);
      }
    }

    lemma UsedBlock(a: nat) returns (i: nat)
      requires Holds(V.bs, a, true)
      ensures i < |V.bs| && V.bs[i].addr == a && V.bs[i].used
    {
      var b :| b in V.bs && b.addr == a && b.used;
      i :| 0 <= i < |V.bs| && V.bs[i] == b;
    }

    lemma LiveFacts(i: nat)
      requires Valid() && i < |V.bs| && V.bs[i].used
      ensures Safe(mem, Payload(Flipped(V.bs, i, false))) && V.bs[i].addr in V.us && V.bs[i].addr != NULL
    {
      hide Rep, Core, Total, NoTwoAvailable, Tiles;
      BlockState(i);
      PayloadClear(ctl, C, V, {});
      var P, Q := Payload(Flipped(V.bs, i, false)), Payload(V.bs);
      forall x | x in P ensures x in Q {
        var b :| b in Flipped(V.bs, i, false) && b.used && b.Covers(x);
        assert b in V.bs;
      }
      KeepsSelf(mem, P);
    }

    // -------------------------------------------------------------------------
    // Growth and accounting
    // -------------------------------------------------------------------------

    /** The tags of a new last block, of `size` payload bytes. */
    method NewBlock(b: nat, size: nat, ghost m0: seq<Byte>, ghost P: iset<nat>)
      requires Safe(m0, P) && b + size + OVERHEAD <= |mem| && Alone(C, P, b, b + size + OVERHEAD)
      modifies `mem, `C
      ensures Safe(m0, P) && |mem| == |old(mem)|
      ensures b in C.head && C.head[b].size == size && C.head[b].state == AVAILABLE
      ensures C == Cells(old(C).head[b := C.head[b]], old(C).foot[b + HEAD + size := size])
    {
      hide Rep, Clear, Keeps;
      var f := b + HEAD + size;
      MakeHead(b, size, m0, P);
      MakeFoot(f, size, m0, P);
      SetState(b, AVAILABLE, m0, P);
      SetPrev(b, NULL, m0, P);
      SetNext(b, NULL, m0, P);
    }

    /** el_append_pages_to_heap, once the new memory is known to start at the heap's end. */
    method Append(nbytes: nat)
      requires Valid() && OVERHEAD <= nbytes && heapEnd + nbytes <= |mem|
      modifies this
      ensures Valid() && V == Extended(old(V), nbytes) && Keeps(old(mem), mem, Payload(old(V).bs))
      ensures heapStart == old(heapStart) && heapEnd == old(heapEnd) + nbytes && |mem| == |old(mem)|
    {
      hide Core, Rep, Clear, Keeps, Total, NoTwoAvailable, Payload, Merged, Tiles;
      ghost var V0, m0, P := V, mem, Payload(V.bs);
      var b, size := heapEnd, nbytes - OVERHEAD;
      GrowFacts(nbytes);
      NewBlock(b, size, m0, P);
      GrowCore(ctl, old(C), C, V, nbytes, C.head[b]);
      heapBytes := heapBytes + nbytes;
      heapEnd := heapEnd + nbytes;
      V := Grown(V, nbytes).(av := V.av);
      AddFront(Avail, b, V.bs[|V0.bs|], {b}, m0, P);
      assert {b} - {b} == {} && V == Grown(V0, nbytes);
      var below := BlockBelow(b, |V0.bs|, {});
      LowerNotNull(|V0.bs|);
      MergeWithAbove(below, |V0.bs| - 1, m0, P);
      GrownApart(V0, nbytes);
    }

    lemma GrowFacts(nbytes: nat)
      requires Valid() && heapEnd + nbytes <= |mem|
      ensures Safe(mem, Payload(V.bs)) && Alone(C, Payload(V.bs), heapEnd, heapEnd + nbytes)
    {
      hide Rep, Clear, Core, Total, NoTwoAvailable;
      KeepsSelf(mem, Payload(V.bs));
      PayloadClear(ctl, C, V, {});
      AllBelow(ctl, C, V);
    }

    /** heap_used_bytes: the whole-heap walk finds exactly the payload bytes in use, within its bound. */
    method UsedBytes() returns (used: nat, ok: bool)
      requires Valid()
      ensures ok && used == InUse(V.bs)
    {
      hide Rep, Core, Total, NoTwoAvailable, Tiles;
      used, ok := 0, true;
      var seen := 0;
      var maxBlocks := heapBytes / OVERHEAD + 1;
      var cur := heapStart;
      ghost var k := 0;
      WalkFacts(0);
      while cur != NULL
        invariant 0 <= k <= |V.bs| && seen == k && ok && used == InUse(V.bs[..k])
        invariant cur == if k < |V.bs| then V.bs[k].addr else NULL
        decreases |V.bs| - k
      {
        WalkFacts(k);
        seen := seen + 1;
        if seen > maxBlocks {
          ok := false;
          return;
        }
        var h := Head(cur);
        if h.state == USED {
          used := used + h.size;
        }
        assert V.bs[..k + 1][..k] == V.bs[..k];
        cur := BlockAbove(cur, k, {});
        k := k + 1;
      }
      WalkFacts(0);
      if k < |V.bs| {
        WalkFacts(k);
      }
      assert V.bs[..k] == V.bs;
    }

    lemma WalkFacts(k: nat)
      requires Good({}) && k < |V.bs|
      ensures Tagged(C, V.bs[k], {}) && V.bs[k].addr != NULL && k < heapBytes / OVERHEAD + 1
      ensures V.bs[0].addr == heapStart
    {
      hide Core, Total;
      BlockState(k);
      BlockOf({}, V.bs[k]);
      TilesNext(V.bs, V.lo, V.hi, k);
      TilesCount(V.bs, V.lo, V.hi);
    }

    /** A program writes a byte of memory it was given. */
    method Store(x: nat, v: Byte)
      requires Valid() && x in Payload(V.bs)
      modifies `mem
      ensures Valid() && |mem| == |old(mem)| && x < |mem| && mem == old(mem)[x := v]
    {
      hide Core, Total, NoTwoAvailable, HeadAt, Word;
      PayloadClear(ctl, C, V, {});
      AllBelow(ctl, C, V);
      ghost var m' := mem[x := v];
      forall a | a in C.head ensures HeadAt(m', a) == C.head[a] {
        HeadFrame(mem, m', a);
      }
      forall f | f in C.foot ensures Word(m', f) == C.foot[f] {
        WordFrame(mem, m', f);
      }
      mem := mem[x := v];
    }
  }
}
