/** kernel/heap.c: kmalloc and kfree, growing the heap out of the frame pool. */
module KernelHeap {
  import opened Bytes
  import opened HeapCells
  import opened HeapBlocks
  import opened Heap
  import opened Frames

  const GROW := 16              // HEAP_GROW_PAGES, HEAP_INITIAL_PAGES

  /** The low 32 bits of `x`, read as a signed int. */
  function ToInt(x: nat): int {
    var v := x % 0x1_0000_0000;
    if v < 0x8000_0000 then v else v - 0x1_0000_0000
  }

  /** How many pages kmalloc asks for when nothing fits, in 64-bit arithmetic cut down to an int. */
  function PagesFor(size: nat): (n: nat)
    ensures GROW <= n < 0x8000_0000
  {
    var need := (size + OVERHEAD) % WORD_MOD;
    var n := ToInt((need + FRAME - 1) % WORD_MOD / FRAME);
    if n < GROW then GROW else n
  }

  /** The pages asked for hold the request exactly when no step of that arithmetic loses bits. */
  lemma PagesEnough(size: nat)
    requires size < WORD_MOD
    ensures PagesFor(size) * FRAME >= size + OVERHEAD <==> size + OVERHEAD + FRAME - 1 < 0x800_0000_0000
    ensures PagesFor(size) == 16 || (PagesFor(size) - 1) * 4096 < size + OVERHEAD
  {
    var x := size + OVERHEAD + FRAME - 1;
    if x < WORD_MOD {
      var q := x / FRAME;
      assert (size + OVERHEAD) % WORD_MOD + FRAME - 1 == x && x % WORD_MOD == x;
      assert PagesFor(size) == if ToInt(q) < GROW then GROW else ToInt(q);
    } else {
      var need := (size + OVERHEAD) % WORD_MOD;
      assert need == if size + OVERHEAD < WORD_MOD then size + OVERHEAD else size + OVERHEAD - WORD_MOD;
      var y := (need + FRAME - 1) % WORD_MOD;
      assert y < 2 * FRAME;
      assert y / FRAME < 2;
      assert PagesFor(size) == GROW;
    }
  }

  ghost predicate Fits(bs: seq<Block>, n: nat) { exists b :: b in bs && !b.used && b.size >= n }

  /** The lowest run of `n` free frames is the one at frame `at`. */
  ghost predicate Lowest(bits: seq<bool>, at: nat, n: nat) {
    FreeRun(bits, at, n) && forall t: nat :: t < at ==> !FreeRun(bits, t, n)
  }

  /** A grown heap has a last block at least as large as what was added. */
  lemma GrownFits(V: View, n: nat)
    requires n >= OVERHEAD && V.bs != []
    ensures Fits(Extended(V, n).bs, n - OVERHEAD)
  {
    var G := Grown(V, n);
    var k := |V.bs| - 1;
    assert G.bs[k] == V.bs[k] && G.bs[k + 1] == Block(V.hi, n - OVERHEAD, false);
    var E := Extended(V, n);
    if !G.bs[k].used {
      assert E.bs[k] == Joined(G.bs[k], G.bs[k + 1]) && E.bs[k] in E.bs;
    } else {
      assert E == G && G.bs[k + 1] in G.bs;
    }
  }

  /** Growing changes no used block. */
  lemma GrownUsed(V: View, n: nat, b: Block)
    requires n >= OVERHEAD && V.bs != [] && b.used
    ensures b in Extended(V, n).bs <==> b in V.bs
  {
    MergeUsed(Grown(V, n).bs, |V.bs| - 1, b);
  }

  /** The same blocks are in use. */
  ghost predicate SameLive(bs: seq<Block>, bs': seq<Block>) {
    forall b: Block :: b.used ==> (b in bs <==> b in bs')
  }

  /** Block `b` came into use and nothing else changed hands. */
  ghost predicate AddsLive(bs: seq<Block>, bs': seq<Block>, b: Block) {
    b.used && b !in bs && forall c: Block :: c.used ==> (c in bs' <==> c in bs || c == b)
  }

  ghost predicate DropsLive(bs: seq<Block>, bs': seq<Block>, b: Block) {
    b.used && b in bs && forall c: Block :: c.used ==> (c in bs' <==> c in bs && c != b)
  }

  /** The bytes handed out, those of `b` apart. */
  ghost function PayloadBut(bs: seq<Block>, b: Block): iset<nat> {
    iset x: nat | Handed(bs, x) && !b.Covers(x)
  }

  lemma SamePayload(bs: seq<Block>, bs': seq<Block>)
    requires SameLive(bs, bs')
    ensures Payload(bs) == Payload(bs')
  {
    assert forall x: nat :: Handed(bs, x) <==> Handed(bs', x);
  }

  /** What el_malloc hands out is a new live block of at least the size asked for. */
  lemma AllocatedLive(V: View, i: nat, n: nat)
    requires Tiles(V.bs, V.lo, V.hi) && FirstFit(V, i, n)
    ensures i < |V.bs|
    ensures var b := Taken(V.bs[i], n)[0];
            AddsLive(V.bs, Allocated(V, i, n).bs, b) && b.size >= n && b.Pay() == V.bs[i].Pay()
  {
    var b := Taken(V.bs[i], n)[0];
    TilesIn(V.bs, V.lo, V.hi);
    forall c: Block | c.used ensures c in Carve(V.bs, i, n) <==> c in V.bs || c == b {
      CarveUsed(V.bs, i, n, c);
    }
  }

  /** Live payloads share no byte. */
  lemma LiveApart(bs: seq<Block>, lo: nat, hi: nat, b: Block, c: Block, x: nat)
    requires Tiles(bs, lo, hi) && b in bs && c in bs && b.Covers(x) && c.Covers(x)
    ensures b == c
  {
    TilesIn(bs, lo, hi);
  }

  /** One thing that can happen to the heap: an allocation, a free of the `k`th pointer held, a write of
      a byte through it, or some other taker of a frame. */
  datatype Op = Allocate(size: nat) | Release(k: nat) | Write(k: nat, off: nat, v: Byte) | TakeFrame

  /** The pointers held are exactly those of the live blocks, once each. */
  ghost predicate Held(ptrs: seq<nat>, bs: seq<Block>) {
    && Distinct(ptrs)
    && (forall b :: b in bs && b.used ==> b.Pay() in ptrs)
    && (forall p :: p in ptrs ==> HoldsPay(bs, p))
  }

  ghost predicate HoldsPay(bs: seq<Block>, p: nat) { exists b :: b in bs && b.used && b.Pay() == p }

  /** The pointers held, the memory, the blocks, the pool's bitmap and the frame past the slab. */
  datatype Shot = Shot(held: seq<nat>, mem: seq<Byte>, V: View, bits: seq<bool>, next: nat) {
    ghost predicate Grows(n: nat) { Lowest(bits, next, PagesFor(n)) }
  }

  ghost predicate TakesOne(a: Shot, b: Shot, c: Block, n: nat) {
    n <= c.size < n + OVERHEAD && AddsLive(a.V.bs, b.V.bs, c) && b.held == a.held + [c.Pay()]
  }

  ghost predicate GivesOne(a: Shot, b: Shot, k: nat, c: Block)
    requires k < |a.held|
  {
    && c.Pay() == a.held[k] && DropsLive(a.V.bs, b.V.bs, c) && Keeps(a.mem, b.mem, PayloadBut(a.V.bs, c))
    && b.held == a.held[..k] + a.held[k + 1..]
  }

  /** Offset `off` lies in the live block at pointer `p`. */
  ghost predicate Inside(bs: seq<Block>, p: nat, off: nat) {
    exists c :: c in bs && c.used && c.Pay() == p && off < c.size
  }

  /** What an operation does: an allocation takes a block that was free or new and leaves every live byte alone; a
      release takes one block out and leaves the others' bytes alone; a write inside a block changes one byte. */
  ghost predicate Did(op: Op, a: Shot, b: Shot) {
    && Tiles(a.V.bs, a.V.lo, a.V.hi) && a.V.hi <= |a.mem|
    && match op
       case Allocate(size) =>
         var n := size % WORD_MOD;
         && Keeps(a.mem, b.mem, Payload(a.V.bs))
         && if b.held == a.held
            then && SameLive(a.V.bs, b.V.bs) && !Fits(a.V.bs, n)
                 && (a.Grows(n) ==> n + OVERHEAD + FRAME - 1 >= 0x800_0000_0000)
            else (Fits(a.V.bs, n) || a.Grows(n)) && exists c: Block :: TakesOne(a, b, c, n)
       case Release(k) => if k < |a.held| then exists c: Block :: GivesOne(a, b, k, c) else b == a
       case Write(k, off, v) =>
         if k < |a.held| && Inside(a.V.bs, a.held[k], off)
         then a.held[k] + off < |a.mem| && b == a.(mem := a.mem[a.held[k] + off := v])
         else b == a
       case TakeFrame => b == a.(bits := b.bits)
  }

  class KernelHeap {
    const pool: FramePool
    const heap: ElHeap
    ghost const base: nat         // first frame of the slab
    ghost var pages: nat          // frames in the slab

    /** The heap is sound, lies on whole frames of the pool, and all its frames are marked used. */
    ghost predicate Valid()
      reads this, pool, pool.bitmap, heap
    {
      && pool.Valid() && heap.Valid()
      && heap.heapStart == Addr(base) && heap.heapEnd == Addr(base + pages)
      && base + pages <= pool.num && Addr(pool.num) <= |heap.mem|
      && forall i :: base <= i < base + pages ==> pool.Bits()[i]
    }

    /** heap_init: the first run of 16 free frames becomes the slab. */
    constructor (p: FramePool, ctl: nat, m: seq<Byte>)
      requires p.Valid() && Addr(p.num) <= |m| && |m| + OVERHEAD < WORD_MOD && 0 < ctl && ctl + CTL <= BASE
      requires exists s: nat :: FreeRun(p.Bits(), s, GROW)
      modifies p.bitmap
      ensures Valid() && pool == p && fresh(heap) && |heap.V.bs| == 1 && !heap.V.bs[0].used
    {
      hide ElHeap.Valid, Keeps, AllBut;
      pool := p;
      var npages := GROW;
      var at := p.AllocContiguous(npages);
      ghost var s: nat :| FreeRun(old(p.Bits()), s, GROW) && at == Addr(s)
                          && p.Bits() == Marked(old(p.Bits()), s, GROW, true);
      heap := new ElHeap(ctl, m, at, npages * FRAME);
      base, pages := s, GROW;
    }

    /** el_append_pages_to_heap: grows the slab if the lowest run of free frames is the one at its end. */
    method AppendPages(npages: nat) returns (ok: bool)
      requires Valid() && 0 < npages
      modifies this, heap, pool.bitmap
      ensures Valid()
      ensures ok == Lowest(old(pool.Bits()), old(base + pages), npages)
      ensures ok ==>
                pages == old(pages) + npages && pool.Bits() == Marked(old(pool.Bits()), old(base + pages), npages, true)
                     && heap.V == Extended(old(heap.V), npages * FRAME)
                     && Keeps(old(heap.mem), heap.mem, Payload(old(heap.V).bs))
      ensures !ok ==>
                pages == old(pages) && pool.Bits() == old(pool.Bits()) && heap.V == old(heap.V)
                && heap.mem == old(heap.mem)
    {
      hide ElHeap.Valid, Keeps, Extended, Payload;
      var nbytes := npages * FRAME;
      ghost var bits, at := pool.Bits(), base + pages;
      var mapped := pool.AllocContiguous(npages);
      if mapped == 0 {
        return false;
      }
      ghost var s: nat :| FreeRun(bits, s, npages) && mapped == Addr(s) && pool.Bits() == Marked(bits, s, npages, true)
                          && forall t: nat :: t < s ==> !FreeRun(bits, t, npages);
      if mapped != heap.heapEnd {
        assert s != at;
        FreeRunOf(mapped, npages, s, bits);
        ok := false;
        return;
      }
      assert s == at;
      heap.Append(nbytes);
      pages := pages + npages;
      ok := true;
    }

    /** The refused run goes back frame by frame. */
    method FreeRunOf(mapped: nat, npages: nat, ghost s: nat, ghost bits: seq<bool>)
      requires pool.Valid() && FreeRun(bits, s, npages) && |bits| == pool.num && mapped == Addr(s)
      requires pool.Bits() == Marked(bits, s, npages, true)
      modifies pool.bitmap
      ensures pool.Bits() == bits
    {
      var k := 0;
      while k < npages
        invariant 0 <= k <= npages
        invariant pool.Bits() == Marked(Marked(bits, s, npages, true), s, k, false)
      {
        pool.FreeFrame(mapped + k * FRAME);
        k := k + 1;
      }
      MarkUnmark(bits, s, npages);
    }

    /** The pages kmalloc would add are the lowest free run of that length. */
    ghost predicate CanGrow(size: nat)
      reads this, pool, pool.bitmap
      requires pool.Valid()
    {
      Lowest(pool.Bits(), base + pages, PagesFor(size))
    }

    /** kmalloc: a new live block of at least `size` bytes. For every size whose page count fits an int it
        fails exactly when no block fits and the slab cannot grow. */
    method Kmalloc(size: nat) returns (p: nat)
      requires Valid() && size < WORD_MOD
      modifies this, heap, pool.bitmap
      ensures Valid() && |heap.mem| == |old(heap.mem)| && Keeps(old(heap.mem), heap.mem, Payload(old(heap.V).bs))
      ensures p == NULL ==> SameLive(old(heap.V).bs, heap.V.bs)
      ensures p != NULL ==> exists b: Block :: b.Pay() == p && size <= b.size < size + OVERHEAD
                                               && AddsLive(old(heap.V).bs, heap.V.bs, b)
      ensures p == NULL ==>
                !Fits(old(heap.V).bs, size) && (old(CanGrow(size)) ==> size + OVERHEAD + FRAME - 1 >= 0x800_0000_0000)
      ensures Fits(old(heap.V).bs, size) ==>
                p != NULL && heap.heapEnd == old(heap.heapEnd) && pool.Bits() == old(pool.Bits())
      ensures !Fits(old(heap.V).bs, size) && !old(CanGrow(size)) ==>
                p == NULL && heap.V == old(heap.V) && heap.mem == old(heap.mem) && pool.Bits() == old(pool.Bits())
    {
      hide ElHeap.Valid, Keeps, Payload, Lowest, Tiles, FirstFit, Allocated, SameLive, AddsLive, Fits, Extended;
      ghost var i;
      ghost var V0 := heap.V;
      heap.TilesOf();
      FitsMeans(V0.bs, size);
      SameLiveSelf(V0.bs);
      p, i := heap.Malloc(size);
      if p != NULL {
        AllocatedLive(V0, i, size);
        FitFits(V0, i, size);
        return;
      }
      var npages := PagesFor(size);
      PagesEnough(size);
      var ok := AppendPages(npages);
      if ok {
        ghost var V1, m1 := heap.V, heap.mem;
        heap.TilesOf();
        GrownLive(V0, npages * FRAME);
        FitsMeans(V1.bs, size);
        GrownFitsFor(V0, npages * FRAME, size);
        p, i := heap.Malloc(size);
        KeepsJoin(old(heap.mem), m1, heap.mem, V0.bs, V1.bs);
        if p != NULL {
          AllocatedLive(V1, i, size);
          AddsSame(V0.bs, V1.bs, heap.V.bs, Taken(V1.bs[i], size)[0]);
        }
      }
    }

    /** kfree: a live block goes away; a pointer that is not one changes nothing. */
    method Kfree(ptr: nat)
      requires Valid() && heap.FreeArg(ptr)
      modifies heap
      ensures Valid() && |heap.mem| == |old(heap.mem)|
      ensures if ptr == NULL || old(heap.mem)[ptr - HEAD + 8] != USED
              then heap.V == old(heap.V) && heap.mem == old(heap.mem)
              else exists b: Block :: b.Pay() == ptr && DropsLive(old(heap.V).bs, heap.V.bs, b)
                               && Keeps(old(heap.mem), heap.mem, PayloadBut(old(heap.V).bs, b))
    {
      hide ElHeap.Valid;
      heap.TilesOf();
      ghost var V0 := heap.V;
      ghost var i := heap.Free(ptr);
      if ptr != NULL && old(heap.mem)[ptr - HEAD + 8] == USED {
        ReturnedLive(V0, i);
        OthersKept(V0, i, old(heap.mem), heap.mem);
      }
    }

    ghost function Picture(held: seq<nat>): Shot
      reads this, heap, pool, pool.bitmap
      requires pool.Valid()
    {
      Shot(held, heap.mem, heap.V, pool.Bits(), base + pages)
    }

    /** Any run of allocations, frees in any order, writes and frame takings does at each step what it has to and
        keeps the heap sound, and once every pointer has been given back the heap is a single block again. */
    method Run(ops: seq<Op>) returns (held: seq<nat>, ghost st: seq<Shot>)
      requires Valid() && Held([], heap.V.bs)
      modifies this, heap, pool.bitmap
      ensures Valid() && Held(held, heap.V.bs)
      ensures |st| == |ops| + 1 && st[0] == old(Picture([])) && st[|ops|] == Picture(held)
      ensures forall k :: 0 <= k < |ops| ==> Did(ops[k], st[k], st[k + 1])
      ensures held == [] ==>
                |heap.V.bs| == 1 && heap.V.bs[0].addr == heap.heapStart && heap.V.bs[0].End() == heap.heapEnd
    {
      hide ElHeap.Valid, Did, Held;
      held, st := [], [Picture([])];
      for n := 0 to |ops|
        invariant Valid() && Held(held, heap.V.bs)
        invariant |st| == n + 1 && st[0] == old(Picture([])) && st[n] == Picture(held)
        invariant forall k :: 0 <= k < n ==> Did(ops[k], st[k], st[k + 1])
      {
        held := Step(ops[n], held);
        st := st + [Picture(held)];
      }
      if held == [] {
        AllGiven();
      }
    }

    method Step(op: Op, held: seq<nat>) returns (held': seq<nat>)
      requires Valid() && Held(held, heap.V.bs)
      modifies this, heap, pool.bitmap
      ensures Valid() && Held(held', heap.V.bs) && Did(op, old(Picture(held)), Picture(held'))
    {
      hide ElHeap.Valid, Held, Tiles, Keeps, Payload, Fits, Lowest, SameLive, TakesOne, GivesOne;
      heap.TilesOf();
      held' := held;
      match op
      case Allocate(size) => held' := StepAllocate(size % WORD_MOD, held);
      case Release(k) =>
        if k < |held| {
          held' := StepRelease(k, held);
        }
      case Write(k, off, v) =>
        if k < |held| {
          StepWrite(k, off, v, held);
        }
      case TakeFrame => StepTake();
    }

    method StepAllocate(size: nat, held: seq<nat>) returns (held': seq<nat>)
      requires Valid() && Held(held, heap.V.bs) && size < WORD_MOD
      modifies this, heap, pool.bitmap
      ensures Valid() && Held(held', heap.V.bs) && Keeps(old(heap.mem), heap.mem, Payload(old(heap.V).bs))
      ensures if held' == held
              then && SameLive(old(heap.V).bs, heap.V.bs) && !Fits(old(heap.V).bs, size)
                   && (old(CanGrow(size)) ==> size + OVERHEAD + FRAME - 1 >= 0x800_0000_0000)
              else && (Fits(old(heap.V).bs, size) || old(CanGrow(size)))
                   && exists c: Block :: TakesOne(old(Picture(held)), Picture(held'), c, size)
    {
      hide ElHeap.Valid, Held, SameLive, AddsLive, Lowest, Keeps, Payload, Fits, Tiles;
      ghost var V0 := heap.V;
      var p := Kmalloc(size);
      heap.TilesOf();
      if p == NULL {
        HeldSame(held, V0.bs, heap.V.bs);
        held' := held;
      } else {
        ghost var b: Block :| b.Pay() == p && size <= b.size < size + OVERHEAD && AddsLive(V0.bs, heap.V.bs, b);
        HeldMore(held, V0.bs, heap.V, b);
        held' := held + [p];
        assert TakesOne(old(Picture(held)), Picture(held'), b, size);
      }
    }

    method StepRelease(k: nat, held: seq<nat>) returns (held': seq<nat>)
      requires Valid() && Held(held, heap.V.bs) && k < |held|
      modifies heap
      ensures Valid() && Held(held', heap.V.bs)
      ensures exists c: Block :: GivesOne(old(Picture(held)), Picture(held'), k, c)
    {
      hide ElHeap.Valid, Held, DropsLive, Keeps, PayloadBut, Rep, Tiles;
      heap.TilesOf();
      ghost var V0 := heap.V;
      ghost var c := HeldLive(heap, held, k);
      Kfree(held[k]);
      ghost var b: Block :| b.Pay() == held[k] && DropsLive(V0.bs, heap.V.bs, b)
                            && Keeps(old(heap.mem), heap.mem, PayloadBut(V0.bs, b));
      HeldLess(held, V0, heap.V.bs, b, k);
      held' := held[..k] + held[k + 1..];
      assert GivesOne(old(Picture(held)), Picture(held'), k, b);
    }

    method StepWrite(k: nat, off: nat, v: Byte, held: seq<nat>)
      requires Valid() && Held(held, heap.V.bs) && k < |held|
      modifies heap`mem
      ensures Valid()
      ensures if Inside(heap.V.bs, held[k], off)
              then held[k] + off < |old(heap.mem)| && heap.mem == old(heap.mem)[held[k] + off := v]
              else heap.mem == old(heap.mem)
    {
      hide ElHeap.Valid, Held, Payload, Rep;
      ghost var b := HeldLive(heap, held, k);
      heap.TilesOf();
      OneAt(heap.V, b, off);
      var h := heap.Head(held[k] - HEAD);
      if off < h.size {
        WithinPayload(heap.V.bs, b, held[k] + off);
        heap.Store(held[k] + off, v);
      }
    }

    method StepTake()
      requires Valid()
      modifies pool.bitmap
      ensures Valid()
    {
      hide ElHeap.Valid;
      var addr := pool.AllocFrame();
    }

    lemma AllGiven()
      requires Valid() && Held([], heap.V.bs)
      ensures |heap.V.bs| == 1 && heap.V.bs[0].addr == heap.heapStart && heap.V.bs[0].End() == heap.heapEnd
    {
      hide Rep, Total;
      heap.TilesOf();
      AllFreeIsOne(heap.V.bs, heap.V.lo, heap.V.hi);
    }
  }

  /** A pointer held is a live block's, and may be freed. */
  lemma HeldLive(heap: ElHeap, held: seq<nat>, k: nat) returns (b: Block)
    requires heap.Valid() && Held(held, heap.V.bs) && k < |held|
    ensures b in heap.V.bs && b.used && b.Pay() == held[k] && held[k] != NULL && heap.FreeArg(held[k])
    ensures Rep(heap.mem, heap.C) && b.addr in heap.C.head && heap.C.head[b.addr].size == b.size
    ensures held[k] - HEAD + 8 < |heap.mem| && heap.mem[held[k] - HEAD + 8] == USED
  {
    hide Core, Total, NoTwoAvailable, Word;
    assert held[k] in held;
    b :| b in heap.V.bs && b.used && b.Pay() == held[k];
    heap.BlockOf({}, b);
    heap.CellRange(b.addr);
    assert HeadAt(heap.mem, b.addr).state == USED;
  }

  /** Only one block starts at an address. */
  lemma OneAt(V: View, b: Block, off: nat)
    requires Tiles(V.bs, V.lo, V.hi) && b in V.bs && b.used
    ensures Inside(V.bs, b.Pay(), off) <==> off < b.size
  {
    TilesIn(V.bs, V.lo, V.hi);
  }

  /** A step leaves the bytes of a block that stays live alone, but for the one it writes. */
  lemma StepKeeps(op: Op, a: Shot, b: Shot, c: Block, x: nat)
    requires Did(op, a, b) && c.used && c in a.V.bs && c in b.V.bs && c.Covers(x) && x < |a.mem|
    requires op.Write? && op.k < |a.held| ==> a.held[op.k] + op.off != x
    ensures x < |b.mem| && b.mem[x] == a.mem[x]
  {
    hide Tiles, Fits, Lowest;
    WithinPayload(a.V.bs, c, x);
    if op.Release? && op.k < |a.held| {
      var d: Block :| GivesOne(a, b, op.k, d);
      if d.Covers(x) {
        LiveApart(a.V.bs, a.V.lo, a.V.hi, c, d, x);
      }
      assert x in PayloadBut(a.V.bs, d);
    }
  }

  /** Over any run: a byte written into a block reads back, until the block is released or the byte written again. */
  lemma {:induction false} Remembers(ops: seq<Op>, st: seq<Shot>, i: nat, j: nat, c: Block)
    requires |st| == |ops| + 1 && forall m :: 0 <= m < |ops| ==> Did(ops[m], st[m], st[m + 1])
    requires i < j <= |ops| && ops[i].Write? && ops[i].k < |st[i].held| && st[i].held[ops[i].k] == c.Pay()
    requires ops[i].off < c.size && c.used && forall m :: i <= m <= j ==> c in st[m].V.bs
    requires forall m :: i < m < j && ops[m].Write? && ops[m].k < |st[m].held| ==>
               st[m].held[ops[m].k] + ops[m].off != c.Pay() + ops[i].off
    ensures c.Pay() + ops[i].off < |st[j].mem| && st[j].mem[c.Pay() + ops[i].off] == ops[i].v
    decreases j
  {
    hide Did;
    if j == i + 1 {
      WroteIt(ops[i], st[i], st[j], c);
    } else {
      Remembers(ops, st, i, j - 1, c);
      StepKeeps(ops[j - 1], st[j - 1], st[j], c, c.Pay() + ops[i].off);
    }
  }

  lemma WroteIt(op: Op, a: Shot, b: Shot, c: Block)
    requires Did(op, a, b) && op.Write? && op.k < |a.held| && a.held[op.k] == c.Pay() && c in a.V.bs && c.used
    requires op.off < c.size
    ensures c.Pay() + op.off < |b.mem| && b.mem[c.Pay() + op.off] == op.v
  {
  }

  lemma HeldSame(ptrs: seq<nat>, bs: seq<Block>, bs': seq<Block>)
    requires Held(ptrs, bs) && SameLive(bs, bs')
    ensures Held(ptrs, bs')
  {
    forall p | p in ptrs ensures HoldsPay(bs', p) {
      var b :| b in bs && b.used && b.Pay() == p;
      assert b in bs';
    }
  }

  lemma HeldMore(ptrs: seq<nat>, bs: seq<Block>, V: View, b: Block)
    requires Held(ptrs, bs) && AddsLive(bs, V.bs, b) && Tiles(V.bs, V.lo, V.hi)
    ensures Held(ptrs + [b.Pay()], V.bs)
  {
    TilesIn(V.bs, V.lo, V.hi);
    forall p | p in ptrs ensures HoldsPay(V.bs, p) && p != b.Pay() {
      var c :| c in bs && c.used && c.Pay() == p;
      assert c in V.bs && b in V.bs && c != b;
    }
    assert b in V.bs;
    assert HoldsPay(V.bs, b.Pay());
  }

  lemma HeldLess(ptrs: seq<nat>, V: View, bs': seq<Block>, b: Block, k: nat)
    requires Held(ptrs, V.bs) && DropsLive(V.bs, bs', b) && Tiles(V.bs, V.lo, V.hi) && k < |ptrs| && ptrs[k] == b.Pay()
    ensures Held(ptrs[..k] + ptrs[k + 1..], bs')
  {
    TilesIn(V.bs, V.lo, V.hi);
    var qs := ptrs[..k] + ptrs[k + 1..];
    forall c | c in bs' && c.used ensures c.Pay() in qs {
      var j :| 0 <= j < |ptrs| && ptrs[j] == c.Pay();
      assert if j < k then qs[j] == c.Pay() else j > k && qs[j - 1] == c.Pay();
    }
    forall p | p in qs ensures HoldsPay(bs', p) {
      var j :| 0 <= j < |qs| && qs[j] == p;
      assert p == ptrs[if j < k then j else j + 1];
      assert p in ptrs && p != b.Pay();
      var c :| c in V.bs && c.used && c.Pay() == p;
      assert c in bs';
    }
  }

  lemma WithinPayload(bs: seq<Block>, b: Block, x: nat)
    requires b in bs && b.used && b.Covers(x)
    ensures x in Payload(bs)
  {
  }

  lemma SameLiveSelf(bs: seq<Block>)
    ensures SameLive(bs, bs)
  {
  }

  lemma FitsMeans(bs: seq<Block>, n: nat)
    ensures Fits(bs, n) <==> !forall b :: b in bs && !b.used ==> b.size < n
  {
  }

  lemma FitFits(V: View, i: nat, n: nat)
    requires FirstFit(V, i, n)
    ensures Fits(V.bs, n)
  {
    assert V.bs[i] in V.bs;
  }

  lemma GrownLive(V: View, n: nat)
    requires n >= OVERHEAD && V.bs != []
    ensures SameLive(V.bs, Extended(V, n).bs)
  {
    forall b: Block | b.used ensures b in V.bs <==> b in Extended(V, n).bs {
      GrownUsed(V, n, b);
    }
  }

  lemma GrownFitsFor(V: View, n: nat, size: nat)
    requires n >= OVERHEAD && V.bs != []
    ensures n >= size + OVERHEAD ==> Fits(Extended(V, n).bs, size)
  {
    GrownFits(V, n);
  }

  lemma AddsSame(bs: seq<Block>, bs': seq<Block>, bs'': seq<Block>, b: Block)
    requires SameLive(bs, bs') && AddsLive(bs', bs'', b)
    ensures AddsLive(bs, bs'', b)
  {
  }

  lemma KeepsJoin(m: seq<Byte>, m': seq<Byte>, m'': seq<Byte>, bs: seq<Block>, bs': seq<Block>)
    requires SameLive(bs, bs') && Keeps(m, m', Payload(bs)) && Keeps(m', m'', Payload(bs'))
    ensures Keeps(m, m'', Payload(bs))
  {
    SamePayload(bs, bs');
  }

  lemma ReturnedLive(V: View, i: nat)
    requires Tiles(V.bs, V.lo, V.hi) && i < |V.bs| && V.bs[i].used
    ensures DropsLive(V.bs, Returned(V, i).bs, V.bs[i])
  {
    ReturnedBlocks(V, i);
    forall c: Block | c.used ensures c in Freed(V.bs, i) <==> c in V.bs && c != V.bs[i] {
      FreedUsed(V.bs, V.lo, V.hi, i, c);
    }
  }

  lemma OthersKept(V: View, i: nat, m: seq<Byte>, m': seq<Byte>)
    requires i < |V.bs| && Keeps(m, m', Payload(Flipped(V.bs, i, false)))
    ensures Keeps(m, m', PayloadBut(V.bs, V.bs[i]))
  {
    forall x | x in PayloadBut(V.bs, V.bs[i]) ensures x in Payload(Flipped(V.bs, i, false)) {
      var b :| b in V.bs && b.used && b.Covers(x);
      var j :| 0 <= j < |V.bs| && V.bs[j] == b;
      assert Flipped(V.bs, i, false)[j] == b;
    }
  }
}
