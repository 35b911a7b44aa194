/** libc/malloc.c: the same allocator in ring 3, on slabs from SYS_MMAP. */
module UserHeap {
  import opened Bytes
  import opened Frames
  import opened HeapCells
  import opened HeapBlocks
  import opened Heap
  import opened KernelHeap
  import opened Regions
  import opened PageTables
  import opened Paging

  /** malloc's rounding, in 64-bit arithmetic. */
  function Round8(size: nat): (n: nat)
    ensures n % 8 == 0 && n < WORD_MOD
  {
    (size + 7) % WORD_MOD / 8 * 8
  }

  /** The rounding covers the request exactly when it does not wrap. */
  lemma Round8Covers(size: nat)
    requires size < WORD_MOD
    ensures Round8(size) >= size <==> size <= WORD_MOD - 8
    ensures if size <= WORD_MOD - 8 then Round8(size) < size + 8 else Round8(size) == 0
  {
    if size + 7 < WORD_MOD {
      assert (size + 7) % WORD_MOD == size + 7;
    } else {
      assert (size + 7) % WORD_MOD == size + 7 - WORD_MOD;
    }
  }

  /** The largest request is rounded to nothing. */
  lemma RoundingWraps()
    ensures Round8(WORD_MOD - 1) == 0
  {
  }

  /** Every block starts on a multiple of 8 and holds one. */
  ghost predicate Aligned(bs: seq<Block>) {
    forall b :: b in bs ==> b.addr % 8 == 0 && b.size % 8 == 0
  }

  lemma AlignedCarve(bs: seq<Block>, i: nat, n: nat)
    requires Aligned(bs) && i < |bs| && n % 8 == 0
    ensures Aligned(Carve(bs, i, n))
  {
    assert bs[i] in bs;
    var t := Taken(bs[i], n);
    forall b | b in Carve(bs, i, n) ensures b.addr % 8 == 0 && b.size % 8 == 0 {
      if b in t {
        assert b == t[0] || (|t| == 2 && b == t[1]);
      } else {
        assert b in bs;
      }
    }
  }

  lemma AlignedMerge(bs: seq<Block>, i: nat)
    requires Aligned(bs)
    ensures Aligned(MergeAt(bs, i))
  {
    if i + 1 < |bs| && !bs[i].used && !bs[i + 1].used {
      assert bs[i] in bs && bs[i + 1] in bs;
      forall b | b in MergeAt(bs, i) ensures b.addr % 8 == 0 && b.size % 8 == 0 {
        if b != Joined(bs[i], bs[i + 1]) {
          assert b in bs;
        }
      }
    }
  }

  lemma AlignedFreed(bs: seq<Block>, i: nat)
    requires Aligned(bs) && i < |bs|
    ensures Aligned(Freed(bs, i))
  {
    var flip := Flipped(bs, i, false);
    forall b | b in flip ensures b.addr % 8 == 0 && b.size % 8 == 0 {
      var j :| 0 <= j < |flip| && flip[j] == b;
      assert bs[j] in bs;
    }
    AlignedMerge(flip, i);
    if i > 0 {
      AlignedMerge(MergeAt(flip, i), i - 1);
    }
  }

  lemma AlignedGrown(V: View, n: nat)
    requires Aligned(V.bs) && V.bs != [] && n >= OVERHEAD && n % 8 == 0 && V.hi % 8 == 0
    ensures Aligned(Extended(V, n).bs)
  {
    AlignedMerge(Grown(V, n).bs, |V.bs| - 1);
  }

  function Product(count: nat, size: nat): nat { count * size }

  /** calloc's overflow test is exact. */
  lemma DivTest(count: nat, size: nat)
    requires count != 0
    ensures size > (WORD_MOD - 1) / count <==> Product(count, size) >= WORD_MOD
  {
    var q := (WORD_MOD - 1) / count;
    DivBounds(WORD_MOD - 1, count);
    if size > q {
      MulMono(count, q + 1, size);
    } else {
      MulMono(count, size, q);
    }
  }

  lemma DivBounds(x: nat, c: nat)
    requires c != 0
    ensures c * (x / c) <= x < c * (x / c + 1)
  {
  }

  lemma MulMono(c: nat, a: nat, b: nat)
    requires a <= b
    ensures c * a <= c * b
  {
  }

  /** Every page of [lo, hi) belongs to some region. */
  ghost predicate Resident(rs: seq<Region>, lo: nat, hi: nat) {
    forall p: nat :: lo <= p * FRAME < hi ==> Covered(rs, p)
  }

  lemma AddedResident(rs: seq<Region>, rs': seq<Region>, len: nat, lo: nat, hi: nat)
    requires RegionsOk(rs) && Added(rs, rs', len) && 0 < len && len % FRAME == 0
    requires Top(rs, MAX_REGIONS) + len <= HEAP_LIMIT
    ensures forall p: nat :: Covered(rs', p) <==> Covered(rs, p) || Region(Top(rs, MAX_REGIONS), len).Holds(p)
    ensures Resident(rs, lo, hi) ==> Resident(rs', lo, hi)
    ensures Resident(rs', Top(rs, MAX_REGIONS), Top(rs, MAX_REGIONS) + len)
    ensures Resident(rs, lo, Top(rs, MAX_REGIONS)) ==> Resident(rs', lo, Top(rs, MAX_REGIONS) + len)
  {
    hide Top, RegionsOk, Covered;
    var k: nat :| k < MAX_REGIONS && !rs[k].Live() && rs' == rs[k := Region(Top(rs, MAX_REGIONS), len)];
    SizeOk(rs);
    AddRegion(rs, k, len);
  }

  lemma {:induction false} TopIs(rs: seq<Region>, rs': seq<Region>, k: nat, len: nat, n: nat)
    requires |rs| == MAX_REGIONS && k < MAX_REGIONS && n <= MAX_REGIONS && !rs[k].Live() && 0 < len
    requires rs' == rs[k := Region(Top(rs, MAX_REGIONS), len)]
    ensures Top(rs', n) == if n <= k then Top(rs, n) else Top(rs, MAX_REGIONS) + len
  {
    if n > 0 {
      TopIs(rs, rs', k, len, n - 1);
      TopStep(rs, n - 1);
      TopStep(rs', n - 1);
    }
  }

  lemma AddedTop(rs: seq<Region>, rs': seq<Region>, len: nat)
    requires Added(rs, rs', len) && 0 < len
    ensures |rs'| == MAX_REGIONS && Top(rs', MAX_REGIONS) == Top(rs, MAX_REGIONS) + len
  {
    hide Top;
    var k: nat :| k < MAX_REGIONS && !rs[k].Live() && rs' == rs[k := Region(Top(rs, MAX_REGIONS), len)];
    TopIs(rs, rs', k, len, MAX_REGIONS);
  }

  lemma {:induction false} NoneTop(rs: seq<Region>, n: nat)
    requires n <= |rs| && forall i :: 0 <= i < |rs| ==> !rs[i].Live()
    ensures Top(rs, n) == HEAP_BASE
  {
    if n > 0 {
      NoneTop(rs, n - 1);
    }
  }

  lemma PageBefore(lo: nat, hi: nat)
    requires lo < hi && lo % FRAME == 0 && hi % FRAME == 0
    ensures lo <= (hi / FRAME - 1) * FRAME && (hi / FRAME - 1) * FRAME + FRAME == hi
  {
    var j, k := lo / FRAME, hi / FRAME;
    assert lo == j * FRAME && hi == k * FRAME;
  }

  /** The heap's pages lie below the top of the regions. */
  lemma ResidentBelow(rs: seq<Region>, lo: nat, hi: nat)
    requires RegionsOk(rs) && Resident(rs, lo, hi) && lo < hi && lo % FRAME == 0 && hi % FRAME == 0
    ensures hi <= Top(rs, MAX_REGIONS)
  {
    hide Top, RegionsOk;
    PageBefore(lo, hi);
    CoveredBelow(rs, hi / FRAME - 1);
  }

  lemma CoveredBelow(rs: seq<Region>, p: nat)
    requires RegionsOk(rs) && Covered(rs, p)
    ensures p * FRAME + FRAME <= Top(rs, MAX_REGIONS)
  {
    hide Top;
    var i :| 0 <= i < |rs| && rs[i].Live() && rs[i].Holds(p);
    assert Proper(rs[i]);
    WholeSum(rs[i].base, rs[i].length);
    PageUnder(p, rs[i].End());
  }

  lemma PageUnder(p: nat, end: nat)
    requires end % FRAME == 0 && p * FRAME < end
    ensures p * FRAME + FRAME <= end
  {
    assert end == end / FRAME * FRAME;
  }

  /** What free makes of the blocks and the memory: a live block at `ptr` goes away and no other live byte
      changes; a pointer whose header is not marked used changes nothing. */
  ghost predicate FreedAt(bs: seq<Block>, bs': seq<Block>, m: seq<Byte>, m': seq<Byte>, ptr: nat) {
    if ptr == NULL || !(HEAD <= ptr <= |m|) || m[ptr - HEAD + 8] != USED then bs' == bs && m' == m
    else exists b: Block :: b.Pay() == ptr && DropsLive(bs, bs', b) && Keeps(m, m', PayloadBut(bs, b))
  }

  /** The heap once it exists: `initialised` is set and the control block holds a slab. */
  class SlabHeap {
    const space: UserSpace
    const heap: ElHeap

    ghost predicate Valid()
      reads space, space.paging, space.paging.pool, space.paging.pool.bitmap, heap
    {
      space.Valid() && HeapOk()
    }

    /** The heap is sound and aligned, and all its pages are mapped. */
    ghost predicate HeapOk()
      reads space`regions, heap
    {
      && heap.Valid() && |heap.mem| == HEAP_LIMIT && Aligned(heap.V.bs)
      && HEAP_BASE <= heap.heapStart < heap.heapEnd <= HEAP_LIMIT && heap.heapStart % FRAME == 0
      && heap.heapEnd % FRAME == 0
      && Resident(space.regions, heap.heapStart, heap.heapEnd)
    }

    /** malloc has been the only caller of SYS_MMAP. */
    ghost predicate Sole()
      reads space`regions, heap`heapEnd
    {
      |space.regions| == MAX_REGIONS && heap.heapEnd == Top(space.regions, MAX_REGIONS)
    }

    constructor (s: UserSpace, h: ElHeap)
      ensures space == s && heap == h
    {
      space, heap := s, h;
    }

    /** A slab of `nbytes` bytes right above the heap, or none: one that lands elsewhere is given straight back. It
        lands there exactly when SYS_MMAP grants it and nobody else holds a region above the heap. */
    method NewSlab(nbytes: nat) returns (adjacent: bool)
      requires Valid() && 0 < nbytes && nbytes % FRAME == 0
      modifies space, space.paging, space.paging.pool.bitmap
      ensures space.Valid() && Resident(space.regions, heap.heapStart, heap.heapEnd)
      ensures adjacent <==> old(space.Says(nbytes) == Granted && Sole())
      ensures !adjacent && old(Sole()) ==> Sole()
      ensures adjacent ==>
                heap.heapEnd + nbytes <= HEAP_LIMIT && Resident(space.regions, heap.heapStart, heap.heapEnd + nbytes)
                           && |space.regions| == MAX_REGIONS && Top(space.regions, MAX_REGIONS) == heap.heapEnd + nbytes
    {
      hide UserSpace.Valid, ElHeap.Valid, Resident, Top, Mapped, Undone, Added, RoundUp, RegionsOk, Covered,
           Paging.Valid, Cut, FramesIn, FramePool.Used, Aligned, UserSpace.Says, Paging.Room, Missing;
      ghost var rs := space.regions;
      RoundExact(nbytes);
      SpaceOk(space);
      TopFits(rs);
      ResidentBelow(rs, heap.heapStart, heap.heapEnd);
      GrantFits(space, nbytes);
      var mapped, why := space.Mmap(nbytes);
      if mapped == SYSCALL_ERROR {
        return false;
      }
      AddedResident(rs, space.regions, nbytes, heap.heapStart, heap.heapEnd);
      AddedTop(rs, space.regions, nbytes);
      if mapped != heap.heapEnd {
        GiveBack(mapped, nbytes, rs);
        return false;
      }
      adjacent := true;
    }

    /** A slab that landed above something else goes back with SYS_MUNMAP. */
    method GiveBack(mapped: nat, nbytes: nat, ghost rs: seq<Region>)
      requires space.Valid() && 0 < nbytes && nbytes % FRAME == 0 && heap.heapEnd <= mapped && heap.heapEnd % FRAME == 0
      requires Resident(space.regions, heap.heapStart, heap.heapEnd)
      modifies space, space.paging, space.paging.pool.bitmap
      ensures space.Valid() && Resident(space.regions, heap.heapStart, heap.heapEnd)
    {
      hide UserSpace.Valid, ElHeap.Valid, Resident, Top, RoundUp, RegionsOk, Covered, Paging.Valid, Cut, FramesIn,
           FramePool.Used;
      ghost var mid := space.regions;
      RoundExact(nbytes);
      SpaceOk(space);
      var code, k := space.Munmap(mapped, nbytes);
      GivenBack(mid, space.regions, k, heap.heapStart, heap.heapEnd, code);
    }

    /** el_append_pages_to_heap: it succeeds exactly when SYS_MMAP grants the pages and malloc is its only caller. */
    method AppendPages(npages: nat) returns (ok: bool)
      requires Valid() && 0 < npages
      modifies heap, space, space.paging, space.paging.pool.bitmap
      ensures Valid() && (old(Sole()) ==> Sole())
      ensures ok <==> old(space.Says(npages * FRAME) == Granted && Sole())
      ensures ok ==>
                heap.V == Extended(old(heap.V), npages * FRAME)
                && Keeps(old(heap.mem), heap.mem, Payload(old(heap.V).bs))
      ensures !ok ==> heap.V == old(heap.V) && heap.mem == old(heap.mem)
    {
      hide UserSpace.Valid, ElHeap.Valid, Resident, Top, Extended, Keeps, Payload, Aligned, UserSpace.Says;
      var nbytes := npages * FRAME;
      WholePages(heap.heapEnd, npages);
      ok := NewSlab(nbytes);
      if ok {
        GrowHeap(nbytes);
      }
    }

    method GrowHeap(nbytes: nat)
      requires HeapOk() && FRAME <= nbytes && nbytes % 8 == 0 && heap.heapEnd % 8 == 0
      requires (heap.heapEnd + nbytes) % FRAME == 0
      requires heap.heapEnd + nbytes <= HEAP_LIMIT && Resident(space.regions, heap.heapStart, heap.heapEnd + nbytes)
      modifies heap
      ensures HeapOk() && heap.heapEnd == old(heap.heapEnd) + nbytes
      ensures heap.V == Extended(old(heap.V), nbytes) && Keeps(old(heap.mem), heap.mem, Payload(old(heap.V).bs))
    {
      hide ElHeap.Valid, Resident, Extended, Keeps, Payload, Aligned;
      heap.TilesOf();
      AlignedGrown(heap.V, nbytes);
      heap.Append(nbytes);
    }

    /** The heap could grow by what malloc would ask for. */
    ghost predicate CanGrow(size: nat)
      reads space, space.paging, space.paging.pool, space.paging.pool.bitmap, heap`heapEnd
      requires space.Valid()
    {
      space.Says(PagesFor(size) * FRAME) == Granted && Sole()
    }

    /** The grow-and-retry of malloc, on a request already rounded. It hands out a new live block and keeps the
        others and their bytes. Where the page count fits an int it fails exactly when nothing fits and the heap cannot
        grow. */
    method Allocate(size: nat) returns (p: nat)
      requires Valid() && size < WORD_MOD && size % 8 == 0
      modifies heap, space, space.paging, space.paging.pool.bitmap
      ensures Valid() && (old(Sole()) ==> Sole()) && Keeps(old(heap.mem), heap.mem, Payload(old(heap.V).bs))
      ensures p == NULL ==> SameLive(old(heap.V).bs, heap.V.bs)
      ensures p != NULL ==>
                p % 8 == 0
                && exists b: Block :: b.Pay() == p && b.size >= size && AddsLive(old(heap.V).bs, heap.V.bs, b)
      ensures Fits(old(heap.V).bs, size) ==> p != NULL
      ensures !Fits(old(heap.V).bs, size) && !old(CanGrow(size)) ==> p == NULL
      ensures old(CanGrow(size)) && size + OVERHEAD + FRAME - 1 < 0x800_0000_0000 ==> p != NULL
    {
      hide UserSpace.Valid, ElHeap.Valid, Resident, Top, Extended, Keeps, Payload, Aligned, Tiles, FirstFit, Allocated,
           SameLive, AddsLive, Fits, SlabHeap.Sole, UserSpace.Says;
      ghost var i;
      ghost var V0 := heap.V;
      heap.TilesOf();
      SameLiveSelf(V0.bs);
      FitsMeans(V0.bs, size);
      p, i := heap.Malloc(size);
      if p != NULL {
        FitFits(V0, i, size);
        AllocatedLive(V0, i, size);
        AlignedNow(V0, i, size);
        return;
      }
      var npages := PagesFor(size);
      PagesEnough(size);
      var ok := AppendPages(npages);
      if ok {
        p := Retry(size, npages * FRAME, V0, old(heap.mem));
      }
    }

    method Retry(size: nat, grown: nat, ghost V0: View, ghost m0: seq<Byte>) returns (p: nat)
      requires Valid() && size % 8 == 0 && grown >= OVERHEAD && V0.bs != [] && heap.V == Extended(V0, grown)
      requires Keeps(m0, heap.mem, Payload(V0.bs))
      modifies heap
      ensures Valid() && heap.heapEnd == old(heap.heapEnd) && Keeps(m0, heap.mem, Payload(V0.bs))
      ensures p == NULL ==> SameLive(V0.bs, heap.V.bs) && grown < size + OVERHEAD
      ensures p != NULL ==>
                p % 8 == 0 && exists b: Block :: b.Pay() == p && b.size >= size && AddsLive(V0.bs, heap.V.bs, b)
    {
      hide UserSpace.Valid, ElHeap.Valid, Resident, Extended, Keeps, Payload, Aligned, Tiles, FirstFit, Allocated,
           SameLive, AddsLive, Fits;
      ghost var i;
      ghost var V1, m1 := heap.V, heap.mem;
      heap.TilesOf();
      GrownLive(V0, grown);
      GrownFitsFor(V0, grown, size);
      FitsMeans(V1.bs, size);
      p, i := heap.Malloc(size);
      KeepsJoin(m0, m1, heap.mem, V0.bs, V1.bs);
      if p != NULL {
        AllocatedLive(V1, i, size);
        AddsSame(V0.bs, V1.bs, heap.V.bs, Taken(V1.bs[i], size)[0]);
        AlignedNow(V1, i, size);
      }
    }

    lemma AlignedNow(V0: View, i: nat, n: nat)
      requires Aligned(V0.bs) && FirstFit(V0, i, n) && n % 8 == 0
      ensures i < |V0.bs| && Aligned(Allocated(V0, i, n).bs) && V0.bs[i].Pay() % 8 == 0
    {
      AlignedCarve(V0.bs, i, n);
      assert V0.bs[i] in V0.bs;
    }

    /** el_free: a live block goes away, nothing else changes hands. */
    method Release(ptr: nat)
      requires Valid() && heap.FreeArg(ptr)
      modifies heap
      ensures Valid() && (old(Sole()) ==> Sole())
      ensures FreedAt(old(heap.V.bs), heap.V.bs, old(heap.mem), heap.mem, ptr)
    {
      hide UserSpace.Valid, ElHeap.Valid, Resident, Top, DropsLive, Keeps, PayloadBut, Payload, Aligned, Tiles, Freed,
           Returned, Flipped;
      heap.TilesOf();
      ghost var V0 := heap.V;
      ghost var i := heap.Free(ptr);
      if ptr != NULL && old(heap.mem)[ptr - HEAD + 8] == USED {
        ReturnedLive(V0, i);
        ReturnedBlocks(V0, i);
        AlignedFreed(V0.bs, i);
        OthersKept(V0, i, old(heap.mem), heap.mem);
      }
    }
  }

  /** One thing a program can do: allocate, allocate zeroed memory, free the `k`th pointer held, write a byte
      through it, or map memory behind the library's back. */
  datatype Op = Get(size: nat) | Blank(count: nat, size: nat) | Give(k: nat) | Put(k: nat, off: nat, v: Byte)
              | Elsewhere(length: nat)

  /** The library's state in one program. */
  class Libc {
    const space: UserSpace
    const ctl: nat                // address of el_ctl_actual in the program's data
    const image: seq<Byte>        // the program's memory before the heap exists
    var slab: SlabHeap?           // null until initialised

    ghost predicate Valid()
      reads this, space, space.paging, space.paging.pool, space.paging.pool.bitmap, slab,
            if slab != null then {slab.heap} else {}
    {
      && space.Valid() && 0 < ctl && ctl + CTL <= HEAP_BASE && |image| == HEAP_LIMIT
      && (slab != null ==> slab.space == space && slab.HeapOk())
    }

    /** malloc has been the only caller of SYS_MMAP. */
    ghost predicate Sole()
      reads this, space, slab, if slab != null then {slab.heap} else {}
    {
      if slab == null
      then forall i :: 0 <= i < |space.regions| ==> !space.regions[i].Live()
      else slab.space == space && slab.Sole()
    }

    constructor (s: UserSpace, c: nat, m: seq<Byte>)
      requires s.Valid() && 0 < c && c + CTL <= HEAP_BASE && |m| == HEAP_LIMIT
      ensures Valid() && space == s && slab == null && ctl == c
    {
      space, ctl, image, slab := s, c, m, null;
    }

    /** el_init: the first slab, exactly when SYS_MMAP grants it. */
    method Init() returns (ok: bool)
      requires Valid() && slab == null
      modifies this, space, space.paging, space.paging.pool.bitmap
      ensures Valid() && (old(Sole()) ==> Sole()) && ok == (slab != null)
      ensures ok <==> old(space.Says(GROW * FRAME)) == Granted
      ensures ok ==>
                fresh(slab) && fresh(slab.heap) && |slab.heap.V.bs| == 1
                && slab.heap.V.bs[0].size == GROW * FRAME - OVERHEAD && !slab.heap.V.bs[0].used
      ensures ok && old(Sole()) ==>
                forall m: nat :: space.Says(m) == Granted <==>
                  old(SecondGrant(space.paging.Room(), space.paging.trees[space.tree].pts, m))
    {
      hide UserSpace.Valid, ElHeap.Valid, Resident, Top, Mapped, Undone, Added, RegionsOk, Covered, Paging.Valid,
           Aligned, FramePool.Used, Paging.Room, Missing;
      hide UserSpace.Says;
      var bytes := GROW * FRAME;
      SpaceOk(space);
      ghost var rs, room, pts := space.regions, space.paging.Room(), space.paging.trees[space.tree].pts;
      RoundExact(bytes);
      TopFits(rs);
      GrantFits(space, bytes);
      ghost var alone := Sole();
      var r, why := space.Mmap(bytes);
      if r == SYSCALL_ERROR {
        return false;
      }
      AddedResident(rs, space.regions, bytes, HEAP_BASE, HEAP_BASE);
      AddedTop(rs, space.regions, bytes);
      FirstSlab(r, bytes);
      if alone {
        SaysSecond(space, rs, room, pts);
      }
      var heap := new ElHeap(ctl, image, r, bytes);
      AlignedOne(heap.V.bs);
      slab := new SlabHeap(space, heap);
      ok := true;
    }

    lemma FirstSlab(r: nat, bytes: nat)
      requires bytes == GROW * FRAME && r % FRAME == 0
      ensures (r + bytes) % FRAME == 0 && r % 8 == 0 && (bytes - OVERHEAD) % 8 == 0
    {
      WholePages(r, GROW);
    }

    /** malloc would be able to serve `n` bytes: from the blocks there are, from the slab el_init would set up, or
        from a slab SYS_MMAP would grant. */
    ghost predicate Serves(n: nat)
      reads this, space, space.paging, space.paging.pool, space.paging.pool.bitmap, slab,
            if slab != null then {slab.heap} else {}
      requires Valid()
    {
      if slab == null then
        space.Says(GROW * FRAME) == Granted
        && (|| n <= GROW * FRAME - OVERHEAD
            || SecondGrant(space.paging.Room(), space.paging.trees[space.tree].pts, PagesFor(n) * FRAME))
      else
        Fits(slab.heap.V.bs, n) || space.Says(PagesFor(n) * FRAME) == Granted
    }

    /** Every byte of every block malloc has handed out and not got back lies in a page ring 3 can write. */
    lemma BlockSeen(b: Block, x: nat)
      requires Valid() && b in Blocks() && b.Covers(x)
      ensures var w := Walk(space.paging.tables, space.tree, x / 4096);
              w.Access? && w.writable
    {
      hide UserSpace.Valid, Aligned, Walk, Resident, ElHeap.Valid, Tiles;
      slab.heap.TilesOf();
      InsideBlocks(slab.heap.V, b, x);
      ResidentSeen(slab.heap.heapStart, slab.heap.heapEnd, x);
    }

    lemma InsideBlocks(V: View, b: Block, x: nat)
      requires Tiles(V.bs, V.lo, V.hi) && b in V.bs && b.Covers(x)
      ensures V.lo <= x < V.hi
    {
      TilesIn(V.bs, V.lo, V.hi);
    }

    lemma ResidentSeen(lo: nat, hi: nat, x: nat)
      requires space.Valid() && Resident(space.regions, lo, hi) && lo % FRAME == 0
      requires HEAP_BASE <= lo <= x < hi <= HEAP_LIMIT
      ensures var w := Walk(space.paging.tables, space.tree, x / 4096);
              w.Access? && w.writable
    {
      hide UserSpace.Valid, Walk;
      var q := x / 4096;
      PageWithin(lo, x);
      assert Covered(space.regions, q);
      var i :| 0 <= i < |space.regions| && space.regions[i].Live() && space.regions[i].Holds(q);
      space.HeapSeen(q);
    }

    lemma PageWithin(lo: nat, x: nat)
      requires lo % FRAME == 0 && lo <= x
      ensures lo <= x / 4096 * 4096 <= x
    {
    }

    /** malloc: a new live block, 8-aligned and of at least the size asked for if rounding it does not wrap; the other
        live blocks stay, and their bytes. When malloc is the only caller of SYS_MMAP, NULL comes back exactly when the
        rounded size cannot be served. */
    method Malloc(size: nat) returns (p: nat)
      requires Valid() && size < WORD_MOD
      modifies this, space, space.paging, space.paging.pool.bitmap, if slab == null then {} else {slab.heap}
      ensures Valid() && (old(Sole()) ==> Sole())
      ensures old(slab) != null ==> slab == old(slab) && slab.heap == old(slab.heap)
      ensures old(slab) == null && slab != null ==> fresh(slab) && fresh(slab.heap)
      ensures slab != null ==> Keeps(old(Mem()), slab.heap.mem, Payload(old(Blocks())))
      ensures p == NULL ==> SameLive(old(Blocks()), Blocks())
      ensures p != NULL ==>
                slab != null && p % 8 == 0
                && Gains(old(Blocks()), Blocks(), p, if size <= WORD_MOD - 8 then size else 0)
      ensures old(Sole()) && Round8(size) <= 0x800_0000_0000 - 4136 ==> (p == NULL <==> !old(Serves(Round8(size))))
    {
      hide UserSpace.Valid, ElHeap.Valid, Resident, Top, Payload, Keeps, Aligned, SlabHeap.Sole, Round8, SameLive,
           AddsLive, Paging.Valid, FramePool.Used;
      hide UserSpace.Says, SecondGrant, Fits, Paging.Room;
      SameLiveSelf(Blocks());
      if slab == null {
        var ok := Init();
        if !ok {
          return NULL;
        }
        OneFits(slab.heap.V.bs, Round8(size));
      }
      var n := Round8(size);
      Round8Covers(size);
      RoundedFits(size);
      ghost var bs := slab.heap.V.bs;
      p := slab.Allocate(n);
      NoPayload(image, slab.heap.mem);
      if p != NULL {
        GainsMeans(old(Blocks()), bs, slab.heap.V.bs, p, n, if size <= WORD_MOD - 8 then size else 0);
      } else {
        SameLiveJoin(old(Blocks()), bs, slab.heap.V.bs);
      }
    }

    /** The blocks and the memory of the heap, once there is one. */
    ghost function Blocks(): seq<Block>
      reads this, slab, if slab != null then {slab.heap} else {}
    {
      if slab == null then [] else slab.heap.V.bs
    }

    ghost function Mem(): seq<Byte>
      reads this, slab, if slab != null then {slab.heap} else {}
    {
      if slab == null then image else slab.heap.mem
    }

    lemma RoundedFits(size: nat)
      ensures Round8(size) <= 0x800_0000_0000 - 4136 ==> Round8(size) + OVERHEAD + FRAME - 1 < 0x800_0000_0000
    {
    }

    /** The seven sizes whose rounding wraps are rounded to nothing. */
    lemma Wrapped(size: nat)
      ensures WORD_MOD - 8 < size < WORD_MOD ==> Round8(size) == 0
    {
    }

    /** free: NULL is allowed. */
    method Free(ptr: nat)
      requires Valid() && (ptr != NULL ==> slab != null && slab.heap.FreeArg(ptr))
      modifies if slab == null then {} else {slab.heap}
      ensures Valid() && (old(Sole()) ==> Sole())
      ensures ptr != NULL ==>
                slab != null && FreedAt(old(slab.heap.V.bs), slab.heap.V.bs, old(slab.heap.mem), slab.heap.mem, ptr)
    {
      hide UserSpace.Valid, ElHeap.Valid, Resident, Top, SlabHeap.Sole, FreedAt, Aligned;
      if ptr == NULL {
        return;
      }
      slab.Release(ptr);
    }

    /** calloc: NULL when the product does not fit 64 bits or malloc fails; otherwise a new live block whose `count
        * size` bytes all read zero, the other live blocks and their bytes kept. The exception is a product malloc's
        rounding wraps: then the block is empty and the memset runs past it. The model stops before that memset and says
        so. */
    method Calloc(count: nat, size: nat) returns (p: nat, overrun: bool)
      requires Valid() && count < WORD_MOD && size < WORD_MOD
      modifies this, space, space.paging, space.paging.pool.bitmap, if slab == null then {} else {slab.heap}
      ensures Valid() && (old(Sole()) ==> Sole())
      ensures old(slab) != null ==> slab == old(slab) && slab.heap == old(slab.heap)
      ensures old(slab) == null && slab != null ==> fresh(slab) && fresh(slab.heap)
      ensures slab != null ==> Keeps(old(Mem()), slab.heap.mem, Payload(old(Blocks())))
      ensures p == NULL ==> SameLive(old(Blocks()), Blocks())
      ensures overrun <==> p != NULL && WORD_MOD - 8 < Product(count, size) < WORD_MOD
      ensures p != NULL ==>
                slab != null && p % 8 == 0
                && Gains(old(Blocks()), Blocks(), p, if overrun then 0 else Product(count, size))
      ensures p != NULL && !overrun ==> ZeroAt(slab.heap.mem, p, Product(count, size))
      ensures Product(count, size) >= WORD_MOD ==> p == NULL && slab == old(slab)
      ensures && old(Sole()) && Product(count, size) < WORD_MOD
              && Round8(Product(count, size)) <= 0x800_0000_0000 - 4136 ==>
                (p == NULL <==> !old(Serves(Round8(Product(count, size)))))
      ensures old(Sole()) ==> (overrun <==> WORD_MOD - 8 < Product(count, size) < WORD_MOD && old(Serves(0)))
    {
      hide Product, ZeroAt, UserSpace.Valid, ElHeap.Valid, Resident, Top, Payload, Keeps, Aligned, SlabHeap.Sole,
           Paging.Valid, FramePool.Used;
      hide Gains, SameLive, Round8, Libc.Serves;
      if count != 0 {
        DivTest(count, size);
      } else {
        NoProduct(size);
      }
      overrun := false;
      SameLiveSelf(Blocks());
      if count != 0 && size > (WORD_MOD - 1) / count {
        p := NULL;
        KeepsSelf(Mem(), Blocks());
        return;
      }
      var total := Product(count, size);
      Wrapped(total);
      p := Malloc(total);
      if p != NULL {
        overrun := total > WORD_MOD - 8;
        if !overrun {
          ghost var m1 := slab.heap.mem;
          GainsHolds(old(Blocks()), Blocks(), p, total);
          Clear(p, total);
          slab.heap.TilesOf();
          KeepsCleared(old(Mem()), m1, slab.heap.mem, old(Blocks()), slab.heap.V, p, total);
        }
      }
    }

    /** Any run of allocations, zeroed allocations, frees in any order, writes through the pointers held, and
        regions the program maps for itself: the pointers held are exactly those of the live blocks, and once every one
        has been given back the heap is a single block again. A run that clears more than it was given stops there. */
    method Run(ops: seq<Op>) returns (held: seq<nat>, overran: bool)
      requires Valid() && slab == null
      modifies this, space, space.paging, space.paging.pool.bitmap
      ensures Valid()
      ensures !overran ==> Held(held, Blocks())
      ensures !overran && held == [] && slab != null ==>
                |Blocks()| == 1 && Blocks()[0].addr == slab.heap.heapStart && Blocks()[0].End() == slab.heap.heapEnd
      ensures old(Sole()) && (forall k :: 0 <= k < |ops| ==> !ops[k].Elsewhere?) ==> Sole()
    {
      hide Libc.Valid, Libc.Sole, Held, Libc.Blocks;
      held, overran := [], false;
      HeldNone();
      var k := 0;
      ghost var alone := Sole();
      while k < |ops| && !overran
        invariant 0 <= k <= |ops| && Valid() && (slab != null ==> fresh(slab) && fresh(slab.heap))
        invariant !overran ==> Held(held, Blocks())
        invariant alone && (forall j :: 0 <= j < k ==> !ops[j].Elsewhere?) ==> Sole()
      {
        held, overran := Step(ops[k], held);
        k := k + 1;
      }
      if !overran && held == [] && slab != null {
        AllGiven();
      }
    }

    lemma HeldNone()
      requires slab == null
      ensures Held([], Blocks())
    {
    }

    lemma AllGiven()
      requires Valid() && slab != null && Held([], Blocks())
      ensures |Blocks()| == 1 && Blocks()[0].addr == slab.heap.heapStart && Blocks()[0].End() == slab.heap.heapEnd
    {
      hide UserSpace.Valid, Rep, Total, Aligned, Resident;
      slab.heap.TilesOf();
      AllFreeIsOne(slab.heap.V.bs, slab.heap.V.lo, slab.heap.V.hi);
    }

    method Step(op: Op, held: seq<nat>) returns (held': seq<nat>, overran: bool)
      requires Valid() && Held(held, Blocks())
      modifies this, space, space.paging, space.paging.pool.bitmap, if slab == null then {} else {slab.heap}
      ensures Valid() && (old(Sole()) && !op.Elsewhere? ==> Sole())
      ensures !overran ==> Held(held', Blocks())
      ensures old(slab) != null ==> slab == old(slab) && slab.heap == old(slab.heap)
      ensures old(slab) == null && slab != null ==> fresh(slab) && fresh(slab.heap)
    {
      hide Held, Libc.Serves, Keeps, SameLive, Gains, Payload, ZeroAt, UserSpace.Valid, ElHeap.Valid, Resident, Top,
           Aligned, SlabHeap.Sole;
      held', overran := held, false;
      match op {
        case Get(size) =>
          var p := Malloc(size % WORD_MOD);
          held' := Note(held, old(Blocks()), p, if size % WORD_MOD <= WORD_MOD - 8 then size % WORD_MOD else 0);
        case Blank(count, size) =>
          var p;
          p, overran := Calloc(count % WORD_MOD, size % WORD_MOD);
          held' := Note(held, old(Blocks()), p, if overran then 0 else Product(count % WORD_MOD, size % WORD_MOD));
        case Give(k) =>
          if k < |held| {
            held' := StepGive(k, held);
          }
        case Put(k, off, v) =>
          if k < |held| {
            StepPut(k, off, v, held);
          }
        case Elsewhere(length) => StepMap(length);
      }
    }

    /** What an allocation adds to the pointers held. */
    method Note(held: seq<nat>, ghost bs: seq<Block>, p: nat, ghost n: nat) returns (held': seq<nat>)
      requires Valid() && Held(held, bs) && (p == NULL ==> SameLive(bs, Blocks()))
      requires p != NULL ==> slab != null && Gains(bs, Blocks(), p, n)
      ensures Held(held', Blocks())
    {
      hide UserSpace.Valid, ElHeap.Valid, Resident, Aligned, Held, SameLive, AddsLive;
      if p == NULL {
        HeldSame(held, bs, Blocks());
        return held;
      }
      slab.heap.TilesOf();
      ghost var b: Block :| b.Pay() == p && b.size >= n && AddsLive(bs, Blocks(), b);
      HeldMore(held, bs, slab.heap.V, b);
      held' := held + [p];
    }

    lemma NoneHeld(held: seq<nat>)
      requires Held(held, Blocks()) && held != []
      ensures slab != null
    {
      assert held[0] in held;
      assert HoldsPay(Blocks(), held[0]);
    }

    method StepGive(k: nat, held: seq<nat>) returns (held': seq<nat>)
      requires Valid() && Held(held, Blocks()) && k < |held|
      modifies if slab == null then {} else {slab.heap}
      ensures Valid() && Held(held', Blocks()) && (old(Sole()) ==> Sole())
    {
      hide UserSpace.Valid, ElHeap.Valid, Resident, Aligned, Held, DropsLive, Keeps, PayloadBut, Rep, Tiles,
           SlabHeap.Sole;
      NoneHeld(held);
      slab.heap.TilesOf();
      ghost var V0 := slab.heap.V;
      ghost var c := HeldLive(slab.heap, held, k);
      Free(held[k]);
      ghost var b: Block :| b.Pay() == held[k] && DropsLive(V0.bs, slab.heap.V.bs, b);
      HeldLess(held, V0, slab.heap.V.bs, b, k);
      held' := held[..k] + held[k + 1..];
    }

    method StepPut(k: nat, off: nat, v: Byte, held: seq<nat>)
      requires Valid() && Held(held, Blocks()) && k < |held|
      modifies if slab == null then {} else {slab.heap}
      ensures Valid() && Blocks() == old(Blocks()) && (old(Sole()) ==> Sole())
    {
      hide UserSpace.Valid, ElHeap.Valid, Resident, Aligned, Held, Payload, Rep, SlabHeap.Sole;
      NoneHeld(held);
      ghost var b := HeldLive(slab.heap, held, k);
      var h := slab.heap.Head(held[k] - HEAD);
      if off < h.size {
        WithinPayload(slab.heap.V.bs, b, held[k] + off);
        slab.heap.Store(held[k] + off, v);
      }
    }

    /** The program maps a region of its own. */
    method StepMap(length: nat)
      requires Valid()
      modifies space, space.paging, space.paging.pool.bitmap
      ensures Valid()
    {
      hide UserSpace.Valid, ElHeap.Valid, Resident, Top, Mapped, Undone, Added, RegionsOk, Covered, Paging.Valid,
           Aligned, FramePool.Used, Paging.Room, Missing;
      hide UserSpace.Says;
      ghost var rs := space.regions;
      SpaceOk(space);
      TopFits(rs);
      GrantFitsAny(space, length);
      var r, why := space.Mmap(length);
      if r != SYSCALL_ERROR && slab != null {
        AddedResident(rs, space.regions, RoundUp(length), slab.heap.heapStart, slab.heap.heapEnd);
      }
    }

    /** memset of a block's first `n` bytes to zero; no other byte changes. */
    method Clear(p: nat, n: nat)
      requires Valid() && slab != null && HoldsAt(slab.heap.V.bs, p, n)
      modifies slab.heap`mem
      ensures Valid() && slab.heap.V == old(slab.heap.V) && ZeroAt(slab.heap.mem, p, n)
      ensures |slab.heap.mem| == |old(slab.heap.mem)|
      ensures forall x :: 0 <= x < |slab.heap.mem| && !(p <= x < p + n) ==> slab.heap.mem[x] == old(slab.heap.mem)[x]
    {
      hide UserSpace.Valid, ElHeap.Valid, Resident, Top, Payload, Aligned, Paging.Valid;
      var k := 0;
      slab.heap.TilesOf();
      ghost var b :| b in slab.heap.V.bs && b.used && b.Pay() == p && b.size >= n;
      BlockWithin(slab.heap.V, b);
      while k < n
        invariant 0 <= k <= n && Valid() && |slab.heap.mem| == |old(slab.heap.mem)| == HEAP_LIMIT
        invariant forall x :: p <= x < p + k ==> slab.heap.mem[x] == 0
        invariant forall x :: 0 <= x < |slab.heap.mem| && !(p <= x < p + k) ==>
                  slab.heap.mem[x] == old(slab.heap.mem)[x]
      {
        WithinPayload(slab.heap.V.bs, b, p + k);
        slab.heap.Store(p + k, 0);
        k := k + 1;
      }
    }
  }

  /** A block of at least `n` bytes came to life at `p`, and nothing else changed hands. */
  ghost predicate Gains(bs: seq<Block>, bs': seq<Block>, p: nat, n: nat) {
    exists b: Block :: b.Pay() == p && b.size >= n && AddsLive(bs, bs', b)
  }

  lemma GainsMeans(bs0: seq<Block>, bs: seq<Block>, bs': seq<Block>, p: nat, n: nat, m: nat)
    requires SameLive(bs0, bs) && m <= n && exists b: Block :: b.Pay() == p && b.size >= n && AddsLive(bs, bs', b)
    ensures Gains(bs0, bs', p, m)
  {
    var b: Block :| b.Pay() == p && b.size >= n && AddsLive(bs, bs', b);
    AddsSame(bs0, bs, bs', b);
  }

  lemma GainsHolds(bs: seq<Block>, bs': seq<Block>, p: nat, n: nat)
    requires Gains(bs, bs', p, n)
    ensures HoldsAt(bs', p, n)
  {
    var b: Block :| b.Pay() == p && b.size >= n && AddsLive(bs, bs', b);
    assert b in bs';
  }

  lemma SameLiveJoin(bs: seq<Block>, bs': seq<Block>, bs'': seq<Block>)
    requires SameLive(bs, bs') && SameLive(bs', bs'')
    ensures SameLive(bs, bs'')
  {
  }

  lemma KeepsSelf(m: seq<Byte>, bs: seq<Block>)
    ensures Keeps(m, m, Payload(bs))
  {
  }

  /** One available block. */
  lemma OneFits(bs: seq<Block>, n: nat)
    requires |bs| == 1 && !bs[0].used
    ensures (Fits(bs, n) <==> n <= bs[0].size) && SameLive([], bs)
  {
    assert bs[0] in bs;
  }

  lemma NoPayload(m: seq<Byte>, m': seq<Byte>)
    requires |m'| == |m|
    ensures Keeps(m, m', Payload([]))
  {
  }

  /** Clearing a new block's bytes leaves the old ones' alone. */
  lemma KeepsCleared(m0: seq<Byte>, m1: seq<Byte>, m2: seq<Byte>, bs: seq<Block>, V: View, p: nat, n: nat)
    requires Keeps(m0, m1, Payload(bs)) && Gains(bs, V.bs, p, n) && Tiles(V.bs, V.lo, V.hi) && |m2| == |m1|
    requires forall x :: 0 <= x < |m2| && !(p <= x < p + n) ==> m2[x] == m1[x]
    ensures Keeps(m0, m2, Payload(bs))
  {
    var b: Block :| b.Pay() == p && b.size >= n && AddsLive(bs, V.bs, b);
    forall x | x in Payload(bs) && x < |m0| ensures m2[x] == m0[x] {
      var c :| c in bs && c.used && c.Covers(x);
      assert c in V.bs && b in V.bs && c != b;
      if p <= x < p + n {
        LiveApart(V.bs, V.lo, V.hi, b, c, x);
      }
    }
  }

  /** With nothing else mapped, what SYS_MMAP grants after the first slab. */
  ghost predicate SecondGrant(room: int, pts: map<nat, nat>, m: nat) {
    && 0 < m <= HEAP_LIMIT - HEAP_BASE && HEAP_BASE + GROW * FRAME + RoundUp(m) <= HEAP_LIMIT
    && room - GROW - Missing(pts, HEAP_SLOT) >= RoundUp(m) / FRAME
  }

  lemma SaysSecond(space: UserSpace, rs: seq<Region>, room: int, pts: map<nat, nat>)
    requires space.Valid() && |rs| == MAX_REGIONS && (forall i :: 0 <= i < |rs| ==> !rs[i].Live())
    requires Added(rs, space.regions, GROW * FRAME)
    requires HEAP_SLOT in space.paging.trees[space.tree].pts
    requires space.paging.Room() == room - GROW - Missing(pts, HEAP_SLOT)
    ensures forall m: nat :: space.Says(m) == Granted <==> SecondGrant(room, pts, m)
  {
    hide Top, Paging.Valid, Backed, RegionsOk, Paging.Room, RoundUp;
    NoneTop(rs, MAX_REGIONS);
    AddedTop(rs, space.regions, GROW * FRAME);
    var k: nat :| k < MAX_REGIONS && !rs[k].Live()
                  && space.regions == rs[k := Region(Top(rs, MAX_REGIONS), GROW * FRAME)];
    var j := if k == 0 then 1 else 0;
    assert !space.regions[j].Live();
  }

  lemma GrantFitsAny(space: UserSpace, n: nat)
    requires space.Valid()
    ensures space.Says(n) == Granted ==>
              0 < RoundUp(n) && RoundUp(n) % FRAME == 0 && Top(space.regions, MAX_REGIONS) + RoundUp(n) <= HEAP_LIMIT
  {
    hide Top, Paging.Valid, Backed, Paging.Room;
  }

  lemma GrantFits(space: UserSpace, n: nat)
    requires space.Valid() && n % FRAME == 0
    ensures space.Says(n) == Granted ==>
              0 < n && |space.regions| == MAX_REGIONS && Top(space.regions, MAX_REGIONS) + n <= HEAP_LIMIT
  {
    hide Top, Paging.Valid, Backed, Paging.Room;
    RoundExact(n);
  }

  /** A live block of at least `n` bytes has its payload at `p`. */
  ghost predicate HoldsAt(bs: seq<Block>, p: nat, n: nat) {
    exists b :: b in bs && b.used && b.Pay() == p && b.size >= n
  }

  ghost predicate ZeroAt(m: seq<Byte>, p: nat, n: nat) { p + n <= |m| && forall x :: p <= x < p + n ==> m[x] == 0 }

  lemma NoProduct(size: nat)
    ensures Product(0, size) == 0
  {
  }

  lemma BlockWithin(V: View, b: Block)
    requires Tiles(V.bs, V.lo, V.hi) && b in V.bs
    ensures b.Pay() + b.size <= V.hi
  {
    TilesIn(V.bs, V.lo, V.hi);
  }

  lemma SpaceOk(space: UserSpace)
    requires space.Valid()
    ensures RegionsOk(space.regions) && |space.regions| == MAX_REGIONS
    ensures space.paging.pool.Valid() && space.tree in space.paging.trees
  {
  }

  lemma AlignedOne(bs: seq<Block>)
    requires |bs| == 1 && bs[0].addr % 8 == 0 && bs[0].size % 8 == 0
    ensures Aligned(bs)
  {
  }

  lemma WholePages(end: nat, npages: nat)
    requires end % FRAME == 0
    ensures npages * FRAME % FRAME == 0 && npages * FRAME % 8 == 0 && end % 8 == 0
    ensures (end + npages * FRAME) % FRAME == 0
  {
    var k := end / FRAME;
    PageMultiple(npages);
    PageMultiple(k);
    PageMultiple(k + npages);
    assert end == k * 4096 && end + npages * FRAME == (k + npages) * 4096;
  }

  lemma PageMultiple(k: nat)
    ensures k * 4096 % 4096 == 0 && k * 4096 % 8 == 0
  {
    Eightfold(k * 512, k * 4096);
  }

  lemma Eightfold(x: nat, y: nat)
    requires y == 8 * x
    ensures y % 8 == 0
  {
  }

  lemma RoundExact(n: nat)
    requires n % FRAME == 0
    ensures RoundUp(n) == n
  {
  }

  /** A region above the heap comes and goes without touching the heap's pages. */
  lemma GivenBack(mid: seq<Region>, now: seq<Region>, k: nat, lo: nat, hi: nat, code: nat)
    requires RegionsOk(mid) && Resident(mid, lo, hi) && hi % FRAME == 0
    requires code == 0 ==> k < |mid| && mid[k].Live() && hi <= mid[k].base && now == mid[k := Region(0, 0)]
    requires code != 0 ==> now == mid
    ensures Resident(now, lo, hi)
  {
    hide RegionsOk, Covered;
    if code == 0 {
      DropRegion(mid, k);
      forall p: nat | lo <= p * FRAME < hi ensures Covered(now, p) {
        assert Covered(mid, p) && !mid[k].Holds(p);
      }
    }
  }

  /** The largest size, cleared as one element, in a heap not yet set up whose first slab SYS_MMAP grants: the block
      is empty and the memset would run through the whole of memory. */
  method Overrun(c: Libc) returns (p: nat, overrun: bool)
    requires c.Valid() && c.slab == null && c.Sole() && c.space.Says(GROW * FRAME) == Granted
    modifies c, c.space, c.space.paging, c.space.paging.pool.bitmap
    ensures p != NULL && overrun
  {
    hide UserSpace.Valid, UserSpace.Says, SecondGrant, Paging.Room;
    OneProduct();
    p, overrun := c.Calloc(1, WORD_MOD - 1);
  }

  lemma OneProduct()
    ensures Product(1, WORD_MOD - 1) == WORD_MOD - 1
  {
  }

  /** Such a heap: a program with nothing mapped on a machine with frames enough for its tables and one slab. */
  method Overruns(boot: seq<Entry>, image: seq<Byte>) returns (c: Libc, p: nat, overrun: bool)
    requires Kernel(boot) && |image| == HEAP_LIMIT
    ensures p != NULL && overrun
  {
    hide Paging.Valid, FramePool.Used, Backed, Kernel, UserSpace.Valid, Paging.Room, Libc.Valid, Libc.Sole;
    var pool := InitPool(GROW + 4);
    var paging := new Paging(pool, boot);
    RoomAll(paging);
    var h, t := paging.CreateAddressSpace(true);
    var u := new UserSpace(paging, h);
    c := new Libc(u, 4096, image);
    SpaceOk(u);
    FreshGrant(u, c);
    p, overrun := Overrun(c);
  }

  lemma RoomAll(P: Paging)
    requires P.pool.Valid() && P.pool.num == |P.pool.Used()| + GROW + 4
    ensures P.Room() == GROW + 4
  {
  }

  lemma FreshGrant(u: UserSpace, c: Libc)
    requires u.Valid() && c.Valid() && c.space == u && c.slab == null && u.tree in u.paging.trees
    requires u.paging.trees[u.tree].pts == map[]
    requires u.paging.pool.Valid() && u.paging.Room() == GROW + 1
    requires |u.regions| == MAX_REGIONS && forall i :: 0 <= i < MAX_REGIONS ==> !u.regions[i].Live()
    ensures c.Sole() && u.Says(GROW * FRAME) == Granted
  {
    RoundExact(GROW * FRAME);
    NothingHeld(u.regions);
  }

  lemma NothingHeld(rs: seq<Region>)
    requires |rs| == MAX_REGIONS && forall i :: 0 <= i < MAX_REGIONS ==> !rs[i].Live()
    ensures Top(rs, MAX_REGIONS) == HEAP_BASE && !rs[0].Live()
  {
  }
}
