/** kernel/syscall.c: SYS_MMAP and SYS_MUNMAP, the table of anonymous regions a task holds. */
module Regions {
  import opened Bytes
  import opened Frames
  import opened PageTables
  import opened Paging

  const HEAP_BASE := 0x80_0000    // USER_HEAP_BASE
  const HEAP_LIMIT := 0xA0_0000   // USER_HEAP_LIMIT
  const MAX_REGIONS := 8
  const HEAP_SLOT := 4            // the directory slot of the heap pages
  const SYSCALL_ERROR := 0xFFFF_FFFF_FFFF_FFFF

  /** One entry of the region table; length 0 marks a free entry. */
  datatype Region = Region(base: nat, length: nat) {
    predicate Live() { length > 0 }
    function End(): nat { base + length }
    predicate Holds(page: nat) { base <= page * FRAME < base + length }
  }

  /** Whole pages inside the heap slot. */
  ghost predicate Proper(r: Region) {
    r.Live() ==> r.base % FRAME == 0 && r.length % FRAME == 0 && HEAP_BASE <= r.base && r.End() <= HEAP_LIMIT
  }

  ghost predicate Apart(r: Region, q: Region) { r.Live() && q.Live() ==> r.End() <= q.base || q.End() <= r.base }

  ghost predicate RegionsOk(rs: seq<Region>) {
    && |rs| == MAX_REGIONS
    && (forall i :: 0 <= i < |rs| ==> Proper(rs[i]))
    && (forall i, j :: 0 <= i < j < |rs| ==> Apart(rs[i], rs[j]))
  }

  /** Some region holds the page. */
  ghost predicate Covered(rs: seq<Region>, page: nat) {
    exists i :: 0 <= i < |rs| && rs[i].Live() && rs[i].Holds(page)
  }

  predicate HeapPage(p: nat) { HEAP_BASE / FRAME <= p < HEAP_LIMIT / FRAME }

  /** The mapped pages of the heap slot are exactly those of the regions, and they can be written. */
  ghost predicate Backed(rs: seq<Region>, leaves: map<nat, Leaf>) {
    forall p: nat :: HeapPage(p) ==> (p in leaves <==> Covered(rs, p)) && (p in leaves ==> leaves[p].writable)
  }

  function RoundUp(n: nat): (r: nat)
    ensures n <= r < n + FRAME && r % FRAME == 0
  {
    (n + FRAME - 1) / FRAME * FRAME
  }

  // ---------------------------------------------------------------------------
  // Placement
  // ---------------------------------------------------------------------------

  /** The lowest address at or above the heap base that is above the first `k` regions. */
  function Top(rs: seq<Region>, k: nat): (t: nat)
    requires k <= |rs|
    ensures HEAP_BASE <= t
    ensures forall i :: 0 <= i < k && rs[i].Live() ==> rs[i].End() <= t
    ensures t == HEAP_BASE || exists i :: 0 <= i < k && rs[i].Live() && rs[i].End() == t
  {
    if k == 0 then HEAP_BASE
    else
      var t := Top(rs, k - 1);
      if rs[k - 1].Live() && rs[k - 1].End() > t then rs[k - 1].End() else t
  }

  /** Bytes held by the first `k` regions. */
  function BytesHeld(rs: seq<Region>, k: nat): nat
    requires k <= |rs|
  {
    if k == 0 then 0 else BytesHeld(rs, k - 1) + rs[k - 1].length
  }

  lemma TopStep(rs: seq<Region>, k: nat)
    requires k < |rs|
    ensures Top(rs, 0) == HEAP_BASE && BytesHeld(rs, 0) == 0 && BytesHeld(rs, k + 1) == BytesHeld(rs, k) + rs[k].length
    ensures Top(rs, k + 1) == if rs[k].Live() && rs[k].End() > Top(rs, k) then rs[k].End() else Top(rs, k)
  {
  }

  lemma PagesSum(next: nat, len: nat)
    requires next % FRAME == 0 && len % FRAME == 0
    ensures (next + len) / FRAME == next / FRAME + len / FRAME && next / FRAME * FRAME == next
    ensures len / FRAME * FRAME == len
  {
  }

  /** The pages of the first `k` regions. */
  ghost function PagesOf(rs: seq<Region>, k: nat): set<nat>
    requires RegionsOk(rs) && k <= |rs|
  {
    if k == 0 then {} else assert Proper(rs[k - 1]); PagesOf(rs, k - 1) + Span(rs[k - 1])
  }

  /** The region's pages as a set. */
  ghost function Span(r: Region): (s: set<nat>)
    requires Proper(r)
    ensures |s| * FRAME == r.length
    ensures forall p :: p in s <==> r.Live() && r.Holds(p)
  {
    if r.Live() then Interval(r.base / FRAME, r.End() / FRAME) else {}
  }

  lemma {:induction false} InPages(rs: seq<Region>, k: nat, p: nat)
    requires RegionsOk(rs) && k <= |rs| && p in PagesOf(rs, k)
    ensures exists i :: 0 <= i < k && rs[i].Live() && rs[i].Holds(p)
  {
    assert Proper(rs[k - 1]);
    if p !in Span(rs[k - 1]) {
      InPages(rs, k - 1, p);
    }
  }

  lemma SpanNew(rs: seq<Region>, k: nat)
    requires RegionsOk(rs) && k < |rs|
    ensures Proper(rs[k]) && forall p :: p in PagesOf(rs, k) ==> p !in Span(rs[k])
  {
    hide PagesOf, Span;
    assert Proper(rs[k]);
    forall p | p in PagesOf(rs, k) ensures p !in Span(rs[k]) {
      InPages(rs, k, p);
      var i :| 0 <= i < k && rs[i].Live() && rs[i].Holds(p);
      assert Apart(rs[i], rs[k]);
    }
  }

  lemma {:induction false} PagesOfHeld(rs: seq<Region>, k: nat)
    requires RegionsOk(rs) && k <= |rs|
    ensures |PagesOf(rs, k)| * FRAME == BytesHeld(rs, k)
  {
    hide RegionsOk, Proper, Span, Region.Holds;
    if k > 0 {
      PagesOfHeld(rs, k - 1);
      SpanNew(rs, k - 1);
      Disjoint(PagesOf(rs, k - 1), Span(rs[k - 1]));
    }
  }

  lemma Disjoint(a: set<nat>, b: set<nat>)
    requires forall p :: p in a ==> p !in b
    ensures |a + b| == |a| + |b|
  {
  }

  lemma TopFits(rs: seq<Region>)
    requires RegionsOk(rs)
    ensures Top(rs, MAX_REGIONS) % FRAME == 0 && HEAP_BASE <= Top(rs, MAX_REGIONS) <= HEAP_LIMIT
  {
    hide Top;
    var t := Top(rs, MAX_REGIONS);
    if t != HEAP_BASE {
      var i :| 0 <= i < MAX_REGIONS && rs[i].Live() && rs[i].End() == t;
      assert Proper(rs[i]);
      WholeSum(rs[i].base, rs[i].length);
    }
  }

  lemma WholeSum(a: nat, b: nat)
    requires a % FRAME == 0 && b % FRAME == 0
    ensures (a + b) % FRAME == 0
  {
  }

  /** The regions together fit below the highest of their ends: the sum check can never fail where the
      ceiling check passed. */
  lemma HeldBelowTop(rs: seq<Region>)
    requires RegionsOk(rs)
    ensures BytesHeld(rs, MAX_REGIONS) <= Top(rs, MAX_REGIONS) - HEAP_BASE
  {
    hide BytesHeld, PagesOf, Top;
    var t := Top(rs, MAX_REGIONS);
    TopFits(rs);
    PagesOfHeld(rs, MAX_REGIONS);
    var I := Interval(HEAP_BASE / FRAME, t / FRAME);
    forall p | p in PagesOf(rs, MAX_REGIONS) ensures p in I {
      InPages(rs, MAX_REGIONS, p);
      var i :| 0 <= i < MAX_REGIONS && rs[i].Live() && rs[i].Holds(p);
      assert Proper(rs[i]);
    }
    SubsetSize(PagesOf(rs, MAX_REGIONS), I);
  }

  /** A region above all others keeps the table in order. */
  lemma AddRegion(rs: seq<Region>, k: nat, length: nat)
    requires RegionsOk(rs) && k < |rs| && !rs[k].Live() && 0 < length && length % FRAME == 0
    requires Top(rs, MAX_REGIONS) + length <= HEAP_LIMIT
    ensures var r := Region(Top(rs, MAX_REGIONS), length);
            RegionsOk(rs[k := r])
            && forall p: nat :: Covered(rs[k := r], p) <==> Covered(rs, p) || r.Holds(p)
  {
    TopFits(rs);
    var r := Region(Top(rs, MAX_REGIONS), length);
    var qs := rs[k := r];
    forall p: nat ensures Covered(qs, p) <==> Covered(rs, p) || r.Holds(p) {
      if Covered(rs, p) {
        var i :| 0 <= i < |rs| && rs[i].Live() && rs[i].Holds(p);
        assert qs[i] == rs[i];
      }
      assert qs[k] == r;
    }
  }

  /** Nothing is mapped above the regions. */
  lemma AboveTop(rs: seq<Region>, leaves: map<nat, Leaf>, p: nat)
    requires RegionsOk(rs) && Backed(rs, leaves) && HeapPage(p) && Top(rs, MAX_REGIONS) <= p * FRAME
    ensures p !in leaves
  {
  }

  /** Giving a region back uncovers exactly its pages. */
  lemma DropRegion(rs: seq<Region>, k: nat)
    requires RegionsOk(rs) && k < |rs| && rs[k].Live()
    ensures RegionsOk(rs[k := Region(0, 0)])
    ensures forall p: nat :: Covered(rs[k := Region(0, 0)], p) <==> Covered(rs, p) && !rs[k].Holds(p)
  {
    var qs := rs[k := Region(0, 0)];
    forall p: nat ensures Covered(qs, p) <==> Covered(rs, p) && !rs[k].Holds(p) {
      if Covered(rs, p) && !rs[k].Holds(p) {
        var i :| 0 <= i < |rs| && rs[i].Live() && rs[i].Holds(p);
        assert qs[i] == rs[i];
      }
      if Covered(qs, p) {
        var i :| 0 <= i < |qs| && qs[i].Live() && qs[i].Holds(p);
        assert i != k && rs[i] == qs[i];
        assert Apart(rs[i], rs[k]) || Apart(rs[k], rs[i]);
      }
    }
  }

  // ---------------------------------------------------------------------------
  // The two calls
  // ---------------------------------------------------------------------------

  /** `rs'` is `rs` with a region of `len` bytes right above all others, in the first free entry. */
  ghost predicate Added(rs: seq<Region>, rs': seq<Region>, len: nat) {
    && |rs| == MAX_REGIONS
    && exists k: nat :: k < MAX_REGIONS && !rs[k].Live() && (forall i :: 0 <= i < k ==> rs[i].Live())
                        && rs' == rs[k := Region(Top(rs, MAX_REGIONS), len)]
  }

  /** Why a call was refused, in the order the checks are made. */
  datatype Outcome = Granted | BadLength | NoEntry | OverCeiling | OverTotal | NoFrames | NoRegion

  datatype Op = Map(length: nat) | Unmap(addr: nat, length: nat)

  /** What SYS_MMAP decides for `length` bytes, with `room` frames free and page tables `pts`. */
  ghost function Verdict(rs: seq<Region>, room: int, pts: map<nat, nat>, length: nat): Outcome
    requires |rs| == MAX_REGIONS
  {
    if length == 0 || length > HEAP_LIMIT - HEAP_BASE then BadLength
    else if forall i :: 0 <= i < MAX_REGIONS ==> rs[i].Live() then NoEntry
    else if RoundUp(length) > HEAP_LIMIT - Top(rs, MAX_REGIONS) then OverCeiling
    else if room < RoundUp(length) / FRAME + Missing(pts, HEAP_SLOT) then NoFrames
    else Granted
  }

  /** What SYS_MMAP and SYS_MUNMAP decide by: the table, the free frames and the page tables. */
  datatype Look = Look(regions: seq<Region>, room: int, pts: map<nat, nat>)

  /** A call's answer and what it does: a granted SYS_MMAP pays for its pages and a missing table, a SYS_MUNMAP gives
      exactly the pages back. */
  ghost predicate Decided(op: Op, a: Look, b: Look, r: nat) {
    && |a.regions| == MAX_REGIONS
    && match op
       case Map(length) =>
         if Verdict(a.regions, a.room, a.pts, length) == Granted
         then && r == Top(a.regions, MAX_REGIONS) && Added(a.regions, b.regions, RoundUp(length))
              && b.room == a.room - RoundUp(length) / FRAME - Missing(a.pts, HEAP_SLOT)
         else r == SYSCALL_ERROR && b.regions == a.regions
       case Unmap(addr, length) =>
         if 0 < length <= HEAP_LIMIT - HEAP_BASE && Region(addr, RoundUp(length)) in a.regions
         then && r == 0 && b.pts == a.pts && b.room == a.room + RoundUp(length) / FRAME
              && exists k: nat :: k < MAX_REGIONS && a.regions[k] == Region(addr, RoundUp(length))
                           && b.regions == a.regions[k := Region(0, 0)]
         else r == SYSCALL_ERROR && b == a
  }

  /** Ring 3 can read and write the pages [lo, hi) through `tree`; they lie in frames outside `used` and hold zeros. */
  ghost predicate Blanks(tables: Tables, pages: map<nat, seq<Byte>>, tree: nat, lo: nat, hi: nat, used: set<nat>) {
    forall q :: lo <= q < hi ==>
      var w := Walk(tables, tree, q);
      && w.Access? && w.writable && w.frame !in used && w.frame in pages && |pages[w.frame]| == 4096
      && forall j :: 0 <= j < 4096 ==> pages[w.frame][j] == 0
  }

  class UserSpace {
    const paging: Paging
    const tree: nat               // the task's address space
    var regions: seq<Region>

    /** The regions are in order and the heap slot of the tree maps exactly their pages. */
    ghost predicate Valid()
      reads this, paging, paging.pool, paging.pool.bitmap
    {
      && paging.Valid() && tree in paging.trees
      && RegionsOk(regions) && Backed(regions, paging.trees[tree].leaves)
    }

    /** What SYS_MMAP would decide now. */
    ghost function Says(length: nat): Outcome
      reads this, paging, paging.pool, paging.pool.bitmap
      requires Valid()
    {
      Verdict(regions, paging.Room(), paging.trees[tree].pts, length)
    }

    /** A new task's table is empty. */
    constructor (p: Paging, t: nat)
      requires p.Valid() && t in p.trees && forall q :: q in p.trees[t].leaves ==> !HeapPage(q)
      ensures Valid() && paging == p && tree == t && forall i :: 0 <= i < MAX_REGIONS ==> !regions[i].Live()
    {
      paging, tree, regions := p, t, seq(MAX_REGIONS, i => Region(0, 0));
    }

    /** What of the heap ring 3 reaches: exactly the regions, and it can write them. */
    lemma HeapSeen(q: nat)
      requires Valid() && 2048 <= q < 2560
      ensures Walk(paging.tables, tree, q).Access? <==>
                exists i :: 0 <= i < |regions| && regions[i].base <= q * 4096 < regions[i].base + regions[i].length
      ensures Walk(paging.tables, tree, q).Access? ==> Walk(paging.tables, tree, q).writable
    {
      hide FramePool.Used, Spells, Neat, Ownership, Walk;
      WalkIsTree(paging.tables, paging.boot, paging.trees[tree], q);
      assert HeapPage(q);
      if i :| 0 <= i < |regions| && regions[i].base <= q * 4096 < regions[i].base + regions[i].length {
        assert regions[i].Live() && regions[i].Holds(q);
      }
    }

    lemma GrantSeen(a: Space, page: nat, n: nat)
      requires paging.Valid() && tree in paging.trees && Mapped(a, paging.Now(), tree, page, page + n)
      requires tree in a.trees && (forall q :: page <= q < page + n ==> q !in a.trees[tree].leaves)
      requires page + n <= END_PAGE
      ensures Blanks(paging.tables, paging.pages, tree, page, page + n, a.used)
    {
      hide FramePool.Used, Spells, Neat, Ownership, Walk, FramesIn, NewTables, Tabled;
      forall q: nat | page <= q < page + n
        ensures var w := Walk(paging.tables, tree, q);
                && w.Access? && w.writable && w.frame !in a.used && w.frame in paging.pages
                && paging.pages[w.frame] == Zeros(FRAME)
      {
        WalkIsTree(paging.tables, paging.boot, paging.trees[tree], q);
      }
    }

    /** When SYS_MMAP grants `length` bytes. */
    lemma SaysMeans(length: nat)
      requires Valid()
      ensures Says(length) == Granted <==>
                && 0 < length <= 0x20_0000 && (exists i :: 0 <= i < 8 && regions[i].length == 0)
                && Top(regions, 8) + RoundUp(length) <= 0xA0_0000
                && paging.Room() >= RoundUp(length) / 4096 + if 4 in paging.trees[tree].pts then 0 else 1
    {
      hide Paging.Valid, Top, RoundUp, Paging.Room, Backed;
    }

    /** SYS_MMAP: a region of fresh zeroed pages right above every region held, in the first free entry. */
    method Mmap(length: nat) returns (r: nat, ghost why: Outcome)
      requires Valid()
      modifies this, paging, paging.pool.bitmap
      ensures Valid() && (r == SYSCALL_ERROR <==> why != Granted)
      ensures why == old(Says(length))
      ensures r != SYSCALL_ERROR <==>
                && 0 < length <= 0x20_0000 && (exists i :: 0 <= i < 8 && old(regions)[i].length == 0)
                && Top(old(regions), 8) + RoundUp(length) <= 0xA0_0000
                && old(paging.Room()) >= RoundUp(length) / 4096 + if 4 in old(paging.trees)[tree].pts then 0 else 1
      ensures why in {BadLength, NoEntry, OverCeiling} ==> paging.Now() == old(paging.Now())
      ensures why != Granted ==> regions == old(regions)
      ensures why == NoFrames ==>
                Undone(old(paging.Now()), paging.Now(), tree, Top(regions, MAX_REGIONS) / FRAME, HEAP_LIMIT / FRAME)
      ensures why == NoFrames ==>
                (HEAP_SLOT in paging.trees[tree].pts <==>
                   HEAP_SLOT in old(paging.trees)[tree].pts || old(paging.Room()) >= 2)
      ensures why == Granted ==> r == Top(old(regions), MAX_REGIONS) && Added(old(regions), regions, RoundUp(length))
      ensures why == Granted ==>
                HEAP_SLOT in paging.trees[tree].pts
                && paging.Room() ==
                   old(paging.Room()) - RoundUp(length) / FRAME - Missing(old(paging.trees)[tree].pts, HEAP_SLOT)
      ensures why == Granted ==> Mapped(old(paging.Now()), paging.Now(), tree, r / FRAME, (r + RoundUp(length)) / FRAME)
      ensures r != SYSCALL_ERROR ==>
                Blanks(paging.tables, paging.pages, tree, r / 4096, (r + RoundUp(length)) / 4096,
                       old(paging.pool.Used()))
    {
      hide Blanks, Mapped, Undone, Paging.Valid, FramePool.Used, Backed, Top, BytesHeld, Paging.Room;
      SaysMeans(length);
      var slotBytes := HEAP_LIMIT - HEAP_BASE;
      if length == 0 || length > slotBytes {
        return SYSCALL_ERROR, BadLength;
      }
      var len := RoundUp(length);
      var slot, next, total := Survey();
      if slot < 0 {
        return SYSCALL_ERROR, NoEntry;
      }
      TopFits(regions);
      if len > HEAP_LIMIT - next {
        return SYSCALL_ERROR, OverCeiling;
      }
      HeldBelowTop(regions);
      r, why := SYSCALL_ERROR, OverTotal;
      if total + len > slotBytes {
        return;
      }
      PagesSum(next, len);
      var ok := Place(slot, next / FRAME, len / FRAME);
      if !ok {
        return SYSCALL_ERROR, NoFrames;
      }
      r, why := next, Granted;
    }

    /** The new region is mapped and written down, or nothing but page tables was spent. */
    method Place(slot: nat, page: nat, n: nat) returns (ok: bool)
      requires Valid() && slot < MAX_REGIONS && !regions[slot].Live() && page * FRAME == Top(regions, MAX_REGIONS)
      requires 0 < n && (page + n) * FRAME <= HEAP_LIMIT
      modifies this, paging, paging.pool.bitmap
      ensures Valid()
      ensures ok ==> regions == old(regions)[slot := Region(page * FRAME, n * FRAME)]
                     && Mapped(old(paging.Now()), paging.Now(), tree, page, page + n)
                     && Blanks(paging.tables, paging.pages, tree, page, page + n, old(paging.pool.Used()))
      ensures !ok ==> regions == old(regions)
                      && Undone(old(paging.Now()), paging.Now(), tree, page, HEAP_LIMIT / FRAME)
      ensures ok <==> old(paging.Room()) >= n + Missing(old(paging.trees)[tree].pts, HEAP_SLOT)
      ensures ok ==>
                HEAP_SLOT in paging.trees[tree].pts
                && paging.Room() == old(paging.Room()) - n - Missing(old(paging.trees)[tree].pts, HEAP_SLOT)
      ensures !ok ==>
                (HEAP_SLOT in paging.trees[tree].pts <==>
                   HEAP_SLOT in old(paging.trees)[tree].pts || old(paging.Room()) >= 2)
    {
      hide Mapped, Undone, Paging.Valid, FramePool.Used, Backed, Top, RegionsOk, Paging.Room, Cost, Missing, Blanks;
      SizeOk(regions);
      paging.PoolOk();
      PagesAbove(page, n);
      ghost var a := paging.Now();
      HeapCost(paging.trees[tree].pts, page, n);
      ok := paging.MapRange(tree, page, n);
      if !ok {
        UndoneWider(a, paging.Now(), tree, page, page + n, HEAP_LIMIT / FRAME);
        SameLeaves(a, paging.Now(), tree, page, HEAP_LIMIT / FRAME);
        return;
      }
      GrantSeen(a, page, n);
      AddRegion(regions, slot, n * FRAME);
      NowBacked(regions, slot, page, n, a, paging.Now(), tree);
      regions := regions[slot := Region(page * FRAME, n * FRAME)];
    }

    /** The scan of the table: the first free entry, the address above every region, the bytes held. */
    method Survey() returns (slot: int, next: nat, total: nat)
      requires |regions| == MAX_REGIONS
      ensures next == Top(regions, MAX_REGIONS) && total == BytesHeld(regions, MAX_REGIONS)
      ensures slot < 0 <==> forall i :: 0 <= i < MAX_REGIONS ==> regions[i].Live()
      ensures slot >= 0 ==>
                slot < MAX_REGIONS && !regions[slot].Live() && forall i :: 0 <= i < slot ==> regions[i].Live()
    {
      hide Top, BytesHeld, RegionsOk;
      slot, next, total := -1, HEAP_BASE, 0;
      var i := 0;
      TopStep(regions, 0);
      while i < MAX_REGIONS
        invariant 0 <= i <= MAX_REGIONS && next == Top(regions, i) && total == BytesHeld(regions, i)
        invariant slot < 0 <==> forall j :: 0 <= j < i ==> regions[j].Live()
        invariant slot >= 0 ==> slot < i && !regions[slot].Live() && forall j :: 0 <= j < slot ==> regions[j].Live()
      {
        TopStep(regions, i);
        if regions[i].length == 0 {
          if slot < 0 {
            slot := i;
          }
        } else {
          var end := regions[i].base + regions[i].length;
          if end > next {
            next := end;
          }
          total := total + regions[i].length;
        }
        i := i + 1;
      }
    }

    lemma PagesAbove(page: nat, n: nat)
      requires Valid() && page * FRAME == Top(regions, MAX_REGIONS) && (page + n) * FRAME <= HEAP_LIMIT
      ensures HEAP_BASE / FRAME <= page && page + n <= HEAP_LIMIT / FRAME
      ensures Unmapped(paging.trees[tree].leaves, page, page + n)
    {
      hide Paging.Valid, Top, RegionsOk, Backed;
      forall q | q in paging.trees[tree].leaves && page <= q < page + n ensures false {
        AboveTop(regions, paging.trees[tree].leaves, q);
      }
    }

    /** SYS_MUNMAP: exactly a region held, named by its start and (rounded) length, is given back; anything
        else changes nothing. */
    method Munmap(addr: nat, length: nat) returns (r: nat, ghost k: nat)
      requires Valid()
      modifies this, paging, paging.pool.bitmap
      ensures Valid() && (r == 0 || r == SYSCALL_ERROR)
      ensures r == 0 <==> 0 < length <= HEAP_LIMIT - HEAP_BASE && Region(addr, RoundUp(length)) in old(regions)
      ensures r == SYSCALL_ERROR ==> regions == old(regions) && paging.Now() == old(paging.Now())
      ensures r == 0 ==>
                k < MAX_REGIONS && old(regions)[k] == Region(addr, RoundUp(length))
                && regions == old(regions)[k := Region(0, 0)]
      ensures r == 0 ==>
                var t, end := old(paging.trees)[tree], (addr + RoundUp(length)) / FRAME;
                && paging.trees == old(paging.trees)[tree := t.(leaves := Cut(t.leaves, addr / FRAME, end))]
                && paging.pool.Used() == old(paging.pool.Used()) - FramesIn(t.leaves, addr / FRAME, end)
      ensures r == 0 ==> paging.Room() == old(paging.Room()) + RoundUp(length) / FRAME
    {
      hide Paging.Valid, FramePool.Used, Backed, Cut, FramesIn, RoundUp;
      k := 0;
      if length == 0 || length > HEAP_LIMIT - HEAP_BASE {
        return SYSCALL_ERROR, k;
      }
      var len := RoundUp(length);
      var i := 0;
      while i < MAX_REGIONS && !(regions[i].length != 0 && regions[i].base == addr && regions[i].length == len)
        invariant 0 <= i <= MAX_REGIONS && forall j :: 0 <= j < i ==> regions[j] != Region(addr, len)
      {
        i := i + 1;
      }
      if i == MAX_REGIONS {
        return SYSCALL_ERROR, k;
      }
      k := i;
      Release(i, addr, len);
      r := 0;
    }

    ghost function Here(): Look
      reads this, paging, paging.pool, paging.pool.bitmap
      requires Valid()
    {
      Look(regions, paging.Room(), paging.trees[tree].pts)
    }

    /** Any run of the two calls: each is granted or refused, and changes the table, exactly as the table, the free
        frames and the page tables it finds decide; at its end, as at every step, the regions are page-aligned, disjoint
        and inside the heap slot, and the heap pages mapped are exactly theirs. */
    method Run(ops: seq<Op>) returns (answers: seq<nat>, ghost st: seq<Look>)
      requires Valid()
      modifies this, paging, paging.pool.bitmap
      ensures Valid() && |answers| == |ops| && |st| == |ops| + 1 && st[0] == old(Here()) && st[|ops|] == Here()
      ensures forall k :: 0 <= k < |ops| ==> Decided(ops[k], st[k], st[k + 1], answers[k])
      ensures RegionsOk(regions)
      ensures forall q :: HeapPage(q) ==> (q in paging.trees[tree].leaves <==> Covered(regions, q))
    {
      hide Paging.Valid, FramePool.Used, Paging.Room, RegionsOk, Decided;
      answers, st := [], [Here()];
      for k := 0 to |ops|
        invariant Valid() && |answers| == k && |st| == k + 1 && st[0] == old(Here()) && st[k] == Here()
        invariant forall i :: 0 <= i < k ==> Decided(ops[i], st[i], st[i + 1], answers[i])
      {
        var r := Step(ops[k]);
        answers, st := answers + [r], st + [Here()];
      }
    }

    method Step(op: Op) returns (r: nat)
      requires Valid()
      modifies this, paging, paging.pool.bitmap
      ensures Valid() && Decided(op, old(Here()), Here(), r)
    {
      hide Paging.Valid, FramePool.Used, Top, BytesHeld, Mapped, Undone, Added, Cut, FramesIn, RegionsOk;
      SizeOk(regions);
      match op {
        case Map(length) =>
          ghost var why;
          r, why := Mmap(length);
        case Unmap(addr, length) =>
          ghost var i;
          r, i := Munmap(addr, length);
      }
    }

    method Release(i: nat, addr: nat, len: nat)
      requires Valid() && i < MAX_REGIONS && regions[i] == Region(addr, len) && 0 < len
      modifies this, paging, paging.pool.bitmap
      ensures Valid() && regions == old(regions)[i := Region(0, 0)]
      ensures var t := old(paging.trees)[tree];
              paging.trees == old(paging.trees)[tree := t.(leaves := Cut(t.leaves, addr / FRAME, (addr + len) / FRAME))]
              && paging.pool.Used() == old(paging.pool.Used()) - FramesIn(t.leaves, addr / FRAME, (addr + len) / FRAME)
      ensures paging.Room() == old(paging.Room()) + len / FRAME
    {
      hide Paging.Valid, FramePool.Used, Backed, FramesIn, RegionsOk, Cut;
      SizeOk(regions);
      ProperAt(regions, i);
      ghost var leaves := paging.trees[tree].leaves;
      PagesSum(addr, len);
      AllBacked(regions, i, leaves);
      paging.FramesHeld(tree, addr / FRAME, (addr + len) / FRAME);
      paging.UnmapRange(tree, addr / FRAME, len / FRAME);
      DropRegion(regions, i);
      NowUnbacked(regions, i, leaves);
      regions := regions[i := Region(0, 0)];
    }
  }

  lemma UndoneWider(a: Space, b: Space, h: nat, base: nat, end: nat, end': nat)
    requires Undone(a, b, h, base, end) && end <= end'
    ensures Undone(a, b, h, base, end')
  {
  }

  lemma SameLeaves(a: Space, b: Space, h: nat, base: nat, end: nat)
    requires Undone(a, b, h, base, end)
    ensures h in a.trees && h in b.trees && b.trees[h].leaves == a.trees[h].leaves
  {
  }

  lemma NowBacked(rs: seq<Region>, k: nat, page: nat, n: nat, a: Space, b: Space, h: nat)
    requires k < |rs| && Mapped(a, b, h, page, page + n)
    requires var r := Region(page * FRAME, n * FRAME);
             forall p: nat :: Covered(rs[k := r], p) <==> Covered(rs, p) || r.Holds(p)
    requires h in a.trees && Backed(rs, a.trees[h].leaves)
    ensures h in b.trees && Backed(rs[k := Region(page * FRAME, n * FRAME)], b.trees[h].leaves)
  {
    hide Covered, Zeroed, FramesIn, NewTables;
    var r := Region(page * FRAME, n * FRAME);
    forall p: nat | HeapPage(p) ensures p in b.trees[h].leaves <==> Covered(rs[k := r], p) {
      assert r.Holds(p) <==> page <= p < page + n;
    }
  }

  lemma SizeOk(rs: seq<Region>)
    requires RegionsOk(rs)
    ensures |rs| == MAX_REGIONS
  {
  }

  lemma ProperAt(rs: seq<Region>, i: nat)
    requires RegionsOk(rs) && i < |rs|
    ensures Proper(rs[i]) && |rs| == MAX_REGIONS
  {
  }

  /** Every page of a region is mapped. */
  lemma AllBacked(rs: seq<Region>, k: nat, leaves: map<nat, Leaf>)
    requires RegionsOk(rs) && k < |rs| && rs[k].Live() && Backed(rs, leaves)
    ensures forall q :: rs[k].base / FRAME <= q < rs[k].End() / FRAME ==> q in leaves
  {
    ProperAt(rs, k);
    forall q: nat | rs[k].base / FRAME <= q < rs[k].End() / FRAME ensures q in leaves {
      assert rs[k].Holds(q) && Covered(rs, q);
    }
  }

  lemma NowUnbacked(rs: seq<Region>, k: nat, leaves: map<nat, Leaf>)
    requires RegionsOk(rs) && k < |rs| && rs[k].Live() && Backed(rs, leaves)
    requires forall p: nat :: Covered(rs[k := Region(0, 0)], p) <==> Covered(rs, p) && !rs[k].Holds(p)
    ensures Backed(rs[k := Region(0, 0)], Cut(leaves, rs[k].base / FRAME, rs[k].End() / FRAME))
  {
    hide Covered, RegionsOk;
    ProperAt(rs, k);
    var r := rs[k];
    forall p: nat | HeapPage(p)
      ensures p in Cut(leaves, r.base / FRAME, r.End() / FRAME) <==> Covered(rs[k := Region(0, 0)], p)
    {
      assert r.Holds(p) <==> r.base / FRAME <= p < r.End() / FRAME;
    }
  }

  /** The frames that pages of the heap slot cost. */
  lemma HeapCost(pts: map<nat, nat>, page: nat, n: nat)
    requires HEAP_BASE / FRAME <= page && 0 < n && page + n <= HEAP_LIMIT / FRAME
    ensures page / SLOTS == HEAP_SLOT && Cost(pts, page, page + n) == n + Missing(pts, HEAP_SLOT)
  {
    hide Cost, Missing;
    forall q | page <= q < page + n ensures q / SLOTS == HEAP_SLOT {}
    CostOneSlot(pts, page, page + n, HEAP_SLOT);
  }

  /** What a SYS_MMAP refused for want of frames keeps: the heap slot's page table, a frame that was free, exactly when
      the slot had none and has one now; otherwise nothing. */
  lemma RefusedCost(a: Space, b: Space, h: nat, base: nat)
    requires Undone(a, b, h, base, HEAP_LIMIT / FRAME) && HEAP_BASE / FRAME <= base
    ensures h in a.trees && h in b.trees && b.trees[h].leaves == a.trees[h].leaves
    ensures if HEAP_SLOT in b.trees[h].pts && HEAP_SLOT !in a.trees[h].pts
            then b.trees[h].pts[HEAP_SLOT] !in a.used && b.used == a.used + {b.trees[h].pts[HEAP_SLOT]}
            else b.used == a.used && b.trees[h].pts.Keys == a.trees[h].pts.Keys
  {
    forall r | r in b.trees[h].pts && r !in a.trees[h].pts ensures r == HEAP_SLOT {}
    if HEAP_SLOT in b.trees[h].pts && HEAP_SLOT !in a.trees[h].pts {
      assert b.trees[h].pts[HEAP_SLOT] in NewTables(a.trees[h].pts, b.trees[h].pts);
      assert NewTables(a.trees[h].pts, b.trees[h].pts) == {b.trees[h].pts[HEAP_SLOT]};
    }
  }

  /** Two frames free, no table yet, and two pages asked for: the call is refused and one frame is gone for good. */
  method RefusedKeepsTable(u: UserSpace) returns (r: nat)
    requires u.Valid() && u.paging.Room() == 2 && HEAP_SLOT !in u.paging.trees[u.tree].pts
    requires forall i :: 0 <= i < MAX_REGIONS ==> !u.regions[i].Live()
    modifies u, u.paging, u.paging.pool.bitmap
    ensures r == SYSCALL_ERROR && u.Valid() && u.regions == old(u.regions) && u.paging.Room() == 1
    ensures u.paging.trees[u.tree].leaves == old(u.paging.trees)[u.tree].leaves
    ensures HEAP_SLOT in u.paging.trees[u.tree].pts
  {
    hide Paging.Valid, FramePool.Used, Backed, Undone, Mapped;
    NoneLive(u.regions);
    u.paging.PoolOk();
    ghost var a := u.paging.Now();
    ghost var why;
    r, why := u.Mmap(2 * FRAME);
    RefusedCost(a, u.paging.Now(), u.tree, HEAP_BASE / FRAME);
  }

  /** Such a call: on a machine with five frames past the ring-3 region, a task with nothing mapped asks for two
      pages, is refused, and afterwards one frame is free where two were. */
  method FiveFrames() returns (u: UserSpace, r: nat, ghost before: int)
    ensures r == SYSCALL_ERROR && u.Valid() && before == 2 && u.paging.Room() == 1
    ensures HEAP_SLOT in u.paging.trees[u.tree].pts && u.paging.trees[u.tree].leaves == map[]
  {
    hide Paging.Valid, FramePool.Used, Backed;
    var pool := InitPool(5);
    var boot: seq<Entry> := seq(SLOTS, i => ABSENT);
    var paging := new Paging(pool, boot);
    var h, t := paging.CreateAddressSpace(true);
    u := new UserSpace(paging, h);
    before := u.paging.Room();
    r := RefusedKeepsTable(u);
  }

  lemma NoneLive(rs: seq<Region>)
    requires |rs| == MAX_REGIONS && forall i :: 0 <= i < MAX_REGIONS ==> !rs[i].Live()
    ensures Top(rs, MAX_REGIONS) == HEAP_BASE && RoundUp(2 * FRAME) == 2 * FRAME && !rs[0].Live()
  {
  }
}
