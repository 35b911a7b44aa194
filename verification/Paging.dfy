/** kernel/paging.c: building, filling and tearing down tasks' page-table trees out of the frame pool. */
module Paging {
  import opened Bytes
  import opened Frames
  import opened PageTables

  type Trees = map<nat, Tree>

  /** Every live tree is spelled out in memory; a tree is named by its top table. */
  ghost predicate AllSpelled(tables: Tables, boot: seq<Entry>, trees: Trees)
    requires Kernel(boot)
  {
    forall h :: h in trees ==> trees[h].pml4 == h && Spells(tables, boot, trees[h]) && Neat(trees[h])
  }

  /** The frames of the live trees are marked used, no two trees share one, and none serves anything else. */
  ghost predicate Ownership(trees: Trees, others: set<nat>, used: set<nat>) {
    && (forall h, x :: h in trees && Owns(trees[h], x) ==> x in used && x !in others)
    && (forall g, h, x :: g in trees && h in trees && Owns(trees[g], x) && Owns(trees[h], x) ==> g == h)
    && others <= used
  }

  /** A frame marked used that nothing owns yet. */
  ghost predicate Loose(trees: Trees, others: set<nat>, used: set<nat>, x: nat) {
    x in used && x !in others && forall h :: h in trees ==> !Owns(trees[h], x)
  }

  /** A tree may take in loose frames and let go of its own. */
  lemma OwnershipSwap(trees: Trees, others: set<nat>, used: set<nat>, used': set<nat>, h: nat, t: Tree)
    requires Ownership(trees, others, used) && h in trees
    requires forall x :: Owns(t, x) ==> x in used' && (Owns(trees[h], x) || Loose(trees, others, used, x))
    requires forall x :: x in used ==> x in used' || Owns(trees[h], x)
    ensures Ownership(trees[h := t], others, used')
  {
    hide Owns;
    forall x | x in others ensures x in used' {
      assert x in used;
    }
  }

  lemma OwnershipAdd(trees: Trees, others: set<nat>, used: set<nat>, h: nat, t: Tree)
    requires Ownership(trees, others, used) && h !in trees
    requires forall x :: Owns(t, x) ==> Loose(trees, others, used, x)
    ensures Ownership(trees[h := t], others, used)
  {
    hide Owns;
  }

  lemma OwnershipMore(trees: Trees, others: set<nat>, used: set<nat>, x: nat)
    requires Ownership(trees, others, used) && x !in used
    ensures Ownership(trees, others, used + {x}) && Loose(trees, others, used + {x}, x)
  {
    hide Owns;
  }

  lemma OwnershipLess(trees: Trees, others: set<nat>, used: set<nat>, x: nat)
    requires Ownership(trees, others, used) && Loose(trees, others, used, x)
    ensures Ownership(trees, others, used - {x})
  {
    hide Owns;
  }

  /** A table no tree owns may be written freely. */
  lemma SpelledElsewhere(tables: Tables, tables': Tables, boot: seq<Entry>, trees: Trees)
    requires Kernel(boot) && AllSpelled(tables, boot, trees)
    requires forall h, a :: h in trees && IsTable(trees[h], a) && a in tables ==>
              a in tables' && tables'[a] == tables[a]
    ensures AllSpelled(tables', boot, trees)
  {
    hide Neat, IsTable, Spells;
    forall h | h in trees ensures Spells(tables', boot, trees[h]) {
      SpelledTables(tables, boot, trees[h]);
      SpellsFrame(tables, tables', boot, trees[h]);
    }
  }

  lemma SpelledTables(tables: Tables, boot: seq<Entry>, t: Tree)
    requires Kernel(boot) && Spells(tables, boot, t)
    ensures forall a :: IsTable(t, a) ==> a in tables
  {
  }

  /** A tree's own tables may be rewritten to spell another tree. */
  lemma SpelledSwap(tables: Tables, tables': Tables, boot: seq<Entry>, trees: Trees, others: set<nat>, used: set<nat>,
                    h: nat, t: Tree)
    requires Kernel(boot) && AllSpelled(tables, boot, trees) && Ownership(trees, others, used) && h in trees
    requires t.pml4 == h && Spells(tables', boot, t) && Neat(t)
    requires forall a :: a in tables && (a !in tables' || tables'[a] != tables[a]) ==>
                         IsTable(trees[h], a) || Loose(trees, others, used, a)
    ensures AllSpelled(tables', boot, trees[h := t])
  {
    hide Neat, IsTable, Spells, InLeaves;
    forall g | g in trees && g != h ensures Spells(tables', boot, trees[g]) {
      SpelledTables(tables, boot, trees[g]);
      forall a | IsTable(trees[g], a) ensures a in tables' && tables'[a] == tables[a] {
        assert Owns(trees[g], a);
        assert !Owns(trees[h], a);
      }
      SpellsFrame(tables, tables', boot, trees[g]);
    }
  }

  /** At most one page table was added, for slot `s`, in a frame that was free. */
  ghost predicate TableAdded(pts: map<nat, nat>, pts': map<nat, nat>, s: nat, used: set<nat>, used': set<nat>) {
    || (pts' == pts && used' == used)
    || (s !in pts && s in pts' && pts' == pts[s := pts'[s]] && pts'[s] !in used && used' == used + {pts'[s]})
  }

  /** The pages outside [lo, hi). */
  ghost function Cut(leaves: map<nat, Leaf>, lo: nat, hi: nat): map<nat, Leaf> {
    map p | p in leaves && !(lo <= p < hi) :: leaves[p]
  }

  /** The frames of the pages in [lo, hi). */
  ghost function FramesIn(leaves: map<nat, Leaf>, lo: nat, hi: nat): set<nat> {
    set p | p in leaves && lo <= p < hi :: leaves[p].frame
  }

  ghost function NewTables(pts: map<nat, nat>, pts': map<nat, nat>): set<nat> {
    set s | s in pts' && s !in pts :: pts'[s]
  }

  lemma CutStep(leaves: map<nat, Leaf>, lo: nat, p: nat)
    requires lo <= p
    ensures p in leaves ==> Cut(leaves, lo, p + 1) == Cut(leaves, lo, p) - {p}
    ensures p in leaves ==> FramesIn(leaves, lo, p + 1) == FramesIn(leaves, lo, p) + {leaves[p].frame}
    ensures p !in leaves ==>
              Cut(leaves, lo, p + 1) == Cut(leaves, lo, p) && FramesIn(leaves, lo, p + 1) == FramesIn(leaves, lo, p)
  {
    if p in leaves {
      assert leaves[p].frame in FramesIn(leaves, lo, p + 1);
      forall x | x in FramesIn(leaves, lo, p) ensures x in FramesIn(leaves, lo, p + 1) {
        var q :| q in leaves && lo <= q < p && leaves[q].frame == x;
        assert lo <= q < p + 1;
      }
      forall x | x in FramesIn(leaves, lo, p + 1) ensures x in FramesIn(leaves, lo, p) + {leaves[p].frame} {
        var q :| q in leaves && lo <= q < p + 1 && leaves[q].frame == x;
        assert q == p || lo <= q < p;
      }
    } else {
      forall x | x in FramesIn(leaves, lo, p + 1) ensures x in FramesIn(leaves, lo, p) {
        var q :| q in leaves && lo <= q < p + 1 && leaves[q].frame == x;
        assert lo <= q < p;
      }
      forall x | x in FramesIn(leaves, lo, p) ensures x in FramesIn(leaves, lo, p + 1) {
        var q :| q in leaves && lo <= q < p && leaves[q].frame == x;
        assert lo <= q < p + 1;
      }
    }
  }

  ghost predicate OneFrameEach(leaves: map<nat, Leaf>) {
    forall p, q :: p in leaves && q in leaves && p != q ==> leaves[p].frame != leaves[q].frame
  }

  lemma NotBefore(leaves: map<nat, Leaf>, lo: nat, p: nat)
    requires OneFrameEach(leaves) && p in leaves
    ensures leaves[p].frame !in FramesIn(leaves, lo, p)
  {
  }

  /** Mapped pages have as many frames as there are pages. */
  lemma {:induction false} FramesCount(leaves: map<nat, Leaf>, lo: nat, hi: nat)
    requires OneFrameEach(leaves) && lo <= hi && forall p :: lo <= p < hi ==> p in leaves
    ensures |FramesIn(leaves, lo, hi)| == hi - lo
    decreases hi
  {
    hide Cut, FramesIn, OneFrameEach;
    if lo == hi {
      CutNothing(leaves, lo);
    } else {
      FramesCount(leaves, lo, hi - 1);
      NotBefore(leaves, lo, hi - 1);
      CutStep(leaves, lo, hi - 1);
    }
  }

  lemma CutNothing(leaves: map<nat, Leaf>, lo: nat)
    ensures Cut(leaves, lo, lo) == leaves && FramesIn(leaves, lo, lo) == {}
  {
  }

  /** `L` is `leaves` with the pages of [lo, hi) mapped, writable, to frames that were free. */
  ghost predicate Extends(leaves: map<nat, Leaf>, L: map<nat, Leaf>, lo: nat, hi: nat, used: set<nat>) {
    && (forall q :: q in L <==> q in leaves || lo <= q < hi)
    && (forall q :: q in leaves ==> L[q] == leaves[q])
    && (forall q :: lo <= q < hi && q !in leaves ==> L[q].writable && L[q].frame !in used)
  }

  ghost predicate Unmapped(leaves: map<nat, Leaf>, lo: nat, hi: nat) { forall q :: q in leaves ==> !(lo <= q < hi) }

  /** The pages of [lo, hi) read as zeros. */
  ghost predicate Zeroed(pages: map<nat, seq<Byte>>, L: map<nat, Leaf>, lo: nat, hi: nat) {
    forall q :: q in L && lo <= q < hi ==> L[q].frame in pages && pages[L[q].frame] == Zeros(FRAME)
  }

  ghost predicate PagesKept(pages: map<nat, seq<Byte>>, pages': map<nat, seq<Byte>>, used: set<nat>) {
    forall x :: x in pages && x in used ==> x in pages' && pages'[x] == pages[x]
  }

  lemma ExtendStep(leaves: map<nat, Leaf>, L: map<nat, Leaf>, lo: nat, q: nat, used: set<nat>, frame: nat)
    requires Extends(leaves, L, lo, q, used) && lo <= q && q !in leaves && frame !in used
    ensures q !in L && Extends(leaves, L[q := Leaf(frame, true)], lo, q + 1, used)
    ensures FramesIn(L[q := Leaf(frame, true)], lo, q + 1) == FramesIn(L, lo, q) + {frame}
  {
    var L' := L[q := Leaf(frame, true)];
    CutStep(L', lo, q);
    assert FramesIn(L', lo, q) == FramesIn(L, lo, q) by {
      assert forall r :: lo <= r < q ==> (r in L' <==> r in L) && (r in L ==> L'[r] == L[r]);
    }
  }

  lemma ExtendUndo(leaves: map<nat, Leaf>, L: map<nat, Leaf>, lo: nat, hi: nat, used: set<nat>)
    requires Extends(leaves, L, lo, hi, used) && Unmapped(leaves, lo, hi)
    ensures Cut(L, lo, hi) == leaves && FramesIn(L, lo, hi) !! used
  {
  }

  lemma TablesGrow(pts: map<nat, nat>, pts1: map<nat, nat>, pts2: map<nat, nat>, s: nat, used1: set<nat>,
                   used2: set<nat>)
    requires TableAdded(pts1, pts2, s, used1, used2) && (forall r :: r in pts ==> r in pts1 && pts1[r] == pts[r])
    ensures (forall r :: r in pts ==> r in pts2 && pts2[r] == pts[r])
    ensures exists N: set<nat> :: NewTables(pts, pts2) == NewTables(pts, pts1) + N && used2 == used1 + N && N !! used1
  {
    var N := if pts2 == pts1 then {} else {pts2[s]};
    if pts2 != pts1 {
      assert s in pts2 && s !in pts;
      forall x | x in NewTables(pts, pts1) ensures x in NewTables(pts, pts2) {
        var r :| r in pts1 && r !in pts && pts1[r] == x;
        assert r in pts2 && pts2[r] == x;
      }
      forall x | x in NewTables(pts, pts2) ensures x in NewTables(pts, pts1) + N {
        var r :| r in pts2 && r !in pts && pts2[r] == x;
        assert r == s || (r in pts1 && pts1[r] == x);
      }
    }
    assert NewTables(pts, pts2) == NewTables(pts, pts1) + N;
  }

  /** Everything a run of page mappings touches. */
  datatype Space = Space(trees: Trees, pages: map<nat, seq<Byte>>, used: set<nat>)

  /** What mapping a run in tree `h` has done, from `a` to `b`, after the pages [base, va). */
  ghost predicate Mapped(a: Space, b: Space, h: nat, base: nat, va: nat) {
    && Tabled(a, b, h, base, va)
    && Extends(a.trees[h].leaves, b.trees[h].leaves, base, va, a.used)
    && Zeroed(b.pages, b.trees[h].leaves, base, va)
    && b.used == a.used + NewTables(a.trees[h].pts, b.trees[h].pts) + FramesIn(b.trees[h].leaves, base, va)
    && NewTables(a.trees[h].pts, b.trees[h].pts) !! a.used
  }

  /** A page table the slot lacks. */
  ghost function Missing(pts: map<nat, nat>, r: nat): nat { if r in pts then 0 else 1 }

  /** The frames that mapping the pages [lo, va) takes: one a page, and one for each page table missing at the start. */
  ghost function Cost(pts: map<nat, nat>, lo: nat, va: nat): nat
    requires lo <= va
    decreases va
  {
    if va == lo then 0
    else Cost(pts, lo, va - 1) + 1
         + if va - 1 == lo || (va - 2) / SLOTS != (va - 1) / SLOTS then Missing(pts, (va - 1) / SLOTS) else 0
  }

  lemma CostNone(pts: map<nat, nat>, lo: nat)
    ensures Cost(pts, lo, lo) == 0
  {
  }

  lemma CostStep(pts: map<nat, nat>, lo: nat, va: nat)
    requires lo <= va
    ensures Cost(pts, lo, va + 1) ==
            Cost(pts, lo, va) + 1 + if va == lo || (va - 1) / SLOTS != va / SLOTS then Missing(pts, va / SLOTS) else 0
  {
  }

  lemma {:induction false} CostMore(pts: map<nat, nat>, lo: nat, va: nat, hi: nat)
    requires lo <= va <= hi
    ensures Cost(pts, lo, va) <= Cost(pts, lo, hi)
    decreases hi - va
  {
    if va < hi {
      CostStep(pts, lo, va);
      CostMore(pts, lo, va + 1, hi);
    }
  }

  lemma FirstCost(pts: map<nat, nat>, lo: nat, va: nat)
    requires lo <= va
    ensures lo < va ==> Cost(pts, lo, va) >= 1 + Missing(pts, lo / SLOTS)
  {
    if lo < va {
      CostStep(pts, lo, lo);
      CostMore(pts, lo, lo + 1, va);
    }
  }

  /** Pages of one slot cost one frame each, and one more if the slot has no table. */
  lemma {:induction false} CostOneSlot(pts: map<nat, nat>, lo: nat, va: nat, r: nat)
    requires lo < va && forall q :: lo <= q < va ==> q / SLOTS == r
    ensures Cost(pts, lo, va) == va - lo + Missing(pts, r)
    decreases va
  {
    CostStep(pts, lo, va - 1);
    if va - 1 > lo {
      CostOneSlot(pts, lo, va - 1, r);
      assert (va - 2) / SLOTS == r && (va - 1) / SLOTS == r;
    }
  }

  /** Which table the next page lacks: none if the slot had one, or if the page before it is of the same slot. */
  lemma SlotSeen(a: Space, b: Space, h: nat, base: nat, va: nat)
    requires base <= va && Mapped(a, b, h, base, va) && h in a.trees && h in b.trees
    requires (va == base ==> b.trees[h].pts == a.trees[h].pts)
    requires forall q :: base <= q < va ==> q / SLOTS in b.trees[h].pts
    ensures Missing(b.trees[h].pts, va / SLOTS) ==
            if va == base || (va - 1) / SLOTS != va / SLOTS then Missing(a.trees[h].pts, va / SLOTS) else 0
  {
    hide Extends, Zeroed, NewTables, FramesIn;
    if va > base {
      var r := va / SLOTS;
      assert (va - 1) / SLOTS in b.trees[h].pts;
      if r in b.trees[h].pts && r !in a.trees[h].pts {
        assert r * SLOTS < va;
        SameSlot(va, r);
      }
    }
  }

  lemma SameSlot(va: nat, r: nat)
    requires r == va / SLOTS && r * SLOTS < va
    ensures (va - 1) / SLOTS == r
  {
  }

  lemma MoreTables(pts: map<nat, nat>, pts': map<nat, nat>, s: nat, used: set<nat>, used': set<nat>)
    requires TableAdded(pts, pts', s, used, used')
    ensures pts.Keys <= pts'.Keys
  {
  }

  /** A failed mapping left the pages as they were and kept only page tables of the slots it went through. */
  ghost predicate Undone(a: Space, b: Space, h: nat, base: nat, end: nat) {
    && Tabled(a, b, h, base, end) && b.trees[h].leaves == a.trees[h].leaves
    && b.used == a.used + NewTables(a.trees[h].pts, b.trees[h].pts)
    && NewTables(a.trees[h].pts, b.trees[h].pts) !! a.used
  }

  /** Only tree `h` changed, and it kept its page tables and got others only for slots of [base, end). */
  ghost predicate Tabled(a: Space, b: Space, h: nat, base: nat, end: nat) {
    && h in a.trees && h in b.trees
    && b.trees == a.trees[h := a.trees[h].(pts := b.trees[h].pts, leaves := b.trees[h].leaves)]
    && (forall r :: r in a.trees[h].pts ==> r in b.trees[h].pts && b.trees[h].pts[r] == a.trees[h].pts[r])
    && (forall r :: r in b.trees[h].pts && r !in a.trees[h].pts ==> base / SLOTS <= r && r * SLOTS < end)
    && PagesKept(a.pages, b.pages, a.used)
  }

  /** One more page mapped to a zeroed frame. */
  lemma MapStep(a: Space, b: Space, c: Space, h: nat, base: nat, va: nat, frame: nat)
    requires Mapped(a, b, h, base, va) && base <= va && va !in a.trees[h].leaves && frame !in b.used
    requires h in c.trees && c.pages == b.pages[frame := Zeros(FRAME)]
    requires c.trees == b.trees[h := b.trees[h].(pts := c.trees[h].pts,
                                                 leaves := b.trees[h].leaves[va := Leaf(frame, true)])]
    requires TableAdded(b.trees[h].pts, c.trees[h].pts, va / SLOTS, b.used + {frame}, c.used)
    ensures Mapped(a, c, h, base, va + 1)
  {
    hide Extends, Zeroed, NewTables, FramesIn, TableAdded;
    var t, L, pts := a.trees[h], b.trees[h].leaves, b.trees[h].pts;
    ExtendStep(t.leaves, L, base, va, a.used, frame);
    ZeroedMore(b.pages, L, base, va, frame);
    TablesGrow(t.pts, pts, c.trees[h].pts, va / SLOTS, b.used + {frame}, c.used);
    var N: set<nat> :| NewTables(t.pts, c.trees[h].pts) == NewTables(t.pts, pts) + N
                       && c.used == b.used + {frame} + N && N !! b.used + {frame};
    TableNear(pts, c.trees[h].pts, t.pts, base, va, b.used + {frame}, c.used);
  }

  lemma ZeroedMore(pages0: map<nat, seq<Byte>>, L: map<nat, Leaf>, lo: nat, hi: nat, frame: nat)
    requires Zeroed(pages0, L, lo, hi) && frame !in FramesIn(L, lo, hi)
    ensures Zeroed(pages0[frame := Zeros(FRAME)], L, lo, hi)
    ensures hi !in L ==> Zeroed(pages0[frame := Zeros(FRAME)], L[hi := Leaf(frame, true)], lo, hi + 1)
  {
  }

  lemma TableNear(pts1: map<nat, nat>, pts2: map<nat, nat>, pts: map<nat, nat>, base: nat, va: nat, used1: set<nat>,
                  used2: set<nat>)
    requires TableAdded(pts1, pts2, va / SLOTS, used1, used2) && base <= va
    requires forall r :: r in pts1 && r !in pts ==> base / SLOTS <= r && r * SLOTS < va
    ensures forall r :: r in pts2 && r !in pts ==> base / SLOTS <= r && r * SLOTS < va + 1
  {
  }

  lemma MappedNone(a: Space, h: nat, base: nat)
    requires h in a.trees
    ensures Mapped(a, a, h, base, base)
  {
    CutNothing(a.trees[h].leaves, base);
    assert NewTables(a.trees[h].pts, a.trees[h].pts) == {};
    assert a.trees == a.trees[h := a.trees[h]];
  }

  /** A frame taken, zeroed and given back leaves the run where it was. */
  lemma MapTried(a: Space, b: Space, h: nat, base: nat, va: nat, frame: nat)
    requires Mapped(a, b, h, base, va) && frame !in b.used
    ensures Mapped(a, b.(pages := b.pages[frame := Zeros(FRAME)]), h, base, va)
  {
    ZeroedMore(b.pages, b.trees[h].leaves, base, va, frame);
  }

  /** Unmapping what was mapped leaves nothing but page tables behind. */
  lemma MapUndo(a: Space, b: Space, c: Space, h: nat, base: nat, va: nat, end: nat)
    requires Mapped(a, b, h, base, va) && Unmapped(a.trees[h].leaves, base, va) && va <= end
    requires FramesIn(b.trees[h].leaves, base, va) !! NewTables(a.trees[h].pts, b.trees[h].pts)
    requires c.trees == b.trees[h := b.trees[h].(leaves := Cut(b.trees[h].leaves, base, va))] && c.pages == b.pages
    requires c.used == b.used - FramesIn(b.trees[h].leaves, base, va)
    ensures Undone(a, c, h, base, end)
  {
    hide Extends, Zeroed, NewTables, FramesIn, Cut;
    ExtendUndo(a.trees[h].leaves, b.trees[h].leaves, base, va, a.used);
  }

  /** A tree that is no longer live: its frames are still marked used and belong to nothing else. */
  ghost predicate Orphan(trees: Trees, others: set<nat>, t: Tree) {
    forall x :: Owns(t, x) ==> x !in others && forall h :: h in trees ==> !Owns(trees[h], x)
  }

  /** The frames of the directory slots below `s`: their page tables and pages. */
  ghost predicate GoneBelow(t: Tree, s: nat, x: nat) {
    x in FramesIn(t.leaves, 0, s * SLOTS) || exists r :: r in t.pts && r < s && t.pts[r] == x
  }

  lemma GoneStep(t: Tree, s: nat, x: nat)
    requires Neat(t)
    ensures s in t.pts ==>
              (GoneBelow(t, s + 1, x) <==>
                 GoneBelow(t, s, x) || x == t.pts[s] || x in FramesIn(t.leaves, s * SLOTS, s * SLOTS + SLOTS))
    ensures s !in t.pts ==> (GoneBelow(t, s + 1, x) <==> GoneBelow(t, s, x))
  {
    if x in FramesIn(t.leaves, 0, (s + 1) * SLOTS) && x !in FramesIn(t.leaves, 0, s * SLOTS) {
      var p :| p in t.leaves && 0 <= p < (s + 1) * SLOTS && t.leaves[p].frame == x;
      assert p / SLOTS == s && x in FramesIn(t.leaves, s * SLOTS, s * SLOTS + SLOTS);
    }
    if x in FramesIn(t.leaves, 0, s * SLOTS) {
      var p :| p in t.leaves && 0 <= p < s * SLOTS && t.leaves[p].frame == x;
      assert 0 <= p < (s + 1) * SLOTS;
    }
    if x in FramesIn(t.leaves, s * SLOTS, s * SLOTS + SLOTS) {
      var p :| p in t.leaves && s * SLOTS <= p < s * SLOTS + SLOTS && t.leaves[p].frame == x;
      assert 0 <= p < (s + 1) * SLOTS;
    }
    if exists r :: r in t.pts && r < s && t.pts[r] == x {
      var r :| r in t.pts && r < s && t.pts[r] == x;
      assert r < s + 1;
    }
  }

  lemma GoneAll(t: Tree, x: nat)
    requires Neat(t)
    ensures !GoneBelow(t, 2, x)
    ensures Owns(t, x) <==> GoneBelow(t, 5, x) || x == t.pml4 || x == t.pdpt || x == t.pd
  {
    if InLeaves(t, x) {
      var p :| p in t.leaves && t.leaves[p].frame == x;
      assert x in FramesIn(t.leaves, 0, 5 * SLOTS);
    }
    if InPts(t, x) {
      var r :| r in t.pts && t.pts[r] == x;
      assert r < 5;
    }
    if x in FramesIn(t.leaves, 0, 5 * SLOTS) {
      var p :| p in t.leaves && t.leaves[p].frame == x;
      assert InLeaves(t, x);
    }
    if exists r :: r in t.pts && r < 5 && t.pts[r] == x {
      var r :| r in t.pts && r < 5 && t.pts[r] == x;
      assert InPts(t, x);
    }
  }

  /** A page's frame is no table's, no other page's, and belongs to its own slot only. */
  lemma LeafApart(t: Tree, s: nat, p: nat)
    requires Neat(t) && s in t.pts && p in t.leaves && p / SLOTS == s
    ensures var x := t.leaves[p].frame;
            x != t.pts[s] && Owns(t, x) && !GoneBelow(t, s, x) && x !in FramesIn(t.leaves, s * SLOTS, p)
  {
    TablesOf(t);
    LeavesOwned(t);
  }

  lemma TableApart(t: Tree, s: nat)
    requires Neat(t) && s in t.pts
    ensures Owns(t, t.pts[s]) && !GoneBelow(t, s, t.pts[s])
    ensures t.pts[s] !in FramesIn(t.leaves, s * SLOTS, s * SLOTS + SLOTS)
  {
    TablesOf(t);
    forall p | p in t.leaves ensures t.leaves[p].frame != t.pts[s] {
      assert !IsTable(t, t.leaves[p].frame);
    }
  }

  /** A tree is named by its place in the list of live ones. */
  datatype Op = Create(handle: bool) | Map(k: nat, p: nat, writable: bool) | Unmap(k: nat, base: nat, n: nat)
              | Destroy(k: nat) | GrowKernel(n: nat)

  /** The trees, the frames in use, the size of the pool and the list of live trees. */
  datatype Shot = Shot(trees: Trees, used: set<nat>, num: nat, live: seq<nat>) {
    function Room(): int { num - |used| }
  }

  /** A tree with nothing mapped, on three frames that were free. */
  ghost predicate Born(a: Shot, b: Shot, t: Tree) {
    && t.pts == map[] && t.leaves == map[] && t.pml4 !in a.trees && {t.pml4, t.pdpt, t.pd} !! a.used
    && b == a.(trees := a.trees[t.pml4 := t], live := a.live + [t.pml4], used := a.used + {t.pml4, t.pdpt, t.pd})
  }

  /** Page `p` of tree `h` is on a frame that was free, and so is its page table if it had none. */
  ghost predicate PageIn(a: Shot, b: Shot, h: nat, p: nat, frame: nat, writable: bool) {
    && h in a.trees && h in b.trees && frame !in a.used
    && b.trees == a.trees[h := a.trees[h].(pts := b.trees[h].pts,
                                           leaves := a.trees[h].leaves[p := Leaf(frame, writable)])]
    && TableAdded(a.trees[h].pts, b.trees[h].pts, p / SLOTS, a.used + {frame}, b.used) && p / SLOTS in b.trees[h].pts
    && b.live == a.live && b.num == a.num
  }

  /** What an operation does, which the free frames decide; one that names no live tree or no user page does nothing. */
  ghost predicate Did(op: Op, a: Shot, b: Shot) {
    match op
    case Create(handle) => if handle && a.Room() >= 3 then exists t: Tree :: Born(a, b, t) else b == a
    case Map(k, p, w) =>
      if && k < |a.live| && UserPage(p) && a.live[k] in a.trees
         && a.Room() > Missing(a.trees[a.live[k]].pts, p / SLOTS)
      then exists frame: nat :: PageIn(a, b, a.live[k], p, frame, w)
      else b == a
    case Unmap(k, base, n) =>
      if k < |a.live| && a.live[k] in a.trees && FIRST_PAGE <= base && base + n <= END_PAGE
      then var h, t := a.live[k], a.trees[a.live[k]];
           b == a.(trees := a.trees[h := t.(leaves := Cut(t.leaves, base, base + n))],
                   used := a.used - FramesIn(t.leaves, base, base + n))
      else b == a
    case Destroy(k) =>
      if k < |a.live| && a.live[k] in a.trees
      then && b.trees == a.trees - {a.live[k]} && b.live == a.live[..k] + a.live[k + 1..] && b.num == a.num
           && forall x :: x in b.used <==> x in a.used && !Owns(a.trees[a.live[k]], x)
      else b == a
    case GrowKernel(_) => a.used <= b.used && b == a.(used := b.used)
  }

  class Paging {
    const pool: FramePool
    const boot: seq<Entry>        // pd_table, fixed after start-up
    var tables: Tables
    var pages: map<nat, seq<Byte>>
    ghost var trees: Trees
    ghost var others: set<nat>    // frames of the kernel heap and the reserved range

    ghost predicate Valid()
      reads `tables, `trees, `others, pool, pool.bitmap
    {
      && pool.Valid() && Kernel(boot)
      && AllSpelled(tables, boot, trees)
      && Ownership(trees, others, pool.Used())
    }

    /** Nothing runs yet; the frames 4-10M, and whatever else is marked used, are not for trees. */
    constructor (p: FramePool, bootPd: seq<Entry>)
      requires p.Valid() && Kernel(bootPd)
      ensures Valid() && pool == p && boot == bootPd && trees == map[] && others == p.Used() && tables == map[]
    {
      pool, boot, tables, pages := p, bootPd, map[], map[];
      trees, others := map[], p.Used();
    }

    lemma PoolOk()
      requires Valid()
      ensures pool.Valid() && Kernel(boot)
    {
    }

    ghost predicate IsLoose(x: nat)
      reads `trees, `others, pool, pool.bitmap
      requires pool.Valid()
    {
      Loose(trees, others, pool.Used(), x)
    }

    /** How many frames are free. */
    ghost function Room(): int
      reads pool, pool.bitmap
      requires pool.Valid()
    {
      pool.num - |pool.Used()|
    }

    lemma RoomLeft()
      requires pool.Valid()
      ensures Room() >= 0
    {
      pool.UsedFits();
    }

    /** alloc_frame, seen from the trees: the frame is loose until something takes it. */
    method TakeFrame() returns (frame: nat)
      requires Valid()
      modifies pool.bitmap
      ensures Valid()
      ensures frame == 0 ==> pool.Used() == old(pool.Used())
      ensures frame != 0 ==> frame !in old(pool.Used()) && pool.Used() == old(pool.Used()) + {frame} && IsLoose(frame)
      ensures (frame == 0 <==> old(Room()) == 0) && Room() == old(Room()) - if frame == 0 then 0 else 1
    {
      hide AllSpelled, Ownership, Loose, FramePool.Used;
      frame := pool.Take();
      if frame != 0 {
        OwnershipMore(trees, others, old(pool.Used()), frame);
      }
    }

    method GiveFrame(frame: nat)
      requires Valid() && IsLoose(frame)
      modifies pool.bitmap
      ensures Valid() && pool.Used() == old(pool.Used()) - {frame} && Room() == old(Room()) + 1
    {
      hide AllSpelled, Ownership, FramePool.Used;
      OwnershipLess(trees, others, pool.Used(), frame);
      pool.Give(frame);
    }

    /** Writing a table that no tree owns. */
    lemma FreeToWrite(a: nat, tab: seq<Entry>)
      requires Valid() && IsLoose(a)
      ensures AllSpelled(tables[a := tab], boot, trees)
    {
      forall h, b | h in trees && IsTable(trees[h], b) ensures b != a {
        assert Owns(trees[h], b);
      }
      SpelledElsewhere(tables, tables[a := tab], boot, trees);
    }

    /** alloc_table: a blank table in a loose frame. */
    method AllocTable() returns (frame: nat)
      requires Valid()
      modifies `tables, pool.bitmap
      ensures Valid()
      ensures frame == 0 ==> pool.Used() == old(pool.Used()) && tables == old(tables)
      ensures frame != 0 ==> frame !in old(pool.Used()) && pool.Used() == old(pool.Used()) + {frame} && IsLoose(frame)
                             && tables == old(tables)[frame := Blank()]
      ensures (frame == 0 <==> old(Room()) == 0) && Room() == old(Room()) - if frame == 0 then 0 else 1
    {
      hide AllSpelled, Ownership, Loose, FramePool.Used, Paging.Room;
      frame := TakeFrame();
      if frame == 0 {
        return;
      }
      FreeToWrite(frame, Blank());
      tables := tables[frame := Blank()];
    }

    lemma StillLoose(used: set<nat>, x: nat)
      requires pool.Valid() && Loose(trees, others, used, x) && used <= pool.Used()
      ensures IsLoose(x)
    {
    }

    /** The by-value clone of the kernel half into a blank directory. */
    method CloneKernel(pd: nat)
      requires Valid() && IsLoose(pd) && pd in tables && tables[pd] == Blank()
      modifies `tables
      ensures Valid() && tables.Keys == old(tables).Keys && |tables[pd]| == SLOTS
      ensures forall a :: a in tables && a != pd ==> tables[a] == old(tables)[a]
      ensures forall i: nat :: i < SLOTS ==> tables[pd][i] == if 2 <= i <= 4 then ABSENT else boot[i]
    {
      hide AllSpelled, Ownership, Loose, FramePool.Used;
      var i := 0;
      while i < SLOTS
        invariant 0 <= i <= SLOTS && Valid() && tables.Keys == old(tables).Keys && |tables[pd]| == SLOTS
        invariant forall a :: a in tables && a != pd ==> tables[a] == old(tables)[a]
        invariant forall j: nat :: j < SLOTS ==> tables[pd][j] == if j < i && !(2 <= j <= 4) then boot[j] else ABSENT
      {
        if !UserSlot(i) {
          FreeToWrite(pd, tables[pd][i := boot[i]]);
          tables := tables[pd := tables[pd][i := boot[i]]];
        }
        i := i + 1;
      }
    }

    /** The three upper tables, or none of them. */
    method AllocSpine() returns (ok: bool, pml4: nat, pdpt: nat, pd: nat)
      requires Valid()
      modifies `tables, pool.bitmap
      ensures Valid() && (!ok ==> pool.Used() == old(pool.Used()))
      ensures ok ==>
                IsLoose(pml4) && IsLoose(pdpt) && IsLoose(pd) && pml4 != pdpt && pml4 != pd && pdpt != pd && pml4 != 0
                     && pool.Used() == old(pool.Used()) + {pml4, pdpt, pd} && {pml4, pdpt, pd} !! old(pool.Used())
                     && pml4 in tables && pdpt in tables && pd in tables && tables[pd] == Blank()
      ensures (ok <==> old(Room()) >= 3) && (ok ==> Room() == old(Room()) - 3)
    {
      hide AllSpelled, Ownership, Loose, FramePool.Used, Paging.Room;
      NoFrameZero();
      RoomLeft();
      pml4 := AllocTable();
      ghost var used1 := pool.Used();
      pdpt := AllocTable();
      ghost var used2 := pool.Used();
      pd := AllocTable();
      if pml4 != 0 { StillLoose(used1, pml4); }
      if pdpt != 0 { StillLoose(used2, pdpt); }
      NoFrameZero();
      ok := !(pml4 == 0 || pdpt == 0 || pd == 0);
      if !ok {
        BackAsBefore(old(pool.Used()), pml4, pdpt, pd, pool.Used());
        GiveBack(pml4, pdpt, pd);
      }
    }

    /** paging_create_address_space: a tree with the kernel half and no page of its own, or nothing taken. `handle` says
        that kmalloc had room for the handle. */
    method CreateAddressSpace(handle: bool) returns (h: nat, ghost t: Tree)
      requires Valid()
      modifies `tables, `trees, pool.bitmap
      ensures Valid()
      ensures h == 0 ==> trees == old(trees) && pool.Used() == old(pool.Used())
      ensures h != 0 ==> h !in old(trees) && t == Tree(h, t.pdpt, t.pd, map[], map[]) && trees == old(trees)[h := t]
      ensures h != 0 ==> pool.Used() == old(pool.Used()) + {h, t.pdpt, t.pd} && {h, t.pdpt, t.pd} !! old(pool.Used())
      ensures (h != 0 <==> handle && old(Room()) >= 3) && (h != 0 ==> Room() == old(Room()) - 3)
      ensures h != 0 ==> t.pd in tables && |tables[t.pd]| == SLOTS
                         && forall i: nat :: i < SLOTS ==> tables[t.pd][i] == if 2 <= i <= 4 then ABSENT else boot[i]
      ensures h != 0 ==> |boot| == SLOTS
      ensures h != 0 ==>
                forall page: nat :: page < 0x4_0000 && !(1024 <= page < 2560) ==>
                  Supervise(tables, h, page) ==
                  if boot[page / 512].present then Seen(boot[page / 512].addr + page % 512 * 4096) else Unseen
    {
      hide AllSpelled, Ownership, Loose, FramePool.Used, Paging.Room, Supervise;
      t := Tree(0, 0, 0, map[], map[]);
      if !handle {
        return 0, t;
      }
      var ok, pml4, pdpt, pd := AllocSpine();
      if !ok {
        return 0, t;
      }
      CloneKernel(pd);
      FreeToWrite(pdpt, Blank()[0 := Ptr(pd)]);
      tables := tables[pdpt := Blank()[0 := Ptr(pd)]];
      FreeToWrite(pml4, Blank()[0 := Ptr(pdpt)]);
      tables := tables[pml4 := Blank()[0 := Ptr(pdpt)]];
      t := Tree(pml4, pdpt, pd, map[], map[]);
      NewTree(t);
      trees := trees[pml4 := t];
      h := pml4;
      KernelKept(h);
    }

    method GiveIf(frame: nat)
      requires Valid() && (frame != 0 ==> IsLoose(frame))
      modifies pool.bitmap
      ensures Valid() && pool.Used() == old(pool.Used()) - {frame}
    {
      hide AllSpelled, Ownership, Loose, FramePool.Used;
      NoFrameZero();
      if frame != 0 {
        GiveFrame(frame);
      }
    }

    /** The frames a failed create did get go back one by one. */
    method GiveBack(pml4: nat, pdpt: nat, pd: nat)
      requires Valid() && (pml4 != 0 ==> IsLoose(pml4)) && (pdpt != 0 ==> IsLoose(pdpt)) && (pd != 0 ==> IsLoose(pd))
      requires (pml4 == pdpt || pml4 == pd ==> pml4 == 0) && (pdpt == pd ==> pd == 0)
      modifies pool.bitmap
      ensures Valid() && pool.Used() == old(pool.Used()) - {pml4} - {pdpt} - {pd}
    {
      hide AllSpelled, Ownership, FramePool.Used;
      GiveIf(pml4);
      GiveIf(pdpt);
      GiveIf(pd);
    }

    lemma BackAsBefore(used: set<nat>, a: nat, b: nat, c: nat, now: set<nat>)
      requires 0 !in used
      requires now == used + (if a == 0 then {} else {a}) + (if b == 0 then {} else {b}) + (if c == 0 then {} else {c})
      requires a !in used && b !in used && c !in used
      ensures now - {a} - {b} - {c} == used
    {
    }

    lemma NoFrameZero()
      requires pool.Valid()
      ensures 0 !in pool.Used()
    {
    }

    lemma NewTree(t: Tree)
      requires Valid() && t.pts == map[] && t.leaves == map[] && t.pml4 != t.pdpt && t.pml4 != t.pd && t.pdpt != t.pd
      requires IsLoose(t.pml4) && IsLoose(t.pdpt) && IsLoose(t.pd)
      requires t.pml4 in tables && t.pdpt in tables && t.pd in tables
      requires tables[t.pml4] == Blank()[0 := Ptr(t.pdpt)] && tables[t.pdpt] == Blank()[0 := Ptr(t.pd)]
      requires |tables[t.pd]| == SLOTS
      requires forall i: nat :: i < SLOTS ==> tables[t.pd][i] == if 2 <= i <= 4 then ABSENT else boot[i]
      ensures t.pml4 !in trees && AllSpelled(tables, boot, trees[t.pml4 := t])
      ensures Ownership(trees[t.pml4 := t], others, pool.Used())
    {
      if t.pml4 in trees {
        assert Owns(trees[t.pml4], t.pml4);
      }
      forall x | Owns(t, x) ensures IsLoose(x) {}
      OwnershipAdd(trees, others, pool.Used(), t.pml4, t);
    }

    lemma TopTables(h: nat)
      requires Valid() && h in trees
      ensures h in tables && tables[h] == Blank()[0 := Ptr(trees[h].pdpt)]
      ensures trees[h].pdpt in tables && tables[trees[h].pdpt] == Blank()[0 := Ptr(trees[h].pd)]
      ensures trees[h].pd in tables && |tables[trees[h].pd]| == SLOTS
      ensures forall i: nat :: i < SLOTS ==> tables[trees[h].pd][i] == Directory(boot, trees[h].pts, i)
    {
      assert IsTable(trees[h], h) && IsTable(trees[h], trees[h].pdpt) && IsTable(trees[h], trees[h].pd);
    }

    /** next_table below the directory: the page table of slot `s`, made if it is not there. */
    method NextTable(h: nat, pd: nat, s: nat) returns (pt: nat)
      requires Valid() && h in trees && pd == trees[h].pd && UserSlot(s)
      modifies `tables, `trees, pool.bitmap
      ensures Valid() && trees.Keys == old(trees).Keys
      ensures pt == 0 ==> trees == old(trees) && pool.Used() == old(pool.Used())
      ensures pt != 0 ==> s in trees[h].pts && pt == trees[h].pts[s]
                          && trees == old(trees)[h := old(trees)[h].(pts := trees[h].pts)]
                          && TableAdded(old(trees)[h].pts, trees[h].pts, s, old(pool.Used()), pool.Used())
      ensures pt == 0 <==> s !in old(trees)[h].pts && old(Room()) == 0
      ensures Room() == old(Room()) - if pt == 0 then 0 else Missing(old(trees)[h].pts, s)
    {
      hide AllSpelled, Ownership, Loose, FramePool.Used, Kernel, Paging.Room;
      TopTables(h);
      assert tables[pd][s] == Directory(boot, trees[h].pts, s);
      if tables[pd][s].present {
        TableNotZero(h, s);
        return tables[pd][s].addr;
      }
      var table := AllocTable();
      if table == 0 {
        return 0;
      }
      ghost var t := trees[h];
      SlotAdded(h, s, table);
      TopTables(h);
      tables := tables[pd := tables[pd][s := Ptr(table)]];
      trees := trees[h := t.(pts := t.pts[s := table])];
      pt := tables[pd][s].addr;
    }

    lemma TableNotZero(h: nat, s: nat)
      requires Valid() && h in trees && s in trees[h].pts
      ensures trees[h].pts[s] != 0
    {
      NoFrameZero();
      assert InPts(trees[h], trees[h].pts[s]);
      assert Owns(trees[h], trees[h].pts[s]);
    }

    lemma SlotAdded(h: nat, s: nat, a: nat)
      requires Valid() && h in trees && UserSlot(s) && s !in trees[h].pts && IsLoose(a)
      requires a in tables && tables[a] == Blank()
      ensures var t := trees[h];
              var t' := t.(pts := t.pts[s := a]);
              t.pd in tables && s < |tables[t.pd]|
              && AllSpelled(tables[t.pd := tables[t.pd][s := Ptr(a)]], boot, trees[h := t'])
              && Ownership(trees[h := t'], others, pool.Used())
    {
      hide Spells, Neat, Owns, FramePool.Used;
      var t := trees[h];
      AddTable(tables, boot, t, s, a);
      var t' := t.(pts := t.pts[s := a]);
      assert tables[a := Blank()] == tables;
      OwnershipSwap(trees, others, pool.Used(), pool.Used(), h, t');
      assert IsTable(t, t.pd);
      SpelledSwap(tables, tables[t.pd := tables[t.pd][s := Ptr(a)]], boot, trees, others, pool.Used(), h, t');
    }

    /** paging_map_page on a user page, with a frame nothing owns: the page now reaches that frame, and at
        most one page table was added. Without a frame for the table nothing changes. */
    method MapPage(h: nat, p: nat, phys: nat, writable: bool) returns (ok: bool)
      requires Valid() && h in trees && UserPage(p) && IsLoose(phys)
      modifies `tables, `trees, pool.bitmap
      ensures Valid() && trees.Keys == old(trees).Keys
      ensures !ok ==> trees == old(trees) && pool.Used() == old(pool.Used())
      ensures ok ==>
                trees == old(trees)[h := old(trees)[h].(pts := trees[h].pts,
                                                        leaves := old(trees)[h].leaves[p := Leaf(phys, writable)])]
      ensures ok ==>
                TableAdded(old(trees)[h].pts, trees[h].pts, p / SLOTS, old(pool.Used()), pool.Used())
                && p / SLOTS in trees[h].pts
      ensures ok <==> p / SLOTS in old(trees)[h].pts || old(Room()) > 0
      ensures Room() == old(Room()) - if ok then Missing(old(trees)[h].pts, p / SLOTS) else 0
    {
      hide AllSpelled, Ownership, FramePool.Used, Kernel, Owns, Paging.Room;
      TopTables(h);
      RoomLeft();
      var e4 := tables[h][p / 0x800_0000 % SLOTS];
      var e3 := tables[e4.addr][p / 0x4_0000 % SLOTS];
      var pt := NextTable(h, e3.addr, p / SLOTS % SLOTS);
      if pt == 0 {
        return false;
      }
      NotTaken(old(trees), trees, h, p / SLOTS, phys, old(pool.Used()));
      LeafSet(h, p, Leaf(phys, writable));
      tables := tables[pt := tables[pt][p % SLOTS := Leaf(phys, writable).Tag()]];
      trees := trees[h := trees[h].(leaves := trees[h].leaves[p := Leaf(phys, writable)])];
      ok := true;
    }

    lemma NotTaken(trees0: Trees, trees1: Trees, h: nat, s: nat, x: nat, used: set<nat>)
      requires pool.Valid() && h in trees0 && h in trees1 && trees1 == trees0[h := trees0[h].(pts := trees1[h].pts)]
      requires TableAdded(trees0[h].pts, trees1[h].pts, s, used, pool.Used()) && Loose(trees0, others, used, x)
      ensures Loose(trees1, others, pool.Used(), x)
    {
      hide FramePool.Used;
      if trees1[h].pts != trees0[h].pts {
        AddOwns(trees0[h], s, trees1[h].pts[s]);
      }
    }

    lemma LeafSet(h: nat, p: nat, l: Leaf)
      requires Valid() && h in trees && UserPage(p) && p / SLOTS in trees[h].pts && IsLoose(l.frame)
      ensures var t := trees[h];
              var t', a := t.(leaves := t.leaves[p := l]), t.pts[p / SLOTS];
              a in tables && |tables[a]| == SLOTS
              && AllSpelled(tables[a := tables[a][p % SLOTS := l.Tag()]], boot, trees[h := t'])
              && Ownership(trees[h := t'], others, pool.Used())
    {
      hide Spells, Neat, Owns, FramePool.Used;
      var t := trees[h];
      var t', a := t.(leaves := t.leaves[p := l]), t.pts[p / SLOTS];
      SetLeaf(tables, boot, t, p, l);
      OwnershipSwap(trees, others, pool.Used(), pool.Used(), h, t');
      TablesOf(t);
      SpelledSwap(tables, tables[a := tables[a][p % SLOTS := l.Tag()]], boot, trees, others, pool.Used(), h, t');
    }

    /** lookup_pte: the page table and index of a user page, if its slot has a table. */
    method LookupPte(h: nat, p: nat) returns (found: bool, pt: nat)
      requires Valid() && h in trees && UserPage(p)
      ensures found == (p / SLOTS in trees[h].pts)
      ensures found ==> pt == trees[h].pts[p / SLOTS] && pt in tables && |tables[pt]| == SLOTS
                        && tables[pt][p % SLOTS] == LeafAt(trees[h].leaves, p / SLOTS, p % SLOTS)
    {
      hide AllSpelled, Ownership, FramePool.Used, Kernel;
      TopTables(h);
      var e4 := tables[h][p / 0x800_0000 % SLOTS];
      var e3 := tables[e4.addr][p / 0x4_0000 % SLOTS];
      var e2 := tables[e3.addr][p / SLOTS % SLOTS];
      assert e2 == Directory(boot, trees[h].pts, p / SLOTS);
      if !e2.present || e2.huge {
        return false, 0;
      }
      LeafThere(h, p / SLOTS);
      found, pt := true, e2.addr;
    }

    lemma LeafThere(h: nat, s: nat)
      requires Valid() && h in trees && s in trees[h].pts
      ensures trees[h].pts[s] in tables && HoldsSlot(tables[trees[h].pts[s]], trees[h].leaves, s)
    {
      TablesOf(trees[h]);
    }

    lemma LeafClear(h: nat, p: nat)
      requires Valid() && h in trees && p in trees[h].leaves
      ensures p / SLOTS in trees[h].pts && trees[h].leaves[p].frame in pool.Used()
      ensures var t := trees[h];
              var t', a := t.(leaves := t.leaves - {p}), t.pts[p / SLOTS];
              a in tables && |tables[a]| == SLOTS
              && AllSpelled(tables[a := tables[a][p % SLOTS := ABSENT]], boot, trees[h := t'])
              && Ownership(trees[h := t'], others, pool.Used() - {t.leaves[p].frame})
    {
      hide Spells, Neat, FramePool.Used, IsTable;
      var t := trees[h];
      LeavesOwned(t);
      assert Owns(t, t.leaves[p].frame);
      ClearLeaf(tables, boot, t, p);
      var t', a := t.(leaves := t.leaves - {p}), t.pts[p / SLOTS];
      OwnershipSwap(trees, others, pool.Used(), pool.Used() - {t.leaves[p].frame}, h, t');
      TablesOf(t);
      SpelledSwap(tables, tables[a := tables[a][p % SLOTS := ABSENT]], boot, trees, others, pool.Used(), h, t');
    }

    /** One page of paging_unmap_user_range. */
    method UnmapPage(h: nat, p: nat)
      requires Valid() && h in trees && UserPage(p)
      modifies `tables, `trees, pool.bitmap
      ensures Valid() && trees == old(trees)[h := old(trees)[h].(leaves := old(trees)[h].leaves - {p})]
      ensures pool.Used() == if p in old(trees)[h].leaves
                             then old(pool.Used()) - {old(trees)[h].leaves[p].frame}
                             else old(pool.Used())
    {
      hide AllSpelled, Ownership, FramePool.Used, Kernel;
      var found, pt := LookupPte(h, p);
      LeafSlot(h, p);
      assert p / SLOTS * SLOTS + p % SLOTS == p;
      if !found || !tables[pt][p % SLOTS].present {
        assert trees[h].leaves - {p} == trees[h].leaves;
        return;
      }
      LeafClear(h, p);
      pool.Give(tables[pt][p % SLOTS].addr);
      tables := tables[pt := tables[pt][p % SLOTS := ABSENT]];
      trees := trees[h := trees[h].(leaves := trees[h].leaves - {p})];
    }

    lemma LeafSlot(h: nat, p: nat)
      requires Valid() && h in trees
      ensures p in trees[h].leaves ==> p / SLOTS in trees[h].pts
    {
    }

    /** paging_unmap_user_range: exactly the mapped pages of the range go, and their frames with them. */
    method UnmapRange(h: nat, base: nat, n: nat)
      requires Valid() && h in trees && FIRST_PAGE <= base && base + n <= END_PAGE
      modifies `tables, `trees, pool.bitmap
      ensures Valid() && trees == old(trees)[h := old(trees)[h].(leaves := Cut(old(trees)[h].leaves, base, base + n))]
      ensures pool.Used() == old(pool.Used()) - FramesIn(old(trees)[h].leaves, base, base + n)
    {
      hide AllSpelled, Ownership, FramePool.Used, Kernel, Cut, FramesIn;
      ghost var leaves := trees[h].leaves;
      CutNothing(leaves, base);
      var va := base;
      while va < base + n
        invariant base <= va <= base + n && Valid()
        invariant trees == old(trees)[h := old(trees)[h].(leaves := Cut(leaves, base, va))]
        invariant pool.Used() == old(pool.Used()) - FramesIn(leaves, base, va)
      {
        CutStep(leaves, base, va);
        CutHas(leaves, base, va);
        UnmapPage(h, va);
        va := va + 1;
      }
    }

    /** Mapped pages [lo, hi) of a tree hold that many used frames. */
    lemma FramesHeld(h: nat, lo: nat, hi: nat)
      requires Valid() && h in trees && lo <= hi && forall p :: lo <= p < hi ==> p in trees[h].leaves
      ensures |FramesIn(trees[h].leaves, lo, hi)| == hi - lo && FramesIn(trees[h].leaves, lo, hi) <= pool.Used()
    {
      hide FramePool.Used, Kernel;
      FramesCount(trees[h].leaves, lo, hi);
      LeavesOwned(trees[h]);
      forall x | x in FramesIn(trees[h].leaves, lo, hi) ensures x in pool.Used() {
        assert Owns(trees[h], x);
      }
    }

    lemma CutHas(leaves: map<nat, Leaf>, lo: nat, p: nat)
      ensures p in Cut(leaves, lo, p) <==> p in leaves
      ensures p in leaves ==> Cut(leaves, lo, p)[p] == leaves[p]
      ensures p !in leaves ==> Cut(leaves, lo, p) - {p} == Cut(leaves, lo, p)
    {
    }

    ghost function Now(): Space
      reads this, pool, pool.bitmap
      requires pool.Valid()
    {
      Space(trees, pages, pool.Used())
    }

    /** One page of paging_map_user_range: a zeroed frame is mapped, or nothing is; which of the two, the number of free
        frames decides. */
    method MapOne(h: nat, va: nat, ghost base: nat, ghost a: Space) returns (ok: bool)
      requires Valid() && UserPage(va) && base <= va && Mapped(a, Now(), h, base, va) && va !in a.trees[h].leaves
      modifies `tables, `pages, `trees, pool.bitmap
      ensures Valid() && Mapped(a, Now(), h, base, if ok then va + 1 else va) && h in old(trees) && h in trees
      ensures ok <==> old(Room()) >= 1 + Missing(old(trees)[h].pts, va / SLOTS)
      ensures ok ==> Room() == old(Room()) - 1 - Missing(old(trees)[h].pts, va / SLOTS) && va / SLOTS in trees[h].pts
                     && old(trees)[h].pts.Keys <= trees[h].pts.Keys
      ensures !ok ==> trees == old(trees)
    {
      hide AllSpelled, Ownership, FramePool.Used, Kernel, Mapped, Owns, TableAdded, Paging.Room;
      assert h in trees by { MappedIn(a, Now(), h, base, va); }
      ghost var b := Now();
      RoomLeft();
      var frame := TakeFrame();
      RoomLeft();
      if frame == 0 {
        return false;
      }
      ghost var used1 := pool.Used();
      pages := pages[frame := Zeros(FRAME)];
      ok := MapPage(h, va, frame, true);
      if !ok {
        GiveFrame(frame);
        assert pool.Used() == b.used;
        MapTried(a, b, h, base, va, frame);
        return;
      }
      MoreTables(b.trees[h].pts, trees[h].pts, va / SLOTS, used1, pool.Used());
      MapStep(a, b, Now(), h, base, va, frame);
    }

    lemma MappedIn(a: Space, b: Space, h: nat, base: nat, va: nat)
      requires Mapped(a, b, h, base, va)
      ensures h in a.trees && h in b.trees
    {
    }

    /** paging_map_user_range on pages not mapped yet: all of them, zeroed and writable, or none. It succeeds
        exactly when there are frames for the pages and for the page tables they lack; a refusal costs at most page
        tables, and the first one of them exactly when it was missing and two frames were free. */
    method MapRange(h: nat, base: nat, n: nat) returns (ok: bool)
      requires Valid() && h in trees && FIRST_PAGE <= base && base + n <= END_PAGE
      requires Unmapped(trees[h].leaves, base, base + n)
      modifies `tables, `pages, `trees, pool.bitmap
      ensures Valid()
      ensures ok ==> Mapped(old(Now()), Now(), h, base, base + n)
      ensures !ok ==> Undone(old(Now()), Now(), h, base, base + n)
      ensures ok <==> old(Room()) >= Cost(old(trees)[h].pts, base, base + n)
      ensures ok ==> Room() == old(Room()) - Cost(old(trees)[h].pts, base, base + n) && h in trees
                     && forall q :: base <= q < base + n ==> q / SLOTS in trees[h].pts
      ensures !ok ==>
                h in trees && (base / SLOTS in trees[h].pts <==> base / SLOTS in old(trees)[h].pts || old(Room()) >= 2)
    {
      hide AllSpelled, Ownership, FramePool.Used, Kernel, Mapped, Undone, Cost, Paging.Room;
      ghost var a, pts, r := Now(), trees[h].pts, Room();
      ok := true;
      var va := base;
      MappedNone(a, h, base);
      CostNone(pts, base);
      RoomLeft();
      while va < base + n
        invariant base <= va <= base + n && Valid() && Mapped(a, Now(), h, base, va) && h in trees
        invariant Room() == r - Cost(pts, base, va) && Room() >= 0
        invariant (va == base ==> trees[h].pts == pts) && forall q :: base <= q < va ==> q / SLOTS in trees[h].pts
      {
        CostStep(pts, base, va);
        SlotSeen(a, Now(), h, base, va);
        CostMore(pts, base, va + 1, base + n);
        ok := MapOne(h, va, base, a);
        if !ok {
          FirstCost(pts, base, va);
          Unwind(h, base, va, base + n, a);
          return;
        }
        RoomLeft();
        va := va + 1;
      }
      ok := true;
    }

    /** The pages mapped so far are given back. */
    method Unwind(h: nat, base: nat, va: nat, ghost end: nat, ghost a: Space)
      requires Valid() && FIRST_PAGE <= base <= va < END_PAGE && va <= end && Mapped(a, Now(), h, base, va)
      requires h in a.trees && Unmapped(a.trees[h].leaves, base, va)
      modifies `tables, `trees, pool.bitmap
      ensures Valid() && Undone(a, Now(), h, base, end) && h in old(trees) && h in trees
      ensures trees[h].pts == old(trees)[h].pts
    {
      hide AllSpelled, Ownership, FramePool.Used, Kernel, Mapped, Undone, Owns, Cut;
      MappedIn(a, Now(), h, base, va);
      ghost var b := Now();
      LeavesNotTables(h, a.trees[h].pts, base, va);
      UnmapRange(h, base, va - base);
      MapUndo(a, b, Now(), h, base, va, end);
    }

    lemma LeavesNotTables(h: nat, pts: map<nat, nat>, lo: nat, hi: nat)
      requires Valid() && h in trees
      ensures FramesIn(trees[h].leaves, lo, hi) !! NewTables(pts, trees[h].pts)
    {
      hide FramePool.Used, Ownership;
      var t := trees[h];
      TablesOf(t);
      forall x | x in FramesIn(t.leaves, lo, hi) ensures x !in NewTables(pts, t.pts) {
        var p :| p in t.leaves && t.leaves[p].frame == x;
        assert !IsTable(t, x);
      }
    }

    /** destroy_page_table: the pages of one slot, then the table itself, go back to the pool. */
    method DestroyPageTable(pt: nat, ghost t: Tree, ghost s: nat)
      requires Valid() && Neat(t) && Orphan(trees, others, t) && s in t.pts && pt == t.pts[s]
      requires pt in tables && HoldsSlot(tables[pt], t.leaves, s)
      requires forall x :: Owns(t, x) && !GoneBelow(t, s, x) ==> x in pool.Used()
      modifies pool.bitmap
      ensures Valid() && pool.Used() == old(pool.Used()) - FramesIn(t.leaves, s * SLOTS, s * SLOTS + SLOTS) - {pt}
    {
      hide AllSpelled, Ownership, FramePool.Used, Kernel, Neat, GoneBelow, FramesIn, Owns;
      var i := 0;
      CutNothing(t.leaves, s * SLOTS);
      TableApart(t, s);
      while i < SLOTS
        invariant 0 <= i <= SLOTS && Valid()
        invariant pool.Used() == old(pool.Used()) - FramesIn(t.leaves, s * SLOTS, s * SLOTS + i)
      {
        CutStep(t.leaves, s * SLOTS, s * SLOTS + i);
        assert tables[pt][i] == LeafAt(t.leaves, s, i);
        if tables[pt][i].present {
          LeafApart(t, s, s * SLOTS + i);
          GiveFrame(tables[pt][i].addr);
        }
        i := i + 1;
      }
      GiveFrame(pt);
    }

    lemma Disown(h: nat)
      requires Valid() && h in trees
      ensures AllSpelled(tables, boot, trees - {h}) && Ownership(trees - {h}, others, pool.Used())
      ensures Orphan(trees - {h}, others, trees[h])
      ensures Neat(trees[h]) && Spells(tables, boot, trees[h]) && trees[h].pml4 == h
      ensures forall x :: Owns(trees[h], x) ==> x in pool.Used()
    {
      hide Spells, Neat, FramePool.Used, Owns;
    }

    /** What is left of tree `t` while the slots below `s` are gone. */
    ghost predicate Halfway(t: Tree, used0: set<nat>, s: nat)
      reads this, pool, pool.bitmap
      requires pool.Valid() && Kernel(boot)
    {
      && Neat(t) && Orphan(trees, others, t)
      && (forall x :: Owns(t, x) ==> x in used0)
      && (forall x :: x in pool.Used() <==> x in used0 && !GoneBelow(t, s, x))
      && t.pd in tables && |tables[t.pd]| == SLOTS
      && (forall j: nat :: s <= j < SLOTS ==> tables[t.pd][j] == Directory(boot, t.pts, j))
      && (forall r :: r in t.pts ==> t.pts[r] in tables && HoldsSlot(tables[t.pts[r]], t.leaves, r))
    }

    lemma StartHalfway(h: nat, t: Tree)
      requires Valid() && Neat(t) && Spells(tables, boot, t) && Orphan(trees, others, t)
      requires forall x :: Owns(t, x) ==> x in pool.Used()
      ensures Halfway(t, pool.Used(), 2)
    {
      hide FramePool.Used, Owns, GoneBelow, Orphan, Kernel;
      TablesOf(t);
      forall x ensures !GoneBelow(t, 2, x) {
        GoneAll(t, x);
      }
    }

    /** One user slot of the teardown; an absent slot is passed over. */
    method DestroySlot(s: nat, ghost t: Tree, ghost used0: set<nat>, pd: nat)
      requires Valid() && Halfway(t, used0, s) && UserSlot(s) && pd == t.pd
      modifies `tables, pool.bitmap
      ensures Valid() && Halfway(t, used0, s + 1)
      ensures tables.Keys == old(tables).Keys && forall a :: a in tables && a != pd ==> tables[a] == old(tables)[a]
    {
      hide AllSpelled, Ownership, FramePool.Used, Kernel, Neat, GoneBelow, Owns, Orphan, HoldsSlot, FramesIn;
      var entry := tables[pd][s];
      forall x ensures s !in t.pts ==> (GoneBelow(t, s + 1, x) <==> GoneBelow(t, s, x)) {
        GoneStep(t, s, x);
      }
      if !entry.present || entry.huge {
        return;
      }
      forall x
        ensures GoneBelow(t, s + 1, x) <==>
                  GoneBelow(t, s, x) || x == t.pts[s] || x in FramesIn(t.leaves, s * SLOTS, s * SLOTS + SLOTS)
      {
        GoneStep(t, s, x);
      }
      DestroyPageTable(entry.addr, t, s);
      PdLeft(t, used0, s);
      FreeToWrite(pd, tables[pd][s := ABSENT]);
      tables := tables[pd := tables[pd][s := ABSENT]];
      PtsApart(t);
    }

    lemma PdLeft(t: Tree, used0: set<nat>, s: nat)
      requires Valid() && Neat(t) && Orphan(trees, others, t) && (forall x :: Owns(t, x) ==> x in used0)
      requires s in t.pts
      requires forall x :: x in pool.Used() <==>
                 && x in used0 && !GoneBelow(t, s, x) && x != t.pts[s]
                 && x !in FramesIn(t.leaves, s * SLOTS, s * SLOTS + SLOTS)
      ensures IsLoose(t.pd)
    {
      hide FramePool.Used, AllSpelled, Ownership, Kernel;
      assert Owns(t, t.pd);
      forall p | p in t.leaves ensures t.leaves[p].frame != t.pd {}
    }

    /** paging_destroy_address_space: exactly the tree's own frames are marked free. */
    method DestroyAddressSpace(h: nat)
      requires Valid() && h in trees
      modifies `tables, `trees, pool.bitmap
      ensures Valid() && trees == old(trees) - {h}
      ensures forall x :: x in pool.Used() <==> x in old(pool.Used()) && !Owns(old(trees)[h], x)
    {
      hide AllSpelled, Ownership, FramePool.Used, Kernel, Neat, Owns, Orphan, Spells;
      ghost var t, used0 := trees[h], pool.Used();
      TopTables(h);
      Disown(h);
      trees := trees - {h};
      var pdpt := tables[h][0].addr;
      var pd := tables[pdpt][0].addr;
      StartHalfway(h, t);
      hide Paging.Halfway;
      var s := 2;
      while s < 5
        invariant 2 <= s <= 5 && Valid() && Halfway(t, used0, s) && trees == old(trees) - {h}
      {
        DestroySlot(s, t, used0, pd);
        s := s + 1;
      }
      SpineLoose(t, used0);
      GiveFrame(pd);
      GiveFrame(pdpt);
      GiveFrame(h);
    }

    lemma SpineLoose(t: Tree, used0: set<nat>)
      requires Valid() && Halfway(t, used0, 5)
      ensures IsLoose(t.pml4) && IsLoose(t.pdpt) && IsLoose(t.pd) && t.pml4 != t.pdpt && t.pml4 != t.pd
      ensures t.pdpt != t.pd
      ensures forall x :: x in pool.Used() - {t.pd} - {t.pdpt} - {t.pml4} <==> x in used0 && !Owns(t, x)
    {
      hide FramePool.Used, AllSpelled, Ownership, Kernel, HoldsSlot;
      forall x ensures Owns(t, x) <==> GoneBelow(t, 5, x) || x == t.pml4 || x == t.pdpt || x == t.pd {
        GoneAll(t, x);
      }
      SpineNotGone(t);
    }

    lemma SpineNotGone(t: Tree)
      requires Neat(t)
      ensures !GoneBelow(t, 5, t.pml4) && !GoneBelow(t, 5, t.pdpt) && !GoneBelow(t, 5, t.pd)
    {
      forall p | p in t.leaves
        ensures t.leaves[p].frame != t.pml4 && t.leaves[p].frame != t.pdpt && t.leaves[p].frame != t.pd {}
    }

    /** What ring 3 reaches through one live tree it reaches through no other, and at no second page; it is
        a frame marked used, and none of the kernel's. */
    lemma Isolated(h: nat, p: nat, g: nat, q: nat)
      requires Valid() && h in trees && g in trees && p < PAGES && q < PAGES
      requires Walk(tables, h, p).Access? && Walk(tables, g, q).Access?
      ensures Walk(tables, h, p).frame == Walk(tables, g, q).frame <==> (h == g && p == q)
      ensures Walk(tables, h, p).frame in pool.Used() && Walk(tables, h, p).frame !in others
    {
      hide FramePool.Used, Walk, Spells, Kernel;
      WalkIsTree(tables, boot, trees[h], p);
      WalkIsTree(tables, boot, trees[g], q);
      LeavesOwned(trees[h]);
      LeavesOwned(trees[g]);
      assert Owns(trees[h], trees[h].leaves[p].frame) && Owns(trees[g], trees[g].leaves[q].frame);
    }

    /** Whatever its program has mapped, the kernel is where it was through every live tree. */
    lemma KernelKept(h: nat)
      requires Valid() && h in trees
      ensures |boot| == SLOTS
      ensures forall page: nat :: page < 0x4_0000 && !(1024 <= page < 2560) ==>
                Supervise(tables, h, page) ==
                if boot[page / 512].present then Seen(boot[page / 512].addr + page % 512 * 4096) else Unseen
    {
      hide FramePool.Used, Supervise, Spells, Neat, Ownership;
      forall page: nat | page < 0x4_0000 && !(1024 <= page < 2560)
        ensures Supervise(tables, h, page) ==
                if boot[page / 512].present then Seen(boot[page / 512].addr + page % 512 * 4096) else Unseen
      {
        KernelHalf(tables, boot, trees[h], page);
      }
    }

    /** The kernel heap grows: its frames come out of the pool and are no tree's. */
    method TakeForKernel(count: nat) returns (addr: nat)
      requires Valid()
      modifies `others, pool.bitmap
      ensures Valid() && others >= old(others) && pool.Used() >= old(pool.Used())
      ensures addr == 0 ==> others == old(others)
      ensures addr != 0 ==> others - old(others) !! old(pool.Used())
    {
      hide AllSpelled, Kernel;
      ghost var bits, used := pool.Bits(), pool.Used();
      addr := pool.AllocContiguous(count);
      if addr != 0 {
        ghost var s: nat :| FreeRun(bits, s, count) && pool.Bits() == Marked(bits, s, count, true);
        RunTaken(bits, s, count);
        others := others + (UsedAddrs(pool.Bits()) - used);
      }
    }

    /** `live` lists the live trees. */
    ghost predicate Lists(live: seq<nat>)
      reads `trees
    {
      Distinct(live) && forall h :: h in live <==> h in trees
    }

    ghost function Picture(live: seq<nat>): Shot
      reads this, pool, pool.bitmap
      requires pool.Valid()
    {
      Shot(trees, pool.Used(), pool.num, live)
    }

    /** Any run of creations, mappings, unmappings, destructions and kernel growth, in any order and over any number
        of address spaces: each does what it has to, and every frame keeps one owner, so no frame is ever within reach
        of two programs. */
    method Run(ops: seq<Op>) returns (live: seq<nat>, ghost st: seq<Shot>)
      requires Valid() && trees == map[]
      modifies this, pool.bitmap
      ensures Valid() && Lists(live) && old(others) <= others
      ensures |st| == |ops| + 1 && st[0] == old(Picture([])) && st[|ops|] == Picture(live)
      ensures forall k :: 0 <= k < |ops| ==> Did(ops[k], st[k], st[k + 1])
      ensures forall h, p, g, q ::
                h in live && g in live && 0 <= p < PAGES && 0 <= q < PAGES
                && Walk(tables, h, p).Access? && Walk(tables, g, q).Access? ==>
                  && (Walk(tables, h, p).frame == Walk(tables, g, q).frame <==> h == g && p == q)
                  && Walk(tables, h, p).frame !in others && Walk(tables, h, p).frame in pool.Used()
      ensures |boot| == SLOTS
      ensures forall h, page: nat :: h in live && page < 0x4_0000 && !(1024 <= page < 2560) ==>
                Supervise(tables, h, page) ==
                if boot[page / 512].present then Seen(boot[page / 512].addr + page % 512 * 4096) else Unseen
    {
      hide Paging.Valid, Walk, Distinct, Did, FramePool.Used, Supervise;
      PoolOk();
      live, st := [], [Picture([])];
      NoneListed();
      for k := 0 to |ops|
        invariant Valid() && pool.Valid() && Lists(live) && old(others) <= others
        invariant |st| == k + 1 && st[0] == old(Picture([])) && st[k] == Picture(live)
        invariant forall i :: 0 <= i < k ==> Did(ops[i], st[i], st[i + 1])
      {
        live := Step(ops[k], live);
        PoolOk();
        st := st + [Picture(live)];
      }
      PoolOk();
      forall h, p, g, q |
        h in live && g in live && 0 <= p < PAGES && 0 <= q < PAGES
        && Walk(tables, h, p).Access? && Walk(tables, g, q).Access?
        ensures && (Walk(tables, h, p).frame == Walk(tables, g, q).frame <==> h == g && p == q)
                && Walk(tables, h, p).frame !in others && Walk(tables, h, p).frame in pool.Used()
      {
        Isolated(h, p, g, q);
      }
      BootSize();
      forall h, page: nat | h in live && page < 0x4_0000 && !(1024 <= page < 2560)
        ensures Supervise(tables, h, page) ==
                if boot[page / 512].present then Seen(boot[page / 512].addr + page % 512 * 4096) else Unseen
      {
        KernelKept(h);
      }
    }

    lemma BootSize()
      requires Valid()
      ensures |boot| == SLOTS
    {
    }

    lemma NoneListed()
      requires trees == map[]
      ensures Lists([])
    {
    }

    method Step(op: Op, live: seq<nat>) returns (live': seq<nat>)
      requires Valid() && pool.Valid() && Lists(live)
      modifies this, pool.bitmap
      ensures Valid() && pool.Valid() && Lists(live') && old(others) <= others
      ensures Did(op, old(Picture(live)), Picture(live'))
    {
      hide AllSpelled, Ownership, FramePool.Used, Kernel, Cut, FramesIn, Owns, TableAdded;
      live' := live;
      match op
      case Create(handle) =>
        live' := StepCreate(handle, live);
      case Map(k, p, writable) =>
        if k < |live| && UserPage(p) {
          StepMap(live[k], p, writable, live);
        }
      case Unmap(k, base, n) =>
        if k < |live| && FIRST_PAGE <= base && base + n <= END_PAGE {
          UnmapRange(live[k], base, n);
        }
      case Destroy(k) =>
        if k < |live| {
          DestroyAddressSpace(live[k]);
          live' := live[..k] + live[k + 1..];
          Dropped(live, k, old(trees).Keys);
        }
      case GrowKernel(n) =>
        var addr := TakeForKernel(n);
    }

    method StepCreate(handle: bool, live: seq<nat>) returns (live': seq<nat>)
      requires Valid() && pool.Valid() && Lists(live)
      modifies `tables, `trees, pool.bitmap
      ensures Valid() && Lists(live') && Did(Create(handle), old(Picture(live)), Picture(live'))
    {
      hide AllSpelled, Ownership, FramePool.Used, Kernel, Supervise;
      live' := live;
      var h, t := CreateAddressSpace(handle);
      if h != 0 {
        live' := live + [h];
        assert Born(old(Picture(live)), Picture(live'), t);
      }
    }

    method StepMap(h: nat, p: nat, writable: bool, ghost live: seq<nat>)
      requires Valid() && pool.Valid() && h in trees && UserPage(p)
      modifies `tables, `trees, pool.bitmap
      ensures Valid() && trees.Keys == old(trees).Keys
      ensures if old(Room()) > Missing(old(trees)[h].pts, p / SLOTS)
              then exists frame: nat :: PageIn(old(Picture(live)), Picture(live), h, p, frame, writable)
              else Picture(live) == old(Picture(live))
    {
      hide AllSpelled, Ownership, FramePool.Used, Kernel, Owns, TableAdded, Loose;
      RoomLeft();
      var frame := TakeFrame();
      if frame != 0 {
        var ok := MapPage(h, p, frame, writable);
        if ok {
          assert PageIn(old(Picture(live)), Picture(live), h, p, frame, writable);
        } else {
          GiveFrame(frame);
        }
      }
    }
  }

  /** From boot, with the kernel's 4-10M taken out of the pool first: whatever runs, the frames a program reaches
      are its own and lie above the addresses its own page tables hide from the kernel. */
  method Booted(n: nat, boot: seq<Entry>, ops: seq<Op>) returns (paging: Paging, live: seq<nat>)
    requires Kernel(boot)
    ensures paging.Valid() && paging.Lists(live)
    ensures forall h, p :: h in live && 0 <= p < PAGES && Walk(paging.tables, h, p).Access? ==>
              Walk(paging.tables, h, p).frame >= Addr(RESERVED)
    ensures forall h, p, g, q ::
              h in live && g in live && 0 <= p < PAGES && 0 <= q < PAGES
              && Walk(paging.tables, h, p).Access? && Walk(paging.tables, g, q).Access? ==>
                (Walk(paging.tables, h, p).frame == Walk(paging.tables, g, q).frame <==> h == g && p == q)
  {
    hide Walk, Kernel, AllSpelled, Ownership;
    var pool := InitPool(n);
    ghost var low := pool.Used();
    paging := new Paging(pool, boot);
    ghost var st;
    live, st := paging.Run(ops);
    forall h, p | h in live && 0 <= p < PAGES && Walk(paging.tables, h, p).Access?
      ensures Walk(paging.tables, h, p).frame >= Addr(RESERVED)
    {
      var x := Walk(paging.tables, h, p).frame;
      var i: nat :| i < pool.num && x == Addr(i);
      assert i < RESERVED ==> x in low;
    }
  }

  lemma Dropped(live: seq<nat>, k: nat, keys: set<nat>)
    requires k < |live| && Distinct(live) && forall h :: h in live <==> h in keys
    ensures var live' := live[..k] + live[k + 1..];
            Distinct(live') && forall h :: h in live' <==> h in keys && h != live[k]
  {
    var live' := live[..k] + live[k + 1..];
    forall h ensures h in live' <==> h in live && h != live[k] {
      if h in live && h != live[k] {
        var i :| 0 <= i < |live| && live[i] == h;
        assert live'[if i < k then i else i - 1] == h;
      }
    }
  }

  lemma RunTaken(bits: seq<bool>, s: nat, n: nat)
    requires s + n <= |bits|
    ensures UsedAddrs(bits) <= UsedAddrs(Marked(bits, s, n, true))
  {
    forall x | x in UsedAddrs(bits) ensures x in UsedAddrs(Marked(bits, s, n, true)) {
      var i: nat :| i < |bits| && bits[i] && x == Addr(i);
      assert Marked(bits, s, n, true)[i];
    }
  }
}
