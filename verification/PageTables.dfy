/** kernel/paging.c: what a task's page-table tree is, and what the hardware's walk makes of it. */
module PageTables {
  import opened Frames

  const SLOTS := 512            // PD_ENTRIES, PT_ENTRIES

  /** A page-table entry: the frame it names and its flags. */
  datatype Entry = Entry(addr: nat, present: bool, writable: bool, user: bool, huge: bool)

  const ABSENT := Entry(0, false, false, false, false)

  /** An entry that names a lower table, open to ring 3. */
  function Ptr(a: nat): Entry { Entry(a, true, true, true, false) }

  type Tables = map<nat, seq<Entry>>

  function Blank(): (t: seq<Entry>)
    ensures |t| == SLOTS && forall i :: 0 <= i < SLOTS ==> t[i] == ABSENT
  {
    seq(SLOTS, i => ABSENT)
  }

  predicate UserSlot(i: int) { i == 2 || i == 3 || i == 4 }

  const FIRST_PAGE := 1024      // 0x400000 / 4096
  const END_PAGE := 2560        // 0xA00000 / 4096

  predicate UserPage(p: int) { FIRST_PAGE <= p < END_PAGE }

  /** The boot directory's kernel half: 2 MB pages ring 3 may not touch. */
  ghost predicate Kernel(boot: seq<Entry>) {
    |boot| == SLOTS
    && forall i :: 0 <= i < SLOTS && !UserSlot(i) ==> !boot[i].user && (boot[i].present ==> boot[i].huge)
  }

  datatype Leaf = Leaf(frame: nat, writable: bool) {
    function Tag(): Entry { Entry(frame, true, writable, true, false) }
  }

  /** One task's tree: its three upper tables, its page tables by directory slot, its pages by number. */
  datatype Tree = Tree(pml4: nat, pdpt: nat, pd: nat, pts: map<nat, nat>, leaves: map<nat, Leaf>)

  ghost predicate InPts(t: Tree, a: nat) { exists s :: s in t.pts && t.pts[s] == a }

  ghost predicate InLeaves(t: Tree, a: nat) { exists p :: p in t.leaves && t.leaves[p].frame == a }

  /** Frame `a` holds one of the tree's tables. */
  ghost predicate IsTable(t: Tree, a: nat) { a == t.pml4 || a == t.pdpt || a == t.pd || InPts(t, a) }

  /** Frame `a` belongs to the tree. */
  ghost predicate Owns(t: Tree, a: nat) { IsTable(t, a) || InLeaves(t, a) }

  /** Every frame of the tree serves one purpose. */
  ghost predicate Neat(t: Tree) {
    && t.pml4 != t.pdpt && t.pml4 != t.pd && t.pdpt != t.pd
    && (forall s :: s in t.pts ==> UserSlot(s) && t.pts[s] != t.pml4 && t.pts[s] != t.pdpt && t.pts[s] != t.pd)
    && (forall r, s :: r in t.pts && s in t.pts && r != s ==> t.pts[r] != t.pts[s])
    && (forall p :: p in t.leaves ==> UserPage(p) && p / SLOTS in t.pts && !IsTable(t, t.leaves[p].frame))
    && (forall p, q :: p in t.leaves && q in t.leaves && p != q ==> t.leaves[p].frame != t.leaves[q].frame)
  }

  /** The page table at `tab` holds the pages of directory slot `s`. */
  ghost predicate HoldsSlot(tab: seq<Entry>, leaves: map<nat, Leaf>, s: nat) {
    |tab| == SLOTS && forall j: nat :: j < SLOTS ==> tab[j] == LeafAt(leaves, s, j)
  }

  ghost function LeafAt(leaves: map<nat, Leaf>, s: nat, j: nat): Entry {
    var p := s * SLOTS + j;
    if p in leaves then leaves[p].Tag() else ABSENT
  }

  ghost function Directory(boot: seq<Entry>, pts: map<nat, nat>, i: nat): Entry
    requires Kernel(boot) && i < SLOTS
  {
    if UserSlot(i) then (if i in pts then Ptr(pts[i]) else ABSENT) else boot[i]
  }

  /** The tables in memory spell out the tree. */
  ghost predicate Spells(tables: Tables, boot: seq<Entry>, t: Tree)
    requires Kernel(boot)
  {
    && (forall a :: IsTable(t, a) ==> a in tables)
    && tables[t.pml4] == Blank()[0 := Ptr(t.pdpt)]
    && tables[t.pdpt] == Blank()[0 := Ptr(t.pd)]
    && |tables[t.pd]| == SLOTS && (forall i: nat :: i < SLOTS ==> tables[t.pd][i] == Directory(boot, t.pts, i))
    && (forall s :: s in t.pts ==> HoldsSlot(tables[t.pts[s]], t.leaves, s))
  }

  lemma SpellsFrame(tables: Tables, tables': Tables, boot: seq<Entry>, t: Tree)
    requires Kernel(boot) && Spells(tables, boot, t)
    requires forall a :: IsTable(t, a) ==> a in tables' && tables'[a] == tables[a]
    ensures Spells(tables', boot, t)
  {
    assert IsTable(t, t.pml4) && IsTable(t, t.pdpt) && IsTable(t, t.pd);
    forall s | s in t.pts ensures IsTable(t, t.pts[s]) {
      assert InPts(t, t.pts[s]);
    }
  }

  // ---------------------------------------------------------------------------
  // The hardware's walk
  // ---------------------------------------------------------------------------

  /** What ring 3 reaches at a virtual page. */
  datatype Access = NoAccess | Access(frame: nat, writable: bool)

  function Step(tables: Tables, a: nat, i: nat): Entry {
    if a in tables && i < |tables[a]| then tables[a][i] else ABSENT
  }

  /** The four-level walk from `pml4` for virtual page `page`, as ring 3 makes it: every level must be
      present and open to it, and a write needs every level writable. */
  function Walk(tables: Tables, pml4: nat, page: nat): Access {
    var e4 := Step(tables, pml4, page / 0x800_0000 % SLOTS);
    if !e4.present || !e4.user then NoAccess else
    var e3 := Step(tables, e4.addr, page / 0x4_0000 % SLOTS);
    if !e3.present || !e3.user || e3.huge then NoAccess else
    var e2 := Step(tables, e3.addr, page / SLOTS % SLOTS);
    if !e2.present || !e2.user then NoAccess else
    var w := e4.writable && e3.writable && e2.writable;
    if e2.huge then Access(e2.addr + page % SLOTS * FRAME, w) else
    var e1 := Step(tables, e2.addr, page % SLOTS);
    if !e1.present || !e1.user then NoAccess else Access(e1.addr, w && e1.writable)
  }

  const PAGES := 0x10_0000_0000   // pages in a 48-bit address space

  /** Through a task's tree ring 3 reaches exactly the task's pages, and no kernel memory. */
  lemma WalkIsTree(tables: Tables, boot: seq<Entry>, t: Tree, page: nat)
    requires Kernel(boot) && Spells(tables, boot, t) && Neat(t) && page < PAGES
    ensures Walk(tables, t.pml4, page) ==
            if page in t.leaves then Access(t.leaves[page].frame, t.leaves[page].writable) else NoAccess
  {
    var i4, i3, i2, i1 := page / 0x800_0000 % SLOTS, page / 0x4_0000 % SLOTS, page / SLOTS % SLOTS, page % SLOTS;
    assert IsTable(t, t.pml4) && IsTable(t, t.pdpt) && IsTable(t, t.pd);
    assert i4 == page / 0x800_0000;
    if i4 == 0 && i3 == 0 {
      assert page == i2 * SLOTS + i1;
      assert tables[t.pd][i2] == Directory(boot, t.pts, i2) && page / SLOTS == i2;
      if i2 in t.pts {
        assert InPts(t, t.pts[i2]) && IsTable(t, t.pts[i2]);
        assert HoldsSlot(tables[t.pts[i2]], t.leaves, i2);
        assert tables[t.pts[i2]][i1] == LeafAt(t.leaves, i2, i1);
      }
    } else {
      assert !UserPage(page);
    }
  }

  /** What the kernel reaches at a virtual page. */
  datatype Sight = Unseen | Seen(addr: nat)

  /** The same walk as ring 0 makes it: every level must be present, and nothing more. */
  function Supervise(tables: Tables, pml4: nat, page: nat): Sight {
    var e4 := Step(tables, pml4, page / 0x800_0000 % SLOTS);
    if !e4.present then Unseen else
    var e3 := Step(tables, e4.addr, page / 0x4_0000 % SLOTS);
    if !e3.present || e3.huge then Unseen else
    var e2 := Step(tables, e3.addr, page / SLOTS % SLOTS);
    if !e2.present then Unseen else
    if e2.huge then Seen(e2.addr + page % SLOTS * FRAME) else
    var e1 := Step(tables, e2.addr, page % SLOTS);
    if !e1.present then Unseen else Seen(e1.addr)
  }

  /** Through a task's tree the kernel reaches what the boot directory gives in the first gigabyte, but for the three
      slots that belong to programs; there it reaches the task's pages, and beyond the gigabyte nothing. */
  lemma KernelHalf(tables: Tables, boot: seq<Entry>, t: Tree, page: nat)
    requires Kernel(boot) && Spells(tables, boot, t) && Neat(t) && page < PAGES
    ensures page >= 0x4_0000 ==> Supervise(tables, t.pml4, page) == Unseen
    ensures 1024 <= page < 2560 ==>
              Supervise(tables, t.pml4, page) == if page in t.leaves then Seen(t.leaves[page].frame) else Unseen
    ensures page < 0x4_0000 && !(1024 <= page < 2560) ==>
              Supervise(tables, t.pml4, page) ==
              if boot[page / 512].present then Seen(boot[page / 512].addr + page % 512 * 4096) else Unseen
  {
    var i4, i3, i2, i1 := page / 0x800_0000 % SLOTS, page / 0x4_0000 % SLOTS, page / SLOTS % SLOTS, page % SLOTS;
    assert IsTable(t, t.pml4) && IsTable(t, t.pdpt) && IsTable(t, t.pd);
    assert i4 == page / 0x800_0000;
    if i4 == 0 && i3 == 0 {
      assert page == i2 * SLOTS + i1 && page / SLOTS == i2;
      assert tables[t.pd][i2] == Directory(boot, t.pts, i2);
      if i2 in t.pts {
        assert InPts(t, t.pts[i2]) && IsTable(t, t.pts[i2]);
        assert HoldsSlot(tables[t.pts[i2]], t.leaves, i2);
        assert tables[t.pts[i2]][i1] == LeafAt(t.leaves, i2, i1);
      }
    }
  }

  // ---------------------------------------------------------------------------
  // Changing a tree
  // ---------------------------------------------------------------------------

  /** A blank page table at frame `a` goes under directory slot `s`. */
  lemma AddTable(tables: Tables, boot: seq<Entry>, t: Tree, s: nat, a: nat)
    requires Kernel(boot) && Spells(tables, boot, t) && Neat(t) && UserSlot(s) && s !in t.pts && !Owns(t, a)
    ensures t.pd in tables && |tables[t.pd]| == SLOTS
    ensures var t' := t.(pts := t.pts[s := a]);
            Spells(tables[a := Blank()][t.pd := tables[t.pd][s := Ptr(a)]], boot, t') && Neat(t')
            && forall x :: Owns(t', x) <==> Owns(t, x) || x == a
  {
    hide HoldsSlot, Neat, InPts, InLeaves;
    assert IsTable(t, t.pml4) && IsTable(t, t.pdpt) && IsTable(t, t.pd);
    var t' := t.(pts := t.pts[s := a]);
    var tables' := tables[a := Blank()][t.pd := tables[t.pd][s := Ptr(a)]];
    AddOwns(t, s, a);
    AddNeat(t, s, a);
    BlankSlot(t, s);
    PtsApart(t);
  }

  lemma PtsApart(t: Tree)
    requires Neat(t)
    ensures t.pml4 != t.pdpt && t.pml4 != t.pd && t.pdpt != t.pd
    ensures forall s :: s in t.pts ==>
              IsTable(t, t.pts[s]) && t.pts[s] != t.pml4 && t.pts[s] != t.pdpt && t.pts[s] != t.pd
  {
    forall s | s in t.pts ensures IsTable(t, t.pts[s]) {
      assert InPts(t, t.pts[s]);
    }
  }

  lemma AddNeat(t: Tree, s: nat, a: nat)
    requires Neat(t) && UserSlot(s) && s !in t.pts && !Owns(t, a)
    ensures Neat(t.(pts := t.pts[s := a]))
  {
    hide IsTable, InLeaves;
    assert IsTable(t, t.pml4) && IsTable(t, t.pdpt) && IsTable(t, t.pd) by { TablesOf(t); }
    TablesOf(t);
    AddOwns(t, s, a);
    LeavesOwned(t);
  }

  lemma TablesOf(t: Tree)
    ensures IsTable(t, t.pml4) && IsTable(t, t.pdpt) && IsTable(t, t.pd)
    ensures forall s :: s in t.pts ==> IsTable(t, t.pts[s])
  {
    forall s | s in t.pts ensures IsTable(t, t.pts[s]) {
      assert InPts(t, t.pts[s]);
    }
  }

  lemma LeavesOwned(t: Tree)
    ensures forall p :: p in t.leaves ==> InLeaves(t, t.leaves[p].frame)
  {
  }

  lemma BlankSlot(t: Tree, s: nat)
    requires Neat(t) && s !in t.pts
    ensures HoldsSlot(Blank(), t.leaves, s)
  {
    forall j: nat | j < SLOTS ensures LeafAt(t.leaves, s, j) == ABSENT {
      assert (s * SLOTS + j) / SLOTS == s;
    }
  }

  lemma AddOwns(t: Tree, s: nat, a: nat)
    requires s !in t.pts
    ensures var t' := t.(pts := t.pts[s := a]);
            (forall x :: IsTable(t', x) <==> IsTable(t, x) || x == a)
            && (forall x :: InLeaves(t', x) <==> InLeaves(t, x))
  {
    var t' := t.(pts := t.pts[s := a]);
    assert t'.pts[s] == a && InPts(t', a);
    forall x | InPts(t, x) ensures InPts(t', x) {
      var r :| r in t.pts && t.pts[r] == x;
      assert r in t'.pts && t'.pts[r] == x;
    }
    forall x | InLeaves(t, x) ensures InLeaves(t', x) {
      var p :| p in t.leaves && t.leaves[p].frame == x;
      assert p in t'.leaves;
    }
  }

  /** Page `p` is mapped to a frame the tree does not own yet; what it had there is the tree's no longer. */
  lemma SetLeaf(tables: Tables, boot: seq<Entry>, t: Tree, p: nat, l: Leaf)
    requires Kernel(boot) && Spells(tables, boot, t) && Neat(t) && UserPage(p) && p / SLOTS in t.pts
    requires !Owns(t, l.frame)
    ensures var a := t.pts[p / SLOTS];
            a in tables && |tables[a]| == SLOTS
    ensures var a, t' := t.pts[p / SLOTS], t.(leaves := t.leaves[p := l]);
            Spells(tables[a := tables[a][p % SLOTS := l.Tag()]], boot, t') && Neat(t')
            && (forall x :: Owns(t', x) ==> Owns(t, x) || x == l.frame)
            && (p !in t.leaves ==> forall x :: Owns(t, x) || x == l.frame ==> Owns(t', x))
  {
    hide HoldsSlot, Neat, IsTable, InLeaves, InPts;
    var s, a, t' := p / SLOTS, t.pts[p / SLOTS], t.(leaves := t.leaves[p := l]);
    TablesOf(t);
    PtsApart(t);
    assert |tables[a]| == SLOTS by { SlotLength(tables[a], t.leaves, s); }
    var tables' := tables[a := tables[a][p % SLOTS := l.Tag()]];
    SlotChange(tables[a], t.leaves, t.leaves[p := l], p, l.Tag());
    SamePts(t, t');
    PtsOnce(t, s);
    OtherSlots(tables, tables', t, t', p);
    SetOwns(t, p, l);
    SetNeat(t, p, l);
  }

  lemma SlotLength(tab: seq<Entry>, leaves: map<nat, Leaf>, s: nat)
    requires HoldsSlot(tab, leaves, s)
    ensures |tab| == SLOTS
  {
  }

  lemma PtsOnce(t: Tree, s: nat)
    requires Neat(t) && s in t.pts
    ensures forall r :: r in t.pts && r != s ==> t.pts[r] != t.pts[s]
  {
  }

  lemma SetOwns(t: Tree, p: nat, l: Leaf)
    ensures var t' := t.(leaves := t.leaves[p := l]);
            (forall x :: InLeaves(t', x) ==> InLeaves(t, x) || x == l.frame)
            && (p !in t.leaves ==> forall x :: InLeaves(t, x) || x == l.frame ==> InLeaves(t', x))
  {
    var t' := t.(leaves := t.leaves[p := l]);
    forall x | InLeaves(t', x) ensures InLeaves(t, x) || x == l.frame {
      var q :| q in t'.leaves && t'.leaves[q].frame == x;
      assert q != p ==> q in t.leaves;
    }
    assert t'.leaves[p].frame == l.frame && InLeaves(t', l.frame);
    forall x | InLeaves(t, x) && p !in t.leaves ensures InLeaves(t', x) {
      var q :| q in t.leaves && t.leaves[q].frame == x;
      assert q in t'.leaves && t'.leaves[q].frame == x;
    }
  }

  lemma SetNeat(t: Tree, p: nat, l: Leaf)
    requires Neat(t) && UserPage(p) && p / SLOTS in t.pts && !Owns(t, l.frame)
    ensures Neat(t.(leaves := t.leaves[p := l]))
  {
    hide IsTable, InLeaves;
    SamePts(t, t.(leaves := t.leaves[p := l]));
    LeavesOwned(t);
  }

  /** Page `p` is unmapped. */
  lemma ClearLeaf(tables: Tables, boot: seq<Entry>, t: Tree, p: nat)
    requires Kernel(boot) && Spells(tables, boot, t) && Neat(t) && p in t.leaves
    ensures p / SLOTS in t.pts
    ensures var a := t.pts[p / SLOTS];
            a in tables && |tables[a]| == SLOTS
    ensures var a, t' := t.pts[p / SLOTS], t.(leaves := t.leaves - {p});
            Spells(tables[a := tables[a][p % SLOTS := ABSENT]], boot, t') && Neat(t')
            && (forall x :: Owns(t', x) <==> Owns(t, x) && x != t.leaves[p].frame)
  {
    assert p / SLOTS in t.pts;
    hide HoldsSlot, IsTable, InLeaves, InPts, Neat;
    var s, a, t' := p / SLOTS, t.pts[p / SLOTS], t.(leaves := t.leaves - {p});
    TablesOf(t);
    PtsApart(t);
    assert |tables[a]| == SLOTS by { SlotLength(tables[a], t.leaves, s); }
    var tables' := tables[a := tables[a][p % SLOTS := ABSENT]];
    SlotChange(tables[a], t.leaves, t.leaves - {p}, p, ABSENT);
    SamePts(t, t');
    PtsOnce(t, s);
    OtherSlots(tables, tables', t, t', p);
    ClearOwns(t, p);
    ClearNeat(t, p);
    LeavesApart(t, p);
  }

  lemma LeavesApart(t: Tree, p: nat)
    requires Neat(t) && p in t.leaves
    ensures !IsTable(t, t.leaves[p].frame)
  {
  }

  lemma ClearNeat(t: Tree, p: nat)
    requires Neat(t)
    ensures Neat(t.(leaves := t.leaves - {p}))
  {
    hide IsTable;
    SamePts(t, t.(leaves := t.leaves - {p}));
  }

  lemma ClearOwns(t: Tree, p: nat)
    requires Neat(t) && p in t.leaves
    ensures var t' := t.(leaves := t.leaves - {p});
            forall x :: InLeaves(t', x) <==> InLeaves(t, x) && x != t.leaves[p].frame
  {
    var t' := t.(leaves := t.leaves - {p});
    forall x ensures InLeaves(t', x) <==> InLeaves(t, x) && x != t.leaves[p].frame {
      if InLeaves(t', x) {
        var q :| q in t'.leaves && t'.leaves[q].frame == x;
        assert q in t.leaves && q != p;
      }
      if InLeaves(t, x) && x != t.leaves[p].frame {
        var q :| q in t.leaves && t.leaves[q].frame == x;
        assert q in t'.leaves;
      }
    }
  }

  lemma SamePts(t: Tree, t': Tree)
    requires t'.pml4 == t.pml4 && t'.pdpt == t.pdpt && t'.pd == t.pd && t'.pts == t.pts
    ensures forall a :: IsTable(t', a) <==> IsTable(t, a)
  {
    assert forall a :: InPts(t', a) <==> InPts(t, a);
  }

  /** Changing page `p`'s entry matches changing its mapping. */
  lemma SlotChange(tab: seq<Entry>, leaves: map<nat, Leaf>, leaves': map<nat, Leaf>, p: nat, e: Entry)
    requires HoldsSlot(tab, leaves, p / SLOTS)
    requires forall q :: q != p ==> (q in leaves' <==> q in leaves) && (q in leaves ==> leaves'[q] == leaves[q])
    requires e == if p in leaves' then leaves'[p].Tag() else ABSENT
    ensures HoldsSlot(tab[p % SLOTS := e], leaves', p / SLOTS)
  {
    var s, tab' := p / SLOTS, tab[p % SLOTS := e];
    forall j: nat | j < SLOTS ensures tab'[j] == LeafAt(leaves', s, j) {
      assert tab[j] == LeafAt(leaves, s, j);
      assert j == p % SLOTS <==> s * SLOTS + j == p;
    }
  }

  /** The other slots' tables say the same before and after. */
  lemma OtherSlots(tables: Tables, tables': Tables, t: Tree, t': Tree, p: nat)
    requires Neat(t) && t'.pts == t.pts && p / SLOTS in t.pts
    requires forall s :: s in t.pts ==> t.pts[s] in tables && HoldsSlot(tables[t.pts[s]], t.leaves, s)
    requires forall q :: q != p ==>
              (q in t'.leaves <==> q in t.leaves) && (q in t.leaves ==> t'.leaves[q] == t.leaves[q])
    requires forall s :: s in t.pts && s != p / SLOTS ==> t.pts[s] in tables' && tables'[t.pts[s]] == tables[t.pts[s]]
    requires t.pts[p / SLOTS] in tables' && HoldsSlot(tables'[t.pts[p / SLOTS]], t'.leaves, p / SLOTS)
    ensures forall s :: s in t.pts ==> t.pts[s] in tables' && HoldsSlot(tables'[t.pts[s]], t'.leaves, s)
  {
    forall s | s in t.pts && s != p / SLOTS ensures HoldsSlot(tables[t.pts[s]], t'.leaves, s) {
      forall j: nat | j < SLOTS ensures LeafAt(t'.leaves, s, j) == LeafAt(t.leaves, s, j) {
        assert (s * SLOTS + j) / SLOTS == s;
      }
    }
  }
}
