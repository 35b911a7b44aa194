/** The commit of fat32_write_file: staging a new chain in free space, publishing it with one directory
    entry, and releasing the old one. */
module Fat32Commit {
  import opened Bytes
  import opened Fat32Disk
  import opened Fat32Volume
  import opened Fat32Alloc
  import opened Fat32Layout

  // ---------------------------------------------------------------------------
  // The new entry
  // ---------------------------------------------------------------------------

  /** Step 5: name, archive attribute, start cluster split across its two halves, size. */
  function NewEntry(n: Name, start: nat, len: nat): (e: Dirent)
    requires start < 0x1_0000_0000 && len < 0x1_0000_0000
  {
    var named := Splice(Zeros(32), 0, n)[11 := 0x20];
    Put32(Put16(Put16(named, 20, start / 0x1_0000), 26, start % 0x1_0000), 28, len)
  }

  lemma NewEntryMeans(n: Name, start: nat, len: nat)
    requires start < 0x1_0000_0000 && len < 0x1_0000_0000
    ensures var e := NewEntry(n, start, len);
            e[..11] == n && First(e) == start && Size(e) == len && Usable(e) && !IsDirectory(e)
    ensures var e := NewEntry(n, start, len);
            && e[11] == 0x20 && LE16(e, 20) == start / 0x1_0000 && LE16(e, 26) == start % 0x1_0000 && LE32(e, 28) == len
            && (forall k :: 12 <= k < 20 ==> e[k] == 0) && (forall k :: 22 <= k < 26 ==> e[k] == 0)
  {
    var named: seq<Byte> := Splice(Zeros(32), 0, n)[11 := 0x20];
    var a := Put16(named, 20, start / 0x1_0000);
    var b := Put16(a, 26, start % 0x1_0000);
    var e := Put32(b, 28, len);
    assert LE16(b, 20) == LE16(a, 20) == LE16(e, 20);
    assert LE16(e, 26) == LE16(b, 26);
    assert e[..11] == named[..11] == n;
  }

  /** The chain an entry of name `n` owns once published: none if its first byte marks it deleted. */
  function Published(n: Name, ch: seq<nat>): seq<nat> {
    if n[0] == DIRENT_DELETED then [] else ch
  }

  function Start(ch: seq<nat>): nat { if ch == [] then 0 else ch[0] }

  /** `ch` holds `bytes` and nothing the layout owns. */
  ghost predicate Holds(g: Geometry, v: Vol, L: Layout, ch: seq<nat>, bytes: seq<Byte>)
    requires Shape(g, v)
  {
    && (if bytes == [] then ch == [] else IsChain(g, v.fat, ch) && Content(g, v, ch, |bytes|) == Some(bytes))
    && (forall c :: c in ch ==> !Owned(L, c))
  }

  /** An entry may be placed at `k` for `n` when no other live entry has that name. */
  ghost predicate Vacant(s: seq<Dirent>, k: nat, n: Name) {
    && k < |s|
    && (forall j :: 0 <= j < k ==> s[j][0] != DIRENT_FREE)
    && (forall j :: 0 <= j < |s| && j != k && Live(s[j]) ==> s[j][..11] != n)
  }

  lemma HeldStart(g: Geometry, v: Vol, L: Layout, ch: seq<nat>, bytes: seq<Byte>)
    requires Shape(g, v) && Holds(g, v, L, ch, bytes)
    ensures Start(ch) < 0x1_0000_0000 && (ch != [] ==> g.InRange(Start(ch)))
  {
  }

  lemma HeldApart(L: Layout, ch: seq<nat>, j: nat)
    requires (forall c :: c in ch ==> !Owned(L, c)) && j < |L.files|
    ensures Apart(ch, L.root) && Apart(ch, L.files[j]) && Apart(L.files[j], ch)
  {
  }

  lemma CanPublish(g: Geometry, v: Vol, L: Layout, k: nat, n: Name, ch: seq<nat>, bytes: seq<Byte>)
    requires Wf(g, v, L) && Holds(g, v, L, ch, bytes) && Vacant(Dir(g, v, L.root), k, n)
    requires n[0] != DIRENT_FREE && |bytes| < 0x1_0000_0000 && Start(ch) < 0x1_0000_0000
    ensures CanPlace(g, v, L, k, NewEntry(n, Start(ch), |bytes|), Published(n, ch))
  {
    var e := NewEntry(n, Start(ch), |bytes|);
    NewEntryMeans(n, Start(ch), |bytes|);
    assert e[0] == e[..11][0] == n[0];
    forall j: nat | j < |L.files|
      ensures Apart(Published(n, ch), L.root) && Apart(Published(n, ch), L.files[j])
      ensures Apart(L.files[j], Published(n, ch))
    {
      HeldApart(L, ch, j);
    }
  }

  /** What publishing changes: the name alone, from whatever it was to `bytes`. */
  lemma PublishReads(g: Geometry, v: Vol, L: Layout, k: nat, c: nat, i: nat, n: Name, ch: seq<nat>, bytes: seq<Byte>)
    requires Wf(g, v, L) && Holds(g, v, L, ch, bytes) && Vacant(Dir(g, v, L.root), k, n)
    requires n[0] != DIRENT_FREE && |bytes| < 0x1_0000_0000 && Start(ch) < 0x1_0000_0000
    requires Lies(g, L.root, k, c, i) && g.InRange(c) && i < Epc(g)
    requires Live(Dir(g, v, L.root)[k]) ==> Dir(g, v, L.root)[k][..11] == n
    ensures var v' := WithSlot(g, v, c, i, NewEntry(n, Start(ch), |bytes|));
            && Wf(g, v', Placed(L, k, Published(n, ch)))
            && SameReadsBut(g, v, v', n)
            && (n[0] != DIRENT_DELETED ==> ReadName(g, v', n) == Some(bytes))
            && (n[0] == DIRENT_DELETED ==> ReadName(g, v', n) == ReadName(g, v, n))
  {
    hide Wf, Dir, Lies, CanPlace, NewEntry, Holds, Vacant, Content, ReadName, WithSlot;
    var e, pch := NewEntry(n, Start(ch), |bytes|), Published(n, ch);
    WfRoot(g, v, L);
    NewEntryMeans(n, Start(ch), |bytes|);
    assert e[0] == e[..11][0] == n[0];
    CanPublish(g, v, L, k, n, ch, bytes);
    PlaceWf(g, v, L, k, c, i, e, pch);
    forall n': Name | n' != n || n[0] == DIRENT_DELETED
      ensures ReadName(g, WithSlot(g, v, c, i, e), n') == ReadName(g, v, n')
    {
      PlaceOther(g, v, L, k, c, i, e, pch, n');
    }
    if n[0] != DIRENT_DELETED {
      PlaceRead(g, v, L, k, c, i, e, ch);
      HeldView(g, v, L, ch, bytes, e);
    }
  }

  lemma HeldView(g: Geometry, v: Vol, L: Layout, ch: seq<nat>, bytes: seq<Byte>, e: Dirent)
    requires Shape(g, v) && Holds(g, v, L, ch, bytes) && !IsDirectory(e) && Size(e) == |bytes|
    ensures AllInRange(g, ch) && EntryView(g, v, e, ch) == Some(bytes)
  {
  }

  // ---------------------------------------------------------------------------
  // A slot for the entry
  // ---------------------------------------------------------------------------

  /** The layout after find_free_dirent grew the directory by the clusters of `gr` (none or one). */
  ghost function Extended(g: Geometry, L: Layout, gr: seq<nat>): Layout {
    if gr == [] then L else Grown(g, L, gr[0])
  }

  /** `v` is `v0` with the directory grown by `gr`, all else untouched. */
  ghost predicate GrewBy(g: Geometry, v0: Vol, v: Vol, L: Layout, gr: seq<nat>)
    requires Shape(g, v0) && Shape(g, v) && Wf(g, v0, L)
  {
    && |gr| <= 1
    && (gr == [] ==> v == v0)
    && (gr != [] ==> gr[0] in FreeSet(g, v0.fat) && v.fat[gr[0]] >= CLUSTER_END && v.fat[L.root[|L.root| - 1]] == gr[0])
    && (forall x: nat :: x < |v.fat| && x !in gr ==>
          v.data[x] == v0.data[x] && (x != L.root[|L.root| - 1] ==> v.fat[x] == v0.fat[x]))
  }

  /** The slot find_free_dirent answers with: the first one a new entry may take. */
  ghost predicate FirstFree(s: seq<Dirent>, k: nat) {
    k < |s| && FreeSlot(s[k]) && forall j :: 0 <= j < k ==> !FreeSlot(s[j])
  }

  /** The first free slot of a directory without the name is vacant for it. */
  lemma FreshVacant(s: seq<Dirent>, k: nat, n: Name)
    requires FirstFree(s, k) && EndsOnce(s) && IsMiss(s, n)
    ensures Vacant(s, k, n) && !Live(s[k])
  {
    var z: nat :| z <= |s| && (z < |s| ==> s[z][0] == DIRENT_FREE) && AllPass(s, n, z);
    forall j | 0 <= j < |s| && j != k && Live(s[j]) ensures s[j][..11] != n {
      if j < z { assert Passes(s[j], n); }
    }
  }

  /** The slot of the entry being replaced is vacant for its own name. */
  lemma FoundVacant(s: seq<Dirent>, k: nat, n: Name)
    requires IsHit(s, n, k) && NamesUnique(s)
    ensures Vacant(s, k, n) && Live(s[k]) && s[k][..11] == n && n[0] != DIRENT_DELETED
  {
    assert s[k][0] == s[k][..11][0] == n[0];
  }

  // ---------------------------------------------------------------------------
  // Space
  // ---------------------------------------------------------------------------

  /** Allocated clusters no root entry owns: subdirectory contents, and whatever was leaked. */
  ghost function Unowned(g: Geometry, v: Vol, L: Layout): (s: set<nat>)
    requires Shape(g, v)
  {
    set c | c in Clusters(g) && v.fat[c] != CLUSTER_FREE && !Owned(L, c)
  }

  /** `v` is `v0` after one write: `ch` and `gr` were claimed, `och` was released. */
  ghost predicate Rewrote(g: Geometry, v0: Vol, v: Vol, L: Layout, ch: seq<nat>, gr: seq<nat>, och: seq<nat>)
    requires Shape(g, v0) && Shape(g, v)
  {
    && Distinct(ch) && |gr| <= 1 && Elems(ch) <= FreeSet(g, v0.fat) && Elems(gr) <= FreeSet(g, v0.fat) - Elems(ch)
    && Distinct(och) && (forall c :: c in och ==> g.InRange(c) && v0.fat[c] != CLUSTER_FREE)
    && (forall c: nat :: g.InRange(c) ==>
          (v.fat[c] == CLUSTER_FREE <==> c in och || (v0.fat[c] == CLUSTER_FREE && c !in ch && c !in gr)))
  }

  lemma FreeAfterRewrite(g: Geometry, v0: Vol, v: Vol, L: Layout, ch: seq<nat>, gr: seq<nat>, och: seq<nat>)
    requires Shape(g, v0) && Shape(g, v) && Rewrote(g, v0, v, L, ch, gr, och)
    ensures |FreeSet(g, v.fat)| == |FreeSet(g, v0.fat)| + |och| - |ch| - |gr|
  {
    var F, A, B, C := FreeSet(g, v0.fat), Elems(ch), Elems(gr), Elems(och);
    assert FreeSet(g, v.fat) == (F - A - B) + C;
    assert F !! C && A <= F && B <= F - A;
    DistinctSize(ch);
    DistinctSize(gr);
    DistinctSize(och);
    CountRewrite(F, A, B, C);
  }

  lemma CountRewrite(F: set<nat>, A: set<nat>, B: set<nat>, C: set<nat>)
    requires F !! C && A <= F && B <= F - A
    ensures |(F - A - B) + C| == |F| + |C| - |A| - |B|
  {
    assert F == (F - A - B) + A + B;
  }

  lemma UnownedAfterRewrite(g: Geometry, v0: Vol, v: Vol, L: Layout, L': Layout, ch: seq<nat>, gr: seq<nat>,
                            och: seq<nat>)
    requires Shape(g, v0) && Shape(g, v) && Rewrote(g, v0, v, L, ch, gr, och)
    requires forall c: nat :: Owned(L', c) <==> c in ch || c in gr || (Owned(L, c) && c !in och)
    requires forall c: nat :: c in och ==> Owned(L, c)
    ensures Unowned(g, v, L') == Unowned(g, v0, L)
  {
    hide Owned;
    forall c | c in Clusters(g) ensures c in Unowned(g, v, L') <==> c in Unowned(g, v0, L) {
      if c in ch { assert c in Elems(ch); }
      if c in gr { assert c in Elems(gr); }
    }
  }

  // ---------------------------------------------------------------------------
  // What a reader sees at every moment of a write
  // ---------------------------------------------------------------------------

  /** Every name reads as in `v0`, except that `n` may already read as `bytes`. */
  ghost predicate OldOrNew(g: Geometry, v0: Vol, v: Vol, n: Name, bytes: seq<Byte>)
    requires Shape(g, v0) && Shape(g, v)
  {
    forall m: Name :: ReadName(g, v, m) == ReadName(g, v0, m) || (m == n && ReadName(g, v, m) == Some(bytes))
  }

  /** The write is done: `n` reads as `bytes` (unless its stored form is the deleted mark, which no
      search matches) and every other name as in `v0`. */
  ghost predicate NowReads(g: Geometry, v0: Vol, v: Vol, n: Name, bytes: seq<Byte>)
    requires Shape(g, v0) && Shape(g, v)
  {
    && SameReadsBut(g, v0, v, n)
    && ReadName(g, v, n) == if n[0] == DIRENT_DELETED then ReadName(g, v0, n) else Some(bytes)
  }

  lemma ReadsOldOrNew(g: Geometry, v0: Vol, v: Vol, w: Vol, n: Name, bytes: seq<Byte>)
    requires Shape(g, v0) && Shape(g, v) && Shape(g, w) && SameReads(g, v, w)
    requires SameReads(g, v0, v) || NowReads(g, v0, v, n, bytes)
    ensures OldOrNew(g, v0, w, n, bytes)
    ensures NowReads(g, v0, v, n, bytes) ==> NowReads(g, v0, w, n, bytes)
  {
  }

  lemma NothingReadsDeleted(g: Geometry, v: Vol, L: Layout, n: Name)
    requires Wf(g, v, L) && n[0] == DIRENT_DELETED
    ensures ReadName(g, v, n) == None
  {
    hide Wf;
    WfRoot(g, v, L);
    ReadNameMeans(g, v, L, n, 0);
    var s := Dir(g, v, L.root);
    forall h: nat ensures !IsHit(s, n, h) {
      assert h < |s| && s[h][..11] == n ==> s[h][0] == s[h][..11][0];
    }
  }

  /** The new contents are in place, in clusters that were free, and nothing else has changed. */
  ghost predicate Staged(g: Geometry, v0: Vol, v: Vol, L: Layout, ch: seq<nat>, bytes: seq<Byte>)
    requires Shape(g, v0) && Shape(g, v)
  {
    && Holds(g, v, L, ch, bytes)
    && Distinct(ch) && |ch| == Needed(g, |bytes|)
    && Elems(ch) <= FreeSet(g, v0.fat)
    && FreeSet(g, v.fat) == FreeSet(g, v0.fat) - Elems(ch)
    && (forall c: nat :: c < |v.fat| && c !in ch ==> SameOn(v0, v, c))
  }

  lemma ClaimedMeans(g: Geometry, v0: Vol, v: Vol, ch: seq<nat>)
    requires Shape(g, v0) && Shape(g, v) && Claimed(g, v0, v, ch)
    ensures IsChain(g, v.fat, ch) && Elems(ch) <= FreeSet(g, v0.fat)
  {
  }

  lemma StagedIntro(g: Geometry, v0: Vol, v1: Vol, v: Vol, L: Layout, ch: seq<nat>, bytes: seq<Byte>)
    requires Shape(g, v0) && Shape(g, v1) && Shape(g, v) && Claimed(g, v0, v1, ch) && |ch| == Needed(g, |bytes|)
    requires bytes != [] && (forall c :: c in FreeSet(g, v0.fat) ==> !Owned(L, c))
    requires v.fat == v1.fat && forall c: nat :: c < |v.data| && c !in ch ==> v.data[c] == v1.data[c]
    requires AllInRange(g, ch) && Content(g, v, ch, |bytes|) == Some(bytes)
    ensures Staged(g, v0, v, L, ch, bytes)
  {
    hide Owned, Content, Needed, FreeSet;
    FreeAfter(g, v0, v1, ch);
    forall c | c in ch ensures !Owned(L, c) {
      assert c in Elems(ch);
    }
  }

  lemma StagedNone(g: Geometry, v: Vol, L: Layout)
    requires Shape(g, v)
    ensures Staged(g, v, v, L, [], []) && Needed(g, 0) == 0
  {
    DivUnique(g.Bpc() - 1, g.Bpc(), 0, g.Bpc() - 1);
    assert Elems([]) == {};
  }

  // ---------------------------------------------------------------------------
  // Replacing an entry
  // ---------------------------------------------------------------------------

  /** Who owns what once entry `k` owns `ch` instead of what it owned. */
  lemma OwnedPlaced(L: Layout, k: nat, ch: seq<nat>, c: nat)
    requires k < |L.files| && Disjoint(L)
    ensures Owned(Placed(L, k, ch), c) <==> c in ch || (Owned(L, c) && c !in L.files[k])
  {
    var L' := Placed(L, k, ch);
    if Owned(L, c) && c !in L.files[k] && c !in L.root {
      var j :| 0 <= j < |L.files| && c in L.files[j];
      assert c in L'.files[j];
    }
    if c in ch {
      assert c in L'.files[k];
    }
    if Owned(L', c) && c !in ch && c !in L.root {
      var j :| 0 <= j < |L'.files| && c in L'.files[j];
      assert j != k && Apart(L.files[j], L.files[k]);
    }
    assert Apart(L.files[k], L.root);
  }

  /** The chain entry `k` owned, and that nothing owns it once `k` is placed over. */
  lemma OldChain(g: Geometry, v: Vol, L: Layout, k: nat, ch: seq<nat>)
    requires Wf(g, v, L) && k < |L.files| && forall c :: c in ch ==> !Owned(L, c)
    ensures var och := L.files[k];
            && k < |Dir(g, v, L.root)|
            && EntryOk(g, v, Dir(g, v, L.root)[k], och) && Distinct(och)
            && (forall x: nat :: x in och ==> Owned(L, x) && !Owned(Placed(L, k, ch), x) && x !in ch)
            && (forall x: nat :: Owned(Placed(L, k, ch), x) <==> x in ch || (Owned(L, x) && x !in och))
  {
    hide Owned;
    OwnedIntro(L, k);
    forall x: nat ensures Owned(Placed(L, k, ch), x) <==> x in ch || (Owned(L, x) && x !in L.files[k]) {
      OwnedPlaced(L, k, ch, x);
    }
  }

  /** Space after a replacement. */
  lemma RewroteOver(g: Geometry, v0: Vol, v1: Vol, v: Vol, L: Layout, k: nat, ch: seq<nat>, bytes: seq<Byte>)
    requires Wf(g, v0, L) && Shape(g, v1) && Shape(g, v) && Staged(g, v0, v1, L, ch, bytes) && k < |L.files|
    requires v.fat == Zeroed(v1.fat, Elems(L.files[k]))
    ensures Rewrote(g, v0, v, L, ch, [], L.files[k])
  {
    hide Owned, Wf, Holds;
    WfRoot(g, v0, L);
    OldChain(g, v0, L, k, []);
    forall c | c in L.files[k] ensures g.InRange(c) && v0.fat[c] != CLUSTER_FREE {
      OwnedNotFree(g, v0, L, c);
    }
    forall c: nat | g.InRange(c)
      ensures v.fat[c] == CLUSTER_FREE <==> c in L.files[k] || (v0.fat[c] == CLUSTER_FREE && c !in ch)
    {
      assert c in FreeSet(g, v1.fat) <==> c in FreeSet(g, v0.fat) && c !in ch;
    }
  }

  // ---------------------------------------------------------------------------
  // Adding an entry
  // ---------------------------------------------------------------------------

  lemma OwnedExtended(g: Geometry, L: Layout, gr: seq<nat>, c: nat)
    requires |gr| <= 1
    ensures Owned(Extended(g, L, gr), c) <==> c in gr || Owned(L, c)
  {
    var L' := Extended(g, L, gr);
    if c !in L'.root && Owned(L, c) {
      var j :| 0 <= j < |L.files| && c in L.files[j];
      assert c in L'.files[j];
    }
    if c !in L'.root && Owned(L', c) {
      var j :| 0 <= j < |L'.files| && c in L'.files[j];
      assert j < |L.files|;
    }
  }

  /** The staged chain is untouched by the directory growing. */
  lemma HoldsGrown(g: Geometry, v0: Vol, v1: Vol, v: Vol, L: Layout, ch: seq<nat>, bytes: seq<Byte>, gr: seq<nat>)
    requires Shape(g, v0) && Wf(g, v1, L) && Shape(g, v) && Staged(g, v0, v1, L, ch, bytes) && GrewBy(g, v1, v, L, gr)
    ensures Holds(g, v, Extended(g, L, gr), ch, bytes)
    ensures forall c :: c in gr ==> c !in ch
  {
    hide Wf, Owned, Extended;
    WfRoot(g, v1, L);
    var tail := L.root[|L.root| - 1];
    OwnedRoot(L, tail);
    forall c | c in ch
      ensures c !in gr && c != tail && !Owned(Extended(g, L, gr), c)
    {
      assert c in Elems(ch);
      OwnedExtended(g, L, gr, c);
    }
    if ch != [] {
      ChainFrame(g, v1.fat, v.fat, ch);
      ContentFrame(g, v1, v, ch, |bytes|);
    }
  }

  lemma OwnedRoot(L: Layout, c: nat)
    requires c in L.root
    ensures Owned(L, c)
  {
  }

  /** Space after an addition. */
  lemma RewroteNew(g: Geometry, v0: Vol, v1: Vol, v: Vol, L: Layout, ch: seq<nat>, bytes: seq<Byte>, gr: seq<nat>)
    requires Wf(g, v0, L) && Wf(g, v1, L) && Shape(g, v) && Staged(g, v0, v1, L, ch, bytes) && GrewBy(g, v1, v, L, gr)
    ensures Rewrote(g, v0, v, L, ch, gr, [])
  {
    hide Owned, Wf, Holds, FreeSet, Rewrote;
    WfRoot(g, v1, L);
    WfRoot(g, v0, L);
    var tail := L.root[|L.root| - 1];
    InChain(g, v1.fat, L.root, tail);
    InChain(g, v0.fat, L.root, tail);
    GrewFree(g, v1, v, tail, gr);
    RewroteFrom(g, v0, v1, v, L, ch, gr);
  }

  lemma RewroteFrom(g: Geometry, v0: Vol, v1: Vol, v: Vol, L: Layout, ch: seq<nat>, gr: seq<nat>)
    requires Shape(g, v0) && Shape(g, v1) && Shape(g, v) && Distinct(ch) && |gr| <= 1
    requires Elems(ch) <= FreeSet(g, v0.fat) && FreeSet(g, v1.fat) == FreeSet(g, v0.fat) - Elems(ch)
    requires gr != [] ==> gr[0] in FreeSet(g, v1.fat)
    requires forall c: nat :: g.InRange(c) ==> (v.fat[c] == CLUSTER_FREE <==> v1.fat[c] == CLUSTER_FREE && c !in gr)
    ensures Rewrote(g, v0, v, L, ch, gr, [])
  {
    assert Elems(gr) <= FreeSet(g, v1.fat);
    forall c: nat | g.InRange(c)
      ensures v.fat[c] == CLUSTER_FREE <==> (v0.fat[c] == CLUSTER_FREE && c !in ch && c !in gr)
    {
      assert c in FreeSet(g, v1.fat) <==> c in FreeSet(g, v0.fat) && c !in ch;
    }
  }

  lemma GrewFree(g: Geometry, v1: Vol, v: Vol, tail: nat, gr: seq<nat>)
    requires Shape(g, v1) && Shape(g, v) && g.InRange(tail) && v1.fat[tail] != CLUSTER_FREE && |gr| <= 1
    requires gr == [] ==> v == v1
    requires gr != [] ==> gr[0] in FreeSet(g, v1.fat) && v.fat[gr[0]] != CLUSTER_FREE && v.fat[tail] == gr[0]
    requires forall x: nat :: x < |v.fat| && x !in gr && x != tail ==> v.fat[x] == v1.fat[x]
    ensures forall c: nat :: g.InRange(c) ==> (v.fat[c] == CLUSTER_FREE <==> v1.fat[c] == CLUSTER_FREE && c !in gr)
  {
  }

  /** Who owns what once the first free slot, perhaps in a grown directory, owns `ch`. */
  lemma OwnedAdded(g: Geometry, v: Vol, L: Layout, gr: seq<nat>, k: nat, ch: seq<nat>, c: nat)
    requires |gr| <= 1 && Wf(g, v, Extended(g, L, gr)) && k < |Extended(g, L, gr).files|
    requires !Live(Dir(g, v, Extended(g, L, gr).root)[k])
    ensures Owned(Placed(Extended(g, L, gr), k, ch), c) <==> c in ch || c in gr || Owned(L, c)
  {
    var L1 := Extended(g, L, gr);
    assert EntryOk(g, v, Dir(g, v, L1.root)[k], L1.files[k]);
    OwnedPlaced(L1, k, ch, c);
    OwnedExtended(g, L, gr, c);
  }

  /** A name stored as the deleted mark is never found again: its clusters stay allocated, unowned. */
  lemma LeakAfterRewrite(g: Geometry, v0: Vol, v: Vol, L: Layout, L': Layout, ch: seq<nat>, gr: seq<nat>)
    requires Shape(g, v0) && Shape(g, v) && Rewrote(g, v0, v, L, ch, gr, [])
    requires forall c: nat :: Owned(L', c) <==> c in gr || Owned(L, c)
    requires forall c :: c in ch ==> !Owned(L, c)
    ensures Unowned(g, v0, L) <= Unowned(g, v, L') && |Unowned(g, v, L')| == |Unowned(g, v0, L)| + |ch|
  {
    hide Owned;
    forall c | c in Clusters(g) ensures c in Unowned(g, v, L') <==> c in Unowned(g, v0, L) || c in ch {
      if c in ch { assert c in Elems(ch) && c !in Elems(gr); }
      if c in gr { assert c in Elems(gr); }
    }
    assert Unowned(g, v, L') == Unowned(g, v0, L) + Elems(ch);
    assert Unowned(g, v0, L) !! Elems(ch);
    DistinctSize(ch);
  }

  /** The outcome of a successful write of `bytes` under `n`: `freed` clusters of the replaced file came
      back, the directory grew by `grown`. */
  ghost predicate Wrote(g: Geometry, v0: Vol, L: Layout, v: Vol, L': Layout, n: Name, bytes: seq<Byte>, freed: nat,
                        grown: nat)
    requires Shape(g, v0) && Shape(g, v)
  {
    && Wf(g, v, L') && NowReads(g, v0, v, n, bytes)
    && |FreeSet(g, v.fat)| == |FreeSet(g, v0.fat)| + freed - Needed(g, |bytes|) - grown
    && (n[0] != DIRENT_DELETED ==> Unowned(g, v, L') == Unowned(g, v0, L))
    && (n[0] == DIRENT_DELETED ==>
          && Unowned(g, v0, L) <= Unowned(g, v, L')
          && |Unowned(g, v, L')| == |Unowned(g, v0, L)| + Needed(g, |bytes|))
  }

  lemma WroteReadsBack(g: Geometry, v0: Vol, L: Layout, v: Vol, L': Layout, n: Name, bytes: seq<Byte>, freed: nat,
                       grown: nat)
    requires Shape(g, v0) && Shape(g, v) && Wrote(g, v0, L, v, L', n, bytes, freed, grown) && n[0] != DIRENT_DELETED
    ensures ReadName(g, v, n) == Some(bytes)
  {
    hide Wf, SameReadsBut, FreeSet, Unowned;
  }

  lemma WroteOver(g: Geometry, v0: Vol, v1: Vol, v: Vol, L: Layout, k: nat, n: Name, ch: seq<nat>, bytes: seq<Byte>)
    requires Wf(g, v0, L) && Shape(g, v1) && Shape(g, v) && Staged(g, v0, v1, L, ch, bytes) && k < |L.files|
    requires v.fat == Zeroed(v1.fat, Elems(L.files[k])) && n[0] != DIRENT_DELETED
    requires Wf(g, v, Placed(L, k, ch)) && NowReads(g, v0, v, n, bytes)
    ensures Wrote(g, v0, L, v, Placed(L, k, ch), n, bytes, |L.files[k]|, 0)
  {
    hide Wf, Owned, NowReads, Unowned, FreeSet, Rewrote, Holds, Needed;
    WfRoot(g, v0, L);
    RewroteOver(g, v0, v1, v, L, k, ch, bytes);
    FreeAfterRewrite(g, v0, v, L, ch, [], L.files[k]);
    StagedUnowned(g, v0, v1, L, ch, bytes);
    OldChain(g, v0, L, k, ch);
    UnownedAfterRewrite(g, v0, v, L, Placed(L, k, ch), ch, [], L.files[k]);
  }

  lemma StagedUnowned(g: Geometry, v0: Vol, v: Vol, L: Layout, ch: seq<nat>, bytes: seq<Byte>)
    requires Shape(g, v0) && Shape(g, v) && Staged(g, v0, v, L, ch, bytes)
    ensures forall c :: c in ch ==> !Owned(L, c)
  {
  }

  lemma WroteNew(g: Geometry, v0: Vol, v1: Vol, v2: Vol, v: Vol, L: Layout, gr: seq<nat>, k: nat, n: Name,
                 ch: seq<nat>, bytes: seq<Byte>)
    requires Wf(g, v0, L) && Wf(g, v1, L) && Shape(g, v) && Staged(g, v0, v1, L, ch, bytes)
    requires Shape(g, v2) && GrewBy(g, v1, v2, L, gr) && v.fat == v2.fat
    requires Wf(g, v2, Extended(g, L, gr)) && k < |Extended(g, L, gr).files|
    requires k < |Dir(g, v2, Extended(g, L, gr).root)| && !Live(Dir(g, v2, Extended(g, L, gr).root)[k])
    requires Wf(g, v, Placed(Extended(g, L, gr), k, Published(n, ch))) && NowReads(g, v0, v, n, bytes)
    ensures Wrote(g, v0, L, v, Placed(Extended(g, L, gr), k, Published(n, ch)), n, bytes, 0, |gr|)
  {
    hide Wf, Owned, NowReads, Unowned, FreeSet, Rewrote, Holds, Needed, Extended, Placed, Dir;
    WfRoot(g, v0, L);
    WfRoot(g, v1, L);
    RewroteNew(g, v0, v1, v2, L, ch, bytes, gr);
    RewroteSame(g, v0, v2, v, L, ch, gr, []);
    FreeAfterRewrite(g, v0, v, L, ch, gr, []);
    StagedUnowned(g, v0, v1, L, ch, bytes);
    var L' := Placed(Extended(g, L, gr), k, Published(n, ch));
    forall c: nat ensures Owned(L', c) <==> c in Published(n, ch) || c in gr || Owned(L, c) {
      OwnedAdded(g, v2, L, gr, k, Published(n, ch), c);
    }
    if n[0] == DIRENT_DELETED {
      LeakAfterRewrite(g, v0, v, L, L', ch, gr);
    } else {
      UnownedAfterRewrite(g, v0, v, L, L', ch, gr, []);
    }
  }

  lemma RewroteSame(g: Geometry, v0: Vol, v: Vol, v': Vol, L: Layout, ch: seq<nat>, gr: seq<nat>, och: seq<nat>)
    requires Shape(g, v0) && Shape(g, v) && Shape(g, v') && Rewrote(g, v0, v, L, ch, gr, och) && v'.fat == v.fat
    ensures Rewrote(g, v0, v', L, ch, gr, och)
  {
  }

  lemma StagedHolds(g: Geometry, v0: Vol, v: Vol, L: Layout, ch: seq<nat>, bytes: seq<Byte>)
    requires Shape(g, v0) && Shape(g, v) && Staged(g, v0, v, L, ch, bytes)
    ensures Holds(g, v, L, ch, bytes) && (forall c :: c in ch ==> !Owned(L, c))
  {
  }

  lemma WfUnique(g: Geometry, v: Vol, L: Layout)
    requires Wf(g, v, L)
    ensures NamesUnique(Dir(g, v, L.root)) && EndsOnce(Dir(g, v, L.root))
  {
  }

  lemma WithSlotFat(g: Geometry, v: Vol, c: nat, i: nat, e: Dirent)
    requires Shape(g, v) && g.InRange(c) && i < Epc(g)
    ensures WithSlot(g, v, c, i, e).fat == v.fat
  {
  }

  /** A live entry's chain, seen in any volume with the same table. */
  lemma OldIsChain(g: Geometry, v: Vol, v': Vol, e: Dirent, och: seq<nat>)
    requires Shape(g, v) && Shape(g, v') && v'.fat == v.fat && EntryOk(g, v, e, och) && Live(e) && First(e) != 0
    ensures IsChain(g, v'.fat, och) && och[0] == First(e)
  {
  }

  lemma OldIsNone(g: Geometry, v: Vol, v': Vol, e: Dirent, och: seq<nat>)
    requires Shape(g, v) && Shape(g, v') && v'.fat == v.fat && EntryOk(g, v, e, och) && First(e) == 0
    ensures och == [] && v'.fat == Zeroed(v.fat, Elems(och))
  {
    assert Elems([]) == {};
    assert v'.fat == Zeroed(v.fat, {});
  }

  // ---------------------------------------------------------------------------
  // Deleting an entry
  // ---------------------------------------------------------------------------

  function Deleted(e: Dirent): Dirent { e[0 := DIRENT_DELETED] }

  lemma CanDelete(g: Geometry, v: Vol, L: Layout, k: nat, n: Name)
    requires Wf(g, v, L) && IsHit(Dir(g, v, L.root), n, k)
    ensures CanPlace(g, v, L, k, Deleted(Dir(g, v, L.root)[k]), [])
  {
  }

  /** With its entry marked deleted, a name reads as nothing and the others as before. */
  lemma DeleteReads(g: Geometry, v: Vol, L: Layout, k: nat, c: nat, i: nat, n: Name)
    requires Wf(g, v, L) && IsHit(Dir(g, v, L.root), n, k) && Lies(g, L.root, k, c, i) && g.InRange(c) && i < Epc(g)
    ensures var v' := WithSlot(g, v, c, i, Deleted(Dir(g, v, L.root)[k]));
            Wf(g, v', Placed(L, k, [])) && SameReadsBut(g, v, v', n) && ReadName(g, v', n) == None
  {
    hide Wf, Lies, CanPlace, WithSlot, ReadName;
    WfRoot(g, v, L);
    WfUnique(g, v, L);
    var s := Dir(g, v, L.root);
    var e := Deleted(s[k]);
    CanDelete(g, v, L, k, n);
    PlaceWf(g, v, L, k, c, i, e, []);
    forall m: Name | m != n ensures ReadName(g, WithSlot(g, v, c, i, e), m) == ReadName(g, v, m) {
      PlaceOther(g, v, L, k, c, i, e, [], m);
    }
    var t := s[k := e];
    forall h: nat ensures !IsHit(t, n, h) {
    }
    ReadNameMeans(g, WithSlot(g, v, c, i, e), Placed(L, k, []), n, 0);
  }

  /** Two chains from one cluster are one chain. */
  lemma {:induction false} ChainUnique(g: Geometry, fat: seq<nat>, a: seq<nat>, b: seq<nat>)
    requires g.Valid() && |fat| == g.total + 2 && IsChain(g, fat, a) && IsChain(g, fat, b) && a[0] == b[0]
    ensures a == b
    decreases |a|
  {
    assert |a| > 1 ==> fat[a[0]] == a[1];
    assert |b| > 1 ==> fat[b[0]] == b[1];
    if |a| > 1 {
      ChainTail(g, fat, a);
      ChainTail(g, fat, b);
      ChainUnique(g, fat, a[1..], b[1..]);
      assert a == [a[0]] + a[1..] && b == [b[0]] + b[1..];
    }
  }

  /** A live entry whose start cluster is free belongs to no well-formed volume. */
  lemma DanglingEntry(g: Geometry, v: Vol, root: seq<nat>, k: nat, L: Layout)
    requires Shape(g, v) && IsChain(g, v.fat, root) && root[0] == g.root
    requires k < |Dir(g, v, root)| && Owns(Dir(g, v, root)[k])
    requires g.InRange(First(Dir(g, v, root)[k])) && v.fat[First(Dir(g, v, root)[k])] == CLUSTER_FREE
    ensures !Wf(g, v, L)
  {
    if Wf(g, v, L) {
      ChainUnique(g, v.fat, root, L.root);
      var ch := L.files[k];
      assert EntryOk(g, v, Dir(g, v, root)[k], ch);
      assert ch[0] in ch;
      InChain(g, v.fat, ch, ch[0]);
      assert false;
    }
  }

  /** What a completed delete leaves: the entry marked and its chain zeroed, in either order. */
  lemma DeleteDone(g: Geometry, v0: Vol, v: Vol, L: Layout, k: nat, c: nat, i: nat, n: Name)
    requires Wf(g, v0, L) && IsHit(Dir(g, v0, L.root), n, k) && Lies(g, L.root, k, c, i) && g.InRange(c) && i < Epc(g)
    requires k < |L.files| && Shape(g, v)
    requires v.data == WithSlot(g, v0, c, i, Deleted(Dir(g, v0, L.root)[k])).data
    requires v.fat == Zeroed(v0.fat, Elems(L.files[k]))
    ensures Wf(g, v, Placed(L, k, [])) && SameReadsBut(g, v0, v, n) && ReadName(g, v, n) == None
    ensures |FreeSet(g, v.fat)| == |FreeSet(g, v0.fat)| + |L.files[k]|
    ensures Unowned(g, v, Placed(L, k, [])) == Unowned(g, v0, L)
  {
    hide Wf, Lies, ReadName, Owned, Unowned, Dir, FreeSet, IsHit, Deleted, Rewrote;
    WfRoot(g, v0, L);
    var w, L' := WithSlot(g, v0, c, i, Deleted(Dir(g, v0, L.root)[k])), Placed(L, k, []);
    DeleteReads(g, v0, L, k, c, i, n);
    OldChain(g, v0, L, k, []);
    assert Keeps(g, w, v, L');
    KeepsReads(g, w, v, L');
    RewroteDelete(g, v0, v, L, k);
    FreeAfterRewrite(g, v0, v, L, [], [], L.files[k]);
    UnownedAfterRewrite(g, v0, v, L, L', [], [], L.files[k]);
  }

  lemma RewroteDelete(g: Geometry, v0: Vol, v: Vol, L: Layout, k: nat)
    requires Wf(g, v0, L) && Shape(g, v) && k < |L.files| && v.fat == Zeroed(v0.fat, Elems(L.files[k]))
    ensures Rewrote(g, v0, v, L, [], [], L.files[k])
  {
    hide Owned, Wf;
    WfRoot(g, v0, L);
    OldChain(g, v0, L, k, []);
    assert Elems([]) == {};
    forall c | c in L.files[k] ensures g.InRange(c) && v0.fat[c] != CLUSTER_FREE {
      OwnedNotFree(g, v0, L, c);
    }
  }

  /** The moment between freeing the chain and marking the entry: no layout fits the volume exactly when the entry
      owned clusters, because then it is live and dangles. */
  lemma DeleteGap(g: Geometry, v0: Vol, v: Vol, L: Layout, k: nat)
    requires Wf(g, v0, L) && k < |L.files| && Shape(g, v)
    requires v == v0.(fat := Zeroed(v0.fat, Elems(L.files[k])))
    ensures (forall L' :: !Wf(g, v, L')) <==> L.files[k] != []
  {
    hide Owned, Wf;
    WfRoot(g, v0, L);
    if L.files[k] == [] {
      assert v.fat == v0.fat;
      assert Wf(g, v, L);
      return;
    }
    OldChain(g, v0, L, k, []);
    var och := L.files[k];
    assert och[0] in och;
    forall x | x in L.root ensures x !in och {
      OwnedPlaced2(g, v0, L, k, x);
    }
    ChainFrame(g, v0.fat, v.fat, L.root);
    DirFrame(g, v0, v, L.root);
    forall L' ensures !Wf(g, v, L') {
      DanglingEntry(g, v, L.root, k, L');
    }
  }

  lemma OwnedPlaced2(g: Geometry, v: Vol, L: Layout, k: nat, x: nat)
    requires Wf(g, v, L) && k < |L.files| && x in L.root
    ensures x !in L.files[k]
  {
    assert Apart(L.files[k], L.root);
  }
}
