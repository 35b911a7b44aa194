/** Well-formed volumes: which clusters every root entry owns, what each name then reads as, and what
    the three kinds of change a write makes (touching free space, publishing an entry, growing the
    directory) do to both. */
module Fat32Layout {
  import opened Bytes
  import opened Fat32Disk
  import opened Fat32Volume

  // ---------------------------------------------------------------------------
  // Contents along a chain
  // ---------------------------------------------------------------------------

  /** The first `rem` bytes held by the clusters of `ch`, if they hold that many. */
  ghost function Content(g: Geometry, v: Vol, ch: seq<nat>, rem: nat): (r: Option<seq<Byte>>)
    requires Shape(g, v) && AllInRange(g, ch)
    decreases |ch|
  {
    if rem == 0 then Some([])
    else if ch == [] then None
    else if rem <= g.Bpc() then Some(v.data[ch[0]][..rem])
    else match Content(g, v, ch[1..], rem - g.Bpc())
      case None => None
      case Some(rest) => Some(v.data[ch[0]] + rest)
  }

  /** The bounded, entry-following read delivers exactly what the chain holds. */
  lemma {:induction false} ReadFromMeans(g: Geometry, v: Vol, ch: seq<nat>, rem: nat, pos: nat)
    requires Shape(g, v) && IsChain(g, v.fat, ch) && pos + |ch| <= g.total + 1
    ensures ReadFrom(g, v, ch[0], rem, pos) == Content(g, v, ch, rem)
    decreases |ch|
  {
    if rem > g.Bpc() && |ch| > 1 {
      ChainTail(g, v.fat, ch);
      ReadFromMeans(g, v, ch[1..], rem - g.Bpc(), pos + 1);
    }
  }

  lemma {:induction false} ContentFrame(g: Geometry, v: Vol, v': Vol, ch: seq<nat>, rem: nat)
    requires Shape(g, v) && Shape(g, v') && AllInRange(g, ch)
    requires forall c :: c in ch && c < |v.data| ==> v'.data[c] == v.data[c]
    ensures Content(g, v', ch, rem) == Content(g, v, ch, rem)
    decreases |ch|
  {
    if ch != [] && rem > g.Bpc() {
      ContentFrame(g, v, v', ch[1..], rem - g.Bpc());
    }
  }

  lemma {:induction false} DirFrame(g: Geometry, v: Vol, v': Vol, ch: seq<nat>)
    requires Shape(g, v) && Shape(g, v') && AllInRange(g, ch)
    requires forall c :: c in ch && c < |v.data| ==> v'.data[c] == v.data[c]
    ensures Dir(g, v', ch) == Dir(g, v, ch)
  {
    if ch != [] {
      DirFrame(g, v, v', ch[1..]);
    }
  }

  /** All the bytes of the clusters of `ch`. */
  ghost function Cat(g: Geometry, v: Vol, ch: seq<nat>): seq<Byte>
    requires Shape(g, v) && AllInRange(g, ch)
  {
    if ch == [] then [] else v.data[ch[0]] + Cat(g, v, ch[1..])
  }

  lemma {:induction false} CatAppend(g: Geometry, v: Vol, ch: seq<nat>, c: nat)
    requires Shape(g, v) && AllInRange(g, ch) && g.InRange(c)
    ensures Cat(g, v, ch + [c]) == Cat(g, v, ch) + v.data[c]
  {
    if ch == [] {
      assert ([c])[1..] == [];
    } else {
      CatAppend(g, v, ch[1..], c);
      assert (ch + [c])[1..] == ch[1..] + [c];
      assert v.data[ch[0]] + (Cat(g, v, ch[1..]) + v.data[c]) == v.data[ch[0]] + Cat(g, v, ch[1..]) + v.data[c];
    }
  }

  lemma {:induction false} CatFrame(g: Geometry, v: Vol, v': Vol, ch: seq<nat>)
    requires Shape(g, v) && Shape(g, v') && AllInRange(g, ch)
    requires forall c :: c in ch && c < |v.data| ==> v'.data[c] == v.data[c]
    ensures Cat(g, v', ch) == Cat(g, v, ch)
  {
    if ch != [] {
      CatFrame(g, v, v', ch[1..]);
    }
  }

  /** Full clusters, then `r` bytes of one more. */
  lemma {:induction false} ContentCat(g: Geometry, v: Vol, a: seq<nat>, x: nat, r: nat)
    requires Shape(g, v) && AllInRange(g, a) && g.InRange(x) && 0 < r <= g.Bpc()
    ensures AllInRange(g, a + [x])
    ensures Content(g, v, a + [x], |Cat(g, v, a)| + r) == Some(Cat(g, v, a) + v.data[x][..r])
    decreases |a|
  {
    if a != [] {
      var b := a[1..];
      ContentCat(g, v, b, x, r);
      assert (a + [x])[1..] == b + [x];
      assert v.data[a[0]] + (Cat(g, v, b) + v.data[x][..r]) == v.data[a[0]] + Cat(g, v, b) + v.data[x][..r];
    } else {
      assert [] + v.data[x][..r] == v.data[x][..r];
    }
  }

  // ---------------------------------------------------------------------------
  // Well-formed volumes
  // ---------------------------------------------------------------------------

  /** The root directory's chain, and for each root entry the chain it owns ([] if it owns none). */
  datatype Layout = Layout(root: seq<nat>, files: seq<seq<nat>>)

  predicate Owns(e: Dirent) { Live(e) && First(e) != 0 }

  /** The chain of one entry: the one its start cluster names. */
  ghost predicate EntryOk(g: Geometry, v: Vol, e: Dirent, ch: seq<nat>)
    requires Shape(g, v)
  {
    if Owns(e) then IsChain(g, v.fat, ch) && ch[0] == First(e) else ch == []
  }

  ghost predicate Apart(a: seq<nat>, b: seq<nat>) {
    forall c :: c in a ==> c !in b
  }

  /** No cluster is owned twice. */
  ghost predicate Disjoint(L: Layout) {
    && (forall k :: 0 <= k < |L.files| ==> Apart(L.files[k], L.root))
    && (forall j, k :: 0 <= j < |L.files| && 0 <= k < |L.files| && j != k ==> Apart(L.files[j], L.files[k]))
  }

  /** After a never-used slot every later slot is never-used. */
  ghost predicate EndsOnce(s: seq<Dirent>) {
    forall j, k :: 0 <= j < k < |s| && s[j][0] == DIRENT_FREE ==> s[k][0] == DIRENT_FREE
  }

  ghost predicate NamesUnique(s: seq<Dirent>) {
    forall j, k :: 0 <= j < k < |s| && Live(s[j]) && Live(s[k]) ==> s[j][..11] != s[k][..11]
  }

  ghost predicate Wf(g: Geometry, v: Vol, L: Layout) {
    && Shape(g, v)
    && IsChain(g, v.fat, L.root) && L.root[0] == g.root
    && (var s := Dir(g, v, L.root);
        && |L.files| == |s|
        && (forall k :: 0 <= k < |s| ==> EntryOk(g, v, s[k], L.files[k]))
        && EndsOnce(s)
        && NamesUnique(s))
    && Disjoint(L)
  }

  ghost predicate Owned(L: Layout, c: nat) {
    c in L.root || exists k :: 0 <= k < |L.files| && c in L.files[k]
  }

  /** What one entry of a well-formed volume reads as. */
  ghost function EntryView(g: Geometry, v: Vol, e: Dirent, ch: seq<nat>): Option<seq<Byte>>
    requires Shape(g, v) && AllInRange(g, ch)
  {
    if IsDirectory(e) then None else Content(g, v, ch, Size(e))
  }

  lemma EntryBytesMeans(g: Geometry, v: Vol, e: Dirent, ch: seq<nat>)
    requires Shape(g, v) && EntryOk(g, v, e, ch) && Live(e)
    ensures EntryBytes(g, v, e) == EntryView(g, v, e, ch)
  {
    if Owns(e) {
      ChainFits(g, ch);
      ReadFromMeans(g, v, ch, Size(e), 0);
    }
  }

  lemma {:induction false} LiesSlot(g: Geometry, v: Vol, ch: seq<nat>, k: nat, c: nat, i: nat)
    requires Shape(g, v) && AllInRange(g, ch) && Lies(g, ch, k, c, i)
    ensures c in ch && g.InRange(c) && i < Epc(g)
    ensures k < |Dir(g, v, ch)| && Dir(g, v, ch)[k] == Slot(v.data[c], i)
    decreases |ch|
  {
    if k >= Epc(g) {
      LiesSlot(g, v, ch[1..], k - Epc(g), c, i);
    }
  }

  /** Every name of a well-formed volume reads as its first entry says, and as nothing if it has none. */
  lemma ReadNameMeans(g: Geometry, v: Vol, L: Layout, n: Name, k: nat)
    requires Wf(g, v, L)
    ensures IsHit(Dir(g, v, L.root), n, k) ==>
              k < |L.files| && ReadName(g, v, n) == EntryView(g, v, Dir(g, v, L.root)[k], L.files[k])
    ensures IsMiss(Dir(g, v, L.root), n) ==> ReadName(g, v, n) == None
    ensures !IsMiss(Dir(g, v, L.root), n) ==> exists h :: IsHit(Dir(g, v, L.root), n, h)
  {
    ChainFits(g, L.root);
    LocateMeans(g, v, L.root, 0, 0, n);
    var s := Dir(g, v, L.root);
    match Locate(g, v, g.root, 0, 0, n)
    case LocAbsent =>
      if IsHit(s, n, k) { HitOrMiss(s, n, k, k); }
    case LocFound(h, c, i) =>
      LiesSlot(g, v, L.root, h, c, i);
      HitOrMiss(s, n, h, k);
      EntryBytesMeans(g, v, s[h], L.files[h]);
  }

  // ---------------------------------------------------------------------------
  // Changes nobody can see
  // ---------------------------------------------------------------------------

  ghost predicate SameOn(v: Vol, v': Vol, c: nat)
    requires c < |v.fat| == |v'.fat| == |v.data| == |v'.data|
  {
    v'.fat[c] == v.fat[c] && v'.data[c] == v.data[c]
  }

  /** Every cluster the layout owns is as it was. */
  ghost predicate Keeps(g: Geometry, v: Vol, v': Vol, L: Layout)
    requires Shape(g, v) && Shape(g, v')
  {
    forall c: nat :: c < |v.fat| && Owned(L, c) ==> SameOn(v, v', c)
  }

  lemma OwnedIntro(L: Layout, k: nat)
    requires k < |L.files|
    ensures forall c :: c in L.files[k] ==> Owned(L, c)
    ensures forall c :: c in L.root ==> Owned(L, c)
  {
  }

  lemma KeepsEntry(g: Geometry, v: Vol, v': Vol, L: Layout, k: nat)
    requires Wf(g, v, L) && Shape(g, v') && Keeps(g, v, v', L) && k < |L.files|
    ensures EntryOk(g, v', Dir(g, v, L.root)[k], L.files[k])
    ensures EntryView(g, v', Dir(g, v, L.root)[k], L.files[k]) == EntryView(g, v, Dir(g, v, L.root)[k], L.files[k])
  {
    var e, ch := Dir(g, v, L.root)[k], L.files[k];
    OwnedIntro(L, k);
    if Owns(e) {
      ChainFrame(g, v.fat, v'.fat, ch);
    }
    ContentFrame(g, v, v', ch, Size(e));
  }

  lemma KeepsRoot(g: Geometry, v: Vol, v': Vol, L: Layout)
    requires Wf(g, v, L) && Shape(g, v') && Keeps(g, v, v', L)
    ensures IsChain(g, v'.fat, L.root) && Dir(g, v', L.root) == Dir(g, v, L.root)
  {
    assert forall c :: c in L.root ==> Owned(L, c);
    ChainFrame(g, v.fat, v'.fat, L.root);
    DirFrame(g, v, v', L.root);
  }

  lemma KeepsWf(g: Geometry, v: Vol, v': Vol, L: Layout)
    requires Wf(g, v, L) && Shape(g, v') && Keeps(g, v, v', L)
    ensures Wf(g, v', L) && Dir(g, v', L.root) == Dir(g, v, L.root)
  {
    KeepsRoot(g, v, v', L);
    forall k: nat | k < |L.files| ensures EntryOk(g, v', Dir(g, v, L.root)[k], L.files[k]) {
      KeepsEntry(g, v, v', L, k);
    }
  }

  ghost predicate SameReads(g: Geometry, v: Vol, v': Vol)
    requires Shape(g, v) && Shape(g, v')
  {
    forall n: Name :: ReadName(g, v', n) == ReadName(g, v, n)
  }

  /** A change outside every owned cluster is invisible: the layout still holds and every name reads
      as before. */
  lemma KeepsReads(g: Geometry, v: Vol, v': Vol, L: Layout)
    requires Wf(g, v, L) && Shape(g, v') && Keeps(g, v, v', L)
    ensures Wf(g, v', L) && Dir(g, v', L.root) == Dir(g, v, L.root)
    ensures SameReads(g, v, v')
  {
    KeepsWf(g, v, v', L);
    var s := Dir(g, v, L.root);
    forall n: Name ensures ReadName(g, v', n) == ReadName(g, v, n) {
      ReadNameMeans(g, v, L, n, 0);
      ReadNameMeans(g, v', L, n, 0);
      if !IsMiss(s, n) {
        var h: nat :| IsHit(s, n, h);
        ReadNameMeans(g, v, L, n, h);
        ReadNameMeans(g, v', L, n, h);
        KeepsEntry(g, v, v', L, h);
      }
    }
  }

  // ---------------------------------------------------------------------------
  // Rewriting one directory entry
  // ---------------------------------------------------------------------------

  lemma SlotSplice(buf: seq<Byte>, i: nat, e: Dirent)
    requires 32 * i + 32 <= |buf|
    ensures Slots(Splice(buf, 32 * i, e)) == Slots(buf)[i := e]
  {
    var new_ := Splice(buf, 32 * i, e);
    forall j: nat | j < |buf| / 32 && j != i ensures Slot(new_, j) == Slot(buf, j) {
      forall x | 0 <= x < 32 ensures Slot(new_, j)[x] == Slot(buf, j)[x] {
        assert new_[32 * j + x] == buf[32 * j + x];
      }
    }
    assert Slot(new_, i) == e;
  }

  /** The volume with entry `i` of cluster `c` replaced. */
  ghost function WithSlot(g: Geometry, v: Vol, c: nat, i: nat, e: Dirent): (v': Vol)
    requires Shape(g, v) && g.InRange(c) && i < Epc(g)
    ensures Shape(g, v')
  {
    v.(data := v.data[c := Splice(v.data[c], 32 * i, e)])
  }

  lemma {:induction false} DirUpdate(g: Geometry, v: Vol, ch: seq<nat>, k: nat, c: nat, i: nat, e: Dirent)
    requires Shape(g, v) && AllInRange(g, ch) && Distinct(ch) && Lies(g, ch, k, c, i)
    requires g.InRange(c) && i < Epc(g) && k < |Dir(g, v, ch)|
    ensures Dir(g, WithSlot(g, v, c, i, e), ch) == Dir(g, v, ch)[k := e]
    decreases |ch|
  {
    hide Slots, Slot, Splice;
    var v' := WithSlot(g, v, c, i, e);
    var a: seq<Dirent>, b: seq<Dirent> := Slots(v.data[ch[0]]), Dir(g, v, ch[1..]);
    var s: seq<Dirent> := a + b;
    if k < Epc(g) {
      SlotSplice(v.data[c], i, e);
      DirFrame(g, v, v', ch[1..]);
      assert s[k := e] == a[k := e] + b;
    } else {
      LiesSlot(g, v, ch[1..], k - Epc(g), c, i);
      DirUpdate(g, v, ch[1..], k - Epc(g), c, i, e);
      assert v'.data[ch[0]] == v.data[ch[0]];
      assert s[k := e] == a + b[k - Epc(g) := e];
    }
  }

  /** What rewriting entry `k` as `e`, owning `ch`, requires of the rest of the volume. */
  ghost predicate CanPlace(g: Geometry, v: Vol, L: Layout, k: nat, e: Dirent, ch: seq<nat>)
    requires Wf(g, v, L)
  {
    var s := Dir(g, v, L.root);
    && k < |s|
    && EntryOk(g, v, e, ch)
    && Apart(ch, L.root)
    && (forall j :: 0 <= j < |s| && j != k ==> Apart(ch, L.files[j]) && Apart(L.files[j], ch))
    && e[0] != DIRENT_FREE
    && (forall j :: 0 <= j < k ==> s[j][0] != DIRENT_FREE)
    && (Live(e) ==> forall j :: 0 <= j < |s| && j != k && Live(s[j]) ==> s[j][..11] != e[..11])
  }

  ghost function Placed(L: Layout, k: nat, ch: seq<nat>): Layout
    requires k < |L.files|
  {
    L.(files := L.files[k := ch])
  }

  lemma PlaceDir(g: Geometry, v: Vol, L: Layout, k: nat, c: nat, i: nat, e: Dirent, ch: seq<nat>)
    requires Wf(g, v, L) && CanPlace(g, v, L, k, e, ch)
    requires Lies(g, L.root, k, c, i) && g.InRange(c) && i < Epc(g)
    ensures c in L.root
    ensures Dir(g, WithSlot(g, v, c, i, e), L.root) == Dir(g, v, L.root)[k := e]
    ensures EndsOnce(Dir(g, v, L.root)[k := e]) && NamesUnique(Dir(g, v, L.root)[k := e])
  {
    LiesSlot(g, v, L.root, k, c, i);
    DirUpdate(g, v, L.root, k, c, i, e);
  }

  /** The bytes of `ch` are untouched by a write into a directory cluster. */
  lemma PlaceEntry(g: Geometry, v: Vol, L: Layout, c: nat, i: nat, e: Dirent, x: Dirent, ch: seq<nat>)
    requires Wf(g, v, L) && c in L.root && g.InRange(c) && i < Epc(g)
    requires EntryOk(g, v, x, ch) && Apart(ch, L.root)
    ensures EntryOk(g, WithSlot(g, v, c, i, e), x, ch)
    ensures EntryView(g, WithSlot(g, v, c, i, e), x, ch) == EntryView(g, v, x, ch)
  {
    ContentFrame(g, v, WithSlot(g, v, c, i, e), ch, Size(x));
  }

  lemma PlaceDisjoint(L: Layout, k: nat, ch: seq<nat>)
    requires Disjoint(L) && k < |L.files| && Apart(ch, L.root)
    requires forall j :: 0 <= j < |L.files| && j != k ==> Apart(ch, L.files[j]) && Apart(L.files[j], ch)
    ensures Disjoint(Placed(L, k, ch))
  {
  }

  /** Rewriting an entry keeps the volume well formed. */
  lemma PlaceWf(g: Geometry, v: Vol, L: Layout, k: nat, c: nat, i: nat, e: Dirent, ch: seq<nat>)
    requires Wf(g, v, L) && CanPlace(g, v, L, k, e, ch)
    requires Lies(g, L.root, k, c, i) && g.InRange(c) && i < Epc(g)
    ensures Wf(g, WithSlot(g, v, c, i, e), Placed(L, k, ch))
    ensures Dir(g, WithSlot(g, v, c, i, e), L.root) == Dir(g, v, L.root)[k := e]
  {
    var v', L' := WithSlot(g, v, c, i, e), Placed(L, k, ch);
    PlaceDir(g, v, L, k, c, i, e, ch);
    PlaceDisjoint(L, k, ch);
    var s := Dir(g, v, L.root);
    forall j: nat | j < |s| ensures EntryOk(g, v', s[k := e][j], L'.files[j]) {
      PlaceEntry(g, v, L, c, i, e, s[k := e][j], L'.files[j]);
    }
  }

  /** Names the rewritten slot does not answer to are searched for exactly as before. */
  lemma SearchUpdate(s: seq<Dirent>, k: nat, e: Dirent, n: Name)
    requires k < |s| && EndsOnce(s) && e[0] != DIRENT_FREE
    requires !Matches(s[k], n) && !Matches(e, n)
    ensures IsMiss(s, n) ==> IsMiss(s[k := e], n)
    ensures forall h: nat :: IsHit(s, n, h) ==> IsHit(s[k := e], n, h)
  {
    var t := s[k := e];
    if IsMiss(s, n) {
      var z: nat :| z <= |s| && (z < |s| ==> s[z][0] == DIRENT_FREE) && AllPass(s, n, z);
      if z == k {
        assert AllPass(t, n, k + 1);
        if k + 1 < |s| { assert t[k + 1][0] == DIRENT_FREE; }
      } else {
        assert AllPass(t, n, z);
      }
    }
  }

  ghost predicate SameReadsBut(g: Geometry, v: Vol, v': Vol, n0: Name)
    requires Shape(g, v) && Shape(g, v')
  {
    forall n: Name :: n != n0 ==> ReadName(g, v', n) == ReadName(g, v, n)
  }

  /** A name neither the old nor the new entry answers to reads as before. */
  lemma PlaceOther(g: Geometry, v: Vol, L: Layout, k: nat, c: nat, i: nat, e: Dirent, ch: seq<nat>, n: Name)
    requires Wf(g, v, L) && CanPlace(g, v, L, k, e, ch)
    requires Lies(g, L.root, k, c, i) && g.InRange(c) && i < Epc(g)
    requires !Matches(Dir(g, v, L.root)[k], n) && !Matches(e, n)
    ensures ReadName(g, WithSlot(g, v, c, i, e), n) == ReadName(g, v, n)
  {
    var v', L' := WithSlot(g, v, c, i, e), Placed(L, k, ch);
    var s := Dir(g, v, L.root);
    PlaceWf(g, v, L, k, c, i, e, ch);
    SearchUpdate(s, k, e, n);
    ReadNameMeans(g, v, L, n, 0);
    ReadNameMeans(g, v', L', n, 0);
    if !IsMiss(s, n) {
      var h: nat :| IsHit(s, n, h);
      ReadNameMeans(g, v, L, n, h);
      ReadNameMeans(g, v', L', n, h);
      LiesSlot(g, v, L.root, k, c, i);
      PlaceEntry(g, v, L, c, i, e, s[h], L.files[h]);
    }
  }

  /** A live entry placed for a name that no other entry has is what the name then reads as. */
  lemma PlaceRead(g: Geometry, v: Vol, L: Layout, k: nat, c: nat, i: nat, e: Dirent, ch: seq<nat>)
    requires Wf(g, v, L) && CanPlace(g, v, L, k, e, ch) && Live(e)
    requires Lies(g, L.root, k, c, i) && g.InRange(c) && i < Epc(g)
    ensures ReadName(g, WithSlot(g, v, c, i, e), e[..11]) == EntryView(g, v, e, ch)
  {
    var v', L' := WithSlot(g, v, c, i, e), Placed(L, k, ch);
    var s := Dir(g, v, L.root);
    PlaceWf(g, v, L, k, c, i, e, ch);
    assert IsHit(s[k := e], e[..11], k);
    ReadNameMeans(g, v', L', e[..11], k);
    LiesSlot(g, v, L.root, k, c, i);
    PlaceEntry(g, v, L, c, i, e, e, ch);
  }

  // ---------------------------------------------------------------------------
  // Growing the directory
  // ---------------------------------------------------------------------------

  lemma {:induction false} DirAppend(g: Geometry, v: Vol, ch: seq<nat>, c: nat)
    requires Shape(g, v) && AllInRange(g, ch) && g.InRange(c)
    ensures Dir(g, v, ch + [c]) == Dir(g, v, ch) + Slots(v.data[c])
  {
    if ch == [] {
      assert ([c])[1..] == [];
    } else {
      DirAppend(g, v, ch[1..], c);
      assert (ch + [c])[1..] == ch[1..] + [c];
    }
  }

  /** The volume with the tail of the root chain pointed at `c`. */
  ghost function Linked(g: Geometry, v: Vol, L: Layout, c: nat): (v': Vol)
    requires Wf(g, v, L)
    ensures Shape(g, v')
  {
    v.(fat := v.fat[L.root[|L.root| - 1] := c])
  }

  ghost function Grown(g: Geometry, L: Layout, c: nat): Layout {
    Layout(L.root + [c], L.files + seq(Epc(g), i => []))
  }

  /** A claimed, zero-filled cluster nobody owns. */
  ghost predicate CanGrow(g: Geometry, v: Vol, L: Layout, c: nat)
    requires Shape(g, v)
  {
    g.InRange(c) && !Owned(L, c) && v.fat[c] >= CLUSTER_END && v.data[c] == Zeros(g.Bpc())
  }

  lemma ZeroSlots(n: nat)
    ensures forall i: nat :: i < n / 32 ==> Slots(Zeros(n))[i][0] == DIRENT_FREE && !Live(Slots(Zeros(n))[i])
  {
  }

  lemma GrowRoot(g: Geometry, v: Vol, L: Layout, c: nat)
    requires Wf(g, v, L) && CanGrow(g, v, L, c)
    ensures IsChain(g, Linked(g, v, L, c).fat, L.root + [c])
    ensures Dir(g, Linked(g, v, L, c), L.root + [c]) == Dir(g, v, L.root) + Slots(Zeros(g.Bpc()))
  {
    var v' := Linked(g, v, L, c);
    DirAppend(g, v', L.root, c);
    DirFrame(g, v, v', L.root);
  }

  lemma GrowEntry(g: Geometry, v: Vol, L: Layout, c: nat, k: nat)
    requires Wf(g, v, L) && CanGrow(g, v, L, c) && k < |L.files|
    ensures EntryOk(g, Linked(g, v, L, c), Dir(g, v, L.root)[k], L.files[k])
    ensures EntryView(g, Linked(g, v, L, c), Dir(g, v, L.root)[k], L.files[k])
            == EntryView(g, v, Dir(g, v, L.root)[k], L.files[k])
  {
    var e, ch := Dir(g, v, L.root)[k], L.files[k];
    var tail := L.root[|L.root| - 1];
    assert tail in L.root;
    assert Apart(ch, L.root);
    if Owns(e) {
      ChainFrame(g, v.fat, Linked(g, v, L, c).fat, ch);
    }
    ContentFrame(g, v, Linked(g, v, L, c), ch, Size(e));
  }

  lemma GrowDisjoint(g: Geometry, L: Layout, c: nat)
    requires Disjoint(L) && !Owned(L, c)
    ensures Disjoint(Grown(g, L, c))
  {
    var L' := Grown(g, L, c);
    forall k | 0 <= k < |L'.files| ensures Apart(L'.files[k], L'.root) {
      if k < |L.files| { OwnedIntro(L, k); }
    }
  }

  lemma GrowWf(g: Geometry, v: Vol, L: Layout, c: nat)
    requires Wf(g, v, L) && CanGrow(g, v, L, c)
    ensures Wf(g, Linked(g, v, L, c), Grown(g, L, c))
    ensures Dir(g, Linked(g, v, L, c), L.root + [c]) == Dir(g, v, L.root) + Slots(Zeros(g.Bpc()))
  {
    var v', L' := Linked(g, v, L, c), Grown(g, L, c);
    GrowRoot(g, v, L, c);
    GrowDisjoint(g, L, c);
    ZeroSlots(g.Bpc());
    var s, z := Dir(g, v, L.root), Slots(Zeros(g.Bpc()));
    forall k: nat | k < |s + z| ensures EntryOk(g, v', (s + z)[k], L'.files[k]) {
      if k < |s| { GrowEntry(g, v, L, c, k); }
    }
    assert EndsOnce(s + z);
    assert NamesUnique(s + z);
  }

  /** Linking a zeroed cluster onto the directory changes no name's contents. */
  lemma GrowReads(g: Geometry, v: Vol, L: Layout, c: nat)
    requires Wf(g, v, L) && CanGrow(g, v, L, c)
    ensures Wf(g, Linked(g, v, L, c), Grown(g, L, c))
    ensures SameReads(g, v, Linked(g, v, L, c))
  {
    var v', L' := Linked(g, v, L, c), Grown(g, L, c);
    GrowWf(g, v, L, c);
    var s, z := Dir(g, v, L.root), Slots(Zeros(g.Bpc()));
    forall n: Name ensures ReadName(g, v', n) == ReadName(g, v, n) {
      GrowSearch(s, g.Bpc(), n);
      ReadNameMeans(g, v, L, n, 0);
      ReadNameMeans(g, v', L', n, 0);
      if !IsMiss(s, n) {
        var h: nat :| IsHit(s, n, h);
        ReadNameMeans(g, v, L, n, h);
        ReadNameMeans(g, v', L', n, h);
        GrowEntry(g, v, L, c, h);
      }
    }
  }

  lemma GrowSearch(s: seq<Dirent>, m: nat, n: Name)
    ensures IsMiss(s, n) ==> IsMiss(s + Slots(Zeros(m)), n)
    ensures forall h: nat :: IsHit(s, n, h) ==> IsHit(s + Slots(Zeros(m)), n, h)
  {
    var t := s + Slots(Zeros(m));
    ZeroSlots(m);
    if IsMiss(s, n) {
      var k: nat :| k <= |s| && (k < |s| ==> s[k][0] == DIRENT_FREE) && AllPass(s, n, k);
      assert AllPass(t, n, k);
      if k < |s| { assert t[k] == s[k]; } else if k < |t| { assert t[k] == Slots(Zeros(m))[0]; }
    }
  }

  // ---------------------------------------------------------------------------
  // From disks to layouts
  // ---------------------------------------------------------------------------

  lemma OwnedNotFree(g: Geometry, v: Vol, L: Layout, c: nat)
    requires Wf(g, v, L) && Owned(L, c)
    ensures g.InRange(c) && v.fat[c] != CLUSTER_FREE
  {
    if c in L.root {
      InChain(g, v.fat, L.root, c);
    } else {
      var k :| 0 <= k < |L.files| && c in L.files[k];
      assert EntryOk(g, v, Dir(g, v, L.root)[k], L.files[k]);
      InChain(g, v.fat, L.files[k], c);
    }
  }

  lemma InChain(g: Geometry, fat: seq<nat>, ch: seq<nat>, c: nat)
    requires |fat| == g.total + 2 && IsChain(g, fat, ch) && c in ch
    ensures g.InRange(c) && fat[c] != CLUSTER_FREE
  {
    var i :| 0 <= i < |ch| && ch[i] == c;
    if i < |ch| - 1 {
      assert fat[c] == ch[i + 1];
    }
  }

  /** A disk change confined to clusters the layout does not own keeps every owned cluster. */
  lemma WithinKeeps(g: Geometry, d: Disk, d': Disk, U: set<nat>, L: Layout)
    requires Fits(g, d) && Within(g, d, d', U) && Wf(g, Abs(g, d), L)
    requires forall c :: c in U ==> !Owned(L, c)
    ensures Keeps(g, Abs(g, d), Abs(g, d'), L)
  {
    hide Abs, Raw, Data, Wf, Owned, Geometry.Laid;
    var v, v' := Abs(g, d), Abs(g, d');
    forall c: nat | c < |v.fat| && Owned(L, c) ensures SameOn(v, v', c) {
      OwnedNotFree(g, v, L, c);
      AbsMeans(g, d, c);
      AbsMeans(g, d', c);
    }
  }

  /** Every state since `log0` has disk `d`'s layout and reads as it does. */
  lemma WithinReads(g: Geometry, d: Disk, d': Disk, U: set<nat>, L: Layout)
    requires Fits(g, d) && Within(g, d, d', U) && Wf(g, Abs(g, d), L)
    requires forall c :: c in U ==> !Owned(L, c)
    ensures Wf(g, Abs(g, d'), L) && Dir(g, Abs(g, d'), L.root) == Dir(g, Abs(g, d), L.root)
    ensures SameReads(g, Abs(g, d), Abs(g, d'))
  {
    hide Abs, Raw, Data, Wf, Owned, Keeps, Dir, SameReads, Geometry.Laid;
    WithinKeeps(g, d, d', U, L);
    KeepsReads(g, Abs(g, d), Abs(g, d'), L);
  }

  // ---------------------------------------------------------------------------
  // Walking the directory forward
  // ---------------------------------------------------------------------------

  /** A slot a new entry may take. */
  predicate FreeSlot(e: Dirent) { e[0] == DIRENT_FREE || e[0] == DIRENT_DELETED }

  /** The walk has passed `p` clusters of `ch`, holding `base` entries. */
  ghost predicate At(g: Geometry, v: Vol, ch: seq<nat>, p: nat, base: nat)
    requires Shape(g, v) && AllInRange(g, ch)
  {
    && p <= |ch| && base <= |Dir(g, v, ch)|
    && Dir(g, v, ch)[base..] == Dir(g, v, ch[p..])
    && forall k: nat, c, i :: Lies(g, ch[p..], k, c, i) ==> Lies(g, ch, base + k, c, i)
  }

  lemma AtStart(g: Geometry, v: Vol, ch: seq<nat>)
    requires Shape(g, v) && AllInRange(g, ch)
    ensures At(g, v, ch, 0, 0)
  {
    assert ch[0..] == ch;
  }

  lemma AtStep(g: Geometry, v: Vol, ch: seq<nat>, p: nat, base: nat)
    requires Shape(g, v) && AllInRange(g, ch) && p < |ch| && At(g, v, ch, p, base)
    ensures At(g, v, ch, p + 1, base + Epc(g))
    ensures base + Epc(g) <= |Dir(g, v, ch)|
    ensures forall j: nat :: j < Epc(g) ==>
              Dir(g, v, ch)[base + j] == Slots(v.data[ch[p]])[j] && Lies(g, ch, base + j, ch[p], j)
  {
    var s, a, b: seq<Dirent> := Dir(g, v, ch), Slots(v.data[ch[p]]), Dir(g, v, ch[p + 1..]);
    var tail := ch[p + 1..];
    assert ch[p..][1..] == tail;
    assert s[base..] == a + b;
    assert |a| == Epc(g);
    assert s[base + Epc(g)..] == s[base..][Epc(g)..];
    forall k: nat, c, i | Lies(g, tail, k, c, i) ensures Lies(g, ch, base + Epc(g) + k, c, i) {
      assert Lies(g, ch[p..], Epc(g) + k, c, i);
    }
    forall j: nat | j < Epc(g) ensures s[base + j] == a[j] && Lies(g, ch, base + j, ch[p], j) {
      assert s[base + j] == s[base..][j];
      assert Lies(g, ch[p..], j, ch[p], j);
    }
  }

  lemma AtEnd(g: Geometry, v: Vol, ch: seq<nat>, p: nat, base: nat)
    requires Shape(g, v) && AllInRange(g, ch) && At(g, v, ch, p, base) && p == |ch|
    ensures base == |Dir(g, v, ch)|
  {
    assert ch[p..] == [];
    assert |Dir(g, v, ch)[base..]| == 0;
  }

  lemma WfRoot(g: Geometry, v: Vol, L: Layout)
    requires Wf(g, v, L)
    ensures Shape(g, v) && IsChain(g, v.fat, L.root) && L.root[0] == g.root && |L.root| <= g.total
    ensures AllInRange(g, L.root) && |L.files| == |Dir(g, v, L.root)|
  {
    ChainFits(g, L.root);
  }

  lemma {:induction false} LiesLast(g: Geometry, v: Vol, ch: seq<nat>, c: nat)
    requires Shape(g, v) && AllInRange(g, ch)
    ensures Lies(g, ch + [c], |Dir(g, v, ch)|, c, 0) && 0 < Epc(g)
  {
    if ch != [] {
      LiesLast(g, v, ch[1..], c);
      assert (ch + [c])[1..] == ch[1..] + [c];
      assert |Dir(g, v, ch)| == Epc(g) + |Dir(g, v, ch[1..])|;
    }
  }

  // ---------------------------------------------------------------------------
  // A freshly formatted volume
  // ---------------------------------------------------------------------------

  /** A root directory of one zeroed cluster and nothing else is a well-formed volume. */
  lemma EmptyWf(g: Geometry, v: Vol)
    requires Shape(g, v) && g.InRange(g.root) && v.fat[g.root] >= CLUSTER_END && v.data[g.root] == Zeros(g.Bpc())
    ensures Wf(g, v, Layout([g.root], seq(Epc(g), i => [])))
  {
    var root := [g.root];
    assert root[1..] == [];
    ZeroSlots(g.Bpc());
    assert Dir(g, v, root) == Slots(Zeros(g.Bpc()));
  }
}
