/** A FAT32 volume as the driver reads it: a cluster map, the bytes of each cluster, and the walks that
    fs/fat32.c makes over them to find a name and to read a file. */
module Fat32Volume {
  import opened Bytes
  import opened Fat32Disk

  /** `fat[c]` is the masked entry of slot `c` in the first FAT copy, `data[c]` the bytes of cluster `c`. */
  datatype Vol = Vol(fat: seq<nat>, data: seq<seq<Byte>>)

  ghost predicate Shape(g: Geometry, v: Vol) {
    && g.Valid()
    && |v.fat| == |v.data| == g.total + 2
    && (forall c: nat :: g.InRange(c) ==> |v.data[c]| == g.Bpc())
  }

  /** The volume a disk holds. */
  ghost function Abs(g: Geometry, d: Disk): (v: Vol)
    requires Fits(g, d)
    ensures Shape(g, v)
  {
    Vol(seq(g.total + 2, c requires 0 <= c < g.total + 2 => Raw(g, d, 0, c) % ENTRY_MOD),
        seq(g.total + 2, c requires 0 <= c < g.total + 2 => if c < 2 then [] else Data(g, d, c)))
  }

  lemma AbsMeans(g: Geometry, d: Disk, c: nat)
    requires Fits(g, d) && c < g.total + 2
    ensures Abs(g, d).fat[c] == Raw(g, d, 0, c) % ENTRY_MOD
    ensures g.InRange(c) ==> Abs(g, d).data[c] == Data(g, d, c)
  {
    hide Raw, Data, Geometry.Laid;
  }

  /** A write of sector `j` of cluster `c`, as the volume sees it. */
  lemma AbsSectorWrite(g: Geometry, d: Disk, c: nat, j: nat, s: Sector, d': Disk)
    requires Fits(g, d) && g.InRange(c) && j < g.spc
    requires g.ClusterBlock(c) + j < |d| && d' == d[g.ClusterBlock(c) + j := s]
    ensures Within(g, d, d', {c}) && (Mirrored(g, d) ==> Mirrored(g, d'))
    ensures var v := Abs(g, d);
            Abs(g, d') == v.(data := v.data[c := Splice(v.data[c], 512 * j, s)])
  {
    hide Abs, Raw, Data, Splice, Geometry.ClusterBlock;
    DataSectorWrite(g, d, c, j, s, d');
    var v, v' := Abs(g, d), Abs(g, d');
    forall x: nat | x < g.total + 2 ensures v'.fat[x] == v.fat[x] {
      AbsMeans(g, d, x);
      AbsMeans(g, d', x);
    }
    AbsMeans(g, d, c);
    var want := v.data[c := Splice(v.data[c], 512 * j, s)];
    forall x: nat | x < g.total + 2 ensures v'.data[x] == want[x] {
      AbsMeans(g, d, x);
      AbsMeans(g, d', x);
      AbsLow(g, d, x);
      AbsLow(g, d', x);
    }
    assert v'.fat == v.fat;
    assert v'.data == want;
  }

  /** The sector of cluster `c` that holds bytes 512 j and up. */
  lemma SectorOf(g: Geometry, d: Disk, c: nat, j: nat)
    requires Fits(g, d) && g.InRange(c) && j < g.spc
    ensures g.ClusterBlock(c) + j < |d| && d[g.ClusterBlock(c) + j] == Abs(g, d).data[c][512 * j..512 * j + 512]
  {
    hide Abs, Geometry.ClusterBlock, Geometry.DataEnd;
    ClusterBlockBounds(g, c);
    AbsMeans(g, d, c);
    var s, t := d[g.ClusterBlock(c) + j], Data(g, d, c)[512 * j..512 * j + 512];
    forall i | 0 <= i < 512 ensures t[i] == s[i] {
      assert (512 * j + i) / 512 == j && (512 * j + i) % 512 == i;
    }
  }

  /** Changing nothing but the FSInfo sector leaves the volume as it was. */
  lemma WithinNothing(g: Geometry, d: Disk, d': Disk)
    requires Fits(g, d) && Within(g, d, d', {})
    ensures Fits(g, d') && Abs(g, d') == Abs(g, d) && (Mirrored(g, d) ==> Mirrored(g, d'))
  {
    hide Abs, Raw, Data, Geometry.Laid;
    var v, v' := Abs(g, d), Abs(g, d');
    forall x: nat | x < g.total + 2 ensures v'.fat[x] == v.fat[x] && v'.data[x] == v.data[x] {
      AbsMeans(g, d, x);
      AbsMeans(g, d', x);
      AbsLow(g, d, x);
      AbsLow(g, d', x);
    }
    assert v'.fat == v.fat && v'.data == v.data;
  }

  lemma AbsLow(g: Geometry, d: Disk, x: nat)
    requires Fits(g, d) && x < g.total + 2
    ensures x < 2 ==> Abs(g, d).data[x] == []
  {
  }

  // ---------------------------------------------------------------------------
  // Directory entries
  // ---------------------------------------------------------------------------

  type Dirent = s: seq<Byte> | |s| == 32 witness Zeros(32)
  type Name = s: seq<Byte> | |s| == 11 witness Zeros(11)

  const DIRENT_FREE: Byte := 0x00
  const DIRENT_DELETED: Byte := 0xE5

  function First(e: Dirent): nat { 0x1_0000 * LE16(e, 20) + LE16(e, 26) }

  function Size(e: Dirent): nat { LE32(e, 28) }

  predicate Usable(e: Dirent) { e[11] != 0x0F && e[11] / 8 % 2 == 0 }

  predicate IsDirectory(e: Dirent) { e[11] / 16 % 2 == 1 }

  predicate Live(e: Dirent) { e[0] != DIRENT_FREE && e[0] != DIRENT_DELETED && Usable(e) }

  predicate Matches(e: Dirent, n: Name) { Live(e) && e[..11] == n }

  /** A slot the search for `n` steps over. */
  predicate Passes(e: Dirent, n: Name) { e[0] != DIRENT_FREE && !Matches(e, n) }

  /** The `i`-th 32-byte entry of a directory cluster. */
  function Slot(buf: seq<Byte>, i: nat): (e: Dirent)
    requires 32 * i + 32 <= |buf|
  {
    buf[32 * i..32 * i + 32]
  }

  function Slots(buf: seq<Byte>): (s: seq<Dirent>)
    ensures |s| == |buf| / 32
    ensures forall i: nat :: i < |s| ==> s[i] == Slot(buf, i)
  {
    seq(|buf| / 32, i requires 0 <= i < |buf| / 32 => Slot(buf, i))
  }

  // ---------------------------------------------------------------------------
  // The walks, as the code makes them on any volume, corrupt ones included
  // ---------------------------------------------------------------------------

  datatype Step = ChainEnd | ChainError | ChainNext(next: nat)

  /** fat32_next_cluster: what follows a cluster whose entry is `entry`. */
  function NextCluster(g: Geometry, entry: nat): Step {
    if entry >= CLUSTER_END then ChainEnd
    else if entry == CLUSTER_FREE || entry == CLUSTER_BAD || !g.InRange(entry) then ChainError
    else ChainNext(entry)
  }

  datatype Scan = Hit(i: nat) | Stop | More

  /** The search of one directory cluster from entry `i` on. */
  function ScanFrom(buf: seq<Byte>, i: nat, n: Name): (r: Scan)
    requires i <= |buf| / 32
    ensures r.Hit? ==> i <= r.i < |buf| / 32
    decreases |buf| / 32 - i
  {
    if i == |buf| / 32 then More
    else if Slot(buf, i)[0] == DIRENT_FREE then Stop
    else if Matches(Slot(buf, i), n) then Hit(i)
    else ScanFrom(buf, i + 1, n)
  }

  /** `LocFound`: the entry is number `index` of `cluster`, and number `k` of the whole directory. */
  datatype Loc = LocError | LocAbsent | LocFound(k: nat, cluster: nat, index: nat)

  /** Entries per cluster. */
  function Epc(g: Geometry): nat { g.Bpc() / 32 }

  /** locate_root_entry and the lookup of walk_directory: `pos` clusters, holding `base` entries, have
      been searched before cluster `c`. */
  ghost function Locate(g: Geometry, v: Vol, c: nat, pos: nat, base: nat, n: Name): (r: Loc)
    requires Shape(g, v)
    ensures r.LocFound? ==> g.InRange(r.cluster) && r.index < Epc(g)
    decreases g.total + 1 - pos
  {
    if pos > g.total || !g.InRange(c) then LocError
    else match ScanFrom(v.data[c], 0, n)
      case Hit(i) => LocFound(base + i, c, i)
      case Stop => LocAbsent
      case More =>
        match NextCluster(g, v.fat[c])
        case ChainEnd => LocAbsent
        case ChainError => LocError
        case ChainNext(next) => Locate(g, v, next, pos + 1, base + Epc(g), n)
  }

  /** The data walk of fat32_read_file: `rem` bytes from cluster `c`, after `pos` clusters. */
  ghost function ReadFrom(g: Geometry, v: Vol, c: nat, rem: nat, pos: nat): (r: Option<seq<Byte>>)
    requires Shape(g, v)
    ensures r.Some? ==> |r.value| == rem
    decreases g.total + 1 - pos
  {
    if rem == 0 then Some([])
    else if pos > g.total || !g.InRange(c) then None
    else if rem <= g.Bpc() then Some(v.data[c][..rem])
    else match NextCluster(g, v.fat[c])
      case ChainEnd => None
      case ChainError => None
      case ChainNext(next) =>
        match ReadFrom(g, v, next, rem - g.Bpc(), pos + 1)
        case None => None
        case Some(rest) => Some(v.data[c] + rest)
  }

  /** The contents a directory entry names. */
  ghost function EntryBytes(g: Geometry, v: Vol, e: Dirent): Option<seq<Byte>>
    requires Shape(g, v)
  {
    if IsDirectory(e) then None else ReadFrom(g, v, First(e), Size(e), 0)
  }

  /** What fat32_read_file answers for the 8.3 name `n`: the file's bytes, or nothing. */
  ghost function ReadName(g: Geometry, v: Vol, n: Name): Option<seq<Byte>>
    requires Shape(g, v)
  {
    match Locate(g, v, g.root, 0, 0, n)
    case LocError => None
    case LocAbsent => None
    case LocFound(_, c, i) => EntryBytes(g, v, Slot(v.data[c], i))
  }

  // ---------------------------------------------------------------------------
  // Chains
  // ---------------------------------------------------------------------------

  /** `ch` is a whole file: distinct in-range clusters, each entry naming the next, the last one END. */
  ghost predicate IsChain(g: Geometry, fat: seq<nat>, ch: seq<nat>)
    requires |fat| == g.total + 2
  {
    && |ch| > 0
    && Distinct(ch)
    && (forall i :: 0 <= i < |ch| ==> g.InRange(ch[i]))
    && (forall i :: 0 <= i < |ch| - 1 ==> fat[ch[i]] == ch[i + 1])
    && fat[ch[|ch| - 1]] >= CLUSTER_END
  }

  /** All data clusters. */
  ghost function Clusters(g: Geometry): (s: set<nat>)
    ensures forall c: nat :: c in s <==> g.InRange(c)
    ensures |s| == g.total
  {
    Interval(2, g.total + 2)
  }

  ghost function Elems(s: seq<nat>): (e: set<nat>)
    ensures forall c :: c in e <==> c in s
  {
    set c | c in s
  }

  lemma {:induction false} DistinctSize(s: seq<nat>)
    requires Distinct(s)
    ensures |Elems(s)| == |s|
  {
    if |s| > 0 {
      var t := s[..|s| - 1];
      DistinctSize(t);
      assert Elems(s) == Elems(t) + {s[|s| - 1]};
    } else {
      assert Elems(s) == {};
    }
  }

  /** No list of distinct data clusters is longer than the volume. */
  lemma ChainFits(g: Geometry, s: seq<nat>)
    requires Distinct(s) && forall i :: 0 <= i < |s| ==> g.InRange(s[i])
    ensures |s| <= g.total
  {
    DistinctSize(s);
    SubsetSize(Elems(s), Clusters(g));
  }

  lemma ChainTail(g: Geometry, fat: seq<nat>, ch: seq<nat>)
    requires |fat| == g.total + 2 && IsChain(g, fat, ch) && |ch| > 1
    ensures IsChain(g, fat, ch[1..])
  {
  }

  /** A chain is determined by its entries: a map agreeing on `ch` has the same chain. */
  lemma ChainFrame(g: Geometry, fat: seq<nat>, fat': seq<nat>, ch: seq<nat>)
    requires |fat| == |fat'| == g.total + 2 && IsChain(g, fat, ch)
    requires forall c :: c in ch && c < |fat| ==> fat'[c] == fat[c]
    ensures IsChain(g, fat', ch)
  {
  }

  // ---------------------------------------------------------------------------
  // The root directory as one stream of entries
  // ---------------------------------------------------------------------------

  ghost predicate AllInRange(g: Geometry, ch: seq<nat>) {
    forall i :: 0 <= i < |ch| ==> g.InRange(ch[i])
  }

  /** The entries of the clusters of `ch`, in order. */
  ghost function Dir(g: Geometry, v: Vol, ch: seq<nat>): (s: seq<Dirent>)
    requires Shape(g, v) && AllInRange(g, ch)
  {
    if ch == [] then [] else Slots(v.data[ch[0]]) + Dir(g, v, ch[1..])
  }

  /** Entry `k` of the directory `ch` is number `i` of cluster `c`. */
  ghost predicate Lies(g: Geometry, ch: seq<nat>, k: nat, c: nat, i: nat) {
    ch != [] && if k < Epc(g) then c == ch[0] && i == k else Lies(g, ch[1..], k - Epc(g), c, i)
  }

  /** Entry `k` of a directory is the first match for `n`, reached before any never-used slot. */
  ghost predicate IsHit(s: seq<Dirent>, n: Name, k: nat) {
    k < |s| && Matches(s[k], n) && forall j :: 0 <= j < k ==> Passes(s[j], n)
  }

  /** The search for `n` ends, at the end or at a never-used slot, having matched nothing. */
  ghost predicate IsMiss(s: seq<Dirent>, n: Name) {
    exists k: nat :: k <= |s| && (k < |s| ==> s[k][0] == DIRENT_FREE) && AllPass(s, n, k)
  }

  ghost predicate AllPass(s: seq<Dirent>, n: Name, k: nat)
    requires k <= |s|
  {
    forall j :: 0 <= j < k ==> Passes(s[j], n)
  }

  lemma HitOrMiss(s: seq<Dirent>, n: Name, k: nat, k': nat)
    requires IsHit(s, n, k)
    ensures !IsMiss(s, n)
    ensures IsHit(s, n, k') ==> k' == k
  {
  }

  lemma SearchPrefix(a: seq<Dirent>, b: seq<Dirent>, n: Name, k: nat)
    ensures IsHit(a, n, k) ==> IsHit(a + b, n, k)
    ensures k < |a| && a[k][0] == DIRENT_FREE && AllPass(a, n, k) ==> IsMiss(a + b, n)
  {
    if k < |a| && a[k][0] == DIRENT_FREE && AllPass(a, n, k) {
      assert (a + b)[k] == a[k];
      assert AllPass(a + b, n, k);
    }
  }

  lemma SearchSuffix(a: seq<Dirent>, b: seq<Dirent>, n: Name, k: nat)
    requires AllPass(a, n, |a|)
    ensures IsHit(b, n, k) ==> IsHit(a + b, n, |a| + k)
    ensures IsMiss(b, n) ==> IsMiss(a + b, n)
  {
    var s := a + b;
    assert forall j :: |a| <= j < |s| ==> s[j] == b[j - |a|];
    if IsMiss(b, n) {
      var z: nat :| z <= |b| && (z < |b| ==> b[z][0] == DIRENT_FREE) && AllPass(b, n, z);
      assert AllPass(s, n, |a| + z);
    }
  }

  /** The scan of one cluster, in terms of its entries. */
  lemma {:induction false} ScanFromMeans(buf: seq<Byte>, i: nat, n: Name)
    requires i <= |buf| / 32 && AllPass(Slots(buf), n, i)
    ensures match ScanFrom(buf, i, n)
            case Hit(h) => IsHit(Slots(buf), n, h)
            case Stop =>
              exists z: nat :: z < |Slots(buf)| && Slots(buf)[z][0] == DIRENT_FREE && AllPass(Slots(buf), n, z)
            case More => AllPass(Slots(buf), n, |Slots(buf)|)
    decreases |buf| / 32 - i
  {
    if i < |buf| / 32 {
      assert Slots(buf)[i] == Slot(buf, i);
      if Passes(Slot(buf, i), n) {
        ScanFromMeans(buf, i + 1, n);
      }
    }
  }

  /** What an answer of the search of `ch`, which starts at entry `base`, says about its entries. */
  ghost predicate LocOk(g: Geometry, v: Vol, ch: seq<nat>, base: nat, n: Name, r: Loc)
    requires Shape(g, v) && AllInRange(g, ch)
  {
    match r
    case LocError => false
    case LocAbsent => IsMiss(Dir(g, v, ch), n)
    case LocFound(k, c, i) =>
      base <= k && Lies(g, ch, k - base, c, i) && IsHit(Dir(g, v, ch), n, k - base)
  }

  lemma LocateStep(g: Geometry, v: Vol, ch: seq<nat>, base: nat, n: Name, r: Loc)
    requires Shape(g, v) && AllInRange(g, ch) && ch != []
    requires AllPass(Slots(v.data[ch[0]]), n, Epc(g)) && LocOk(g, v, ch[1..], base + Epc(g), n, r)
    ensures LocOk(g, v, ch, base, n, r)
  {
    var a, b := Slots(v.data[ch[0]]), Dir(g, v, ch[1..]);
    SearchSuffix(a, b, n, if r.LocFound? then r.k - base - Epc(g) else 0);
  }

  /** The bounded walk over a well-formed directory chain answers what the stream of entries says. */
  lemma {:induction false} LocateMeans(g: Geometry, v: Vol, ch: seq<nat>, pos: nat, base: nat, n: Name)
    requires Shape(g, v) && IsChain(g, v.fat, ch) && pos + |ch| <= g.total + 1
    ensures LocOk(g, v, ch, base, n, Locate(g, v, ch[0], pos, base, n))
    decreases |ch|
  {
    hide ScanFrom, Slots, Slot, Passes, IsHit;
    var a, b := Slots(v.data[ch[0]]), Dir(g, v, ch[1..]);
    ScanFromMeans(v.data[ch[0]], 0, n);
    match ScanFrom(v.data[ch[0]], 0, n)
    case Hit(h) =>
      SearchPrefix(a, b, n, h);
    case Stop =>
      var z: nat :| z < |a| && a[z][0] == DIRENT_FREE && AllPass(a, n, z);
      SearchPrefix(a, b, n, z);
    case More =>
      if |ch| == 1 {
        assert Dir(g, v, ch) == a;
      } else {
        ChainTail(g, v.fat, ch);
        LocateMeans(g, v, ch[1..], pos + 1, base + Epc(g), n);
        LocateStep(g, v, ch, base, n, Locate(g, v, ch[1], pos + 1, base + Epc(g), n));
      }
  }
}
