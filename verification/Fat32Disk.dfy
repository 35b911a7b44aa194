/** The on-disk layout fs/fat32.c parses: sectors, the mirrored FAT and the data area, and what one
    single-sector write does to each of them. */
module Fat32Disk {
  import opened Bytes

  const ENTRY_MOD := 0x1000_0000        // FAT32_ENTRY_MASK + 1: only the low 28 bits are meaningful
  const CLUSTER_FREE := 0
  const CLUSTER_BAD := 0x0FFF_FFF7
  const CLUSTER_END := 0x0FFF_FFF8

  type Sector = s: seq<Byte> | |s| == 512 witness Zeros(512)
  type Disk = seq<Sector>

  /** The geometry fat32_init caches. `spc` sectors per cluster, `reserved` sectors before the first FAT, `spf`
      sectors in each of `nfats` FAT copies, `firstData` the block where cluster 2 begins, `total` data clusters, `root`
      the root directory's first cluster, `fsinfo` the FSInfo sector (0 or 0xFFFF: none). */
  datatype Geometry = Geometry(spc: nat, reserved: nat, spf: nat, nfats: nat,
                               firstData: nat, total: nat, root: nat, fsinfo: nat)
  {
    /** What fat32_init checks, and the facts about a well-formed volume that it does not. */
    ghost predicate Valid() {
      && 1 <= spc <= 128
      && 1 <= reserved && 1 <= spf && 1 <= nfats
      && 1 <= total
      && total + 2 <= CLUSTER_BAD
      && total + 2 <= 128 * spf
      && InRange(root)
      && (fsinfo != 0 && fsinfo != 0xFFFF ==> fsinfo < reserved)
    }

    /** Where the data area starts and ends. */
    function DataEnd(): nat { firstData + total * spc }

    /** The areas follow each other on a disk of `n` blocks, and block numbers fit 32 bits. */
    ghost predicate Laid(n: nat) {
      firstData == reserved + nfats * spf && DataEnd() <= n < 0x1_0000_0000
    }

    predicate InRange(c: nat) { 2 <= c < total + 2 }

    /** Bytes per cluster. */
    function Bpc(): nat { 512 * spc }

    function FatBlock(k: nat, c: nat): nat { reserved + k * spf + c / 128 }

    function ClusterBlock(c: nat): nat
      requires 2 <= c
    {
      firstData + (c - 2) * spc
    }
  }

  /** A disk laid out as reserved area, `nfats` FAT copies back to back, then the data area. */
  ghost predicate Fits(g: Geometry, d: Disk) {
    g.Valid() && g.Laid(|d|)
  }

  /** Multiples of `n` are `n` apart. */
  lemma {:induction false} MulGap(a: nat, b: nat, n: nat)
    ensures a < b ==> a * n + n <= b * n
    ensures b < a ==> b * n + n <= a * n
    decreases a + b
  {
    if a > 0 && b > 0 {
      MulGap(a - 1, b - 1, n);
    }
  }

  lemma FatBlockBounds(g: Geometry, k: nat, c: nat)
    requires g.firstData == g.reserved + g.nfats * g.spf && k < g.nfats && c < 128 * g.spf
    ensures g.reserved <= g.FatBlock(k, c) < g.firstData <= g.DataEnd()
  {
    MulGap(k, g.nfats, g.spf);
  }

  /** Two slots share a sector exactly when they are in the same sector of the same copy. */
  lemma FatBlockInjective(g: Geometry, k: nat, c: nat, k': nat, c': nat)
    requires k < g.nfats && c < 128 * g.spf && k' < g.nfats && c' < 128 * g.spf
    requires g.FatBlock(k, c) == g.FatBlock(k', c')
    ensures k == k' && c / 128 == c' / 128
  {
    MulGap(k, k', g.spf);
  }

  lemma ClusterBlockBounds(g: Geometry, c: nat)
    requires g.InRange(c)
    ensures g.firstData <= g.ClusterBlock(c)
    ensures g.ClusterBlock(c) + g.spc <= g.DataEnd()
  {
    MulGap(c - 2, g.total, g.spc);
  }

  lemma ClusterBlocksDisjoint(g: Geometry, c: nat, c': nat)
    requires g.InRange(c) && g.InRange(c') && c < c'
    ensures g.ClusterBlock(c) + g.spc <= g.ClusterBlock(c')
  {
    MulGap(c - 2, c' - 2, g.spc);
  }

  /** The 32-bit word in slot `c` of FAT copy `k`. */
  function Raw(g: Geometry, d: Disk, k: nat, c: nat): (v: nat)
    requires Fits(g, d) && k < g.nfats && c < 128 * g.spf
    ensures v < 0x1_0000_0000
  {
    FatBlockBounds(g, k, c);
    LE32(d[g.FatBlock(k, c)], 4 * (c % 128))
  }

  /** The bytes of the `n` sectors from `base` on, as one buffer. */
  function Flat(d: Disk, base: nat, n: nat): (b: seq<Byte>)
    requires base + n <= |d|
    ensures |b| == 512 * n
  {
    seq(512 * n, i requires 0 <= i < 512 * n => d[base + i / 512][i % 512])
  }

  lemma FlatWrite(d: Disk, base: nat, n: nat, j: nat, s: Sector)
    requires base + n <= |d| && j < n
    ensures Flat(d[base + j := s], base, n) == Splice(Flat(d, base, n), 512 * j, s)
  {
    var want := Splice(Flat(d, base, n), 512 * j, s);
    forall i | 0 <= i < 512 * n ensures Flat(d[base + j := s], base, n)[i] == want[i] {
      if i / 512 == j {
        assert want[512 * j + i % 512] == s[i % 512];
      }
    }
  }

  /** The bytes of data cluster `c`. */
  function Data(g: Geometry, d: Disk, c: nat): (b: seq<Byte>)
    requires Fits(g, d) && g.InRange(c)
    ensures |b| == g.Bpc()
  {
    ClusterBlockBounds(g, c);
    Flat(d, g.ClusterBlock(c), g.spc)
  }

  /** Every slot, cluster and reserved sector of `d'` is as in `d`, except those of the clusters in `S`,
      and no slot's reserved top four bits differ anywhere. */
  ghost predicate Within(g: Geometry, d: Disk, d': Disk, S: set<nat>)
    requires Fits(g, d)
  {
    && |d'| == |d|
    && (forall k, c :: 0 <= k < g.nfats && 0 <= c < 128 * g.spf ==>
          Raw(g, d', k, c) / ENTRY_MOD == Raw(g, d, k, c) / ENTRY_MOD)
    && (forall k, c :: 0 <= k < g.nfats && 0 <= c < 128 * g.spf && c !in S ==>
          Raw(g, d', k, c) == Raw(g, d, k, c))
    && (forall c: nat :: g.InRange(c) && c !in S ==> Data(g, d', c) == Data(g, d, c))
    && (forall b :: 0 <= b < |d| && (b < g.reserved || g.DataEnd() <= b) && b != g.fsinfo ==> d'[b] == d[b])
  }

  lemma WithinSelf(g: Geometry, d: Disk, S: set<nat>)
    requires Fits(g, d)
    ensures Within(g, d, d, S)
  {
  }

  lemma WithinJoin(g: Geometry, d: Disk, d': Disk, d'': Disk, S: set<nat>, T: set<nat>, U: set<nat>)
    requires Fits(g, d) && Within(g, d, d', S) && Within(g, d', d'', T) && S <= U && T <= U
    ensures Within(g, d, d'', U)
  {
    hide Raw, Data, Geometry.DataEnd;
    forall k, c | 0 <= k < g.nfats && 0 <= c < 128 * g.spf && c !in U
      ensures Raw(g, d'', k, c) == Raw(g, d, k, c)
    {
      assert Raw(g, d', k, c) == Raw(g, d, k, c);
    }
    forall k, c | 0 <= k < g.nfats && 0 <= c < 128 * g.spf
      ensures Raw(g, d'', k, c) / ENTRY_MOD == Raw(g, d, k, c) / ENTRY_MOD
    {
      assert Raw(g, d', k, c) / ENTRY_MOD == Raw(g, d, k, c) / ENTRY_MOD;
    }
    forall c: nat | g.InRange(c) && c !in U ensures Data(g, d'', c) == Data(g, d, c) {
      assert Data(g, d', c) == Data(g, d, c);
    }
  }

  /** Every FAT copy holds the same low 28 bits in every slot. */
  ghost predicate Mirrored(g: Geometry, d: Disk)
    requires Fits(g, d)
  {
    forall k, c :: 0 <= k < g.nfats && 0 <= c < 128 * g.spf ==>
      Raw(g, d, k, c) % ENTRY_MOD == Raw(g, d, 0, c) % ENTRY_MOD
  }

  lemma RawFrame(g: Geometry, d: Disk, b: nat, s: Sector, k: nat, c: nat)
    requires Fits(g, d) && b < |d| && k < g.nfats && c < 128 * g.spf && b != g.FatBlock(k, c)
    ensures Raw(g, d[b := s], k, c) == Raw(g, d, k, c)
  {
    FatBlockBounds(g, k, c);
  }

  lemma DataFrame(g: Geometry, d: Disk, b: nat, s: Sector, c: nat)
    requires Fits(g, d) && b < |d| && g.InRange(c)
    requires b < g.ClusterBlock(c) || g.ClusterBlock(c) + g.spc <= b
    ensures Data(g, d[b := s], c) == Data(g, d, c)
  {
    ClusterBlockBounds(g, c);
    var base := g.ClusterBlock(c);
    assert forall i :: base <= i < base + g.spc ==> d[b := s][i] == d[i];
  }

  /** A write below the data area changes no cluster. */
  lemma DataFrameLow(g: Geometry, d: Disk, b: nat, s: Sector, c: nat)
    requires Fits(g, d) && b < g.firstData && b < |d| && g.InRange(c)
    ensures Data(g, d[b := s], c) == Data(g, d, c)
  {
    ClusterBlockBounds(g, c);
    DataFrame(g, d, b, s, c);
  }

  /** What a write of one FAT slot into one copy changes: that slot of that copy and nothing else. */
  lemma FatSectorWrite(g: Geometry, d: Disk, k: nat, c: nat, v: nat, d': Disk)
    requires Fits(g, d) && k < g.nfats && c < 128 * g.spf && v < 0x1_0000_0000
    requires g.FatBlock(k, c) < |d|
    requires d' == d[g.FatBlock(k, c) := Put32(d[g.FatBlock(k, c)], 4 * (c % 128), v)]
    ensures Raw(g, d', k, c) == v
    ensures forall k', c' :: 0 <= k' < g.nfats && 0 <= c' < 128 * g.spf && (k' != k || c' != c) ==>
              Raw(g, d', k', c') == Raw(g, d, k', c')
    ensures forall c': nat :: g.InRange(c') ==> Data(g, d', c') == Data(g, d, c')
    ensures forall b :: 0 <= b < |d| && (b < g.reserved || g.DataEnd() <= b) ==> d'[b] == d[b]
  {
    FatBlockBounds(g, k, c);
    forall k', c' | 0 <= k' < g.nfats && 0 <= c' < 128 * g.spf && (k' != k || c' != c)
      ensures Raw(g, d', k', c') == Raw(g, d, k', c')
    {
      FatSlotApart(g, d, k, c, v, k', c');
    }
    forall c': nat | g.InRange(c') ensures Data(g, d', c') == Data(g, d, c') {
      DataFrameLow(g, d, g.FatBlock(k, c), d'[g.FatBlock(k, c)], c');
    }
  }

  lemma FatSlotApart(g: Geometry, d: Disk, k: nat, c: nat, v: nat, k': nat, c': nat)
    requires Fits(g, d) && k < g.nfats && c < 128 * g.spf && v < 0x1_0000_0000
    requires k' < g.nfats && c' < 128 * g.spf && (k' != k || c' != c)
    requires g.FatBlock(k, c) < |d|
    ensures Raw(g, d[g.FatBlock(k, c) := Put32(d[g.FatBlock(k, c)], 4 * (c % 128), v)], k', c') == Raw(g, d, k', c')
  {
    if g.FatBlock(k', c') == g.FatBlock(k, c) {
      FatBlockInjective(g, k, c, k', c');
    } else {
      RawFrame(g, d, g.FatBlock(k, c), Put32(d[g.FatBlock(k, c)], 4 * (c % 128), v), k', c');
    }
  }

  /** What a write of one sector of a data cluster changes: those 512 bytes of that cluster. */
  lemma DataSectorWrite(g: Geometry, d: Disk, c: nat, j: nat, s: Sector, d': Disk)
    requires Fits(g, d) && g.InRange(c) && j < g.spc
    requires g.ClusterBlock(c) + j < |d| && d' == d[g.ClusterBlock(c) + j := s]
    ensures Data(g, d', c) == Splice(Data(g, d, c), 512 * j, s)
    ensures Within(g, d, d', {c})
    ensures forall k, x :: 0 <= k < g.nfats && 0 <= x < 128 * g.spf ==> Raw(g, d', k, x) == Raw(g, d, k, x)
  {
    hide Geometry.ClusterBlock, Geometry.FatBlock, Geometry.DataEnd, Raw, Flat;
    ClusterBlockBounds(g, c);
    FlatWrite(d, g.ClusterBlock(c), g.spc, j, s);
    forall k, x | 0 <= k < g.nfats && 0 <= x < 128 * g.spf ensures Raw(g, d', k, x) == Raw(g, d, k, x) {
      FatBlockBounds(g, k, x);
      RawFrame(g, d, g.ClusterBlock(c) + j, s, k, x);
    }
    forall x: nat | g.InRange(x) && x != c ensures Data(g, d', x) == Data(g, d, x) {
      if x < c { ClusterBlocksDisjoint(g, x, c); } else { ClusterBlocksDisjoint(g, c, x); }
      DataFrame(g, d, g.ClusterBlock(c) + j, s, x);
    }
  }

  /** A write to the FSInfo sector changes no slot and no cluster. */
  lemma FsinfoSectorWrite(g: Geometry, d: Disk, s: Sector, d': Disk)
    requires Fits(g, d) && g.fsinfo < g.reserved && g.fsinfo < |d| && d' == d[g.fsinfo := s]
    ensures Within(g, d, d', {})
  {
    forall k, x | 0 <= k < g.nfats && 0 <= x < 128 * g.spf ensures Raw(g, d', k, x) == Raw(g, d, k, x) {
      FatBlockBounds(g, k, x);
      RawFrame(g, d, g.fsinfo, s, k, x);
    }
    forall x: nat | g.InRange(x) ensures Data(g, d', x) == Data(g, d, x) {
      DataFrameLow(g, d, g.fsinfo, s, x);
    }
  }
}
