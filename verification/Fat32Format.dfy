/** The FAT32 format as any other system sees it, written down from the sectors of the disk alone, and what the driver's
    own reading of a volume has to do with it. */
module Fat32Format {
  import opened Bytes
  import opened Fat32Disk
  import opened Fat32Volume
  import opened Fat32Alloc

  /** The entry of cluster `c` in the first copy of the table. */
  ghost function Link(g: Geometry, d: Disk, c: nat): nat
    requires Fits(g, d) && 2 <= c < g.total + 2
  {
    FatBlockBounds(g, 0, c);
    LE32(d[g.reserved + c / 128], 4 * (c % 128)) % 0x1000_0000
  }

  /** Byte `x` of cluster `c`. */
  ghost function ByteAt(g: Geometry, d: Disk, c: nat, x: nat): Byte
    requires Fits(g, d) && 2 <= c < g.total + 2 && x < 512 * g.spc
  {
    ClusterBlockBounds(g, c);
    d[g.firstData + (c - 2) * g.spc + x / 512][x % 512]
  }

  /** Clusters of the volume, each of them naming the next. */
  ghost predicate Linked(g: Geometry, d: Disk, ch: seq<nat>)
    requires Fits(g, d)
  {
    && (forall i :: 0 <= i < |ch| ==> 2 <= ch[i] < g.total + 2)
    && forall i :: 0 <= i < |ch| - 1 ==> Link(g, d, ch[i]) == ch[i + 1]
  }

  /** Byte `k` of directory entry `i` of cluster `c`. */
  ghost function EntryByte(g: Geometry, d: Disk, c: nat, i: nat, k: nat): Byte
    requires Fits(g, d) && 2 <= c < g.total + 2 && i < 16 * g.spc && k < 32
  {
    ByteAt(g, d, c, 32 * i + k)
  }

  /** The entry is in use, is neither part of a long name nor a volume label, and has the name `n`. */
  ghost predicate Bears(g: Geometry, d: Disk, c: nat, i: nat, n: Name)
    requires Fits(g, d) && 2 <= c < g.total + 2 && i < 16 * g.spc
  {
    && EntryByte(g, d, c, i, 0) != 0 && EntryByte(g, d, c, i, 0) != 0xE5
    && EntryByte(g, d, c, i, 11) != 0x0F && EntryByte(g, d, c, i, 11) / 8 % 2 == 0
    && forall k :: 0 <= k < 11 ==> EntryByte(g, d, c, i, k) == n[k]
  }

  /** A search for `n` goes on past the first `upto` entries of the cluster. */
  ghost predicate Skips(g: Geometry, d: Disk, c: nat, upto: nat, n: Name)
    requires Fits(g, d) && 2 <= c < g.total + 2 && upto <= 16 * g.spc
  {
    forall i: nat :: i < upto ==> EntryByte(g, d, c, i, 0) != 0 && !Bears(g, d, c, i, n)
  }

  /** Entry `i` of the last cluster of `path` is the first of the directory that starts at `path[0]` to bear it. */
  ghost predicate Listed(g: Geometry, d: Disk, path: seq<nat>, i: nat, n: Name)
    requires Fits(g, d)
  {
    && 0 < |path| <= g.total + 1 && Linked(g, d, path) && i < 16 * g.spc
    && (forall j :: 0 <= j < |path| - 1 ==> Skips(g, d, path[j], 16 * g.spc, n))
    && Skips(g, d, path[|path| - 1], i, n) && Bears(g, d, path[|path| - 1], i, n)
  }

  /** The clusters `ch`, which start at `start`, hold `bytes`, the last of them perhaps only in part. */
  ghost predicate Stored(g: Geometry, d: Disk, start: nat, ch: seq<nat>, bytes: seq<Byte>)
    requires Fits(g, d)
  {
    && Linked(g, d, ch) && |ch| <= g.total + 1 && (ch != [] ==> ch[0] == start)
    && |bytes| <= 512 * g.spc * |ch| && (ch != [] ==> 512 * g.spc * (|ch| - 1) < |bytes|)
    && forall x :: 0 <= x < |bytes| ==>
         0 <= x / (512 * g.spc) < |ch| && bytes[x] == ByteAt(g, d, ch[x / (512 * g.spc)], x % (512 * g.spc))
  }

  /** The disk holds a file `n` with the contents `bytes`: its entry is number `i` of the last cluster of `path`, and
      its data lies in the clusters of `ch`. */
  ghost predicate Filed(g: Geometry, d: Disk, n: Name, path: seq<nat>, i: nat, ch: seq<nat>, bytes: seq<Byte>)
    requires Fits(g, d)
  {
    && Listed(g, d, path, i, n) && path[0] == g.root
    && var c := path[|path| - 1];
       && EntryByte(g, d, c, i, 11) / 16 % 2 == 0
       && |bytes| == EntryByte(g, d, c, i, 28) + 0x100 * EntryByte(g, d, c, i, 29)
                     + 0x1_0000 * EntryByte(g, d, c, i, 30) + 0x100_0000 * EntryByte(g, d, c, i, 31)
       && var start := EntryByte(g, d, c, i, 26) + 0x100 * EntryByte(g, d, c, i, 27)
                       + 0x1_0000 * EntryByte(g, d, c, i, 20) + 0x100_0000 * EntryByte(g, d, c, i, 21);
          Stored(g, d, start, ch, bytes)
  }

  // ---------------------------------------------------------------------------
  // The driver's volume is that disk
  // ---------------------------------------------------------------------------

  lemma PlainLink(g: Geometry, d: Disk, c: nat)
    requires Fits(g, d) && g.InRange(c)
    ensures Abs(g, d).fat[c] == Link(g, d, c)
  {
    hide Abs, LE32;
    FatBlockBounds(g, 0, c);
    AbsMeans(g, d, c);
  }

  lemma PlainByte(g: Geometry, d: Disk, c: nat, x: nat)
    requires Fits(g, d) && g.InRange(c) && x < g.Bpc()
    ensures Abs(g, d).data[c][x] == ByteAt(g, d, c, x)
  {
    hide Abs;
    ClusterBlockBounds(g, c);
    AbsMeans(g, d, c);
  }

  lemma PlainEntry(g: Geometry, d: Disk, c: nat, i: nat)
    requires Fits(g, d) && g.InRange(c) && i < Epc(g)
    ensures 32 * i + 32 <= |Abs(g, d).data[c]| && i < 16 * g.spc
    ensures forall k :: 0 <= k < 32 ==> Slot(Abs(g, d).data[c], i)[k] == EntryByte(g, d, c, i, k)
  {
    hide Abs, ByteAt;
    var v := Abs(g, d);
    forall k | 0 <= k < 32 ensures Slot(v.data[c], i)[k] == EntryByte(g, d, c, i, k) {
      PlainByte(g, d, c, 32 * i + k);
    }
  }

  lemma PlainBears(g: Geometry, d: Disk, c: nat, i: nat, n: Name)
    requires Fits(g, d) && g.InRange(c) && i < Epc(g)
    ensures i < 16 * g.spc && i < |Slots(Abs(g, d).data[c])|
    ensures Matches(Slots(Abs(g, d).data[c])[i], n) <==> Bears(g, d, c, i, n)
    ensures Slots(Abs(g, d).data[c])[i][0] == EntryByte(g, d, c, i, 0)
  {
    hide Abs, EntryByte;
    PlainEntry(g, d, c, i);
    var e := Slot(Abs(g, d).data[c], i);
    if Bears(g, d, c, i, n) {
      assert forall k :: 0 <= k < 11 ==> e[..11][k] == n[k];
    }
    if Matches(e, n) {
      assert forall k :: 0 <= k < 11 ==> e[k] == e[..11][k];
    }
  }

  lemma PlainSkips(g: Geometry, d: Disk, c: nat, upto: nat, n: Name)
    requires Fits(g, d) && g.InRange(c) && upto <= Epc(g)
    ensures upto <= 16 * g.spc && upto <= |Slots(Abs(g, d).data[c])|
    ensures AllPass(Slots(Abs(g, d).data[c]), n, upto) <==> Skips(g, d, c, upto, n)
  {
    hide Abs, EntryByte, Bears, Matches;
    var s := Slots(Abs(g, d).data[c]);
    forall i: nat | i < upto
      ensures Passes(s[i], n) <==> EntryByte(g, d, c, i, 0) != 0 && !Bears(g, d, c, i, n)
    {
      PlainBears(g, d, c, i, n);
    }
  }

  /** A cluster's scan stops at an entry exactly when that entry is the first to bear the name. */
  lemma PlainHit(g: Geometry, d: Disk, c: nat, i: nat, n: Name)
    requires Fits(g, d) && g.InRange(c) && i < Epc(g)
    ensures i < 16 * g.spc && |Abs(g, d).data[c]| / 32 == Epc(g)
    ensures ScanFrom(Abs(g, d).data[c], 0, n) == Hit(i) <==> Skips(g, d, c, i, n) && Bears(g, d, c, i, n)
  {
    hide Abs, EntryByte, Bears, Skips, Matches, Slots, ScanFrom;
    var buf := Abs(g, d).data[c];
    PlainSkips(g, d, c, i, n);
    PlainBears(g, d, c, i, n);
    assert IsHit(Slots(buf), n, i) <==> AllPass(Slots(buf), n, i) && Matches(Slots(buf)[i], n);
    ScanFromMeans(buf, 0, n);
    OneHit(Slots(buf), n);
  }

  lemma OneHit(s: seq<Dirent>, n: Name)
    ensures forall i, j: nat :: IsHit(s, n, i) && IsHit(s, n, j) ==> i == j
    ensures forall i, z: nat :: IsHit(s, n, i) && z < |s| && s[z][0] == DIRENT_FREE ==> !AllPass(s, n, z)
    ensures forall i :: IsHit(s, n, i) ==> !AllPass(s, n, |s|)
  {
  }

  /** The scan goes on to the next cluster exactly when every entry of this one is skipped. */
  lemma PlainMore(g: Geometry, d: Disk, c: nat, n: Name)
    requires Fits(g, d) && g.InRange(c)
    ensures |Abs(g, d).data[c]| / 32 == Epc(g) == 16 * g.spc
    ensures ScanFrom(Abs(g, d).data[c], 0, n) == More <==> Skips(g, d, c, 16 * g.spc, n)
  {
    hide Abs, EntryByte, Bears, Skips, Slots, ScanFrom;
    var buf := Abs(g, d).data[c];
    PlainSkips(g, d, c, Epc(g), n);
    ScanFromMeans(buf, 0, n);
    OneHit(Slots(buf), n);
  }

  /** What the driver's search finds is listed. */
  lemma {:induction false} FoundListed(g: Geometry, d: Disk, c: nat, pos: nat, base: nat, n: Name)
    returns (path: seq<nat>)
    requires Fits(g, d) && Locate(g, Abs(g, d), c, pos, base, n).LocFound?
    ensures var r := Locate(g, Abs(g, d), c, pos, base, n);
            && Listed(g, d, path, r.index, n) && path[0] == c && path[|path| - 1] == r.cluster
            && |path| + pos <= g.total + 1
    decreases g.total + 1 - pos
  {
    hide Abs, Skips, Bears, ScanFrom, Link;
    var v := Abs(g, d);
    match ScanFrom(v.data[c], 0, n)
    case Hit(i) =>
      PlainHit(g, d, c, i, n);
      path := [c];
    case More =>
      PlainLink(g, d, c);
      var next := v.fat[c];
      var rest := FoundListed(g, d, next, pos + 1, base + Epc(g), n);
      path := [c] + rest;
      PlainMore(g, d, c, n);
  }

  /** What is listed the driver's search finds. */
  lemma {:induction false} ListedFound(g: Geometry, d: Disk, path: seq<nat>, i: nat, pos: nat, base: nat, n: Name)
    requires Fits(g, d) && Listed(g, d, path, i, n) && |path| + pos <= g.total + 1
    ensures var r := Locate(g, Abs(g, d), path[0], pos, base, n);
            r.LocFound? && r.cluster == path[|path| - 1] && r.index == i
    decreases |path|
  {
    hide Abs, Skips, Bears, ScanFrom, Link;
    var v, c := Abs(g, d), path[0];
    if |path| == 1 {
      PlainHit(g, d, c, i, n);
    } else {
      PlainMore(g, d, c, n);
      PlainLink(g, d, c);
      ListedFound(g, d, path[1..], i, pos + 1, base + Epc(g), n);
    }
  }

  lemma DivNext(x: nat, b: nat)
    requires b > 0
    ensures (x + b) / b == x / b + 1 && (x + b) % b == x % b
  {
    DivStep(x, b);
    var q := x / b;
    assert (x + b) % b == x + b - b * (q + 1) && x % b == x - b * q;
  }

  lemma DivFirst(x: nat, b: nat)
    requires x < b
    ensures x / b == 0 && x % b == x
  {
  }

  /** One cluster in front. */
  lemma StoredCons(g: Geometry, d: Disk, c: nat, ch: seq<nat>, head: seq<Byte>, rest: seq<Byte>)
    requires Fits(g, d) && g.InRange(c) && ch != [] && |ch| <= g.total && Link(g, d, c) == ch[0]
    requires |head| == g.Bpc() && forall x :: 0 <= x < |head| ==> head[x] == ByteAt(g, d, c, x)
    requires Stored(g, d, ch[0], ch, rest)
    ensures Stored(g, d, c, [c] + ch, head + rest)
  {
    hide Link, ByteAt, Geometry.Laid;
    var all, bytes, b := [c] + ch, head + rest, g.Bpc();
    assert b * |all| == b * |ch| + b && b * (|all| - 1) == b * (|ch| - 1) + b;
    forall x | 0 <= x < |bytes|
      ensures 0 <= x / b < |all| && bytes[x] == ByteAt(g, d, all[x / b], x % b)
    {
      if x < b {
        DivFirst(x, b);
      } else {
        DivNext(x - b, b);
      }
    }
  }

  /** The first cluster, and what comes after it. */
  lemma StoredHead(g: Geometry, d: Disk, start: nat, ch: seq<nat>, bytes: seq<Byte>)
    requires Fits(g, d) && ch != [] && Stored(g, d, start, ch, bytes)
    ensures g.InRange(ch[0])
    ensures forall x :: 0 <= x < g.Bpc() && x < |bytes| ==> bytes[x] == ByteAt(g, d, ch[0], x)
  {
    hide Link, ByteAt, Geometry.Laid;
    forall x | 0 <= x < g.Bpc() && x < |bytes| ensures bytes[x] == ByteAt(g, d, ch[0], x) {
      DivFirst(x, g.Bpc());
    }
  }

  lemma StoredTail(g: Geometry, d: Disk, start: nat, ch: seq<nat>, bytes: seq<Byte>)
    requires Fits(g, d) && |ch| > 1 && Stored(g, d, start, ch, bytes)
    ensures |bytes| > g.Bpc() && Stored(g, d, ch[1], ch[1..], bytes[g.Bpc()..]) && Link(g, d, ch[0]) == ch[1]
  {
    hide Link, ByteAt, Geometry.Laid;
    var b, tail := g.Bpc(), ch[1..];
    TailSizes(b, |ch|);
    var rest := bytes[b..];
    forall x | 0 <= x < |rest| ensures 0 <= x / b < |tail| && rest[x] == ByteAt(g, d, tail[x / b], x % b) {
      TailByte(g, d, start, ch, bytes, x);
    }
  }

  lemma TailSizes(b: nat, n: nat)
    requires n > 1 && b > 0
    ensures b * n == b * (n - 1) + b && b * (n - 1) == b * (n - 2) + b && b * (n - 1) >= b
  {
    MulGap(0, n - 1, b);
  }

  lemma TailByte(g: Geometry, d: Disk, start: nat, ch: seq<nat>, bytes: seq<Byte>, x: nat)
    requires Fits(g, d) && |ch| > 1 && Stored(g, d, start, ch, bytes) && x + g.Bpc() < |bytes|
    ensures 0 <= x / g.Bpc() < |ch[1..]| && g.InRange(ch[1..][x / g.Bpc()])
    ensures bytes[x + g.Bpc()] == ByteAt(g, d, ch[1..][x / g.Bpc()], x % g.Bpc())
  {
    hide Link, ByteAt, Geometry.Laid;
    var b := g.Bpc();
    DivNext(x, b);
    var y := x + b;
    assert 0 <= y / b < |ch| && bytes[y] == ByteAt(g, d, ch[y / b], y % b);
  }

  /** What the driver reads from cluster `c` on is stored there. */
  lemma {:induction false} ReadStored(g: Geometry, d: Disk, c: nat, rem: nat, pos: nat) returns (ch: seq<nat>)
    requires Fits(g, d) && ReadFrom(g, Abs(g, d), c, rem, pos).Some?
    ensures Stored(g, d, c, ch, ReadFrom(g, Abs(g, d), c, rem, pos).value) && (ch == [] || |ch| + pos <= g.total + 1)
    ensures rem > 0 ==> ch != []
    decreases g.total + 1 - pos
  {
    hide Abs, Link, ByteAt, Stored, Geometry.Laid;
    var v := Abs(g, d);
    if rem == 0 {
      ch := [];
      StoredNone(g, d, c);
    } else {
      forall x | 0 <= x < g.Bpc() ensures v.data[c][x] == ByteAt(g, d, c, x) {
        PlainByte(g, d, c, x);
      }
      if rem <= g.Bpc() {
        ch := [c];
        StoredOne(g, d, c, v.data[c][..rem]);
      } else {
        PlainLink(g, d, c);
        var rest := ReadStored(g, d, v.fat[c], rem - g.Bpc(), pos + 1);
        StoredSize(g, d, v.fat[c], rest, ReadFrom(g, v, v.fat[c], rem - g.Bpc(), pos + 1).value);
        StoredCons(g, d, c, rest, v.data[c], ReadFrom(g, v, v.fat[c], rem - g.Bpc(), pos + 1).value);
        ch := [c] + rest;
      }
    }
  }

  lemma StoredNone(g: Geometry, d: Disk, c: nat)
    requires Fits(g, d)
    ensures Stored(g, d, c, [], [])
  {
  }

  lemma StoredOne(g: Geometry, d: Disk, c: nat, bytes: seq<Byte>)
    requires Fits(g, d) && g.InRange(c) && 0 < |bytes| <= g.Bpc()
    requires forall x :: 0 <= x < |bytes| ==> bytes[x] == ByteAt(g, d, c, x)
    ensures Stored(g, d, c, [c], bytes)
  {
    hide Link, ByteAt, Geometry.Laid;
    forall x | 0 <= x < |bytes|
      ensures 0 <= x / g.Bpc() < 1 && bytes[x] == ByteAt(g, d, [c][x / g.Bpc()], x % g.Bpc())
    {
      DivFirst(x, g.Bpc());
    }
  }

  /** What is stored the driver reads. */
  lemma {:induction false} StoredRead(g: Geometry, d: Disk, start: nat, ch: seq<nat>, bytes: seq<Byte>, pos: nat)
    requires Fits(g, d) && Stored(g, d, start, ch, bytes) && |ch| + pos <= g.total + 1
    ensures ReadFrom(g, Abs(g, d), start, |bytes|, pos) == Some(bytes)
    decreases |ch|
  {
    hide Abs, Link, ByteAt, Stored, Geometry.Laid;
    var v := Abs(g, d);
    StoredSize(g, d, start, ch, bytes);
    if ch != [] {
      StoredHead(g, d, start, ch, bytes);
      forall x | 0 <= x < g.Bpc() ensures v.data[start][x] == ByteAt(g, d, start, x) {
        PlainByte(g, d, start, x);
      }
      if |ch| == 1 {
        assert v.data[start][..|bytes|] == bytes;
      } else {
        StoredTail(g, d, start, ch, bytes);
        PlainLink(g, d, start);
        LinkInRange(g, d, start, ch, bytes);
        StoredRead(g, d, ch[1], ch[1..], bytes[g.Bpc()..], pos + 1);
        assert v.data[start] + bytes[g.Bpc()..] == bytes;
      }
    }
  }

  lemma LinkInRange(g: Geometry, d: Disk, start: nat, ch: seq<nat>, bytes: seq<Byte>)
    requires Fits(g, d) && |ch| > 1 && Stored(g, d, start, ch, bytes)
    ensures g.InRange(ch[1])
  {
  }

  lemma StoredSize(g: Geometry, d: Disk, start: nat, ch: seq<nat>, bytes: seq<Byte>)
    requires Fits(g, d) && Stored(g, d, start, ch, bytes)
    ensures ch == [] <==> bytes == []
    ensures ch != [] ==> ch[0] == start
    ensures |ch| == 1 ==> |bytes| <= g.Bpc()
  {
    if ch != [] {
      MulGap(0, |ch| - 1, g.Bpc());
    }
  }

  /** Start cluster and size, as the driver takes them out of an entry. */
  lemma PlainFields(g: Geometry, d: Disk, c: nat, i: nat)
    requires Fits(g, d) && g.InRange(c) && i < Epc(g)
    ensures 32 * i + 32 <= |Abs(g, d).data[c]| && i < 16 * g.spc
    ensures var e := Slot(Abs(g, d).data[c], i);
            && First(e) == EntryByte(g, d, c, i, 26) + 0x100 * EntryByte(g, d, c, i, 27)
                           + 0x1_0000 * EntryByte(g, d, c, i, 20) + 0x100_0000 * EntryByte(g, d, c, i, 21)
            && Size(e) == EntryByte(g, d, c, i, 28) + 0x100 * EntryByte(g, d, c, i, 29)
                          + 0x1_0000 * EntryByte(g, d, c, i, 30) + 0x100_0000 * EntryByte(g, d, c, i, 31)
            && (IsDirectory(e) <==> EntryByte(g, d, c, i, 11) / 16 % 2 == 1)
  {
    hide Abs, EntryByte, Slot;
    PlainEntry(g, d, c, i);
  }

  /** On every disk, damaged ones included: the driver reads `bytes` under a name exactly when the disk holds a file of
      that name with those contents. */
  lemma ReadsFormat(g: Geometry, d: Disk, n: Name, bytes: seq<Byte>)
    requires Fits(g, d)
    ensures ReadName(g, Abs(g, d), n) == Some(bytes) <==> exists path, i, ch :: Filed(g, d, n, path, i, ch, bytes)
  {
    hide Abs, EntryByte, Listed, Stored, Locate, ReadFrom, Slot, First, Size, IsDirectory;
    var v := Abs(g, d);
    if ReadName(g, v, n) == Some(bytes) {
      var r := Locate(g, v, g.root, 0, 0, n);
      var path := FoundListed(g, d, g.root, 0, 0, n);
      PlainFields(g, d, r.cluster, r.index);
      var e := Slot(v.data[r.cluster], r.index);
      var ch := ReadStored(g, d, First(e), Size(e), 0);
      ListedShape(g, d, path, r.index, n);
      FiledNow(g, d, n, path, r.index, ch, bytes);
    }
    if path, i, ch :| Filed(g, d, n, path, i, ch, bytes) {
      FiledRead(g, d, n, path, i, ch, bytes);
    }
  }

  lemma FiledNow(g: Geometry, d: Disk, n: Name, path: seq<nat>, i: nat, ch: seq<nat>, bytes: seq<Byte>)
    requires Fits(g, d) && Listed(g, d, path, i, n) && path != [] && path[0] == g.root
    requires g.InRange(path[|path| - 1]) && i < Epc(g)
    requires 32 * i + 32 <= |Abs(g, d).data[path[|path| - 1]]|
    requires var e := Slot(Abs(g, d).data[path[|path| - 1]], i);
             !IsDirectory(e) && |bytes| == Size(e) && Stored(g, d, First(e), ch, bytes)
    ensures Filed(g, d, n, path, i, ch, bytes)
  {
    hide Abs, EntryByte, Listed, Stored, Slot, First, Size, IsDirectory;
    PlainFields(g, d, path[|path| - 1], i);
  }

  lemma FiledRead(g: Geometry, d: Disk, n: Name, path: seq<nat>, i: nat, ch: seq<nat>, bytes: seq<Byte>)
    requires Fits(g, d) && Filed(g, d, n, path, i, ch, bytes)
    ensures ReadName(g, Abs(g, d), n) == Some(bytes)
  {
    hide Abs, EntryByte, Listed, Stored, Locate, ReadFrom, Slot, First, Size, IsDirectory;
    ListedShape(g, d, path, i, n);
    ListedFound(g, d, path, i, 0, 0, n);
    PlainFields(g, d, path[|path| - 1], i);
    StoredShape(g, d, First(Slot(Abs(g, d).data[path[|path| - 1]], i)), ch, bytes);
    StoredRead(g, d, First(Slot(Abs(g, d).data[path[|path| - 1]], i)), ch, bytes, 0);
  }

  lemma ListedShape(g: Geometry, d: Disk, path: seq<nat>, i: nat, n: Name)
    requires Fits(g, d) && Listed(g, d, path, i, n)
    ensures 0 < |path| <= g.total + 1 && g.InRange(path[|path| - 1]) && i < Epc(g)
  {
  }

  lemma StoredShape(g: Geometry, d: Disk, start: nat, ch: seq<nat>, bytes: seq<Byte>)
    requires Fits(g, d) && Stored(g, d, start, ch, bytes)
    ensures |ch| <= g.total + 1
  {
  }

  // ---------------------------------------------------------------------------
  // The table
  // ---------------------------------------------------------------------------

  /** Slot `c` of copy `k` of the table, as the driver takes it, is the word the format puts there. */
  lemma SlotPlace(g: Geometry, d: Disk, k: nat, c: nat)
    requires Fits(g, d) && k < g.nfats && c < 128 * g.spf
    ensures g.reserved + k * g.spf + c / 128 < |d|
    ensures Raw(g, d, k, c) == LE32(d[g.reserved + k * g.spf + c / 128], 4 * (c % 128))
  {
    FatBlockBounds(g, k, c);
  }

  /** The driver's whole chains are the format's: clusters linked without repetition and closed by an end mark. */
  lemma ChainPlace(g: Geometry, d: Disk, ch: seq<nat>)
    requires Fits(g, d)
    ensures IsChain(g, Abs(g, d).fat, ch) <==>
              ch != [] && Distinct(ch) && Linked(g, d, ch) && Link(g, d, ch[|ch| - 1]) >= 0x0FFF_FFF8
  {
    hide Abs, Link;
    forall i: nat | i < |ch| && g.InRange(ch[i]) ensures Abs(g, d).fat[ch[i]] == Link(g, d, ch[i]) {
      PlainLink(g, d, ch[i]);
    }
  }
}
