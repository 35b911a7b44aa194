/** The cluster allocator of fs/fat32.c over the mirrored table: what a walk that frees clusters visits,
    and what a set of free clusters is. */
module Fat32Alloc {
  import opened Bytes
  import opened Fat32Disk
  import opened Fat32Volume

  /** The clusters whose masked entry is zero. */
  ghost function FreeSet(g: Geometry, fat: seq<nat>): (s: set<nat>)
    requires |fat| == g.total + 2
    ensures forall c: nat :: c in s <==> g.InRange(c) && fat[c] == CLUSTER_FREE
  {
    set c | c in Clusters(g) && fat[c] == CLUSTER_FREE
  }

  /** The free clusters below `n`. */
  ghost function FreeBelow(g: Geometry, fat: seq<nat>, n: nat): (s: set<nat>)
    requires |fat| == g.total + 2
  {
    set c | c in FreeSet(g, fat) && c < n
  }

  lemma FreeBelowFirst(g: Geometry, fat: seq<nat>)
    requires |fat| == g.total + 2
    ensures FreeBelow(g, fat, 2) == {}
  {
  }

  lemma FreeBelowStep(g: Geometry, fat: seq<nat>, n: nat)
    requires |fat| == g.total + 2 && g.InRange(n)
    ensures |FreeBelow(g, fat, n + 1)| == |FreeBelow(g, fat, n)| + if fat[n] == CLUSTER_FREE then 1 else 0
    ensures n + 1 == g.total + 2 ==> FreeBelow(g, fat, n + 1) == FreeSet(g, fat)
  {
    assert FreeBelow(g, fat, n + 1) == FreeBelow(g, fat, n) + if fat[n] == CLUSTER_FREE then {n} else {};
  }

  /** Where the masked entry of cluster `c` sits in the first FAT copy. */
  lemma EntryInSector(g: Geometry, d: Disk, c: nat)
    requires Fits(g, d) && g.InRange(c)
    ensures g.reserved + c / 128 < |d|
    ensures Abs(g, d).fat[c] == LE32(d[g.reserved + c / 128], 4 * (c % 128)) % ENTRY_MOD
  {
    hide Abs, LE32, Geometry.DataEnd;
    FatBlockBounds(g, 0, c);
    AbsMeans(g, d, c);
    assert g.FatBlock(0, c) == g.reserved + c / 128;
  }

  /** The clusters free_chain visits from `c`: it follows entries until one leaves the volume or comes
      back to a cluster already seen (which by then reads as free). Defined on every map, cyclic ones
      included. */
  ghost function Walk(g: Geometry, fat: seq<nat>, c: nat, seen: set<nat>): (w: seq<nat>)
    requires |fat| == g.total + 2
    ensures Distinct(w) && AllInRange(g, w) && Unseen(w, seen)
    decreases Clusters(g) - seen
  {
    if !g.InRange(c) || c in seen then []
    else
      assert c in Clusters(g) - seen;
      [c] + Walk(g, fat, fat[c], seen + {c})
  }

  ghost predicate Unseen(w: seq<nat>, s: set<nat>) {
    forall i :: 0 <= i < |w| ==> w[i] !in s
  }

  /** Where the walk stopped: the first entry off the volume or already seen. */
  ghost function WalkEnd(g: Geometry, fat: seq<nat>, c: nat, seen: set<nat>): nat
    requires |fat| == g.total + 2
    decreases Clusters(g) - seen
  {
    if !g.InRange(c) || c in seen then c
    else
      assert c in Clusters(g) - seen;
      WalkEnd(g, fat, fat[c], seen + {c})
  }

  /** The walk closed a cycle. */
  ghost predicate Cyclic(g: Geometry, fat: seq<nat>, c: nat)
    requires |fat| == g.total + 2
  {
    g.InRange(WalkEnd(g, fat, c, {}))
  }

  /** `fat` with the slots of `w` zeroed. */
  ghost function Zeroed(fat: seq<nat>, w: set<nat>): (r: seq<nat>)
    ensures |r| == |fat|
    ensures forall c: nat :: c < |fat| ==> r[c] == if c in w then CLUSTER_FREE else fat[c]
  {
    seq(|fat|, c requires 0 <= c < |fat| => if c in w then CLUSTER_FREE else fat[c])
  }

  /** A cluster is reachable if entries lead to it from `c` in some number of steps inside the volume. */
  ghost predicate Reaches(g: Geometry, fat: seq<nat>, c: nat, x: nat, n: nat)
    requires |fat| == g.total + 2
    decreases n
  {
    g.InRange(c) && if n == 0 then c == x else Reaches(g, fat, fat[c], x, n - 1)
  }

  ghost predicate Reachable(g: Geometry, fat: seq<nat>, c: nat, x: nat)
    requires |fat| == g.total + 2
  {
    exists n: nat :: Reaches(g, fat, c, x, n)
  }

  lemma {:induction false} WalkReachable(g: Geometry, fat: seq<nat>, c: nat, seen: set<nat>, i: nat)
    requires |fat| == g.total + 2 && i < |Walk(g, fat, c, seen)|
    ensures Reaches(g, fat, c, Walk(g, fat, c, seen)[i], i)
    decreases i
  {
    if i > 0 {
      WalkReachable(g, fat, fat[c], seen + {c}, i - 1);
    }
  }

  /** Everything reachable is visited, now or (if in `seen`) before. */
  lemma {:induction false} ReachableWalked(g: Geometry, fat: seq<nat>, c: nat, seen: set<nat>, x: nat, n: nat)
    requires |fat| == g.total + 2 && Reaches(g, fat, c, x, n)
    requires forall y: nat :: y in seen && y < |fat| && g.InRange(fat[y]) ==> fat[y] in seen || fat[y] == c
    ensures x in Walk(g, fat, c, seen) || x in seen
    decreases Clusters(g) - seen, n
  {
    if c in seen {
      ClosedReach(g, fat, c, seen, x, n);
    } else if n > 0 {
      ReachableWalked(g, fat, fat[c], seen + {c}, x, n - 1);
    }
  }

  lemma {:induction false} ClosedReach(g: Geometry, fat: seq<nat>, c: nat, seen: set<nat>, x: nat, n: nat)
    requires |fat| == g.total + 2 && Reaches(g, fat, c, x, n) && c in seen
    requires forall y: nat :: y in seen && y < |fat| && g.InRange(fat[y]) ==> fat[y] in seen
    ensures x in seen
    decreases n
  {
    if n > 0 {
      ClosedReach(g, fat, fat[c], seen, x, n - 1);
    }
  }

  /** free_chain's walk visits exactly the in-range clusters reachable from its start. */
  lemma WalkIsReach(g: Geometry, fat: seq<nat>, c: nat, x: nat)
    requires |fat| == g.total + 2
    ensures x in Walk(g, fat, c, {}) <==> Reachable(g, fat, c, x)
  {
    var w := Walk(g, fat, c, {});
    if x in w {
      var i: nat :| i < |w| && w[i] == x;
      WalkReachable(g, fat, c, {}, i);
      assert Reaches(g, fat, c, x, i);
    }
    if Reachable(g, fat, c, x) {
      var n: nat :| Reaches(g, fat, c, x, n);
      ReachableWalked(g, fat, c, {}, x, n);
    }
  }

  /** On a well-formed chain the walk is the chain, and it does not cycle. */
  lemma {:induction false} WalkOfChain(g: Geometry, fat: seq<nat>, ch: seq<nat>, seen: set<nat>)
    requires g.Valid() && |fat| == g.total + 2 && IsChain(g, fat, ch)
    requires forall i :: 0 <= i < |ch| ==> ch[i] !in seen
    ensures Walk(g, fat, ch[0], seen) == ch
    ensures !g.InRange(WalkEnd(g, fat, ch[0], seen))
    decreases |ch|
  {
    var next := fat[ch[0]];
    if |ch| == 1 {
      assert Walk(g, fat, next, seen + {ch[0]}) == [];
    } else {
      ChainTail(g, fat, ch);
      WalkOfChain(g, fat, ch[1..], seen + {ch[0]});
    }
  }

  /** Claiming `c` as the new tail of `ch` makes a chain one longer. */
  lemma ExtendChain(g: Geometry, fat: seq<nat>, ch: seq<nat>, c: nat)
    requires g.Valid() && |fat| == g.total + 2 && (ch == [] || IsChain(g, fat, ch))
    requires g.InRange(c) && c !in ch
    ensures var fat' := fat[c := CLUSTER_END];
            IsChain(g, if ch == [] then fat' else fat'[ch[|ch| - 1] := c], ch + [c])
  {
    if ch != [] {
      assert ch[|ch| - 1] in ch;
    }
  }

  /** A list of distinct free clusters can be as long as the free set, and no longer. */
  lemma FreeLeft(g: Geometry, fat: seq<nat>, ch: seq<nat>)
    requires |fat| == g.total + 2 && Distinct(ch) && Elems(ch) <= FreeSet(g, fat)
    ensures |FreeSet(g, fat) - Elems(ch)| == |FreeSet(g, fat)| - |ch|
  {
    DistinctSize(ch);
    assert FreeSet(g, fat) == (FreeSet(g, fat) - Elems(ch)) + Elems(ch);
  }

  /** free_chain in mid-walk: `visited` is done, `cluster` is next, and no cycle has closed yet. */
  ghost predicate WalkState(g: Geometry, fat: seq<nat>, first: nat, visited: seq<nat>, cluster: nat)
    requires |fat| == g.total + 2
  {
    && Walk(g, fat, first, {}) == visited + Walk(g, fat, cluster, Elems(visited))
    && WalkEnd(g, fat, first, {}) == WalkEnd(g, fat, cluster, Elems(visited))
  }

  lemma WalkStateInit(g: Geometry, fat: seq<nat>, first: nat)
    requires |fat| == g.total + 2
    ensures WalkState(g, fat, first, [], first)
  {
    assert Elems([]) == {};
  }

  /** One step to a cluster not yet seen. */
  lemma WalkStateStep(g: Geometry, fat: seq<nat>, first: nat, visited: seq<nat>, c: nat)
    requires |fat| == g.total + 2 && WalkState(g, fat, first, visited, c) && g.InRange(c) && c !in visited
    ensures WalkState(g, fat, first, visited + [c], fat[c])
    ensures c in Walk(g, fat, first, {})
  {
    assert Elems(visited + [c]) == Elems(visited) + {c};
    assert visited + Walk(g, fat, c, Elems(visited))
        == (visited + [c]) + Walk(g, fat, fat[c], Elems(visited) + {c});
    assert (visited + [c])[|visited|] == c;
  }

  /** The walk is over: off the volume, or back at a cluster already seen. */
  lemma WalkStateDone(g: Geometry, fat: seq<nat>, first: nat, visited: seq<nat>, c: nat)
    requires |fat| == g.total + 2 && WalkState(g, fat, first, visited, c) && (!g.InRange(c) || c in visited)
    ensures visited == Walk(g, fat, first, {})
    ensures Cyclic(g, fat, first) <==> g.InRange(c)
  {
  }

  lemma WalkStateFits(g: Geometry, fat: seq<nat>, first: nat, visited: seq<nat>, c: nat)
    requires |fat| == g.total + 2 && WalkState(g, fat, first, visited, c)
    ensures |visited| <= |Walk(g, fat, first, {})| <= g.total
    ensures Elems(visited) <= Elems(Walk(g, fat, first, {}))
  {
    ChainFits(g, Walk(g, fat, first, {}));
  }

  lemma ZeroedStep(fat: seq<nat>, visited: seq<nat>, c: nat)
    requires c < |fat|
    ensures Zeroed(fat, Elems(visited))[c := CLUSTER_FREE] == Zeroed(fat, Elems(visited + [c]))
    ensures c in visited ==> Zeroed(fat, Elems(visited))[c := CLUSTER_FREE] == Zeroed(fat, Elems(visited))
  {
  }

  /** `v` is `v0` with the chain `ch` built out of clusters that were free. */
  ghost predicate Claimed(g: Geometry, v0: Vol, v: Vol, ch: seq<nat>)
    requires Shape(g, v0) && Shape(g, v)
  {
    && IsChain(g, v.fat, ch)
    && Elems(ch) <= FreeSet(g, v0.fat)
    && v.data == v0.data
    && (forall c: nat :: c < |v.fat| && c !in ch ==> v.fat[c] == v0.fat[c])
  }

  /** How many clusters `bytes` bytes take. */
  function Needed(g: Geometry, bytes: nat): (n: nat)
    requires g.spc > 0
    ensures bytes > 0 ==> n > 0
  {
    (bytes + g.Bpc() - 1) / g.Bpc()
  }

  lemma DivStep(x: nat, b: nat)
    requires b > 0
    ensures (x + b) / b == x / b + 1
  {
    var q := x / b;
    assert x == q * b + x % b;
    assert x + b == (q + 1) * b + x % b;
    DivUnique(x + b, b, q + 1, x % b);
  }

  lemma DivUnique(x: nat, b: nat, q: nat, r: nat)
    requires b > 0 && x == q * b + r && r < b
    ensures x / b == q
  {
    var q' := x / b;
    assert x == q' * b + x % b;
    MulGap(q, q', b);
  }

  /** One cluster per full cluster of bytes, and one for the rest. */
  lemma NeededStep(g: Geometry, bytes: nat)
    requires g.spc > 0
    ensures bytes > g.Bpc() ==> Needed(g, bytes) == Needed(g, bytes - g.Bpc()) + 1
    ensures 0 < bytes <= g.Bpc() ==> Needed(g, bytes) == 1
  {
    var b := g.Bpc();
    if bytes > b {
      DivStep(bytes - 1, b);
    } else if 0 < bytes {
      DivUnique(bytes + b - 1, b, 1, bytes - 1);
    }
  }

  /** The clusters alloc_chain asks for: the same count in 32-bit arithmetic. */
  function Asked(g: Geometry, bytes: nat): nat
    requires g.spc > 0
  {
    Quotient(Wrap32(bytes + g.Bpc() - 1), g.Bpc())
  }

  function Wrap32(x: nat): nat { x % 0x1_0000_0000 }

  function Quotient(x: nat, b: nat): nat
    requires b > 0
  {
    x / b
  }

  /** The count is right exactly as long as the sum fits 32 bits; past that nothing at all is asked for. */
  lemma AskedExact(g: Geometry, bytes: nat)
    requires g.Valid() && 0 < bytes && (bytes < 0x1_0000_0000 || bytes + g.Bpc() - 1 < 0x1_0000_0000)
    ensures bytes < 0x1_0000_0000
    ensures Asked(g, bytes) == Needed(g, bytes) <==> bytes + g.Bpc() - 1 < 0x1_0000_0000
    ensures bytes + g.Bpc() - 1 >= 0x1_0000_0000 ==> Asked(g, bytes) == 0
  {
    var b := g.Bpc();
    var x := bytes + b - 1;
    if x >= 0x1_0000_0000 {
      assert x % 0x1_0000_0000 == x - 0x1_0000_0000;
      DivUnique(x - 0x1_0000_0000, b, 0, x - 0x1_0000_0000);
    }
  }

  /** alloc_chain in mid-loop: `ch` is what it has claimed so far. */
  ghost predicate Claiming(g: Geometry, v0: Vol, v: Vol, ch: seq<nat>)
    requires Shape(g, v0) && Shape(g, v)
  {
    if ch == [] then v == v0 else Claimed(g, v0, v, ch)
  }

  lemma ChainNotFree(g: Geometry, fat: seq<nat>, ch: seq<nat>, c: nat)
    requires |fat| == g.total + 2 && IsChain(g, fat, ch) && c in ch
    ensures g.InRange(c) && fat[c] != CLUSTER_FREE
  {
    var i :| 0 <= i < |ch| && ch[i] == c;
    if i < |ch| - 1 {
      assert fat[c] == ch[i + 1];
    }
  }

  lemma FreeAfter(g: Geometry, v0: Vol, v: Vol, ch: seq<nat>)
    requires Shape(g, v0) && Shape(g, v) && Claiming(g, v0, v, ch)
    ensures FreeSet(g, v.fat) == FreeSet(g, v0.fat) - Elems(ch)
    ensures |FreeSet(g, v.fat)| == |FreeSet(g, v0.fat)| - |ch|
    ensures Elems(ch) <= FreeSet(g, v0.fat)
  {
    if ch != [] {
      forall c | c in ch ensures c !in FreeSet(g, v.fat) {
        ChainNotFree(g, v.fat, ch, c);
      }
      assert FreeSet(g, v.fat) == FreeSet(g, v0.fat) - Elems(ch);
      FreeLeft(g, v0.fat, ch);
    } else {
      assert Elems(ch) == {};
    }
  }

  /** The two entry writes that take one more cluster. */
  ghost function ClaimFat(fat: seq<nat>, ch: seq<nat>, c: nat): (r: seq<nat>)
    requires c < |fat| && (ch != [] ==> ch[|ch| - 1] < |fat|)
    ensures |r| == |fat|
  {
    var fat' := fat[c := CLUSTER_END];
    if ch == [] then fat' else fat'[ch[|ch| - 1] := c]
  }

  lemma ClaimStep(g: Geometry, v0: Vol, v: Vol, ch: seq<nat>, c: nat)
    requires Shape(g, v0) && Shape(g, v) && Claiming(g, v0, v, ch) && c in FreeSet(g, v.fat)
    ensures c in FreeSet(g, v0.fat)
    ensures ch != [] ==> ch[|ch| - 1] in FreeSet(g, v0.fat)
    ensures Claimed(g, v0, v.(fat := ClaimFat(v.fat, ch, c)), ch + [c])
  {
    FreeAfter(g, v0, v, ch);
    ExtendChain(g, v.fat, ch, c);
    if ch != [] {
      assert ch[|ch| - 1] in Elems(ch);
    }
    assert forall x :: x in ch + [c] <==> x in ch || x == c;
  }

  /** Freeing a claimed chain gives back exactly the table it was claimed from. */
  lemma Unclaim(g: Geometry, v0: Vol, v: Vol, ch: seq<nat>)
    requires Shape(g, v0) && Shape(g, v) && Claimed(g, v0, v, ch)
    ensures Walk(g, v.fat, ch[0], {}) == ch
    ensures v.(fat := Zeroed(v.fat, Elems(ch))) == v0
  {
    WalkOfChain(g, v.fat, ch, {});
    var fat := Zeroed(v.fat, Elems(ch));
    forall c: nat | c < |fat| ensures fat[c] == v0.fat[c] {
      if c in ch { assert c in Elems(ch); }
    }
    assert fat == v0.fat;
  }
}
