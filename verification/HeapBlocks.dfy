/** kernel/heap.c: what the block structure of the heap is, and what each relinking step does to it. */
module HeapBlocks {
  import opened Bytes
  import opened HeapCells

  /** One block: a header at `addr`, `size` payload bytes, a footer. */
  datatype Block = Block(addr: nat, size: nat, used: bool) {
    function Pay(): nat { addr + HEAD }
    function Foot(): nat { addr + HEAD + size }
    function End(): nat { addr + OVERHEAD + size }
    function State(): Byte { if used then USED else AVAILABLE }
    predicate Covers(x: nat) { Pay() <= x < Foot() }
  }

  /** The blocks lie end to end from `lo` to `hi`. */
  ghost predicate Tiles(bs: seq<Block>, lo: nat, hi: nat) {
    if bs == [] then lo == hi else bs[0].addr == lo && Tiles(bs[1..], bs[0].End(), hi)
  }

  lemma {:induction false} TilesIn(bs: seq<Block>, lo: nat, hi: nat)
    requires Tiles(bs, lo, hi)
    ensures lo <= hi
    ensures forall b :: b in bs ==> lo <= b.addr && b.End() <= hi
    ensures forall b, c :: b in bs && c in bs && b != c ==> b.End() <= c.addr || c.End() <= b.addr
  {
    if bs != [] {
      TilesIn(bs[1..], bs[0].End(), hi);
      forall b | b in bs ensures b == bs[0] || b in bs[1..] {}
    }
  }

  lemma {:induction false} TilesJoin(xs: seq<Block>, bs: seq<Block>, lo: nat, mid: nat, hi: nat)
    requires Tiles(xs, lo, mid) && Tiles(bs, mid, hi)
    ensures Tiles(xs + bs, lo, hi)
  {
    if xs == [] {
      assert xs + bs == bs;
    } else {
      TilesJoin(xs[1..], bs, xs[0].End(), mid, hi);
      assert (xs + bs)[1..] == xs[1..] + bs;
    }
  }

  /** Where the block after the first `|as|` starts. */
  lemma {:induction false} TilesPart(xs: seq<Block>, bs: seq<Block>, lo: nat, hi: nat) returns (mid: nat)
    requires Tiles(xs + bs, lo, hi)
    ensures Tiles(xs, lo, mid) && Tiles(bs, mid, hi)
  {
    if xs == [] {
      assert xs + bs == bs;
      mid := lo;
    } else {
      assert (xs + bs)[1..] == xs[1..] + bs;
      mid := TilesPart(xs[1..], bs, xs[0].End(), hi);
    }
  }

  lemma {:induction false} TilesLast(bs: seq<Block>, lo: nat, hi: nat)
    requires Tiles(bs, lo, hi) && bs != []
    ensures bs[|bs| - 1].End() == hi
  {
    if |bs| > 1 {
      TilesLast(bs[1..], bs[0].End(), hi);
    }
  }

  lemma TilesNext(bs: seq<Block>, lo: nat, hi: nat, i: nat)
    requires Tiles(bs, lo, hi) && i < |bs|
    ensures bs[0].addr == lo
    ensures i + 1 < |bs| ==> bs[i].End() == bs[i + 1].addr
    ensures i + 1 == |bs| ==> bs[i].End() == hi
  {
    assert bs == bs[..i + 1] + bs[i + 1..];
    var mid := TilesPart(bs[..i + 1], bs[i + 1..], lo, hi);
    TilesLast(bs[..i + 1], lo, mid);
  }

  /** Bytes, overhead included, of the blocks in state `used` that are not in `off`. */
  ghost function Total(bs: seq<Block>, used: bool, off: set<nat>): nat {
    if bs == [] then 0
    else (if bs[0].used == used && bs[0].addr !in off then bs[0].size + OVERHEAD else 0) + Total(bs[1..], used, off)
  }

  lemma {:induction false} TotalJoin(xs: seq<Block>, bs: seq<Block>, used: bool, off: set<nat>)
    ensures Total(xs + bs, used, off) == Total(xs, used, off) + Total(bs, used, off)
  {
    if xs == [] {
      assert xs + bs == bs;
    } else {
      TotalJoin(xs[1..], bs, used, off);
      assert (xs + bs)[1..] == xs[1..] + bs;
    }
  }

  lemma {:induction false} TotalSame(bs: seq<Block>, used: bool, off: set<nat>, off': set<nat>)
    requires forall b :: b in bs && b.used == used ==> (b.addr in off <==> b.addr in off')
    ensures Total(bs, used, off) == Total(bs, used, off')
  {
    if bs != [] {
      assert bs[0] in bs;
      TotalSame(bs[1..], used, off, off');
    }
  }

  lemma {:induction false} TotalNone(bs: seq<Block>, used: bool, off: set<nat>)
    requires forall b :: b in bs ==> b.addr in off || b.used != used
    ensures Total(bs, used, off) == 0
  {
    if bs != [] {
      assert bs[0] in bs;
      TotalNone(bs[1..], used, off);
    }
  }

  /** Everything in the heap is either available or used. */
  lemma {:induction false} TotalAll(bs: seq<Block>, lo: nat, hi: nat)
    requires Tiles(bs, lo, hi)
    ensures Total(bs, true, {}) + Total(bs, false, {}) == hi - lo
  {
    if bs != [] {
      TotalAll(bs[1..], bs[0].End(), hi);
    }
  }

  /** Taking block `b` off the list of its state lowers the total by its bytes. */
  lemma {:induction false} TotalOff(bs: seq<Block>, lo: nat, hi: nat, off: set<nat>, b: Block)
    requires Tiles(bs, lo, hi) && b in bs && b.addr !in off
    ensures Total(bs, b.used, off) == Total(bs, b.used, off + {b.addr}) + b.size + OVERHEAD
    ensures Total(bs, !b.used, off) == Total(bs, !b.used, off + {b.addr})
  {
    TilesIn(bs, lo, hi);
    if bs[0] == b {
      forall c | c in bs[1..] ensures c.addr != b.addr {
        TilesIn(bs[1..], bs[0].End(), hi);
      }
      TotalSame(bs[1..], b.used, off, off + {b.addr});
      TotalSame(bs[1..], !b.used, off, off + {b.addr});
    } else {
      assert bs[0].addr != b.addr;
      TotalOff(bs[1..], bs[0].End(), hi, off, b);
    }
  }

  // ---------------------------------------------------------------------------
  // The two lists
  // ---------------------------------------------------------------------------

  datatype Which = Avail | Used {
    predicate Holding() { Used? }
  }

  const CTL := 232              // sizeof(el_ctl_t)

  /** The fixed nodes of a list, inside the control block at `ctl`. */
  function First(ctl: nat, w: Which): nat { ctl + if w.Avail? then 24 else 120 }

  function Last(ctl: nat, w: Which): nat { First(ctl, w) + HEAD }

  ghost predicate Sentinel(ctl: nat, a: nat) {
    a == First(ctl, Avail) || a == Last(ctl, Avail) || a == First(ctl, Used) || a == Last(ctl, Used)
  }

  ghost function Ring(ctl: nat, w: Which, list: seq<nat>): seq<nat> {
    [First(ctl, w)] + list + [Last(ctl, w)]
  }

  /** Consecutive nodes point at each other. */
  ghost predicate Links(head: map<nat, Header>, ns: seq<nat>) {
    && (forall i :: 0 <= i < |ns| ==> ns[i] in head)
    && (forall i :: 0 <= i < |ns| - 1 ==> head[ns[i]].next == ns[i + 1])
    && (forall i :: 0 < i < |ns| ==> head[ns[i]].prev == ns[i - 1])
  }

  lemma LinksFrame(head: map<nat, Header>, head': map<nat, Header>, ns: seq<nat>)
    requires Links(head, ns)
    requires forall a :: a in ns ==> a in head' && head'[a].next == head[a].next && head'[a].prev == head[a].prev
    ensures Links(head', ns)
  {
  }

  /** el_remove_block on the headers. */
  ghost function Unlink(head: map<nat, Header>, b: nat): map<nat, Header>
    requires b in head && head[b].prev in head && head[b].next in head
  {
    var p, n := head[b].prev, head[b].next;
    var h1 := head[p := head[p].(next := n)];
    var h2 := h1[n := h1[n].(prev := p)];
    h2[b := h2[b].(next := NULL, prev := NULL)]
  }

  /** el_add_block_front on the headers. */
  ghost function Link(head: map<nat, Header>, first: nat, b: nat): map<nat, Header>
    requires b in head && first in head && head[first].next in head
  {
    var n := head[first].next;
    var h1 := head[b := head[b].(next := n)];
    var h2 := h1[n := h1[n].(prev := b)];
    var h3 := h2[b := h2[b].(prev := first)];
    h3[first := h3[first].(next := b)]
  }

  /** Headers differ in their links at most. */
  ghost predicate SameTags(head: map<nat, Header>, head': map<nat, Header>) {
    && head'.Keys == head.Keys
    && forall a :: a in head ==> head'[a].size == head[a].size && head'[a].state == head[a].state
  }

  lemma UnlinkRing(head: map<nat, Header>, ns: seq<nat>, p: nat)
    requires Distinct(ns) && Links(head, ns) && 0 < p < |ns| - 1
    ensures var b := ns[p];
            head[b].prev == ns[p - 1] && head[b].next == ns[p + 1] && head[b].prev in head && head[b].next in head
            && Links(Unlink(head, b), ns[..p] + ns[p + 1..]) && SameTags(head, Unlink(head, b))
            && forall a :: a in head && a !in ns ==> Unlink(head, b)[a] == head[a]
  {
    var b := ns[p];
    assert head[b].prev == ns[p - 1] && head[b].next == ns[p + 1];
    var h, ms := Unlink(head, b), ns[..p] + ns[p + 1..];
    forall i | 0 <= i < |ms| - 1 ensures h[ms[i]].next == ms[i + 1] {
      var k := if i < p then i else i + 1;
      assert ms[i] == ns[k] && (i != p - 1 ==> head[ns[k]].next == ns[k + 1]);
    }
    forall i | 0 < i < |ms| ensures h[ms[i]].prev == ms[i - 1] {
      var k := if i < p then i else i + 1;
      assert ms[i] == ns[k] && (i != p ==> head[ns[k]].prev == ns[k - 1]);
    }
  }

  lemma LinkRing(head: map<nat, Header>, ns: seq<nat>, b: nat)
    requires Distinct(ns) && Links(head, ns) && |ns| >= 2 && b in head && b !in ns
    ensures head[ns[0]].next == ns[1] && ns[0] in head && ns[1] in head
            && Links(Link(head, ns[0], b), [ns[0], b] + ns[1..]) && SameTags(head, Link(head, ns[0], b))
            && forall a :: a in head && a !in ns && a != b ==> Link(head, ns[0], b)[a] == head[a]
  {
    assert head[ns[0]].next == ns[1];
    var h, ms := Link(head, ns[0], b), [ns[0], b] + ns[1..];
    forall i | 0 <= i < |ms| - 1 ensures h[ms[i]].next == ms[i + 1] {
      if i >= 2 {
        assert ms[i] == ns[i - 1] && ms[i + 1] == ns[i];
      }
    }
    forall i | 0 < i < |ms| ensures h[ms[i]].prev == ms[i - 1] {
      if i >= 2 {
        assert ms[i] == ns[i - 1] && (i > 2 ==> ms[i - 1] == ns[i - 2] && head[ns[i - 1]].prev == ns[i - 2]);
      }
    }
  }

  // ---------------------------------------------------------------------------
  // The whole structure
  // ---------------------------------------------------------------------------

  /** The heap from `lo` to `hi`: its blocks in address order and the two lists in list order. */
  datatype View = View(lo: nat, hi: nat, bs: seq<Block>, av: seq<nat>, us: seq<nat>) {
    function List(w: Which): seq<nat> { if w.Avail? then av else us }
    function WithList(w: Which, l: seq<nat>): View { if w.Avail? then this.(av := l) else this.(us := l) }
  }

  ghost predicate Starts(bs: seq<Block>, a: nat) { exists b :: b in bs && b.addr == a }

  ghost predicate Ends(bs: seq<Block>, f: nat) { exists b :: b in bs && b.Foot() == f }

  ghost predicate Holds(bs: seq<Block>, a: nat, used: bool) { exists b :: b in bs && b.addr == a && b.used == used }

  ghost function Addrs(bs: seq<Block>): set<nat> { set b | b in bs :: b.addr }

  /** Header and footer of `b` carry its size, and the header its state unless it is being relinked. */
  ghost predicate Tagged(C: Cells, b: Block, off: set<nat>) {
    && b.addr in C.head && C.head[b.addr].size == b.size
    && b.Foot() in C.foot && C.foot[b.Foot()] == b.size
    && (b.addr !in off ==> C.head[b.addr].state == b.State())
  }

  ghost predicate AllTagged(C: Cells, bs: seq<Block>, off: set<nat>) {
    forall b :: b in bs ==> Tagged(C, b, off)
  }

  /** There are no other cells than those of the blocks and the fixed nodes. */
  ghost predicate Exact(ctl: nat, C: Cells, bs: seq<Block>) {
    && (forall a :: a in C.head <==> Sentinel(ctl, a) || Starts(bs, a))
    && (forall f :: f in C.foot <==> Ends(bs, f))
  }

  ghost predicate Fixed(ctl: nat, head: map<nat, Header>) {
    forall w: Which :: First(ctl, w) in head && Last(ctl, w) in head
                       && head[First(ctl, w)].state == BEGIN && head[Last(ctl, w)].state == END
  }

  /** List `w` is linked and holds, once each, the blocks of its state that are not in `off`. */
  ghost predicate Listed(ctl: nat, head: map<nat, Header>, w: Which, list: seq<nat>, bs: seq<Block>, off: set<nat>) {
    Links(head, Ring(ctl, w, list)) && OnList(list, bs, w.Holding(), off)
  }

  ghost predicate OnList(list: seq<nat>, bs: seq<Block>, used: bool, off: set<nat>) {
    && Distinct(list)
    && forall a :: a in list <==> a !in off && Holds(bs, a, used)
  }

  /** The heap structure while the blocks at `off` are in neither list. */
  ghost predicate Core(ctl: nat, C: Cells, V: View, off: set<nat>) {
    && 0 < ctl && ctl + CTL <= V.lo && Tiles(V.bs, V.lo, V.hi)
    && AllTagged(C, V.bs, off) && Exact(ctl, C, V.bs) && Fixed(ctl, C.head)
    && Listed(ctl, C.head, Avail, V.av, V.bs, off) && Listed(ctl, C.head, Used, V.us, V.bs, off)
  }

  ghost predicate NoTwoAvailable(bs: seq<Block>) {
    forall i :: 0 <= i < |bs| - 1 ==> bs[i].used || bs[i + 1].used
  }

  ghost predicate Handed(bs: seq<Block>, x: nat) { exists b :: b in bs && b.used && b.Covers(x) }

  /** The bytes handed out. */
  ghost function Payload(bs: seq<Block>): iset<nat> {
    iset x: nat | Handed(bs, x)
  }

  lemma SentinelBelow(ctl: nat, a: nat, lo: nat)
    requires Sentinel(ctl, a) && ctl + CTL <= lo
    ensures a + HEAD <= lo
  {
  }

  lemma HoldsIn(V: View, a: nat, used: bool)
    requires Tiles(V.bs, V.lo, V.hi) && Holds(V.bs, a, used)
    ensures V.lo <= a && !Holds(V.bs, a, !used) && Starts(V.bs, a)
  {
    TilesIn(V.bs, V.lo, V.hi);
  }

  /** The nodes of a list are the two fixed ones, below the heap, and blocks. */
  lemma RingNodes(ctl: nat, w: Which, V: View, list: seq<nat>, off: set<nat>)
    requires Tiles(V.bs, V.lo, V.hi) && ctl + CTL <= V.lo && OnList(list, V.bs, w.Holding(), off)
    ensures Distinct(Ring(ctl, w, list))
    ensures forall a :: a in Ring(ctl, w, list) ==> a == First(ctl, w) || a == Last(ctl, w) || a in list
    ensures forall a :: a in list ==> V.lo <= a
  {
    forall a | a in list ensures V.lo <= a {
      HoldsIn(V, a, w.Holding());
    }
    var ns := Ring(ctl, w, list);
    forall i, j | 0 <= i < j < |ns| ensures ns[i] != ns[j] {
      assert 0 < i ==> ns[i] == list[i - 1] && ns[i] in list;
      assert j < |ns| - 1 ==> ns[j] == list[j - 1] && ns[j] in list;
    }
  }

  lemma LinksNodes(head: map<nat, Header>, ns: seq<nat>, x: nat)
    requires Links(head, ns) && x in ns
    ensures x in head
  {
  }

  /** Relinking list `w` leaves the other list alone. */
  lemma OtherList(ctl: nat, head: map<nat, Header>, head': map<nat, Header>, V: View, w: Which, u: Which,
                  off: set<nat>, off': set<nat>, a: nat)
    requires Tiles(V.bs, V.lo, V.hi) && ctl + CTL <= V.lo && w != u
    requires Listed(ctl, head, w, V.List(w), V.bs, off) && Listed(ctl, head, u, V.List(u), V.bs, off)
    requires Holds(V.bs, a, w.Holding()) && head'.Keys == head.Keys
    requires forall x :: x in head && x !in Ring(ctl, w, V.List(w)) && x != a ==> head'[x] == head[x]
    requires forall x :: x != a ==> (x in off <==> x in off')
    ensures Listed(ctl, head', u, V.List(u), V.bs, off')
  {
    hide Tiles, Links, Holds, Ring;
    HoldsIn(V, a, w.Holding());
    RingNodes(ctl, w, V, V.List(w), off);
    RingNodes(ctl, u, V, V.List(u), off);
    var ns := Ring(ctl, u, V.List(u));
    forall x | x in ns ensures x in head && head'[x] == head[x] {
      LinksNodes(head, ns, x);
      if x in V.List(u) {
        HoldsIn(V, x, u.Holding());
      }
    }
    LinksFrame(head, head', ns);
  }

  lemma TagsFrame(C: Cells, C': Cells, bs: seq<Block>, off: set<nat>, off': set<nat>)
    requires AllTagged(C, bs, off) && SameTags(C.head, C'.head) && C'.foot == C.foot
    requires forall b :: b in bs && b.addr !in off' ==> C.head[b.addr].state == b.State()
    ensures AllTagged(C', bs, off')
  {
  }

  lemma KeysFrame(ctl: nat, C: Cells, C': Cells, bs: seq<Block>)
    requires Exact(ctl, C, bs) && Fixed(ctl, C.head) && SameTags(C.head, C'.head) && C'.foot == C.foot
    ensures Exact(ctl, C', bs) && Fixed(ctl, C'.head)
  {
    hide Starts, Ends, Sentinel;
  }

  ghost function Position(list: seq<nat>, a: nat): (p: nat)
    requires a in list
    ensures p < |list| && list[p] == a
  {
    var p :| 0 <= p < |list| && list[p] == a;
    p
  }

  ghost function Without(list: seq<nat>, a: nat): seq<nat>
    requires a in list
  {
    var p := Position(list, a);
    list[..p] + list[p + 1..]
  }

  lemma OnListWithout(list: seq<nat>, bs: seq<Block>, used: bool, off: set<nat>, a: nat)
    requires OnList(list, bs, used, off) && a in list
    ensures OnList(Without(list, a), bs, used, off + {a})
  {
    hide Holds;
    var p, l := Position(list, a), Without(list, a);
    forall x | x in list && x != a ensures x in l {
      var q := Position(list, x);
      assert if q < p then l[q] == x else l[q - 1] == x;
    }
  }

  /** el_remove_block: `a` leaves list `w` and is in neither. */
  lemma UnlinkCore(ctl: nat, C: Cells, V: View, off: set<nat>, w: Which, a: nat)
    requires Core(ctl, C, V, off) && a in V.List(w)
    ensures a in C.head && C.head[a].prev in C.head && C.head[a].next in C.head
    ensures Core(ctl, C.(head := Unlink(C.head, a)), V.WithList(w, Without(V.List(w), a)), off + {a})
    ensures SameTags(C.head, Unlink(C.head, a))
  {
    hide Tiles, Links, Unlink, AllTagged, Exact, Fixed, SameTags, Without;
    var list := V.List(w);
    var ns, p := Ring(ctl, w, list), Position(list, a);
    RingNodes(ctl, w, V, list, off);
    RingWithout(ctl, w, list, a);
    LinksNodes(C.head, ns, a);
    UnlinkRing(C.head, ns, p + 1);
    var head' := Unlink(C.head, a);
    StatesKept(C, V.bs, off, off + {a});
    TagsFrame(C, C.(head := head'), V.bs, off, off + {a});
    KeysFrame(ctl, C, C.(head := head'), V.bs);
    OnListWithout(list, V.bs, w.Holding(), off, a);
    OtherList(ctl, C.head, head', V, w, if w.Avail? then Used else Avail, off, off + {a}, a);
  }

  lemma StatesKept(C: Cells, bs: seq<Block>, off: set<nat>, off': set<nat>)
    requires AllTagged(C, bs, off) && off <= off'
    ensures forall b :: b in bs ==> b.addr in C.head
    ensures forall b :: b in bs && b.addr !in off' ==> C.head[b.addr].state == b.State()
  {
  }

  lemma RingWithout(ctl: nat, w: Which, list: seq<nat>, a: nat)
    requires a in list
    ensures var ns, p := Ring(ctl, w, list), Position(list, a) + 1;
            ns[..p] + ns[p + 1..] == Ring(ctl, w, Without(list, a)) && ns[p] == a
  {
  }

  /** el_add_block_front: block `b`, in neither list, joins list `w` of its state. */
  lemma LinkCore(ctl: nat, C: Cells, V: View, off: set<nat>, w: Which, b: Block)
    requires Core(ctl, C, V, off) && b in V.bs && b.addr in off && b.used == w.Holding()
    requires b.addr in C.head && C.head[b.addr].state == b.State()
    ensures var f := First(ctl, w);
            f in C.head && C.head[f].next in C.head
            && Core(ctl, C.(head := Link(C.head, f, b.addr)), V.WithList(w, [b.addr] + V.List(w)), off - {b.addr})
            && SameTags(C.head, Link(C.head, f, b.addr))
  {
    hide Tiles, Links, Link, AllTagged, Exact, Fixed, SameTags, Holds;
    var list, a := V.List(w), b.addr;
    var ns := Ring(ctl, w, list);
    RingNodes(ctl, w, V, list, off);
    HoldsOf(V, b);
    LinkRing(C.head, ns, a);
    var head' := Link(C.head, ns[0], a);
    assert [ns[0], a] + ns[1..] == Ring(ctl, w, [a] + list);
    StatesAdded(C, V, off, b);
    TagsFrame(C, C.(head := head'), V.bs, off, off - {a});
    KeysFrame(ctl, C, C.(head := head'), V.bs);
    OtherList(ctl, C.head, head', V, w, if w.Avail? then Used else Avail, off, off - {a}, a);
  }

  lemma HoldsOf(V: View, b: Block)
    requires b in V.bs && Tiles(V.bs, V.lo, V.hi)
    ensures Holds(V.bs, b.addr, b.used) && V.lo <= b.addr
  {
    TilesIn(V.bs, V.lo, V.hi);
  }

  lemma StatesAdded(C: Cells, V: View, off: set<nat>, b: Block)
    requires Tiles(V.bs, V.lo, V.hi) && AllTagged(C, V.bs, off) && b in V.bs
    requires b.addr in C.head && C.head[b.addr].state == b.State()
    ensures forall c :: c in V.bs ==> c.addr in C.head
    ensures forall c :: c in V.bs && c.addr !in off - {b.addr} ==> C.head[c.addr].state == c.State()
  {
    TilesIn(V.bs, V.lo, V.hi);
  }

  // ---------------------------------------------------------------------------
  // Replacing blocks that are in neither list
  // ---------------------------------------------------------------------------

  ghost function Feet(bs: seq<Block>): set<nat> { set b | b in bs :: b.Foot() }

  /** `mid` lies from `x` to `y` between `pre` and `post`, which reach from `lo` to `hi`. */
  ghost predicate Parted(pre: seq<Block>, mid: seq<Block>, post: seq<Block>, lo: nat, x: nat, y: nat, hi: nat) {
    Tiles(pre, lo, x) && Tiles(mid, x, y) && Tiles(post, y, hi)
  }

  lemma PartedTiles(pre: seq<Block>, mid: seq<Block>, post: seq<Block>, lo: nat, x: nat, y: nat, hi: nat)
    requires Parted(pre, mid, post, lo, x, y, hi)
    ensures Tiles(pre + mid + post, lo, hi)
  {
    TilesJoin(pre, mid, lo, x, y);
    TilesJoin(pre + mid, post, lo, y, hi);
  }

  lemma PartedApart(pre: seq<Block>, mid: seq<Block>, post: seq<Block>, lo: nat, x: nat, y: nat, hi: nat)
    requires Parted(pre, mid, post, lo, x, y, hi)
    ensures forall b :: b in pre || b in post ==> b.addr !in Addrs(mid) && b.Foot() !in Feet(mid)
  {
    TilesIn(pre, lo, x);
    TilesIn(mid, x, y);
    TilesIn(post, y, hi);
  }

  /** Off the lists or not, the blocks outside `mid` are those of `pre` and `post`. */
  lemma HoldsOutside(pre: seq<Block>, mid: seq<Block>, post: seq<Block>, lo: nat, x: nat, y: nat, hi: nat, a: nat,
                     used: bool)
    requires Parted(pre, mid, post, lo, x, y, hi)
    ensures a !in Addrs(mid) && Holds(pre + mid + post, a, used) <==> Holds(pre + post, a, used)
  {
    PartedApart(pre, mid, post, lo, x, y, hi);
    if Holds(pre + post, a, used) {
      var b :| b in pre + post && b.addr == a && b.used == used;
      assert b in pre + mid + post;
    }
    if a !in Addrs(mid) && Holds(pre + mid + post, a, used) {
      var b :| b in pre + mid + post && b.addr == a && b.used == used;
      assert b !in mid;
      assert b in pre + post;
    }
  }

  lemma OnListOutside(pre: seq<Block>, mid: seq<Block>, mid': seq<Block>, post: seq<Block>,
                      lo: nat, x: nat, y: nat, hi: nat, y': nat, hi': nat, list: seq<nat>, used: bool)
    requires Parted(pre, mid, post, lo, x, y, hi) && Parted(pre, mid', post, lo, x, y', hi')
    requires OnList(list, pre + mid + post, used, Addrs(mid))
    ensures OnList(list, pre + mid' + post, used, Addrs(mid'))
  {
    hide Parted, Holds, Addrs;
    forall a
      ensures a !in Addrs(mid) && Holds(pre + mid + post, a, used) <==>
              a !in Addrs(mid') && Holds(pre + mid' + post, a, used)
    {
      HoldsOutside(pre, mid, post, lo, x, y, hi, a, used);
      HoldsOutside(pre, mid', post, lo, x, y', hi', a, used);
    }
  }

  lemma TotalOutside(pre: seq<Block>, mid: seq<Block>, post: seq<Block>, lo: nat, x: nat, y: nat, hi: nat, used: bool)
    requires Parted(pre, mid, post, lo, x, y, hi)
    ensures Total(pre + mid + post, used, Addrs(mid)) == Total(pre + post, used, {})
  {
    hide Parted, Total;
    PartedApart(pre, mid, post, lo, x, y, hi);
    var off := Addrs(mid);
    TotalJoin(pre + mid, post, used, off);
    TotalJoin(pre, mid, used, off);
    TotalNone(mid, used, off);
    TotalSame(pre, used, off, {});
    TotalSame(post, used, off, {});
    TotalJoin(pre, post, used, {});
  }

  /** The cells agree except on `mid`, whose headers and footers give way to those of `mid'`. */
  ghost predicate Recelled(C: Cells, C': Cells, mid: seq<Block>, mid': seq<Block>) {
    && C'.head.Keys == C.head.Keys - Addrs(mid) + Addrs(mid')
    && C'.foot.Keys == C.foot.Keys - Feet(mid) + Feet(mid')
    && (forall a :: a in C.head && a !in Addrs(mid) && a !in Addrs(mid') ==> C'.head[a] == C.head[a])
    && (forall f :: f in C.foot && f !in Feet(mid) && f !in Feet(mid') ==> C'.foot[f] == C.foot[f])
    && AllTagged(C', mid', Addrs(mid'))
  }

  lemma ExactOutside(ctl: nat, C: Cells, C': Cells, pre: seq<Block>, mid: seq<Block>, mid': seq<Block>,
                     post: seq<Block>,
                     lo: nat, x: nat, y: nat, hi: nat)
    requires Parted(pre, mid, post, lo, x, y, hi) && ctl + CTL <= lo
    requires Recelled(C, C', mid, mid') && Exact(ctl, C, pre + mid + post)
    ensures Exact(ctl, C', pre + mid' + post)
  {
    hide AllTagged, Tiles;
    PartedApart(pre, mid, post, lo, x, y, hi);
    TilesIn(pre, lo, x);
    TilesIn(mid, x, y);
    forall a ensures a in C'.head <==> Sentinel(ctl, a) || Starts(pre + mid' + post, a) {
      StartsIn(pre, mid, post, a);
      StartsIn(pre, mid', post, a);
    }
    forall f ensures f in C'.foot <==> Ends(pre + mid' + post, f) {
      EndsIn(pre, mid, post, f);
      EndsIn(pre, mid', post, f);
    }
  }

  lemma StartsIn(pre: seq<Block>, mid: seq<Block>, post: seq<Block>, a: nat)
    ensures Starts(pre + mid + post, a) <==> a in Addrs(pre) || a in Addrs(mid) || a in Addrs(post)
  {
    if a in Addrs(pre) || a in Addrs(mid) || a in Addrs(post) {
      var b :| (b in pre || b in mid || b in post) && b.addr == a;
      assert b in pre + mid + post;
    }
  }

  lemma EndsIn(pre: seq<Block>, mid: seq<Block>, post: seq<Block>, f: nat)
    ensures Ends(pre + mid + post, f) <==> f in Feet(pre) || f in Feet(mid) || f in Feet(post)
  {
    if f in Feet(pre) || f in Feet(mid) || f in Feet(post) {
      var b :| (b in pre || b in mid || b in post) && b.Foot() == f;
      assert b in pre + mid + post;
    }
  }

  lemma TagsOutside(C: Cells, C': Cells, pre: seq<Block>, mid: seq<Block>, mid': seq<Block>, post: seq<Block>,
                    lo: nat, x: nat, y: nat, hi: nat, y': nat, hi': nat)
    requires Parted(pre, mid, post, lo, x, y, hi) && Parted(pre, mid', post, lo, x, y', hi')
    requires Recelled(C, C', mid, mid') && AllTagged(C, pre + mid + post, Addrs(mid))
    ensures AllTagged(C', pre + mid' + post, Addrs(mid'))
  {
    hide Parted, Addrs, Feet;
    PartedApart(pre, mid, post, lo, x, y, hi);
    PartedApart(pre, mid', post, lo, x, y', hi');
    forall b | b in pre + mid' + post ensures Tagged(C', b, Addrs(mid')) {
      if b !in mid' {
        assert b in pre + mid + post;
        assert Tagged(C, b, Addrs(mid));
      }
    }
  }

  /** Blocks in neither list may be replaced by others that cover the same span: splitting, merging
      and changing state keep the structure. */
  lemma Resplice(ctl: nat, C: Cells, C': Cells, V: View, V': View, pre: seq<Block>, mid: seq<Block>, mid': seq<Block>,
                 post: seq<Block>,
                 x: nat, y: nat, y': nat)
    requires Core(ctl, C, V, Addrs(mid)) && V.bs == pre + mid + post
    requires Parted(pre, mid, post, V.lo, x, y, V.hi) && Parted(pre, mid', post, V.lo, x, y', V'.hi)
    requires Recelled(C, C', mid, mid')
    requires V' == View(V.lo, V'.hi, pre + mid' + post, V.av, V.us)
    ensures Core(ctl, C', V', Addrs(mid'))
    ensures forall used :: Total(V'.bs, used, Addrs(mid')) == Total(V.bs, used, Addrs(mid))
  {
    hide Tiles, Parted, AllTagged, Exact, Links, OnList, Total, Recelled, Fixed, Ring;
    PartedTiles(pre, mid', post, V.lo, x, y', V'.hi);
    ExactOutside(ctl, C, C', pre, mid, mid', post, V.lo, x, y, V.hi);
    TagsOutside(C, C', pre, mid, mid', post, V.lo, x, y, V.hi, y', V'.hi);
    FixedOutside(ctl, C, C', pre, mid, mid', post, V.lo, x, y, V.hi, y', V'.hi);
    forall w: Which ensures Links(C'.head, Ring(ctl, w, V.List(w))) {
      LinksOutside(ctl, C, C', V, pre, mid, mid', post, x, y, y', V'.hi, w);
    }
    assert Links(C'.head, Ring(ctl, Avail, V.av)) && Links(C'.head, Ring(ctl, Used, V.us)) by {
      assert V.List(Avail) == V.av && V.List(Used) == V.us;
    }
    OnListOutside(pre, mid, mid', post, V.lo, x, y, V.hi, y', V'.hi, V.av, false);
    OnListOutside(pre, mid, mid', post, V.lo, x, y, V.hi, y', V'.hi, V.us, true);
    forall used ensures Total(V'.bs, used, Addrs(mid')) == Total(V.bs, used, Addrs(mid)) {
      TotalOutside(pre, mid, post, V.lo, x, y, V.hi, used);
      TotalOutside(pre, mid', post, V.lo, x, y', V'.hi, used);
    }
  }

  lemma FixedOutside(ctl: nat, C: Cells, C': Cells, pre: seq<Block>, mid: seq<Block>, mid': seq<Block>,
                     post: seq<Block>,
                     lo: nat, x: nat, y: nat, hi: nat, y': nat, hi': nat)
    requires Recelled(C, C', mid, mid') && Fixed(ctl, C.head) && ctl + CTL <= lo
    requires Parted(pre, mid, post, lo, x, y, hi) && Parted(pre, mid', post, lo, x, y', hi')
    ensures Fixed(ctl, C'.head)
  {
    hide AllTagged, Tiles;
    TilesIn(pre, lo, x);
    TilesIn(mid, x, y);
    TilesIn(mid', x, y');
  }

  lemma LinksOutside(ctl: nat, C: Cells, C': Cells, V: View, pre: seq<Block>, mid: seq<Block>, mid': seq<Block>,
                     post: seq<Block>,
                     x: nat, y: nat, y': nat, hi': nat, w: Which)
    requires Core(ctl, C, V, Addrs(mid)) && V.bs == pre + mid + post
    requires Parted(pre, mid, post, V.lo, x, y, V.hi) && Parted(pre, mid', post, V.lo, x, y', hi')
    requires Recelled(C, C', mid, mid')
    ensures Links(C'.head, Ring(ctl, w, V.List(w)))
  {
    hide AllTagged, Tiles, Links, Exact, Ring, Holds;
    var list := V.List(w);
    RingNodes(ctl, w, V, list, Addrs(mid));
    OnListOutside(pre, mid, mid', post, V.lo, x, y, V.hi, y', hi', list, w.Holding());
    TilesIn(pre, V.lo, x);
    TilesIn(mid, x, y);
    TilesIn(mid', x, y');
    var ns := Ring(ctl, w, list);
    forall a | a in ns ensures a in C.head && a in C'.head && C'.head[a] == C.head[a] {
      LinksNodes(C.head, ns, a);
    }
    LinksFrame(C.head, C'.head, ns);
  }

  // ---------------------------------------------------------------------------
  // What the operations do to the sequence of blocks
  // ---------------------------------------------------------------------------

  /** Block `i` handed out for `n` bytes: what is left over becomes a block if it can hold its own overhead. */
  ghost function Taken(b: Block, n: nat): seq<Block> {
    if b.size < n + OVERHEAD then [b.(used := true)]
    else [Block(b.addr, n, true), Block(b.addr + n + OVERHEAD, b.size - n - OVERHEAD, false)]
  }

  ghost function Carve(bs: seq<Block>, i: nat, n: nat): seq<Block>
    requires i < |bs|
  {
    bs[..i] + Taken(bs[i], n) + bs[i + 1..]
  }

  /** Blocks `i` and `i + 1` as one, if both exist and are available. */
  ghost function MergeAt(bs: seq<Block>, i: nat): seq<Block> {
    if i + 1 < |bs| && !bs[i].used && !bs[i + 1].used
    then bs[..i] + [Block(bs[i].addr, bs[i].size + OVERHEAD + bs[i + 1].size, false)] + bs[i + 2..]
    else bs
  }

  /** Block `i` given back: merged with an available block above, then with one below. */
  ghost function Freed(bs: seq<Block>, i: nat): seq<Block>
    requires i < |bs|
  {
    var up := MergeAt(bs[i := bs[i].(used := false)], i);
    if i > 0 then MergeAt(up, i - 1) else up
  }

  /** Nothing but block `b`'s own tags touches its span. */
  lemma SpanClear(ctl: nat, C: Cells, V: View, off: set<nat>, b: Block)
    requires Core(ctl, C, V, off) && b in V.bs
    ensures forall a :: a in C.head && a != b.addr ==> a + HEAD <= b.addr || b.End() <= a
    ensures forall f :: f in C.foot && f != b.Foot() ==> f + FOOT <= b.addr || b.End() <= f
    ensures V.lo <= b.addr && b.End() <= V.hi && Tagged(C, b, off)
  {
    hide Listed, Fixed, Tiles;
    TilesIn(V.bs, V.lo, V.hi);
    forall a | a in C.head && a != b.addr ensures a + HEAD <= b.addr || b.End() <= a {
      if Sentinel(ctl, a) {
        SentinelBelow(ctl, a, V.lo);
      } else {
        var c :| c in V.bs && c.addr == a;
      }
    }
    forall f | f in C.foot && f != b.Foot() ensures f + FOOT <= b.addr || b.End() <= f {
      var c :| c in V.bs && c.Foot() == f;
    }
  }

  /** An available block's span holds no handed-out byte. */
  lemma PayloadApart(V: View, b: Block)
    requires Tiles(V.bs, V.lo, V.hi) && b in V.bs && !b.used
    ensures forall x :: x in Payload(V.bs) ==> x < b.addr || b.End() <= x
  {
    TilesIn(V.bs, V.lo, V.hi);
  }

  /** No tag lies in a handed-out byte. */
  lemma PayloadClear(ctl: nat, C: Cells, V: View, off: set<nat>)
    requires Core(ctl, C, V, off)
    ensures Clear(C, Payload(V.bs))
  {
    hide Core, Tiles;
    forall x | x in Payload(V.bs)
      ensures forall a :: a in C.head ==> x < a || a + HEAD <= x
      ensures forall f :: f in C.foot ==> x < f || f + FOOT <= x
    {
      var b :| b in V.bs && b.used && b.Covers(x);
      SpanClear(ctl, C, V, off, b);
    }
  }

  /** Position `i` cuts the tiling in three. */
  lemma CutAt(bs: seq<Block>, lo: nat, hi: nat, i: nat, k: nat) returns (x: nat, y: nat)
    requires Tiles(bs, lo, hi) && i + k <= |bs|
    ensures bs == bs[..i] + bs[i..i + k] + bs[i + k..]
    ensures Parted(bs[..i], bs[i..i + k], bs[i + k..], lo, x, y, hi)
  {
    assert bs == bs[..i] + bs[i..];
    x := TilesPart(bs[..i], bs[i..], lo, hi);
    assert bs[i..] == bs[i..i + k] + bs[i + k..];
    y := TilesPart(bs[i..i + k], bs[i + k..], x, hi);
  }

  lemma TakenTiles(b: Block, n: nat, x: nat, y: nat)
    requires Tiles([b], x, y)
    ensures Tiles(Taken(b, n), x, y)
  {
    assert [b][1..] == [];
    if b.size >= n + OVERHEAD {
      var t := Taken(b, n);
      assert t[1..] == [t[1]] && t[1..][1..] == [];
    }
  }

  lemma AddrsTaken(b: Block, n: nat)
    ensures Addrs([b]) == {b.addr}
    ensures Feet([b]) == {b.Foot()}
    ensures Addrs(Taken(b, n)) == if b.size < n + OVERHEAD then {b.addr} else {b.addr, b.addr + n + OVERHEAD}
    ensures Feet(Taken(b, n)) == if b.size < n + OVERHEAD then {b.Foot()} else {b.addr + HEAD + n, b.Foot()}
  {
    var t := Taken(b, n);
    assert t[0] in t && (|t| == 2 ==> t[1] in t);
  }

  /** Handing block `i` out keeps the structure. */
  lemma CarveCore(ctl: nat, C: Cells, C': Cells, V: View, i: nat, n: nat)
    requires i < |V.bs| && Core(ctl, C, V, Addrs([V.bs[i]])) && Recelled(C, C', [V.bs[i]], Taken(V.bs[i], n))
    ensures Core(ctl, C', V.(bs := Carve(V.bs, i, n)), Addrs(Taken(V.bs[i], n)))
    ensures forall used :: Total(Carve(V.bs, i, n), used, Addrs(Taken(V.bs[i], n))) ==
                           Total(V.bs, used, Addrs([V.bs[i]]))
  {
    hide Recelled, Total, Addrs, Taken, Listed, AllTagged, Exact, Fixed;
    var bs, b := V.bs, V.bs[i];
    var x, y := CutAt(bs, V.lo, V.hi, i, 1);
    assert bs[i..i + 1] == [b];
    TakenTiles(b, n, x, y);
    Resplice(ctl, C, C', V, V.(bs := Carve(bs, i, n)), bs[..i], [b], Taken(b, n), bs[i + 1..], x, y, y);
  }

  /** Writing the state of a block that is in neither list keeps the structure. */
  lemma StateCore(ctl: nat, C: Cells, V: View, off: set<nat>, b: Block, s: Byte)
    requires Core(ctl, C, V, off) && b in V.bs && b.addr in off
    ensures b.addr in C.head
    ensures Core(ctl, C.(head := C.head[b.addr := C.head[b.addr].(state := s)]), V, off)
  {
    hide Tiles, OnList, Ring;
    HoldsOf(V, b);
    assert Tagged(C, b, off);
    var head' := C.head[b.addr := C.head[b.addr].(state := s)];
    LinksFrame(C.head, head', Ring(ctl, Avail, V.av)) by { LinkKeys(C.head, Ring(ctl, Avail, V.av)); }
    LinksFrame(C.head, head', Ring(ctl, Used, V.us)) by { LinkKeys(C.head, Ring(ctl, Used, V.us)); }
  }

  lemma LinkKeys(head: map<nat, Header>, ns: seq<nat>)
    requires Links(head, ns)
    ensures forall a :: a in ns ==> a in head
  {
  }

  /** The lists and blocks after block `i` is handed out for `n` bytes. */
  ghost function Allocated(V: View, i: nat, n: nat): View
    requires i < |V.bs| && V.bs[i].addr in V.av
  {
    var b := V.bs[i];
    var rest := Without(V.av, b.addr);
    V.(bs := Carve(V.bs, i, n), us := [b.addr] + V.us,
       av := if b.size < n + OVERHEAD then rest else [b.addr + n + OVERHEAD] + rest)
  }

  /** Block `i` is available, holds `n` bytes, and no block before it in the available list does. */
  ghost predicate FirstFit(V: View, i: nat, n: nat) {
    && i < |V.bs| && !V.bs[i].used && V.bs[i].size >= n && V.bs[i].addr in V.av
    && forall b :: b in V.bs && b.addr in V.av[..Position(V.av, V.bs[i].addr)] ==> b.size < n
  }

  lemma CarveApart(bs: seq<Block>, i: nat, n: nat)
    requires i < |bs| && NoTwoAvailable(bs) && !bs[i].used
    ensures NoTwoAvailable(Carve(bs, i, n)) && Carve(bs, i, n) != []
  {
    var cs, k := Carve(bs, i, n), |Taken(bs[i], n)|;
    forall j | 0 <= j < |cs| - 1 ensures cs[j].used || cs[j + 1].used {
      if j + 1 < i {
        assert cs[j] == bs[j] && cs[j + 1] == bs[j + 1];
      } else if j >= i + k {
        assert cs[j] == bs[j - k + 1] && cs[j + 1] == bs[j - k + 2];
      } else if j == i + k - 1 {
        assert cs[j + 1] == bs[i + 1];
      } else {
        assert j + 1 == i ==> cs[j] == bs[j];
      }
    }
  }

  ghost function Dropped(list: seq<nat>, a: nat): seq<nat> { if a in list then Without(list, a) else list }

  /** The lists and blocks after blocks `i` and `i + 1`, if both available, are merged. */
  ghost function Merged(V: View, i: nat): View {
    if i + 1 < |V.bs| && !V.bs[i].used && !V.bs[i + 1].used
    then V.(bs := MergeAt(V.bs, i), av := [V.bs[i].addr] + Dropped(Dropped(V.av, V.bs[i].addr), V.bs[i + 1].addr))
    else V
  }

  ghost function Joined(lower: Block, up: Block): Block {
    Block(lower.addr, lower.size + OVERHEAD + up.size, false)
  }

  /** Merging two neighbours that are in neither list keeps the structure. */
  lemma MergeCore(ctl: nat, C: Cells, C': Cells, V: View, i: nat)
    requires i + 1 < |V.bs| && !V.bs[i].used && !V.bs[i + 1].used
    requires Core(ctl, C, V, {V.bs[i].addr, V.bs[i + 1].addr})
    requires Recelled(C, C', [V.bs[i], V.bs[i + 1]], [Joined(V.bs[i], V.bs[i + 1])])
    ensures Core(ctl, C', V.(bs := MergeAt(V.bs, i)), {V.bs[i].addr})
    ensures forall used :: Total(MergeAt(V.bs, i), used, {V.bs[i].addr}) ==
                           Total(V.bs, used, {V.bs[i].addr, V.bs[i + 1].addr})
  {
    hide Recelled, Total, Addrs, Listed, AllTagged, Exact, Fixed, Tiles;
    var bs, lower, up := V.bs, V.bs[i], V.bs[i + 1];
    var x, y := CutAt(bs, V.lo, V.hi, i, 2);
    assert bs[i..i + 2] == [lower, up];
    var mid, mid' := [lower, up], [Joined(lower, up)];
    PairTiles(lower, up, x, y);
    AddrsPair(lower, up);
    Resplice(ctl, C, C', V, V.(bs := MergeAt(bs, i)), bs[..i], mid, mid', bs[i + 2..], x, y, y);
  }

  lemma PairTiles(lower: Block, up: Block, x: nat, y: nat)
    requires Tiles([lower, up], x, y)
    ensures Tiles([Joined(lower, up)], x, y) && lower.End() == up.addr
  {
    assert [lower, up][1..] == [up] && [up][1..] == [];
    assert [Joined(lower, up)][1..] == [];
  }

  lemma AddrsPair(lower: Block, up: Block)
    ensures Addrs([lower, up]) == {lower.addr, up.addr} && Feet([lower, up]) == {lower.Foot(), up.Foot()}
    ensures var j := Joined(lower, up); Addrs([j]) == {lower.addr} && Feet([j]) == {j.Foot()}
  {
    assert lower in [lower, up] && up in [lower, up];
  }

  lemma MergeRecelled(C: Cells, C': Cells, lower: Block, up: Block)
    requires lower.addr in C.head && up.addr in C.head && lower.Foot() in C.foot && up.Foot() in C.foot
    requires lower.End() == up.addr
    requires var size := Joined(lower, up).size;
             && C'.head == C.head[lower.addr := C.head[lower.addr].(size := size)] - {up.addr}
             && C'.foot == C.foot[up.Foot() := size] - {lower.Foot()}
    ensures Recelled(C, C', [lower, up], [Joined(lower, up)])
  {
    hide Addrs, Feet;
    AddrsPair(lower, up);
  }

  ghost function Flipped(bs: seq<Block>, i: nat, used: bool): seq<Block>
    requires i < |bs|
  {
    bs[i := bs[i].(used := used)]
  }

  /** A block that is in neither list may change state. */
  lemma FlipCore(ctl: nat, C: Cells, V: View, i: nat, u: bool)
    requires i < |V.bs| && Core(ctl, C, V, {V.bs[i].addr})
    ensures Core(ctl, C, V.(bs := Flipped(V.bs, i, u)), {V.bs[i].addr})
    ensures forall used :: Total(Flipped(V.bs, i, u), used, {V.bs[i].addr}) == Total(V.bs, used, {V.bs[i].addr})
  {
    hide Total, Addrs, Listed, Exact, Fixed, Tiles;
    var bs, b := V.bs, V.bs[i];
    var c := b.(used := u);
    var x, y := CutAt(bs, V.lo, V.hi, i, 1);
    assert bs[i..i + 1] == [b];
    OneTile(b, c, x, y);
    assert Flipped(bs, i, u) == bs[..i] + [c] + bs[i + 1..];
    assert Tagged(C, b, {b.addr});
    OneRecelled(C, b, c);
    hide Recelled, AllTagged;
    Resplice(ctl, C, C, V, V.(bs := Flipped(bs, i, u)), bs[..i], [b], [c], bs[i + 1..], x, y, y);
  }

  lemma OneTile(b: Block, c: Block, x: nat, y: nat)
    requires Tiles([b], x, y) && c.addr == b.addr && c.size == b.size
    ensures Tiles([c], x, y)
  {
    assert [b][1..] == [] && [c][1..] == [];
  }

  lemma OneRecelled(C: Cells, b: Block, c: Block)
    requires c.addr == b.addr && c.size == b.size && Tagged(C, b, {b.addr})
    ensures Recelled(C, C, [b], [c]) && Addrs([b]) == {b.addr} && Addrs([c]) == {b.addr}
  {
    assert b in [b] && c in [c] && c.Foot() == b.Foot();
    assert Feet([b]) == {b.Foot()} && Feet([c]) == {c.Foot()};
    assert Addrs([b]) == {b.addr} && Addrs([c]) == {b.addr};
  }

  /** Block `i` taken from the used list to the front of the available one. */
  ghost function Moved(V: View, i: nat): View
    requires i < |V.bs|
  {
    var a := V.bs[i].addr;
    V.(bs := Flipped(V.bs, i, false), us := Dropped(V.us, a), av := [a] + V.av)
  }

  /** The lists and blocks after block `i` is given back. */
  ghost function Returned(V: View, i: nat): View
    requires i < |V.bs|
  {
    var W := Merged(Moved(V, i), i);
    if i > 0 then Merged(W, i - 1) else W
  }

  lemma ReturnedBlocks(V: View, i: nat)
    requires i < |V.bs|
    ensures Returned(V, i).bs == Freed(V.bs, i) && Returned(V, i).lo == V.lo && Returned(V, i).hi == V.hi
  {
  }

  /** Merging loses no used block and makes none. */
  lemma MergeUsed(bs: seq<Block>, i: nat, b: Block)
    requires b.used
    ensures b in MergeAt(bs, i) <==> b in bs
  {
    if i + 1 < |bs| && !bs[i].used && !bs[i + 1].used {
      var ms := MergeAt(bs, i);
      if b in bs {
        var j :| 0 <= j < |bs| && bs[j] == b;
        assert if j < i then ms[j] == b else ms[j - 1] == b;
      }
    }
  }

  /** After a free exactly the other used blocks are in use. */
  lemma FreedUsed(bs: seq<Block>, lo: nat, hi: nat, i: nat, b: Block)
    requires Tiles(bs, lo, hi) && i < |bs| && b.used
    ensures b in Freed(bs, i) <==> b in bs && b != bs[i]
  {
    var flip := Flipped(bs, i, false);
    MergeUsed(flip, i, b);
    if i > 0 {
      MergeUsed(MergeAt(flip, i), i - 1, b);
    }
    if b in bs && b != bs[i] {
      var j :| 0 <= j < |bs| && bs[j] == b;
      assert flip[j] == b;
    }
    if b in flip {
      var j :| 0 <= j < |flip| && flip[j] == b;
      assert bs[j] == b && j != i;
      TilesOnce(bs, lo, hi, i, j);
    }
  }

  lemma TilesOnce(bs: seq<Block>, lo: nat, hi: nat, i: nat, j: nat)
    requires Tiles(bs, lo, hi) && i < |bs| && j < |bs| && i != j
    ensures bs[i].addr != bs[j].addr
  {
    if i < j {
      TilesBefore(bs, lo, hi, i, j);
    } else {
      TilesBefore(bs, lo, hi, j, i);
    }
  }

  lemma TilesBefore(bs: seq<Block>, lo: nat, hi: nat, i: nat, j: nat)
    requires Tiles(bs, lo, hi) && i < j < |bs|
    ensures bs[i].End() <= bs[j].addr
  {
    var x, y := CutAt(bs, lo, hi, i + 1, 0);
    TilesIn(bs[..i + 1], lo, x);
    TilesIn(bs[i + 1..], y, hi);
    assert bs[i] == bs[..i + 1][i] && bs[j] == bs[i + 1..][j - i - 1];
    assert bs[i + 1..i + 1] == [];
  }

  /** After an allocation the new block is in use, and exactly the old used blocks besides. */
  lemma CarveUsed(bs: seq<Block>, i: nat, n: nat, b: Block)
    requires i < |bs| && !bs[i].used && b.used
    ensures b in Carve(bs, i, n) <==> b in bs || b == Taken(bs[i], n)[0]
  {
    var cs, k := Carve(bs, i, n), |Taken(bs[i], n)|;
    if b in bs {
      var j :| 0 <= j < |bs| && bs[j] == b;
      assert if j < i then cs[j] == b else cs[j - 1 + k] == b;
    }
    assert cs[i] == Taken(bs[i], n)[0];
    if b in cs {
      var j :| 0 <= j < |cs| && cs[j] == b;
      assert j < i ==> bs[j] == b;
      assert j >= i + k ==> bs[j - k + 1] == b;
    }
  }

  lemma MergeApart(bs: seq<Block>, i: nat)
    requires i < |bs|
    requires forall j :: 0 <= j < |bs| - 1 && j != i ==> bs[j].used || bs[j + 1].used
    ensures NoTwoAvailable(MergeAt(bs, i)) && MergeAt(bs, i) != []
  {
    var ms := MergeAt(bs, i);
    if i + 1 < |bs| && !bs[i].used && !bs[i + 1].used {
      forall j | 0 <= j < |ms| - 1 ensures ms[j].used || ms[j + 1].used {
        if j + 1 < i {
          assert ms[j] == bs[j] && ms[j + 1] == bs[j + 1];
        } else if j > i {
          assert ms[j] == bs[j + 1] && ms[j + 1] == bs[j + 2];
        } else if j == i {
          assert ms[j + 1] == bs[i + 2] && (bs[i + 1].used || bs[i + 2].used);
        } else {
          assert ms[j] == bs[j] && bs[j].used;
        }
      }
    }
  }

  /** Freeing merges on both sides, so no two available blocks ever become neighbours. */
  lemma FreedApart(bs: seq<Block>, i: nat)
    requires NoTwoAvailable(bs) && i < |bs|
    ensures NoTwoAvailable(Freed(bs, i)) && Freed(bs, i) != []
  {
    var flip := Flipped(bs, i, false);
    var up := MergeAt(flip, i);
    if i == 0 {
      MergeApart(flip, 0);
    } else {
      forall j | 0 <= j < |up| - 1 && j != i - 1 ensures up[j].used || up[j + 1].used {
        if up == flip {
          assert j != i ==> bs[j].used || bs[j + 1].used;
        } else if j + 1 < i {
          assert up[j] == bs[j] && up[j + 1] == bs[j + 1];
        } else {
          assert j >= i && up[j + 1] == bs[j + 2];
          assert j > i ==> up[j] == bs[j + 1];
          assert bs[j + 1].used || bs[j + 2].used;
        }
      }
      MergeApart(up, i - 1);
    }
  }

  /** With everything given back, in whatever order, the heap is one block. */
  lemma AllFreeIsOne(bs: seq<Block>, lo: nat, hi: nat)
    requires Tiles(bs, lo, hi) && NoTwoAvailable(bs) && bs != [] && forall b :: b in bs ==> !b.used
    ensures |bs| == 1 && bs[0].addr == lo && bs[0].End() == hi && !bs[0].used
  {
    assert forall i :: 0 <= i < |bs| ==> bs[i] in bs;
    TilesNext(bs, lo, hi, 0);
  }

  // ---------------------------------------------------------------------------
  // Growing
  // ---------------------------------------------------------------------------

  /** The heap with `n` more bytes at its end, as one block at the front of the available list. */
  ghost function Grown(V: View, n: nat): View
    requires n >= OVERHEAD
  {
    View(V.lo, V.hi + n, V.bs + [Block(V.hi, n - OVERHEAD, false)], [V.hi] + V.av, V.us)
  }

  ghost function Extended(V: View, n: nat): View
    requires n >= OVERHEAD && V.bs != []
  {
    Merged(Grown(V, n), |V.bs| - 1)
  }

  lemma GrowCore(ctl: nat, C: Cells, C': Cells, V: View, n: nat, h: Header)
    requires n >= OVERHEAD && Core(ctl, C, V, {}) && h.size == n - OVERHEAD
    requires C' == Cells(C.head[V.hi := h], C.foot[V.hi + n - FOOT := n - OVERHEAD])
    ensures Core(ctl, C', Grown(V, n).(av := V.av), {V.hi})
    ensures forall used :: Total(Grown(V, n).bs, used, {V.hi}) == Total(V.bs, used, {})
  {
    hide Total, Listed, Exact, Fixed, AllTagged;
    var c := Block(V.hi, n - OVERHEAD, false);
    assert V.bs == V.bs + [] + [];
    assert V.bs + [c] + [] == V.bs + [c];
    assert [c][1..] == [];
    AddedRecelled(ctl, C, C', V, c);
    assert Parted(V.bs, [], [], V.lo, V.hi, V.hi, V.hi) && Tiles([c], V.hi, V.hi + n) && Tiles([], V.hi + n, V.hi + n);
    hide Recelled, Addrs, Tiles;
    Resplice(ctl, C, C', V, Grown(V, n).(av := V.av), V.bs, [], [c], [], V.hi, V.hi, V.hi + n);
  }

  lemma AddedRecelled(ctl: nat, C: Cells, C': Cells, V: View, c: Block)
    requires C'.head.Keys == C.head.Keys + {c.addr} && C'.foot.Keys == C.foot.Keys + {c.Foot()}
    requires C'.head[c.addr].size == c.size && C'.foot[c.Foot()] == c.size
    requires forall a :: a in C.head && a != c.addr ==> C'.head[a] == C.head[a]
    requires forall f :: f in C.foot && f != c.Foot() ==> C'.foot[f] == C.foot[f]
    ensures Recelled(C, C', [], [c]) && Addrs([]) == {} && Addrs([c]) == {c.addr}
  {
    assert c in [c];
    assert Addrs([]) == {} && Feet([]) == {} && Addrs([c]) == {c.addr} && Feet([c]) == {c.Foot()};
  }

  /** Every tag and every handed-out byte lies below the end of the heap. */
  lemma AllBelow(ctl: nat, C: Cells, V: View)
    requires Core(ctl, C, V, {})
    ensures forall a :: a in C.head ==> a + HEAD <= V.hi
    ensures forall f :: f in C.foot ==> f + FOOT <= V.hi
    ensures forall x :: x in Payload(V.bs) ==> x < V.hi
  {
    hide Listed, Fixed, AllTagged, Tiles;
    TilesIn(V.bs, V.lo, V.hi);
    forall a | a in C.head ensures a + HEAD <= V.hi {
      if Sentinel(ctl, a) {
        SentinelBelow(ctl, a, V.lo);
      }
    }
  }

  lemma GrownApart(V: View, n: nat)
    requires n >= OVERHEAD && V.bs != [] && NoTwoAvailable(V.bs)
    ensures NoTwoAvailable(Extended(V, n).bs) && Extended(V, n).bs != []
  {
    MergeApart(Grown(V, n).bs, |V.bs| - 1);
  }

  /** The payload bytes of the used blocks. */
  ghost function InUse(bs: seq<Block>): nat {
    if bs == [] then 0 else InUse(bs[..|bs| - 1]) + if bs[|bs| - 1].used then bs[|bs| - 1].size else 0
  }

  lemma {:induction false} TilesCount(bs: seq<Block>, lo: nat, hi: nat)
    requires Tiles(bs, lo, hi)
    ensures OVERHEAD * |bs| <= hi - lo
  {
    if bs != [] {
      TilesCount(bs[1..], bs[0].End(), hi);
    }
  }

  /** A list with its two fixed nodes only. */
  ghost predicate Bare(ctl: nat, head: map<nat, Header>, w: Which) {
    var f, l := First(ctl, w), Last(ctl, w);
    f in head && l in head && head[f] == Header(0, BEGIN, l, NULL) && head[l] == Header(0, END, NULL, f)
  }

  lemma BareCore(ctl: nat, head: map<nat, Header>, lo: nat)
    requires 0 < ctl && ctl + CTL <= lo && Bare(ctl, head, Avail) && Bare(ctl, head, Used)
    requires forall a :: a in head <==> Sentinel(ctl, a)
    ensures Core(ctl, Cells(head, map[]), View(lo, lo, [], [], []), {})
    ensures forall used :: Total([], used, {}) == 0
  {
    forall w: Which ensures First(ctl, w) in head && Last(ctl, w) in head
                            && head[First(ctl, w)].state == BEGIN && head[Last(ctl, w)].state == END
    {
      match w case Avail => case Used =>
    }
  }
}
