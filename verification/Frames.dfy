/** kernel/memory.c: the physical frame pool, one bit per 4 KB frame. */
module Frames {

  const BASE := 0x40_0000       // MEMORY_START
  const FRAME := 4096           // FRAME_SIZE

  /** The address of frame `i`. */
  function Addr(i: nat): nat { BASE + i * FRAME }

  function Mask(k: nat): bv8
    requires k < 8
  {
    if k == 0 then 1 else if k == 1 then 2 else if k == 2 then 4 else if k == 3 then 8
    else if k == 4 then 16 else if k == 5 then 32 else if k == 6 then 64 else 128
  }

  predicate Bit(b: bv8, k: nat)
    requires k < 8
  {
    b & Mask(k) != 0
  }

  function With(b: bv8, k: nat): bv8
    requires k < 8
  {
    b | Mask(k)
  }

  function Without(b: bv8, k: nat): bv8
    requires k < 8
  {
    b & !Mask(k)
  }

  lemma SetMask(b: bv8, k: nat, j: nat)
    requires k < 8 && j < 8
    ensures Bit(With(b, k), j) == (j == k || Bit(b, j))
  {
  }

  lemma ClearMask(b: bv8, k: nat, j: nat)
    requires k < 8 && j < 8
    ensures Bit(Without(b, k), j) == (j != k && Bit(b, j))
  {
  }

  /** A run of `n` free frames from `s` on. */
  ghost predicate FreeRun(bits: seq<bool>, s: nat, n: nat) {
    s + n <= |bits| && forall i :: s <= i < s + n ==> !bits[i]
  }

  /** `bits` with frames [s, s + n) set to `b`. */
  ghost function Marked(bits: seq<bool>, s: nat, n: nat, b: bool): (r: seq<bool>)
    requires s + n <= |bits|
    ensures |r| == |bits| && forall i :: 0 <= i < |bits| ==> r[i] == if s <= i < s + n then b else bits[i]
  {
    seq(|bits|, i requires 0 <= i < |bits| => if s <= i < s + n then b else bits[i])
  }

  /** Giving back a run that was free when it was taken restores the pool. */
  lemma MarkUnmark(bits: seq<bool>, s: nat, n: nat)
    requires FreeRun(bits, s, n)
    ensures Marked(Marked(bits, s, n, true), s, n, false) == bits
  {
  }

  /** How many frames are marked used. */
  ghost function Count(bits: seq<bool>): nat {
    if bits == [] then 0 else
      var n := |bits| - 1;
      Count(bits[..n]) + if bits[n] then 1 else 0
  }

  lemma CountStep(bits: seq<bool>, i: nat)
    requires i < |bits|
    ensures Count(bits[..i + 1]) == Count(bits[..i]) + if bits[i] then 1 else 0
  {
    assert bits[..i + 1][..i] == bits[..i];
  }

  /** A map with its first `k` frames used and no other. */
  lemma {:induction false} CountFirst(bits: seq<bool>, k: nat)
    requires k <= |bits| && forall i :: 0 <= i < |bits| ==> (bits[i] <==> i < k)
    ensures Count(bits) == k
    decreases |bits|
  {
    if bits != [] {
      var n := |bits| - 1;
      CountFirst(bits[..n], if k <= n then k else n);
    }
  }

  /** The addresses of the frames marked used. */
  ghost function UsedAddrs(bits: seq<bool>): set<nat> {
    set i: nat | i < |bits| && bits[i] :: Addr(i)
  }

  lemma UsedTake(bits: seq<bool>, i: nat)
    requires i < |bits| && !bits[i]
    ensures Addr(i) !in UsedAddrs(bits) && UsedAddrs(bits[i := true]) == UsedAddrs(bits) + {Addr(i)}
  {
    var to := bits[i := true];
    assert to[i];
    forall x | x in UsedAddrs(bits) ensures x in UsedAddrs(to) {
      var j: nat :| j < |bits| && bits[j] && x == Addr(j);
      assert to[j];
    }
    forall x | x in UsedAddrs(to) ensures x in UsedAddrs(bits) + {Addr(i)} {
      var j: nat :| j < |to| && to[j] && x == Addr(j);
      assert j == i || bits[j];
    }
  }

  lemma UsedGive(bits: seq<bool>, i: nat)
    requires i < |bits|
    ensures UsedAddrs(bits[i := false]) == UsedAddrs(bits) - {Addr(i)}
  {
    var to := bits[i := false];
    forall x | x in UsedAddrs(to) ensures x in UsedAddrs(bits) - {Addr(i)} {
      var j: nat :| j < |to| && to[j] && x == Addr(j);
      assert j != i && bits[j];
    }
    forall x | x in UsedAddrs(bits) - {Addr(i)} ensures x in UsedAddrs(to) {
      var j: nat :| j < |bits| && bits[j] && x == Addr(j);
      assert to[j];
    }
  }

  /** There are as many used addresses as frames marked used, and as many as frames exactly when every frame is. */
  lemma {:induction false} UsedCount(bits: seq<bool>)
    ensures |UsedAddrs(bits)| == Count(bits) <= |bits|
    ensures |UsedAddrs(bits)| == |bits| <==> forall i :: 0 <= i < |bits| ==> bits[i]
    decreases |bits|
  {
    hide UsedAddrs;
    if bits == [] {
      UsedNone();
    } else {
      var n := |bits| - 1;
      var was := bits[..n];
      UsedCount(was);
      UsedPrefix(bits);
      assert forall i :: 0 <= i < n ==> was[i] == bits[i];
    }
  }

  lemma UsedNone()
    ensures UsedAddrs([]) == {}
  {
  }

  lemma UsedPrefix(bits: seq<bool>)
    requires bits != []
    ensures var n := |bits| - 1;
            Addr(n) !in UsedAddrs(bits[..n])
            && UsedAddrs(bits) == UsedAddrs(bits[..n]) + if bits[n] then {Addr(n)} else {}
  {
    var n := |bits| - 1;
    var was := bits[..n];
    forall x | x in UsedAddrs(was) ensures x in UsedAddrs(bits) && x != Addr(n) {
      var j: nat :| j < |was| && was[j] && x == Addr(j);
      assert bits[j];
    }
    forall x | x in UsedAddrs(bits) && x != Addr(n) ensures x in UsedAddrs(was) {
      var j: nat :| j < |bits| && bits[j] && x == Addr(j);
      assert was[j];
    }
  }

  lemma UsedAt(bits: seq<bool>, a: nat) returns (i: nat)
    requires a in UsedAddrs(bits)
    ensures i < |bits| && bits[i] && a == Addr(i) && (a - BASE) / FRAME == i && BASE <= a
  {
    i :| i < |bits| && bits[i] && a == Addr(i);
  }

  /** The scan for a run of `n`: at `i`, the last `run` frames are free and no run ends before. */
  ghost predicate Scanned(bits: seq<bool>, i: nat, run: nat, n: nat) {
    && run <= i <= |bits| && run < n
    && FreeRun(bits, i - run, run) && (run == i || bits[i - run - 1])
    && forall t: nat :: t + n <= i ==> !FreeRun(bits, t, n)
  }

  lemma ScanFree(bits: seq<bool>, i: nat, run: nat, n: nat)
    requires Scanned(bits, i, run, n) && i < |bits| && !bits[i]
    ensures run + 1 < n ==> Scanned(bits, i + 1, run + 1, n)
    ensures run + 1 == n ==> FreeRun(bits, i + 1 - n, n) && forall t: nat :: t < i + 1 - n ==> !FreeRun(bits, t, n)
  {
    forall t: nat | t + n <= i + 1 && (t + n <= i || run + 1 < n) ensures !FreeRun(bits, t, n) {
      if t + n == i + 1 {
        assert t <= i - run - 1 < t + n;
      }
    }
  }

  lemma ScanUsed(bits: seq<bool>, i: nat, run: nat, n: nat)
    requires Scanned(bits, i, run, n) && i < |bits| && bits[i]
    ensures Scanned(bits, i + 1, 0, n)
  {
    forall t: nat | t + n <= i + 1 ensures !FreeRun(bits, t, n) {
      if t + n == i + 1 {
        assert t <= i < t + n;
      }
    }
  }

  class FramePool {
    const bitmap: array<bv8>
    const num: nat                // num_frames

    ghost predicate Valid()
    {
      num <= 8 * bitmap.Length
    }

    /** Which frames are marked used. */
    ghost function Bits(): (s: seq<bool>)
      reads bitmap
      requires Valid()
      ensures |s| == num
    {
      seq(num, i requires 0 <= i < num reads bitmap => Bit(bitmap[i / 8], i % 8))
    }

    constructor (n: nat)
      ensures Valid() && fresh(bitmap) && num == n
      ensures Bits() == seq(n, i => false)
    {
      bitmap := new bv8[n / 8 + 1](i => 0);
      num := n;
    }

    method Test(i: nat) returns (b: bool)
      requires Valid() && i < num
      ensures b == Bits()[i]
    {
      b := bitmap[i / 8] & Mask(i % 8) != 0;
    }

    method Set(i: nat)
      requires Valid() && i < num
      modifies bitmap
      ensures Bits() == old(Bits())[i := true]
    {
      hide Bit, With, Without;
      ghost var was := bitmap[i / 8];
      bitmap[i / 8] := With(bitmap[i / 8], i % 8);
      forall j | 0 <= j < num ensures Bits()[j] == old(Bits())[i := true][j] {
        if j / 8 == i / 8 {
          SetMask(was, i % 8, j % 8);
        }
      }
    }

    method Clear(i: nat)
      requires Valid() && i < num
      modifies bitmap
      ensures Bits() == old(Bits())[i := false]
    {
      hide Bit, With, Without;
      ghost var was := bitmap[i / 8];
      bitmap[i / 8] := Without(bitmap[i / 8], i % 8);
      forall j | 0 <= j < num ensures Bits()[j] == old(Bits())[i := false][j] {
        if j / 8 == i / 8 {
          ClearMask(was, i % 8, j % 8);
        }
      }
    }

    /** The lowest free frame, or 0 if every frame is used. */
    method AllocFrame() returns (addr: nat)
      requires Valid()
      modifies bitmap
      ensures addr == 0 ==> Bits() == old(Bits()) && forall j :: 0 <= j < num ==> old(Bits())[j]
      ensures addr != 0 ==>
                exists i: nat :: i < num && addr == 0x40_0000 + 4096 * i && !old(Bits())[i]
                                 && Bits() == old(Bits())[i := true]
                                 && forall j :: 0 <= j < i ==> old(Bits())[j]
    {
      var i := 0;
      while i < num
        invariant 0 <= i <= num && Bits() == old(Bits())
        invariant forall j :: 0 <= j < i ==> old(Bits())[j]
      {
        var b := Test(i);
        if !b {
          Set(i);
          return Addr(i);
        }
        i := i + 1;
      }
      addr := 0;
    }

    /** The lowest run of `count` free frames, or 0 if there is none. */
    method AllocContiguous(count: nat) returns (addr: nat)
      requires Valid()
      modifies bitmap
      ensures addr == 0 ==> Bits() == old(Bits()) && (count == 0 || forall s: nat :: !FreeRun(old(Bits()), s, count))
      ensures addr != 0 ==>
                exists s: nat :: 0 < count && FreeRun(old(Bits()), s, count) && addr == Addr(s) == 0x40_0000 + 4096 * s
                                 && Bits() == Marked(old(Bits()), s, count, true)
                                 && forall t: nat :: t < s ==> !FreeRun(old(Bits()), t, count)
    {
      hide Bit, Mask;
      if count == 0 {
        return 0;
      }
      var run, i := 0, 0;
      while i < num
        invariant 0 <= i <= num && run >= 0 && Bits() == old(Bits()) && Scanned(old(Bits()), i, run, count)
      {
        var b := Test(i);
        if !b {
          ScanFree(old(Bits()), i, run, count);
          run := run + 1;
          if run == count {
            var start := i - count + 1;
            MarkRun(start, count);
            return Addr(start);
          }
        } else {
          ScanUsed(old(Bits()), i, run, count);
          run := 0;
        }
        i := i + 1;
      }
      addr := 0;
    }

    method MarkRun(start: nat, count: nat)
      requires Valid() && start + count <= num
      modifies bitmap
      ensures Bits() == Marked(old(Bits()), start, count, true)
    {
      var j := start;
      while j < start + count
        invariant start <= j <= start + count
        invariant Bits() == Marked(old(Bits()), start, j - start, true)
      {
        Set(j);
        j := j + 1;
      }
    }

    /** Give one frame back; an address outside the pool is ignored. */
    method FreeFrame(addr: nat)
      requires Valid()
      modifies bitmap
      ensures Bits() == if BASE <= addr && (addr - BASE) / FRAME < num
                        then old(Bits())[(addr - BASE) / FRAME := false]
                        else old(Bits())
    {
      if addr < BASE {
        return;
      }
      var frame := (addr - BASE) / FRAME;
      if frame < num {
        Clear(frame);
      }
    }

    /** reserve_range: every frame that overlaps [start, end) and lies in the pool is marked used. */
    method ReserveRange(start: nat, end: nat)
      requires Valid()
      modifies bitmap
      ensures forall i :: 0 <= i < num ==>
                Bits()[i] == (old(Bits())[i] || (start < 0x40_0000 + 4096 * (i + 1) && 0x40_0000 + 4096 * i < end))
    {
      hide Bit, Mask;
      var top := Addr(num);
      if end <= BASE || start >= top {
        return;
      }
      var lo := if start < BASE then BASE else start;
      var hi := if end > top then top else end;
      var first, last := (lo - BASE) / FRAME, (hi - BASE + FRAME - 1) / FRAME;
      var i := first;
      while i < last && i < num
        invariant first <= i && (i <= last || i == first)
        invariant forall j :: 0 <= j < num ==> Bits()[j] == (old(Bits())[j] || first <= j < i)
      {
        Set(i);
        i := i + 1;
      }
    }

    lemma UsedFits()
      requires Valid()
      ensures |Used()| <= num
    {
      UsedCount(Bits());
    }

    /** The frames marked used, by address. */
    ghost function Used(): set<nat>
      reads bitmap
      requires Valid()
    {
      UsedAddrs(Bits())
    }

    /** alloc_frame and free_frame as operations on the set of used frames. */
    method Take() returns (addr: nat)
      requires Valid()
      modifies bitmap
      ensures addr == 0 ==> Used() == old(Used()) && forall j :: 0 <= j < num ==> old(Bits())[j]
      ensures addr != 0 ==> addr !in old(Used()) && Used() == old(Used()) + {addr}
      ensures |old(Used())| <= num && (addr == 0 <==> |old(Used())| == num)
    {
      ghost var was := Bits();
      UsedCount(was);
      addr := AllocFrame();
      if addr != 0 {
        ghost var i: nat :| i < num && addr == Addr(i) && !was[i] && Bits() == was[i := true];
        UsedTake(was, i);
      }
    }

    method Give(addr: nat)
      requires Valid() && addr in Used()
      modifies bitmap
      ensures Used() == old(Used()) - {addr}
    {
      ghost var was := Bits();
      ghost var i := UsedAt(was, addr);
      UsedGive(was, i);
      FreeFrame(addr);
    }

    method FramesUsed() returns (count: nat)
      requires Valid()
      ensures count == |Used()|
    {
      hide Bit, Mask, Count;
      count := 0;
      var i := 0;
      NoneCounted();
      while i < num
        invariant 0 <= i <= num && count == Count(Bits()[..i])
      {
        var b := Test(i);
        CountStep(Bits(), i);
        if b {
          count := count + 1;
        }
        i := i + 1;
      }
      assert Bits()[..num] == Bits();
      UsedCount(Bits());
    }

    lemma NoneCounted()
      requires Valid()
      ensures Count(Bits()[..0]) == 0
    {
    }
  }

  const RESERVED := 1536        // frames of [USER_REGION_START, USER_HEAP_LIMIT)

  /** memory_init on a machine with `n` frames past the ring-3 region and no holes in its memory: exactly the frames
      of that region are taken. */
  method InitPool(n: nat) returns (pool: FramePool)
    ensures fresh(pool) && fresh(pool.bitmap) && pool.Valid() && pool.num == RESERVED + n && |pool.Used()| == RESERVED
    ensures pool.Used() == set i: nat | i < RESERVED :: Addr(i)
  {
    hide Count;
    pool := new FramePool(RESERVED + n);
    pool.ReserveRange(0x40_0000, 0xA0_0000);
    UsedCount(pool.Bits());
    CountFirst(pool.Bits(), RESERVED);
    assert pool.Used() == set i: nat | i < RESERVED :: Addr(i);
  }
}
