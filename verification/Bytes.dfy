/** Bytes and little-endian words, as both the disk format and the kernel's memory hold them, and a few
    facts about sequences and sets that the components share. */
module Bytes {

  type Byte = x: nat | x < 256 witness 0

  datatype Option<+T> = None | Some(value: T)

  /** The 16-bit little-endian word at `off`. */
  function LE16(s: seq<Byte>, off: nat): (v: nat)
    requires off + 2 <= |s|
    ensures v < 0x1_0000
  {
    s[off] as int + 0x100 * s[off + 1] as int
  }

  /** The 32-bit little-endian word at `off`. */
  function LE32(s: seq<Byte>, off: nat): (v: nat)
    requires off + 4 <= |s|
    ensures v < 0x1_0000_0000
  {
    s[off] as int + 0x100 * s[off + 1] as int + 0x1_0000 * s[off + 2] as int + 0x100_0000 * s[off + 3] as int
  }

  /** `s` with the 16-bit word at `off` replaced by `v`. */
  function Put16(s: seq<Byte>, off: nat, v: nat): (t: seq<Byte>)
    requires off + 2 <= |s| && v < 0x1_0000
    ensures |t| == |s|
    ensures forall i :: 0 <= i < |s| && !(off <= i < off + 2) ==> t[i] == s[i]
    ensures LE16(t, off) == v
  {
    s[off := v % 0x100][off + 1 := v / 0x100]
  }

  lemma Digits32(v: nat)
    ensures v == v % 0x100 + 0x100 * (v / 0x100 % 0x100) + 0x1_0000 * (v / 0x1_0000 % 0x100)
                 + 0x100_0000 * (v / 0x100_0000)
  {
    var a := v / 0x100;
    var b := a / 0x100;
    assert b == v / 0x1_0000;
    assert b / 0x100 == v / 0x100_0000;
  }

  /** `s` with the 32-bit word at `off` replaced by `v`. */
  function Put32(s: seq<Byte>, off: nat, v: nat): (t: seq<Byte>)
    requires off + 4 <= |s| && v < 0x1_0000_0000
    ensures |t| == |s|
    ensures forall i :: 0 <= i < |s| && !(off <= i < off + 4) ==> t[i] == s[i]
    ensures LE32(t, off) == v
  {
    Digits32(v);
    s[off := v % 0x100][off + 1 := v / 0x100 % 0x100][off + 2 := v / 0x1_0000 % 0x100][off + 3 := v / 0x100_0000]
  }

  const WORD_MOD := 0x1_0000_0000_0000_0000

  /** The 64-bit little-endian word at `a`. */
  function Word(mem: seq<Byte>, a: nat): (v: nat)
    requires a + 8 <= |mem|
    ensures v < WORD_MOD
  {
    LE32(mem, a) + 0x1_0000_0000 * LE32(mem, a + 4)
  }

  function PutWord(mem: seq<Byte>, a: nat, v: nat): (m: seq<Byte>)
    requires a + 8 <= |mem| && v < WORD_MOD
    ensures |m| == |mem| && Word(m, a) == v
    ensures forall x :: 0 <= x < |mem| && !(a <= x < a + 8) ==> m[x] == mem[x]
  {
    var lo, hi := v % 0x1_0000_0000, v / 0x1_0000_0000;
    var m := Put32(Put32(mem, a, lo), a + 4, hi);
    assert LE32(m, a) == LE32(Put32(mem, a, lo), a);
    m
  }

  lemma WordFrame(m: seq<Byte>, m': seq<Byte>, a: nat)
    requires |m'| == |m| && a + 8 <= |m| && forall x :: a <= x < a + 8 ==> m'[x] == m[x]
    ensures Word(m', a) == Word(m, a)
  {
  }

  /** The lowest byte comes first, and a longer word is two shorter ones, the lower first. */
  lemma LowestFirst(s: seq<Byte>, off: nat)
    requires off + 8 <= |s|
    ensures LE16(s, off) % 0x100 == s[off] && LE16(s, off) / 0x100 == s[off + 1]
    ensures LE32(s, off) % 0x1_0000 == LE16(s, off) && LE32(s, off) / 0x1_0000 == LE16(s, off + 2)
    ensures Word(s, off) % 0x1_0000_0000 == LE32(s, off) && Word(s, off) / 0x1_0000_0000 == LE32(s, off + 4)
  {
    LowByte(s[off], s[off + 1]);
    assert LE32(s, off) == LE16(s, off) + 0x1_0000 * LE16(s, off + 2);
    LowHalf(LE16(s, off), LE16(s, off + 2));
    LowWord(LE32(s, off), LE32(s, off + 4));
  }

  lemma LowByte(lo: nat, hi: nat)
    requires lo < 0x100
    ensures (lo + 0x100 * hi) % 0x100 == lo && (lo + 0x100 * hi) / 0x100 == hi
  {
  }

  lemma LowHalf(lo: nat, hi: nat)
    requires lo < 0x1_0000
    ensures (lo + 0x1_0000 * hi) % 0x1_0000 == lo && (lo + 0x1_0000 * hi) / 0x1_0000 == hi
  {
  }

  lemma LowWord(lo: nat, hi: nat)
    requires lo < 0x1_0000_0000
    ensures (lo + 0x1_0000_0000 * hi) % 0x1_0000_0000 == lo && (lo + 0x1_0000_0000 * hi) / 0x1_0000_0000 == hi
  {
  }

  /** Bit `k` of `x`. */
  ghost function BitOf(x: nat, k: nat): nat { if k == 0 then x % 2 else BitOf(x / 2, k - 1) }

  /** Two to the `k`. */
  ghost function Pow2(k: nat): (p: nat)
    ensures p > 0
  {
    if k == 0 then 1 else 2 * Pow2(k - 1)
  }

  /** Adding a power of two to a number that lacks it sets that bit and no other. */
  lemma {:induction false} SetBit(x: nat, j: nat, k: nat)
    requires BitOf(x, j) == 0
    ensures BitOf(x + Pow2(j), k) == if k == j then 1 else BitOf(x, k)
    decreases j
  {
    if j > 0 {
      assert (x + Pow2(j)) / 2 == x / 2 + Pow2(j - 1) && (x + Pow2(j)) % 2 == x % 2;
      if k > 0 {
        SetBit(x / 2, j - 1, k - 1);
      }
    } else {
      assert (x + 1) / 2 == x / 2;
    }
  }

  /** `n` zero bytes. */
  function Zeros(n: nat): (z: seq<Byte>)
    ensures |z| == n
    ensures forall i :: 0 <= i < n ==> z[i] == 0
  {
    seq(n, i => 0)
  }

  /** `s` with the bytes at `off` overwritten by `part`. */
  function Splice(s: seq<Byte>, off: nat, part: seq<Byte>): (t: seq<Byte>)
    requires off + |part| <= |s|
    ensures |t| == |s|
    ensures forall i :: 0 <= i < |s| && !(off <= i < off + |part|) ==> t[i] == s[i]
    ensures forall i :: 0 <= i < |part| ==> t[off + i] == part[i]
    ensures t[off..off + |part|] == part
  {
    s[..off] + part + s[off + |part|..]
  }

  /** No element occurs twice. */
  ghost predicate Distinct(s: seq<nat>) {
    forall i, j :: 0 <= i < j < |s| ==> s[i] != s[j]
  }

  /** The numbers from `lo` up to, not including, `hi`. */
  ghost function Interval(lo: nat, hi: nat): (s: set<nat>)
    requires lo <= hi
    ensures forall c :: c in s <==> lo <= c < hi
    ensures |s| == hi - lo
    decreases hi
  {
    if lo == hi then {} else Interval(lo, hi - 1) + {hi - 1}
  }

  lemma {:induction false} SubsetSize(a: set<nat>, b: set<nat>)
    requires a <= b
    ensures |a| <= |b|
    ensures |a| == |b| ==> a == b
  {
    if a != {} {
      var x :| x in a;
      SubsetSize(a - {x}, b - {x});
    }
  }
}
