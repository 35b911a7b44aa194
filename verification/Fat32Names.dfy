/** 8.3 names: the stored form of a caller's spelling. */
module Fat32Names {
  import opened Bytes
  import opened Fat32Volume

  const DOT: Byte := 0x2E
  const SPACE: Byte := 0x20

  function Upper(c: Byte): (u: Byte)
    ensures !(0x61 <= u <= 0x7A)
    ensures u != c ==> 0x61 <= c <= 0x7A && u == c - 0x20
  {
    if 0x61 <= c <= 0x7A then c - 0x20 else c
  }

  /** Where the base name ends: the first dot, or the end. */
  function BaseEnd(s: seq<Byte>): (d: nat)
    ensures d <= |s| && (forall i :: 0 <= i < d ==> s[i] != DOT) && (d < |s| ==> s[d] == DOT)
  {
    if s == [] || s[0] == DOT then 0 else 1 + BaseEnd(s[1..])
  }

  /** Byte `i` of the stored name of `s`, whose base name ends at `d`. */
  function StoredByte(s: seq<Byte>, d: nat, i: nat): Byte
    requires d <= |s|
  {
    if i < 8 then (if i < d then Upper(s[i]) else SPACE)
    else if d + 1 + (i - 8) < |s| then Upper(s[d + 1 + (i - 8)]) else SPACE
  }

  function Stored(s: seq<Byte>, d: nat): (n: Name)
    requires d <= |s|
  {
    seq(11, i requires 0 <= i < 11 => StoredByte(s, d, i))
  }

  /** The stored name of a spelling, if it has one: 1 to 8 characters, then at most 3 after the dot. */
  function Name83(s: seq<Byte>): (r: Option<Name>)
  {
    var d := BaseEnd(s);
    if d == 0 || d > 8 || |s| > d + 4 then None else Some(Stored(s, d))
  }

  /** Two spellings that differ only in letter case. */
  ghost predicate SameLetters(s: seq<Byte>, t: seq<Byte>) {
    |s| == |t| && forall i :: 0 <= i < |s| ==> Upper(s[i]) == Upper(t[i])
  }

  /** Letter case is irrelevant to the stored name. */
  lemma CaseInsensitive(s: seq<Byte>, t: seq<Byte>)
    requires SameLetters(s, t)
    ensures Name83(s) == Name83(t)
  {
    assert forall i :: 0 <= i < |s| ==> (s[i] == DOT <==> t[i] == DOT);
    var d, d' := BaseEnd(s), BaseEnd(t);
    assert d == d';
    assert Stored(s, d) == Stored(t, d);
  }

  /** The first stored byte is never the never-used mark: C strings hold no zero byte. */
  lemma FirstByte(s: seq<Byte>, n: Name)
    requires 0 !in s && Name83(s) == Some(n)
    ensures n[0] == Upper(s[0]) && n[0] != DIRENT_FREE
  {
    assert s[0] in s;
  }

  /** A stored name begins with the deleted mark exactly when the spelling begins with that byte. */
  lemma LostNames(s: seq<Byte>, n: Name)
    requires Name83(s) == Some(n)
    ensures n[0] == DIRENT_DELETED <==> s[0] == DIRENT_DELETED
  {
    assert n[0] == StoredByte(s, BaseEnd(s), 0);
  }

  /** The first dot of `s` is at `d`, or there is none and `d` is its end. */
  ghost predicate DotAt(s: seq<Byte>, d: nat) {
    d <= |s| && (forall i :: 0 <= i < d ==> s[i] != 0x2E) && (d < |s| ==> s[d] == 0x2E)
  }

  /** Which spellings have a stored name, and that name byte by byte. */
  lemma StoredBytes(s: seq<Byte>, d: nat)
    requires DotAt(s, d)
    ensures Name83(s) == None <==> d == 0 || d > 8 || |s| > d + 4
    ensures Name83(s).Some? ==>
              var n := Name83(s).value;
              && (forall i :: 0 <= i < 8 ==> n[i] == if i < d then Upper(s[i]) else 0x20)
              && (forall i :: 8 <= i < 11 ==> n[i] == if i + d - 7 < |s| then Upper(s[i + d - 7]) else 0x20)
  {
    assert BaseEnd(s) == d;
    if Name83(s).Some? {
      var n := Name83(s).value;
      forall i | 0 <= i < 11 ensures n[i] == StoredByte(s, d, i) {}
    }
  }

  /** A spelling without the dot that ends it, if its only dot does. */
  function Bare(s: seq<Byte>): (t: seq<Byte>)
    ensures t == s || s == t + [DOT]
  {
    if |s| == BaseEnd(s) + 1 then s[..|s| - 1] else s
  }

  /** Two spellings without blanks have the same stored name exactly when, a final dot aside, they differ only in letter
      case. */
  lemma SameStored(s: seq<Byte>, t: seq<Byte>)
    requires 0x20 !in s && 0x20 !in t && Name83(s).Some? && Name83(t).Some?
    ensures Name83(s) == Name83(t) <==> SameLetters(Bare(s), Bare(t))
  {
    var d, e := BaseEnd(s), BaseEnd(t);
    StoredBytes(s, d);
    StoredBytes(t, e);
    if Name83(s) == Name83(t) {
      LengthsAgree(s, t, d, e);
      LettersAgree(s, t, d);
    }
    if SameLetters(Bare(s), Bare(t)) {
      BareStored(s);
      BareStored(t);
      CaseInsensitive(Bare(s), Bare(t));
    }
  }

  /** In the stored name of a spelling without blanks the blanks are the filling, and only that. */
  lemma Filling(s: seq<Byte>, d: nat)
    requires DotAt(s, d) && 0x20 !in s && Name83(s).Some?
    ensures forall i :: 0 <= i < 8 ==> (Name83(s).value[i] == 0x20 <==> d <= i)
    ensures forall i :: 8 <= i < 11 ==> (Name83(s).value[i] == 0x20 <==> |s| <= i + d - 7)
  {
    StoredBytes(s, d);
    forall i | 0 <= i < |s| ensures Upper(s[i]) != 0x20 {
      assert s[i] in s;
    }
  }

  lemma LengthsAgree(s: seq<Byte>, t: seq<Byte>, d: nat, e: nat)
    requires DotAt(s, d) && DotAt(t, e) && 0x20 !in s && 0x20 !in t && Name83(s).Some? && Name83(s) == Name83(t)
    ensures d == e && (|s| == |t| || (|s| <= d + 1 && |t| <= d + 1))
  {
    hide Name83;
    Filling(s, d);
    Filling(t, e);
    StoredBytes(s, d);
    StoredBytes(t, e);
    var n := Name83(s).value;
    assert (d < 8 ==> n[d] == 0x20) && (e < 8 ==> n[e] == 0x20);
    var x, y := |s| - d + 7, |t| - e + 7;
    assert n[8] == 0x20 <==> |s| <= d + 1;
    assert (8 <= x < 11 ==> n[x] == 0x20) && (8 <= y < 11 ==> n[y] == 0x20);
  }

  lemma LettersAgree(s: seq<Byte>, t: seq<Byte>, d: nat)
    requires DotAt(s, d) && DotAt(t, d) && Name83(s).Some? && Name83(s) == Name83(t)
    requires |s| == |t| || (|s| <= d + 1 && |t| <= d + 1)
    ensures SameLetters(Bare(s), Bare(t))
  {
    hide Name83;
    StoredBytes(s, d);
    StoredBytes(t, d);
    assert d == BaseEnd(s) && d == BaseEnd(t);
    var n, a, b := Name83(s).value, Bare(s), Bare(t);
    forall i | 0 <= i < |a| ensures Upper(a[i]) == Upper(b[i]) {
      if i < d {
        assert n[i] == Upper(s[i]) && n[i] == Upper(t[i]);
      } else if i > d {
        assert n[i - d + 7] == Upper(s[i]) && n[i - d + 7] == Upper(t[i]);
      }
    }
  }

  lemma BareStored(s: seq<Byte>)
    ensures Name83(Bare(s)) == Name83(s)
  {
    var d := BaseEnd(s);
    if |s| == d + 1 {
      assert BaseEnd(Bare(s)) == d;
      assert Stored(Bare(s), d) == Stored(s, d);
    }
  }

  /** name_to_83: nothing for a spelling whose base is empty or too long or whose extension is too long; else the
      letters of both in capitals, each part filled up with blanks. */
  method NameTo83(name: seq<Byte>) returns (r: Option<Name>)
    ensures r == Name83(name)
    ensures forall d: nat :: DotAt(name, d) ==> (r == None <==> d == 0 || d > 8 || |name| > d + 4)
    ensures forall d: nat :: DotAt(name, d) && r.Some? ==>
              && (forall i :: 0 <= i < 8 ==> r.value[i] == if i < d then Upper(name[i]) else 0x20)
              && (forall i :: 8 <= i < 11 ==> r.value[i] == if i + d - 7 < |name| then Upper(name[i + d - 7]) else 0x20)
  {
    var out: seq<Byte> := seq(11, i => SPACE);
    var i, written := 0, 0;
    ghost var d := BaseEnd(name);
    while i < |name| && name[i] != DOT
      invariant 0 <= i == written <= d && written <= 8 && |out| == 11
      invariant forall j :: 0 <= j < 11 ==> out[j] == if j < written then Upper(name[j]) else SPACE
    {
      if written >= 8 { return None; }
      out := out[written := Upper(name[i])];
      i, written := i + 1, written + 1;
    }
    assert i == d;
    if written == 0 { return None; }
    if i < |name| {
      i := i + 1;
      written := 0;
      while i < |name|
        invariant d + 1 <= i <= |name| && 0 <= written == i - d - 1 <= 3 && |out| == 11
        invariant forall j :: 0 <= j < 11 ==> out[j] == if j < 8 + written then StoredByte(name, d, j) else SPACE
      {
        if written >= 3 { return None; }
        out := out[8 + written := Upper(name[i])];
        i, written := i + 1, written + 1;
      }
    }
    assert out == Stored(name, d);
    StoredBytes(name, d);
    r := Some(out);
  }
}
