/** kmalloc as its callers meet it: the list of its answers to come. Past the end of the list every request is
    granted. */
module Grants {
  predicate Yes(g: seq<bool>) { g == [] || g[0] }

  /** The answers left after `k` requests. */
  function Rest(g: seq<bool>, k: nat): seq<bool> { if k <= |g| then g[k..] else [] }

  /** The next `k` requests are all granted. */
  ghost predicate Granted(g: seq<bool>, k: nat) { forall i :: 0 <= i < k && i < |g| ==> g[i] }

  /** Some requests later. */
  ghost predicate Later(g: seq<bool>, g': seq<bool>) { exists k: nat :: g' == Rest(g, k) }

  /** Requests made one after another. */
  lemma InTurn(g: seq<bool>, j: nat, k: nat)
    ensures Rest(Rest(g, j), k) == Rest(g, j + k)
    ensures Granted(g, j + k) <==> Granted(g, j) && Granted(Rest(g, j), k)
  {
    if Granted(g, j) && Granted(Rest(g, j), k) {
      forall i | 0 <= i < j + k && i < |g| ensures g[i] {
        assert i >= j ==> Rest(g, j)[i - j] == g[i];
      }
    }
    if Granted(g, j + k) {
      forall i | 0 <= i < k && i < |Rest(g, j)| ensures Rest(g, j)[i] {
        assert Rest(g, j)[i] == g[j + i];
      }
    }
  }

  lemma OneRequest(g: seq<bool>)
    ensures (Granted(g, 1) <==> Yes(g)) && Granted(g, 0) && Rest(g, 0) == g
  {
    if Granted(g, 1) && g != [] {
      assert g[0];
    }
  }

  lemma LaterJoin(g: seq<bool>, g1: seq<bool>, g2: seq<bool>)
    requires Later(g, g1) && Later(g1, g2)
    ensures Later(g, g2)
  {
    var j: nat :| g1 == Rest(g, j);
    var k: nat :| g2 == Rest(g1, k);
    InTurn(g, j, k);
  }

  lemma LaterBy(g: seq<bool>, k: nat)
    ensures Later(g, Rest(g, k)) && Later(g, g)
  {
    assert Rest(g, 0) == g;
  }

  /** There is always a number not in use. */
  lemma Unused(S: set<nat>)
    ensures exists a: nat :: a != 0 && a !in S
  {
    var top := Above(S);
    assert top + 1 !in S;
  }

  lemma {:induction false} Above(S: set<nat>) returns (top: nat)
    ensures forall x :: x in S ==> x <= top
    decreases |S|
  {
    top := 0;
    if S != {} {
      var x :| x in S;
      var t := Above(S - {x});
      top := if x < t then t else x;
      forall y | y in S ensures y <= top {
        assert y == x || y in S - {x};
      }
    }
  }
}
