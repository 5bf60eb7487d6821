/** Rearrangements of `0 .. n`. */
module Permutations {

  ghost predicate Permutes(order: seq<nat>, n: nat) {
    && |order| == n
    && (forall i :: 0 <= i < n ==> order[i] < n)
    && (forall i, j :: 0 <= i < j < n ==> order[i] != order[j])
  }

  ghost function Upto(n: nat): (s: set<nat>)
    ensures forall k: nat {:trigger k in s} :: k in s <==> k < n
  {
    if n == 0 then {} else Upto(n - 1) + {n - 1}
  }

  lemma {:induction false} UptoSize(n: nat)
    ensures |Upto(n)| == n
  {
    if n != 0 {
      UptoSize(n - 1);
    }
  }

  /** As many distinct numbers below `n` as there are: all of them. */
  lemma FullSet(s: set<nat>, n: nat)
    requires |s| == n && forall k :: k in s ==> k < n
    ensures s == Upto(n)
  {
    UptoSize(n);
    var missing := Upto(n) - s;
    assert Upto(n) == s + missing;
    assert |s + missing| == |s| + |missing|;
  }

  ghost function Members(order: seq<nat>): (s: set<nat>)
    ensures forall k :: k in s <==> k in order
  {
    set k | k in order
  }

  lemma {:induction false} MembersSize(order: seq<nat>)
    requires forall i, j :: 0 <= i < j < |order| ==> order[i] != order[j]
    ensures |Members(order)| == |order|
  {
    if order != [] {
      var last := |order| - 1;
      MembersSize(order[..last]);
      assert order == order[..last] + [order[last]];
      assert Members(order) == Members(order[..last]) + {order[last]};
      assert order[last] !in order[..last];
    } else {
      assert Members(order) == {};
    }
  }

  /** Every number below `n` has its place in a rearrangement. */
  lemma PlaceOf(order: seq<nat>, n: nat, k: nat) returns (i: nat)
    requires Permutes(order, n) && k < n
    ensures i < n && order[i] == k
  {
    MembersSize(order);
    FullSet(Members(order), n);
    assert k in order;
    i :| 0 <= i < n && order[i] == k;
  }
}
