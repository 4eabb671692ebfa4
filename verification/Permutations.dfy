/** Permutations of 0 .. n-1 as sequences, and the counting arguments about them. */
module Permutations {

  ghost predicate InRange(p: seq<nat>) {
    forall i :: 0 <= i < |p| ==> p[i] < |p|
  }

  ghost predicate Distinct(p: seq<nat>) {
    forall i, j :: 0 <= i < j < |p| ==> p[i] != p[j]
  }

  ghost predicate IsPerm(p: seq<nat>) {
    InRange(p) && Distinct(p)
  }

  ghost function Values(p: seq<nat>): set<nat> {
    set x | x in p
  }

  lemma {:induction false} ValuesSize(p: seq<nat>)
    requires Distinct(p)
    ensures |Values(p)| == |p|
  {
    if p != [] {
      var q, x := p[..|p| - 1], p[|p| - 1];
      ValuesSize(q);
      assert Values(p) == Values(q) + {x};
      assert x !in q;
    }
  }

  lemma {:induction false} Fits(s: set<nat>, n: nat)
    requires forall x :: x in s ==> x < n
    ensures |s| <= n
    ensures |s| == n ==> forall x: nat :: x < n ==> x in s
    decreases n
  {
    if n == 0 {
      assert s == {};
    } else {
      var t := s - {n - 1};
      Fits(t, n - 1);
      assert n - 1 in s ==> s == t + {n - 1};
      assert n - 1 !in s ==> s == t;
    }
  }

  /** Every value below n is taken. */
  lemma Onto(p: seq<nat>, x: nat) returns (i: nat)
    requires IsPerm(p) && x < |p|
    ensures i < |p| && p[i] == x
  {
    ValuesSize(p);
    Fits(Values(p), |p|);
    assert x in Values(p);
    i :| 0 <= i < |p| && p[i] == x;
  }

  /**
   The values of `p` up to `k` and those of `q` from `k` on cannot be kept apart: together there
   are n + 1 of them.
   */
  lemma Overlap(p: seq<nat>, q: seq<nat>, k: nat) returns (i: nat, j: nat)
    requires IsPerm(p) && IsPerm(q) && |p| == |q| && k < |p|
    ensures i <= k <= j < |q| && p[i] == q[j]
  {
    var a, b := p[..k + 1], q[k..];
    if forall x :: x in a ==> x !in b {
      var all := a + b;
      assert Distinct(all) by {
        forall i, j | 0 <= i < j < |all| ensures all[i] != all[j] {
          assert i < |a| ==> all[i] == p[i] && p[i] in a;
          assert j >= |a| ==> all[j] == q[j - 1] && q[j - 1] in b;
        }
      }
      ValuesSize(all);
      Fits(Values(all), |p|);
      assert false;
    }
    var x :| x in a && x in b;
    i :| 0 <= i < k + 1 && p[i] == x;
    j :| k <= j < |q| && q[j] == x;
  }
}
