/** Stable sorting by counting: where each index goes, and that this sorts. */
module StableSort {
  import opened Permutations

  /** The indices in the order of their values, those of equal values in their own order. */
  ghost predicate IsStable(l: seq<nat>, table: seq<nat>) {
    && |table| == |l| && IsPerm(table)
    && forall a, b :: 0 <= a < b < |l| ==> l[table[a]] < l[table[b]] || (l[table[a]] == l[table[b]] && table[a] < table[b])
  }

  /** How many of the first `k` values are below `c`. */
  function Less(l: seq<nat>, c: nat, k: nat): (r: nat)
    requires k <= |l|
    ensures r <= k
  {
    if k == 0 then 0 else Less(l, c, k - 1) + if l[k - 1] < c then 1 else 0
  }

  /** How many of the first `k` values are `c`. */
  function Same(l: seq<nat>, c: nat, k: nat): (r: nat)
    requires k <= |l|
    ensures r <= k
  {
    if k == 0 then 0 else Same(l, c, k - 1) + if l[k - 1] == c then 1 else 0
  }

  /** Where the sort puts index `i`: behind all smaller values and the equal ones before it. */
  function Place(l: seq<nat>, i: nat): nat
    requires i < |l|
  {
    Less(l, l[i], |l|) + Same(l, l[i], i)
  }

  lemma {:induction false} LessNext(l: seq<nat>, c: nat, k: nat)
    requires k <= |l|
    ensures Less(l, c + 1, k) == Less(l, c, k) + Same(l, c, k)
  {
    if k != 0 { LessNext(l, c, k - 1); }
  }

  lemma {:induction false} LessMonotone(l: seq<nat>, c: nat, d: nat, k: nat)
    requires k <= |l|
    ensures c <= d ==> Less(l, c, k) <= Less(l, d, k)
  {
    if k != 0 { LessMonotone(l, c, d, k - 1); }
  }

  lemma {:induction false} SameMonotone(l: seq<nat>, c: nat, i: nat, j: nat)
    requires i <= j <= |l|
    ensures Same(l, c, i) <= Same(l, c, j)
    ensures i < j && l[i] == c ==> Same(l, c, i) < Same(l, c, j)
  {
    if i < j {
      if i + 1 < j { SameMonotone(l, c, i, j - 1); }
    }
  }

  /** The places of value `c` are those from Less(c) up to Less(c + 1). */
  lemma PlaceIn(l: seq<nat>, i: nat, c: nat)
    requires i < |l| && c == l[i]
    ensures Less(l, c, |l|) <= Place(l, i) < Less(l, c + 1, |l|) <= |l|
  {
    LessNext(l, c, |l|);
    SameMonotone(l, c, i, |l|);
  }

  lemma PlaceOrder(l: seq<nat>, i: nat, j: nat)
    requires i < |l| && j < |l|
    ensures l[i] < l[j] || (l[i] == l[j] && i < j) ==> Place(l, i) < Place(l, j)
  {
    var a: nat, b: nat := l[i], l[j];
    if a < b {
      PlaceIn(l, i, a);
      LessMonotone(l, a + 1, b, |l|);
    } else if a == b && i < j {
      SameMonotone(l, a, i, j);
    }
  }

  ghost function Places(l: seq<nat>): (p: seq<nat>)
    ensures |p| == |l| && forall i :: 0 <= i < |l| ==> p[i] == Place(l, i)
  {
    seq(|l|, i requires 0 <= i < |l| => Place(l, i))
  }

  lemma PlacesPerm(l: seq<nat>)
    ensures IsPerm(Places(l))
  {
    forall i | 0 <= i < |l| ensures Places(l)[i] < |l| {
      PlaceIn(l, i, l[i]);
    }
    forall i, j | 0 <= i < j < |l| ensures Places(l)[i] != Places(l)[j] {
      PlaceOrder(l, i, j);
      PlaceOrder(l, j, i);
    }
  }

  lemma {:induction false} NoneBelowZero(l: seq<nat>, k: nat)
    requires k <= |l|
    ensures Less(l, 0, k) == 0
  {
    if k != 0 { NoneBelowZero(l, k - 1); }
  }

  /** A table that has every index in its place is the stable one, and there are no gaps in it. */
  lemma PlacedIsStable(l: seq<nat>, table: seq<nat>)
    requires |table| == |l| && IsPerm(Places(l))
    requires forall i :: 0 <= i < |l| ==> table[Places(l)[i]] == i
    ensures IsStable(l, table)
    ensures forall k :: 0 <= k < |l| ==> k == Place(l, table[k])
  {
    var places := Places(l);
    forall k | 0 <= k < |l| ensures table[k] < |l| && k == places[table[k]] {
      var i := Onto(places, k);
    }
    forall a, b | 0 <= a < b < |l|
      ensures l[table[a]] < l[table[b]] || (l[table[a]] == l[table[b]] && table[a] < table[b])
    {
      PlaceOrder(l, table[b], table[a]);
    }
  }

  /** The stable order, each index put straight into its place. */
  method StableOrder(keys: seq<nat>) returns (order: seq<nat>)
    ensures IsStable(keys, order)
  {
    PlacesPerm(keys);
    var slots := new nat[|keys|](_ => 0);
    for i := 0 to |keys|
      invariant forall j :: 0 <= j < i ==> slots[Places(keys)[j]] == j
    {
      slots[Place(keys, i)] := i;
    }
    order := slots[..];
    PlacedIsStable(keys, order);
  }
}
