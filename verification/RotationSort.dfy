/** The order of a block's rotations by prefix doubling, and the transform made from it (NzBwtTransform). */
module RotationSort {
  import opened Words
  import opened Arith
  import opened Permutations
  import opened StableSort
  import opened Rotations
  import opened BwtWalk
  import opened BwtTable
  import opened BwtUntransform

  /**
   The longest block the transform is right for: beyond it the 32-bit sums of two positions wrap
   (`OneBeforeWraps`).
   */
  const SORT_LIMIT := 0x8000_0000

  // ---------------------------------------------------------------- two keys and their ranks

  /** `i` is not behind `j` by `x`, ties broken by `y`. */
  ghost predicate KeysLe(x: seq<nat>, y: seq<nat>, i: nat, j: nat)
    requires i < |x| == |y| && j < |x|
  {
    x[i] < x[j] || (x[i] == x[j] && y[i] <= y[j])
  }

  ghost predicate KeysEq(x: seq<nat>, y: seq<nat>, i: nat, j: nat)
    requires i < |x| == |y| && j < |x|
  {
    x[i] == x[j] && y[i] == y[j]
  }

  ghost predicate SortedBy(sa: seq<nat>, x: seq<nat>, y: seq<nat>) {
    && |sa| == |x| == |y| && IsPerm(sa)
    && forall a, b :: 0 <= a < b < |sa| ==> KeysLe(x, y, sa[a], sa[b])
  }

  /** The first `m` entries carry as their rank the first position that has their keys. */
  ghost predicate NumberedTo(sa: seq<nat>, x: seq<nat>, y: seq<nat>, rank: seq<nat>, m: nat) {
    && |sa| == |x| == |y| == |rank| && InRange(sa) && m <= |sa|
    && (m > 0 ==> rank[sa[0]] == 0)
    && forall p :: 1 <= p < m ==> rank[sa[p]] == if KeysEq(x, y, sa[p], sa[p - 1]) then rank[sa[p - 1]] else p
  }

  /** A rank is the first position of its group, and ranks do not fall. */
  ghost predicate IsRank(sa: seq<nat>, rank: seq<nat>) {
    && |sa| == |rank| && IsPerm(sa)
    && (forall p :: 0 <= p < |sa| ==> rank[sa[p]] <= p && rank[sa[rank[sa[p]]]] == rank[sa[p]])
    && forall a, b :: 0 <= a < b < |sa| ==> rank[sa[a]] <= rank[sa[b]]
  }

  lemma {:induction false} RunStart(sa: seq<nat>, x: seq<nat>, y: seq<nat>, rank: seq<nat>, p: nat)
    requires SortedBy(sa, x, y) && NumberedTo(sa, x, y, rank, |sa|) && p < |sa|
    ensures rank[sa[p]] <= p && rank[sa[rank[sa[p]]]] == rank[sa[p]]
    ensures KeysEq(x, y, sa[rank[sa[p]]], sa[p])
  {
    if p > 0 { RunStart(sa, x, y, rank, p - 1); }
  }

  lemma {:induction false} EqualKeysShareRank(sa: seq<nat>, x: seq<nat>, y: seq<nat>, rank: seq<nat>, a: nat, b: nat)
    requires SortedBy(sa, x, y) && NumberedTo(sa, x, y, rank, |sa|) && a <= b < |sa|
    ensures KeysEq(x, y, sa[a], sa[b]) <==> rank[sa[a]] == rank[sa[b]]
    ensures rank[sa[a]] <= rank[sa[b]]
    decreases b
  {
    RunStart(sa, x, y, rank, a);
    RunStart(sa, x, y, rank, b);
    if a < b {
      EqualKeysShareRank(sa, x, y, rank, a, b - 1);
      assert KeysLe(x, y, sa[b - 1], sa[b]);
      assert a < b - 1 ==> KeysLe(x, y, sa[a], sa[b - 1]);
    }
  }

  /** The numbering of a sorted order orders exactly as the keys do. */
  lemma RanksOrderAsKeys(sa: seq<nat>, x: seq<nat>, y: seq<nat>, rank: seq<nat>, i: nat, j: nat)
    requires SortedBy(sa, x, y) && NumberedTo(sa, x, y, rank, |sa|) && i < |sa| && j < |sa|
    ensures rank[i] <= rank[j] <==> KeysLe(x, y, i, j)
  {
    var a := Onto(sa, i);
    var b := Onto(sa, j);
    if a <= b {
      EqualKeysShareRank(sa, x, y, rank, a, b);
      assert a < b ==> KeysLe(x, y, sa[a], sa[b]);
    } else {
      EqualKeysShareRank(sa, x, y, rank, b, a);
      assert KeysLe(x, y, sa[b], sa[a]);
    }
  }

  lemma NumberingIsRank(sa: seq<nat>, x: seq<nat>, y: seq<nat>, rank: seq<nat>)
    requires SortedBy(sa, x, y) && NumberedTo(sa, x, y, rank, |sa|)
    ensures IsRank(sa, rank)
  {
    forall p | 0 <= p < |sa| ensures rank[sa[p]] <= p && rank[sa[rank[sa[p]]]] == rank[sa[p]] {
      RunStart(sa, x, y, rank, p);
    }
    forall a, b | 0 <= a < b < |sa| ensures rank[sa[a]] <= rank[sa[b]] {
      EqualKeysShareRank(sa, x, y, rank, a, b);
    }
  }

  // ---------------------------------------------------------------- what a round leaves

  /** The rotations in the order of their first `k` bytes, with their ranks. */
  ghost predicate Ranked(s: seq<Byte>, sa: seq<nat>, rank: seq<nat>, k: nat) {
    && |sa| == |s| && IsRank(sa, rank)
    && forall i, j :: 0 <= i < |s| && 0 <= j < |s| ==> (rank[i] <= rank[j] <==> Le(s, i, j, k))
  }

  /** The rank of the rotation `k` bytes on. */
  ghost function Shifted(rank: seq<nat>, k: nat): (y: seq<nat>)
    ensures |y| == |rank| && forall i :: 0 <= i < |rank| ==> y[i] == rank[Adv(|rank|, i, k)]
  {
    seq(|rank|, i requires 0 <= i < |rank| => rank[Adv(|rank|, i, k)])
  }

  /** One round doubles the number of bytes the order looks at. */
  lemma RoundDoubles(s: seq<Byte>, sa: seq<nat>, rank: seq<nat>, k: nat, sa': seq<nat>, rank': seq<nat>)
    requires Ranked(s, sa, rank, k)
    requires SortedBy(sa', rank, Shifted(rank, k)) && NumberedTo(sa', rank, Shifted(rank, k), rank', |sa'|)
    ensures Ranked(s, sa', rank', 2 * k)
  {
    var y := Shifted(rank, k);
    NumberingIsRank(sa', rank, y, rank');
    forall i, j | 0 <= i < |s| && 0 <= j < |s| ensures rank'[i] <= rank'[j] <==> Le(s, i, j, 2 * k) {
      RanksOrderAsKeys(sa', rank, y, rank', i, j);
      LeSplits(s, i, j, k, k);
      LeTotal(s, i, j, k);
      assert y[i] == rank[Adv(|s|, i, k)] && y[j] == rank[Adv(|s|, j, k)];
    }
  }

  /** When every rotation has its own rank, the first `k` bytes decide everything. */
  lemma AloneIsSorted(s: seq<Byte>, sa: seq<nat>, rank: seq<nat>, k: nat)
    requires Ranked(s, sa, rank, k)
    requires k >= |s| || forall p :: 0 <= p < |s| ==> rank[sa[p]] == p
    ensures SortedRotations(s, sa)
  {
    forall a, b | 0 <= a < b < |s| ensures Le(s, sa[a], sa[b], |s|) {
      var i, j := sa[a], sa[b];
      assert rank[i] <= rank[j];
      if k >= |s| {
        LeBeyond(s, i, j, k);
      } else {
        LeTotal(s, i, j, k);
        LeSplits(s, i, j, k, |s| - k);
      }
    }
  }

  // ---------------------------------------------------------------- numbering

  /** `NumberedTo` extended over the positions from `j` to `e`, a new group beginning at `j`. */
  method Number(sa: array<nat>, rank: array<nat>, k: nat, rank2: array<nat>, j: nat, e: nat)
    requires sa.Length == rank.Length == rank2.Length && sa != rank2 && rank != rank2 && IsPerm(sa[..])
    requires k < sa.Length <= SORT_LIMIT && j < e <= sa.Length
    requires NumberedTo(sa[..], rank[..], Shifted(rank[..], k), rank2[..], j)
    requires j > 0 ==> !KeysEq(rank[..], Shifted(rank[..], k), sa[j], sa[j - 1])
    modifies rank2
    ensures NumberedTo(sa[..], rank[..], Shifted(rank[..], k), rank2[..], e)
    ensures forall p :: e <= p < sa.Length ==> rank2[sa[p]] == old(rank2[sa[p]])
  {
    var n, cur: nat := sa.Length, j;
    ghost var order, x, y := sa[..], rank[..], Shifted(rank[..], k);
    rank2[sa[j]] := cur;
    for t := j + 1 to e
      invariant NumberedTo(order, x, y, rank2[..], t) && cur == rank2[sa[t - 1]]
      invariant forall p :: t <= p < n ==> rank2[sa[p]] == old(rank2[sa[p]])
    {
      var differ := KeysDiffer(rank, sa[t], sa[t - 1], k);
      if differ { cur := t; }
      ghost var before := rank2[..];
      rank2[sa[t]] := cur;
      NumberOne(order, x, y, before, t, cur);
      assert rank2[..] == before[order[t] := cur];
    }
  }

  /** The position `k` on from `i`, by a 32-bit sum and one conditional subtraction. */
  function Further(n: nat, i: nat, k: nat): (r: nat)
    requires i < n <= SORT_LIMIT && k < n
    ensures r == Adv(n, i, k)
  {
    WrapsOnce(i + k);
    var ax := Wrap32(i + k);
    if ax >= n then ax - n else ax
  }

  method KeysDiffer(rank: array<nat>, a: nat, b: nat, k: nat) returns (differ: bool)
    requires a < rank.Length && b < rank.Length && k < rank.Length <= SORT_LIMIT
    ensures differ <==> !KeysEq(rank[..], Shifted(rank[..], k), a, b)
  {
    var n := rank.Length;
    var ax, bx := Further(n, a, k), Further(n, b, k);
    differ := rank[a] != rank[b] || rank[ax] != rank[bx];
    assert Shifted(rank[..], k)[a] == rank[ax] && Shifted(rank[..], k)[b] == rank[bx];
  }

  lemma NumberOne(sa: seq<nat>, x: seq<nat>, y: seq<nat>, rank: seq<nat>, t: nat, cur: nat)
    requires NumberedTo(sa, x, y, rank, t) && 1 <= t < |sa| && IsPerm(sa)
    requires cur == if KeysEq(x, y, sa[t], sa[t - 1]) then rank[sa[t - 1]] else t
    ensures NumberedTo(sa, x, y, rank[sa[t] := cur], t + 1)
  {
  }

  // ---------------------------------------------------------------- one pass over everything

  ghost function Through(rank: seq<nat>, p: seq<nat>): (t: seq<nat>)
    requires |p| == |rank| && InRange(p)
    ensures |t| == |p| && forall j :: 0 <= j < |p| ==> t[j] == rank[p[j]]
  {
    seq(|p|, j requires 0 <= j < |p| => rank[p[j]])
  }

  /** The rotations of rank below `g` among the first `m` of `p`. */
  ghost function Below(rank: seq<nat>, p: seq<nat>, g: nat, m: nat): set<nat>
    requires m <= |p|
  {
    set i: nat | i in p[..m] && i < |rank| && rank[i] < g
  }

  lemma BelowNext(rank: seq<nat>, p: seq<nat>, g: nat, m: nat)
    requires |p| == |rank| && IsPerm(p) && m < |p|
    ensures p[m] !in Below(rank, p, g, m)
    ensures Below(rank, p, g, m + 1) == Below(rank, p, g, m) + if rank[p[m]] < g then {p[m]} else {}
  {
    assert p[..m + 1] == p[..m] + [p[m]];
    assert p[m] !in p[..m];
  }

  lemma {:induction false} LessCounts(rank: seq<nat>, p: seq<nat>, g: nat, m: nat)
    requires |p| == |rank| && IsPerm(p) && m <= |p|
    ensures Less(Through(rank, p), g, m) == |Below(rank, p, g, m)|
  {
    if m == 0 {
      assert Below(rank, p, g, m) == {};
    } else {
      LessCounts(rank, p, g, m - 1);
      BelowNext(rank, p, g, m - 1);
    }
  }

  /** The count does not depend on the order the values are met in. */
  lemma LessOfAnyOrder(rank: seq<nat>, p: seq<nat>, q: seq<nat>, g: nat)
    requires |p| == |q| == |rank| && IsPerm(p) && IsPerm(q)
    ensures Less(Through(rank, p), g, |p|) == Less(Through(rank, q), g, |q|)
  {
    LessCounts(rank, p, g, |p|);
    LessCounts(rank, q, g, |q|);
    forall i: nat | i < |rank| ensures i in p[..|p|] && i in q[..|q|] {
      var a := Onto(p, i);
      var b := Onto(q, i);
      assert p[..|p|][a] == i && q[..|q|][b] == i;
    }
    assert Below(rank, p, g, |p|) == Below(rank, q, g, |q|);
  }

  lemma {:induction false} LessOfRank(sa: seq<nat>, rank: seq<nat>, p: nat, m: nat)
    requires IsRank(sa, rank) && p < |sa| && m <= |sa|
    ensures Less(Through(rank, sa), rank[sa[p]], m) == if m < rank[sa[p]] then m else rank[sa[p]]
  {
    var g := rank[sa[p]];
    if m != 0 {
      LessOfRank(sa, rank, p, m - 1);
      assert rank[sa[m - 1]] <= m - 1;
      assert rank[sa[g]] == g;
    }
  }

  /** A rank counts the rotations before its group, in whatever order one looks at them. */
  lemma RankCounts(sa: seq<nat>, rank: seq<nat>, p: seq<nat>, i: nat)
    requires IsRank(sa, rank) && |p| == |sa| && IsPerm(p) && i < |sa|
    ensures Less(Through(rank, p), rank[i], |p|) == rank[i]
  {
    var a := Onto(sa, i);
    LessOfRank(sa, rank, a, |sa|);
    LessOfAnyOrder(rank, p, sa, rank[i]);
    assert rank[sa[a]] <= a;
  }

  /** The previous order moved back by `k`: the order by the second key. */
  ghost predicate MovedBack(sa: seq<nat>, k: nat, tmp: seq<nat>) {
    && |tmp| == |sa| && InRange(tmp) && IsPerm(sa)
    && forall j :: 0 <= j < |sa| ==> Adv(|sa|, tmp[j], k) == sa[j]
  }

  lemma MovedBackIsPerm(sa: seq<nat>, k: nat, tmp: seq<nat>)
    requires MovedBack(sa, k, tmp)
    ensures IsPerm(tmp)
  {
    forall i, j | 0 <= i < j < |tmp| ensures tmp[i] != tmp[j] {
      assert Adv(|sa|, tmp[i], k) != Adv(|sa|, tmp[j], k);
    }
  }

  /** Sorting stably by the first key what is in the order of the second sorts by both. */
  lemma StableOnSecond(sa: seq<nat>, rank: seq<nat>, k: nat, tmp: seq<nat>, order: seq<nat>, sa': seq<nat>)
    requires IsRank(sa, rank) && MovedBack(sa, k, tmp) && IsPerm(tmp)
    requires IsStable(Through(rank, tmp), order) && |sa'| == |sa|
    requires forall a :: 0 <= a < |sa| ==> sa'[a] == tmp[order[a]]
    ensures SortedBy(sa', rank, Shifted(rank, k))
  {
    var y := Shifted(rank, k);
    forall a, b | 0 <= a < b < |sa| ensures sa'[a] != sa'[b] && KeysLe(rank, y, sa'[a], sa'[b]) {
      assert y[sa'[a]] == rank[sa[order[a]]] && y[sa'[b]] == rank[sa[order[b]]];
      assert Through(rank, tmp)[order[a]] == rank[sa'[a]] && Through(rank, tmp)[order[b]] == rank[sa'[b]];
    }
  }

  /** The running offsets after `j` of the scatter's writes. */
  ghost predicate Running(t: seq<nat>, cnt: seq<nat>, j: nat) {
    |cnt| == |t| && j <= |t| && forall g :: 0 <= g < |t| ==> cnt[g] == g + Same(t, g, j)
  }

  lemma RunOn(t: seq<nat>, cnt: seq<nat>, j: nat)
    requires Running(t, cnt, j) && j < |t| && t[j] < |t|
    ensures Running(t, cnt[t[j] := cnt[t[j]] + 1], j + 1)
    ensures cnt[t[j]] == t[j] + Same(t, t[j], j)
  {
  }

  ghost predicate Scattered(places: seq<nat>, tmp: seq<nat>, sa: seq<nat>, j: nat) {
    |places| == |tmp| == |sa| && j <= |tmp| && IsPerm(places) && forall i :: 0 <= i < j ==> sa[places[i]] == tmp[i]
  }

  lemma ScatterOn(places: seq<nat>, tmp: seq<nat>, sa: seq<nat>, j: nat)
    requires Scattered(places, tmp, sa, j) && j < |tmp|
    ensures places[j] < |sa| && Scattered(places, tmp, sa[places[j] := tmp[j]], j + 1)
  {
  }

  /** The running offsets lead every index to its place. */
  ghost predicate SlotsArePlaces(t: seq<nat>, places: seq<nat>) {
    |t| == |places| && IsPerm(places) && forall j :: 0 <= j < |t| ==> t[j] < |t| && t[j] + Same(t, t[j], j) == places[j]
  }

  lemma RanksAreSlots(sa: seq<nat>, rank: seq<nat>, tmp: seq<nat>)
    requires IsRank(sa, rank) && |tmp| == |sa| && IsPerm(tmp)
    ensures SlotsArePlaces(Through(rank, tmp), Places(Through(rank, tmp)))
  {
    var t := Through(rank, tmp);
    PlacesPerm(t);
    forall j | 0 <= j < |tmp| ensures t[j] < |t| && t[j] + Same(t, t[j], j) == Places(t)[j] {
      RankCounts(sa, rank, tmp, tmp[j]);
      var a := Onto(sa, tmp[j]);
      assert rank[sa[a]] <= a;
    }
  }

  method Scatter(sa: array<nat>, rank: array<nat>, tmp: seq<nat>, ghost t: seq<nat>, ghost places: seq<nat>)
    requires sa.Length == rank.Length == |tmp| && sa != rank && InRange(tmp) && t == Through(rank[..], tmp)
    requires SlotsArePlaces(t, places)
    modifies sa
    ensures Scattered(places, tmp, sa[..], |tmp|)
  {
    ghost var x := rank[..];
    var cnt := new nat[sa.Length](i => i);
    for j := 0 to sa.Length
      invariant rank[..] == x
      invariant Running(t, cnt[..], j) && Scattered(places, tmp, sa[..], j)
    {
      ScatterOne(sa, rank, cnt, tmp[j], j, tmp, t, places);
    }
  }

  method ScatterOne(sa: array<nat>, rank: array<nat>, cnt: array<nat>, i: nat, ghost j: nat, ghost tmp: seq<nat>, ghost t: seq<nat>, ghost places: seq<nat>)
    requires sa.Length == rank.Length == |t| == |tmp| && sa != rank && sa != cnt && rank != cnt
    requires j < |t| && i < rank.Length && i == tmp[j] && t[j] == rank[i]
    requires SlotsArePlaces(t, places) && Running(t, cnt[..], j) && Scattered(places, tmp, sa[..], j)
    modifies sa, cnt
    ensures Running(t, cnt[..], j + 1) && Scattered(places, tmp, sa[..], j + 1)
  {
    ghost var before, offsets := sa[..], cnt[..];
    RunOn(t, offsets, j);
    ScatterOn(places, tmp, before, j);
    var slot := cnt[rank[i]];
    sa[slot] := i;
    assert sa[..] == before[places[j] := tmp[j]];
    cnt[rank[i]] := slot + 1;
    assert cnt[..] == offsets[t[j] := slot + 1];
  }

  lemma Sorted(sa: seq<nat>, rank: seq<nat>, k: nat, tmp: seq<nat>, sa': seq<nat>)
    requires IsRank(sa, rank) && MovedBack(sa, k, tmp) && IsPerm(tmp) && |sa'| == |sa|
    requires var places := Places(Through(rank, tmp)); IsPerm(places) && forall j :: 0 <= j < |tmp| ==> sa'[places[j]] == tmp[j]
    ensures SortedBy(sa', rank, Shifted(rank, k))
  {
    var t := Through(rank, tmp);
    var places := Places(t);
    var order := seq(|t|, a requires 0 <= a < |t| => Inverse(places, a));
    PlacedIsStable(t, order);
    StableOnSecond(sa, rank, k, tmp, order, sa');
  }

  ghost function Inverse(p: seq<nat>, x: nat): (i: nat)
    requires IsPerm(p) && x < |p|
    ensures i < |p| && p[i] == x
  {
    assert exists i: nat :: i < |p| && p[i] == x by {
      var i := Onto(p, x);
    }
    var i: nat :| i < |p| && p[i] == x;
    i
  }

  method MoveBack(sa: array<nat>, k: nat) returns (tmp: seq<nat>)
    requires IsPerm(sa[..]) && 1 <= k < sa.Length
    ensures MovedBack(sa[..], k, tmp) && IsPerm(tmp)
  {
    var n := sa.Length;
    tmp := [];
    for j := 0 to n
      invariant |tmp| == j && forall i :: 0 <= i < j ==> tmp[i] < n && Adv(n, tmp[i], k) == sa[i]
    {
      var p := sa[j];
      assert p == sa[..][j];
      tmp := tmp + [if p >= k then p - k else p + n - k];
    }
    MovedBackIsPerm(sa[..], k, tmp);
  }

  /** The round that sorts everything: counting by rank, in the order of the second key. */
  method SortAll(sa: array<nat>, rank: array<nat>, k: nat)
    requires sa.Length == rank.Length && sa != rank && IsRank(sa[..], rank[..]) && 1 <= k < sa.Length
    modifies sa
    ensures SortedBy(sa[..], rank[..], Shifted(rank[..], k))
  {
    ghost var sa0 := sa[..];
    var tmp := MoveBack(sa, k);
    RanksAreSlots(sa0, rank[..], tmp);
    ghost var t := Through(rank[..], tmp);
    Scatter(sa, rank, tmp, t, Places(t));
    Sorted(sa0, rank[..], k, tmp, sa[..]);
  }

  // ---------------------------------------------------------------- group by group

  /** The positions from `j` up to `e` are those of the rotations of rank `j`. */
  ghost predicate IsGroup(sa: seq<nat>, rank: seq<nat>, j: nat, e: nat) {
    && j < e <= |sa| == |rank| && InRange(sa)
    && (forall p :: j <= p < e ==> rank[sa[p]] == j)
    && (e < |sa| ==> rank[sa[e]] == e)
  }

  method GroupEnd(sa: array<nat>, rank: array<nat>, j: nat) returns (e: nat)
    requires sa.Length == rank.Length && IsRank(sa[..], rank[..]) && j < sa.Length && rank[sa[j]] == j
    ensures IsGroup(sa[..], rank[..], j, e)
  {
    ghost var order, x := sa[..], rank[..];
    e := j + 1;
    while e < sa.Length && rank[sa[e]] == j
      invariant j < e <= sa.Length
      invariant forall p :: j <= p < e ==> x[order[p]] == j
    {
      e := e + 1;
    }
    if e < sa.Length {
      NextGroup(order, x, j, e);
    }
  }

  lemma NextGroup(sa: seq<nat>, rank: seq<nat>, j: nat, e: nat)
    requires IsRank(sa, rank) && j < e < |sa| && rank[sa[e]] != j
    requires forall p :: j <= p < e ==> rank[sa[p]] == j
    ensures rank[sa[e]] == e
  {
    var q := rank[sa[e]];
    assert rank[sa[j]] <= q && q <= e && rank[sa[q]] == q;
    if q < j { assert false; }
  }

  /** The groups before `j` are in order and numbered anew, the others as they were. */
  ghost predicate LocalTo(sa: seq<nat>, x: seq<nat>, y: seq<nat>, rank2: seq<nat>, j: nat) {
    && NumberedTo(sa, x, y, rank2, j) && IsRank(sa, x)
    && (forall a, b :: 0 <= a < b < j ==> KeysLe(x, y, sa[a], sa[b]))
    && forall p :: j <= p < |sa| ==> rank2[sa[p]] == x[sa[p]]
  }

  /** `sa'` is `sa` with the group from `j` to `e` put into the given order. */
  ghost predicate Regrouped(sa: seq<nat>, j: nat, e: nat, order: seq<nat>, sa': seq<nat>) {
    && |sa'| == |sa| && j + |order| == e <= |sa| && IsPerm(order)
    && (forall p :: 0 <= p < j || e <= p < |sa| ==> sa'[p] == sa[p])
    && forall t :: 0 <= t < |order| ==> sa'[j + t] == sa[j + order[t]]
  }

  lemma RegroupedIsPerm(sa: seq<nat>, j: nat, e: nat, order: seq<nat>, sa': seq<nat>)
    requires IsPerm(sa) && Regrouped(sa, j, e, order, sa')
    ensures IsPerm(sa')
  {
    var from := seq(|sa|, p requires 0 <= p < |sa| => if j <= p < e then j + order[p - j] else p);
    forall p | 0 <= p < |sa| ensures sa'[p] == sa[from[p]] {
      assert j <= p < e ==> sa'[j + (p - j)] == sa[j + order[p - j]];
    }
    forall a, b | 0 <= a < b < |sa| ensures sa'[a] != sa'[b] {
      assert from[a] != from[b];
    }
  }

  /** The keys within the group, by which it is sorted. */
  ghost predicate IsKeysOf(sa: seq<nat>, y: seq<nat>, j: nat, e: nat, keys: seq<nat>) {
    j + |keys| == e <= |sa| == |y| && InRange(sa) && forall t :: 0 <= t < |keys| ==> keys[t] == y[sa[j + t]]
  }

  lemma RegroupedIsRank(sa: seq<nat>, x: seq<nat>, j: nat, e: nat, order: seq<nat>, sa': seq<nat>)
    requires IsRank(sa, x) && IsGroup(sa, x, j, e) && Regrouped(sa, j, e, order, sa')
    ensures IsRank(sa', x) && IsGroup(sa', x, j, e)
    ensures forall p :: 0 <= p < |sa| ==> x[sa'[p]] == x[sa[p]]
  {
    RegroupedIsPerm(sa, j, e, order, sa');
    forall p | 0 <= p < |sa| ensures x[sa'[p]] == x[sa[p]] {
      assert j <= p < e ==> sa'[j + (p - j)] == sa[j + order[p - j]];
    }
  }

  lemma RegroupedIsSorted(sa: seq<nat>, x: seq<nat>, y: seq<nat>, rank2: seq<nat>, j: nat, e: nat, keys: seq<nat>, order: seq<nat>, sa': seq<nat>)
    requires LocalTo(sa, x, y, rank2, j) && IsGroup(sa, x, j, e) && IsKeysOf(sa, y, j, e, keys)
    requires IsStable(keys, order) && Regrouped(sa, j, e, order, sa')
    ensures IsRank(sa', x) && IsGroup(sa', x, j, e)
    ensures forall a, b :: 0 <= a < b < e ==> KeysLe(x, y, sa'[a], sa'[b])
  {
    RegroupedIsRank(sa, x, j, e, order, sa');
    forall a, b | 0 <= a < b < e ensures KeysLe(x, y, sa'[a], sa'[b]) {
      if a >= j {
        assert sa'[j + (a - j)] == sa[j + order[a - j]] && sa'[j + (b - j)] == sa[j + order[b - j]];
      } else if b >= j {
        assert x[sa'[a]] <= a;
      }
    }
  }

  lemma RegroupedKeepsRest(sa: seq<nat>, x: seq<nat>, y: seq<nat>, rank2: seq<nat>, j: nat, e: nat, order: seq<nat>, sa': seq<nat>)
    requires LocalTo(sa, x, y, rank2, j) && IsGroup(sa, x, j, e) && Regrouped(sa, j, e, order, sa') && IsPerm(sa')
    ensures NumberedTo(sa', x, y, rank2, j)
    ensures forall p :: e <= p < |sa| ==> rank2[sa'[p]] == x[sa'[p]]
    ensures j > 0 ==> x[sa'[j]] != x[sa'[j - 1]]
  {
    RegroupedIsRank(sa, x, j, e, order, sa');
    assert j > 0 ==> x[sa'[j - 1]] <= j - 1;
  }

  method Regroup(sa: array<nat>, j: nat, e: nat, order: seq<nat>)
    requires j + |order| == e <= sa.Length && IsPerm(order)
    modifies sa
    ensures Regrouped(old(sa[..]), j, e, order, sa[..])
  {
    var grp := sa[j..e];
    for t := 0 to e - j
      invariant forall p :: 0 <= p < j || e <= p < sa.Length ==> sa[p] == old(sa[p])
      invariant forall i :: 0 <= i < t ==> sa[j + i] == grp[order[i]]
    {
      sa[j + t] := grp[order[t]];
    }
  }

  method SortGroup(sa: array<nat>, rank: array<nat>, k: nat, rank2: array<nat>, j: nat, e: nat)
    requires sa.Length == rank.Length == rank2.Length && sa != rank && sa != rank2 && rank != rank2 && k < sa.Length <= SORT_LIMIT
    requires LocalTo(sa[..], rank[..], Shifted(rank[..], k), rank2[..], j) && IsGroup(sa[..], rank[..], j, e)
    modifies sa, rank2
    ensures rank[..] == old(rank[..]) && LocalTo(sa[..], rank[..], Shifted(rank[..], k), rank2[..], e)
    ensures e < sa.Length ==> rank[sa[e]] == e
  {
    ghost var was, x, y := sa[..], rank[..], Shifted(rank[..], k);
    var keys := GroupKeys(sa, rank, k, j, e);
    var order := StableOrder(keys);
    Regroup(sa, j, e, order);
    RegroupedIsSorted(was, x, y, rank2[..], j, e, keys, order, sa[..]);
    RegroupedKeepsRest(was, x, y, rank2[..], j, e, order, sa[..]);
    Number(sa, rank, k, rank2, j, e);
  }

  method GroupKeys(sa: array<nat>, rank: array<nat>, k: nat, j: nat, e: nat) returns (keys: seq<nat>)
    requires sa.Length == rank.Length && IsPerm(sa[..]) && k < sa.Length <= SORT_LIMIT && j <= e <= sa.Length
    ensures IsKeysOf(sa[..], Shifted(rank[..], k), j, e, keys)
  {
    var n := sa.Length;
    keys := [];
    for t := j to e
      invariant IsKeysOf(sa[..], Shifted(rank[..], k), j, t, keys)
    {
      var i := sa[t];
      assert i == sa[..][t];
      keys := keys + [rank[Further(n, i, k)]];
    }
  }

  lemma AloneStays(sa: seq<nat>, x: seq<nat>, y: seq<nat>, rank2: seq<nat>, j: nat)
    requires LocalTo(sa, x, y, rank2, j) && IsGroup(sa, x, j, j + 1)
    ensures LocalTo(sa, x, y, rank2, j + 1)
  {
    assert j > 0 ==> x[sa[j - 1]] <= j - 1;
    forall a | 0 <= a < j ensures KeysLe(x, y, sa[a], sa[j]) {
      assert x[sa[a]] <= a;
    }
  }

  /** The round that sorts only inside the groups that are left. */
  method SortGroups(sa: array<nat>, rank: array<nat>, k: nat, rank2: array<nat>)
    requires sa.Length == rank.Length == rank2.Length && sa != rank && sa != rank2 && rank != rank2
    requires IsRank(sa[..], rank[..]) && 1 <= k < sa.Length <= SORT_LIMIT
    modifies sa, rank2
    ensures rank[..] == old(rank[..])
    ensures SortedBy(sa[..], rank[..], Shifted(rank[..], k))
    ensures NumberedTo(sa[..], rank[..], Shifted(rank[..], k), rank2[..], sa.Length)
  {
    var n, j := sa.Length, 0;
    ghost var x, y := rank[..], Shifted(rank[..], k);
    forall i | 0 <= i < n { rank2[i] := rank[i]; }
    assert rank2[..] == x;
    Begun(sa[..], x, y);
    while j < n
      invariant j <= n && rank[..] == x && UpTo(sa[..], x, y, rank2[..], j)
    {
      j := SortNext(sa, rank, k, rank2, j);
    }
    assert Look(Spot, 0);
  }

  /** `LocalTo` at the edge of a group, out of sight until `Look(Spot, 0)`. */
  ghost predicate UpTo(sa: seq<nat>, x: seq<nat>, y: seq<nat>, rank2: seq<nat>, j: nat) {
    forall z {:trigger Look(Spot, z)} :: Look(Spot, z) ==>
      LocalTo(sa, x, y, rank2, j) && (j < |sa| ==> x[sa[j]] == j)
  }

  lemma Begun(sa: seq<nat>, x: seq<nat>, y: seq<nat>)
    requires IsRank(sa, x) && |y| == |x|
    ensures UpTo(sa, x, y, x, 0)
  {
  }

  method SortNext(sa: array<nat>, rank: array<nat>, k: nat, rank2: array<nat>, j: nat) returns (e: nat)
    requires sa.Length == rank.Length == rank2.Length && sa != rank && sa != rank2 && rank != rank2
    requires k < sa.Length <= SORT_LIMIT && j < sa.Length && UpTo(sa[..], rank[..], Shifted(rank[..], k), rank2[..], j)
    modifies sa, rank2
    ensures j < e <= sa.Length && rank[..] == old(rank[..])
    ensures UpTo(sa[..], rank[..], Shifted(rank[..], k), rank2[..], e)
  {
    assert Look(Spot, 0);
    assert sa[j] == sa[..][j];
    e := GroupEnd(sa, rank, j);
    if e - j == 1 {
      AloneStays(sa[..], rank[..], Shifted(rank[..], k), rank2[..], j);
    } else {
      SortGroup(sa, rank, k, rank2, j, e);
    }
  }

  // ---------------------------------------------------------------- the transform

  /** How many rotations still share their rank. */
  method CountShared(sa: array<nat>, rank: array<nat>) returns (work: nat)
    requires sa.Length == rank.Length && IsRank(sa[..], rank[..])
    ensures work == 0 ==> forall p :: 0 <= p < sa.Length ==> rank[sa[..][p]] == p
  {
    ghost var order, x := sa[..], rank[..];
    var j := 0;
    work := 0;
    while j < sa.Length
      invariant j <= sa.Length && (j < sa.Length ==> x[order[j]] == j)
      invariant work == 0 ==> forall p :: 0 <= p < j ==> x[order[p]] == p
    {
      var e := GroupEnd(sa, rank, j);
      if e - j > 1 { work := work + (e - j); }
      j := e;
    }
  }

  ghost function Zeros(n: nat): (z: seq<nat>)
    ensures |z| == n && forall i :: 0 <= i < n ==> z[i] == 0
  {
    seq(n, _ => 0)
  }

  lemma FirstRound(s: seq<Byte>, sa: seq<nat>, rank: seq<nat>)
    requires |s| == |sa| == |rank| && SortedBy(sa, s, Zeros(|s|)) && NumberedTo(sa, s, Zeros(|s|), rank, |s|)
    ensures Ranked(s, sa, rank, 1)
  {
    NumberingIsRank(sa, s, Zeros(|s|), rank);
    forall i, j | 0 <= i < |s| && 0 <= j < |s| ensures rank[i] <= rank[j] <==> Le(s, i, j, 1) {
      RanksOrderAsKeys(sa, s, Zeros(|s|), rank, i, j);
      assert Le(s, Nx(|s|, i), Nx(|s|, j), 0);
    }
  }

  /** Round 0: the rotations by their first byte. */
  method SortByByte(data: array<Byte>) returns (sa: array<nat>, rank: array<nat>)
    requires data.Length > 0
    ensures sa.Length == rank.Length == data.Length && sa != rank && fresh(sa) && fresh(rank)
    ensures Ranked(data[..], sa[..], rank[..], 1)
  {
    ghost var s, z := data[..], Zeros(data.Length);
    var c := CountBytes(data[..]);
    ghost var table;
    sa, table := BuildTable(data[..], c, false);
    assert sa[..] == table;
    rank := new nat[data.Length](_ => 0);
    var cur := 0;
    rank[sa[0]] := 0;
    for j := 1 to data.Length
      invariant data[..] == s && sa[..] == table && NumberedTo(table, s, z, rank[..], j) && cur == rank[sa[j - 1]]
    {
      if data[sa[j]] != data[sa[j - 1]] { cur := j; }
      ghost var before := rank[..];
      NumberOne(table, s, z, before, j, cur);
      rank[sa[j]] := cur;
      assert rank[..] == before[table[j] := cur];
    }
    FirstRound(s, table, rank[..]);
  }

  /** The rounds, until every rotation is alone or the whole block has been compared. */
  method SortRotations(data: array<Byte>) returns (sa: array<nat>)
    requires 0 < data.Length <= SORT_LIMIT
    ensures sa.Length == data.Length && SortedRotations(data[..], sa[..])
  {
    var n, k: nat := data.Length, 1;
    ghost var s := data[..];
    var rank;
    sa, rank := SortByByte(data);
    var rank2 := new nat[n](_ => 0);
    while k < n
      invariant data[..] == s && k >= 1 && sa.Length == rank.Length == rank2.Length == n
      invariant sa != rank && sa != rank2 && rank != rank2 && fresh(sa) && fresh(rank) && fresh(rank2)
      invariant Ranked(s, sa[..], rank[..], k)
    {
      var work := CountShared(sa, rank);
      if work == 0 { break; }
      ghost var sa0, x := sa[..], rank[..];
      if Wrap32(work * 2) >= n {
        SortAll(sa, rank, k);
        Number(sa, rank, k, rank2, 0, n);
      } else {
        SortGroups(sa, rank, k, rank2);
      }
      RoundDoubles(s, sa0, x, k, sa[..], rank2[..]);
      rank, rank2 := rank2, rank;
      k := 2 * k;
    }
    AloneIsSorted(s, sa[..], rank[..], k);
  }

  /** The byte before each rotation, in order, and the row of the block itself. */
  method Transform(data: array<Byte>) returns (out: array<Byte>, primary: nat, ghost sa: seq<nat>)
    requires data.Length <= SORT_LIMIT
    ensures SortedRotations(data[..], sa) && out[..] == LastColumn(data[..], sa)
    ensures if data.Length == 0 then primary == 0 else primary < data.Length && sa[primary] == 0
    ensures fresh(out)
  {
    var n := data.Length;
    out, primary := new Byte[n](_ => 0), 0;
    if n == 0 { sa := []; return; }
    if n == 1 { out[0] := data[0]; sa := [0]; return; }
    var order := SortRotations(data);
    sa := order[..];
    ghost var row := Onto(sa, 0);
    primary := Column(data, order, out, row);
  }

  method Column(data: array<Byte>, sa: array<nat>, out: array<Byte>, ghost row: nat) returns (primary: nat)
    requires sa.Length == data.Length == out.Length && out != data && IsPerm(sa[..]) && row < sa.Length <= SORT_LIMIT && sa[row] == 0
    modifies out
    ensures out[..] == LastColumn(data[..], sa[..]) && primary == row
  {
    var n := data.Length;
    ghost var order, s := sa[..], data[..];
    primary := 0;
    for j := 0 to n
      invariant sa[..] == order && data[..] == s && (j > row ==> primary == row)
      invariant forall p :: 0 <= p < j ==> out[p] == s[Pv(n, order[p])]
    {
      var i := sa[j];
      assert i == order[j];
      if i == 0 { primary := j; }
      PvIsMod(n, i);
      out[j] := data[OneBefore(n, i)];
    }
  }

  /** The position before `i`, as the program computes it in 32 bits. */
  function OneBefore(n: nat, i: nat): (r: nat)
    requires n > 0
    ensures r < n
  {
    Wrap32(i + n - 1) % n
  }

  lemma PvIsMod(n: nat, i: nat)
    requires i < n <= SORT_LIMIT
    ensures OneBefore(n, i) == Pv(n, i)
  {
    var sum: nat := i + n - 1;
    WrapsOnce(sum);
    if i == 0 { DivUnique(sum, 0, n, n - 1); } else { DivUnique(sum, 1, n, i - 1); }
  }

  lemma WrapsOnce(x: nat)
    requires x < 2 * TWO32
    ensures Wrap32(x) == if x < TWO32 then x else x - TWO32
  {
    DivUnique(x, if x < TWO32 then 0 else 1, TWO32, if x < TWO32 then x else x - TWO32);
  }

  /** It is the right one at every position exactly when the block is not longer than that. */
  lemma OneBeforeWraps(n: U32)
    requires n > 0
    ensures (forall i: nat | i < n :: OneBefore(n, i) == Pv(n, i)) <==> n <= SORT_LIMIT
  {
    if n <= SORT_LIMIT {
      forall i: nat | i < n ensures OneBefore(n, i) == Pv(n, i) { PvIsMod(n, i); }
    } else {
      var sum: nat := 2 * n - 2;
      WrapsOnce(sum);
      DivUnique(sum - TWO32, 0, n, sum - TWO32);
      assert OneBefore(n, n - 1) == sum - TWO32 != Pv(n, n - 1);
    }
  }

  /** The forward transform, undone by the inverse one, periodic blocks included. */
  method TransformRoundTrip(data: array<Byte>) returns (out: array<Byte>, ok: bool)
    requires data.Length <= SORT_LIMIT
    ensures ok && out[..] == data[..]
  {
    var primary;
    ghost var sa;
    out, primary, sa := Transform(data);
    ok := UntransformSorted(out, primary, data[..], sa);
  }
}
