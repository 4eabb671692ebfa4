/** The cyclic rotations of a block and their order, compared byte by byte. */
module Rotations {
  import opened Words

  function Nx(n: nat, i: nat): (r: nat)
    requires i < n
    ensures r < n
  {
    if i + 1 == n then 0 else i + 1
  }

  /** The rotation that starts one byte earlier. */
  function Pv(n: nat, i: nat): (r: nat)
    requires i < n
    ensures r < n && Nx(n, r) == i
  {
    if i == 0 then n - 1 else i - 1
  }

  /** `k` bytes on from `i`. */
  function Adv(n: nat, i: nat, k: nat): (r: nat)
    requires i < n
    ensures r < n
    ensures k <= n ==> r == if i + k < n then i + k else i + k - n
    decreases k
  {
    if k == 0 then i else Adv(n, Nx(n, i), k - 1)
  }

  /** The rotations at `i` and `j` agree on their first `k` bytes. */
  ghost predicate Eq(s: seq<Byte>, i: nat, j: nat, k: nat)
    requires i < |s| && j < |s|
    decreases k
  {
    k == 0 || (s[i] == s[j] && Eq(s, Nx(|s|, i), Nx(|s|, j), k - 1))
  }

  /** The first `k` bytes of the rotation at `i` are not above those of the one at `j`. */
  ghost predicate Le(s: seq<Byte>, i: nat, j: nat, k: nat)
    requires i < |s| && j < |s|
    decreases k
  {
    k == 0 || s[i] < s[j] || (s[i] == s[j] && Le(s, Nx(|s|, i), Nx(|s|, j), k - 1))
  }

  lemma {:induction false} LeTotal(s: seq<Byte>, i: nat, j: nat, k: nat)
    requires i < |s| && j < |s|
    ensures Le(s, i, j, k) || Le(s, j, i, k)
    ensures Le(s, i, j, k) && Le(s, j, i, k) <==> Eq(s, i, j, k)
    decreases k
  {
    if k != 0 {
      LeTotal(s, Nx(|s|, i), Nx(|s|, j), k - 1);
    }
  }

  lemma {:induction false} LeTransitive(s: seq<Byte>, a: nat, b: nat, c: nat, k: nat)
    requires a < |s| && b < |s| && c < |s| && Le(s, a, b, k) && Le(s, b, c, k)
    ensures Le(s, a, c, k)
    decreases k
  {
    if k != 0 && s[a] == s[b] == s[c] {
      LeTransitive(s, Nx(|s|, a), Nx(|s|, b), Nx(|s|, c), k - 1);
    }
  }

  lemma {:induction false} EqEquivalence(s: seq<Byte>, a: nat, b: nat, c: nat, k: nat)
    requires a < |s| && b < |s| && c < |s| && Eq(s, a, b, k)
    ensures Eq(s, b, a, k)
    ensures Eq(s, b, c, k) ==> Eq(s, a, c, k)
    decreases k
  {
    if k != 0 {
      EqEquivalence(s, Nx(|s|, a), Nx(|s|, b), Nx(|s|, c), k - 1);
    }
  }

  /** The order by `a + b` bytes is the order by `a`, ties by the `b` that follow. */
  lemma {:induction false} LeSplits(s: seq<Byte>, i: nat, j: nat, a: nat, b: nat)
    requires i < |s| && j < |s|
    ensures Le(s, i, j, a + b) <==> Le(s, i, j, a) && (Eq(s, i, j, a) ==> Le(s, Adv(|s|, i, a), Adv(|s|, j, a), b))
    ensures Eq(s, i, j, a + b) <==> Eq(s, i, j, a) && Eq(s, Adv(|s|, i, a), Adv(|s|, j, a), b)
    decreases a
  {
    if a != 0 {
      LeSplits(s, Nx(|s|, i), Nx(|s|, j), a - 1, b);
    }
  }

  lemma {:induction false} EqSnoc(s: seq<Byte>, i: nat, j: nat, k: nat)
    requires i < |s| && j < |s| && Eq(s, i, j, k) && s[Adv(|s|, i, k)] == s[Adv(|s|, j, k)]
    ensures Eq(s, i, j, k + 1)
    decreases k
  {
    if k != 0 {
      EqSnoc(s, Nx(|s|, i), Nx(|s|, j), k - 1);
    }
  }

  /** Whole rotations that agree still agree one byte further on. */
  lemma EqShift(s: seq<Byte>, a: nat, b: nat)
    requires a < |s| && b < |s| && Eq(s, a, b, |s|)
    ensures Eq(s, Nx(|s|, a), Nx(|s|, b), |s|)
  {
    var n, m, x, y := |s|, |s| - 1, Nx(|s|, a), Nx(|s|, b);
    assert Eq(s, x, y, m) && s[a] == s[b];
    assert Adv(n, x, m) == a && Adv(n, y, m) == b;
    EqSnoc(s, x, y, m);
  }

  /** Comparing more than the whole rotation changes nothing. */
  lemma {:induction false} LeBeyond(s: seq<Byte>, i: nat, j: nat, k: nat)
    requires i < |s| && j < |s| && k >= |s|
    ensures Le(s, i, j, k) <==> Le(s, i, j, |s|)
    ensures Eq(s, i, j, k) <==> Eq(s, i, j, |s|)
    decreases k
  {
    if k > |s| {
      LeBeyond(s, i, j, k - 1);
      LeSplits(s, i, j, |s|, k - |s|);
      if Eq(s, i, j, |s|) {
        assert Adv(|s|, i, |s|) == i && Adv(|s|, j, |s|) == j;
        EqFar(s, i, j, k - |s|);
        LeTotal(s, i, j, k - |s|);
      }
    }
  }

  lemma {:induction false} EqFar(s: seq<Byte>, i: nat, j: nat, k: nat)
    requires i < |s| && j < |s| && Eq(s, i, j, |s|)
    ensures Eq(s, i, j, k)
    decreases k
  {
    if k != 0 {
      EqShift(s, i, j);
      EqFar(s, Nx(|s|, i), Nx(|s|, j), k - 1);
      assert s[i] == s[j];
    }
  }
}

/**
 The inverse transform of src/nz_bwt.cpp as a statement: following the counting-sort table from
 rotation 0's row gives the block back, whatever the order among equal rotations.
 */
module BwtWalk {
  import opened Words
  import opened Permutations
  import opened Rotations
  import opened StableSort

  /** An order of the rotations; equal ones may stand in any order. */
  ghost predicate SortedRotations(s: seq<Byte>, sa: seq<nat>) {
    && |sa| == |s| && IsPerm(sa)
    && forall a, b :: 0 <= a < b < |s| ==> Le(s, sa[a], sa[b], |s|)
  }

  /** The transform: the byte before each rotation. */
  ghost function LastColumn(s: seq<Byte>, sa: seq<nat>): (l: seq<Byte>)
    requires |sa| == |s| && InRange(sa)
    ensures |l| == |s|
  {
    seq(|s|, j requires 0 <= j < |s| => s[Pv(|s|, sa[j])])
  }

  function Walk(table: seq<nat>, pos: nat, k: nat): (r: nat)
    requires InRange(table) && pos < |table|
    ensures r < |table|
    decreases k
  {
    if k == 0 then pos else Walk(table, table[pos], k - 1)
  }

  /** The bytes met on the way. */
  function WalkBytes(l: seq<Byte>, table: seq<nat>, pos: nat, k: nat): (r: seq<Byte>)
    requires |l| == |table| && InRange(table) && pos < |table|
    ensures |r| == k
    decreases k
  {
    if k == 0 then [] else [l[table[pos]]] + WalkBytes(l, table, table[pos], k - 1)
  }

  /** What the walk stands on: a block, an order of its rotations, and the table of the last column. */
  ghost predicate Setting(s: seq<Byte>, sa: seq<nat>, table: seq<nat>) {
    SortedRotations(s, sa) && IsStable(LastColumn(s, sa), table)
  }

  /** The rotation one byte before the one in row `table[k]`. */
  ghost function Before(s: seq<Byte>, sa: seq<nat>, table: seq<nat>): (q: seq<nat>)
    requires Setting(s, sa, table)
    ensures |q| == |s| && forall k :: 0 <= k < |s| ==> q[k] == Pv(|s|, sa[table[k]])
  {
    seq(|s|, k requires 0 <= k < |s| => Pv(|s|, sa[table[k]]))
  }

  lemma BeforeIsPerm(s: seq<Byte>, sa: seq<nat>, table: seq<nat>)
    requires Setting(s, sa, table)
    ensures IsPerm(Before(s, sa, table))
  {
    var q := Before(s, sa, table);
    forall i, j | 0 <= i < j < |q| ensures q[i] != q[j] {
      assert sa[table[i]] != sa[table[j]];
      assert Nx(|s|, q[i]) == sa[table[i]] && Nx(|s|, q[j]) == sa[table[j]];
    }
  }

  lemma PutInFront(s: seq<Byte>, x: nat, y: nat, k: nat)
    requires x < |s| && y < |s| && Le(s, Nx(|s|, x), Nx(|s|, y), k + 1) && s[x] == s[y]
    ensures Le(s, x, y, k + 1)
  {
    LeSplits(s, Nx(|s|, x), Nx(|s|, y), k, 1);
  }

  lemma RowPair(s: seq<Byte>, sa: seq<nat>, table: seq<nat>, a: nat, b: nat)
    requires Setting(s, sa, table) && a < b < |s|
    ensures var x, y := Pv(|s|, sa[table[a]]), Pv(|s|, sa[table[b]]);
      s[x] < s[y] || (s[x] == s[y] && Le(s, sa[table[a]], sa[table[b]], |s|))
  {
    var l := LastColumn(s, sa);
    assert l[table[a]] < l[table[b]] || (l[table[a]] == l[table[b]] && table[a] < table[b]);
  }

  lemma FrontLe(s: seq<Byte>, x: nat, y: nat)
    requires x < |s| && y < |s|
    requires s[x] < s[y] || (s[x] == s[y] && Le(s, Nx(|s|, x), Nx(|s|, y), |s|))
    ensures Le(s, x, y, |s|)
  {
    if s[x] == s[y] {
      PutInFront(s, x, y, |s| - 1);
    }
  }

  /** A byte put in front of sorted rotations, and a stable sort by it: sorted again. */
  lemma BeforeSorted(s: seq<Byte>, sa: seq<nat>, table: seq<nat>, a: nat, b: nat)
    requires Setting(s, sa, table) && a <= b < |s|
    ensures Le(s, Pv(|s|, sa[table[a]]), Pv(|s|, sa[table[b]]), |s|)
  {
    if a < b {
      RowPair(s, sa, table, a, b);
      FrontLe(s, Pv(|s|, sa[table[a]]), Pv(|s|, sa[table[b]]));
    } else {
      LeTotal(s, Pv(|s|, sa[table[a]]), Pv(|s|, sa[table[a]]), |s|);
    }
  }

  lemma RowsSorted(s: seq<Byte>, sa: seq<nat>, a: nat, b: nat)
    requires SortedRotations(s, sa) && a <= b < |s|
    ensures Le(s, sa[a], sa[b], |s|)
  {
    LeTotal(s, sa[a], sa[a], |s|);
  }

  /**
   Both the rows and the rotations before them are all rotations in sorted order, so they are
   equal row by row: row k's rotation begins with the byte of row table[k].
   */
  lemma RowsAgree(s: seq<Byte>, sa: seq<nat>, table: seq<nat>, k: nat)
    requires Setting(s, sa, table) && k < |s|
    ensures Eq(s, sa[k], Before(s, sa, table)[k], |s|)
  {
    var q, n := Before(s, sa, table), |s|;
    BeforeIsPerm(s, sa, table);
    var i, j := Overlap(sa, q, k);
    BeforeSorted(s, sa, table, k, j);
    RowsSorted(s, sa, i, k);
    LeTransitive(s, q[k], sa[i], sa[k], n);
    i, j := Overlap(q, sa, k);
    BeforeSorted(s, sa, table, i, k);
    RowsSorted(s, sa, k, j);
    LeTransitive(s, sa[k], q[i], q[k], n);
    LeTotal(s, sa[k], q[k], n);
  }

  /** One step of the walk: the byte met is the row's first, and the next row is one byte on. */
  lemma OneStep(s: seq<Byte>, sa: seq<nat>, table: seq<nat>, k: nat, x: nat)
    requires Setting(s, sa, table) && k < |s| && x < |s| && Eq(s, sa[k], x, |s|)
    ensures LastColumn(s, sa)[table[k]] == s[x]
    ensures Eq(s, sa[table[k]], Nx(|s|, x), |s|)
  {
    var q, n := Before(s, sa, table)[k], |s|;
    RowsAgree(s, sa, table, k);
    EqEquivalence(s, sa[k], q, q, n);
    EqEquivalence(s, q, sa[k], x, n);
    EqShift(s, q, x);
    assert Nx(n, q) == sa[table[k]];
  }

  /** `k` bytes of the block from `x`, cyclically. */
  function Cycle(s: seq<Byte>, x: nat, k: nat): seq<Byte>
    requires x < |s|
    decreases k
  {
    if k == 0 then [] else [s[x]] + Cycle(s, Nx(|s|, x), k - 1)
  }

  lemma {:induction false} CycleIsSlice(s: seq<Byte>, x: nat, k: nat)
    requires x < |s| && x + k <= |s|
    ensures Cycle(s, x, k) == s[x..x + k]
    decreases k
  {
    if k > 1 {
      CycleIsSlice(s, x + 1, k - 1);
    }
  }

  /** The walk from a row that shows rotation `x` reads the block from `x` on. */
  lemma {:induction false} WalkReads(s: seq<Byte>, sa: seq<nat>, table: seq<nat>, p: nat, x: nat, k: nat)
    requires Setting(s, sa, table) && p < |s| && x < |s| && Eq(s, sa[p], x, |s|)
    ensures WalkBytes(LastColumn(s, sa), table, p, k) == Cycle(s, x, k)
    ensures Eq(s, sa[Walk(table, p, k)], Adv(|s|, x, k), |s|)
    decreases k
  {
    if k != 0 {
      OneStep(s, sa, table, p, x);
      WalkReads(s, sa, table, table[p], Nx(|s|, x), k - 1);
    }
  }

  /** Among rows of one rotation the walk keeps the order of the rows. */
  lemma {:induction false} WalkKeepsOrder(s: seq<Byte>, sa: seq<nat>, table: seq<nat>, p: nat, r: nat, k: nat)
    requires Setting(s, sa, table) && p < r < |s| && Eq(s, sa[p], sa[r], |s|)
    ensures Walk(table, p, k) < Walk(table, r, k)
    decreases k
  {
    if k != 0 {
      EqEquivalence(s, sa[r], sa[r], sa[r], 0);
      LeTotal(s, sa[r], sa[r], |s|);
      OneStep(s, sa, table, p, sa[r]);
      OneStep(s, sa, table, r, sa[r]);
      EqEquivalence(s, sa[table[r]], Nx(|s|, sa[r]), Nx(|s|, sa[r]), |s|);
      EqEquivalence(s, sa[table[p]], Nx(|s|, sa[r]), sa[table[r]], |s|);
      WalkKeepsOrder(s, sa, table, table[p], table[r], k - 1);
    }
  }

  lemma AfterWholeWalk(s: seq<Byte>, sa: seq<nat>, table: seq<nat>, p: nat)
    requires Setting(s, sa, table) && p < |s|
    ensures Eq(s, sa[Walk(table, p, |s|)], sa[p], |s|)
  {
    LeTotal(s, sa[p], sa[p], |s|);
    WalkReads(s, sa, table, p, sa[p], |s|);
  }

  /** Rows of one rotation stand together. */
  lemma Together(s: seq<Byte>, sa: seq<nat>, a: nat, b: nat, c: nat)
    requires SortedRotations(s, sa) && a <= b <= c < |s| && Eq(s, sa[a], sa[c], |s|)
    ensures Eq(s, sa[a], sa[b], |s|) && Eq(s, sa[b], sa[c], |s|)
  {
    RowsSorted(s, sa, a, b);
    RowsSorted(s, sa, b, c);
    LeTotal(s, sa[a], sa[c], |s|);
    LeTransitive(s, sa[b], sa[c], sa[a], |s|);
    LeTransitive(s, sa[c], sa[a], sa[b], |s|);
    LeTotal(s, sa[a], sa[b], |s|);
    LeTotal(s, sa[b], sa[c], |s|);
  }

  lemma {:induction false} NotBelow(s: seq<Byte>, sa: seq<nat>, table: seq<nat>, p: nat)
    requires Setting(s, sa, table) && p < |s|
    ensures Walk(table, p, |s|) >= p
    decreases p
  {
    AfterWholeWalk(s, sa, table, p);
    var w := Walk(table, p, |s|);
    if w < p {
      Together(s, sa, w, p - 1, p);
      NotBelow(s, sa, table, p - 1);
      WalkKeepsOrder(s, sa, table, p - 1, p, |s|);
    }
  }

  lemma {:induction false} NotAbove(s: seq<Byte>, sa: seq<nat>, table: seq<nat>, p: nat)
    requires Setting(s, sa, table) && p < |s|
    ensures Walk(table, p, |s|) <= p
    decreases |s| - p
  {
    AfterWholeWalk(s, sa, table, p);
    var w := Walk(table, p, |s|);
    if p < w {
      EqEquivalence(s, sa[w], sa[p], sa[p], |s|);
      Together(s, sa, p, p + 1, w);
      NotAbove(s, sa, table, p + 1);
      WalkKeepsOrder(s, sa, table, p, p + 1, |s|);
    }
  }

  /**
   The inverse: from rotation 0's row, n steps read the block and end in the row they began in,
   for a periodic block too, where the table has several cycles.
   */
  lemma WalkInverts(s: seq<Byte>, sa: seq<nat>, table: seq<nat>, p: nat)
    requires Setting(s, sa, table) && p < |s| && sa[p] == 0
    ensures WalkBytes(LastColumn(s, sa), table, p, |s|) == s
    ensures Walk(table, p, |s|) == p
  {
    LeTotal(s, 0, 0, |s|);
    WalkReads(s, sa, table, p, 0, |s|);
    CycleIsSlice(s, 0, |s|);
    NotBelow(s, sa, table, p);
    NotAbove(s, sa, table, p);
  }
}
