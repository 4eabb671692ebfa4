/**
 The transform's other route, taken for longer blocks whose rotations all differ: the suffixes of
 the block written twice and a sentinel, in order, give the order of the rotations
 (NzBwtTransform). The sorting of the suffixes itself is not part of this model.
 */
module SuffixRoute {
  import opened Words
  import opened Permutations
  import opened Rotations
  import opened BwtWalk
  import opened Periods
  import opened RotationSort

  // ---------------------------------------------------------------- suffixes

  /** `t` from `i` and from `j` on agree for `k` entries. */
  ghost predicate Agree(t: seq<nat>, i: nat, j: nat, k: nat) {
    i + k <= |t| && j + k <= |t| && forall a | i <= a < i + k :: t[a] == t[a - i + j]
  }

  /** Behind `k` equal entries the suffix at `i` is over, or the smaller. */
  ghost predicate BelowAt(t: seq<nat>, i: nat, j: nat, k: nat) {
    Agree(t, i, j, k) && j + k < |t| && (i + k == |t| || t[i + k] < t[j + k])
  }

  ghost predicate SuffixBelow(t: seq<nat>, i: nat, j: nat) {
    exists k: nat :: BelowAt(t, i, j, k)
  }

  /** The suffixes of `t` in order. */
  ghost predicate IsSuffixArray(t: seq<nat>, sa: seq<nat>) {
    |sa| == |t| && IsPerm(sa) && forall a, b :: 0 <= a < b < |sa| ==> SuffixBelow(t, sa[a], sa[b])
  }

  // ---------------------------------------------------------------- the block written twice

  /** The bytes have numbers from 1 on that are in the same order. */
  ghost predicate Renumbers(s: seq<Byte>, code: seq<nat>) {
    && |code| == 256
    && forall a, b | a in s && b in s :: 1 <= code[a] && (a < b ==> code[a] < code[b])
  }

  /** The block's numbers twice, and a sentinel below them. */
  ghost predicate IsTwice(s: seq<Byte>, code: seq<nat>, t: seq<nat>) {
    && |t| == 2 * |s| + 1 && |code| == 256 && t[2 * |s|] == 0
    && forall i | 0 <= i < |s| :: t[i] == t[|s| + i] == code[s[i]]
  }

  /** Which byte values occur. */
  method MarkUsed(data: array<Byte>) returns (used: seq<bool>)
    ensures |used| == 256 && forall c: Byte :: used[c] <==> c in data[..]
  {
    used := seq(256, _ => false);
    for i := 0 to data.Length
      invariant |used| == 256 && forall c: Byte :: used[c] <==> c in data[..i]
    {
      assert data[..i + 1] == data[..i] + [data[i]];
      used := used[data[i] := true];
    }
    assert data[..data.Length] == data[..];
  }

  /** The values below `c` that occur are numbered, from 1 on. */
  ghost predicate Numbered(used: seq<bool>, c: nat, map8: seq<Byte>, distinct: nat) {
    && |used| == 256 && |map8| == c <= 256 && distinct <= c
    && (forall a | 0 <= a < c && used[a] && distinct < 256 :: 1 <= map8[a] <= distinct)
    && (forall a, b | 0 <= a < b < c && used[a] && used[b] && distinct < 256 :: map8[a] < map8[b])
  }

  /**
   The numbers of the bytes that occur, kept in a byte each. With fewer than 256 of them no number
   that is used wraps; with all 256 the byte plus one is used instead.
   */
  method Renumber(data: array<Byte>) returns (code: seq<nat>, sigma: nat)
    ensures Renumbers(data[..], code) && 1 <= sigma <= 257
    ensures forall c | c in data[..] :: code[c] < sigma
  {
    var used := MarkUsed(data);
    var distinct: nat := 0;
    var map8: seq<Byte> := [];
    for c := 0 to 256
      invariant Numbered(used, c, map8, distinct)
    {
      map8 := map8 + [(distinct + 1) % 256];
      if used[c] { distinct := distinct + 1; }
    }
    if distinct < 256 {
      code := map8;
      sigma := distinct + 1;
    } else {
      code := seq(256, i requires 0 <= i < 256 => i + 1);
      sigma := 257;
    }
  }

  method WriteTwice(data: array<Byte>) returns (t: array<nat>, sigma: nat, ghost code: seq<nat>)
    ensures Renumbers(data[..], code) && IsTwice(data[..], code, t[..]) && fresh(t)
    ensures forall i | 0 <= i < t.Length :: t[i] < sigma
  {
    var numbers;
    numbers, sigma := Renumber(data);
    code := numbers;
    var n := data.Length;
    t := new nat[2 * n + 1](_ => 0);
    for i := 0 to n
      invariant forall h | 0 <= h < i :: t[h] == t[n + h] == code[data[h]]
      invariant t[2 * n] == 0
    {
      t[i], t[i + n] := numbers[data[i]], numbers[data[i]];
    }
    forall i | 0 <= i < t.Length ensures t[i] < sigma {
      if i < 2 * n { TwiceAt(data[..], code, t[..], i); }
    }
  }

  /** Every entry but the sentinel is the number of a byte of the block. */
  lemma TwiceAt(s: seq<Byte>, code: seq<nat>, t: seq<nat>, i: nat)
    requires IsTwice(s, code, t) && i < 2 * |s|
    ensures var h := if i < |s| then i else i - |s|; t[i] == code[s[h]] && s[h] in s
    ensures Renumbers(s, code) ==> t[i] >= 1
  {
    var h := if i < |s| then i else i - |s|;
    assert t[h] == t[|s| + h] == code[s[h]];
  }

  /** What stands `k` entries on is the number of the rotation's byte there. */
  lemma EntryAt(s: seq<Byte>, code: seq<nat>, t: seq<nat>, i: nat, k: nat)
    requires IsTwice(s, code, t) && i < |s| && k < |s|
    ensures t[i + k] == code[s[Adv(|s|, i, k)]] && s[Adv(|s|, i, k)] in s
  {
    TwiceAt(s, code, t, i + k);
  }

  lemma AgreeLess(t: seq<nat>, i: nat, j: nat, k: nat, h: nat)
    requires Agree(t, i, j, k) && h <= k
    ensures Agree(t, i, j, h) && (h < k ==> t[i + h] == t[j + h])
  {
  }

  lemma {:induction false} AgreeIsEq(s: seq<Byte>, code: seq<nat>, t: seq<nat>, i: nat, j: nat, k: nat)
    requires Renumbers(s, code) && IsTwice(s, code, t) && i < |s| && j < |s| && k <= |s|
    requires Agree(t, i, j, k)
    ensures Eq(s, i, j, k)
    decreases k
  {
    if k != 0 {
      AgreeLess(t, i, j, k, k - 1);
      AgreeIsEq(s, code, t, i, j, k - 1);
      EntryAt(s, code, t, i, k - 1);
      EntryAt(s, code, t, j, k - 1);
      EqSnoc(s, i, j, k - 1);
    }
  }

  /** Suffixes that begin in the first copy are in the order of the rotations. */
  lemma SuffixesAreRotations(s: seq<Byte>, code: seq<nat>, t: seq<nat>, i: nat, j: nat)
    requires Renumbers(s, code) && IsTwice(s, code, t) && i < |s| && j < |s| && SuffixBelow(t, i, j)
    ensures Le(s, i, j, |s|)
  {
    var n := |s|;
    var k: nat :| BelowAt(t, i, j, k);
    if k < n {
      AgreeIsEq(s, code, t, i, j, k);
      EntryAt(s, code, t, i, k);
      EntryAt(s, code, t, j, k);
      LeTotal(s, i, j, k);
      LeSplits(s, i, j, k, n - k);
    } else {
      AgreeLess(t, i, j, k, n);
      AgreeIsEq(s, code, t, i, j, n);
      LeTotal(s, i, j, n);
    }
  }

  /** The sentinel's own suffix comes first. */
  lemma SentinelIsFirst(s: seq<Byte>, code: seq<nat>, t: seq<nat>, sa: seq<nat>)
    requires Renumbers(s, code) && IsTwice(s, code, t) && IsSuffixArray(t, sa)
    ensures sa[0] == 2 * |s|
  {
    var n := |s|;
    var p := Onto(sa, 2 * n);
    if p != 0 {
      var i := sa[0];
      var k: nat :| BelowAt(t, i, 2 * n, k);
      TwiceAt(s, code, t, i);
      assert false;
    }
  }

  // ---------------------------------------------------------------- the rotations among them

  /** The positions of the first copy, in the order of `sa`. */
  ghost function FirstCopy(sa: seq<nat>, n: nat): (rows: seq<nat>)
    ensures forall x :: x in rows <==> x in sa && x < n
    ensures forall a | 0 <= a < |rows| :: rows[a] in sa && rows[a] < n
  {
    if sa == [] then []
    else FirstCopy(sa[..|sa| - 1], n) + if sa[|sa| - 1] < n then [sa[|sa| - 1]] else []
  }

  /** Whatever holds of any two in order still holds of those that are left. */
  lemma {:induction false} FirstCopyOrdered(s: seq<Byte>, code: seq<nat>, t: seq<nat>, sa: seq<nat>, m: nat)
    requires Renumbers(s, code) && IsTwice(s, code, t) && IsSuffixArray(t, sa) && m <= |sa|
    ensures var rows := FirstCopy(sa[..m], |s|);
      Distinct(rows) && forall a, b | 0 <= a < b < |rows| :: Le(s, rows[a], rows[b], |s|)
    decreases m
  {
    var n := |s|;
    if m != 0 {
      FirstCopyOrdered(s, code, t, sa, m - 1);
      assert sa[..m][..m - 1] == sa[..m - 1];
      var before, x := FirstCopy(sa[..m - 1], n), sa[m - 1];
      forall a | 0 <= a < |before| && x < n ensures before[a] != x && Le(s, before[a], x, n) {
        assert before[a] in sa[..m - 1];
        var p :| 0 <= p < m - 1 && sa[p] == before[a];
        SuffixesAreRotations(s, code, t, before[a], x);
      }
    }
  }

  /** The whole of it orders the rotations. */
  lemma FirstCopySorts(s: seq<Byte>, code: seq<nat>, t: seq<nat>, sa: seq<nat>)
    requires Renumbers(s, code) && IsTwice(s, code, t) && IsSuffixArray(t, sa)
    ensures SortedRotations(s, FirstCopy(sa, |s|))
  {
    var n, rows := |s|, FirstCopy(sa, |s|);
    FirstCopyOrdered(s, code, t, sa, |sa|);
    assert sa[..|sa|] == sa;
    forall x: nat | x < n ensures x in rows {
      var p := Onto(sa, x);
    }
    AllBelow(rows, n);
  }

  lemma AllBelow(rows: seq<nat>, n: nat)
    requires Distinct(rows) && (forall a | 0 <= a < |rows| :: rows[a] < n) && forall x: nat | x < n :: x in rows
    ensures |rows| == n
  {
    ValuesSize(rows);
    Fits(Values(rows), n);
    var all := seq(n, i requires 0 <= i < n => i);
    ValuesSize(all);
    forall x | x in Values(rows) ensures x in Values(all) { assert all[x] == x; }
    assert Values(rows) == Values(all);
  }

  lemma FirstCopyIsPart(sa: seq<nat>, n: nat, k: nat)
    requires k < |sa|
    ensures FirstCopy(sa[..k + 1], n) == FirstCopy(sa[..k], n) + if sa[k] < n then [sa[k]] else []
    ensures |FirstCopy(sa[..k + 1], n)| <= |FirstCopy(sa, n)|
    ensures FirstCopy(sa[..k + 1], n) <= FirstCopy(sa, n)
    decreases |sa| - k
  {
    assert sa[..k + 1][..k] == sa[..k];
    if k + 1 < |sa| { FirstCopyIsPart(sa, n, k + 1); } else { assert sa[..k + 1] == sa; }
  }

  /** The column and the row of the block, gathered from the sorted suffixes. */
  method Gather(data: array<Byte>, sa: seq<nat>, ghost code: seq<nat>, ghost t: seq<nat>)
    returns (out: array<Byte>, primary: nat)
    requires 0 < data.Length < 0x4000_0000
    requires Renumbers(data[..], code) && IsTwice(data[..], code, t) && IsSuffixArray(t, sa)
    ensures var rows := FirstCopy(sa, data.Length);
      SortedRotations(data[..], rows) && out[..] == LastColumn(data[..], rows)
      && primary < data.Length && rows[primary] == 0
    ensures fresh(out)
  {
    ghost var s, rows := data[..], FirstCopy(sa, data.Length);
    FirstCopySorts(s, code, t, sa);
    SentinelIsFirst(s, code, t, sa);
    ghost var row := Onto(rows, 0);
    out, primary := GatherRows(data, sa, rows, row);
  }

  method GatherRows(data: array<Byte>, sa: seq<nat>, ghost rows: seq<nat>, ghost row: nat)
    returns (out: array<Byte>, primary: nat)
    requires |sa| >= 1 && sa[0] >= data.Length && data.Length <= SORT_LIMIT
    requires rows == FirstCopy(sa, data.Length) && IsPerm(rows) && |rows| == data.Length && row < |rows| && rows[row] == 0
    ensures out[..] == LastColumn(data[..], rows) && primary == row && fresh(out)
  {
    var n, j: nat := data.Length, 0;
    ghost var s, column := data[..], LastColumn(data[..], rows);
    out, primary := new Byte[n](_ => 0), 0;
    GatheringBegins(sa, n);
    for k := 1 to |sa|
      invariant data[..] == s && Gathering(sa, n, k, j, rows)
      invariant out[..j] == column[..j]
      invariant j > row ==> primary == row
    {
      GatheringOn(sa, n, k, j, rows);
      var i := sa[k];
      if i < n {
        OnlyRow(rows, row, j);
        if i == 0 { primary := j; }
        PvIsMod(n, i);
        assert column[j] == s[Pv(n, i)];
        out[j] := data[OneBefore(n, i)];
        assert out[..j + 1] == column[..j + 1];
        j := j + 1;
      }
    }
    GatheringEnds(sa, n, j, rows);
    assert out[..j] == out[..] && column[..j] == column;
  }

  lemma OnlyRow(rows: seq<nat>, row: nat, j: nat)
    requires Distinct(rows) && row < |rows| && j < |rows| && rows[row] == 0
    ensures rows[j] == 0 <==> j == row
  {
    if j < row { assert rows[j] != rows[row]; }
  }

  /** `j` of the positions in the first copy are among the first `k` suffixes. */
  ghost predicate Gathering(sa: seq<nat>, n: nat, k: nat, j: nat, rows: seq<nat>) {
    k <= |sa| && j == |FirstCopy(sa[..k], n)| <= |rows| && FirstCopy(sa[..k], n) == rows[..j]
  }

  lemma GatheringBegins(sa: seq<nat>, n: nat)
    requires |sa| >= 1 && sa[0] >= n
    ensures Gathering(sa, n, 1, 0, FirstCopy(sa, n))
  {
    FirstCopyIsPart(sa, n, 0);
    assert sa[..0] == [];
  }

  lemma GatheringOn(sa: seq<nat>, n: nat, k: nat, j: nat, rows: seq<nat>)
    requires k < |sa| && rows == FirstCopy(sa, n) && Gathering(sa, n, k, j, rows) && Distinct(rows)
    ensures if sa[k] < n then j < |rows| && rows[j] == sa[k] && Gathering(sa, n, k + 1, j + 1, rows)
      else Gathering(sa, n, k + 1, j, rows)
  {
    FirstCopyIsPart(sa, n, k);
  }

  lemma GatheringEnds(sa: seq<nat>, n: nat, j: nat, rows: seq<nat>)
    requires rows == FirstCopy(sa, n) && Gathering(sa, n, |sa|, j, rows)
    ensures j == |rows|
  {
    assert sa[..|sa|] == sa;
  }

  // ---------------------------------------------------------------- the routes agree

  /** Any two orders of the rotations give the same column: only equal rotations can change places. */
  lemma ColumnIsUnique(s: seq<Byte>, sa: seq<nat>, other: seq<nat>)
    requires SortedRotations(s, sa) && SortedRotations(s, other)
    ensures forall k | 0 <= k < |s| :: Eq(s, sa[k], other[k], |s|)
    ensures LastColumn(s, sa) == LastColumn(s, other)
  {
    var n, l, m := |s|, LastColumn(s, sa), LastColumn(s, other);
    forall k | 0 <= k < n ensures Eq(s, sa[k], other[k], n) && l[k] == m[k] {
      SameRow(s, sa, other, k);
      EqBefore(s, sa[k], other[k]);
    }
  }

  lemma SameRow(s: seq<Byte>, sa: seq<nat>, other: seq<nat>, k: nat)
    requires SortedRotations(s, sa) && SortedRotations(s, other) && k < |s|
    ensures Eq(s, sa[k], other[k], |s|)
  {
    var i, j := Overlap(sa, other, k);
    RowsSorted(s, sa, i, k);
    RowsSorted(s, other, k, j);
    LeTransitive(s, other[k], sa[i], sa[k], |s|);
    i, j := Overlap(other, sa, k);
    RowsSorted(s, other, i, k);
    RowsSorted(s, sa, k, j);
    LeTransitive(s, sa[k], other[i], other[k], |s|);
    LeTotal(s, sa[k], other[k], |s|);
  }

  /** Equal rotations have the same byte before them. */
  lemma EqBefore(s: seq<Byte>, a: nat, b: nat)
    requires a < |s| && b < |s| && Eq(s, a, b, |s|)
    ensures s[Pv(|s|, a)] == s[Pv(|s|, b)]
  {
    var n := |s|;
    LeSplits(s, a, b, n - 1, 1);
    assert Adv(n, a, n - 1) == Pv(n, a) && Adv(n, b, n - 1) == Pv(n, b);
  }

  ghost predicate RotationsDiffer(s: seq<Byte>) {
    forall i: nat, j: nat :: i < j < |s| ==> !Eq(s, i, j, |s|)
  }

  /** There is one order only exactly when no two rotations are equal. */
  lemma OrderIsUnique(s: seq<Byte>, sa: seq<nat>)
    requires SortedRotations(s, sa)
    ensures (forall other :: SortedRotations(s, other) ==> other == sa) <==> RotationsDiffer(s)
  {
    if RotationsDiffer(s) {
      forall other | SortedRotations(s, other) ensures other == sa {
        ColumnIsUnique(s, sa, other);
        forall k | 0 <= k < |s| ensures other[k] == sa[k] {
          EqEquivalence(s, sa[k], other[k], sa[k], |s|);
        }
      }
    } else {
      var i: nat, j: nat :| i < j < |s| && Eq(s, i, j, |s|);
      var other := SecondOrder(s, sa, i, j);
      assert SortedRotations(s, other) && other != sa;
    }
  }

  lemma SecondOrder(s: seq<Byte>, sa: seq<nat>, i: nat, j: nat) returns (other: seq<nat>)
    requires SortedRotations(s, sa) && i < j < |s| && Eq(s, i, j, |s|)
    ensures SortedRotations(s, other) && other != sa
  {
    var p := Onto(sa, i);
    var q := Onto(sa, j);
    Swapped(s, sa, p, q);
    other := sa[p := sa[q]][q := sa[p]];
    assert other[p] != sa[p];
  }

  /** Two equal rotations may change places. */
  lemma Swapped(s: seq<Byte>, sa: seq<nat>, p: nat, q: nat)
    requires SortedRotations(s, sa) && p < |s| && q < |s| && p != q && Eq(s, sa[p], sa[q], |s|)
    ensures SortedRotations(s, sa[p := sa[q]][q := sa[p]])
  {
    var other := sa[p := sa[q]][q := sa[p]];
    LeTotal(s, sa[p], sa[q], |s|);
    forall a, b | 0 <= a < b < |s| ensures Le(s, other[a], other[b], |s|) {
      InPlaceOfEqual(s, sa[p], sa[q], sa[a], other[a]);
      InPlaceOfEqual(s, sa[p], sa[q], sa[b], other[b]);
      LeTransitive(s, other[a], sa[a], sa[b], |s|);
      LeTransitive(s, other[a], sa[b], other[b], |s|);
    }
  }

  lemma InPlaceOfEqual(s: seq<Byte>, x: nat, y: nat, a: nat, b: nat)
    requires x < |s| && y < |s| && a < |s| && b < |s| && Eq(s, x, y, |s|)
    requires a == b || (a == x && b == y) || (a == y && b == x)
    ensures Le(s, a, b, |s|) && Le(s, b, a, |s|)
  {
    LeTotal(s, a, b, |s|);
    LeTotal(s, x, y, |s|);
  }

  /** The last entry, and no other, is 0. */
  ghost predicate HasSentinel(t: seq<nat>) {
    t != [] && forall i | 0 <= i < |t| :: t[i] == 0 <==> i == |t| - 1
  }

  /** What the transform asks of the suffix sort. */
  ghost predicate SortsSuffixes(sort: seq<nat> -> seq<nat>) {
    forall t | HasSentinel(t) :: IsSuffixArray(t, sort(t))
  }

  lemma TwiceHasSentinel(s: seq<Byte>, code: seq<nat>, t: seq<nat>)
    requires Renumbers(s, code) && IsTwice(s, code, t)
    ensures HasSentinel(t)
  {
    forall i | 0 <= i < |t| - 1 ensures t[i] != 0 {
      TwiceAt(s, code, t, i);
    }
  }

  /** The transform with both its routes: for every sort of the suffixes, an order of the rotations. */
  method TransformEither(data: array<Byte>, sort: seq<nat> -> seq<nat>) returns (out: array<Byte>, primary: nat, ghost sa: seq<nat>)
    requires data.Length <= SORT_LIMIT && SortsSuffixes(sort)
    ensures SortedRotations(data[..], sa) && out[..] == LastColumn(data[..], sa)
    ensures if data.Length == 0 then primary == 0 else primary < data.Length && sa[primary] == 0
    ensures fresh(out)
  {
    var n := data.Length;
    if 1024 <= n < 0x4000_0000 {
      var distinct := AllRotationsDistinct(data);
      if distinct {
        var t, _, code := WriteTwice(data);
        ghost var s, twice := data[..], t[..];
        TwiceHasSentinel(s, code, twice);
        var sorted := sort(t[..]);
        out, primary := Gather(data, sorted, code, twice);
        sa := FirstCopy(sorted, n);
        return;
      }
    }
    out, primary, sa := Transform(data);
  }

  /** Which route is taken shows in nothing, but for the row of a block that repeats itself. */
  method RoutesAgree(data: array<Byte>, sort: seq<nat> -> seq<nat>) returns (same: bool, p: nat, q: nat)
    requires data.Length <= SORT_LIMIT && SortsSuffixes(sort)
    ensures same
    ensures RotationsDiffer(data[..]) ==> p == q
  {
    var a, b;
    ghost var sa, other;
    a, p, sa := TransformEither(data, sort);
    b, q, other := Transform(data);
    ColumnIsUnique(data[..], sa, other);
    OrderIsUnique(data[..], sa);
    same := a[..] == b[..];
  }
}
