/** The test that guards the suffix-sort route: no two rotations of the block are equal (AllRotationsDistinct). */
module Periods {
  import opened Arith
  import opened Words
  import opened Rotations

  ghost predicate Apart(s: seq<Byte>, t: nat, d: nat)
    requires t + d < |s|
  {
    s[t] == s[t + d]
  }

  /** The first `b` of the first `i` bytes are also the last `b` of them. */
  ghost predicate Border(s: seq<Byte>, i: nat, b: nat)
    requires i <= |s|
  {
    b < i && var d := i - b; forall t :: 0 <= t < b ==> Apart(s, t, d)
  }

  ghost predicate NoBorderAbove(s: seq<Byte>, i: nat, f: nat)
    requires i <= |s|
  {
    forall b: nat :: Border(s, i, b) ==> b <= f
  }

  /** The longest proper border of the first `i` bytes. */
  ghost predicate IsFail(s: seq<Byte>, i: nat, f: nat)
    requires 1 <= i <= |s|
  {
    Border(s, i, f) && NoBorderAbove(s, i, f)
  }

  /** Bytes `d` apart are equal. */
  ghost predicate Period(s: seq<Byte>, d: nat) {
    0 < d <= |s| && forall t :: 0 <= t < |s| - d ==> Apart(s, t, d)
  }

  // ---------------------------------------------------------------- the failure function

  /** A border of `i + 1` bytes, less its last, is a border of `i` bytes that the next byte extends. */
  lemma BorderShrinks(s: seq<Byte>, i: nat, b: nat)
    requires 1 <= i < |s| && 1 <= b && Border(s, i + 1, b)
    ensures Border(s, i, b - 1) && s[b - 1] == s[i]
  {
    assert Apart(s, b - 1, i + 1 - b);
    var d := i + 1 - b;
    assert i - (b - 1) == d;
  }

  lemma BorderGrows(s: seq<Byte>, i: nat, b: nat)
    requires 1 <= i < |s| && Border(s, i, b) && s[b] == s[i]
    ensures Border(s, i + 1, b + 1)
  {
    var d := i - b;
    assert i + 1 - (b + 1) == d;
  }

  lemma BorderMeans(s: seq<Byte>, i: nat, b: nat, d: nat)
    requires b < i <= |s| && d == i - b
    ensures Border(s, i, b) <==> forall t :: 0 <= t < b ==> Apart(s, t, d)
  {
  }

  /** A shorter border is a border of the longer one. */
  lemma BorderOfBorder(s: seq<Byte>, i: nat, k: nat, b: nat)
    requires i <= |s| && Border(s, i, k) && b < k
    ensures Border(s, i, b) <==> Border(s, k, b)
  {
    var far, mid, near := i - b, i - k, k - b;
    forall t | 0 <= t < b ensures Apart(s, t, far) <==> Apart(s, t, near) {
      assert Apart(s, near + t, mid);
    }
    BorderMeans(s, i, b, far);
    BorderMeans(s, k, b, near);
  }

  /** Every border of `i + 1` bytes is one longer than a border of `i` bytes up to `k`. */
  ghost predicate Reach(s: seq<Byte>, i: nat, k: nat)
    requires 1 <= i < |s|
  {
    Border(s, i, k) && NoBorderAbove(s, i + 1, k + 1)
  }

  lemma ReachFrom(s: seq<Byte>, i: nat, k: nat)
    requires 1 <= i < |s| && IsFail(s, i, k)
    ensures Reach(s, i, k)
  {
    var next := i + 1;
    forall b: nat | Border(s, next, b) ensures b <= k + 1 {
      if b > 0 { BorderShrinks(s, i, b); }
    }
  }

  lemma ReachOn(s: seq<Byte>, i: nat, k: nat, f: nat)
    requires 1 <= i < |s| && Reach(s, i, k) && 0 < k && s[i] != s[k] && IsFail(s, k, f)
    ensures Reach(s, i, f)
  {
    BorderOfBorder(s, i, k, f);
    var next := i + 1;
    forall b: nat | Border(s, next, b) ensures b <= f + 1 {
      if b > 0 {
        BorderShrinks(s, i, b);
        if b - 1 < k { BorderOfBorder(s, i, k, b - 1); }
      }
    }
  }

  lemma ReachEnds(s: seq<Byte>, i: nat, k: nat)
    requires 1 <= i < |s| && Reach(s, i, k) && (k == 0 || s[i] == s[k])
    ensures IsFail(s, i + 1, if s[i] == s[k] then k + 1 else 0)
  {
    if s[i] == s[k] {
      BorderGrows(s, i, k);
    } else {
      assert Border(s, i + 1, 0);
      if Border(s, i + 1, 1) { BorderShrinks(s, i, 1); }
    }
  }

  // ---------------------------------------------------------------- periods of the block

  lemma BorderIsPeriod(s: seq<Byte>, d: nat)
    requires 0 < d <= |s|
    ensures Border(s, |s|, |s| - d) <==> Period(s, d)
  {
    assert |s| - (|s| - d) == d;
  }

  lemma PeriodDifference(s: seq<Byte>, p: nat, d: nat)
    requires Period(s, p) && Period(s, d) && p < d && p + d <= |s|
    ensures Period(s, d - p)
  {
    var e := d - p;
    forall t | 0 <= t < |s| - e ensures Apart(s, t, e) {
      if t >= p {
        assert Apart(s, t - p, p) && Apart(s, t - p, d);
      } else {
        assert Apart(s, t, d) && Apart(s, t + d - p, p);
      }
    }
  }

  /** The smallest period divides every period that fits beside it. */
  lemma {:induction false} SmallestDivides(s: seq<Byte>, p: nat, d: nat) returns (q: nat)
    requires Period(s, p) && Period(s, d) && p + d <= |s|
    requires forall e: nat :: Period(s, e) ==> p <= e
    ensures d == q * p
    decreases d
  {
    if d == p {
      q := 1;
    } else {
      PeriodDifference(s, p, d);
      var r := SmallestDivides(s, p, d - p);
      q := r + 1;
      assert d == r * p + p == (r + 1) * p;
    }
  }

  lemma {:induction false} EqAt(s: seq<Byte>, i: nat, j: nat, k: nat, x: nat)
    requires i < |s| && j < |s| && Eq(s, i, j, k) && x < k
    ensures s[Adv(|s|, i, x)] == s[Adv(|s|, j, x)]
    decreases k
  {
    if x != 0 { EqAt(s, Nx(|s|, i), Nx(|s|, j), k - 1, x - 1); }
  }

  lemma {:induction false} EqFromAll(s: seq<Byte>, i: nat, j: nat, k: nat)
    requires i < |s| && j < |s|
    requires forall x: nat :: x < k ==> s[Adv(|s|, i, x)] == s[Adv(|s|, j, x)]
    ensures Eq(s, i, j, k)
    decreases k
  {
    if k != 0 {
      assert s[Adv(|s|, i, 0)] == s[Adv(|s|, j, 0)];
      forall x: nat | x < k - 1 ensures s[Adv(|s|, Nx(|s|, i), x)] == s[Adv(|s|, Nx(|s|, j), x)] {
        assert s[Adv(|s|, i, x + 1)] == s[Adv(|s|, j, x + 1)];
      }
      EqFromAll(s, Nx(|s|, i), Nx(|s|, j), k - 1);
    }
  }

  /** Equal rotations make their distance a period, and what is left of the block another. */
  lemma EqualRotationsArePeriods(s: seq<Byte>, i: nat, j: nat)
    requires i < j < |s| && Eq(s, i, j, |s|)
    ensures Period(s, j - i) && Period(s, |s| - (j - i))
  {
    var n, d := |s|, j - i;
    forall t | 0 <= t < n - d ensures Apart(s, t, d) {
      EqAt(s, i, j, n, if t >= i then t - i else t + n - i);
    }
    var rest := n - d;
    forall t | 0 <= t < d ensures Apart(s, t, rest) {
      EqAt(s, i, j, n, if t >= j then t - j else t + n - j);
    }
  }

  lemma {:induction false} PeriodSteps(s: seq<Byte>, p: nat, t: nat, q: nat)
    requires Period(s, p) && t + q * p < |s|
    ensures s[t] == s[t + q * p]
    decreases q
  {
    if q != 0 {
      assert q * p == (q - 1) * p + p;
      PeriodSteps(s, p, t, q - 1);
      assert Apart(s, t + (q - 1) * p, p);
    }
  }

  /** A period that divides the length makes two rotations equal. */
  lemma DividingPeriodRepeats(s: seq<Byte>, p: nat, q: nat)
    requires Period(s, p) && p < |s| && |s| == (q + 1) * p
    ensures Eq(s, 0, p, |s|)
  {
    var n := |s|;
    assert n == q * p + p;
    forall x: nat | x < n ensures s[Adv(n, 0, x)] == s[Adv(n, p, x)] {
      if x + p < n {
        assert Apart(s, x, p);
      } else {
        PeriodSteps(s, p, x + p - n, q);
        assert x + p - n + q * p == x;
      }
    }
    EqFromAll(s, 0, p, n);
  }

  /** Equal rotations: the smallest period is shorter than the block and divides its length. */
  lemma EqualRotationsDivide(s: seq<Byte>, p: nat, i: nat, j: nat)
    requires Period(s, p) && forall e: nat :: Period(s, e) ==> p <= e
    requires i < j < |s| && Eq(s, i, j, |s|)
    ensures p < |s| && |s| % p == 0
  {
    var n, d := |s|, j - i;
    EqualRotationsArePeriods(s, i, j);
    var a := SmallestDivides(s, p, d);
    var b := SmallestDivides(s, p, n - d);
    assert n == a * p + b * p == (a + b) * p;
    DivUnique(n, a + b, p, 0);
  }

  /** Two rotations are equal exactly when the block is a whole number of copies of its smallest period. */
  lemma RotationsRepeat(s: seq<Byte>, f: nat)
    requires |s| >= 1 && IsFail(s, |s|, f)
    ensures var p := |s| - f;
      (p < |s| && |s| % p == 0) <==> exists i: nat, j: nat :: i < j < |s| && Eq(s, i, j, |s|)
  {
    var n, p := |s|, |s| - f;
    BorderIsPeriod(s, p);
    forall e: nat | Period(s, e) ensures p <= e {
      BorderIsPeriod(s, e);
    }
    if p < n && n % p == 0 {
      var q := n / p;
      assert n == q * p && q >= 1;
      DividingPeriodRepeats(s, p, q - 1);
      assert 0 < p < n && Eq(s, 0, p, n);
      assert exists i: nat, j: nat :: i < j < |s| && Eq(s, i, j, |s|);
    }
    forall i: nat, j: nat | i < j < |s| && Eq(s, i, j, |s|) ensures p < |s| && |s| % p == 0 {
      EqualRotationsDivide(s, p, i, j);
    }
  }

  /** True exactly when no two cyclic rotations of the block are equal. */
  method AllRotationsDistinct(s: array<Byte>) returns (distinct: bool)
    ensures distinct <==> forall i: nat, j: nat :: i < j < s.Length ==> !Eq(s[..], i, j, s.Length)
  {
    var n := s.Length;
    if n < 2 { return true; }
    ghost var t := s[..];
    var fail := new nat[n + 1](_ => 0);
    var k: nat := 0;
    assert IsFail(t, 1, 0);
    for i := 1 to n
      invariant s[..] == t && k == fail[i]
      invariant forall m :: 1 <= m <= i ==> IsFail(t, m, fail[m])
    {
      ReachFrom(t, i, k);
      ghost var known := fail[..];
      while k != 0 && s[i] != s[k]
        invariant Reach(t, i, k) && fail[..] == known
        decreases k
      {
        assert IsFail(t, k, known[k]);
        ReachOn(t, i, k, fail[k]);
        k := fail[k];
      }
      ReachEnds(t, i, k);
      if s[i] == s[k] { k := k + 1; }
      fail[i + 1] := k;
    }
    RotationsRepeat(t, fail[n]);
    var p := n - fail[n];
    distinct := !(p < n && n % p == 0);
  }
}
