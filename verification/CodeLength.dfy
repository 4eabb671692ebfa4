/**
 How many bytes the range coder makes: a decision keeps the share of the interval that its
 probability says, and the code is as long as the shares are small.
 */
module CodeLength {
  import opened Words
  import opened RangeCoder
  import opened IntCoding

  // ---------------------------------------------------------------- one decision

  function Width(b: Bounds): int {
    b.hi - b.lo + 1
  }

  /** A one keeps `p` 4096ths of the interval, rounded down: to a number in 64 bits, to a multiple of `p` in 32. */
  lemma ShareIsFair(prec: Precision, b: Bounds, p: Prob)
    requires b.lo < b.hi
    ensures var (range, ones) := (b.hi - b.lo, Split(prec, b, p) - b.lo);
      0 <= range * p - ones * 4096 < if prec.Fine? then 4096 else 4096 * 4096
  {
    var range := b.hi - b.lo;
    if prec.Coarse? {
      var q, r := range / 4096, range % 4096;
      assert range == q * 4096 + r;
      Scaled(q, r, p);
      Product(r, p);
    }
  }

  lemma Scaled(q: nat, r: nat, p: nat)
    ensures (q * 4096 + r) * p == q * p * 4096 + r * p
  {
  }

  lemma Product(r: nat, p: Prob)
    requires r < 4096
    ensures 0 <= r * p < 4096 * 4096
  {
    assert r * p <= 4095 * p;
  }

  /** A likely decision keeps at least half of a wide interval, whichever way the split is computed. */
  lemma LikelyKeepsHalf(prec: Precision, b: Bounds, d: Decision)
    requires b.lo < b.hi && Width(b) >= 0x80_0000 && if d.bit then d.p > 2048 else d.p < 2048
    ensures 2 * Width(Narrow(prec, b, d)) >= Width(b)
  {
    var range, ones := b.hi - b.lo, Split(prec, b, d.p) - b.lo;
    if prec.Coarse? {
      CoarseHalf(range / 4096, range % 4096, d.p);
    } else {
      FineHalf(range, d.p, ones);
    }
  }

  lemma CoarseHalf(q: nat, r: nat, p: Prob)
    requires r < 4096 && q >= 2047
    ensures p > 2048 ==> 2 * (q * p + 1) >= q * 4096 + r + 1
    ensures p < 2048 ==> 2 * (q * 4096 + r - q * p) >= q * 4096 + r + 1
  {
    if p > 2048 { assert q * p >= q * 2049; }
    if p < 2048 { assert q * p <= q * 2047; }
  }

  lemma FineHalf(range: nat, p: Prob, ones: nat)
    requires range >= 4096 && ones == range * p / 4096
    ensures p > 2048 ==> 2 * (ones + 1) >= range + 1
    ensures p < 2048 ==> 2 * (range - ones) >= range + 1
  {
    if p > 2048 { assert range * p >= range * 2049; }
    if p < 2048 { assert range * p <= range * 2047; }
  }

  // ---------------------------------------------------------------- all of them

  /** Each decision keeps at least one part in 2^cost of the interval it finds. */
  ghost predicate CostAtMost(prec: Precision, b: Bounds, ds: seq<Decision>, costs: seq<nat>)
    requires b.lo <= b.hi
    decreases |ds|, TWO32 - (b.hi - b.lo)
  {
    |costs| == |ds| && if SameTop(b) then ShiftWidens(b); CostAtMost(prec, Shift(b), ds, costs)
    else ds == [] || (Width(b) <= Pow2(costs[0]) * Width(Narrow(prec, b, ds[0])) && CostAtMost(prec, Narrow(prec, b, ds[0]), ds[1..], costs[1..]))
  }

  /** Each decision keeps at most one part in 2^cost of the interval it finds. */
  ghost predicate CostAtLeast(prec: Precision, b: Bounds, ds: seq<Decision>, costs: seq<nat>)
    requires b.lo <= b.hi
    decreases |ds|, TWO32 - (b.hi - b.lo)
  {
    |costs| == |ds| && if SameTop(b) then ShiftWidens(b); CostAtLeast(prec, Shift(b), ds, costs)
    else ds == [] || (Width(b) >= Pow2(costs[0]) * Width(Narrow(prec, b, ds[0])) && CostAtLeast(prec, Narrow(prec, b, ds[0]), ds[1..], costs[1..]))
  }

  function TotalCost(costs: seq<nat>): nat {
    if costs == [] then 0 else costs[0] + TotalCost(costs[1..])
  }

  /** The bytes but the last take up what the decisions left of the interval. */
  lemma {:induction false} WidthIsPaid(prec: Precision, b: Bounds, ds: seq<Decision>, costs: seq<nat>)
    requires b.lo <= b.hi && CostAtMost(prec, b, ds, costs)
    ensures |Code(prec, b, ds)| >= 1 && Pow2(8 * (|Code(prec, b, ds)| - 1)) * Width(b) <= Pow2(32 + TotalCost(costs))
    decreases |ds|, TWO32 - (b.hi - b.lo)
  {
    if SameTop(b) {
      ShiftWidens(b);
      WidthIsPaid(prec, Shift(b), ds, costs);
      ByteMore(|Code(prec, Shift(b), ds)|, Width(b), Width(Shift(b)));
    } else if ds == [] {
      WholeWidth();
      Pow2Monotone(32, 32 + TotalCost(costs));
    } else {
      WidthIsPaid(prec, Narrow(prec, b, ds[0]), ds[1..], costs[1..]);
      NarrowPays(prec, b, ds, costs);
    }
  }

  lemma NarrowPays(prec: Precision, b: Bounds, ds: seq<Decision>, costs: seq<nat>)
    requires b.lo < b.hi && !SameTop(b) && ds != [] && |costs| == |ds|
    requires Width(b) <= Pow2(costs[0]) * Width(Narrow(prec, b, ds[0])) && |Code(prec, b, ds)| >= 1
    requires Pow2(8 * (|Code(prec, b, ds)| - 1)) * Width(Narrow(prec, b, ds[0])) <= Pow2(32 + TotalCost(costs[1..]))
    ensures Pow2(8 * (|Code(prec, b, ds)| - 1)) * Width(b) <= Pow2(32 + TotalCost(costs))
  {
    CostPaid(8 * (|Code(prec, b, ds)| - 1), Width(b), Width(Narrow(prec, b, ds[0])), costs[0], 32 + TotalCost(costs[1..]));
  }

  lemma CostPaid(n: nat, w: nat, c: nat, cost: nat, rest: nat)
    requires w <= Pow2(cost) * c && Pow2(n) * c <= Pow2(rest)
    ensures Pow2(n) * w <= Pow2(cost + rest)
  {
    Pow2Sum(cost, rest);
    Spread(Pow2(n), w, c, Pow2(cost), Pow2(rest));
  }

  lemma {:induction false} WidthIsLost(prec: Precision, b: Bounds, ds: seq<Decision>, costs: seq<nat>)
    requires b.lo <= b.hi && CostAtLeast(prec, b, ds, costs)
    ensures |Code(prec, b, ds)| >= 1 && Pow2(8 * (|Code(prec, b, ds)| - 1)) * Width(b) >= Pow2(TotalCost(costs))
    decreases |ds|, TWO32 - (b.hi - b.lo)
  {
    if SameTop(b) {
      ShiftWidens(b);
      WidthIsLost(prec, Shift(b), ds, costs);
      ByteMore(|Code(prec, Shift(b), ds)|, Width(b), Width(Shift(b)));
    } else if ds != [] {
      var c := Narrow(prec, b, ds[0]);
      WidthIsLost(prec, c, ds[1..], costs[1..]);
      Pow2Sum(costs[0], TotalCost(costs[1..]));
      Gathered(Pow2(8 * (|Code(prec, b, ds)| - 1)), Width(b), Width(c), Pow2(costs[0]), Pow2(TotalCost(costs[1..])));
    }
  }

  lemma ByteMore(n: nat, w: nat, shifted: nat)
    requires n >= 1 && shifted == 256 * w
    ensures Pow2(8 * n) * w == Pow2(8 * (n - 1)) * shifted
  {
    Pow2Sum(8 * (n - 1), 8);
    assert Pow2(8) == 256;
    Reordered(Pow2(8 * (n - 1)), w);
  }

  lemma Reordered(x: nat, w: nat)
    ensures x * 256 * w == x * (256 * w)
  {
  }

  lemma WholeWidth()
    ensures Pow2(0) == 1 && Pow2(32) == TWO32
  {
    assert Pow2(8) == 256;
    Pow2Sum(8, 8);
    Pow2Sum(16, 16);
  }

  lemma Spread(x: nat, w: nat, c: nat, k: nat, most: nat)
    requires w <= k * c && x * c <= most
    ensures x * w <= k * most
  {
    assert x * w <= x * (k * c) == k * (x * c);
    assert k * (x * c) <= k * most;
  }

  lemma Gathered(x: nat, w: nat, c: nat, k: nat, least: nat)
    requires w >= k * c && x * c >= least
    ensures x * w >= k * least
  {
    assert x * w >= x * (k * c) == k * (x * c);
    assert k * (x * c) >= k * least;
  }

  /** The bytes of a code have as many bits as its decisions cost, and at most eight more. */
  lemma CodeIsNoLonger(prec: Precision, ds: seq<Decision>, costs: seq<nat>)
    requires CostAtMost(prec, FULL, ds, costs)
    ensures 8 * |Code(prec, FULL, ds)| <= TotalCost(costs) + 8
  {
    WidthIsPaid(prec, FULL, ds, costs);
    var n := 8 * (|Code(prec, FULL, ds)| - 1);
    WholeWidth();
    Pow2Sum(n, 32);
    PowersCompare(n + 32, 32 + TotalCost(costs));
  }

  /** And no fewer, but for three bytes. */
  lemma CodeIsNoShorter(prec: Precision, ds: seq<Decision>, costs: seq<nat>)
    requires CostAtLeast(prec, FULL, ds, costs)
    ensures TotalCost(costs) <= 8 * |Code(prec, FULL, ds)| + 24
  {
    WidthIsLost(prec, FULL, ds, costs);
    var n := 8 * (|Code(prec, FULL, ds)| - 1);
    WholeWidth();
    Pow2Sum(n, 32);
    PowersCompare(TotalCost(costs), n + 32);
  }

  lemma PowersCompare(a: nat, b: nat)
    requires Pow2(a) <= Pow2(b)
    ensures a <= b
  {
    if b < a {
      Pow2Monotone(b + 1, a);
    }
  }

  // ---------------------------------------------------------------- any decisions

  /** How often bounds this far apart can still be shifted. */
  function Shifts(width: nat): nat {
    if width > 0xff_ffff then 0 else if width == 0xff_ffff then 1
    else if width >= 0xffff then 2 else if width >= 0xff then 3 else 4
  }

  /** At most four bytes a bit, and the one of the flush. */
  lemma {:induction false} CodeIsShort(prec: Precision, b: Bounds, ds: seq<Decision>)
    requires b.lo <= b.hi
    ensures |Code(prec, b, ds)| <= Shifts(b.hi - b.lo) + 4 * |ds| + 1
    decreases |ds|, TWO32 - (b.hi - b.lo)
  {
    if SameTop(b) {
      ShiftWidens(b);
      CodeIsShort(prec, Shift(b), ds);
      assert b.hi - b.lo <= 0xff_ffff;
    } else if ds != [] {
      CodeIsShort(prec, Narrow(prec, b, ds[0]), ds[1..]);
    }
  }

  // ---------------------------------------------------------------- likely decisions

  function Ones(n: nat): (s: seq<nat>)
    ensures |s| == n
  {
    seq(n, _ => 1)
  }

  lemma {:induction false} SumOfOnes(n: nat)
    ensures TotalCost(Ones(n)) == n
  {
    if n > 0 {
      assert Ones(n)[1..] == Ones(n - 1);
      SumOfOnes(n - 1);
    }
  }

  ghost predicate AllLikely(bit: bool, ds: seq<Decision>) {
    forall d | d in ds :: d.bit == bit && if bit then d.p > 2048 else d.p < 2048
  }

  /** The interval of a run of equal decisions keeps one of its ends, and so never gets narrow. */
  ghost predicate Anchored(bit: bool, b: Bounds) {
    b.lo < b.hi && Width(b) >= 0x80_0000 && if bit then b.lo == 0 else b.hi == 0xffff_ffff
  }

  lemma {:induction false} LikelyCosts(prec: Precision, bit: bool, b: Bounds, ds: seq<Decision>)
    requires Anchored(bit, b) && AllLikely(bit, ds)
    ensures CostAtMost(prec, b, ds, Ones(|ds|))
    decreases |ds|, TWO32 - (b.hi - b.lo)
  {
    if SameTop(b) {
      ShiftWidens(b);
      LikelyCosts(prec, bit, Shift(b), ds);
    } else if ds != [] {
      var c := Narrow(prec, b, ds[0]);
      LikelyKeepsHalf(prec, b, ds[0]);
      assert Pow2(1) == 2 && Ones(|ds|)[1..] == Ones(|ds| - 1);
      LikelyCosts(prec, bit, c, ds[1..]);
    }
  }

  /** A run of equal decisions, each of them likely: no more than a byte for eight of them, and one. */
  lemma LikelyRunIsShort(prec: Precision, bit: bool, ds: seq<Decision>)
    requires AllLikely(bit, ds)
    ensures 8 * |Code(prec, FULL, ds)| <= |ds| + 8
  {
    LikelyCosts(prec, bit, FULL, ds);
    CodeIsNoLonger(prec, ds, Ones(|ds|));
    SumOfOnes(|ds|);
  }

  // ---------------------------------------------------------------- the adaptive cells

  /** A cell moves one part in `div` of its way to the end that the bit stands for. */
  lemma NudgeIsFair(m: U16, bit: bool, add: nat, div: nat)
    requires 4 <= div <= TWO16 && TWO16 % div == 0 && add == div / 2
    ensures var (gap, moved) := ((if bit then TWO16 else 0) + add - m, Nudge(m, bit, add, div) - m);
      0 <= gap - div * moved < div
  {
    var gap := (if bit then TWO16 else 0) + add - m;
    NudgeMoves(m, bit, add, div, gap);
    Remainder(gap, div, Nudge(m, bit, add, div) - m);
  }

  lemma NudgeMoves(m: U16, bit: bool, add: nat, div: nat, gap: int)
    requires 4 <= div <= TWO16 && TWO16 % div == 0 && add == div / 2 && gap == (if bit then TWO16 else 0) + add - m
    ensures Nudge(m, bit, add, div) == m + gap / div
  {
    NudgeIs(m, bit, add, div, gap);
    MovedBy(m, gap, div, gap / div);
  }

  /** In 32 bits and then in 16, on either side. */
  lemma MovedBy(m: U16, gap: int, div: nat, q: int)
    requires 4 <= div <= TWO16 && TWO16 % div == 0 && q == gap / div && 0 <= m + gap <= TWO16 + div / 2
    ensures 0 <= m + q < TWO16 && (m + Wrap32(gap) / div) % TWO16 == m + q
  {
    if gap < 0 {
      NudgeDown(m, gap, div, q);
    } else {
      Forwards(m, gap, div, q);
      assert Wrap32(gap) == gap;
    }
  }

  lemma Remainder(x: int, div: nat, q: int)
    requires div > 0 && q == x / div
    ensures 0 <= x - div * q < div
  {
  }

  lemma NudgeDown(m: U16, gap: int, div: nat, q: int)
    requires 4 <= div <= TWO16 && TWO16 % div == 0 && q == gap / div && 0 <= m + gap && gap < 0
    ensures 0 <= m + q < TWO16 && (m + Wrap32(gap) / div) % TWO16 == m + q
  {
    var k := TWO16 / div;
    Remainder(TWO16, div, k);
    Backwards(gap, div, k, q);
    Downwards(m, gap, div, q);
    Rounds(m + q, k);
  }

  lemma NudgeIs(m: U16, bit: bool, add: nat, div: nat, gap: int)
    requires div > 0 && gap == (if bit then TWO16 else 0) + add - m
    ensures Nudge(m, bit, add, div) == (m + Wrap32(gap) / div) % TWO16
    ensures 0 <= gap < TWO32 ==> Wrap32(gap) == gap
  {
  }

  lemma Rounds(x: int, k: nat)
    requires 0 <= x < TWO16
    ensures (x + k * TWO16) % TWO16 == x
  {
  }

  lemma Downwards(m: U16, gap: int, div: nat, q: int)
    requires 4 <= div && q == gap / div && 0 <= m + gap && gap < 0
    ensures 0 <= m + q < TWO16
  {
    assert gap == q * div + gap % div;
    AtLeast(-1 - q, div);
    Difference(-1 - q, 0, div);
    assert (-1 - q) * div == 0 - q * div - div;
  }

  lemma AtLeast(a: nat, div: nat)
    requires div >= 1
    ensures a * div >= a
  {
    assert a * (div - 1) >= 0 && a * div == a * (div - 1) + a;
  }

  lemma Difference(p: int, q: int, div: int)
    ensures (p - q) * div == p * div - q * div
  {
  }

  lemma Forwards(m: U16, gap: nat, div: nat, q: nat)
    requires 4 <= div && q == gap / div && gap <= TWO16 + div / 2 - m
    ensures m + q < TWO16
  {
    Remainder(gap, div, q);
    if q >= TWO16 - m { Multiples(TWO16 - m, div, q); }
  }

  lemma Multiples(g: nat, div: nat, q: nat)
    requires g <= q && 4 <= div && g >= 1
    ensures q * div >= g + div / 2 + 1
  {
    Difference(q, g, div);
    assert (q - g) * div >= 0;
    AtLeastOnce(g, div - 1);
    assert g * div == g + g * (div - 1);
  }

  /** A negative gap in 32 bits, divided, is the quotient up to a multiple of 65536. */
  lemma Backwards(gap: int, div: nat, k: nat, q: int)
    requires -TWO16 < gap < 0 && div > 0 && TWO16 == k * div && q == gap / div
    ensures Wrap32(gap) / div == q + k * TWO16
  {
    assert Wrap32(gap) == gap + TWO32;
    assert TWO32 == k * TWO16 * div;
    Quotient(gap, div, k * TWO16);
  }

  lemma Quotient(x: int, div: nat, n: nat)
    requires div > 0
    ensures (x + n * div) / div == x / div + n
  {
    var q, r := x / div, x % div;
    assert x + n * div == (q + n) * div + r;
    Unique(x + n * div, div, q + n, r);
  }

  lemma Unique(x: int, div: nat, q: int, r: int)
    requires div > 0 && x == q * div + r && 0 <= r < div
    ensures x / div == q
  {
    var p := x / div;
    assert x == p * div + x % div;
    Apart(p, q, div);
  }

  lemma Apart(p: int, q: int, div: nat)
    ensures p < q ==> q * div >= p * div + div
    ensures q < p ==> p * div >= q * div + div
  {
    Difference(p, q, div);
    Difference(q, p, div);
    if p < q { AtLeastOnce(q - p, div); }
    if q < p { AtLeastOnce(p - q, div); }
  }

  lemma AtLeastOnce(a: nat, div: nat)
    requires a >= 1
    ensures a * div >= div
  {
    Difference(a, 1, div);
    assert (a - 1) * div >= 0;
  }

  /** How high a cell that counts can have got: from 0x8002 on, one step a count until the last. */
  function Ceiling(rate: nat): nat {
    if rate <= 2 then 0x8002 else if rate == 3 then 0xa100 else if rate == 4 then 0xad80 else if rate == 5 then 0xb300
    else if rate == 6 then 0xb600 else 0xb800
  }

  predicate Counting(rule: Rule, m: U16) {
    rule.Rated? && ((rule.last == 6 && rule.add == 0x40) || (rule.last == 7 && rule.add == 0x80))
    && 2 <= m % 16 <= rule.last + 1 && (m % 16 <= rule.last ==> m <= Ceiling(m % 16))
  }

  /** A cell with a count in its low nibble moves one part in 2^count of its way, and counts up to a limit. */
  lemma RatedIsFair(rule: Rule, m: U16, bit: bool)
    requires Counting(rule, m)
    ensures var (r, gap, div) := (Moved(rule, m, bit), (if bit then TWO16 else 0) + rule.add - m, Pow2(m % 16));
      && Counting(rule, r) && r % 16 == m % 16 + (if m % 16 <= rule.last then 1 else 0)
      && 0 <= m + gap / div < TWO16 && r / 16 == (m + gap / div) / 16
  {
    var rate, gap := m % 16, (if bit then TWO16 else 0) + rule.add - m;
    RatedPowers();
    RatedBy(rule, m, bit, gap, Pow2(rate));
  }

  lemma RatedBy(rule: Rule, m: U16, bit: bool, gap: int, div: nat)
    requires Counting(rule, m) && gap == (if bit then TWO16 else 0) + rule.add - m && div == Pow2(m % 16)
    requires div == if m % 16 == 2 then 4 else if m % 16 == 3 then 8 else if m % 16 == 4 then 16 else if m % 16 == 5 then 32
      else if m % 16 == 6 then 64 else if m % 16 == 7 then 128 else 256
    ensures var r := Moved(rule, m, bit);
      && Counting(rule, r) && r % 16 == m % 16 + (if m % 16 <= rule.last then 1 else 0)
      && 0 <= m + gap / div < TWO16 && r / 16 == (m + gap / div) / 16
  {
    RatedRange(m, gap, div, rule, bit);
    RatedMoves(m, gap, div, gap / div);
    RatedEnds(rule, m, bit, gap / div);
  }

  lemma RatedPowers()
    ensures Pow2(2) == 4 && Pow2(3) == 8 && Pow2(4) == 16 && Pow2(5) == 32 && Pow2(6) == 64 && Pow2(7) == 128 && Pow2(8) == 256
  {
  }

  lemma RatedEnds(rule: Rule, m: U16, bit: bool, q: int)
    requires Counting(rule, m) && 0 <= m + q < TWO16 && (m % 16 < rule.last ==> m + q < Ceiling(m % 16 + 1))
    requires Wrap32(Wrap32((if bit then TWO16 else 0) + rule.add - m) / Pow2(m % 16) + m) % TWO16 == m + q
    ensures var r := Moved(rule, m, bit);
      Counting(rule, r) && r % 16 == m % 16 + (if m % 16 <= rule.last then 1 else 0) && r / 16 == (m + q) / 16
  {
    var low := m % 16 + if m % 16 <= rule.last then 1 else 0;
    NibbleAside(low, m + q, Ceiling(low));
    RatedIs(rule, m, bit, m + q, low);
    CeilingsRound(low);
  }

  lemma RatedIs(rule: Rule, m: U16, bit: bool, x: int, low: nat)
    requires rule.Rated? && low == m % 16 + if m % 16 <= rule.last then 1 else 0
    requires 0 <= x < TWO16 && Wrap32(Wrap32((if bit then TWO16 else 0) + rule.add - m) / Pow2(m % 16) + m) % TWO16 == x
    ensures Moved(rule, m, bit) == (low + x / 16 * 16) % TWO16
  {
  }

  lemma CeilingsRound(rate: nat)
    ensures rate >= 3 ==> Ceiling(rate) % 16 == 0
  {
  }

  lemma RatedRange(m: U16, gap: int, div: nat, rule: Rule, bit: bool)
    requires Counting(rule, m) && gap == (if bit then TWO16 else 0) + rule.add - m
    requires div == if m % 16 == 2 then 4 else if m % 16 == 3 then 8 else if m % 16 == 4 then 16 else if m % 16 == 5 then 32
      else if m % 16 == 6 then 64 else if m % 16 == 7 then 128 else 256
    ensures 0 <= m + gap / div < TWO16
    ensures m % 16 < rule.last ==> m + gap / div < Ceiling(m % 16 + 1)
  {
  }

  lemma RatedMoves(m: U16, gap: int, div: nat, q: int)
    requires 4 <= div <= TWO16 && TWO16 % div == 0 && q == gap / div && 0 <= m + q < TWO16 && -TWO16 < gap < 2 * TWO16
    ensures Wrap32(Wrap32(gap) / div + m) % TWO16 == m + q
  {
    if gap < 0 {
      var k := TWO16 / div;
      Remainder(TWO16, div, k);
      Backwards(gap, div, k, q);
      Rounds(m + q, k);
    }
  }

  lemma NibbleAside(low: nat, x: nat, most: nat)
    requires low < 16 && x < TWO16
    ensures var r := (low + x / 16 * 16) % TWO16; r % 16 == low && r / 16 == x / 16 && (most % 16 == 0 && x < most ==> r < most)
  {
  }

  // ---------------------------------------------------------------- cells and code together

  /** Of a decision by a cell, a one keeps as many 65536ths of the interval as the cell says. */
  lemma CellShareIsFair(prec: Precision, b: Bounds, m: U16)
    requires b.lo < b.hi
    ensures var (range, ones) := (b.hi - b.lo, Split(prec, b, P12(m)) - b.lo);
      0 <= range * m - ones * TWO16 < 16 * range + 16 * 4096 * 4096
  {
    var range, ones, p := b.hi - b.lo, Split(prec, b, P12(m)) - b.lo, P12(m);
    ShareIsFair(prec, b, p);
    SixteenTimes(range, m, p);
  }

  lemma SixteenTimes(range: nat, m: U16, p: nat)
    requires p == m / 16
    ensures 0 <= range * m - range * p * 16 <= range * 15
  {
    Difference(m, 16 * p, range);
    UpTo15(m - 16 * p, range);
    assert 16 * p * range == range * p * 16;
  }

  lemma UpTo15(x: nat, range: nat)
    requires x <= 15
    ensures 0 <= x * range <= range * 15
  {
    Difference(15, x, range);
    assert (15 - x) * range >= 0;
  }

  /** The decisions for `n` equal bits by one cell. */
  function CellRun(m: U16, bit: bool, n: nat, add: nat, div: nat): (ds: seq<Decision>)
    requires div > 0
    ensures |ds| == n
    decreases n
  {
    if n == 0 then [] else [Decision(bit, P12(m))] + CellRun(Nudge(m, bit, add, div), bit, n - 1, add, div)
  }

  lemma {:induction false} CellRunIsLikely(m: U16, bit: bool, n: nat, add: nat, div: nat)
    requires 4 <= div <= TWO16 && TWO16 % div == 0 && add == div / 2 && if bit then m >= 0x8010 else m < 0x8000
    ensures AllLikely(bit, CellRun(m, bit, n, add, div))
    decreases n
  {
    if n > 0 {
      CellStaysLikely(m, bit, add, div);
      CellRunIsLikely(Nudge(m, bit, add, div), bit, n - 1, add, div);
    }
  }

  lemma CellStaysLikely(m: U16, bit: bool, add: nat, div: nat)
    requires 4 <= div <= TWO16 && TWO16 % div == 0 && add == div / 2 && if bit then m >= 0x8010 else m < 0x8000
    ensures var x := Nudge(m, bit, add, div); if bit then x >= 0x8010 else x < 0x8000
  {
    var gap := (if bit then TWO16 else 0) + add - m;
    NudgeMoves(m, bit, add, div, gap);
    WayIs(gap, div, gap / div);
  }

  lemma WayIs(gap: int, div: nat, q: int)
    requires div > 0 && q == gap / div
    ensures (gap >= 0 ==> q >= 0) && (gap < div ==> q <= 0) && (gap < 0 ==> q < 0)
  {
    Remainder(gap, div, q);
    if q >= 1 { AtLeastOnce(q, div); }
  }

  /** The first bit of a cell in the middle, and what the cell is then. */
  lemma FirstNudge(bit: bool, div: nat)
    requires 4 <= div <= 1024 && TWO16 % div == 0
    ensures var x := Nudge(0x8000, bit, div / 2, div); if bit then x >= 0x8010 else x < 0x8000
  {
    var gap := (if bit then TWO16 else 0) + div / 2 - 0x8000;
    NudgeMoves(0x8000, bit, div / 2, div, gap);
    WayIs(gap, div, gap / div);
    SixteenAtLeast(gap, div, gap / div);
  }

  lemma SixteenAtLeast(gap: int, div: nat, q: int)
    requires div > 0 && q == gap / div
    ensures gap >= 16 * div ==> q >= 16
  {
    Remainder(gap, div, q);
    if q < 16 { AtLeastOnce(16 - q, div); Difference(16, q, div); }
  }

  lemma FirstBit(prec: Precision, bit: bool)
    ensures var c := Narrow(prec, FULL, Decision(bit, 2048)); Anchored(bit, c) && Width(FULL) <= Pow2(2) * Width(c)
  {
    assert Pow2(2) == 4;
  }

  /**
   A cell learns: equal bits by one cell that begins in the middle make no more than a byte for eight
   of them, and two.
   */
  lemma CellLearns(prec: Precision, bit: bool, n: nat, div: nat)
    requires 4 <= div <= 1024 && TWO16 % div == 0
    ensures 8 * |Code(prec, FULL, CellRun(0x8000, bit, n, div / 2, div))| <= n + 16
  {
    var ds := CellRun(0x8000, bit, n, div / 2, div);
    if n > 0 {
      FirstNudge(bit, div);
      FirstBit(prec, bit);
      var x := Nudge(0x8000, bit, div / 2, div);
      CellRunIsLikely(x, bit, n - 1, div / 2, div);
      RunAfterFirst(prec, bit, ds, CellRun(x, bit, n - 1, div / 2, div));
    } else {
      assert CostAtMost(prec, FULL, ds, []);
      CodeIsNoLonger(prec, ds, []);
    }
  }

  lemma RunAfterFirst(prec: Precision, bit: bool, ds: seq<Decision>, rest: seq<Decision>)
    requires ds == [Decision(bit, 2048)] + rest && AllLikely(bit, rest)
    requires var c := Narrow(prec, FULL, Decision(bit, 2048)); Anchored(bit, c) && Width(FULL) <= Pow2(2) * Width(c)
    ensures 8 * |Code(prec, FULL, ds)| <= |ds| + 16
  {
    var c, costs := Narrow(prec, FULL, Decision(bit, 2048)), [2] + Ones(|rest|);
    LikelyCosts(prec, bit, c, rest);
    assert ds[0] == Decision(bit, 2048) && ds[1..] == rest && costs[1..] == Ones(|rest|);
    assert CostAtMost(prec, FULL, ds, costs);
    CodeIsNoLonger(prec, ds, costs);
    SumOfOnes(|rest|);
  }
}
