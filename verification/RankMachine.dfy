/**
 The move-to-front rank machine of the bucket coder (BwtUnpackInput, BwtBucketEncoder): the order
 of the symbols by their next occurrence, how it moves at the end of every run, and the two ways
 its ranks are computed.
 */
module RankMachine {
  import opened Words
  import opened Permutations

  const SYMBOLS: nat := 256

  /** First position from `pos` on that holds `sym`; the length when there is none. */
  function NextAt(d: seq<Byte>, sym: Byte, pos: nat): (r: nat)
    requires pos <= |d|
    ensures pos <= r <= |d|
    ensures r < |d| ==> d[r] == sym
    ensures forall i :: pos <= i < r ==> d[i] != sym
    decreases |d| - pos
  {
    if pos == |d| || d[pos] == sym then pos else NextAt(d, sym, pos + 1)
  }

  lemma NextAtIs(d: seq<Byte>, sym: Byte, pos: nat, r: nat)
    requires pos <= r <= |d| && (r < |d| ==> d[r] == sym)
    requires forall i :: pos <= i < r ==> d[i] != sym
    ensures NextAt(d, sym, pos) == r
  {
  }

  /** The symbols in rank order, and for each symbol the position it stands for. */
  datatype Machine = Machine(p: seq<Byte>, c: seq<nat>)

  ghost predicate Shaped(m: Machine) {
    |m.p| == |m.c| == SYMBOLS && IsPerm(m.p)
  }

  function Key(m: Machine, i: nat): nat
    requires |m.p| == |m.c| == SYMBOLS && i < SYMBOLS
  {
    m.c[m.p[i]]
  }

  /** Positions rise strictly with the rank. */
  ghost predicate Rising(m: Machine) {
    Shaped(m) && forall i, j :: 0 <= i < j < SYMBOLS ==> Key(m, i) < Key(m, j)
  }

  /**
   At the start of the run at `pos`: the `used` live symbols stand in front with their next
   occurrences, the others behind them with the positions from the end of the data on.
   */
  ghost predicate Ok(d: seq<Byte>, m: Machine, used: nat, pos: nat) {
    && Rising(m) && used <= SYMBOLS && pos <= |d|
    && (used == 0 <==> pos == |d|)
    && (used > 0 ==> Key(m, 0) == pos)
    && (forall i :: 0 <= i < used ==> Key(m, i) == NextAt(d, m.p[i], pos) < |d|)
    && (forall i :: used <= i < SYMBOLS ==> Key(m, i) == |d| + i - used && NextAt(d, m.p[i], pos) == |d|)
  }

  /** The run goes up to the position of the second symbol and holds nothing but the first. */
  lemma RunIsOneSymbol(d: seq<Byte>, m: Machine, used: nat, pos: nat)
    requires Ok(d, m, used, pos) && used > 0
    ensures pos < Key(m, 1) <= |d|
    ensures forall i :: pos <= i < Key(m, 1) ==> d[i] == m.p[0]
    ensures Key(m, 1) == |d| <==> used == 1
    ensures used > 1 ==> d[Key(m, 1)] == m.p[1] != m.p[0]
  {
    assert Key(m, 0) < Key(m, 1);
    forall i | pos <= i < Key(m, 1) ensures d[i] == m.p[0] {
      var j := Onto(m.p, d[i]);
      assert NextAt(d, m.p[j], pos) <= i;
      assert Key(m, j) < Key(m, 1);
    }
  }

  lemma NextAtLater(d: seq<Byte>, sym: Byte, pos: nat, later: nat)
    requires pos <= |d| && pos <= later <= NextAt(d, sym, pos)
    ensures NextAt(d, sym, later) == NextAt(d, sym, pos)
  {
    NextAtIs(d, sym, later, NextAt(d, sym, pos));
  }

  // ---------------------------------------------------------------- a symbol runs out

  /** MoveUpItem: the front symbol goes to the very end; `used` symbols stay live. */
  function Died(m: Machine, n: nat, used: nat): Machine
    requires |m.p| == |m.c| == SYMBOLS && used <= 255
  {
    Machine(m.p[1..] + [m.p[0]], m.c[m.p[0] := n + 255 - used])
  }

  lemma DiedAt(m: Machine, n: nat, used: nat, i: nat)
    requires Shaped(m) && used <= 255 && i < SYMBOLS
    ensures var m' := Died(m, n, used);
      |m'.p| == |m'.c| == SYMBOLS
      && m'.p[i] == m.p[if i < 255 then i + 1 else 0]
      && Key(m', i) == if i < 255 then Key(m, i + 1) else n + 255 - used
  {
    assert i < 255 ==> m.p[i + 1] != m.p[0];
  }

  lemma DiedRises(m: Machine, n: nat, used: nat)
    requires Rising(m) && used <= 255 && Key(m, 255) < n + 255 - used
    ensures Rising(Died(m, n, used))
  {
    var m' := Died(m, n, used);
    DiedAt(m, n, used, 0);
    forall i: nat, j: nat | i < j < SYMBOLS ensures m'.p[i] != m'.p[j] && Key(m', i) < Key(m', j) {
      DiedAt(m, n, used, i);
      DiedAt(m, n, used, j);
      assert Key(m, i + 1) <= Key(m, 255);
    }
  }

  lemma DeathKeepsSymbol(d: seq<Byte>, m: Machine, used: nat, pos: nat, i: nat)
    requires Ok(d, m, used, pos) && used > 0 && Key(m, 1) <= |d| && i < 255
    ensures NextAt(d, m.p[i + 1], Key(m, 1)) == NextAt(d, m.p[i + 1], pos)
  {
    assert Key(m, 0) < Key(m, 1) && Key(m, i + 1) >= Key(m, 1);
    NextAtLater(d, m.p[i + 1], pos, Key(m, 1));
  }

  lemma DeathKeepsOk(d: seq<Byte>, m: Machine, used: nat, pos: nat)
    requires Ok(d, m, used, pos) && used > 0 && Key(m, 1) <= |d| && NextAt(d, m.p[0], Key(m, 1)) == |d|
    ensures Ok(d, Died(m, |d|, used - 1), used - 1, Key(m, 1))
  {
    var m', end := Died(m, |d|, used - 1), Key(m, 1);
    RunIsOneSymbol(d, m, used, pos);
    DiedRises(m, |d|, used - 1);
    forall i | 0 <= i < SYMBOLS
      ensures i < used - 1 ==> Key(m', i) == NextAt(d, m'.p[i], end) < |d|
      ensures i >= used - 1 ==> Key(m', i) == |d| + i - (used - 1) && NextAt(d, m'.p[i], end) == |d|
    {
      DiedAt(m, |d|, used - 1, i);
      if i < 255 { DeathKeepsSymbol(d, m, used, pos, i); }
    }
    DiedAt(m, |d|, used - 1, 0);
  }

  // ---------------------------------------------------------------- a symbol comes back

  /** `k` is the last of the ranks from 1 on whose position is before `next`. */
  ghost predicate IsRankOf(m: Machine, next: nat, k: nat) {
    Shaped(m) && 1 <= k < SYMBOLS && Key(m, k) < next && (k < 255 ==> next < Key(m, k + 1))
  }

  /** The front symbol moves to rank `k`; those it passes close up. */
  function Inserted(m: Machine, k: nat, next: nat): Machine
    requires |m.p| == |m.c| == SYMBOLS && k <= 255
  {
    Machine(m.p[1..k + 1] + [m.p[0]] + m.p[k + 1..], m.c[m.p[0] := next])
  }

  lemma InsertedAt(m: Machine, k: nat, next: nat, i: nat)
    requires Shaped(m) && k < SYMBOLS && i < SYMBOLS
    ensures var m' := Inserted(m, k, next); |m'.p| == |m'.c| == SYMBOLS
    ensures var m' := Inserted(m, k, next);
      m'.p[i] == m.p[if i < k then i + 1 else if i == k then 0 else i]
      && Key(m', i) == if i < k then Key(m, i + 1) else if i == k then next else Key(m, i)
  {
    assert i > k ==> m.p[i] != m.p[0];
    assert i < k ==> m.p[i + 1] != m.p[0];
  }

  lemma InsertedRises(m: Machine, k: nat, next: nat)
    requires Rising(m) && IsRankOf(m, next, k)
    ensures Rising(Inserted(m, k, next))
  {
    var m' := Inserted(m, k, next);
    InsertedAt(m, k, next, 0);
    forall i: nat, j: nat | i < j < SYMBOLS ensures m'.p[i] != m'.p[j] && Key(m', i) < Key(m', j) {
      InsertedAt(m, k, next, i);
      InsertedAt(m, k, next, j);
      if i < k { assert Key(m, i + 1) <= Key(m, k); }
      if j > k { assert Key(m, k + 1) <= Key(m, j); }
      if i < k < j { assert Key(m, i + 1) < Key(m, j); }
    }
  }

  lemma InsertKeepsOk(d: seq<Byte>, m: Machine, used: nat, pos: nat, k: nat)
    requires Ok(d, m, used, pos) && used > 0 && Key(m, 1) <= |d|
    requires NextAt(d, m.p[0], Key(m, 1)) < |d| && IsRankOf(m, NextAt(d, m.p[0], Key(m, 1)), k)
    ensures Ok(d, Inserted(m, k, NextAt(d, m.p[0], Key(m, 1))), used, Key(m, 1))
  {
    var end := Key(m, 1);
    var next := NextAt(d, m.p[0], end);
    var m' := Inserted(m, k, next);
    RunIsOneSymbol(d, m, used, pos);
    InsertedRises(m, k, next);
    assert k < used;
    forall i | 0 <= i < SYMBOLS
      ensures i < used ==> Key(m', i) == NextAt(d, m'.p[i], end) < |d|
      ensures i >= used ==> Key(m', i) == |d| + i - used && NextAt(d, m'.p[i], end) == |d|
    {
      InsertedAt(m, k, next, i);
      var from := if i < k then i + 1 else i;
      if i != k {
        assert Key(m, from) >= Key(m, 1);
        NextAtLater(d, m.p[from], pos, end);
      }
    }
    InsertedAt(m, k, next, 0);
  }

  /** The symbol that comes back lands behind at least the symbol that follows it. */
  lemma SecondComesFirst(d: seq<Byte>, m: Machine, used: nat, pos: nat)
    requires Ok(d, m, used, pos) && used > 0 && Key(m, 1) <= |d| && NextAt(d, m.p[0], Key(m, 1)) < |d|
    ensures Key(m, 1) < NextAt(d, m.p[0], Key(m, 1)) && used > 1
    ensures forall i :: 0 <= i < SYMBOLS ==> Key(m, i) != NextAt(d, m.p[0], Key(m, 1))
  {
    RunIsOneSymbol(d, m, used, pos);
  }

  /** Between two ranks there are at least as many positions, so no coded delta is negative. */
  lemma {:induction false} RankGap(m: Machine, i: nat, j: nat)
    requires Rising(m) && i <= j < SYMBOLS
    ensures Key(m, i) + (j - i) <= Key(m, j)
    decreases j
  {
    if i < j {
      RankGap(m, i, j - 1);
    }
  }

  lemma DeltaIsNatural(m: Machine, next: nat, k: nat)
    requires Rising(m) && IsRankOf(m, next, k)
    ensures Key(m, 1) + k <= next
  {
    RankGap(m, 1, k);
  }

  lemma RankIsUnique(m: Machine, next: nat, j: nat, k: nat)
    requires Rising(m) && IsRankOf(m, next, j) && IsRankOf(m, next, k)
    ensures j == k
  {
  }

  lemma {:induction false} RankFrom(m: Machine, next: nat, j: nat) returns (k: nat)
    requires Rising(m) && 1 <= j < SYMBOLS && Key(m, j) < next
    requires forall i :: 0 <= i < SYMBOLS ==> Key(m, i) != next
    ensures IsRankOf(m, next, k)
    decreases SYMBOLS - j
  {
    k := j;
    if j < 255 && Key(m, j + 1) < next {
      k := RankFrom(m, next, j + 1);
    }
  }

  ghost function RankOf(m: Machine, next: nat): (k: nat)
    requires exists j: nat :: IsRankOf(m, next, j)
    ensures IsRankOf(m, next, k)
  {
    var j: nat :| IsRankOf(m, next, j);
    j
  }

  // ---------------------------------------------------------------- how the decoder finds a rank

  /** The decoder's walk by single steps: its threshold grows by one with every symbol passed. */
  ghost function DecoderWalk(m: Machine, ub: nat, k: nat): (r: nat)
    requires |m.p| == |m.c| == SYMBOLS && 1 <= k < SYMBOLS
    ensures k <= r < SYMBOLS
    decreases SYMBOLS - k, ub, m
  {
    if k < 255 && ub + k >= Key(m, k + 1) then DecoderWalk(m, ub, k + 1) else k
  }

  /** Eight single steps in one: when the farthest may be passed, so may all before it. */
  lemma {:induction false} StepsPass(m: Machine, ub: nat, k: nat, j: nat)
    requires Rising(m) && 1 <= k <= j < SYMBOLS && (j > k ==> ub + j - 1 >= Key(m, j))
    ensures DecoderWalk(m, ub, k) == DecoderWalk(m, ub, j)
    decreases j - k
  {
    if k < j {
      RankGap(m, k + 1, j);
      StepsPass(m, ub, k + 1, j);
    }
  }

  /** The ranks that are fixed points of the decoder's walk are exactly the right one. */
  lemma RankIsFixedPoint(m: Machine, next: nat, k: nat)
    requires Rising(m) && 1 <= k < SYMBOLS && k <= next && Key(m, 1) < next
    requires forall i :: 0 <= i < SYMBOLS ==> Key(m, i) != next
    ensures DecoderWalk(m, next - k, 1) == k <==> IsRankOf(m, next, k)
  {
    var ub := next - k;
    if IsRankOf(m, next, k) {
      StepsPass(m, ub, 1, k);
    } else if DecoderWalk(m, ub, 1) == k {
      StepTaken(m, ub, 1, k);
    }
  }

  lemma {:induction false} StepTaken(m: Machine, ub: nat, j: nat, k: nat)
    requires Shaped(m) && 1 <= j <= k < SYMBOLS && DecoderWalk(m, ub, j) == k
    ensures k > j ==> ub + k - 1 >= Key(m, k)
    ensures k < 255 ==> ub + k < Key(m, k + 1)
    decreases k - j
  {
    if j < 255 && ub + j >= Key(m, j + 1) { StepTaken(m, ub, j + 1, k); }
  }

  /** From the guess one too low, the walk goes to the last rank. */
  lemma LastRankIsReached(m: Machine, next: nat)
    requires Rising(m) && IsRankOf(m, next, 255) && next >= 255
    ensures DecoderWalk(m, next - 254, 1) == 255
  {
    StepsPass(m, next - 254, 1, 255);
  }
}
