/**
 What the sign-adaptive filter of the literal coder does: it rounds its weighted sum, it moves
 towards every correction it missed, and on a steady signal it stops missing.
 */
module LiteralLearning {
  import opened Words
  import opened LiteralPredictor

  /** The weights of one phase against the corrections of another. */
  function Weighted(w: Phase, h: Phase): int {
    w.w0 * h.h0 + w.w1 * h.h1 + w.w2 * h.h2 + w.w3 * h.h3
  }

  function Energy(h: Phase): int {
    h.h0 * h.h0 + h.h1 * h.h1 + h.h2 * h.h2 + h.h3 * h.h3
  }

  /** The tap is the weighted sum in 1024ths, rounded to the nearest. */
  lemma TapRounds(p: Phase)
    ensures -512 <= Weighted(p, p) - 1024 * p.Tap() < 512
  {
  }

  /** What a residual says: the correction that the tap missed, as eight bits keep it. */
  lemma ResidualIsMissing(m: Model, c: Byte, back: Byte)
    requires m.Valid() && m.order < WIDE
    ensures Half(m.Residual(c, back)) == S8(S8(c - back) - m.phases[0].Tap())
  {
    var d, t := S8(c - back), m.phases[0].Tap();
    HalfUndoesCode(U8(d - S8(t)));
    var q := Keeps(t);
    assert d - S8(t) == d - t + 256 * -q;
    Forgets(d - t, -q);
    SameRegister(d - S8(t));
  }

  lemma SameRegister(x: int)
    ensures S8(U8(x)) == S8(x)
  {
    var q := x / 256;
    assert U8(x) == x + 256 * -q;
    Forgets(x, -q);
  }

  /** The smaller what was missed, the smaller the byte that is sent. */
  lemma ResidualIsSmall(u: Byte)
    ensures var r := S8(u); ResidualCode(u) == if r >= 0 then 2 * r else -2 * r - 1
  {
  }

  /** On the corrections it had, the filter moves by their energy to the side of what it missed, and not at all if nothing was. */
  lemma AdaptedLearns(p: Phase, resid: int, d: int)
    ensures var q := p.Adapted(resid, d);
      && (q.h0, q.h1, q.h2, q.h3) == (d, p.h0, p.h1, p.h2)
      && Weighted(q, p) - Weighted(p, p) == if resid == 0 then 0 else if resid > 0 then Energy(p) else 0 - Energy(p)
  {
    var q := p.Adapted(resid, d);
    var g := if resid == 0 then 0 else if resid > 0 then 1 else -1;
    Grown(p.w0, p.h0, g);
    Grown(p.w1, p.h1, g);
    Grown(p.w2, p.h2, g);
    Grown(p.w3, p.h3, g);
  }

  lemma Grown(w: int, h: int, g: int)
    ensures (w + g * h) * h == w * h + g * (h * h)
  {
  }

  /** So its next answer to the same corrections is on the side of what it missed. */
  lemma AnswerFollows(p: Phase, resid: int, d: int)
    ensures var then_ := (Weighted(p.Adapted(resid, d), p) + 0x200) / 1024;
      (resid > 0 ==> then_ >= p.Tap()) && (resid < 0 ==> then_ <= p.Tap()) && (resid == 0 ==> then_ == p.Tap())
  {
    AdaptedLearns(p, resid, d);
    assert Energy(p) >= 0 by {
      Square(p.h0);
      Square(p.h1);
      Square(p.h2);
      Square(p.h3);
    }
  }

  lemma Square(x: int)
    ensures x * x >= 0
  {
  }

  /** The next phase is the first one adapted to what it missed, and comes last. */
  lemma NextIsAdapted(m: Model, c: Byte, back: Byte)
    requires m.Valid() && m.order < WIDE
    ensures var d := S8(c - back);
      m.Next(c, back).phases == m.phases[1..] + [m.phases[0].Adapted(S8(d - m.phases[0].Tap()), d)]
  {
    ResidualIsMissing(m, c, back);
  }

  // ---------------------------------------------------------------- a steady signal

  predicate Steady(p: Phase, d: int) {
    p.h0 == p.h1 == p.h2 == p.h3 == d
  }

  /** How far the weighted sum is from where it should be. */
  function Off(p: Phase, d: int): int {
    1024 * d - Weighted(p, p)
  }

  /** The same correction once more. */
  function Again(p: Phase, d: int): Phase {
    p.Adapted(S8(d - p.Tap()), d)
  }

  function AgainTimes(p: Phase, d: int, n: nat): Phase
    decreases n
  {
    if n == 0 then p else AgainTimes(Again(p, d), d, n - 1)
  }

  lemma SteadyStep(p: Phase, d: int)
    requires Steady(p, d) && -16 <= d <= 16 && -0x8000 <= Off(p, d) <= 0x8000
    ensures var q := Again(p, d);
      && Steady(q, d)
      && (if -512 < Off(p, d) <= 512 then p.Tap() == d && q == p
          else Off(q, d) == if Off(p, d) > 0 then Off(p, d) - 4 * (d * d) else Off(p, d) + 4 * (d * d))
  {
    TapRounds(p);
    var t := p.Tap();
    assert S8(d - t) == d - t;
    AdaptedLearns(p, d - t, d);
    assert Weighted(Again(p, d), p) == Weighted(Again(p, d), Again(p, d));
  }

  predicate Within(off: int, step: nat, n: nat) {
    -512 - step * n < off <= step * n + 512
  }

  lemma WithinLess(off: int, step: nat, n: nat)
    requires n > 0 && step <= 1024 && Within(off, step, n)
    ensures -512 < off <= 512 ==> Within(off, step, n - 1)
    ensures off > 512 ==> Within(off - step, step, n - 1)
    ensures off <= -512 ==> Within(off + step, step, n - 1)
  {
    assert step * n == step * (n - 1) + step && step * (n - 1) >= 0;
  }

  /** Of a steady correction of up to 16 the filter misses nothing any more after some times, the fewer the larger it is, and ever after. */
  lemma {:induction false} SteadyIsLearnt(p: Phase, d: int, n: nat)
    requires Steady(p, d) && Modest(d) && -0x8000 <= Off(p, d) <= 0x8000 && Within(Off(p, d), StepOf(d), n)
    ensures AgainTimes(p, d, n).Tap() == d
    decreases n
  {
    SteadyStep(p, d);
    if n > 0 {
      WithinLess(Off(p, d), StepOf(d), n);
      SteadyIsLearnt(Again(p, d), d, n - 1);
    } else {
      TapRounds(p);
    }
  }

  predicate Modest(d: int) {
    -16 <= d <= 16 && d != 0
  }

  function StepOf(d: int): (s: nat)
    ensures Modest(d) ==> 4 <= s <= 1024
  {
    Square(d);
    4 * (d * d)
  }

  /** From rest, four times for the corrections to be known, and then 256 at the most. */
  lemma SteadyFromRest(d: int, n: nat)
    requires Modest(d) && n >= 256
    ensures AgainTimes(AgainTimes(QUIET, d, 4), d, n).Tap() == d
  {
    FourTimes(d, AgainTimes(QUIET, d, 4));
    ManyTimes(StepOf(d), n, d);
    SteadyIsLearnt(AgainTimes(QUIET, d, 4), d, n);
  }

  lemma ManyTimes(step: nat, n: nat, d: int)
    requires n >= 256 && step == 4 * (d * d) && Modest(d)
    ensures forall off | -1024 * 16 <= off <= 1024 * 16 && (if d < 0 then 1024 * d <= off <= 0 else 0 <= off <= 1024 * d) :: Within(off, step, n)
  {
    var a := if d < 0 then 0 - d else d;
    assert d * d >= a;
    assert step * n >= step * 256 by { assert step * (n - 256) >= 0; }
  }

  lemma FourTimes(d: int, p: Phase)
    requires Modest(d) && p == AgainTimes(QUIET, d, 4)
    ensures Steady(p, d) && if d < 0 then 1024 * d <= Off(p, d) <= 0 else 0 <= Off(p, d) <= 1024 * d
  {
    var a := if d < 0 then 0 - d else d;
    FirstTime(QUIET, Phase(0, 0, 0, 0, d, 0, 0, 0), d);
    SecondTime(Phase(0, 0, 0, 0, d, 0, 0, 0), d, a);
    TwoMore(d, a);
    SixTimes(a, d);
    assert AgainTimes(QUIET, d, 4) == Again(Again(Again(Again(QUIET, d), d), d), d);
  }

  lemma {:induction false} FirstTime(p: Phase, q: Phase, d: int)
    requires Modest(d) && p == QUIET && q == Phase(0, 0, 0, 0, d, 0, 0, 0)
    ensures Again(p, d) == q
  {
    NothingWeighs(p.w0, p.h0);
    NothingWeighs(p.w1, p.h1);
    NothingWeighs(p.w2, p.h2);
    NothingWeighs(p.w3, p.h3);
    AgainIs(p, d, 0, q);
  }

  lemma NothingWeighs(w: int, h: int)
    requires w == 0
    ensures w * h == 0
  {
  }

  lemma {:induction false} SecondTime(p: Phase, d: int, a: int)
    requires Modest(d) && a == (if d < 0 then 0 - d else d) && p == Phase(0, 0, 0, 0, d, 0, 0, 0)
    ensures Again(p, d) == Phase(a, 0, 0, 0, d, d, 0, 0)
  {
    AgainIs(p, d, 0, Phase(a, 0, 0, 0, d, d, 0, 0));
  }

  lemma TwoMore(d: int, a: int)
    requires Modest(d) && a == if d < 0 then 0 - d else d
    ensures Again(Again(Phase(a, 0, 0, 0, d, d, 0, 0), d), d) == Phase(3 * a, 2 * a, a, 0, d, d, d, d)
  {
    var ad := a * d;
    Products(a, d);
    AgainIs(Phase(a, 0, 0, 0, d, d, 0, 0), d, ad, Phase(2 * a, a, 0, 0, d, d, d, 0));
    ThreeTimes(a, d);
    AgainIs(Phase(2 * a, a, 0, 0, d, d, d, 0), d, 3 * ad, Phase(3 * a, 2 * a, a, 0, d, d, d, d));
  }

  lemma Products(a: int, d: int)
    requires Modest(d) && a == if d < 0 then 0 - d else d
    ensures -256 <= a * d <= 256 && (a * d < 0 <==> d < 0) && (a == 1 ==> -1 <= a * d <= 1)
  {
  }

  lemma ThreeTimes(a: int, d: int)
    ensures Weighted(Phase(2 * a, a, 0, 0, d, d, d, 0), Phase(2 * a, a, 0, 0, d, d, d, 0)) == 3 * (a * d)
  {
    assert 2 * a * d + a * d == 3 * (a * d);
  }

  lemma SixTimes(a: int, d: int)
    requires Modest(d) && a == if d < 0 then 0 - d else d
    ensures var q := Phase(3 * a, 2 * a, a, 0, d, d, d, d);
      if d < 0 then 1024 * d <= Off(q, d) <= 0 else 0 <= Off(q, d) <= 1024 * d
  {
    assert 3 * a * d + 2 * a * d + a * d == 6 * (a * d);
    assert a * d == if d < 0 then 0 - d * d else d * d;
    assert d * d <= 16 * a;
  }

  /** While the tap has not got there, the weights of what was seen grow. */
  lemma AgainIs(p: Phase, d: int, sum: int, q: Phase)
    requires Modest(d) && sum == Weighted(p, p) && -768 <= sum <= 768
    requires (sum < 0 ==> d < 0) && (sum > 0 ==> d > 0) && (-1 <= d <= 1 ==> -512 < sum < 512)
    requires q == if d < 0 then Phase(p.w0 - p.h0, p.w1 - p.h1, p.w2 - p.h2, p.w3 - p.h3, d, p.h0, p.h1, p.h2)
      else Phase(p.w0 + p.h0, p.w1 + p.h1, p.w2 + p.h2, p.w3 + p.h3, d, p.h0, p.h1, p.h2)
    ensures Again(p, d) == q
  {
    TapRounds(p);
    var t := p.Tap();
    assert S8(d - t) == d - t;
  }
}
