/**
 The short-period predictor behind the literals of the `-cD` codec: the byte `order` back,
 corrected for orders below 5 by a four-tap sign-adaptive filter per phase of the period.
 The encoder starts every model run at phase 0 and the decoder wherever its phase counter
 happens to stand, so the two keep different arrays and agree only as seen from the counter.
 */
module LiteralPredictor {
  import opened Words
  import Arith

  const WIDE := 5

  /** The signed value an 8-bit register keeps. */
  function S8(x: int): (y: int)
    ensures -128 <= y < 128
  {
    (x + 128) % 256 - 128
  }

  function U8(x: int): Byte {
    x % 256
  }

  /** The residual code: twice a value from 0 up, twice its distance below -1 plus one under it. */
  function ResidualCode(u: Byte): Byte {
    if S8(u) >= 0 then S8(u) * 2 else (-1 - S8(u)) * 2 + 1
  }

  function Half(v: Byte): (r: int)
    ensures -128 <= r < 128
  {
    if v % 2 == 0 then v / 2 else -1 - v / 2
  }

  /** Registers forget multiples of 256. */
  lemma Forgets(x: int, q: int)
    ensures S8(x + 256 * q) == S8(x) && U8(x + 256 * q) == U8(x)
  {
    assert x + 256 * q + 128 == (x + 128) + 256 * q;
  }

  lemma Keeps(x: int) returns (q: int)
    ensures S8(x) == x + 256 * q
  {
    q := -((x + 128) / 256);
  }

  lemma HalfUndoesCode(u: Byte)
    ensures Half(ResidualCode(u)) == S8(u)
  {
    var r := S8(u);
    if r >= 0 {
      assert r * 2 % 2 == 0 && r * 2 / 2 == r;
    } else {
      var k := -1 - r;
      assert (k * 2 + 1) % 2 == 1 && (k * 2 + 1) / 2 == k;
    }
  }

  // ---- one phase: four weights, then the last four corrections, latest first

  datatype Phase = Phase(w0: int, w1: int, w2: int, w3: int, h0: int, h1: int, h2: int, h3: int) {
    function Tap(): int {
      (w0 * h0 + 0x200 + w1 * h1 + w2 * h2 + w3 * h3) / 1024
    }

    function Adapted(resid: int, d: int): Phase {
      Phase(w0 + Pull(resid, h0), w1 + Pull(resid, h1), w2 + Pull(resid, h2), w3 + Pull(resid, h3), d, h0, h1, h2)
    }

    /** After a match the corrections are forgotten and the weights kept. */
    function Rested(): Phase {
      Phase(w0, w1, w2, w3, 0, 0, 0, 0)
    }
  }

  /** `(h ^ sign) - sign`: the weight follows the sign of the residual. */
  function Pull(resid: int, h: int): int {
    if resid == 0 then 0 else if resid < 0 then -h else h
  }

  const QUIET := Phase(0, 0, 0, 0, 0, 0, 0, 0)

  // ---- the predictor as both sides see it

  /** The period, and the phases of a narrow one in the order in which they come next. */
  datatype Model = Model(order: nat, phases: seq<Phase>) {
    predicate Valid() {
      order > 0 && |phases| == if order < WIDE then order else 0
    }

    /** What predicting symbol `c` over the byte `back` sends. */
    function Residual(c: Byte, back: Byte): Byte
      requires Valid()
    {
      if order < WIDE then ResidualCode(U8(S8(c - back) - S8(phases[0].Tap())))
      else ResidualCode(U8(c - back))
    }

    /** The model after symbol `c` over `back`: its phase is adapted and becomes the last. */
    function Next(c: Byte, back: Byte): (m: Model)
      requires Valid()
      ensures m.Valid()
    {
      if order < WIDE then
        Model(order, phases[1..] + [phases[0].Adapted(Half(Residual(c, back)), S8(c - back))])
      else this
    }

    /** The model after a match of `n` bytes. */
    function Skipped(n: nat): (m: Model)
      requires Valid()
      ensures m.Valid()
    {
      if order < WIDE then
        Model(order, seq(order, i requires 0 <= i < order => phases[(i + n) % order].Rested()))
      else this
    }
  }

  function NewModel(order: nat): (m: Model)
    requires order > 0
    ensures m.Valid()
  {
    Model(order, if order < WIDE then seq(order, i => QUIET) else [])
  }

  /** Adding the tap again gives the correction back. */
  lemma TapComesBack(t: int, d: int)
    requires -128 <= d < 128
    ensures S8(t + S8(U8(d - t))) == d
  {
    var u := U8(d - t);
    var q := (d - t) / 256;
    assert u == d - t - 256 * q;
    var a := Keeps(u);
    assert t + S8(u) == d + 256 * (a - q);
    Forgets(d, a - q);
  }

  /** And the correction on the byte gives the symbol back. */
  lemma SymbolComesBack(c: Byte, back: Byte)
    ensures U8(back + S8(c - back)) == c
  {
    var b := Keeps(c - back);
    assert back + S8(c - back) == c + 256 * b;
    Forgets(c, b);
  }

  lemma CodeUndoesHalf(v: Byte)
    ensures ResidualCode(U8(Half(v))) == v
  {
    assert v == v / 2 * 2 + v % 2;
    assert S8(U8(Half(v))) == Half(v);
  }

  lemma NarrowIsOneToOne(t: int, x: int, y: int)
    requires -128 <= x < 128 && -128 <= y < 128
    requires ResidualCode(U8(x - t)) == ResidualCode(U8(y - t))
    ensures x == y
  {
    HalfUndoesCode(U8(x - t));
    HalfUndoesCode(U8(y - t));
    TapComesBack(t, x);
    TapComesBack(t, y);
  }

  lemma WideIsOneToOne(c: Byte, d: Byte, back: Byte)
    requires ResidualCode(U8(c - back)) == ResidualCode(U8(d - back))
    ensures S8(c - back) == S8(d - back)
  {
    HalfUndoesCode(U8(c - back));
    HalfUndoesCode(U8(d - back));
    WideResidual(c, back);
    WideResidual(d, back);
  }

  /** Whatever the tap, a residual stands for one symbol. */
  lemma ResidualIsOneToOne(m: Model, c: Byte, d: Byte, back: Byte)
    requires m.Valid() && m.Residual(c, back) == m.Residual(d, back)
    ensures c == d
  {
    if m.order < WIDE {
      NarrowIsOneToOne(S8(m.phases[0].Tap()), S8(c - back), S8(d - back));
    } else {
      WideIsOneToOne(c, d, back);
    }
    SymbolComesBack(c, back);
    SymbolComesBack(d, back);
  }

  lemma WideResidual(c: Byte, back: Byte)
    ensures S8(U8(c - back)) == S8(c - back)
  {
    var q := (c - back) / 256;
    assert U8(c - back) == c - back + 256 * -q;
    Forgets(c - back, -q);
  }

  /** The decoder's arithmetic: the symbol it makes of `v` is the one that `v` was sent for. */
  lemma DecodedNarrow(t: int, v: Byte, back: Byte)
    ensures var d := S8(t + Half(v));
            S8(U8(back + d) - back) == d && ResidualCode(U8(d - t)) == v
  {
    CodeUndoesHalf(v);
    var d := S8(t + Half(v));
    Differs(back, d);
    var q := Keeps(t + Half(v));
    assert d - t == Half(v) + 256 * q;
    Forgets(Half(v), q);
  }

  lemma ResidualWhenDecoded(m: Model, t: int, v: Byte, d: int, back: Byte)
    requires m.Valid() && m.order < WIDE && t == S8(m.phases[0].Tap())
    requires S8(U8(back + d) - back) == d && ResidualCode(U8(d - t)) == v
    ensures m.Residual(U8(back + d), back) == v
    ensures m.Next(U8(back + d), back).phases == m.phases[1..] + [m.phases[0].Adapted(Half(v), d)]
  {
    assert m.Residual(U8(back + d), back) == ResidualCode(U8(d - t));
  }

  lemma DecodedWide(v: Byte, back: Byte)
    ensures ResidualCode(U8(U8(back + Half(v)) - back)) == v
  {
    CodeUndoesHalf(v);
    var q := (back + Half(v)) / 256;
    assert U8(back + Half(v)) - back == Half(v) + 256 * -q;
    Forgets(Half(v), -q);
  }

  lemma Differs(back: Byte, d: int)
    requires -128 <= d < 128
    ensures S8(U8(back + d) - back) == d
  {
    var q := (back + d) / 256;
    assert U8(back + d) - back == d + 256 * -q;
    Forgets(d, -q);
  }

  // ---- the registers

  predicate Within(x: int, n: nat) {
    -128 * n <= x <= 128 * n
  }

  /** A phase after at most `n` symbols. */
  predicate PhaseIsSmall(p: Phase, n: nat) {
    && Within(p.w0, n) && Within(p.w1, n) && Within(p.w2, n) && Within(p.w3, n)
    && Within(p.h0, 1) && Within(p.h1, 1) && Within(p.h2, 1) && Within(p.h3, 1)
  }

  predicate IsSmall(m: Model, n: nat) {
    forall i | 0 <= i < |m.phases| :: PhaseIsSmall(m.phases[i], n)
  }

  lemma NextIsSmall(m: Model, c: Byte, back: Byte, n: nat)
    requires m.Valid() && IsSmall(m, n)
    ensures IsSmall(m.Next(c, back), n + 1)
  {
    var next := m.Next(c, back);
    forall i | 0 <= i < |next.phases| ensures PhaseIsSmall(next.phases[i], n + 1) {
      assert i < |m.phases| - 1 ==> next.phases[i] == m.phases[i + 1];
    }
  }

  lemma SkippedIsSmall(m: Model, skip: nat, n: nat)
    requires m.Valid() && IsSmall(m, n)
    ensures IsSmall(m.Skipped(skip), n)
  {
    var rested := m.Skipped(skip);
    forall i | 0 <= i < |rested.phases| ensures PhaseIsSmall(rested.phases[i], n) {
      assert rested.phases[i] == m.phases[(i + skip) % m.order].Rested();
    }
  }

  predicate Is32(x: int) {
    -0x8000_0000 <= x < 0x8000_0000
  }

  /** Behind 32 767 symbols or fewer, every product and every partial sum of a tap keeps to 32 bits. */
  predicate TapIs32(p: Phase) {
    && Is32(p.w0) && Is32(p.w1) && Is32(p.w2) && Is32(p.w3)
    && Is32(p.w0 * p.h0) && Is32(p.w1 * p.h1) && Is32(p.w2 * p.h2) && Is32(p.w3 * p.h3)
    && Is32(p.w0 * p.h0 + 0x200) && Is32(p.w0 * p.h0 + 0x200 + p.w1 * p.h1)
    && Is32(p.w0 * p.h0 + 0x200 + p.w1 * p.h1 + p.w2 * p.h2)
    && Is32(p.w0 * p.h0 + 0x200 + p.w1 * p.h1 + p.w2 * p.h2 + p.w3 * p.h3)
  }

  lemma ProductIsSmall(w: int, h: int, n: nat)
    requires Within(w, n) && Within(h, 1)
    ensures -0x4000 * n <= w * h <= 0x4000 * n
  {
    var a := 128 * n;
    assert (a - w) * (128 + h) >= 0 && (a + w) * (128 - h) >= 0;
    assert (a - w) * (128 - h) >= 0 && (a + w) * (128 + h) >= 0;
  }

  lemma TapFits(p: Phase, n: nat)
    requires PhaseIsSmall(p, n) && n <= 0x7fff
    ensures TapIs32(p)
  {
    ProductIsSmall(p.w0, p.h0, n);
    ProductIsSmall(p.w1, p.h1, n);
    ProductIsSmall(p.w2, p.h2, n);
    ProductIsSmall(p.w3, p.h3, n);
  }

  // ---- the arrays

  /** `i` places after place `s`, on a ring of `k`. */
  function Round(k: nat, s: nat, i: nat): (r: nat)
    requires s < k && i < k
    ensures r < k && r == (s + i) % k
  {
    assert (s + i) % k == if s + i < k then s + i else s + i - k by {
      if s + i >= k {
        assert s + i == (s + i - k) + k;
      }
    }
    if s + i < k then s + i else s + i - k
  }

  /** The model that `ring` is, seen from place `turn`. */
  function Seen(order: nat, turn: nat, ring: seq<Phase>): (m: Model)
    requires turn < order && |ring| == 4
    ensures m.Valid()
  {
    Model(order, if order >= WIDE then [] else seq(order, i requires 0 <= i < order => ring[Round(order, turn, i)]))
  }

  lemma SeenAfterStep(order: nat, turn: nat, ring: seq<Phase>, p: Phase)
    requires turn < order < WIDE && |ring| == 4
    ensures var next := if turn + 1 < order then turn + 1 else 0;
            Seen(order, next, ring[turn := p]).phases == Seen(order, turn, ring).phases[1..] + [p]
    ensures Seen(order, turn, ring).phases[0] == ring[turn]
  {
    assert Round(order, turn, 0) == turn;
    var next := if turn + 1 < order then turn + 1 else 0;
    var was, now := Seen(order, turn, ring).phases, Seen(order, next, ring[turn := p]).phases;
    forall i | 0 <= i < order
      ensures now[i] == (was[1..] + [p])[i]
    {
      if i < order - 1 {
        assert Round(order, next, i) == Round(order, turn, i + 1) != turn;
      } else {
        assert Round(order, next, i) == turn;
      }
    }
  }

  lemma SameRemainder(stage: nat, turn: nat, n: nat, k: nat)
    requires k > 0 && stage <= k && turn == if stage < k then stage else 0
    ensures (stage + n) % k == (turn + n) % k
  {
    if stage == k {
      SameMod(k + n, n, 1, k);
    }
  }

  lemma RoundOfSum(s: nat, n: nat, i: nat, k: nat)
    requires s < k && i < k
    ensures Round(k, (s + n) % k, i) == Round(k, s, (i + n) % k)
  {
    var a, b := (s + n) / k, (i + n) / k;
    assert s + n == a * k + (s + n) % k && i + n == b * k + (i + n) % k;
    SameMod((s + n) % k + i, s + (i + n) % k, b - a, k);
  }

  /** However the places are numbered, a match turns the ring by its length. */
  lemma SeenAfterSkip(order: nat, stage: nat, turn: nat, n: nat, ring: seq<Phase>, rested: seq<Phase>)
    requires 0 < order && stage <= order && turn == (if stage < order then stage else 0)
    requires |ring| == 4 && |rested| == 4
    requires order < WIDE ==> forall z | 0 <= z < order :: rested[z] == ring[z].Rested()
    ensures (stage + n) % order < order
    ensures Seen(order, (stage + n) % order, rested) == Seen(order, turn, ring).Skipped(n)
  {
    SameRemainder(stage, turn, n, order);
    if order < WIDE {
      var was, now := Seen(order, turn, ring).phases, Seen(order, (turn + n) % order, rested).phases;
      forall i | 0 <= i < order
        ensures now[i] == was[(i + n) % order].Rested()
      {
        RoundOfSum(turn, n, i, order);
      }
      assert now == Seen(order, turn, ring).Skipped(n).phases;
    }
  }

  lemma SameMod(x: nat, y: nat, q: int, k: nat)
    requires k > 0 && x == y + q * k
    ensures x % k == y % k
    decreases q < 0
  {
    if q >= 0 {
      assert y == y / k * k + y % k;
      Arith.Distributes(y / k, q, k);
      Arith.DivUnique(x, y / k + q, k, y % k);
    } else {
      assert q * k == -(-q * k);
      SameMod(y, x, -q, k);
    }
  }

  class Predictor {
    const taps: array<int>
    var stage: nat
    var order: nat

    ghost predicate Shaped()
      reads this
    {
      taps.Length == 32
    }

    constructor ()
      ensures Shaped() && fresh(taps) && order == 0 && stage == 0
    {
      taps := new int[32](i => 0);
      stage, order := 0, 0;
    }

    /** The phase in turn: the counter, or 0 when it has run past the period. */
    function Turn(): nat
      reads this
    {
      if stage < order then stage else 0
    }

    function PhaseAt(s: nat): Phase
      requires Shaped() && s < 4
      reads this, taps
    {
      var i := 8 * s;
      Phase(taps[i], taps[i + 1], taps[i + 2], taps[i + 3], taps[i + 4], taps[i + 5], taps[i + 6], taps[i + 7])
    }

    function Ring(): (r: seq<Phase>)
      requires Shaped()
      reads this, taps
      ensures |r| == 4
    {
      [PhaseAt(0), PhaseAt(1), PhaseAt(2), PhaseAt(3)]
    }

    /** The model as seen from the counter. */
    function View(): (m: Model)
      requires Shaped() && order > 0
      reads this, taps
      ensures m.Valid()
    {
      Seen(order, Turn(), Ring())
    }

    method Clear(k: nat)
      requires Shaped() && k > 0
      modifies this`order, taps
      ensures order == k && View() == NewModel(k)
    {
      for i := 0 to 32
        invariant forall j | 0 <= j < i :: taps[j] == 0
      {
        taps[i] := 0;
      }
      order := k;
      assert forall i | 0 <= i < |View().phases| :: View().phases[i] == QUIET;
      assert View().phases == NewModel(k).phases;
    }

    /** `PRED_START`: the encoder counts phases from 0. */
    method OpenForEncoder(k: nat)
      requires Shaped() && k > 0
      modifies this, taps
      ensures order == k && View() == NewModel(k)
    {
      stage := 0;
      Clear(k);
    }

    /** A new model run at the decoder, whose counter stays where it was. */
    method OpenForDecoder(k: nat)
      requires Shaped() && k > 0
      modifies this, taps
      ensures order == k && View() == NewModel(k) && stage == old(stage)
    {
      Clear(k);
    }

    method PutPhase(s: nat, p: Phase)
      requires Shaped() && s < 4
      modifies taps
      ensures PhaseAt(s) == p
      ensures forall z: nat | z < 4 && z != s :: PhaseAt(z) == old(PhaseAt(z))
    {
      var i := 8 * s;
      taps[i], taps[i + 1], taps[i + 2], taps[i + 3] := p.w0, p.w1, p.w2, p.w3;
      taps[i + 4], taps[i + 5], taps[i + 6], taps[i + 7] := p.h0, p.h1, p.h2, p.h3;
    }

    /** Adapting the phase in turn and counting on is the model's next state. */
    method Step(resid: int, d: int)
      requires Shaped() && 0 < order < WIDE
      modifies this`stage, taps
      ensures View().phases == old(View().phases[1..] + [View().phases[0].Adapted(resid, d)])
      ensures 0 < stage <= order
    {
      var s := Turn();
      SeenAfterStep(order, s, Ring(), PhaseAt(s).Adapted(resid, d));
      ghost var ring := Ring();
      PutPhase(s, PhaseAt(s).Adapted(resid, d));
      assert Ring() == ring[s := PhaseAt(s)];
      stage := s + 1;
    }

    /** `PRED_EMIT`: the residual of symbol `c`. */
    method Encode(c: Byte, back: Byte) returns (v: Byte)
      requires Shaped() && order > 0
      modifies this`stage, taps
      ensures v == old(View()).Residual(c, back)
      ensures View() == old(View()).Next(c, back)
      ensures stage <= order
    {
      if order < WIDE {
        var s := Turn();
        var d := S8(c - back);
        var t := S8(PhaseAt(s).Tap());
        assert View().phases[0] == PhaseAt(s);
        v := ResidualCode(U8(d - t));
        Step(Half(v), d);
      } else {
        v := ResidualCode(U8(c - back));
        stage := Turn() + 1;
      }
    }

    /** A residual at the decoder: the symbol it gives is the one it was sent for. */
    method Decode(v: Byte, back: Byte) returns (c: Byte)
      requires Shaped() && order > 0
      modifies this`stage, taps
      ensures v == old(View()).Residual(c, back)
      ensures View() == old(View()).Next(c, back)
      ensures stage <= order
    {
      if order < WIDE {
        var s := Turn();
        var t := S8(PhaseAt(s).Tap());
        assert View().phases[0] == PhaseAt(s);
        var d := S8(t + Half(v));
        c := U8(back + d);
        DecodedNarrow(t, v, back);
        ResidualWhenDecoded(View(), t, v, d, back);
        Step(Half(v), d);
      } else {
        DecodedWide(v, back);
        c := U8(back + Half(v));
        stage := Turn() + 1;
      }
    }

    method RestAll()
      requires Shaped() && order < WIDE
      modifies taps
      ensures forall z: nat | z < order :: Ring()[z] == old(Ring())[z].Rested()
    {
      for s := 0 to order
        invariant forall z: nat | z < s :: Ring()[z] == old(Ring())[z].Rested()
        invariant forall z: nat | s <= z < 4 :: Ring()[z] == old(Ring())[z]
      {
        ghost var ring := Ring();
        PutPhase(s, PhaseAt(s).Rested());
        assert Ring() == ring[s := PhaseAt(s)];
      }
    }

    /** A match of `n` bytes: the counter moves on by its length, whatever phase it stood at. */
    method Skip(n: nat)
      requires Shaped() && stage <= order
      modifies this`stage, taps
      ensures order > 0 ==> View() == old(View()).Skipped(n)
      ensures stage <= order
    {
      if order != 0 {
        ghost var turn, ring, was, model := Turn(), Ring(), stage, View();
        stage := (stage + n) % order;
        if order < WIDE {
          RestAll();
        }
        assert View() == model.Skipped(n) by {
          SeenAfterSkip(order, was, turn, n, ring, Ring());
        }
      }
    }
  }
}
