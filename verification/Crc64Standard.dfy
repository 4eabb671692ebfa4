/**
 What the checksum is, apart from any register: the remainder of the message by the polynomial of
 Standard ECMA-182, Annex B, with the first 64 bits and the result complemented and every byte's
 lowest bit first.
 */
module Crc64Standard {
  import opened Words
  import opened IntCoding
  import opened Crc64Math

  /** A polynomial over two elements: the exponents of its terms. */
  type Poly = set<nat>

  /** The terms of the standard's generator. */
  predicate IsTerm(e: nat) {
    || e == 64 || e == 62 || e == 57 || e == 55 || e == 54 || e == 53 || e == 52 || e == 47 || e == 46 || e == 45 || e == 40 || e == 39
    || e == 38 || e == 37 || e == 35 || e == 33 || e == 32 || e == 31 || e == 29 || e == 27 || e == 24 || e == 23 || e == 22 || e == 21
    || e == 19 || e == 17 || e == 13 || e == 12 || e == 10 || e == 9 || e == 7 || e == 4 || e == 1 || e == 0
  }

  const GENERATOR: Poly := set e: nat | e <= 64 && IsTerm(e)

  function Plus(a: Poly, b: Poly): Poly {
    (a - b) + (b - a)
  }

  function TimesX(a: Poly): Poly {
    set i: nat | i in a :: i + 1
  }

  /** Dividing a bit string, highest exponent first, by the generator: one more bit comes down. */
  function BroughtDown(r: Poly, bit: bool): Poly {
    var longer := if bit then Plus(TimesX(r), {0}) else TimesX(r);
    if 64 in longer then Plus(longer, GENERATOR) else longer
  }

  function Remainder(bits: seq<bool>): Poly {
    if bits == [] then {} else BroughtDown(Remainder(bits[..|bits| - 1]), bits[|bits| - 1])
  }

  /** The bits of a message, every byte's lowest first. */
  function BitsOfMessage(s: seq<Byte>): (b: seq<bool>)
    ensures |b| == 8 * |s|
  {
    if s == [] then [] else LowFirst(s[0], 8) + BitsOfMessage(s[1..])
  }

  function FirstComplemented(bits: seq<bool>): (r: seq<bool>)
    requires |bits| >= 64
    ensures |r| == |bits|
  {
    seq(|bits|, i requires 0 <= i < |bits| => if i < 64 then !bits[i] else bits[i])
  }

  /** The register with the same terms: the highest in the lowest bit. */
  predicate Holds(c: Word, p: Poly) {
    (forall i | i in p :: i < 64) && forall i: nat | i < 64 :: c[63 - i] <==> i in p
  }

  // ---------------------------------------------------------------- the polynomial

  lemma {:induction false} LowOfPair(h: nat, b: nat, k: nat, n: nat)
    requires b < Pow2(k)
    ensures LowFirst(h * Pow2(k) + b, k + n) == LowFirst(b, k) + LowFirst(h, n)
    decreases k
  {
    if k == 0 {
      assert LowFirst(b, 0) + LowFirst(h, n) == LowFirst(h, n);
    } else {
      Halved(h, b, Pow2(k - 1));
      LowOfPair(h, b / 2, k - 1, n);
      Cat([b % 2 == 1], LowFirst(b / 2, k - 1), LowFirst(h, n));
    }
  }

  lemma Halved(h: nat, b: nat, p: nat)
    requires b < 2 * p
    ensures (h * (2 * p) + b) / 2 == h * p + b / 2 && (h * (2 * p) + b) % 2 == b % 2 && b / 2 < p
  {
    assert h * (2 * p) == 2 * (h * p);
  }

  lemma PowerOfByte()
    ensures Pow2(8) == 0x100
  {
  }

  lemma ByteAndRest(h: nat, b: nat, n: nat)
    requires b < 0x100
    ensures LowFirst(h * 0x100 + b, 8 + n) == LowFirst(b, 8) + LowFirst(h, n)
  {
    PowerOfByte();
    LowOfPair(h, b, 8, n);
  }

  /** The polynomial's bytes, the lowest first. */
  const POLY_BYTES: seq<Byte> := [0x42, 0x0f, 0x87, 0xd7, 0x95, 0x57, 0x6c, 0xc9]

  function BytesValue(bytes: seq<Byte>): nat {
    if bytes == [] then 0 else BytesValue(bytes[1..]) * 0x100 + bytes[0]
  }

  /** Bytes as bits, the first byte lowest. */
  function Joined(bytes: seq<Byte>): (b: seq<bool>)
    ensures |b| == 8 * |bytes|
  {
    if bytes == [] then [] else LowFirst(bytes[0], 8) + Joined(bytes[1..])
  }

  lemma {:induction false} JoinedIs(bytes: seq<Byte>)
    ensures Joined(bytes) == LowFirst(BytesValue(bytes), 8 * |bytes|)
  {
    if bytes != [] {
      JoinedIs(bytes[1..]);
      ByteAndRest(BytesValue(bytes[1..]), bytes[0], 8 * |bytes[1..]|);
    }
  }

  lemma PolyBytes(b: seq<Byte>)
    requires b == POLY_BYTES
    ensures POLY == Joined(b)
  {
    JoinedIs(b);
    ValueIs(b);
  }

  lemma ValueIs(b: seq<Byte>)
    requires b == POLY_BYTES
    ensures BytesValue(b) == 0xc96c_5795_d787_0f42
  {
    ValueOfFour(b[4..], 0xc96c_5795);
    assert b[1..][1..][1..][1..] == b[4..];
  }

  lemma ValueOfFour(b: seq<Byte>, v: nat)
    requires |b| == 4 && var b0: int, b1: int, b2: int, b3: int := b[0], b[1], b[2], b[3]; v == ((b3 * 0x100 + b2) * 0x100 + b1) * 0x100 + b0
    ensures BytesValue(b) == v
  {
    var c, d, e := b[1..], b[2..], b[3..];
    assert c[1..] == d && d[1..] == e && e[1..] == [];
    assert BytesValue(e) == b[3] && BytesValue(d) == BytesValue(e) * 0x100 + b[2];
  }

  /** One byte of it, with the terms that it stands for. */
  ghost predicate ByteStandsFor(b: Byte, top: nat, g: Poly) {
    forall k: nat | k < 8 && k <= top :: LowFirst(b, 8)[k] <==> top - k in g
  }

  lemma Byte0()
    ensures ByteStandsFor(0x42, 63, GENERATOR)
  {
    assert LowFirst(0x42, 8) == [false, true, false, false, false, false, true, false];
  }

  lemma Byte1()
    ensures ByteStandsFor(0x0f, 55, GENERATOR)
  {
    assert LowFirst(0x0f, 8) == [true, true, true, true, false, false, false, false];
  }

  lemma Byte2()
    ensures ByteStandsFor(0x87, 47, GENERATOR)
  {
    assert LowFirst(0x87, 8) == [true, true, true, false, false, false, false, true];
  }

  lemma Byte3()
    ensures ByteStandsFor(0xd7, 39, GENERATOR)
  {
    assert LowFirst(0xd7, 8) == [true, true, true, false, true, false, true, true];
  }

  lemma Byte4()
    ensures ByteStandsFor(0x95, 31, GENERATOR)
  {
    assert LowFirst(0x95, 8) == [true, false, true, false, true, false, false, true];
  }

  lemma Byte5()
    ensures ByteStandsFor(0x57, 23, GENERATOR)
  {
    assert LowFirst(0x57, 8) == [true, true, true, false, true, false, true, false];
  }

  lemma Byte6()
    ensures ByteStandsFor(0x6c, 15, GENERATOR)
  {
    assert LowFirst(0x6c, 8) == [false, false, true, true, false, true, true, false];
  }

  lemma Byte7()
    ensures ByteStandsFor(0xc9, 7, GENERATOR)
  {
    assert LowFirst(0xc9, 8) == [true, false, false, true, false, false, true, true];
  }

  lemma {:induction false} BytesStandFor(bytes: seq<Byte>, g: Poly)
    requires forall j | 0 <= j < |bytes| :: ByteStandsFor(bytes[j], 8 * (|bytes| - j) - 1, g)
    ensures forall k: nat | k < 8 * |bytes| :: Joined(bytes)[k] <==> 8 * |bytes| - 1 - k in g
  {
    if bytes != [] {
      var rest, n := bytes[1..], 8 * |bytes| - 1;
      forall j | 0 <= j < |rest| ensures ByteStandsFor(rest[j], 8 * (|rest| - j) - 1, g) {
        assert ByteStandsFor(bytes[j + 1], 8 * (|bytes| - (j + 1)) - 1, g);
      }
      BytesStandFor(rest, g);
      assert ByteStandsFor(bytes[0], n, g);
      forall k: nat | k < 8 * |bytes| ensures Joined(bytes)[k] <==> n - k in g {
        if k < 8 { assert Joined(bytes)[k] == LowFirst(bytes[0], 8)[k]; } else { assert Joined(bytes)[k] == Joined(rest)[k - 8]; }
      }
    }
  }

  /** The register's polynomial is the generator without its highest term, the highest exponent in the lowest bit. */
  lemma PolyIsGenerator()
    ensures forall k: nat | k < 64 :: POLY[k] <==> 63 - k in GENERATOR
  {
    PolyIs(POLY_BYTES, GENERATOR);
  }

  lemma PolyIs(b: seq<Byte>, g: Poly)
    requires b == POLY_BYTES && g == GENERATOR
    ensures forall k: nat | k < 64 :: POLY[k] <==> 63 - k in g
  {
    PolyBytes(b);
    AllStandFor(b, g);
    PolyStandsFor(b, g, POLY);
  }

  lemma PolyStandsFor(b: seq<Byte>, g: Poly, poly: Word)
    requires |b| == 8 && poly == Joined(b) && forall j | 0 <= j < 8 :: ByteStandsFor(b[j], 8 * (8 - j) - 1, g)
    ensures forall k: nat | k < 64 :: poly[k] <==> 63 - k in g
  {
    BytesStandFor(b, g);
  }

  lemma AllStandFor(b: seq<Byte>, g: Poly)
    requires b == POLY_BYTES && g == GENERATOR
    ensures forall j | 0 <= j < 8 :: ByteStandsFor(b[j], 8 * (8 - j) - 1, g)
  {
    Byte0();
    Byte1();
    Byte2();
    Byte3();
    Byte4();
    Byte5();
    Byte6();
    Byte7();
    EachStandsFor(b, g);
  }

  lemma EachStandsFor(b: seq<Byte>, g: Poly)
    requires b == POLY_BYTES && ByteStandsFor(0x42, 63, g) && ByteStandsFor(0x0f, 55, g) && ByteStandsFor(0x87, 47, g) && ByteStandsFor(0xd7, 39, g)
    requires ByteStandsFor(0x95, 31, g) && ByteStandsFor(0x57, 23, g) && ByteStandsFor(0x6c, 15, g) && ByteStandsFor(0xc9, 7, g)
    ensures forall j | 0 <= j < 8 :: ByteStandsFor(b[j], 8 * (8 - j) - 1, g)
  {
  }

  // ---------------------------------------------------------------- one step

  /** Exclusive or adds. */
  lemma XorIsPlus(a: Word, b: Word, p: Poly, q: Poly)
    requires Holds(a, p) && Holds(b, q)
    ensures Holds(Xor(a, b), Plus(p, q))
  {
    forall i: nat | i < 64 ensures Xor(a, b)[63 - i] <==> i in Plus(p, q) { }
  }

  /** A register's one step is multiplying by x, and taking the remainder. */
  lemma StepIsTimesX(c: Word, p: Poly)
    requires Holds(c, p)
    ensures Holds(Step(c), BroughtDown(p, false))
  {
    PolyIsGenerator();
    GeneratorEnds(GENERATOR);
    StepIs(c, p, GENERATOR);
  }

  lemma GeneratorEnds(g: Poly)
    requires g == GENERATOR
    ensures 64 in g && forall e | e in g :: e <= 64
  {
  }

  lemma StepIs(c: Word, p: Poly, g: Poly)
    requires Holds(c, p) && 64 in g && (forall e | e in g :: e <= 64) && forall k: nat | k < 64 :: POLY[k] <==> 63 - k in g
    ensures Holds(Step(c), if 64 in TimesX(p) then Plus(TimesX(p), g) else TimesX(p))
  {
    var longer := TimesX(p);
    TimesXIs(p);
    assert c[63 - 63] <==> 63 in p;
    assert 64 in longer <==> c[0];
    ShiftedIs(c, p);
    PlusIs(Down(c, 1), longer, POLY, g);
  }

  lemma ShiftedIs(c: Word, p: Poly)
    requires Holds(c, p)
    ensures forall i: nat | i < 64 :: Down(c, 1)[63 - i] <==> i in TimesX(p)
    ensures forall i | i in TimesX(p) :: i <= 64
  {
    TimesXIs(p);
    forall i: nat | i < 64 ensures Down(c, 1)[63 - i] <==> i in TimesX(p) {
      if i >= 1 { assert c[63 - (i - 1)] <==> i - 1 in p; }
    }
  }

  lemma PlusIs(a: Word, p: Poly, b: Word, g: Poly)
    requires (forall i: nat | i < 64 :: a[63 - i] <==> i in p) && (forall i: nat | i < 64 :: b[i] <==> 63 - i in g)
    requires (forall i | i in p :: i <= 64) && forall i | i in g :: i <= 64
    ensures (64 in p) && (64 in g) ==> Holds(Xor(a, b), Plus(p, g))
    ensures 64 !in p ==> Holds(a, p)
  {
    forall i: nat | i < 64 ensures Xor(a, b)[63 - i] <==> i in Plus(p, g) {
      assert b[63 - i] <==> 63 - (63 - i) in g;
    }
  }

  lemma TimesXIs(p: Poly)
    ensures 0 !in TimesX(p) && forall i: nat :: i + 1 in TimesX(p) <==> i in p
  {
  }

  // ---------------------------------------------------------------- dividing with a register

  /** The terms up to x^0 in a register. */
  function Unit(bit: bool): Word {
    Off(63) + [bit]
  }

  /** A register that divides as the standard does: the bits come in below. */
  function Divided(bits: seq<bool>): Word {
    if bits == [] then ZERO else Xor(Step(Divided(bits[..|bits| - 1])), Unit(bits[|bits| - 1]))
  }

  lemma UnitHolds(bit: bool)
    ensures Holds(Unit(bit), if bit then {0} else {})
  {
  }

  lemma {:induction false} DividedIsRemainder(bits: seq<bool>)
    ensures Holds(Divided(bits), Remainder(bits))
  {
    if bits != [] {
      var n := |bits| - 1;
      DividedIsRemainder(bits[..n]);
      var p := Remainder(bits[..n]);
      StepIsTimesX(Divided(bits[..n]), p);
      UnitHolds(bits[n]);
      XorIsPlus(Step(Divided(bits[..n])), Unit(bits[n]), BroughtDown(p, false), if bits[n] then {0} else {});
      BroughtDownIs(p, bits[n]);
    }
  }

  /** The new bit can be added before the remainder is taken or after it. */
  lemma BroughtDownIs(p: Poly, bit: bool)
    ensures BroughtDown(p, bit) == Plus(BroughtDown(p, false), if bit then {0} else {})
  {
  }

  // ---------------------------------------------------------------- the checksum's register

  function Highest(bit: bool): Word {
    [bit] + Off(63)
  }

  /** The register of the checksum, a bit at a time: they come in above. */
  function FedBits(c: Word, bits: seq<bool>): Word {
    if bits == [] then c else Step(Xor(FedBits(c, bits[..|bits| - 1]), Highest(bits[|bits| - 1])))
  }

  lemma {:induction false} FedBitsSplit(c: Word, a: seq<bool>, b: seq<bool>)
    ensures FedBits(c, a + b) == FedBits(FedBits(c, a), b)
    decreases |b|
  {
    if b == [] {
      assert a + b == a;
    } else {
      var n := |b| - 1;
      assert (a + b)[..|a + b| - 1] == a + b[..n];
      FedBitsSplit(c, a, b[..n]);
    }
  }

  /** The lowest `k` bits of `v` at the bottom of a register. */
  function Placed(v: nat, k: nat): Word
    requires k <= 64
  {
    LowFirst(v, k) + Off(64 - k)
  }

  /** Some bits at once, and as many zero bits. */
  lemma {:induction false} PlacedIsFed(c: Word, v: nat, k: nat)
    requires k <= 64
    ensures Shift(Xor(c, Placed(v, k)), k) == FedBits(c, LowFirst(v, k))
    decreases k
  {
    if k == 0 {
      assert Placed(v, 0) == ZERO;
      XorLaws(c, ZERO, ZERO);
    } else {
      var b, rest := v % 2 == 1, LowFirst(v / 2, k - 1);
      assert LowFirst(v, k) == [b] + rest;
      PlacedStep(c, v, k);
      PlacedIsFed(Step(Xor(c, Highest(b))), v / 2, k - 1);
      OneFed(c, b);
      FedBitsSplit(c, [b], rest);
    }
  }

  lemma OneFed(c: Word, b: bool)
    ensures FedBits(c, [b]) == Step(Xor(c, Highest(b)))
  {
    assert [b][..0] == [];
  }

  lemma PlacedStep(c: Word, v: nat, k: nat)
    requires 1 <= k <= 64
    ensures Step(Xor(c, Placed(v, k))) == Xor(Step(Xor(c, Highest(v % 2 == 1))), Placed(v / 2, k - 1))
  {
    var b, up := v % 2 == 1, Risen(v / 2, k);
    assert Placed(v, k) == Xor(Highest(b), up);
    XorLaws(c, Highest(b), up);
    StepIsLinear(Xor(c, Highest(b)), up);
    RisenSteps(v / 2, k);
  }

  function Risen(v: nat, k: nat): Word
    requires 1 <= k <= 64
  {
    [false] + LowFirst(v, k - 1) + Off(64 - k)
  }

  lemma RisenSteps(v: nat, k: nat)
    requires 1 <= k <= 64
    ensures Step(Risen(v, k)) == Placed(v, k - 1)
  {
    assert Down(Risen(v, k), 1) == Placed(v, k - 1);
  }

  lemma {:induction false} FedIsBits(c: Word, s: seq<Byte>)
    ensures Fed(c, s) == FedBits(c, BitsOfMessage(s))
    decreases |s|
  {
    if s != [] {
      assert Wide(s[0]) == Placed(s[0], 8);
      PlacedIsFed(c, s[0], 8);
      FedIsBits(Shift(Xor(c, Wide(s[0])), 8), s[1..]);
      FedBitsSplit(c, LowFirst(s[0], 8), BitsOfMessage(s[1..]));
    }
  }

  // ---------------------------------------------------------------- from above, and from below

  lemma UnitRises(bit: bool, n: nat)
    requires n == 64
    ensures Shift(Unit(bit), n) == Step(Highest(bit))
  {
    ShiftIsDown(Unit(bit), n - 1);
    assert Down(Unit(bit), n - 1) == Highest(bit);
    ShiftSplits(Unit(bit), n - 1, 1);
  }

  lemma StepLast(c: Word, n: nat)
    ensures Shift(c, n + 1) == Step(Shift(c, n)) == Shift(Step(c), n)
  {
    ShiftSplits(c, n, 1);
  }

  /** 64 zero bits behind bits that came in below: as if they had come in above. */
  lemma {:induction false} BelowIsAbove(bits: seq<bool>, n: nat)
    requires n == 64
    ensures Shift(Divided(bits), n) == FedBits(ZERO, bits)
    decreases |bits|
  {
    if bits == [] {
      ShiftOfZero(n);
    } else {
      var init, b := bits[..|bits| - 1], bits[|bits| - 1];
      BelowIsAbove(init, n);
      ShiftIsLinear(Step(Divided(init)), Unit(b), n);
      StepLast(Divided(init), n);
      UnitRises(b, n);
      StepIsLinear(FedBits(ZERO, init), Highest(b));
    }
  }

  lemma ZerosDivide(bits: seq<bool>, n: nat)
    ensures Divided(bits + Off(n)) == Shift(Divided(bits), n)
  {
    AllZerosDivide(bits, Off(n));
  }

  lemma {:induction false} AllZerosDivide(bits: seq<bool>, zeros: seq<bool>)
    requires forall i | 0 <= i < |zeros| :: !zeros[i]
    ensures Divided(bits + zeros) == Shift(Divided(bits), |zeros|)
    decreases |zeros|
  {
    if zeros == [] {
      assert bits + zeros == bits;
    } else {
      var n := |zeros| - 1;
      AllZerosDivide(bits, zeros[..n]);
      assert bits + zeros == bits + zeros[..n] + [false];
      ZeroDivides(bits + zeros[..n], bits + zeros);
      StepLast(Divided(bits), n);
    }
  }

  lemma ZeroDivides(bits: seq<bool>, more: seq<bool>)
    requires more == bits + [false]
    ensures Divided(more) == Step(Divided(bits))
  {
    assert more[..|more| - 1] == bits;
    NothingAdded(Step(Divided(bits)));
  }

  lemma NothingAdded(c: Word)
    ensures Xor(c, Unit(false)) == c
  {
    assert Unit(false) == ZERO;
    XorLaws(c, ZERO, ZERO);
  }

  function BitsXor(a: seq<bool>, b: seq<bool>): (r: seq<bool>)
    requires |a| == |b|
    ensures |r| == |a|
  {
    seq(|a|, i requires 0 <= i < |a| => a[i] != b[i])
  }

  lemma {:induction false} DividedIsLinear(a: seq<bool>, b: seq<bool>)
    requires |a| == |b|
    ensures Divided(BitsXor(a, b)) == Xor(Divided(a), Divided(b))
    decreases |a|
  {
    if a == [] {
      XorLaws(ZERO, ZERO, ZERO);
    } else {
      var n := |a| - 1;
      DividedIsLinear(a[..n], b[..n]);
      assert BitsXor(a, b)[..n] == BitsXor(a[..n], b[..n]);
      LinearStep(Divided(a[..n]), Divided(b[..n]), a[n], b[n]);
    }
  }

  lemma LinearStep(x: Word, y: Word, a: bool, b: bool)
    ensures Xor(Step(Xor(x, y)), Unit(a != b)) == Xor(Xor(Step(x), Unit(a)), Xor(Step(y), Unit(b)))
  {
    StepIsLinear(x, y);
    assert Unit(a != b) == Xor(Unit(a), Unit(b));
    Crossed(Step(x), Step(y), Unit(a), Unit(b));
  }

  lemma Crossed(a: Word, b: Word, c: Word, d: Word)
    ensures Xor(Xor(a, b), Xor(c, d)) == Xor(Xor(a, c), Xor(b, d))
  {
  }

  lemma {:induction false} OnesDivide(k: nat)
    requires k <= 64
    ensures Divided(On(k)) == Off(64 - k) + On(k)
  {
    if k > 0 {
      assert On(k)[..k - 1] == On(k - 1);
      OnesDivide(k - 1);
      var c := Divided(On(k - 1));
      assert !c[0];
      assert Xor(Down(c, 1), Unit(true)) == Off(64 - k) + On(k);
    }
  }

  /** The checksum of every message is the standard's. */
  lemma ChecksumIsStandard(s: seq<Byte>)
    ensures Holds(Xor(Of(s), ONES), Remainder(FirstComplemented(BitsOfMessage(s) + Off(64))))
  {
    var m, n := BitsOfMessage(s), 64;
    var long := m + Off(n);
    FedIsBits(ZERO, s);
    BelowIsAbove(m, n);
    ZerosDivide(m, n);
    assert Divided(long) == Fed(ZERO, s);
    StartIsComplement(s, long);
    XorLaws(Fed(ONES, s), ONES, ZERO);
    DividedIsRemainder(FirstComplemented(long));
  }

  /** Beginning with ones is complementing the first 64 bits. */
  lemma StartIsComplement(s: seq<Byte>, long: seq<bool>)
    requires |long| == 8 * |s| + 64 && Divided(long) == Fed(ZERO, s)
    ensures Divided(FirstComplemented(long)) == Fed(ONES, s)
  {
    var k := 64;
    var mask := On(k) + Off(8 * |s|);
    assert FirstComplemented(long) == BitsXor(mask, long);
    DividedIsLinear(mask, long);
    OnesDivide(k);
    assert Divided(On(k)) == ONES;
    ZerosDivide(On(k), 8 * |s|);
    XorLaws(ONES, ZERO, ZERO);
    FedIsLinear(ONES, ZERO, s);
  }
}
