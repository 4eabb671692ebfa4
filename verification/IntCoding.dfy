/**
 What the coders of src/nz_bwt.cpp share above the range coder: adaptive cells, raw bits, unary
 prefixes and the Elias-like integers made of the two (BwtIntModel and the offsets of param14).
 Each code is a function from a value to decisions; the methods write and read exactly it.
 */
module IntCoding {
  import opened Words
  import opened RangeCoder

  function Pow2(n: nat): (p: nat)
    ensures p >= 1
  {
    if n == 0 then 1 else 2 * Pow2(n - 1)
  }

  /** Position of the highest set bit, 0 for 0. */
  function Bsr(v: nat): nat {
    if v < 2 then 0 else 1 + Bsr(v / 2)
  }

  lemma {:induction false} BsrBounds(v: nat)
    ensures v < Pow2(Bsr(v) + 1)
    ensures v >= 1 ==> Pow2(Bsr(v)) <= v
  {
    if v >= 2 {
      BsrBounds(v / 2);
    }
  }

  lemma {:induction false} Pow2Monotone(a: nat, b: nat)
    requires a <= b
    ensures Pow2(a) <= Pow2(b)
  {
    if a < b {
      Pow2Monotone(a, b - 1);
    }
  }

  lemma {:induction false} Pow2Sum(a: nat, b: nat)
    ensures Pow2(a + b) == Pow2(a) * Pow2(b)
  {
    if a != 0 {
      Pow2Sum(a - 1, b);
    }
  }

  lemma {:induction false} BsrIsLess(v: nat)
    ensures Bsr(v) <= v
  {
    if v >= 2 { BsrIsLess(v / 2); }
  }

  lemma {:induction false} BsrMonotone(a: nat, b: nat)
    requires a <= b
    ensures Bsr(a) <= Bsr(b)
  {
    if a >= 2 {
      BsrMonotone(a / 2, b / 2);
    }
  }

  /** The bits of `v` below its highest one; 0 and 1 keep theirs. */
  function LowBits(v: nat): (low: nat)
    ensures low < Pow2(LowWidth(v))
    ensures v == low + Top(Bsr(v))
  {
    BsrBounds(v);
    v - Top(Bsr(v))
  }

  function LowWidth(v: nat): nat {
    if Bsr(v) == 0 then 1 else Bsr(v)
  }

  function Top(n: nat): nat {
    if n == 0 then 0 else Pow2(n)
  }

  // ---------------------------------------------------------------- cells

  type Cells = seq<U16>

  /** `m + ((bit * 65536 + add - m) >> shift)` in 32-bit registers, stored in 16 bits; `div` is 2^shift. */
  function Nudge(m: U16, bit: bool, add: nat, div: nat): U16
    requires div > 0
  {
    (m + Wrap32((if bit then TWO16 else 0) + add - m) / div) % TWO16
  }

  /** How a cell moves: by a fixed share, or by a share that shrinks with the count in its low nibble. */
  datatype Rule = Steady | Rated(add: nat, last: nat)

  function Moved(rule: Rule, m: U16, bit: bool): U16 {
    match rule
    case Steady => Nudge(m, bit, 8, 16)
    case Rated(add, last) =>
      var rate := m % 16;
      var moved := Wrap32(Wrap32((if bit then TWO16 else 0) + add - m) / Pow2(rate) + m);
      (rate + (if rate <= last then 1 else 0) + moved % TWO16 / 16 * 16) % TWO16
  }

  function P12(m: U16): Prob {
    m / 16
  }

  // ---------------------------------------------------------------- raw bits

  /** `n` bits of `v`, highest first, at even odds. */
  function Raw(v: nat, n: nat): seq<Decision>
    requires v < Pow2(n)
    decreases n
  {
    if n == 0 then []
    else if v >= Pow2(n - 1) then [Decision(true, 2048)] + Raw(v - Pow2(n - 1), n - 1)
    else [Decision(false, 2048)] + Raw(v, n - 1)
  }

  lemma QuotientBelowTwo(v: nat, p: nat)
    requires 1 <= p && v < 2 * p
    ensures v / p == if v >= p then 1 else 0
  {
    var q := v / p;
    assert v == q * p + v % p;
    assert q >= 2 ==> q * p >= 2 * p;
  }

  method WriteRaw(enc: Encoder, v: nat, n: nat)
    requires enc.Valid() && v < Pow2(n)
    modifies enc
    ensures enc.Valid() && enc.trace == old(enc.trace) + Raw(v, n)
  {
    var left: nat, rest: nat := n, v;
    while left > 0
      invariant enc.Valid() && rest < Pow2(left)
      invariant enc.trace + Raw(rest, left) == old(enc.trace) + Raw(v, n)
    {
      left := left - 1;
      var p := Pow2(left);
      QuotientBelowTwo(rest, p);
      var bit := rest / p % 2 == 1;
      RawNext(rest, left);
      enc.Encode(bit, 2048);
      if bit { rest := rest - p; }
    }
  }

  function LowerBits(v: nat, n: nat): nat {
    if v >= Pow2(n) then v - Pow2(n) else v
  }

  lemma RawNext(v: nat, n: nat)
    requires v < Pow2(n + 1)
    ensures Raw(v, n + 1) == [Decision(v >= Pow2(n), 2048)] + Raw(LowerBits(v, n), n)
  {
  }

  /** What reading `n` bits of `v`, highest first, makes of `x`. */
  ghost function Join(x: nat, v: nat, n: nat): nat
    requires v < Pow2(n)
    decreases n
  {
    if n == 0 then x else Join(x * 2 + if v >= Pow2(n - 1) then 1 else 0, LowerBits(v, n - 1), n - 1)
  }

  lemma Doubled(x: nat, p: nat)
    ensures (x * 2) * p == x * (2 * p)
    ensures (x * 2 + 1) * p == x * (2 * p) + p
  {
  }

  lemma {:induction false} JoinIs(x: nat, v: nat, n: nat)
    requires v < Pow2(n)
    ensures Join(x, v, n) == x * Pow2(n) + v
    decreases n
  {
    if n != 0 {
      var p := Pow2(n - 1);
      Doubled(x, p);
      if v >= p {
        JoinIs(x * 2 + 1, v - p, n - 1);
      } else {
        JoinIs(x * 2, v, n - 1);
      }
      assert x * Pow2(n) == x * (2 * p);
    }
  }

  /** Reads `n` bits and appends them to `x0`. */
  method ReadRaw(dec: Decoder, x0: nat, n: nat, ghost v: nat, ghost later: seq<Decision>) returns (x: nat)
    requires dec.Valid()
    modifies dec
    ensures dec.Valid() && (x0 == 0 ==> x < Pow2(n))
    ensures v < Pow2(n) && old(dec.Ahead(Raw(v, n) + later)) ==> x == Join(x0, v, n) && dec.Ahead(later)
  {
    x := x0;
    ghost var rest: nat := v;
    ghost var coded := v < Pow2(n) && dec.Ahead(Raw(v, n) + later);
    for k := 0 to n
      invariant dec.Valid() && (x0 == 0 ==> x < Pow2(k))
      invariant coded ==> rest < Pow2(n - k) && Join(x, rest, n - k) == Join(x0, v, n) && dec.Ahead(Raw(rest, n - k) + later)
    {
      ghost var one, next, more := rest >= Pow2(n - k - 1), LowerBits(rest, n - k - 1), [];
      if coded {
        RawNext(rest, n - k - 1);
        more := Raw(next, n - k - 1) + later;
        assert dec.future == [Decision(one, 2048)] + more;
      }
      var bit := dec.Read(2048);
      assert coded ==> bit == one && dec.future == more;
      x := x * 2 + if bit then 1 else 0;
      rest := next;
    }
  }

  // ---------------------------------------------------------------- unary prefixes

  /** Decisions written and the cells after them. */
  datatype Coded = Coded(ds: seq<Decision>, m: Cells)

  /** `n` ones and a zero, one cell per position from `base`; no zero at `cap`. Starts at position `i`. */
  function Unary(rule: Rule, m: Cells, base: nat, i: nat, n: nat, cap: nat): (c: Coded)
    requires i <= n <= cap && base + cap <= |m|
    ensures |c.m| == |m|
    decreases cap - i, m
  {
    if i == cap then Coded([], m)
    else
      var d := Decision(i < n, P12(m[base + i]));
      var m1 := m[base + i := Moved(rule, m[base + i], i < n)];
      if i == n then Coded([d], m1)
      else
        var c := Unary(rule, m1, base, i + 1, n, cap);
        Coded([d] + c.ds, c.m)
  }

  method WriteUnary(enc: Encoder, rule: Rule, m0: Cells, base: nat, n: nat, cap: nat) returns (m: Cells)
    requires enc.Valid() && n <= cap && base + cap <= |m0|
    modifies enc
    ensures enc.Valid() && enc.trace == old(enc.trace) + Unary(rule, m0, base, 0, n, cap).ds
    ensures m == Unary(rule, m0, base, 0, n, cap).m
  {
    m := m0;
    for i := 0 to n
      invariant enc.Valid() && |m| == |m0|
      invariant enc.trace + Unary(rule, m, base, i, n, cap).ds == old(enc.trace) + Unary(rule, m0, base, 0, n, cap).ds
      invariant Unary(rule, m, base, i, n, cap).m == Unary(rule, m0, base, 0, n, cap).m
    {
      enc.Encode(true, P12(m[base + i]));
      m := m[base + i := Moved(rule, m[base + i], true)];
    }
    if n != cap {
      enc.Encode(false, P12(m[base + n]));
      m := m[base + n := Moved(rule, m[base + n], false)];
    }
  }

  method ReadUnary(dec: Decoder, rule: Rule, m0: Cells, base: nat, cap: nat, ghost n: nat, ghost later: seq<Decision>)
    returns (x: nat, m: Cells)
    requires dec.Valid() && base + cap <= |m0|
    modifies dec
    ensures dec.Valid() && x <= cap && |m| == |m0|
    ensures n <= cap && old(dec.Ahead(Unary(rule, m0, base, 0, n, cap).ds + later))
      ==> x == n && m == Unary(rule, m0, base, 0, n, cap).m && dec.Ahead(later)
  {
    m, x := m0, 0;
    ghost var coded := n <= cap && dec.Ahead(Unary(rule, m0, base, 0, n, cap).ds + later);
    while x != cap
      invariant dec.Valid() && x <= cap && |m| == |m0|
      invariant coded ==> x <= n && Unary(rule, m, base, x, n, cap).m == Unary(rule, m0, base, 0, n, cap).m
      invariant coded ==> dec.Ahead(Unary(rule, m, base, x, n, cap).ds + later)
      decreases cap - x
    {
      var bit := dec.Read(P12(m[base + x]));
      m := m[base + x := Moved(rule, m[base + x], bit)];
      if !bit {
        assert coded ==> dec.future == later;
        return;
      }
      x := x + 1;
      assert coded ==> dec.future == Unary(rule, m, base, x, n, cap).ds + later;
    }
    assert coded ==> dec.future == later;
  }

  // ---------------------------------------------------------------- integers

  /** A value as the unary length of its high part, then its low bits raw. */
  function IntCode(m: Cells, cap: nat, v: nat): (c: Coded)
    requires Bsr(v) <= cap <= |m|
    ensures |c.m| == |m|
  {
    var u := Unary(Steady, m, 0, 0, Bsr(v), cap);
    Coded(u.ds + Raw(LowBits(v), LowWidth(v)), u.m)
  }

  /** BwtIntModel and BwtIntModelEnc: `bits` bounds the unary part. */
  method WriteInt(enc: Encoder, m0: Cells, bits: nat, v: nat) returns (m: Cells)
    requires enc.Valid() && Bsr(v) <= bits <= |m0|
    modifies enc
    ensures enc.Valid() && enc.trace == old(enc.trace) + IntCode(m0, bits, v).ds
    ensures m == IntCode(m0, bits, v).m
  {
    var nb := Bsr(v);
    m := WriteUnary(enc, Steady, m0, 0, nb, bits);
    var res := if nb != 0 then Pow2(nb) else 0;
    var width := nb + if nb == 0 then 1 else 0;
    assert v - res == LowBits(v) && width == LowWidth(v);
    WriteRaw(enc, LowBits(v), width);
  }

  method ReadInt(dec: Decoder, m0: Cells, bits: nat, ghost v: nat, ghost later: seq<Decision>) returns (x: nat, m: Cells)
    requires dec.Valid() && bits <= |m0|
    modifies dec
    ensures dec.Valid() && |m| == |m0| && x < Pow2(bits + 1)
    ensures Bsr(v) <= bits && old(dec.Ahead(IntCode(m0, bits, v).ds + later))
      ==> x == v && m == IntCode(m0, bits, v).m && dec.Ahead(later)
  {
    ghost var coded := Bsr(v) <= bits && dec.Ahead(IntCode(m0, bits, v).ds + later);
    ghost var low := Raw(LowBits(v), LowWidth(v));
    assert coded ==> dec.future == Unary(Steady, m0, 0, 0, Bsr(v), bits).ds + (low + later);
    var nb;
    nb, m := ReadUnary(dec, Steady, m0, 0, bits, Bsr(v), low + later);
    var width := nb + if nb == 0 then 1 else 0;
    var res2 := ReadRaw(dec, 0, width, LowBits(v), later);
    JoinIs(0, LowBits(v), LowWidth(v));
    x := res2 + if nb != 0 then Pow2(nb) else 0;
    Pow2Monotone(nb, bits);
  }
}
