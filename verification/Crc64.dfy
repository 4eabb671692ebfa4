/**
 The archive self-check's CRC-64/XZ (the reflected polynomial of Standard ECMA-182, Annex B) as
 statements: registers are 64 bits, lowest first, and everything is linear over them.
 */
module Crc64Math {
  import opened Words
  import opened IntCoding

  type Word = s: seq<bool> | |s| == 64 witness Off(64)

  /** `n` bits of `v`, lowest first. */
  function LowFirst(v: nat, n: nat): (b: seq<bool>)
    ensures |b| == n
    decreases n, v
  {
    if n == 0 then [] else [v % 2 == 1] + LowFirst(v / 2, n - 1)
  }

  function Value(b: seq<bool>): nat {
    if b == [] then 0 else (if b[0] then 1 else 0) + 2 * Value(b[1..])
  }

  lemma {:induction false} LowFirstOfValue(b: seq<bool>)
    ensures LowFirst(Value(b), |b|) == b
  {
    if b != [] { LowFirstOfValue(b[1..]); }
  }

  lemma {:induction false} ValueBelow(b: seq<bool>)
    ensures Value(b) < Pow2(|b|)
  {
    if b != [] { ValueBelow(b[1..]); }
  }

  const POLY: Word := LowFirst(0xc96c_5795_d787_0f42, 64)

  function Off(n: nat): (z: seq<bool>)
    ensures |z| == n && forall i :: 0 <= i < n ==> !z[i]
  {
    seq(n, _ => false)
  }

  function On(n: nat): (z: seq<bool>)
    ensures |z| == n && forall i :: 0 <= i < n ==> z[i]
  {
    seq(n, _ => true)
  }

  const ZERO: Word := Off(64)
  const ONES: Word := On(64)

  function Xor(a: Word, b: Word): (r: Word)
    ensures forall i :: 0 <= i < 64 ==> r[i] == (a[i] != b[i])
  {
    seq(64, i requires 0 <= i < 64 => a[i] != b[i])
  }

  lemma XorLaws(a: Word, b: Word, c: Word)
    ensures Xor(Xor(a, b), c) == Xor(a, Xor(b, c)) && Xor(a, b) == Xor(b, a)
    ensures Xor(a, a) == ZERO && Xor(a, ZERO) == a && Xor(Xor(a, b), b) == a
  {
  }

  /** `c >> k`. */
  function Down(c: Word, k: nat): Word
    requires k <= 64
  {
    c[k..] + Off(k)
  }

  /** One zero bit through the register. */
  function Step(c: Word): Word {
    if c[0] then Xor(Down(c, 1), POLY) else Down(c, 1)
  }

  /** `n` zero bits. */
  function Shift(c: Word, n: nat): Word
    decreases n, c
  {
    if n == 0 then c else Shift(Step(c), n - 1)
  }

  /** A byte in the lowest place. */
  function Wide(b: Byte): Word {
    LowFirst(b, 8) + Off(56)
  }

  /** The register after the bytes `s`, a byte's eight bits at a time. */
  function Fed(c: Word, s: seq<Byte>): Word
    decreases |s|
  {
    if s == [] then c else Fed(Shift(Xor(c, Wide(s[0])), 8), s[1..])
  }

  /** The CRC of a byte string. */
  function Of(s: seq<Byte>): Word {
    Xor(Fed(ONES, s), ONES)
  }

  // ---------------------------------------------------------------- linearity

  lemma StepIsLinear(a: Word, b: Word)
    ensures Step(Xor(a, b)) == Xor(Step(a), Step(b))
  {
    assert Xor(a, b)[0] == (a[0] != b[0]);
    assert Down(Xor(a, b), 1) == Xor(Down(a, 1), Down(b, 1));
  }

  lemma {:induction false} ShiftIsLinear(a: Word, b: Word, n: nat)
    ensures Shift(Xor(a, b), n) == Xor(Shift(a, n), Shift(b, n))
    decreases n
  {
    if n != 0 {
      StepIsLinear(a, b);
      ShiftIsLinear(Step(a), Step(b), n - 1);
    }
  }

  lemma {:induction false} ShiftSplits(c: Word, m: nat, n: nat)
    ensures Shift(c, m + n) == Shift(Shift(c, m), n)
    decreases m
  {
    if m != 0 { ShiftSplits(Step(c), m - 1, n); }
  }

  lemma {:induction false} ShiftOfZero(n: nat)
    ensures Shift(ZERO, n) == ZERO
    decreases n
  {
    if n != 0 {
      assert Step(ZERO) == ZERO;
      ShiftOfZero(n - 1);
    }
  }

  // ---------------------------------------------------------------- joining

  lemma {:induction false} FedSplits(c: Word, s: seq<Byte>, t: seq<Byte>)
    ensures Fed(c, s + t) == Fed(Fed(c, s), t)
    decreases |s|
  {
    if s == [] {
      assert s + t == t;
    } else {
      assert (s + t)[1..] == s[1..] + t;
      FedSplits(Shift(Xor(c, Wide(s[0])), 8), s[1..], t);
    }
  }

  /** The start value goes through as zero bits, the bytes on their own. */
  lemma {:induction false} FedIsLinear(c: Word, d: Word, s: seq<Byte>)
    ensures Fed(Xor(c, d), s) == Xor(Shift(c, 8 * |s|), Fed(d, s))
    decreases |s|
  {
    if s != [] {
      var w, e := Wide(s[0]), 8;
      XorLaws(c, d, w);
      ShiftIsLinear(c, Xor(d, w), e);
      ShiftSplits(c, e, 8 * |s[1..]|);
      FedIsLinear(Shift(c, e), Shift(Xor(d, w), e), s[1..]);
    }
  }

  lemma XorOfJoin(za: Word, zo: Word, b: Word)
    ensures Xor(Xor(za, zo), Xor(Xor(zo, b), ONES)) == Xor(Xor(za, b), ONES)
  {
  }

  /** The CRC of a whole from those of its parts and the length of the second. */
  lemma CrcJoins(s: seq<Byte>, t: seq<Byte>)
    ensures Of(s + t) == Xor(Shift(Of(s), 8 * |t|), Of(t))
  {
    var n, a := 8 * |t|, Fed(ONES, s);
    FedSplits(ONES, s, t);
    XorLaws(a, ZERO, ZERO);
    XorLaws(ONES, ZERO, ZERO);
    FedIsLinear(a, ZERO, t);
    FedIsLinear(ONES, ZERO, t);
    ShiftIsLinear(a, ONES, n);
    XorOfJoin(Shift(a, n), Shift(ONES, n), Fed(ZERO, t));
  }

  // ---------------------------------------------------------------- whole bytes

  /** Where no one bit leaves, zero bits only shift. */
  lemma {:induction false} ShiftIsDown(c: Word, k: nat)
    requires k <= 64 && forall i :: 0 <= i < k ==> !c[i]
    ensures Shift(c, k) == Down(c, k)
    decreases k
  {
    if k == 0 {
      assert Down(c, 0) == c;
    } else {
      var d := Down(c, 1);
      assert Step(c) == d;
      ShiftIsDown(d, k - 1);
      assert Down(d, k - 1) == Down(c, k);
    }
  }

  /** The lowest byte. */
  function Low(c: Word): Word {
    c[..8] + Off(56)
  }

  /** A table lookup and a shift do the work of eight bits. */
  lemma ByteStep(c: Word, n: nat)
    requires n == 8
    ensures Shift(c, n) == Xor(Shift(Low(c), n), Down(c, n))
  {
    var high: Word := Off(8) + c[8..];
    assert c == Xor(Low(c), high);
    ShiftIsLinear(Low(c), high, n);
    ShiftIsDown(high, n);
    assert Down(high, n) == Down(c, n);
  }

  /** Further zero bits: the lowest byte through all of them, the rest through eight fewer. */
  lemma SliceStep(c: Word, n: nat, k: nat)
    requires n == 8
    ensures Shift(c, n + k) == Xor(Shift(Low(c), n + k), Shift(Down(c, n), k))
  {
    ByteStep(c, n);
    ShiftSplits(c, n, k);
    ShiftSplits(Low(c), n, k);
    ShiftIsLinear(Shift(Low(c), n), Down(c, n), k);
  }

  /** Bytes one behind the other as a register, the first lowest; eight at most. */
  function Packed(s: seq<Byte>): (w: Word)
    requires |s| <= 8
    ensures forall i :: 8 * |s| <= i < 64 ==> !w[i]
  {
    if s == [] then ZERO else Wide(s[0])[..8] + Packed(s[1..])[..56]
  }

  /** Up to eight bytes at once: their bits, then as many zero bits. */
  lemma {:induction false} FedOfPacked(c: Word, s: seq<Byte>)
    requires |s| <= 8
    ensures Fed(c, s) == Shift(Xor(c, Packed(s)), 8 * |s|)
    decreases |s|
  {
    if s == [] {
      XorLaws(c, ZERO, ZERO);
    } else {
      FirstOfPacked(c, s, 8 * |s[1..]|);
      FedOfPacked(Shift(Xor(c, Wide(s[0])), 8), s[1..]);
    }
  }

  lemma FirstOfPacked(c: Word, s: seq<Byte>, k: nat)
    requires 1 <= |s| <= 8
    ensures Shift(Xor(c, Packed(s)), 8 + k) == Shift(Xor(Shift(Xor(c, Wide(s[0])), 8), Packed(s[1..])), k)
  {
    var x, e := Xor(c, Wide(s[0])), 8;
    var up: Word := Off(8) + Packed(s[1..])[..56];
    PackedApart(c, s);
    ShiftIsLinear(x, up, e);
    ShiftIsDown(up, e);
    ShiftSplits(Xor(c, Packed(s)), e, k);
  }

  lemma PackedApart(c: Word, s: seq<Byte>)
    requires 1 <= |s| <= 8
    ensures var up: Word := Off(8) + Packed(s[1..])[..56];
      Xor(c, Packed(s)) == Xor(Xor(c, Wide(s[0])), up) && Down(up, 8) == Packed(s[1..]) && forall i :: 0 <= i < 8 ==> !up[i]
  {
    var b, rest := Wide(s[0]), Packed(s[1..]);
    var up: Word := Off(8) + rest[..56];
    LowByteAndRest(b, rest, up);
    XorLaws(c, b, up);
  }

  lemma LowByteAndRest(b: Word, rest: Word, up: Word)
    requires b[8..] == Off(56) && up == Off(8) + rest[..56] && forall i :: 56 <= i < 64 ==> !rest[i]
    ensures b[..8] + rest[..56] == Xor(b, up) && Down(up, 8) == rest && forall i :: 0 <= i < 8 ==> !up[i]
  {
    forall i | 8 <= i < 64 ensures !b[i] {
      assert b[8..][i - 8] == b[i];
    }
  }
}

/** The self-check's code: tables, slicing by eight and joining by repeated squaring (include/nz_selfcheck.h). */
module Crc64Check {
  import opened Words
  import opened Crc64Math

  type Table = seq<seq<Word>>

  /** Entry `i` of table `s` is byte `i` through `s + 1` zero bytes. */
  ghost predicate IsTable(t: Table, s: nat) {
    s <= |t| && forall k :: 0 <= k < s ==> IsRow(t[k], k)
  }

  ghost predicate IsRow(row: seq<Word>, k: nat) {
    |row| == 256 && forall i :: 0 <= i < 256 ==> row[i] == Shift(Wide(i), 8 * k + 8)
  }

  function LowIndex(c: Word): (i: nat)
    ensures i < 256
  {
    ValueBelow(c[..8]);
    Value(c[..8])
  }

  lemma WideOfIndex(c: Word)
    ensures Wide(LowIndex(c)) == Low(c)
  {
    LowFirstOfValue(c[..8]);
  }

  method BuildTables() returns (t: Table)
    ensures |t| == 8 && IsTable(t, 8)
  {
    var row: seq<Word> := [];
    for i := 0 to 256
      invariant |row| == i && forall j :: 0 <= j < i ==> row[j] == Shift(Wide(j), 8)
    {
      var c := Wide(i);
      for k := 0 to 8
        invariant Shift(c, 8 - k) == Shift(Wide(i), 8)
      {
        c := Step(c);
      }
      row := row + [c];
    }
    t := [row];
    assert IsRow(row, 0);
    for s := 1 to 8
      invariant |t| == s && IsTable(t, s)
    {
      row := NextTable(t, s);
      t := t + [row];
    }
  }

  method NextTable(t: Table, s: nat) returns (row: seq<Word>)
    requires 1 <= s == |t| && IsTable(t, s)
    ensures IsRow(row, s)
  {
    row := [];
    assert IsRow(t[s - 1], s - 1);
    for i := 0 to 256
      invariant |row| == i && forall j :: 0 <= j < i ==> row[j] == Shift(Wide(j), 8 * s + 8)
    {
      var entry := ByTable(t, t[s - 1][i]);
      EightMore(Wide(i), s);
      row := row + [entry];
    }
  }

  lemma EightMore(c: Word, s: nat)
    requires s >= 1
    ensures Shift(Shift(c, 8 * (s - 1) + 8), 8) == Shift(c, 8 * s + 8)
  {
    ShiftSplits(c, 8 * s, 8);
  }

  /** Eight bits by a lookup. */
  method ByTable(t: Table, c: Word) returns (r: Word)
    requires 1 <= |t| && IsTable(t, 1)
    ensures r == Shift(c, 8)
  {
    assert IsRow(t[0], 0);
    WideOfIndex(c);
    ByteStep(c, 8);
    r := Xor(t[0][LowIndex(c)], Down(c, 8));
  }

  /** Each of the lowest `k` bytes through the zero bytes that follow it, joined. */
  ghost function Slices(c: Word, k: nat): Word
    decreases k, c
  {
    if k == 0 then c else Xor(Shift(Low(c), 8 * k), Slices(Down(c, 8), k - 1))
  }

  lemma {:induction false} SlicesAreShift(c: Word, k: nat)
    ensures Slices(c, k) == Shift(c, 8 * k)
    decreases k
  {
    if k != 0 {
      SliceStep(c, 8, 8 * (k - 1));
      SlicesAreShift(Down(c, 8), k - 1);
    }
  }

  method OneSlice(t: Table, rest: Word, k: nat) returns (entry: Word)
    requires |t| == 8 && IsTable(t, 8) && k < 8
    ensures entry == Shift(Low(rest), 8 * k + 8)
  {
    WideOfIndex(rest);
    assert IsRow(t[k], k);
    entry := t[k][LowIndex(rest)];
  }

  /** Eight bytes in one go: a lookup for each, in the table for the bytes behind it. */
  method EightBytes(t: Table, c: Word) returns (r: Word)
    requires |t| == 8 && IsTable(t, 8)
    ensures r == Shift(c, 64)
  {
    var rest := c;
    r := ZERO;
    SlicesBegin(c);
    for k := 8 downto 0
      invariant Xor(r, Slices(rest, k)) == Shift(c, 64) && rest == Down(c, 8 * (8 - k))
    {
      var entry := OneSlice(t, rest, k);
      SliceOff(r, entry, rest, k);
      DownFurther(c, 8 * (7 - k));
      r := Xor(r, entry);
      rest := Down(rest, 8);
    }
    SlicesEnd(r, rest);
  }

  lemma SliceOff(r: Word, entry: Word, rest: Word, k: nat)
    requires entry == Shift(Low(rest), 8 * k + 8)
    ensures Xor(Xor(r, entry), Slices(Down(rest, 8), k)) == Xor(r, Slices(rest, k + 1))
  {
    XorLaws(r, entry, Slices(Down(rest, 8), k));
  }

  lemma SlicesBegin(c: Word)
    ensures Xor(ZERO, Slices(c, 8)) == Shift(c, 64) && Down(c, 0) == c
  {
    XorLaws(Slices(c, 8), ZERO, ZERO);
    SlicesAreShift(c, 8);
  }

  lemma SlicesEnd(r: Word, rest: Word)
    requires exists c :: rest == Down(c, 64)
    ensures Xor(r, Slices(rest, 0)) == r
  {
    assert rest == ZERO;
    XorLaws(r, ZERO, ZERO);
  }

  lemma DownFurther(c: Word, k: nat)
    requires k <= 56
    ensures Down(Down(c, k), 8) == Down(c, k + 8)
  {
  }

  lemma EightOf(c: Word, p: seq<Byte>, i: nat)
    requires i + 8 <= |p|
    ensures Fed(c, p[i..]) == Fed(Shift(Xor(c, Packed(p[i..i + 8])), 64), p[i + 8..])
  {
    var eight := p[i..i + 8];
    assert eight + p[i + 8..] == p[i..];
    FedOfPacked(c, eight);
    FedSplits(c, eight, p[i + 8..]);
  }

  lemma OneOf(c: Word, p: seq<Byte>, i: nat)
    requires i < |p|
    ensures Fed(c, p[i..]) == Fed(Shift(Xor(c, Wide(p[i])), 8), p[i + 1..])
  {
    assert p[i..][1..] == p[i + 1..];
  }

  /** A CRC in the making. */
  class Crc64 {
    var v: Word
    ghost var seen: seq<Byte>

    ghost predicate Valid()
      reads this
    {
      v == Fed(ONES, seen)
    }

    constructor ()
      ensures Valid() && seen == []
    {
      v, seen := ONES, [];
    }

    /** Slicing by eight computes what one bit after the other does. */
    method UpdateTable(t: Table, p: seq<Byte>)
      requires Valid() && |t| == 8 && IsTable(t, 8)
      modifies this
      ensures Valid() && seen == old(seen) + p
    {
      var c, i := v, 0;
      ghost var start := v;
      while |p| - i >= 8
        invariant i <= |p| && Fed(c, p[i..]) == Fed(start, p) && v == start && seen == old(seen)
      {
        EightOf(c, p, i);
        c := EightBytes(t, Xor(c, Packed(p[i..i + 8])));
        i := i + 8;
      }
      while i < |p|
        invariant i <= |p| && Fed(c, p[i..]) == Fed(start, p) && v == start && seen == old(seen)
      {
        OneOf(c, p, i);
        c := ByTable(t, Xor(c, Wide(p[i])));
        i := i + 1;
      }
      FedSplits(ONES, seen, p);
      v := c;
      seen := seen + p;
    }

    method Final() returns (r: Word)
      requires Valid()
      ensures r == Of(seen)
    {
      r := Xor(v, ONES);
    }
  }

  // ---------------------------------------------------------------- joining by squaring

  function Unit(i: nat): Word
    requires i < 64
  {
    Off(i) + [true] + Off(63 - i)
  }

  /** Row `i` is where bit `i` goes under `n` zero bits. */
  ghost predicate IsMatrix(m: seq<Word>, n: nat) {
    |m| == 64 && forall i :: 0 <= i < 64 ==> m[i] == Shift(Unit(i), n)
  }

  /** The bits of `v` from `i` on, in their places. */
  function From(v: Word, i: nat): Word
    requires i <= 64
  {
    Off(i) + v[i..]
  }

  lemma FromStep(v: Word, i: nat, sum: Word, n: nat, row: Word)
    requires i < 64 && row == Shift(Unit(i), n) && Xor(sum, Shift(From(v, i), n)) == Shift(v, n)
    ensures Xor(if v[i] then Xor(sum, row) else sum, Shift(From(v, i + 1), n)) == Shift(v, n)
  {
    TopBit(v, i);
    if v[i] {
      ShiftIsLinear(Unit(i), From(v, i + 1), n);
      XorLaws(sum, row, Shift(From(v, i + 1), n));
    }
  }

  lemma TopBit(v: Word, i: nat)
    requires i < 64
    ensures From(v, i) == if v[i] then Xor(Unit(i), From(v, i + 1)) else From(v, i + 1)
  {
  }

  /** The matrix times a vector. */
  method Times(m: seq<Word>, v: Word, ghost n: nat) returns (sum: Word)
    requires IsMatrix(m, n)
    ensures sum == Shift(v, n)
  {
    var vec, i: nat := v, 0;
    sum := ZERO;
    FromStart(v, n);
    while vec != ZERO
      invariant i <= 64 && vec == Down(v, i) && Xor(sum, Shift(From(v, i), n)) == Shift(v, n)
      decreases 64 - i
    {
      GoneAtEnd(v, i);
      FromStep(v, i, sum, n, m[i]);
      if vec[0] { sum := Xor(sum, m[i]); }
      DownOn(v, i);
      vec, i := Down(vec, 1), i + 1;
    }
    AllGone(v, i);
    ShiftOfZero(n);
    XorLaws(sum, ZERO, ZERO);
  }

  lemma FromStart(v: Word, n: nat)
    ensures Down(v, 0) == v && Xor(ZERO, Shift(From(v, 0), n)) == Shift(v, n)
  {
    XorLaws(Shift(v, n), ZERO, ZERO);
    assert From(v, 0) == v;
  }

  lemma GoneAtEnd(v: Word, i: nat)
    requires i <= 64
    ensures i == 64 ==> Down(v, i) == ZERO
    ensures i < 64 ==> Down(v, i)[0] == v[i]
  {
  }

  lemma DownOn(v: Word, i: nat)
    requires i < 64
    ensures Down(Down(v, i), 1) == Down(v, i + 1)
  {
  }

  lemma AllGone(v: Word, i: nat)
    requires i <= 64 && Down(v, i) == ZERO
    ensures From(v, i) == ZERO
  {
    forall k | i <= k < 64 ensures !v[k] {
      assert Down(v, i)[k - i] == v[k];
    }
  }

  method Square(m: seq<Word>, ghost n: nat) returns (sq: seq<Word>)
    requires IsMatrix(m, n)
    ensures IsMatrix(sq, 2 * n)
  {
    sq := [];
    for i := 0 to 64
      invariant |sq| == i && forall j :: 0 <= j < i ==> sq[j] == Shift(Unit(j), 2 * n)
    {
      var row := Times(m, m[i], n);
      ShiftSplits(Unit(i), n, n);
      sq := sq + [row];
    }
  }

  /** The matrix of a single zero bit. */
  method OneBit() returns (m: seq<Word>)
    ensures IsMatrix(m, 1)
  {
    m := [POLY];
    assert Down(Unit(0), 1) == ZERO;
    XorLaws(POLY, ZERO, ZERO);
    XorLaws(ZERO, POLY, ZERO);
    assert Shift(Unit(0), 1) == Step(Unit(0)) == POLY;
    for i := 1 to 64
      invariant |m| == i && forall j :: 0 <= j < i ==> m[j] == Shift(Unit(j), 1)
    {
      assert Down(Unit(i), 1) == Unit(i - 1);
      assert Shift(Unit(i), 1) == Step(Unit(i)) == Unit(i - 1);
      m := m + [Unit(i - 1)];
    }
  }

  /** The low bit of a length, and what is left for twice as many bits. */
  lemma HalfStep(a: Word, n: nat, len: nat, twice: nat)
    requires len > 0 && twice == 2 * n
    ensures Shift(if len % 2 == 1 then Shift(a, n) else a, twice * (len / 2)) == Shift(a, n * len)
  {
    var half := len / 2;
    assert twice * half == n * (2 * half);
    if len % 2 == 1 {
      assert n * len == n + n * (2 * half);
      ShiftSplits(a, n, twice * half);
    } else {
      assert len == 2 * half;
    }
  }

  /** The CRC of two strings one behind the other, from theirs and the length of the second. */
  method Combine(a0: Word, b: Word, len0: nat) returns (r: Word)
    ensures len0 == 0 ==> r == a0
    ensures len0 > 0 ==> r == Xor(Shift(a0, 8 * len0), b)
  {
    if len0 == 0 { return a0; }
    var odd := OneBit();
    var even := Square(odd, 1);
    odd := Square(even, 2);
    var a, len := a0, len0;
    ghost var n: nat, twice: nat := 4, 8;
    while true
      invariant IsMatrix(odd, n) && twice == 2 * n && len > 0 && Shift(a, twice * len) == Shift(a0, 8 * len0)
      decreases len
    {
      even := Square(odd, n);
      HalfStep(a, twice, len, 2 * twice);
      if len % 2 == 1 { a := Times(even, a, twice); }
      len := len / 2;
      if len == 0 { break; }
      odd := Square(even, twice);
      n, twice := 2 * twice, 4 * twice;
      HalfStep(a, n, len, twice);
      if len % 2 == 1 { a := Times(odd, a, n); }
      len := len / 2;
      if len == 0 { break; }
    }
    r := Xor(a, b);
  }

  /** Joining gives the CRC of the whole, for all byte strings. */
  method Join(s: Word, t: Word, len: nat, ghost a: seq<Byte>, ghost b: seq<Byte>) returns (r: Word)
    requires s == Of(a) && t == Of(b) && len == |b|
    ensures r == Of(a + b)
  {
    r := Combine(s, t, len);
    CrcJoins(a, b);
    assert len == 0 ==> a + b == a;
  }
}
