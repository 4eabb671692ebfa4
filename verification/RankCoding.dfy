/**
 How one rank of the bucket coder is coded: contexts, adaptive cells, and the split of a value
 between the arithmetic stream and the raw bits (CodeRank, and the reading half of
 BwtUnpackInput::Decode).
 */
module RankCoding {
  import opened Words
  import opened RangeCoder
  import opened IntCoding
  import opened BitStream

  const A_CELLS: nat := 6146
  const B_CELLS: nat := 512
  const ZERO_RULE := Rated(0x40, 6)
  const LENGTH_RULE := Rated(0x80, 7)
  const LONGEST: nat := 31

  /** The cells, and the two averages kept for every symbol. */
  datatype Ranks = Ranks(a: Cells, b: Cells, x: seq<U32>, y: seq<U32>)

  ghost predicate Sized(m: Ranks) {
    |m.a| == A_CELLS && |m.b| == B_CELLS && |m.x| == |m.y| == 256
  }

  function FreshRanks(): (m: Ranks)
    ensures Sized(m)
  {
    Ranks(seq(A_CELLS, _ => 0x8002), seq(B_CELLS, _ => 0x8000), seq(256, _ => 0), seq(256, _ => 0))
  }

  // ---------------------------------------------------------------- contexts

  /** kSomeLut. */
  function LengthClass(i: nat): (k: nat)
    ensures k <= 9
  {
    if i < 2 then 0 else if i < 3 then 1 else if i < 5 then 2 else if i < 8 then 3 else if i < 14 then 4
    else if i < 26 then 5 else if i < 49 then 6 else if i < 112 then 7 else if i < 319 then 8 else 9
  }

  /** kSomeLut2. */
  function GapClass(i: nat): (k: nat)
    ensures k <= 5
  {
    if i == 0 then 5 else if i == 1 then 4 else if i == 2 then 3 else if i < 7 then 2 else if i < 10 then 1 else 0
  }

  /** How close together the first symbols' positions are. */
  function Hash(c0: nat, c1: nat, c2: nat, c3: nat, c4: nat): (h: nat)
    ensures h < 16
  {
    var near4 := if Wrap32(c4 - c1) < 4 then 1 else 0;
    var near3 := if Wrap32(c3 - c1) < 3 then 1 else 0;
    var near1 := if Wrap32(c1 - c0) < 2 then 1 else 0;
    2 * (near4 + near3 + GapClass((c2 - c1 - 1) % 256)) + near1
  }

  function Context(x: U32): (k: nat)
    ensures k <= 11
  {
    var s := Wrap32(x + 0x80) / 256;
    (if x != 0 then 1 else 0) + (if s > 0x800 then 1 else 0) + LengthClass(if s < 0x17f then s else 0x17f)
  }

  /** The first of a context's cells; the lengths' cells follow it. */
  function Base(hash: nat, x: U32): (i: nat)
    requires hash < 16
    ensures i + 1 + LONGEST <= A_CELLS
  {
    0x20 * hash + 0x200 * Context(x)
  }

  function NextY(x: U32, y: U32): U32 {
    Wrap32(3 * y + 5 * x + 259) / 8
  }

  function NextX(delta: nat, y: U32): U32 {
    Wrap32(delta * 1024 + 12 * y + 8) / 16
  }

  /** The averages of `sym` after it was coded `delta` away. */
  function Averaged(m: Ranks, sym: Byte, delta: nat): (r: Ranks)
    requires Sized(m)
    ensures Sized(r)
  {
    var y := NextY(m.x[sym], m.y[sym]);
    m.(x := m.x[sym := NextX(delta, y)], y := m.y[sym := y])
  }

  // ---------------------------------------------------------------- the code of one rank

  /** What a rank becomes: decisions, raw bits, and the cells after it. */
  datatype Rank = Rank(ds: seq<Decision>, raw: seq<bool>, m: Ranks)

  /** Bits of `v` below its highest, one at least. */
  function TailWidth(v: nat): (n: nat)
    ensures n >= 1
  {
    if Bsr(v) == 0 then 1 else Bsr(v)
  }

  /** The bit below the highest; 0 and 1 give themselves. */
  function SecondBit(v: nat): bool {
    Hi(v, TailWidth(v) - 1) % 2 == 1
  }

  /** Length, second bit and the bits below it make up the value. */
  lemma ValueFromBits(v: nat)
    ensures v == Up((if Bsr(v) != 0 then 2 else 0) + (if SecondBit(v) then 1 else 0), TailWidth(v) - 1) + Lo(v, TailWidth(v) - 1)
    ensures Lo(v, TailWidth(v) - 1) < Pow2(TailWidth(v) - 1)
  {
    var k := TailWidth(v) - 1;
    Parts(v, k);
    if Bsr(v) != 0 {
      BsrOfHi(v, k);
      assert Hi(v, k) / 2 == 1;
    }
  }

  lemma BsrOfWord(v: nat)
    requires v < TWO32
    ensures Bsr(v) <= 31
  {
    BsrBounds(v);
    if Bsr(v) >= 32 {
      Pow2Monotone(32, Bsr(v));
      Powers();
    }
  }

  /** The code of a rank above zero, given the cell row it starts from. */
  function LongCode(a: Cells, b: Cells, base: nat, hash: nat, v: nat): (r: (seq<Decision>, Cells, Cells))
    requires |b| == B_CELLS && base + 1 + LONGEST <= |a| && hash < 16 && Bsr(v) <= LONGEST
    ensures |r.1| == |a| && |r.2| == |b|
  {
    var u := Unary(LENGTH_RULE, a, base + 1, 0, Bsr(v), LONGEST);
    var i := Bsr(v) * 16 + hash;
    (u.ds + [Decision(SecondBit(v), P12(b[i]))], u.m, b[i := Nudge(b[i], SecondBit(v), 512, 1024)])
  }

  function RawBits(v: nat): seq<bool> {
    Bits(Lo(v, TailWidth(v) - 1), TailWidth(v) - 1)
  }

  /** What coding a rank does to the cells. */
  datatype Coding = Coding(ds: seq<Decision>, raw: seq<bool>, a: Cells, b: Cells)

  function CellCode(a: Cells, b: Cells, base: nat, hash: nat, delta: nat): (r: Coding)
    requires |b| == B_CELLS && base + 1 + LONGEST <= |a| && hash < 16 && delta < TWO32
    ensures |r.a| == |a| && |r.b| == |b|
  {
    var d := Decision(delta == 0, P12(a[base]));
    var a1 := a[base := Moved(ZERO_RULE, a[base], delta == 0)];
    if delta == 0 then Coding([d], [], a1, b)
    else
      BsrOfWord(delta - 1);
      var (ds, a2, b2) := LongCode(a1, b, base, hash, delta - 1);
      Coding([d] + ds, RawBits(delta - 1), a2, b2)
  }

  function RankCode(m: Ranks, hash: nat, sym: Byte, delta: nat): (r: Rank)
    requires Sized(m) && hash < 16 && delta < TWO32
    ensures Sized(r.m)
  {
    var c := CellCode(m.a, m.b, Base(hash, m.x[sym]), hash, delta);
    Rank(c.ds, c.raw, Averaged(m.(a := c.a, b := c.b), sym, delta))
  }

  // ---------------------------------------------------------------- writing

  method WriteRank(enc: Encoder, bits: BitWriter, m0: Ranks, hash: nat, sym: Byte, delta: nat) returns (m: Ranks)
    requires enc.Valid() && bits.Valid() && Sized(m0) && hash < 16 && delta < TWO32
    modifies enc, bits
    ensures enc.Valid() && bits.Valid() && (old(bits.overflow) ==> bits.overflow)
    ensures enc.trace == old(enc.trace) + RankCode(m0, hash, sym, delta).ds
    ensures bits.trace == old(bits.trace) + RankCode(m0, hash, sym, delta).raw
    ensures m == RankCode(m0, hash, sym, delta).m
  {
    m := WriteCells(enc, bits, m0, Base(hash, m0.x[sym]), hash, delta);
    m := Averaged(m, sym, delta);
  }

  method WriteCells(enc: Encoder, bits: BitWriter, m0: Ranks, base: nat, hash: nat, delta: nat) returns (m: Ranks)
    requires enc.Valid() && bits.Valid() && Sized(m0) && hash < 16 && base + 1 + LONGEST <= A_CELLS && delta < TWO32
    modifies enc, bits
    ensures enc.Valid() && bits.Valid() && (old(bits.overflow) ==> bits.overflow)
    ensures var c := CellCode(m0.a, m0.b, base, hash, delta);
      && enc.trace == old(enc.trace) + c.ds && bits.trace == old(bits.trace) + c.raw && m == m0.(a := c.a, b := c.b)
  {
    var flag := delta == 0;
    enc.Encode(flag, P12(m0.a[base]));
    m := m0.(a := m0.a[base := Moved(ZERO_RULE, m0.a[base], flag)]);
    if !flag {
      BsrOfWord(delta - 1);
      m := WriteLong(enc, bits, m, base, hash, delta - 1);
    }
  }

  method WriteLong(enc: Encoder, bits: BitWriter, m0: Ranks, base: nat, hash: nat, v: nat) returns (m: Ranks)
    requires enc.Valid() && bits.Valid() && Sized(m0) && hash < 16 && base + 1 + LONGEST <= A_CELLS && Bsr(v) <= LONGEST
    modifies enc, bits
    ensures enc.Valid() && bits.Valid() && (old(bits.overflow) ==> bits.overflow)
    ensures var (ds, a, b) := LongCode(m0.a, m0.b, base, hash, v);
      enc.trace == old(enc.trace) + ds && m == m0.(a := a, b := b)
    ensures bits.trace == old(bits.trace) + RawBits(v)
  {
    var ik := Bsr(v);
    var a := WriteUnary(enc, LENGTH_RULE, m0.a, base + 1, ik, LONGEST);
    var nbits := ik + if ik == 0 then 1 else 0;
    var flag := Hi(v, nbits - 1) % 2 == 1;
    var i := ik * 16 + hash;
    enc.Encode(flag, P12(m0.b[i]));
    m := m0.(a := a, b := m0.b[i := Nudge(m0.b[i], flag, 512, 1024)]);
    if ik > 1 {
      bits.Put(Lo(v, nbits - 1), nbits - 1);
    }
  }

  // ---------------------------------------------------------------- reading

  /** Reads a rank; one above `limit` is refused. */
  method ReadRank(dec: Decoder, bits: BitReader, m0: Ranks, hash: nat, sym: Byte, limit: nat,
                  ghost want: nat, ghost later: seq<Decision>, ghost laterBits: seq<bool>)
    returns (ok: bool, delta: U32, m: Ranks)
    requires dec.Valid() && bits.Valid() && Sized(m0) && hash < 16
    modifies dec, bits
    ensures dec.Valid() && bits.Valid() && Sized(m) && (ok ==> delta <= limit)
    ensures want < TWO32 && want <= limit && old(dec.Ahead(RankCode(m0, hash, sym, want).ds + later))
        && old(bits.Ahead(RankCode(m0, hash, sym, want).raw + laterBits))
      ==> (ok && delta == want && m == RankCode(m0, hash, sym, want).m && dec.Ahead(later) && bits.Ahead(laterBits))
  {
    delta, m := ReadCells(dec, bits, m0, Base(hash, m0.x[sym]), hash, want, later, laterBits);
    ok := delta <= limit;
    m := Averaged(m, sym, delta);
  }

  method ReadCells(dec: Decoder, bits: BitReader, m0: Ranks, base: nat, hash: nat,
                   ghost want: nat, ghost later: seq<Decision>, ghost laterBits: seq<bool>)
    returns (delta: U32, m: Ranks)
    requires dec.Valid() && bits.Valid() && Sized(m0) && hash < 16 && base + 1 + LONGEST <= A_CELLS
    modifies dec, bits
    ensures dec.Valid() && bits.Valid() && Sized(m)
    ensures want < TWO32 && old(dec.Ahead(CellCode(m0.a, m0.b, base, hash, want).ds + later))
        && old(bits.Ahead(CellCode(m0.a, m0.b, base, hash, want).raw + laterBits))
      ==> (delta == want && dec.Ahead(later) && bits.Ahead(laterBits)
        && m == m0.(a := CellCode(m0.a, m0.b, base, hash, want).a, b := CellCode(m0.a, m0.b, base, hash, want).b))
  {
    ghost var coded := want < TWO32 && dec.Ahead(CellCode(m0.a, m0.b, base, hash, want).ds + later)
      && bits.Ahead(CellCode(m0.a, m0.b, base, hash, want).raw + laterBits);
    ghost var v := if want > 0 then want - 1 else 0;
    ghost var more := later;
    if coded && want > 0 { more := PastZeroFlag(m0.a, m0.b, base, hash, want, later); }
    var flag := dec.Read(P12(m0.a[base]));
    m := m0.(a := m0.a[base := Moved(ZERO_RULE, m0.a[base], flag)]);
    assert coded ==> flag == (want == 0) && dec.future == more;
    if flag {
      assert coded ==> bits.future == laterBits;
      return 0, m;
    }
    var value;
    value, m := ReadLong(dec, bits, m, base, hash, v, later, laterBits);
    delta := Incremented(value);
  }

  function Incremented(v: U32): (r: U32)
    ensures v + 1 < TWO32 ==> r == v + 1
  {
    Wrap32(v + 1)
  }

  /** The decisions of a rank above zero behind its first flag. */
  lemma PastZeroFlag(a: Cells, b: Cells, base: nat, hash: nat, want: nat, later: seq<Decision>) returns (more: seq<Decision>)
    requires |b| == B_CELLS && base + 1 + LONGEST <= |a| && hash < 16 && 0 < want < TWO32
    ensures Bsr(want - 1) <= LONGEST
    ensures CellCode(a, b, base, hash, want).ds + later == [Decision(false, P12(a[base]))] + more
    ensures more == LongCode(a[base := Moved(ZERO_RULE, a[base], false)], b, base, hash, want - 1).0 + later
  {
    BsrOfWord(want - 1);
    more := LongCode(a[base := Moved(ZERO_RULE, a[base], false)], b, base, hash, want - 1).0 + later;
    Cat([Decision(false, P12(a[base]))], LongCode(a[base := Moved(ZERO_RULE, a[base], false)], b, base, hash, want - 1).0, later);
  }

  method ReadLong(dec: Decoder, bits: BitReader, m0: Ranks, base: nat, hash: nat,
                  ghost v: nat, ghost later: seq<Decision>, ghost laterBits: seq<bool>)
    returns (value: U32, m: Ranks)
    requires dec.Valid() && bits.Valid() && Sized(m0) && hash < 16 && base + 1 + LONGEST <= A_CELLS
    modifies dec, bits
    ensures dec.Valid() && bits.Valid() && Sized(m)
    ensures Bsr(v) <= LONGEST && v < TWO32 && old(dec.Ahead(LongCode(m0.a, m0.b, base, hash, v).0 + later))
        && old(bits.Ahead(RawBits(v) + laterBits))
      ==> (value == v && dec.Ahead(later) && bits.Ahead(laterBits)
        && m == m0.(a := LongCode(m0.a, m0.b, base, hash, v).1, b := LongCode(m0.a, m0.b, base, hash, v).2))
  {
    ghost var coded := Bsr(v) <= LONGEST && v < TWO32 && dec.Ahead(LongCode(m0.a, m0.b, base, hash, v).0 + later)
      && bits.Ahead(RawBits(v) + laterBits);
    ghost var second := [Decision(SecondBit(v), P12(m0.b[if coded then Bsr(v) * 16 + hash else 0]))];
    if coded {
      Cat(Unary(LENGTH_RULE, m0.a, base + 1, 0, Bsr(v), LONGEST).ds, second, later);
    }
    var ik, a := ReadUnary(dec, LENGTH_RULE, m0.a, base + 1, LONGEST, Bsr(v), second + later);
    var i := ik * 16 + hash;
    var flag := dec.Read(P12(m0.b[i]));
    m := m0.(a := a, b := m0.b[i := Nudge(m0.b[i], flag, 512, 1024)]);
    assert coded ==> ik == Bsr(v) && flag == SecondBit(v) && dec.future == later;
    value := ReadTail(bits, ik, flag, v, laterBits);
  }

  /** The value from its length, its second bit and the raw bits below. */
  method ReadTail(bits: BitReader, ik: nat, flag: bool, ghost v: nat, ghost laterBits: seq<bool>) returns (value: U32)
    requires bits.Valid() && ik <= LONGEST
    modifies bits
    ensures bits.Valid()
    ensures v < TWO32 && ik == Bsr(v) && flag == SecondBit(v) && old(bits.Ahead(RawBits(v) + laterBits))
      ==> value == v && bits.Ahead(laterBits)
  {
    ghost var coded := v < TWO32 && ik == Bsr(v) && flag == SecondBit(v) && bits.Ahead(RawBits(v) + laterBits);
    var upper: nat := (if ik != 0 then 2 else 0) + if flag then 1 else 0;
    ValueFromBits(v);
    if ik > 1 {
      var low := bits.GetBits(ik - 1, Lo(v, TailWidth(v) - 1), laterBits);
      upper := Up(upper, ik - 1) + low;
    }
    assert coded ==> upper == v && bits.Ahead(laterBits);
    value := Wrap32(upper);
  }
}
