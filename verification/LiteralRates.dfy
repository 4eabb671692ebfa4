/**
 The bits that carry the numbers of the literal stream: each number as the length of its length
 in ones, then its length, then itself, both without their top bit; written through a register
 that keeps stale high bits, into a buffer of 255 bytes.
 */
module LiteralRates {
  import opened Words
  import opened IntCoding
  import opened BitStream

  // ---------------------------------------------------------------- one number

  function Ones(n: nat): (b: seq<bool>)
    ensures |b| == n
  {
    if n == 0 then [] else [true] + Ones(n - 1)
  }

  /** A value below its top bit, 0 and 1 being sent whole. */
  function Tail(v: nat): seq<bool> {
    Bits(LowBits(v), LowWidth(v))
  }

  function NumberBits(v: nat): seq<bool> {
    Ones(Bsr(Bsr(v))) + ([false] + (Tail(Bsr(v)) + Tail(v)))
  }

  function NumbersBits(s: seq<nat>): seq<bool> {
    if s == [] then [] else NumberBits(s[0]) + NumbersBits(s[1..])
  }

  lemma {:induction false} NumbersSnoc(s: seq<nat>, v: nat)
    ensures NumbersBits(s + [v]) == NumbersBits(s) + NumberBits(v)
  {
    if s == [] {
      assert (s + [v])[1..] == [];
    } else {
      assert (s + [v])[1..] == s[1..] + [v];
      NumbersSnoc(s[1..], v);
      Cat(NumberBits(s[0]), NumbersBits(s[1..]), NumberBits(v));
    }
  }

  // ---------------------------------------------------------------- the writer

  const ROOM := 255

  /** Shifting the register drops its stale bits from above. */
  lemma StaleDropped(acc: U32, kept: nat, v: nat, n: nat)
    requires kept + n == WORD && v < Pow2(n)
    ensures Wrap32(Up(acc, n)) + v == Up(Lo(acc, kept), n) + v < TWO32
  {
    ShiftedOut(acc, n, kept);
    PairFits(Lo(acc, kept), kept, v, n);
    WordFits(WORD);
  }

  lemma LowOfPair(acc: nat, kept: nat, count: nat, v: nat, n: nat)
    requires count <= kept && v < Pow2(n)
    ensures var x := Up(Lo(acc, kept), n) + v;
            Bits(Lo(x, count + n), count + n) == Bits(Lo(acc, count), count) + Bits(v, n)
  {
    LoOfPair(Lo(acc, kept), v, count, n);
    LoOfLo(acc, count, kept);
    BitsOfPair(Lo(acc, count), count, v, n);
  }

  lemma WordIsBoth(acc: U32, count: nat, hi: nat, room: nat) returns (word: U32)
    requires count + room == WORD && hi < Pow2(room)
    ensures word == Wrap32(Up(acc, room)) + hi
    ensures BitsOf(Bytes4(word)) == Bits(Lo(acc, count), count) + Bits(hi, room)
  {
    StaleDropped(acc, count, hi, room);
    word := Wrap32(Up(acc, room)) + hi;
    LowOfPair(acc, count, count, hi, room);
    WordBits(word);
    LoOfSmall(word, WORD);
  }

  /** A register filled to 32 bits by the first of `v`'s bits goes out as a word; the rest is pending. */
  lemma RegisterEmpties(acc: U32, count: nat, v: nat, room: nat, rest: nat) returns (word: U32)
    requires count + room == WORD && v < Pow2(room + rest)
    ensures Hi(v, rest) < Pow2(room) && word == Wrap32(Up(acc, room)) + Hi(v, rest)
    ensures BitsOf(Bytes4(word)) + Bits(Lo(v, rest), rest) == Bits(Lo(acc, count), count) + Bits(v, room + rest)
  {
    BitsSplit(v, room, rest);
    word := WordIsBoth(acc, count, Hi(v, rest), room);
    Cat(Bits(Lo(acc, count), count), Bits(Hi(v, rest), room), Bits(Lo(v, rest), rest));
  }

  lemma WordGoesOut(out: seq<Byte>, acc: U32, count: nat, v: nat, room: nat, rest: nat, word: U32)
    requires v < Pow2(room + rest)
    requires BitsOf(Bytes4(word)) + Bits(Lo(v, rest), rest) == Bits(Lo(acc, count), count) + Bits(v, room + rest)
    ensures BitsOf(out + Bytes4(word)) + Bits(Lo(v, rest), rest) == BitsOf(out) + Bits(Lo(acc, count), count) + Bits(v, room + rest)
  {
    BitsOfConcat(out, Bytes4(word));
    Cat(BitsOf(out), BitsOf(Bytes4(word)), Bits(Lo(v, rest), rest));
    Cat(BitsOf(out), Bits(Lo(acc, count), count), Bits(v, room + rest));
  }

  /** The bytes out and the pending bits of the register are `trace`. */
  ghost predicate Holds(out: seq<Byte>, acc: nat, nbits: nat, trace: seq<bool>) {
    |trace| == 8 * |out| + nbits && trace == BitsOf(out) + Bits(Lo(acc, nbits), nbits)
  }

  lemma KeepHolds(out: seq<Byte>, acc: U32, nbits: nat, v: nat, n: nat) returns (x: nat)
    requires nbits + n <= WORD && v < Pow2(n)
    ensures x == Wrap32(Up(acc, n)) + v < TWO32
    ensures forall trace :: Holds(out, acc, nbits, trace) ==> Holds(out, x, nbits + n, trace + Bits(v, n))
  {
    var kept := WORD - n;
    StaleDropped(acc, kept, v, n);
    x := Up(Lo(acc, kept), n) + v;
    LowOfPair(acc, kept, nbits, v, n);
    Cat(BitsOf(out), Bits(Lo(acc, nbits), nbits), Bits(v, n));
  }

  lemma SpillHolds(out: seq<Byte>, acc: U32, nbits: nat, v: nat, room: nat, rest: nat, trace: seq<bool>) returns (word: U32)
    requires nbits + room == WORD && v < Pow2(room + rest) && Holds(out, acc, nbits, trace)
    ensures Hi(v, rest) < Pow2(room) && word == Wrap32(Up(acc, room)) + Hi(v, rest)
    ensures Holds(out + Bytes4(word), v, rest, trace + Bits(v, room + rest))
    ensures |trace + Bits(v, room + rest)| == 8 * |out| + nbits + room + rest
  {
    word := RegisterEmpties(acc, nbits, v, room, rest);
    WordGoesOut(out, acc, nbits, v, room, rest, word);
  }

  /** HdsBitWriter. `trace` is the history of its bits; `full` is set when a word did not fit. */
  class RateWriter {
    const room: nat
    var out: seq<Byte>
    var acc: U32
    var nbits: nat
    var full: bool
    ghost var trace: seq<bool>

    ghost predicate Buffered()
      reads this
    {
      && nbits <= WORD && |out| % 4 == 0 && |out| <= room
      && if full then |trace| > 8 * room else Holds(out, acc, nbits, trace)
    }

    ghost predicate Valid()
      reads this
    {
      forall k {:trigger Look(RawBits, k)} :: Look(RawBits, k) ==> Buffered()
    }

    constructor (room: nat)
      ensures Valid() && trace == [] && this.room == room
    {
      this.room := room;
      out, acc, nbits, full, trace := [], 0, 0, false, [];
    }

    /** Appends `n` bits of `v`. */
    method Put(v: nat, n: nat)
      requires Valid() && 0 < n < WORD && v < Pow2(n)
      modifies this
      ensures Valid() && trace == old(trace) + Bits(v, n)
    {
      assert Look(RawBits, 0);
      if nbits + n <= WORD {
        Keep(v, n);
      } else if !full && |out| != room {
        Spill(v, n);
      } else {
        full, trace := true, trace + Bits(v, n);
      }
    }

    method Keep(v: nat, n: nat)
      requires Buffered() && 0 < n && nbits + n <= WORD && v < Pow2(n)
      modifies this
      ensures Buffered() && trace == old(trace) + Bits(v, n)
    {
      ghost var x := KeepHolds(out, acc, nbits, v, n);
      trace := trace + Bits(v, n);
      acc, nbits := Wrap32(Up(acc, n)) + v, nbits + n;
    }

    /** A full word goes out, if there is room, and `v` stays in the register with its high bits. */
    method Spill(v: nat, n: nat)
      requires Buffered() && !full && 0 < n < WORD < nbits + n && v < Pow2(n)
      modifies this
      ensures Buffered() && trace == old(trace) + Bits(v, n)
    {
      var fit := WORD - nbits;
      var rest := n - fit;
      ghost var w := SpillHolds(out, acc, nbits, v, fit, rest, trace);
      var word: U32 := Wrap32(Up(acc, fit)) + Hi(v, rest);
      ghost var longer := trace + Bits(v, n);
      WordFits(n);
      if |out| + 4 > room { Lose(v, rest, longer); } else { Send(word, v, rest, longer); }
    }

    method Lose(v: U32, rest: nat, ghost longer: seq<bool>)
      requires rest <= WORD && |out| % 4 == 0 && |out| <= room && |longer| > 8 * room
      modifies this
      ensures Buffered() && trace == longer
    {
      full, acc, nbits, trace := true, v, rest, longer;
    }

    method Send(word: U32, v: U32, rest: nat, ghost longer: seq<bool>)
      requires rest <= WORD && |out| % 4 == 0 && |out| + 4 <= room && !full && Holds(out + Bytes4(word), v, rest, longer)
      modifies this
      ensures Buffered() && trace == longer
    {
      out, acc, nbits, trace := out + Bytes4(word), v, rest, longer;
    }

    /** Appends a number: PutEG. */
    method PutNumber(v: nat)
      requires Valid() && v < TWO32
      modifies this
      ensures Valid() && trace == old(trace) + NumberBits(v)
    {
      BsrOfRegister(v);
      var k := Bsr(v);
      PutLength(Bsr(k));
      PutTail(k, Bsr(k));
      PutTail(v, k);
      JoinNumber(old(trace), Ones(Bsr(k)), Tail(k), Tail(v));
    }

    /** `n` ones and a zero. */
    method PutLength(n: nat)
      requires Valid() && n + 1 < WORD
      modifies this
      ensures Valid() && trace == old(trace) + (Ones(n) + [false])
    {
      OnesBits(n);
      Put(Pow2(n + 1) - 2, n + 1);
    }

    /**
     What is pending goes out byte by byte, zeros filling up the last. The bits arrive whole exactly
     when there is room for them.
     */
    method Flush() returns (bytes: seq<Byte>)
      requires Valid()
      modifies this`nbits
      ensures |bytes| <= room && (|trace| <= 8 * room ==> 8 * |bytes| < |trace| + 8)
      ensures (!full && |bytes| < room ==> |trace| <= 8 * room) && (full ==> |trace| > 8 * room)
      ensures Starts(BitsOf(bytes), trace) && |trace| <= |BitsOf(bytes)| <==> |trace| <= 8 * room
    {
      assert Look(RawBits, 0);
      bytes := out;
      var lost := full;
      var left: nat, reg: U32 := nbits, acc;
      ghost var sent, whole := trace, |trace| <= 8 * room;
      if whole { DrainBegins(out, acc, nbits, trace); }
      while left != 0
        invariant |bytes| <= room && (whole ==> !lost && 8 * |bytes| + left < |sent| + 8)
        invariant !full && |bytes| < room ==> 8 * |bytes| + left >= |trace|
        invariant whole ==> Draining(bytes, reg, left, sent) && (left > 0 ==> 8 * |bytes| + left == |sent| <= 8 * room)
        decreases left
      {
        var n := if left < 8 then 0 else left - 8;
        var b: Byte := if left < 8 then Up(reg, 8 - left) % 256 else Hi(reg, n) % 256;
        if whole {
          DrainOne(bytes, reg, left, sent);
          assert |bytes| < room;
        }
        if |bytes| < room && !lost { bytes := bytes + [b]; }
        left := n;
      }
      nbits := 0;
      if whole { DrainedStarts(bytes, reg, sent); }
    }

    /** What lies below the top bit `top` of `x`; 0 and 1 whole. */
    method PutTail(x: nat, top: nat)
      requires Valid() && top == Bsr(x) < WORD
      modifies this
      ensures Valid() && trace == old(trace) + Tail(x)
    {
      LowIsMasked(x);
      var m := if top == 0 then 1 else top;
      Put(Lo(x, m), m);
    }
  }

  lemma {:induction false} OnesBits(n: nat)
    ensures Bits(Pow2(n) - 1, n) == Ones(n)
    ensures Bits(Pow2(n + 1) - 2, n + 1) == Ones(n) + [false]
  {
    if n > 0 {
      OnesBits(n - 1);
      OnesEnd(n - 1);
      assert (Pow2(n) - 1) / 2 == Pow2(n - 1) - 1 && (Pow2(n) - 1) % 2 == 1;
    }
    assert (Pow2(n + 1) - 2) / 2 == Pow2(n) - 1 && (Pow2(n + 1) - 2) % 2 == 0;
  }

  lemma {:induction false} OnesEnd(n: nat)
    ensures Ones(n + 1) == Ones(n) + [true]
  {
    if n > 0 { OnesEnd(n - 1); }
  }

  /** Masking leaves what is below the top bit. */
  lemma LowIsMasked(v: nat)
    ensures Lo(v, LowWidth(v)) == LowBits(v)
  {
    var n := LowWidth(v);
    if Bsr(v) == 0 {
      BsrBounds(v);
      LoOfSmall(v, 1);
    } else {
      OneUp(n);
      PartsOfPair(1, LowBits(v), n);
    }
  }

  lemma {:induction false} OneUp(n: nat)
    ensures Up(1, n) == Pow2(n)
    decreases n
  {
    if n > 0 { OneUp(n - 1); }
  }

  lemma JoinNumber(a: seq<bool>, b: seq<bool>, c: seq<bool>, d: seq<bool>)
    ensures a + (b + [false]) + c + d == a + (b + ([false] + (c + d)))
  {
  }

  lemma BsrOfRegister(v: nat)
    requires v < TWO32
    ensures Bsr(v) <= 31 && Bsr(Bsr(v)) <= 4
  {
    BsrBounds(v);
    Powers();
    if Bsr(v) >= 32 { Pow2Monotone(32, Bsr(v)); }
    BsrMonotone(Bsr(v), 31);
    assert Bsr(31) == 4;
  }

  lemma DrainBegins(out: seq<Byte>, acc: nat, nbits: nat, trace: seq<bool>)
    requires Holds(out, acc, nbits, trace)
    ensures Draining(out, acc, nbits, trace)
  {
    if nbits == 0 {
      assert BitsOf(out) + Bits(Lo(acc, 0), 0) == BitsOf(out) == trace == trace + Zeros(0);
    }
  }

  lemma DrainOne(bytes: seq<Byte>, acc: nat, left: nat, trace: seq<bool>)
    requires left > 0 && Draining(bytes, acc, left, trace)
    ensures left < 8 ==> Draining(bytes + [Up(acc, 8 - left) % 256], acc, 0, trace)
    ensures left >= 8 ==> Draining(bytes + [Hi(acc, left - 8) % 256], acc, left - 8, trace)
  {
    if left < 8 {
      DrainLast(bytes, acc, left, trace);
    } else {
      DrainNext(bytes, acc, left - 8, trace);
    }
  }

  lemma DrainedStarts(bytes: seq<Byte>, acc: nat, trace: seq<bool>)
    requires Draining(bytes, acc, 0, trace)
    ensures Starts(BitsOf(bytes), trace) && |trace| <= |BitsOf(bytes)|
  {
  }

  // ---------------------------------------------------------------- the reader

  /** The widest length a number can be asked for. */
  const WIDEST := 31

  /** A value below its top bit: LzhdsReadBits of so many bits, and the bit above them. */
  method ReadTail(r: BitReader, top: nat, ghost v: nat, ghost later: seq<bool>) returns (x: nat)
    requires r.Valid() && top <= WIDEST
    modifies r
    ensures r.Valid() && x < Pow2(top + 1)
    ensures top == Bsr(v) && old(r.Ahead(Tail(v) + later)) ==> x == v && r.Ahead(later)
  {
    if top == 0 {
      x := r.GetBits(1, LowBits(v), later);
    } else {
      x := r.GetBits(top, LowBits(v), later);
      x := x + Pow2(top);
    }
  }

  /** The ones before a zero: how long the length is. A longer run of ones than any number has is refused. */
  method ReadOnes(r: BitReader, ghost n: nat, ghost later: seq<bool>) returns (ok: bool, count: nat)
    requires r.Valid()
    modifies r
    ensures r.Valid() && (ok ==> count <= 4)
    ensures n <= 4 && old(r.Ahead(Ones(n) + ([false] + later))) ==> ok && count == n && r.Ahead(later)
  {
    ghost var known := n <= 4 && r.Ahead(Ones(n) + ([false] + later));
    count := 0;
    while true
      invariant r.Valid() && count <= 4
      invariant known ==> count <= n && r.Ahead(Ones(n - count) + ([false] + later))
      decreases 4 - count
    {
      ghost var one := known && count < n;
      if known { OnesNext(n - count, later); }
      var bit := r.GetBits(1, if one then 1 else 0, if one then Ones(n - count - 1) + ([false] + later) else later);
      if bit == 0 { return true, count; }
      if count == 4 { return false, count; }
      count := count + 1;
    }
  }

  lemma OnesNext(n: nat, later: seq<bool>)
    ensures Bits(1, 1) == [true] && Bits(0, 1) == [false]
    ensures n > 0 ==> Ones(n) + ([false] + later) == [true] + (Ones(n - 1) + ([false] + later))
    ensures n == 0 ==> Ones(n) + ([false] + later) == [false] + later
  {
  }

  /** LzhdsExpGolomb. */
  method ReadNumber(r: BitReader, ghost v: nat, ghost later: seq<bool>) returns (ok: bool, x: nat)
    requires r.Valid()
    modifies r
    ensures r.Valid() && x < TWO32
    ensures v < TWO32 && old(r.Ahead(NumberBits(v) + later)) ==> ok && x == v && r.Ahead(later)
  {
    ghost var known := v < TWO32 && r.Ahead(NumberBits(v) + later);
    if known {
      BsrOfRegister(v);
      NumberAhead(v, later);
    }
    var top, k;
    ok, top := ReadOnes(r, Bsr(Bsr(v)), Tail(Bsr(v)) + (Tail(v) + later));
    x := 0;
    if !ok { return; }
    k := ReadTail(r, top, Bsr(v), Tail(v) + later);
    WidthFits(top, k);
    x := ReadTail(r, k, v, later);
    WordFits(k + 1);
  }

  lemma WidthFits(top: nat, k: nat)
    requires top <= 4 && k < Pow2(top + 1)
    ensures k <= WIDEST
  {
    Pow2Monotone(top + 1, 5);
    assert Pow2(5) == 32;
  }

  lemma NumberAhead(v: nat, later: seq<bool>)
    ensures NumberBits(v) + later == Ones(Bsr(Bsr(v))) + ([false] + (Tail(Bsr(v)) + (Tail(v) + later)))
  {
    var a, b, c := Ones(Bsr(Bsr(v))), Tail(Bsr(v)), Tail(v);
    assert a + ([false] + (b + c)) + later == a + ([false] + (b + (c + later)));
  }
}
