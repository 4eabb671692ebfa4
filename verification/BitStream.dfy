/** The raw bits beside the arithmetic stream: big-endian words, highest bit first (BwtBitWriter, BitReader). */
module BitStream {
  import opened Arith
  import opened Words
  import opened IntCoding

  // ---------------------------------------------------------------- shifts and masks

  /** `v << k`. */
  function Up(v: nat, k: nat): nat
    decreases k, v
  {
    if k == 0 then v else 2 * Up(v, k - 1)
  }

  /** `v >> k`. */
  function Hi(v: nat, k: nat): nat
    decreases k, v
  {
    if k == 0 then v else Hi(v / 2, k - 1)
  }

  /** The low `k` bits of `v`. */
  function Lo(v: nat, k: nat): (r: nat)
    ensures r < Pow2(k) && r <= v
    decreases k, v
  {
    if k == 0 then 0 else 2 * Lo(v / 2, k - 1) + v % 2
  }

  lemma {:induction false} Parts(v: nat, k: nat)
    ensures v == Up(Hi(v, k), k) + Lo(v, k)
    decreases k
  {
    if k != 0 { Parts(v / 2, k - 1); }
  }

  /** A value and `k` bits below it come apart again. */
  lemma {:induction false} PartsOfPair(v: nat, w: nat, k: nat)
    requires w < Pow2(k)
    ensures Hi(Up(v, k) + w, k) == v && Lo(Up(v, k) + w, k) == w
    decreases k
  {
    if k != 0 {
      PartsOfPair(v, w / 2, k - 1);
      assert (Up(v, k) + w) / 2 == Up(v, k - 1) + w / 2;
    }
  }

  lemma {:induction false} LoOfPair(v: nat, w: nat, n: nat, k: nat)
    requires w < Pow2(k)
    ensures Lo(Up(v, k) + w, n + k) == Up(Lo(v, n), k) + w
    decreases k
  {
    if k != 0 {
      LoOfPair(v, w / 2, n, k - 1);
      assert (Up(v, k) + w) / 2 == Up(v, k - 1) + w / 2;
    }
  }

  lemma {:induction false} LoOfLo(v: nat, n: nat, k: nat)
    ensures n <= k ==> Lo(Lo(v, k), n) == Lo(v, n)
    decreases n
  {
    if n != 0 && n <= k { LoOfLo(v / 2, n - 1, k - 1); }
  }

  lemma {:induction false} HiOfLo(v: nat, n: nat, k: nat)
    ensures Hi(Lo(v, n + k), k) == Lo(Hi(v, k), n)
    decreases k
  {
    if k != 0 { HiOfLo(v / 2, n, k - 1); }
  }

  lemma {:induction false} LoOfSmall(v: nat, k: nat)
    requires v < Pow2(k)
    ensures Lo(v, k) == v && Hi(v, k) == 0
    decreases k
  {
    if k != 0 { LoOfSmall(v / 2, k - 1); }
  }

  lemma {:induction false} HiFits(v: nat, n: nat, k: nat)
    requires v < Pow2(n + k)
    ensures Hi(v, k) < Pow2(n)
    decreases k
  {
    if k != 0 { HiFits(v / 2, n, k - 1); }
  }

  lemma {:induction false} PairFits(v: nat, n: nat, w: nat, k: nat)
    requires v < Pow2(n) && w < Pow2(k)
    ensures Up(v, k) + w < Pow2(n + k)
    decreases k
  {
    if k != 0 { PairFits(v, n, w / 2, k - 1); }
  }

  lemma Powers()
    ensures Pow2(8) == TWO8 && Pow2(16) == TWO16 && Pow2(24) == TWO24 && Pow2(32) == TWO32
  {
    assert Pow2(8) == TWO8;
    assert Pow2(16) == TWO16;
    assert Pow2(24) == TWO24;
  }

  lemma WordFits(n: nat)
    requires n <= 32
    ensures Pow2(n) <= TWO32
  {
    Pow2Monotone(n, 32);
    Powers();
  }

  lemma {:induction false} UpScales(v: nat, k: nat)
    ensures Up(v, k) == v * Pow2(k)
    decreases k
  {
    if k != 0 { UpScales(v, k - 1); }
  }

  /** Masking is the remainder by the power of two: for bytes and words, truncation. */
  lemma LoIsMod(v: nat, k: nat)
    ensures Lo(v, k) == v % Pow2(k)
  {
    Parts(v, k);
    UpScales(Hi(v, k), k);
    DivUnique(v, Hi(v, k), Pow2(k), Lo(v, k));
  }

  // ---------------------------------------------------------------- bits

  /** `n` bits of `v`, highest first. */
  function Bits(v: nat, n: nat): (b: seq<bool>)
    requires v < Pow2(n)
    ensures |b| == n
    decreases n, v
  {
    if n == 0 then [] else Bits(v / 2, n - 1) + [v % 2 == 1]
  }

  /** Two values side by side. */
  lemma {:induction false} BitsOfPair(v: nat, n: nat, w: nat, k: nat)
    requires v < Pow2(n) && w < Pow2(k)
    ensures Up(v, k) + w < Pow2(n + k)
    ensures Bits(Up(v, k) + w, n + k) == Bits(v, n) + Bits(w, k)
    decreases k
  {
    PairFits(v, n, w, k);
    if k != 0 {
      BitsOfPair(v, n, w / 2, k - 1);
      assert (Up(v, k) + w) / 2 == Up(v, k - 1) + w / 2;
      assert Bits(v, n) + Bits(w, k) == (Bits(v, n) + Bits(w / 2, k - 1)) + [w % 2 == 1];
    }
  }

  /** The top `n` of `n + k` bits, and the rest. */
  lemma BitsSplit(x: nat, n: nat, k: nat)
    requires x < Pow2(n + k)
    ensures Hi(x, k) < Pow2(n)
    ensures Bits(x, n + k) == Bits(Hi(x, k), n) + Bits(Lo(x, k), k)
  {
    Parts(x, k);
    HiFits(x, n, k);
    BitsOfPair(Hi(x, k), n, Lo(x, k), k);
  }

  /** Equal bits, equal values. */
  lemma {:induction false} BitsInjective(v: nat, w: nat, n: nat)
    requires v < Pow2(n) && w < Pow2(n) && Bits(v, n) == Bits(w, n)
    ensures v == w
    decreases n
  {
    if n != 0 {
      assert Bits(v, n)[..n - 1] == Bits(v / 2, n - 1) && Bits(w, n)[..n - 1] == Bits(w / 2, n - 1);
      assert Bits(v, n)[n - 1] == Bits(w, n)[n - 1];
      BitsInjective(v / 2, w / 2, n - 1);
    }
  }

  function Zeros(n: nat): (z: seq<bool>)
    ensures |z| == n && forall i :: 0 <= i < n ==> !z[i]
  {
    seq(n, _ => false)
  }

  lemma {:induction false} ZeroBits(n: nat)
    ensures Bits(0, n) == Zeros(n)
  {
    if n != 0 {
      ZeroBits(n - 1);
      assert Zeros(n) == Zeros(n - 1) + [false];
    }
  }

  const BYTE: nat := 8
  const WORD: nat := 32

  lemma ByteFits(b: Byte)
    ensures b < Pow2(BYTE)
  {
  }

  function BitsOf(s: seq<Byte>): (b: seq<bool>)
    ensures |b| == 8 * |s|
  {
    if s == [] then []
    else
      ByteFits(s[|s| - 1]);
      BitsOf(s[..|s| - 1]) + Bits(s[|s| - 1], BYTE)
  }

  lemma BitsOfOne(b: Byte)
    ensures b < Pow2(BYTE) && BitsOf([b]) == Bits(b, BYTE)
  {
    ByteFits(b);
    assert [b][..0] == [];
  }

  lemma {:induction false} BitsOfConcat(s: seq<Byte>, t: seq<Byte>)
    ensures BitsOf(s + t) == BitsOf(s) + BitsOf(t)
  {
    if t == [] {
      assert s + t == s;
    } else {
      BitsOfConcat(s, t[..|t| - 1]);
      assert (s + t)[..|s + t| - 1] == s + t[..|t| - 1];
    }
  }

  lemma Truncated(v: nat)
    ensures Lo(v, BYTE) == v % 256 && Lo(v, WORD) == Wrap32(v)
  {
    LoIsMod(v, BYTE);
    LoIsMod(v, WORD);
    Powers();
  }

  lemma WordBits(w: U32)
    ensures w < Pow2(WORD) && BitsOf(Bytes4(w)) == Bits(w, WORD)
  {
    Powers();
    var a, b, c := Hi(w, 24), Lo(Hi(w, 16), BYTE), Lo(Hi(w, 8), BYTE);
    HiIsQuotient(w);
    BitsSplit(w, 24, BYTE);
    BitsSplit(Hi(w, 8), 16, BYTE);
    BitsSplit(Hi(w, 16), BYTE, BYTE);
    Truncated(w);
    Truncated(Hi(w, 8));
    Truncated(Hi(w, 16));
    var s := Bytes4(w);
    assert s == [a, b, c, Lo(w, BYTE)];
    BitsOfOne(s[0]);
    BitsOfOne(s[1]);
    BitsOfOne(s[2]);
    BitsOfOne(s[3]);
    BitsOfConcat([s[0]], [s[1]]);
    BitsOfConcat([s[0]] + [s[1]], [s[2]]);
    BitsOfConcat([s[0]] + [s[1]] + [s[2]], [s[3]]);
    assert [s[0]] + [s[1]] + [s[2]] + [s[3]] == s;
  }

  lemma {:induction false} HiOfHi(v: nat, a: nat, b: nat)
    ensures Hi(Hi(v, a), b) == Hi(v, a + b)
    decreases a
  {
    if a != 0 { HiOfHi(v / 2, a - 1, b); }
  }

  lemma HiIsQuotient(w: nat)
    ensures Hi(w, 8) == w / TWO8 && Hi(w, 16) == w / TWO16 && Hi(w, 24) == w / TWO24
    ensures Hi(Hi(w, 8), 8) == Hi(w, 16) && Hi(Hi(w, 16), 8) == Hi(w, 24)
  {
    HiOfHi(w, 8, 8);
    HiOfHi(w, 16, 8);
    HiDivides(w, 8);
    HiDivides(w, 16);
    HiDivides(w, 24);
    Powers();
  }

  lemma HiDivides(v: nat, k: nat)
    ensures Hi(v, k) == v / Pow2(k)
  {
    Parts(v, k);
    UpScales(Hi(v, k), k);
    DivUnique(v, Hi(v, k), Pow2(k), Lo(v, k));
  }

  // ---------------------------------------------------------------- the writer

  lemma RegisterTakes(buf: nat, count: nat, v: nat, nb: nat)
    requires buf < Pow2(count) && v < Pow2(nb) && count + nb <= 32
    ensures Wrap32(Up(buf, nb)) + v == Up(buf, nb) + v < TWO32
    ensures Up(buf, nb) + v < Pow2(count + nb)
    ensures Bits(Up(buf, nb) + v, count + nb) == Bits(buf, count) + Bits(v, nb)
  {
    BitsOfPair(buf, count, v, nb);
    WordFits(count + nb);
  }

  lemma {:induction false} BsrOfHi(v: nat, k: nat)
    requires k <= Bsr(v)
    ensures Bsr(Hi(v, k)) == Bsr(v) - k
    decreases k
  {
    if k != 0 { BsrOfHi(v / 2, k - 1); }
  }

  lemma Reassociate<T>(a: seq<T>, b: seq<T>, c: seq<T>, d: seq<T>)
    ensures a + (b + c) + d == a + b + (c + d)
  {
  }

  /** A register filled to 32 bits by the first of `v`'s bits goes out as a word. */
  lemma WordFull(out: seq<Byte>, buf: nat, count: nat, v: nat, fit: nat, rest: nat, word: nat)
    requires buf < Pow2(count) && v < Pow2(fit + rest) && count + fit == WORD && rest < 32
    requires word == Wrap32(Up(buf, fit)) + Hi(v, rest)
    ensures Lo(v, rest) < TWO32 && word < TWO32
    ensures BitsOf(out + Bytes4(word)) + Bits(Lo(v, rest), rest) == BitsOf(out) + Bits(buf, count) + Bits(v, fit + rest)
  {
    BitsSplit(v, fit, rest);
    RegisterTakes(buf, count, Hi(v, rest), fit);
    WordBits(word);
    BitsOfConcat(out, Bytes4(word));
    WordFits(rest);
    Reassociate(BitsOf(out), Bits(buf, count), Bits(Hi(v, rest), fit), Bits(Lo(v, rest), rest));
  }

  /** The low `count + 8` bits of a register are the byte above `count` and the bits below. */
  lemma NextByte(out: seq<Byte>, buf: nat, count: nat)
    ensures BitsOf(out + [Hi(buf, count) % 256]) + Bits(Lo(buf, count), count)
      == BitsOf(out) + Bits(Lo(buf, BYTE + count), BYTE + count)
  {
    var b: Byte := Hi(buf, count) % 256;
    HiOfLo(buf, BYTE, count);
    LoOfLo(buf, count, BYTE + count);
    BitsSplit(Lo(buf, BYTE + count), BYTE, count);
    Truncated(Hi(buf, count));
    BitsOfOne(b);
    BitsOfConcat(out, [b]);
  }

  lemma LastByte(out: seq<Byte>, buf: nat, count: nat, pad: nat)
    requires count + pad == BYTE
    ensures BitsOf(out + [Up(buf, pad) % 256]) == BitsOf(out) + Bits(Lo(buf, count), count) + Zeros(pad)
  {
    var b: Byte := Up(buf, pad) % 256;
    LoOfPair(buf, 0, count, pad);
    Truncated(Up(buf, pad));
    BitsOfPair(Lo(buf, count), count, 0, pad);
    ZeroBits(pad);
    BitsOfOne(b);
    BitsOfConcat(out, [b]);
    Cat(BitsOf(out), Bits(Lo(buf, count), count), Zeros(pad));
  }

  /** While the register is emptied; at the end the last byte is filled up with zeros. */
  ghost predicate Draining(out: seq<Byte>, buf: nat, count: nat, trace: seq<bool>) {
    if count > 0 then BitsOf(out) + Bits(Lo(buf, count), count) == trace
    else |trace| <= 8 * |out| && BitsOf(out) == trace + Zeros(8 * |out| - |trace|)
  }

  lemma DrainLast(out: seq<Byte>, buf: nat, count: nat, trace: seq<bool>)
    requires 0 < count < 8 && Draining(out, buf, count, trace)
    ensures Draining(out + [Up(buf, BYTE - count) % 256], buf, 0, trace)
  {
    LastByte(out, buf, count, BYTE - count);
  }

  lemma DrainNext(out: seq<Byte>, buf: nat, count: nat, trace: seq<bool>)
    requires Draining(out, buf, BYTE + count, trace)
    ensures Draining(out + [Hi(buf, count) % 256], buf, count, trace)
  {
    NextByte(out, buf, count);
    if count == 0 {
      var all := out + [Hi(buf, count) % 256];
      assert BitsOf(all) + Bits(Lo(buf, count), count) == BitsOf(all);
      assert trace + Zeros(0) == trace;
    }
  }

  /** The writer over a buffer of `cap` bytes; `trace` is the history of its bits. */
  class BitWriter {
    const cap: nat
    var out: seq<Byte>
    var buf: U32
    var count: nat
    var overflow: bool
    ghost var trace: seq<bool>

    ghost predicate Buffered()
      reads this
    {
      && count <= 32 && buf < Pow2(count)
      && if overflow then |trace| > 8 * cap else |out| <= cap && BitsOf(out) + Bits(buf, count) == trace
    }

    ghost predicate Valid()
      reads this
    {
      forall k {:trigger Look(RawBits, k)} :: Look(RawBits, k) ==> Buffered()
    }

    constructor (cap: nat)
      ensures Valid() && trace == [] && !overflow && out == [] && this.cap == cap
    {
      this.cap := cap;
      out, buf, count, overflow, trace := [], 0, 0, false, [];
    }

    /** Appends `nb` bits of `v`. */
    method Put(v: nat, nb: nat)
      requires Valid() && nb < 32 && v < Pow2(nb)
      modifies this
      ensures Valid() && trace == old(trace) + Bits(v, nb)
      ensures old(overflow) ==> overflow
    {
      assert Look(RawBits, 0);
      if nb == 0 { return; }
      trace := trace + Bits(v, nb);
      if count + nb <= 32 {
        RegisterTakes(buf, count, v, nb);
        Cat(BitsOf(out), Bits(buf, count), Bits(v, nb));
        buf, count := Wrap32(Up(buf, nb)) + v, count + nb;
        return;
      }
      var fit := WORD - count;
      var rest := nb - fit;
      var word := Wrap32(Up(buf, fit)) + Hi(v, rest);
      WordFull(out, buf, count, v, fit, rest, word);
      if |out| + 4 <= cap { out := out + Bytes4(word); } else { overflow := true; }
      buf, count := Lo(v, rest), rest;
    }

    /** Writes what is left byte by byte; the last byte is filled up with zeros. */
    method Flush()
      requires Valid()
      modifies this
      ensures old(overflow) ==> overflow
      ensures overflow <==> |old(trace)| > 8 * cap
      ensures !overflow ==> |old(trace)| <= 8 * |out| < |old(trace)| + 8 && BitsOf(out) == old(trace) + Zeros(8 * |out| - |old(trace)|)
    {
      assert Look(RawBits, 0);
      LoOfSmall(buf, count);
      while count != 0
        invariant count <= 32 && trace == old(trace) && (old(overflow) ==> overflow) && (overflow ==> |trace| > 8 * cap)
        invariant !overflow ==> Draining(out, buf, count, trace) && |out| <= cap && 8 * |out| + count < |trace| + 8
        decreases count
      {
        if |out| >= cap {
          if !overflow { DrainingLength(out, buf, count, trace); }
          overflow := true;
          return;
        }
        FlushByte();
      }
    }

    /** The next byte of what is left. */
    method FlushByte()
      requires 0 < count <= 32 && |out| < cap
      modifies this`out, this`count
      ensures count < old(count) && |out| <= cap
      ensures !overflow && old(Draining(out, buf, count, trace)) && 8 * |old(out)| + old(count) < |trace| + 8
        ==> Draining(out, buf, count, trace) && 8 * |out| + count < |trace| + 8
    {
      ghost var known := !overflow && Draining(out, buf, count, trace) && 8 * |out| + count < |trace| + 8;
      if known { DrainingLength(out, buf, count, trace); }
      if count < 8 {
        if known { DrainLast(out, buf, count, trace); }
        out, count := out + [Up(buf, BYTE - count) % 256], 0;
      } else {
        count := count - BYTE;
        if known { DrainNext(out, buf, count, trace); }
        out := out + [Hi(buf, count) % 256];
      }
    }
  }

  lemma DrainingLength(out: seq<Byte>, buf: nat, count: nat, trace: seq<bool>)
    requires count > 0 && Draining(out, buf, count, trace)
    ensures |trace| == 8 * |out| + count
  {
  }

  // ---------------------------------------------------------------- the reader

  function BitAt(b: seq<bool>, i: nat): bool {
    i < |b| && b[i]
  }

  /** `known` is what the stream `b` starts with, where it reads as zeros past its end. */
  ghost predicate Starts(b: seq<bool>, known: seq<bool>) {
    forall i: nat :: i < |known| ==> known[i] == BitAt(b, i)
  }

  lemma StartsWith(v: nat, n: nat, rest: seq<bool>, w: nat, later: seq<bool>)
    requires v < Pow2(n) && w < Pow2(n) && Starts(Bits(v, n) + rest, Bits(w, n) + later)
    ensures v == w && Starts(rest, later)
  {
    var b, known := Bits(v, n) + rest, Bits(w, n) + later;
    forall i: nat | i < n ensures Bits(v, n)[i] == Bits(w, n)[i] {
      assert known[i] == BitAt(b, i);
    }
    BitsInjective(v, w, n);
    forall i: nat | i < |later| ensures later[i] == BitAt(rest, i) {
      assert known[n + i] == BitAt(b, n + i);
    }
  }

  function Past4(s: seq<Byte>): seq<Byte> {
    if |s| <= 4 then [] else s[4..]
  }

  lemma WindowBits(s: seq<Byte>)
    ensures Window(s) < Pow2(WORD) && BitsOf([At(s, 0), At(s, 1), At(s, 2), At(s, 3)]) == Bits(Window(s), WORD)
  {
    WordBits(Window(s));
    Bytes4Of(At(s, 0), At(s, 1), At(s, 2), At(s, 3));
  }

  /** The word at the front of a stream, zeros standing in for missing bytes, and what follows it. */
  lemma FrontWord(s: seq<Byte>, known: seq<bool>, head: seq<bool>)
    requires Starts(head + BitsOf(s), known)
    ensures Window(s) < Pow2(WORD)
    ensures Starts(head + Bits(Window(s), WORD) + BitsOf(Past4(s)), known)
  {
    WindowBits(s);
    Cat(head, Bits(Window(s), WORD), BitsOf(Past4(s)));
    if |s| >= 4 {
      WholeWord(s);
    } else {
      var pad := PaddedWord(s);
      ZerosFollow(head, BitsOf(s), pad, known);
    }
  }

  lemma WholeWord(s: seq<Byte>)
    requires |s| >= 4
    ensures Window(s) < Pow2(WORD) && BitsOf(s) == Bits(Window(s), WORD) + BitsOf(Past4(s))
  {
    WindowBits(s);
    FourBytes(s);
    BitsOfConcat([At(s, 0), At(s, 1), At(s, 2), At(s, 3)], Past4(s));
  }

  lemma PaddedWord(s: seq<Byte>) returns (pad: seq<bool>)
    requires |s| < 4
    ensures forall i :: 0 <= i < |pad| ==> !pad[i]
    ensures Window(s) < Pow2(WORD) && BitsOf(Past4(s)) == [] && BitsOf(s) + pad == Bits(Window(s), WORD)
  {
    var zeros := seq(4 - |s|, _ => 0);
    pad := BitsOf(zeros);
    WindowBits(s);
    ShortBytes(s, zeros);
    BitsOfConcat(s, zeros);
    PadIsZeros(zeros);
  }

  lemma ShortBytes(s: seq<Byte>, pad: seq<Byte>)
    requires |s| < 4 && |pad| == 4 - |s| && forall i :: 0 <= i < |pad| ==> pad[i] == 0
    ensures s + pad == [At(s, 0), At(s, 1), At(s, 2), At(s, 3)]
  {
  }

  lemma FourBytes(s: seq<Byte>)
    requires |s| >= 4
    ensures s == [At(s, 0), At(s, 1), At(s, 2), At(s, 3)] + Past4(s)
  {
  }

  lemma ZerosFollow(head: seq<bool>, bits: seq<bool>, pad: seq<bool>, known: seq<bool>)
    requires Starts(head + bits, known) && forall i :: 0 <= i < |pad| ==> !pad[i]
    ensures Starts(head + (bits + pad), known)
  {
    var short, long := head + bits, head + (bits + pad);
    assert long == short + pad;
    forall i: nat | i < |known| ensures known[i] == BitAt(long, i) {
      assert known[i] == BitAt(short, i);
    }
  }

  lemma {:induction false} PadIsZeros(pad: seq<Byte>)
    requires forall i :: 0 <= i < |pad| ==> pad[i] == 0
    ensures forall i :: 0 <= i < |BitsOf(pad)| ==> !BitsOf(pad)[i]
  {
    if pad != [] {
      PadIsZeros(pad[..|pad| - 1]);
      ByteFits(0);
      ZeroBits(BYTE);
    }
  }

  /** The reader. `future` is what is known of the bits ahead. */
  class BitReader {
    const data: seq<Byte>
    var pos: nat
    var bitcount: nat
    var bitbuff: U32
    ghost var future: seq<bool>
    ghost var known: bool

    ghost function Pending(): seq<bool>
      requires pos <= |data|
      reads this
    {
      Bits(Lo(bitbuff, bitcount), bitcount) + BitsOf(data[pos..])
    }

    ghost predicate Buffered()
      reads this
    {
      pos <= |data| && bitcount <= 32 && (known ==> Starts(Pending(), future))
    }

    ghost predicate Valid()
      reads this
    {
      forall k {:trigger Look(RawBits, k)} :: Look(RawBits, k) ==> Buffered()
    }

    ghost predicate Ahead(bits: seq<bool>)
      reads this
    {
      known && future == bits
    }

    constructor (data: seq<Byte>, ghost bits: seq<bool>)
      ensures Valid()
      ensures Starts(BitsOf(data), bits) ==> Ahead(bits)
    {
      this.data := data;
      pos, bitcount, bitbuff, future, known := 0, 0, 0, bits, Starts(BitsOf(data), bits);
      new;
      assert data[0..] == data && Pending() == BitsOf(data);
    }

    method FetchWord() returns (w: U32)
      requires pos <= |data|
      modifies this`pos
      ensures pos <= |data| && w == Window(old(data[pos..]))
      ensures data[pos..] == Past4(old(data[pos..]))
    {
      w := Window(data[pos..]);
      pos := if pos + 4 <= |data| then pos + 4 else |data|;
    }

    /** Takes `nb` bits: the value ahead, if one of that width is. */
    method GetBits(nb: nat, ghost v: nat, ghost later: seq<bool>) returns (x: nat)
      requires Valid() && nb < 32
      modifies this
      ensures Valid() && x < Pow2(nb)
      ensures v < Pow2(nb) && old(Ahead(Bits(v, nb) + later)) ==> x == v && Ahead(later)
    {
      assert Look(RawBits, 0);
      ghost var coded := v < Pow2(nb) && Ahead(Bits(v, nb) + later);
      var bits, count := bitbuff, bitcount;
      ghost var ahead := data[pos..];
      if nb > count {
        var word := FetchWord();
        var left := WORD - (nb - count);
        x := Lo(Wrap32(Up(bits, nb - count)) + Hi(word, left), nb);
        if coded { ReadAcross(bits, count, ahead, nb, v, later, word, left, x); }
        bitbuff, bitcount := word, left;
      } else {
        bitcount := count - nb;
        x := Lo(Hi(bits, bitcount), nb);
        if coded { ReadWithin(bits, bitcount, BitsOf(ahead), nb, v, later); }
      }
      known, future := coded, later;
    }
  }

  lemma ReadWithin(bits: nat, left: nat, rest: seq<bool>, nb: nat, v: nat, later: seq<bool>)
    requires v < Pow2(nb) && Starts(Bits(Lo(bits, nb + left), nb + left) + rest, Bits(v, nb) + later)
    ensures Lo(Hi(bits, left), nb) == v && Starts(Bits(Lo(bits, left), left) + rest, later)
  {
    var x := Lo(Hi(bits, left), nb);
    HiOfLo(bits, nb, left);
    LoOfLo(bits, left, nb + left);
    BitsSplit(Lo(bits, nb + left), nb, left);
    var low := Bits(Lo(bits, left), left);
    assert Bits(x, nb) + (low + rest) == Bits(x, nb) + low + rest;
    StartsWith(x, nb, low + rest, v, later);
  }

  lemma ShiftedOut(bits: nat, need: nat, left: nat)
    requires need + left == WORD
    ensures Wrap32(Up(bits, need)) == Up(Lo(bits, left), need)
  {
    Truncated(Up(bits, need));
    LoOfPair(bits, 0, left, need);
  }

  /** Old low bits and new high bits make one value of `count + need` bits. */
  lemma Spliced(bits: U32, count: nat, word: U32, need: nat, left: nat, x: nat)
    requires count + need <= WORD && left == WORD - need
    requires x == Lo(Wrap32(Up(bits, need)) + Hi(word, left), count + need)
    ensures Hi(word, left) < Pow2(need) && x == Up(Lo(bits, count), need) + Hi(word, left)
  {
    WordIsFull(word);
    HiFits(word, need, left);
    ShiftedOut(bits, need, left);
    LoOfPair(Lo(bits, left), Hi(word, left), count, need);
    LoOfLo(bits, count, left);
  }

  lemma WordIsFull(word: U32)
    ensures word < Pow2(WORD)
  {
    Powers();
  }

  lemma SplicedBits(bits: U32, count: nat, word: U32, need: nat, left: nat, x: nat)
    requires count + need <= WORD && left == WORD - need
    requires x == Lo(Wrap32(Up(bits, need)) + Hi(word, left), count + need)
    ensures word < Pow2(WORD) && x < Pow2(count + need)
    ensures Bits(Lo(bits, count), count) + Bits(word, WORD) == Bits(x, count + need) + Bits(Lo(word, left), left)
  {
    WordIsFull(word);
    Spliced(bits, count, word, need, left, x);
    BitsSplit(word, need, left);
    BitsOfPair(Lo(bits, count), count, Hi(word, left), need);
    Cat(Bits(Lo(bits, count), count), Bits(Hi(word, left), need), Bits(Lo(word, left), left));
  }

  lemma ReadAcross(bits: U32, count: nat, ahead: seq<Byte>, nb: nat, v: nat, later: seq<bool>, word: U32, left: nat, x: nat)
    requires count < nb < 32 && v < Pow2(nb) && left == WORD - (nb - count) && word == Window(ahead)
    requires x == Lo(Wrap32(Up(bits, nb - count)) + Hi(word, left), nb)
    requires Starts(Bits(Lo(bits, count), count) + BitsOf(ahead), Bits(v, nb) + later)
    ensures x == v && Starts(Bits(Lo(word, left), left) + BitsOf(Past4(ahead)), later)
  {
    FrontWord(ahead, Bits(v, nb) + later, Bits(Lo(bits, count), count));
    SplicedBits(bits, count, word, nb - count, left, x);
    Cat(Bits(x, nb), Bits(Lo(word, left), left), BitsOf(Past4(ahead)));
    StartsWith(x, nb, Bits(Lo(word, left), left) + BitsOf(Past4(ahead)), v, later);
  }
}
