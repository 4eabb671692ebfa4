/**
 The carry-less binary range coder that src/nz_bwt.cpp, src/nz_cm.cpp, src/nz_exefilter.cpp
 and src/nz_audio.cpp each carry a copy of. The format is the function `Code`; the encoder
 class is proved to write it and the decoder class to read it back.
 */
module RangeCoder {
  import opened Words

  type Prob = p: int | 0 <= p < 4096

  /** One coded bit with the 12-bit probability both sides hold for it. */
  datatype Decision = Decision(bit: bool, p: Prob)

  /** How the split point is computed: `((hi - lo) >> 12) * p`, or in 64 bits `((hi - lo) * p) >> 12`. */
  datatype Precision = Coarse | Fine

  datatype Bounds = Bounds(lo: U32, hi: U32)

  const FULL := Bounds(0, 0xffff_ffff)

  /** Both split formulas stay in [lo, hi), which is all that losslessness needs. */
  function Split(prec: Precision, b: Bounds, p: Prob): (mid: U32)
    requires b.lo < b.hi
    ensures b.lo <= mid < b.hi
  {
    var range := b.hi - b.lo;
    match prec
    case Coarse =>
      CoarseBelow(range, p);
      b.lo + range / 4096 * p
    case Fine =>
      FineBelow(range, p);
      b.lo + range * p / 4096
  }

  lemma CoarseBelow(range: int, p: Prob)
    requires 0 < range
    ensures 0 <= range / 4096 * p < range
  {
    var q := range / 4096;
    assert q * p <= q * 4095;
    if q > 0 {
      assert q * 4095 < q * 4096 <= range;
    }
  }

  lemma FineBelow(range: int, p: Prob)
    requires 0 < range
    ensures 0 <= range * p / 4096 < range
  {
    assert 0 <= range * p <= range * 4095 < range * 4096;
  }

  /** The renormalisation test `(lo ^ hi) < 0x1000000`: the top bytes agree. */
  predicate SameTop(b: Bounds) {
    b.lo / TWO24 == b.hi / TWO24
  }

  /** `SameTop` says in numbers what the exclusive-or test says of the registers. */
  lemma SameTopIsXorTest(lo: bv32, hi: bv32)
    ensures (lo ^ hi) < 0x100_0000 <==> lo >> 24 == hi >> 24
  {
  }

  function Shift(b: Bounds): Bounds {
    Bounds(Wrap32(b.lo * 256), Wrap32(b.hi * 256 + 255))
  }

  function Narrow(prec: Precision, b: Bounds, d: Decision): (r: Bounds)
    requires b.lo < b.hi
    ensures b.lo <= r.lo <= r.hi <= b.hi
  {
    var mid := Split(prec, b, d.p);
    if d.bit then Bounds(b.lo, mid) else Bounds(mid + 1, b.hi)
  }

  lemma ShiftWidens(b: Bounds)
    requires b.lo <= b.hi && SameTop(b)
    ensures Shift(b).lo <= Shift(b).hi
    ensures Shift(b).hi - Shift(b).lo == (b.hi - b.lo) * 256 + 255
    ensures Shift(b).lo == (b.lo - b.hi / TWO24 * TWO24) * 256
  {
    var t := b.hi / TWO24;
    assert Shift(b).lo == (b.lo - t * TWO24) * 256 by {
      assert b.lo * 256 == (b.lo - t * TWO24) * 256 + t * TWO32;
    }
    assert Shift(b).hi == (b.hi - t * TWO24) * 256 + 255 by {
      assert b.hi * 256 + 255 == (b.hi - t * TWO24) * 256 + 255 + t * TWO32;
    }
  }

  /**
   The bytes that code the decisions `ds` from the bounds `b`: a byte leaves as soon as the
   bounds agree on it, and the flush is the top byte of `hi` alone.
   */
  ghost function Code(prec: Precision, b: Bounds, ds: seq<Decision>): (bytes: seq<Byte>)
    requires b.lo <= b.hi
    ensures bytes != []
    decreases |ds|, TWO32 - (b.hi - b.lo)
  {
    if SameTop(b) then
      ShiftWidens(b);
      [b.hi / TWO24] + Code(prec, Shift(b), ds)
    else if ds == [] then
      [b.hi / TWO24]
    else
      Code(prec, Narrow(prec, b, ds[0]), ds[1..])
  }

  /** Whatever is still to be coded, the stream read as a number lies between the bounds. */
  lemma {:induction false} CodeInBounds(prec: Precision, b: Bounds, ds: seq<Decision>)
    requires b.lo <= b.hi
    ensures b.lo <= Window(Code(prec, b, ds)) <= b.hi
    decreases |ds|, TWO32 - (b.hi - b.lo)
  {
    if SameTop(b) {
      ShiftWidens(b);
      CodeInBounds(prec, Shift(b), ds);
      var tail := Code(prec, Shift(b), ds);
      var s := [b.hi / TWO24] + tail;
      assert At(s, 0) == b.hi / TWO24 && At(s, 1) == At(tail, 0) && At(s, 2) == At(tail, 1) && At(s, 3) == At(tail, 2);
      assert Window(tail) / 256 == At(tail, 0) * TWO16 + At(tail, 1) * TWO8 + At(tail, 2);
    } else if ds != [] {
      CodeInBounds(prec, Narrow(prec, b, ds[0]), ds[1..]);
    }
  }

  // ---------------------------------------------------------------- the writer's view

  /** The renormalisation loop: shift out top bytes until the bounds disagree on theirs. */
  ghost function Renorm(b: Bounds, out: seq<Byte>): (r: (Bounds, seq<Byte>))
    requires b.lo <= b.hi
    ensures r.0.lo < r.0.hi && !SameTop(r.0)
    ensures out <= r.1
    decreases TWO32 - (b.hi - b.lo)
  {
    if SameTop(b) then
      ShiftWidens(b);
      Renorm(Shift(b), out + [b.hi / TWO24])
    else (b, out)
  }

  /** Bounds and bytes after the decisions `ds`, first to last. */
  ghost function Sent(prec: Precision, ds: seq<Decision>): (r: (Bounds, seq<Byte>))
    ensures r.0.lo < r.0.hi && !SameTop(r.0)
  {
    if ds == [] then (FULL, [])
    else
      var (b, out) := Sent(prec, ds[..|ds| - 1]);
      Renorm(Narrow(prec, b, ds[|ds| - 1]), out)
  }

  lemma SentSnoc(prec: Precision, ds: seq<Decision>, d: Decision)
    ensures Sent(prec, ds + [d]) == Renorm(Narrow(prec, Sent(prec, ds).0, d), Sent(prec, ds).1)
  {
    assert (ds + [d])[..|ds + [d]| - 1] == ds;
  }

  lemma {:induction false} RenormCode(prec: Precision, b: Bounds, out: seq<Byte>, ds: seq<Decision>)
    requires b.lo <= b.hi
    ensures out + Code(prec, b, ds) == Renorm(b, out).1 + Code(prec, Renorm(b, out).0, ds)
    decreases TWO32 - (b.hi - b.lo)
  {
    if SameTop(b) {
      ShiftWidens(b);
      RenormCode(prec, Shift(b), out + [b.hi / TWO24], ds);
      assert out + [b.hi / TWO24] + Code(prec, Shift(b), ds) == out + Code(prec, b, ds);
    }
  }

  /** What has been sent plus the code of what is still to come is the code of everything. */
  lemma {:induction false} SentThenCode(prec: Precision, ds: seq<Decision>, rest: seq<Decision>)
    ensures Code(prec, FULL, ds + rest) == Sent(prec, ds).1 + Code(prec, Sent(prec, ds).0, rest)
  {
    if ds == [] {
      assert ds + rest == rest;
    } else {
      var init, d := ds[..|ds| - 1], ds[|ds| - 1];
      assert ds + rest == init + ([d] + rest);
      SentThenCode(prec, init, [d] + rest);
      var (b, out) := Sent(prec, init);
      assert ([d] + rest)[1..] == rest;
      RenormCode(prec, Narrow(prec, b, d), out, rest);
    }
  }

  function Clip(s: seq<Byte>, cap: nat): seq<Byte> {
    if |s| <= cap then s else s[..cap]
  }

  /**
   The range encoder over a buffer of `cap` bytes; bytes that do not fit set `overflow`. `trace`
   is the history of its decisions.
   */
  class Encoder {
    const prec: Precision
    const cap: nat
    var lo: U32
    var hi: U32
    var out: seq<Byte>
    var overflow: bool
    ghost var trace: seq<Decision>
    ghost var emitted: seq<Byte>

    ghost predicate Buffered()
      reads this
    {
      out == Clip(emitted, cap) && overflow == (|emitted| > cap)
    }

    ghost predicate Valid()
      reads this
    {
      forall k {:trigger Look(Coder, k)} :: Look(Coder, k) ==> Sent(prec, trace) == (Bounds(lo, hi), emitted) && Buffered()
    }

    constructor (prec: Precision, cap: nat)
      ensures Valid() && trace == [] && this.prec == prec && this.cap == cap
    {
      this.prec, this.cap := prec, cap;
      lo, hi := 0, 0xffff_ffff;
      out, overflow := [], false;
      trace, emitted := [], [];
    }

    method Put(b: Byte)
      requires Buffered()
      modifies this`out, this`overflow, this`emitted
      ensures Buffered() && emitted == old(emitted) + [b]
    {
      if |out| < cap {
        out := out + [b];
      } else {
        overflow := true;
      }
      emitted := emitted + [b];
    }

    method Renormalize()
      requires lo <= hi && Buffered()
      modifies this`lo, this`hi, this`out, this`overflow, this`emitted
      ensures Buffered()
      ensures (Bounds(lo, hi), emitted) == Renorm(old(Bounds(lo, hi)), old(emitted))
    {
      while lo / TWO24 == hi / TWO24
        invariant lo <= hi && Buffered()
        invariant Renorm(Bounds(lo, hi), emitted) == Renorm(old(Bounds(lo, hi)), old(emitted))
        decreases TWO32 - (hi - lo)
      {
        ShiftWidens(Bounds(lo, hi));
        Put(hi / TWO24);
        lo, hi := Wrap32(lo * 256), Wrap32(hi * 256 + 255);
      }
    }

    /** Codes one decision: the trace grows by exactly it. */
    method Encode(bit: bool, p: Prob)
      requires Valid()
      modifies this
      ensures Valid()
      ensures trace == old(trace) + [Decision(bit, p)]
    {
      assert Look(Coder, 0);
      ghost var d := Decision(bit, p);
      var mid := Split(prec, Bounds(lo, hi), p);
      if bit { hi := mid; } else { lo := mid + 1; }
      assert Narrow(prec, Bounds(old(lo), old(hi)), d) == Bounds(lo, hi);
      Renormalize();
      trace := trace + [d];
      SentSnoc(prec, old(trace), d);
    }

    /** One byte is enough: unless the buffer ran out, it then holds the whole code. */
    method Flush()
      requires Valid()
      modifies this
      ensures trace == old(trace)
      ensures overflow == (|Code(prec, FULL, trace)| > cap)
      ensures out == Clip(Code(prec, FULL, trace), cap)
    {
      assert Look(Coder, 0);
      SentThenCode(prec, trace, []);
      assert trace + [] == trace;
      Put(hi / TWO24);
    }
  }

  // ---------------------------------------------------------------- the reader's view

  /** Registers of the decoder and the bytes it has not fetched yet. */
  datatype Reader = Reader(b: Bounds, code: U32, rest: seq<Byte>)

  /** The decoder stands before the decisions `ds`: zero-extended, its stream is their code. */
  ghost predicate Tracks(prec: Precision, r: Reader, ds: seq<Decision>) {
    && r.b.lo <= r.b.hi
    && SameStream(Bytes4(r.code) + r.rest, Code(prec, r.b, ds))
  }

  function Fetch(r: Reader): Reader {
    Reader(Shift(r.b), ShiftIn(r.code, At(r.rest, 0)), Rest(r.rest))
  }

  function Settle(r: Reader): (s: Reader)
    requires r.b.lo <= r.b.hi
    ensures s.b.lo < s.b.hi && !SameTop(s.b)
    decreases TWO32 - (r.b.hi - r.b.lo)
  {
    if SameTop(r.b) then
      ShiftWidens(r.b);
      Settle(Fetch(r))
    else r
  }

  lemma {:induction false} SettleTracks(prec: Precision, r: Reader, ds: seq<Decision>)
    requires Tracks(prec, r, ds)
    ensures Tracks(prec, Settle(r), ds)
    decreases TWO32 - (r.b.hi - r.b.lo)
  {
    if SameTop(r.b) {
      ShiftWidens(r.b);
      var f := Fetch(r);
      forall i: nat ensures At(Bytes4(f.code) + f.rest, i) == At(Bytes4(r.code) + r.rest, i + 1) {
        ShiftInDropsOne(r.code, r.rest, i);
      }
      SameStreamTail(Bytes4(r.code) + r.rest, Code(prec, r.b, ds), Bytes4(f.code) + f.rest, Code(prec, f.b, ds));
      SettleTracks(prec, f, ds);
    }
  }

  /** One decision of the decoder, with the renormalisation that follows. */
  function Step(prec: Precision, r: Reader, p: Prob): (res: (bool, Reader))
    requires r.b.lo < r.b.hi
    ensures res.1.b.lo < res.1.b.hi && !SameTop(res.1.b)
  {
    var mid := Split(prec, r.b, p);
    var bit := r.code <= mid;
    (bit, Settle(r.(b := Narrow(prec, r.b, Decision(bit, p)))))
  }

  /** The decoder takes the encoder's branch and stands before the remaining decisions. */
  lemma StepTracks(prec: Precision, r: Reader, ds: seq<Decision>)
    requires r.b.lo < r.b.hi && !SameTop(r.b)
    requires ds != [] && Tracks(prec, r, ds)
    ensures Step(prec, r, ds[0].p).0 == ds[0].bit
    ensures Tracks(prec, Step(prec, r, ds[0].p).1, ds[1..])
  {
    var s := Bytes4(r.code) + r.rest;
    var c := Code(prec, r.b, ds);
    assert At(s, 0) == At(c, 0) && At(s, 1) == At(c, 1) && At(s, 2) == At(c, 2) && At(s, 3) == At(c, 3);
    assert Window(s) == Window(Bytes4(r.code)) == r.code by {
      assert s[..4] == Bytes4(r.code);
      WindowOfBytes4(r.code);
    }
    var n := Narrow(prec, r.b, ds[0]);
    assert c == Code(prec, n, ds[1..]);
    CodeInBounds(prec, n, ds[1..]);
    var r1 := r.(b := n);
    assert Tracks(prec, r1, ds[1..]);
    SettleTracks(prec, r1, ds[1..]);
  }

  function Start(data: seq<Byte>): Reader {
    Reader(FULL, Window(data), if |data| <= 4 then [] else data[4..])
  }

  /** A decoder opened on the flushed code, or on the code followed by zeros, stands before all of it. */
  lemma StartTracks(prec: Precision, data: seq<Byte>, ds: seq<Decision>)
    requires SameStream(data, Code(prec, FULL, ds))
    ensures Tracks(prec, Start(data), ds)
  {
    WindowThenRest(data);
  }

  /** The register after `k` bytes of a stream have been shifted in. */
  function Front(s: seq<Byte>, k: nat): U32 {
    if k == 0 then 0 else ShiftIn(Front(s, k - 1), At(s, k - 1))
  }

  lemma FrontIsWindow(s: seq<Byte>)
    ensures Front(s, 4) == Window(s)
  {
    assert Front(s, 1) == At(s, 0);
    assert Front(s, 2) == At(s, 0) * 256 + At(s, 1);
    assert Front(s, 3) == At(s, 0) * TWO16 + At(s, 1) * 256 + At(s, 2);
  }

  /**
   The range decoder: past its data it reads zeros. `future` is what is known of the decisions
   ahead: opened on the code of `ds` it is `ds`, and every decision read with the probability it
   was coded with is taken off its front.
   */
  class Decoder {
    const prec: Precision
    const data: seq<Byte>
    var pos: nat
    var lo: U32
    var hi: U32
    var code: U32
    ghost var future: seq<Decision>
    ghost var known: bool

    ghost function State(): Reader
      requires pos <= |data|
      reads this
    {
      Reader(Bounds(lo, hi), code, data[pos..])
    }

    ghost predicate Settled()
      reads this
    {
      pos <= |data| && lo < hi && !SameTop(Bounds(lo, hi)) && (known ==> Tracks(prec, State(), future))
    }

    ghost predicate Valid()
      reads this
    {
      forall k {:trigger Look(Coder, k)} :: Look(Coder, k) ==> Settled()
    }

    constructor (prec: Precision, data: seq<Byte>, ghost ds: seq<Decision>)
      ensures Valid() && this.prec == prec
      ensures SameStream(data, Code(prec, FULL, ds)) ==> Ahead(ds)
    {
      this.prec, this.data := prec, data;
      lo, hi, code, pos := 0, 0xffff_ffff, 0, 0;
      future, known := ds, SameStream(data, Code(prec, FULL, ds));
      new;
      FillBuffer();
      if known {
        StartTracks(prec, data, ds);
      }
    }

    /** The decisions ahead are `ds`, and nothing after them. */
    ghost predicate Ahead(ds: seq<Decision>)
      reads this
    {
      known && future == ds
    }

    method FillBuffer()
      requires pos == code == 0
      modifies this`pos, this`code
      ensures pos <= |data| && code == Window(data)
      ensures data[pos..] == if |data| <= 4 then [] else data[4..]
    {
      for k := 0 to 4
        invariant pos == if k <= |data| then k else |data|
        invariant code == Front(data, k)
      {
        var next := ReadByte();
        code := ShiftIn(code, next);
      }
      FrontIsWindow(data);
    }

    method ReadByte() returns (b: Byte)
      requires pos <= |data|
      modifies this`pos
      ensures pos <= |data| && b == At(old(data[pos..]), 0)
      ensures data[pos..] == Rest(old(data[pos..]))
      ensures pos == if old(pos) < |data| then old(pos) + 1 else old(pos)
    {
      if pos != |data| {
        b := data[pos];
        pos := pos + 1;
      } else {
        b := 0;
      }
    }

    method Renormalize()
      requires pos <= |data| && lo <= hi
      modifies this`lo, this`hi, this`code, this`pos
      ensures pos <= |data| && State() == Settle(old(State()))
    {
      while lo / TWO24 == hi / TWO24
        invariant pos <= |data| && lo <= hi
        invariant Settle(State()) == Settle(old(State()))
        decreases TWO32 - (hi - lo)
      {
        ShiftWidens(Bounds(lo, hi));
        ShiftByte();
      }
    }

    method ShiftByte()
      requires pos <= |data|
      modifies this`lo, this`hi, this`code, this`pos
      ensures pos <= |data| && State() == Fetch(old(State()))
    {
      lo, hi := Wrap32(lo * 256), Wrap32(hi * 256 + 255);
      var next := ReadByte();
      code := ShiftIn(code, next);
    }

    /** Takes one decision: the one ahead, when that was coded with the same probability. */
    method Read(p: Prob) returns (bit: bool)
      requires Valid()
      modifies this
      ensures Valid()
      ensures old(known) && old(future) != [] && old(future)[0].p == p
        ==> bit == old(future)[0].bit && Ahead(old(future)[1..])
    {
      assert Look(Coder, 0);
      ghost var r := State();
      var mid := Split(prec, Bounds(lo, hi), p);
      bit := code <= mid;
      if bit { hi := mid; } else { lo := mid + 1; }
      assert State() == r.(b := Narrow(prec, r.b, Decision(bit, p)));
      Renormalize();
      assert (bit, State()) == Step(prec, r, p);
      known := known && future != [] && future[0].p == p;
      if known {
        StepTracks(prec, r, future);
        future := future[1..];
      }
    }
  }

  // ---------------------------------------------------------------- any adaptive model

  /** A deterministic adaptive model: the probability of the next bit, given all bits so far. */
  type Model = seq<bool> -> Prob

  /** The decisions that code the bits `todo` once the bits `seen` are known to the model. */
  function DecisionsFrom(model: Model, seen: seq<bool>, todo: seq<bool>): (ds: seq<Decision>)
    decreases |todo|
  {
    if todo == [] then [] else [Decision(todo[0], model(seen))] + DecisionsFrom(model, seen + [todo[0]], todo[1..])
  }

  /** Reads `n` more bits after `seen`. */
  function DecodeBits(prec: Precision, model: Model, r: Reader, seen: seq<bool>, n: nat): seq<bool>
    requires r.b.lo < r.b.hi && !SameTop(r.b)
    decreases n
  {
    if n == 0 then seen
    else
      var (bit, next) := Step(prec, r, model(seen));
      DecodeBits(prec, model, next, seen + [bit], n - 1)
  }

  lemma {:induction false} DecodeBitsTracks(prec: Precision, model: Model, r: Reader, seen: seq<bool>, todo: seq<bool>)
    requires r.b.lo < r.b.hi && !SameTop(r.b)
    requires Tracks(prec, r, DecisionsFrom(model, seen, todo))
    ensures DecodeBits(prec, model, r, seen, |todo|) == seen + todo
    decreases |todo|
  {
    if todo == [] {
      assert seen + todo == seen;
    } else {
      var ds := DecisionsFrom(model, seen, todo);
      StepTracks(prec, r, ds);
      var seen', todo' := seen + [todo[0]], todo[1..];
      assert ds[1..] == DecisionsFrom(model, seen', todo');
      DecodeBitsTracks(prec, model, Step(prec, r, ds[0].p).1, seen', todo');
      assert seen' + todo' == seen + todo;
    }
  }

  /**
   The coder is lossless for every bit string, every deterministic adaptive model and both
   split formulas: one flush byte, and zeros past the end, are enough.
   */
  lemma CoderRoundTrip(prec: Precision, model: Model, bits: seq<bool>, data: seq<Byte>)
    requires SameStream(data, Code(prec, FULL, DecisionsFrom(model, [], bits)))
    ensures DecodeBits(prec, model, Start(data), [], |bits|) == bits
  {
    StartTracks(prec, data, DecisionsFrom(model, [], bits));
    DecodeBitsTracks(prec, model, Start(data), [], bits);
    assert [] + bits == bits;
  }
}
