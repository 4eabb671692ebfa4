/**
 The whole-byte use of the range coder in src/nz_cm.cpp: CM_Encode and CM_Decode around a model
 that predicts bit by bit. What CM_Input_Bit does with its tables is left open: any function of
 the model's state and the bit.
 */
module ContextMixing {
  import opened Words
  import opened RangeCoder
  import opened CodeLength
  import opened IntCoding
  import opened BitStream

  /** How the model predicts, and how it takes a bit. */
  datatype Mixing<!S> = Mixing(predict: S -> Prob, learn: (S, bool) -> S)

  /** The decisions that code `bits` from model state `s`, and the state behind them. */
  function Decided<S>(m: Mixing<S>, s: S, bits: seq<bool>): (ds: seq<Decision>)
    ensures |ds| == |bits|
  {
    if bits == [] then [] else [Decision(bits[0], m.predict(s))] + Decided(m, m.learn(s, bits[0]), bits[1..])
  }

  function Learned<S>(m: Mixing<S>, s: S, bits: seq<bool>): S {
    if bits == [] then s else Learned(m, m.learn(s, bits[0]), bits[1..])
  }

  lemma {:induction false} DecidedSnoc<S>(m: Mixing<S>, s: S, bits: seq<bool>, bit: bool)
    ensures Learned(m, s, bits + [bit]) == m.learn(Learned(m, s, bits), bit)
    ensures Decided(m, s, bits + [bit]) == Decided(m, s, bits) + [Decision(bit, m.predict(Learned(m, s, bits)))]
  {
    if bits != [] {
      assert (bits + [bit])[1..] == bits[1..] + [bit];
      DecidedSnoc(m, m.learn(s, bits[0]), bits[1..], bit);
    }
  }

  // ---------------------------------------------------------------- the model's bit counter

  /** The first `k` bits of `b`, highest first, below a leading 1. */
  function Partial(b: Byte, k: nat): (w: nat)
    requires k <= 8
    ensures w < 2 * Pow2(k)
  {
    ByteFits(b);
    Parts(b, 8 - k);
    HiFits(b, k, 8 - k);
    Pow2(k) + Hi(b, 8 - k)
  }

  /** What CM_Input_Bit makes of the byte in the making, its bit count and the last four bytes. */
  function Counted(wip: nat, index: nat, last: U32, bit: bool): (nat, nat, U32) {
    var w := wip * 2 + if bit then 1 else 0;
    if w <= 0xff then (w, index + 1, last) else (1, 0, Wrap32(last * 256 + w - 256))
  }

  class Mixer<S> {
    const model: Mixing<S>
    var state: S
    var wip: nat
    var index: nat
    var last: U32

    constructor (model: Mixing<S>, state: S)
      ensures this.model == model && this.state == state && AtByte()
    {
      this.model, this.state := model, state;
      wip, index, last := 1, 0, 0;
    }

    /** Between two bytes. */
    predicate AtByte()
      reads this
    {
      wip == 1 && index == 0
    }

    /** CM_Input_Bit: the byte is put together below a leading 1, and handed on when that reaches bit 8. */
    method InputBit(bit: bool)
      requires wip <= 0xff && index < 8
      modifies this
      ensures state == old(model.learn(state, bit))
      ensures (wip, index, last) == Counted(old(wip), old(index), old(last), bit)
    {
      state := model.learn(state, bit);
      wip := wip * 2 + if bit then 1 else 0;
      if wip <= 0xff {
        index := index + 1;
      } else {
        wip := wip - 256;
        last := Wrap32(last * 256 + wip);
        wip, index := 1, 0;
      }
    }
  }

  // ---------------------------------------------------------------- bits of bytes

  /** Bit `k` of `n`, counted from the top. */
  lemma {:induction false} BitFromTop(v: nat, n: nat, k: nat)
    requires v < Pow2(n) && k < n
    ensures Bits(v, n)[k] == (Hi(v, n - 1 - k) % 2 == 1)
    decreases n
  {
    if k < n - 1 {
      BitFromTop(v / 2, n - 1, k);
    }
  }

  lemma {:induction false} BitOfByte(s: seq<Byte>, i: nat, k: nat)
    requires i < |s| && k < 8
    ensures s[i] < Pow2(BYTE) && BitsOf(s)[8 * i + k] == Bits(s[i], BYTE)[k] == (Hi(s[i], 7 - k) % 2 == 1)
    decreases |s|
  {
    ByteFits(s[i]);
    BitFromTop(s[i], BYTE, k);
    if i < |s| - 1 {
      BitOfByte(s[..|s| - 1], i, k);
    }
  }

  lemma PartialNext(b: Byte, k: nat)
    requires k < 8
    ensures Partial(b, k + 1) == Partial(b, k) * 2 + Hi(b, 7 - k) % 2
    ensures Partial(b, 0) == 1 && Partial(b, 8) == 256 + b
    ensures Pow2(k) <= Partial(b, k) < 2 * Pow2(k)
  {
    HiOfHi(b, 7 - k, 1);
    ByteFits(b);
    HiFits(b, 0, 8);
  }

  // ---------------------------------------------------------------- the model in step with a text

  /** `m` has learned the first `t` bits of `text`, from the state `s0`. */
  ghost predicate HasLearned<S(!new)>(c: Mixer<S>, s0: S, text: seq<Byte>, t: nat)
    reads c
  {
    && t <= 8 * |text| && c.state == Learned(c.model, s0, BitsOf(text)[..t])
    && c.index == t % 8 && c.wip == if t < 8 * |text| then Partial(text[t / 8], t % 8) else 1
  }

  /** The bit of `text` at `t`. */
  function BitAt(text: seq<Byte>, t: nat): bool
    requires t < 8 * |text|
  {
    BitsOf(text)[t]
  }

  lemma BitIs(text: seq<Byte>, t: nat)
    requires t < 8 * |text|
    ensures BitAt(text, t) == (Hi(text[t / 8], 7 - t % 8) % 2 == 1)
    ensures BitsOf(text)[..t + 1] == BitsOf(text)[..t] + [BitAt(text, t)]
  {
    BitOfByte(text, t / 8, t % 8);
    TakeSnoc(BitsOf(text), t);
  }

  lemma TakeSnoc(bits: seq<bool>, t: nat)
    requires t < |bits|
    ensures bits[..t + 1] == bits[..t] + [bits[t]]
  {
  }

  lemma LearnedNext<S>(m: Mixing<S>, s0: S, text: seq<Byte>, t: nat)
    requires t < 8 * |text|
    ensures Learned(m, s0, BitsOf(text)[..t + 1]) == m.learn(Learned(m, s0, BitsOf(text)[..t]), BitAt(text, t))
  {
    BitIs(text, t);
    DecidedSnoc(m, s0, BitsOf(text)[..t], BitAt(text, t));
  }

  /** Taking the bit of the text keeps the count in step; the eighth one hands the byte on. */
  lemma InStep(text: seq<Byte>, t: nat, last: U32)
    requires t < 8 * |text|
    ensures var (wip, index, last') := Counted(Partial(text[t / 8], t % 8), t % 8, last, BitAt(text, t));
            && index == (t + 1) % 8
            && wip == (if t + 1 < 8 * |text| then Partial(text[(t + 1) / 8], (t + 1) % 8) else 1)
            && (t % 8 == 7 ==> wip == 1 && last' % 256 == text[t / 8])
  {
    BitIs(text, t);
    CountedIs(text[t / 8], t % 8, last, BitAt(text, t));
    PlaceNext(text, t);
  }

  lemma CountedIs(b: Byte, k: nat, last: U32, bit: bool)
    requires k < 8 && bit == (Hi(b, 7 - k) % 2 == 1)
    ensures k < 7 ==> Counted(Partial(b, k), k, last, bit) == (Partial(b, k + 1), k + 1, last)
    ensures k == 7 ==> var r := Counted(Partial(b, k), k, last, bit); r.0 == 1 && r.1 == 0 && r.2 % 256 == b
  {
    PartialNext(b, k);
    LowByte(last, b);
    if k < 7 {
      Pow2Monotone(k + 1, 7);
      PartialNext(b, k + 1);
      assert Pow2(7) == 128;
    }
  }

  lemma LowByte(last: U32, b: Byte)
    ensures Wrap32(last * 256 + b) % 256 == b
  {
    var x: int := last * 256 + b;
    assert x % 256 == b;
    assert x == x / TWO32 * TWO32 + Wrap32(x);
  }

  lemma PlaceNext(text: seq<Byte>, t: nat)
    requires t < 8 * |text|
    ensures t % 8 < 7 ==> (t + 1) / 8 == t / 8 && (t + 1) % 8 == t % 8 + 1 && t + 1 < 8 * |text|
    ensures t % 8 == 7 ==> (t + 1) / 8 == t / 8 + 1 && (t + 1) % 8 == 0
    ensures t % 8 == 7 && t + 1 < 8 * |text| ==> Partial(text[(t + 1) / 8], 0) == 1
  {
    if t % 8 == 7 && t + 1 < 8 * |text| {
      PartialNext(text[(t + 1) / 8], 0);
    }
  }

  // ---------------------------------------------------------------- both ends

  /** The payload of `text` for a model in state `s`. */
  ghost function Payload<S>(m: Mixing<S>, s: S, text: seq<Byte>): seq<Byte> {
    Code(Fine, FULL, Decided(m, s, BitsOf(text)))
  }

  lemma TextBegins<S(!new)>(c: Mixer<S>, text: seq<Byte>)
    requires c.AtByte()
    ensures HasLearned(c, c.state, text, 0)
  {
    if text != [] {
      PartialNext(text[0], 0);
    }
  }

  /** CM_Encode: every bit of every byte, highest first, and one byte to flush. */
  method Encode<S(!new)>(c: Mixer<S>, text: seq<Byte>) returns (payload: seq<Byte>)
    requires c.AtByte()
    modifies c
    ensures payload == Payload(c.model, old(c.state), text)
    ensures c.AtByte() && c.state == Learned(c.model, old(c.state), BitsOf(text))
  {
    ghost var s0 := c.state;
    var enc := new Encoder(Fine, 32 * |text| + 5);
    TextBegins(c, text);
    for i := 0 to |text|
      invariant fresh(enc) && Taken(c, enc, s0, text, 8 * i)
    {
      EncodeByte(c, enc, s0, text, i, text[i]);
    }
    assert BitsOf(text)[..8 * |text|] == BitsOf(text);
    enc.Flush();
    CodeIsShort(Fine, FULL, enc.trace);
    payload := enc.out;
  }

  /** Encoder and model have taken the first `t` bits of the text. */
  ghost predicate Taken<S(!new)>(c: Mixer<S>, enc: Encoder, s0: S, text: seq<Byte>, t: nat)
    reads c, enc
  {
    HasLearned(c, s0, text, t) && enc.Valid() && enc.trace == Decided(c.model, s0, BitsOf(text)[..t])
  }

  method EncodeByte<S(!new)>(c: Mixer<S>, enc: Encoder, ghost s0: S, ghost text: seq<Byte>, ghost i: nat, b: Byte)
    requires i < |text| && b == text[i] && Taken(c, enc, s0, text, 8 * i)
    modifies c, enc
    ensures Taken(c, enc, s0, text, 8 * i + 8)
  {
    for k := 8 downto 0
      invariant Taken(c, enc, s0, text, 8 * i + 8 - k)
    {
      BitOfByte(text, i, 7 - k);
      EncodeBit(c, enc, s0, text, 8 * i + 7 - k, Hi(b, k) % 2 == 1);
    }
  }

  method EncodeBit<S(!new)>(c: Mixer<S>, enc: Encoder, ghost s0: S, ghost text: seq<Byte>, ghost t: nat, bit: bool)
    requires t < 8 * |text| && Taken(c, enc, s0, text, t) && bit == BitAt(text, t)
    modifies c, enc
    ensures Taken(c, enc, s0, text, t + 1)
  {
    BitIs(text, t);
    PartialBounds(text[t / 8], t % 8);
    DecidedSnoc(c.model, s0, BitsOf(text)[..t], bit);
    enc.Encode(bit, c.model.predict(c.state));
    InStep(text, t, c.last);
    LearnedNext(c.model, s0, text, t);
    c.InputBit(bit);
  }

  lemma PartialBounds(b: Byte, k: nat)
    requires k < 8
    ensures Partial(b, k) <= 0xff
  {
    PartialNext(b, k);
    Pow2Monotone(k, 7);
    assert Pow2(7) == 128;
  }

  /** As many bytes as were asked for and the budget of bits allows. */
  function Allowed(size: nat, budget: nat): nat {
    if budget / 8 < size then budget / 8 else size
  }

  /** The decoder stands before bit `t` of the text. */
  ghost predicate Before<S(!new)>(c: Mixer<S>, dec: Decoder, s0: S, text: seq<Byte>, t: nat)
    reads c, dec
  {
    HasLearned(c, s0, text, t) && dec.Ahead(Decided(c.model, c.state, BitsOf(text)[t..]))
  }

  lemma WipRange(index: nat, wip: nat)
    requires index < 8 && Pow2(index) <= wip < 2 * Pow2(index)
    ensures wip <= 0xff && Pow2(index + 1) == 2 * Pow2(index) && Pow2(0) == 1
    ensures if index < 7 then wip * 2 + 1 <= 0xff else wip * 2 > 0xff
  {
    Pow2Monotone(index, 7);
    if index < 7 { Pow2Monotone(index + 1, 7); }
    assert Pow2(7) == 128;
  }

  lemma RestSplits<S>(m: Mixing<S>, s: S, text: seq<Byte>, t: nat)
    requires t < 8 * |text|
    ensures var ds := Decided(m, s, BitsOf(text)[t..]);
            && ds != [] && ds[0] == Decision(BitAt(text, t), m.predict(s))
            && ds[1..] == Decided(m, m.learn(s, BitAt(text, t)), BitsOf(text)[t + 1..])
  {
    assert BitsOf(text)[t..][1..] == BitsOf(text)[t + 1..];
  }

  /** One bit; nothing is known of it unless the stream codes `text`. */
  method DecodeBit<S(!new)>(c: Mixer<S>, dec: Decoder, ghost s0: S, ghost text: seq<Byte>, ghost t: nat, ghost known: bool)
    requires dec.Valid() && c.index == t % 8 && Pow2(c.index) <= c.wip < 2 * Pow2(c.index)
    requires known ==> t < 8 * |text| && Before(c, dec, s0, text, t)
    modifies c, dec
    ensures dec.Valid() && c.index == (t + 1) % 8 && Pow2(c.index) <= c.wip < 2 * Pow2(c.index)
    ensures known ==> Before(c, dec, s0, text, t + 1)
    ensures known && t % 8 == 7 ==> c.AtByte() && c.last % 256 == text[t / 8]
  {
    WipRange(c.index, c.wip);
    if known {
      RestSplits(c.model, c.state, text, t);
    }
    var bit := dec.Read(c.model.predict(c.state));
    if known {
      InStep(text, t, c.last);
      LearnedNext(c.model, s0, text, t);
    }
    c.InputBit(bit);
  }

  /** One bit, and the byte it may complete. */
  method TakeBit<S(!new)>(c: Mixer<S>, dec: Decoder, out0: seq<Byte>, ghost s0: S, ghost text: seq<Byte>, ghost t: nat, ghost known: bool)
    returns (out: seq<Byte>)
    requires dec.Valid() && c.index == t % 8 && Pow2(c.index) <= c.wip < 2 * Pow2(c.index) && |out0| == t / 8
    requires known ==> t < 8 * |text| && Before(c, dec, s0, text, t) && out0 == text[..t / 8]
    modifies c, dec
    ensures dec.Valid() && c.index == (t + 1) % 8 && Pow2(c.index) <= c.wip < 2 * Pow2(c.index) && |out| == (t + 1) / 8
    ensures known ==> Before(c, dec, s0, text, t + 1) && out == text[..(t + 1) / 8]
  {
    OneFurther(t);
    DecodeBit(c, dec, s0, text, t, known);
    out := out0;
    if c.index == 0 {
      out := out + [c.last % 256];
    }
  }

  /**
   CM_Decode, for `size` bytes and a budget of so many bits. On the payload of a text of that
   size it gives as much of the text as the budget allows, eight bits a byte: all of it exactly
   when there are `8 * size`, and then the model ends in the encoder's state.
   */
  method Decode<S(!new)>(c: Mixer<S>, input: seq<Byte>, size: nat, budget0: nat, ghost text: seq<Byte>)
    returns (out: seq<Byte>, budget: nat)
    requires c.AtByte()
    modifies c
    ensures |out| == Allowed(size, budget0)
    ensures budget == if budget0 < 8 * size then 0 else budget0 - 8 * size
    ensures |text| == size && SameStream(input, Payload(c.model, old(c.state), text)) ==> out == text[..Allowed(size, budget0)]
    ensures |text| == size && SameStream(input, Payload(c.model, old(c.state), text)) && budget0 >= 8 * size
      ==> out == text && c.AtByte() && c.state == Learned(c.model, old(c.state), BitsOf(text))
  {
    ghost var s0, known := c.state, |text| == size && SameStream(input, Payload(c.model, c.state, text));
    var dec := new Decoder(Fine, input, Decided(c.model, s0, BitsOf(text)));
    out, budget := [], budget0;
    if size == 0 { return; }
    TextBegins(c, text);
    var left := size;
    ghost var t: nat := 0;
    while true
      invariant fresh(dec) && dec.Valid() && c.index == t % 8 && Pow2(c.index) <= c.wip < 2 * Pow2(c.index)
      invariant 0 < left && |out| == t / 8 == size - left && budget == budget0 - t
      invariant known ==> Before(c, dec, s0, text, t) && out == text[..t / 8]
      decreases budget
    {
      AllowedIs(size, budget0, t);
      if budget == 0 { return; }
      budget := budget - 1;
      OneFurther(t);
      out := TakeBit(c, dec, out, s0, text, t, known);
      t := t + 1;
      if c.index == 0 {
        left := left - 1;
        if left == 0 {
          AllowedIs(size, budget0, t);
          if known { AllLearned(c, s0, text); }
          return;
        }
      }
    }
  }

  /** Stopped by the budget after `t` bits, or by the size. */
  lemma AllowedIs(size: nat, budget: nat, t: nat)
    requires t <= budget
    ensures t == budget && t / 8 < size ==> t / 8 == Allowed(size, budget) && budget < 8 * size
    ensures t / 8 == size && t % 8 == 0 ==> t == 8 * size && Allowed(size, budget) == size
  {
  }

  lemma OneFurther(t: nat)
    ensures if t % 8 == 7 then (t + 1) / 8 == t / 8 + 1 && (t + 1) % 8 == 0 else (t + 1) / 8 == t / 8 && (t + 1) % 8 == t % 8 + 1
  {
  }

  lemma TakeAll(bits: seq<bool>)
    ensures bits[..|bits|] == bits
  {
  }

  lemma AllLearned<S(!new)>(c: Mixer<S>, s0: S, text: seq<Byte>)
    requires HasLearned(c, s0, text, 8 * |text|)
    ensures c.state == Learned(c.model, s0, BitsOf(text)) && c.AtByte()
  {
    TakeAll(BitsOf(text));
  }

  /** What is encoded is decoded, by a model that starts in the same state and ends in the same one. */
  method RoundTrip<S(!new)>(mine: Mixer<S>, yours: Mixer<S>, text: seq<Byte>) returns (out: seq<Byte>)
    requires mine != yours && mine.AtByte() && yours.AtByte() && mine.model == yours.model && mine.state == yours.state
    modifies mine, yours
    ensures out == text && mine.state == yours.state && mine.AtByte() && yours.AtByte()
  {
    var payload := Encode(mine, text);
    var left;
    out, left := Decode(yours, payload, |text|, 8 * |text|, text);
  }
}
