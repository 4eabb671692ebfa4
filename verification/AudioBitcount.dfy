/**
 Variant B of the audio bit-count coder (src/nz_audio.cpp): a carry-less range coder over 64
 symbols whose 32 frequency tables are exact sliding windows. The model comes first, then the
 coder's interval arithmetic, then the two halves.
 */
module AudioModel {
  import opened Words

  const CONTEXTS := 32
  const SYMBOLS := 64
  const WINDOW := 2040
  const TOTAL := 16384

  type Symbol = s: int | 0 <= s < 64

  /** The adaptive state of one side: per context the frequencies, the ring of recent symbols and its cursor. */
  datatype Model = Model(freq: seq<seq<nat>>, ring: seq<seq<Symbol>>, cursor: seq<nat>, ctx: nat)

  /** The sum of the first `k` frequencies. */
  function Cum(f: seq<nat>, k: nat): nat
    requires k <= |f|
  {
    if k == 0 then 0 else Cum(f, k - 1) + f[k - 1]
  }

  lemma {:induction false} CumUpdate(f: seq<nat>, i: nat, v: nat, k: nat)
    requires i < |f| && k <= |f|
    ensures Cum(f[i := v], k) == Cum(f, k) + if i < k then v - f[i] else 0
  {
    if k != 0 {
      CumUpdate(f, i, v, k - 1);
    }
  }

  lemma {:induction false} AllZero(f: seq<nat>, k: nat)
    requires k <= |f| && forall i :: 0 <= i < |f| ==> f[i] == 0
    ensures Cum(f, k) == 0
  {
    if k != 0 {
      AllZero(f, k - 1);
    }
  }

  lemma {:induction false} CumMonotone(f: seq<nat>, i: nat, j: nat)
    requires i <= j <= |f|
    ensures Cum(f, i) <= Cum(f, j)
  {
    if i < j {
      CumMonotone(f, i, j - 1);
    }
  }

  /** The frequencies are one plus eight per occurrence in the window, and total 2^14. */
  ghost predicate TableOk(freq: seq<nat>, ring: seq<Symbol>) {
    && |freq| == SYMBOLS && |ring| == WINDOW
    && Cum(freq, SYMBOLS) == TOTAL
    && forall s: Symbol :: freq[s] == 1 + 8 * multiset(ring)[s]
  }

  /** What every operation keeps; 16128 = 256 * 63 keeps the context index below 32 without its mask. */
  ghost predicate Good(m: Model) {
    && |m.freq| == |m.ring| == |m.cursor| == CONTEXTS
    && (forall c :: 0 <= c < CONTEXTS ==> TableOk(m.freq[c], m.ring[c]) && m.cursor[c] < WINDOW)
    && m.ctx <= 16128
  }

  function Selected(ctx: nat): nat {
    (ctx + 0x80) / 512 % 32
  }

  function NextCtx(ctx: nat, sym: Symbol): nat {
    (ctx * 16 + sym * 256 + 8 - ctx) / 16
  }

  lemma ContextBounds(ctx: nat, sym: Symbol)
    requires ctx <= 16128
    ensures NextCtx(ctx, sym) <= 16128
    ensures Selected(ctx) == (ctx + 0x80) / 512 < 32
  {
  }

  function Apart(a: int, b: int): nat {
    if a < b then b - a else a - b
  }

  /** The context moves a sixteenth of the way towards the symbol's place on its scale, rounded. */
  lemma ContextFollows(ctx: nat, sym: Symbol)
    ensures 16 * Apart(NextCtx(ctx, sym), 256 * sym) <= 15 * Apart(ctx, 256 * sym) + 8
    ensures Apart(ctx, 256 * sym) > 8 ==> Apart(NextCtx(ctx, sym), 256 * sym) < Apart(ctx, 256 * sym)
    ensures Apart(ctx, 256 * sym) <= 8 ==> Apart(NextCtx(ctx, sym), 256 * sym) <= 8
  {
    var next := NextCtx(ctx, sym);
    assert 16 * next <= ctx * 16 + sym * 256 + 8 - ctx < 16 * next + 16;
  }

  function CtxAfter(ctx: nat, sym: Symbol, n: nat): nat
  {
    if n == 0 then ctx else NextCtx(CtxAfter(ctx, sym, n - 1), sym)
  }

  /** A symbol that keeps coming is coded in a context of its own: one of 32, for two neighbouring symbols each. */
  lemma {:induction false} ContextSettles(ctx: nat, sym: Symbol, n: nat)
    requires n + 8 >= Apart(ctx, 256 * sym)
    ensures Selected(CtxAfter(ctx, sym, n)) == sym / 2
  {
    ComesNear(ctx, sym, n);
    var c, k := CtxAfter(ctx, sym, n), sym / 2;
    assert sym == 2 * k || sym == 2 * k + 1;
    assert 512 * k <= c + 0x80 < 512 * (k + 1);
  }

  lemma {:induction false} ComesNear(ctx: nat, sym: Symbol, n: nat)
    ensures var far := Apart(ctx, 256 * sym); Apart(CtxAfter(ctx, sym, n), 256 * sym) <= if far <= n + 8 then 8 else far - n
  {
    if n > 0 {
      ComesNear(ctx, sym, n - 1);
      ContextFollows(CtxAfter(ctx, sym, n - 1), sym);
    }
  }

  /** One coded symbol enters the window of the selected context and the oldest leaves it. */
  function Touch(m: Model, sym: Symbol): Model
    requires Good(m)
  {
    var c := Selected(m.ctx);
    var evicted := m.ring[c][m.cursor[c]];
    EvictedCounted(m, sym);
    var f := m.freq[c][sym := m.freq[c][sym] + 8];
    var row: seq<Symbol> := m.ring[c][m.cursor[c] := sym];
    Model(
      m.freq[c := f[evicted := f[evicted] - 8]],
      m.ring[c := row],
      m.cursor[c := if m.cursor[c] < WINDOW - 1 then m.cursor[c] + 1 else 0],
      NextCtx(m.ctx, sym))
  }

  lemma EvictedCounted(m: Model, sym: Symbol)
    requires Good(m)
    ensures var c := Selected(m.ctx);
      c < CONTEXTS && |m.freq[c]| == SYMBOLS && |m.ring[c]| == WINDOW && m.cursor[c] < WINDOW
      && m.freq[c][m.ring[c][m.cursor[c]]] >= 9
  {
    var c := Selected(m.ctx);
    ContextBounds(m.ctx, sym);
    assert TableOk(m.freq[c], m.ring[c]);
    assert m.ring[c][m.cursor[c]] in multiset(m.ring[c]);
  }

  lemma TableTouch(freq: seq<nat>, ring: seq<Symbol>, pos: nat, sym: Symbol)
    requires TableOk(freq, ring) && pos < WINDOW
    ensures var f := freq[sym := freq[sym] + 8];
      var e := ring[pos];
      var row: seq<Symbol> := ring[pos := sym];
      f[e] >= 8 && TableOk(f[e := f[e] - 8], row)
  {
    var f, e := freq[sym := freq[sym] + 8], ring[pos];
    var row: seq<Symbol> := ring[pos := sym];
    assert e in multiset(ring);
    CumUpdate(freq, sym, freq[sym] + 8, SYMBOLS);
    CumUpdate(f, e, f[e] - 8, SYMBOLS);
    assert multiset(row) == multiset(ring) - multiset{e} + multiset{sym};
  }

  lemma TouchKeepsGood(m: Model, sym: Symbol)
    requires Good(m)
    ensures Good(Touch(m, sym))
  {
    var c := Selected(m.ctx);
    ContextBounds(m.ctx, sym);
    assert TableOk(m.freq[c], m.ring[c]);
    TableTouch(m.freq[c], m.ring[c], m.cursor[c], sym);
  }

  /** The interval of a symbol lies within 2^14 and is not empty. */
  lemma SymbolInterval(m: Model, sym: Symbol)
    requires Good(m)
    ensures var c := Selected(m.ctx);
      c < CONTEXTS && |m.freq[c]| == SYMBOLS
      && Cum(m.freq[c], sym) + m.freq[c][sym] <= TOTAL && m.freq[c][sym] >= 1
  {
    var c := Selected(m.ctx);
    ContextBounds(m.ctx, sym);
    assert TableOk(m.freq[c], m.ring[c]);
    CumMonotone(m.freq[c], sym + 1, SYMBOLS);
  }
}

/**
 The interval arithmetic of the 64-symbol coder. Its stream is read as one long number: the
 whole code of a symbol sequence stays inside [lo, lo + range).
 */
module AudioInterval {
  import opened Words

  /** A coded symbol: the start and the width of its interval within 2^14. */
  datatype Slot = Slot(low: nat, freq: nat)

  predicate SlotOk(s: Slot) {
    s.freq >= 1 && s.low + s.freq <= 16384
  }

  datatype Interval = Interval(lo: U32, range: U32)

  /** Kept by every step: the interval ends at 2^32 at most, and exactly there only high up. */
  predicate Ok(v: Interval) {
    v.range >= 1 && v.lo + v.range <= TWO32 && (v.lo + v.range == TWO32 ==> v.lo >= TWO24)
  }

  /** `((lo + range) ^ lo) > 0xffffff` on 32-bit registers. */
  predicate TopsDiffer(v: Interval) {
    v.lo / TWO24 != Wrap32(v.lo + v.range) / TWO24
  }

  /** The renormalisation loop stops here. */
  predicate Settled(v: Interval) {
    TopsDiffer(v) && v.range > 0x3fff
  }

  /** The underflow squeeze: `(0 - lo) & 0x3fff` when the tops differ. */
  function Squeezed(v: Interval): U32 {
    if TopsDiffer(v) then Wrap32(0 - v.lo) % 0x4000 else v.range
  }

  function ShiftLeft(v: Interval): Interval {
    Interval(Wrap32(v.lo * 256), Wrap32(Squeezed(v) * 256))
  }

  lemma NegatedLow(t: nat, m: nat)
    requires t < 256 && 0 < TWO24 - m < 0x4000
    ensures Wrap32(0 - (t * TWO24 + m)) % 0x4000 == TWO24 - m
  {
    var k := (255 - t) * 1024;
    assert Wrap32(0 - (t * TWO24 + m)) == TWO32 - (t * TWO24 + m) == (TWO24 - m) + 0x4000 * k;
  }

  lemma TopsMeet(v: Interval, t: nat, m: nat)
    requires Ok(v) && v.lo == t * TWO24 + m && m < TWO24
    ensures TopsDiffer(v) <==> m + v.range >= TWO24
  {
    if m + v.range < TWO24 {
      assert v.lo + v.range == t * TWO24 + (m + v.range);
    } else if v.lo + v.range < TWO32 {
      assert (v.lo + v.range) / TWO24 >= t + 1;
    }
  }

  lemma SqueezeInside(v: Interval)
    requires Ok(v) && !Settled(v)
    ensures 1 <= Squeezed(v) <= v.range
    ensures v.lo % TWO24 + Squeezed(v) <= TWO24
    ensures TopsDiffer(v) ==> v.lo % TWO24 + Squeezed(v) == TWO24 && Squeezed(v) < 0x4000
    ensures !TopsDiffer(v) ==> v.lo % TWO24 + v.range < TWO24 && Squeezed(v) == v.range
  {
    var t, m := v.lo / TWO24, v.lo % TWO24;
    TopsMeet(v, t, m);
    if TopsDiffer(v) {
      NegatedLow(t, m);
    }
  }

  lemma ShiftedBy8(lo: U32)
    ensures Wrap32(lo * 256) == lo % TWO24 * 256
  {
    assert lo * 256 == lo % TWO24 * 256 + lo / TWO24 * TWO32;
  }

  /** `range` is never zero after a shift: the two exits of `AudioBitcountDecoderB` for that are dead. */
  lemma ShiftKeepsOk(v: Interval)
    requires Ok(v) && !Settled(v)
    ensures Ok(ShiftLeft(v))
    ensures ShiftLeft(v).lo == v.lo % TWO24 * 256
    ensures ShiftLeft(v).range == Squeezed(v) * 256
    ensures TopsDiffer(v) ==> ShiftLeft(v).lo + ShiftLeft(v).range == TWO32
    ensures !TopsDiffer(v) ==> ShiftLeft(v).lo + ShiftLeft(v).range < TWO32
    ensures v.lo + v.range == TWO32 ==> TopsDiffer(v) && Squeezed(v) == v.range
  {
    SqueezeInside(v);
    ShiftedBy8(v.lo);
  }

  /** The loop's progress: a first squeeze moves the end to 2^32 for good, everything else widens. */
  lemma ShiftProgress(v: Interval)
    requires Ok(v) && !Settled(v)
    ensures Ok(ShiftLeft(v))
    ensures Measure(ShiftLeft(v)).0 <= Measure(v).0
    ensures Measure(ShiftLeft(v)).0 == Measure(v).0 ==> Measure(ShiftLeft(v)).1 < Measure(v).1
  {
    ShiftKeepsOk(v);
  }

  function Measure(v: Interval): (nat, nat)
    requires Ok(v)
  {
    (if v.lo + v.range < TWO32 then 1 else 0, TWO32 - v.range)
  }

  function Narrow(v: Interval, s: Slot): Interval {
    var scale := v.range / 0x4000;
    Interval(Wrap32(v.lo + s.low * scale), Wrap32(scale * s.freq))
  }

  lemma ScaledInside(scale: nat, s: Slot, range: nat)
    requires SlotOk(s) && scale >= 1 && scale * 16384 <= range
    ensures 0 <= s.low * scale && scale * s.freq >= 1
    ensures s.low * scale + scale * s.freq <= range
  {
    assert scale * s.freq >= scale * 1;
    assert s.low * scale + scale * s.freq == scale * (s.low + s.freq) <= scale * 16384;
  }

  lemma NarrowKeepsOk(v: Interval, s: Slot)
    requires Ok(v) && Settled(v) && SlotOk(s)
    ensures Ok(Narrow(v, s))
    ensures Narrow(v, s).lo == v.lo + s.low * (v.range / 0x4000)
    ensures Narrow(v, s).range == v.range / 0x4000 * s.freq
    ensures v.lo <= Narrow(v, s).lo && Narrow(v, s).lo + Narrow(v, s).range <= v.lo + v.range
  {
    var scale := v.range / 0x4000;
    ScaledInside(scale, s, v.range);
    var low, width := s.low * scale, scale * s.freq;
    assert Wrap32(v.lo + low) == v.lo + low && Wrap32(width) == width;
  }

  /** The flush: up to four bytes of `lo`, ending as soon as what is left is zero. */
  function Tail(lo: U32, k: nat): (t: seq<Byte>)
    decreases k
  {
    if k == 0 || lo == 0 then [] else [lo / TWO24] + Tail(Wrap32(lo * 256), k - 1)
  }

  /** The bytes that code the slots `ops` from the interval `v`. */
  ghost function Code(v: Interval, ops: seq<Slot>): seq<Byte>
    requires Ok(v) && forall s :: s in ops ==> SlotOk(s)
    decreases |ops|, Measure(v).0, Measure(v).1
  {
    if !Settled(v) then
      ShiftProgress(v);
      [v.lo / TWO24] + Code(ShiftLeft(v), ops)
    else if ops == [] then
      Tail(v.lo, 4)
    else
      NarrowKeepsOk(v, ops[0]);
      Code(Narrow(v, ops[0]), ops[1..])
  }

  lemma TailStep(lo: U32, k: nat, i: nat)
    requires k >= 1
    ensures At(Tail(lo, k), 0) == lo / TWO24
    ensures At(Tail(lo, k), i + 1) == At(Tail(Wrap32(lo * 256), k - 1), i)
  {
  }

  /** The dropped bytes of the flush are zeros, which is what the reader sees past the end. */
  lemma TailWindow(lo: U32)
    ensures Window(Tail(lo, 4)) == lo
  {
    var l1: int := Wrap32(lo * 256);
    var l2: int := Wrap32(l1 * 256);
    var l3: int := Wrap32(l2 * 256);
    ShiftedBy8(lo); ShiftedBy8(l1); ShiftedBy8(l2);
    TailStep(lo, 4, 0); TailStep(lo, 4, 1); TailStep(lo, 4, 2);
    TailStep(l1, 3, 0); TailStep(l1, 3, 1);
    TailStep(l2, 2, 0);
    TailStep(l3, 1, 0);
    Digits(lo, l1, l2, l3);
  }

  lemma Digits(lo: nat, l1: nat, l2: nat, l3: nat)
    requires l1 == lo % TWO24 * 256 && l2 == l1 % TWO24 * 256 && l3 == l2 % TWO24 * 256
    ensures lo == lo / TWO24 * TWO24 + l1 / TWO24 * TWO16 + l2 / TWO24 * TWO8 + l3 / TWO24
  {
    var m := lo % TWO24;
    assert l1 / TWO24 == m / TWO16;
    assert l2 == m % TWO16 * TWO16 by { assert m == m / TWO16 * TWO16 + m % TWO16; }
    assert l2 / TWO24 == m % TWO16 / TWO8;
    var r := m % TWO16;
    assert l3 == r % TWO8 * TWO24 by { assert r == r / TWO8 * TWO8 + r % TWO8; }
  }

  /** Zero-extended and read as a number, the code lies in its interval. */
  lemma CodeNext(v: Interval, s: Slot, ops: seq<Slot>)
    requires Ok(v) && Settled(v) && SlotOk(s) && forall o :: o in ops ==> SlotOk(o)
    ensures Ok(Narrow(v, s)) && Code(v, [s] + ops) == Code(Narrow(v, s), ops)
  {
    NarrowKeepsOk(v, s);
    assert ([s] + ops)[1..] == ops;
  }

  lemma {:induction false} CodeInInterval(v: Interval, ops: seq<Slot>)
    requires Ok(v) && forall s :: s in ops ==> SlotOk(s)
    ensures v.lo <= Window(Code(v, ops)) < v.lo + v.range
    decreases |ops|, Measure(v).0, Measure(v).1
  {
    if !Settled(v) {
      ShiftKeepsOk(v);
      SqueezeInside(v);
      CodeInInterval(ShiftLeft(v), ops);
      var tail := Code(ShiftLeft(v), ops);
      var s := [v.lo / TWO24] + tail;
      assert At(s, 0) == v.lo / TWO24 && At(s, 1) == At(tail, 0) && At(s, 2) == At(tail, 1) && At(s, 3) == At(tail, 2);
      assert Window(tail) / 256 == At(tail, 0) * TWO16 + At(tail, 1) * TWO8 + At(tail, 2);
    } else if ops == [] {
      TailWindow(v.lo);
    } else {
      NarrowKeepsOk(v, ops[0]);
      CodeInInterval(Narrow(v, ops[0]), ops[1..]);
    }
  }
}

/** The two halves of the coder, over the model and the interval arithmetic above. */
module AudioBitcount {
  import opened Words
  import opened AudioModel
  import I = AudioInterval

  // ---------------------------------------------------------------- the initial state

  function Clipped(a: int): seq<Symbol> {
    if 0 <= a < SYMBOLS then [a] else []
  }

  function Pair(center: int, d: nat): (s: seq<Symbol>)
    ensures |s| <= 2
  {
    Clipped(center - d) + if d != 0 then Clipped(center + d) else []
  }

  function Repeated(s: seq<Symbol>, times: nat): (r: seq<Symbol>)
    ensures |s| <= 2 ==> |r| <= 2 * times
  {
    if times == 0 then [] else Repeated(s, times - 1) + s
  }

  /** Copies of the pairs at distance 4, 3, 2, 1 and 0. */
  const REPS: seq<nat> := [1, 2, 4, 8, 16]

  /** The symmetric ramp a fresh ring begins with: `reps` copies per distance, the farthest pair first. */
  function Ramp(center: int, reps: seq<nat>): (r: seq<Symbol>)
    ensures |r| <= 2 * Total(reps)
  {
    if reps == [] then [] else Repeated(Pair(center, |reps| - 1), reps[0]) + Ramp(center, reps[1..])
  }

  lemma RampNext(row: seq<Symbol>, center: int, reps: seq<nat>)
    requires reps != []
    ensures row + Ramp(center, reps) == row + Repeated(Pair(center, |reps| - 1), reps[0]) + Ramp(center, reps[1..])
  {
  }

  function Total(reps: seq<nat>): nat {
    if reps == [] then 0 else reps[0] + Total(reps[1..])
  }

  lemma RampFits(c: nat)
    ensures |Ramp(2 * c, REPS)| <= 62
  {
    assert Total(REPS) == 31 by {
      assert REPS[1..] == [2, 4, 8, 16] && [2, 4, 8, 16][1..] == [4, 8, 16] && [4, 8, 16][1..] == [8, 16] && [8, 16][1..] == [16];
      assert Total([16]) == 16;
    }
  }

  function FreshRing(c: nat): (r: seq<Symbol>)
    ensures |r| == WINDOW
  {
    RampFits(c);
    var ramp := Ramp(2 * c, REPS);
    ramp + seq(WINDOW - |ramp|, k requires 0 <= k => (|ramp| + k) % SYMBOLS)
  }

  function FreqOf(ring: seq<Symbol>): (f: seq<nat>)
    ensures |f| == SYMBOLS
  {
    seq(SYMBOLS, s requires 0 <= s < SYMBOLS => 1 + 8 * multiset(ring)[s])
  }

  /** The fresh tables of the first `n` contexts. */
  function FreshTables(n: nat): (m: Model)
    ensures |m.freq| == |m.ring| == |m.cursor| == n && m.ctx == 0
  {
    if n == 0 then Model([], [], [], 0)
    else
      var m := FreshTables(n - 1);
      var row := FreshRing(n - 1);
      Model(m.freq + [FreqOf(row)], m.ring + [row], m.cursor + [|Ramp(2 * (n - 1), REPS)|], 0)
  }

  ghost predicate AllTablesOk(m: Model) {
    && |m.freq| == |m.ring| == |m.cursor|
    && forall c :: 0 <= c < |m.freq| ==> TableOk(m.freq[c], m.ring[c]) && m.cursor[c] < WINDOW
  }

  lemma FreshNext(n: nat, m: Model)
    requires m == FreshTables(n)
    ensures FreshTables(n + 1)
      == Model(m.freq + [FreqOf(FreshRing(n))], m.ring + [FreshRing(n)], m.cursor + [|Ramp(2 * n, REPS)|], m.ctx)
  {
  }

  lemma AllOkIsGood(m: Model)
    requires AllTablesOk(m) && |m.freq| == CONTEXTS && m.ctx == 0
    ensures Good(m)
  {
  }

  lemma AppendOk(m: Model, f: seq<nat>, row: seq<Symbol>, start: nat)
    requires AllTablesOk(m) && TableOk(f, row) && start < WINDOW
    ensures AllTablesOk(Model(m.freq + [f], m.ring + [row], m.cursor + [start], m.ctx))
  {
  }

  // ---------------------------------------------------------------- the format

  ghost predicate AllSymbols(syms: seq<Byte>) {
    forall i :: 0 <= i < |syms| ==> syms[i] < SYMBOLS
  }

  /** The state after coding `syms`. */
  ghost function After(m: Model, syms: seq<Byte>): (r: Model)
    requires Good(m) && AllSymbols(syms)
    ensures Good(r)
    decreases syms
  {
    if syms == [] then m
    else
      TouchKeepsGood(m, syms[0]);
      After(Touch(m, syms[0]), syms[1..])
  }

  function SlotOf(m: Model, sym: Symbol): (s: I.Slot)
    requires Good(m)
    ensures I.SlotOk(s)
  {
    SymbolInterval(m, sym);
    var f := m.freq[Selected(m.ctx)];
    I.Slot(Cum(f, sym), f[sym])
  }

  /** The intervals coded for `syms`, the model moving on after each. */
  ghost function Slots(m: Model, syms: seq<Byte>): (ops: seq<I.Slot>)
    requires Good(m) && AllSymbols(syms)
    ensures forall s :: s in ops ==> I.SlotOk(s)
    decreases syms
  {
    if syms == [] then []
    else
      TouchKeepsGood(m, syms[0]);
      [SlotOf(m, syms[0])] + Slots(Touch(m, syms[0]), syms[1..])
  }

  const WHOLE := I.Interval(0, 0xffff_ffff)

  ghost function Body(m: Model, syms: seq<Byte>): seq<Byte>
    requires Good(m) && AllSymbols(syms)
  {
    I.Code(WHOLE, Slots(m, syms))
  }

  /** A coded block: its length in two bytes, little-endian, then the body. */
  ghost function Packet(m: Model, syms: seq<Byte>): seq<Byte>
    requires Good(m) && AllSymbols(syms) && |Body(m, syms)| <= 0xffff
  {
    var body := Body(m, syms);
    [|body| % 256, |body| / 256] + body
  }

  /** Registers of the reader over its interval, with the bytes it has not fetched. */
  datatype Reader = Reader(v: I.Interval, code: U32, rest: seq<Byte>)

  ghost predicate Tracks(r: Reader, ops: seq<I.Slot>) {
    && I.Ok(r.v) && (forall s :: s in ops ==> I.SlotOk(s))
    && SameStream(Bytes4(r.code) + r.rest, I.Code(r.v, ops))
  }

  function Fetch(r: Reader): Reader {
    Reader(I.ShiftLeft(r.v), ShiftIn(r.code, At(r.rest, 0)), Rest(r.rest))
  }

  lemma FetchTracks(r: Reader, ops: seq<I.Slot>)
    requires Tracks(r, ops) && !I.Settled(r.v)
    ensures Tracks(Fetch(r), ops)
  {
    I.ShiftProgress(r.v);
    var f := Fetch(r);
    forall i: nat ensures At(Bytes4(f.code) + f.rest, i) == At(Bytes4(r.code) + r.rest, i + 1) {
      ShiftInDropsOne(r.code, r.rest, i);
    }
    SameStreamTail(Bytes4(r.code) + r.rest, I.Code(r.v, ops), Bytes4(f.code) + f.rest, I.Code(f.v, ops));
  }

  /** `((code - lo) / scale) & 0x3fff` in 32-bit arithmetic. */
  function Target(v: I.Interval, code: U32): nat
    requires I.Settled(v)
  {
    Wrap32(code - v.lo) / (v.range / 0x4000) % 0x4000
  }

  lemma TargetIn(v: I.Interval, code: U32, slot: I.Slot)
    requires I.Ok(v) && I.Settled(v) && I.SlotOk(slot)
    requires I.Narrow(v, slot).lo <= code < I.Narrow(v, slot).lo + I.Narrow(v, slot).range
    ensures slot.low <= Target(v, code) < slot.low + slot.freq
  {
    var x: int, scale := code - v.lo, v.range / 0x4000;
    I.NarrowKeepsOk(v, slot);
    var start, width := slot.low * scale, scale * slot.freq;
    assert I.Narrow(v, slot).lo == v.lo + start && I.Narrow(v, slot).range == width;
    TargetNumber(x, scale, slot, start, width);
  }

  lemma TargetNumber(x: int, scale: nat, slot: I.Slot, start: nat, width: nat)
    requires scale >= 1 && I.SlotOk(slot) && start == slot.low * scale && width == scale * slot.freq
    requires start <= x < start + width && x < TWO32
    ensures slot.low <= Wrap32(x) / scale % 0x4000 < slot.low + slot.freq
  {
    QuotientIn(x, scale, slot.low, slot.freq);
    SmallMod(x / scale);
  }

  lemma SmallMod(q: nat)
    ensures q < 0x4000 ==> q % 0x4000 == q
  {
  }

  /** On a coded stream the target falls in the coded slot, and narrowing to it goes on tracking. */
  lemma TargetHits(r: Reader, slot: I.Slot, later: seq<I.Slot>)
    requires Tracks(r, [slot] + later) && I.Settled(r.v)
    ensures slot.low <= Target(r.v, r.code) < slot.low + slot.freq
    ensures Tracks(r.(v := I.Narrow(r.v, slot)), later)
  {
    assert I.SlotOk(([slot] + later)[0]) && forall o :: o in later ==> o in [slot] + later;
    I.CodeNext(r.v, slot, later);
    I.NarrowKeepsOk(r.v, slot);
    I.CodeInInterval(I.Narrow(r.v, slot), later);
    SameWindow(r, I.Code(r.v, [slot] + later));
    TargetIn(r.v, r.code, slot);
  }

  lemma SameWindow(r: Reader, c: seq<Byte>)
    requires SameStream(Bytes4(r.code) + r.rest, c)
    ensures Window(c) == r.code
  {
    var s := Bytes4(r.code) + r.rest;
    assert At(s, 0) == At(c, 0) && At(s, 1) == At(c, 1) && At(s, 2) == At(c, 2) && At(s, 3) == At(c, 3);
    assert s[..4] == Bytes4(r.code);
    WindowOfBytes4(r.code);
  }

  lemma Product(a: int, b: int, c: nat)
    ensures a <= b ==> a * c <= b * c
  {
  }

  lemma QuotientIn(x: int, scale: nat, low: nat, freq: nat)
    requires scale >= 1 && low * scale <= x < low * scale + scale * freq
    ensures low <= x / scale < low + freq
  {
    var q := x / scale;
    assert q * scale <= x < (q + 1) * scale;
    assert low * scale + scale * freq == (low + freq) * scale;
    Product(q + 1, low, scale);
    Product(low + freq, q, scale);
  }

  /** `counts` up to its first class that is not a symbol. */
  ghost function GoodPrefix(counts: seq<Byte>): (g: seq<Byte>)
    ensures AllSymbols(g) && g <= counts
    ensures |g| < |counts| ==> counts[|g|] >= SYMBOLS
    ensures |g| == |counts| ==> g == counts
  {
    if counts == [] || counts[0] >= SYMBOLS then [] else [counts[0]] + GoodPrefix(counts[1..])
  }

  /** What is written plus the code of what is left is the code of everything, from the state `m`. */
  ghost predicate Pending(now: Model, body: seq<Byte>, v: I.Interval, left: seq<Byte>, m: Model, all: seq<Byte>) {
    && Good(now) && Good(m) && AllSymbols(left) && AllSymbols(all) && I.Ok(v)
    && body + I.Code(v, Slots(now, left)) == Body(m, all)
    && After(now, left) == After(m, all)
  }

  /** `dst` has been read and the reader stands before the code of `left`. */
  ghost predicate Reading(now: Model, dst: seq<Byte>, r: Reader, left: seq<Byte>, m: Model, all: seq<Byte>) {
    && Good(now) && Good(m) && AllSymbols(left) && AllSymbols(all)
    && dst + left == all && Tracks(r, Slots(now, left)) && After(now, left) == After(m, all)
  }

  lemma ReadingStep(now: Model, dst: seq<Byte>, r: Reader, left: seq<Byte>, m: Model, all: seq<Byte>, r': Reader)
    requires Reading(now, dst, r, left, m, all) && left != []
    requires Good(Touch(now, left[0])) && AllSymbols(left[1..]) && Tracks(r', Slots(Touch(now, left[0]), left[1..]))
    ensures Reading(Touch(now, left[0]), dst + [left[0]], r', left[1..], m, all)
  {
    assert dst + [left[0]] + left[1..] == dst + left;
  }

  lemma ReadingEnd(now: Model, dst: seq<Byte>, r: Reader, left: seq<Byte>, m: Model, all: seq<Byte>)
    requires Reading(now, dst, r, left, m, all) && |dst| == |all|
    ensures dst == all && now == After(m, all)
  {
    assert left == [];
  }

  lemma ReadingStart(m: Model, all: seq<Byte>, body: seq<Byte>)
    requires Good(m) && AllSymbols(all) && body == Body(m, all)
    ensures Reading(m, [], Reader(WHOLE, Window(body), if |body| <= 4 then [] else body[4..]), all, m, all)
  {
    WindowThenRest(body);
    assert [] + all == all;
  }

  lemma PendingStep(now: Model, body: seq<Byte>, v: I.Interval, sym: Symbol, later: seq<Byte>, m: Model, all: seq<Byte>,
                    body': seq<Byte>, v': I.Interval)
    requires Pending(now, body, v, [sym] + later, m, all) && AllSymbols(later) && I.Ok(v')
    requires Good(Touch(now, sym))
    requires body' + I.Code(v', Slots(Touch(now, sym), later)) == body + I.Code(v, [SlotOf(now, sym)] + Slots(Touch(now, sym), later))
    ensures Pending(Touch(now, sym), body', v', later, m, all)
  {
    var left := [sym] + later;
    assert left[0] == sym && left[1..] == later;
    assert Slots(now, left) == [SlotOf(now, sym)] + Slots(Touch(now, sym), later);
    assert After(now, left) == After(Touch(now, sym), later);
  }

  lemma PendingEnd(now: Model, body: seq<Byte>, v: I.Interval, left: seq<Byte>, m: Model, all: seq<Byte>)
    requires Pending(now, body, v, left, m, all) && I.Settled(v) && left == []
    ensures body + I.Tail(v.lo, 4) == Body(m, all) && now == After(m, all)
  {
    assert Slots(now, left) == [];
  }

  // ---------------------------------------------------------------- the coder

  method SumBelow(f: seq<nat>, sym: Symbol) returns (low: nat)
    requires |f| == SYMBOLS
    ensures low == Cum(f, sym)
  {
    low := 0;
    for j := 0 to sym
      invariant low == Cum(f, j)
    {
      low := low + f[j];
    }
  }

  lemma SlotUnique(f: seq<nat>, a: nat, b: nat, target: nat)
    requires a < |f| && b < |f|
    requires Cum(f, a) <= target < Cum(f, a + 1) && Cum(f, b) <= target < Cum(f, b + 1)
    ensures a == b
  {
    if a < b { CumMonotone(f, a + 1, b); }
    if b < a { CumMonotone(f, b + 1, a); }
  }

  /** Four frequencies at a time until the sum passes the target, then back one at a time. */
  method Find(f: seq<nat>, target: nat) returns (sym: Symbol, low: nat)
    requires |f| == SYMBOLS && Cum(f, SYMBOLS) == TOTAL && target < TOTAL
    ensures low == Cum(f, sym) && low <= target < low + f[sym]
  {
    var acc, idx := 0, 0;
    ghost var base := 0;
    while true
      invariant idx % 4 == 0 && idx + 4 <= SYMBOLS && acc == Cum(f, idx) && acc <= target
      decreases SYMBOLS - idx
    {
      base := idx;
      assert Cum(f, idx + 2) == acc + f[idx] + f[idx + 1];
      acc := acc + (f[idx] + f[idx + 1] + f[idx + 2] + f[idx + 3]);
      idx := idx + 4;
      if !(acc <= target && idx + 4 <= SYMBOLS) { break; }
    }
    for back := 0 to 4
      invariant idx == base + 4 - back && acc == Cum(f, idx) && acc > target
    {
      acc := acc - f[idx - 1];
      idx := idx - 1;
      if acc <= target { break; }
    }
    sym, low := idx, acc;
  }

  /** The sliding-window state of one side; `AudioBitcountEncoderB` and `AudioBitcountDecoderB` each have it. */
  class BitcountCoder {
    var freq: seq<seq<nat>>
    var ring: seq<seq<Symbol>>
    var cursor: seq<nat>
    var ctx: nat

    ghost function State(): Model
      reads this
    {
      Model(freq, ring, cursor, ctx)
    }

    ghost predicate Valid()
      reads this
    {
      Good(State())
    }

    constructor ()
      ensures Valid() && State() == FreshTables(|freq|)
    {
      freq, ring, cursor, ctx := [], [], [], 0;
      new;
      Reset();
    }

    /** The fixed initial state, the same on both sides. */
    method Reset()
      modifies this
      ensures Valid() && State() == FreshTables(|freq|)
    {
      freq, ring, cursor, ctx := [], [], [], 0;
      for c := 0 to CONTEXTS
        invariant |freq| == c && State() == FreshTables(c)
        invariant AllTablesOk(State())
      {
        ghost var m := State();
        var row, start := FreshRow(c);
        var f := CountRow(row);
        AppendOk(m, f, row, start);
        FreshNext(c, m);
        freq, ring, cursor := freq + [f], ring + [row], cursor + [start];
      }
      AllOkIsGood(State());
    }

    static method FreshRow(c: nat) returns (row: seq<Symbol>, start: nat)
      ensures row == FreshRing(c) && start == |Ramp(2 * c, REPS)| < WINDOW
    {
      row := RampRow(2 * c);
      RampFits(c);
      start := |row|;
      ghost var ramp := row;
      for k := start to WINDOW
        invariant |row| == k && row[..start] == ramp
        invariant forall j :: start <= j < k ==> row[j] == j % SYMBOLS
      {
        row := row + [k % SYMBOLS];
      }
      assert row == FreshRing(c);
    }

    static method RampRow(center: int) returns (row: seq<Symbol>)
      ensures row == Ramp(center, REPS)
    {
      row := [];
      var d := 4;
      ghost var left := REPS;
      while d >= 0
        invariant |left| == d + 1 <= 5 && left == REPS[4 - d..]
        invariant Ramp(center, REPS) == row + Ramp(center, left)
      {
        assert left[0] == REPS[4 - d] && left[1..] == REPS[5 - d..];
        RampNext(row, center, left);
        row := AppendPairs(row, center, d, REPS[4 - d]);
        left := left[1..];
        d := d - 1;
      }
    }

    static method AppendPairs(start: seq<Symbol>, center: int, d: nat, reps: nat) returns (row: seq<Symbol>)
      ensures row == start + Repeated(Pair(center, d), reps)
    {
      row := start;
      for k := 0 to reps
        invariant row == start + Repeated(Pair(center, d), k)
      {
        var a, b := center - d, center + d;
        if 0 <= a < SYMBOLS { row := row + [a]; }
        if d != 0 && 0 <= b < SYMBOLS { row := row + [b]; }
      }
    }

    /** Eight per occurrence, then one for every symbol. */
    static method CountRow(row: seq<Symbol>) returns (f: seq<nat>)
      requires |row| == WINDOW
      ensures f == FreqOf(row) && TableOk(f, row)
    {
      f := seq(SYMBOLS, _ => 0);
      AllZero(f, SYMBOLS);
      for k := 0 to |row|
        invariant |f| == SYMBOLS && Cum(f, SYMBOLS) == 8 * k
        invariant forall s: Symbol :: f[s] == 8 * multiset(row[..k])[s]
      {
        CumUpdate(f, row[k], f[row[k]] + 8, SYMBOLS);
        assert row[..k + 1] == row[..k] + [row[k]];
        f := f[row[k] := f[row[k]] + 8];
      }
      assert row[..|row|] == row;
      for s := 0 to SYMBOLS
        invariant |f| == SYMBOLS && Cum(f, SYMBOLS) == 8 * WINDOW + s
        invariant forall t: Symbol :: f[t] == 8 * multiset(row)[t] + if t < s then 1 else 0
      {
        CumUpdate(f, s, f[s] + 1, SYMBOLS);
        f := f[s := f[s] + 1];
      }
    }

    method Update(sym: Symbol)
      requires Valid()
      modifies this
      ensures Valid() && State() == Touch(old(State()), sym)
    {
      var c := Selected(ctx);
      EvictedCounted(State(), sym);
      ghost var t := Touch(State(), sym);
      assert Good(t) by { TouchKeepsGood(State(), sym); }
      var f := freq[c][sym := freq[c][sym] + 8];
      var pos := cursor[c];
      var evicted := ring[c][pos];
      var row: seq<Symbol> := ring[c][pos := sym];
      freq := freq[c := f[evicted := f[evicted] - 8]];
      ring := ring[c := row];
      cursor := cursor[c := if pos < WINDOW - 1 then pos + 1 else 0];
      ctx := NextCtx(ctx, sym);
      assert State() == t;
    }

    /** Writes the packet of `counts`, or declines a class above 63 or a body over 65535 bytes. */
    method Encode(counts: seq<Byte>) returns (ok: bool, out: seq<Byte>)
      requires Valid()
      modifies this
      ensures Valid()
      ensures ok == (counts != [] && AllSymbols(counts) && |Body(old(State()), counts)| <= 0xffff)
      ensures ok ==> out == Packet(old(State()), counts) && State() == After(old(State()), counts)
    {
      ok, out := false, [];
      if counts == [] { return; }
      var body: seq<Byte>;
      ok, body := EncodeBody(counts);
      if !ok { return; }
      if |body| > 0xffff { ok := false; return; }
      out := [|body| % 256, |body| / 256] + body;
    }

    method EncodeBody(counts: seq<Byte>) returns (ok: bool, body: seq<Byte>)
      requires Valid()
      modifies this
      ensures Valid() && ok == AllSymbols(counts)
      ensures ok ==> body == Body(old(State()), counts) && State() == After(old(State()), counts)
    {
      ghost var m, good := State(), GoodPrefix(counts);
      body := [];
      var lo: U32, range: U32 := 0, 0xffff_ffff;
      for i := 0 to |counts|
        invariant Valid() && i <= |good|
        invariant I.Settled(I.Interval(lo, range))
        invariant Pending(State(), body, I.Interval(lo, range), good[i..], m, good)
      {
        if counts[i] >= SYMBOLS { return false, body; }
        body, lo, range := EncodeSymbol(counts[i], body, lo, range, good[i..], m, good);
        assert good[i..][1..] == good[i + 1..];
      }
      PendingEnd(State(), body, I.Interval(lo, range), good[|counts|..], m, good);
      body := FlushLow(body, lo);
      ok := true;
    }

    /** One symbol: the invariant of the block moves on by it. */
    method EncodeSymbol(sym: Symbol, body: seq<Byte>, lo0: U32, range0: U32,
                        ghost left: seq<Byte>, ghost m: Model, ghost all: seq<Byte>)
      returns (out: seq<Byte>, lo: U32, range: U32)
      requires Valid() && I.Settled(I.Interval(lo0, range0)) && left != [] && left[0] == sym
      requires Pending(State(), body, I.Interval(lo0, range0), left, m, all)
      modifies this
      ensures Valid() && I.Settled(I.Interval(lo, range))
      ensures Pending(State(), out, I.Interval(lo, range), left[1..], m, all)
    {
      ghost var was, v, slot, later := State(), I.Interval(lo0, range0), SlotOf(State(), sym), left[1..];
      assert left == [sym] + later;
      SymbolInterval(State(), sym);
      var f := freq[Selected(ctx)];
      var low := SumBelow(f, sym);
      Update(sym);
      ghost var ops := Slots(State(), later);
      assert I.Ok(I.Narrow(v, slot)) && I.Code(v, [slot] + ops) == I.Code(I.Narrow(v, slot), ops) by { I.CodeNext(v, slot, ops); }
      var scale := range0 / 0x4000;
      out, lo, range := Renormalize(body, Wrap32(lo0 + low * scale), Wrap32(scale * f[sym]), ops);
      PendingStep(was, body, v, sym, later, m, all, out, I.Interval(lo, range));
    }

    /** Up to four bytes of `lo`, ending as soon as what is left is zero. */
    static method FlushLow(body: seq<Byte>, lo0: U32) returns (out: seq<Byte>)
      ensures out == body + I.Tail(lo0, 4)
    {
      out := body;
      var lo: U32, k := lo0, 0;
      while k < 4 && lo != 0
        invariant 0 <= k <= 4
        invariant out + I.Tail(lo, 4 - k) == body + I.Tail(lo0, 4)
      {
        assert I.Tail(lo, 4 - k) == [lo / TWO24] + I.Tail(Wrap32(lo * 256), 3 - k);
        out := out + [lo / TWO24];
        lo := Wrap32(lo * 256);
        k := k + 1;
      }
    }

    /** The renormalisation loop of the encoder; `range` never reaches zero in it. */
    static method Renormalize(body: seq<Byte>, lo0: U32, range0: U32, ghost ops: seq<I.Slot>)
      returns (out: seq<Byte>, lo: U32, range: U32)
      requires I.Ok(I.Interval(lo0, range0)) && forall s :: s in ops ==> I.SlotOk(s)
      ensures I.Ok(I.Interval(lo, range)) && I.Settled(I.Interval(lo, range))
      ensures out + I.Code(I.Interval(lo, range), ops) == body + I.Code(I.Interval(lo0, range0), ops)
    {
      out, lo, range := body, lo0, range0;
      while !(I.TopsDiffer(I.Interval(lo, range)) && range > 0x3fff)
        invariant I.Ok(I.Interval(lo, range))
        invariant out + I.Code(I.Interval(lo, range), ops) == body + I.Code(I.Interval(lo0, range0), ops)
        decreases I.Measure(I.Interval(lo, range)).0, I.Measure(I.Interval(lo, range)).1
      {
        ghost var v := I.Interval(lo, range);
        I.ShiftProgress(v);
        if I.TopsDiffer(I.Interval(lo, range)) {
          range := Wrap32(0 - lo) % 0x4000;
        }
        out := out + [lo / TWO24];
        lo, range := Wrap32(lo * 256), Wrap32(range * 256);
        assert I.Code(v, ops) == [v.lo / TWO24] + I.Code(I.ShiftLeft(v), ops);
      }
    }

    /** The reader's renormalisation loop: one byte per shift, zeros past the end. */
    static method Refill(body: seq<Byte>, r: Reader, pos0: nat, ghost ops: seq<I.Slot>)
      returns (out: Reader, pos: nat)
      requires pos0 <= |body| && r.rest == body[pos0..] && I.Ok(r.v)
      ensures pos <= |body| && out.rest == body[pos..] && I.Ok(out.v) && I.Settled(out.v)
      ensures Tracks(r, ops) ==> Tracks(out, ops)
    {
      var lo: U32, range: U32, code: U32 := r.v.lo, r.v.range, r.code;
      pos := pos0;
      while !(I.TopsDiffer(I.Interval(lo, range)) && range > 0x3fff)
        invariant pos <= |body| && I.Ok(I.Interval(lo, range))
        invariant Tracks(r, ops) ==> Tracks(Reader(I.Interval(lo, range), code, body[pos..]), ops)
        decreases I.Measure(I.Interval(lo, range)).0, I.Measure(I.Interval(lo, range)).1
      {
        ghost var was := Reader(I.Interval(lo, range), code, body[pos..]);
        I.ShiftProgress(was.v);
        if Tracks(r, ops) { FetchTracks(was, ops); }
        if I.TopsDiffer(I.Interval(lo, range)) {
          range := Wrap32(0 - lo) % 0x4000;
        }
        var next: Byte := 0;
        if pos < |body| {
          next := body[pos];
          pos := pos + 1;
        }
        code, lo, range := ShiftIn(code, next), Wrap32(lo * 256), Wrap32(range * 256);
        assert Reader(I.Interval(lo, range), code, body[pos..]) == Fetch(was);
      }
      out := Reader(I.Interval(lo, range), code, body[pos..]);
    }

    /** One symbol. Before the code of `left`, it is `left[0]`, and the reader then stands before the others. */
    method DecodeSymbol(body: seq<Byte>, r: Reader, pos0: nat, ghost left: seq<Byte>)
      returns (sym: Symbol, out: Reader, pos: nat)
      requires Valid() && pos0 <= |body| && r.rest == body[pos0..] && I.Ok(r.v) && I.Settled(r.v)
      modifies this
      ensures Valid() && pos <= |body| && out.rest == body[pos..] && I.Ok(out.v) && I.Settled(out.v)
      ensures left != [] && AllSymbols(left) && Tracks(r, Slots(old(State()), left))
        ==> sym == left[0] && State() == Touch(old(State()), sym) && Tracks(out, Slots(State(), left[1..]))
    {
      ghost var m := State();
      ghost var coded := left != [] && AllSymbols(left) && Tracks(r, Slots(m, left));
      ContextBounds(ctx, 0);
      assert TableOk(freq[Selected(ctx)], ring[Selected(ctx)]);
      var f := freq[Selected(ctx)];
      var low;
      sym, low := Find(f, Target(r.v, r.code));
      if coded {
        TouchKeepsGood(m, left[0]);
        TargetHits(r, SlotOf(m, left[0]), Slots(Touch(m, left[0]), left[1..]));
        SlotUnique(f, sym, left[0], Target(r.v, r.code));
      }
      assert I.Ok(I.Narrow(r.v, SlotOf(m, sym))) by { I.NarrowKeepsOk(r.v, SlotOf(m, sym)); }
      Update(sym);
      var scale := r.v.range / 0x4000;
      var n := r.(v := I.Interval(Wrap32(r.v.lo + low * scale), Wrap32(scale * f[sym])));
      assert n.v == I.Narrow(r.v, SlotOf(m, sym));
      out, pos := Refill(body, n, pos0, if coded then Slots(State(), left[1..]) else []);
    }

    method DecodeBody(body: seq<Byte>, count: nat, ghost syms: seq<Byte>) returns (dst: seq<Byte>)
      requires Valid()
      modifies this
      ensures Valid() && |dst| == count
      ensures count == |syms| && AllSymbols(syms) && body == Body(old(State()), syms)
        ==> dst == syms && State() == After(old(State()), syms)
    {
      ghost var m := State();
      ghost var coded := count == |syms| && AllSymbols(syms) && body == Body(m, syms);
      var r := Reader(WHOLE, Window(body), if |body| <= 4 then [] else body[4..]);
      var pos: nat := if |body| <= 4 then |body| else 4;
      dst := [];
      ghost var left := syms;
      if coded { ReadingStart(m, syms, body); }
      for i := 0 to count
        invariant Valid() && pos <= |body| && r.rest == body[pos..] && I.Ok(r.v) && I.Settled(r.v)
        invariant |dst| == i && (coded ==> Reading(State(), dst, r, left, m, syms))
      {
        ghost var was, r0, dst0 := State(), r, dst;
        var sym: Symbol;
        sym, r, pos := DecodeSymbol(body, r, pos, left);
        dst := dst + [sym];
        if coded {
          ReadingStep(was, dst0, r0, left, m, syms, r);
          left := left[1..];
        }
      }
      if coded { ReadingEnd(State(), dst, r, left, m, syms); }
    }

    /** The length a packet states in its first two bytes. */
    static function Stated(input: seq<Byte>): nat {
      var low: int, high: int := At(input, 0), At(input, 1);
      low + high * 256
    }

    static predicate HasPacket(input: seq<Byte>, count: nat) {
      |input| > 1 && count != 0 && Stated(input) <= |input| - 2
    }

    /**
     Reads `count` symbols from the packet at the front of `input`. If that packet codes `syms`
     from this state, it returns them, uses the packet's bytes and no more, and ends in the
     encoder's state. Only a packet that is not there is refused: the two further
     exits, for a range of zero, are never taken.
     */
    method Decode(input: seq<Byte>, count: nat, ghost syms: seq<Byte>) returns (used: nat, dst: seq<Byte>)
      requires Valid()
      modifies this
      ensures Valid()
      ensures used == if HasPacket(input, count) then Stated(input) + 2 else 0
      ensures count == |syms| > 0 && AllSymbols(syms) && |Body(old(State()), syms)| <= 0xffff && Packet(old(State()), syms) <= input
        ==> used == |Packet(old(State()), syms)| && dst == syms && State() == After(old(State()), syms)
    {
      used, dst := 0, [];
      ghost var m := State();
      ghost var coded := count == |syms| > 0 && AllSymbols(syms) && |Body(m, syms)| <= 0xffff && Packet(m, syms) <= input;
      if coded {
        PacketAtFront(m, syms, input);
      }
      if !HasPacket(input, count) { return; }
      var len := Stated(input);
      dst := DecodeBody(input[2..2 + len], count, syms);
      used := len + 2;
    }

    static lemma PacketAtFront(m: Model, syms: seq<Byte>, input: seq<Byte>)
      requires Good(m) && AllSymbols(syms) && |Body(m, syms)| <= 0xffff && Packet(m, syms) <= input
      ensures 2 + Stated(input) == |Packet(m, syms)| <= |input|
      ensures input[2..2 + Stated(input)] == Body(m, syms)
    {
      var body, p := Body(m, syms), Packet(m, syms);
      assert At(input, 0) == p[0] == |body| % 256 && At(input, 1) == p[1] == |body| / 256;
      assert input[..|p|] == p && p[2..] == body;
    }
  }
}
