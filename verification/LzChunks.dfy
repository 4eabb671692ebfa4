/**
 Chunks one after the other through the LZ coder (CompressPiece, DecodeChunk): the writer's window
 and the reader's ring stay the same, lap after lap.
 */
module LzChunks {
  import opened Words
  import opened LzTokens
  import opened LzReplay
  import opened LzParser
  import LzSteps

  /** A chunk, and whether it goes round the parser: media chunks do, with a payload of their own. */
  datatype Chunk = Chunk(bytes: seq<Byte>, plain: bool)

  /** What is written: tokens and literals, or the bytes as they are. */
  datatype Packed = Packed(tokens: seq<Token>, lits: seq<Byte>, stored: bool)

  class LzDecoder {
    const ring: array<Byte>
    var pos: nat

    constructor (size: nat)
      ensures ring.Length == size && pos == 0 && (forall i | 0 <= i < size :: ring[i] == 0) && fresh(ring)
    {
      ring, pos := new Byte[size](_ => 0), 0;
    }

    /** A chunk is written where the last one ended, or at the ring's front where it would not fit. */
    method TakeChunk(p: Packed, outSize: nat, ghost chunk: seq<Byte>) returns (ok: bool, out: seq<Byte>)
      requires pos <= ring.Length && outSize <= ring.Length
      modifies this, ring
      ensures pos == (if old(pos) + outSize > ring.Length then 0 else old(pos)) + outSize
      ensures |chunk| == outSize && (if p.stored then p.lits == chunk else IsChunk(old(ring[..]), pos - outSize, chunk, p.tokens, p.lits))
        ==> ok && out == chunk && Window(ring[..], pos) == Placed(old(Window(ring[..], pos)), chunk)
    {
      var base: nat := if pos + outSize > ring.Length then 0 else pos;
      ghost var was := ring[..];
      ghost var known := |chunk| == outSize && if p.stored then p.lits == chunk else IsChunk(was, base, chunk, p.tokens, p.lits);
      if p.stored {
        RingWrite(ring, base, p.lits, 0, outSize);
        ok := true;
        assert known ==> p.lits[0..outSize] == chunk;
      } else {
        ok := ReconstructRing(ring, base, p.tokens, p.lits, outSize, chunk);
      }
      pos := base + outSize;
      out := ring[base..pos];
      if known { WroteThere(was, base, chunk, pos); }
    }
  }

  lemma WroteThere(ring: seq<Byte>, at: nat, bytes: seq<Byte>, to: nat)
    requires to == at + |bytes| && to <= |ring|
    ensures Wrote(ring, at, bytes)[at..to] == bytes
  {
  }

  /** Window and ring hold the same, and the next chunk goes to the same place. */
  ghost predicate InStep(enc: LzEncoder, dec: LzDecoder)
    reads enc, enc.base, enc.table, enc.table2, dec, dec.ring
  {
    && enc.Valid() && dec.ring.Length == enc.size && dec.pos == enc.pos && dec.ring[..] == enc.base[..enc.size]
    && (!enc.wrapped ==> forall i | enc.pos <= i < enc.size :: enc.base[i] == 0)
    && dec.ring != enc.base
  }

  /** Outside a chunk that has only just been put into the window, the ring has what it has. */
  lemma AppendedAgree(ring: seq<Byte>, was: seq<Byte>, at: nat, bytes: seq<Byte>, to: nat)
    requires ring == was && to == at + |bytes| && to <= |was|
    ensures Agree(ring, Wrote(was, at, bytes), at, to) && Wrote(was, at, bytes)[at..to] == bytes
  {
  }

  /**
   Packs a chunk: short ones and media chunks are only entered into the table, the others are
   parsed, and stored as they are when the literals would not save enough.
   */
  method PackChunk(enc: LzEncoder, c: Chunk, ghost ring: seq<Byte>) returns (p: Packed)
    requires enc.Valid() && 1 <= |c.bytes| <= MOST_BYTES && |c.bytes| <= enc.size && ring == enc.base[..enc.size]
    requires !enc.wrapped ==> forall i | enc.pos <= i < enc.size :: enc.base[i] == 0
    requires IsParsed(c) ==> Usable(enc.cont, enc.size)
    modifies enc, enc.base, enc.table, enc.table2
    ensures enc.Valid() && Window(enc.base[..enc.size], enc.pos) == Placed(Window(ring, old(enc.pos)), c.bytes)
    ensures if p.stored then p.lits == c.bytes else IsChunk(ring, enc.pos - |c.bytes|, c.bytes, p.tokens, p.lits)
    ensures !enc.wrapped ==> forall i | enc.pos <= i < enc.size :: enc.base[i] == 0
    ensures HintFollows(Window(ring, old(enc.pos)), c, old(enc.cont), enc.cont)
  {
    var n := |c.bytes|;
    PutInWindow(enc, c.bytes, ring);
    if !IsParsed(c) {
      enc.SparseAppend(n);
      p := Packed([], c.bytes, true);
    } else {
      p := PackParsed(enc, c.bytes, ring);
    }
  }

  method PackParsed(enc: LzEncoder, bytes: seq<Byte>, ghost ring: seq<Byte>) returns (p: Packed)
    requires enc.Valid() && 1 <= |bytes| <= MOST_BYTES && enc.end == enc.pos + |bytes| <= enc.size && enc.base[enc.pos..enc.end] == bytes
    requires Usable(enc.cont, enc.size) && Agree(ring, enc.base[..enc.size], enc.pos, enc.end)
    modifies enc`tok, enc`lits, enc`pos, enc`remaining, enc`since, enc`run, enc`f, enc`rep, enc`cont, enc`kept, enc`x, enc.table, enc.table2
    ensures enc.Valid() && enc.pos == enc.end
    ensures if p.stored then p.lits == bytes else IsChunk(ring, old(enc.pos), bytes, p.tokens, p.lits)
    ensures if Passes(enc.base[..enc.size], old(enc.pos), enc.end, old(enc.cont)) then enc.cont == HintKept(old(enc.cont), enc.end, enc.size)
      else enc.cont < enc.size
  {
    ghost var last;
    p, last := PackTokens(enc, bytes, ring);
  }

  /** The tokens of the parse, unless so many bytes stay literals that the chunk is stored as it is. */
  method PackTokens(enc: LzEncoder, bytes: seq<Byte>, ghost ring: seq<Byte>) returns (p: Packed, ghost last: nat)
    requires enc.Valid() && 1 <= |bytes| <= MOST_BYTES && enc.end == enc.pos + |bytes| <= enc.size && enc.base[enc.pos..enc.end] == bytes
    requires Usable(enc.cont, enc.size) && Agree(ring, enc.base[..enc.size], enc.pos, enc.end)
    modifies enc`tok, enc`lits, enc`pos, enc`remaining, enc`since, enc`run, enc`f, enc`rep, enc`cont, enc`kept, enc`x, enc.table, enc.table2
    ensures enc.Valid() && enc.pos == enc.end
    ensures if p.stored then p.lits == bytes else IsChunk(ring, old(enc.pos), bytes, p.tokens, p.lits)
    ensures if Passes(enc.base[..enc.size], old(enc.pos), enc.end, old(enc.cont)) then enc.cont == HintKept(old(enc.cont), enc.end, enc.size)
      else enc.cont < enc.size
    ensures p == if |enc.lits| + 0x10 + |enc.lits| / 0x80 < |bytes| then Packed(enc.tok, enc.lits, false) else Packed([], bytes, true)
    ensures enc.x == enc.Here() && LzSteps.IsCoded(enc.x, old(enc.TablesNow()), old(enc.pos), old(enc.cont), enc.tok, enc.TablesNow(), last)
  {
    var n := |bytes|;
    last := enc.EncodeChunk(n, ring);
    var size := |enc.lits|;
    p := if size + 0x10 + size / 0x80 < n then Packed(enc.tok, enc.lits, false) else Packed([], bytes, true);
  }

  /** Window.Slide and Window.Append. */
  method PutInWindow(enc: LzEncoder, bytes: seq<Byte>, ghost ring: seq<Byte>)
    requires enc.Valid() && 1 <= |bytes| <= enc.size && ring == enc.base[..enc.size]
    requires !enc.wrapped ==> forall i | enc.pos <= i < enc.size :: enc.base[i] == 0
    modifies enc`wrapped, enc`pos, enc`end, enc.base
    ensures enc.Valid() && enc.pos == (if old(enc.pos) + |bytes| <= enc.size then old(enc.pos) else 0) && enc.end == enc.pos + |bytes| <= enc.size
    ensures enc.base[enc.pos..enc.end] == bytes && Window(enc.base[..enc.size], enc.end) == Placed(Window(ring, old(enc.pos)), bytes)
    ensures Agree(ring, enc.base[..enc.size], enc.pos, enc.end)
    ensures !enc.wrapped ==> forall i | enc.end <= i < enc.size :: enc.base[i] == 0
  {
    enc.Slide(|bytes|);
    ghost var was := enc.base[..enc.size];
    assert was == ring;
    enc.Append(bytes);
    ghost var now := enc.base[..enc.size];
    AppendedAgree(ring, was, enc.pos, bytes, enc.end);
    ghost var part := enc.base[enc.pos..enc.end];
    forall i | 0 <= i < |bytes| ensures part[i] == now[enc.pos..enc.end][i] { assert part[i] == enc.base[enc.pos + i] == now[enc.pos + i]; }
    assert part == now[enc.pos..enc.end];
    forall i | enc.end <= i < enc.size ensures enc.base[i] == was[i] { BehindWrote(was, enc.pos, bytes, enc.end, i); }
  }

  lemma BehindWrote(ring: seq<Byte>, at: nat, bytes: seq<Byte>, to: nat, i: nat)
    requires to == at + |bytes| && to <= i < |ring|
    ensures Wrote(ring, at, bytes)[i] == ring[i]
  {
  }

  predicate IsParsed(c: Chunk) {
    !c.plain && |c.bytes| >= 0x100
  }

  // ---------------------------------------------------------------- the window and the hint from chunk to chunk

  datatype Window = Window(view: seq<Byte>, pos: nat)

  /** A chunk goes behind the one before, or to the front where it would not fit. */
  function Placed(w: Window, bytes: seq<Byte>): (x: Window)
    requires |bytes| <= |w.view|
    ensures |x.view| == |w.view| && |bytes| <= x.pos <= |w.view|
    ensures x.pos == (if w.pos + |bytes| <= |w.view| then w.pos else 0) + |bytes|
  {
    var at := if w.pos + |bytes| <= |w.view| then w.pos else 0;
    Window(Wrote(w.view, at, bytes), at + |bytes|)
  }

  /** What becomes of the hint: other chunks than parsed ones add their length, and some parsed ones pass it on. */
  ghost predicate HintFollows(w: Window, c: Chunk, hint: U32, next: U32)
    requires |c.bytes| <= |w.view|
  {
    if !IsParsed(c) then next == Wrap32(hint + |c.bytes|)
    else
      var x, size := Placed(w, c.bytes), |w.view|;
      if Passes(x.view, x.pos - |c.bytes|, x.pos, hint) then next == HintKept(hint, x.pos, size) else next < size
  }

  predicate Sendable(chunks: seq<Chunk>, window: nat) {
    MOST_BYTES <= window < 0x4000_0000 && forall i | 0 <= i < |chunks| :: 1 <= |chunks[i].bytes| <= MOST_BYTES
  }

  /** The window before chunk `k`. */
  ghost function WindowAt(chunks: seq<Chunk>, window: nat, k: nat): (w: Window)
    requires Sendable(chunks, window) && k <= |chunks|
    ensures |w.view| == window && w.pos <= window
  {
    if k == 0 then Window(seq(window, _ => 0), 0) else Placed(WindowAt(chunks, window, k - 1), chunks[k - 1].bytes)
  }

  /** These are the hints before each of the first `k` chunks, and behind them. */
  ghost predicate Hints(chunks: seq<Chunk>, window: nat, k: nat, hints: seq<U32>)
    requires Sendable(chunks, window) && k <= |chunks|
  {
    && |hints| == k + 1 && hints[0] == 0
    && forall i | 0 <= i < k :: HintFollows(WindowAt(chunks, window, i), chunks[i], hints[i], hints[i + 1])
  }

  /**
   How far a list of chunks gets: up to the first that would be parsed with a hint that is not usable,
   and to the end if there is none.
   */
  ghost predicate Outcome(chunks: seq<Chunk>, window: nat, sent: nat, hints: seq<U32>)
    requires Sendable(chunks, window)
  {
    && sent <= |chunks| && Hints(chunks, window, sent, hints)
    && (forall i | 0 <= i < sent && IsParsed(chunks[i]) :: Usable(hints[i], window))
    && (sent < |chunks| ==> IsParsed(chunks[sent]) && !Usable(hints[sent], window))
  }

  /** The bytes that went past the parser since the last parsed chunk before `k`. */
  function Waiting(chunks: seq<Chunk>, k: nat): nat
    requires k <= |chunks|
  {
    if k == 0 || IsParsed(chunks[k - 1]) then 0 else Waiting(chunks, k - 1) + |chunks[k - 1].bytes|
  }

  predicate Constant(bytes: seq<Byte>) {
    forall i | 0 <= i < |bytes| :: bytes[i] == bytes[0]
  }

  /** No parsed chunk is a repeated byte or waits for more bytes than the window has. */
  predicate Tame(chunks: seq<Chunk>, window: nat) {
    forall i | 0 <= i < |chunks| && IsParsed(chunks[i]) :: !Constant(chunks[i].bytes) && Waiting(chunks, i) <= window
  }

  lemma FlatIsConstant(w: Window, bytes: seq<Byte>)
    requires 1 <= |bytes| <= |w.view|
    ensures var x := Placed(w, bytes); Flat(x.view, x.pos - |bytes|, x.pos) ==> Constant(bytes)
  {
    var x := Placed(w, bytes);
    var at := x.pos - |bytes|;
    if Flat(x.view, at, x.pos) {
      forall i | 0 <= i < |bytes| ensures bytes[i] == bytes[0] {
        assert x.view[at + i] == bytes[i] && x.view[at] == bytes[0];
      }
    }
  }

  /** A parsed chunk leaves a hint below the window's size, and then only what waits adds to it. */
  lemma {:induction false} HintIsBounded(chunks: seq<Chunk>, window: nat, k: nat, hints: seq<U32>, i: nat)
    requires Sendable(chunks, window) && Tame(chunks, window) && k <= |chunks| && Hints(chunks, window, k, hints) && i <= k
    ensures i < |chunks| && IsParsed(chunks[i]) ==> hints[i] <= window + Waiting(chunks, i)
    ensures Waiting(chunks, i) <= 2 * window ==> hints[i] <= window + Waiting(chunks, i)
    decreases i
  {
    if i > 0 {
      HintIsBounded(chunks, window, k, hints, i - 1);
      assert HintFollows(WindowAt(chunks, window, i - 1), chunks[i - 1], hints[i - 1], hints[i]);
      HintStep(WindowAt(chunks, window, i - 1), chunks[i - 1], hints[i - 1], hints[i]);
    }
  }

  lemma HintStep(w: Window, c: Chunk, hint: U32, next: U32)
    requires 1 <= |c.bytes| <= MOST_BYTES && |c.bytes| <= |w.view| < 0x4000_0000 && HintFollows(w, c, hint, next)
    ensures IsParsed(c) && !Constant(c.bytes) ==> next < |w.view|
    ensures !IsParsed(c) && hint <= 3 * |w.view| ==> next == hint + |c.bytes|
  {
    if IsParsed(c) {
      FlatIsConstant(w, c.bytes);
    } else if hint <= 3 * |w.view| {
      WrapOf(hint + |c.bytes|, 0);
    }
  }

  /** Tame lists are sent to their end. */
  lemma TameIsSent(chunks: seq<Chunk>, window: nat, sent: nat, hints: seq<U32>)
    requires Sendable(chunks, window) && Outcome(chunks, window, sent, hints) && Tame(chunks, window)
    ensures sent == |chunks|
  {
    if sent < |chunks| { HintIsBounded(chunks, window, sent, hints, sent); }
  }

  lemma {:induction false} PlainAddsUp(chunks: seq<Chunk>, window: nat, k: nat, hints: seq<U32>, i: nat)
    requires Sendable(chunks, window) && k <= |chunks| && Hints(chunks, window, k, hints) && i <= k
    requires (forall j | 0 <= j < i :: !IsParsed(chunks[j])) && Waiting(chunks, i) < TWO32
    ensures hints[i] == Waiting(chunks, i)
    decreases i
  {
    if i > 0 {
      PlainAddsUp(chunks, window, k, hints, i - 1);
      assert HintFollows(WindowAt(chunks, window, i - 1), chunks[i - 1], hints[i - 1], hints[i]);
      WrapOf(hints[i - 1] + |chunks[i - 1].bytes|, 0);
    }
  }

  /** The first parsed chunk is sent if and only if at most twice the window went past the parser before it. */
  lemma FirstParsed(chunks: seq<Chunk>, window: nat, sent: nat, hints: seq<U32>, k: nat)
    requires Sendable(chunks, window) && Outcome(chunks, window, sent, hints) && k < |chunks|
    requires (forall j | 0 <= j < k :: !IsParsed(chunks[j])) && IsParsed(chunks[k]) && Waiting(chunks, k) < TWO32
    ensures sent >= k && (sent > k <==> Waiting(chunks, k) <= 2 * window)
  {
    PlainAddsUp(chunks, window, sent, hints, k);
  }

  /** One chunk through both sides. */
  method SendChunk(enc: LzEncoder, dec: LzDecoder, c: Chunk) returns (ok: bool, out: seq<Byte>)
    requires InStep(enc, dec) && 1 <= |c.bytes| <= MOST_BYTES && |c.bytes| <= enc.size
    requires IsParsed(c) ==> Usable(enc.cont, enc.size)
    modifies enc, enc.base, enc.table, enc.table2, dec, dec.ring
    ensures InStep(enc, dec) && ok && out == c.bytes
    ensures Window(enc.base[..enc.size], enc.pos) == Placed(old(Window(enc.base[..enc.size], enc.pos)), c.bytes)
    ensures HintFollows(old(Window(enc.base[..enc.size], enc.pos)), c, old(enc.cont), enc.cont)
  {
    var p := PackChunk(enc, c, dec.ring[..]);
    ok, out := dec.TakeChunk(p, |c.bytes|, c.bytes);
  }

  function Together(chunks: seq<Chunk>): seq<Byte> {
    if chunks == [] then [] else Together(chunks[..|chunks| - 1]) + chunks[|chunks| - 1].bytes
  }

  lemma OneMore(chunks: seq<Chunk>, k: nat)
    requires k < |chunks|
    ensures Together(chunks[..k + 1]) == Together(chunks[..k]) + chunks[k].bytes
  {
    assert chunks[..k + 1][..k] == chunks[..k];
  }

  /**
   Chunks of any kinds, over any number of laps of the window: they come back, up to the first one
   that would be parsed with a hint that is not usable any more.
   */
  method SendAll(window: nat, chunks: seq<Chunk>) returns (sent: nat, ok: bool, text: seq<Byte>, ghost hints: seq<U32>)
    requires Sendable(chunks, window)
    ensures ok && sent <= |chunks| && text == Together(chunks[..sent])
    ensures Outcome(chunks, window, sent, hints) && (Tame(chunks, window) ==> sent == |chunks|)
  {
    var enc := new LzEncoder(window);
    var dec := new LzDecoder(window);
    sent, ok, text, hints := 0, true, [], [0];
    SendingBegins(chunks, window, enc.base[..window]);
    assert dec.ring[..] == enc.base[..window];
    while sent < |chunks| && !(IsParsed(chunks[sent]) && enc.cont > 2 * window)
      invariant enc.size == window && InStep(enc, dec) && fresh(enc) && fresh(enc.base) && fresh(enc.table) && fresh(enc.table2)
      invariant fresh(dec) && fresh(dec.ring)
      invariant ok && sent <= |chunks| && text == Together(chunks[..sent])
      invariant Sending(chunks, window, sent, hints, Window(enc.base[..window], enc.pos), enc.cont)
    {
      ghost var hint, w := enc.cont, Window(enc.base[..window], enc.pos);
      var out;
      ok, out := SendChunk(enc, dec, chunks[sent]);
      OneMore(chunks, sent);
      SendingOn(chunks, window, sent, hints, w, hint, Window(enc.base[..window], enc.pos), enc.cont);
      text, sent, hints := text + out, sent + 1, hints + [enc.cont];
    }
    SendingEnds(chunks, window, sent, hints, Window(enc.base[..window], enc.pos), enc.cont);
  }

  ghost predicate Sending(chunks: seq<Chunk>, window: nat, sent: nat, hints: seq<U32>, w: Window, hint: U32)
    requires Sendable(chunks, window)
  {
    sent <= |chunks| && |w.view| == window && forall z {:trigger Look(Steps, z)} :: Look(Steps, z) ==>
      && Hints(chunks, window, sent, hints) && hints[sent] == hint && w == WindowAt(chunks, window, sent)
      && forall i | 0 <= i < sent && IsParsed(chunks[i]) :: Usable(hints[i], window)
  }

  lemma SendingBegins(chunks: seq<Chunk>, window: nat, view: seq<Byte>)
    requires Sendable(chunks, window) && |view| == window && forall i | 0 <= i < window :: view[i] == 0
    ensures Sending(chunks, window, 0, [0], Window(view, 0), 0)
  {
    assert view == seq(window, _ => 0);
  }

  lemma SendingEnds(chunks: seq<Chunk>, window: nat, sent: nat, hints: seq<U32>, w: Window, hint: U32)
    requires Sendable(chunks, window) && Sending(chunks, window, sent, hints, w, hint)
    requires sent < |chunks| ==> IsParsed(chunks[sent]) && !Usable(hint, window)
    ensures Outcome(chunks, window, sent, hints) && (Tame(chunks, window) ==> sent == |chunks|)
  {
    assert Look(Steps, 0);
    if Tame(chunks, window) { TameIsSent(chunks, window, sent, hints); }
  }

  lemma SendingOn(chunks: seq<Chunk>, window: nat, sent: nat, hints: seq<U32>, w: Window, hint: U32, x: Window, next: U32)
    requires Sendable(chunks, window) && Sending(chunks, window, sent, hints, w, hint) && sent < |chunks|
    requires IsParsed(chunks[sent]) ==> Usable(hint, window)
    requires x == Placed(w, chunks[sent].bytes) && HintFollows(w, chunks[sent], hint, next)
    ensures Sending(chunks, window, sent + 1, hints + [next], x, next)
  {
    assert Look(Steps, 0);
  }

  // ---------------------------------------------------------------- lists that stop

  function Times(n: nat, b: Byte): (s: seq<Byte>)
    ensures |s| == n && forall i | 0 <= i < n :: s[i] == b
  {
    seq(n, _ => b)
  }

  function MediaList(media: seq<Byte>, last: seq<Byte>): (s: seq<Chunk>) {
    var m := Chunk(media, true);
    [m, m, m, m, m, Chunk(last, false)]
  }

  /** Five chunks of 0x8000 bytes past the parser, in a window of 0x10000 bytes: the next parsed chunk is not sent. */
  lemma LongWaitStops(media: seq<Byte>, last: seq<Byte>, sent: nat, hints: seq<U32>)
    requires |media| == 0x8000 && 0x100 <= |last| <= 0x8000
    requires Sendable(MediaList(media, last), 0x1_0000) && Outcome(MediaList(media, last), 0x1_0000, sent, hints)
    ensures sent == 5
  {
    var chunks := MediaList(media, last);
    assert Waiting(chunks, 1) == 0x8000 && Waiting(chunks, 2) == 0x1_0000 && Waiting(chunks, 3) == 0x1_8000;
    assert Waiting(chunks, 4) == 0x2_0000 && Waiting(chunks, 5) == 0x2_8000;
    FirstParsed(chunks, 0x1_0000, sent, hints, 5);
  }

  /** Media chunks and then a chunk of 256 bytes, all of the same byte. */
  function FlatList(last: seq<Byte>): (s: seq<Chunk>) {
    [Chunk(Times(0x8000, 1), true), Chunk(Times(0x7f00, 1), true), Chunk(Times(0x8000, 1), true), Chunk(Times(0x7f00, 1), true),
     Chunk(Times(0x101, 1), true), Chunk(Times(0x100, 1), false), Chunk(last, false)]
  }

  lemma PlacedAt(w: Window, bytes: seq<Byte>, j: nat)
    requires |bytes| <= |w.view| && j < |w.view|
    ensures var x := Placed(w, bytes); var at := x.pos - |bytes|;
      x.view[j] == if at <= j < x.pos then bytes[j - at] else w.view[j]
  {
  }

  /** Where the media chunks of the list end, and that nothing was ever written behind 0xff00. */
  lemma FlatListWindow(chunks: seq<Chunk>, window: nat)
    requires |chunks| >= 5 && Sendable(chunks, window) && window == 0x1_0000
    requires chunks[0].bytes == chunks[2].bytes == Times(0x8000, 1) && chunks[1].bytes == chunks[3].bytes == Times(0x7f00, 1)
    requires chunks[4].bytes == Times(0x101, 1)
    ensures var w := WindowAt(chunks, window, 5); w.pos == 0x101 && w.view[0x100] == 1 && w.view[0xff01] == 0
  {
    var w0, w1, w2 := WindowAt(chunks, window, 0), WindowAt(chunks, window, 1), WindowAt(chunks, window, 2);
    var w3, w4 := WindowAt(chunks, window, 3), WindowAt(chunks, window, 4);
    assert w1 == Placed(w0, chunks[0].bytes) && w2 == Placed(w1, chunks[1].bytes) && w3 == Placed(w2, chunks[2].bytes);
    assert w4 == Placed(w3, chunks[3].bytes) && WindowAt(chunks, window, 5) == Placed(w4, chunks[4].bytes);
    PlacedAt(w0, chunks[0].bytes, 0xff01);
    PlacedAt(w1, chunks[1].bytes, 0xff01);
    PlacedAt(w2, chunks[2].bytes, 0xff01);
    PlacedAt(w3, chunks[3].bytes, 0xff01);
    PlacedAt(w4, chunks[4].bytes, 0xff01);
    PlacedAt(w4, chunks[4].bytes, 0x100);
  }

  /** The chunk of one byte passes its hint on, 0x1ff01, as one that is not usable: the next parsed chunk is not sent. */
  lemma FlatChunkStops(last: seq<Byte>, sent: nat, hints: seq<U32>)
    requires 0x100 <= |last| <= 0x8000 && Sendable(FlatList(last), 0x1_0000) && Outcome(FlatList(last), 0x1_0000, sent, hints)
    ensures sent == 6
  {
    var chunks, window := FlatList(last), 0x1_0000;
    FlatListWaits(chunks, last);
    FirstParsed(chunks, window, sent, hints, 5);
    PlainAddsUp(chunks, window, sent, hints, 5);
    FlatListWindow(chunks, window);
    FlatIsPassed(WindowAt(chunks, window, 5), chunks[5].bytes);
    assert HintFollows(WindowAt(chunks, window, 5), chunks[5], hints[5], hints[6]);
    HintStays(0x1_ff01, 0x201, window);
  }

  lemma FlatListWaits(chunks: seq<Chunk>, last: seq<Byte>)
    requires chunks == FlatList(last)
    ensures Waiting(chunks, 5) == 0x1_ff01
  {
    assert Waiting(chunks, 1) == 0x8000 && Waiting(chunks, 2) == 0xff00 && Waiting(chunks, 3) == 0x1_7f00;
    assert Waiting(chunks, 4) == 0x1_fe00;
  }

  lemma FlatIsPassed(w: Window, bytes: seq<Byte>)
    requires |w.view| == 0x1_0000 && w.pos == 0x101 && w.view[0x100] == 1 && w.view[0xff01] == 0 && bytes == Times(0x100, 1)
    ensures Placed(w, bytes).pos == 0x201 && Passes(Placed(w, bytes).view, 0x101, 0x201, 0x1_ff01)
  {
    var x := Placed(w, bytes);
    PlacedAt(w, bytes, 0xff01);
    PlacedAt(w, bytes, 0x100);
    forall i | 0x101 <= i < 0x201 ensures x.view[i] == x.view[0x100] { PlacedAt(w, bytes, i); }
    WrapOf(0x1_ff01 - 0x1_0000, 0);
    assert LzSteps.HintPlace(0x1_ff01, 0x1_0000) == 0xff01;
    assert x.view[0x101] != x.view[0xff01];
  }
}
