/**
 One bucket's stream: the pre-pass's side bytes, the ranks' raw bits and arithmetic bytes or the
 collapsed bytes, and behind them the sizes, written so that they can be read from the end
 (BwtEncodeBucket, BwtUnpackMain).
 */
module BucketFrame {
  import opened Words
  import opened RangeCoder
  import opened BitStream
  import opened BucketTables
  import opened RankDecoder
  import opened BucketCoder
  import opened RlePrepass

  // ---------------------------------------------------------------- numbers read from the end

  /** The digits above the first, lowest first. */
  function Digits(v: nat): (s: seq<Byte>)
    ensures s != [] && forall i :: 0 <= i < |s| ==> s[i] < 0x80
  {
    if v < 0x80 then [v] else [v % 0x80] + Digits(v / 0x80)
  }

  /** PutTableVarint: seven bits a byte, lowest first; the first byte carries the flag. */
  function Varint(v: nat): (s: seq<Byte>)
    ensures s != []
  {
    [v % 0x80 + 0x80] + if v < 0x80 then [] else Digits(v / 0x80)
  }

  method PutVarint(out0: seq<Byte>, v0: U32) returns (out: seq<Byte>)
    ensures out == out0 + Varint(v0)
  {
    if v0 < 0x80 { return out0 + [v0 + 0x80]; }
    out := out0 + [v0 % 0x80 + 0x80];
    var v: nat := v0 / 0x80;
    while v >= 0x80
      invariant out + Digits(v) == out0 + Varint(v0)
      decreases v
    {
      Cat(out, [v % 0x80], Digits(v / 0x80));
      out := out + [v % 0x80];
      v := v / 0x80;
    }
    out := out + [v];
  }

  /**
   `ReadVarint` adds where the register is shifted up by 7 and exclusive-ored with the next byte,
   and once more with 0x80 when it is not the last: on registers the two are the same.
   */
  lemma XorIsSum(r: bv32, b: bv32)
    requires b < 0x100
    ensures b < 0x80 ==> (r << 7) ^ b == (r << 7) + b
    ensures b >= 0x80 ==> ((r << 7) ^ b) ^ 0x80 == (r << 7) + (b - 0x80)
  {
  }

  /** BackwardsByteStream. */
  class BackwardsStream {
    const data: seq<Byte>
    var end: nat

    ghost predicate Valid()
      reads this
    {
      end <= |data|
    }

    constructor (data: seq<Byte>)
      ensures Valid() && this.data == data && end == |data|
    {
      this.data, end := data, |data|;
    }

    /** Past the front it reads a flagged zero, which ends any number. */
    method ReadByte() returns (b: Byte)
      requires Valid()
      modifies this
      ensures Valid() && end <= old(end)
      ensures if old(end) > 0 then end == old(end) - 1 && b == data[end] else end == 0 && b == 0x80
    {
      if end > 0 {
        end := end - 1;
        b := data[end];
      } else {
        b := 0x80;
      }
    }

    /** Takes the number that stands last, if one does. */
    method ReadVarint(ghost before: seq<Byte>, ghost v: nat) returns (x: U32)
      requires Valid()
      modifies this
      ensures Valid() && end <= old(end)
      ensures v < TWO32 && old(data[..end]) == before + Varint(v) ==> x == v && end == |before| && data[..end] == before
    {
      ghost var coded := v < TWO32 && data[..end] == before + Varint(v);
      var result: U32 := 0;
      ghost var k: nat := |Varint(v)|;
      if coded { ReadingStarts(data, end, before, v); }
      while true
        invariant Valid() && end <= old(end)
        invariant coded ==> Reading(data, end, before, v, k, result)
        decreases end
      {
        if coded { ReadingStep(data, end, before, v, k, result); }
        var b := ReadByte();
        if b >= 0x80 {
          x := Wrap32(result * 0x80) + (b - 0x80);
          return;
        }
        result := Wrap32(result * 0x80) + b;
        k := if k > 0 then k - 1 else 0;
      }
    }
  }

  /** `k` bytes of the number are left, and `result` is what those read so far make. */
  ghost predicate Reading(data: seq<Byte>, end: nat, before: seq<Byte>, v: nat, k: nat, result: nat) {
    v < TWO32 && 1 <= k <= |Varint(v)| && end <= |data| && data[..end] == before + Varint(v)[..k] && result == Above(v, k)
  }

  lemma ReadingStarts(data: seq<Byte>, end: nat, before: seq<Byte>, v: nat)
    requires v < TWO32 && end <= |data| && data[..end] == before + Varint(v)
    ensures Reading(data, end, before, v, |Varint(v)|, 0)
  {
    AboveStep(v, 1);
    assert Varint(v)[..|Varint(v)|] == Varint(v);
  }

  lemma ReadingStep(data: seq<Byte>, end: nat, before: seq<Byte>, v: nat, k: nat, result: nat)
    requires Reading(data, end, before, v, k, result)
    ensures end > 0
    ensures k > 1 ==> data[end - 1] < 0x80 && Reading(data, end - 1, before, v, k - 1, Wrap32(result * 0x80) + data[end - 1])
    ensures k == 1 ==> data[end - 1] >= 0x80 && data[..end - 1] == before && v == Wrap32(result * 0x80) + (data[end - 1] - 0x80)
  {
    AboveStep(v, k);
    var full := Varint(v);
    assert data[end - 1] == (before + full[..k])[end - 1] == full[k - 1];
    assert data[..end - 1] == (before + full[..k])[..end - 1] == before + full[..k - 1];
  }

  /** The digits of `v` from the `k`th on. */
  ghost function Above(v: nat, k: nat): nat
    decreases k, v
  {
    if k == 0 then v else Above(v / 0x80, k - 1)
  }

  lemma AboveStep(v: nat, k: nat)
    requires v < TWO32 && 1 <= k <= |Varint(v)|
    ensures k > 1 ==> Varint(v)[k - 1] < 0x80 && Above(v, k) * 0x80 + Varint(v)[k - 1] == Above(v, k - 1) < TWO32
    ensures k == 1 ==> Varint(v)[0] >= 0x80 && Above(v, 1) * 0x80 + (Varint(v)[0] - 0x80) == v
    ensures Above(v, |Varint(v)|) == 0
  {
    if k > 1 { DigitsStep(v / 0x80, k - 2); }
    if v >= 0x80 { DigitsEnd(v / 0x80); }
  }

  lemma {:induction false} DigitsStep(v: nat, k: nat)
    requires k < |Digits(v)|
    ensures Above(v, k + 1) * 0x80 + Digits(v)[k] == Above(v, k) <= v
    decreases v
  {
    if k > 0 { DigitsStep(v / 0x80, k - 1); }
  }

  lemma {:induction false} DigitsEnd(v: nat)
    ensures Above(v, |Digits(v)|) == 0
    decreases v
  {
    if v >= 0x80 { DigitsEnd(v / 0x80); }
  }

  // ---------------------------------------------------------------- what a stream is made of

  /** The pieces of a bucket's stream. */
  datatype Frame = Frame(collapsed: bool, side: seq<Byte>, ranked: bool, raw: seq<Byte>, arith: seq<Byte>, code: Stream)

  const NO_FRAME := Frame(false, [], false, [], [], Stream([], []))

  /** What the rank coder is given: the bucket, or what the pre-pass left of it. */
  function Body(d: seq<Byte>, f: Frame): seq<Byte> {
    if f.collapsed then Collapse(0, d).body else d
  }

  ghost predicate FrameOk(d: seq<Byte>, f: Frame) {
    && 1 <= |d| < BLOCK_LIMIT && Body(d, f) != [] && (f.collapsed || f.ranked)
    && (if f.collapsed then
        |f.side| + |Body(d, f)| < |d| && f.side == SideOf(d)
      else f.side == [])
    && (f.ranked ==> IsRanked(Body(d, f), f.raw, f.arith, f.code))
  }

  /** Raw bits and arithmetic bytes of the rank coder. */
  ghost predicate IsRanked(body: seq<Byte>, raw: seq<Byte>, arith: seq<Byte>, code: Stream) {
    && IsBucketCode(body, code) && arith != [] && arith == Code(Coarse, FULL, code.ds)
    && Starts(BitsOf(raw), code.raw) && |raw| + 1 < TWO32
  }

  /** The bytes before the sizes. */
  function Payload(d: seq<Byte>, f: Frame): seq<Byte> {
    if f.ranked then f.raw + f.arith else Body(d, f)
  }

  function RawField(f: Frame): nat {
    if f.ranked then |f.raw| + 1 else 0
  }

  /** How much shorter the pre-pass made the bucket; the whole length when it was not used. */
  function SizeField(d: seq<Byte>, f: Frame): int {
    |d| - if f.collapsed then |Body(d, f)| else 0
  }

  ghost function Framed(d: seq<Byte>, f: Frame): seq<Byte>
    requires FrameOk(d, f)
  {
    f.side + Payload(d, f) + Varint(RawField(f)) + (if f.collapsed then Varint(|f.side|) else []) + Varint(SizeField(d, f))
  }

  /** `stream` is a way to code the bucket `d`; out of sight until `Look(Codes, 0)`. */
  ghost predicate IsFramed(d: seq<Byte>, stream: seq<Byte>) {
    1 <= |d| < BLOCK_LIMIT && forall z {:trigger Look(Codes, z)} :: Look(Codes, z) ==>
      exists f: Frame :: FrameOk(d, f) && stream == Framed(d, f)
  }

  /** The same, where the pre-pass was used. */
  ghost predicate IsCollapsed(d: seq<Byte>, stream: seq<Byte>) {
    1 <= |d| < BLOCK_LIMIT && forall z {:trigger Look(Codes, z)} :: Look(Codes, z) ==>
      exists f: Frame :: FrameOk(d, f) && stream == Framed(d, f) && f.collapsed
  }

  // ---------------------------------------------------------------- writing

  /**
   The writers' limit: from here on the test whether the pre-pass pays, a 32-bit sum of its two
   sizes, can wrap. (Beyond it so do the sums of positions in the transform.)
   */
  const ENCODE_LIMIT := 0x8000_0000

  /** The area the raw bits may take, out of the room the bucket was given. */
  function BitsRoom(alloc: U32, aux: nat, size: nat): int {
    var hdr := Wrap32((size + 0x403) / 4 * 4 + size * 4);
    Wrap32(alloc - aux) - hdr
  }

  /** The pre-pass pays: what it leaves and its side stream are shorter than the bucket. */
  ghost predicate Pays(d: seq<Byte>) {
    |SideOf(d)| + |Collapse(0, d).body| < |d|
  }

  function BytesFor(bits: nat): nat {
    (bits + 7) / 8
  }

  /**
   The rank coder's result is kept: both its parts fit their areas, and it saves more than 512 bytes.
   The sum is one of 32 bits; what it lets through by wrapping is too long to be counted in them.
   */
  ghost predicate RanksPay(body: seq<Byte>, room: int, code: Stream) {
    var a, b := |Code(Coarse, FULL, code.ds)|, BytesFor(|code.raw|);
    room > 0 && a <= |body| && b <= room && Wrap32(a + b + 0x200) < |body|
  }

  /** The raw bits take few enough bytes to be counted in 32 bits. */
  predicate RawFits(f: Frame) {
    f.ranked ==> |f.raw| + 1 < TWO32
  }

  /** What becomes of a bucket in a room of `alloc` bytes: which of its two coders are kept, and what they made. */
  ghost predicate Chosen(d: seq<Byte>, alloc: U32, f: Frame) {
    && f.collapsed == Pays(d) && f.side == (if Pays(d) then SideOf(d) else [])
    && var room := BitsRoom(alloc, |f.side|, |Body(d, f)|);
    && (room > 0 ==> IsBucketCode(Body(d, f), f.code))
    && f.ranked == RanksPay(Body(d, f), room, f.code)
    && (f.ranked ==> f.arith == Code(Coarse, FULL, f.code.ds) && Starts(BitsOf(f.raw), f.code.raw) && |f.raw| == BytesFor(|f.code.raw|))
  }

  /**
   A bucket's stream, or nothing when the bucket is to be stored as it is: when it has at most eight
   bytes, and when neither the pre-pass nor the rank coder pays.
   */
  method PackBucket(d: seq<Byte>, alloc: U32) returns (stream: seq<Byte>, ghost f: Frame)
    requires |d| < ENCODE_LIMIT
    ensures |d| > 8 ==> Chosen(d, alloc, f)
    ensures stream == [] <==> |d| <= 8 || !(f.collapsed || f.ranked)
    ensures stream != [] && RawFits(f) ==> FrameOk(d, f) && stream == Framed(d, f)
    ensures stream != [] && |stream| < TWO32 ==> IsFramed(d, stream)
    ensures d == [] ==> stream == []
  {
    stream, f := [], NO_FRAME;
    if |d| <= 8 { return; }
    var pre, side := CollapseRuns(d, |d|);
    var collapsed := pre != [] && |side| + |pre| < |d|;
    var body := if collapsed then pre else d;
    var kept := if collapsed then side else [];
    var ranked, raw, arith;
    ghost var code;
    ranked, raw, arith, code := RankBody(body, BitsRoom(alloc, |kept|, |body|));
    f := Frame(collapsed, kept, ranked, raw, arith, code);
    if !ranked && !collapsed { return; }
    if ranked && |raw| + 1 >= TWO32 {
      stream := kept + (raw + arith);
      stream := PutSizes(stream, Wrap32(|raw| + 1), collapsed, |kept|, |d| - if collapsed then |body| else 0);
      return;
    }
    stream := WriteFrame(d, collapsed, kept, body, ranked, raw, arith, code);
  }

  method WriteFrame(d: seq<Byte>, collapsed: bool, side: seq<Byte>, body: seq<Byte>, ranked: bool, raw: seq<Byte>, arith: seq<Byte>, ghost code: Stream)
    returns (stream: seq<Byte>)
    requires FrameOk(d, Frame(collapsed, side, ranked, raw, arith, code)) && body == Body(d, Frame(collapsed, side, ranked, raw, arith, code))
    ensures IsFramed(d, stream) && stream != [] && stream == Framed(d, Frame(collapsed, side, ranked, raw, arith, code))
  {
    ghost var f := Frame(collapsed, side, ranked, raw, arith, code);
    SizesFit(d, f);
    stream := side + if ranked then raw + arith else body;
    stream := PutSizes(stream, if ranked then |raw| + 1 else 0, collapsed, |side|, |d| - if collapsed then |body| else 0);
    FramedIs(d, f, stream);
  }

  method PutSizes(stream0: seq<Byte>, raw: U32, collapsed: bool, side: U32, size: U32) returns (stream: seq<Byte>)
    ensures stream == stream0 + Varint(raw) + (if collapsed then Varint(side) else []) + Varint(size)
  {
    stream := PutVarint(stream0, raw);
    if collapsed { stream := PutVarint(stream, side); }
    assert !collapsed ==> stream + [] == stream;
    stream := PutVarint(stream, size);
  }

  lemma SizesFit(d: seq<Byte>, f: Frame)
    requires FrameOk(d, f)
    ensures RawField(f) < TWO32 && (f.collapsed ==> |f.side| < TWO32) && 0 <= SizeField(d, f) < TWO32
  {
  }

  lemma FramedIs(d: seq<Byte>, f: Frame, stream: seq<Byte>)
    requires FrameOk(d, f) && stream == Framed(d, f)
    ensures IsFramed(d, stream) && stream != []
  {
  }

  method RankBody(body: seq<Byte>, room: int) returns (ranked: bool, raw: seq<Byte>, arith: seq<Byte>, ghost code: Stream)
    requires 1 <= |body| < BLOCK_LIMIT
    ensures room > 0 ==> IsBucketCode(body, code)
    ensures ranked == RanksPay(body, room, code)
    ensures ranked ==> arith == Code(Coarse, FULL, code.ds) && Starts(BitsOf(raw), code.raw) && |raw| == BytesFor(|code.raw|)
  {
    ranked, raw, arith, code := false, [], [], Stream([], []);
    if room > 0 {
      var bits := new BitWriter(room);
      arith, code := EncodeBucket(body, |body|, bits);
      bits.Flush();
      raw := bits.out;
      ranked := arith != [] && !bits.overflow && Wrap32(|arith| + |raw| + 0x200) < |body|;
      if !bits.overflow { TraceStarts(code.raw, BitsOf(raw)); }
    }
  }

  lemma TraceStarts(trace: seq<bool>, bits: seq<bool>)
    requires trace <= bits
    ensures Starts(bits, trace)
  {
  }

  // ---------------------------------------------------------------- reading

  /** The sizes at the end of a stream: the collapsed size (0: not collapsed), and the two areas in front. */
  datatype Sizes = Sizes(collapsed: nat, side: nat, ranked: bool, raw: nat, left: nat)

  /** The sizes a stream of these pieces ends with. */
  ghost function SizesOf(d: seq<Byte>, f: Frame): Sizes {
    Sizes(if f.collapsed then |Body(d, f)| else 0, if f.collapsed then |f.side| else 0, f.ranked,
      if f.ranked then |f.raw| else 0, |f.side| + |Payload(d, f)|)
  }

  method ReadSizes(data: seq<Byte>, outSize: nat, ghost d: seq<Byte>, ghost f: Frame) returns (ok: bool, z: Sizes)
    requires outSize < BLOCK_LIMIT
    ensures ok ==> z.side + z.raw < z.left <= |data| && z.collapsed <= outSize
    ensures |d| == outSize && FrameOk(d, f) && data == Framed(d, f) ==> ok && z == SizesOf(d, f)
  {
    ghost var coded := |d| == outSize && FrameOk(d, f) && data == Framed(d, f);
    ghost var front, middle := f.side + Payload(d, f), if f.collapsed then Varint(|f.side|) else [];
    var bs := new BackwardsStream(data);
    assert data[..|data|] == data;
    var saved := bs.ReadVarint(front + Varint(RawField(f)) + middle, if coded then SizeField(d, f) else 0);
    var collapsed: nat, side: nat := 0, 0;
    z := Sizes(0, 0, false, 0, 0);
    if saved != 0 {
      if saved > outSize { return false, z; }
      collapsed := outSize - saved;
      if collapsed != 0 { side := bs.ReadVarint(front + Varint(RawField(f)), |f.side|); }
    }
    assert coded ==> bs.data[..bs.end] == front + Varint(RawField(f)) by {
      assert front + Varint(RawField(f)) + [] == front + Varint(RawField(f));
    }
    var bits := bs.ReadVarint(front, RawField(f));
    var ranked := bits != 0;
    var raw: nat := if ranked then bits - 1 else 0;
    z := Sizes(collapsed, side, ranked, raw, bs.end);
    ok := raw + side < bs.end;
  }

  /** The first `n` bytes of memory that goes on with zeros. */
  function Taken(s: seq<Byte>, n: nat): (r: seq<Byte>)
    ensures |r| == n && (n <= |s| ==> r == s[..n])
  {
    if n <= |s| then s[..n] else s + seq(n - |s|, _ => 0)
  }

  lemma TakenWhole(s: seq<Byte>, n: nat)
    ensures |s| == n ==> Taken(s, n) == s
  {
    if |s| == n { assert s[..n] == s; }
  }

  lemma TakenPart(s: seq<Byte>, from: nat, to: nat, n: nat)
    requires from <= to <= |s|
    ensures n == to - from ==> Taken(s[from..], n) == s[from..to]
  {
    if n == to - from { assert s[from..][..n] == s[from..to]; }
  }

  /** The areas of a stream hold what `body` was made into. */
  ghost predicate Laid(data: seq<Byte>, z: Sizes, body: seq<Byte>, code: Stream) {
    && z.side + z.raw <= z.left <= |data|
    && if z.ranked then IsRanked(body, data[z.side..z.side + z.raw], data[z.side + z.raw..z.left], code)
      else data[z.side..z.left] == body
  }

  /** What the pre-pass left, or the bucket itself. */
  method UnpackBody(data: seq<Byte>, z: Sizes, bodySize: nat, ghost want: seq<Byte>, ghost code: Stream) returns (ok: bool, body: seq<Byte>)
    requires z.side + z.raw < z.left <= |data| && 1 <= bodySize < BLOCK_LIMIT
    ensures ok ==> |body| == bodySize
    ensures Laid(data, z, want, code) && bodySize == |want| ==> ok && body == want
  {
    if z.ranked {
      ok, body := UnrankBody(data[z.side..z.side + z.raw], data[z.side + z.raw..z.left], bodySize, want, code);
      TakenWhole(body, bodySize);
      body := Taken(body, bodySize);
    } else {
      ok, body := true, Taken(data[z.side..], bodySize);
      TakenPart(data, z.side, z.left, bodySize);
    }
  }

  /**
   A bucket of `outSize` bytes from its stream. From any of its streams comes the bucket or nothing;
   nothing exactly when the pre-pass took out a run that is too long to be put back.
   */
  method UnpackBucket(data: seq<Byte>, outSize: nat, ghost d: seq<Byte>) returns (ok: bool, out: seq<Byte>)
    requires 1 <= outSize < BLOCK_LIMIT
    ensures ok ==> |out| == outSize
    ensures |d| == outSize && IsFramed(d, data) ==> (ok ==> out == d) && (Expandable(d) ==> ok)
    ensures |d| == outSize && IsCollapsed(d, data) ==> (ok <==> Expandable(d))
  {
    ghost var coded := |d| == outSize && IsFramed(d, data);
    ghost var f := NO_FRAME;
    if |d| == outSize && IsCollapsed(d, data) {
      CollapsedIsFramed(d, data);
      f := CollapsedFrameOf(d, data);
      Areas(d, f, data);
    } else if coded {
      f := FrameOf(d, data);
      Areas(d, f, data);
    }
    if data == [] { return false, []; }
    var z;
    ok, z := ReadSizes(data, outSize, d, f);
    if !ok { return false, []; }
    var body;
    ok, body := UnpackBody(data, z, if z.collapsed != 0 then z.collapsed else outSize, Body(d, f), f.code);
    if !ok { return false, []; }
    if z.collapsed == 0 { return true, body; }
    ok, out := ExpandRuns(body, outSize, data[..z.side], d);
    ok := ok && |out| == outSize;
  }

  method UnrankBody(raw: seq<Byte>, arith: seq<Byte>, n: nat, ghost body: seq<Byte>, ghost code: Stream) returns (ok: bool, out: seq<Byte>)
    requires 1 <= n < BLOCK_LIMIT
    ensures |out| <= n
    ensures |body| == n && IsRanked(body, raw, arith, code) ==> ok && out == body
  {
    var reader := new BitReader(raw, code.raw);
    ok, out := DecodeBucket(arith, n, reader, body, code);
  }

  lemma FrameOf(d: seq<Byte>, data: seq<Byte>) returns (f: Frame)
    requires IsFramed(d, data)
    ensures FrameOk(d, f) && data == Framed(d, f)
  {
    assert Look(Codes, 0);
    f :| FrameOk(d, f) && data == Framed(d, f);
  }

  lemma Pieces3(data: seq<Byte>, a: seq<Byte>, b: seq<Byte>, c: seq<Byte>)
    requires data == a + b + c
    ensures data[..|a|] == a && data[|a|..|a| + |b|] == b && |a| + |b| <= |data|
  {
  }

  lemma RankedIsLaid(data: seq<Byte>, z: Sizes, body: seq<Byte>, raw: seq<Byte>, arith: seq<Byte>, code: Stream)
    requires z.ranked && z.side + z.raw <= z.left <= |data| && IsRanked(body, raw, arith, code)
    requires data[z.side..z.side + z.raw] == raw && data[z.side + z.raw..z.left] == arith
    ensures Laid(data, z, body, code)
  {
  }

  lemma RankedPieces(data: seq<Byte>, side: seq<Byte>, raw: seq<Byte>, arith: seq<Byte>, sizes: seq<Byte>)
    requires data == side + (raw + arith) + sizes
    ensures data[|side|..|side| + |raw|] == raw
    ensures data[|side| + |raw|..|side| + |raw + arith|] == arith
  {
    Pieces3(data, side, raw + arith, sizes);
    assert data == side + raw + (arith + sizes) == (side + raw) + arith + sizes;
    Pieces3(data, side, raw, arith + sizes);
    Pieces3(data, side + raw, arith, sizes);
  }

  lemma PiecesAreLaid(data: seq<Byte>, f: Frame, z: Sizes, body: seq<Byte>, sizes: seq<Byte>)
    requires z.ranked == f.ranked && z.side == |f.side| && z.raw == if f.ranked then |f.raw| else 0
    requires f.ranked ==> z.left == |f.side| + |f.raw + f.arith| && data == f.side + (f.raw + f.arith) + sizes
    requires !f.ranked ==> z.left == |f.side| + |body| && data == f.side + body + sizes
    requires f.ranked ==> IsRanked(body, f.raw, f.arith, f.code)
    ensures Laid(data, z, body, f.code) && data[..z.side] == f.side
  {
    if f.ranked {
      RankedPieces(data, f.side, f.raw, f.arith, sizes);
      RankedIsLaid(data, z, body, f.raw, f.arith, f.code);
      Pieces3(data, f.side, f.raw + f.arith, sizes);
    } else {
      Pieces3(data, f.side, body, sizes);
    }
  }

  lemma FramedPieces(d: seq<Byte>, f: Frame) returns (sizes: seq<Byte>)
    requires FrameOk(d, f)
    ensures Framed(d, f) == f.side + Payload(d, f) + sizes
  {
    var middle := if f.collapsed then Varint(|f.side|) else [];
    sizes := Varint(RawField(f)) + middle + Varint(SizeField(d, f));
    JoinFields(f.side, Payload(d, f), Varint(RawField(f)), middle, Varint(SizeField(d, f)));
  }

  lemma JoinFields(a: seq<Byte>, b: seq<Byte>, c: seq<Byte>, d: seq<Byte>, e: seq<Byte>)
    ensures a + b + c + d + e == a + b + (c + d + e)
  {
  }

  lemma CollapsedFrameOf(d: seq<Byte>, data: seq<Byte>) returns (f: Frame)
    requires IsCollapsed(d, data)
    ensures FrameOk(d, f) && data == Framed(d, f) && f.collapsed
  {
    assert Look(Codes, 0);
    f :| FrameOk(d, f) && data == Framed(d, f) && f.collapsed;
  }

  lemma CollapsedIsFramed(d: seq<Byte>, data: seq<Byte>)
    requires IsCollapsed(d, data)
    ensures IsFramed(d, data)
  {
    var f := CollapsedFrameOf(d, data);
  }

  /** Where the sizes say the areas are, there they are. */
  lemma Areas(d: seq<Byte>, f: Frame, data: seq<Byte>)
    requires FrameOk(d, f) && data == Framed(d, f)
    ensures Laid(data, SizesOf(d, f), Body(d, f), f.code) && data[..SizesOf(d, f).side] == f.side
  {
    var sizes := FramedPieces(d, f);
    PiecesAreLaid(data, f, SizesOf(d, f), Body(d, f), sizes);
  }
}
