/**
 The LZ parse of a chunk (Window, Finder, LzEncodeChunk, SparseAppend): literals, matches at one of
 the four last distances, and new matches from hash buckets whose contents are never trusted.
 */
module LzParser {
  import opened Words
  import opened LastFour
  import opened Arith
  import opened IntCoding
  import opened Matching
  import opened LzTokens
  import opened LzSearch
  import opened LzSteps

  /** What can be read behind the window. */
  const SLACK := 0x8140

  const MOST_BYTES := 0x8000

  // ---------------------------------------------------------------- comparing

  lemma SameGrows(s: seq<Byte>, a: nat, b: nat, n: nat, m: nat)
    requires Same(s, a, b, n) && Same(s, a + n, b + n, m)
    ensures Same(s, a, b, n + m)
  {
    forall k | a <= k < a + n + m ensures s[k] == s[k - a + b] {
      if k >= a + n { assert s[k] == s[k - (a + n) + (b + n)]; }
    }
  }

  lemma SameTurned(s: seq<Byte>, a: nat, b: nat, n: nat)
    requires Same(s, a, b, n)
    ensures Same(s, b, a, n)
  {
    forall k | b <= k < b + n ensures s[k] == s[k - b + a] {
      assert s[k - b + a] == s[(k - b + a) - a + b];
    }
  }

  lemma SameShorter(s: seq<Byte>, a: nat, b: nat, n: nat, m: nat)
    requires Same(s, a, b, n) && m <= n
    ensures Same(s, a, b, m)
  {
  }

  lemma SameFirst(s: seq<Byte>, a: nat, b: nat, v: seq<Byte>, n: nat)
    requires Same(s, a, b, n) && v <= s && a + n <= |v| && b + n <= |v|
    ensures Same(v, a, b, n)
  {
    forall k | a <= k < a + n ensures v[k] == v[k - a + b] {
      assert s[k] == s[k - a + b];
    }
  }

  /** The first of `n` bytes that differs, as the lowest bit set of an exclusive or shows it. */
  method FirstDifference(base: array<Byte>, a: nat, b: nat, n: nat) returns (k: nat)
    requires a + n <= base.Length && b + n <= base.Length
    ensures k <= n && Same(base[..], a, b, k) && (k < n ==> base[a + k] != base[b + k])
  {
    k := 0;
    while k < n && base[a + k] == base[b + k]
      invariant k <= n && Same(base[..], a, b, k)
    {
      k := k + 1;
    }
  }

  /** How many bytes are equal, up to `limit`: eight at a time, then four, then by halves of a word. */
  method MatchLen(base: array<Byte>, a: nat, b: nat, limit: nat) returns (n: nat)
    requires a <= limit && limit + 4 <= base.Length && b + (limit - a) + 4 <= base.Length
    ensures n <= limit - a && Same(base[..], a, b, n)
    ensures a + n < limit ==> base[a + n] != base[b + n]
  {
    ghost var m := base[..];
    var s, t := a, b;
    while limit - s >= 8
      invariant a <= s <= limit && t == b + (s - a) && Same(m, a, b, s - a)
    {
      var k := FirstDifference(base, s, t, 8);
      SameGrows(m, a, b, s - a, k);
      if k < 8 { return s - a + k; }
      s, t := s + 8, t + 8;
    }
    while s < limit
      invariant a <= s <= limit + 3 && t == b + (s - a) && Same(m, a, b, s - a)
    {
      var k := WordDifference(base, s, t);
      SameGrows(m, a, b, s - a, k);
      if k < 4 {
        var stop := if limit < s + k then limit else s + k;
        SameShorter(m, a, b, s + k - a, stop - a);
        return stop - a;
      }
      s, t := s + 4, t + 4;
    }
    n := limit - a;
    SameShorter(m, a, b, s - a, n);
  }

  /** The first byte of a word that differs, by its halves; 4 when none does. */
  method WordDifference(base: array<Byte>, s: nat, t: nat) returns (k: nat)
    requires s + 4 <= base.Length && t + 4 <= base.Length
    ensures k <= 4 && Same(base[..], s, t, k) && (k < 4 ==> base[s + k] != base[t + k])
  {
    var lo := base[s] == base[t] && base[s + 1] == base[t + 1];
    var hi := base[s + 2] == base[t + 2] && base[s + 3] == base[t + 3];
    if lo && hi { return 4; }
    k := if lo then 2 else 0;
    if base[s + k] == base[t + k] { k := k + 1; }
  }

  // ---------------------------------------------------------------- the hash tables

  /** Table entries are a position and, below it, some bits of the hash; out of sight until `Look(Spot, 0)`. */
  ghost predicate Places(entries: seq<U32>, unit: nat, size: nat)
    requires unit > 0
  {
    forall z {:trigger Look(Spot, z)} :: Look(Spot, z) ==> forall i | 0 <= i < |entries| :: entries[i] / unit < size
  }

  /** A position and the bits beside it fit a word; out of sight until `Look(Spot, 0)`. */
  ghost predicate UnitOk(unit: nat, size: nat) {
    forall z {:trigger Look(Spot, z)} :: Look(Spot, z) ==> size * unit <= TWO32
  }

  lemma PlaceAt(entries: seq<U32>, unit: nat, size: nat, i: nat)
    requires unit > 0 && Places(entries, unit, size) && i < |entries|
    ensures entries[i] / unit < size
  {
    assert Look(Spot, 0);
  }

  lemma PlacesSet(entries: seq<U32>, unit: nat, size: nat, i: nat, at: nat, tag: nat)
    requires 0 < unit && Places(entries, unit, size) && i < |entries| && at < size && tag < unit && UnitOk(unit, size)
    ensures at * unit + tag < TWO32 && Places(entries[i := at * unit + tag], unit, size)
  {
    assert Look(Spot, 0);
    EntryPlace(at, tag, unit, size);
  }

  /** Entries may change places, or be written over by others. */
  lemma PlacesMoved(entries: seq<U32>, other: seq<U32>, unit: nat, size: nat, b: nat)
    requires 0 < unit && Places(entries, unit, size) && |other| == |entries| && b + 4 <= |entries|
    requires forall i | 0 <= i < |other| && !(b <= i < b + 4) :: other[i] == entries[i]
    requires forall i | b <= i < b + 4 :: other[i] in entries[b..b + 4]
    ensures Places(other, unit, size)
  {
    assert Look(Spot, 0);
    forall i | 0 <= i < |other| ensures other[i] / unit < size {
      if b <= i < b + 4 {
        var k :| 0 <= k < 4 && entries[b..b + 4][k] == other[i];
        assert entries[b + k] == other[i];
      }
    }
  }

  lemma PlacesZero(entries: seq<U32>, unit: nat, size: nat)
    requires 0 < unit && 0 < size && forall i | 0 <= i < |entries| :: entries[i] == 0
    ensures Places(entries, unit, size)
  {
  }

  lemma EntryPlace(at: nat, tag: nat, unit: nat, size: nat)
    requires at < size && tag < unit && size * unit <= TWO32
    ensures at * unit + tag < TWO32 && (at * unit + tag) / unit == at
  {
    Distributes(at + 1, size - at - 1, unit);
    Distributes(at, 1, unit);
    DivUnique(at * unit + tag, at, unit, tag);
  }

  lemma FixedIsOffset(pos: nat, src: nat, size: nat)
    requires pos < size < 0x8000_0000 && src < size && src != pos
    ensures var off := Fixed(Wrap32(pos - src), size); 1 <= off < size && src == Source(pos, off, size)
  {
    if src < pos {
      WrapOf(pos - src, 0);
    } else {
      WrapOf(pos - src, -1);
      WrapOf(pos - src + TWO32 + size, 1);
    }
  }

  lemma WrapOf(x: int, k: int)
    requires k * TWO32 <= x < (k + 1) * TWO32
    ensures Wrap32(x) == x - k * TWO32
  {
  }

  /** The positions of a window and the bits of a hash share a word. */
  lemma UnitFits(window: nat, a: nat, b: nat)
    requires window <= a + 1 && 0xffff <= a < 0x4000_0000 && b == Bsr(a)
    ensures 15 <= b <= 29 && 1 <= Pow2(31 - b) <= TWO32 && UnitOk(Pow2(31 - b), window)
    ensures 4 <= Pow2(b - 3)
  {
    BsrBounds(a);
    WindowPowers();
    if b < 15 { Pow2Monotone(b + 1, 15); }
    if b > 29 { Pow2Monotone(30, b); }
    Pow2Monotone(2, b - 3);
    FitsBy(window, Pow2(b + 1), Pow2(31 - b));
    Pow2Sum(b + 1, 31 - b);
    Pow2Monotone(31 - b, 32);
  }

  lemma UnitDivided(unit: nat, k: nat, size: nat)
    requires unit == Pow2(k) && UnitOk(unit, size)
    ensures Divided(unit, if unit < 0x100 then unit else 0x100, size)
  {
    assert Look(Spot, 0);
    EightBits();
    if unit >= 0x100 {
      if k < 8 { Pow2Monotone(k + 1, 8); }
      Pow2Sum(k - 8, 8);
      DivUnique(unit, Pow2(k - 8), 0x100, 0);
    }
  }

  lemma EightBits()
    ensures Pow2(8) == 0x100
  {
    assert Pow2(4) == 16;
    Pow2Sum(4, 4);
  }

  lemma FitsBy(window: nat, most: nat, unit: nat)
    requires window <= most
    ensures window * unit <= most * unit
  {
    Distributes(window, most - window, unit);
  }

  lemma WindowPowers()
    ensures Pow2(2) == 4 && Pow2(15) == 0x8000 && Pow2(30) == 0x4000_0000 && Pow2(32) == TWO32
  {
    assert Pow2(5) == 32;
    Pow2Sum(5, 5);
    Pow2Sum(10, 5);
    Pow2Sum(15, 15);
    Pow2Sum(30, 2);
  }

  // ---------------------------------------------------------------- distances and the reader's offsets

  /** A distance the parser keeps: negative, or forward to what the ring still has of the last lap. */
  ghost predicate TracksOne(x: int, offset: nat, size: nat, pos: nat, start: nat, end: nat) {
    if x < 0 then offset == -x && (offset <= pos || offset == 1)
    else 0 < x < size && offset == size - x && end <= pos + x && start + x <= size
  }

  /** So do all four; out of sight until `Look(Steps, 0)`. */
  ghost predicate Tracks(rep: seq<int>, offsets: seq<nat>, size: nat, pos: nat, start: nat, end: nat) {
    |rep| == |offsets| == 4 && forall z {:trigger Look(Steps, z)} :: Look(Steps, z) ==>
      forall i | 0 <= i < 4 :: TracksOne(rep[i], offsets[i], size, pos, start, end)
  }

  lemma TracksAt(rep: seq<int>, offsets: seq<nat>, size: nat, pos: nat, start: nat, end: nat, i: nat)
    requires Tracks(rep, offsets, size, pos, start, end) && i < 4
    ensures TracksOne(rep[i], offsets[i], size, pos, start, end)
  {
    assert Look(Steps, 0);
  }

  lemma TracksBegin(size: nat, pos: nat, start: nat, end: nat)
    ensures Tracks([-1, -1, -1, -1], ONES, size, pos, start, end)
  {
  }

  /** `n` bytes at `a` and `b` are the same; out of sight until `Look(Pieces, 0)`. */
  ghost predicate Alike(s: seq<Byte>, a: nat, b: nat, n: nat) {
    forall z {:trigger Look(Pieces, z)} :: Look(Pieces, z) ==> Same(s, a, b, n)
  }

  lemma SameIsAlike(s: seq<Byte>, a: nat, b: nat, n: nat)
    requires Same(s, a, b, n)
    ensures Alike(s, a, b, n)
  {
  }

  lemma TracksPromoted(rep: seq<int>, offsets: seq<nat>, i: nat, size: nat, pos: nat, start: nat, end: nat)
    requires Tracks(rep, offsets, size, pos, start, end) && i < 4
    ensures Tracks(Promoted(rep, i), Promoted(offsets, i), size, pos, start, end)
    ensures Renewed(offsets, i) == Promoted(offsets, i)
  {
    assert Look(Steps, 0);
    var r, o := Promoted(rep, i), Promoted(offsets, i);
    forall k | 0 <= k < 4 ensures TracksOne(r[k], o[k], size, pos, start, end) {
      var j := if k == 0 then i else if k <= i then k - 1 else k;
      assert r[k] == rep[j] && o[k] == offsets[j];
    }
  }

  lemma TracksOn(rep: seq<int>, offsets: seq<nat>, size: nat, pos: nat, start: nat, end: nat, later: nat)
    requires Tracks(rep, offsets, size, pos, start, end) && pos <= later
    ensures Tracks(rep, offsets, size, later, start, end)
  {
    assert Look(Steps, 0);
    forall i | 0 <= i < 4 ensures TracksOne(rep[i], offsets[i], size, later, start, end) {
      assert TracksOne(rep[i], offsets[i], size, pos, start, end);
    }
  }

  /** A reader that follows the parse: the ring it began with, the window it catches up with, the chunk, and how far it is. */
  datatype Follow = Follow(ring: seq<Byte>, view: seq<Byte>, start: nat, end: nat, steps: seq<Step>, reader: Replay)

  /** It has followed these tokens and literals; out of sight until `Look(Log, 0)`. */
  ghost predicate IsLog(f: Follow, tok: seq<Token>, lits: seq<Byte>) {
    forall z {:trigger Look(Log, z)} :: Look(Log, z) ==>
      var r0 := Replay(f.ring, f.start, ONES);
      && |f.reader.rep| == 4 && |f.reader.ring| == |f.view| && f.start <= f.reader.at <= f.end <= |f.view|
      && IsRun(r0, f.steps, f.end) && f.reader == Reached(r0, f.steps, f.end)
      && tok == Tokens(f.steps) && lits == Literals(f.steps) && Agree(f.reader.ring, f.view, f.reader.at, f.end)
      && |lits| <= f.reader.at - f.start
  }

  lemma LogBegins(ring: seq<Byte>, v: seq<Byte>, start: nat, end: nat)
    requires Agree(ring, v, start, end) && start <= end <= |v|
    ensures IsLog(Follow(ring, v, start, end, [], Replay(ring, start, ONES)), [], [])
  {
  }

  lemma LogGrows(f: Follow, tok: seq<Token>, lits: seq<Byte>, pos: nat, t: Token, bytes: seq<Byte>, src: nat) returns (g: Follow)
    requires IsLog(f, tok, lits) && |f.reader.rep| == 4 && f.end <= |f.view|
    requires f.reader.at <= pos <= |f.view| && t.run == pos - f.reader.at && bytes == f.view[f.reader.at..pos]
    requires 1 <= Offset(f.reader.rep, t.sel) <= |f.view| && src == Source(pos, Offset(f.reader.rep, t.sel), |f.view|)
    requires var len := Length(t, Offset(f.reader.rep, t.sel));
      pos + len <= f.end && (src < pos || f.end <= src) && Alike(f.view, pos, src, len)
    ensures IsLog(g, tok + [t], lits + bytes) && g == f.(steps := g.steps, reader := g.reader)
    ensures g.reader.at == pos + Length(t, Offset(f.reader.rep, t.sel)) && g.reader.rep == Renewed(f.reader.rep, t.sel)
  {
    assert Look(Log, 0) && Look(Pieces, 0);
    var s := Step(t, bytes);
    StepAgrees(f.reader, f.view, pos, f.end, t, src);
    RunGrows(Replay(f.ring, f.start, ONES), f.steps, f.end, s);
    LiteralsGrow(f.steps, s);
    g := f.(steps := f.steps + [s], reader := After(f.reader, s, f.end));
  }

  lemma LogEnds(f: Follow, tok: seq<Token>, lits: seq<Byte>, rest: seq<Byte>)
    requires IsLog(f, tok, lits) && Agree(f.ring, f.view, f.start, f.end)
    requires f.start <= f.reader.at <= f.end <= |f.view| && rest == f.view[f.reader.at..f.end]
    ensures IsChunk(f.ring, f.start, f.view[f.start..f.end], tok, lits + rest)
    ensures |lits + rest| <= f.end - f.start
  {
    assert Look(Log, 0);
    RestAgrees(f.reader, f.view, f.end, f.ring, f.start);
    assert IsChunkBy(f.ring, f.start, f.view[f.start..f.end], tok, lits + rest, f.steps, rest);
  }

  // ---------------------------------------------------------------- the hint

  /** The place the hint names, if it names one in the window. */
  ghost predicate Usable(hint: nat, size: nat) {
    hint <= 2 * size
  }

  /** All bytes from `a` up to `e` are like the byte in front of them. */
  ghost predicate Flat(v: seq<Byte>, a: nat, e: nat) {
    1 <= a <= e <= |v| && forall i | a <= i < e :: v[i] == v[a - 1]
  }

  /** The same; out of sight until `Look(RawBits, 0)`. */
  ghost predicate FlatTo(v: seq<Byte>, a: nat, e: nat) {
    forall z {:trigger Look(RawBits, z)} :: Look(RawBits, z) ==> Flat(v, a, e)
  }

  lemma FlatIsFlatTo(v: seq<Byte>, a: nat, e: nat)
    ensures Flat(v, a, e) <==> FlatTo(v, a, e)
  {
    assert Look(RawBits, 0);
  }

  /** A match one byte back from flat bytes goes on with them. */
  lemma FlatOn(v: seq<Byte>, a: nat, p: nat, n: nat)
    requires 1 <= p && FlatTo(v, a, p) && Alike(v, p, p - 1, n) && p + n <= |v|
    ensures FlatTo(v, a, p + n)
  {
    assert Look(RawBits, 0) && Look(Pieces, 0);
    OneBack(v, p, n);
  }

  lemma {:induction false} OneBack(v: seq<Byte>, p: nat, n: nat)
    requires 1 <= p && Same(v, p, p - 1, n)
    ensures forall i | p <= i < p + n :: v[i] == v[p - 1]
  {
    if n > 0 {
      OneBack(v, p, n - 1);
      assert v[p + n - 1] == v[p + n - 1 - p + (p - 1)];
    }
  }

  /**
   The chunks that pass their hint on: all of the chunk is like the byte before it, so that one match
   at a distance kept from before covers it, and it does not go on at the hint's place.
   */
  ghost predicate Passes(v: seq<Byte>, start: nat, end: nat, hint: U32)
    requires start <= end <= |v|
  {
    hint != 0 && start + 2 <= end && Flat(v, start, end) && AtHint(v, start, end, hint) <= 10
  }

  /** What they make of it: it is taken for a new match's selector. */
  function HintKept(hint: nat, pos: nat, size: nat): U32 {
    var off := Wrap32(hint - 3);
    Wrap32(pos - off + if pos < off then size else 0)
  }

  /** When the hint after such a chunk is usable. */
  lemma HintStays(hint: nat, pos: nat, size: nat)
    requires 1 <= hint && Usable(hint, size) && 1 <= pos <= size < 0x4000_0000
    ensures Usable(HintKept(hint, pos, size), size) <==> if hint < 3 then pos + 3 <= size + hint else hint <= pos + size + 3
  {
    if hint < 3 {
      WrapOf(hint - 3, -1);
      WrapOf(pos - (hint - 3 + TWO32) + size, -1);
    } else {
      WrapOf(hint - 3, 0);
      var x := pos - (hint - 3) + if pos < hint - 3 then size else 0;
      if x >= 0 { WrapOf(x, 0); } else { WrapOf(x, -1); }
    }
  }

  /** It reads the window only if and only if the hint is usable. */
  lemma HintInWindow(hint: U32, size: nat, n: nat)
    requires 1 <= size < 0x4000_0000 && 1 <= n <= MOST_BYTES
    ensures HintPlace(hint, size) + Min(n, Wrap32(size - HintPlace(hint, size))) <= size <==> Usable(hint, size)
  {
    var c := HintPlace(hint, size);
    if hint >= size { WrapOf(hint - size, 0); }
    if c <= size { WrapOf(size - c, 0); } else { WrapOf(size - c, -1); }
  }

  /** The skip table: which of a run's literals are not searched. */
  method SkipTable() returns (tbl: seq<bool>)
    ensures |tbl| == 256 && forall k | 0 <= k < 16 :: !tbl[k]
  {
    tbl := seq(16, _ => false);
    var crc: bv32 := 0xffff_ffff;
    for i := 16 to 256
      invariant |tbl| == i && forall k | 0 <= k < 16 :: !tbl[k]
    {
      var x := crc & 0xff;
      crc := (x * 0xef07_4001) ^ (crc >> 8);
      var thr := i / 4 + i / 2 + if 0x81 <= i < 0xc0 then 0x40 else 0x20;
      tbl := tbl + [(x as nat) < thr];
    }
  }

  method NewTable(n: nat, unit: nat, size: nat) returns (t: array<U32>)
    requires unit > 0 && size > 0
    ensures fresh(t) && t.Length == n && Places(t[..], unit, size)
  {
    t := new U32[n](_ => 0);
    PlacesZero(t[..], unit, size);
  }

  datatype Stop = Go | AfterMatch | Finish

  // ---------------------------------------------------------------- the parser

  class LzEncoder {
    const size: nat
    const base: array<Byte>
    const table: array<U32>
    const table2: array<U32>
    const unit: nat
    const tags: nat
    const buckets: nat
    const skip: seq<bool>
    var wrapped: bool
    var pos: nat
    var end: nat
    var cont: U32
    var tok: seq<Token>
    var lits: seq<Byte>
    var remaining: nat
    var since: nat
    var run: nat
    var rep: seq<int>
    ghost var f: Follow
    ghost var kept: bool
    ghost var x: Setting

    /** Window.Init and Finder.Init. */
    constructor (window: nat)
      requires 1 <= window < 0x4000_0000
      ensures Valid() && size == window && pos == 0 && cont == 0 && !wrapped
      ensures Divided(unit, tags, size) && forall k | 0 <= k < 16 :: !skip[k]
      ensures forall i | 0 <= i < base.Length :: base[i] == 0
      ensures fresh(base) && fresh(table) && fresh(table2)
    {
      var a := if window - 1 < 0xffff then 0xffff else window - 1;
      var b := Bsr(a);
      UnitFits(window, a, b);
      var u, k := Pow2(31 - b), Pow2(b - 3);
      size, unit, buckets := window, u, k;
      tags := if u < 0x100 then u else 0x100;
      UnitDivided(u, 31 - b, window);
      base := new Byte[window + SLACK](_ => 0);
      var buckets4 := NewTable(k + 12, u, window);
      var singles := NewTable(if 0x7ff_ffff < window then k / 8 else 0, u, window);
      table, table2 := buckets4, singles;
      var s := SkipTable();
      skip := s;
      wrapped, pos, end, cont := false, 0, 0, 0;
      tok, lits, remaining, since, run, rep := [], [], 0, 0, 0, [];
      f := Follow([], [], 0, 0, [], Replay([], 0, ONES));
      x := Setting([], 0, 0, 1, 1, 1, []);
    }

    ghost predicate Shaped() {
      && 1 <= size < 0x4000_0000 && base.Length == size + SLACK && |skip| == 256 && !skip[0]
      && 1 <= tags <= unit <= TWO32 && UnitOk(unit, size)
      && 4 <= buckets && table.Length == buckets + 12
      && table != table2
    }

    ghost predicate Valid()
      reads this, table, table2
    {
      Shaped() && pos <= size && Places(table[..], unit, size) && Places(table2[..], unit, size)
    }

    function Load(at: nat): U32
      requires at + 4 <= base.Length
      reads base
      ensures Load(at) == Word(base[..], at)
    {
      var b0: int, b1: int, b2: int, b3: int := base[at], base[at + 1], base[at + 2], base[at + 3];
      b0 + b1 * TWO8 + b2 * TWO16 + b3 * TWO24
    }

    function HashAt(at: nat): U32
      requires at + 4 <= base.Length
      reads base
      ensures HashAt(at) == Hash(base[..], at)
    {
      Mixed(Load(at), Wrap32(Load(at) * 0x92_3249))
    }

    /** The bits of a hash that go into an entry, and its bucket of four. */
    method HashParts(h: U32) returns (tag: nat, b: nat)
      requires Shaped()
      ensures tag < tags && b % 4 == 0 && b + 4 <= table.Length
      ensures tag == HashTag(h, unit, tags) && b == HashBucket(h, buckets)
    {
      tag := h / (if unit == 1 then 1 else TWO32 / unit) % tags;
      b := h % buckets / 4 * 4;
    }

    /** An entry's position and bits. */
    method EntryParts(entries: array<U32>, i: nat) returns (at: nat, tag: nat)
      requires Shaped() && i < entries.Length && Places(entries[..], unit, size)
      ensures at < size && at == PlaceOf(entries[i], unit) && tag == TagOf(entries[i], tags)
    {
      PlaceAt(entries[..], unit, size, i);
      at, tag := entries[i] / unit, entries[i] % tags;
    }

    /** Entry `i` becomes a position and its bits. */
    method SetEntry(entries: array<U32>, i: nat, at: nat, tag: nat)
      requires Shaped() && i < entries.Length && Places(entries[..], unit, size) && at < size && tag < tags
      modifies entries
      ensures Places(entries[..], unit, size) && entries[..] == old(entries[..])[i := EntryFor(at, tag, unit)]
    {
      PlacesSet(entries[..], unit, size, i, at, tag);
      entries[i] := at * unit + tag;
    }

    // -------------------------------------------------------------- the window

    /** Window.Slide: a chunk that does not fit begins a new lap; the first one clears what is left of the first lap. */
    method Slide(n: nat)
      requires Valid() && 1 <= n <= size
      requires !wrapped ==> forall i | pos <= i < size :: base[i] == 0
      modifies this`wrapped, this`pos, base
      ensures Valid() && pos + n <= size && pos == (if old(pos) + n <= size then old(pos) else 0)
      ensures forall i | 0 <= i < size :: base[i] == old(base[i])
      ensures !wrapped ==> forall i | pos <= i < size :: base[i] == 0
    {
      if size - pos < n {
        if !wrapped {
          wrapped := true;
          forall i | pos <= i < size + 0x100 { base[i] := 0; }
        }
        pos := 0;
      }
    }

    method Append(bytes: seq<Byte>)
      requires Valid() && pos + |bytes| <= size
      modifies this`end, base
      ensures Valid() && end == pos + |bytes|
      ensures base[..size] == Wrote(old(base[..size]), pos, bytes)
    {
      forall i | 0 <= i < |bytes| { base[pos + i] := bytes[i]; }
      end := pos + |bytes|;
      assert base[..size] == Wrote(old(base[..size]), pos, bytes);
    }

    /** The memory and the sizes. */
    ghost function Here(): Setting
      reads this, base
    {
      Setting(base[..], end, size, unit, tags, buckets, skip)
    }

    /** One position goes into its bucket: the one with number `k` of a lap from `p` on. */
    method Enter(at: nat, ghost h: Setting, ghost was: seq<U32>, ghost p: nat, ghost left: nat, ghost k: nat)
      requires Valid() && p + left < end <= size && h == Here() && IsLap(h, was, p, left, k, table[..])
      requires k < 8 && Need(k) <= left && at == p + Gap(k)
      modifies table
      ensures Valid() && IsLap(h, was, p, left, k + 1, table[..])
    {
      LapGrows(h, was, p, left, k, table[..]);
      var v := HashAt(at);
      var tag, b := HashParts(v);
      ShiftIn4(b, at, tag);
    }

    /** A bucket's entries make room for one more. */
    method ShiftIn4(b: nat, at: nat, tag: nat)
      requires Valid() && at < size && b + 4 <= table.Length && tag < tags
      modifies table
      ensures Valid() && table[..] == Put(old(table[..]), b, Inserted(old(table[b..b + 4]), EntryFor(at, tag, unit)))
    {
      ghost var was := table[..];
      table[b + 3], table[b + 2], table[b + 1] := table[b + 2], table[b + 1], table[b];
      ghost var moved := table[..];
      PlacesMoved(was, moved, unit, size, b);
      SetEntry(table, b, at, tag);
      InsertedIs(was, moved, b, EntryFor(at, tag, unit));
    }

    /** SparseAppend: the chunk is only entered into the table, here and there, and the hint moves on. */
    method SparseAppend(n: nat)
      requires Valid() && n >= 1 && end == pos + n <= size
      modifies this`cont, this`pos, table
      ensures Valid() && pos == end && cont == Wrap32(old(cont) + n)
      ensures table[..] == EnteredSparse(Here(), old(table[..]), old(pos), n - 1)
    {
      cont := Wrap32(cont + n);
      ghost var h, was := Here(), table[..];
      EnterSparse(n, h, 0);
      pos := pos + n;
    }

    method EnterSparse(n: nat, ghost h: Setting, ghost k: nat)
      requires k == 0 && Valid() && n >= 1 && end == pos + n <= size && h == Here()
      modifies table
      ensures Valid() && table[..] == EnteredSparse(h, old(table[..]), pos, n - 1)
    {
      var p, rem: int := pos, n - 1;
      ghost var was := table[..];
      SparseBegins(h, was, pos, n - 1);
      while rem >= 0
        invariant Valid() && p + rem == pos + n - 1 && IsSparse(h, was, pos, n - 1, table[..], p, rem)
        decreases rem
      {
        ghost var mid := table[..];
        EnterLap(p, rem, h, mid, k);
        SparseGoesOn(h, was, pos, n - 1, mid, p, rem, table[..], k + 8);
        p, rem := p + 0x493, rem - 0x493;
      }
      assert Look(Codes, 0);
    }

    /** Up to eight places, two here. */
    method EnterLap(p: nat, rem: nat, ghost h: Setting, ghost was: seq<U32>, ghost k: nat)
      requires Valid() && p + rem < end <= size && h == Here() && was == table[..] && k == 0
      modifies table
      ensures Valid() && IsLap(h, was, p, rem, k + 8, table[..])
    {
      LapBegins(h, was, p, rem);
      Enter(p, h, was, p, rem, k);
      if rem == 0 {
        LapEnds(h, was, p, rem, k + 1, table[..], k + 8);
        return;
      }
      Enter(p + 1, h, was, p, rem, k + 1);
      if rem == 1 {
        LapEnds(h, was, p, rem, k + 2, table[..], k + 8);
        return;
      }
      EnterThird(p, rem, h, was, k + 2);
    }

    /** The third and the fourth. */
    method EnterThird(p: nat, rem: nat, ghost h: Setting, ghost was: seq<U32>, ghost k: nat)
      requires Valid() && 2 <= rem && p + rem < end <= size && h == Here() && k == 2 && IsLap(h, was, p, rem, k, table[..])
      modifies table
      ensures Valid() && IsLap(h, was, p, rem, k + 6, table[..])
    {
      Enter(p + 2, h, was, p, rem, k);
      if rem - 0x25 < 0 {
        LapEnds(h, was, p, rem, k + 1, table[..], k + 6);
        return;
      }
      Enter(p + 3, h, was, p, rem, k + 1);
      if rem - 0x4c < 0 {
        LapEnds(h, was, p, rem, k + 2, table[..], k + 6);
        return;
      }
      EnterFar(p, rem, h, was, k + 2);
    }

    /** Those behind two gaps. */
    method EnterFar(p: nat, rem: nat, ghost h: Setting, ghost was: seq<U32>, ghost k: nat)
      requires Valid() && 0x4c <= rem && p + rem < end <= size && h == Here() && k == 4 && IsLap(h, was, p, rem, k, table[..])
      modifies table
      ensures Valid() && IsLap(h, was, p, rem, k + 4, table[..])
    {
      Enter(p + 0x26, h, was, p, rem, k);
      if rem - 0x71 < 0 {
        LapEnds(h, was, p, rem, k + 1, table[..], k + 4);
        return;
      }
      Enter(p + 0x4d, h, was, p, rem, k + 1);
      if rem - 0x92 < 0 {
        LapEnds(h, was, p, rem, k + 2, table[..], k + 4);
        return;
      }
      EnterLast(p, rem, h, was, k + 2);
    }

    /** The last two. */
    method EnterLast(p: nat, rem: nat, ghost h: Setting, ghost was: seq<U32>, ghost k: nat)
      requires Valid() && 0x92 <= rem && p + rem < end <= size && h == Here() && k == 6 && IsLap(h, was, p, rem, k, table[..])
      modifies table
      ensures Valid() && IsLap(h, was, p, rem, k + 2, table[..])
    {
      Enter(p + 0x72, h, was, p, rem, k);
      if rem - 0x492 < 0 {
        LapEnds(h, was, p, rem, k + 1, table[..], k + 2);
        return;
      }
      Enter(p + 0x93, h, was, p, rem, k + 1);
    }

    // -------------------------------------------------------------- parsing

    /** What the searches need to know. */
    ghost predicate Ready()
      reads this, base, table, table2
    {
      && Valid() && pos <= end <= size && remaining == end - pos <= MOST_BYTES
      && x == Setting(base[..], end, size, unit, tags, buckets, skip)
    }

    /** The same of what is parsed; out of sight until `Look(Coder, 0)`. */
    ghost predicate Knows()
      reads this, base
    {
      forall z {:trigger Look(Coder, z)} :: Look(Coder, z) ==> x == Setting(base[..], end, size, unit, tags, buckets, skip)
    }

    /** The parse stands at `pos`; the reader has followed it up to the literals that are not out yet. */
    ghost predicate Core()
      reads this, base, table, table2
    {
      && Valid() && f.start <= pos <= end == f.end <= size && remaining == end - pos && end - f.start <= MOST_BYTES && Knows()
      && remaining <= since && since - remaining <= pos - f.start && f.reader.at == pos - (since - remaining) && |f.reader.rep| == 4
      && IsLog(f, tok, lits) && f.view == base[..size]
    }

    lemma KnowsIs()
      requires Knows()
      ensures x == Setting(base[..], end, size, unit, tags, buckets, skip)
    {
      assert Look(Coder, 0);
    }

    ghost function TablesNow(): Tables
      reads table, table2
    {
      Tables(table[..], table2[..])
    }

    ghost function Now(): Moment
      reads this, table, table2
    {
      Moment(TablesNow(), tok, pos, since, run, rep, cont)
    }

    ghost predicate Parsing()
      reads this, base, table, table2
    {
      Core() && Tracks(rep, f.reader.rep, size, pos, f.start, end)
    }

    /** `mlen` bytes at `c`, which the reader has, are those at `pos`. */
    ghost predicate Candidate(c: nat, mlen: nat)
      reads this
    {
      (c < pos || end <= c < size) && c + mlen <= size && mlen <= remaining && Alike(f.view, pos, c, mlen)
    }

    ghost predicate Found(off: nat, mlen: nat)
      reads this
    {
      1 <= off < size && pos <= size && Candidate(Source(pos, off, size), mlen)
    }

    /** `emit`: the literals before the match, and the match. */
    method Emit(sel: nat, raw: nat, len: nat, ghost src: nat)
      requires Core() && 1 <= Offset(f.reader.rep, sel) <= size && Candidate(src, len)
      requires src == Source(pos, Offset(f.reader.rep, sel), size) && len == Length(Token(0, sel, raw), Offset(f.reader.rep, sel))
      modifies this`tok, this`lits, this`pos, this`remaining, this`since, this`run, this`f
      ensures Core() && pos == old(pos) + len && since == remaining && run == 0 && f.start == old(f.start) && f.ring == old(f.ring)
      ensures f.reader.rep == Renewed(old(f.reader.rep), sel) && tok == old(tok) + [Token(old(since - remaining), sel, raw)]
    {
      var count := since - remaining;
      var bytes := base[pos - count..pos];
      f := LogGrows(f, tok, lits, pos, Token(count, sel, raw), bytes, src);
      tok, lits := tok + [Token(count, sel, raw)], lits + bytes;
      pos, remaining := pos + len, remaining - len;
      since, run := remaining, 0;
    }

    /** A match at a new offset. */
    method PutNew(off: nat, len: nat)
      requires Parsing() && Found(off, len) && Extra(off) + 4 <= len
      requires cont == 0xffff_ffff ==> rep[0] == -1
      modifies this`tok, this`lits, this`pos, this`remaining, this`since, this`run, this`f, this`rep, this`cont
      ensures Parsing() && pos == old(pos) + len && cont == off + 3 && since == remaining && run == 0
      ensures tok == old(tok) + [Token(old(since - remaining), off + 3, len - (Extra(off) + 4))]
      ensures rep == [if old(pos) < off then size - off else 0 - off, if old(cont) == 0xffff_ffff then -1 else old(rep[0]), old(rep[1]), old(rep[2])]
      ensures f.ring == old(f.ring) && f.start == old(f.start)
    {
      var b0 := if cont == 0xffff_ffff then -1 else rep[0];
      var d: int := if pos < off then size - off else 0 - off;
      ghost var was, offsets, at := rep, f.reader.rep, pos;
      rep := [d, b0, rep[1], rep[2]];
      cont := off + 3;
      Emit(off + 3, len - (Extra(off) + 4), len, Source(pos, off, size));
      NewTracked(was, offsets, off, d, size, at, pos, f.start, end);
    }

    /** It is the step of a new match. */
    method TakeNew(off: nat, len: nat)
      requires Parsing() && Found(off, len) && Extra(off) + 4 <= len
      requires cont == 0xffff_ffff ==> rep[0] == -1
      modifies this`tok, this`lits, this`pos, this`remaining, this`since, this`run, this`f, this`rep, this`cont
      ensures Parsing() && pos == old(pos) + len && cont == off + 3 && run == 0
      ensures IsNew(x, old(Now()), off, len, Now())
      ensures f.ring == old(f.ring) && f.start == old(f.start)
    {
      ghost var m := Now();
      NowIsOk();
      PutNew(off, len);
      NewIs(x, m, off, len, Now(), rep[0], rep[1]);
    }

    static lemma NewTracked(was: seq<int>, offsets: seq<nat>, off: nat, d: int, size: nat, at: nat, pos: nat, start: nat, end: nat)
      requires Tracks(was, offsets, size, at, start, end) && at <= pos && start <= at <= size && 1 <= off < size
      requires if at < off then d == size - off && end <= at + d <= size else d + off == 0
      ensures Tracks([d, was[0], was[1], was[2]], Renewed(offsets, off + 3), size, pos, start, end)
    {
      assert Look(Steps, 0);
      var r, o := [d, was[0], was[1], was[2]], Renewed(offsets, off + 3);
      forall k | 0 <= k < 4 ensures TracksOne(r[k], o[k], size, pos, start, end) {
        if k > 0 { assert TracksOne(was[k - 1], offsets[k - 1], size, at, start, end); }
      }
    }

    /** The first of the last four distances whose two bytes agree; 4 if there is none. */
    method FindRep() returns (i: nat)
      requires Parsing() && 1 <= pos && remaining >= 1
      ensures i <= 4 && (i < 4 ==> 0 <= pos + rep[i] && pos + rep[i] + 2 <= base.Length && Same(base[..], pos, pos + rep[i], 2))
      ensures IsFirst(x, pos, rep, i)
      ensures rep[0] == -1 && base[pos - 1] == base[pos] == base[pos + 1] ==> i == 0
    {
      i := 0;
      assert Look(Coder, 0);
      FromBeginning(x, pos, rep);
      while i < 4
        invariant i <= 4 && IsFrom(x, pos, rep, i) && (i > 0 ==> !(rep[0] == -1 && base[pos - 1] == base[pos] == base[pos + 1]))
      {
        var agree := RepAgrees(i);
        if agree { return; }
        i := i + 1;
      }
      FromNone(x, pos, rep);
    }

    /** Do two bytes agree at distance `i`? */
    method RepAgrees(i: nat) returns (agree: bool)
      requires Parsing() && 1 <= pos && remaining >= 1 && i < 4 && IsFrom(x, pos, rep, i)
      ensures agree ==> 0 <= pos + rep[i] && pos + rep[i] + 2 <= base.Length && Same(base[..], pos, pos + rep[i], 2)
      ensures if agree then IsFirst(x, pos, rep, i) else IsFrom(x, pos, rep, i + 1)
      ensures rep[i] == -1 && base[pos - 1] == base[pos] == base[pos + 1] ==> agree
    {
      var d := rep[i];
      TracksAt(rep, f.reader.rep, size, pos, f.start, end, i);
      agree := pos + d >= -0x100 && base[pos + d] == base[pos] && base[pos + d + 1] == base[pos + 1];
      RepLooked(i, agree);
    }

    lemma RepLooked(i: nat, agree: bool)
      requires Parsing() && remaining >= 1 && i < 4 && IsFrom(x, pos, rep, i) && 0 <= pos + rep[i] && pos + rep[i] + remaining + 2 <= base.Length
      requires agree <==> base[pos] == base[pos + rep[i]] && base[pos + 1] == base[pos + rep[i] + 1]
      ensures if agree then IsFirst(x, pos, rep, i) else IsFrom(x, pos, rep, i + 1)
    {
      assert Look(Coder, 0);
      FromLooked(x, pos, rep, i, agree);
    }

    /** The moment is one the steps speak of. */
    lemma NowIsOk()
      requires Parsing()
      ensures Now().Ok(x) && x.end == end && x.size == size && x.skip == skip
    {
      assert Look(Coder, 0);
    }

    /** A match at one of the last four distances, unless it would run past the window. */
    method PutRep(i: nat) returns (put: bool)
      requires Parsing() && i < 4 && 1 <= pos && remaining >= 1 && IsFirst(x, pos, rep, i)
      requires 0 <= pos + rep[i] && pos + rep[i] + 2 <= base.Length && Same(base[..], pos, pos + rep[i], 2)
      modifies this`tok, this`lits, this`pos, this`remaining, this`since, this`run, this`f, this`rep
      ensures f.ring == old(f.ring) && f.start == old(f.start)
      ensures Parsing() && (put ==> pos >= old(pos) + 2 && run == 0 && since == remaining && rep == Promoted(old(rep), i))
      ensures put ==> Alike(f.view, old(pos), old(pos + rep[i]), pos - old(pos))
      ensures !put ==> pos == old(pos) && remaining == old(remaining) && since == old(since) && run == old(run) && rep == old(rep)
      ensures old(rep[i] == -1 && remaining >= 2 && FlatTo(f.view, pos, end)) ==> put && pos == end
      ensures ByRep(x, old(Now()), i, put, Now())
    {
      ghost var m, src := Now(), pos + rep[i];
      NowIsOk();
      var mlen := RepLength(i);
      if mlen == 0 {
        RepIs(x, m, i, 0, m);
        return false;
      }
      put := true;
      ghost var was, offsets, at := rep, f.reader.rep, pos;
      rep := Promoted(rep, i);
      Emit(i, mlen - 2, mlen, src);
      TracksOn(was, offsets, size, at, f.start, end, pos);
      TracksPromoted(was, offsets, i, size, pos, f.start, end);
      RepIs(x, m, i, mlen, Now());
    }

    /** Two bytes are the same; how many of those that remain? */
    method ExtendTwo(c: nat) returns (mlen: nat)
      requires Core() && remaining >= 1 && c <= size + MOST_BYTES - remaining && Same(base[..], pos, c, 2)
      ensures 2 <= mlen && (if remaining >= 2 then mlen <= remaining else mlen == 2) && mlen <= MOST_BYTES && Same(base[..], pos, c, mlen)
      ensures mlen < remaining ==> base[pos + mlen] != base[c + mlen]
    {
      mlen := 2;
      if remaining >= 3 {
        var more := MatchLen(base, pos + 2, c + 2, pos + remaining);
        SameGrows(base[..], pos, c, 2, more);
        mlen := 2 + more;
      }
    }

    /** How long the match at that distance is; 0 when it would run past the window. */
    method RepLength(i: nat) returns (mlen: nat)
      requires Parsing() && i < 4 && 1 <= pos && remaining >= 1
      requires 0 <= pos + rep[i] && pos + rep[i] + 2 <= base.Length && Same(base[..], pos, pos + rep[i], 2)
      ensures mlen == 0 || (2 <= mlen && 1 <= f.reader.rep[i] <= size && Candidate(pos + rep[i], mlen) && pos + rep[i] == Source(pos, f.reader.rep[i], size))
      ensures rep[i] == -1 && remaining >= 2 && FlatTo(f.view, pos, end) ==> mlen == remaining
      ensures IsRepLength(x, pos, rep[i], mlen)
    {
      ghost var offset := f.reader.rep[i];
      TracksAt(rep, f.reader.rep, size, pos, f.start, end, i);
      mlen := RepLengthAt(rep[i], offset);
    }

    method RepLengthAt(d: int, ghost offset: nat) returns (mlen: nat)
      requires Core() && 1 <= pos && remaining >= 1 && TracksOne(d, offset, size, pos, f.start, end)
      requires 0 <= pos + d && pos + d + 2 <= base.Length && Same(base[..], pos, pos + d, 2)
      ensures mlen == 0 || (2 <= mlen && 1 <= offset <= size && Candidate(pos + d, mlen) && pos + d == Source(pos, offset, size))
      ensures d == -1 && remaining >= 2 && FlatTo(f.view, pos, end) ==> mlen == remaining
      ensures IsRepLength(x, pos, d, mlen)
    {
      var n := ExtendTwo(pos + d);
      mlen := if size < Wrap32(n + pos + Wrap32(d)) || remaining == 1 then 0 else n;
      ExtendedFits(d, offset, n, mlen);
    }

    lemma ExtendedFits(d: int, offset: nat, n: nat, mlen: nat)
      requires Core() && 1 <= pos && remaining >= 1 && TracksOne(d, offset, size, pos, f.start, end)
      requires 0 <= pos + d && 2 <= n <= MOST_BYTES && (if remaining >= 2 then n <= remaining else n == 2) && Same(base[..], pos, pos + d, n)
      requires n < remaining ==> base[pos + n] != base[pos + d + n]
      requires mlen == if size < Wrap32(n + pos + Wrap32(d)) || remaining == 1 then 0 else n
      ensures mlen == 0 || (2 <= mlen && 1 <= offset <= size && Candidate(pos + d, mlen) && pos + d == Source(pos, offset, size))
      ensures d == -1 && remaining >= 2 && FlatTo(f.view, pos, end) ==> mlen == remaining
      ensures IsRepLength(x, pos, d, mlen)
    {
      RepReach(n, pos, d, size);
      ExtendedIs(d, n, mlen);
      if d == -1 && remaining >= 2 { ExtendedFlat(n); }
      if mlen > 0 { ExtendedIsThere(d, offset, mlen); }
    }

    lemma ExtendedIsThere(d: int, offset: nat, n: nat)
      requires Core() && 1 <= pos && remaining >= 2 && TracksOne(d, offset, size, pos, f.start, end)
      requires 0 <= pos + d && 2 <= n <= remaining && pos + d + n <= size && Same(base[..], pos, pos + d, n)
      ensures 1 <= offset <= size && Candidate(pos + d, n) && pos + d == Source(pos, offset, size)
    {
      SameFirst(base[..], pos, pos + d, f.view, n);
      SameIsAlike(f.view, pos, pos + d, n);
    }

    lemma ExtendedIs(d: int, n: nat, mlen: nat)
      requires Core() && remaining >= 1 && 0 <= pos + d && pos + d <= size + MOST_BYTES - remaining
      requires 2 <= n && (remaining >= 2 ==> n <= remaining) && (remaining < 2 ==> n == 2) && Same(base[..], pos, pos + d, n)
      requires n < remaining ==> base[pos + n] != base[pos + d + n]
      requires mlen == if size < n + pos + d || remaining == 1 then 0 else n
      ensures IsRepLength(x, pos, d, mlen)
    {
      assert Look(Coder, 0);
      AgreeingIs(base[..], pos, pos + d, if remaining < 2 then 2 else remaining, n);
      RepLengthIs(x, pos, d, n, mlen);
    }

    lemma ExtendedFlat(n: nat)
      requires Core() && 1 <= pos && remaining >= 2 && 2 <= n <= remaining && (n < remaining ==> base[pos + n] != base[pos - 1 + n])
      ensures FlatTo(f.view, pos, end) ==> n == remaining
    {
      if n < remaining && FlatTo(f.view, pos, end) { FlatStep(base[..], f.view, pos, end, n); }
    }

    static lemma FlatStep(s: seq<Byte>, v: seq<Byte>, pos: nat, end: nat, k: nat)
      requires FlatTo(v, pos, end) && v <= s && 1 <= pos <= end <= |v| && k < end - pos
      ensures s[pos + k] == s[pos - 1 + k]
    {
      assert Look(RawBits, 0);
      assert v[pos + k] == v[pos - 1] == v[pos - 1 + k];
      assert s[pos + k] == v[pos + k] && s[pos - 1 + k] == v[pos - 1 + k];
    }

    static lemma RepReach(mlen: nat, pos: nat, d: int, size: nat)
      requires 0 <= pos + d && mlen <= MOST_BYTES && pos <= size < 0x4000_0000 && d <= size
      ensures Wrap32(mlen + pos + Wrap32(d)) == mlen + pos + d
    {
      if d < 0 { WrapOf(d, -1); WrapOf(mlen + pos + d + TWO32, 1); } else { WrapOf(d, 0); WrapOf(mlen + pos + d, 0); }
    }

    /** How far the window goes on at `c` as it does at `pos`. */
    method Compare(c: nat) returns (l: nat)
      requires Ready() && c < size
      ensures l == x.Agreement(pos, c)
    {
      ghost var lim := Min(remaining, size - c);
      l := MatchLen(base, c, pos, c + Min(remaining, size - c));
      SameTurned(base[..], c, pos, l);
      AgreeingIs(base[..], pos, c, lim, l);
    }

    /** The comparison, where the word that would make it longer than `best` agrees; else 0. */
    method TryLonger(c: nat, best: nat) returns (l: nat)
      requires Ready() && c < size && best <= remaining
      ensures l == x.Agreement(pos, c) || (l == 0 && x.Agreement(pos, c) <= best)
    {
      l := 0;
      if best < 4 || Load(pos + best - 3) == Load(c + best - 3) {
        l := Compare(c);
      } else {
        if x.Agreement(pos, c) > best { WordsOfLonger(base[..], pos, c, Min(remaining, size - c), best); }
      }
    }

    /**
     The four entries of a bucket; the longest match found moves to its front. This is the walk of
     which LzSearch.WalkIsLongest speaks, and nothing but the bucket changes.
     */
    method SearchBucket(b: nat, tag: nat) returns (mlen: nat, off: U32, taken: bool, ghost c: nat)
      requires Ready() && remaining > 3 && b + 4 <= table.Length
      modifies table
      ensures Valid() && (mlen > 0 ==> off == Wrap32(pos - c))
      ensures Ends(x, pos, tag, old(table[b..b + 4]), 0, 0, 0, table[b..b + 4], mlen, c, taken)
      ensures Beside(old(table[..]), table[..], b)
    {
      mlen, off, taken, c := 0, 0, false, 0;
      var e := b;
      ghost var all, was := table[..], table[b..b + 4];
      SameIsBeside(all, b);
      LeadsFrom(x, pos, tag, was, 0, 0, 0);
      var more: bool, at: nat := GoOn(b, e, tag, mlen, c, was);
      while more
        invariant Valid() && b <= e <= b + 4 && mlen <= remaining && (mlen > 0 ==> off == Wrap32(pos - c)) && Beside(all, table[..], b)
        invariant IsWalking(b, e, tag, was, mlen, c, false, more, at) && !taken
        decreases b + 4 - e
      {
        mlen, off, taken, c := TryNext(b, e, tag, at, mlen, off, c, was, all);
        e := e + 1;
        if taken { return; }
        more, at := GoOn(b, e, tag, mlen, c, was);
      }
    }

    /** The walk has come to a live entry, or has ended. */
    ghost predicate IsWalking(b: nat, e: nat, tag: nat, was: seq<U32>, best: nat, c: nat, taken: bool, more: bool, at: nat)
      requires Ready() && b <= e <= b + 4 <= table.Length
      reads this, base, table, table2
    {
      if more then e < b + 4 && IsNext(e, tag, true, at) && Leads(x, pos, tag, was, 0, 0, 0, table[b..b + 4], e - b, best, c)
      else Ends(x, pos, tag, was, 0, 0, 0, table[b..b + 4], best, c, taken)
    }

    /** Entry `e` is tried; if it is not taken the walk goes on behind it. */
    method TryNext(b: nat, e: nat, ghost tag: nat, at: nat, best0: nat, off0: U32, ghost c0: nat, ghost was: seq<U32>, ghost all: seq<U32>)
      returns (best: nat, off: U32, taken: bool, ghost c: nat)
      requires Ready() && b <= e < b + 4 <= table.Length && Beside(all, table[..], b)
      requires best0 <= remaining && (best0 > 0 ==> off0 == Wrap32(pos - c0)) && IsWalking(b, e, tag, was, best0, c0, false, true, at)
      modifies table
      ensures Valid() && best <= remaining && (best > 0 ==> off == Wrap32(pos - c)) && Beside(all, table[..], b)
      ensures if taken then Ends(x, pos, tag, was, 0, 0, 0, table[b..b + 4], best, c, true)
        else Leads(x, pos, tag, was, 0, 0, 0, table[b..b + 4], e + 1 - b, best, c)
    {
      ghost var before, now := table[..], table[b..b + 4];
      best, off, taken, c := TryEntry(b, e, tag, at, best0, off0, c0);
      BesideOn(all, before, table[..], b);
      if taken {
        LeadsEnd(x, pos, tag, was, now, e - b, best0, c0, table[b..b + 4], best, c, true);
      } else {
        LeadsOn(x, pos, tag, was, now, e - b, best0, c0, table[b..b + 4], e + 1 - b, best, c);
      }
    }

    /** The walk goes on if there is a fourth entry or one before it, and it is live. */
    method GoOn(b: nat, e: nat, tag: nat, ghost best: nat, ghost c: nat, ghost was: seq<U32>) returns (more: bool, at: nat)
      requires Ready() && b <= e <= b + 4 <= table.Length && Leads(x, pos, tag, was, 0, 0, 0, table[b..b + 4], e - b, best, c)
      ensures IsWalking(b, e, tag, was, best, c, false, more, at)
    {
      if e == b + 4 {
        more, at := false, 0;
      } else {
        more, at := NextEntry(e, tag);
      }
      if !more { WalkStops(b, e, tag, was, best, c, at); }
    }

    /** The walk ends behind the fourth entry or in front of one that is not live. */
    lemma WalkStops(b: nat, e: nat, tag: nat, was: seq<U32>, mlen: nat, c: nat, at: nat)
      requires Ready() && b <= e <= b + 4 <= table.Length && (e < b + 4 ==> IsNext(e, tag, false, at))
      requires Leads(x, pos, tag, was, 0, 0, 0, table[b..b + 4], e - b, mlen, c)
      ensures Ends(x, pos, tag, was, 0, 0, 0, table[b..b + 4], mlen, c, false)
    {
      assert Look(Spot, 0);
      EndsHere(x, pos, tag, table[b..b + 4], e - b, mlen, c);
      LeadsEnd(x, pos, tag, was, table[b..b + 4], e - b, mlen, c, table[b..b + 4], mlen, c, false);
    }

    /** Whether an entry is live, and its place; out of sight until `Look(Spot, 0)`. */
    ghost predicate IsNext(e: nat, tag: nat, more: bool, at: nat)
      requires Ready() && e < table.Length
      reads this, base, table, table2
    {
      at < size && forall z {:trigger Look(Spot, z)} :: Look(Spot, z) ==>
        more == x.Judged(pos, tag, table[e]).live && at == x.Judged(pos, tag, table[e]).place
    }

    /** An entry, if it has the tag and names a place that the reader has. */
    method NextEntry(e: nat, tag: nat) returns (more: bool, at: nat)
      requires Ready() && e < table.Length
      ensures IsNext(e, tag, more, at)
    {
      var bits;
      at, bits := EntryParts(table, e);
      more := table[e] != 0 && bits == tag && (end <= at || at < pos);
    }

    /** One entry: a longer match comes to the front, and a long one ends the walk. */
    method TryEntry(b: nat, e: nat, ghost tag: nat, at: nat, best0: nat, off0: U32, ghost c0: nat) returns (best: nat, off: U32, taken: bool, ghost c: nat)
      requires Ready() && b <= e < b + 4 <= table.Length && IsNext(e, tag, true, at)
      requires best0 <= remaining && (best0 > 0 ==> off0 == Wrap32(pos - c0))
      modifies table
      ensures Valid() && best <= remaining && (best > 0 ==> off == Wrap32(pos - c))
      ensures if taken then Ends(x, pos, tag, old(table[b..b + 4]), e - b, best0, c0, table[b..b + 4], best, c, true)
        else Leads(x, pos, tag, old(table[b..b + 4]), e - b, best0, c0, table[b..b + 4], e + 1 - b, best, c)
      ensures Beside(old(table[..]), table[..], b)
    {
      best, off, taken, c := best0, off0, false, c0;
      assert Look(Spot, 0);
      ghost var was := table[b..b + 4];
      var l := TryLonger(at, best);
      assert was[e - b] == table[e];
      if best < l {
        LeadsBySwap(x, pos, tag, was, e - b, best, c);
        best, off, c := l, Wrap32(pos - at), at;
        SwapFirst(b, e);
        taken := 0x3f < l || remaining <= l;
      } else {
        SameIsBeside(table[..], b);
        LeadsPast(x, pos, tag, was, e - b, best, c);
      }
    }

    method SwapFirst(b: nat, e: nat)
      requires Valid() && b <= e < b + 4 <= table.Length
      modifies table
      ensures Valid() && table[b..b + 4] == Swapped(old(table[b..b + 4]), e - b)
      ensures Beside(old(table[..]), table[..], b)
    {
      ghost var was := table[..];
      table[b], table[e] := table[e], table[b];
      PlacesMoved(was, table[..], unit, size, b);
      SwappedIs(was, table[..], b, e);
      assert table[b..b + 4] == table[..][b..b + 4];
    }

    static lemma SwappedIs(was: seq<U32>, now: seq<U32>, b: nat, e: nat)
      requires b <= e < b + 4 <= |was| == |now| && now[b] == was[e] && now[e] == was[b]
      requires forall i | 0 <= i < |was| && i != b && i != e :: now[i] == was[i]
      ensures now[b..b + 4] == Swapped(was[b..b + 4], e - b) && Beside(was, now, b)
    {
      assert now[b..b + 4] == Swapped(was[b..b + 4], e - b);
      assert now == Put(was, b, now[b..b + 4]);
    }

    /** The second table of the largest windows: one position in sixteen, by sixteen bytes. */
    method ProbeLong(h: U32) returns (mlen: nat, off: U32, ghost c: nat)
      requires Ready() && remaining > 3 && table2.Length > 0
      modifies table2
      ensures Valid() && (mlen > 0 ==> off == Wrap32(pos - c))
      ensures IsProbed(x, pos, h, old(TablesNow()), Hit(mlen, c, TablesNow()))
    {
      mlen, off, c := 0, 0, 0;
      if remaining <= 0x3f { return; }
      var slot, tag := LongParts(h);
      var none := table2[slot] == 0;
      var at: nat, bits: nat := EntryParts(table2, slot);
      SetEntry(table2, slot, pos, tag);
      if none || bits != tag { return; }
      if !(end <= at || at < pos) { return; }
      off, c := Wrap32(pos - at), at;
      mlen := Compare(at);
    }

    /** The second table's key hashes the sixteen bytes at the position. */
    method LongParts(h: U32) returns (slot: nat, tag: nat)
      requires Ready() && table2.Length > 0
      ensures slot < table2.Length && tag < tags
      ensures var s := x.LongKey(pos, h); slot == Mixed(s, s) % table2.Length && tag == LongTag(s, tags)
    {
      var s := KeyOf(h, Load(pos + 4), Load(pos + 8), Load(pos + 12));
      slot, tag := Mixed(s, s) % table2.Length, LongTag(s, tags);
    }

    /** The position goes to the front of its bucket, where a match has not just put another. */
    method Insert(b: nat, tag: nat)
      requires Valid() && pos < size && b + 4 <= table.Length && tag < tags
      modifies table
      ensures Valid() && table[..] == Put(old(table[..]), b, Inserted(old(table[b..b + 4]), EntryFor(pos, tag, unit)))
    {
      ghost var was := table[..];
      var first, second := table[b], table[b + 1];
      table[b + 3] := table[b + 2];
      table[b + 1], table[b + 2] := first, second;
      ghost var moved := table[..];
      PlacesMoved(was, moved, unit, size, b);
      SetEntry(table, b, pos, tag);
      InsertedIs(was, moved, b, EntryFor(pos, tag, unit));
    }

    static lemma InsertedIs(was: seq<U32>, moved: seq<U32>, b: nat, entry: U32)
      requires b + 4 <= |was| == |moved| && moved[b + 1] == was[b] && moved[b + 2] == was[b + 1] && moved[b + 3] == was[b + 2]
      requires forall i | 0 <= i < |was| && !(b <= i < b + 4) :: moved[i] == was[i]
      ensures moved[b := entry] == Put(was, b, Inserted(was[b..b + 4], entry))
    {
      assert Inserted(was[b..b + 4], entry) == [entry, was[b], was[b + 1], was[b + 2]];
    }

    /** The offset of a candidate, in the words of the program. */
    lemma CandidateFound(c: nat, mlen: nat, raw: U32)
      requires Core() && Candidate(c, mlen) && 0 < mlen && raw == Wrap32(pos - c)
      ensures Found(Fixed(raw, size), mlen)
    {
      FixedIsOffset(pos, c, size);
    }

    /** A new match, if the tables lead to one: what LzSearch says is found. */
    method Search() returns (off: nat, mlen: nat, ghost c: nat)
      requires Parsing() && remaining >= 1
      modifies table, table2
      ensures Parsing() && (mlen > 0 ==> Found(off, mlen))
      ensures IsSearched(x, pos, old(TablesNow()), Hit(mlen, c, TablesNow())) && (mlen > 0 ==> off == OffsetOf(x, pos, c))
    {
      off, mlen, c := 0, 0, 0;
      assert Look(Coder, 0);
      ghost var was := TablesNow();
      if remaining <= 3 {
        NothingLeft(x, pos, was);
        return;
      }
      var raw;
      mlen, raw, c := SearchHere();
      HitIsFound(was, mlen, raw, c);
      off := Fixed(raw, size);
    }

    static lemma NothingLeft(x: Setting, p: nat, t: Tables)
      requires x.Ok() && p <= x.end <= p + 3 && |t.one| == x.buckets + 12
      ensures IsSearched(x, p, t, Hit(0, 0, t))
    {
    }

    method SearchHere() returns (mlen: nat, raw: U32, ghost c: nat)
      requires Ready() && remaining > 3
      modifies table, table2
      ensures Valid() && (mlen > 0 ==> raw == Wrap32(pos - c))
      ensures IsSearched(x, pos, old(TablesNow()), Hit(mlen, c, TablesNow()))
    {
      var h := HashAt(pos);
      var tag, b := HashParts(h);
      KeyIs(x, pos, h, tag, b);
      mlen, raw, c := SearchTables(h, tag, b);
    }

    /** What the search gives is a match that the reader can follow. */
    lemma HitIsFound(was: Tables, mlen: nat, raw: U32, c: nat)
      requires Core() && Ready() && remaining >= 1 && |was.one| == x.buckets + 12 && IsSearched(x, pos, was, Hit(mlen, c, TablesNow()))
      requires mlen > 0 ==> raw == Wrap32(pos - c)
      ensures mlen > 0 ==> Found(Fixed(raw, size), mlen) && Fixed(raw, size) == OffsetOf(x, pos, c)
    {
      SearchedIsThere(x, pos, was, Hit(mlen, c, TablesNow()));
      if mlen > 0 {
        ThereIsCandidate(c, mlen);
        CandidateFound(c, mlen, raw);
      }
    }

    lemma ThereIsCandidate(c: nat, mlen: nat)
      requires Core() && Ready() && 0 < mlen <= remaining && (c < pos || end <= c < size) && mlen == x.Agreement(pos, c)
      ensures Candidate(c, mlen)
    {
      AgreeingBytes(base[..], pos, c, Min(remaining, size - c));
      SameFirst(base[..], pos, c, f.view, mlen);
      SameIsAlike(f.view, pos, c, mlen);
    }

    /** The second table first where there is one; a long match is taken as it is. */
    method SearchTables(h: U32, tag: nat, b: nat) returns (mlen: nat, off: U32, ghost c: nat)
      requires Ready() && remaining > 3 && b + 4 <= table.Length && tag < tags
      requires IsKey(x, pos, h, tag, b)
      modifies table, table2
      ensures Valid() && (mlen > 0 ==> off == Wrap32(pos - c))
      ensures IsSearched(x, pos, old(TablesNow()), Hit(mlen, c, TablesNow()))
    {
      ghost var was := TablesNow();
      mlen, off, c := ProbeFirst(h, tag);
      ghost var long := Hit(mlen, c, TablesNow());
      if 8 <= mlen {
        SearchedByProbe(x, pos, was, h, tag, b, long);
        return;
      }
      mlen, off, c := SearchInsert(b, tag);
      SearchedByBucket(x, pos, was, h, tag, b, long, Hit(mlen, c, TablesNow()));
    }

    /** The second table, where there is one, at one position in sixteen. */
    method ProbeFirst(h: U32, tag: nat) returns (mlen: nat, off: U32, ghost c: nat)
      requires Ready() && remaining > 3
      modifies table2
      ensures Valid() && (mlen > 0 ==> off == Wrap32(pos - c))
      ensures IsLong(x, pos, old(TablesNow()), h, tag, Hit(mlen, c, TablesNow()))
    {
      mlen, off, c := 0, 0, 0;
      ghost var was := TablesNow();
      if table2.Length > 0 && 0xf0 <= (tag + h) % 0x100 {
        mlen, off, c := ProbeLong(h);
      }
      ProbedIsLong(x, pos, was, h, tag, Hit(mlen, c, TablesNow()));
    }

    /** The bucket; the position goes into it unless a match is taken as it is. */
    method SearchInsert(b: nat, tag: nat) returns (mlen: nat, off: U32, ghost c: nat)
      requires Ready() && remaining > 3 && b + 4 <= table.Length && tag < tags
      modifies table
      ensures Valid() && (mlen > 0 ==> off == Wrap32(pos - c))
      ensures IsBucketed(x, pos, tag, b, old(TablesNow()), Hit(mlen, c, TablesNow()))
    {
      var taken;
      ghost var was := TablesNow();
      mlen, off, taken, c := SearchBucket(b, tag);
      ghost var now, left := table[..], table[b..b + 4];
      if !taken { Insert(b, tag); }
      BesidePut(was.one, now, b, Inserted(left, EntryFor(pos, tag, unit)));
      BucketedIs(x, pos, tag, b, was, left, mlen, c, taken, table[..]);
    }

    /** Some literals of a long run are not searched. */
    method SkipSome() returns (over: bool, ghost n: nat)
      requires Parsing() && remaining >= 1
      modifies this`run, this`pos, this`remaining
      ensures Parsing() && old(pos) <= pos && (over <==> remaining == 0)
      ensures old(run) == 0 ==> run == 0 && pos == old(pos)
      ensures old(run) > 0 ==> run > 0
      ensures n == Skipped(skip, old(run), old(remaining)) && pos == old(pos) + n && run == old(run) + n
    {
      over, n := false, 0;
      SkipsFrom(skip, run, remaining);
      while IsSkipped(skip, run)
        invariant Parsing() && old(pos) <= pos && remaining >= 1
        invariant if old(run) == 0 then run == 0 && pos == old(pos) else run > 0
        invariant SkipsTo(skip, old(run), old(remaining), n) && pos == old(pos) + n && run == old(run) + n && remaining == old(remaining) - n
        decreases remaining
      {
        n := SkipOne(old(run), old(remaining), n);
        if remaining == 0 {
          over := true;
          break;
        }
      }
      SkipsOn(skip, old(run), old(remaining), n);
    }

    method SkipOne(ghost run0: nat, ghost left: nat, ghost n0: nat) returns (ghost n: nat)
      requires Parsing() && remaining >= 1 && SkipsTo(skip, run0, left, n0) && n0 < left && run == run0 + n0 && IsSkipped(skip, run)
      modifies this`run, this`pos, this`remaining
      ensures Parsing() && pos == old(pos) + 1 && remaining == old(remaining) - 1 && run == old(run) + 1
      ensures n == n0 + 1 && SkipsTo(skip, run0, left, n)
    {
      SkipsOn(skip, run0, left, n0);
      PassOne();
      run, n := run + 1, n0 + 1;
    }

    /** A literal: it goes out with the next token. */
    method PassOne()
      requires Parsing() && remaining >= 1
      modifies this`pos, this`remaining
      ensures Parsing() && pos == old(pos) + 1 && remaining == old(remaining) - 1
    {
      TracksOn(rep, f.reader.rep, size, pos, f.start, end, pos + 1);
      pos, remaining := pos + 1, remaining - 1;
    }

    /**
     What a chunk's hint can have become: nothing, a new match's selector, or still what it was, and then
     all so far is like the byte before the chunk.
     */
    ghost predicate HintOk(hint: nat)
      reads this
    {
      && cont < 0x8000_0000 && (run > 0 ==> cont == 0) && |rep| == 4
      && if kept then
          cont == hint && run == 0 && since == remaining && rep == [-1, -1, -1, -1] && FlatTo(f.view, f.start, pos)
          && (pos == f.start || f.start + 2 <= pos)
        else cont == 0 || 4 <= cont < size + 3
    }

    /** One token, or one literal. */
    method ParseOne(ghost hint: nat) returns (stop: Stop)
      requires Parsing() && 1 <= pos && remaining >= 1 && HintOk(hint)
      modifies this`tok, this`lits, this`pos, this`remaining, this`since, this`run, this`f, this`rep, this`cont, this`kept, table, table2
      ensures Parsing() && pos > old(pos) && HintOk(hint) && (stop.Go? <==> remaining > 0)
      ensures stop.Finish? ==> cont == 0
      ensures f.ring == old(f.ring) && f.start == old(f.start)
      ensures (kept ==> old(kept)) && (old(kept && remaining >= 2 && FlatTo(f.view, pos, end)) ==> kept && remaining == 0)
      ensures IsStepped(x, old(Now()), Now())
    {
      ghost var m := Now();
      NowIsOk();
      var over, n := SkipSome();
      if over {
        StepPasses(x, m, n);
        return AfterMatch;
      }
      assert Now() == Past(m, n);
      stop := ParseThere(hint, m, n);
    }

    /** The token or the literal behind the literals passed over. */
    method ParseThere(ghost hint: nat, ghost m: Moment, ghost n: nat) returns (stop: Stop)
      requires Parsing() && 1 <= pos && remaining >= 1 && HintOk(hint)
      requires m.Ok(x) && x.end == end && n == Skipped(x.skip, m.run, x.end - m.pos) && Now() == Past(m, n)
      modifies this`tok, this`lits, this`pos, this`remaining, this`since, this`run, this`f, this`rep, this`cont, this`kept, table, table2
      ensures Parsing() && pos > old(pos) && HintOk(hint) && (stop.Go? <==> remaining > 0)
      ensures stop.Finish? ==> cont == 0
      ensures f.ring == old(f.ring) && f.start == old(f.start)
      ensures (kept ==> old(kept)) && (old(kept && remaining >= 2 && FlatTo(f.view, pos, end)) ==> kept && remaining == 0)
      ensures IsStepped(x, m, Now())
    {
      var put, hit := PutMatch(hint);
      StepLeads(x, m, n, hit, put, Now());
      if put { return if remaining == 0 then AfterMatch else Go; }
      PutNone();
      stop := if remaining == 0 then Finish else Go;
    }

    /** A literal where there is no match. */
    method PutNone()
      requires Parsing() && remaining >= 1
      modifies this`run, this`pos, this`remaining, this`cont, this`kept
      ensures Parsing() && pos == old(pos) + 1 && remaining == old(remaining) - 1 && cont == 0 && !kept
      ensures Now() == Literal(old(Now()))
    {
      run := run + 1;
      PassOne();
      cont := 0;
      kept := false;
    }

    /** A match at one of the last distances where there is one, or else at a new one. */
    method PutMatch(ghost hint: nat) returns (put: bool, ghost hit: Hit)
      requires Parsing() && 1 <= pos && remaining >= 1 && HintOk(hint)
      modifies this`tok, this`lits, this`pos, this`remaining, this`since, this`run, this`f, this`rep, this`cont, this`kept, table, table2
      ensures Parsing() && HintOk(hint) && (if put then pos > old(pos) else pos == old(pos) && remaining == old(remaining))
      ensures f.ring == old(f.ring) && f.start == old(f.start)
      ensures (kept ==> old(kept)) && (old(kept && remaining >= 2 && FlatTo(f.view, pos, end)) ==> put && kept && remaining == 0)
      ensures IsSought(x, old(pos), old(TablesNow()), hit) && IsPut(x, old(Now()), hit, put, Now())
    {
      ghost var m := Now();
      NowIsOk();
      FlatAhead(hint);
      var i := FindRep();
      if i < 4 {
        put := PutOld(i, hint);
        hit := OldLeads(x, m, i, put, Now());
      } else {
        put, hit := PutFound(hint);
      }
    }

    method PutFound(ghost hint: nat) returns (put: bool, ghost hit: Hit)
      requires Parsing() && remaining >= 1 && HintOk(hint) && IsFirst(x, pos, rep, 4)
      modifies this`tok, this`lits, this`pos, this`remaining, this`since, this`run, this`f, this`rep, this`cont, this`kept, table, table2
      ensures Parsing() && HintOk(hint) && (if put then pos > old(pos) else pos == old(pos) && remaining == old(remaining))
      ensures f.ring == old(f.ring) && f.start == old(f.start) && (kept ==> old(kept))
      ensures IsSought(x, old(pos), old(TablesNow()), hit) && IsPut(x, old(Now()), hit, put, Now())
    {
      ghost var m := Now();
      NowIsOk();
      var off, mlen, c := Search();
      hit := Hit(mlen, c, TablesNow());
      put := Extra(off) + 4 <= mlen;
      if put {
        TakeNew(off, mlen);
        kept := false;
      }
      FoundLeads(x, m, hit, put, Now());
    }

    /** In front of flat bytes the byte before and the next two are the same. */
    lemma FlatAhead(hint: nat)
      requires Core() && 1 <= pos && HintOk(hint)
      ensures kept && remaining >= 2 && FlatTo(f.view, pos, end) ==> rep[0] == -1 && base[pos - 1] == base[pos] == base[pos + 1]
    {
      if kept && remaining >= 2 && FlatTo(f.view, pos, end) {
        FlatStep(base[..], f.view, pos, end, 0);
        FlatStep(base[..], f.view, pos, end, 1);
      }
    }

    /** The match at an old distance; the hint is what it was. */
    method PutOld(i: nat, ghost hint: nat) returns (put: bool)
      requires Parsing() && i < 4 && 1 <= pos && remaining >= 1 && HintOk(hint) && IsFirst(x, pos, rep, i)
      requires 0 <= pos + rep[i] && pos + rep[i] + 2 <= base.Length && Same(base[..], pos, pos + rep[i], 2)
      modifies this`tok, this`lits, this`pos, this`remaining, this`since, this`run, this`f, this`rep
      ensures Parsing() && HintOk(hint) && (if put then pos > old(pos) else pos == old(pos) && remaining == old(remaining))
      ensures f.ring == old(f.ring) && f.start == old(f.start)
      ensures old(kept && i == 0 && remaining >= 2 && FlatTo(f.view, pos, end)) ==> put && remaining == 0
      ensures ByRep(x, old(Now()), i, put, Now())
    {
      put := PutRep(i);
      if put && kept {
        AllAlike(old(rep), i);
        FlatOn(f.view, f.start, old(pos), pos - old(pos));
      }
    }

    static lemma AllAlike(rep: seq<int>, i: nat)
      requires rep == [-1, -1, -1, -1] && i < 4
      ensures Promoted(rep, i) == rep && rep[i] == -1
    {
      assert i == 0 || i == 1 || i == 2 || i == 3;
    }

    /** Does what the last match copied go on at the front of this chunk? */
    method Continue() returns (found: bool)
      requires Parsing() && f.start == pos && 1 <= remaining && Usable(cont, size) && Now() == Began(TablesNow(), pos, remaining, cont)
      modifies this`tok, this`lits, this`pos, this`remaining, this`since, this`run, this`f, this`rep, this`cont, this`kept
      ensures f.ring == old(f.ring) && f.start == old(f.start)
      ensures found <==> old(cont != 0 && AtHint(f.view, pos, end, cont) > 10)
      ensures Parsing() && !kept && run == 0
      ensures found ==> IsOpened(x, old(TablesNow()), old(pos), old(cont), Now())
      ensures if found then pos > old(pos) && 4 <= cont < size + 3
        else Now() == old(Now()) && remaining == old(remaining)
    {
      found := false;
      kept := false;
      if cont != 0 {
        var off, mlen := CompareAtHint();
        found := 10 < mlen;
        if found { TakeOver(off, mlen); }
      }
    }

    /** What goes on is a new match, with nothing before it. */
    method TakeOver(off: nat, mlen: nat)
      requires Parsing() && 1 <= remaining && Now() == Began(TablesNow(), pos, remaining, cont) && cont != 0 && Found(off, mlen)
      requires mlen == AtHint(f.view, pos, end, cont) && 10 < mlen && off == Fixed(Wrap32(pos - HintPlace(cont, size)), size)
      modifies this`tok, this`lits, this`pos, this`remaining, this`since, this`run, this`f, this`rep, this`cont
      ensures Parsing() && f.ring == old(f.ring) && f.start == old(f.start) && run == 0
      ensures IsOpened(x, old(TablesNow()), old(pos), old(cont), Now()) && pos > old(pos) && 4 <= cont < size + 3
    {
      ghost var hint, at := cont, pos;
      rep := [rep[0], -1, -1, rep[3]];
      cont := 0xffff_ffff;
      ghost var began := Now();
      TakeNew(off, mlen);
      ContinuedIs(began, hint, at, off, mlen);
    }

    lemma ContinuedIs(began: Moment, hint: U32, at: nat, off: U32, n: nat)
      requires Core() && at < end && hint != 0 && began == Began(TablesNow(), at, end - at, hint).(cont := 0xffff_ffff)
      requires n == AtHint(f.view, at, end, hint) && 10 < n && off == Fixed(Wrap32(at - HintPlace(hint, size)), size)
      requires IsNew(x, began, off, n, Now())
      ensures IsOpened(x, TablesNow(), at, hint, Now())
    {
      assert Look(Coder, 0);
      assert x.mem[..x.size] == f.view;
      OpenedByHint(x, TablesNow(), at, hint, n, Now());
    }

    /** How far the window goes on at the hint's place as this chunk begins. */
    method CompareAtHint() returns (off: nat, mlen: nat)
      requires Core() && 1 <= remaining && Usable(cont, size)
      ensures mlen > 0 ==> Found(off, mlen) && off == Fixed(Wrap32(pos - HintPlace(cont, size)), size)
      ensures mlen == AtHint(f.view, pos, end, cont)
    {
      var c := HintPlace(cont, size);
      HintInWindow(cont, size, remaining);
      var raw;
      mlen, raw := CompareOutside(c);
      off := Fixed(raw, size);
    }

    /** Unless the place lies in the chunk itself. */
    method CompareOutside(c: U32) returns (mlen: nat, raw: U32)
      requires Core() && 1 <= remaining && c + Min(remaining, Wrap32(size - c)) <= size
      ensures mlen == if c > size || (c < end && pos <= c) then 0 else Agreeing(f.view, pos, c, Min(remaining, size - c))
      ensures mlen > 0 ==> raw == Wrap32(pos - c) && Found(Fixed(raw, size), mlen)
    {
      mlen, raw := 0, 0;
      if !(c < end && pos <= c) {
        LimitIs(size, c);
        mlen := CompareUpTo(c, Min(remaining, Wrap32(size - c)));
        raw := Wrap32(pos - c);
        if mlen > 0 { CandidateFound(c, mlen, raw); }
      }
    }

    /** Byte by byte. */
    method CompareUpTo(c: nat, lim: nat) returns (mlen: nat)
      requires Core() && (c < pos || end <= c) && c + lim <= size && lim <= remaining
      ensures mlen == Agreeing(f.view, pos, c, lim) && (mlen > 0 ==> Candidate(c, mlen))
    {
      mlen := 0;
      while mlen < lim && base[pos + mlen] == base[c + mlen]
        invariant mlen <= lim && Same(base[..], pos, c, mlen)
      {
        mlen := mlen + 1;
      }
      SameFirst(base[..], pos, c, f.view, mlen);
      AgreeingIs(f.view, pos, c, lim, mlen);
      SameIsAlike(f.view, pos, c, mlen);
    }

    static lemma LimitIs(size: nat, c: nat)
      requires c <= size < 0x4000_0000
      ensures Wrap32(size - c) == size - c
    {
      WrapOf(size - c, 0);
    }

    /**
     LzEncodeChunk: the chunk that stands between `pos` and `end`, for any reader whose ring has what
     the window has outside it. Replaying the tokens writes the chunk and nothing else.
     */
    method EncodeChunk(n: nat, ghost reading: seq<Byte>) returns (ghost last: nat)
      requires Valid() && 1 <= n <= MOST_BYTES && end == pos + n <= size && Usable(cont, size)
      requires Agree(reading, base[..size], pos, end)
      modifies this`tok, this`lits, this`pos, this`remaining, this`since, this`run, this`f, this`rep, this`cont, this`kept, this`x, table, table2
      ensures Valid() && pos == end
      ensures IsChunk(reading, old(pos), base[old(pos)..end], tok, lits) && |lits| <= n
      ensures if Passes(base[..size], old(pos), end, old(cont)) then cont == HintKept(old(cont), end, size) else cont < size
      ensures x == Here()
      ensures IsCoded(x, old(TablesNow()), old(pos), old(cont), tok, TablesNow(), last)
      ensures cont == if last == 0 then 0 else HintKept(last, end, size)
    {
      ghost var hint := cont;
      var stop := ParseChunk(n, reading);
      last := EndChunk(stop, hint);
    }

    /** The last literals and the next chunk's hint. */
    method EndChunk(stop: Stop, ghost hint: nat) returns (ghost last: nat)
      requires Parsing() && remaining == 0 && !stop.Go? && HintOk(hint) && (stop.Finish? ==> cont == 0)
      requires Agree(f.ring, f.view, f.start, end)
      modifies this`lits, this`cont
      ensures Valid() && IsChunk(f.ring, f.start, base[f.start..end], tok, lits) && |lits| <= end - f.start
      ensures if kept && hint != 0 then cont == HintKept(hint, end, size) else cont < size
      ensures x == Setting(base[..], end, size, unit, tags, buckets, skip)
      ensures last == old(cont) && cont == if last == 0 then 0 else HintKept(last, end, size)
    {
      last := cont;
      KnowsIs();
      Close();
      KeepHint(stop, hint);
    }

    /** The tokens; the literals and the hint are still to come. */
    method ParseChunk(n: nat, ghost reading: seq<Byte>) returns (stop: Stop)
      requires Valid() && 1 <= n <= MOST_BYTES && end == pos + n <= size && Usable(cont, size)
      requires Agree(reading, base[..size], pos, end)
      modifies this`tok, this`lits, this`pos, this`remaining, this`since, this`run, this`f, this`rep, this`cont, this`kept, this`x, table, table2
      ensures Parsing() && remaining == 0 && !stop.Go? && HintOk(old(cont)) && (stop.Finish? ==> cont == 0)
      ensures f.ring == reading && f.start == old(pos)
      ensures kept && old(cont) != 0 <==> Passes(base[..size], old(pos), end, old(cont))
      ensures IsCoded(x, old(TablesNow()), old(pos), old(cont), tok, TablesNow(), cont)
    {
      ghost var hint, m := cont, Now();
      Begin(n, reading);
      stop := Front();
      ghost var first, front := kept, Now();
      stop := ParseAll(stop, hint);
      KeptIsPasses(f.view, f.start, end, hint, first, kept);
      NowIsOk();
      CodedIs(x, m.tables, m.pos, hint, front, Now());
    }

    static lemma KeptIsPasses(v: seq<Byte>, start: nat, end: nat, hint: U32, first: bool, last: bool)
      requires start <= end <= |v| && (first <==> 1 <= start && (hint == 0 || AtHint(v, start, end, hint) <= 10))
      requires last ==> first && FlatTo(v, start, end) && start + 2 <= end
      requires first && start + 2 <= end && FlatTo(v, start, end) ==> last
      ensures Passes(v, start, end, hint) <==> last && hint != 0
    {
      FlatIsFlatTo(v, start, end);
    }

    /** All the rest of the chunk. */
    method ParseAll(stop0: Stop, ghost hint: nat) returns (stop: Stop)
      requires Parsing() && 1 <= pos && (stop0.Go? <==> remaining > 0) && HintOk(hint) && (stop0.Finish? ==> cont == 0)
      modifies this`tok, this`lits, this`pos, this`remaining, this`since, this`run, this`f, this`rep, this`cont, this`kept, table, table2
      ensures Parsing() && remaining == 0 && !stop.Go? && HintOk(hint) && (stop.Finish? ==> cont == 0)
      ensures f.ring == old(f.ring) && f.start == old(f.start)
      ensures (kept ==> old(kept)) && (old(kept && remaining >= 2 && FlatTo(f.view, pos, end)) ==> kept)
      ensures GoesOn(x, old(Now()), Now())
    {
      stop := stop0;
      NowIsOk();
      GoesOnFrom(x, Now());
      while stop.Go?
        invariant Parsing() && 1 <= pos && (stop.Go? <==> remaining > 0) && HintOk(hint) && (stop.Finish? ==> cont == 0)
        invariant f.ring == old(f.ring) && f.start == old(f.start) && (kept ==> old(kept))
        invariant old(kept && remaining >= 2 && FlatTo(f.view, pos, end)) ==> kept && (remaining == 0 || pos == old(pos))
        invariant GoesOn(x, old(Now()), Now())
        decreases remaining
      {
        ghost var m := Now();
        stop := ParseOne(hint);
        GoesOnStep(x, old(Now()), m, Now());
      }
    }

    /** Where the last match would go on in the next chunk. */
    method KeepHint(stop: Stop, ghost hint: nat)
      requires HintOk(hint) && 1 <= size < 0x4000_0000 && pos <= size && (stop.Finish? ==> cont == 0) && !stop.Go?
      modifies this`cont
      ensures if kept && hint != 0 then cont == HintKept(hint, pos, size) else cont < size
      ensures cont == if old(cont) == 0 then 0 else HintKept(old(cont), pos, size)
    {
      if stop.AfterMatch? && cont != 0 {
        if !kept { NewHint(cont, pos, size); }
        var off := Wrap32(cont - 3);
        cont := Wrap32(pos - off + if pos < off then size else 0);
      }
    }

    static lemma NewHint(sel: nat, pos: nat, size: nat)
      requires 4 <= sel < size + 3 && pos <= size < 0x4000_0000
      ensures HintKept(sel, pos, size) < size
    {
      WrapOf(sel - 3, 0);
      WrapOf(pos - (sel - 3) + if pos < sel - 3 then size else 0, 0);
    }

    method Begin(n: nat, ghost reading: seq<Byte>)
      requires Valid() && 1 <= n <= MOST_BYTES && end == pos + n <= size && Agree(reading, base[..size], pos, end)
      modifies this`tok, this`lits, this`remaining, this`since, this`run, this`rep, this`f, this`x
      ensures Parsing() && remaining == n && Now() == Began(TablesNow(), pos, remaining, cont) && f.start == pos && f.ring == reading
    {
      tok, lits, remaining, since, run, rep := [], [], n, n, 0, [-1, -1, -1, -1];
      f := Follow(reading, base[..size], pos, end, [], Replay(reading, pos, ONES));
      LogBegins(reading, base[..size], pos, end);
      x := Setting(base[..], end, size, unit, tags, buckets, skip);
      TracksBegin(size, pos, pos, end);
    }

    /** The front of a chunk: what goes on from the one before, or the window's first byte. */
    method Front() returns (stop: Stop)
      requires Parsing() && f.start == pos && 1 <= remaining && Usable(cont, size) && Now() == Began(TablesNow(), pos, remaining, cont)
      modifies this`tok, this`lits, this`pos, this`remaining, this`since, this`run, this`f, this`rep, this`cont, this`kept
      ensures Parsing() && 1 <= pos && HintOk(old(cont)) && (stop.Go? <==> remaining > 0) && (stop.Finish? ==> cont == 0)
      ensures f.ring == old(f.ring) && f.start == old(f.start)
      ensures kept <==> 1 <= f.start && (old(cont) == 0 || AtHint(f.view, f.start, end, old(cont)) <= 10)
      ensures kept ==> pos == f.start
      ensures IsOpened(x, old(TablesNow()), old(pos), old(cont), Now())
    {
      var found := Continue();
      stop := if remaining == 0 then AfterMatch else Go;
      if !found { FreshIs(); }
      if !found && pos == 0 {
        PutNone();
        stop := if remaining == 0 then Finish else Go;
      } else if !found {
        kept := true;
        FlatIsFlatTo(f.view, pos, pos);
      }
    }

    lemma FreshIs()
      requires Core() && Now() == Began(TablesNow(), pos, remaining, cont) && remaining >= 1
      requires cont == 0 || AtHint(f.view, pos, end, cont) <= 10
      ensures IsOpened(x, TablesNow(), pos, cont, if pos == 0 then Literal(Now()) else Now())
    {
      assert Look(Coder, 0);
      assert x.mem[..x.size] == f.view;
      OpenedFreshly(x, TablesNow(), pos, cont);
    }

    /** The literals that no token takes. */
    method Close()
      requires Parsing() && remaining == 0 && Agree(f.ring, f.view, f.start, end)
      modifies this`lits
      ensures Valid() && IsChunk(f.ring, f.start, base[f.start..end], tok, lits) && |lits| <= end - f.start
    {
      var rest := base[pos - since..pos];
      assert rest == f.view[f.reader.at..end] && base[f.start..end] == f.view[f.start..end];
      LogEnds(f, tok, lits, rest);
      lits := lits + rest;
    }
  }
}
