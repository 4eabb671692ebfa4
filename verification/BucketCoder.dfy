/**
 The rank coder of one bucket: symbol set, first positions, ends and ranks through the range
 coder, the ranks' low bits beside it (BwtBucketEncoder::Encode, BwtUnpackInput::Decode).
 */
module BucketCoder {
  import opened Words
  import opened Permutations
  import opened RangeCoder
  import opened IntCoding
  import opened BitStream
  import opened RankCoding
  import opened SymbolSet
  import opened RankMachine
  import opened BucketTables
  import opened RankWalk
  import opened RankEncoder
  import opened RankDecoder

  function FreshInts(): (cells: Cells)
    ensures |cells| == INT_CELLS
  {
    seq(INT_CELLS, _ => 0x8000)
  }

  /** Everything a bucket's first state says about its tables and its walk. */
  lemma BucketFacts(d: seq<Byte>, m: Machine, used: nat)
    requires IsFirst(d, m, used) && 1 <= |d| < BLOCK_LIMIT
    ensures 1 <= used <= |d| && AreFirsts(Firsts(m, used), |d|) && Among(Identity(), 256, m.p[..used])
    ensures var w := Trace(d, m, used, 0, 0); AreEnds(w.ends, |d|) && |w.ends| == used && StepsOk(w.steps)
  {
    FirstsAreFirsts(d, m, used);
    RoomForLive(d, m, used, 0);
    TraceShape(d, m, used, 0, 0);
    FirstSymbolsDiffer(d, m, used);
    AmongAll(m.p[..used]);
    var w := Trace(d, m, used, 0, 0);
    forall i | 0 <= i < |w.steps| ensures w.steps[i].hash < 16 && w.steps[i].delta < BLOCK_LIMIT {
      assert w.steps[i] in w.steps;
    }
  }

  lemma FirstSymbolsDiffer(d: seq<Byte>, m: Machine, used: nat)
    requires Live(d, m, used, 0)
    ensures Distinct(m.p[..used])
  {
    assert Look(Steps, 0);
  }

  /** The code of a bucket, from its first state. */
  ghost function CodeFrom(d: seq<Byte>, m: Machine, used: nat): Stream
    requires IsFirst(d, m, used) && 1 <= |d| < BLOCK_LIMIT
  {
    BucketFacts(d, m, used);
    var w := Trace(d, m, used, 0, 0);
    var firsts := FirstsCode(FreshInts(), |d|, Firsts(m, used), 1);
    var ends := EndsCode(firsts.m, |d|, w.ends, 0);
    var ranks := RanksCode(FreshRanks(), w.steps);
    Stream(SetCode(Identity(), 256, |d|, m.p[..used]) + (firsts.ds + (ends.ds + ranks.ds)), ranks.raw)
  }

  /** `s` is the code of the bucket `d`. Out of sight until `Look(Codes, 0)`. */
  ghost predicate IsBucketCode(d: seq<Byte>, s: Stream) {
    1 <= |d| < BLOCK_LIMIT && forall z {:trigger Look(Codes, z)} :: Look(Codes, z) ==>
      exists m: Machine, used: nat :: IsFirst(d, m, used) && s == CodeFrom(d, m, used)
  }

  /** The pieces of a bucket's code, in the order they are coded. */
  datatype Parts = Parts(syms: seq<Byte>, keys: seq<nat>, ends: seq<nat>, list: seq<Decision>, firsts: Coded, last: seq<Decision>, ranks: Stream)

  ghost predicate ArePieces(d: seq<Byte>, m: Machine, used: nat, p: Parts) {
    && 1 <= used <= |d| < BLOCK_LIMIT && |m.p| == |m.c| == SYMBOLS && used <= SYMBOLS && IsFirst(d, m, used)
    && p.syms == m.p[..used] && Among(Identity(), 256, p.syms) && p.list == SetCode(Identity(), 256, |d|, p.syms)
    && p.keys == Firsts(m, used) && AreFirsts(p.keys, |d|) && p.firsts == FirstsCode(FreshInts(), |d|, p.keys, 1)
    && |p.firsts.m| == INT_CELLS && |p.ends| == used && AreEnds(p.ends, |d|) && p.last == EndsCode(p.firsts.m, |d|, p.ends, 0).ds
    && Following(d, m, used, 0, 0, p.ends, FreshRanks(), p.ranks)
  }

  lemma PiecesOf(d: seq<Byte>, m: Machine, used: nat) returns (p: Parts, s: Stream)
    requires IsFirst(d, m, used) && 1 <= |d| < BLOCK_LIMIT
    ensures s == CodeFrom(d, m, used) && IsBucketCode(d, s) && ArePieces(d, m, used, p)
    ensures s == Stream(p.list + (p.firsts.ds + (p.last + p.ranks.ds)), p.ranks.raw)
  {
    BucketFacts(d, m, used);
    var w := Trace(d, m, used, 0, 0);
    var firsts := FirstsCode(FreshInts(), |d|, Firsts(m, used), 1);
    p := Parts(m.p[..used], Firsts(m, used), w.ends, SetCode(Identity(), 256, |d|, m.p[..used]), firsts,
      EndsCode(firsts.m, |d|, w.ends, 0).ds, RanksCode(FreshRanks(), w.steps));
    s := CodeFrom(d, m, used);
  }

  lemma PiecesOfCode(d: seq<Byte>, s: Stream) returns (m: Machine, used: nat, p: Parts)
    requires IsBucketCode(d, s)
    ensures ArePieces(d, m, used, p)
    ensures s == Stream(p.list + (p.firsts.ds + (p.last + p.ranks.ds)), p.ranks.raw)
  {
    assert Look(Codes, 0);
    m, used :| IsFirst(d, m, used) && s == CodeFrom(d, m, used);
    var s';
    p, s' := PiecesOf(d, m, used);
  }

  // ---------------------------------------------------------------- writing

  method WriteRanks(enc: Encoder, bits: BitWriter, steps: seq<Step>)
    requires enc.Valid() && bits.Valid() && StepsOk(steps)
    modifies enc, bits
    ensures enc.Valid() && bits.Valid() && (old(bits.overflow) ==> bits.overflow)
    ensures enc.trace == old(enc.trace) + RanksCode(FreshRanks(), steps).ds
    ensures bits.trace == old(bits.trace) + RanksCode(FreshRanks(), steps).raw
  {
    var ranks := FreshRanks();
    ghost var ds, raw := enc.trace + RanksCode(ranks, steps).ds, bits.trace + RanksCode(ranks, steps).raw;
    for i := 0 to |steps|
      invariant enc.Valid() && bits.Valid() && Sized(ranks) && (old(bits.overflow) ==> bits.overflow)
      invariant enc.trace + RanksCode(ranks, steps[i..]).ds == ds
      invariant bits.trace + RanksCode(ranks, steps[i..]).raw == raw
    {
      var st := steps[i];
      RanksStep(enc.trace, bits.trace, ranks, steps[i..]);
      assert steps[i..][1..] == steps[i + 1..];
      ranks := WriteRank(enc, bits, ranks, st.hash, st.sym, st.delta);
    }
  }

  lemma RanksStep(ds: seq<Decision>, raw: seq<bool>, m: Ranks, steps: seq<Step>)
    requires Sized(m) && StepsOk(steps) && steps != []
    ensures var c := RankCode(m, steps[0].hash, steps[0].sym, steps[0].delta);
      && ds + RanksCode(m, steps).ds == ds + c.ds + RanksCode(c.m, steps[1..]).ds
      && raw + RanksCode(m, steps).raw == raw + c.raw + RanksCode(c.m, steps[1..]).raw
  {
    var c := RankCode(m, steps[0].hash, steps[0].sym, steps[0].delta);
    var rest := RanksCode(c.m, steps[1..]);
    Cat(ds, c.ds, rest.ds);
    Cat(raw, c.raw, rest.raw);
  }

  /**
   Codes a bucket into at most `cap` bytes and the raw bits; an empty result says that it did not
   fit (or that there was nothing to code).
   */
  method EncodeBucket(d: seq<Byte>, cap: nat, bits: BitWriter) returns (arith: seq<Byte>, ghost s: Stream)
    requires bits.Valid() && |d| < BLOCK_LIMIT
    modifies bits
    ensures bits.Valid() && (old(bits.overflow) ==> bits.overflow)
    ensures |arith| <= cap && (d == [] ==> arith == [])
    ensures d != [] ==> IsBucketCode(d, s) && bits.trace == old(bits.trace) + s.raw
    ensures d != [] ==> arith == if |Code(Coarse, FULL, s.ds)| <= cap then Code(Coarse, FULL, s.ds) else []
  {
    arith, s := [], Stream([], []);
    if d == [] { return; }
    var enc := new Encoder(Coarse, cap);
    s := EncodeInto(d, enc, bits);
    enc.Flush();
    if !enc.overflow { arith := enc.out; }
  }

  method EncodeInto(d: seq<Byte>, enc: Encoder, bits: BitWriter) returns (ghost s: Stream)
    requires 1 <= |d| < BLOCK_LIMIT && enc.Valid() && bits.Valid() && enc.trace == []
    modifies enc, bits
    ensures enc.Valid() && bits.Valid() && (old(bits.overflow) ==> bits.overflow)
    ensures IsBucketCode(d, s) && enc.trace == s.ds && bits.trace == old(bits.trace) + s.raw
  {
    var P, C, used := ScanSymbols(d);
    ghost var p;
    p, s := PiecesOf(d, Held(P, C), used);
    var cells := WriteTables(enc, d, P, C, used, p);
    var ends, steps := WalkBucket(d, P, C, used, p);
    WriteEnds(enc, cells, |d|, ends);
    WriteRanks(enc, bits, steps);
    Cat(p.list + p.firsts.ds, p.last, p.ranks.ds);
    Cat(p.list, p.firsts.ds, p.last + p.ranks.ds);
  }

  method WriteTables(enc: Encoder, d: seq<Byte>, P: array<Byte>, C: array<U32>, used: nat, ghost p: Parts) returns (cells: Cells)
    requires enc.Valid() && enc.trace == [] && P.Length == C.Length == SYMBOLS && ArePieces(d, Held(P, C), used, p)
    modifies enc
    ensures enc.Valid() && enc.trace == p.list + p.firsts.ds && cells == p.firsts.m
  {
    FirstSymbolsDiffer(d, Held(P, C), used);
    WriteSet(enc, |d|, P[..used]);
    assert enc.trace == p.list;
    cells := WriteFirsts(enc, FreshInts(), |d|, used, P, C, p.keys);
  }

  method WalkBucket(d: seq<Byte>, P: array<Byte>, C: array<U32>, used: nat, ghost p: Parts) returns (ends: seq<nat>, steps: seq<Step>)
    requires P.Length == C.Length == SYMBOLS && ArePieces(d, Held(P, C), used, p)
    modifies P, C
    ensures ends == p.ends && StepsOk(steps) && p.ranks == RanksCode(FreshRanks(), steps)
  {
    ends, steps := Walk(d, P, C, used);
    assert Look(Log, 0);
  }

  // ---------------------------------------------------------------- reading

  lemma SymbolCount(syms: seq<Byte>)
    requires Distinct(syms)
    ensures |syms| <= SYMBOLS
  {
    ValuesSize(syms);
    Fits(Values(syms), SYMBOLS);
  }

  /** The symbols, and the unused ones behind them. */
  method ReadSymbols(dec: Decoder, n: nat, P: array<Byte>, C: array<U32>, ghost want: seq<Byte>, ghost later: seq<Decision>)
    returns (syms: seq<Byte>)
    requires dec.Valid() && P.Length == C.Length == SYMBOLS && 1 <= n < BLOCK_LIMIT
    modifies dec, P, C
    ensures dec.Valid() && Distinct(syms) && 1 <= |syms| <= n && |syms| <= SYMBOLS
    ensures P[..] == AllSymbols(syms) && IsPerm(P[..])
    ensures forall i :: |syms| <= i < SYMBOLS ==> C[P[i]] == n + i - |syms|
    ensures Among(Identity(), 256, want) && 1 <= |want| <= n && old(dec.Ahead(SetCode(Identity(), 256, n, want) + later))
      ==> syms == want && dec.Ahead(later)
  {
    syms := ReadSet(dec, n, want, later);
    SymbolCount(syms);
    forall i | 0 <= i < |syms| { P[i] := syms[i]; }
    assert P[..|syms|] == syms;
    FillUp(n, |syms|, P, C);
  }

  /** The arrays as they are before the first run, and the ends. */
  method ReadTables(dec: Decoder, n: nat, P: array<Byte>, C: array<U32>, ghost d: seq<Byte>, ghost m: Machine, ghost used: nat, ghost p: Parts)
    returns (ok: bool, ends: seq<nat>)
    requires dec.Valid() && P.Length == C.Length == SYMBOLS && 1 <= n < BLOCK_LIMIT
    modifies dec, P, C
    ensures dec.Valid() && (ok ==> 1 <= |ends| <= SYMBOLS && forall i :: 0 <= i < |ends| ==> ends[i] < n)
    ensures |d| == n && ArePieces(d, m, used, p) && old(dec.Ahead(p.list + (p.firsts.ds + (p.last + p.ranks.ds))))
      ==> ok && Held(P, C) == m && ends == p.ends && dec.Ahead(p.ranks.ds)
  {
    var syms := ReadSymbols(dec, n, P, C, p.syms, p.firsts.ds + (p.last + p.ranks.ds));
    ok, ends := ReadNumbers(dec, n, syms, P, C, d, m, used, p);
  }

  /** First positions and ends. */
  method ReadNumbers(dec: Decoder, n: nat, syms: seq<Byte>, P: array<Byte>, C: array<U32>,
                     ghost d: seq<Byte>, ghost m: Machine, ghost used: nat, ghost p: Parts)
    returns (ok: bool, ends: seq<nat>)
    requires dec.Valid() && P.Length == C.Length == SYMBOLS && n < BLOCK_LIMIT
    requires Distinct(syms) && 1 <= |syms| <= n && |syms| <= SYMBOLS && P[..] == AllSymbols(syms) && IsPerm(P[..])
    requires forall i :: |syms| <= i < SYMBOLS ==> C[P[i]] == n + i - |syms|
    modifies dec, C
    ensures dec.Valid() && (ok ==> 1 <= |ends| <= SYMBOLS && forall i :: 0 <= i < |ends| ==> ends[i] < n)
    ensures |d| == n && ArePieces(d, m, used, p) && syms == p.syms && old(dec.Ahead(p.firsts.ds + (p.last + p.ranks.ds)))
      ==> ok && Held(P, C) == m && ends == p.ends && dec.Ahead(p.ranks.ds)
  {
    var cells;
    ok, cells := ReadKeys(dec, n, syms, P, C, d, m, used, p);
    if !ok { return false, []; }
    ok, ends := ReadEnds(dec, cells, n, |syms|, p.ends, p.ranks.ds);
  }

  method ReadKeys(dec: Decoder, n: nat, syms: seq<Byte>, P: array<Byte>, C: array<U32>,
                  ghost d: seq<Byte>, ghost m: Machine, ghost used: nat, ghost p: Parts)
    returns (ok: bool, cells: Cells)
    requires dec.Valid() && P.Length == C.Length == SYMBOLS && n < BLOCK_LIMIT
    requires Distinct(syms) && 1 <= |syms| <= n && |syms| <= SYMBOLS && P[..] == AllSymbols(syms) && IsPerm(P[..])
    requires forall i :: |syms| <= i < SYMBOLS ==> C[P[i]] == n + i - |syms|
    modifies dec, C
    ensures dec.Valid() && |cells| == INT_CELLS
    ensures |d| == n && ArePieces(d, m, used, p) && syms == p.syms && old(dec.Ahead(p.firsts.ds + (p.last + p.ranks.ds)))
      ==> ok && Held(P, C) == m && cells == p.firsts.m && dec.Ahead(p.last + p.ranks.ds)
  {
    ghost var coded := |d| == n && ArePieces(d, m, used, p) && syms == p.syms && dec.Ahead(p.firsts.ds + (p.last + p.ranks.ds));
    ghost var filled := C[..];
    ok, cells := ReadPositions(dec, n, syms, C, p.keys, p.last + p.ranks.ds);
    if coded { Rebuilt(d, m, used, P[..], filled, C[..], p.keys); }
  }

  /** The symbols' entries are the keys, the others as they were; out of sight until `Look(Spot, 0)`. */
  ghost predicate Entered(syms: seq<Byte>, keys: seq<nat>, before: seq<U32>, after: seq<U32>) {
    && |before| == |after| == SYMBOLS && |keys| == |syms|
    && forall z {:trigger Look(Spot, z)} :: Look(Spot, z) ==>
      (forall s: Byte :: s !in syms ==> after[s] == before[s]) && forall i :: 0 <= i < |syms| ==> after[syms[i]] == keys[i]
  }

  method ReadPositions(dec: Decoder, n: nat, syms: seq<Byte>, C: array<U32>, ghost keys: seq<nat>, ghost later: seq<Decision>)
    returns (ok: bool, cells: Cells)
    requires dec.Valid() && C.Length == SYMBOLS && Distinct(syms) && 1 <= |syms| <= SYMBOLS && n < BLOCK_LIMIT
    modifies dec, C
    ensures dec.Valid() && |cells| == INT_CELLS
    ensures AreFirsts(keys, n) && |keys| == |syms| && old(dec.Ahead(FirstsCode(FreshInts(), n, keys, 1).ds + later))
      ==> ok && cells == FirstsCode(FreshInts(), n, keys, 1).m && dec.Ahead(later) && Entered(syms, keys, old(C[..]), C[..])
  {
    ok, cells := ReadFirsts(dec, FreshInts(), n, syms, C, keys, later);
  }

  lemma Rebuilt(d: seq<Byte>, m: Machine, used: nat, P: seq<Byte>, filled: seq<U32>, C: seq<U32>, keys: seq<nat>)
    requires IsFirst(d, m, used) && |P| == |filled| == |C| == SYMBOLS && P == AllSymbols(m.p[..used]) && IsPerm(P)
    requires forall i :: used <= i < SYMBOLS ==> filled[P[i]] == |d| + i - used
    requires keys == Firsts(m, used) && Entered(m.p[..used], keys, filled, C)
    ensures Machine(P, C) == m
  {
    assert Look(Spot, 0);
    var m', syms := Machine(P, C), m.p[..used];
    forall i | used <= i < SYMBOLS ensures Key(m', i) == |d| + i - used {
      assert P[i] == AbsentFrom(syms, 0)[i - used];
    }
    forall i | 0 <= i < used ensures Key(m', i) == Key(m, i) {
      assert P[i] == syms[i];
    }
    FirstIsKnown(d, m, used, m');
  }

  /**
   Decodes `n` bytes. On the code of a bucket, zeros past its end, it succeeds and gives the
   bucket back.
   */
  method DecodeBucket(input: seq<Byte>, n: nat, bits: BitReader, ghost d: seq<Byte>, ghost s: Stream) returns (ok: bool, out: seq<Byte>)
    requires bits.Valid() && 1 <= n < BLOCK_LIMIT
    modifies bits
    ensures bits.Valid() && |out| <= n
    ensures |d| == n && IsBucketCode(d, s) && SameStream(input, Code(Coarse, FULL, s.ds)) && old(bits.Ahead(s.raw))
      ==> ok && out == d
  {
    var dec := new Decoder(Coarse, input, s.ds);
    ghost var coded := |d| == n && IsBucketCode(d, s) && dec.Ahead(s.ds) && bits.Ahead(s.raw);
    ghost var m, used, p := Machine([], []), 0, Parts([], [], [], [], Coded([], []), [], Stream([], []));
    if coded { m, used, p := PiecesOfCode(d, s); }
    var P, C := new Byte[SYMBOLS](_ => 0), new U32[SYMBOLS](_ => 0);
    var ends;
    ok, ends := ReadTables(dec, n, P, C, d, m, used, p);
    if !ok { return false, []; }
    ok, out := DecodeRuns(dec, bits, P, C, n, ends, d, p.ranks);
  }
}
