/** The decoder's half of the rank machine: the move back by a coded delta, and the run loop (BwtUnpackInput::Decode). */
module RankDecoder {
  import opened Words
  import opened Permutations
  import opened RangeCoder
  import opened IntCoding
  import opened BitStream
  import opened RankCoding
  import opened RankMachine
  import opened BucketTables
  import opened RankWalk
  import opened RankEncoder

  // ---------------------------------------------------------------- moving back

  /**
   The arrays while the front symbol is on its way: it has passed the ranks below `k`, whose
   symbols moved up by one. Out of sight until `Look(Spot, 0)`.
   */
  ghost predicate Passing(P: seq<Byte>, C: seq<U32>, m: Machine, k: nat) {
    && |P| == |C| == |m.p| == |m.c| == SYMBOLS && 1 <= k < SYMBOLS
    && forall z {:trigger Look(Spot, z)} :: Look(Spot, z) ==>
      Rising(m) && C == m.c && (forall i :: 0 <= i < k ==> P[i] == m.p[i + 1]) && forall i :: k < i < SYMBOLS ==> P[i] == m.p[i]
  }

  lemma PassingKey(P: seq<Byte>, C: seq<U32>, m: Machine, k: nat, j: nat)
    requires Passing(P, C, m, k) && k < j < SYMBOLS
    ensures C[P[j]] == Key(m, j)
  {
    assert Look(Spot, 0);
  }

  /** `count` more ranks passed. */
  lemma PassingOn(P: seq<Byte>, C: seq<U32>, m: Machine, k: nat, count: nat, P': seq<Byte>)
    requires Passing(P, C, m, k) && k + count < SYMBOLS && |P'| == SYMBOLS
    requires ClosedUp(P, k, count, P')
    ensures Passing(P', C, m, k + count)
  {
    assert Look(Spot, 0);
  }

  /** The entries from `k` on have moved up by one, `count` of them. */
  ghost predicate ClosedUp(P: seq<Byte>, k: nat, count: nat, P': seq<Byte>)
    requires |P| == |P'| == SYMBOLS && k + count < SYMBOLS
  {
    && (forall i :: 0 <= i < k || k + count <= i < SYMBOLS ==> P'[i] == P[i])
    && forall i :: k <= i < k + count ==> P'[i] == P[i + 1]
  }

  lemma StepsPassing(P: seq<Byte>, C: seq<U32>, m: Machine, ub: nat, k: nat, j: nat)
    requires Passing(P, C, m, k) && k <= j < SYMBOLS && (j > k ==> ub + j - 1 >= Key(m, j))
    ensures DecoderWalk(m, ub, k) == DecoderWalk(m, ub, j)
  {
    assert Look(Spot, 0);
    StepsPass(m, ub, k, j);
  }

  lemma Landed(P: seq<Byte>, C: seq<U32>, m: Machine, k: nat, next: U32)
    requires Passing(P, C, m, k)
    ensures Machine(P[k := m.p[0]], C[m.p[0] := next]) == Inserted(m, k, next)
  {
    assert Look(Spot, 0);
    assert P[k := m.p[0]] == m.p[1..k + 1] + [m.p[0]] + m.p[k + 1..];
  }

  /** Moves the entries from `k` on up by `count`. */
  method Close(P: array<Byte>, k: nat, count: nat)
    requires P.Length == SYMBOLS && k + count < SYMBOLS
    modifies P
    ensures ClosedUp(old(P[..]), k, count, P[..])
  {
    var p := P[..];
    forall i | k <= i < k + count { P[i] := p[i + 1]; }
  }

  /**
   The front symbol moves back to the rank that a coded delta leads to. Its threshold grows with
   every symbol passed; eight are passed at once where the farthest may be.
   */
  method MoveBack(P: array<Byte>, C: array<U32>, delta: U32, ghost m: Machine, ghost next: nat, ghost rank: nat)
    requires P.Length == C.Length == SYMBOLS
    modifies P, C
    ensures old(Held(P, C)) == m && Leads(m, next, rank, delta) ==> Held(P, C) == Inserted(m, rank, next)
  {
    ghost var sound := Held(P, C) == m && Leads(m, next, rank, delta);
    var last := P[0];
    P[0] := P[1];
    var ub := Word(delta + C[P[1]]);
    if sound { Lift(m, next, rank, delta, P[..], C[..]); }
    var k := FindRank(P, C, ub, m, sound);
    var newC := Word(ub + k);
    ghost var p, c := P[..], C[..];
    if sound { Landed(p, c, m, k, newC); }
    P[k] := last;
    C[last] := newC;
    assert P[..] == p[k := last] && C[..] == c[last := newC];
  }

  /** The delta that was coded for rank `rank`; its meaning is out of sight until `Look(Spot, 0)`. */
  ghost predicate Leads(m: Machine, next: nat, rank: nat, delta: nat) {
    && |m.p| == |m.c| == SYMBOLS && rank < SYMBOLS && RunEnd(m) + rank + delta == next < BLOCK_LIMIT
    && forall z {:trigger Look(Spot, z)} :: Look(Spot, z) ==>
      Rising(m) && IsRankOf(m, next, rank) && forall i :: 0 <= i < SYMBOLS ==> Key(m, i) != next
  }

  /** With the front symbol out, the walk from the coded delta ends at its rank. */
  lemma Lift(m: Machine, next: nat, rank: nat, delta: U32, P: seq<Byte>, C: seq<U32>)
    requires Leads(m, next, rank, delta)
    requires C == m.c && |P| == SYMBOLS && P == m.p[0 := m.p[1]]
    ensures Passing(P, C, m, 1) && delta + C[P[1]] == next - rank && DecoderWalk(m, next - rank, 1) == rank
  {
    assert Look(Spot, 0);
    DeltaIsNatural(m, next, rank);
    RankIsFixedPoint(m, next, rank);
  }

  method FindRank(P: array<Byte>, C: array<U32>, ub: U32, ghost m: Machine, ghost sound: bool) returns (k: nat)
    requires P.Length == C.Length == SYMBOLS
    requires sound ==> Passing(P[..], C[..], m, 1) && ub < BLOCK_LIMIT
    modifies P
    ensures 1 <= k < SYMBOLS
    ensures sound ==> Passing(P[..], C[..], m, k) && k == DecoderWalk(m, ub, 1)
  {
    var newC: nat := Word(ub + 8);
    k := 1;
    while k + 8 <= 255 && newC >= C[P[k + 8]] && k != 249
      invariant 1 <= k <= 249 && k % 8 == 1
      invariant sound ==> newC == ub + k + 7 && Passing(P[..], C[..], m, k) && DecoderWalk(m, ub, k) == DecoderWalk(m, ub, 1)
      decreases 255 - k
    {
      ghost var p := P[..];
      if sound {
        PassingKey(p, C[..], m, k, k + 8);
        StepsPassing(p, C[..], m, ub, k, k + 8);
      }
      Close(P, k, 8);
      if sound { PassingOn(p, C[..], m, k, 8, P[..]); }
      k, newC := k + 8, Word(newC + 8);
    }
    newC := Word(ub + k);
    while k + 1 <= 255 && newC >= C[P[k + 1]] && k != 255
      invariant 1 <= k < SYMBOLS
      invariant sound ==> newC == ub + k && Passing(P[..], C[..], m, k) && DecoderWalk(m, ub, k) == DecoderWalk(m, ub, 1)
      decreases 255 - k
    {
      ghost var p := P[..];
      if sound { PassingKey(p, C[..], m, k, k + 1); }
      P[k] := P[k + 1];
      if sound { PassingOn(p, C[..], m, k, 1, P[..]); }
      k, newC := k + 1, Word(newC + 1);
    }
    if sound && k < 255 { PassingKey(P[..], C[..], m, k, k + 1); }
  }

  // ---------------------------------------------------------------- the ranks of a walk

  ghost predicate StepsOk(steps: seq<Step>) {
    forall i :: 0 <= i < |steps| ==> steps[i].hash < 16 && steps[i].delta < BLOCK_LIMIT
  }

  /** Decisions and raw bits of the ranks, one behind the other. */
  datatype Stream = Stream(ds: seq<Decision>, raw: seq<bool>)

  function RanksCode(m: Ranks, steps: seq<Step>): Stream
    requires Sized(m) && StepsOk(steps)
    decreases |steps|
  {
    if steps == [] then Stream([], [])
    else
      var c := RankCode(m, steps[0].hash, steps[0].sym, steps[0].delta);
      var rest := RanksCode(c.m, steps[1..]);
      Stream(c.ds + rest.ds, c.raw + rest.raw)
  }

  // ---------------------------------------------------------------- following the walk

  /**
   The decoder is where the walk stands: `tail` are the runs at which symbols still run out, and
   `s` is the code of the ranks ahead. Out of sight until `Look(Log, 0)`.
   */
  ghost predicate Following(d: seq<Byte>, m: Machine, used: nat, pos: nat, runs: nat, tail: seq<nat>, ranks: Ranks, s: Stream) {
    && Sized(ranks) && |tail| == used <= SYMBOLS && Live(d, m, used, pos) && |d| < BLOCK_LIMIT
    && forall z {:trigger Look(Log, z)} :: Look(Log, z) ==>
      var w := Trace(d, m, used, pos, runs);
      tail == w.ends && StepsOk(w.steps) && s == RanksCode(ranks, w.steps)
  }

  lemma FollowRun(d: seq<Byte>, m: Machine, used: nat, pos: nat, runs: nat, tail: seq<nat>, ranks: Ranks, s: Stream)
    requires Following(d, m, used, pos, runs, tail, ranks, s) && used > 0
    ensures Key(m, 0) == pos < RunEnd(m) <= |d|
    ensures d[pos..RunEnd(m)] == seq(RunEnd(m) - pos, _ => m.p[0])
    ensures Next(d, m) == |d| && used == 1 ==> RunEnd(m) == |d|
  {
    assert Look(Steps, 0);
    RunIsOneSymbol(d, m, used, pos);
  }

  lemma FollowEnds(d: seq<Byte>, m: Machine, used: nat, pos: nat, runs: nat, tail: seq<nat>, ranks: Ranks, s: Stream)
    requires Following(d, m, used, pos, runs, tail, ranks, s) && used > 0 && RunEnd(m) <= |d|
    ensures runs <= tail[0] && (tail[0] == runs <==> Next(d, m) == |d|)
  {
    assert Look(Log, 0);
    RunEnds(d, m, used, pos);
    var (m', used') := Advanced(d, m, used, pos);
    TraceShape(d, m', used', RunEnd(m), runs + 1);
  }

  lemma FollowDeath(d: seq<Byte>, m: Machine, used: nat, pos: nat, runs: nat, tail: seq<nat>, ranks: Ranks, s: Stream, m': Machine)
    requires Following(d, m, used, pos, runs, tail, ranks, s) && used > 0 && RunEnd(m) <= |d| && Next(d, m) == |d|
    requires m' == Died(m, |d|, used - 1)
    ensures Following(d, m', used - 1, RunEnd(m), runs + 1, tail[1..], ranks, s)
    ensures used > 1 ==> tail[1] > runs
  {
    assert Look(Log, 0);
    assert Advanced(d, m, used, pos) == (m', used - 1);
    var w := Trace(d, m', used - 1, RunEnd(m), runs + 1);
    assert ([runs] + w.ends)[1..] == w.ends;
    TraceShape(d, m', used - 1, RunEnd(m), runs + 1);
  }

  /** The rank ahead, and what follows it. */
  lemma FollowReturn(d: seq<Byte>, m: Machine, used: nat, pos: nat, runs: nat, tail: seq<nat>, ranks: Ranks, s: Stream)
    returns (k: nat, step: Step, rest: Stream)
    requires Following(d, m, used, pos, runs, tail, ranks, s) && used > 0 && RunEnd(m) <= |d| && Next(d, m) < |d|
    ensures step.hash == HashOf(m) < 16 && step.sym == m.p[0] && step.delta < |d|
    ensures Leads(m, Next(d, m), k, step.delta)
    ensures var c := RankCode(ranks, step.hash, step.sym, step.delta);
      && s.ds == c.ds + rest.ds && s.raw == c.raw + rest.raw
      && Following(d, Inserted(m, k, Next(d, m)), used, RunEnd(m), runs + 1, tail, c.m, rest)
  {
    assert Look(Log, 0);
    assert Look(Steps, 0);
    k := LandingRank(d, m, used, pos);
    SecondIsBefore(d, m, used, pos);
    var m' := Inserted(m, k, Next(d, m));
    assert Advanced(d, m, used, pos) == (m', used);
    var w := Trace(d, m', used, RunEnd(m), runs + 1);
    step := Step(Next(d, m) - RunEnd(m) - k, HashOf(m), m.p[0]);
    TraceShape(d, m', used, RunEnd(m), runs + 1);
    assert ([step] + w.steps)[1..] == w.steps;
    assert StepsOk(w.steps) by {
      forall i | 0 <= i < |w.steps| ensures w.steps[i].hash < 16 && w.steps[i].delta < BLOCK_LIMIT {
        assert w.steps[i] in w.steps;
      }
    }
    rest := RanksCode(RankCode(ranks, step.hash, step.sym, step.delta).m, w.steps);
  }

  // ---------------------------------------------------------------- the run loop

  /**
   Expands the runs, one symbol after the other, until all symbols have run out. On the code of a
   bucket's walk it gives the bucket back; whatever the input, no more than `n` bytes come out.
   */
  method DecodeRuns(dec: Decoder, bits: BitReader, P: array<Byte>, C: array<U32>, n: nat, ends: seq<nat>,
                    ghost d: seq<Byte>, ghost s0: Stream)
    returns (ok: bool, out: seq<Byte>)
    requires dec.Valid() && bits.Valid() && P.Length == C.Length == SYMBOLS && n < BLOCK_LIMIT
    requires 1 <= |ends| <= SYMBOLS && forall i :: 0 <= i < |ends| ==> ends[i] < n
    modifies dec, bits, P, C
    ensures dec.Valid() && bits.Valid() && |out| <= n
    ensures |d| == n && old(Following(d, Held(P, C), |ends|, 0, 0, ends, FreshRanks(), s0)) && old(dec.Ahead(s0.ds)) && old(bits.Ahead(s0.raw))
      ==> ok && out == d
  {
    ghost var coded := |d| == n && Following(d, Held(P, C), |ends|, 0, 0, ends, FreshRanks(), s0) && dec.Ahead(s0.ds) && bits.Ahead(s0.raw);
    var ranks, used, bi: nat, countdown := FreshRanks(), |ends|, 0, Word(ends[0] + 1);
    ghost var runs: nat, s := 0, s0;
    out := [];
    while true
      invariant dec.Valid() && bits.Valid() && Sized(ranks) && |out| <= n && 0 < used && bi + used == |ends|
      invariant coded ==> Following(d, Held(P, C), used, |out|, runs, ends[bi..], ranks, s) && dec.Ahead(s.ds) && bits.Ahead(s.raw)
      invariant coded ==> out == d[..|out|] && countdown + runs == ends[bi] + 1
      decreases n - |out|
    {
      ghost var m, pos := Held(P, C), |out|;
      if coded {
        FollowRun(d, m, used, pos, runs, ends[bi..], ranks, s);
        FollowEnds(d, m, used, pos, runs, ends[bi..], ranks, s);
      }
      var sym, start: int, end: int := P[0], C[P[0]], C[P[1]];
      var numRle := Word(end - start);
      if numRle == 0 || numRle > n - |out| { return false, out; }
      out := out + seq(numRle, _ => sym);
      assert coded ==> |out| == RunEnd(m) && out == d[..|out|];
      countdown := Word(countdown as int - 1);
      if countdown == 0 {
        used := used - 1;
        if used == 0 { break; }
        var last: int, next: int := ends[bi], ends[bi + 1];
        countdown := Word(next - last);
        MoveUp(P, C, n, used);
        if coded { FollowDeath(d, m, used + 1, pos, runs, ends[bi..], ranks, s, Held(P, C)); }
        assert ends[bi..][1..] == ends[bi + 1..];
        bi := bi + 1;
      } else {
        ok, ranks, s := DecodeRank(dec, bits, P, C, n, ranks, coded, d, used, pos, runs, ends[bi..], s);
        if !ok { return false, out; }
      }
      runs := runs + 1;
    }
    ok := true;
  }

  /** Reads the rank of the front symbol and moves it there. */
  method DecodeRank(dec: Decoder, bits: BitReader, P: array<Byte>, C: array<U32>, n: nat, ranks0: Ranks,
                    ghost coded: bool, ghost d: seq<Byte>, ghost used: nat, ghost pos: nat, ghost runs: nat, ghost tail: seq<nat>, ghost s: Stream)
    returns (ok: bool, ranks: Ranks, ghost rest: Stream)
    requires dec.Valid() && bits.Valid() && P.Length == C.Length == SYMBOLS && Sized(ranks0)
    requires coded ==> |d| == n && used > 0 && Following(d, Held(P, C), used, pos, runs, tail, ranks0, s)
    requires coded ==> RunEnd(Held(P, C)) <= |d| && Next(d, Held(P, C)) < |d| && dec.Ahead(s.ds) && bits.Ahead(s.raw)
    modifies dec, bits, P, C
    ensures dec.Valid() && bits.Valid() && Sized(ranks)
    ensures coded ==> ok && Following(d, Held(P, C), used, RunEnd(old(Held(P, C))), runs + 1, tail, ranks, rest)
    ensures coded ==> dec.Ahead(rest.ds) && bits.Ahead(rest.raw)
  {
    ghost var m := Held(P, C);
    ghost var k, step := 0, Step(0, 0, 0);
    rest := Stream([], []);
    if coded { k, step, rest := FollowReturn(d, m, used, pos, runs, tail, ranks0, s); }
    var hash := Hash(C[P[0]], C[P[1]], C[P[2]], C[P[3]], C[P[4]]);
    assert hash == HashOf(m);
    var delta;
    ok, delta, ranks := ReadRank(dec, bits, ranks0, hash, P[0], n, step.delta, rest.ds, rest.raw);
    if ok {
      MoveBack(P, C, delta, m, if coded then Next(d, m) else 0, k);
    }
  }
}
