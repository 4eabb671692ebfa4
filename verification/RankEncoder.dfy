/** The encoder's half of the rank machine: BwtBucketEncoder's scan, cursors, Reinsert and walk. */
module RankEncoder {
  import opened Words
  import opened Permutations
  import opened StableSort
  import opened BwtTable
  import opened RankCoding
  import opened RankMachine
  import opened BucketTables
  import opened RankWalk

  /** The machine that two arrays hold. */
  function Held(P: array<Byte>, C: array<U32>): (m: Machine)
    requires P.Length == C.Length == SYMBOLS
    reads P, C
    ensures |m.p| == |m.c| == SYMBOLS
  {
    Machine(P[..], C[..])
  }

  /** The scan's arrays, out of sight until `Look(Spot, 0)`. */
  ghost predicate Scanning(d: seq<Byte>, i: nat, used: nat, p: seq<Byte>, c: seq<U32>, seen: seq<bool>) {
    && |p| == |c| == |seen| == SYMBOLS && used <= SYMBOLS && i <= |d|
    && forall z {:trigger Look(Spot, z)} :: Look(Spot, z) ==> Scanned(d, i, p[..used], c) && IsTaken(seen, p[..used])
  }

  lemma ScanNext(d: seq<Byte>, i: nat, used: nat, p: seq<Byte>, c: seq<U32>, seen: seq<bool>)
    requires Scanning(d, i, used, p, c, seen) && i < |d| < BLOCK_LIMIT
    ensures var s := d[i];
      if seen[s] then Scanning(d, i + 1, used, p, c, seen)
      else used < SYMBOLS && Scanning(d, i + 1, used + 1, p[used := s], c[s := Wrap32(i)], seen[s := true])
  {
    assert Look(Spot, 0);
    var s := d[i];
    ScanOne(d, i, p[..used], c);
    if !seen[s] {
      RoomForOne(p[..used], s);
      var p' := p[used := s];
      assert p'[..used + 1] == p[..used] + [s];
    }
  }

  /** The symbol set with its first positions, and the unused symbols behind. */
  method ScanSymbols(d: seq<Byte>) returns (P: array<Byte>, C: array<U32>, used: nat)
    requires 1 <= |d| < BLOCK_LIMIT
    ensures P.Length == C.Length == SYMBOLS && fresh(P) && fresh(C)
    ensures used <= SYMBOLS && IsFirst(d, Held(P, C), used)
  {
    P, C := new Byte[SYMBOLS](_ => 0), new U32[SYMBOLS](_ => 0);
    var seen := new bool[SYMBOLS](_ => false);
    used := 0;
    for i := 0 to |d|
      invariant Scanning(d, i, used, P[..], C[..], seen[..])
    {
      var c := d[i];
      ScanNext(d, i, used, P[..], C[..], seen[..]);
      if !seen[c] {
        ghost var p0, c0, s0 := P[..], C[..], seen[..];
        seen[c] := true;
        C[c] := i;
        P[used] := c;
        assert P[..] == p0[used := c] && C[..] == c0[c := Wrap32(i)] && seen[..] == s0[c := true];
        used := used + 1;
      }
    }
    FillScanned(d, P, C, used, seen[..]);
  }

  method FillScanned(d: seq<Byte>, P: array<Byte>, C: array<U32>, used: nat, ghost seen: seq<bool>)
    requires 1 <= |d| < BLOCK_LIMIT && P.Length == C.Length == SYMBOLS && Scanning(d, |d|, used, P[..], C[..], seen)
    modifies P, C
    ensures IsFirst(d, Held(P, C), used)
  {
    ghost var p, c := P[..], C[..];
    ScannedAreDistinct(d, used, p, c, seen);
    FillUp(|d|, used, P, C);
    FilledIsFirst(d, used, p, c, seen, Held(P, C));
  }

  lemma ScannedAreDistinct(d: seq<Byte>, used: nat, p: seq<Byte>, c: seq<U32>, seen: seq<bool>)
    requires Scanning(d, |d|, used, p, c, seen)
    ensures Distinct(p[..used])
  {
    assert Look(Spot, 0);
  }

  lemma FilledIsFirst(d: seq<Byte>, used: nat, p: seq<Byte>, c: seq<U32>, seen: seq<bool>, m: Machine)
    requires d != [] && Scanning(d, |d|, used, p, c, seen)
    requires |m.p| == |m.c| == SYMBOLS && m.p == AllSymbols(p[..used]) && IsPerm(m.p)
    requires forall i :: 0 <= i < used ==> Key(m, i) == c[p[i]]
    requires forall i :: used <= i < SYMBOLS ==> Key(m, i) == |d| + i - used
    ensures IsFirst(d, m, used)
  {
    assert Look(Spot, 0);
    ScannedIsFirst(d, p[..used], c, m);
  }

  lemma RoomForOne(syms: seq<Byte>, c: Byte)
    requires Distinct(syms) && c !in syms
    ensures |syms| < SYMBOLS
  {
    var all := syms + [c];
    ValuesSize(all);
    Fits(Values(all), SYMBOLS);
  }

  // ---------------------------------------------------------------- the cursors

  /** Where each symbol's positions lie in the stable order of the data. */
  lemma RowsOf(d: seq<Byte>, occ: seq<nat>, c: seq<nat>, s: Byte, k: nat)
    requires IsStable(d, occ) && IsCumulative(d, c) && forall k :: 0 <= k < |d| ==> k == Place(d, occ[k])
    requires k < |d|
    ensures c[s] <= k < c[s + 1] <==> d[occ[k]] == s
    ensures c[s + 1] <= |d|
  {
    var b: nat := d[occ[k]];
    PlaceIn(d, occ[k], b);
    LessMonotone(d, s + 1, b, |d|);
    LessMonotone(d, b + 1, s, |d|);
    LessMonotone(d, s + 1, 256, |d|);
  }

  /** Nothing a cursor has passed is at or behind `pos`. */
  ghost predicate Passed(occ: seq<nat>, c: seq<nat>, cur: seq<nat>, pos: nat) {
    |c| == 257 && |cur| == 256 && forall s: Byte :: RowPassed(occ, c, cur[s], s, pos)
  }

  ghost predicate RowPassed(occ: seq<nat>, c: seq<nat>, k: nat, s: Byte, pos: nat)
    requires |c| == 257
  {
    c[s] <= k <= c[s + 1] <= |occ| && forall i :: c[s] <= i < k ==> occ[i] < pos
  }

  /** An index and its cursors, out of sight until `Look(Spot, 0)`. */
  ghost predicate Cursors(d: seq<Byte>, occ: seq<nat>, c: seq<nat>, cur: seq<nat>, pos: nat) {
    |cur| == 256 && forall z {:trigger Look(Spot, z)} :: Look(Spot, z) ==> Indexed(d, occ, c) && Passed(occ, c, cur, pos)
  }

  ghost predicate Indexed(d: seq<Byte>, occ: seq<nat>, c: seq<nat>) {
    IsStable(d, occ) && IsCumulative(d, c) && forall k :: 0 <= k < |d| ==> k == Place(d, occ[k])
  }

  /** The next position from `pos` on that holds `sym`: queries with rising positions need one pass in all. */
  method NextOccurrence(d: seq<Byte>, occ: seq<nat>, c: seq<nat>, cur: array<nat>, sym: Byte, pos: nat, ghost before: nat) returns (next: nat)
    requires before <= pos <= |d| && Cursors(d, occ, c, cur[..], before)
    modifies cur
    ensures Cursors(d, occ, c, cur[..], pos) && next == NextAt(d, sym, pos)
  {
    assert Look(Spot, 0);
    var k, stop := cur[sym], c[sym + 1];
    assert RowPassed(occ, c, cur[..][sym], sym, before);
    while k < stop && occ[k] < pos
      invariant c[sym] <= k <= stop
      invariant forall i :: c[sym] <= i < k ==> occ[i] < pos
    {
      k := k + 1;
    }
    ghost var was := cur[..];
    cur[sym] := k;
    next := if k < stop then occ[k] else |d|;
    PassedOn(occ, c, was, before, sym, k, pos);
    assert cur[..] == was[sym := k];
    CursorFinds(d, occ, c, sym, k, pos);
  }

  lemma PassedOn(occ: seq<nat>, c: seq<nat>, cur: seq<nat>, before: nat, sym: Byte, k: nat, pos: nat)
    requires Passed(occ, c, cur, before) && before <= pos && RowPassed(occ, c, k, sym, pos)
    ensures Passed(occ, c, cur[sym := k], pos)
  {
    var cur' := cur[sym := k];
    forall s: Byte ensures RowPassed(occ, c, cur'[s], s, pos) {
      assert RowPassed(occ, c, cur[s], s, before);
    }
  }

  lemma CursorFinds(d: seq<Byte>, occ: seq<nat>, c: seq<nat>, sym: Byte, k: nat, pos: nat)
    requires Indexed(d, occ, c) && c[sym] <= k <= c[sym + 1] <= |d| && pos <= |d|
    requires forall i :: c[sym] <= i < k ==> occ[i] < pos
    requires k < c[sym + 1] ==> occ[k] >= pos
    ensures NextAt(d, sym, pos) == if k < c[sym + 1] then occ[k] else |d|
  {
    var r := if k < c[sym + 1] then occ[k] else |d|;
    if k < c[sym + 1] { RowsOf(d, occ, c, sym, k); }
    forall i | pos <= i < r ensures d[i] != sym {
      if d[i] == sym { RowFrom(d, occ, c, sym, k, i); }
    }
    NextAtIs(d, sym, pos, r);
  }

  /** A position of `sym` has its row among the symbol's rows, in the order of positions. */
  lemma RowFrom(d: seq<Byte>, occ: seq<nat>, c: seq<nat>, sym: Byte, k: nat, i: nat)
    requires Indexed(d, occ, c) && c[sym] <= k <= c[sym + 1] <= |d| && i < |d| && d[i] == sym
    ensures c[sym] <= Place(d, i) < c[sym + 1] && occ[Place(d, i)] == i
    ensures k <= Place(d, i) ==> k < c[sym + 1] && occ[k] <= i
  {
    var row := Place(d, i);
    PlaceIn(d, i, sym);
    RowHolds(d, occ, i);
    if k < row { RowsOf(d, occ, c, sym, k); }
  }

  lemma RowHolds(d: seq<Byte>, occ: seq<nat>, i: nat)
    requires IsStable(d, occ) && (forall k :: 0 <= k < |d| ==> k == Place(d, occ[k])) && i < |d|
    ensures Place(d, i) < |d| && occ[Place(d, i)] == i
  {
    var k := Onto(occ, i);
  }

  // ---------------------------------------------------------------- Reinsert

  /** The arrays while a symbol is out: its slot in front already holds the next one. */
  ghost predicate Lifted(P: seq<Byte>, C: seq<U32>, m: Machine) {
    && |P| == |C| == |m.p| == |m.c| == SYMBOLS
    && forall z {:trigger Look(Spot, z)} :: Look(Spot, z) ==>
      Rising(m) && C == m.c && forall i :: 1 <= i < SYMBOLS ==> P[i] == m.p[i]
  }

  lemma LiftedKey(P: seq<Byte>, C: seq<U32>, m: Machine, i: nat)
    requires Lifted(P, C, m) && 1 <= i < SYMBOLS
    ensures C[P[i]] == Key(m, i)
  {
    assert Look(Spot, 0);
  }

  lemma StepsLifted(P: seq<Byte>, C: seq<U32>, m: Machine, ub: nat, k: nat, j: nat)
    requires Lifted(P, C, m) && 1 <= k <= j < SYMBOLS && (j > k ==> ub + j - 1 >= Key(m, j))
    ensures DecoderWalk(m, ub, k) == DecoderWalk(m, ub, j)
  {
    assert Look(Spot, 0);
    StepsPass(m, ub, k, j);
  }

  /** The rank the decoder will find, in steps of eight and then of one, without moving anything. */
  method DecoderRank(P: array<Byte>, C: array<U32>, ub: nat, ghost m: Machine) returns (k: nat)
    requires P.Length == C.Length == SYMBOLS && Lifted(P[..], C[..], m)
    ensures 1 <= k < SYMBOLS && k == DecoderWalk(m, ub, 1)
  {
    var newC := ub + 8;
    k := 1;
    while k + 8 <= 255 && newC >= C[P[k + 8]] && k != 249
      invariant 1 <= k <= 249 && k % 8 == 1 && newC == ub + k + 7 && DecoderWalk(m, ub, k) == DecoderWalk(m, ub, 1)
      decreases 255 - k
    {
      LiftedKey(P[..], C[..], m, k + 8);
      StepsLifted(P[..], C[..], m, ub, k, k + 8);
      k, newC := k + 8, newC + 8;
    }
    newC := ub + k;
    while k + 1 <= 255 && newC >= C[P[k + 1]] && k != 255
      invariant 1 <= k < SYMBOLS && newC == ub + k && DecoderWalk(m, ub, k) == DecoderWalk(m, ub, 1)
      decreases 255 - k
    {
      LiftedKey(P[..], C[..], m, k + 1);
      k, newC := k + 1, newC + 1;
    }
    if k < 255 { LiftedKey(P[..], C[..], m, k + 1); }
  }

  /** The first guess: the threshold stays fixed, and the last rank is never tried. */
  method GuessRank(P: array<Byte>, C: array<U32>, next: nat, ghost m: Machine) returns (k: nat)
    requires P.Length == C.Length == SYMBOLS && Lifted(P[..], C[..], m) && Shaped(m) && Key(m, 1) < next
    requires forall i :: 0 <= i < SYMBOLS ==> Key(m, i) != next
    ensures IsRankOf(m, next, k) || (k == 254 && IsRankOf(m, next, 255))
  {
    k := 1;
    while k + 8 != 249
      invariant 1 <= k <= 241 && k % 8 == 1 && Key(m, k) < next
      decreases 255 - k
    {
      LiftedKey(P[..], C[..], m, k + 8);
      if next < C[P[k + 8]] { break; }
      k := k + 8;
    }
    while k + 1 != 255
      invariant 1 <= k <= 254 && Key(m, k) < next
      decreases 255 - k
    {
      LiftedKey(P[..], C[..], m, k + 1);
      if next < C[P[k + 1]] { break; }
      k := k + 1;
    }
  }

  /**
   The symbol in front goes to the rank that stands before its next occurrence. The rank is found
   as a fixed point of the decoder's walk; from the guess that takes at most two tries.
   */
  method Reinsert(P: array<Byte>, C: array<U32>, next: U32, sym: Byte) returns (k: nat)
    requires P.Length == C.Length == SYMBOLS && Rising(Held(P, C)) && P[0] == sym
    requires Key(Held(P, C), 1) < next && forall i :: 0 <= i < SYMBOLS ==> Key(Held(P, C), i) != next
    modifies P, C
    ensures IsRankOf(old(Held(P, C)), next, k) && Held(P, C) == Inserted(old(Held(P, C)), k, next)
  {
    ghost var m := Held(P, C);
    P[0] := P[1];
    k := GuessRank(P, C, next, m);
    for iter := 0 to 256
      invariant P[..] == m.p[0 := m.p[1]] && C[..] == m.c && Lifted(P[..], C[..], m)
      invariant IsRankOf(m, next, k) || (iter == 0 && k == 254 && IsRankOf(m, next, 255))
    {
      TryRank(m, next, k);
      var kk := DecoderRank(P, C, next - k, m);
      if kk == k { break; }
      k := kk;
    }
    Settle(P, C, next, sym, k, m);
  }

  /** One try confirms the rank, or corrects the guess one below the last. */
  lemma TryRank(m: Machine, next: nat, k: nat)
    requires Rising(m) && Key(m, 1) < next && forall i :: 0 <= i < SYMBOLS ==> Key(m, i) != next
    requires IsRankOf(m, next, k) || (k == 254 && IsRankOf(m, next, 255))
    ensures k <= next && DecoderWalk(m, next - k, 1) == if IsRankOf(m, next, k) then k else 255
  {
    if IsRankOf(m, next, k) {
      DeltaIsNatural(m, next, k);
      RankIsFixedPoint(m, next, k);
    } else {
      DeltaIsNatural(m, next, 255);
      LastRankIsReached(m, next);
    }
  }

  method Settle(P: array<Byte>, C: array<U32>, next: U32, sym: Byte, k: nat, ghost m: Machine)
    requires P.Length == C.Length == SYMBOLS && Shaped(m) && 1 <= k < SYMBOLS && sym == m.p[0]
    requires P[..] == m.p[0 := m.p[1]] && C[..] == m.c
    modifies P, C
    ensures Held(P, C) == Inserted(m, k, next)
  {
    var passed := P[2..k + 1];
    forall i | 1 <= i < k { P[i] := passed[i - 1]; }
    P[k] := sym;
    C[sym] := next;
    assert P[..] == m.p[1..k + 1] + [m.p[0]] + m.p[k + 1..];
  }

  /** MoveUpItem on the arrays. */
  method MoveUp(P: array<Byte>, C: array<U32>, n: nat, used: nat)
    requires P.Length == C.Length == SYMBOLS && used <= 255 && n < BLOCK_LIMIT
    modifies P, C
    ensures Held(P, C) == Died(old(Held(P, C)), n, used)
  {
    var value, p := P[0], P[..];
    forall i | 0 <= i < 255 { P[i] := p[i + 1]; }
    P[255] := value;
    C[value] := Wrap32(n + 255 - used);
  }

  // ---------------------------------------------------------------- the walk

  /** The walk over the runs: where symbols run out, and the ranks of those that come back. */
  method Walk(d: seq<Byte>, P: array<Byte>, C: array<U32>, used0: nat) returns (ends: seq<nat>, steps: seq<Step>)
    requires 1 <= |d| < BLOCK_LIMIT && P.Length == C.Length == SYMBOLS && Live(d, Held(P, C), used0, 0)
    modifies P, C
    ensures Walked(ends, steps) == Trace(d, old(Held(P, C)), used0, 0, 0)
  {
    var occ, c, cur := IndexSymbols(d);
    var used, runs: nat := used0, 0;
    ends, steps := [], [];
    ghost var pos := 0;
    ghost var whole := AlongFirst(d, Held(P, C), used);
    while used != 0
      invariant Cursors(d, occ, c, cur[..], pos) && fresh(cur)
      invariant Live(d, Held(P, C), used, pos) && Along(d, Held(P, C), used, pos, runs, ends, steps, whole)
      decreases |d| - pos
    {
      used, ends, steps, pos := WalkRun(d, P, C, occ, c, cur, used, pos, runs, ends, steps, whole);
      runs := runs + 1;
    }
    AlongLast(d, Held(P, C), pos, runs, ends, steps, whole);
  }

  /** One run: where it ends, and when its symbol comes back, if it does. */
  method WalkRun(d: seq<Byte>, P: array<Byte>, C: array<U32>, occ: seq<nat>, c: seq<nat>, cur: array<nat>,
                 used0: nat, ghost pos: nat, runs: nat, ends0: seq<nat>, steps0: seq<Step>, ghost whole: Walked)
    returns (used: nat, ends: seq<nat>, steps: seq<Step>, ghost end: nat)
    requires 1 <= |d| < BLOCK_LIMIT && P.Length == C.Length == SYMBOLS && used0 != 0
    requires Cursors(d, occ, c, cur[..], pos)
    requires Live(d, Held(P, C), used0, pos) && Along(d, Held(P, C), used0, pos, runs, ends0, steps0, whole)
    modifies P, C, cur
    ensures pos < end && Cursors(d, occ, c, cur[..], end)
    ensures Live(d, Held(P, C), used, end) && Along(d, Held(P, C), used, end, runs + 1, ends, steps, whole)
  {
    used, ends, steps := used0, ends0, steps0;
    ghost var m := Held(P, C);
    RunEnds(d, m, used, pos);
    var sym := P[0];
    var runEnd: nat := if used > 1 then C[P[1]] else |d|;
    OneLeft(d, m, used, pos);
    var next := NextOccurrence(d, occ, c, cur, sym, runEnd, pos);
    if next >= |d| {
      used := used - 1;
      Retire(d, P, C, used, pos, runs, ends, steps, whole);
      ends := ends + [runs];
    } else {
      var step := Return(d, P, C, runEnd, next, sym, used, pos, runs, ends, steps, whole);
      steps := steps + [step];
    }
    end := runEnd;
  }

  /** The front symbol has run out; `used` are left. */
  method Retire(d: seq<Byte>, P: array<Byte>, C: array<U32>, used: nat,
                ghost pos: nat, ghost runs: nat, ghost ends: seq<nat>, ghost steps: seq<Step>, ghost whole: Walked)
    requires |d| < BLOCK_LIMIT && P.Length == C.Length == SYMBOLS
    requires Live(d, Held(P, C), used + 1, pos) && Along(d, Held(P, C), used + 1, pos, runs, ends, steps, whole)
    requires RunEnd(Held(P, C)) <= |d| && Next(d, Held(P, C)) == |d|
    modifies P, C
    ensures Live(d, Held(P, C), used, RunEnd(old(Held(P, C))))
    ensures Along(d, Held(P, C), used, RunEnd(old(Held(P, C))), runs + 1, ends + [runs], steps, whole)
  {
    ghost var m := Held(P, C);
    MoveUp(P, C, |d|, used);
    OnDeath(d, m, used + 1, pos, runs, ends, steps, whole, Held(P, C));
  }

  /** The front symbol comes back at `next`: its rank, as it will be coded. */
  method Return(d: seq<Byte>, P: array<Byte>, C: array<U32>, runEnd: nat, next: nat, sym: Byte,
                ghost used: nat, ghost pos: nat, ghost runs: nat, ghost ends: seq<nat>, ghost steps: seq<Step>, ghost whole: Walked)
    returns (step: Step)
    requires |d| < BLOCK_LIMIT && P.Length == C.Length == SYMBOLS && P[0] == sym && used > 0
    requires Live(d, Held(P, C), used, pos) && Along(d, Held(P, C), used, pos, runs, ends, steps, whole)
    requires runEnd == RunEnd(Held(P, C)) <= |d| && next == Next(d, Held(P, C)) < |d|
    modifies P, C
    ensures Live(d, Held(P, C), used, runEnd)
    ensures Along(d, Held(P, C), used, runEnd, runs + 1, ends, steps + [step], whole)
  {
    ghost var m := Held(P, C);
    var hash := Hash(C[P[0]], C[P[1]], C[P[2]], C[P[3]], C[P[4]]);
    assert hash == HashOf(m);
    var k := StepBack(d, P, C, next, sym, used, pos);
    step := Step(next - runEnd - k, hash, sym);
    OnReturn(d, m, used, pos, runs, ends, steps, whole, Held(P, C), k, step);
  }

  /** What has been found and what the walk from here yields make up the whole. */
  ghost predicate Along(d: seq<Byte>, m: Machine, used: nat, pos: nat, runs: nat, ends: seq<nat>, steps: seq<Step>, whole: Walked)
    requires Live(d, m, used, pos)
  {
    forall z {:trigger Look(Log, z)} :: Look(Log, z) ==>
      var w := Trace(d, m, used, pos, runs);
      ends + w.ends == whole.ends && steps + w.steps == whole.steps
  }

  lemma AlongFirst(d: seq<Byte>, m: Machine, used: nat) returns (whole: Walked)
    requires Live(d, m, used, 0)
    ensures whole == Trace(d, m, used, 0, 0) && Along(d, m, used, 0, 0, [], [], whole)
  {
    whole := Trace(d, m, used, 0, 0);
  }

  lemma AlongLast(d: seq<Byte>, m: Machine, pos: nat, runs: nat, ends: seq<nat>, steps: seq<Step>, whole: Walked)
    requires Live(d, m, 0, pos) && Along(d, m, 0, pos, runs, ends, steps, whole)
    ensures Walked(ends, steps) == whole
  {
    assert Look(Log, 0);
  }

  lemma OnDeath(d: seq<Byte>, m: Machine, used: nat, pos: nat, runs: nat, ends: seq<nat>, steps: seq<Step>, whole: Walked, m': Machine)
    requires Live(d, m, used, pos) && used > 0 && Along(d, m, used, pos, runs, ends, steps, whole)
    requires RunEnd(m) <= |d| && Next(d, m) == |d| && m' == Died(m, |d|, used - 1)
    ensures Live(d, m', used - 1, RunEnd(m))
    ensures Along(d, m', used - 1, RunEnd(m), runs + 1, ends + [runs], steps, whole)
  {
    assert Look(Log, 0);
    assert Advanced(d, m, used, pos) == (m', used - 1);
    var w := Trace(d, m', used - 1, RunEnd(m), runs + 1);
    assert ends + ([runs] + w.ends) == ends + [runs] + w.ends;
  }

  lemma OnReturn(d: seq<Byte>, m: Machine, used: nat, pos: nat, runs: nat, ends: seq<nat>, steps: seq<Step>, whole: Walked,
                 m': Machine, k: nat, step: Step)
    requires Live(d, m, used, pos) && used > 0 && Along(d, m, used, pos, runs, ends, steps, whole)
    requires RunEnd(m) <= |d| && Next(d, m) < |d| && k == LandingRank(d, m, used, pos) && m' == Inserted(m, k, Next(d, m))
    requires step == Step(Next(d, m) - RunEnd(m) - k, HashOf(m), m.p[0])
    ensures Live(d, m', used, RunEnd(m))
    ensures Along(d, m', used, RunEnd(m), runs + 1, ends, steps + [step], whole)
  {
    assert Look(Log, 0);
    assert Advanced(d, m, used, pos) == (m', used);
    var w := Trace(d, m', used, RunEnd(m), runs + 1);
    assert steps + ([step] + w.steps) == steps + [step] + w.steps;
  }

  method IndexSymbols(d: seq<Byte>) returns (occ: seq<nat>, c: seq<nat>, cur: array<nat>)
    ensures fresh(cur) && Cursors(d, occ, c, cur[..], 0)
  {
    c := CountBytes(d);
    var table;
    ghost var order;
    table, order := BuildTable(d, c, false);
    occ := table[..];
    assert occ == order;
    cur := new nat[256](s requires 0 <= s < 256 => c[s]);
    CursorsStart(d, c, occ, cur[..]);
  }

  lemma CursorsStart(d: seq<Byte>, c: seq<nat>, occ: seq<nat>, cur: seq<nat>)
    requires IsCumulative(d, c) && |cur| == 256 && |occ| == |d| && forall s :: 0 <= s < 256 ==> cur[s] == c[s]
    ensures Passed(occ, c, cur, 0)
  {
    forall s: Byte ensures RowPassed(occ, c, cur[s], s, 0) {
      LessMonotone(d, s, s + 1, |d|);
    }
  }

  lemma OneLeft(d: seq<Byte>, m: Machine, used: nat, pos: nat)
    requires Live(d, m, used, pos) && used > 0
    ensures used == 1 ==> RunEnd(m) == |d|
  {
    assert Look(Steps, 0);
  }

  method StepBack(d: seq<Byte>, P: array<Byte>, C: array<U32>, next: nat, sym: Byte, ghost used: nat, ghost pos: nat) returns (k: nat)
    requires |d| < BLOCK_LIMIT && P.Length == C.Length == SYMBOLS && Live(d, Held(P, C), used, pos) && used > 0 && P[0] == sym
    requires RunEnd(Held(P, C)) <= |d| && next == Next(d, Held(P, C)) < |d|
    modifies P, C
    ensures k == LandingRank(d, old(Held(P, C)), used, pos) && RunEnd(old(Held(P, C))) + k <= next
    ensures Held(P, C) == Inserted(old(Held(P, C)), k, next)
  {
    ghost var m := Held(P, C);
    assert Rising(m) by { assert Look(Steps, 0); }
    SecondIsBefore(d, m, used, pos);
    k := Reinsert(P, C, next, sym);
    RankIsUnique(m, next, k, LandingRank(d, m, used, pos));
  }

  lemma SecondIsBefore(d: seq<Byte>, m: Machine, used: nat, pos: nat)
    requires Live(d, m, used, pos) && used > 0 && RunEnd(m) <= |d| && Next(d, m) < |d|
    ensures Key(m, 1) < Next(d, m) && forall i :: 0 <= i < SYMBOLS ==> Key(m, i) != Next(d, m)
  {
    assert Look(Steps, 0);
    SecondComesFirst(d, m, used, pos);
  }
}
