/** Replaying the tokens of a chunk into the ring (ReconstructRing, RingWrite). */
module LzReplay {
  import opened Words
  import opened LzTokens

  /** `idx` is below twice the ring's size. */
  function RingReduce(idx: nat, size: nat): nat {
    if idx >= size then idx - size else idx
  }

  /** Bytes that end where the stream does read as zeros. */
  method RingWrite(ring: array<Byte>, at: nat, src: seq<Byte>, lp: nat, n: nat)
    requires at + n <= ring.Length
    modifies ring
    ensures forall i | 0 <= i < ring.Length && !(at <= i < at + n) :: ring[i] == old(ring[i])
    ensures lp + n <= |src| ==> ring[..] == Wrote(old(ring[..]), at, src[lp..lp + n])
  {
    for i := 0 to n
      invariant forall k | 0 <= k < ring.Length && !(at <= k < at + i) :: ring[k] == old(ring[k])
      invariant forall k | at <= k < at + i :: ring[k] == At(src, k - at + lp)
    {
      ring[at + i] := At(src, lp + i);
    }
    if lp + n <= |src| { assert ring[..] == Wrote(old(ring[..]), at, src[lp..lp + n]); }
  }

  lemma {:induction false} CopiedSnoc(ring: seq<Byte>, to: nat, from: nat, n: nat)
    requires to + n < |ring| && from + n < |ring|
    ensures Copied(ring, to, from, n + 1) == Copied(ring, to, from, n)[to + n := Copied(ring, to, from, n)[from + n]]
    decreases n
  {
    if n != 0 { CopiedSnoc(ring[to := ring[from]], to + 1, from + 1, n - 1); }
  }

  /** From ahead, byte by byte is the same as all at once. */
  lemma CopiedFromAhead(ring: seq<Byte>, to: nat, from: nat, n: nat)
    requires to <= from && from + n <= |ring|
    ensures Copied(ring, to, from, n) == Wrote(ring, to, ring[from..from + n])
  {
    forall i | 0 <= i < |ring| ensures Copied(ring, to, from, n)[i] == Wrote(ring, to, ring[from..from + n])[i] {
      CopiedAt(ring, to, from, n, i);
    }
  }

  lemma {:induction false} CopiedAt(ring: seq<Byte>, to: nat, from: nat, n: nat, i: nat)
    requires to <= from && from + n <= |ring| && i < |ring|
    ensures Copied(ring, to, from, n)[i] == if to <= i < to + n then ring[i - to + from] else ring[i]
    decreases n
  {
    if n != 0 { CopiedAt(ring[to := ring[from]], to + 1, from + 1, n - 1, i); }
  }

  /**
   A match: forwards where neither range reaches the ring's end and the source is behind, all at
   once where it is ahead, and else byte by byte, zeros past the end.
   */
  method CopyMatch(ring: array<Byte>, at: nat, si: nat, n: nat)
    requires at + n <= ring.Length
    modifies ring
    ensures forall i | 0 <= i < ring.Length && !(at <= i < at + n) :: ring[i] == old(ring[i])
    ensures si + n <= ring.Length ==> ring[..] == Copied(old(ring[..]), at, si, n)
  {
    ghost var was := ring[..];
    if n + si <= ring.Length && at <= si {
      var bytes := ring[si..si + n];
      CopiedFromAhead(was, at, si, n);
      RingWrite(ring, at, bytes, 0, n);
      assert bytes[0..n] == bytes;
      assert ring[..] == Copied(was, at, si, n);
      return;
    }
    for i := 0 to n
      invariant forall k | 0 <= k < ring.Length && !(at <= k < at + i) :: ring[k] == was[k]
      invariant si + n <= ring.Length ==> ring[..] == Copied(was, at, si, i)
    {
      if si + n <= ring.Length { CopiedSnoc(was, at, si, i); }
      ring[at + i] := if si + i < ring.Length then ring[si + i] else 0;
    }
  }

  /** What is left to follow: the tokens from `t` on and the literals from `lp` on; out of sight until `Look(Log, 0)`. */
  ghost predicate Ahead(r: Replay, steps: seq<Step>, rest: seq<Byte>, tokens: seq<Token>, t: nat, lits: seq<Byte>, lp: nat,
                        end: nat, goal: seq<Byte>)
  {
    forall z {:trigger Look(Log, z)} :: Look(Log, z) ==>
      && t <= |tokens| && lp <= |lits| && |r.rep| == 4 && r.at <= end <= |r.ring| && IsRun(r, steps, end)
      && tokens[t..] == Tokens(steps) && lits[lp..] == Literals(steps) + rest
      && var x := Reached(r, steps, end); x.at + |rest| == end && Wrote(x.ring, x.at, rest) == goal
  }

  lemma AheadStep(r: Replay, steps: seq<Step>, rest: seq<Byte>, tokens: seq<Token>, t: nat, lits: seq<Byte>, lp: nat,
                  end: nat, goal: seq<Byte>)
    requires Ahead(r, steps, rest, tokens, t, lits, lp, end, goal) && t < |tokens|
    ensures steps != [] && steps[0].token == tokens[t] && StepOk(r, steps[0], end)
    ensures lp + tokens[t].run <= |lits| && lits[lp..lp + tokens[t].run] == steps[0].bytes
    ensures Ahead(After(r, steps[0], end), steps[1..], rest, tokens, t + 1, lits, lp + tokens[t].run, end, goal)
  {
    assert Look(Log, 0);
    assert tokens[t..][0] == tokens[t] && tokens[t..][1..] == tokens[t + 1..];
    var run, b, more := tokens[t].run, steps[0].bytes, Literals(steps[1..]) + rest;
    Cat(b, Literals(steps[1..]), rest);
    assert lits[lp..] == b + more;
    assert lits[lp..][..run] == lits[lp..lp + run] && lits[lp..][run..] == lits[lp + run..];
    assert Tokens(steps)[1..] == Tokens(steps[1..]);
  }

  lemma AheadEnds(r: Replay, steps: seq<Step>, rest: seq<Byte>, tokens: seq<Token>, t: nat, lits: seq<Byte>, lp: nat,
                  end: nat, goal: seq<Byte>, left: int)
    requires Ahead(r, steps, rest, tokens, t, lits, lp, end, goal) && t == |tokens| && left == end - r.at
    ensures 0 <= left && end <= |r.ring| && lp + left == |lits| && Wrote(r.ring, r.at, lits[lp..lp + left]) == goal
  {
    assert Look(Log, 0);
    assert steps == [] && Reached(r, steps, end) == r;
    assert [] + rest == rest;
    assert lits[lp..lp + left] == lits[lp..];
  }

  /** Before the end of the chunk every token that is left is met: matches are not empty. */
  lemma AheadFull(r: Replay, steps: seq<Step>, rest: seq<Byte>, tokens: seq<Token>, t: nat, lits: seq<Byte>, lp: nat,
                  end: nat, goal: seq<Byte>)
    requires Ahead(r, steps, rest, tokens, t, lits, lp, end, goal) && r.at == end
    ensures t == |tokens|
  {
    assert Look(Log, 0);
    RunMoves(r, steps, end);
  }

  lemma RunMoves(r: Replay, steps: seq<Step>, end: nat)
    requires IsRun(r, steps, end)
    ensures steps != [] ==> r.at < end
  {
  }

  lemma ChunkAhead(ring: seq<Byte>, at: nat, chunk: seq<Byte>, tokens: seq<Token>, lits: seq<Byte>)
    returns (steps: seq<Step>, rest: seq<Byte>)
    requires IsChunk(ring, at, chunk, tokens, lits)
    ensures Ahead(Replay(ring, at, ONES), steps, rest, tokens, 0, lits, 0, at + |chunk|, Wrote(ring, at, chunk))
  {
    steps, rest :| IsChunkBy(ring, at, chunk, tokens, lits, steps, rest);
    assert tokens[0..] == tokens && lits[0..] == lits;
  }

  /**
   Replays a chunk of `outSize` bytes at `base`. Whatever the tokens, nothing outside the chunk's
   part of the ring is touched; tokens of a chunk leave exactly the chunk there.
   */
  method ReconstructRing(ring: array<Byte>, base: nat, tokens: seq<Token>, lits: seq<Byte>, outSize: nat, ghost chunk: seq<Byte>)
    returns (ok: bool)
    requires base + outSize <= ring.Length
    modifies ring
    ensures forall i | 0 <= i < ring.Length && !(base <= i < base + outSize) :: ring[i] == old(ring[i])
    ensures |chunk| == outSize && IsChunk(old(ring[..]), base, chunk, tokens, lits)
      ==> ok && ring[..] == Wrote(old(ring[..]), base, chunk)
  {
    ghost var known := |chunk| == outSize && IsChunk(ring[..], base, chunk, tokens, lits);
    ghost var goal := if known then Wrote(ring[..], base, chunk) else [];
    ghost var steps, rest := [], [];
    if known { steps, rest := ChunkAhead(ring[..], base, chunk, tokens, lits); }
    ghost var was := ring[..];
    ok := ReplayAll(ring, base, tokens, lits, outSize, known, steps, rest, goal);
    OutsideMeans(ring[..], was, base, base + outSize);
    assert forall i | 0 <= i < ring.Length && !(base <= i < base + outSize) :: ring[..][i] == was[i];
  }

  /** Nothing but the places from `lo` to `hi` has changed; out of sight until `Look(Spot, 0)`. */
  ghost predicate Outside(now: seq<Byte>, was: seq<Byte>, lo: nat, hi: nat) {
    |now| == |was| && forall z {:trigger Look(Spot, z)} :: Look(Spot, z) ==> forall i | 0 <= i < |now| && !(lo <= i < hi) :: now[i] == was[i]
  }

  lemma OutsideMeans(now: seq<Byte>, was: seq<Byte>, lo: nat, hi: nat)
    requires Outside(now, was, lo, hi)
    ensures forall i | 0 <= i < |now| && !(lo <= i < hi) :: now[i] == was[i]
  {
    assert Look(Spot, 0);
  }

  lemma OutsideTwice(c: seq<Byte>, b: seq<Byte>, a: seq<Byte>, lo: nat, hi: nat)
    requires Outside(c, b, lo, hi) && Outside(b, a, lo, hi)
    ensures Outside(c, a, lo, hi)
  {
    assert Look(Spot, 0);
  }

  method ReplayAll(ring: array<Byte>, base: nat, tokens: seq<Token>, lits: seq<Byte>, outSize: nat,
                   ghost known: bool, ghost steps0: seq<Step>, ghost rest: seq<Byte>, ghost goal: seq<Byte>)
    returns (ok: bool)
    requires base + outSize <= ring.Length
    requires known ==> Ahead(Replay(ring[..], base, ONES), steps0, rest, tokens, 0, lits, 0, base + outSize, goal)
    modifies ring
    ensures Outside(ring[..], old(ring[..]), base, base + outSize)
    ensures known ==> ok && ring[..] == goal
  {
    ghost var was, end, steps := ring[..], base + outSize, steps0;
    var rep: seq<nat>, pos: nat, lp: nat, t: nat := ONES, 0, 0, 0;
    while t < |tokens| && pos < outSize
      invariant t <= |tokens| && pos <= outSize && |rep| == 4
      invariant Outside(ring[..], was, base, base + outSize)
      invariant known ==> Ahead(Replay(ring[..], base + pos, rep), steps, rest, tokens, t, lits, lp, end, goal)
      decreases |tokens| - t
    {
      ghost var now := ring[..];
      var bad;
      bad, rep, pos, lp := ReplayNext(ring, base, tokens, t, lits, outSize, rep, pos, lp, known, steps, rest, goal);
      OutsideTwice(ring[..], now, was, base, end);
      if bad { return false; }
      if known { steps := steps[1..]; }
      t := t + 1;
    }
    ghost var now := ring[..];
    ReplayEnd(ring, base, pos, lits, lp, outSize, rep, tokens, t, known, steps, rest, goal);
    OutsideTwice(ring[..], now, was, base, end);
    ok := true;
  }

  method ReplayNext(ring: array<Byte>, base: nat, tokens: seq<Token>, t: nat, lits: seq<Byte>, outSize: nat, rep0: seq<nat>, pos0: nat, lp0: nat,
                    ghost known: bool, ghost steps: seq<Step>, ghost rest: seq<Byte>, ghost goal: seq<Byte>)
    returns (bad: bool, rep: seq<nat>, pos: nat, lp: nat)
    requires base + outSize <= ring.Length && pos0 < outSize && |rep0| == 4 && t < |tokens|
    requires known ==> Ahead(Replay(ring[..], base + pos0, rep0), steps, rest, tokens, t, lits, lp0, base + outSize, goal)
    modifies ring
    ensures pos <= outSize && |rep| == 4 && Outside(ring[..], old(ring[..]), base, base + outSize)
    ensures known ==> !bad && steps != [] && Ahead(Replay(ring[..], base + pos, rep), steps[1..], rest, tokens, t + 1, lits, lp, base + outSize, goal)
  {
    ghost var r := Replay(ring[..], base + pos0, rep0);
    ghost var bytes := if known then AheadBytes(r, steps, rest, tokens, t, lits, lp0, base + outSize, goal) else [];
    bad, rep, pos, lp := ReplayToken(ring, base, tokens[t], lits, outSize, rep0, pos0, lp0, known, bytes);
    if known { AheadOn(r, steps, rest, tokens, t, lits, lp0, base + outSize, goal, bytes, Replay(ring[..], base + pos, rep)); }
  }

  /** What the next token copies. */
  ghost function AheadBytes(r: Replay, steps: seq<Step>, rest: seq<Byte>, tokens: seq<Token>, t: nat, lits: seq<Byte>, lp: nat,
                            end: nat, goal: seq<Byte>): (bytes: seq<Byte>)
    requires Ahead(r, steps, rest, tokens, t, lits, lp, end, goal) && t < |tokens|
    ensures |r.rep| == 4 && Feasible(r, tokens[t], end) && lp + tokens[t].run <= |lits| && lits[lp..lp + tokens[t].run] == bytes
  {
    AheadStep(r, steps, rest, tokens, t, lits, lp, end, goal);
    steps[0].bytes
  }

  /** The token stays in the chunk and in the ring. */
  ghost predicate Feasible(r: Replay, token: Token, end: nat)
    requires |r.rep| == 4
  {
    var offset := Offset(r.rep, token.sel);
    var len := Length(token, offset);
    && 1 <= offset <= |r.ring| && r.at + token.run + len <= end && 0 < len
    && Source(r.at + token.run, offset, |r.ring|) + len <= |r.ring|
  }

  /** Where it leads. */
  function Replayed(r: Replay, token: Token, bytes: seq<Byte>, end: nat): (x: Replay)
    requires |r.rep| == 4 && Feasible(r, token, end) && end <= |r.ring| && |bytes| == token.run
  {
    var offset := Offset(r.rep, token.sel);
    var len := Length(token, offset);
    var at := r.at + token.run;
    Replay(Copied(Wrote(r.ring, r.at, bytes), at, Source(at, offset, |r.ring|), len), at + len, Renewed(r.rep, token.sel))
  }

  lemma AheadOn(r: Replay, steps: seq<Step>, rest: seq<Byte>, tokens: seq<Token>, t: nat, lits: seq<Byte>, lp: nat,
                end: nat, goal: seq<Byte>, bytes: seq<Byte>, x: Replay)
    requires Ahead(r, steps, rest, tokens, t, lits, lp, end, goal) && t < |tokens| && end <= |r.ring| && |r.rep| == 4
    requires Feasible(r, tokens[t], end) && lp + tokens[t].run <= |lits| && lits[lp..lp + tokens[t].run] == bytes
    requires x == Replayed(r, tokens[t], bytes, end)
    ensures steps != [] && Ahead(x, steps[1..], rest, tokens, t + 1, lits, lp + tokens[t].run, end, goal)
  {
    AheadStep(r, steps, rest, tokens, t, lits, lp, end, goal);
    assert x == After(r, steps[0], end);
  }

  method ReplayEnd(ring: array<Byte>, base: nat, pos: nat, lits: seq<Byte>, lp: nat, outSize: nat, ghost rep: seq<nat>,
                   ghost tokens: seq<Token>, ghost t: nat, ghost known: bool, ghost steps: seq<Step>, ghost rest: seq<Byte>, ghost goal: seq<Byte>)
    requires base + outSize <= ring.Length && pos <= outSize && t <= |tokens| && (t == |tokens| || pos == outSize)
    requires known ==> Ahead(Replay(ring[..], base + pos, rep), steps, rest, tokens, t, lits, lp, base + outSize, goal)
    modifies ring
    ensures Outside(ring[..], old(ring[..]), base, base + outSize) && (known ==> ring[..] == goal)
  {
    if known {
      ghost var r := Replay(ring[..], base + pos, rep);
      if pos == outSize { AheadFull(r, steps, rest, tokens, t, lits, lp, base + outSize, goal); }
      AheadEnds(r, steps, rest, tokens, t, lits, lp, base + outSize, goal, outSize - pos);
    }
    FlushLiterals(ring, base, pos, lits, lp, outSize - pos, known, goal);
  }

  /** The literals behind the last match. */
  method FlushLiterals(ring: array<Byte>, base: nat, pos: nat, lits: seq<Byte>, lp: nat, left: nat, ghost known: bool, ghost goal: seq<Byte>)
    requires base + pos + left <= ring.Length
    requires known ==> lp + left <= |lits| && Wrote(ring[..], base + pos, lits[lp..lp + left]) == goal
    modifies ring
    ensures Outside(ring[..], old(ring[..]), base, base + pos + left)
    ensures known ==> ring[..] == goal
  {
    if left != 0 {
      RingWrite(ring, RingReduce(base + pos, ring.Length), lits, lp, left);
    } else if known {
      assert Wrote(ring[..], base + pos, lits[lp..lp]) == ring[..];
    }
  }

  /** One token: its literals, then its match, both cut at the end of the chunk. */
  method ReplayToken(ring: array<Byte>, base: nat, token: Token, lits: seq<Byte>, outSize: nat, rep0: seq<nat>, pos0: nat, lp0: nat,
                     ghost known: bool, ghost bytes: seq<Byte>)
    returns (bad: bool, rep: seq<nat>, pos: nat, lp: nat)
    requires base + outSize <= ring.Length && pos0 < outSize && |rep0| == 4
    requires known ==> Feasible(Replay(ring[..], base + pos0, rep0), token, base + outSize)
    requires known ==> lp0 + token.run <= |lits| && lits[lp0..lp0 + token.run] == bytes
    modifies ring
    ensures pos <= outSize && |rep| == 4 && Outside(ring[..], old(ring[..]), base, base + outSize)
    ensures known ==> !bad && lp == lp0 + token.run
    ensures known ==> Replay(ring[..], base + pos, rep) == Replayed(Replay(old(ring[..]), base + pos0, rep0), token, bytes, base + outSize)
  {
    var offset := Offset(rep0, token.sel);
    bad, rep, pos, lp := false, Renewed(rep0, token.sel), pos0, lp0;
    var len := Length(token, offset);
    if offset == 0 || offset > ring.Length { return true, rep, pos, lp; }
    pos := TakeBoth(ring, base, lits, outSize, pos0, lp0, token.run, offset, len, known, bytes);
    lp := lp + token.run;
  }

  method TakeBoth(ring: array<Byte>, base: nat, lits: seq<Byte>, outSize: nat, pos0: nat, lp: nat, run: nat, offset: nat, len: nat,
                  ghost known: bool, ghost bytes: seq<Byte>)
    returns (pos: nat)
    requires base + outSize <= ring.Length && pos0 < outSize && 1 <= offset <= ring.Length
    requires known ==> pos0 + run + len <= outSize && 0 < len && lp + run <= |lits| && lits[lp..lp + run] == bytes
    requires known ==> Source(base + pos0 + run, offset, ring.Length) + len <= ring.Length
    modifies ring
    ensures pos <= outSize && (known ==> pos == pos0 + run + len)
    ensures Outside(ring[..], old(ring[..]), base, base + outSize)
    ensures known ==> ring[..] == Copied(Wrote(old(ring[..]), base + pos0, bytes), base + pos0 + run, Source(base + pos0 + run, offset, ring.Length), len)
  {
    pos := TakeLiterals(ring, base, lits, outSize, pos0, lp, run, known, bytes);
    pos := TakeMatch(ring, base, outSize, pos, offset, len, known);
  }

  method TakeMatch(ring: array<Byte>, base: nat, outSize: nat, pos0: nat, offset: nat, len0: nat, ghost known: bool) returns (pos: nat)
    requires base + outSize <= ring.Length && pos0 <= outSize && 1 <= offset <= ring.Length
    requires known ==> 0 < len0 && pos0 + len0 <= outSize && Source(base + pos0, offset, ring.Length) + len0 <= ring.Length
    modifies ring
    ensures pos <= outSize
    ensures forall i | 0 <= i < ring.Length && !(base <= i < base + outSize) :: ring[i] == old(ring[i])
    ensures known ==> pos == pos0 + len0
    ensures known ==> ring[..] == Copied(old(ring[..]), base + pos0, Source(base + pos0, offset, ring.Length), len0)
  {
    pos := pos0;
    if pos < outSize {
      var len := if pos + len0 > outSize then outSize - pos else len0;
      var start := RingReduce(base + pos, ring.Length);
      CopyMatch(ring, start, Source(start, offset, ring.Length), len);
      pos := pos + len;
    }
  }

  method TakeLiterals(ring: array<Byte>, base: nat, lits: seq<Byte>, outSize: nat, pos0: nat, lp: nat, count: nat,
                      ghost known: bool, ghost bytes: seq<Byte>)
    returns (pos: nat)
    requires base + outSize <= ring.Length && pos0 < outSize
    requires known ==> pos0 + count <= outSize && lp + count <= |lits| && lits[lp..lp + count] == bytes
    modifies ring
    ensures pos <= outSize
    ensures forall i | 0 <= i < ring.Length && !(base <= i < base + outSize) :: ring[i] == old(ring[i])
    ensures known ==> pos == pos0 + count && ring[..] == Wrote(old(ring[..]), base + pos0, bytes)
  {
    pos := pos0;
    if count != 0 {
      var run := if pos + count > outSize then outSize - pos else count;
      RingWrite(ring, RingReduce(base + pos, ring.Length), lits, lp, run);
      pos := pos + run;
    } else {
      assert known ==> Wrote(ring[..], base + pos, bytes) == ring[..];
    }
  }
}
