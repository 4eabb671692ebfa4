/**
 The tokens of the LZ coder and what replaying them does to the ring the reader keeps
 (ReconstructRing).
 */
module LzTokens {
  import opened Words
  import opened LastFour
  import opened Matching

  /** Literals to take over, an offset (one of the last four, or a new one plus 3), and a length. */
  datatype Token = Token(run: nat, sel: nat, raw: nat)

  /** The reader: its ring, where it writes next, and its four last offsets. */
  datatype Replay = Replay(ring: seq<Byte>, at: nat, rep: seq<nat>)

  const ONES: seq<nat> := [1, 1, 1, 1]

  /** Far offsets have longer matches only. */
  function Extra(offset: nat): nat {
    (if 0x63ff < offset then 1 else 0) + if 0x4ff < offset then 1 else 0
  }

  function Offset(rep: seq<nat>, sel: nat): nat
    requires |rep| == 4
  {
    if sel >= 4 then sel - 3 else rep[sel]
  }

  function Length(t: Token, offset: nat): nat {
    if t.sel >= 4 then t.raw + 4 + Extra(offset) else t.raw + 2
  }

  /** The last offsets after one of them, or a new one, was used. */
  function Renewed(rep: seq<nat>, sel: nat): (r: seq<nat>)
    requires |rep| == 4
    ensures |r| == 4
  {
    if sel >= 4 then [sel - 3] + rep[..3] else Promoted(rep, sel)
  }

  /** Where a match begins: `offset` back, round the ring's end. */
  function Source(at: nat, offset: nat, size: nat): nat
    requires offset <= size
  {
    if offset <= at then at - offset else at + size - offset
  }

  function Wrote(ring: seq<Byte>, at: nat, bytes: seq<Byte>): (r: seq<Byte>)
    requires at + |bytes| <= |ring|
    ensures |r| == |ring|
  {
    ring[..at] + bytes + ring[at + |bytes|..]
  }

  /** Byte by byte, so that a match may repeat what it writes. */
  function Copied(ring: seq<Byte>, to: nat, from: nat, n: nat): (r: seq<Byte>)
    requires to + n <= |ring| && from + n <= |ring|
    ensures |r| == |ring|
    decreases n
  {
    if n == 0 then ring else Copied(ring[to := ring[from]], to + 1, from + 1, n - 1)
  }

  datatype Step = Step(token: Token, bytes: seq<Byte>)

  /** A token that the reader can follow inside the chunk that ends at `end`. */
  predicate StepOk(r: Replay, s: Step, end: nat) {
    && |r.rep| == 4 && |s.bytes| == s.token.run && end <= |r.ring|
    && var offset := Offset(r.rep, s.token.sel);
    var len := Length(s.token, offset);
    && 1 <= offset <= |r.ring| && r.at + s.token.run + len <= end
    && Source(r.at + s.token.run, offset, |r.ring|) + len <= |r.ring|
  }

  /** The reader behind a token. */
  function After(r: Replay, s: Step, end: nat): (x: Replay)
    requires StepOk(r, s, end)
    ensures |x.rep| == 4 && |x.ring| == |r.ring| && r.at <= x.at <= end
  {
    var offset := Offset(r.rep, s.token.sel);
    var len := Length(s.token, offset);
    var at := r.at + s.token.run;
    Replay(Copied(Wrote(r.ring, r.at, s.bytes), at, Source(at, offset, |r.ring|), len), at + len, Renewed(r.rep, s.token.sel))
  }

  /** The reader follows all of `steps`. */
  ghost predicate IsRun(r: Replay, steps: seq<Step>, end: nat)
    decreases |steps|
  {
    steps == [] || (StepOk(r, steps[0], end) && IsRun(After(r, steps[0], end), steps[1..], end))
  }

  ghost function Reached(r: Replay, steps: seq<Step>, end: nat): (x: Replay)
    requires IsRun(r, steps, end)
    ensures |x.ring| == |r.ring| && (|r.rep| == 4 ==> |x.rep| == 4) && (r.at <= end ==> x.at <= end)
    decreases |steps|
  {
    if steps == [] then r else Reached(After(r, steps[0], end), steps[1..], end)
  }

  function Tokens(steps: seq<Step>): (t: seq<Token>)
    ensures |t| == |steps|
  {
    seq(|steps|, i requires 0 <= i < |steps| => steps[i].token)
  }

  function Literals(steps: seq<Step>): seq<Byte> {
    if steps == [] then [] else steps[0].bytes + Literals(steps[1..])
  }

  lemma {:induction false} RunGrows(r: Replay, steps: seq<Step>, end: nat, s: Step)
    requires IsRun(r, steps, end) && StepOk(Reached(r, steps, end), s, end)
    ensures IsRun(r, steps + [s], end)
    ensures Reached(r, steps + [s], end) == After(Reached(r, steps, end), s, end)
    decreases |steps|
  {
    var all := steps + [s];
    if steps == [] {
      assert all[1..] == [];
    } else {
      assert all[0] == steps[0] && all[1..] == steps[1..] + [s];
      RunGrows(After(r, steps[0], end), steps[1..], end, s);
    }
  }

  lemma {:induction false} LiteralsGrow(steps: seq<Step>, s: Step)
    ensures Literals(steps + [s]) == Literals(steps) + s.bytes
    ensures Tokens(steps + [s]) == Tokens(steps) + [s.token]
  {
    var all := steps + [s];
    if steps == [] {
      assert all[1..] == [] && all[0] == s;
      assert s.bytes + [] == s.bytes;
    } else {
      assert all[0] == steps[0] && all[1..] == steps[1..] + [s];
      LiteralsGrow(steps[1..], s);
      Cat(steps[0].bytes, Literals(steps[1..]), s.bytes);
    }
  }

  /** Tokens and literals that, replayed at `at`, write the chunk and nothing else. */
  ghost predicate IsChunk(ring: seq<Byte>, at: nat, chunk: seq<Byte>, tokens: seq<Token>, lits: seq<Byte>) {
    at + |chunk| <= |ring| && exists steps, rest ::
      IsChunkBy(ring, at, chunk, tokens, lits, steps, rest)
  }

  ghost predicate IsChunkBy(ring: seq<Byte>, at: nat, chunk: seq<Byte>, tokens: seq<Token>, lits: seq<Byte>,
                            steps: seq<Step>, rest: seq<Byte>)
    requires at + |chunk| <= |ring|
  {
    var r0, end := Replay(ring, at, ONES), at + |chunk|;
    && IsRun(r0, steps, end) && tokens == Tokens(steps) && lits == Literals(steps) + rest
    && var r := Reached(r0, steps, end);
    && r.at + |rest| == end && Wrote(r.ring, r.at, rest) == Wrote(ring, at, chunk)
  }

  // ---------------------------------------------------------------- following the writer's window

  /** The ring has what the window has, but for the part from `q` to `e` that is still to come. */
  ghost predicate Agree(ring: seq<Byte>, v: seq<Byte>, q: nat, e: nat) {
    |ring| == |v| && forall i | 0 <= i < |v| && !(q <= i < e) :: ring[i] == v[i]
  }

  lemma LiteralsAgree(ring: seq<Byte>, v: seq<Byte>, q: nat, p: nat, e: nat)
    requires Agree(ring, v, q, e) && q <= p <= e <= |v|
    ensures Agree(Wrote(ring, q, v[q..p]), v, p, e)
  {
  }

  /** Copying from bytes that are there already, or from behind the chunk, continues the window. */
  lemma {:induction false} CopyAgrees(ring: seq<Byte>, v: seq<Byte>, to: nat, from: nat, n: nat, e: nat)
    requires Agree(ring, v, to, e) && to + n <= e <= |v| && Same(v, to, from, n) && (from < to || e <= from)
    ensures Agree(Copied(ring, to, from, n), v, to + n, e)
    decreases n
  {
    if n != 0 {
      var next := ring[to := ring[from]];
      assert v[to] == v[from];
      assert Agree(next, v, to + 1, e);
      assert Same(v, to + 1, from + 1, n - 1) by {
        forall k | to + 1 <= k < to + n ensures v[k] == v[k - to + from] { }
      }
      CopyAgrees(next, v, to + 1, from + 1, n - 1, e);
    }
  }

  /** One token, and the reader has caught up with the writer at `pos + len`. */
  lemma StepAgrees(r: Replay, v: seq<Byte>, pos: nat, e: nat, t: Token, src: nat)
    requires |r.rep| == 4 && Agree(r.ring, v, r.at, e) && r.at <= pos && t.run == pos - r.at && e <= |v|
    requires 1 <= Offset(r.rep, t.sel) <= |v| && src == Source(pos, Offset(r.rep, t.sel), |v|)
    requires var len := Length(t, Offset(r.rep, t.sel)); pos + len <= e && (src < pos || e <= src) && Same(v, pos, src, len)
    ensures var s := Step(t, v[r.at..pos]);
      StepOk(r, s, e) && After(r, s, e).rep == Renewed(r.rep, t.sel)
      && var x := After(r, s, e); x.at == pos + Length(t, Offset(r.rep, t.sel)) && Agree(x.ring, v, x.at, e)
  {
    var len := Length(t, Offset(r.rep, t.sel));
    LiteralsAgree(r.ring, v, r.at, pos, e);
    CopyAgrees(Wrote(r.ring, r.at, v[r.at..pos]), v, pos, src, len, e);
  }

  /** The last literals, and the whole chunk is in the ring. */
  lemma RestAgrees(r: Replay, v: seq<Byte>, e: nat, ring: seq<Byte>, at: nat)
    requires Agree(r.ring, v, r.at, e) && r.at <= e <= |v| && at <= e && Agree(ring, v, at, e)
    ensures Wrote(r.ring, r.at, v[r.at..e]) == v == Wrote(ring, at, v[at..e])
  {
  }
}
