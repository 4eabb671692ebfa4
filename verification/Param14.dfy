/**
 param14 (src/nz_bwt.cpp): the LZ pass behind the BWT, which marks a match in the byte stream
 with the tag 0xfe 0xf1 0x00 and codes its offset and length in an arithmetic side stream.
 This module is the format: the operations a stream consists of, what each writes and does.
 */
module Param14Format {
  import opened Words
  import opened LastFour
  import opened RangeCoder
  import opened IntCoding

  const TAG := 0xfef1

  /**
   A literal byte; the selector 1 that says the tag before it was literal data; a match at a new
   distance; a match at one of the four distances used last.
   */
  datatype Op = Literal(b: Byte) | Escape | Fresh(dist: nat, len: nat) | Again(slot: nat, len: nat)

  /** The adaptive cells of the side stream. */
  datatype Models = Models(a: Cells, b: Cells, c: Cells, d: Cells)

  ghost predicate Sized(m: Models) {
    |m.a| == 4 && |m.b| == 64 && |m.c| == 256 && |m.d| == 32
  }

  /** Decoded bytes, last distances, cells, and the last two bytes of the stream as the decoder keeps them. */
  datatype World = World(out: seq<Byte>, rep: seq<nat>, m: Models, prev: nat)

  function Copied(out: seq<Byte>, dist: nat, len: nat): (r: seq<Byte>)
    requires 1 <= dist <= |out|
    ensures |r| == |out| + len && r[..|out|] == out
    decreases len
  {
    if len == 0 then out else Copied(out + [out[|out| - dist]], dist, len - 1)
  }

  ghost predicate WorldOk(w: World) {
    |w.rep| == 4 && Sized(w.m)
  }

  /** Where an operation may stand. A match is at least 7 long and reaches back into what is decoded. */
  ghost predicate OpOk(w: World, op: Op)
    requires WorldOk(w)
  {
    match op
    case Literal(b) => !(w.prev == TAG && b <= 1)
    case Escape => w.prev == TAG
    case Fresh(dist, len) => 1 <= dist <= |w.out| && Bsr(dist) <= 31 && 7 <= len && Bsr(len - 7) <= 31
    case Again(slot, len) => slot < 4 && 1 <= w.rep[slot] <= |w.out| && 7 <= len && Bsr(len - 7) <= 31
  }

  /** The bytes an operation puts into the stream. */
  function OpBytes(op: Op): seq<Byte> {
    match op
    case Literal(b) => [b]
    case Escape => [1]
    case Fresh(_, _) => [0xfe, 0xf1, 0]
    case Again(_, _) => [0xfe, 0xf1, 0]
  }

  /** Zeros up to the slot, a one at it; four zeros for slot 4. */
  function SlotCode(a: Cells, i: nat, slot: nat): (c: Coded)
    requires |a| == 4 && i <= slot <= 4
    ensures |c.m| == 4
    decreases 4 - i
  {
    if i == 4 then Coded([], a)
    else
      var d := Decision(i == slot, P12(a[i]));
      var a1 := a[i := Nudge(a[i], i == slot, 4, 8)];
      if i == slot then Coded([d], a1)
      else
        var c := SlotCode(a1, i + 1, slot);
        Coded([d] + c.ds, c.m)
  }

  /** The highest tree index that `k` more bits may start from. */
  function TreeRoom(k: nat): nat {
    if k == 2 then 3 else if k == 1 then 7 else 15
  }

  /** Decisions, cells, and the bits of the value that are still to be coded. */
  datatype Branch = Branch(ds: seq<Decision>, m: Cells, rest: nat)

  /** The first `k` of the `width` bits of `low`, through a binary tree of cells. */
  function TreeCode(c: Cells, base: nat, accum: nat, low: nat, width: nat, k: nat): (r: Branch)
    requires low < Pow2(width) && k <= width && k <= 2 && accum <= TreeRoom(k) && base + 8 <= |c|
    ensures |r.m| == |c| && r.rest < Pow2(width - k)
    decreases k
  {
    if k == 0 then Branch([], c, low)
    else
      var bit := low >= Pow2(width - 1);
      var d := Decision(bit, P12(c[base + accum]));
      var c1 := c[base + accum := Nudge(c[base + accum], bit, 8, 16)];
      var t := TreeCode(c1, base, accum * 2 + if bit then 1 else 0, LowerBits(low, width - 1), width - 1, k - 1);
      Branch([d] + t.ds, t.m, t.rest)
  }

  lemma TreeNext(c: Cells, base: nat, accum: nat, low: nat, w: nat, k: nat, later: seq<Decision>)
    requires 0 < k <= w && low < Pow2(w) && k <= 2 && accum <= TreeRoom(k) && base + 8 <= |c|
    ensures var bit, rest := low >= Pow2(w - 1), LowerBits(low, w - 1);
      var s := TreeCode(c, base, accum, low, w, k);
      var t := TreeCode(c[base + accum := Nudge(c[base + accum], bit, 8, 16)], base, accum * 2 + if bit then 1 else 0, rest, w - 1, k - 1);
      s.ds + later == [Decision(bit, P12(c[base + accum]))] + (t.ds + later) && s.m == t.m && s.rest == t.rest
  {
  }

  lemma JoinDecisions(a: seq<Decision>, b: seq<Decision>, c: seq<Decision>, d: seq<Decision>)
    ensures a + (b + c) + d == a + (b + (c + d))
    ensures a + b + d == a + (b + d)
  {
  }

  function TreeBits(v: nat): nat {
    if Bsr(v) >= 2 then 2 else 1
  }

  /** The low bits of a length: the first two through the tree, the others raw. */
  function LowCode(c: Cells, init: nat, v: nat): (r: Coded)
    requires |c| == 256 && init <= 3 && Bsr(v) <= 31
    ensures |r.m| == |c|
  {
    var t := TreeCode(c, Bsr(v) * 8, init, LowBits(v), LowWidth(v), TreeBits(v));
    Coded(t.ds + Raw(t.rest, LowWidth(v) - TreeBits(v)), t.m)
  }

  /** A length: its unary bit count, the first two low bits through the tree, the others raw. */
  function LenCode(m: Models, hi: nat, init: nat, v: nat): (r: (seq<Decision>, Models))
    requires Sized(m) && hi + 32 <= 64 && init <= 3 && Bsr(v) <= 31
    ensures Sized(r.1)
  {
    var u := Unary(Steady, m.b, hi, 0, Bsr(v), 32);
    var l := LowCode(m.c, init, v);
    (u.ds + l.ds, m.(b := u.m, c := l.m))
  }

  /** A match at a new distance, behind its slot. */
  function FreshCode(m: Models, dist: nat, len: nat): (r: (seq<Decision>, Models))
    requires Sized(m) && Bsr(dist) <= 31 && len >= 7 && Bsr(len - 7) <= 31
    ensures Sized(r.1)
  {
    var o := IntCode(m.d, 31, dist);
    var l := LenCode(m.(d := o.m), 0, 1, len - 7);
    (o.ds + l.0, l.1)
  }

  ghost predicate Codable(op: Op) {
    && (op.Fresh? ==> Bsr(op.dist) <= 31 && op.len >= 7 && Bsr(op.len - 7) <= 31)
    && (op.Again? ==> op.slot < 4 && op.len >= 7 && Bsr(op.len - 7) <= 31)
  }

  /** The decisions of an operation and the cells after it. */
  function OpCode(m: Models, op: Op): (r: (seq<Decision>, Models))
    requires Sized(m) && Codable(op)
    ensures Sized(r.1)
  {
    match op
    case Literal(_) => ([], m)
    case Escape => ([], m)
    case Fresh(dist, len) =>
      var s := SlotCode(m.a, 0, 0);
      var f := FreshCode(m.(a := s.m), dist, len);
      (s.ds + f.0, f.1)
    case Again(slot, len) =>
      var s := SlotCode(m.a, 0, slot + 1);
      var l := LenCode(m.(a := s.m), 32, 3, len - 7);
      (s.ds + l.0, l.1)
  }

  ghost predicate IsOpCode(r: (seq<Decision>, Models), m: Models, op: Op)
    requires Sized(m) && Codable(op)
  {
    Sized(r.1) && forall k {:trigger Look(Codes, k)} :: Look(Codes, k) ==> r == OpCode(m, op)
  }

  /** `OpCode`, out of sight until `Look(Codes, 0)`. */
  ghost function Written(m: Models, op: Op): (r: (seq<Decision>, Models))
    requires Sized(m) && Codable(op)
    ensures Sized(r.1)
  {
    assert IsOpCode(OpCode(m, op), m, op);
    var r :| IsOpCode(r, m, op);
    r
  }

  lemma WrittenIs(m: Models, op: Op)
    requires Sized(m) && Codable(op)
    ensures Written(m, op) == OpCode(m, op)
  {
    assert Look(Codes, 0);
  }

  /** The slot's distance moves to the front. */
  method Promote<T>(rep0: seq<T>, slot: nat) returns (rep: seq<T>)
    requires |rep0| == 4 && slot < 4
    ensures rep == Promoted(rep0, slot)
  {
    var offset := rep0[slot];
    rep := rep0;
    var i := slot;
    while i != 0
      invariant i <= slot && |rep| == 4
      invariant forall j :: 0 <= j < 4 ==> rep[j] == rep0[if i < j <= slot then j - 1 else j]
    {
      rep := rep[i := rep[i - 1]];
      i := i - 1;
    }
    rep := rep[0 := offset];
  }

  /** What an operation does. */
  ghost function Next(w: World, op: Op): (r: World)
    requires WorldOk(w) && OpOk(w, op)
    ensures WorldOk(r)
  {
    var m := Written(w.m, op).1;
    match op
    case Literal(b) => World(w.out + [b], w.rep, m, w.prev % 256 * 256 + b)
    case Escape => World(w.out, w.rep, m, 0)
    case Fresh(dist, len) => World(Copied(w.out, dist, len), [dist] + w.rep[..3], m, 0)
    case Again(slot, len) => World(Copied(w.out, w.rep[slot], len), Promoted(w.rep, slot), m, 0)
  }

  // ---------------------------------------------------------------- whole streams

  function Half(n: nat): (m: Cells)
    ensures |m| == n
  {
    seq(n, _ => 0x8000)
  }

  function Origin(): World {
    World([], [1, 1, 1, 1], Models(Half(4), Half(64), Half(256), Half(32)), 0)
  }

  /** One operation of a stream: the world it found and the one it left, and what it wrote. */
  datatype Step = Step(before: World, op: Op, after: World, bytes: seq<Byte>, ds: seq<Decision>)

  ghost function Take(w: World, op: Op): Step
    requires WorldOk(w) && OpOk(w, op)
  {
    Step(w, op, Next(w, op), OpBytes(op), Written(w.m, op).0)
  }

  ghost predicate StepOk(s: Step) {
    forall k {:trigger Look(Steps, k)} :: Look(Steps, k) ==> WorldOk(s.before) && OpOk(s.before, s.op) && s == Take(s.before, s.op)
  }

  ghost function Reached(steps: seq<Step>, k: nat): World
    requires k <= |steps|
  {
    if k == 0 then Origin() else steps[k - 1].after
  }

  /** A stream: steps that follow each other from the origin. */
  ghost predicate IsRun(steps: seq<Step>) {
    forall k :: 0 <= k < |steps| ==> StepOk(steps[k]) && steps[k].before == Reached(steps, k)
  }

  function BytesFrom(steps: seq<Step>, k: nat): seq<Byte>
    requires k <= |steps|
    decreases |steps| - k
  {
    if k == |steps| then [] else steps[k].bytes + BytesFrom(steps, k + 1)
  }

  function SideFrom(steps: seq<Step>, k: nat): seq<Decision>
    requires k <= |steps|
    decreases |steps| - k
  {
    if k == |steps| then [] else steps[k].ds + SideFrom(steps, k + 1)
  }

  /** The stream grows at its end. */
  lemma {:induction false} Snoc(steps: seq<Step>, s: Step, k: nat)
    requires k <= |steps|
    ensures BytesFrom(steps + [s], k) == BytesFrom(steps, k) + s.bytes
    ensures SideFrom(steps + [s], k) == SideFrom(steps, k) + s.ds
    decreases |steps| - k
  {
    if k == |steps| {
      assert BytesFrom(steps + [s], k + 1) == [] && SideFrom(steps + [s], k + 1) == [];
    } else {
      Snoc(steps, s, k + 1);
    }
  }

  lemma RunGrows(steps: seq<Step>, s: Step)
    requires IsRun(steps) && StepOk(s) && s.before == Reached(steps, |steps|)
    ensures IsRun(steps + [s]) && Reached(steps + [s], |steps| + 1) == s.after
  {
    var all := steps + [s];
    forall k | 0 <= k < |all| ensures StepOk(all[k]) && all[k].before == Reached(all, k) {
      if k < |steps| {
        assert all[k] == steps[k];
        assert Reached(all, k) == Reached(steps, k);
      }
    }
  }

  /** An escape is never the last step. */
  ghost predicate Complete(steps: seq<Step>) {
    steps == [] || !steps[|steps| - 1].op.Escape?
  }

  /** The steps so far have led to `w` and written `out` and `trace`; `open` is set behind an escape. */
  ghost predicate Logged(steps: seq<Step>, w: World, out: seq<Byte>, trace: seq<Decision>, open: bool) {
    forall k {:trigger Look(Log, k)} :: Look(Log, k) ==>
      && IsRun(steps) && w == Reached(steps, |steps|) && (!open ==> Complete(steps))
      && out == BytesFrom(steps, 0) && trace == SideFrom(steps, 0)
  }

  lemma LogGrows(steps: seq<Step>, w: World, out: seq<Byte>, trace: seq<Decision>, open: bool, op: Op)
    requires Logged(steps, w, out, trace, open) && WorldOk(w) && OpOk(w, op)
    ensures Logged(steps + [Take(w, op)], Next(w, op), out + OpBytes(op), trace + Written(w.m, op).0, op.Escape?)
  {
    assert Look(Log, 0);
    RunGrows(steps, Take(w, op));
    Snoc(steps, Take(w, op), 0);
  }

  /** `payload` and `side` are what a run that makes `data` writes. */
  ghost predicate Encodes(data: seq<Byte>, payload: seq<Byte>, side: seq<Byte>, steps: seq<Step>) {
    && IsRun(steps) && Complete(steps)
    && Reached(steps, |steps|).out == data
    && payload == BytesFrom(steps, 0)
    && side == Code(Coarse, FULL, SideFrom(steps, 0))
  }
}

/** The decoder (NzBwtParam14). */
module Param14Decoder {
  import opened Words
  import opened LastFour
  import opened RangeCoder
  import opened IntCoding
  import opened Param14Format

  method ReadSlot(dec: Decoder, a0: Cells, ghost slot: nat, ghost later: seq<Decision>) returns (x: nat, a: Cells)
    requires dec.Valid() && |a0| == 4
    modifies dec
    ensures dec.Valid() && x <= 4 && |a| == 4
    ensures slot <= 4 && old(dec.Ahead(SlotCode(a0, 0, slot).ds + later))
      ==> x == slot && a == SlotCode(a0, 0, slot).m && dec.Ahead(later)
  {
    a, x := a0, 0;
    ghost var coded := slot <= 4 && dec.Ahead(SlotCode(a0, 0, slot).ds + later);
    while x != 4
      invariant dec.Valid() && x <= 4 && |a| == 4
      invariant coded ==> x <= slot && SlotCode(a, x, slot).m == SlotCode(a0, 0, slot).m
      invariant coded ==> dec.Ahead(SlotCode(a, x, slot).ds + later)
      decreases 4 - x
    {
      var bit := dec.Read(P12(a[x]));
      a := a[x := Nudge(a[x], bit, 4, 8)];
      if bit {
        assert coded ==> dec.future == later;
        return;
      }
      x := x + 1;
      assert coded ==> dec.future == SlotCode(a, x, slot).ds + later;
    }
    assert coded ==> dec.future == later;
  }

  /** One bit through the tree, the last of the place it leads to. */
  method ReadBranch(dec: Decoder, c0: Cells, base: nat, accum0: nat, left: nat,
                    ghost low: nat, ghost w: nat, ghost coded: bool, ghost later: seq<Decision>)
    returns (c: Cells, accum: nat)
    requires dec.Valid() && 0 < left <= 2 && accum0 <= TreeRoom(left) && base + 8 <= |c0|
    requires coded ==> left <= w && low < Pow2(w) && dec.Ahead(TreeCode(c0, base, accum0, low, w, left).ds + later)
    modifies dec
    ensures dec.Valid() && |c| == |c0| && accum <= TreeRoom(left - 1)
    ensures coded ==> accum % 2 == (if low >= Pow2(w - 1) then 1 else 0) && LowerBits(low, w - 1) < Pow2(w - 1)
    ensures coded ==> var s, t := TreeCode(c0, base, accum0, low, w, left), TreeCode(c, base, accum, LowerBits(low, w - 1), w - 1, left - 1);
      dec.Ahead(t.ds + later) && s.m == t.m && s.rest == t.rest
  {
    if coded {
      TreeNext(c0, base, accum0, low, w, left, later);
    }
    var bit := dec.Read(P12(c0[base + accum0]));
    c := c0[base + accum0 := Nudge(c0[base + accum0], bit, 8, 16)];
    accum := accum0 * 2 + if bit then 1 else 0;
  }

  /** `k` bits through the tree, appended to `x0`. */
  method ReadTree(dec: Decoder, c0: Cells, base: nat, accum0: nat, x0: nat, k: nat,
                  ghost low: nat, ghost width: nat, ghost later: seq<Decision>) returns (x: nat, c: Cells)
    requires dec.Valid() && k <= 2 && accum0 <= TreeRoom(k) && base + 8 <= |c0|
    modifies dec
    ensures dec.Valid() && |c| == |c0|
    ensures k <= width && low < Pow2(width) && old(dec.Ahead(TreeCode(c0, base, accum0, low, width, k).ds + later))
      ==> var t := TreeCode(c0, base, accum0, low, width, k);
        dec.Ahead(later) && c == t.m && Join(x, t.rest, width - k) == Join(x0, low, width)
  {
    x, c := x0, c0;
    var accum: nat, left: nat := accum0, k;
    ghost var coded := k <= width && low < Pow2(width) && dec.Ahead(TreeCode(c0, base, accum0, low, width, k).ds + later);
    ghost var rest: nat, w: nat := low, width;
    ghost var goal := if coded then TreeCode(c0, base, accum0, low, width, k) else Branch([], c0, 0);
    while left > 0
      invariant dec.Valid() && |c| == |c0| && left <= k && accum <= TreeRoom(left)
      invariant coded ==> left <= w && w - left == width - k && rest < Pow2(w) && Join(x, rest, w) == Join(x0, low, width)
      invariant coded ==> var t := TreeCode(c, base, accum, rest, w, left);
        dec.Ahead(t.ds + later) && t.m == goal.m && t.rest == goal.rest
    {
      c, accum := ReadBranch(dec, c, base, accum, left, rest, w, coded, later);
      x := x * 2 + accum % 2;
      left := left - 1;
      if coded {
        rest, w := LowerBits(rest, w - 1), w - 1;
      }
    }
    assert coded ==> dec.future == later;
  }

  /** The code of a length's low bits: those of the tree, then `rest` as it is. */
  lemma LowFirst(c: Cells, init: nat, v: nat, later: seq<Decision>) returns (k: nat, lower: nat, rest: nat, raw: seq<Decision>)
    requires |c| == 256 && init <= 3 && Bsr(v) <= 31
    ensures k == (if Bsr(v) >= 2 then 2 else 1) && lower == (if Bsr(v) >= 2 then Bsr(v) - 2 else 0)
    ensures k <= LowWidth(v) == k + lower && LowBits(v) < Pow2(LowWidth(v)) && rest < Pow2(lower)
    ensures var t := TreeCode(c, Bsr(v) * 8, init, LowBits(v), LowWidth(v), k);
      LowCode(c, init, v).ds + later == t.ds + raw && LowCode(c, init, v).m == t.m && rest == t.rest
    ensures raw == Raw(rest, lower) + later
  {
    k, lower := TreeBits(v), LowWidth(v) - TreeBits(v);
    var t := TreeCode(c, Bsr(v) * 8, init, LowBits(v), LowWidth(v), k);
    rest, raw := t.rest, Raw(t.rest, lower) + later;
    Cat(t.ds, Raw(t.rest, lower), later);
  }

  /** The low bits that go through the tree. */
  method ReadTop(dec: Decoder, c0: Cells, init: nat, lenbits: nat, ghost v: nat, ghost coded: bool, ghost later: seq<Decision>)
    returns (x: nat, c: Cells, lower: nat, ghost rest: nat)
    requires dec.Valid() && |c0| == 256 && init <= 3 && lenbits <= 31
    requires coded ==> lenbits == Bsr(v) && dec.Ahead(LowCode(c0, init, v).ds + later)
    modifies dec
    ensures dec.Valid() && |c| == 256
    ensures coded ==> c == LowCode(c0, init, v).m && rest < Pow2(lower) && Join(x, rest, lower) == v
    ensures coded ==> dec.Ahead(Raw(rest, lower) + later)
  {
    ghost var raw, low, width: nat := later, LowBits(v), LowWidth(v);
    rest := 0;
    if coded { rest, raw := TopFirst(c0, init, v, later, lenbits, low, width); }
    var treeBits;
    treeBits, lower := if lenbits >= 2 then 2 else 1, if lenbits >= 2 then lenbits - 2 else 0;
    x, c := ReadTree(dec, c0, lenbits * 8, init, if lenbits != 0 then 1 else 0, treeBits, low, width, raw);
  }

  lemma TopFirst(c: Cells, init: nat, v: nat, later: seq<Decision>, lenbits: nat, low: nat, width: nat) returns (rest: nat, raw: seq<Decision>)
    requires |c| == 256 && init <= 3 && lenbits == Bsr(v) <= 31 && low == LowBits(v) && width == LowWidth(v)
    ensures var k, lower := if lenbits >= 2 then 2 else 1, if lenbits >= 2 then lenbits - 2 else 0;
      && width == k + lower && low < Pow2(width) && rest < Pow2(lower) && raw == Raw(rest, lower) + later
      && var t := TreeCode(c, lenbits * 8, init, low, width, k);
      && LowCode(c, init, v).ds + later == t.ds + raw && LowCode(c, init, v).m == t.m && rest == t.rest
    ensures Join(if lenbits != 0 then 1 else 0, low, width) == v
  {
    var k, lower;
    k, lower, rest, raw := LowFirst(c, init, v, later);
    LenValue(v);
  }

  method ReadLow(dec: Decoder, c0: Cells, init: nat, lenbits: nat, ghost v: nat, ghost later: seq<Decision>)
    returns (x: nat, c: Cells)
    requires dec.Valid() && |c0| == 256 && init <= 3 && lenbits <= 31
    modifies dec
    ensures dec.Valid() && |c| == 256
    ensures lenbits == Bsr(v) && old(dec.Ahead(LowCode(c0, init, v).ds + later))
      ==> x == v && c == LowCode(c0, init, v).m && dec.Ahead(later)
  {
    ghost var coded := lenbits == Bsr(v) && dec.Ahead(LowCode(c0, init, v).ds + later);
    var lower;
    ghost var rest;
    x, c, lower, rest := ReadTop(dec, c0, init, lenbits, v, coded, later);
    x := ReadRaw(dec, x, lower, rest, later);
  }

  lemma LenValue(v: nat)
    ensures Join(if Bsr(v) != 0 then 1 else 0, LowBits(v), LowWidth(v)) == v
  {
    JoinIs(if Bsr(v) != 0 then 1 else 0, LowBits(v), LowWidth(v));
  }

  /** A length. A unary part past the cells, which no encoder writes, is refused. */
  method ReadLen(dec: Decoder, m: Models, hi: nat, init: nat, ghost v: nat, ghost later: seq<Decision>)
    returns (ok: bool, x: nat, r: Models)
    requires dec.Valid() && Sized(m) && hi + 32 <= 64 && init <= 3
    modifies dec
    ensures dec.Valid() && Sized(r)
    ensures Bsr(v) <= 31 && old(dec.Ahead(LenCode(m, hi, init, v).0 + later))
      ==> ok && x == v && r == LenCode(m, hi, init, v).1 && dec.Ahead(later)
  {
    ghost var coded := Bsr(v) <= 31 && dec.Ahead(LenCode(m, hi, init, v).0 + later);
    ghost var l := if coded then LowCode(m.c, init, v).ds else [];
    if coded {
      JoinDecisions(Unary(Steady, m.b, hi, 0, Bsr(v), 32).ds, l, [], later);
    }
    ok, x, r := false, 0, m;
    var lenbits, b := ReadUnary(dec, Steady, m.b, hi, 32, Bsr(v), l + later);
    if lenbits == 32 { return; }
    var c;
    x, c := ReadLow(dec, m.c, init, lenbits, v, later);
    ok, r := true, m.(b := b, c := c);
  }

  method CopyMatch(out0: seq<Byte>, dist: nat, len: nat) returns (out: seq<Byte>)
    requires 1 <= dist <= |out0|
    ensures out == Copied(out0, dist, len)
  {
    out := out0;
    for i := 0 to len
      invariant |out| == |out0| + i
      invariant Copied(out, dist, len - i) == Copied(out0, dist, len)
    {
      out := out + [out[|out| - dist]];
    }
  }

  const TAG_BYTES: seq<Byte> := [0xfe, 0xf1]

  ghost predicate IsMatch(op: Op) {
    op.Fresh? || op.Again?
  }

  /**
   The decoder stands in step `k` with `st` bytes of its tag read: the input ahead, the output so
   far and the last two bytes are the run's.
   */
  ghost predicate Standing(steps: seq<Step>, k: nat, st: nat, input: seq<Byte>, pos: nat, out: seq<Byte>) {
    && k <= |steps| && st <= 2 && pos <= |input|
    && (st > 0 ==> k < |steps| && IsMatch(steps[k].op))
    && forall z {:trigger Look(Spot, z)} :: Look(Spot, z) ==>
      && IsRun(steps)
      && TAG_BYTES[..st] + input[pos..] == BytesFrom(steps, k)
      && out == Reached(steps, k).out + TAG_BYTES[..st]
  }

  function PrevIn(prev: nat, st: nat): nat {
    if st == 0 then prev else if st == 1 then prev % 256 * 256 + 0xfe else TAG
  }

  /** What a step is, out of `StepOk`. */
  lemma StepIs(s: Step)
    requires StepOk(s)
    ensures WorldOk(s.before) && OpOk(s.before, s.op)
    ensures s.after == Next(s.before, s.op) && s.bytes == OpBytes(s.op) && s.ds == Written(s.before.m, s.op).0
  {
    assert Look(Steps, 0);
  }

  /** As much of a step as the byte stream shows. */
  ghost predicate Shape(s: Step) {
    match s.op
    case Literal(b) =>
      && s.bytes == [b] && !(s.before.prev == TAG && b <= 1)
      && s.after.out == s.before.out + [b] && s.after.prev == s.before.prev % 256 * 256 + b
      && s.ds == [] && s.after.m == s.before.m && s.after.rep == s.before.rep
    case Escape =>
      && s.bytes == [1] && s.before.prev == TAG && s.after.out == s.before.out && s.after.prev == 0
      && s.ds == [] && s.after.m == s.before.m && s.after.rep == s.before.rep
    case _ =>
      s.bytes == [0xfe, 0xf1, 0] && s.after.prev == 0 && |s.before.out| + 7 <= |s.after.out|
  }

  lemma StepShape(s: Step)
    requires StepOk(s)
    ensures Shape(s)
  {
    StepIs(s);
    WrittenIs(s.before.m, s.op);
  }

  lemma {:induction false} OutGrows(steps: seq<Step>, k: nat)
    requires IsRun(steps) && k <= |steps|
    ensures |Reached(steps, k).out| <= |Reached(steps, |steps|).out|
    decreases |steps| - k
  {
    if k < |steps| {
      StepShape(steps[k]);
      OutGrows(steps, k + 1);
    }
  }

  /** A whole run whose output fits into `cap` bytes. */
  ghost predicate Fits(steps: seq<Step>, cap: nat) {
    Complete(steps) && |Reached(steps, |steps|).out| <= cap
  }

  /** Before the end of the run there is output to come: seven bytes or more at a match. */
  lemma StillToCome(steps: seq<Step>, k: nat)
    requires IsRun(steps) && Complete(steps) && k < |steps|
    ensures |Reached(steps, k).out| + (if IsMatch(steps[k].op) then 7 else 1) <= |Reached(steps, |steps|).out|
  {
    StepAdds(steps, k);
    OutGrows(steps, k + 1);
    if steps[k].op.Escape? {
      EscapesAreApart(steps, k);
      StepAdds(steps, k + 1);
      OutGrows(steps, k + 2);
    }
  }

  lemma EscapesAreApart(steps: seq<Step>, k: nat)
    requires IsRun(steps) && k + 1 < |steps| && steps[k].op.Escape?
    ensures !steps[k + 1].op.Escape?
  {
    StepShape(steps[k]);
    StepShape(steps[k + 1]);
  }

  /** What one step adds to the output. */
  lemma StepAdds(steps: seq<Step>, k: nat)
    requires IsRun(steps) && k < |steps|
    ensures |Reached(steps, k + 1).out| >= |Reached(steps, k).out| +
      if IsMatch(steps[k].op) then 7 else if steps[k].op.Literal? then 1 else 0
  {
    StepShape(steps[k]);
  }

  lemma RoomLeft(steps: seq<Step>, k: nat, st: nat, input: seq<Byte>, pos: nat, out: seq<Byte>, cap: nat)
    requires Standing(steps, k, st, input, pos, out) && Fits(steps, cap) && k < |steps|
    ensures |out| < cap
  {
    assert IsRun(steps) && |out| == |Reached(steps, k).out| + st by { assert Look(Spot, 0); }
    StillToCome(steps, k);
  }

  /** Is the decoder before a selector byte? Exactly at an escape, or behind a match's tag. */
  lemma AtSelector(steps: seq<Step>, k: nat, st: nat, input: seq<Byte>, pos: nat, out: seq<Byte>)
    requires Standing(steps, k, st, input, pos, out) && k < |steps|
    ensures pos < |input|
    ensures (PrevIn(Reached(steps, k).prev, st) == TAG && input[pos] <= 1) == (st == 2 || steps[k].op.Escape?)
    ensures st == 2 ==> input[pos] == 0
    ensures steps[k].op.Escape? ==> input[pos] == 1
  {
    assert Look(Spot, 0);
    var s, ahead := steps[k], TAG_BYTES[..st] + input[pos..];
    StepShape(s);
    assert ahead == s.bytes + BytesFrom(steps, k + 1);
    assert input[pos] == ahead[st];
  }

  /** The arithmetic side of the decoder has not moved between two steps. */
  ghost predicate SameSide(steps: seq<Step>, k: nat, k0: nat) {
    && k <= |steps| && k0 <= |steps|
    && Reached(steps, k).m == Reached(steps, k0).m && Reached(steps, k).rep == Reached(steps, k0).rep
    && SideFrom(steps, k) == SideFrom(steps, k0)
  }

  /** Any other byte is output: a literal, */
  lemma LiteralByte(steps: seq<Step>, k: nat, input: seq<Byte>, pos: nat, out: seq<Byte>)
    requires Standing(steps, k, 0, input, pos, out) && k < |steps| && steps[k].op.Literal?
    ensures pos < |input| && Standing(steps, k + 1, 0, input, pos + 1, out + [input[pos]])
    ensures Reached(steps, k + 1).prev == Reached(steps, k).prev % 256 * 256 + input[pos]
    ensures SameSide(steps, k + 1, k)
  {
    assert Look(Spot, 0);
    var s := steps[k];
    StepShape(s);
    assert TAG_BYTES[..0] + input[pos..] == input[pos..] == [s.op.b] + BytesFrom(steps, k + 1);
    assert input[pos] == s.op.b && input[pos + 1..] == BytesFrom(steps, k + 1);
    assert TAG_BYTES[..0] + input[pos + 1..] == input[pos + 1..];
    assert out + [input[pos]] == s.after.out + TAG_BYTES[..0];
  }

  /** or one more byte of a tag. */
  lemma TagByte(steps: seq<Step>, k: nat, st: nat, input: seq<Byte>, pos: nat, out: seq<Byte>)
    requires Standing(steps, k, st, input, pos, out) && k < |steps| && IsMatch(steps[k].op) && st < 2
    ensures pos < |input| && Standing(steps, k, st + 1, input, pos + 1, out + [input[pos]])
    ensures PrevIn(Reached(steps, k).prev, st + 1) == PrevIn(Reached(steps, k).prev, st) % 256 * 256 + input[pos]
  {
    assert Look(Spot, 0);
    var s, ahead := steps[k], TAG_BYTES[..st] + input[pos..];
    StepShape(s);
    assert ahead == [0xfe, 0xf1, 0] + BytesFrom(steps, k + 1);
    assert input[pos] == ahead[st] == TAG_BYTES[st];
    assert input[pos..] == [input[pos]] + input[pos + 1..];
    assert TAG_BYTES[..st + 1] == TAG_BYTES[..st] + [input[pos]];
    assert TAG_BYTES[..st + 1] + input[pos + 1..] == ahead;
  }

  lemma BeforeByte(steps: seq<Step>, k: nat, st: nat, input: seq<Byte>, pos: nat, out: seq<Byte>, cap: nat)
    requires Standing(steps, k, st, input, pos, out) && Fits(steps, cap)
    ensures k == |steps| ==> pos == |input|
    ensures k < |steps| ==> pos < |input| && |out| < cap
    ensures k < |steps| ==> (PrevIn(Reached(steps, k).prev, st) == TAG && input[pos] <= 1) == (st == 2 || steps[k].op.Escape?)
  {
    if k < |steps| {
      AtSelector(steps, k, st, input, pos, out);
      RoomLeft(steps, k, st, input, pos, out, cap);
    } else {
      assert Look(Spot, 0);
    }
  }

  lemma PlainByte(steps: seq<Step>, k: nat, st: nat, input: seq<Byte>, pos: nat, out: seq<Byte>) returns (k': nat, st': nat)
    requires Standing(steps, k, st, input, pos, out) && k < |steps| && st < 2 && !steps[k].op.Escape?
    ensures pos < |input| && Standing(steps, k', st', input, pos + 1, out + [input[pos]])
    ensures PrevIn(Reached(steps, k').prev, st') == PrevIn(Reached(steps, k).prev, st) % 256 * 256 + input[pos]
    ensures SameSide(steps, k', k)
  {
    if steps[k].op.Literal? {
      LiteralByte(steps, k, input, pos, out);
      k', st' := k + 1, 0;
    } else {
      TagByte(steps, k, st, input, pos, out);
      k', st' := k, st + 1;
    }
  }

  datatype Stop = Finished | NoRoom | Selector

  /** Copies bytes to the output up to the end of the input, the end of the room, or a selector. */
  method Scan(input: seq<Byte>, pos0: nat, out0: seq<Byte>, cap: nat, ghost steps: seq<Step>, ghost k0: nat)
    returns (stop: Stop, pos: nat, out: seq<Byte>, ghost k: nat, ghost st: nat)
    requires pos0 <= |input| && |out0| <= cap
    ensures pos0 <= pos <= |input| && |out| <= cap
    ensures stop.Selector? ==> pos < |input| && input[pos] <= 1
    ensures Standing(steps, k0, 0, input, pos0, out0) && Reached(steps, k0).prev == 0 && Fits(steps, cap)
      ==> Standing(steps, k, st, input, pos, out) && !stop.NoRoom? && SameSide(steps, k, k0)
    ensures Standing(steps, k0, 0, input, pos0, out0) && Reached(steps, k0).prev == 0 && Fits(steps, cap)
      ==> if stop.Finished? then k == |steps| else k < |steps| && (st == 2 || steps[k].op.Escape?)
  {
    pos, out, k, st := pos0, out0, k0, 0;
    var roomIn, roomOut := |input| - pos, cap - |out|;
    var scanMax := pos + if roomIn < roomOut then roomIn else roomOut;
    var prev: int := 0;
    ghost var coded := Standing(steps, k0, 0, input, pos0, out0) && Reached(steps, k0).prev == 0 && Fits(steps, cap);
    while true
      invariant pos0 <= pos <= scanMax <= |input| && |out| + (scanMax - pos) <= cap
      invariant scanMax == |input| || |out| + (scanMax - pos) == cap
      invariant coded ==> Standing(steps, k, st, input, pos, out) && prev == PrevIn(Reached(steps, k).prev, st) && SameSide(steps, k, k0)
      decreases scanMax - pos
    {
      if coded {
        BeforeByte(steps, k, st, input, pos, out, cap);
      }
      if pos == scanMax {
        return if pos != |input| then NoRoom else Finished, pos, out, k, st;
      }
      if prev == TAG && input[pos] <= 1 {
        return Selector, pos, out, k, st;
      }
      if coded {
        k, st := PlainByte(steps, k, st, input, pos, out);
      }
      prev := prev % 256 * 256 + input[pos];
      out := out + [input[pos]];
      pos := pos + 1;
    }
  }

  method ReadFresh(dec: Decoder, m: Models, ghost dist0: nat, ghost len0: nat, ghost later: seq<Decision>)
    returns (ok: bool, dist: nat, len: nat, m': Models)
    requires dec.Valid() && Sized(m)
    modifies dec
    ensures dec.Valid() && Sized(m')
    ensures Bsr(dist0) <= 31 && len0 >= 7 && Bsr(len0 - 7) <= 31 && old(dec.Ahead(FreshCode(m, dist0, len0).0 + later))
      ==> ok && dist == dist0 && len == len0 && m' == FreshCode(m, dist0, len0).1 && dec.Ahead(later)
  {
    ghost var coded := Bsr(dist0) <= 31 && len0 >= 7 && Bsr(len0 - 7) <= 31 && dec.Ahead(FreshCode(m, dist0, len0).0 + later);
    ghost var l := if coded then LenCode(m.(d := IntCode(m.d, 31, dist0).m), 0, 1, len0 - 7).0 else [];
    if coded {
      JoinDecisions(IntCode(m.d, 31, dist0).ds, l, [], later);
    }
    var d;
    dist, d := ReadInt(dec, m.d, 31, dist0, l + later);
    ok, len, m' := ReadLen(dec, m.(d := d), 0, 1, if len0 >= 7 then len0 - 7 else 0, later);
    len := len + 7;
  }

  /** A match copies `len` bytes from `dist` back. */
  ghost predicate Source(s: Step, dist: nat, len: nat) {
    1 <= dist <= |s.before.out| && s.after.out == Copied(s.before.out, dist, len)
  }

  /** What a match at a new distance, and one at a slot, leave behind. */
  lemma FreshIs(s: Step)
    requires StepOk(s) && s.op.Fresh?
    ensures Sized(s.before.m) && |s.before.rep| == 4 && Bsr(s.op.dist) <= 31 && s.op.len >= 7 && Bsr(s.op.len - 7) <= 31
    ensures s.after.rep == [s.op.dist] + s.before.rep[..3] && Source(s, s.op.dist, s.op.len)
    ensures s.after.m == FreshCode(s.before.m.(a := SlotCode(s.before.m.a, 0, 0).m), s.op.dist, s.op.len).1
  {
    StepIs(s);
    WrittenIs(s.before.m, s.op);
  }

  lemma AgainIs(s: Step)
    requires StepOk(s) && s.op.Again?
    ensures Sized(s.before.m) && |s.before.rep| == 4 && s.op.slot < 4 && s.op.len >= 7 && Bsr(s.op.len - 7) <= 31
    ensures s.after.rep == Promoted(s.before.rep, s.op.slot) && Source(s, s.before.rep[s.op.slot], s.op.len)
    ensures s.after.m == LenCode(s.before.m.(a := SlotCode(s.before.m.a, 0, s.op.slot + 1).m), 32, 3, s.op.len - 7).1
  {
    StepIs(s);
    WrittenIs(s.before.m, s.op);
  }

  /** A match at a new distance, behind its slot. */
  method ReadNew(dec: Decoder, m: Models, rep: seq<nat>, ghost s: Step, ghost coded: bool, ghost later: seq<Decision>)
    returns (ok: bool, dist: nat, len: nat, m': Models, rep': seq<nat>)
    requires dec.Valid() && Sized(m) && |rep| == 4
    requires coded ==> StepOk(s) && s.op.Fresh? && s.before.rep == rep && Sized(s.before.m)
    requires coded ==> m == s.before.m.(a := SlotCode(s.before.m.a, 0, 0).m)
    requires coded ==> Bsr(s.op.dist) <= 31 && s.op.len >= 7 && Bsr(s.op.len - 7) <= 31
    requires coded ==> dec.Ahead(FreshCode(m, s.op.dist, s.op.len).0 + later)
    modifies dec
    ensures dec.Valid() && Sized(m') && |rep'| == 4
    ensures coded ==> ok && m' == s.after.m && rep' == s.after.rep && dec.Ahead(later) && Source(s, dist, len)
  {
    ok, dist, len, m' := ReadFresh(dec, m, if coded then s.op.dist else 0, if coded then s.op.len else 0, later);
    rep' := [dist] + rep[..3];
    if coded { FreshIs(s); }
  }

  /** A match at one of the last four distances. */
  method ReadRepeat(dec: Decoder, m: Models, rep: seq<nat>, slot: nat, ghost s: Step, ghost coded: bool, ghost later: seq<Decision>)
    returns (ok: bool, len: nat, m': Models, rep': seq<nat>)
    requires dec.Valid() && Sized(m) && |rep| == 4 && slot < 4
    requires coded ==> StepOk(s) && s.op.Again? && s.op.slot == slot && s.before.rep == rep && Sized(s.before.m)
    requires coded ==> m == s.before.m.(a := SlotCode(s.before.m.a, 0, slot + 1).m)
    requires coded ==> s.op.len >= 7 && Bsr(s.op.len - 7) <= 31
    requires coded ==> dec.Ahead(LenCode(m, 32, 3, s.op.len - 7).0 + later)
    modifies dec
    ensures dec.Valid() && Sized(m') && |rep'| == 4
    ensures coded ==> ok && m' == s.after.m && rep' == s.after.rep && dec.Ahead(later) && Source(s, rep[slot], len)
  {
    rep' := Promote(rep, slot);
    ok, len, m' := ReadLen(dec, m, 32, 3, if coded then s.op.len - 7 else 0, later);
    len := len + 7;
    if coded { AgainIs(s); }
  }

  /** What the side stream says of one match: where from, how long, and the distances and cells after it. */
  method ReadMatch(dec: Decoder, m: Models, rep: seq<nat>, ghost s: Step, ghost later: seq<Decision>)
    returns (ok: bool, dist: nat, len: nat, m': Models, rep': seq<nat>)
    requires dec.Valid() && Sized(m) && |rep| == 4
    modifies dec
    ensures dec.Valid() && Sized(m') && |rep'| == 4
    ensures StepOk(s) && IsMatch(s.op) && s.before.m == m && s.before.rep == rep && old(dec.Ahead(s.ds + later))
      ==> ok && m' == s.after.m && rep' == s.after.rep && dec.Ahead(later) && Source(s, dist, len)
  {
    ghost var coded := StepOk(s) && IsMatch(s.op) && s.before.m == m && s.before.rep == rep && dec.Ahead(s.ds + later);
    ghost var slot := if coded && s.op.Again? then s.op.slot + 1 else 0;
    ghost var rest := [];
    if coded { rest := SlotFirst(s, later); }
    var x, a := ReadSlot(dec, m.a, slot, rest + later);
    if x == 0 {
      ok, dist, len, m', rep' := ReadNew(dec, m.(a := a), rep, s, coded, later);
    } else {
      dist := rep[x - 1];
      ok, len, m', rep' := ReadRepeat(dec, m.(a := a), rep, x - 1, s, coded, later);
    }
  }

  /** The decisions of a match behind its slot. */
  lemma SlotFirst(s: Step, later: seq<Decision>) returns (rest: seq<Decision>)
    requires StepOk(s) && IsMatch(s.op)
    ensures Sized(s.before.m) && (s.op.Again? ==> s.op.slot < 4)
    ensures s.ds + later == SlotCode(s.before.m.a, 0, if s.op.Again? then s.op.slot + 1 else 0).ds + (rest + later)
    ensures s.op.len >= 7 && Bsr(s.op.len - 7) <= 31 && (s.op.Fresh? ==> Bsr(s.op.dist) <= 31)
    ensures s.op.Again? ==> rest == LenCode(s.before.m.(a := SlotCode(s.before.m.a, 0, s.op.slot + 1).m), 32, 3, s.op.len - 7).0
    ensures s.op.Fresh? ==> rest == FreshCode(s.before.m.(a := SlotCode(s.before.m.a, 0, 0).m), s.op.dist, s.op.len).0
  {
    StepIs(s);
    var m := s.before.m;
    WrittenIs(m, s.op);
    if s.op.Fresh? {
      var c := SlotCode(m.a, 0, 0);
      rest := FreshCode(m.(a := c.m), s.op.dist, s.op.len).0;
      JoinDecisions(c.ds, rest, [], later);
    } else {
      var c := SlotCode(m.a, 0, s.op.slot + 1);
      rest := LenCode(m.(a := c.m), 32, 3, s.op.len - 7).0;
      JoinDecisions(c.ds, rest, [], later);
    }
  }

  /** Distances, cells and side stream before step `k`. */
  ghost predicate SideAt(steps: seq<Step>, k: nat, m: Models, rep: seq<nat>, future: seq<Decision>) {
    k <= |steps| && m == Reached(steps, k).m && rep == Reached(steps, k).rep && future == SideFrom(steps, k)
  }

  lemma Begins(data: seq<Byte>, input: seq<Byte>, side: seq<Byte>, steps: seq<Step>)
    requires Encodes(data, input, side, steps)
    ensures Standing(steps, 0, 0, input, 0, []) && Reached(steps, 0).prev == 0
    ensures SideAt(steps, 0, Origin().m, Origin().rep, SideFrom(steps, 0))
    ensures SameStream(side, Code(Coarse, FULL, SideFrom(steps, 0)))
  {
    assert TAG_BYTES[..0] + input[0..] == input;
  }

  /** A selector of 1 ends the escape. */
  lemma PastEscape(steps: seq<Step>, k: nat, st: nat, input: seq<Byte>, pos: nat, out: seq<Byte>)
    requires Standing(steps, k, st, input, pos, out) && k < |steps| && steps[k].op.Escape? && st == 0
    ensures pos < |input| && Standing(steps, k + 1, 0, input, pos + 1, out)
    ensures Reached(steps, k + 1).prev == 0 && SameSide(steps, k + 1, k)
  {
    assert IsRun(steps) && TAG_BYTES[..0] + input[pos..] == BytesFrom(steps, k) && out == Reached(steps, k).out + TAG_BYTES[..0] by {
      assert Look(Spot, 0);
    }
    StepShape(steps[k]);
    BehindSelector(input, pos, BytesFrom(steps, k + 1));
  }

  lemma BehindSelector(input: seq<Byte>, pos: nat, later: seq<Byte>)
    requires pos <= |input| && TAG_BYTES[..0] + input[pos..] == [1] + later
    ensures pos < |input| && TAG_BYTES[..0] + input[pos + 1..] == later
  {
    var ahead := input[pos..];
    assert TAG_BYTES[..0] + ahead == ahead;
    assert ahead[1..] == later && input[pos + 1..] == ahead[1..];
    assert TAG_BYTES[..0] + ahead[1..] == ahead[1..];
  }

  /** Behind the tag: the match is next, its two tag bytes on top of the output. */
  lemma AtMatch(steps: seq<Step>, k: nat, input: seq<Byte>, pos: nat, out: seq<Byte>, cap: nat)
    requires Standing(steps, k, 2, input, pos, out) && Fits(steps, cap)
    ensures k < |steps| && pos < |input| && StepOk(steps[k]) && steps[k].before == Reached(steps, k)
    ensures |out| >= 2 && out[..|out| - 2] == steps[k].before.out && |steps[k].after.out| <= cap
    ensures Standing(steps, k + 1, 0, input, pos + 1, steps[k].after.out) && Reached(steps, k + 1).prev == 0
    ensures SideFrom(steps, k) == steps[k].ds + SideFrom(steps, k + 1)
  {
    assert IsRun(steps) && TAG_BYTES + input[pos..] == BytesFrom(steps, k) && out == Reached(steps, k).out + TAG_BYTES by {
      assert Look(Spot, 0);
      assert TAG_BYTES[..2] == TAG_BYTES;
    }
    var s := steps[k];
    StepShape(s);
    OutGrows(steps, k + 1);
    BehindTag(input, pos, BytesFrom(steps, k + 1));
    assert s.after.out == s.after.out + TAG_BYTES[..0];
  }

  lemma BehindTag(input: seq<Byte>, pos: nat, later: seq<Byte>)
    requires pos <= |input| && TAG_BYTES + input[pos..] == [0xfe, 0xf1, 0] + later
    ensures pos < |input| && TAG_BYTES[..0] + input[pos + 1..] == later
  {
    var ahead := TAG_BYTES + input[pos..];
    assert ahead[3..] == later && ahead[2..] == input[pos..];
    assert input[pos..][1..] == ahead[3..];
  }

  method TakeMatch(dec: Decoder, input: seq<Byte>, pos: nat, out0: seq<Byte>, cap: nat, m0: Models, rep0: seq<nat>,
                   ghost steps: seq<Step>, ghost k: nat)
    returns (ok: bool, out: seq<Byte>, m: Models, rep: seq<nat>)
    requires dec.Valid() && Sized(m0) && |rep0| == 4 && 2 <= |out0| <= cap
    modifies dec
    ensures dec.Valid() && Sized(m) && |rep| == 4 && |out| <= cap
    ensures old(dec.known && SideAt(steps, k, m0, rep0, dec.future)) && Standing(steps, k, 2, input, pos, out0) && Fits(steps, cap)
      ==> ok && Standing(steps, k + 1, 0, input, pos + 1, out) && Reached(steps, k + 1).prev == 0
    ensures old(dec.known && SideAt(steps, k, m0, rep0, dec.future)) && Standing(steps, k, 2, input, pos, out0) && Fits(steps, cap)
      ==> dec.known && SideAt(steps, k + 1, m, rep, dec.future)
  {
    ghost var coded := dec.known && SideAt(steps, k, m0, rep0, dec.future) && Standing(steps, k, 2, input, pos, out0) && Fits(steps, cap);
    ghost var s: Step, later: seq<Decision> := *, [];
    if coded {
      AtMatch(steps, k, input, pos, out0, cap);
      s, later := steps[k], SideFrom(steps, k + 1);
    }
    out := out0[..|out0| - 2];
    var dist, len;
    ok, dist, len, m, rep := ReadMatch(dec, m0, rep0, s, later);
    if !ok || dist == 0 || dist > |out| { return false, out, m, rep; }
    if len > cap - |out| { return false, out, m, rep; }
    out := CopyMatch(out, dist, len);
  }

  lemma Finishes(steps: seq<Step>, st: nat, input: seq<Byte>, pos: nat, out: seq<Byte>)
    requires Standing(steps, |steps|, st, input, pos, out)
    ensures out == Reached(steps, |steps|).out
  {
    assert Look(Spot, 0);
  }

  /** The selector behind a tag: 1 ends an escape, 0 is a match. */
  method TakeSelector(dec: Decoder, input: seq<Byte>, pos: nat, out0: seq<Byte>, cap: nat, m0: Models, rep0: seq<nat>,
                      ghost steps: seq<Step>, ghost k: nat, ghost st: nat, ghost coded: bool)
    returns (ok: bool, out: seq<Byte>, m: Models, rep: seq<nat>)
    requires dec.Valid() && Sized(m0) && |rep0| == 4 && pos < |input| && |out0| <= cap
    requires coded ==> Standing(steps, k, st, input, pos, out0) && Fits(steps, cap) && k < |steps|
    requires coded ==> (st == 2 || steps[k].op.Escape?)
    requires coded ==> dec.known && SideAt(steps, k, m0, rep0, dec.future)
    modifies dec
    ensures dec.Valid() && Sized(m) && |rep| == 4 && |out| <= cap
    ensures coded ==> ok && Standing(steps, k + 1, 0, input, pos + 1, out) && Reached(steps, k + 1).prev == 0
    ensures coded ==> dec.known && SideAt(steps, k + 1, m, rep, dec.future)
  {
    ok, out, m, rep := true, out0, m0, rep0;
    if coded {
      AtSelector(steps, k, st, input, pos, out);
    }
    if input[pos] != 0 {
      if coded {
        PastEscape(steps, k, st, input, pos, out);
      }
    } else {
      if |out| < 2 {
        assert coded ==> |out| >= 2 by { assert Look(Spot, 0); }
        return false, out, m, rep;
      }
      ok, out, m, rep := TakeMatch(dec, input, pos, out, cap, m, rep, steps, k);
    }
  }

  method DecodeFrom(dec: Decoder, input: seq<Byte>, cap: nat, ghost steps: seq<Step>) returns (ok: bool, out: seq<Byte>)
    requires dec.Valid()
    modifies dec
    ensures |out| <= cap
    ensures Fits(steps, cap) && Standing(steps, 0, 0, input, 0, []) && old(dec.known && dec.future == SideFrom(steps, 0))
      ==> ok && out == Reached(steps, |steps|).out
  {
    ghost var coded := Fits(steps, cap) && Standing(steps, 0, 0, input, 0, []) && dec.known && dec.future == SideFrom(steps, 0);
    var m, rep := Models(Half(4), Half(64), Half(256), Half(32)), [1, 1, 1, 1];
    var pos: nat := 0;
    ghost var k: nat := 0;
    out := [];
    while true
      invariant dec.Valid() && Sized(m) && |rep| == 4 && pos <= |input| && |out| <= cap
      invariant coded ==> Standing(steps, k, 0, input, pos, out) && Reached(steps, k).prev == 0
      invariant coded ==> dec.known && SideAt(steps, k, m, rep, dec.future)
      decreases |input| - pos
    {
      var more;
      more, ok, pos, out, m, rep, k := ToSelector(dec, input, pos, out, cap, m, rep, steps, k, coded);
      if !more { return; }
    }
  }

  /** Literals up to a selector, and what it says; or the end. */
  method ToSelector(dec: Decoder, input: seq<Byte>, pos0: nat, out0: seq<Byte>, cap: nat, m0: Models, rep0: seq<nat>,
                    ghost steps: seq<Step>, ghost k0: nat, ghost coded: bool)
    returns (more: bool, ok: bool, pos: nat, out: seq<Byte>, m: Models, rep: seq<nat>, ghost k: nat)
    requires dec.Valid() && Sized(m0) && |rep0| == 4 && pos0 <= |input| && |out0| <= cap
    requires coded ==> Fits(steps, cap) && Standing(steps, k0, 0, input, pos0, out0) && Reached(steps, k0).prev == 0
    requires coded ==> dec.known && SideAt(steps, k0, m0, rep0, dec.future)
    modifies dec
    ensures dec.Valid() && Sized(m) && |rep| == 4 && pos <= |input| && |out| <= cap && (more ==> pos0 < pos)
    ensures coded && more ==> Standing(steps, k, 0, input, pos, out) && Reached(steps, k).prev == 0
    ensures coded && more ==> dec.known && SideAt(steps, k, m, rep, dec.future)
    ensures coded && !more ==> ok && out == Reached(steps, |steps|).out
  {
    m, rep := m0, rep0;
    var stop;
    ghost var st;
    stop, pos, out, k, st := Scan(input, pos0, out0, cap, steps, k0);
    more, ok := false, stop.Finished?;
    if !stop.Selector? {
      if coded { Finishes(steps, st, input, pos, out); }
      return;
    }
    ok, out, m, rep := TakeSelector(dec, input, pos, out, cap, m, rep, steps, k, st, coded);
    more, pos, k := ok, pos + 1, k + 1;
  }

  /**
   NzBwtParam14. On what a run wrote, with room for the run's output, it rebuilds the data;
   anything else it decodes to something within the room, or refuses.
   */
  method Decode(side: seq<Byte>, input: seq<Byte>, cap: nat, ghost data: seq<Byte>, ghost steps: seq<Step>)
    returns (ok: bool, out: seq<Byte>)
    ensures |out| <= cap
    ensures Encodes(data, input, side, steps) && |data| <= cap ==> ok && out == data
  {
    if Encodes(data, input, side, steps) {
      Begins(data, input, side, steps);
    }
    var dec := new Decoder(Coarse, side, SideFrom(steps, 0));
    ok, out := DecodeFrom(dec, input, cap, steps);
  }
}

/** The encoder (P14Encoder and NzBwtParam14Encode). */
module Param14Encoder {
  import Dec = Param14Decoder
  import opened Words
  import opened LastFour
  import opened RangeCoder
  import opened IntCoding
  import opened Matching
  import opened Param14Format
  import opened Param14Search

  /**
   The longest block of the parse: beyond it a distance, kept negated in a signed 32-bit word, may
   not fit, and the 32-bit shift that makes the mask of the positions makes an empty one.
   */
  const BLOCK_LIMIT := 0x8000_0000

  ghost predicate Repeats(s: seq<Byte>, i: nat, dist: nat)
    requires dist <= i < |s|
  {
    s[i] == s[i - dist]
  }

  /** `len` bytes at `pos`, inside the block of `n`, equal the ones `dist` before. */
  ghost predicate MatchAt(s: seq<Byte>, n: nat, pos: nat, dist: nat, len: nat) {
    1 <= dist <= pos && pos + len <= n <= |s| && forall i :: pos <= i < pos + len ==> Repeats(s, i, dist)
  }

  /** A verified match is what the decoder's overlapping copy produces. */
  lemma {:induction false} MatchCopies(s: seq<Byte>, n: nat, pos: nat, dist: nat, len: nat)
    requires MatchAt(s, n, pos, dist, len)
    ensures Copied(s[..pos], dist, len) == s[..pos + len]
    decreases len
  {
    if len != 0 {
      assert Repeats(s, pos, dist);
      assert s[..pos] + [s[..pos][pos - dist]] == s[..pos + 1];
      MatchCopies(s, n, pos + 1, dist, len - 1);
    }
  }

  // ---------------------------------------------------------------- the side stream

  method WriteSlot(enc: Encoder, a0: Cells, slot: nat) returns (a: Cells)
    requires enc.Valid() && |a0| == 4 && slot <= 4
    modifies enc
    ensures enc.Valid() && enc.trace == old(enc.trace) + SlotCode(a0, 0, slot).ds && a == SlotCode(a0, 0, slot).m
  {
    a := a0;
    var i := 0;
    while i < 4 && i != slot
      invariant enc.Valid() && i <= slot && |a| == 4
      invariant enc.trace + SlotCode(a, i, slot).ds == old(enc.trace) + SlotCode(a0, 0, slot).ds
      invariant SlotCode(a, i, slot).m == SlotCode(a0, 0, slot).m
    {
      enc.Encode(false, P12(a[i]));
      a := a[i := Nudge(a[i], false, 4, 8)];
      i := i + 1;
    }
    if i < 4 {
      enc.Encode(true, P12(a[i]));
      a := a[i := Nudge(a[i], true, 4, 8)];
    }
  }

  /** One bit of the tree, written behind `before`. */
  lemma TreeStep(before: seq<Decision>, c: Cells, base: nat, accum: nat, low: nat, w: nat, k: nat)
    requires 0 < k <= w && low < Pow2(w) && k <= 2 && accum <= TreeRoom(k) && base + 8 <= |c|
    ensures var bit, rest := low >= Pow2(w - 1), LowerBits(low, w - 1);
      var s := TreeCode(c, base, accum, low, w, k);
      var t := TreeCode(c[base + accum := Nudge(c[base + accum], bit, 8, 16)], base, accum * 2 + if bit then 1 else 0, rest, w - 1, k - 1);
      before + s.ds == before + [Decision(bit, P12(c[base + accum]))] + t.ds && s.m == t.m && s.rest == t.rest
  {
    TreeNext(c, base, accum, low, w, k, []);
    var bit := low >= Pow2(w - 1);
    var t := TreeCode(c[base + accum := Nudge(c[base + accum], bit, 8, 16)], base, accum * 2 + if bit then 1 else 0,
                      LowerBits(low, w - 1), w - 1, k - 1);
    assert TreeCode(c, base, accum, low, w, k).ds == [Decision(bit, P12(c[base + accum]))] + t.ds;
    Cat(before, [Decision(bit, P12(c[base + accum]))], t.ds);
  }

  method WriteBranch(enc: Encoder, c0: Cells, base: nat, accum0: nat, low: nat, w: nat, left: nat)
    returns (c: Cells, accum: nat, rest: nat)
    requires enc.Valid() && 0 < left <= w && low < Pow2(w) && left <= 2 && accum0 <= TreeRoom(left) && base + 8 <= |c0|
    modifies enc
    ensures enc.Valid() && rest < Pow2(w - 1) && accum <= TreeRoom(left - 1) && |c| == |c0|
    ensures var s, t := TreeCode(c0, base, accum0, low, w, left), TreeCode(c, base, accum, rest, w - 1, left - 1);
      old(enc.trace) + s.ds == enc.trace + t.ds && s.m == t.m && s.rest == t.rest
  {
    TreeStep(enc.trace, c0, base, accum0, low, w, left);
    QuotientBelowTwo(low, Pow2(w - 1));
    var bit := low / Pow2(w - 1) % 2 == 1;
    enc.Encode(bit, P12(c0[base + accum0]));
    c := c0[base + accum0 := Nudge(c0[base + accum0], bit, 8, 16)];
    accum := accum0 * 2 + if bit then 1 else 0;
    rest := if bit then low - Pow2(w - 1) else low;
  }

  method WriteTree(enc: Encoder, c0: Cells, base: nat, accum0: nat, low: nat, width: nat, k: nat) returns (c: Cells, rest: nat)
    requires enc.Valid() && low < Pow2(width) && k <= width && k <= 2 && accum0 <= TreeRoom(k) && base + 8 <= |c0|
    modifies enc
    ensures enc.Valid() && var t := TreeCode(c0, base, accum0, low, width, k);
      enc.trace == old(enc.trace) + t.ds && c == t.m && rest == t.rest
  {
    c, rest := c0, low;
    var accum: nat, left: nat, w: nat := accum0, k, width;
    ghost var t := TreeCode(c0, base, accum0, low, width, k);
    while left > 0
      invariant enc.Valid() && left <= w && left <= k && w - left == width - k && rest < Pow2(w)
      invariant accum <= TreeRoom(left) && |c| == |c0|
      invariant var u := TreeCode(c, base, accum, rest, w, left);
        enc.trace + u.ds == old(enc.trace) + t.ds && u.m == t.m && u.rest == t.rest
    {
      c, accum, rest := WriteBranch(enc, c, base, accum, rest, w, left);
      w, left := w - 1, left - 1;
    }
  }

  method WriteLow(enc: Encoder, c0: Cells, init: nat, v: nat) returns (c: Cells)
    requires enc.Valid() && |c0| == 256 && init <= 3 && Bsr(v) <= 31
    modifies enc
    ensures enc.Valid() && enc.trace == old(enc.trace) + LowCode(c0, init, v).ds && c == LowCode(c0, init, v).m
  {
    var rest;
    c, rest := WriteTree(enc, c0, Bsr(v) * 8, init, LowBits(v), LowWidth(v), TreeBits(v));
    WriteRaw(enc, rest, LowWidth(v) - TreeBits(v));
    ghost var t := TreeCode(c0, Bsr(v) * 8, init, LowBits(v), LowWidth(v), TreeBits(v));
    Cat(old(enc.trace), t.ds, Raw(t.rest, LowWidth(v) - TreeBits(v)));
  }

  method WriteLen(enc: Encoder, m: Models, hi: nat, init: nat, v: nat) returns (r: Models)
    requires enc.Valid() && Sized(m) && hi + 32 <= 64 && init <= 3 && Bsr(v) <= 31
    modifies enc
    ensures enc.Valid() && enc.trace == old(enc.trace) + LenCode(m, hi, init, v).0 && r == LenCode(m, hi, init, v).1
  {
    var b := WriteUnary(enc, Steady, m.b, hi, Bsr(v), 32);
    var c := WriteLow(enc, m.c, init, v);
    r := m.(b := b, c := c);
    Cat(old(enc.trace), Unary(Steady, m.b, hi, 0, Bsr(v), 32).ds, LowCode(m.c, init, v).ds);
  }

  /** The encoder keeps its last distances negated. */
  ghost predicate Opposite(rep: seq<int>, dist: seq<nat>) {
    |rep| == |dist| == 4 && forall i :: 0 <= i < 4 ==> dist[i] >= 1 && rep[i] + dist[i] == 0
  }

  lemma OppositePromoted(rep: seq<int>, dist: seq<nat>, slot: nat)
    requires Opposite(rep, dist) && slot < 4
    ensures Opposite(Promoted(rep, slot), Promoted(dist, slot))
  {
  }

  lemma OppositeShifted(rep: seq<int>, dist: seq<nat>, d: nat)
    requires Opposite(rep, dist) && d >= 1
    ensures Opposite([0 - d] + rep[..3], [d] + dist[..3])
  {
  }

  class Encoder14 {
    // The block, with at least four bytes behind it that the word loads may look at.
    const s: seq<Byte>
    const n: nat
    // Table sizes and the modulus that separates a table entry's position from its tag.
    const hashSize: nat
    const chainSize: nat
    const offSize: nat
    const stats: seq<nat>
    var head: seq<U32>
    var chain: seq<U32>
    var budget: nat
    const enc: Encoder
    var m: Models
    var rep: seq<int>
    var prev16: nat
    var pos: nat
    var out: seq<Byte>
    ghost var steps: seq<Step>
    ghost var w: World
    ghost var open: bool
    ghost var ops: seq<Op>

    /**
     NzBwtParam14Encode's setup. The two tables are whatever the arena holds; without one that is
     large enough they are private.
     */
    constructor (block: seq<Byte>, pad: seq<Byte>, stats: seq<nat>, arena: seq<U32>, sideCap: nat)
      requires 0 < |block| <= BLOCK_LIMIT && |pad| >= 4 && |stats| >= 0x40000
      ensures Inv() && AtStart() && s[..n] == block && fresh(enc) && enc.cap == sideCap
      ensures X() == SettingFor(block, pad, stats) && TablesNow() == Lent(arena, hashSize, chainSize)
    {
      s, n := block + pad, |block|;
      var bits: nat := if Bsr(|block| / 2) + 1 > 0x14 then Bsr(|block| / 2) else 0x13;
      var last: nat := |block| - 1;
      hashSize, chainSize, offSize := Pow2(bits), Pow2(bits - 1), Pow2(Bsr(last) + 1);
      BsrBounds(last);
      if |arena| >= Pow2(bits) + Pow2(bits - 1) {
        head, chain := arena[..Pow2(bits)], arena[Pow2(bits)..Pow2(bits) + Pow2(bits - 1)];
      } else {
        head, chain := seq(Pow2(bits), _ => 0xffff_ffff), seq(Pow2(bits - 1), _ => 0);
      }
      budget := 0;
      this.stats := stats;
      enc := new Encoder(Coarse, sideCap);
      m, rep := Models(Half(4), Half(64), Half(256), Half(32)), [-1, -1, -1, -1];
      prev16, pos, out := 0, 0, [];
      steps, w, open, ops := [], Origin(), false, [];
    }

    /** What has been written is a run that makes the first `pos` bytes of the block. */
    ghost predicate Inv()
      reads this, enc
    {
      && Tables() && enc.Valid() && enc.prec == Coarse && pos <= n
      && Logged(steps, w, out, enc.trace, open) && AreOps(steps, ops)
      && Keeps()
    }

    /** The block and the sizes. */
    ghost function X(): Setting {
      Setting(s, n, hashSize, chainSize, offSize, stats)
    }

    ghost function TablesNow(): Chains
      reads this
    {
      Chains(head, chain)
    }

    ghost function Now(): Moment
      reads this
    {
      Moment(TablesNow(), budget, rep, prev16, pos, ops, |out|)
    }

    /** `prev16` and the decoder's last two bytes agree, but for the moment behind an escape. */
    ghost predicate Keeps()
      requires pos <= |s|
      reads this
    {
      && WorldOk(w) && w.out == s[..pos] && w.m == m && |rep| == 4
      && Opposite(rep, w.rep)
      && if open then prev16 == TAG && w.prev == 0 else prev16 % 256 == w.prev % 256 && (prev16 == TAG <==> w.prev == TAG)
    }

    ghost predicate AtStart()
      reads this
    {
      pos == 0 && out == [] && prev16 == 0 && !open && budget == 0 && rep == [-1, -1, -1, -1] && ops == []
    }

    ghost predicate Tables()
      reads this
    {
      && n + 4 <= |s| && n <= BLOCK_LIMIT
      && 0 < hashSize == |head| && 0 < chainSize == |chain| && 0 < n <= offSize
      && |stats| >= 0x40000
    }

    /** Puts a position at the head of its chain; gives back its tag and the old head. */
    method Enter(at: nat) returns (tag: nat, link: U32)
      requires Tables() && at <= n
      modifies this`head, this`chain
      ensures Tables() && TablesNow() == Entered(X(), old(TablesNow()), at)
      ensures tag == TagOf(Word(s, at), offSize) && link == old(head)[SlotOf(Word(s, at), hashSize)]
    {
      var v := Word(s, at);
      ModAtMost(v, offSize);
      tag := v - v % offSize;
      var h := Hash(v) % hashSize;
      link := head[h];
      head := head[h := Wrap32(if at < offSize || tag / offSize % 2 == 0 then at + tag else tag)];
      chain := chain[at % chainSize := link];
    }

    /** The hash-chain search, over whatever the tables hold; what is found is there. */
    method Search() returns (dist: nat, len: nat)
      requires Tables() && pos < n
      modifies this`head, this`chain, this`budget
      ensures Tables() && TablesNow() == Entered(X(), old(TablesNow()), pos)
      ensures IsSearched(X(), old(TablesNow()), pos, old(budget), Sought(dist, len, budget))
      ensures dist == 0 ==> len == 0
      ensures dist != 0 ==> MatchAt(s, n, pos, dist, len)
    {
      ghost var was, budget0 := TablesNow(), budget;
      dist, len := SearchFrom();
      SearchedBy(X(), was, pos, budget0, Sought(dist, len, budget));
      FoundIsThere(X(), was, pos, budget0, Sought(dist, len, budget));
      if dist != 0 { AgreementIsMatch(s, n, pos, dist, len); }
    }

    method SearchFrom() returns (dist: nat, len: nat)
      requires Tables() && pos < n
      modifies this`head, this`chain, this`budget
      ensures Tables() && TablesNow() == Entered(X(), old(TablesNow()), pos)
      ensures var v := Word(s, pos);
        Sought(dist, len, budget) == Searched(X(), TablesNow(), pos, TagOf(v, offSize), old(head)[SlotOf(v, hashSize)], old(budget))
    {
      var rem := n - pos;
      var tag, link := Enter(pos);
      dist, len := 0, 0;
      var cand := link % offSize;
      if !(cand < pos && tag == link - cand) { return; }
      var probes := budget / 4 + 1;
      budget := budget + if budget < 8 then 1 else 0;
      if !(Word(s, cand) == Word(s, pos) && rem > 3) { return; }
      FourAgree(X(), pos, cand);
      dist, len := WalkChain(tag, link, probes);
    }

    /** The chain from a live entry of the same word on. */
    method WalkChain(tag: nat, link0: U32, probes0: nat) returns (dist: nat, len: nat)
      requires Tables() && pos + 4 <= n && probes0 >= 1 && IsLive(X(), pos, tag, link0) && Agreement(X(), pos, PlaceOf(link0, offSize)) >= 4
      modifies this`budget
      ensures Sought(dist, len, budget) == Walk(X(), TablesNow(), pos, tag, link0, probes0, 0, 0, true, old(budget))
    {
      var link, probes, compare := link0, probes0, true;
      dist, len := 0, 0;
      ghost var goal := WalkBegins(X(), TablesNow(), pos, tag, link, probes, budget);
      while true
        invariant probes >= 1 && IsLive(X(), pos, tag, link) && IsWalk(X(), TablesNow(), pos, tag, link, probes, len, dist, compare, budget, goal)
        invariant compare ==> Agreement(X(), pos, PlaceOf(link, offSize)) >= 4
        invariant !compare ==> Agreement(X(), pos, PlaceOf(link, offSize)) <= len
        decreases probes
      {
        var more;
        more, dist, len, probes := LookAt(tag, link, probes, len, dist, compare, goal);
        if !more { return; }
        more, link, compare := Advance(tag, link, probes, len, dist, goal);
        if !more { return; }
      }
    }

    /** One entry: its match, if its words were compared; is there a probe left for the next? */
    method LookAt(tag: nat, link: U32, probes0: nat, best: nat, dist0: nat, compare: bool, ghost goal: Sought)
      returns (more: bool, dist: nat, len: nat, probes: nat)
      requires Tables() && pos < n && probes0 >= 1 && IsLive(X(), pos, tag, link)
      requires IsWalk(X(), TablesNow(), pos, tag, link, probes0, best, dist0, compare, budget, goal)
      requires if compare then Agreement(X(), pos, PlaceOf(link, offSize)) >= 4 else Agreement(X(), pos, PlaceOf(link, offSize)) <= best
      modifies this`budget
      ensures probes < probes0 && (more ==> probes >= 1)
      ensures if more then IsFollow(X(), TablesNow(), pos, tag, link, probes, len, dist, budget, goal) else goal == Sought(dist, len, budget)
    {
      more, dist, len, probes := true, dist0, best, probes0;
      var cand := link % offSize;
      if compare {
        var cur := Extended(cand);
        if cur > best {
          WalkFinds(X(), TablesNow(), pos, tag, link, probes, best, dist, budget, goal, cur);
          budget := ((if best > 6 then (cur - best) % 4 else 0) + budget) % 0x400;
          if cur > 0x40 { probes := probes - probes / 2; }
          dist, len := pos - cand, cur;
          if cur > 0x80 { return false, dist, len, 0; }
        } else {
          WalkPasses(X(), TablesNow(), pos, tag, link, probes, best, dist, true, budget, goal);
        }
      } else {
        WalkPasses(X(), TablesNow(), pos, tag, link, probes, best, dist, false, budget, goal);
      }
      probes := probes - 1;
      if probes == 0 {
        FollowEnds(X(), TablesNow(), pos, tag, link, len, dist, budget, goal);
        more := false;
      }
    }

    /** The next entry: is it live, and does the word agree that would make its match longer? */
    method Advance(tag: nat, link0: U32, probes: nat, best: nat, ghost dist: nat, ghost goal: Sought)
      returns (more: bool, link: U32, compare: bool)
      requires Tables() && pos < n && probes >= 1 && IsFollow(X(), TablesNow(), pos, tag, link0, probes, best, dist, budget, goal)
      modifies this`budget
      ensures if more then IsLive(X(), pos, tag, link) && IsWalk(X(), TablesNow(), pos, tag, link, probes, best, dist, compare, budget, goal)
          && (if compare then Agreement(X(), pos, PlaceOf(link, offSize)) >= 4 else Agreement(X(), pos, PlaceOf(link, offSize)) <= best)
        else goal == Sought(dist, best, budget)
    {
      link := chain[link0 % chainSize];
      FollowGoesOn(X(), TablesNow(), pos, tag, link0, probes, best, dist, budget, goal, link);
      var cand := link % offSize;
      more, compare := false, false;
      if cand >= pos { return; }
      if tag != link - cand {
        budget := budget - budget / 16;
        return;
      }
      compare := Word(s, cand + best - 3) == Word(s, pos + best - 3);
      if compare && Word(s, cand) != Word(s, pos) {
        budget := budget / 2;
        return;
      }
      if !compare { NotLonger(X(), pos, cand, best); }
      more := true;
    }

    /** Four bytes agree; as far as the block goes on like that. */
    method Extended(c: nat) returns (len: nat)
      requires Tables() && c < pos < n && Agreement(X(), pos, c) >= 4
      ensures len == Agreement(X(), pos, c)
    {
      AgreeingBytes(s, pos, c, n - pos);
      len := 4;
      while pos + len < n && s[c + len] == s[pos + len]
        invariant 4 <= len <= n - pos && Same(s, pos, c, len)
      {
        len := len + 1;
      }
      AgreeingIs(s, pos, c, n - pos, len);
    }

    /**
     The first of the four last distances whose two bytes agree, packed with its length. From 2^30
     bytes on the length may wrap in its 32 bits; what is left of it is still the start of a match.
     */
    method BestRep() returns (packed: U32, score: U32)
      requires Tables() && pos < n && |rep| == 4 && forall i :: 0 <= i < 4 ==> rep[i] < 0
      ensures packed == Packed(X(), pos, rep) && score == ScoreOf(packed)
      ensures packed / 4 > 2 ==> MatchAt(s, n, pos, -rep[packed % 4], packed / 4)
    {
      packed, score := 0, 4;
      var i := FindRep();
      if i < 4 {
        var k := ExtendTwo(-rep[i]);
        RepIsMatch(i, k);
        packed := Wrap32(i + k * 4);
        score := Wrap32(packed + 4);
      }
    }

    method FindRep() returns (i: nat)
      requires Tables() && pos < n && |rep| == 4 && forall i :: 0 <= i < 4 ==> rep[i] < 0
      ensures i == FirstRep(X(), pos, rep, 0)
      ensures i < 4 ==> -rep[i] <= pos && s[pos + rep[i]] == s[pos] && s[pos + rep[i] + 1] == s[pos + 1]
    {
      i := 0;
      while i < 4
        invariant i <= 4 && FirstRep(X(), pos, rep, 0) == FirstRep(X(), pos, rep, i)
      {
        var d := -rep[i];
        TwoAgree(i);
        if d <= pos && s[pos - d] == s[pos] && s[pos - d + 1] == s[pos + 1] { return; }
        i := i + 1;
      }
    }

    lemma TwoAgree(i: nat)
      requires Tables() && pos < n && |rep| == 4 && i < 4 && rep[i] < 0
      ensures var d := -rep[i]; RepLength(X(), pos, d) >= 2 <==> d <= pos && s[pos - d] == s[pos] && s[pos - d + 1] == s[pos + 1]
    {
      var d := -rep[i];
      if d <= pos {
        var lim := if n - pos < 2 then 2 else n - pos;
        assert Agreeing(s, pos, pos - d, lim) == if s[pos] != s[pos - d] then 0 else 1 + Agreeing(s, pos + 1, pos - d + 1, lim - 1);
        assert Agreeing(s, pos + 1, pos - d + 1, lim - 1) == if s[pos + 1] != s[pos - d + 1] then 0 else 1 + Agreeing(s, pos + 2, pos - d + 2, lim - 2);
      }
    }

    /** Two bytes agree; as far as the block goes on like that. */
    method ExtendTwo(d: nat) returns (k: nat)
      requires Tables() && 1 <= d <= pos < n && s[pos - d] == s[pos] && s[pos - d + 1] == s[pos + 1]
      ensures k == RepLength(X(), pos, d)
    {
      var rem := n - pos;
      k := 2;
      while k < rem && s[pos - d + k] == s[pos + k]
        invariant 2 <= k && (if rem < 2 then k == 2 else k <= rem) && Same(s, pos, pos - d, k)
      {
        k := k + 1;
      }
      AgreeingIs(s, pos, pos - d, if rem < 2 then 2 else rem, k);
    }

    lemma RepIsMatch(i: nat, k: nat)
      requires Tables() && pos < n && |rep| == 4 && i < 4 && rep[i] < 0 && k == RepLength(X(), pos, -rep[i]) >= 2
      ensures var packed := Wrap32(i + k * 4); packed % 4 == i && (packed / 4 > 2 ==> MatchAt(s, n, pos, -rep[i], packed / 4))
    {
      Unpacked(i, k);
      if k > 2 {
        AgreementIsMatch(s, n, pos, -rep[i], k);
      }
    }

    /** Bytes that agree at a distance are a match. */
    static lemma AgreementIsMatch(s: seq<Byte>, n: nat, pos: nat, dist: nat, len: nat)
      requires 1 <= dist <= pos < n <= |s| && len == Agreeing(s, pos, pos - dist, n - pos)
      ensures MatchAt(s, n, pos, dist, len)
    {
      AgreeingBytes(s, pos, pos - dist, n - pos);
      forall i | pos <= i < pos + len ensures Repeats(s, i, dist) { assert s[i] == s[i - pos + (pos - dist)]; }
    }

    // -------------------------------------------------------------- emission

    ghost method Record(op: Op)
      requires WorldOk(w) && OpOk(w, op) && Logged(steps, w, out, enc.trace, open)
      requires AreOps(steps, ops)
      modifies this`steps, this`w, this`open, this`ops
      ensures w == Next(old(w), op) && open == op.Escape? && ops == old(ops) + [op] && AreOps(steps, ops)
      ensures Logged(steps, w, out + OpBytes(op), enc.trace + Written(old(w).m, op).0, open)
    {
      LogGrows(steps, w, out, enc.trace, open, op);
      OpsGrow(steps, ops, w, op);
      steps, w, open, ops := steps + [Take(w, op)], Next(w, op), op.Escape?, ops + [op];
    }

    /** May the byte at `pos` be written as it is? */
    ghost predicate Plain()
      requires pos < |s|
      reads this
    {
      s[pos] <= 1 ==> w.prev != TAG
    }

    /** The escape of a tag that turned up as data: a selector of 1 before a byte below 2. */
    method PutEscape()
      requires Inv() && !open && pos < n
      modifies this`out, this`steps, this`w, this`open, this`ops
      ensures Inv() && Plain() && Now() == Escaped(X(), old(Now()))
    {
      if prev16 == TAG && s[pos] < 2 {
        Record(Escape);
        out := out + [1];
        WrittenIs(old(w).m, Escape);
        assert enc.trace + [] == enc.trace;
      }
    }

    /** One literal byte, the escape having been seen to. */
    method PutLiteral()
      requires Inv() && pos < n && Plain()
      modifies this`out, this`steps, this`w, this`open, this`ops, this`pos, this`prev16
      ensures Inv() && !open && pos == old(pos) + 1 && |out| == old(|out|) + 1
      ensures ops == old(ops) + [Literal(s[old(pos)])] && prev16 == old(prev16) % 256 * 256 + s[old(pos)]
    {
      var b := s[pos];
      Record(Literal(b));
      out := out + [b];
      WrittenIs(old(w).m, Literal(b));
      assert enc.trace + [] == enc.trace;
      prev16 := prev16 % 256 * 256 + b;
      pos := pos + 1;
      SliceGrows(s, pos - 1);
    }

    static lemma SliceGrows(s: seq<Byte>, p: nat)
      requires p < |s|
      ensures s[..p + 1] == s[..p] + [s[p]]
    {
    }

    /** It is the step of a literal. */
    method PassLiteral()
      requires Inv() && pos < n && Plain()
      modifies this`out, this`steps, this`w, this`open, this`ops, this`pos, this`prev16
      ensures Inv() && !open && pos == old(pos) + 1 && Now() == Passed(X(), old(Now()))
    {
      PutLiteral();
    }

    /** A match the decoder can make: 7 bytes or more, already there at one of the distances. */
    ghost predicate Usable(slot: nat, len: nat)
      requires pos <= n <= |s| && |rep| == 4
      reads this
    {
      7 <= len && (if slot < 4 then rep[slot] < 0 && MatchAt(s, n, pos, -rep[slot], len) else MatchAt(s, n, pos, slot - 4, len))
    }

    /** A slot below 4 names one of the last distances; a higher one is a new distance plus 4. */
    method PutMatch(slot: nat, len: nat)
      requires Inv() && Usable(slot, len)
      modifies this`steps, this`w, this`open, this`ops, this`pos, this`out, this`m, this`rep, this`prev16, enc
      ensures Inv() && !open && pos == old(pos) + len
      ensures ops == old(ops) + [OpOf(slot, len)] && |out| == old(|out|) + 3 && prev16 == 0 && rep == RepAfter(old(rep), slot)
    {
      TagMatch(slot, len);
      CodeMatch(slot, len);
      prev16 := 0;
    }

    /** The byte side of a match. */
    method TagMatch(slot: nat, len: nat)
      requires Inv() && Usable(slot, len)
      modifies this`steps, this`w, this`open, this`ops, this`pos, this`out
      ensures Codable(OpOf(slot, len)) && WorldOk(w) && w.prev == 0 && !open && pos == old(pos) + len <= n && w.out == s[..pos]
      ensures Logged(steps, w, out, enc.trace + Written(m, OpOf(slot, len)).0, open) && w.m == Written(m, OpOf(slot, len)).1
      ensures Opposite(RepAfter(rep, slot), w.rep)
      ensures ops == old(ops) + [OpOf(slot, len)] && AreOps(steps, ops) && |out| == old(|out|) + 3
    {
      MatchIsOp(slot, len);
      Record(OpOf(slot, len));
      pos := pos + len;
      out := out + [0xfe, 0xf1, 0];
    }

    /** The side stream, the cells and the distances move on by one match. */
    method CodeMatch(slot: nat, len: nat)
      requires enc.Valid() && Sized(m) && |rep| == 4 && len >= 7 && Codable(OpOf(slot, len))
      modifies this`m, this`rep, enc
      ensures enc.Valid() && enc.trace == old(enc.trace) + Written(old(m), OpOf(slot, len)).0 && m == Written(old(m), OpOf(slot, len)).1
      ensures rep == RepAfter(old(rep), slot)
    {
      if slot > 3 {
        m := PutFresh(enc, m, slot - 4, len);
        rep := [0 - (slot - 4)] + rep[..3];
      } else {
        m := PutAgain(enc, m, slot, len);
        rep := Promote(rep, slot);
      }
    }

    lemma MatchIsOp(slot: nat, len: nat)
      requires Inv() && Usable(slot, len)
      ensures OpOk(w, OpOf(slot, len)) && Codable(OpOf(slot, len))
      ensures Next(w, OpOf(slot, len)).out == s[..pos + len] && Next(w, OpOf(slot, len)).prev == 0
      ensures Opposite(RepAfter(rep, slot), Next(w, OpOf(slot, len)).rep)
    {
      if slot < 4 {
        OppositePromoted(rep, w.rep, slot);
      } else {
        OppositeShifted(rep, w.rep, slot - 4);
      }
      var dist := if slot < 4 then -rep[slot] else slot - 4;
      MatchCopies(s, n, pos, dist, len);
      BsrSmall(dist);
      BsrSmall(len - 7);
    }

    method FeedChain(len: nat)
      requires Tables() && 1 <= len && pos + len <= n
      modifies this`head, this`chain
      ensures Tables() && TablesNow() == EnteredUpTo(X(), old(TablesNow()), pos + 1, pos + len)
    {
      for i := 1 to len
        invariant Tables() && TablesNow() == EnteredUpTo(X(), old(TablesNow()), pos + 1, pos + i)
      {
        var _, _ := Enter(pos + i);
      }
    }

    /** The places of a match go into the tables, and the match goes out. */
    method TakeMatch(slot: nat, len: nat)
      requires Inv() && Usable(slot, len)
      modifies this`head, this`chain, this`steps, this`w, this`open, this`ops, this`pos, this`out, this`m, this`rep, this`prev16, enc
      ensures Inv() && !open && pos == old(pos) + len && Now() == Matched(X(), old(Now()), slot, len)
    {
      ghost var m := Now();
      FeedChain(len);
      PutMatch(slot, len);
      MatchedIs(X(), m, slot, len, Now());
    }

    /** The gate: a match is taken when it is long, or rare enough for its length; else some literals go out. */
    method Choose(dist: nat, len: nat) returns (take: bool, slot: nat, matchLen: nat, skip: nat)
      requires Tables() && pos < n && Opposite(rep, w.rep)
      requires if dist == 0 then len == 0 else MatchAt(s, n, pos, dist, len)
      modifies this`budget
      ensures take ==> Usable(slot, matchLen)
      ensures !take ==> skip >= 1
      ensures IsDecided(X(), pos, rep, Sought(dist, len, old(budget)), Chosen(take, slot, matchLen, skip, budget))
    {
      var packed, repScore := BestRep();
      if Wrap32(len * 4) <= repScore {
        slot, matchLen := packed % 4, packed / 4;
      } else {
        slot, matchLen := dist + 4, len;
      }
      take, skip := Gate(slot, matchLen);
    }

    method Gate(slot: nat, len: nat) returns (take: bool, skip: nat)
      requires Tables() && pos < n && (len > 6 ==> pos + len <= n)
      modifies this`budget
      ensures Chosen(take, slot, len, skip, budget) == Gated(X(), pos, slot, len, old(budget))
    {
      var rarity := 0;
      take := false;
      if len > 6 {
        if len > 0xfe {
          take := true;
        } else {
          rarity := SumRarity(len);
          take := rarity < Threshold(len) || (slot < 4 && rarity < Threshold(len + 6));
        }
      }
      skip := SkipLen(len);
      if !take && rarity >= RARITY_CUT {
        skip := len - 1;
        budget := budget - budget / 4;
      }
    }

    method SumRarity(len: nat) returns (rarity: nat)
      requires Tables() && pos + len <= n
      ensures rarity == Rarity(X(), pos, len)
    {
      rarity := 0;
      for i := 0 to len
        invariant rarity == Rarity(X(), pos, i)
      {
        rarity := rarity + stats[Hash(Word(s, pos + i)) % 0x40000];
      }
    }

    /** A run of `skip` literals, ending early where the block or the room ends. */
    method PutLiterals(skip0: nat, outLim: int) returns (stop: bool)
      requires Inv() && pos < n && Plain() && skip0 >= 1
      modifies this`out, this`steps, this`w, this`open, this`ops, this`pos, this`prev16, this`head, this`chain
      ensures Inv() && !open && old(pos) < pos && (stop ==> pos == n || |out| >= outLim)
      ensures IsSkipped(X(), old(Now()), skip0, outLim, Now())
    {
      var skip := skip0;
      ghost var m := Now();
      SkipBegins(X(), m, skip0, outLim);
      var last := false;
      stop := false;
      while !last
        invariant Inv() && old(pos) <= pos
        invariant if last then !open && old(pos) < pos && (stop ==> pos == n || |out| >= outLim) && IsSkipped(X(), m, skip0, outLim, Now())
          else pos < n && Plain() && skip >= 1 && SkipsOn(X(), m, skip0, outLim, Now(), skip)
        decreases n - pos, !last
      {
        last, stop, skip := OneLiteral(outLim, skip, m, skip0);
      }
    }

    /** One literal, and what stands between it and the next. */
    method OneLiteral(outLim: int, skip: nat, ghost m: Moment, ghost skip0: nat) returns (last: bool, stop: bool, left: nat)
      requires Inv() && pos < n && Plain() && skip >= 1 && SkipsOn(X(), m, skip0, outLim, Now(), skip)
      modifies this`out, this`steps, this`w, this`open, this`ops, this`pos, this`prev16, this`head, this`chain
      ensures Inv() && pos == old(pos) + 1
      ensures if last then !open && (stop ==> pos == n || |out| >= outLim) && IsSkipped(X(), m, skip0, outLim, Now())
        else pos < n && Plain() && left >= 1 && SkipsOn(X(), m, skip0, outLim, Now(), left)
    {
      ghost var now := Now();
      PassLiteral();
      left := skip - 1;
      if left == 0 {
        SkipEnds(X(), m, skip0, outLim, now, skip);
        return true, false, left;
      }
      stop := BetweenLiterals(outLim, skip, left, m, skip0, now);
      last := stop;
    }

    /** The place behind a literal goes into the tables; the run ends where the block or the room does. */
    method BetweenLiterals(outLim: int, ghost skip: nat, ghost left: nat, ghost m: Moment, ghost skip0: nat, ghost now: Moment) returns (stop: bool)
      requires Inv() && !open && 1 <= left == skip - 1 && now.Ok(X()) && now.pos < n && SkipsOn(X(), m, skip0, outLim, now, skip)
      requires Now() == Passed(X(), now)
      modifies this`out, this`steps, this`w, this`open, this`ops, this`head, this`chain
      ensures Inv() && pos == old(pos) && (stop <==> pos == n || old(|out|) >= outLim)
      ensures if stop then !open && |out| == old(|out|) && IsSkipped(X(), m, skip0, outLim, Now())
        else Plain() && SkipsOn(X(), m, skip0, outLim, Now(), left)
    {
      var _, _ := Enter(pos);
      SkipGoesOn(X(), m, skip0, outLim, now, skip, Now(), left);
      stop := pos >= n || |out| >= outLim;
      if !stop { PutEscape(); }
    }

    /** One match, or the literals that stand in for it. */
    method ParseOne(outLim: int) returns (stop: bool)
      requires Inv() && !open && pos < n && |out| < outLim
      modifies this, enc
      ensures Inv() && !open && old(pos) < pos && (stop ==> pos == n || |out| >= outLim)
      ensures IsStepped(X(), old(Now()), outLim, Now())
    {
      ghost var m := Now();
      PutEscape();
      stop := Place(outLim, m);
    }

    /** The match or the literals behind an escape that has been seen to. */
    method Place(outLim: int, ghost m: Moment) returns (stop: bool)
      requires Inv() && pos < n && Plain() && m.Ok(X()) && m.pos < n && Now() == Escaped(X(), m)
      modifies this, enc
      ensures Inv() && !open && old(pos) < pos && (stop ==> pos == n || |out| >= outLim)
      ensures IsStepped(X(), m, outLim, Now())
    {
      ghost var e := Now();
      var dist, len := Search();
      SearchedIsFound(X(), e.c, e.pos, e.budget, Sought(dist, len, budget));
      stop := Act(outLim, dist, len, m, e);
    }

    method Act(outLim: int, dist: nat, len: nat, ghost m: Moment, ghost e: Moment) returns (stop: bool)
      requires Inv() && pos < n && Plain() && m.Ok(X()) && m.pos < n && e == Escaped(X(), m)
      requires Now() == e.(c := Entered(X(), e.c, e.pos), budget := budget)
      requires (if dist == 0 then len == 0 else MatchAt(s, n, pos, dist, len)) && IsFound(X(), e.c, e.pos, e.budget, Sought(dist, len, budget))
      modifies this, enc
      ensures Inv() && !open && old(pos) < pos && (stop ==> pos == n || |out| >= outLim)
      ensures IsStepped(X(), m, outLim, Now())
    {
      ghost var found := Sought(dist, len, budget);
      var take, slot, matchLen, skip := Choose(dist, len);
      ghost var g := Chosen(take, slot, matchLen, skip, budget);
      stop := false;
      if take {
        TakeMatch(slot, matchLen);
      } else {
        stop := PutLiterals(skip, outLim);
      }
      StepIs(X(), m, found, g, outLim, Now());
    }

    /** The parse: literals and matches up to the end of the block, or of the room. */
    method Parse(outLim: int)
      requires Inv() && AtStart()
      modifies this, enc
      ensures Inv() && !open && (pos == n || |out| >= outLim)
      ensures IsWhole(X(), old(TablesNow()), outLim, Now())
    {
      ghost var c := TablesNow();
      if pos < n && |out| < outLim {
        var _, _ := Enter(0);
        PassLiteral();
        ghost var first := Now();
        GoesOnFrom(X(), first, outLim);
        while pos < n && |out| < outLim
          invariant Inv() && !open && GoesOn(X(), first, outLim, Now())
          decreases n - pos
        {
          ghost var at := Now();
          var stop := ParseOne(outLim);
          GoesOnStep(X(), first, outLim, at, Now());
          if stop { break; }
        }
        WholeIs(X(), c, outLim, first, Now());
      } else {
        NoRoomIsWhole(X(), c, outLim);
      }
    }

    /** P14Encoder::Run: the filtered length, or 0 when the result would not pay. */
    method Run(ghost x: Setting, ghost c: Chains, ghost room: int) returns (body: nat)
      requires Inv() && AtStart() && x == X() && c == TablesNow() && room == n - 16
      modifies this, enc
      ensures IsWhole(x, c, room, Now()) && AreOps(steps, ops)
      ensures body == if |enc.out| >= enc.cap || |out| + |enc.out| >= n - 16 then 0 else |out|
      ensures enc.out == Clip(Code(Coarse, FULL, SideFrom(steps, 0)), enc.cap) && out == BytesFrom(steps, 0)
      ensures body != 0 ==> Encodes(s[..n], out, enc.out, steps)
    {
      var outLim: int := n - 16;
      Parse(outLim);
      enc.Flush();
      assert Look(Log, 0);
      if |enc.out| >= enc.cap || |out| + |enc.out| >= outLim { return 0; }
      assert pos == n;
      return |out|;
    }
  }

  /** The operations of steps; out of sight until `Look(Log, 0)`. */
  ghost predicate AreOps(steps: seq<Step>, ops: seq<Op>) {
    forall z {:trigger Look(Log, z)} :: Look(Log, z) ==> |ops| == |steps| && forall i | 0 <= i < |ops| :: ops[i] == steps[i].op
  }

  lemma OpsGrow(steps: seq<Step>, ops: seq<Op>, w: World, op: Op)
    requires AreOps(steps, ops) && WorldOk(w) && OpOk(w, op)
    ensures AreOps(steps + [Take(w, op)], ops + [op])
  {
    assert Look(Log, 0);
  }

  lemma BsrSmall(v: nat)
    requires v <= BLOCK_LIMIT
    ensures Bsr(v) <= 31
  {
    BsrBounds(v);
    assert Pow2(5) == 32;
    assert Pow2(10) == 1024 by { Pow2Sum(5, 5); }
    assert Pow2(20) == 0x10_0000 by { Pow2Sum(10, 10); }
    assert Pow2(30) == 0x4000_0000 by { Pow2Sum(20, 10); }
    assert Pow2(32) == 0x1_0000_0000 by { Pow2Sum(30, 2); }
    if Bsr(v) > 31 {
      Pow2Monotone(32, Bsr(v));
    }
  }

  method PutFresh(enc: Encoder, m: Models, dist: nat, len: nat) returns (r: Models)
    requires enc.Valid() && Sized(m) && Bsr(dist) <= 31 && len >= 7 && Bsr(len - 7) <= 31
    modifies enc
    ensures enc.Valid() && enc.trace == old(enc.trace) + Written(m, Fresh(dist, len)).0 && r == Written(m, Fresh(dist, len)).1
  {
    var a := WriteSlot(enc, m.a, 0);
    ghost var t1 := enc.trace;
    var d := WriteInt(enc, m.d, 31, dist);
    r := WriteLen(enc, m.(a := a, d := d), 0, 1, len - 7);
    Cat(t1, IntCode(m.d, 31, dist).ds, LenCode(m.(a := a, d := d), 0, 1, len - 7).0);
    Cat(old(enc.trace), SlotCode(m.a, 0, 0).ds, FreshCode(m.(a := a), dist, len).0);
    WrittenIs(m, Fresh(dist, len));
  }

  method PutAgain(enc: Encoder, m: Models, slot: nat, len: nat) returns (r: Models)
    requires enc.Valid() && Sized(m) && slot < 4 && len >= 7 && Bsr(len - 7) <= 31
    modifies enc
    ensures enc.Valid() && enc.trace == old(enc.trace) + Written(m, Again(slot, len)).0 && r == Written(m, Again(slot, len)).1
  {
    var a := WriteSlot(enc, m.a, slot + 1);
    r := WriteLen(enc, m.(a := a), 32, 3, len - 7);
    Cat(old(enc.trace), SlotCode(m.a, 0, slot + 1).ds, LenCode(m.(a := a), 32, 3, len - 7).0);
    WrittenIs(m, Again(slot, len));
  }

  /** Too little to look for matches in. */
  predicate TooSmall(block: seq<Byte>, stats: seq<nat>) {
    |block| < 0x80 || |stats| < 0x40000
  }

  /** What the parse makes of a block, whether it is kept or not. */
  datatype Made = Made(ops: seq<Op>, out: seq<Byte>, side: seq<Byte>)

  /**
   The operations are those of Param14Search.Whole, the bytes and the side stream are theirs, the side
   stream as far as there is room for it.
   */
  ghost predicate IsMade(block: seq<Byte>, pad: seq<Byte>, stats: seq<nat>, arena: seq<U32>, room: nat, steps: seq<Step>, made: Made)
    requires 0 < |block|
  {
    var x := SettingFor(block, pad, stats);
    && (exists e :: IsWhole(x, Lent(arena, x.hashSize, x.chainSize), |block| - 16, e) && e.ops == made.ops)
    && AreOps(steps, made.ops) && made.out == BytesFrom(steps, 0) && made.side == Clip(Code(Coarse, FULL, SideFrom(steps, 0)), room)
  }

  /** The side stream has come to the end of its room, or both together are not 16 bytes shorter than the block. */
  predicate IsTooLong(block: seq<Byte>, room: nat, made: Made) {
    |made.side| >= room || |made.out| + |made.side| >= |block| - 16
  }

  /**
   NzBwtParam14Encode. Whatever the arena holds, whatever stands behind the block and whatever
   the statistics say, the result is what the parse makes, and an accepted one encodes the block; it is
   accepted if and only if it pays.
   */
  method Encode(block: seq<Byte>, pad: seq<Byte>, stats: seq<nat>, arena: seq<U32>, sideCap: nat)
    returns (body: nat, out: seq<Byte>, side: seq<Byte>, ghost steps: seq<Step>, ghost made: Made)
    requires |block| <= BLOCK_LIMIT && |pad| >= 4
    ensures body != 0 ==> body == |out| && Encodes(block, out, side, steps)
    ensures !TooSmall(block, stats) ==> IsMade(block, pad, stats, arena, sideCap / 2, steps, made)
    ensures body == if TooSmall(block, stats) || IsTooLong(block, sideCap / 2, made) then 0 else |made.out|
    ensures body != 0 ==> out == made.out && side == made.side
  {
    body, out, side, steps, made := 0, [], [], [], Made([], [], []);
    if |block| < 0x80 || |stats| < 0x40000 { return; }
    body, out, side, steps, made := Make(block, pad, stats, arena, sideCap / 2);
  }

  method Make(block: seq<Byte>, pad: seq<Byte>, stats: seq<nat>, arena: seq<U32>, room: nat)
    returns (body: nat, out: seq<Byte>, side: seq<Byte>, ghost steps: seq<Step>, ghost made: Made)
    requires 0 < |block| <= BLOCK_LIMIT && |pad| >= 4 && |stats| >= 0x40000
    ensures body != 0 ==> body == |out| && Encodes(block, out, side, steps)
    ensures IsMade(block, pad, stats, arena, room, steps, made)
    ensures body == if IsTooLong(block, room, made) then 0 else |made.out|
    ensures body != 0 ==> out == made.out && side == made.side
  {
    out, side := [], [];
    var e := new Encoder14(block, pad, stats, arena, room);
    ghost var x, c, most := e.X(), e.TablesNow(), |block| - 16;
    body := e.Run(x, c, most);
    steps, made := e.steps, Made(e.ops, e.out, e.enc.out);
    MadeIs(block, pad, stats, arena, room, steps, made, x, c, e.Now(), most);
    if body != 0 {
      out, side := e.out, e.enc.out;
    }
  }

  lemma MadeIs(block: seq<Byte>, pad: seq<Byte>, stats: seq<nat>, arena: seq<U32>, room: nat, steps: seq<Step>, made: Made,
               x: Setting, c: Chains, e: Moment, most: int)
    requires most == |block| - 16 && 0 < |block| && x == SettingFor(block, pad, stats) && c == Lent(arena, x.hashSize, x.chainSize)
    requires IsWhole(x, c, most, e) && e.ops == made.ops && AreOps(steps, made.ops)
    requires made.out == BytesFrom(steps, 0) && made.side == Clip(Code(Coarse, FULL, SideFrom(steps, 0)), room)
    ensures IsMade(block, pad, stats, arena, room, steps, made)
  {
  }

  /** Encoding, then decoding into a buffer that holds the block, gives the block back. */
  method RoundTrip(block: seq<Byte>, pad: seq<Byte>, stats: seq<nat>, arena: seq<U32>, sideCap: nat, cap: nat)
    returns (accepted: bool, ok: bool, decoded: seq<Byte>)
    requires |block| <= BLOCK_LIMIT && |pad| >= 4 && |block| <= cap
    ensures accepted ==> ok && decoded == block
  {
    var body, out, side;
    ghost var steps, made;
    body, out, side, steps, made := Encode(block, pad, stats, arena, sideCap);
    accepted := body != 0;
    ok, decoded := Dec.Decode(side, out, cap, block, steps);
  }
}