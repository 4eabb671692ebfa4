/**
 The run-length pre-pass of a bucket (BwtRleCollapse, BwtRleExpander): of three equal bytes in a
 row the rest of the run is replaced by as many copies as its length has bits below the highest,
 and the length itself goes into a side stream.
 */
module RlePrepass {
  import opened Words
  import opened RangeCoder
  import opened IntCoding
  import opened BitStream

  const LENGTH_CELLS: nat := 32
  const LONGEST_CLASS: nat := 30

  // ---------------------------------------------------------------- a run length

  lemma {:induction false} UpGrows(a: nat, b: nat, k: nat)
    requires a <= b
    ensures Up(a, k) <= Up(b, k)
    decreases k
  {
    if k != 0 { UpGrows(a, b, k - 1); }
  }

  lemma {:induction false} UpDoubled(v: nat, k: nat)
    ensures Up(v, k + 1) == Up(2 * v, k)
    decreases k
  {
    if k != 0 { UpDoubled(v, k - 1); }
  }

  /** The cells a walk of `k` more flags from node `i` can reach are there. */
  predicate TreeFits(base: nat, i: nat, k: nat) {
    k == 0 || Up(i + 1, k - 1) + base <= LENGTH_CELLS
  }

  lemma NodeFits(base: nat, i: nat, k: nat)
    requires k > 0 && TreeFits(base, i, k)
    ensures i + base < LENGTH_CELLS && TreeFits(base, 2 * i, k - 1) && TreeFits(base, 2 * i + 1, k - 1)
  {
    UpAtLeast(i + 1, k - 1);
    if k > 1 {
      UpDoubled(i + 1, k - 2);
      UpGrows(2 * i + 1, 2 * i + 2, k - 2);
    }
  }

  lemma {:induction false} UpAtLeast(v: nat, k: nat)
    ensures v <= Up(v, k)
    decreases k
  {
    if k != 0 { UpAtLeast(v, k - 1); }
  }

  /** `k` flags of `v`, highest first, each with the cell of the node reached so far. */
  function Tree(m: Cells, base: nat, i: nat, v: nat, k: nat): (c: Coded)
    requires |m| == LENGTH_CELLS && v < Pow2(k) && TreeFits(base, i, k)
    ensures |c.m| == LENGTH_CELLS
    decreases k, m
  {
    if k == 0 then Coded([], m)
    else
      NodeFits(base, i, k);
      var flag := v >= Pow2(k - 1);
      var m1 := m[i + base := Nudge(m[i + base], flag, 128, 256)];
      var c := Tree(m1, base, 2 * i + (if flag then 1 else 0), LowerBits(v, k - 1), k - 1);
      Coded([Decision(flag, P12(m[i + base]))] + c.ds, c.m)
  }

  /** How a length of class `x` is split: flags in the tree, and bits below them. */
  function Flags(x: nat): (k: nat)
    ensures 1 <= k <= 4
  {
    if x == 0 then 1 else if x < 4 then x else 4
  }

  function Base(x: nat): nat {
    if x == 0 then 1 else Pow2(Flags(x))
  }

  function Below(x: nat): nat {
    if x > 4 then x - 4 else 0
  }

  lemma LengthTreeFits(x: nat)
    ensures TreeFits(Base(x), 1, Flags(x))
  {
    assert Pow2(1) == 2 && Pow2(2) == 4 && Pow2(3) == 8 && Pow2(4) == 16;
    assert Up(2, 0) == 2 && Up(2, 1) == 4 && Up(2, 2) == 8 && Up(2, 3) == 16;
  }

  /** What the tree codes of the length `v`. */
  function HighPart(v: nat): (h: nat)
    ensures h < Pow2(Flags(Bsr(v)))
  {
    LoFits(v);
    if Bsr(v) == 0 then v else Lo(Hi(v, Below(Bsr(v))), Flags(Bsr(v)))
  }

  lemma LoFits(v: nat)
    ensures Bsr(v) == 0 ==> v < 2 == Pow2(1)
  {
    BsrBounds(v);
  }

  function LengthCode(m: Cells, v: nat): (c: Coded)
    requires |m| == LENGTH_CELLS
    ensures |c.m| == LENGTH_CELLS
  {
    var x := Bsr(v);
    LengthTreeFits(x);
    var t := Tree(m, Base(x), 1, HighPart(v), Flags(x));
    Coded(t.ds + Raw(Lo(v, Below(x)), Below(x)), t.m)
  }

  /** The length from its class, the tree's value and the bits below. */
  lemma LengthFromParts(v: nat)
    ensures v == Up((if Bsr(v) == 0 then 0 else Up(1, Flags(Bsr(v)))) + HighPart(v), Below(Bsr(v))) + Lo(v, Below(Bsr(v)))
  {
    Parts(v, Below(Bsr(v)));
    HighIs(v, Bsr(v), Below(Bsr(v)));
  }

  lemma HighIs(v: nat, x: nat, b: nat)
    requires x == Bsr(v) && b == Below(x)
    ensures Hi(v, b) == (if x == 0 then 0 else Up(1, Flags(x))) + HighPart(v)
  {
    if x != 0 {
      BsrOfHi(v, b);
      TopOfHigh(Hi(v, b), Flags(x));
    }
  }

  lemma TopOfHigh(h: nat, x: nat)
    requires h >= 1 && Bsr(h) == x
    ensures h == Up(1, x) + Lo(h, x)
  {
    TopOf(h);
  }

  /** A value is its highest bit and what is below it. */
  lemma {:induction false} TopOf(h: nat)
    requires h >= 1
    ensures h == Up(1, Bsr(h)) + Lo(h, Bsr(h))
  {
    if h >= 2 { TopOf(h / 2); }
  }

  method WriteTree(enc: Encoder, m0: Cells, base: nat, v: nat, k: nat) returns (m: Cells)
    requires enc.Valid() && |m0| == LENGTH_CELLS && v < Pow2(k) && TreeFits(base, 1, k)
    modifies enc
    ensures enc.Valid() && enc.trace == old(enc.trace) + Tree(m0, base, 1, v, k).ds && m == Tree(m0, base, 1, v, k).m
  {
    var i: nat, left: nat, rest: nat := 1, k, v;
    m := m0;
    ghost var total := enc.trace + Tree(m0, base, 1, v, k).ds;
    while left > 0
      invariant enc.Valid() && |m| == LENGTH_CELLS && rest < Pow2(left) && TreeFits(base, i, left)
      invariant enc.trace + Tree(m, base, i, rest, left).ds == total
      invariant Tree(m, base, i, rest, left).m == Tree(m0, base, 1, v, k).m
    {
      NodeFits(base, i, left);
      left := left - 1;
      var flag := rest >= Pow2(left);
      ghost var before := enc.trace;
      enc.Encode(flag, P12(m[i + base]));
      m := m[i + base := Nudge(m[i + base], flag, 128, 256)];
      i := 2 * i + if flag then 1 else 0;
      rest := LowerBits(rest, left);
      Cat(before, [enc.trace[|before|]], Tree(m, base, i, rest, left).ds);
    }
  }

  method WriteLength(enc: Encoder, m0: Cells, v: nat, x: nat) returns (m: Cells)
    requires enc.Valid() && |m0| == LENGTH_CELLS && x == Bsr(v)
    modifies enc
    ensures enc.Valid() && enc.trace == old(enc.trace) + LengthCode(m0, v).ds && m == LengthCode(m0, v).m
  {
    LengthTreeFits(x);
    m := WriteTree(enc, m0, Base(x), HighPart(v), Flags(x));
    if x > 4 { WriteRaw(enc, Lo(v, x - 4), x - 4); }
  }

  lemma LengthTreeStep(m: Cells, base: nat, i: nat, v: nat, k: nat, later: seq<Decision>)
    requires |m| == LENGTH_CELLS && k > 0 && v < Pow2(k) && TreeFits(base, i, k)
    ensures i + base < LENGTH_CELLS
    ensures var flag := v >= Pow2(k - 1);
      var m1, i1 := m[i + base := Nudge(m[i + base], flag, 128, 256)], 2 * i + if flag then 1 else 0;
      && TreeFits(base, i1, k - 1)
      && Tree(m, base, i, v, k).m == Tree(m1, base, i1, LowerBits(v, k - 1), k - 1).m
      && Tree(m, base, i, v, k).ds + later
        == [Decision(flag, P12(m[i + base]))] + (Tree(m1, base, i1, LowerBits(v, k - 1), k - 1).ds + later)
  {
    NodeFits(base, i, k);
    var flag := v >= Pow2(k - 1);
    var m1, i1 := m[i + base := Nudge(m[i + base], flag, 128, 256)], 2 * i + if flag then 1 else 0;
    Cat([Decision(flag, P12(m[i + base]))], Tree(m1, base, i1, LowerBits(v, k - 1), k - 1).ds, later);
  }

  lemma {:induction false} UpOfSum(a: nat, b: nat, k: nat)
    ensures Up(a + b, k) == Up(a, k) + Up(b, k) && Up(1, k) == Pow2(k)
    decreases k
  {
    if k != 0 { UpOfSum(a, b, k - 1); }
  }

  lemma UpStep(x: nat, flag: bool, k: nat, v: nat)
    requires k > 0 && v < Pow2(k) && flag == (v >= Pow2(k - 1))
    ensures Up(2 * x + (if flag then 1 else 0), k - 1) + LowerBits(v, k - 1) == Up(x, k) + v
  {
    UpDoubled(x, k - 1);
    UpOfSum(2 * x, 1, k - 1);
  }

  function Child(i: nat, flag: bool): nat {
    2 * i + if flag then 1 else 0
  }

  method ReadFlag(dec: Decoder, m0: Cells, base: nat, i: nat, ghost k: nat, ghost v: nat, ghost later: seq<Decision>) returns (flag: bool, m: Cells)
    requires dec.Valid() && |m0| == LENGTH_CELLS && k > 0 && TreeFits(base, i, k)
    modifies dec
    ensures dec.Valid() && |m| == LENGTH_CELLS && TreeFits(base, Child(i, flag), k - 1)
    ensures v < Pow2(k) && old(dec.Ahead(Tree(m0, base, i, v, k).ds + later))
      ==> (flag == (v >= Pow2(k - 1)) && Tree(m, base, Child(i, flag), LowerBits(v, k - 1), k - 1).m == Tree(m0, base, i, v, k).m
        && dec.Ahead(Tree(m, base, Child(i, flag), LowerBits(v, k - 1), k - 1).ds + later))
  {
    NodeFits(base, i, k);
    if v < Pow2(k) { LengthTreeStep(m0, base, i, v, k, later); }
    flag := dec.Read(P12(m0[i + base]));
    m := m0[i + base := Nudge(m0[i + base], flag, 128, 256)];
  }

  method ReadTree(dec: Decoder, m0: Cells, base: nat, k: nat, start: nat, ghost v: nat, ghost later: seq<Decision>) returns (x: nat, m: Cells)
    requires dec.Valid() && |m0| == LENGTH_CELLS && TreeFits(base, 1, k) && 1 <= k
    modifies dec
    ensures dec.Valid() && |m| == LENGTH_CELLS && (start <= 1 ==> x < Pow2(k + 1))
    ensures v < Pow2(k) && old(dec.Ahead(Tree(m0, base, 1, v, k).ds + later))
      ==> x == Up(start, k) + v && m == Tree(m0, base, 1, v, k).m && dec.Ahead(later)
  {
    ghost var coded := v < Pow2(k) && dec.Ahead(Tree(m0, base, 1, v, k).ds + later);
    var i: nat := 1;
    ghost var left, rest: nat := k, v;
    m, x := m0, start;
    while true
      invariant dec.Valid() && |m| == LENGTH_CELLS && 0 < left <= k && TreeFits(base, i, left)
      invariant Pow2(k - left) <= i < Pow2(k - left + 1) && (start <= 1 ==> x < Pow2(k - left + 1))
      invariant coded ==> rest < Pow2(left) && dec.Ahead(Tree(m, base, i, rest, left).ds + later)
      invariant coded ==> Tree(m, base, i, rest, left).m == Tree(m0, base, 1, v, k).m
      invariant coded ==> Up(x, left) + rest == Up(start, k) + v
      decreases left
    {
      var flag;
      flag, m := ReadFlag(dec, m, base, i, left, rest, later);
      i := Child(i, flag);
      if coded { UpStep(x, flag, left, rest); }
      x := Child(x, flag);
      rest := LowerBits(rest, left - 1);
      left := left - 1;
      if left > 0 { Pow2Monotone(k - left + 1, k); }
      if i >= Pow2(k) { break; }
    }
    assert coded ==> Tree(m, base, i, rest, left) == Coded([], m) && [] + later == later;
  }

  /** DecodeInt: a length of class `x`. */
  method ReadLength(dec: Decoder, m0: Cells, x: nat, ghost v: nat, ghost later: seq<Decision>) returns (value: nat, m: Cells)
    requires dec.Valid() && |m0| == LENGTH_CELLS && x <= LONGEST_CLASS
    modifies dec
    ensures dec.Valid() && |m| == LENGTH_CELLS
    ensures x == Bsr(v) && old(dec.Ahead(LengthCode(m0, v).ds + later)) ==> value == v && m == LengthCode(m0, v).m && dec.Ahead(later)
  {
    ghost var coded := x == Bsr(v) && dec.Ahead(LengthCode(m0, v).ds + later);
    LengthTreeFits(x);
    LengthFromParts(v);
    ghost var low := Raw(Lo(v, Below(x)), Below(x));
    if coded { Cat(Tree(m0, Base(x), 1, HighPart(v), Flags(x)).ds, low, later); }
    value, m := ReadTree(dec, m0, Base(x), Flags(x), if x == 0 then 0 else 1, HighPart(v), low + later);
    UpOfZero(Flags(x));
    if x > 4 {
      var lower := ReadRaw(dec, 0, x - 4, Lo(v, x - 4), later);
      JoinIs(0, Lo(v, x - 4), x - 4);
      value := Up(value, x - 4) + lower;
    } else {
      assert coded ==> dec.future == later;
    }
  }

  lemma {:induction false} UpOfZero(k: nat)
    ensures Up(0, k) == 0
    decreases k
  {
    if k != 0 { UpOfZero(k - 1); }
  }

  // ---------------------------------------------------------------- the pre-pass

  /** How often `c` stands at the front. */
  function RunLength(d: seq<Byte>, c: Byte): (n: nat)
    ensures n <= |d| && forall i :: 0 <= i < n ==> d[i] == c
    ensures n < |d| ==> d[n] != c
  {
    if d != [] && d[0] == c then 1 + RunLength(d[1..], c) else 0
  }

  datatype Squeezed = Squeezed(body: seq<Byte>, lens: seq<nat>)

  function Copies(c: Byte, n: nat): (r: seq<Byte>)
    ensures |r| == n && forall i :: 0 <= i < n ==> r[i] == c
  {
    seq(n, _ => c)
  }

  /** `d` behind the byte `prev`: what is left of it, and the lengths of the runs taken out. */
  function Collapse(prev: Byte, d: seq<Byte>): (q: Squeezed)
    ensures |q.body| <= |d|
    ensures d != [] ==> q.body != [] && q.body[0] == d[0]
    decreases |d|
  {
    if d == [] then Squeezed([], [])
    else if d[0] != prev then
      var q := Collapse(d[0], d[1..]);
      Squeezed([d[0]] + q.body, q.lens)
    else if |d| == 1 then Squeezed(d, [])
    else if d[1] != d[0] then
      var q := Collapse(d[1], d[2..]);
      Squeezed([d[0], d[1]] + q.body, q.lens)
    else
      var n := RunLength(d[2..], d[0]);
      var q := Collapse(d[0], d[2 + n..]);
      BsrIsLess(n);
      Squeezed([d[0], d[0]] + Copies(d[0], Bsr(n)) + q.body, [n] + q.lens)
  }

  /** The side stream: the lengths, one after the other. */
  function LengthsCode(m: Cells, lens: seq<nat>): seq<Decision>
    requires |m| == LENGTH_CELLS
    decreases |lens|
  {
    if lens == [] then [] else LengthCode(m, lens[0]).ds + LengthsCode(LengthCode(m, lens[0]).m, lens[1..])
  }

  function FreshLengths(): (m: Cells)
    ensures |m| == LENGTH_CELLS
  {
    seq(LENGTH_CELLS, _ => 0x8000)
  }

  /** After `p` bytes: what is written and what collapsing the rest will add make up the whole. */
  ghost predicate Along(d: seq<Byte>, p: nat, prev: Byte, m: Cells, body: seq<Byte>, trace: seq<Decision>) {
    && p <= |d| && |m| == LENGTH_CELLS
    && forall z {:trigger Look(Log, z)} :: Look(Log, z) ==>
      var q, all := Collapse(prev, d[p..]), Collapse(0, d);
      body + q.body == all.body && trace + LengthsCode(m, q.lens) == LengthsCode(FreshLengths(), all.lens)
  }

  lemma AlongNew(d: seq<Byte>, p: nat, prev: Byte, m: Cells, body: seq<Byte>, trace: seq<Decision>)
    requires Along(d, p, prev, m, body, trace) && p < |d| && d[p] != prev
    ensures Along(d, p + 1, d[p], m, body + [d[p]], trace)
  {
    assert Look(Log, 0);
    assert d[p..][1..] == d[p + 1..];
    Cat(body, [d[p]], Collapse(d[p], d[p + 1..]).body);
  }

  lemma AlongEnd(d: seq<Byte>, p: nat, prev: Byte, m: Cells, body: seq<Byte>, trace: seq<Decision>)
    requires Along(d, p, prev, m, body, trace) && p + 1 == |d| && d[p] == prev
    ensures Along(d, p + 1, prev, m, body + [d[p]], trace)
  {
    assert Look(Log, 0);
    assert d[p..] == [d[p]];
    assert body + [d[p]] + [] == body + [d[p]];
  }

  lemma AlongPair(d: seq<Byte>, p: nat, prev: Byte, m: Cells, body: seq<Byte>, trace: seq<Decision>)
    requires Along(d, p, prev, m, body, trace) && p + 1 < |d| && d[p] == prev && d[p + 1] != prev
    ensures Along(d, p + 2, d[p + 1], m, body + [d[p]] + [d[p + 1]], trace)
  {
    assert Look(Log, 0);
    assert d[p..][2..] == d[p + 2..];
    Cat(body, [d[p], d[p + 1]], Collapse(d[p + 1], d[p + 2..]).body);
    assert body + [d[p]] + [d[p + 1]] == body + [d[p], d[p + 1]];
  }

  lemma AlongRun(d: seq<Byte>, p: nat, c: Byte, m: Cells, body: seq<Byte>, trace: seq<Decision>, n: nat)
    requires Along(d, p, c, m, body, trace) && p + 1 < |d| && d[p] == c == d[p + 1] && n == RunLength(d[p + 2..], c)
    ensures p + 2 + n <= |d|
    ensures Along(d, p + 2 + n, c, LengthCode(m, n).m, body + [c] + [c] + Copies(c, Bsr(n)), trace + LengthCode(m, n).ds)
  {
    assert Look(Log, 0);
    var q, run := Collapse(c, d[p + 2 + n..]), [c, c] + Copies(c, Bsr(n));
    assert d[p..][2..] == d[p + 2..] && d[p..][2 + n..] == d[p + 2 + n..];
    CollapseOfRun(d[p..], c, n);
    Cat(body, run, q.body);
    PairAndRun(body, c, Copies(c, Bsr(n)));
    LensStep(m, n, q.lens);
    Cat(trace, LengthCode(m, n).ds, LengthsCode(LengthCode(m, n).m, q.lens));
  }

  lemma PairAndRun(body: seq<Byte>, c: Byte, copies: seq<Byte>)
    ensures body + [c] + [c] + copies == body + ([c, c] + copies)
  {
  }

  lemma CollapseOfRun(d: seq<Byte>, c: Byte, n: nat)
    requires |d| >= 2 && d[0] == c == d[1] && n == RunLength(d[2..], c)
    ensures 2 + n <= |d|
    ensures var q := Collapse(c, d[2 + n..]);
      Collapse(c, d) == Squeezed([c, c] + Copies(c, Bsr(n)) + q.body, [n] + q.lens)
  {
  }

  lemma AlongDone(d: seq<Byte>, prev: Byte, m: Cells, body: seq<Byte>, trace: seq<Decision>)
    requires Along(d, |d|, prev, m, body, trace)
    ensures body == Collapse(0, d).body && trace == LengthsCode(FreshLengths(), Collapse(0, d).lens)
  {
    assert Look(Log, 0);
    assert d[|d|..] == [] && body + [] == body && trace + [] == trace;
  }

  lemma AlongStart(d: seq<Byte>)
    ensures Along(d, 0, 0, FreshLengths(), [], [])
  {
    assert d[0..] == d;
    var all := Collapse(0, d);
    assert [] + all.body == all.body && [] + LengthsCode(FreshLengths(), all.lens) == LengthsCode(FreshLengths(), all.lens);
  }

  /** The copies that stand for the rest of a run; its length goes into the side stream. */
  method CollapseLength(enc: Encoder, d: seq<Byte>, p0: nat, c: Byte, m0: Cells, ghost was: seq<Byte>)
    returns (p: nat, m: Cells, copies: seq<Byte>)
    requires enc.Valid() && p0 + 1 < |d| && d[p0] == c == d[p0 + 1] && Along(d, p0, c, m0, was, enc.trace)
    modifies enc
    ensures enc.Valid() && p0 < p <= |d| && Along(d, p, c, m, was + [c] + [c] + copies, enc.trace)
  {
    var n := CountRun(d, p0 + 2, c);
    AlongRun(d, p0, c, m0, was, enc.trace, n);
    var x := Bsr(n);
    copies := Copies(c, x);
    m := WriteLength(enc, m0, n, x);
    p := p0 + 2 + n;
  }

  /** The side stream of a bucket. */
  ghost function SideOf(d: seq<Byte>): seq<Byte> {
    Code(Coarse, FULL, LengthsCode(FreshLengths(), Collapse(0, d).lens))
  }

  /** The collapsed bytes, and the side stream in at most `cap` bytes; nothing when it does not fit. */
  method CollapseRuns(d: seq<Byte>, cap: nat) returns (body: seq<Byte>, side: seq<Byte>)
    ensures |side| <= cap
    ensures body == if |SideOf(d)| <= cap then Collapse(0, d).body else []
    ensures body != [] ==> side == SideOf(d)
  {
    body, side := [], [];
    if d == [] { return; }
    var enc := new Encoder(Coarse, cap);
    var m, prev: Byte, p: nat := FreshLengths(), 0, 0;
    AlongStart(d);
    while p < |d|
      invariant enc.Valid() && p <= |d| && Along(d, p, prev, m, body, enc.trace)
      decreases |d| - p
    {
      var c := d[p];
      ghost var was := body;
      body := body + [c];
      if c != prev {
        AlongNew(d, p, prev, m, was, enc.trace);
        p, prev := p + 1, c;
        continue;
      }
      if p + 1 >= |d| {
        AlongEnd(d, p, prev, m, was, enc.trace);
        p := p + 1;
        break;
      }
      var c1 := d[p + 1];
      body := body + [c1];
      if c1 != c {
        AlongPair(d, p, prev, m, was, enc.trace);
        p, prev := p + 2, c1;
        continue;
      }
      var copies;
      p, m, copies := CollapseLength(enc, d, p, c, m, was);
      body := body + copies;
    }
    AlongDone(d, prev, m, body, enc.trace);
    enc.Flush();
    side := enc.out;
    if enc.overflow { body := []; }
  }

  method CountRun(d: seq<Byte>, from: nat, c: Byte) returns (n: nat)
    requires from <= |d|
    ensures n == RunLength(d[from..], c)
  {
    n := 0;
    while from + n < |d| && d[from + n] == c
      invariant from + n <= |d|
      invariant n + RunLength(d[from + n..], c) == RunLength(d[from..], c)
      decreases |d| - n
    {
      assert d[from + n..][1..] == d[from + n + 1..];
      n := n + 1;
    }
  }

  // ---------------------------------------------------------------- and back

  /** Runs of these lengths are of classes that the reader takes. */
  predicate Short(lens: seq<nat>) {
    lens == [] || (Bsr(lens[0]) <= LONGEST_CLASS && Short(lens[1..]))
  }

  /** Exactly what comes back: no run of the bucket goes on for 2^31 bytes behind its first pair. */
  predicate Expandable(d: seq<Byte>) {
    Short(Collapse(0, d).lens)
  }

  // What the rest of the bucket collapses to, a step at a time.

  /** From `at` on, behind the byte `v`, the bucket collapses to `q`. */
  ghost predicate IsRest(d: seq<Byte>, at: nat, v: Byte, q: Squeezed) {
    at <= |d| && q == Rest(d, at, v)
  }

  function Rest(d: seq<Byte>, at: nat, v: Byte): Squeezed
    requires at <= |d|
  {
    Collapse(v, d[at..])
  }

  lemma NoneAt(d: seq<Byte>, at: nat, v: Byte, q: Squeezed)
    requires IsRest(d, at, v, q) && q.body == []
    ensures at == |d| && q.lens == []
  {
  }

  /** A byte unlike the one before. */
  lemma NewAt(d: seq<Byte>, at: nat, v: Byte, q: Squeezed) returns (next: Squeezed)
    requires IsRest(d, at, v, q) && q.body != [] && q.body[0] != v
    ensures at < |d| && d[at] == q.body[0] && IsRest(d, at + 1, d[at], next)
    ensures q.body[1..] == next.body && q.lens == next.lens
  {
    next := Collapse(d[at], d[at..][1..]);
    DropTwice(d, at, 1, at + 1);
  }

  /** A byte like the one before, at the end. */
  lemma LastAt(d: seq<Byte>, at: nat, v: Byte, q: Squeezed)
    requires IsRest(d, at, v, q) && |q.body| == 1 && q.body[0] == v
    ensures at + 1 == |d| && d[at] == v && q.lens == []
  {
  }

  /** A byte like the one before, and then another. */
  lemma PairAt(d: seq<Byte>, at: nat, v: Byte, q: Squeezed) returns (next: Squeezed)
    requires IsRest(d, at, v, q) && |q.body| >= 2 && q.body[0] == v != q.body[1]
    ensures at + 1 < |d| && d[at] == v && d[at + 1] == q.body[1] && IsRest(d, at + 2, d[at + 1], next)
    ensures q.body[2..] == next.body && q.lens == next.lens
  {
    next := Collapse(d[at..][1], d[at..][2..]);
    DropTwice(d, at, 2, at + 2);
  }

  /** Two bytes like the one before: a run of whatever length, ending at `to`. */
  lemma RunAt(d: seq<Byte>, at: nat, v: Byte, q: Squeezed) returns (n: nat, to: nat, next: Squeezed)
    requires IsRest(d, at, v, q) && |q.body| >= 2 && q.body[0] == v == q.body[1]
    ensures to == at + 2 + n <= |d| && IsRest(d, to, v, next) && |next.body| <= |d| - to
    ensures d[..at] + [v] + [v] + Copies(v, n) == d[..to]
    ensures RunLength(q.body[2..], v) == Bsr(n) && |q.body| == 2 + Bsr(n) + |next.body|
    ensures q.body[2 + Bsr(n)..] == next.body && q.lens == [n] + next.lens
  {
    n, next := SqueezedRun(d[at..], v, q.body);
    to := at + 2 + n;
    RunInPlace(d, at, v, n);
    DropTwice(d, at, 2 + n, to);
  }

  lemma DropTwice(s: seq<Byte>, i: nat, j: nat, to: nat)
    requires to == i + j <= |s|
    ensures s[i..][j..] == s[to..]
  {
  }

  // The reader along it.

  /**
   `out` is what the first `k` bytes of the input stand for, and `q` what the others do; `fits`
   tells whether the lengths to come are short. Out of sight until `Look(Log, 0)`.
   */
  ghost predicate Expanding(d: seq<Byte>, fits: bool, input: seq<Byte>, k: nat, v: Byte, m: Cells, out: seq<Byte>, future: seq<Decision>, q: Squeezed) {
    && k <= |input| && |m| == LENGTH_CELLS && |out| <= |d| && IsRest(d, |out|, v, q)
    && forall z {:trigger Look(Log, z)} :: Look(Log, z) ==>
      out == d[..|out|] && q.body == input[k..] && future == LengthsCode(m, q.lens) && (fits <==> Short(q.lens))
  }

  lemma ExpandStart(d: seq<Byte>) returns (q: Squeezed)
    ensures q == Collapse(0, d)
    ensures Expanding(d, Expandable(d), q.body, 0, 0, FreshLengths(), [], LengthsCode(FreshLengths(), q.lens), q)
  {
    q := Collapse(0, d);
    assert d[0..] == d && q.body[0..] == q.body;
  }

  lemma ExpandEnd(d: seq<Byte>, fits: bool, input: seq<Byte>, v: Byte, m: Cells, out: seq<Byte>, future: seq<Decision>, q: Squeezed)
    requires Expanding(d, fits, input, |input|, v, m, out, future, q)
    ensures out == d && fits
  {
    assert Look(Log, 0);
    NoneAt(d, |out|, v, q);
    assert d[..|d|] == d;
  }

  lemma ExpandNew(d: seq<Byte>, fits: bool, input: seq<Byte>, k: nat, v: Byte, m: Cells, out: seq<Byte>, future: seq<Decision>, q: Squeezed)
    returns (next: Squeezed)
    requires Expanding(d, fits, input, k, v, m, out, future, q) && k < |input| && input[k] != v
    ensures Expanding(d, fits, input, k + 1, input[k], m, out + [input[k]], future, next)
  {
    assert Look(Log, 0);
    assert q.body[0] == input[k];
    next := NewAt(d, |out|, v, q);
    DropTwice(input, k, 1, k + 1);
  }

  lemma ExpandLast(d: seq<Byte>, fits: bool, input: seq<Byte>, k: nat, v: Byte, m: Cells, out: seq<Byte>, future: seq<Decision>, q: Squeezed)
    requires Expanding(d, fits, input, k, v, m, out, future, q) && k + 1 == |input| && input[k] == v
    ensures out + [input[k]] == d && fits
  {
    assert Look(Log, 0);
    assert q.body == [input[k]];
    LastAt(d, |out|, v, q);
  }

  lemma ExpandPair(d: seq<Byte>, fits: bool, input: seq<Byte>, k: nat, v: Byte, m: Cells, out: seq<Byte>, future: seq<Decision>, q: Squeezed)
    returns (next: Squeezed)
    requires Expanding(d, fits, input, k, v, m, out, future, q) && k + 1 < |input| && input[k] == v && input[k + 1] != v
    ensures Expanding(d, fits, input, k + 2, input[k + 1], m, out + [input[k]] + [input[k + 1]], future, next)
  {
    assert Look(Log, 0);
    assert q.body[0] == input[k] && q.body[1] == input[k + 1];
    next := PairAt(d, |out|, v, q);
    DropTwice(input, k, 2, k + 2);
  }

  lemma LensStep(m: Cells, n: nat, rest: seq<nat>)
    requires |m| == LENGTH_CELLS
    ensures LengthsCode(m, [n] + rest) == LengthCode(m, n).ds + LengthsCode(LengthCode(m, n).m, rest)
  {
    assert ([n] + rest)[1..] == rest;
  }

  lemma ShortOfMore(n: nat, lens: seq<nat>)
    ensures Short([n] + lens) <==> Bsr(n) <= LONGEST_CLASS && Short(lens)
  {
    assert ([n] + lens)[1..] == lens;
  }

  /** The length that stands next in the side stream, and what follows it. */
  lemma ExpandRun(d: seq<Byte>, fits: bool, input: seq<Byte>, k: nat, v: Byte, m: Cells, out: seq<Byte>, future: seq<Decision>, q: Squeezed)
    returns (n: nat, later: seq<Decision>, next: Squeezed)
    requires Expanding(d, fits, input, k, v, m, out, future, q) && k + 1 < |input| && input[k] == v == input[k + 1]
    ensures RunLength(input[k + 2..], v) == Bsr(n) && future == LengthCode(m, n).ds + later
    ensures |out| + 2 + n + (|input| - (k + 2 + Bsr(n))) <= |d|
    ensures Bsr(n) > LONGEST_CLASS ==> !fits
    ensures Bsr(n) <= LONGEST_CLASS
      ==> Expanding(d, fits, input, k + 2 + Bsr(n), v, LengthCode(m, n).m, out + [v] + [v] + Copies(v, n), later, next)
  {
    assert Look(Log, 0);
    assert q.body[0] == input[k] && q.body[1] == input[k + 1];
    var to;
    n, to, next := RunAt(d, |out|, v, q);
    later := LengthsCode(LengthCode(m, n).m, next.lens);
    LensStep(m, n, next.lens);
    ShortOfMore(n, next.lens);
    DropTwice(input, k, 2, k + 2);
    var skip := 2 + Bsr(n);
    DropTwice(input, k, skip, k + skip);
    if Bsr(n) <= LONGEST_CLASS {
      GoesOn(d, input, k + skip, v, LengthCode(m, n).m, to, later, next);
      assert out + [v] + [v] + Copies(v, n) == d[..to];
    }
  }

  lemma GoesOn(d: seq<Byte>, input: seq<Byte>, k: nat, v: Byte, m: Cells, at: nat, later: seq<Decision>, q: Squeezed)
    requires k <= |input| && |m| == LENGTH_CELLS && IsRest(d, at, v, q)
    requires q.body == input[k..] && later == LengthsCode(m, q.lens)
    ensures Expanding(d, Short(q.lens), input, k, v, m, d[..at], later, q)
  {
    assert |d[..at]| == at;
  }

  /** A collapsed run: the copies behind the pair tell the class, and the rest follows. */
  lemma SqueezedRun(r: seq<Byte>, v: Byte, b: seq<Byte>) returns (n: nat, q: Squeezed)
    requires |r| >= 2 && r[0] == v == r[1] && b == Collapse(v, r).body
    ensures 2 + n <= |r| && n == RunLength(r[2..], v) && q == Collapse(v, r[2 + n..])
    ensures Collapse(v, r).lens == [n] + q.lens
    ensures |b| == 2 + Bsr(n) + |q.body| && b[2 + Bsr(n)..] == q.body && RunLength(b[2..], v) == Bsr(n)
  {
    n := RunLength(r[2..], v);
    CollapseOfRun(r, v, n);
    q := Collapse(v, r[2 + n..]);
    assert r[2..][n..] == r[2 + n..];
    BodyOfOther(v, r[2..], n);
    RunOfCopies(v, Bsr(n), q.body);
    assert b[2..] == Copies(v, Bsr(n)) + q.body;
  }

  lemma RunInPlace(d: seq<Byte>, at: nat, v: Byte, n: nat)
    requires at + 2 + n <= |d| && d[at..][0] == v == d[at..][1] && n == RunLength(d[at..][2..], v)
    ensures d[..at] + [v] + [v] + Copies(v, n) == d[..at + 2 + n]
  {
    assert forall i :: 0 <= i < n ==> d[at..][2..][i] == d[at + 2 + i];
  }

  /** Behind a run something else follows, and its collapse begins with it. */
  lemma BodyOfOther(v: Byte, r: seq<Byte>, n: nat)
    requires n == RunLength(r, v)
    ensures var b := Collapse(v, r[n..]).body; b == [] || b[0] != v
  {
  }

  lemma {:induction false} RunOfCopies(v: Byte, x: nat, rest: seq<Byte>)
    requires rest == [] || rest[0] != v
    ensures RunLength(Copies(v, x) + rest, v) == x
    decreases x
  {
    var all := Copies(v, x) + rest;
    if x != 0 {
      RunOfCopies(v, x - 1, rest);
      assert all[1..] == Copies(v, x - 1) + rest;
    } else {
      assert all == rest;
    }
  }

  /** The copies that a pair of `c` and the class behind it stand for, if there is room for them. */
  method ExpandLength(dec: Decoder, input: seq<Byte>, k0: nat, c: Byte, m0: Cells, room: int, ghost d: seq<Byte>, ghost fits: bool,
                      ghost was: seq<Byte>, ghost q: Squeezed, ghost coded: bool)
    returns (ok: bool, k: nat, m: Cells, copies: seq<Byte>, ghost rest: Squeezed)
    requires dec.Valid() && |m0| == LENGTH_CELLS && k0 + 1 < |input| && input[k0] == c == input[k0 + 1]
    requires coded ==> dec.known && Expanding(d, fits, input, k0, c, m0, was, dec.future, q) && |d| <= |was| + 2 + room
    modifies dec
    ensures dec.Valid() && |m| == LENGTH_CELLS && (ok ==> k0 < k <= |input| && |copies| + (|input| - k) <= room)
    ensures coded && ok ==> dec.known && Expanding(d, fits, input, k, c, m, was + [c] + [c] + copies, dec.future, rest)
    ensures coded && !ok ==> !fits
  {
    ghost var n, later := 0, [];
    rest := q;
    if coded {
      n, later, rest := ExpandRun(d, fits, input, k0, c, m0, was, dec.future, q);
    }
    var x := CountRun(input, k0 + 2, c);
    if x > LONGEST_CLASS { return false, 0, m0, [], q; }
    var len;
    len, m := ReadLength(dec, m0, x, n, later);
    k := k0 + 2 + x;
    ok := room >= |input| - k + len;
    copies := Copies(c, len);
  }

  /**
   Expands into at most `cap` bytes. What was collapsed comes back exactly when no run needs a
   class that the reader refuses.
   */
  method ExpandRuns(input: seq<Byte>, cap: nat, side: seq<Byte>, ghost d: seq<Byte>) returns (ok: bool, out: seq<Byte>)
    ensures |out| <= cap
    ensures input != [] && input == Collapse(0, d).body && |d| <= cap
        && SameStream(side, Code(Coarse, FULL, LengthsCode(FreshLengths(), Collapse(0, d).lens)))
      ==> (ok <==> Expandable(d)) && (ok ==> out == d)
  {
    var dec := new Decoder(Coarse, side, LengthsCode(FreshLengths(), Collapse(0, d).lens));
    if input == [] || |input| > cap { return false, []; }
    ghost var coded := input == Collapse(0, d).body && |d| <= cap
      && dec.Ahead(LengthsCode(FreshLengths(), Collapse(0, d).lens));
    var m, v: Byte, k: nat := FreshLengths(), 0, 0;
    out := [];
    ghost var fits := Expandable(d);
    ghost var q := Squeezed([], []);
    if coded { q := ExpandStart(d); }
    while true
      invariant dec.Valid() && |m| == LENGTH_CELLS && k <= |input| && |out| + (|input| - k) <= cap
      invariant coded ==> dec.known && Expanding(d, fits, input, k, v, m, out, dec.future, q)
      decreases |input| - k
    {
      var last := v;
      if k == |input| {
        if coded { ExpandEnd(d, fits, input, v, m, out, dec.future, q); }
        break;
      }
      ghost var was := out;
      v := input[k];
      out := out + [v];
      if v != last {
        if coded { q := ExpandNew(d, fits, input, k, last, m, was, dec.future, q); }
        k := k + 1;
        continue;
      }
      if k + 1 == |input| {
        if coded { ExpandLast(d, fits, input, k, last, m, was, dec.future, q); }
        break;
      }
      v := input[k + 1];
      out := out + [v];
      if v != last {
        if coded { q := ExpandPair(d, fits, input, k, last, m, was, dec.future, q); }
        k := k + 2;
        continue;
      }
      var copies;
      ok, k, m, copies, q := ExpandLength(dec, input, k, last, m, cap - |out|, d, fits, was, q, coded);
      if !ok { return false, []; }
      out := out + copies;
    }
    ok := true;
  }

  /** So many equal bytes in a row make a run that the reader refuses. */
  const LONG_RUN := 0x8000_0002

  predicate IsRun(d: seq<Byte>, i: nat, n: nat) {
    i + n <= |d| && forall k | i <= k < i + n :: d[k] == d[i]
  }

  predicate NoLongRun(d: seq<Byte>) {
    forall i: nat | i + LONG_RUN <= |d| :: !IsRun(d, i, LONG_RUN)
  }

  lemma PartHasNone(d: seq<Byte>, i: nat, j: nat)
    requires NoLongRun(d) && i <= j <= |d|
    ensures NoLongRun(d[i..j])
  {
    var part := d[i..j];
    forall a: nat | a + LONG_RUN <= |part|
      ensures !IsRun(part, a, LONG_RUN)
    {
      RunOfPart(d, i, j, a, LONG_RUN);
    }
  }

  lemma RunOfPart(d: seq<Byte>, i: nat, j: nat, a: nat, n: nat)
    requires i <= j <= |d|
    ensures IsRun(d[i..j], a, n) ==> IsRun(d, i + a, n)
  {
    var part := d[i..j];
    if IsRun(part, a, n) {
      assert forall k | i + a <= k < i + a + n :: d[k] == part[k - i];
    }
  }

  /** Without such a row of bytes everything comes back. */
  lemma {:induction false} NoLongRunIsShort(prev: Byte, d: seq<Byte>)
    requires NoLongRun(d)
    ensures Short(Collapse(prev, d).lens)
    decreases |d|
  {
    if d != [] {
      if d[0] != prev {
        NoLongRunBehind(d, 1);
        NoLongRunIsShort(d[0], d[1..]);
      } else if |d| > 1 {
        if d[1] != d[0] {
          NoLongRunBehind(d, 2);
          NoLongRunIsShort(d[1], d[2..]);
        } else {
          var n := RunLength(d[2..], d[0]);
          NoLongRunBehind(d, 2 + n);
          NoLongRunIsShort(d[0], d[2 + n..]);
          RunIsShort(d, n);
          ShortOfMore(n, Collapse(d[0], d[2 + n..]).lens);
        }
      }
    }
  }

  lemma NoLongRunBehind(d: seq<Byte>, i: nat)
    requires NoLongRun(d) && i <= |d|
    ensures NoLongRun(d[i..])
  {
    PartHasNone(d, i, |d|);
    assert d[i..|d|] == d[i..];
  }

  lemma RunIsShort(d: seq<Byte>, n: nat)
    requires NoLongRun(d) && |d| >= 2 && d[0] == d[1] && n == RunLength(d[2..], d[0])
    ensures Bsr(n) <= LONGEST_CLASS
  {
    ClassFits(n);
    if n + 2 >= LONG_RUN { RunIsThere(d, n); }
  }

  lemma RunIsThere(d: seq<Byte>, n: nat)
    requires |d| >= 2 && d[0] == d[1] && n == RunLength(d[2..], d[0]) && n + 2 >= LONG_RUN
    ensures IsRun(d, 0, LONG_RUN)
  {
    assert forall k | 2 <= k < LONG_RUN :: d[k] == d[2..][k - 2];
  }

  lemma ClassFits(n: nat)
    ensures Bsr(n) <= LONGEST_CLASS <==> n < 0x8000_0000
  {
    BsrBounds(n);
    Power31();
    if Bsr(n) > LONGEST_CLASS {
      Pow2Monotone(31, Bsr(n));
    } else {
      Pow2Monotone(Bsr(n) + 1, 31);
    }
  }

  /** Zeros from the start are one run: so many of them are collapsed, and then refused. */
  lemma LongRunIsRefused(d: seq<Byte>)
    requires |d| == LONG_RUN && forall i | 0 <= i < |d| :: d[i] == 0
    ensures !Expandable(d)
  {
    RunOfZeros(d[2..]);
    var n := RunLength(d[2..], 0);
    ClassFits(n);
    ShortOfMore(n, Collapse(0, d[2 + n..]).lens);
  }

  lemma {:induction false} RunOfZeros(r: seq<Byte>)
    requires forall i | 0 <= i < |r| :: r[i] == 0
    ensures RunLength(r, 0) == |r|
  {
    if r != [] { RunOfZeros(r[1..]); }
  }

  lemma Power31()
    ensures Pow2(31) == 0x8000_0000
  {
    assert Pow2(8) == 0x100;
    assert Pow2(16) == 0x1_0000;
    assert Pow2(24) == 0x100_0000;
  }
}
