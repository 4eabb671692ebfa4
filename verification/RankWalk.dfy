/**
 The walk over a bucket's runs (BwtBucketEncoder): what it yields as a function of the data, and
 the encoder's methods that compute it with moving arrays and a cursor for every symbol.
 */
module RankWalk {
  import opened Words
  import opened Permutations
  import opened StableSort
  import opened BwtTable
  import opened RankCoding
  import opened RankMachine
  import opened BucketTables

  // ---------------------------------------------------------------- the walk as a function

  /** What one rank's coding needs: how far beyond its rank the symbol comes back, and the context. */
  datatype Step = Step(delta: nat, hash: nat, sym: Byte)

  /** The runs after which symbols run out, and the ranks in between. */
  datatype Walked = Walked(ends: seq<nat>, steps: seq<Step>)

  /** `Ok`, out of sight until `Look(Steps, 0)`. */
  ghost predicate Live(d: seq<Byte>, m: Machine, used: nat, pos: nat) {
    && |m.p| == |m.c| == SYMBOLS && used <= SYMBOLS && pos <= |d| && (used == 0 <==> pos == |d|)
    && forall z {:trigger Look(Steps, z)} :: Look(Steps, z) ==> Ok(d, m, used, pos)
  }

  /** Where the run at `pos` ends. */
  function RunEnd(m: Machine): nat
    requires |m.p| == |m.c| == SYMBOLS
  {
    Key(m, 1)
  }

  lemma RunEnds(d: seq<Byte>, m: Machine, used: nat, pos: nat)
    requires Live(d, m, used, pos) && used > 0
    ensures pos < RunEnd(m) <= |d|
  {
    assert Look(Steps, 0);
    RunIsOneSymbol(d, m, used, pos);
  }

  /** Where the symbol of the run comes next. */
  ghost function Next(d: seq<Byte>, m: Machine): (r: nat)
    requires |m.p| == |m.c| == SYMBOLS && RunEnd(m) <= |d|
    ensures r <= |d|
  {
    NextAt(d, m.p[0], RunEnd(m))
  }

  lemma RankExists(d: seq<Byte>, m: Machine, used: nat, pos: nat)
    requires Live(d, m, used, pos) && used > 0 && RunEnd(m) <= |d| && Next(d, m) < |d|
    ensures exists k: nat :: IsRankOf(m, Next(d, m), k)
  {
    assert Look(Steps, 0);
    SecondComesFirst(d, m, used, pos);
    var k := RankFrom(m, Next(d, m), 1);
  }

  ghost function LandingRank(d: seq<Byte>, m: Machine, used: nat, pos: nat): (k: nat)
    requires Live(d, m, used, pos) && used > 0 && RunEnd(m) <= |d| && Next(d, m) < |d|
    ensures IsRankOf(m, Next(d, m), k) && RunEnd(m) + k <= Next(d, m)
  {
    RankExists(d, m, used, pos);
    assert Look(Steps, 0);
    var k := RankOf(m, Next(d, m));
    DeltaIsNatural(m, Next(d, m), k);
    k
  }

  /** The machine behind the run, and how many symbols are left. */
  ghost function Advanced(d: seq<Byte>, m: Machine, used: nat, pos: nat): (r: (Machine, nat))
    requires Live(d, m, used, pos) && used > 0
    ensures RunEnd(m) <= |d| && r.1 == (if Next(d, m) == |d| then used - 1 else used)
    ensures Live(d, r.0, r.1, RunEnd(m))
  {
    RunEnds(d, m, used, pos);
    assert Look(Steps, 0);
    if Next(d, m) == |d| then
      DeathKeepsOk(d, m, used, pos);
      (Died(m, |d|, used - 1), used - 1)
    else
      var k := LandingRank(d, m, used, pos);
      InsertKeepsOk(d, m, used, pos, k);
      (Inserted(m, k, Next(d, m)), used)
  }

  function HashOf(m: Machine): (h: nat)
    requires |m.p| == |m.c| == SYMBOLS
    ensures h < 16
  {
    Hash(Key(m, 0), Key(m, 1), Key(m, 2), Key(m, 3), Key(m, 4))
  }

  /** Everything from the run at `pos` on; `runs` runs are before it. */
  ghost function Trace(d: seq<Byte>, m: Machine, used: nat, pos: nat, runs: nat): Walked
    requires Live(d, m, used, pos)
    decreases |d| - pos
  {
    if used == 0 then Walked([], [])
    else
      RunEnds(d, m, used, pos);
      var (m', used') := Advanced(d, m, used, pos);
      var w := Trace(d, m', used', RunEnd(m), runs + 1);
      if Next(d, m) == |d| then Walked([runs] + w.ends, w.steps)
      else
        var k := LandingRank(d, m, used, pos);
        Walked(w.ends, [Step(Next(d, m) - RunEnd(m) - k, HashOf(m), m.p[0])] + w.steps)
  }

  /** As many ends as symbols, rising, with room for those that follow; and no rank above the data's length. */
  lemma {:induction false} TraceShape(d: seq<Byte>, m: Machine, used: nat, pos: nat, runs: nat)
    requires Live(d, m, used, pos)
    ensures var w := Trace(d, m, used, pos, runs);
      && |w.ends| == used
      && (forall i :: 0 <= i < used ==> runs + i <= w.ends[i] && w.ends[i] + used <= runs + |d| - pos + i)
      && (forall i :: 1 <= i < used ==> w.ends[i - 1] < w.ends[i])
      && (forall s :: s in w.steps ==> s.delta < |d| && s.hash < 16)
    decreases |d| - pos
  {
    if used != 0 {
      RunEnds(d, m, used, pos);
      var (m', used') := Advanced(d, m, used, pos);
      TraceShape(d, m', used', RunEnd(m), runs + 1);
      RoomForLive(d, m, used, pos);
    }
  }

  lemma RoomForLive(d: seq<Byte>, m: Machine, used: nat, pos: nat)
    requires Live(d, m, used, pos) && used > 0
    ensures pos + used <= |d|
  {
    assert Look(Steps, 0);
    RankGap(m, 0, used - 1);
  }

  // ---------------------------------------------------------------- the first state

  /** The state before the first run, with the unused symbols in order. */
  ghost predicate IsFirst(d: seq<Byte>, m: Machine, used: nat) {
    Live(d, m, used, 0) && m.p == AllSymbols(m.p[..used])
  }

  ghost function Firsts(m: Machine, used: nat): (keys: seq<nat>)
    requires |m.p| == |m.c| == SYMBOLS && used <= SYMBOLS
    ensures |keys| == used && forall i :: 0 <= i < used ==> keys[i] == Key(m, i)
  {
    seq(used, i requires 0 <= i < used => Key(m, i))
  }

  lemma LiveKeys(d: seq<Byte>, m: Machine, used: nat, pos: nat, i: nat)
    requires Live(d, m, used, pos) && i < used
    ensures Key(m, i) + used <= |d| + i && (i > 0 ==> Key(m, i - 1) < Key(m, i)) && (i == 0 ==> Key(m, i) == pos)
  {
    assert Look(Steps, 0);
    RankGap(m, i, used - 1);
  }

  lemma FirstsAreFirsts(d: seq<Byte>, m: Machine, used: nat)
    requires IsFirst(d, m, used) && 1 <= |d| < BLOCK_LIMIT
    ensures 1 <= used && AreFirsts(Firsts(m, used), |d|)
  {
    var keys := Firsts(m, used);
    LiveKeys(d, m, used, 0, 0);
    forall i | 1 <= i < used ensures keys[i - 1] < keys[i] {
      LiveKeys(d, m, used, 0, i);
    }
    forall i | 0 <= i < used ensures keys[i] + used <= |d| + i {
      LiveKeys(d, m, used, 0, i);
    }
  }

  lemma SameAt(d: seq<Byte>, m: Machine, used: nat, m': Machine, s: nat)
    requires Live(d, m, used, 0) && |m'.p| == |m'.c| == SYMBOLS && m'.p == m.p && s < SYMBOLS
    requires forall i :: 0 <= i < used ==> Key(m', i) == Key(m, i)
    requires forall i :: used <= i < SYMBOLS ==> Key(m', i) == |d| + i - used
    ensures m'.c[s] == m.c[s]
  {
    assert Look(Steps, 0);
    var i := Onto(m.p, s);
    assert Key(m', i) == Key(m, i);
  }

  /** The symbols in front and their positions make the whole state. */
  lemma FirstIsKnown(d: seq<Byte>, m: Machine, used: nat, m': Machine)
    requires IsFirst(d, m, used) && |m'.p| == |m'.c| == SYMBOLS && m'.p == AllSymbols(m.p[..used])
    requires forall i :: 0 <= i < used ==> Key(m', i) == Key(m, i)
    requires forall i :: used <= i < SYMBOLS ==> Key(m', i) == |d| + i - used
    ensures m' == m
  {
    forall s: nat | s < SYMBOLS ensures m'.c[s] == m.c[s] {
      SameAt(d, m, used, m', s);
    }
  }

  /** The symbols in the order they appear, with where. */
  ghost predicate Scanned(d: seq<Byte>, i: nat, syms: seq<Byte>, c: seq<nat>) {
    && i <= |d| && |c| == SYMBOLS && Distinct(syms)
    && (forall s: Byte :: s in syms <==> s in d[..i])
    && (forall j :: 0 <= j < |syms| ==> c[syms[j]] < i && d[c[syms[j]]] == syms[j])
    && (forall j, t :: 0 <= j < |syms| && 0 <= t < c[syms[j]] ==> d[t] != syms[j])
    && forall j, k :: 0 <= j < k < |syms| ==> c[syms[j]] < c[syms[k]]
  }

  lemma ScanOne(d: seq<Byte>, i: nat, syms: seq<Byte>, c: seq<nat>)
    requires Scanned(d, i, syms, c) && i < |d|
    ensures d[i] in syms ==> Scanned(d, i + 1, syms, c)
    ensures d[i] !in syms ==> Scanned(d, i + 1, syms + [d[i]], c[d[i] := i])
  {
    assert d[..i + 1] == d[..i] + [d[i]];
    if d[i] !in syms {
      var syms', c' := syms + [d[i]], c[d[i] := i];
      forall t | 0 <= t < i ensures d[t] != d[i] {
        assert d[..i][t] == d[t];
      }
      forall j | 0 <= j < |syms| ensures c'[syms[j]] == c[syms[j]] {
        assert syms[j] in syms;
      }
    }
  }

  lemma ScannedIsFirst(d: seq<Byte>, syms: seq<Byte>, c: seq<nat>, m: Machine)
    requires Scanned(d, |d|, syms, c) && d != []
    requires |m.p| == |m.c| == SYMBOLS && m.p == AllSymbols(syms) && IsPerm(m.p)
    requires forall i :: 0 <= i < |syms| ==> Key(m, i) == c[syms[i]]
    requires |syms| <= SYMBOLS && forall i :: |syms| <= i < SYMBOLS ==> Key(m, i) == |d| + i - |syms|
    ensures m.p[..|syms|] == syms && IsFirst(d, m, |syms|)
  {
    var used := |syms|;
    assert m.p[..used] == syms;
    forall i | 0 <= i < SYMBOLS ensures NextAt(d, m.p[i], 0) == if i < used then Key(m, i) else |d| {
      NextOfScanned(d, syms, c, m.p, i);
    }
    assert d[0] in d[..|d|];
    FirstAtZero(d, syms, c);
    forall i, j | 0 <= i < j < SYMBOLS ensures Key(m, i) < Key(m, j) {
      if j < used { assert c[syms[i]] < c[syms[j]]; }
    }
    assert Ok(d, m, used, 0);
  }

  lemma NextOfSeen(d: seq<Byte>, syms: seq<Byte>, c: seq<nat>, i: nat)
    requires Scanned(d, |d|, syms, c) && i < |syms|
    ensures NextAt(d, syms[i], 0) == c[syms[i]]
  {
    NextAtIs(d, syms[i], 0, c[syms[i]]);
  }

  lemma NextOfUnseen(d: seq<Byte>, syms: seq<Byte>, c: seq<nat>, s: Byte)
    requires Scanned(d, |d|, syms, c) && s !in syms
    ensures NextAt(d, s, 0) == |d|
  {
    assert d[..|d|] == d;
    NextAtIs(d, s, 0, |d|);
  }

  lemma NextOfScanned(d: seq<Byte>, syms: seq<Byte>, c: seq<nat>, p: seq<Byte>, i: nat)
    requires Scanned(d, |d|, syms, c) && |p| == SYMBOLS && p == AllSymbols(syms) && i < SYMBOLS
    ensures NextAt(d, p[i], 0) == if i < |syms| then c[syms[i]] else |d|
  {
    if i < |syms| {
      NextOfSeen(d, syms, c, i);
    } else {
      assert p[i] == AbsentFrom(syms, 0)[i - |syms|];
      NextOfUnseen(d, syms, c, p[i]);
    }
  }

  lemma FirstAtZero(d: seq<Byte>, syms: seq<Byte>, c: seq<nat>)
    requires Scanned(d, |d|, syms, c) && d != [] && d[0] in syms
    ensures c[syms[0]] == 0
  {
    var j :| 0 <= j < |syms| && syms[j] == d[0];
    assert c[syms[j]] == 0;
  }
}
