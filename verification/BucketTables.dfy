/**
 The tables at the front of a bucket's stream: the symbols' first positions (C) and the runs at
 which they run out (B), as differences through an integer model whose width shrinks with the room
 left; and the first state of the rank machine made from them.
 */
module BucketTables {
  import opened Words
  import opened Permutations
  import opened RangeCoder
  import opened IntCoding
  import opened BitStream
  import opened RankCoding
  import opened RankMachine

  const INT_CELLS: nat := 32

  /** A symbol that has run out is filed under `n + 255 - used`, which has to fit 32 bits for every `used`. */
  const BLOCK_LIMIT := 0xffff_ff00

  // ---------------------------------------------------------------- filling up

  /** The symbols from `j` on that are not among `p`, in order. */
  function AbsentFrom(p: seq<Byte>, j: nat): (r: seq<Byte>)
    requires j <= 256
    ensures forall i :: 0 <= i < |r| ==> j <= r[i] && r[i] !in p
    ensures forall s: Byte :: j <= s && s !in p ==> s in r
    decreases 256 - j, p
  {
    if j == 256 then [] else (if j in p then [] else [j]) + AbsentFrom(p, j + 1)
  }

  lemma {:induction false} AbsentRises(p: seq<Byte>, j: nat)
    requires j <= 256
    ensures forall i, k :: 0 <= i < k < |AbsentFrom(p, j)| ==> AbsentFrom(p, j)[i] < AbsentFrom(p, j)[k]
    decreases 256 - j
  {
    if j < 256 { AbsentRises(p, j + 1); }
  }

  /** All symbols: those of `p`, then the others in order. */
  function AllSymbols(p: seq<Byte>): seq<Byte> {
    p + AbsentFrom(p, 0)
  }

  lemma {:induction false} AtLeast(s: set<nat>, n: nat)
    requires forall x: nat :: x < n ==> x in s
    ensures |s| >= n
    decreases n
  {
    if n != 0 { AtLeast(s - {n - 1}, n - 1); }
  }

  lemma AllAreThere(p: seq<Byte>)
    ensures forall x: nat :: x < 256 ==> x in AllSymbols(p)
  {
    forall x: nat | x < 256 ensures x in AllSymbols(p) {
      var s: Byte := x;
      assert s in p || s in AbsentFrom(p, 0);
    }
  }

  lemma AllSymbolsArePerm(p: seq<Byte>)
    requires Distinct(p)
    ensures |AllSymbols(p)| == 256 && IsPerm(AllSymbols(p))
  {
    var absent, q := AbsentFrom(p, 0), AllSymbols(p);
    AbsentRises(p, 0);
    forall i, j | 0 <= i < j < |q| ensures q[i] != q[j] {
      if i < |p| <= j {
        assert q[i] in p;
        assert q[j] == absent[j - |p|];
      }
    }
    ValuesSize(q);
    Fits(Values(q), 256);
    AllAreThere(p);
    AtLeast(Values(q), 256);
  }

  /** FillUp: the symbols not used go behind, standing for the positions from `n` on. */
  method FillUp(n: nat, used: nat, P: array<Byte>, C: array<U32>)
    requires P.Length == C.Length == 256 && used <= 256 && Distinct(P[..used]) && n < BLOCK_LIMIT
    modifies P, C
    ensures P[..] == AllSymbols(old(P[..used])) && IsPerm(P[..]) && P[..used] == old(P[..used])
    ensures forall i :: used <= i < 256 ==> C[P[i]] == n + i - used
    ensures forall i :: 0 <= i < used ==> C[P[i]] == old(C[P[i]])
  {
    ghost var p := P[..used];
    ghost var all := AllSymbols(p);
    AllSymbolsArePerm(p);
    AbsentRises(p, 0);
    assert all[..used] == p;
    FillRest(n, used, P, C, all);
    assert Look(Spot, 0);
    assert P[..] == all;
  }

  method FillRest(n: nat, used: nat, P: array<Byte>, C: array<U32>, ghost all: seq<Byte>)
    requires P.Length == C.Length == 256 && used <= 256 && n < BLOCK_LIMIT
    requires |all| == 256 && IsPerm(all) && all[..used] == P[..used]
    requires forall i, k :: used <= i < k < 256 ==> all[i] < all[k]
    modifies P, C
    ensures Filled(P[..], C[..], n, all, used, 256, old(C[..]))
  {
    var taken := Taken(P[..used]);
    for m := used to 256
      invariant Filled(P[..], C[..], n, all, used, m, old(C[..])) && IsTaken(taken[..], all[..m])
    {
      var j := NextFree(taken, all, used, m);
      TakeOne(taken[..], all, m);
      FillOne(P[..], C[..], n, all, used, m, old(C[..]));
      taken[j] := true;
      ghost var p0, c0 := P[..], C[..];
      P[m] := j;
      C[j] := Wrap32(m - used + n);
      assert P[..] == p0[m := all[m]] && C[..] == c0[all[m] := Wrap32(m - used + n)];
    }
  }

  /** The state after `m` symbols, out of sight until `Look(Spot, 0)`. */
  ghost predicate Filled(p: seq<Byte>, c: seq<U32>, n: nat, all: seq<Byte>, used: nat, m: nat, c0: seq<U32>) {
    && |p| == |c| == |all| == |c0| == 256 && used <= m <= 256
    && forall z {:trigger Look(Spot, z)} :: Look(Spot, z) ==>
      (forall i :: 0 <= i < m ==> p[i] == all[i])
      && (forall i :: 0 <= i < used ==> c[all[i]] == c0[all[i]])
      && (forall i :: used <= i < m ==> c[all[i]] == n + i - used)
  }

  lemma FillOne(p: seq<Byte>, c: seq<U32>, n: nat, all: seq<Byte>, used: nat, m: nat, c0: seq<U32>)
    requires Filled(p, c, n, all, used, m, c0) && IsPerm(all) && m < 256 && n < BLOCK_LIMIT
    ensures Filled(p[m := all[m]], c[all[m] := Wrap32(m - used + n)], n, all, used, m + 1, c0)
  {
    assert Look(Spot, 0);
  }

  ghost predicate IsTaken(taken: seq<bool>, p: seq<Byte>) {
    |taken| == 256 && forall x: Byte :: taken[x] <==> x in p
  }

  lemma TakeOne(taken: seq<bool>, all: seq<Byte>, m: nat)
    requires m < |all| && IsTaken(taken, all[..m])
    ensures IsTaken(taken[all[m] := true], all[..m + 1])
  {
    assert all[..m + 1] == all[..m] + [all[m]];
  }

  method Taken(p: seq<Byte>) returns (taken: array<bool>)
    ensures taken.Length == 256 && fresh(taken) && IsTaken(taken[..], p)
  {
    taken := new bool[256](_ => false);
    for i := 0 to |p|
      invariant IsTaken(taken[..], p[..i])
    {
      TakeOne(taken[..], p, i);
      taken[p[i]] := true;
    }
    assert p[..|p|] == p;
  }

  lemma InFront(s: seq<Byte>, m: nat, x: nat)
    requires m <= |s| && x < |s|
    ensures x < m ==> s[x] in s[..m]
  {
    if x < m { assert s[..m][x] == s[x]; }
  }

  /** The smallest symbol not taken is the next of those absent. */
  method NextFree(taken: array<bool>, ghost all: seq<Byte>, ghost used: nat, ghost m: nat) returns (j: Byte)
    requires |all| == 256 && IsPerm(all) && used <= m < 256 && IsTaken(taken[..], all[..m])
    requires forall i, k :: used <= i < k < 256 ==> all[i] < all[k]
    ensures j == all[m]
  {
    ghost var goal: Byte := all[m];
    assert goal !in all[..m];
    j := 0;
    while taken[j]
      invariant j <= goal
      decreases 256 - j
    {
      assert taken[..][j];
      j := j + 1;
    }
    assert !taken[..][j];
    ghost var x := Onto(all, j);
    InFront(all, m, x);
  }

  // ---------------------------------------------------------------- first positions

  /** First positions of a bucket of `n` bytes: from 0 on, rising, with room for those that follow. */
  ghost predicate AreFirsts(keys: seq<nat>, n: nat) {
    && 1 <= |keys| <= 256 && keys[0] == 0 && |keys| <= n < BLOCK_LIMIT
    && forall z {:trigger Look(Codes, z)} :: Look(Codes, z) ==>
      (forall i :: 1 <= i < |keys| ==> keys[i - 1] < keys[i]) && forall i :: 0 <= i < |keys| ==> keys[i] + |keys| <= n + i
  }

  /** The room for the next first position, and what is coded of it. */
  ghost predicate GapFits(keys: seq<nat>, n: nat, j: nat)
    requires 1 <= j < |keys|
  {
    keys[j - 1] < keys[j] && keys[j - 1] + |keys| <= j + n && keys[j] - keys[j - 1] - 1 <= j + n - |keys| - keys[j - 1] < TWO32
  }

  lemma GapCodes(keys: seq<nat>, n: nat, j: nat)
    requires AreFirsts(keys, n) && 1 <= j < |keys|
    ensures GapFits(keys, n, j)
    ensures Bsr(keys[j] - keys[j - 1] - 1) <= Bsr(j + n - |keys| - keys[j - 1]) <= 31
  {
    assert Look(Codes, 0);
    BsrMonotone(keys[j] - keys[j - 1] - 1, j + n - |keys| - keys[j - 1]);
    BsrOfWord(j + n - |keys| - keys[j - 1]);
  }

  function FirstsCode(cells: Cells, n: nat, keys: seq<nat>, j: nat): (c: Coded)
    requires |cells| == INT_CELLS && AreFirsts(keys, n) && 1 <= j <= |keys|
    ensures |c.m| == INT_CELLS
    decreases |keys| - j
  {
    if j == |keys| then Coded([], cells)
    else
      GapCodes(keys, n, j);
      var one := IntCode(cells, Bsr(j + n - |keys| - keys[j - 1]), keys[j] - keys[j - 1] - 1);
      var rest := FirstsCode(one.m, n, keys, j + 1);
      Coded(one.ds + rest.ds, rest.m)
  }

  lemma FirstsStep(before: seq<Decision>, cells: Cells, n: nat, keys: seq<nat>, j: nat, later: seq<Decision>)
    requires |cells| == INT_CELLS && AreFirsts(keys, n) && 1 <= j < |keys|
    ensures GapFits(keys, n, j) && Bsr(keys[j] - keys[j - 1] - 1) <= Bsr(j + n - |keys| - keys[j - 1]) <= INT_CELLS
    ensures var one := IntCode(cells, Bsr(j + n - |keys| - keys[j - 1]), keys[j] - keys[j - 1] - 1);
      && FirstsCode(cells, n, keys, j).ds + later == one.ds + (FirstsCode(one.m, n, keys, j + 1).ds + later)
      && before + FirstsCode(cells, n, keys, j).ds == before + one.ds + FirstsCode(one.m, n, keys, j + 1).ds
      && FirstsCode(cells, n, keys, j).m == FirstsCode(one.m, n, keys, j + 1).m
  {
    GapCodes(keys, n, j);
    var one := IntCode(cells, Bsr(j + n - |keys| - keys[j - 1]), keys[j] - keys[j - 1] - 1);
    Cat(one.ds, FirstsCode(one.m, n, keys, j + 1).ds, later);
    Cat(before, one.ds, FirstsCode(one.m, n, keys, j + 1).ds);
  }

  method WriteFirsts(enc: Encoder, cells0: Cells, n: nat, used: nat, P: array<Byte>, C: array<U32>, ghost keys: seq<nat>)
    returns (cells: Cells)
    requires enc.Valid() && |cells0| == INT_CELLS && AreFirsts(keys, n) && |keys| == used
    requires P.Length == C.Length == 256 && forall i :: 0 <= i < used ==> C[P[i]] == keys[i]
    modifies enc
    ensures enc.Valid() && enc.trace == old(enc.trace) + FirstsCode(cells0, n, keys, 1).ds
    ensures cells == FirstsCode(cells0, n, keys, 1).m
  {
    cells := cells0;
    ghost var total := enc.trace + FirstsCode(cells0, n, keys, 1).ds;
    for j := 1 to used
      invariant enc.Valid() && |cells| == INT_CELLS
      invariant forall i :: 0 <= i < used ==> C[P[i]] == keys[i]
      invariant enc.trace + FirstsCode(cells, n, keys, j).ds == total
      invariant FirstsCode(cells, n, keys, j).m == FirstsCode(cells0, n, keys, 1).m
    {
      FirstsStep(enc.trace, cells, n, keys, j, []);
      var prev: nat, key: nat := C[P[j - 1]], C[P[j]];
      cells := WriteInt(enc, cells, Bsr(j + n - used - prev), key - prev - 1);
    }
  }

  /** The code of the `j`th first position behind what is read, and the arithmetic that undoes its gap. */
  lemma FirstAhead(cells: Cells, n: nat, used: nat, prev: nat, j: nat, keys: seq<nat>, later: seq<Decision>)
    returns (range: nat, gap: nat, more: seq<Decision>)
    requires |cells| == INT_CELLS && AreFirsts(keys, n) && |keys| == used && 1 <= j < used && prev == keys[j - 1]
    ensures range == j + n - used - prev && gap == keys[j] - prev - 1 && gap <= range < TWO32 && keys[j] < BLOCK_LIMIT
    ensures Bsr(gap) <= Bsr(range) <= 31
    ensures var one := IntCode(cells, Bsr(range), gap);
      && FirstsCode(cells, n, keys, j).ds + later == one.ds + more
      && more == FirstsCode(one.m, n, keys, j + 1).ds + later
      && FirstsCode(cells, n, keys, j).m == FirstsCode(one.m, n, keys, j + 1).m
  {
    FirstsStep([], cells, n, keys, j, later);
    GapCodes(keys, n, j);
    range, gap := j + n - used - prev, keys[j] - prev - 1;
    more := FirstsCode(IntCode(cells, Bsr(range), gap).m, n, keys, j + 1).ds + later;
    KeyBelow(keys, n, j);
  }

  lemma KeyBelow(keys: seq<nat>, n: nat, j: nat)
    requires AreFirsts(keys, n) && j < |keys|
    ensures keys[j] < n
  {
    assert Look(Codes, 0);
  }

  /** Reads the `j`th first position, given the one before it. */
  method ReadFirst(dec: Decoder, cells0: Cells, n: nat, used: nat, prev: U32, j: nat, ghost keys: seq<nat>, ghost later: seq<Decision>)
    returns (ok: bool, key: U32, cells: Cells)
    requires dec.Valid() && |cells0| == INT_CELLS && 1 <= j < used <= 256 && n < BLOCK_LIMIT
    modifies dec
    ensures dec.Valid() && |cells| == INT_CELLS
    ensures AreFirsts(keys, n) && |keys| == used && prev == keys[j - 1] && old(dec.Ahead(FirstsCode(cells0, n, keys, j).ds + later))
      ==> (ok && key == keys[j] && dec.Ahead(FirstsCode(cells, n, keys, j + 1).ds + later)
        && FirstsCode(cells, n, keys, j + 1).m == FirstsCode(cells0, n, keys, j).m)
  {
    ghost var coded := AreFirsts(keys, n) && |keys| == used && prev == keys[j - 1]
      && dec.Ahead(FirstsCode(cells0, n, keys, j).ds + later);
    cells, ok, key := cells0, true, 0;
    ghost var span: nat, gap: nat, more := 0, 0, later;
    if coded {
      span, gap, more := FirstAhead(cells, n, used, prev, j, keys, later);
    }
    if j + n < Word(used + prev) {
      ok := false;
      return;
    }
    var range := Word(j + n - used - prev);
    BsrOfWord(range);
    var read;
    read, cells := ReadInt(dec, cells, Bsr(range), gap, more);
    key := Word(read + prev + 1);
  }

  /** Unsigned arithmetic: what does not wrap is what it is. */
  function Word(x: int): (r: U32)
    ensures 0 <= x < TWO32 ==> r == x
  {
    Wrap32(x)
  }

  /** Reads the first positions into C. */
  method ReadFirsts(dec: Decoder, cells0: Cells, n: nat, syms: seq<Byte>, C: array<U32>, ghost keys: seq<nat>, ghost later: seq<Decision>)
    returns (ok: bool, cells: Cells)
    requires dec.Valid() && |cells0| == INT_CELLS && C.Length == 256 && Distinct(syms) && 1 <= |syms| <= 256 && n < BLOCK_LIMIT
    modifies dec, C
    ensures dec.Valid() && |cells| == INT_CELLS
    ensures forall s: Byte :: s !in syms ==> C[s] == old(C[s])
    ensures AreFirsts(keys, n) && |keys| == |syms| && old(dec.Ahead(FirstsCode(cells0, n, keys, 1).ds + later))
      ==> (ok && cells == FirstsCode(cells0, n, keys, 1).m && dec.Ahead(later) && forall i :: 0 <= i < |syms| ==> C[syms[i]] == keys[i])
  {
    ghost var coded := AreFirsts(keys, n) && |keys| == |syms| && dec.Ahead(FirstsCode(cells0, n, keys, 1).ds + later);
    cells, ok := cells0, true;
    C[syms[0]] := 0;
    for j := 1 to |syms|
      invariant dec.Valid() && |cells| == INT_CELLS
      invariant forall s: Byte :: s !in syms ==> C[s] == old(C[s])
      invariant coded ==> forall i :: 0 <= i < j ==> C[syms[i]] == keys[i]
      invariant coded ==> dec.Ahead(FirstsCode(cells, n, keys, j).ds + later)
      invariant coded ==> FirstsCode(cells, n, keys, j).m == FirstsCode(cells0, n, keys, 1).m
    {
      var key;
      ok, key, cells := ReadFirst(dec, cells, n, |syms|, C[syms[j - 1]], j, keys, later);
      if !ok { return; }
      C[syms[j]] := key;
    }
    assert coded ==> FirstsCode(cells, n, keys, |keys|).ds + later == later;
  }

  // ---------------------------------------------------------------- where symbols run out

  /** The runs, counted from 0, after which the symbols run out one by one. */
  ghost predicate AreEnds(ends: seq<nat>, n: nat) {
    && 1 <= |ends| <= 256 && |ends| <= n < BLOCK_LIMIT
    && forall z {:trigger Look(Codes, z)} :: Look(Codes, z) ==>
      (forall i :: 1 <= i < |ends| ==> ends[i - 1] < ends[i]) && forall i :: 0 <= i < |ends| ==> i <= ends[i] && ends[i] + |ends| <= n + i
  }

  /** The first run after the one at which symbol `i - 1` ran out. */
  function After(ends: seq<nat>, i: nat): nat
    requires i <= |ends|
  {
    if i == 0 then 0 else ends[i - 1] + 1
  }

  lemma EndCodes(ends: seq<nat>, n: nat, i: nat)
    requires AreEnds(ends, n) && i < |ends|
    ensures After(ends, i) <= ends[i] < n && Bsr(ends[i] - After(ends, i)) <= Bsr(n - |ends|) <= 31
  {
    assert Look(Codes, 0);
    BsrMonotone(ends[i] - After(ends, i), n - |ends|);
    BsrOfWord(n - |ends|);
  }

  function EndsCode(cells: Cells, n: nat, ends: seq<nat>, i: nat): (c: Coded)
    requires |cells| == INT_CELLS && AreEnds(ends, n) && i <= |ends|
    ensures |c.m| == INT_CELLS
    decreases |ends| - i
  {
    if i == |ends| then Coded([], cells)
    else
      EndCodes(ends, n, i);
      var one := IntCode(cells, Bsr(n - |ends|), ends[i] - After(ends, i));
      var rest := EndsCode(one.m, n, ends, i + 1);
      Coded(one.ds + rest.ds, rest.m)
  }

  lemma EndsStep(before: seq<Decision>, cells: Cells, n: nat, ends: seq<nat>, i: nat, later: seq<Decision>)
    requires |cells| == INT_CELLS && AreEnds(ends, n) && i < |ends|
    ensures After(ends, i) <= ends[i] < n && Bsr(ends[i] - After(ends, i)) <= Bsr(n - |ends|) <= INT_CELLS
    ensures var one := IntCode(cells, Bsr(n - |ends|), ends[i] - After(ends, i));
      && EndsCode(cells, n, ends, i).ds + later == one.ds + (EndsCode(one.m, n, ends, i + 1).ds + later)
      && before + EndsCode(cells, n, ends, i).ds == before + one.ds + EndsCode(one.m, n, ends, i + 1).ds
  {
    EndCodes(ends, n, i);
    var one := IntCode(cells, Bsr(n - |ends|), ends[i] - After(ends, i));
    Cat(one.ds, EndsCode(one.m, n, ends, i + 1).ds, later);
    Cat(before, one.ds, EndsCode(one.m, n, ends, i + 1).ds);
  }

  method WriteEnds(enc: Encoder, cells0: Cells, n: nat, ends: seq<nat>)
    requires enc.Valid() && |cells0| == INT_CELLS && AreEnds(ends, n)
    modifies enc
    ensures enc.Valid() && enc.trace == old(enc.trace) + EndsCode(cells0, n, ends, 0).ds
  {
    var cells, prev: nat, bits := cells0, 0, Bsr(n - |ends|);
    ghost var total := enc.trace + EndsCode(cells0, n, ends, 0).ds;
    for i := 0 to |ends|
      invariant enc.Valid() && |cells| == INT_CELLS && prev == After(ends, i)
      invariant enc.trace + EndsCode(cells, n, ends, i).ds == total
    {
      EndsStep(enc.trace, cells, n, ends, i, []);
      cells := WriteInt(enc, cells, bits, ends[i] - prev);
      prev := ends[i] + 1;
    }
  }

  /** Reads one difference. */
  method ReadEnd(dec: Decoder, cells0: Cells, bits: nat, ghost n: nat, ghost want: seq<nat>, ghost i: nat, ghost later: seq<Decision>)
    returns (gap: nat, cells: Cells)
    requires dec.Valid() && |cells0| == INT_CELLS && bits <= INT_CELLS
    modifies dec
    ensures dec.Valid() && |cells| == INT_CELLS
    ensures AreEnds(want, n) && i < |want| && bits == Bsr(n - |want|) && old(dec.Ahead(EndsCode(cells0, n, want, i).ds + later))
      ==> gap == want[i] - After(want, i) && want[i] < n && dec.Ahead(EndsCode(cells, n, want, i + 1).ds + later)
  {
    ghost var coded := AreEnds(want, n) && i < |want| && bits == Bsr(n - |want|) && dec.Ahead(EndsCode(cells0, n, want, i).ds + later);
    ghost var v: nat, more := 0, later;
    if coded {
      EndsStep([], cells0, n, want, i, later);
      v := want[i] - After(want, i);
      more := EndsCode(IntCode(cells0, bits, v).m, n, want, i + 1).ds + later;
    }
    gap, cells := ReadInt(dec, cells0, bits, v, more);
  }

  /** Reads `used` runs, all below `n`. */
  method ReadEnds(dec: Decoder, cells0: Cells, n: nat, used: nat, ghost want: seq<nat>, ghost later: seq<Decision>)
    returns (ok: bool, ends: seq<nat>)
    requires dec.Valid() && |cells0| == INT_CELLS && 1 <= used <= n < BLOCK_LIMIT
    modifies dec
    ensures dec.Valid() && (ok ==> |ends| == used && forall i :: 0 <= i < used ==> ends[i] < n)
    ensures AreEnds(want, n) && |want| == used && old(dec.Ahead(EndsCode(cells0, n, want, 0).ds + later)) ==> ok && ends == want && dec.Ahead(later)
  {
    ghost var coded := AreEnds(want, n) && |want| == used && dec.Ahead(EndsCode(cells0, n, want, 0).ds + later);
    var cells, sum: nat := cells0, 0;
    BsrOfWord(n - used);
    ends, ok := [], true;
    for i := 0 to used
      invariant dec.Valid() && |cells| == INT_CELLS && |ends| == i && sum <= n
      invariant forall k :: 0 <= k < i ==> ends[k] < n
      invariant coded ==> ends == want[..i] && sum == After(want, i) && dec.Ahead(EndsCode(cells, n, want, i).ds + later)
    {
      var gap;
      gap, cells := ReadEnd(dec, cells, Bsr(n - used), n, want, i, later);
      var end := Word(sum + gap);
      if end >= n {
        ok := false;
        return;
      }
      ends := ends + [end];
      sum := end + 1;
    }
    assert coded ==> EndsCode(cells, n, want, used).ds + later == later;
  }
}
