/**
 The inverse BWT as it runs: one chain for small blocks, and for large ones some 128 chains that
 are walked in any interleaving and stitched together (NzBwtUntransform, BwtUntransformChains).
 Both are proved to be the n-step walk.
 */
module BwtUntransform {
  import opened Words
  import opened Permutations
  import opened Rotations
  import opened BwtWalk
  import opened BwtTable
  import opened StableSort

  const CHAIN_THRESHOLD := 0x40000
  const CHAINS := 128

  // ---------------------------------------------------------------- walking in pieces

  lemma {:induction false} WalkSplits(l: seq<Byte>, table: seq<nat>, p: nat, a: nat, b: nat)
    requires |l| == |table| && InRange(table) && p < |table|
    ensures Walk(table, p, a + b) == Walk(table, Walk(table, p, a), b)
    ensures WalkBytes(l, table, p, a + b) == WalkBytes(l, table, p, a) + WalkBytes(l, table, Walk(table, p, a), b)
    decreases a
  {
    if a != 0 {
      WalkSplits(l, table, table[p], a - 1, b);
    }
  }

  lemma WalkSnoc(l: seq<Byte>, table: seq<nat>, p: nat, k: nat)
    requires |l| == |table| && InRange(table) && p < |table|
    ensures Walk(table, p, k + 1) == table[Walk(table, p, k)]
    ensures WalkBytes(l, table, p, k + 1) == WalkBytes(l, table, p, k) + [l[table[Walk(table, p, k)]]]
  {
    WalkSplits(l, table, p, k, 1);
    assert Walk(table, Walk(table, p, k), 1) == table[Walk(table, p, k)];
    assert WalkBytes(l, table, Walk(table, p, k), 1) == [l[table[Walk(table, p, k)]]];
  }

  lemma {:induction false} WalkInjective(table: seq<nat>, p: nat, q: nat, k: nat)
    requires IsPerm(table) && p < |table| && q < |table| && Walk(table, p, k) == Walk(table, q, k)
    ensures p == q
    decreases k
  {
    if k != 0 {
      WalkInjective(table, table[p], table[q], k - 1);
    }
  }

  /** A chain: where it began, where it stands, what it read, and where it met a start. */
  datatype Chain = Chain(start: nat, idx: nat, bytes: seq<Byte>, done: bool, next: nat)

  /** The start whose low byte is that of `x`, if any. */
  predicate IsStart(starts: seq<int>, x: nat)
    requires |starts| == 256
  {
    starts[x % 256] == x
  }

  /** No start on the first `m` steps from `p`. */
  ghost predicate Free(table: seq<nat>, starts: seq<int>, p: nat, m: nat)
    requires |starts| == 256 && InRange(table) && p < |table|
  {
    forall t :: 1 <= t <= m ==> !IsStart(starts, Walk(table, p, t))
  }

  ghost predicate ChainOk(l: seq<Byte>, table: seq<nat>, starts: seq<int>, c: Chain) {
    && |l| == |table| && IsPerm(table) && |starts| == 256
    && c.start < |l| && IsStart(starts, c.start)
    && c.bytes == WalkBytes(l, table, c.start, |c.bytes|)
    && if c.done then
      |c.bytes| >= 1 && Free(table, starts, c.start, |c.bytes| - 1)
      && c.next == Walk(table, c.start, |c.bytes|) && IsStart(starts, c.next)
    else
      Free(table, starts, c.start, |c.bytes|) && c.idx == Walk(table, c.start, |c.bytes|)
  }

  ghost predicate ChainsOk(l: seq<Byte>, table: seq<nat>, starts: seq<int>, chains: seq<Chain>) {
    && (forall k :: 0 <= k < |chains| ==> ChainOk(l, table, starts, chains[k]))
    && forall j, k :: 0 <= j < k < |chains| ==> chains[j].start != chains[k].start
  }

  /** `ChainsOk`, out of sight until `Look(Pieces, 0)`. */
  ghost predicate Chained(l: seq<Byte>, table: seq<nat>, starts: seq<int>, chains: seq<Chain>) {
    forall z {:trigger Look(Pieces, z)} :: Look(Pieces, z) ==> ChainsOk(l, table, starts, chains)
  }

  /** Chains never overlap: two that meet began at the same start, equally far back. */
  lemma NoMeeting(l: seq<Byte>, table: seq<nat>, starts: seq<int>, a: nat, m: nat, b: nat, k: nat)
    requires |l| == |table| && IsPerm(table) && |starts| == 256 && a < |l| && b < |l|
    requires IsStart(starts, a) && IsStart(starts, b) && Free(table, starts, a, m) && Free(table, starts, b, k)
    requires Walk(table, a, m) == Walk(table, b, k)
    ensures a == b && m == k
  {
    if m >= k {
      WalkSplits(l, table, a, m - k, k);
      WalkInjective(table, Walk(table, a, m - k), b, k);
    } else {
      WalkSplits(l, table, b, k - m, m);
      WalkInjective(table, Walk(table, b, k - m), a, m);
    }
  }

  /** Every position read so far, with the chain and the step that read it. */
  ghost predicate Owned(table: seq<nat>, chains: seq<Chain>, owner: map<nat, (nat, nat)>) {
    && InRange(table)
    && forall x :: x in owner ==> Read(table, chains, x, owner[x].0, owner[x].1)
  }

  ghost predicate Read(table: seq<nat>, chains: seq<Chain>, x: nat, k: nat, m: nat)
    requires InRange(table)
  {
    x < |table| && k < |chains| && m < |chains[k].bytes| && chains[k].start < |table| && Walk(table, chains[k].start, m) == x
  }

  /** What one step makes of a chain. */
  function Stepped(l: seq<Byte>, table: seq<nat>, starts: seq<int>, c: Chain): Chain
    requires |l| == |table| && InRange(table) && |starts| == 256 && c.idx < |l|
  {
    var nxt := table[c.idx];
    var c1 := c.(bytes := c.bytes + [l[nxt]]);
    if IsStart(starts, nxt) then c1.(next := nxt, done := true) else c1.(idx := nxt)
  }

  lemma StepKeepsOk(l: seq<Byte>, table: seq<nat>, starts: seq<int>, c: Chain)
    requires ChainOk(l, table, starts, c) && !c.done
    ensures c.idx < |l| && ChainOk(l, table, starts, Stepped(l, table, starts, c))
  {
    WalkSplits(l, table, c.start, |c.bytes|, 1);
    var one := WalkBytes(l, table, c.idx, 1);
    assert one == [l[table[c.idx]]];
    assert Walk(table, c.idx, 1) == table[c.idx];
  }

  lemma NewPosition(l: seq<Byte>, table: seq<nat>, starts: seq<int>, chains: seq<Chain>, owner: map<nat, (nat, nat)>, k: nat)
    requires ChainsOk(l, table, starts, chains) && Owned(table, chains, owner) && k < |chains| && !chains[k].done
    ensures chains[k].idx !in owner
  {
    var c := chains[k];
    if c.idx in owner {
      var (j, m) := owner[c.idx];
      NoMeeting(l, table, starts, c.start, |c.bytes|, chains[j].start, m);
    }
  }

  lemma StepKeepsChains(l: seq<Byte>, table: seq<nat>, starts: seq<int>, chains: seq<Chain>, k: nat)
    requires ChainsOk(l, table, starts, chains) && k < |chains| && !chains[k].done
    ensures chains[k].idx < |l| == |table| && InRange(table) && |starts| == 256
    ensures ChainsOk(l, table, starts, chains[k := Stepped(l, table, starts, chains[k])])
  {
    StepKeepsOk(l, table, starts, chains[k]);
  }

  /** A step of one live chain reads a position nobody read before. */
  lemma StepOwns(l: seq<Byte>, table: seq<nat>, starts: seq<int>, chains: seq<Chain>, owner: map<nat, (nat, nat)>, k: nat, c: Chain)
    requires ChainsOk(l, table, starts, chains) && Owned(table, chains, owner) && k < |chains| && !chains[k].done
    requires c.start == chains[k].start && |c.bytes| == |chains[k].bytes| + 1
    ensures var owner' := owner[chains[k].idx := (k, |chains[k].bytes|)];
      Owned(table, chains[k := c], owner') && |owner'| == |owner| + 1 <= |table|
  {
    NewPosition(l, table, starts, chains, owner, k);
    var x, m := chains[k].idx, |chains[k].bytes|;
    assert ChainOk(l, table, starts, chains[k]);
    assert x < |table| && x == Walk(table, c.start, m);
    Extended(table, chains, owner, k, c, x, m);
    var owner' := owner[x := (k, m)];
    Fits(owner'.Keys, |table|);
    assert owner'.Keys == owner.Keys + {x};
  }

  lemma Extended(table: seq<nat>, chains: seq<Chain>, owner: map<nat, (nat, nat)>, k: nat, c: Chain, x: nat, m: nat)
    requires Owned(table, chains, owner) && k < |chains| && c.start == chains[k].start < |table|
    requires |chains[k].bytes| <= |c.bytes| && m < |c.bytes| && x == Walk(table, c.start, m)
    ensures Owned(table, chains[k := c], owner[x := (k, m)])
  {
    var owner' := owner[x := (k, m)];
    forall y | y in owner'
      ensures Read(table, chains[k := c], y, owner'[y].0, owner'[y].1)
    {
      assert y == x || Read(table, chains, y, owner[y].0, owner[y].1);
    }
  }

  /** The chains and the owners of what they read, out of sight until `Look(Pieces, 0)`. */
  ghost predicate Walking(l: seq<Byte>, table: seq<nat>, starts: seq<int>, chains: seq<Chain>, owner: map<nat, (nat, nat)>) {
    forall z {:trigger Look(Pieces, z)} :: Look(Pieces, z) ==> ChainsOk(l, table, starts, chains) && Owned(table, chains, owner)
  }

  lemma StepKeepsWalking(l: seq<Byte>, table: seq<nat>, starts: seq<int>, chains: seq<Chain>, owner: map<nat, (nat, nat)>, k: nat)
    requires Walking(l, table, starts, chains, owner) && k < |chains| && !chains[k].done
    ensures chains[k].idx < |l| == |table| && InRange(table) && |starts| == 256
    ensures var owner' := owner[chains[k].idx := (k, |chains[k].bytes|)];
      Walking(l, table, starts, chains[k := Stepped(l, table, starts, chains[k])], owner') && |owner'| == |owner| + 1 <= |l|
  {
    assert Look(Pieces, 0);
    StepKeepsChains(l, table, starts, chains, k);
    StepOwns(l, table, starts, chains, owner, k, Stepped(l, table, starts, chains[k]));
  }

  lemma WalkingFrom(l: seq<Byte>, table: seq<nat>, starts: seq<int>, chains: seq<Chain>)
    requires Chained(l, table, starts, chains) && InRange(table)
    ensures Walking(l, table, starts, chains, map[])
  {
    assert Look(Pieces, 0);
  }

  lemma WalkedTo(l: seq<Byte>, table: seq<nat>, starts: seq<int>, chains: seq<Chain>, owner: map<nat, (nat, nat)>)
    requires Walking(l, table, starts, chains, owner)
    ensures Chained(l, table, starts, chains)
  {
    assert Look(Pieces, 0);
  }

  /** The byte and the successor of a row, out of its entry. */
  method Look1(entries: seq<nat>, c: seq<nat>, packed: bool, pos: nat, ghost l: seq<Byte>, ghost table: seq<nat>)
    returns (sym: Byte, nxt: nat)
    requires IsEntries(l, table, packed, entries) && IsCumulative(l, c) && pos < |l| && pos == Place(l, table[pos])
    ensures nxt == table[pos] && sym == l[table[pos]]
  {
    if packed {
      sym, nxt := entries[pos] % 256, entries[pos] / 256;
    } else {
      sym := SymOf(c, pos, l, table);
      nxt := entries[pos];
    }
  }

  /**
   Walks every chain until it meets a start, taking the live chains in any order at all. At most
   n steps are taken, so the guard of `BwtUntransformChains` against walking for ever does not fire.
   */
  method WalkChains(entries: seq<nat>, c: seq<nat>, packed: bool, starts: seq<int>, chains0: seq<Chain>,
                    ghost l: seq<Byte>, ghost table: seq<nat>)
    returns (chains: seq<Chain>, steps: nat)
    requires IsEntries(l, table, packed, entries) && IsCumulative(l, c)
    requires forall k :: 0 <= k < |l| ==> k == Place(l, table[k])
    requires |starts| == 256 && Chained(l, table, starts, chains0)
    ensures Chained(l, table, starts, chains) && |chains| == |chains0| && steps <= |l|
    ensures forall k :: 0 <= k < |chains| ==> chains[k].done && chains[k].start == chains0[k].start
  {
    chains, steps := chains0, 0;
    ghost var owner: map<nat, (nat, nat)> := map[];
    WalkingFrom(l, table, starts, chains);
    while exists k :: 0 <= k < |chains| && !chains[k].done
      invariant Walking(l, table, starts, chains, owner) && |chains| == |chains0|
      invariant forall k :: 0 <= k < |chains| ==> chains[k].start == chains0[k].start
      invariant steps == |owner| <= |l|
      decreases |l| - steps
    {
      var k: nat :| k < |chains| && !chains[k].done;
      var ch := chains[k];
      StepKeepsWalking(l, table, starts, chains, owner, k);
      var sym, nxt := Look1(entries, c, packed, ch.idx, l, table);
      var ch' := ch.(bytes := ch.bytes + [sym]);
      ch' := if IsStart(starts, nxt) then ch'.(next := nxt, done := true) else ch'.(idx := nxt);
      assert ch' == Stepped(l, table, starts, ch);
      chains := chains[k := ch'];
      owner := owner[ch.idx := (k, |ch.bytes|)];
      steps := steps + 1;
    }
    WalkedTo(l, table, starts, chains, owner);
  }

  // ---------------------------------------------------------------- planting and stitching

  /** Every start is found from its low byte, and so are the chains. */
  ghost predicate Planted(n: nat, starts: seq<int>, chainOf: seq<int>, chains: seq<Chain>) {
    && |starts| == |chainOf| == 256
    && (forall b :: 0 <= b < 256 ==> (if chainOf[b] < 0 then starts[b] == -1
        else chainOf[b] < |chains| && starts[b] == chains[chainOf[b]].start && starts[b] < n && starts[b] % 256 == b))
    && forall k :: 0 <= k < |chains| ==> chains[k].start < n && chainOf[chains[k].start % 256] == k
  }

  function Fresh(start: nat): Chain {
    Chain(start, start, [], false, 0)
  }

  lemma Plant(n: nat, starts: seq<int>, chainOf: seq<int>, chains: seq<Chain>, s: nat)
    requires Planted(n, starts, chainOf, chains) && s < n && chainOf[s % 256] == -1
    ensures Planted(n, starts[s % 256 := s], chainOf[s % 256 := |chains|], chains + [Fresh(s)])
  {
  }

  lemma Replant(n: nat, starts: seq<int>, chainOf: seq<int>, chains: seq<Chain>, k: nat, s: nat)
    requires Planted(n, starts, chainOf, chains) && s < n && k < |chains| && chainOf[s % 256] == k
    ensures Planted(n, starts[s % 256 := s], chainOf, chains[k := Fresh(s)])
  {
  }

  /** The first `k` spaced chains, out of sight until `Look(Pieces, 0)`. */
  ghost predicate Spaced(n: nat, k: nat, starts: seq<int>, chainOf: seq<int>, chains: seq<Chain>) {
    && |starts| == |chainOf| == 256 && |chains| == k
    && forall z {:trigger Look(Pieces, z)} :: Look(Pieces, z) ==>
      Planted(n, starts, chainOf, chains)
      && (forall b :: k <= b < 256 ==> chainOf[b] == -1)
      && forall j :: 0 <= j < k ==> chains[j] == Fresh(chains[j].start) && chains[j].start % 256 == j && chainOf[j] == j
  }

  lemma SpaceOne(n: nat, k: nat, starts: seq<int>, chainOf: seq<int>, chains: seq<Chain>, s: nat)
    requires Spaced(n, k, starts, chainOf, chains) && k < 256 && s < n && s % 256 == k
    ensures Spaced(n, k + 1, starts[k := s], chainOf[k := k], chains + [Fresh(s)])
  {
    assert Look(Pieces, 0);
    Plant(n, starts, chainOf, chains, s);
  }

  /** One chain for each low byte below 128, and the one the output begins with. */
  method PlantChains(n: nat, pos: nat) returns (starts: seq<int>, chainOf: seq<int>, chains: seq<Chain>, primary: nat)
    requires CHAIN_THRESHOLD <= n && pos < n
    ensures Planted(n, starts, chainOf, chains) && primary < |chains| && chains[primary].start == pos
    ensures forall k :: 0 <= k < |chains| ==> chains[k] == Fresh(chains[k].start)
  {
    starts, chainOf, chains := seq(256, _ => -1), seq(256, _ => -1), [];
    var step := n / CHAINS;
    for k := 0 to CHAINS
      invariant Spaced(n, k, starts, chainOf, chains)
    {
      var s := k * step / 256 * 256 + k;
      if s >= n { s := k; }
      SpaceOne(n, k, starts, chainOf, chains, s);
      chains, starts, chainOf := chains + [Fresh(s)], starts[k := s], chainOf[k := k];
    }
    starts, chainOf, chains, primary := PlantPrimary(n, pos, starts, chainOf, chains);
  }

  method PlantPrimary(n: nat, pos: nat, starts0: seq<int>, chainOf0: seq<int>, chains0: seq<Chain>)
    returns (starts: seq<int>, chainOf: seq<int>, chains: seq<Chain>, primary: nat)
    requires pos < n && Spaced(n, CHAINS, starts0, chainOf0, chains0)
    ensures Planted(n, starts, chainOf, chains) && primary < |chains| && chains[primary].start == pos
    ensures forall k :: 0 <= k < |chains| ==> chains[k] == Fresh(chains[k].start)
  {
    assert Look(Pieces, 0);
    var low := pos % 256;
    starts := starts0[low := pos];
    if low < CHAINS {
      Replant(n, starts0, chainOf0, chains0, low, pos);
      primary, chainOf, chains := low, chainOf0, chains0[low := Fresh(pos)];
    } else {
      Plant(n, starts0, chainOf0, chains0, pos);
      primary, chainOf, chains := CHAINS, chainOf0[low := CHAINS], chains0 + [Fresh(pos)];
    }
  }

  lemma PlantedOk(l: seq<Byte>, table: seq<nat>, starts: seq<int>, chainOf: seq<int>, chains: seq<Chain>)
    requires |l| == |table| && IsPerm(table) && Planted(|l|, starts, chainOf, chains)
    requires forall k :: 0 <= k < |chains| ==> chains[k] == Fresh(chains[k].start)
    ensures Chained(l, table, starts, chains)
  {
    forall k | 0 <= k < |chains| ensures ChainOk(l, table, starts, chains[k]) {
      assert chainOf[chains[k].start % 256] == k;
    }
  }

  /** Inside a piece there is no start, so a walk that ends there is not back at one. */
  lemma Astray(l: seq<Byte>, table: seq<nat>, starts: seq<int>, pos: nat, total: nat, c: Chain)
    requires ChainOk(l, table, starts, c) && c.done && pos < |l| && IsStart(starts, pos)
    requires total < |l| < total + |c.bytes| && Walk(table, pos, total) == c.start
    ensures Walk(table, pos, |l|) != pos
  {
    WalkSplits(l, table, pos, total, |l| - total);
    assert !IsStart(starts, Walk(table, c.start, |l| - total));
  }

  lemma NextPiece(l: seq<Byte>, table: seq<nat>, starts: seq<int>, chains: seq<Chain>, pos: nat, total: nat, k: nat)
    requires Chained(l, table, starts, chains) && k < |chains| && chains[k].done
    requires |l| == |table| && IsPerm(table) && |starts| == 256 && pos < |l|
    requires Walk(table, pos, total) == chains[k].start && IsStart(starts, pos) && total < |l|
    ensures var c := chains[k];
      && Walk(table, pos, total + |c.bytes|) == c.next && IsStart(starts, c.next) && |c.bytes| >= 1
      && WalkBytes(l, table, pos, total + |c.bytes|) == WalkBytes(l, table, pos, total) + c.bytes
      && (|l| < total + |c.bytes| ==> Walk(table, pos, |l|) != pos)
  {
    assert Look(Pieces, 0);
    var c := chains[k];
    if |l| < total + |c.bytes| { Astray(l, table, starts, pos, total, c); }
    WalkSplits(l, table, pos, total, |c.bytes|);
  }

  lemma Link(n: nat, starts: seq<int>, chainOf: seq<int>, chains: seq<Chain>, next: nat)
    requires Planted(n, starts, chainOf, chains) && IsStart(starts, next)
    ensures 0 <= chainOf[next % 256] < |chains| && chains[chainOf[next % 256]].start == next
  {
    assert next % 256 < 256;
  }

  lemma SameChain(l: seq<Byte>, table: seq<nat>, starts: seq<int>, chains: seq<Chain>, a: nat, b: nat)
    requires Chained(l, table, starts, chains) && a < |chains| && b < |chains|
    ensures chains[a].start < |l| == |table| && InRange(table)
    ensures |starts| == 256 && IsStart(starts, chains[a].start)
    ensures a == b <==> chains[a].start == chains[b].start
  {
    assert Look(Pieces, 0);
  }

  method CopyPiece(out: array<Byte>, at: nat, piece: seq<Byte>)
    requires at + |piece| <= out.Length
    modifies out
    ensures out[..at + |piece|] == old(out[..at]) + piece
  {
    forall i | 0 <= i < |piece| { out[at + i] := piece[i]; }
  }

  /**
   Copies the pieces out one behind the other, from the primary chain on, until they fill the
   block. The verdict and the bytes are those of the walk of n single steps.
   */
  method Stitch(out: array<Byte>, chains: seq<Chain>, chainOf: seq<int>, primary: nat,
                ghost starts: seq<int>, ghost l: seq<Byte>, ghost table: seq<nat>)
    returns (ok: bool)
    requires |l| == out.Length && Planted(|l|, starts, chainOf, chains) && |l| == |table| && IsPerm(table)
    requires Chained(l, table, starts, chains)
    requires forall k :: 0 <= k < |chains| ==> chains[k].done
    requires primary < |chains|
    modifies out
    ensures ok <==> Walk(table, chains[primary].start, |l|) == chains[primary].start
    ensures ok ==> out[..] == WalkBytes(l, table, chains[primary].start, |l|)
  {
    var n, total, cur: nat := out.Length, 0, primary;
    ghost var pos := chains[primary].start;
    SameChain(l, table, starts, chains, primary, primary);
    while total < n
      invariant total <= n && cur < |chains|
      invariant Walk(table, pos, total) == chains[cur].start
      invariant out[..total] == WalkBytes(l, table, pos, total)
    {
      var c := chains[cur];
      NextPiece(l, table, starts, chains, pos, total, cur);
      if |c.bytes| == 0 || total + |c.bytes| > n { return false; }
      CopyPiece(out, total, c.bytes);
      total := total + |c.bytes|;
      Link(n, starts, chainOf, chains, c.next);
      var k := chainOf[c.next % 256];
      if k < 0 || chains[k].start != c.next { assert false; }
      cur := k;
    }
    assert out[..] == out[..n];
    SameChain(l, table, starts, chains, cur, primary);
    ok := cur == primary;
  }

  method UntransformChains(data: array<Byte>, pos: nat, c: seq<nat>, packed: bool, entries: seq<nat>, ghost table: seq<nat>)
    returns (ok: bool)
    requires CHAIN_THRESHOLD <= data.Length && pos < data.Length && IsCumulative(data[..], c)
    requires IsPerm(table) && IsEntries(data[..], table, packed, entries)
    requires forall k :: 0 <= k < data.Length ==> k == Place(data[..], table[k])
    modifies data
    ensures ok <==> Walk(table, pos, |table|) == pos
    ensures ok ==> data[..] == WalkBytes(old(data[..]), table, pos, |table|)
  {
    ghost var l := data[..];
    var starts, chainOf, chains, primary := PlantChains(data.Length, pos);
    PlantedOk(l, table, starts, chainOf, chains);
    ghost var planted := chains;
    var steps;
    chains, steps := WalkChains(entries, c, packed, starts, chains, l, table);
    if steps > data.Length { assert false; }
    assert forall k :: 0 <= k < |chains| ==> chains[k].start == planted[k].start;
    ok := Stitch(data, chains, chainOf, primary, starts, l, table);
  }

  /** The single walk of a small block; it must end in the row it began with. */
  method UntransformPlain(data: array<Byte>, start: nat, entries: seq<nat>, ghost table: seq<nat>) returns (ok: bool)
    requires start < data.Length && IsPerm(table) && IsEntries(data[..], table, true, entries)
    modifies data
    ensures ok <==> Walk(table, start, |table|) == start
    ensures ok ==> data[..] == WalkBytes(old(data[..]), table, start, |table|)
  {
    ghost var l := data[..];
    var pos := start;
    for i := 0 to data.Length
      invariant pos == Walk(table, start, i) && pos < data.Length
      invariant data[..i] == WalkBytes(l, table, start, i)
    {
      WalkSnoc(l, table, start, i);
      data[i] := entries[pos] % 256;
      pos := entries[pos] / 256;
      assert data[..i + 1] == data[..i] + [data[i]];
    }
    assert data[..] == data[..data.Length];
    ok := pos == start;
  }

  /**
   The inverse transform in place. It succeeds exactly when the n-step walk through the counting
   sort's table comes back to the row it started from, and then leaves the bytes met on that walk.
   */
  method Untransform(data: array<Byte>, pos: nat) returns (ok: bool, ghost table: seq<nat>)
    modifies data
    ensures data.Length == 0 ==> ok
    ensures 0 < data.Length <= pos ==> !ok && data[..] == old(data[..])
    ensures pos < data.Length ==> IsStable(old(data[..]), table)
    ensures pos < data.Length ==> (ok <==> Walk(table, pos, |table|) == pos)
    ensures pos < data.Length && ok ==> data[..] == WalkBytes(old(data[..]), table, pos, |table|)
  {
    table := [];
    if data.Length == 0 { return true, table; }
    if pos >= data.Length { return false, table; }
    var c := CountBytes(data[..]);
    var packed := data.Length <= 0x1000000;
    var entries;
    entries, table := BuildTable(data[..], c, packed);
    if data.Length >= CHAIN_THRESHOLD {
      ok := UntransformChains(data, pos, c, packed, entries[..], table);
    } else {
      ok := UntransformPlain(data, pos, entries[..], table);
    }
  }

  /** Any sorted order of a block's rotations, undone from the row of the block itself. */
  method UntransformSorted(data: array<Byte>, pos: nat, ghost s: seq<Byte>, ghost sa: seq<nat>) returns (ok: bool)
    requires SortedRotations(s, sa) && data[..] == LastColumn(s, sa)
    requires s != [] ==> pos < |s| && sa[pos] == 0
    modifies data
    ensures ok && data[..] == s
  {
    ghost var table;
    ok, table := Untransform(data, pos);
    if s != [] {
      WalkInverts(s, sa, table, pos);
    }
  }
}
