/**
 A whole block: split into buckets, each coded on its own, and a table of sizes read from the end
 (NzBwtEncodeInput, NzBwtDecodeInput).
 */
module BwtBlock {
  import opened Words
  import opened BucketTables
  import opened BucketFrame
  import opened RlePrepass

  const BUCKETS: nat := 256

  // ---------------------------------------------------------------- sums and slices

  function Sum(s: seq<nat>): nat {
    if s == [] then 0 else Sum(s[..|s| - 1]) + s[|s| - 1]
  }

  lemma {:induction false} SumOfConcat(s: seq<nat>, t: seq<nat>)
    ensures Sum(s + t) == Sum(s) + Sum(t)
  {
    if t == [] {
      assert s + t == s;
    } else {
      SumOfConcat(s, t[..|t| - 1]);
      assert (s + t)[..|s + t| - 1] == s + t[..|t| - 1];
    }
  }

  lemma SumSplit(s: seq<nat>, k: nat)
    requires k <= |s|
    ensures Sum(s) == Sum(s[..k]) + Sum(s[k..])
  {
    assert s == s[..k] + s[k..];
    SumOfConcat(s[..k], s[k..]);
  }

  lemma SumStep(s: seq<nat>, k: nat)
    requires k < |s|
    ensures Sum(s[..k + 1]) == Sum(s[..k]) + s[k] <= Sum(s)
  {
    assert s[..k + 1][..k] == s[..k];
    SumSplit(s, k + 1);
  }

  /** Moving between two neighbours leaves the sums before and behind them. */
  lemma SumOfPair(s: seq<nat>, k: nat, a: nat, b: nat)
    requires k + 1 < |s| && a + b == s[k] + s[k + 1]
    ensures var t := s[k := a][k + 1 := b]; Sum(t) == Sum(s) && t[..k] == s[..k] && t[k + 2..] == s[k + 2..]
  {
    var t := s[k := a][k + 1 := b];
    SumSplit(s, k + 2);
    SumSplit(t, k + 2);
    assert t[..k] == s[..k] && t[k + 2..] == s[k + 2..];
    assert s[..k + 2][..k + 1][..k] == s[..k] && t[..k + 2][..k + 1][..k] == t[..k];
  }

  lemma {:induction false} SumOfUpdate(s: seq<nat>, k: nat, v: nat)
    requires k < |s|
    ensures Sum(s[k := v]) + s[k] == Sum(s) + v
  {
    var t := s[k := v];
    SumSplit(s, k + 1);
    SumSplit(t, k + 1);
    assert t[..k + 1][..k] == s[..k] == s[..k + 1][..k] && t[k + 1..] == s[k + 1..];
  }

  function Zeroes(n: nat): (z: seq<nat>)
    ensures |z| == n
  {
    seq(n, _ => 0)
  }

  lemma {:induction false} SumOfZeroes(n: nat)
    ensures Sum(Zeroes(n)) == 0
  {
    if n != 0 {
      SumOfZeroes(n - 1);
      assert Zeroes(n)[..n - 1] == Zeroes(n - 1);
    }
  }

  // ---------------------------------------------------------------- splitting

  method Histogram(bwt: seq<Byte>) returns (count: seq<nat>)
    ensures |count| == BUCKETS && Sum(count) == |bwt|
  {
    count := Zeroes(BUCKETS);
    SumOfZeroes(BUCKETS);
    for i := 0 to |bwt|
      invariant |count| == BUCKETS && Sum(count) == i
    {
      SumOfUpdate(count, bwt[i], count[bwt[i]] + 1);
      count := count[bwt[i] := count[bwt[i]] + 1];
    }
  }

  /** The size of the last bucket before `k` that is not empty; 0 if there is none. */
  function LastOf(count: seq<nat>, k: nat): nat
    requires k <= |count|
    decreases k, count
  {
    if k == 0 then 0 else if count[k - 1] != 0 then count[k - 1] else LastOf(count, k - 1)
  }

  /** Of the first `k` buckets, two neighbours that are not empty have `target` bytes together, and `half` the bytes from the second on. */
  ghost predicate Balanced(count: seq<nat>, k: nat, n: nat, target: nat, half: nat)
    requires k <= |count|
  {
    forall j | 0 <= j < k && count[j] != 0 && LastOf(count, j) != 0 :: LastOf(count, j) + count[j] >= target && Sum(count[..j]) + half <= n
  }

  function Target(n: nat, threads: nat): nat
    requires threads > 0
  {
    if n / threads < 0x40000 then 0x40000 else n / threads
  }

  /** How a block is split: one bucket for one thread, and balanced ones for several; out of sight until `Look(Steps, 0)`. */
  ghost predicate IsSplit(n: nat, threads: nat, count: seq<nat>) {
    && |count| == BUCKETS && Sum(count) == n
    && forall z {:trigger Look(Steps, z)} :: Look(Steps, z) ==>
      if threads <= 1 then count == Zeroes(BUCKETS)[0 := n] else Balanced(count, BUCKETS, n, Target(n, threads), Target(n, threads) / 2)
  }

  /**
   How many bytes each bucket takes. One thread makes a single bucket; otherwise the ranges of the
   byte values, moved to the ends of runs and merged until they are large enough. However they
   fall, they make up the block.
   */
  method SplitBuckets(bwt: seq<Byte>, threads: nat) returns (count: seq<nat>)
    ensures |count| == BUCKETS && Sum(count) == |bwt| && IsSplit(|bwt|, threads, count)
  {
    if threads <= 1 {
      SumOfZeroes(BUCKETS);
      SumOfUpdate(Zeroes(BUCKETS), 0, |bwt|);
      return Zeroes(BUCKETS)[0 := |bwt|];
    }
    count := Histogram(bwt);
    var n, per := |bwt|, |bwt| / threads;
    var target := if per < 0x40000 then 0x40000 else per;
    var half := target / 2;
    var run, pos := count[0], count[0];
    assert count[..1] == [count[0]] && Sum([count[0]]) == Sum([]) + count[0];
    for c := 1 to BUCKETS
      invariant Edged(bwt, count, c, run, pos) && Settled(count, c, run, pos, n, target, half)
    {
      count, run, pos := PlaceEdge(bwt, count, c, run, pos, target, half);
    }
    assert count[..BUCKETS] == count;
  }

  /** The buckets before `c` are placed: the last of them has `run` bytes, and all end at `pos`. */
  ghost predicate Edged(bwt: seq<Byte>, count: seq<nat>, c: nat, run: nat, pos: nat) {
    |count| == BUCKETS && Sum(count) == |bwt| && 1 <= c <= BUCKETS && run == count[c - 1] && pos == Sum(count[..c])
  }

  /** They are balanced; and where the last is empty, one in front is large enough and enough is left. */
  ghost predicate Settled(count: seq<nat>, c: nat, run: nat, pos: nat, n: nat, target: nat, half: nat)
    requires c <= |count|
  {
    && Balanced(count, c, n, target, half) && (run == 0 && LastOf(count, c) != 0 ==> LastOf(count, c) >= target && pos + half <= n)
  }

  /** One edge: moved to the end of the run it falls in, and dropped when a bucket would be too small. */
  method PlaceEdge(bwt: seq<Byte>, count0: seq<nat>, c: nat, run0: nat, pos0: nat, target: nat, half: nat)
    returns (count: seq<nat>, run: nat, pos: nat)
    requires Edged(bwt, count0, c, run0, pos0) && c < BUCKETS && Settled(count0, c, run0, pos0, |bwt|, target, half) && target > 0
    ensures Edged(bwt, count, c + 1, run, pos) && Settled(count, c + 1, run, pos, |bwt|, target, half)
  {
    SumStep(count0, c);
    SumStep(count0, c - 1);
    var moved := MoveEdge(bwt, run0, pos0, count0[c]);
    var x: nat := count0[c] - moved;
    count := MovePair(count0, c, run0 + moved, x);
    var grown := run0 + moved + x;
    pos, run := pos0 + moved + x, x;
    if grown < target || |bwt| - pos < half {
      count := MovePair(count, c, 0, grown);
      run := grown;
      MergedSettled(count0, count, c, run0, pos0, pos, |bwt|, target, half, moved);
    } else {
      KeptSettled(count0, count, c, run0, pos0, pos, |bwt|, target, half, moved);
    }
  }

  lemma {:induction false} LastOfSame(s: seq<nat>, t: seq<nat>, k: nat)
    requires k <= |s| && k <= |t| && s[..k] == t[..k]
    ensures LastOf(s, k) == LastOf(t, k)
    decreases k
  {
    if k > 0 {
      assert s[k - 1] == s[..k][k - 1] == t[..k][k - 1] == t[k - 1];
      assert s[..k - 1] == s[..k][..k - 1] == t[..k][..k - 1] == t[..k - 1];
      LastOfSame(s, t, k - 1);
    }
  }

  lemma BalancedFront(s: seq<nat>, t: seq<nat>, k: nat, n: nat, target: nat, half: nat)
    requires k <= |s| && k <= |t| && s[..k] == t[..k] && Balanced(s, k, n, target, half)
    ensures Balanced(t, k, n, target, half)
  {
    forall j | 0 <= j < k && t[j] != 0 && LastOf(t, j) != 0
      ensures LastOf(t, j) + t[j] >= target && Sum(t[..j]) + half <= n
    {
      assert s[j] == s[..k][j] == t[..k][j] == t[j];
      assert s[..j] == s[..k][..j] == t[..k][..j] == t[..j];
      LastOfSame(s, t, j);
    }
  }

  lemma MergedSettled(s: seq<nat>, t: seq<nat>, c: nat, run: nat, pos0: nat, pos: nat, n: nat, target: nat, half: nat, moved: nat)
    requires |s| == |t| == BUCKETS && 1 <= c < BUCKETS && run == s[c - 1] && pos0 == Sum(s[..c]) && moved <= s[c] && (run == 0 ==> moved == 0)
    requires Settled(s, c, run, pos0, n, target, half) && s[..c - 1] == t[..c - 1] && t[c - 1] == 0 && t[c] == run + s[c] && pos == pos0 + s[c]
    ensures Settled(t, c + 1, t[c], pos, n, target, half)
  {
    BalancedFront(s, t, c - 1, n, target, half);
    LastOfSame(s, t, c - 1);
    SumStep(s, c - 1);
    SumStep(t, c - 1);
    LastOfTwo(s, c);
    LastOfTwo(t, c);
  }

  lemma LastOfTwo(s: seq<nat>, c: nat)
    requires 1 <= c <= |s|
    ensures LastOf(s, c) == if s[c - 1] != 0 then s[c - 1] else LastOf(s, c - 1)
  {
  }

  lemma KeptSettled(s: seq<nat>, t: seq<nat>, c: nat, run: nat, pos0: nat, pos: nat, n: nat, target: nat, half: nat, moved: nat)
    requires |s| == |t| == BUCKETS && 1 <= c < BUCKETS && run == s[c - 1] && pos0 == Sum(s[..c]) && moved <= s[c] && (run == 0 ==> moved == 0)
    requires Settled(s, c, run, pos0, n, target, half) && s[..c - 1] == t[..c - 1] && t[c - 1] == run + moved && t[c] == s[c] - moved
    requires pos == pos0 + s[c] && run + s[c] >= target > 0 && pos + half <= n
    ensures Settled(t, c + 1, t[c], pos, n, target, half)
  {
    BalancedFront(s, t, c - 1, n, target, half);
    LastOfSame(s, t, c - 1);
    SumStep(s, c - 1);
    SumStep(t, c - 1);
    LastOfTwo(s, c);
    LastOfTwo(t, c);
  }

  method MovePair(count0: seq<nat>, c: nat, a: nat, b: nat) returns (count: seq<nat>)
    requires |count0| == BUCKETS && 1 <= c < BUCKETS && a + b == count0[c - 1] + count0[c]
    ensures |count| == BUCKETS && Sum(count) == Sum(count0) && count[c - 1] == a && count[c] == b
    ensures Sum(count[..c + 1]) == Sum(count0[..c + 1]) && count[..c - 1] == count0[..c - 1]
  {
    SumOfPair(count0, c - 1, a, b);
    count := count0[c - 1 := a][c := b];
    SumStep(count0, c - 1);
    SumStep(count0, c);
    SumStep(count, c - 1);
    SumStep(count, c);
  }

  /** How far an edge that falls inside a run of equal bytes has to move. */
  method MoveEdge(bwt: seq<Byte>, run: nat, pos0: nat, x0: nat) returns (moved: nat)
    requires run <= pos0 && pos0 + x0 <= |bwt|
    ensures moved <= x0 && (moved > 0 ==> pos0 > 0 && forall i | pos0 <= i < pos0 + moved :: bwt[i] == bwt[pos0 - 1])
    ensures if run == 0 || x0 == 0 then moved == 0 else moved == x0 || (pos0 > 0 && bwt[pos0 + moved] != bwt[pos0 - 1])
  {
    moved := 0;
    if run != 0 && x0 != 0 && bwt[pos0] == bwt[pos0 - 1] {
      var edge := bwt[pos0];
      while true
        invariant moved < x0 && forall i | pos0 <= i <= pos0 + moved :: bwt[i] == edge
        decreases x0 - moved
      {
        moved := moved + 1;
        if moved == x0 || bwt[pos0 + moved] != edge { break; }
      }
    }
  }

  // ---------------------------------------------------------------- what a payload is made of

  /** Sizes of the buckets, of their streams (0: stored as they are), and the streams. */
  datatype Blocks = Blocks(count: seq<nat>, coded: seq<nat>, pieces: seq<seq<Byte>>)

  /** A bucket's bytes, as they are or as a stream. */
  ghost predicate PieceOk(d: seq<Byte>, coded: nat, piece: seq<Byte>) {
    && coded < TWO32 && (d == [] ==> coded == 0)
    && if coded == 0 then piece == d else |piece| == coded && IsFramed(d, piece)
  }

  /** The `i`th bucket of a block. */
  ghost function Slice(bwt: seq<Byte>, count: seq<nat>, i: nat): seq<Byte>
    requires i < |count| && Sum(count) <= |bwt|
  {
    SumStep(count, i);
    bwt[Sum(count[..i])..Sum(count[..i + 1])]
  }

  function Joined(pieces: seq<seq<Byte>>): seq<Byte> {
    if pieces == [] then [] else Joined(pieces[..|pieces| - 1]) + pieces[|pieces| - 1]
  }

  lemma JoinedStep(pieces: seq<seq<Byte>>, k: nat)
    requires k < |pieces|
    ensures Joined(pieces[..k + 1]) == Joined(pieces[..k]) + pieces[k]
  {
    assert pieces[..k + 1][..k] == pieces[..k];
  }

  /** The empty buckets right before `m`. */
  function EmptyBefore(count: seq<nat>, m: nat): (r: nat)
    requires m <= |count|
    ensures r <= m && forall i :: m - r <= i < m ==> count[i] == 0
    ensures r < m ==> count[m - r - 1] != 0
  {
    if m > 0 && count[m - 1] == 0 then 1 + EmptyBefore(count, m - 1) else 0
  }

  /** The table of the first `m` buckets, where no run of empty ones is cut. */
  function Table(count: seq<nat>, coded: seq<nat>, m: nat): seq<Byte>
    requires |count| == |coded| == BUCKETS && m <= BUCKETS
    decreases m, count
  {
    if m == 0 then []
    else if count[m - 1] == 0 then
      var r := EmptyBefore(count, m);
      Table(count, coded, m - r) + Varint(r - 1) + Varint(0)
    else Table(count, coded, m - 1) + Varint(coded[m - 1]) + Varint(count[m - 1])
  }

  ghost predicate BlocksOk(bwt: seq<Byte>, b: Blocks) {
    && |b.count| == |b.coded| == |b.pieces| == BUCKETS && Sum(b.count) == |bwt| < BLOCK_LIMIT
    && forall z {:trigger Look(Codes, z)} :: Look(Codes, z) ==>
      forall i :: 0 <= i < BUCKETS ==> PieceOk(Slice(bwt, b.count, i), b.coded[i], b.pieces[i])
  }

  /** `payload` codes the block; out of sight until `Look(Codes, 0)`. */
  ghost predicate IsPayload(bwt: seq<Byte>, payload: seq<Byte>) {
    |bwt| < BLOCK_LIMIT && forall z {:trigger Look(Codes, z)} :: Look(Codes, z) ==>
      exists b: Blocks :: BlocksOk(bwt, b) && payload == Joined(b.pieces) + Table(b.count, b.coded, BUCKETS)
  }

  // ---------------------------------------------------------------- writing

  /**
   The room beyond five bytes for every byte is shared out evenly among the buckets that are not empty,
   and nothing of it is lost. Out of sight until `Look(Steps, 0)`.
   */
  ghost predicate AreRooms(count: seq<nat>, room: nat, alloc: seq<U32>) {
    |alloc| == |count| && forall z {:trigger Look(Steps, z)} :: Look(Steps, z) ==> exists shares :: SharedOut(count, room, shares, |count|, 0) && AllocatedBy(count, shares, alloc)
  }

  /** The first `c` buckets have their shares, and `left` is what is left. */
  ghost predicate SharedOut(count: seq<nat>, room: nat, shares: seq<nat>, c: nat, left: nat) {
    && c <= |count| && |shares| == c && Sum(shares) + (if NonEmpty(count, |count|) == 0 then room else left) == room
    && forall i | 0 <= i < c :: if count[i] == 0 then shares[i] == 0
      else NonEmpty(count, |count|) > 0 && room / NonEmpty(count, |count|) <= shares[i] <= room / NonEmpty(count, |count|) + 1
  }

  /** The share of a bucket and its own bytes five times, in eights. */
  function Given(share: nat, size: nat): U32 {
    Wrap32(share + size * 5) / 8 * 8
  }

  ghost predicate AllocatedBy(count: seq<nat>, shares: seq<nat>, alloc: seq<U32>) {
    |alloc| == |shares| <= |count| && forall i | 0 <= i < |shares| ::
      alloc[i] == if count[i] == 0 then 0 else Given(shares[i], count[i])
  }

  method CountNonEmpty(count: seq<nat>) returns (left: nat)
    ensures left == NonEmpty(count, |count|)
  {
    left := 0;
    for c := 0 to |count|
      invariant left == NonEmpty(count, c)
    {
      if count[c] != 0 { left := left + 1; }
    }
  }

  /** The room of each bucket. */
  method Rooms(count: seq<nat>, n: nat, cap: U32) returns (alloc: seq<U32>)
    requires |count| == BUCKETS
    ensures |alloc| == BUCKETS && AreRooms(count, Wrap32(cap - n * 5), alloc)
  {
    var left: nat := CountNonEmpty(count);
    alloc := [];
    var room: U32 := Wrap32(cap - n * 5);
    ghost var all, k := room, left;
    ghost var shares: seq<nat> := [];
    for c := 0 to BUCKETS
      invariant |alloc| == c && Sharing(count, all, k, c, left, room, shares, alloc)
    {
      left, room, alloc, shares := Allot(count, c, left, room, alloc, all, k, shares);
    }
    ShareAll(count, all, k, left, room, shares, alloc);
  }

  /** The room of bucket `c`, and what is left for the others. */
  method Allot(count: seq<nat>, c: nat, left0: nat, room0: U32, alloc0: seq<U32>, ghost all: nat, ghost k: nat, ghost shares0: seq<nat>)
    returns (left: nat, room: U32, alloc: seq<U32>, ghost shares: seq<nat>)
    requires c < |count| && |alloc0| == c && Sharing(count, all, k, c, left0, room0, shares0, alloc0)
    ensures |alloc| == c + 1 && Sharing(count, all, k, c + 1, left, room, shares, alloc)
  {
    left, room := left0, room0;
    if count[c] == 0 {
      ShareNothing(count, all, k, c, left, room, shares0, alloc0);
      alloc, shares := alloc0 + [0], shares0 + [0];
    } else {
      SomeLeft(count, all, k, c, left, room, shares0, alloc0);
      var share: nat := room / left;
      var given := Given(share, count[c]);
      ShareOne(count, all, k, c, left, room, shares0, alloc0, share, given);
      left, room := left - 1, room - share;
      alloc, shares := alloc0 + [given], shares0 + [share];
    }
  }

  /** Out of sight until `Look(Steps, 0)`. */
  ghost predicate Sharing(count: seq<nat>, all: nat, k: nat, c: nat, left: nat, room: nat, shares: seq<nat>, alloc: seq<U32>) {
    && c <= |count| == BUCKETS
    && forall z {:trigger Look(Steps, z)} :: Look(Steps, z) ==>
      && left + NonEmpty(count, c) == NonEmpty(count, |count|) == k
      && SharedOut(count, all, shares, c, room) && AllocatedBy(count, shares, alloc) && Even(all, k, room, left)
  }

  lemma ShareAll(count: seq<nat>, all: nat, k: nat, left: nat, room: nat, shares: seq<nat>, alloc: seq<U32>)
    requires Sharing(count, all, k, |count|, left, room, shares, alloc)
    ensures AreRooms(count, all, alloc)
  {
    assert Look(Steps, 0);
    EvenEnds(all, k, room);
    assert SharedOut(count, all, shares, |count|, 0);
  }

  lemma SumMore(s: seq<nat>, v: nat)
    ensures Sum(s + [v]) == Sum(s) + v
  {
    assert (s + [v])[..|s|] == s;
  }

  lemma ShareNothing(count: seq<nat>, all: nat, k: nat, c: nat, left: nat, room: nat, shares: seq<nat>, alloc: seq<U32>)
    requires Sharing(count, all, k, c, left, room, shares, alloc) && c < |count| && count[c] == 0
    ensures Sharing(count, all, k, c + 1, left, room, shares + [0], alloc + [0])
  {
    assert Look(Steps, 0);
    SumMore(shares, 0);
  }

  lemma ShareOne(count: seq<nat>, all: nat, k: nat, c: nat, left: nat, room: U32, shares: seq<nat>, alloc: seq<U32>, share: nat, given: U32)
    requires Sharing(count, all, k, c, left, room, shares, alloc) && c < |count| && count[c] != 0
    requires left > 0 && share == room / left && given == Given(share, count[c])
    ensures share <= room && Sharing(count, all, k, c + 1, left - 1, room - share, shares + [share], alloc + [given])
  {
    SharingHas(count, all, k, c, left, room, shares, alloc);
    EvenOn(all, k, room, left, share);
    SharedMore(count, all, k, c, room, shares, share);
    AllocatedMore(count, shares, alloc, share, given);
    SharingIs(count, all, k, c + 1, left - 1, room - share, shares + [share], alloc + [given]);
  }

  lemma SharingIs(count: seq<nat>, all: nat, k: nat, c: nat, left: nat, room: nat, shares: seq<nat>, alloc: seq<U32>)
    requires c <= |count| == BUCKETS && left + NonEmpty(count, c) == NonEmpty(count, |count|) == k
    requires SharedOut(count, all, shares, c, room) && AllocatedBy(count, shares, alloc) && Even(all, k, room, left)
    ensures Sharing(count, all, k, c, left, room, shares, alloc)
  {
  }

  lemma SharingHas(count: seq<nat>, all: nat, k: nat, c: nat, left: nat, room: nat, shares: seq<nat>, alloc: seq<U32>)
    requires Sharing(count, all, k, c, left, room, shares, alloc)
    ensures SharedOut(count, all, shares, c, room) && AllocatedBy(count, shares, alloc) && Even(all, k, room, left)
    ensures left + NonEmpty(count, c) == NonEmpty(count, |count|) == k
  {
    assert Look(Steps, 0);
  }

  lemma SomeLeft(count: seq<nat>, all: nat, k: nat, c: nat, left: nat, room: nat, shares: seq<nat>, alloc: seq<U32>)
    requires Sharing(count, all, k, c, left, room, shares, alloc) && c < |count| && count[c] != 0
    ensures left > 0
  {
    assert Look(Steps, 0);
    NonEmptyGrows(count, c + 1, BUCKETS);
  }

  lemma SharedMore(count: seq<nat>, all: nat, k: nat, c: nat, room: nat, shares: seq<nat>, share: nat)
    requires SharedOut(count, all, shares, c, room) && c < |count| && count[c] != 0 && k == NonEmpty(count, |count|) > 0
    requires share <= room && all / k <= share <= all / k + 1
    ensures SharedOut(count, all, shares + [share], c + 1, room - share)
  {
    SumMore(shares, share);
  }

  lemma AllocatedMore(count: seq<nat>, shares: seq<nat>, alloc: seq<U32>, share: nat, given: U32)
    requires AllocatedBy(count, shares, alloc) && |shares| < |count| && count[|shares|] != 0
    requires given == Given(share, count[|shares|])
    ensures AllocatedBy(count, shares + [share], alloc + [given])
  {
  }

  /** `room` for `left` of `k` is as much for each as `all` for all of them. */
  ghost predicate Even(all: nat, k: nat, room: nat, left: nat) {
    left <= k && (k > 0 ==> all / k * left <= room <= (all / k + 1) * left) && room <= all
  }

  lemma EvenOn(all: nat, k: nat, room: nat, left: nat, share: nat)
    requires Even(all, k, room, left) && left > 0 && share == room / left
    ensures all / k <= share <= all / k + 1 && share <= room && Even(all, k, room - share, left - 1)
  {
    EvenRest(all / k, room, left, share);
  }

  lemma EvenRest(q: nat, room: nat, left: nat, share: nat)
    requires left > 0 && q * left <= room <= (q + 1) * left && share == room / left
    ensures q <= share <= q + 1 && share <= room && q * (left - 1) <= room - share <= (q + 1) * (left - 1)
  {
    ShareBetween(q, room, left, share);
    OneLess(q, left);
    OneLess(q + 1, left);
  }

  lemma OneLess(q: nat, left: nat)
    requires left > 0
    ensures q * left == q * (left - 1) + q
  {
  }

  lemma ShareBetween(q: nat, room: nat, left: nat, share: nat)
    requires left > 0 && q * left <= room <= (q + 1) * left && share == room / left
    ensures q <= share <= q + 1 && share <= room && (share == q ==> room < (q + 1) * left) && (share == q + 1 ==> room == (q + 1) * left)
  {
    Quotient(room, left, share);
    if share < q { Grows(share + 1, q, left); }
    if share > q { Grows(q + 1, share, left); }
    AtMost(share, q + 1, left);
    Grows(1, left, share);
  }

  lemma AtMost(a: nat, b: nat, c: nat)
    requires a * c <= b * c && c > 0
    ensures a <= b
  {
    assert (b + 1) * c == b * c + c;
    if a > b { Grows(b + 1, a, c); }
  }

  lemma Quotient(room: nat, left: nat, share: nat)
    requires left > 0 && share == room / left
    ensures share * left <= room < (share + 1) * left
  {
    assert room == room / left * left + room % left;
  }

  lemma Grows(a: nat, b: nat, c: nat)
    requires a <= b
    ensures a * c <= b * c
  {
    assert (b - a) * c >= 0 && b * c == a * c + (b - a) * c;
  }

  lemma EvenEnds(all: nat, k: nat, room: nat)
    requires Even(all, k, room, 0)
    ensures k > 0 ==> room == 0
  {
  }

  function NonEmpty(count: seq<nat>, k: nat): nat
    requires k <= |count|
    decreases k, count
  {
    if k == 0 then 0 else NonEmpty(count, k - 1) + if count[k - 1] != 0 then 1 else 0
  }

  lemma {:induction false} NonEmptyGrows(count: seq<nat>, k: nat, m: nat)
    requires k <= m <= |count|
    ensures NonEmpty(count, k) <= NonEmpty(count, m)
    decreases m
  {
    if k < m { NonEmptyGrows(count, k, m - 1); }
  }

  /** A bucket is stored as it is, or as the stream that its coders make of it, as `Chosen` says. */
  ghost predicate KeptAs(d: seq<Byte>, alloc: U32, size: nat, piece: seq<Byte>, f: Frame) {
    if |d| <= 8 then piece == d && size == 0
    else
      Chosen(d, alloc, f) && if f.collapsed || f.ranked then piece != [] && size == Wrap32(|piece|) && (RawFits(f) ==> FrameOk(d, f) && piece == Framed(d, f))
        else piece == d && size == 0
  }

  /** Every bucket on its own, in the order of the block. */
  method PackOne(data: seq<Byte>, alloc: U32) returns (piece: seq<Byte>, size: U32, ghost f: Frame)
    requires |data| < ENCODE_LIMIT
    ensures |piece| < TWO32 ==> PieceOk(data, size, piece)
    ensures KeptAs(data, alloc, size, piece, f)
  {
    piece, size := data, 0;
    f := NO_FRAME;
    if data != [] {
      var stream;
      stream, f := PackBucket(data, alloc);
      if stream != [] {
        piece, size := stream, Wrap32(|stream|);
        StreamIsKept(data, alloc, piece, size, f);
        StreamIsPiece(data, piece, size);
      } else {
        NothingIsKept(data, alloc, f);
      }
    }
  }

  lemma StreamIsKept(d: seq<Byte>, alloc: U32, stream: seq<Byte>, size: U32, f: Frame)
    requires stream != [] && |d| > 8 && Chosen(d, alloc, f) && (f.collapsed || f.ranked) && size == Wrap32(|stream|)
    requires RawFits(f) ==> FrameOk(d, f) && stream == Framed(d, f)
    ensures KeptAs(d, alloc, size, stream, f)
  {
  }

  lemma StreamIsPiece(d: seq<Byte>, stream: seq<Byte>, size: U32)
    requires stream != [] && d != [] && size == Wrap32(|stream|) && (|stream| < TWO32 ==> IsFramed(d, stream))
    ensures |stream| < TWO32 ==> PieceOk(d, size, stream)
  {
  }

  lemma NothingIsKept(d: seq<Byte>, alloc: U32, f: Frame)
    requires |d| <= 8 || (Chosen(d, alloc, f) && !f.collapsed && !f.ranked)
    ensures KeptAs(d, alloc, 0, d, f) && PieceOk(d, 0, d)
  {
  }

  /** The first `c` buckets have been packed; a stream is good unless its length does not fit 32 bits. */
  ghost predicate Packed(bwt: seq<Byte>, count: seq<nat>, c: nat, at: nat, streams: seq<Byte>, coded: seq<nat>, pieces: seq<seq<Byte>>) {
    && c <= |count| && |coded| == |pieces| == c && Sum(count) <= |bwt| && at == Sum(count[..c]) && streams == Joined(pieces)
    && forall i :: 0 <= i < c ==> coded[i] < TWO32 && (|pieces[i]| < TWO32 ==> PieceOk(Slice(bwt, count, i), coded[i], pieces[i]))
  }

  lemma PackedMore(bwt: seq<Byte>, count: seq<nat>, c: nat, at: nat, streams: seq<Byte>, coded: seq<nat>, pieces: seq<seq<Byte>>,
                   piece: seq<Byte>, size: nat)
    requires c < |count| && Packed(bwt, count, c, at, streams, coded, pieces) && at + count[c] <= |bwt|
    requires size < TWO32 && (|piece| < TWO32 ==> PieceOk(bwt[at..at + count[c]], size, piece))
    ensures Packed(bwt, count, c + 1, at + count[c], streams + piece, coded + [size], pieces + [piece])
  {
    SumStep(count, c);
    assert bwt[at..at + count[c]] == Slice(bwt, count, c);
    assert (pieces + [piece])[..c] == pieces;
  }

  /** The first `c` buckets are stored as their coders and rooms say; out of sight until `Look(Spot, 0)`. */
  ghost predicate AllKept(bwt: seq<Byte>, count: seq<nat>, alloc: seq<U32>, coded: seq<nat>, pieces: seq<seq<Byte>>, frames: seq<Frame>, c: nat) {
    && c <= |count| == |alloc| && |coded| == |pieces| == |frames| == c && Sum(count) <= |bwt|
    && forall z {:trigger Look(Spot, z)} :: Look(Spot, z) ==>
      forall i | 0 <= i < c :: KeptAs(Slice(bwt, count, i), alloc[i], coded[i], pieces[i], frames[i])
  }

  lemma KeptMore(bwt: seq<Byte>, count: seq<nat>, alloc: seq<U32>, coded: seq<nat>, pieces: seq<seq<Byte>>, frames: seq<Frame>, c: nat,
                 at: nat, size: nat, piece: seq<Byte>, f: Frame)
    requires AllKept(bwt, count, alloc, coded, pieces, frames, c) && c < |count| && at == Sum(count[..c]) && at + count[c] <= |bwt|
    requires KeptAs(bwt[at..at + count[c]], alloc[c], size, piece, f)
    ensures AllKept(bwt, count, alloc, coded + [size], pieces + [piece], frames + [f], c + 1)
  {
    assert Look(Spot, 0);
    SumStep(count, c);
    assert bwt[at..at + count[c]] == Slice(bwt, count, c);
  }

  method PackBuckets(bwt: seq<Byte>, count: seq<nat>, alloc: seq<U32>)
    returns (streams: seq<Byte>, coded: seq<nat>, ghost pieces: seq<seq<Byte>>, ghost frames: seq<Frame>)
    requires |count| == |alloc| == BUCKETS && Sum(count) == |bwt| < ENCODE_LIMIT
    ensures |coded| == BUCKETS && (forall i :: 0 <= i < BUCKETS ==> count[i] < TWO32 && coded[i] < TWO32) && streams == Joined(pieces)
    ensures |streams| < TWO32 ==> BlocksOk(bwt, Blocks(count, coded, pieces))
    ensures AllKept(bwt, count, alloc, coded, pieces, frames, BUCKETS)
  {
    streams, coded, pieces, frames := [], [], [], [];
    var at: nat := 0;
    for c := 0 to BUCKETS
      invariant Packed(bwt, count, c, at, streams, coded, pieces) && AllKept(bwt, count, alloc, coded, pieces, frames, c)
    {
      SumStep(count, c);
      ghost var f;
      var piece, size;
      piece, size, f := PackOne(bwt[at..at + count[c]], alloc[c]);
      KeptMore(bwt, count, alloc, coded, pieces, frames, c, at, size, piece, f);
      frames := frames + [f];
      PackedMore(bwt, count, c, at, streams, coded, pieces, piece, size);
      streams, coded, at := streams + piece, coded + [size], at + count[c];
      pieces := pieces + [piece];
    }
    forall i | 0 <= i < BUCKETS ensures count[i] < TWO32 && |pieces[i]| <= |streams| {
      SumStep(count, i);
      PieceInJoined(pieces, i);
    }
  }

  lemma {:induction false} PieceInJoined(pieces: seq<seq<Byte>>, i: nat)
    requires i < |pieces|
    ensures |pieces[i]| <= |Joined(pieces)|
  {
    if i < |pieces| - 1 { PieceInJoined(pieces[..|pieces| - 1], i); }
  }

  /** A run of empty buckets, and one that is not: what they add to the table. */
  lemma TableOfRun(count: seq<nat>, coded: seq<nat>, c: nat, extra: nat)
    requires |count| == |coded| == BUCKETS && c + 1 + extra <= BUCKETS
    requires EmptyBefore(count, c + 1 + extra) == extra + 1
    ensures Table(count, coded, c + 1 + extra) == Table(count, coded, c) + Varint(extra) + Varint(0)
  {
    var m := c + 1 + extra;
    assert count[m - 1] == 0;
  }

  lemma TableOfOne(count: seq<nat>, coded: seq<nat>, c: nat)
    requires |count| == |coded| == BUCKETS && c < BUCKETS && count[c] != 0
    ensures Table(count, coded, c + 1) == Table(count, coded, c) + Varint(coded[c]) + Varint(count[c])
  {
  }

  method WriteTable(count: seq<nat>, coded: seq<nat>) returns (table: seq<Byte>)
    requires |count| == |coded| == BUCKETS
    requires forall i :: 0 <= i < BUCKETS ==> count[i] < TWO32 && coded[i] < TWO32
    ensures table == Table(count, coded, BUCKETS)
  {
    table := [];
    var c: nat := 0;
    while c < BUCKETS
      invariant c <= BUCKETS && table == Table(count, coded, c)
      invariant 0 < c < BUCKETS && count[c] == 0 ==> count[c - 1] != 0
      decreases BUCKETS - c
    {
      if count[c] == 0 {
        var extra := CountEmpty(count, c);
        TableOfRun(count, coded, c, extra);
        table := PutVarint(table, extra);
        table := PutVarint(table, 0);
        c := c + 1 + extra;
      } else {
        TableOfOne(count, coded, c);
        table := PutVarint(table, coded[c]);
        table := PutVarint(table, count[c]);
        c := c + 1;
      }
    }
  }

  /** The empty buckets behind the empty one at `c`, which is the first of its run. */
  method CountEmpty(count: seq<nat>, c: nat) returns (extra: nat)
    requires |count| == BUCKETS && c < BUCKETS && count[c] == 0 && (c > 0 ==> count[c - 1] != 0)
    ensures c + 1 + extra <= BUCKETS && EmptyBefore(count, c + 1 + extra) == extra + 1
    ensures c + 1 + extra < BUCKETS ==> count[c + 1 + extra] != 0
  {
    extra := 0;
    while c + 1 + extra < BUCKETS && count[c + 1 + extra] == 0
      invariant c + 1 + extra <= BUCKETS && EmptyBefore(count, c + 1 + extra) == extra + 1
      decreases BUCKETS - extra
    {
      extra := extra + 1;
    }
  }

  /** Everything that goes into a payload, as the program makes it. */
  datatype Packing = Packing(blocks: Blocks, alloc: seq<U32>, frames: seq<Frame>)

  ghost predicate IsPacking(bwt: seq<Byte>, cap: U32, threads: nat, k: Packing) {
    && IsSplit(|bwt|, threads, k.blocks.count) && AreRooms(k.blocks.count, Wrap32(cap - |bwt| * 5), k.alloc)
    && |k.blocks.coded| == |k.blocks.pieces| == BUCKETS && AllKept(bwt, k.blocks.count, k.alloc, k.blocks.coded, k.blocks.pieces, k.frames, BUCKETS)
  }

  function Whole(b: Blocks): seq<Byte>
    requires |b.count| == |b.coded| == BUCKETS
  {
    Joined(b.pieces) + Table(b.count, b.coded, BUCKETS)
  }

  /** Too short a block, or too little room for any coding. */
  predicate Hopeless(n: nat, cap: U32) {
    n < 8 || cap < Wrap32(n * 5 + 0x41000)
  }

  /**
   The payload of a block. There is none if and only if the block is too short, the room too small, or
   streams and table together are not shorter than the block.
   */
  method EncodeInput(bwt: seq<Byte>, cap: U32, threads: nat) returns (out: seq<Byte>, ghost k: Packing)
    requires |bwt| < ENCODE_LIMIT
    ensures out != [] ==> IsPayload(bwt, out) && |out| < |bwt|
    ensures Hopeless(|bwt|, cap) ==> out == []
    ensures !Hopeless(|bwt|, cap) ==>
      IsPacking(bwt, cap, threads, k) && Whole(k.blocks) != [] && out == if |Whole(k.blocks)| < |bwt| then Whole(k.blocks) else []
  {
    var n := |bwt|;
    k := Packing(Blocks([], [], []), [], []);
    if n < 8 || cap < Wrap32(n * 5 + 0x41000) { return [], k; }
    var whole;
    whole, k := PackBlock(bwt, cap, threads);
    out := if |whole| >= n then [] else whole;
  }

  method PackBlock(bwt: seq<Byte>, cap: U32, threads: nat) returns (whole: seq<Byte>, ghost k: Packing)
    requires |bwt| < ENCODE_LIMIT
    ensures IsPacking(bwt, cap, threads, k) && whole == Whole(k.blocks) != []
    ensures |whole| < |bwt| ==> IsPayload(bwt, whole)
  {
    var streams, table;
    streams, table, k := PackParts(bwt, cap, threads);
    whole := streams + table;
    if |whole| < |bwt| { BlocksMakePayload(bwt, k.blocks, whole); }
  }

  method PackParts(bwt: seq<Byte>, cap: U32, threads: nat) returns (streams: seq<Byte>, table: seq<Byte>, ghost k: Packing)
    requires |bwt| < ENCODE_LIMIT
    ensures IsPacking(bwt, cap, threads, k) && streams == Joined(k.blocks.pieces) && table == Table(k.blocks.count, k.blocks.coded, BUCKETS) != []
    ensures |streams| < TWO32 ==> BlocksOk(bwt, k.blocks)
  {
    var count := SplitBuckets(bwt, threads);
    var alloc := Rooms(count, |bwt|, cap);
    var coded;
    streams, coded, k := PackAll(bwt, count, alloc, cap, threads);
    table := WriteTable(count, coded);
    TableIsNotEmpty(count, coded);
  }

  method PackAll(bwt: seq<Byte>, count: seq<nat>, alloc: seq<U32>, ghost cap: U32, ghost threads: nat)
    returns (streams: seq<Byte>, coded: seq<nat>, ghost k: Packing)
    requires |count| == |alloc| == BUCKETS && Sum(count) == |bwt| < ENCODE_LIMIT
    requires IsSplit(|bwt|, threads, count) && AreRooms(count, Wrap32(cap - |bwt| * 5), alloc)
    ensures |coded| == BUCKETS && forall i :: 0 <= i < BUCKETS ==> count[i] < TWO32 && coded[i] < TWO32
    ensures IsPacking(bwt, cap, threads, k) && k.blocks.count == count && k.blocks.coded == coded && streams == Joined(k.blocks.pieces)
    ensures |streams| < TWO32 ==> BlocksOk(bwt, k.blocks)
  {
    ghost var pieces, frames;
    streams, coded, pieces, frames := PackBuckets(bwt, count, alloc);
    k := Packing(Blocks(count, coded, pieces), alloc, frames);
  }

  lemma BlocksMakePayload(bwt: seq<Byte>, b: Blocks, whole: seq<Byte>)
    requires BlocksOk(bwt, b) && whole == Whole(b)
    ensures IsPayload(bwt, whole)
  {
  }

  lemma TableIsNotEmpty(count: seq<nat>, coded: seq<nat>)
    requires |count| == |coded| == BUCKETS
    ensures Table(count, coded, BUCKETS) != []
  {
  }

  // ---------------------------------------------------------------- reading

  /** `m` entries are left: the table of those, less the empty buckets already announced. */
  ghost predicate AtEntry(data: seq<Byte>, front: seq<Byte>, b: Blocks, m: nat, zeros: int) {
    && |b.count| == |b.coded| == BUCKETS && zeros <= m <= BUCKETS
    && data == front + Table(b.count, b.coded, if zeros > 0 then m - zeros else m)
    && (zeros > 0 ==> forall i :: m - zeros <= i < m ==> b.count[i] == 0)
    && forall i :: 0 <= i < BUCKETS ==> b.count[i] < TWO32 && b.coded[i] < TWO32
  }

  /** Reads one entry of the table, or skips an empty bucket of a run. */
  method ReadEntry(bs: BackwardsStream, zeros0: int, ghost front: seq<Byte>, ghost b: Blocks, ghost m: nat)
    returns (count: U32, coded: U32, zeros: int)
    requires bs.Valid() && zeros0 < TWO32
    modifies bs
    ensures bs.Valid() && bs.end <= old(bs.end) && zeros < TWO32
    ensures 0 < m && old(AtEntry(bs.data[..bs.end], front, b, m, zeros0))
      ==> (count == b.count[m - 1] && (count != 0 ==> coded == b.coded[m - 1]) && (count == 0 ==> coded == 0)
        && AtEntry(bs.data[..bs.end], front, b, m - 1, zeros))
  {
    ghost var known := 0 < m && AtEntry(bs.data[..bs.end], front, b, m, zeros0);
    count, coded, zeros := 0, 0, zeros0 - 1;
    if zeros < 0 {
      ghost var before, value, last := [], 0, 0;
      if known { before, value, last := EntryAhead(bs.data[..bs.end], front, b, m, zeros0); }
      var second;
      count, second := ReadPair(bs, before, value, last);
      if count != 0 { coded := second; } else { zeros := second; }
    }
  }

  /** Two numbers, the last one first. */
  method ReadPair(bs: BackwardsStream, ghost before: seq<Byte>, ghost value: nat, ghost last: nat) returns (first: U32, second: U32)
    requires bs.Valid()
    modifies bs
    ensures bs.Valid() && bs.end <= old(bs.end)
    ensures value < TWO32 && last < TWO32 && old(bs.data[..bs.end]) == before + Varint(value) + Varint(last)
      ==> first == last && second == value && bs.data[..bs.end] == before
  {
    first := bs.ReadVarint(before + Varint(value), last);
    second := bs.ReadVarint(before, value);
  }

  /** The two numbers of the next entry, and what is in front of them. */
  lemma EntryAhead(data: seq<Byte>, front: seq<Byte>, b: Blocks, m: nat, zeros: int) returns (before: seq<Byte>, value: nat, last: nat)
    requires 0 < m && AtEntry(data, front, b, m, zeros) && zeros <= 0
    ensures value < TWO32 && last == b.count[m - 1] < TWO32 && data == before + Varint(value) + Varint(last)
    ensures if last != 0 then value == b.coded[m - 1] && AtEntry(before, front, b, m - 1, -1) else AtEntry(before, front, b, m - 1, value)
  {
    last := b.count[m - 1];
    EntryIs(front, b, m);
    if last == 0 {
      value := EmptyBefore(b.count, m) - 1;
      before := front + Table(b.count, b.coded, m - value - 1);
    } else {
      value := b.coded[m - 1];
      before := front + Table(b.count, b.coded, m - 1);
    }
  }

  /** The last entry of a table. */
  lemma EntryIs(front: seq<Byte>, b: Blocks, m: nat)
    requires |b.count| == |b.coded| == BUCKETS && 0 < m <= BUCKETS
    ensures var r, whole := EmptyBefore(b.count, m), front + Table(b.count, b.coded, m);
      if b.count[m - 1] == 0 then 1 <= r <= m && whole == front + Table(b.count, b.coded, m - r) + Varint(r - 1) + Varint(0)
      else whole == front + Table(b.count, b.coded, m - 1) + Varint(b.coded[m - 1]) + Varint(b.count[m - 1])
  {
    var r := EmptyBefore(b.count, m);
    if b.count[m - 1] == 0 {
      assert r >= 1;
      TableOfRun(b.count, b.coded, m - r, r - 1);
      Grouped(front, Table(b.count, b.coded, m - r), Varint(r - 1), Varint(0));
    } else {
      TableOfOne(b.count, b.coded, m - 1);
      Grouped(front, Table(b.count, b.coded, m - 1), Varint(b.coded[m - 1]), Varint(b.count[m - 1]));
    }
  }

  lemma Grouped(a: seq<Byte>, b: seq<Byte>, c: seq<Byte>, d: seq<Byte>)
    ensures a + (b + c + d) == a + b + c + d
  {
  }

  function Lengths(pieces: seq<seq<Byte>>): (s: seq<nat>)
    ensures |s| == |pieces| && forall i :: 0 <= i < |pieces| ==> s[i] == |pieces[i]|
  {
    seq(|pieces|, i requires 0 <= i < |pieces| => |pieces[i]|)
  }

  lemma {:induction false} JoinedLength(pieces: seq<seq<Byte>>)
    ensures |Joined(pieces)| == Sum(Lengths(pieces))
  {
    if pieces != [] {
      JoinedLength(pieces[..|pieces| - 1]);
      assert Lengths(pieces)[..|pieces| - 1] == Lengths(pieces[..|pieces| - 1]);
    }
  }

  /** Which buckets are stored as they are. */
  function RawFlags(b: Blocks): (r: seq<bool>)
    requires |b.count| == |b.coded|
    ensures |r| == |b.count| && forall i :: 0 <= i < |r| ==> r[i] == (b.count[i] != 0 && b.coded[i] == 0)
  {
    seq(|b.count|, i requires 0 <= i < |b.count| => b.count[i] != 0 && b.coded[i] == 0)
  }

  /** The entries from `m` on. */
  ghost predicate EntriesRead(b: Blocks, m: nat, count: seq<nat>, sizes: seq<nat>, raw: seq<bool>) {
    && |b.count| == |b.coded| == |b.pieces| == BUCKETS && m <= BUCKETS
    && count == b.count[m..] && sizes == Lengths(b.pieces)[m..] && raw == RawFlags(b)[m..]
  }

  lemma PieceSize(bwt: seq<Byte>, b: Blocks, i: nat)
    requires BlocksOk(bwt, b) && i < BUCKETS
    ensures |Slice(bwt, b.count, i)| == b.count[i] && b.count[i] < TWO32 && b.coded[i] < TWO32
    ensures |b.pieces[i]| == if b.coded[i] == 0 then b.count[i] else b.coded[i]
    ensures b.count[i] == 0 ==> b.coded[i] == 0
    ensures PieceOk(Slice(bwt, b.count, i), b.coded[i], b.pieces[i])
  {
    assert Look(Codes, 0);
    SumStep(b.count, i);
  }

  lemma EntryAdds(b: Blocks, m: nat, count: seq<nat>, sizes: seq<nat>, raw: seq<bool>, c: nat, size: nat, isRaw: bool)
    requires |b.count| == |b.coded| == |b.pieces| == BUCKETS && m < BUCKETS && EntriesRead(b, m + 1, count, sizes, raw)
    requires c == b.count[m] && isRaw == RawFlags(b)[m] && size == |b.pieces[m]|
    ensures EntriesRead(b, m, [c] + count, [size] + sizes, [isRaw] + raw)
  {
    Prepended(b.count, m);
    Prepended(Lengths(b.pieces), m);
    Prepended(RawFlags(b), m);
  }

  lemma Prepended<T>(s: seq<T>, m: nat)
    requires m < |s|
    ensures [s[m]] + s[m + 1..] == s[m..]
  {
  }

  lemma SumsOfRead(bwt: seq<Byte>, b: Blocks, m: nat, count: seq<nat>, sizes: seq<nat>, raw: seq<bool>)
    requires BlocksOk(bwt, b) && EntriesRead(b, m, count, sizes, raw)
    ensures Sum(count) <= |bwt| && Sum(sizes) <= |Joined(b.pieces)|
  {
    JoinedLength(b.pieces);
    SumSplit(b.count, m);
    SumSplit(Lengths(b.pieces), m);
  }

  /** A bucket stored as it is has as many bytes in as out. */
  ghost predicate RawSizes(count: seq<nat>, sizes: seq<nat>, raw: seq<bool>) {
    |count| == |sizes| == |raw| && forall i :: 0 <= i < |raw| && raw[i] ==> sizes[i] == count[i]
  }

  /** The entries before, with one more in front. */
  lemma PrependEntry(count: seq<nat>, sizes: seq<nat>, raw: seq<bool>, c: nat, size: nat, isRaw: bool)
    requires RawSizes(count, sizes, raw) && (isRaw ==> size == c)
    ensures RawSizes([c] + count, [size] + sizes, [isRaw] + raw)
    ensures Sum([c] + count) == c + Sum(count) && Sum([size] + sizes) == size + Sum(sizes)
  {
    SumOfConcat([c], count);
    SumOfConcat([size], sizes);
    assert Sum([c]) == Sum([]) + c && Sum([size]) == Sum([]) + size;
  }

  lemma TableBegins(bwt: seq<Byte>, b: Blocks)
    requires BlocksOk(bwt, b)
    ensures AtEntry(Joined(b.pieces) + Table(b.count, b.coded, BUCKETS), Joined(b.pieces), b, BUCKETS, 0)
    ensures EntriesRead(b, BUCKETS, [], [], [])
  {
    forall i | 0 <= i < BUCKETS ensures b.count[i] < TWO32 && b.coded[i] < TWO32 {
      PieceSize(bwt, b, i);
    }
  }

  lemma AllRead(bwt: seq<Byte>, b: Blocks, count: seq<nat>, sizes: seq<nat>, raw: seq<bool>)
    requires BlocksOk(bwt, b) && EntriesRead(b, 0, count, sizes, raw)
    ensures Sum(count) == |bwt| && Sum(sizes) == |Joined(b.pieces)|
    ensures count == b.count && sizes == Lengths(b.pieces) && raw == RawFlags(b)
  {
    assert b.count[0..] == b.count && Lengths(b.pieces)[0..] == Lengths(b.pieces) && RawFlags(b)[0..] == RawFlags(b);
    JoinedLength(b.pieces);
  }

  /** One entry as the sizes of a bucket and of what it takes in the payload. */
  method TakeEntry(bs: BackwardsStream, zeros0: int, ghost bwt: seq<Byte>, ghost b: Blocks, ghost m: nat)
    returns (c: nat, size: nat, isRaw: bool, zeros: int)
    requires bs.Valid() && zeros0 < TWO32
    modifies bs
    ensures bs.Valid() && zeros < TWO32 && (isRaw ==> size == c)
    ensures m < BUCKETS && BlocksOk(bwt, b) && old(AtEntry(bs.data[..bs.end], Joined(b.pieces), b, m + 1, zeros0))
      ==> (c == b.count[m] && size == |b.pieces[m]| && isRaw == RawFlags(b)[m] && AtEntry(bs.data[..bs.end], Joined(b.pieces), b, m, zeros))
  {
    if m < BUCKETS && BlocksOk(bwt, b) { PieceSize(bwt, b, m); }
    var coded;
    c, coded, zeros := ReadEntry(bs, zeros0, Joined(b.pieces), b, m + 1);
    isRaw := c != 0 && coded == 0;
    size := if isRaw then c else coded;
  }

  /** Reads the table; it must make up the block exactly, and the streams must fit before it. */
  method ReadTable(payload: seq<Byte>, outSize: nat, ghost bwt: seq<Byte>, ghost b: Blocks)
    returns (ok: bool, count: seq<nat>, sizes: seq<nat>, raw: seq<bool>, end: nat)
    requires |payload| < TWO32 && outSize < BLOCK_LIMIT
    ensures ok ==> |count| == BUCKETS && RawSizes(count, sizes, raw) && Sum(count) == outSize && Sum(sizes) <= end <= |payload|
    ensures BlocksOk(bwt, b) && |bwt| == outSize && payload == Joined(b.pieces) + Table(b.count, b.coded, BUCKETS)
      ==> ok && count == b.count && sizes == Lengths(b.pieces) && raw == RawFlags(b) && end == |Joined(b.pieces)|
  {
    ghost var known := BlocksOk(bwt, b) && |bwt| == outSize && payload == Joined(b.pieces) + Table(b.count, b.coded, BUCKETS);
    var bs := new BackwardsStream(payload);
    var zeros, inPos: nat, outPos: nat := 0, 0, 0;
    count, sizes, raw, ok := [], [], [], true;
    assert payload[..|payload|] == payload;
    if known { TableBegins(bwt, b); }
    for m := BUCKETS downto 0
      invariant bs.Valid() && fresh(bs) && bs.data == payload && zeros < TWO32 && |count| == BUCKETS - m && RawSizes(count, sizes, raw)
      invariant Sum(count) == outPos <= outSize && Sum(sizes) == inPos <= |payload|
      invariant known ==> AtEntry(payload[..bs.end], Joined(b.pieces), b, m, zeros) && EntriesRead(b, m, count, sizes, raw)
    {
      var c, size, isRaw;
      c, size, isRaw, zeros := TakeEntry(bs, zeros, bwt, b, m);
      PrependEntry(count, sizes, raw, c, size, isRaw);
      if known {
        EntryAdds(b, m, count, sizes, raw, c, size, isRaw);
        SumsOfRead(bwt, b, m, [c] + count, [size] + sizes, [isRaw] + raw);
      }
      count, sizes, raw := [c] + count, [size] + sizes, [isRaw] + raw;
      inPos, outPos := inPos + size, outPos + c;
      if inPos > |payload| || outPos > outSize { return false, [], [], [], 0; }
    }
    end := bs.end;
    if known { AllRead(bwt, b, count, sizes, raw); }
    ok := outPos == outSize && inPos <= end;
  }

  lemma LastPiece(payload: seq<Byte>, pieces: seq<seq<Byte>>, i: nat, cur: nat)
    requires i < |pieces| && cur <= |payload| && payload[..cur] == Joined(pieces[..i + 1])
    ensures |pieces[i]| <= cur && payload[..cur - |pieces[i]|] == Joined(pieces[..i])
    ensures payload[cur - |pieces[i]|..cur] == pieces[i]
  {
    JoinedStep(pieces, i);
    var n := |Joined(pieces[..i])|;
    assert n + |pieces[i]| == cur;
    assert payload[..n] == payload[..cur][..n] && payload[n..cur] == payload[..cur][n..];
  }

  /** The streams from `i` on are cut off, and those before end at `cur`. */
  ghost predicate IsCut(payload: seq<Byte>, sizes: seq<nat>, known: bool, whole: seq<seq<Byte>>, i: nat, cur: nat, pieces: seq<seq<Byte>>)
  {
    && i <= |sizes| && |pieces| == |sizes| - i && Sum(sizes[..i]) <= cur <= |payload|
    && (forall j :: 0 <= j < |pieces| ==> |pieces[j]| == sizes[i + j])
    && (known ==>
          |whole| == |sizes| && sizes == Lengths(whole) && payload[..cur] == Joined(whole[..i]) && pieces == whole[i..])
  }

  method CutLast(payload: seq<Byte>, sizes: seq<nat>, i: nat, cur0: nat, pieces0: seq<seq<Byte>>,
                 ghost known: bool, ghost whole: seq<seq<Byte>>)
    returns (cur: nat, pieces: seq<seq<Byte>>)
    requires i < |sizes| && IsCut(payload, sizes, known, whole, i + 1, cur0, pieces0)
    ensures IsCut(payload, sizes, known, whole, i, cur, pieces)
  {
    SumStep(sizes, i);
    if known { LastPiece(payload, whole, i, cur0); }
    cur := cur0 - sizes[i];
    pieces := [payload[cur..cur + sizes[i]]] + pieces0;
  }

  /** The streams, cut off from the last to the first. */
  method CutStreams(payload: seq<Byte>, sizes: seq<nat>, end: nat, ghost b: Blocks) returns (pieces: seq<seq<Byte>>)
    requires |sizes| == BUCKETS && Sum(sizes) <= end <= |payload|
    ensures |pieces| == BUCKETS && forall i :: 0 <= i < BUCKETS ==> |pieces[i]| == sizes[i]
    ensures |b.pieces| == BUCKETS && sizes == Lengths(b.pieces) && payload[..end] == Joined(b.pieces) ==> pieces == b.pieces
  {
    ghost var known := |b.pieces| == BUCKETS && sizes == Lengths(b.pieces) && payload[..end] == Joined(b.pieces);
    var cur: nat := end;
    pieces := [];
    assert sizes[..BUCKETS] == sizes && (known ==> b.pieces[..BUCKETS] == b.pieces);
    for i := BUCKETS downto 0
      invariant IsCut(payload, sizes, known, b.pieces, i, cur, pieces)
    {
      cur, pieces := CutLast(payload, sizes, i, cur, pieces, known, b.pieces);
    }
  }

  /**
   A block of `outSize` bytes from its payload: any payload that codes it gives it back, or nothing
   where a bucket has a run too long to be put back.
   */
  method DecodeInput(payload: seq<Byte>, outSize: nat, ghost bwt: seq<Byte>) returns (ok: bool, out: seq<Byte>)
    requires |payload| < TWO32 && outSize < BLOCK_LIMIT
    ensures outSize == 0 ==> !ok
    ensures ok ==> |out| == outSize
    ensures 0 < |bwt| == outSize && IsPayload(bwt, payload) ==> (ok ==> out == bwt) && (NoLongRun(bwt) ==> ok)
  {
    if outSize == 0 { return false, []; }
    ghost var known := |bwt| == outSize && IsPayload(bwt, payload);
    ghost var b := Blocks([], [], []);
    if known { b := BlocksOf(bwt, payload); }
    var count, sizes, raw, end;
    ok, count, sizes, raw, end := ReadTable(payload, outSize, bwt, b);
    if !ok { return false, []; }
    assert known ==> payload[..end] == Joined(b.pieces);
    var pieces := CutStreams(payload, sizes, end, b);
    assert forall i :: 0 <= i < BUCKETS && raw[i] ==> sizes[i] == count[i];
    ok, out := UnpackBuckets(count, raw, pieces, bwt, b);
  }

  lemma BlocksOf(bwt: seq<Byte>, payload: seq<Byte>) returns (b: Blocks)
    requires IsPayload(bwt, payload)
    ensures BlocksOk(bwt, b) && payload == Joined(b.pieces) + Table(b.count, b.coded, BUCKETS)
  {
    assert Look(Codes, 0);
    b :| BlocksOk(bwt, b) && payload == Joined(b.pieces) + Table(b.count, b.coded, BUCKETS);
  }

  /** Each bucket from its stream, or as it stands. */
  ghost predicate Unpacked(bwt: seq<Byte>, count: seq<nat>, i: nat, known: bool, out: seq<Byte>) {
    i <= |count| && |out| == Sum(count[..i]) <= Sum(count) && (known ==> Sum(count) == |bwt| && out == bwt[..Sum(count[..i])])
  }

  method UnpackBuckets(count: seq<nat>, raw: seq<bool>, pieces: seq<seq<Byte>>, ghost bwt: seq<Byte>, ghost b: Blocks) returns (ok: bool, out: seq<Byte>)
    requires |count| == |raw| == |pieces| == BUCKETS && Sum(count) < BLOCK_LIMIT
    requires forall i :: 0 <= i < BUCKETS && raw[i] ==> |pieces[i]| == count[i]
    ensures ok ==> |out| == Sum(count)
    ensures BlocksOk(bwt, b) && count == b.count && pieces == b.pieces && raw == RawFlags(b)
      ==> (ok ==> out == bwt) && (NoLongRun(bwt) ==> ok)
  {
    ghost var known := BlocksOk(bwt, b) && count == b.count && pieces == b.pieces && raw == RawFlags(b);
    out, ok := [], true;
    for i := 0 to BUCKETS
      invariant Unpacked(bwt, count, i, known, out)
    {
      SumStep(count, i);
      var bucket;
      ok, bucket := UnpackNext(count, raw, pieces, i, known, bwt, b);
      if !ok { return; }
      out := out + bucket;
    }
    assert count[..BUCKETS] == count;
    assert known ==> bwt[..|bwt|] == bwt;
  }

  method UnpackNext(count: seq<nat>, raw: seq<bool>, pieces: seq<seq<Byte>>, i: nat, ghost known: bool, ghost bwt: seq<Byte>, ghost b: Blocks)
    returns (ok: bool, out: seq<Byte>)
    requires |count| == |raw| == |pieces| == BUCKETS && i < BUCKETS && count[i] < BLOCK_LIMIT
    requires raw[i] ==> |pieces[i]| == count[i]
    requires known ==> BlocksOk(bwt, b) && count == b.count && pieces == b.pieces && raw == RawFlags(b)
    ensures ok ==> |out| == count[i]
    ensures known ==> (NoLongRun(bwt) ==> ok) && Sum(count[..i]) + count[i] <= |bwt|
    ensures known && ok ==> out == bwt[Sum(count[..i])..Sum(count[..i]) + count[i]]
  {
    ghost var d := [];
    if known {
      d := Slice(bwt, count, i);
      PieceSize(bwt, b, i);
      SumStep(count, i);
      if NoLongRun(bwt) {
        PartHasNone(bwt, Sum(count[..i]), Sum(count[..i + 1]));
        NoLongRunIsShort(0, d);
      }
    }
    ok, out := UnpackOne(count[i], raw[i], pieces[i], d, if known then b.coded[i] else 0);
  }

  method UnpackOne(count: nat, raw: bool, piece: seq<Byte>, ghost d: seq<Byte>, ghost coded: nat) returns (ok: bool, out: seq<Byte>)
    requires count < BLOCK_LIMIT && (raw ==> |piece| == count)
    ensures ok ==> |out| == count
    ensures |d| == count && PieceOk(d, coded, piece) && raw == (count != 0 && coded == 0)
      ==> (ok ==> out == d) && (Expandable(d) ==> ok)
  {
    if raw { return true, piece; }
    if count == 0 { return true, []; }
    ok, out := UnpackBucket(piece, count, d);
  }

  /** Whenever a block is coded, its payload is shorter and decodes to the block. */
  method BlockRoundTrip(bwt: seq<Byte>, cap: U32, threads: nat) returns (payload: seq<Byte>, ok: bool, back: seq<Byte>)
    requires |bwt| < ENCODE_LIMIT
    ensures payload != [] ==> |payload| < |bwt| && ok && back == bwt
  {
    ghost var k;
    payload, k := EncodeInput(bwt, cap, threads);
    ok, back := false, [];
    if payload != [] { ok, back := DecodeInput(payload, |bwt|, bwt); }
  }
}
