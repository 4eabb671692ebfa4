/**
 Blocks for which coding pays: what equal bytes come to, however the block is split. The payload is
 given whenever it is shorter than the block, so such a block has one.
 */
module BlockPays {
  import opened Words
  import opened RangeCoder
  import opened IntCoding
  import opened BitStream
  import opened CodeLength
  import opened RankCoding
  import opened RankMachine
  import opened RankWalk
  import opened RankDecoder
  import opened BucketTables
  import opened BucketCoder
  import opened RlePrepass
  import opened BucketFrame
  import opened BwtBlock

  // ---------------------------------------------------------------- raw bits

  lemma CellRawIsShort(a: Cells, b: Cells, base: nat, hash: nat, delta: nat)
    requires |b| == B_CELLS && base + 1 + LONGEST <= |a| && hash < 16 && delta < TWO32
    ensures |CellCode(a, b, base, hash, delta).raw| <= 31
  {
    if delta > 0 { BsrOfWord(delta - 1); }
  }

  lemma {:induction false} RanksRawIsShort(m: Ranks, steps: seq<Step>)
    requires Sized(m) && StepsOk(steps)
    ensures |RanksCode(m, steps).raw| <= 31 * |steps|
    decreases |steps|
  {
    if steps != [] {
      var s := steps[0];
      CellRawIsShort(m.a, m.b, RankCoding.Base(s.hash, m.x[s.sym]), s.hash, s.delta);
      RanksRawIsShort(RankCode(m, s.hash, s.sym, s.delta).m, steps[1..]);
    }
  }

  /** There are no more runs than bytes. */
  lemma {:induction false} TraceIsShort(d: seq<Byte>, m: Machine, used: nat, pos: nat, runs: nat)
    requires Live(d, m, used, pos) && pos <= |d|
    ensures |Trace(d, m, used, pos, runs).steps| <= |d| - pos
    decreases |d| - pos
  {
    if used != 0 {
      RunEnds(d, m, used, pos);
      var (m', used') := Advanced(d, m, used, pos);
      TraceIsShort(d, m', used', RunEnd(m), runs + 1);
    }
  }

  lemma RawIsShort(d: seq<Byte>, code: Stream)
    requires IsBucketCode(d, code)
    ensures |code.raw| <= 31 * |d|
  {
    assert Look(Codes, 0);
    var m, used :| IsFirst(d, m, used) && code == CodeFrom(d, m, used);
    BucketFacts(d, m, used);
    var w := Trace(d, m, used, 0, 0);
    TraceIsShort(d, m, used, 0, 0);
    RanksRawIsShort(FreshRanks(), w.steps);
  }

  // ---------------------------------------------------------------- equal bytes

  predicate AllEqual(d: seq<Byte>) {
    forall i | 0 <= i < |d| :: d[i] == d[0]
  }

  lemma {:induction false} RunOfEqual(d: seq<Byte>, c: Byte)
    requires forall i | 0 <= i < |d| :: d[i] == c
    ensures RunLength(d, c) == |d|
  {
    if d != [] { RunOfEqual(d[1..], c); }
  }

  /** Behind a byte like them, at most two bytes and the class of one length. */
  lemma EqualCollapsesFurther(d: seq<Byte>, c: Byte)
    requires |d| < 0x8000_0000 && forall i | 0 <= i < |d| :: d[i] == c
    ensures |Collapse(c, d).body| <= 32 && |Collapse(c, d).lens| <= 1
  {
    if |d| >= 2 {
      var n := RunLength(d[2..], c);
      RunOfEqual(d[2..], c);
      CollapseOfRun(d, c, n);
      assert d[2 + n..] == [];
      BsrBelow31(n);
    }
  }

  lemma BsrBelow31(n: nat)
    requires n < 0x8000_0000
    ensures Bsr(n) <= 30
  {
    BsrBounds(n);
    Powers();
    assert Pow2(32) == 2 * Pow2(31);
    if Bsr(n) > 30 { Pow2Monotone(31, Bsr(n)); }
  }

  lemma EqualCollapses(d: seq<Byte>)
    requires |d| < 0x8000_0000 && AllEqual(d)
    ensures |Collapse(0, d).body| <= 33 && |Collapse(0, d).lens| <= 1
  {
    if d != [] {
      if d[0] != 0 { EqualCollapsesFurther(d[1..], d[0]); } else { EqualCollapsesFurther(d, 0); }
    }
  }

  lemma LengthIsShort(m: Cells, v: nat)
    requires |m| == LENGTH_CELLS && v < 0x8000_0000
    ensures |LengthCode(m, v).ds| <= 30
  {
    BsrBelow31(v);
    LengthTreeFits(Bsr(v));
    TreeIsShort(m, TreeBase(v), 1, HighPart(v), Flags(Bsr(v)));
    RawLength(Lo(v, Below(Bsr(v))), Below(Bsr(v)));
  }

  function TreeBase(v: nat): nat {
    RlePrepass.Base(Bsr(v))
  }

  lemma {:induction false} TreeIsShort(m: Cells, base: nat, i: nat, v: nat, k: nat)
    requires |m| == LENGTH_CELLS && v < Pow2(k) && TreeFits(base, i, k)
    ensures |Tree(m, base, i, v, k).ds| == k
    decreases k
  {
    if k > 0 {
      NodeFits(base, i, k);
      var flag := v >= Pow2(k - 1);
      TreeIsShort(m[i + base := Nudge(m[i + base], flag, 128, 256)], base, 2 * i + if flag then 1 else 0, LowerBits(v, k - 1), k - 1);
    }
  }

  lemma {:induction false} RawLength(v: nat, n: nat)
    requires v < Pow2(n)
    ensures |Raw(v, n)| == n
    decreases n
  {
    if n > 0 { RawLength(LowerBits(v, n - 1), n - 1); }
  }

  lemma LensAreSmall(prev: Byte, d: seq<Byte>)
    ensures forall i | 0 <= i < |Collapse(prev, d).lens| :: Collapse(prev, d).lens[i] < |d|
    decreases |d|
  {
    if |d| >= 2 {
      if d[0] != prev {
        LensAreSmall(d[0], d[1..]);
      } else if d[1] != d[0] {
        LensAreSmall(d[1], d[2..]);
      } else {
        var n := RunLength(d[2..], d[0]);
        LensAreSmall(d[0], d[2 + n..]);
      }
    }
  }

  lemma EqualSideIsShort(d: seq<Byte>)
    requires |d| < 0x8000_0000 && AllEqual(d)
    ensures |SideOf(d)| <= 121
  {
    EqualCollapses(d);
    LensAreSmall(0, d);
    OneLengthIsShort(FreshLengths(), Collapse(0, d).lens);
    CodeIsShort(Coarse, FULL, LengthsCode(FreshLengths(), Collapse(0, d).lens));
  }

  lemma OneLengthIsShort(m: Cells, lens: seq<nat>)
    requires |m| == LENGTH_CELLS && |lens| <= 1 && forall i | 0 <= i < |lens| :: lens[i] < 0x8000_0000
    ensures |LengthsCode(m, lens)| <= 30
  {
    if lens != [] {
      LengthIsShort(m, lens[0]);
      assert lens[1..] == [];
    }
  }

  // ---------------------------------------------------------------- one bucket

  /** What saves no 512 bytes is not ranked. */
  lemma SmallIsNotRanked(body: seq<Byte>, room: int, code: Stream)
    requires |body| <= 0x200 && (room > 0 ==> IsBucketCode(body, code))
    ensures !RanksPay(body, room, code)
  {
    if room > 0 { RawIsShort(body, code); }
  }

  lemma {:induction false} DigitsAreFew(v: nat, n: nat)
    requires v < Pow2(7 * n) && n > 0
    ensures |Digits(v)| <= n
    decreases n
  {
    assert Pow2(7) == 0x80;
    if v >= 0x80 && n > 1 {
      Pow2Sum(7 * (n - 1), 7);
      DigitsAreFew(v / 0x80, n - 1);
    }
  }

  lemma VarintIsShort(v: nat)
    requires v < TWO32
    ensures |Varint(v)| <= 5 && (v < 0x100 ==> |Varint(v)| <= 2) && (v == 0 ==> |Varint(v)| == 1)
  {
    if v >= 0x80 {
      Powers();
      Pow2Monotone(24, 28);
      Pow2Sum(24, 4);
      assert Pow2(4) == 16 && Pow2(24) == TWO24;
      DigitsAreFew(v / 0x80, 4);
    }
  }

  /** A bucket of equal bytes comes to no more than 170, whichever way it is kept. */
  lemma EqualPieceIsShort(d: seq<Byte>, alloc: U32, size: nat, piece: seq<Byte>, f: Frame)
    requires |d| < ENCODE_LIMIT && AllEqual(d) && KeptAs(d, alloc, size, piece, f)
    ensures |piece| <= 170 && size < TWO32
  {
    if |d| > 8 {
      EqualCollapses(d);
      EqualSideIsShort(d);
      if f.collapsed {
        SmallIsNotRanked(Body(d, f), BitsRoom(alloc, |f.side|, |Body(d, f)|), f.code);
        VarintIsShort(0);
        VarintIsShort(|f.side|);
        VarintIsShort(|d| - |Body(d, f)|);
      } else {
        SmallIsNotRanked(d, BitsRoom(alloc, 0, |d|), f.code);
      }
    }
  }

  // ---------------------------------------------------------------- the whole block

  /** A table takes ten bytes for a bucket, and three for the empty ones between two. */
  lemma {:induction false} TableIsShort(count: seq<nat>, coded: seq<nat>, m: nat)
    requires |count| == |coded| == BUCKETS && m <= BUCKETS && forall i | 0 <= i < BUCKETS :: count[i] < TWO32 && coded[i] < TWO32
    ensures |Table(count, coded, m)| <= 13 * NonEmpty(count, m) + if m > 0 && count[m - 1] == 0 then 3 else 0
    decreases m
  {
    if m > 0 {
      if count[m - 1] == 0 {
        var n := EmptyBefore(count, m);
        TableIsShort(count, coded, m - n);
        NonEmptySame(count, m - n, m);
        VarintIsShort(n - 1);
        VarintIsShort(0);
      } else {
        TableIsShort(count, coded, m - 1);
        VarintIsShort(coded[m - 1]);
        VarintIsShort(count[m - 1]);
      }
    }
  }

  lemma {:induction false} NonEmptySame(count: seq<nat>, k: nat, m: nat)
    requires k <= m <= |count| && forall i | k <= i < m :: count[i] == 0
    ensures NonEmpty(count, k) == NonEmpty(count, m)
    decreases m
  {
    if k < m { NonEmptySame(count, k, m - 1); }
  }

  /** `m` buckets, the last of them of `last` bytes and all of `sum`, are not many. */
  ghost predicate Few(m: nat, target: nat, last: nat, sum: nat) {
    if m == 0 then last == 0 else last > 0 && (m - 1) * target + last <= 2 * sum
  }

  lemma FewMore(m: nat, target: nat, last: nat, sum: nat, x: nat)
    requires Few(m, target, last, sum) && x > 0 && (last > 0 ==> last + x >= target)
    ensures Few(m + 1, target, x, sum + x)
  {
    if m > 0 { assert m * target == (m - 1) * target + target; }
  }

  /** Buckets of which any two neighbours have `target` bytes are not many. */
  lemma {:induction false} BalancedAreFew(count: seq<nat>, k: nat, n: nat, target: nat, half: nat)
    requires k <= |count| && Balanced(count, k, n, target, half)
    ensures Few(NonEmpty(count, k), target, LastOf(count, k), Sum(count[..k]))
    decreases k
  {
    if k > 0 {
      BalancedAreFew(count, k - 1, n, target, half);
      SumStep(count, k - 1);
      var x := count[k - 1];
      if x != 0 { FewMore(NonEmpty(count, k - 1), target, LastOf(count, k - 1), Sum(count[..k - 1]), x); }
    }
  }

  lemma {:induction false} PiecesAreShort(bwt: seq<Byte>, k: Packing, m: nat)
    requires |k.blocks.count| == |k.alloc| == BUCKETS && m <= BUCKETS && Sum(k.blocks.count) == |bwt| < ENCODE_LIMIT && AllEqual(bwt)
    requires |k.blocks.coded| == |k.blocks.pieces| == |k.frames| == BUCKETS
    requires AllKept(bwt, k.blocks.count, k.alloc, k.blocks.coded, k.blocks.pieces, k.frames, BUCKETS)
    ensures |Joined(k.blocks.pieces[..m])| <= 170 * NonEmpty(k.blocks.count, m)
    decreases m
  {
    if m > 0 {
      PiecesAreShort(bwt, k, m - 1);
      JoinedStep(k.blocks.pieces, m - 1);
      PieceIsShort(bwt, k, m - 1);
    }
  }

  lemma PieceIsShort(bwt: seq<Byte>, k: Packing, i: nat)
    requires |k.blocks.count| == |k.alloc| == BUCKETS && i < BUCKETS && Sum(k.blocks.count) == |bwt| < ENCODE_LIMIT && AllEqual(bwt)
    requires |k.blocks.coded| == |k.blocks.pieces| == |k.frames| == BUCKETS
    requires AllKept(bwt, k.blocks.count, k.alloc, k.blocks.coded, k.blocks.pieces, k.frames, BUCKETS)
    ensures |k.blocks.pieces[i]| <= (if k.blocks.count[i] == 0 then 0 else 170) && k.blocks.coded[i] < TWO32
  {
    assert Look(Spot, 0);
    var count := k.blocks.count;
    SumStep(count, i);
    var d := Slice(bwt, count, i);
    assert |d| == count[i];
    EqualPieceIsShort(d, k.alloc[i], k.blocks.coded[i], k.blocks.pieces[i], k.frames[i]);
  }

  lemma SplitIsFew(n: nat, threads: nat, count: seq<nat>)
    requires IsSplit(n, threads, count) && n < ENCODE_LIMIT
    ensures 183 * NonEmpty(count, BUCKETS) <= 183 + n / 2
  {
    assert Look(Steps, 0);
    if threads <= 1 {
      OneNonEmpty(n, BUCKETS);
    } else {
      var target := Target(n, threads);
      BalancedAreFew(count, BUCKETS, n, target, target / 2);
      assert count[..BUCKETS] == count;
      var m := NonEmpty(count, BUCKETS);
      if m > 0 { assert (m - 1) * target >= (m - 1) * 0x40000 by { Grown(m - 1, target); } }
    }
  }

  lemma Grown(m: nat, target: nat)
    requires target >= 0x40000
    ensures m * target >= m * 0x40000
  {
    assert m * (target - 0x40000) >= 0 && m * target == m * 0x40000 + m * (target - 0x40000);
  }

  lemma {:induction false} OneNonEmpty(n: nat, k: nat)
    requires k <= BUCKETS
    ensures NonEmpty(Zeroes(BUCKETS)[0 := n], k) <= 1
    decreases k
  {
    if k > 1 {
      OneNonEmpty(n, k - 1);
      assert Zeroes(BUCKETS)[0 := n][k - 1] == 0;
    }
  }

  /** A block of 400 equal bytes or more is shorter coded, for every number of threads and every room: so it has a payload. */
  lemma EqualBlockIsPaid(bwt: seq<Byte>, cap: U32, threads: nat, k: Packing)
    requires IsPacking(bwt, cap, threads, k) && 400 <= |bwt| < ENCODE_LIMIT && AllEqual(bwt)
    ensures |Whole(k.blocks)| < |bwt|
  {
    var count := k.blocks.count;
    forall i | 0 <= i < BUCKETS ensures count[i] < TWO32 && k.blocks.coded[i] < TWO32 {
      SumStep(count, i);
      PieceIsShort(bwt, k, i);
    }
    PiecesAreShort(bwt, k, BUCKETS);
    assert k.blocks.pieces[..BUCKETS] == k.blocks.pieces;
    TableIsShort(count, k.blocks.coded, BUCKETS);
    SplitIsFew(|bwt|, threads, count);
  }
}
