/** Numbers in seven bits a byte, the last byte whole once the limit is near (PutVar, CdReadVar). */
module LzVarint {
  import opened Words
  import opened BitStream

  /** The limit behind one byte. */
  function Next(limit: nat): nat {
    (limit + 0x7f) / 0x80
  }

  function Varint(limit: nat, v: nat): (s: seq<Byte>)
    ensures s != []
    decreases v
  {
    if v < 0x80 || limit < 0x101 then [v % 0x100] else [0x80 + v % 0x80] + Varint(Next(limit), v / 0x80)
  }

  /** What a reader makes of a stream, which it reads as zeros past the end, and how many bytes it takes. */
  function Taken(limit: nat, s: seq<Byte>): (r: (nat, nat))
    ensures r.1 >= 1
    decreases limit
  {
    if limit < 0x101 || At(s, 0) < 0x80 then (At(s, 0), 1)
    else
      var (v, n) := Taken(Next(limit), Rest(s));
      (At(s, 0) - 0x80 + 0x80 * v, n + 1)
  }

  /** The numbers below it have a code. */
  function Reach(limit: nat): (r: nat)
    ensures r >= 0x100
    decreases limit
  {
    if limit < 0x101 then 0x100 else 0x80 * Reach(Next(limit))
  }

  /** A number comes back, with whatever follows untouched, if and only if it is within reach. */
  lemma {:induction false} VarintReaches(limit: nat, v: nat, rest: seq<Byte>)
    ensures Taken(limit, Varint(limit, v) + rest) == (v, |Varint(limit, v)|) <==> v < Reach(limit)
    decreases v
  {
    if !(v < 0x80 || limit < 0x101) {
      var s := Varint(Next(limit), v / 0x80);
      VarintReaches(Next(limit), v / 0x80, rest);
      assert Rest(Varint(limit, v) + rest) == s + rest;
      var t := Taken(Next(limit), s + rest).0;
      assert v == v / 0x80 * 0x80 + v % 0x80;
    }
  }

  /** A limit in the number's own range is within reach, and so is every number up to it, but for two. */
  lemma LimitIsReached(limit: nat, v: nat)
    requires v <= limit <= 0x8000
    ensures v < Reach(limit) <==> !(v == limit && (limit == 0x100 || limit == 0x8000))
  {
    if limit >= 0x101 { assert Reach(Next(limit)) == 0x100; }
  }

  /** The writer has a limit of 0x8000 or just under it, the reader the length of the chunk. */
  lemma ShortLimit(limit: nat, other: nat, v: nat, rest: seq<Byte>)
    requires 0x7fff <= limit <= 0x8000 && other <= 0x8000 && v < 0x8000
    ensures Taken(other, Varint(limit, v) + rest) == (v, |Varint(limit, v)|) <==> v < 0x80 || other >= 0x101
  {
    var s := Varint(limit, v);
    if v >= 0x80 {
      assert s == [0x80 + v % 0x80] + [v / 0x80];
      assert Rest(s + rest) == [v / 0x80] + rest;
      assert v == v / 0x80 * 0x80 + v % 0x80;
      if other >= 0x101 { assert Next(other) < 0x101; }
    }
  }

  /** The writer has a limit of 0x20000, the reader four times the length of the chunk. */
  lemma LongLimit(other: nat, v: nat, rest: seq<Byte>)
    requires other <= 0x2_0000 && v < 0x8_0000
    ensures Taken(other, Varint(0x2_0000, v) + rest) == (v, |Varint(0x2_0000, v)|)
      <==> v < 0x80 || (other >= 0x101 && v < 0x4000) || other > 0x8000
  {
    var s := Varint(0x2_0000, v);
    if v >= 0x80 {
      assert Next(0x2_0000) == 0x400;
      LongTail(Next(other), v / 0x80, rest);
      assert Rest(s + rest) == Varint(0x400, v / 0x80) + rest;
      assert v == v / 0x80 * 0x80 + v % 0x80;
    }
  }

  lemma LongTail(other: nat, v: nat, rest: seq<Byte>)
    requires other <= 0x400 && v < 0x1000
    ensures Taken(other, Varint(0x400, v) + rest) == (v, |Varint(0x400, v)|) <==> v < 0x80 || other >= 0x101
  {
    var s := Varint(0x400, v);
    if v >= 0x80 {
      assert Next(0x400) == 8 && Varint(8, v / 0x80) == [v / 0x80];
      assert s == [0x80 + v % 0x80] + [v / 0x80];
      assert Rest(s + rest) == [v / 0x80] + rest;
      assert v == v / 0x80 * 0x80 + v % 0x80;
      if other >= 0x101 { assert Next(other) < 0x101; }
    }
  }

  method PutVar(out: seq<Byte>, limit: nat, value: nat) returns (r: seq<Byte>)
    ensures r == out + Varint(limit, value)
  {
    var l: nat, v: nat := limit, value;
    r := out;
    if !(v < 0x80 || l < 0x101) {
      while true
        invariant 0x100 < l && 0x7f < v && r + Varint(l, v) == out + Varint(limit, value)
        decreases v
      {
        Cat(r, [0x80 + v % 0x80], Varint(Next(l), v / 0x80));
        r := r + [0x80 + v % 0x80];
        v := v / 0x80;
        l := (if l % 0x80 != 0 then 1 else 0) + l / 0x80;
        if !(0x100 < l && 0x7f < v) { break; }
      }
    }
    r := r + [v % 0x100];
  }

  /** `overrun` says that bytes were missing. */
  method ReadVar(data: seq<Byte>, at: nat, limit: U32) returns (v: U32, next: nat, overrun: bool)
    requires at <= |data|
    ensures var t := Taken(limit, data[at..]);
      v == Wrap32(t.0) && overrun == (at + t.1 > |data|) && next == if overrun then |data| else at + t.1
  {
    var acc, shift, i, l := ReadFlagged(data, at, limit);
    BehindOn(data, i - 1);
    ReadsLast(limit, data[at..], acc, shift, l, Behind(data, i - 1), i - 1 - at);
    overrun := i > |data|;
    v, next := Wrap32(acc + Up(At(data, i - 1), shift)), if overrun then |data| else i;
  }

  /** The bytes that say that another one follows; the one that does not is at `i` - 1. */
  method ReadFlagged(data: seq<Byte>, at: nat, limit: U32) returns (acc: nat, shift: nat, i: nat, l: nat)
    requires at <= |data|
    ensures at < i && (l < 0x101 || At(data, i - 1) < 0x80) && Reads(limit, data[at..], acc, shift, l, Behind(data, i - 1), i - 1 - at)
  {
    acc, shift, i, l := 0, 0, at + 1, limit;
    ghost var n: nat, s := 0, data[at..];
    assert Behind(data, at) == s;
    while 0x101 <= l && 0x80 <= At(data, i - 1)
      invariant i == at + 1 + n && Reads(limit, s, acc, shift, l, Behind(data, i - 1), n)
      decreases l
    {
      acc, shift, l := ReadOne(limit, s, acc, shift, l, data, i, n);
      i, n := i + 1, n + 1;
    }
  }

  method ReadOne(ghost limit: nat, ghost s: seq<Byte>, acc: nat, shift: nat, l: nat, data: seq<Byte>, i: nat, ghost n: nat)
    returns (a: nat, b: nat, k: nat)
    requires i > 0 && l >= 0x101 && At(data, i - 1) >= 0x80 && Reads(limit, s, acc, shift, l, Behind(data, i - 1), n)
    ensures Reads(limit, s, a, b, k, Behind(data, i), n + 1) && k < l
  {
    BehindOn(data, i - 1);
    ReadsOn(limit, s, acc, shift, l, Behind(data, i - 1), n);
    a, b, k := acc + Up(At(data, i - 1) - 0x80, shift), shift + 7, Next(l);
  }

  function Behind(s: seq<Byte>, n: nat): seq<Byte> {
    if n <= |s| then s[n..] else []
  }

  lemma BehindOn(s: seq<Byte>, n: nat)
    ensures Rest(Behind(s, n)) == Behind(s, n + 1) && At(Behind(s, n), 0) == At(s, n)
  {
  }

  /** Behind `n` bytes, with `acc` read and the next bits to be shifted; out of sight until `Look(Steps, 0)`. */
  ghost predicate Reads(limit: nat, s: seq<Byte>, acc: nat, shift: nat, l: nat, ahead: seq<Byte>, n: nat) {
    forall z {:trigger Look(Steps, z)} :: Look(Steps, z) ==>
      Taken(limit, s).0 == acc + Up(Taken(l, ahead).0, shift) && Taken(limit, s).1 == n + Taken(l, ahead).1
  }

  lemma ReadsLast(limit: nat, s: seq<Byte>, acc: nat, shift: nat, l: nat, ahead: seq<Byte>, n: nat)
    requires (l < 0x101 || At(ahead, 0) < 0x80) && Reads(limit, s, acc, shift, l, ahead, n)
    ensures Taken(limit, s) == (acc + Up(At(ahead, 0), shift), n + 1)
  {
    assert Look(Steps, 0);
  }

  lemma ReadsOn(limit: nat, s: seq<Byte>, acc: nat, shift: nat, l: nat, ahead: seq<Byte>, n: nat)
    requires l >= 0x101 && At(ahead, 0) >= 0x80 && Reads(limit, s, acc, shift, l, ahead, n)
    ensures Reads(limit, s, acc + Up(At(ahead, 0) - 0x80, shift), shift + 7, Next(l), Rest(ahead), n + 1)
  {
    assert Look(Steps, 0);
    SevenUp(At(ahead, 0) - 0x80, Taken(Next(l), Rest(ahead)).0, shift);
  }

  lemma {:induction false} SevenUp(b: nat, u: nat, k: nat)
    ensures Up(b + 0x80 * u, k) == Up(b, k) + Up(u, k + 7)
    decreases k
  {
    if k == 0 {
      assert Up(u, 7) == 2 * Up(u, 6) && Up(u, 6) == 2 * Up(u, 5) && Up(u, 5) == 2 * Up(u, 4);
      assert Up(u, 4) == 2 * Up(u, 3) && Up(u, 3) == 2 * Up(u, 2) && Up(u, 2) == 2 * Up(u, 1) && Up(u, 1) == 2 * u;
    } else {
      SevenUp(b, u, k - 1);
    }
  }
}

/** The run lengths of a column of token bytes, or of a whole chunk (ColumnRle, NzCdRleExpand). */
module LzRuns {
  import opened Words
  import opened IntCoding
  import opened BitStream
  import opened LiteralRates

  /** The bytes that stay, and the bits beside them. */
  datatype Pack = Pack(bytes: seq<Byte>, bits: seq<bool>)

  /** How many bytes at the front are `c`. */
  function Leading(s: seq<Byte>, c: Byte): (n: nat)
    ensures n <= |s| && (n < |s| ==> s[n] != c)
  {
    if s == [] || s[0] != c then 0 else 1 + Leading(s[1..], c)
  }

  function Repeat(c: Byte, n: nat): (s: seq<Byte>)
    ensures |s| == n
  {
    seq(n, _ => c)
  }

  /**
   Bytes pass until two are equal, and `thr` + 1 more equal ones after them. The rest of the run, even if
   there is none, is as many bytes as its length has bits below the top one; those go aside.
   */
  function Packed(prev: Byte, s: seq<Byte>, thr: nat): (p: Pack)
    decreases |s|
  {
    if s == [] then Pack([], [])
    else if s[0] != prev then
      var q := Packed(s[0], s[1..], thr); Pack([s[0]] + q.bytes, q.bits)
    else
      var m := Leading(s[1..], prev);
      var q := Packed(prev, s[1 + m..], thr);
      Pack(Repeat(prev, 1 + Left(m, thr)) + q.bytes, LeftBits(m, thr) + q.bits)
  }

  /** How many bytes a run of `m` leaves, and the raw length beside them, where it has one. */
  function Left(m: nat, thr: nat): nat {
    if m <= thr then m else thr + 1 + Bsr(m - thr - 1)
  }

  function LeftBits(m: nat, thr: nat): seq<bool> {
    if m <= thr then [] else Tail(m - thr - 1)
  }

  /** Packing never lengthens. */
  lemma {:induction false} PackedIsShort(prev: Byte, s: seq<Byte>, thr: nat)
    ensures |Packed(prev, s, thr).bytes| <= |s|
    decreases |s|
  {
    if s != [] {
      if s[0] != prev { PackedIsShort(s[0], s[1..], thr); } else {
        var m := Leading(s[1..], prev);
        PackedIsShort(prev, s[1 + m..], thr);
        PairIs(prev, s, thr);
        LeftIsShort(m, thr);
      }
    }
  }

  lemma LeftIsShort(m: nat, thr: nat)
    ensures Left(m, thr) <= m
  {
    if m > thr { BsrIsLess(m - thr - 1); }
  }

  /** A pair and its run. */
  lemma PairIs(prev: Byte, s: seq<Byte>, thr: nat)
    requires s != [] && s[0] == prev
    ensures var m := Leading(s[1..], prev);
      var q := Packed(prev, s[1 + m..], thr);
      Packed(prev, s, thr) == Pack(Repeat(prev, 1 + Left(m, thr)) + q.bytes, LeftBits(m, thr) + q.bits)
  {
  }

  lemma NothingPacked(prev: Byte, s: seq<Byte>, thr: nat)
    requires Packed(prev, s, thr).bytes == []
    ensures s == [] && Packed(prev, s, thr).bits == []
  {
  }

  lemma {:induction false} LeadingIsRun(s: seq<Byte>, c: Byte)
    ensures s == Repeat(c, Leading(s, c)) + s[Leading(s, c)..]
  {
    if s != [] && s[0] == c {
      LeadingIsRun(s[1..], c);
      assert Repeat(c, Leading(s, c)) == [c] + Repeat(c, Leading(s[1..], c));
    }
  }

  lemma {:induction false} LeadingOf(c: Byte, n: nat, rest: seq<Byte>)
    requires rest != [] ==> rest[0] != c
    ensures Leading(Repeat(c, n) + rest, c) == n && (Repeat(c, n) + rest)[n..] == rest
  {
    var s := Repeat(c, n) + rest;
    if n > 0 {
      assert s[1..] == Repeat(c, n - 1) + rest;
      LeadingOf(c, n - 1, rest);
    }
  }

  /** A byte that does not go on with the run before it stays in front. */
  lemma PackedBegins(prev: Byte, s: seq<Byte>, thr: nat)
    requires s != [] ==> s[0] != prev
    ensures s == [] ==> Packed(prev, s, thr).bytes == []
    ensures s != [] ==> Packed(prev, s, thr).bytes != [] && Packed(prev, s, thr).bytes[0] == s[0]
  {
  }

  lemma PairRun(prev: Byte, s: seq<Byte>)
    requires s != [] && s[0] == prev
    ensures var m := Leading(s[1..], prev);
      s == Repeat(prev, 1 + m) + s[1 + m..] && (s[1 + m..] != [] ==> s[1 + m] != prev)
  {
    LeadingIsRun(s[1..], prev);
    assert s == [prev] + s[1..];
  }

  lemma PairBytes(c: Byte, n: nat, bytes: seq<Byte>, rest: seq<Byte>)
    requires bytes == Repeat(c, 1 + n) + rest && (rest != [] ==> rest[0] != c)
    ensures bytes != [] && bytes[0] == c && Leading(bytes[1..], c) == n && bytes[1 + n..] == rest
  {
    assert bytes[1..] == Repeat(c, n) + rest;
    LeadingOf(c, n, rest);
  }

  /** What a reader sees of a pair and its run. */
  lemma PairAhead(prev: Byte, s: seq<Byte>, thr: nat)
    requires s != [] && s[0] == prev
    ensures var m := Leading(s[1..], prev);
      var p, q := Packed(prev, s, thr), Packed(prev, s[1 + m..], thr);
      && p.bytes != [] && p.bytes[0] == prev && Leading(p.bytes[1..], prev) == Left(m, thr)
      && p.bytes[1 + Left(m, thr)..] == q.bytes && p.bits == LeftBits(m, thr) + q.bits
  {
    var m := Leading(s[1..], prev);
    PairRun(prev, s);
    PackedBegins(prev, s[1 + m..], thr);
    PairBytes(prev, Left(m, thr), Packed(prev, s, thr).bytes, Packed(prev, s[1 + m..], thr).bytes);
  }

  /** What is still to be packed, behind what was; out of sight until `Look(Steps, 0)`. */
  ghost predicate Goes(all: Pack, dst: seq<Byte>, bits: seq<bool>, prev: Byte, rest: seq<Byte>, thr: nat) {
    forall z {:trigger Look(Steps, z)} :: Look(Steps, z) ==>
      all == Joined(dst, bits, Packed(prev, rest, thr))
  }

  function Joined(dst: seq<Byte>, bits: seq<bool>, q: Pack): Pack {
    Pack(dst + q.bytes, bits + q.bits)
  }

  lemma JoinedTwice(dst: seq<Byte>, bits: seq<bool>, a: seq<Byte>, b: seq<bool>, q: Pack)
    ensures Joined(dst, bits, Joined(a, b, q)) == Joined(dst + a, bits + b, q)
  {
    Cat(dst, a, q.bytes);
    Cat(bits, b, q.bits);
  }

  lemma GoesFirst(src: seq<Byte>, thr: nat)
    ensures Goes(Packed(0, src, thr), [], [], 0, src[0..], thr)
  {
    assert src[0..] == src;
    assert [] + Packed(0, src, thr).bytes == Packed(0, src, thr).bytes && [] + Packed(0, src, thr).bits == Packed(0, src, thr).bits;
  }

  lemma GoesOne(all: Pack, dst: seq<Byte>, bits: seq<bool>, prev: Byte, src: seq<Byte>, i: nat, thr: nat)
    requires i < |src| && src[i] != prev && Goes(all, dst, bits, prev, src[i..], thr)
    ensures Goes(all, dst + [src[i]], bits, src[i], src[i + 1..], thr)
  {
    assert Look(Steps, 0);
    var c, rest := src[i], src[i..];
    assert rest[0] == c && rest[1..] == src[i + 1..];
    var q := Packed(c, src[i + 1..], thr);
    assert Packed(prev, rest, thr) == Joined([c], [], q) by { assert [] + q.bits == q.bits; }
    JoinedTwice(dst, bits, [c], [], q);
    assert bits + [] == bits;
  }

  lemma GoesPair(all: Pack, dst: seq<Byte>, bits: seq<bool>, prev: Byte, src: seq<Byte>, i: nat, m: nat, thr: nat)
    requires i < |src| && src[i] == prev && m == Leading(src[i + 1..], prev) && Goes(all, dst, bits, prev, src[i..], thr)
    ensures i + 1 + m <= |src| && Goes(all, dst + Repeat(prev, 1 + Left(m, thr)), bits + LeftBits(m, thr), prev, src[i + 1 + m..], thr)
  {
    assert Look(Steps, 0);
    var rest := src[i..];
    assert rest[1..] == src[i + 1..] && rest[1 + m..] == src[i + 1 + m..];
    PairIs(prev, rest, thr);
    JoinedTwice(dst, bits, Repeat(prev, 1 + Left(m, thr)), LeftBits(m, thr), Packed(prev, src[i + 1 + m..], thr));
  }

  lemma GoesLast(all: Pack, dst: seq<Byte>, bits: seq<bool>, prev: Byte, src: seq<Byte>, thr: nat)
    requires Goes(all, dst, bits, prev, src[|src|..], thr)
    ensures all == Pack(dst, bits)
  {
    assert Look(Steps, 0);
    assert Packed(prev, [], thr) == Pack([], []) && dst + [] == dst && bits + [] == bits;
  }

  lemma {:induction false} LeadingCounted(s: seq<Byte>, c: Byte, k: nat)
    requires k <= |s| && (forall j | 0 <= j < k :: s[j] == c) && (k == |s| || s[k] != c)
    ensures Leading(s, c) == k
  {
    if k > 0 { LeadingCounted(s[1..], c, k - 1); }
  }

  /** How many bytes from `i` on are `c`, counting no further than `most`. */
  method Count(src: seq<Byte>, i: nat, c: Byte, most: nat) returns (k: nat)
    requires i <= |src|
    ensures k <= most && k <= Leading(src[i..], c) && (k == most || k == Leading(src[i..], c))
    ensures forall j | i <= j < i + k :: src[j] == c
  {
    k := 0;
    while k < most && i + k < |src| && src[i + k] == c
      invariant k <= most && i + k <= |src| && forall j | i <= j < i + k :: src[j] == c
    {
      k := k + 1;
    }
    LeadingAtLeast(src[i..], c, k);
    if k < most { LeadingCounted(src[i..], c, k); }
  }

  lemma {:induction false} LeadingAtLeast(s: seq<Byte>, c: Byte, k: nat)
    requires k <= |s| && forall j | 0 <= j < k :: s[j] == c
    ensures k <= Leading(s, c) && Leading(s, c) == k + Leading(s[k..], c)
  {
    if k > 0 {
      LeadingAtLeast(s[1..], c, k - 1);
      assert s[1..][k - 1..] == s[k..];
    } else {
      assert s[0..] == s;
    }
  }

  /** ColumnRle: the bytes that stay; the bits go to `w`. */
  method ColumnRle(src: seq<Byte>, thr: nat, w: RateWriter) returns (dst: seq<Byte>)
    requires w.Valid() && |src| < TWO32
    modifies w
    ensures w.Valid() && dst == Packed(0, src, thr).bytes && w.trace == old(w.trace) + Packed(0, src, thr).bits
  {
    dst := [];
    var i: nat, prev: Byte := 0, 0;
    ghost var before, all := w.trace, Packed(0, src, thr);
    ghost var bits: seq<bool> := [];
    GoesFirst(src, thr);
    assert before + bits == before;
    while i < |src|
      invariant i <= |src| && w.Valid() && w.trace == before + bits && Goes(all, dst, bits, prev, src[i..], thr)
    {
      var c := src[i];
      if c != prev {
        GoesOne(all, dst, bits, prev, src, i, thr);
        dst, i, prev := dst + [c], i + 1, c;
      } else {
        var m, kept := PackRun(src, i + 1, c, thr, w);
        GoesPair(all, dst, bits, prev, src, i, m, thr);
        Cat(before, bits, LeftBits(m, thr));
        dst, i, bits := dst + kept, i + 1 + m, bits + LeftBits(m, thr);
      }
    }
    GoesLast(all, dst, bits, prev, src, thr);
  }

  /** A byte equal to the one before, and the run that it begins. */
  method PackRun(src: seq<Byte>, i: nat, c: Byte, thr: nat, w: RateWriter) returns (m: nat, kept: seq<Byte>)
    requires w.Valid() && i <= |src| < TWO32
    modifies w
    ensures w.Valid() && m == Leading(src[i..], c)
    ensures kept == Repeat(c, 1 + Left(m, thr)) && w.trace == old(w.trace) + LeftBits(m, thr)
  {
    m := Count(src, i, c, thr + 1);
    kept := Repeat(c, 1 + m);
    if m <= thr { return; }
    RunOn(src, i, c, m);
    var run, copies := PackRest(src, i + m, c, w);
    RepeatJoins(c, 1 + m, Bsr(run));
    LeftOf(run, thr);
    m, kept := m + run, kept + copies;
  }

  lemma LeftOf(run: nat, thr: nat)
    ensures Left(thr + 1 + run, thr) == thr + 1 + Bsr(run) && LeftBits(thr + 1 + run, thr) == Tail(run)
  {
  }

  /** What is left of a run. */
  method PackRest(src: seq<Byte>, i: nat, c: Byte, w: RateWriter) returns (run: nat, copies: seq<Byte>)
    requires w.Valid() && i <= |src| < TWO32
    modifies w
    ensures w.Valid() && run == Leading(src[i..], c) && copies == Repeat(c, Bsr(run)) && w.trace == old(w.trace) + Tail(run)
  {
    run := Count(src, i, c, |src|);
    var k;
    copies, k := Copies(c, run);
    BsrOfRegister(run);
    w.PutTail(run, k);
  }

  lemma RunOn(src: seq<Byte>, i: nat, c: Byte, m: nat)
    requires i + m <= |src| && forall j | i <= j < i + m :: src[j] == c
    ensures Leading(src[i..], c) == m + Leading(src[i + m..], c)
  {
    LeadingAtLeast(src[i..], c, m);
    assert src[i..][m..] == src[i + m..];
  }

  /** One copy for each bit of the length below its top. */
  method Copies(c: Byte, run: nat) returns (copies: seq<Byte>, k: nat)
    ensures k == Bsr(run) && copies == Repeat(c, k)
  {
    copies, k := [], 0;
    var x: nat := run / 2;
    while x != 0
      invariant copies == Repeat(c, k) && Bsr(run) == if x == 0 then k else k + 1 + Bsr(x)
      decreases x
    {
      copies, k, x := copies + [c], k + 1, x / 2;
    }
  }

  /** The run behind a pair, as far as it is packed: its bytes `part`, and how many bytes said so. */
  method TakeRun(src: seq<Byte>, i: nat, room: nat, c: Byte, thr: nat, r: BitReader, ghost m: nat, ghost later: seq<bool>)
    returns (ok: bool, taken: nat, part: seq<Byte>)
    requires r.Valid() && i <= |src| && |src| - i <= room
    modifies r
    ensures r.Valid() && i + taken <= |src| && |part| <= room && (ok ==> |part| + (|src| - i - taken) <= room)
    ensures old(Known(src, i, room, c, thr, r, m, later)) ==> ok && taken == Left(m, thr) && part == Repeat(c, m) && r.Ahead(later)
  {
    ghost var known := Known(src, i, room, c, thr, r, m, later);
    taken := Count(src, i, c, thr + 1);
    part, ok := Repeat(c, taken), true;
    if taken <= thr { return; }
    RunOn(src, i, c, taken);
    var more, k, len := TakeRest(src, i + taken, room - taken, c, r, if m > thr then m - thr - 1 else 0, later);
    if !more { return false, taken, part; }
    RepeatJoins(c, taken, len);
    taken, part := taken + k, part + Repeat(c, len);
  }

  /** What is left of a run: its length, by the bytes and the bits that say so. */
  method TakeRest(src: seq<Byte>, i: nat, room: nat, c: Byte, r: BitReader, ghost run: nat, ghost later: seq<bool>)
    returns (ok: bool, k: nat, len: nat)
    requires r.Valid() && i <= |src|
    modifies r
    ensures r.Valid() && (ok ==> i + k <= |src| && |src| - i - k + len <= room)
    ensures Leading(src[i..], c) == Bsr(run) && run < 0x8000_0000 && |src| - i - Bsr(run) + run <= room && old(r.Ahead(Tail(run) + later))
      ==> ok && k == Bsr(run) && len == run && r.Ahead(later)
  {
    if run < 0x8000_0000 { BsrOfRun(run); }
    ok, len := false, 0;
    k := Count(src, i, c, |src|);
    if k > 0x1e { return; }
    len := ReadTail(r, k, run, later);
    ok := |src| - i - k + len <= room;
  }

  lemma RepeatJoins(c: Byte, a: nat, b: nat)
    ensures Repeat(c, a) + Repeat(c, b) == Repeat(c, a + b)
  {
  }

  /** What a run of `m` looks like from behind its first byte. */
  ghost predicate Known(src: seq<Byte>, i: nat, room: nat, c: Byte, thr: nat, r: BitReader, m: nat, later: seq<bool>)
    requires i <= |src|
    reads r
  {
    Leading(src[i..], c) == Left(m, thr) && m <= 0x7fff_ffff && m + (|src| - i - Left(m, thr)) <= room && r.Ahead(LeftBits(m, thr) + later)
  }

  lemma BsrOfRun(v: nat)
    requires v < 0x8000_0000
    ensures Bsr(v) <= 0x1e
  {
    BsrBounds(v);
    Powers();
    assert Pow2(32) == 2 * Pow2(31);
    if Bsr(v) > 0x1e { Pow2Monotone(31, Bsr(v)); }
  }

  /** What is still to be unpacked: the bytes ahead are those of `rest`. */
  ghost predicate Undoes(ahead: seq<Byte>, out: seq<Byte>, prev: Byte, rest: seq<Byte>, col: seq<Byte>, thr: nat) {
    ahead == Packed(prev, rest, thr).bytes && out + rest == col
  }

  lemma UndoesOne(src: seq<Byte>, i: nat, out: seq<Byte>, prev: Byte, rest: seq<Byte>, col: seq<Byte>, thr: nat)
    requires i < |src| && Undoes(src[i..], out, prev, rest, col, thr)
    ensures rest != [] && rest[0] == src[i]
    ensures src[i] != prev ==>
      Undoes(src[i + 1..], out + [src[i]], src[i], rest[1..], col, thr)
      && Packed(prev, rest, thr).bits == Packed(src[i], rest[1..], thr).bits
  {
    assert src[i..] != [] && src[i..][0] == src[i] && src[i..][1..] == src[i + 1..];
    if rest[0] == prev { PairAhead(prev, rest, thr); } else {
      assert out + [rest[0]] + rest[1..] == out + rest;
    }
  }

  lemma UndoesPair(src: seq<Byte>, i: nat, out: seq<Byte>, c: Byte, rest: seq<Byte>, col: seq<Byte>, thr: nat)
    requires i < |src| && Undoes(src[i..], out, c, rest, col, thr) && rest != [] && rest[0] == c
    ensures var m := Leading(rest[1..], c);
      && Leading(src[i + 1..], c) == Left(m, thr)
      && Undoes(src[i + 1 + Left(m, thr)..], out + Repeat(c, 1 + m), c, rest[1 + m..], col, thr)
      && Packed(c, rest, thr).bits == LeftBits(m, thr) + Packed(c, rest[1 + m..], thr).bits
  {
    var m := Leading(rest[1..], c);
    PairAhead(c, rest, thr);
    PairRun(c, rest);
    assert src[i..][1..] == src[i + 1..] && src[i..][1 + Left(m, thr)..] == src[i + 1 + Left(m, thr)..];
    Cat(out, Repeat(c, 1 + m), rest[1 + m..]);
  }

  /** In front of place `i`, with `out` written and `rest` to come. */
  ghost predicate Unpacks(src: seq<Byte>, i: nat, out: seq<Byte>, prev: Byte, rest: seq<Byte>, col: seq<Byte>, thr: nat, r: BitReader, later: seq<bool>)
    reads r
  {
    i <= |src| && Undoes(src[i..], out, prev, rest, col, thr) && r.Ahead(Packed(prev, rest, thr).bits + later)
  }

  /** A byte, or a pair with its run. */
  method Unpack(src: seq<Byte>, i: nat, room: nat, out: seq<Byte>, prev: Byte, thr: nat, r: BitReader,
                ghost known: bool, ghost rest: seq<Byte>, ghost col: seq<Byte>, ghost later: seq<bool>)
    returns (ok: bool, j: nat, more: seq<Byte>, ghost left: seq<Byte>)
    requires r.Valid() && i < |src| && |out| + (|src| - i) <= room
    requires known ==> |col| <= room && |col| <= 0x7fff_ffff && Unpacks(src, i, out, prev, rest, col, thr, r, later)
    modifies r
    ensures r.Valid() && i < j <= |src| && |more| <= room && (ok ==> |more| + (|src| - j) <= room)
    ensures known ==> ok && Unpacks(src, j, more, src[i], left, col, thr, r, later)
  {
    var c := src[i];
    left := rest;
    if known { UndoesOne(src, i, out, prev, rest, col, thr); }
    if c != prev {
      if known { left := rest[1..]; }
      return true, i + 1, out + [c], left;
    }
    ghost var m := if known then Leading(rest[1..], c) else 0;
    ghost var bits := if known then Packed(c, rest[1 + m..], thr).bits + later else [];
    if known { PairIsKnown(src, i, room, out, c, rest, col, thr, r, m, bits, later); }
    var taken, part;
    ok, taken, part := TakeRun(src, i + 1, room - |out| - 1, c, thr, r, m, bits);
    j, more := i + 1 + taken, out + [c] + part;
    if known { left := rest[1 + m..]; }
  }

  /** NzCdRleExpand: stops where a run is too long or the room too small. */
  method RleExpand(src: seq<Byte>, room: nat, thr: nat, r: BitReader, ghost col: seq<Byte>, ghost later: seq<bool>) returns (out: seq<Byte>)
    requires r.Valid()
    modifies r
    ensures r.Valid() && |out| <= room
    ensures old(IsPacked(src, room, thr, r, col, later)) ==> out == col && r.Ahead(later)
  {
    out := [];
    ghost var known := IsPacked(src, room, thr, r, col, later);
    if known { PackedIsShort(0, col, thr); }
    if room < |src| { return; }
    var i: nat, prev: Byte, ok := 0, 0, true;
    ghost var rest := col;
    assert src[0..] == src && [] + col == col;
    while i < |src|
      invariant i <= |src| && |out| + (|src| - i) <= room && r.Valid()
      invariant known ==> Unpacks(src, i, out, prev, rest, col, thr, r, later)
    {
      var c := src[i];
      ok, i, out, rest := Unpack(src, i, room, out, prev, thr, r, known, rest, col, later);
      if !ok { return; }
      prev := c;
    }
    if known { AllUnpacked(src, i, out, prev, rest, col, thr, r, later); }
  }

  lemma AllUnpacked(src: seq<Byte>, i: nat, out: seq<Byte>, prev: Byte, rest: seq<Byte>, col: seq<Byte>, thr: nat, r: BitReader, later: seq<bool>)
    requires i == |src| && Unpacks(src, i, out, prev, rest, col, thr, r, later)
    ensures out == col && r.Ahead(later)
  {
    NothingPacked(prev, rest, thr);
    assert out + [] == out && [] + later == later;
  }

  /** `src` and the bits ahead are the packed form of a column that the room is enough for. */
  ghost predicate IsPacked(src: seq<Byte>, room: nat, thr: nat, r: BitReader, col: seq<Byte>, later: seq<bool>)
    reads r
  {
    |col| <= room && |col| <= 0x7fff_ffff && src == Packed(0, col, thr).bytes && r.Ahead(Packed(0, col, thr).bits + later)
  }

  lemma PairIsKnown(src: seq<Byte>, i: nat, room: nat, out: seq<Byte>, c: Byte, rest: seq<Byte>, col: seq<Byte>, thr: nat,
                    r: BitReader, m: nat, more: seq<bool>, later: seq<bool>)
    requires i < |src| && Undoes(src[i..], out, c, rest, col, thr) && rest != [] && rest[0] == c && m == Leading(rest[1..], c)
    requires |col| <= room && |col| <= 0x7fff_ffff && |out| + (|src| - i) <= room
    requires more == Packed(c, rest[1 + m..], thr).bits + later && r.Ahead(Packed(c, rest, thr).bits + later)
    ensures Known(src, i + 1, room - |out| - 1, c, thr, r, m, more)
    ensures i + 1 + Left(m, thr) <= |src| && Undoes(src[i + 1 + Left(m, thr)..], out + [c] + Repeat(c, m), c, rest[1 + m..], col, thr)
  {
    UndoesPair(src, i, out, c, rest, col, thr);
    RoomIsKnown(src, i, out, c, rest, col, thr, m);
    Cat(LeftBits(m, thr), Packed(c, rest[1 + m..], thr).bits, later);
    OneAndRest(out, c, m);
  }

  lemma RoomIsKnown(src: seq<Byte>, i: nat, out: seq<Byte>, c: Byte, rest: seq<Byte>, col: seq<Byte>, thr: nat, m: nat)
    requires out + rest == col && 1 + m <= |rest| && i + 1 + Left(m, thr) <= |src|
    requires src[i + 1 + Left(m, thr)..] == Packed(c, rest[1 + m..], thr).bytes
    ensures |out| + 1 + m + (|src| - i - 1 - Left(m, thr)) <= |col|
  {
    PackedIsShort(c, rest[1 + m..], thr);
  }

  lemma OneAndRest(out: seq<Byte>, c: Byte, m: nat)
    ensures out + [c] + Repeat(c, m) == out + Repeat(c, 1 + m)
  {
  }

  /** Packed, with `size` bytes for the run lengths, and unpacked: everything comes back whenever they fit. */
  method RunsRoundTrip(src: seq<Byte>, thr: nat, size: nat, room: nat) returns (out: seq<Byte>)
    requires |src| <= 0x7fff_ffff && |src| <= room
    ensures |Packed(0, src, thr).bits| <= 8 * size ==> out == src
  {
    var w := new RateWriter(size);
    var packed := ColumnRle(src, thr, w);
    var side := w.Flush();
    assert Packed(0, src, thr).bits + [] == Packed(0, src, thr).bits;
    var r := new BitReader(side, Packed(0, src, thr).bits + []);
    out := RleExpand(packed, room, thr, r, src, []);
  }
}

/** The fields of a token: a byte for a column, and raw bits below it (field, DecodeField). */
module LzFields {
  import opened Words
  import opened IntCoding
  import opened BitStream
  import opened LiteralRates

  datatype Field = OfRun | OfPlace | OfLength

  /** Values below it are their own bytes. */
  function Small(f: Field): Byte {
    match f
    case OfRun => 8
    case OfPlace => 4
    case OfLength => 14
  }

  /** For values with top bit `k` above the small ones: the first byte, and how many bits are raw. */
  function Model(f: Field, k: nat): (nat, nat) {
    if !f.OfPlace? then (k, if k == 0 then 1 else k)
    else if k < 3 then (2 * k, 0)
    else if k < 20 then (4 * (k - 1), k - 2)
    else if k == 20 then (76, 19)
    else (k + 59, k)
  }

  /** The top bit that a byte stands for; 0 where it stands for none. */
  function Top(f: Field, i: nat): nat {
    if !f.OfPlace? then if i < 32 then i else 0
    else if i < 4 then i / 2
    else if i < 80 then i / 4 + 1
    else if i <= 90 then i - 59
    else 0
  }

  function Top2(k: nat): nat {
    if k == 0 then 0 else Pow2(k)
  }

  /** The byte of a value, and the bits beside it. */
  function Code(f: Field, v: U32): (r: (nat, seq<bool>)) {
    if v < Small(f) then (v, [])
    else
      var d: nat := v - Small(f);
      var k := Bsr(d);
      var (base, n) := Model(f, k);
      BsrBounds(d);
      var low: nat := d - Top2(k);
      if n == 0 then (v, []) else (Hi(low, n) + base + Small(f), Bits(Lo(low, n), n))
  }

  function FieldByte(f: Field, v: U32): (b: Byte) {
    CodeFits(f, v);
    Code(f, v).0
  }

  function FieldBits(f: Field, v: U32): seq<bool> {
    Code(f, v).1
  }

  /** How the first bytes are dealt out: as many as the bits that are not raw call for, and each stands for its top bit. */
  lemma ModelFits(f: Field, k: nat, h: nat)
    requires k <= 31
    ensures var (base, n) := Model(f, k);
      n == 0 ==> f.OfPlace? && k < 3
    ensures var (base, n) := Model(f, k);
      n != 0 && (if k == 0 then h == 0 else n <= k && h < Pow2(k - n)) ==> base + h <= 90 && Top(f, base + h) == k
  {
    assert Pow2(2) == 4 && Pow2(1) == 2 && Pow2(0) == 1;
  }

  /** The value below the top bit, in its two parts. */
  lemma LowParts(d: nat, k: nat, n: nat)
    requires k == Bsr(d) && if k == 0 then n == 1 else 1 <= n <= k
    ensures Top2(k) <= d
    ensures var low: nat := d - Top2(k);
      low == Up(Hi(low, n), n) + Lo(low, n) && if k == 0 then Hi(low, n) == 0 else Hi(low, n) < Pow2(k - n)
  {
    BsrBounds(d);
    var low: nat := d - Top2(k);
    Parts(low, n);
    if k == 0 {
      assert Hi(low, 1) == low / 2;
    } else {
      HiFits(low, k - n, n);
    }
  }

  lemma CodeFits(f: Field, v: U32)
    ensures 0 <= Code(f, v).0 < 0x100
  {
    if v >= Small(f) { CodeFitsAt(f, v, v - Small(f), Bsr(v - Small(f))); }
  }

  lemma CodeFitsAt(f: Field, v: U32, d: nat, k: nat)
    requires v >= Small(f) && d == v - Small(f) && k == Bsr(d)
    ensures 0 <= Code(f, v).0 < 0x100
  {
    var (base, n) := Model(f, k);
    BsrOfRegister(d);
    BsrBounds(d);
    ModelFits(f, k, Hi(d - Top2(k), n));
    if n != 0 {
      LowParts(d, k, n);
    } else {
      Pow2Monotone(k + 1, 3);
      assert Pow2(3) == 8;
    }
  }

  /** The raw bits of a value. */
  function Raw(f: Field, v: U32): (x: nat)
    ensures x < Pow2(Model(f, Bsr(if v < Small(f) then 0 else v - Small(f))).1)
  {
    var d: nat := if v < Small(f) then 0 else v - Small(f);
    BsrBounds(d);
    Lo(d - Top2(Bsr(d)), Model(f, Bsr(d)).1)
  }

  /** A byte `i` above the small ones, in a column of `f`, was written for `v`. */
  ghost predicate Tells(f: Field, v: U32, i: nat) {
    var k := Top(f, i); TellsBy(f, v, i, k, Model(f, k).0, Model(f, k).1)
  }

  ghost predicate TellsBy(f: Field, v: U32, i: nat, k: nat, base: nat, n: nat) {
    && n < 32 && base <= i && Raw(f, v) < Pow2(n) && FieldBits(f, v) == Bits(Raw(f, v), n)
    && v == if n == 0 then i + Small(f) else Up(i - base, n) + Top2(k) + Raw(f, v) + Small(f)
  }

  lemma WideTells(f: Field, v: U32, d: nat, k: nat)
    requires v >= Small(f) && d == v - Small(f) && k == Bsr(d) && Model(f, k).1 != 0
    ensures FieldByte(f, v) >= Small(f) && Tells(f, v, FieldByte(f, v) - Small(f))
  {
    var (base, n) := Model(f, k);
    BsrOfRegister(d);
    LowParts(d, k, n);
    var h := Hi(d - Top2(k), n);
    ModelFits(f, k, h);
    WideCode(f, v, d, k);
    TellsOf(f, v, base + h, k, base, n);
  }

  lemma TellsOf(f: Field, v: U32, i: nat, k: nat, base: nat, n: nat)
    requires Top(f, i) == k && Model(f, k) == (base, n) && 0 < n < 32 && base <= i
    requires Raw(f, v) < Pow2(n) && FieldBits(f, v) == Bits(Raw(f, v), n) && v == Up(i - base, n) + Top2(k) + Raw(f, v) + Small(f)
    ensures Tells(f, v, i)
  {
  }

  lemma WideCode(f: Field, v: U32, d: nat, k: nat)
    requires v >= Small(f) && d == v - Small(f) && k == Bsr(d) && Model(f, k).1 != 0
    ensures var (base, n) := Model(f, k);
      && Top2(k) <= d && FieldByte(f, v) == Hi(d - Top2(k), n) + base + Small(f)
      && Raw(f, v) == Lo(d - Top2(k), n) && FieldBits(f, v) == Bits(Raw(f, v), n)
  {
    BsrBounds(d);
  }

  lemma NarrowTells(f: Field, v: U32, d: nat, k: nat)
    requires v >= Small(f) && d == v - Small(f) && k == Bsr(d) && Model(f, k).1 == 0
    ensures FieldByte(f, v) >= Small(f) && Tells(f, v, FieldByte(f, v) - Small(f))
  {
    BsrOfRegister(d);
    BsrBounds(d);
    ModelFits(f, k, 0);
    Pow2Monotone(k + 1, 3);
    assert Pow2(3) == 8 && Bsr(2) == Bsr(3) == 1 && Bsr(4) == Bsr(5) == Bsr(6) == Bsr(7) == 2;
  }

  /** What the byte of a value says: its top bit, and where its raw bits belong. */
  lemma ByteTells(f: Field, v: U32)
    requires v >= Small(f)
    ensures FieldByte(f, v) >= Small(f) && Tells(f, v, FieldByte(f, v) - Small(f))
  {
    var d: nat := v - Small(f);
    if Model(f, Bsr(d)).1 == 0 { NarrowTells(f, v, d, Bsr(d)); } else { WideTells(f, v, d, Bsr(d)); }
  }

  method PutField(f: Field, v: U32, w: RateWriter) returns (b: Byte)
    requires w.Valid()
    modifies w
    ensures w.Valid() && b == FieldByte(f, v) && w.trace == old(w.trace) + FieldBits(f, v)
  {
    CodeFits(f, v);
    if v < Small(f) { return v; }
    var d: nat := v - Small(f);
    var k := Bsr(d);
    var (base, n) := Model(f, k);
    BsrOfRegister(d);
    BsrBounds(d);
    if n == 0 { return v; }
    var low: nat := d - Top2(k);
    w.Put(Lo(low, n), n);
    b := Hi(low, n) + base + Small(f);
  }

  method TakeField(f: Field, b: Byte, r: BitReader, ghost v: U32, ghost later: seq<bool>) returns (x: U32)
    requires r.Valid()
    modifies r
    ensures r.Valid()
    ensures b == FieldByte(f, v) && old(r.Ahead(FieldBits(f, v) + later)) ==> x == v && r.Ahead(later)
  {
    if v >= Small(f) { ByteTells(f, v); }
    if b < Small(f) { return b; }
    x := TakeWide(f, b - Small(f), r, v, later);
  }

  method TakeWide(f: Field, i: nat, r: BitReader, ghost v: U32, ghost later: seq<bool>) returns (x: U32)
    requires r.Valid() && i + Small(f) < 0x100
    modifies r
    ensures r.Valid()
    ensures Tells(f, v, i) && old(r.Ahead(FieldBits(f, v) + later)) ==> x == v && r.Ahead(later)
  {
    var k := Top(f, i);
    var (base, n) := Model(f, k);
    ModelIsSmall(f, i);
    x := TakeBy(f, i, k, base, n, r, v, later);
  }

  method TakeBy(f: Field, i: nat, k: nat, base: nat, n: nat, r: BitReader, ghost v: U32, ghost later: seq<bool>) returns (x: U32)
    requires r.Valid() && i + Small(f) < 0x100 && base <= i && n < 32
    modifies r
    ensures r.Valid()
    ensures TellsBy(f, v, i, k, base, n) && old(r.Ahead(FieldBits(f, v) + later)) ==> x == v && r.Ahead(later)
  {
    if n == 0 {
      assert TellsBy(f, v, i, k, base, n) ==> FieldBits(f, v) + later == later;
      return i + Small(f);
    }
    var extra := r.GetBits(n, Raw(f, v), later);
    x := Wrap32(Up(i - base, n) + Top2(k) + extra + Small(f));
  }

  lemma ModelIsSmall(f: Field, i: nat)
    requires i < 0x100
    ensures var (base, n) := Model(f, Top(f, i)); base <= i && n < 32
  {
  }
}

/** The tokens of a chunk as three columns of bytes and the raw bits beside them, and back. */
module LzTokenBytes {
  import opened Words
  import opened IntCoding
  import opened BitStream
  import opened LiteralRates
  import opened LzTokens
  import opened LzVarint
  import opened LzRuns
  import opened LzFields

  // ---------------------------------------------------------------- the fields of all tokens

  predicate TokenFits(t: Token) {
    t.run < TWO32 && t.sel < TWO32 && t.raw < TWO32
  }

  predicate TokensFit(tokens: seq<Token>) {
    forall i | 0 <= i < |tokens| :: TokenFits(tokens[i])
  }

  function TokenBits(t: Token): seq<bool>
    requires TokenFits(t)
  {
    FieldBits(OfRun, t.run) + (FieldBits(OfPlace, t.sel) + FieldBits(OfLength, t.raw))
  }

  function AllBits(tokens: seq<Token>): seq<bool>
    requires TokensFit(tokens)
  {
    if tokens == [] then [] else TokenBits(tokens[0]) + AllBits(tokens[1..])
  }

  lemma {:induction false} BitsGrow(tokens: seq<Token>, t: Token)
    requires TokensFit(tokens) && TokenFits(t)
    ensures TokensFit(tokens + [t]) && AllBits(tokens + [t]) == AllBits(tokens) + TokenBits(t)
  {
    var all := tokens + [t];
    if tokens == [] {
      assert all[1..] == [] && TokenBits(t) + [] == TokenBits(t);
    } else {
      assert all[0] == tokens[0] && all[1..] == tokens[1..] + [t];
      BitsGrow(tokens[1..], t);
      Cat(TokenBits(tokens[0]), AllBits(tokens[1..]), TokenBits(t));
    }
  }

  /** The columns; the first has one byte more, for the literals behind the last token. */
  datatype Columns = Columns(run: seq<Byte>, place: seq<Byte>, length: seq<Byte>)

  predicate AreColumns(c: Columns, tokens: seq<Token>)
    requires TokensFit(tokens)
  {
    && |c.place| == |c.length| == |tokens| <= |c.run|
    && forall i | 0 <= i < |tokens| ::
      c.run[i] == FieldByte(OfRun, tokens[i].run) && c.place[i] == FieldByte(OfPlace, tokens[i].sel) && c.length[i] == FieldByte(OfLength, tokens[i].raw)
  }

  const RAW_ROOM := 0x2_0000

  method PutFields(tokens: seq<Token>, trailing: U32) returns (c: Columns, raw: seq<Byte>)
    requires TokensFit(tokens)
    ensures AreColumns(c, tokens) && |c.run| == |tokens| + 1
    ensures var bits := AllBits(tokens) + FieldBits(OfRun, trailing);
      |bits| <= 8 * RAW_ROOM ==> Starts(BitsOf(raw), bits) && 8 * |raw| < |bits| + 8
  {
    var w := new RateWriter(RAW_ROOM);
    c := Columns([], [], []);
    for i := 0 to |tokens|
      invariant fresh(w) && w.Valid() && w.room == RAW_ROOM
      invariant AreColumns(c, tokens[..i]) && |c.run| == i && w.trace == AllBits(tokens[..i])
    {
      var t := tokens[i];
      assert tokens[..i + 1] == tokens[..i] + [t];
      BitsGrow(tokens[..i], t);
      var a, b, d := PutToken(t, w);
      c := Columns(c.run + [a], c.place + [b], c.length + [d]);
    }
    assert tokens[..|tokens|] == tokens;
    var last := PutField(OfRun, trailing, w);
    c := c.(run := c.run + [last]);
    raw := w.Flush();
  }

  method PutToken(t: Token, w: RateWriter) returns (a: Byte, b: Byte, c: Byte)
    requires TokenFits(t) && w.Valid()
    modifies w
    ensures w.Valid() && w.trace == old(w.trace) + TokenBits(t)
    ensures a == FieldByte(OfRun, t.run) && b == FieldByte(OfPlace, t.sel) && c == FieldByte(OfLength, t.raw)
  {
    ghost var before := w.trace;
    a := PutField(OfRun, t.run, w);
    b := PutField(OfPlace, t.sel, w);
    c := PutField(OfLength, t.raw, w);
    assert w.trace == before + FieldBits(OfRun, t.run) + FieldBits(OfPlace, t.sel) + FieldBits(OfLength, t.raw);
  }

  /** NzCdTokenAssemble. */
  method TakeFields(n: nat, c: Columns, raw: seq<Byte>, ghost tokens: seq<Token>, ghost later: seq<bool>) returns (out: seq<Token>)
    requires n <= |c.run| && n <= |c.place| && n <= |c.length|
    ensures |out| == n && TokensFit(out)
    ensures TokensFit(tokens) && |tokens| == n && AreColumns(c, tokens) && Starts(BitsOf(raw), AllBits(tokens) + later) ==> out == tokens
  {
    ghost var known := TokensFit(tokens) && |tokens| == n && AreColumns(c, tokens) && Starts(BitsOf(raw), AllBits(tokens) + later);
    var r := new BitReader(raw, if TokensFit(tokens) then AllBits(tokens) + later else []);
    out := [];
    assert tokens[0..] == tokens;
    for i := 0 to n
      invariant fresh(r) && r.Valid() && |out| == i && TokensFit(out)
      invariant known ==> IsTaken(out, tokens, i, r, later)
    {
      var x := TakeNext(c, i, r, out, known, tokens, later);
      out := out + [x];
    }
  }

  /** The first `i` tokens are read, and the bits of the others are ahead. */
  ghost predicate IsTaken(out: seq<Token>, tokens: seq<Token>, i: nat, r: BitReader, later: seq<bool>)
    requires TokensFit(tokens)
    reads r
  {
    i <= |tokens| && out == tokens[..i] && r.Ahead(AllBits(tokens[i..]) + later)
  }

  method TakeNext(c: Columns, i: nat, r: BitReader, ghost out: seq<Token>, ghost known: bool, ghost tokens: seq<Token>, ghost later: seq<bool>)
    returns (x: Token)
    requires r.Valid() && i < |c.run| && i < |c.place| && i < |c.length|
    requires known ==> TokensFit(tokens) && AreColumns(c, tokens) && i < |tokens| && IsTaken(out, tokens, i, r, later)
    modifies r
    ensures r.Valid() && TokenFits(x) && (known ==> IsTaken(out + [x], tokens, i + 1, r, later))
  {
    ghost var t := if known then tokens[i] else Token(0, 0, 0);
    ghost var rest := if known then AllBits(tokens[i + 1..]) + later else [];
    if known { NextToken(tokens, i, later); }
    x := TakeToken(c.run[i], c.place[i], c.length[i], r, t, rest);
  }

  lemma NextToken(tokens: seq<Token>, i: nat, later: seq<bool>)
    requires TokensFit(tokens) && i < |tokens|
    ensures AllBits(tokens[i..]) + later == TokenBits(tokens[i]) + (AllBits(tokens[i + 1..]) + later)
  {
    assert tokens[i..][0] == tokens[i] && tokens[i..][1..] == tokens[i + 1..];
    Cat(TokenBits(tokens[i]), AllBits(tokens[i + 1..]), later);
  }

  method TakeToken(a: Byte, b: Byte, c: Byte, r: BitReader, ghost t: Token, ghost later: seq<bool>) returns (x: Token)
    requires r.Valid() && TokenFits(t)
    modifies r
    ensures r.Valid() && TokenFits(x)
    ensures a == FieldByte(OfRun, t.run) && b == FieldByte(OfPlace, t.sel) && c == FieldByte(OfLength, t.raw) && old(r.Ahead(TokenBits(t) + later))
      ==> x == t && r.Ahead(later)
  {
    ghost var p, l := FieldBits(OfPlace, t.sel), FieldBits(OfLength, t.raw);
    Cat(FieldBits(OfRun, t.run), p + l, later);
    Cat(p, l, later);
    var run := TakeField(OfRun, a, r, t.run, p + (l + later));
    var sel := TakeField(OfPlace, b, r, t.sel, l + later);
    var len := TakeField(OfLength, c, r, t.raw, later);
    x := Token(run, sel, len);
  }

  // ---------------------------------------------------------------- one column

  const SIDE_ROOM := 0x7f

  /** A column as it is, or its packed form behind the run lengths. */
  ghost predicate IsColumn(piece: seq<Byte>, col: seq<Byte>, thr: nat) {
    piece == [0] + col || exists side :: IsPackedColumn(piece, col, thr, side)
  }

  ghost predicate IsPackedColumn(piece: seq<Byte>, col: seq<Byte>, thr: nat, side: seq<Byte>) {
    var p := Packed(0, col, thr);
    && 1 <= |side| < SIDE_ROOM && Starts(BitsOf(side), p.bits)
    && piece == [2 * |side|] + (side + (Varint(0x8000, |p.bytes|) + p.bytes))
  }

  /** Packing pays: the run lengths fit their buffer, and with what stands in front all is shorter than the column. */
  predicate PackingPays(col: seq<Byte>, thr: nat) {
    var p, side := Packed(0, col, thr), (|Packed(0, col, thr).bits| + 7) / 8;
    1 <= side < SIDE_ROOM && p.bytes != [] && side + 8 + |p.bytes| + |col| / 0x80 < |col|
  }

  /** CodeColumn, where the arithmetic coder does not make the bytes fewer: packed if and only if that pays. */
  method CodeColumn(col: seq<Byte>, thr: nat) returns (piece: seq<Byte>)
    requires |col| < 0x8000
    ensures IsColumn(piece, col, thr) && |piece| <= |col| + 1
    ensures if PackingPays(col, thr) then exists side :: IsPackedColumn(piece, col, thr, side) && |piece| < |col| else piece == [0] + col
  {
    var w := new RateWriter(SIDE_ROOM);
    var packed := ColumnRle(col, thr, w);
    var side := w.Flush();
    var m, n := |packed|, |col|;
    SideIs(|w.trace|, |side|, w.full);
    if w.full || |side| >= SIDE_ROOM { m := 0; }
    if |side| + 8 + m + n / 0x80 < n && m != 0 && |side| != 0 {
      var tail := PutVar([], 0x8000, m);
      VarintIsShort(0x8000, m);
      piece := [2 * |side|] + (side + (tail + packed));
      assert IsPackedColumn(piece, col, thr, side);
      return;
    }
    piece := [0] + col;
  }

  /** How long the run lengths are, by how many bits they take. */
  lemma SideIs(bits: nat, side: nat, full: bool)
    requires side <= SIDE_ROOM && (bits <= 8 * SIDE_ROOM ==> 8 * side < bits + 8 && bits <= 8 * side)
    requires (!full && side < SIDE_ROOM ==> bits <= 8 * SIDE_ROOM) && (full ==> bits > 8 * SIDE_ROOM)
    ensures !full && side < SIDE_ROOM <==> (bits + 7) / 8 < SIDE_ROOM
    ensures !full && side < SIDE_ROOM ==> side == (bits + 7) / 8
  {
  }

  lemma VarintIsShort(limit: nat, v: nat)
    requires 0x7fff <= limit <= 0x8000
    ensures |Varint(limit, v)| <= 2
  {
    if v >= 0x80 { assert |Varint(Next(limit), v / 0x80)| == 1; }
  }

  /** A number that the limits of writer and reader agree about. */
  method TakeVar(data: seq<Byte>, at: nat, limit: U32, ghost l: nat, ghost v: nat, ghost rest: seq<Byte>) returns (x: U32, next: nat)
    requires at <= |data|
    ensures next <= |data|
    ensures v < TWO32 && data[at..] == Varint(l, v) + rest && Taken(limit, Varint(l, v) + rest) == (v, |Varint(l, v)|)
      ==> x == v && data[next..] == rest
  {
    var overrun;
    x, next, overrun := ReadVar(data, at, limit);
  }

  /** A column of `n` bytes; `limit` is the length of the chunk. */
  method TakeColumn(data: seq<Byte>, at: nat, n: nat, thr: nat, limit: U32, ghost piece: seq<Byte>, ghost col: seq<Byte>, ghost rest: seq<Byte>)
    returns (ok: bool, out: seq<Byte>, next: nat)
    requires at <= |data|
    ensures next <= |data| && |out| <= n + 0x100
    ensures IsColumn(piece, col, thr) && data[at..] == piece + rest && |col| == n < 0x8000 && limit <= 0x8000 && (n < 0x80 || limit >= 0x101)
      ==> ok && out == col && data[next..] == rest
  {
    ghost var known := IsColumn(piece, col, thr) && data[at..] == piece + rest && |col| == n < 0x8000 && limit <= 0x8000 && (n < 0x80 || limit >= 0x101);
    ok, out, next := false, [], |data|;
    var b: Byte := At(data, at);
    if b % 2 == 1 { return; }
    var size, i := b / 2, if at < |data| then at + 1 else at;
    if size == 0 {
      if |data| - i < n { return; }
      ok, out, next := true, data[i..i + n], i + n;
      if known { RawColumn(data, at, piece, col, rest, thr); }
      return;
    }
    if size > |data| - i { return; }
    if known { SideFirst(data, at, piece, col, rest, thr, limit); }
    ok, out, next := TakePacked(data, i, size, n, thr, limit, col, rest);
  }

  /** The side bits at `i` and the packed form behind them. */
  ghost predicate IsSide(data: seq<Byte>, i: nat, size: nat, thr: nat, limit: nat, col: seq<Byte>, rest: seq<Byte>)
    requires i + size <= |data|
  {
    var p := Packed(0, col, thr);
    && Starts(BitsOf(data[i..i + size]), p.bits) && |p.bytes| <= |col| && data[i + size..] == Varint(0x8000, |p.bytes|) + (p.bytes + rest)
    && Taken(limit, Varint(0x8000, |p.bytes|) + (p.bytes + rest)) == (|p.bytes|, |Varint(0x8000, |p.bytes|)|)
  }

  method TakePacked(data: seq<Byte>, i: nat, size: nat, n: nat, thr: nat, limit: U32, ghost col: seq<Byte>, ghost rest: seq<Byte>)
    returns (ok: bool, out: seq<Byte>, next: nat)
    requires i + size <= |data|
    ensures next <= |data| && |out| <= n + 0x100
    ensures |col| == n < 0x8000 && IsSide(data, i, size, thr, limit, col, rest) ==> ok && out == col && data[next..] == rest
  {
    ghost var p := Packed(0, col, thr);
    ghost var known := |col| == n < 0x8000 && IsSide(data, i, size, thr, limit, col, rest);
    ok, out, next := false, [], |data|;
    var count, j := TakeVar(data, i + size, limit, 0x8000, |p.bytes|, p.bytes + rest);
    if known { Divided(data, j, p.bytes, rest); }
    if count > 0x1_0000 || |data| - j < count { return; }
    var r := new BitReader(data[i..i + size], p.bits + []);
    assert p.bits + [] == p.bits;
    out := RleExpand(data[j..j + count], n + 0x100, thr, r, col, []);
    ok, next := true, j + count;
  }

  lemma Divided(data: seq<Byte>, j: nat, bytes: seq<Byte>, rest: seq<Byte>)
    requires j <= |data| && data[j..] == bytes + rest
    ensures j + |bytes| <= |data| && data[j..j + |bytes|] == bytes && data[j + |bytes|..] == rest
  {
    assert data[j..][..|bytes|] == bytes && data[j..][|bytes|..] == rest;
  }

  lemma RawColumn(data: seq<Byte>, at: nat, piece: seq<Byte>, col: seq<Byte>, rest: seq<Byte>, thr: nat)
    requires at <= |data| && IsColumn(piece, col, thr) && data[at..] == piece + rest && At(data, at) < 2
    ensures at < |data| && at + 1 + |col| <= |data| && data[at + 1..at + 1 + |col|] == col && data[at + 1 + |col|..] == rest
  {
    assert data[at] == piece[0];
    assert piece == [0] + col;
    assert data[at..][1..] == col + rest;
  }

  lemma SideFirst(data: seq<Byte>, at: nat, piece: seq<Byte>, col: seq<Byte>, rest: seq<Byte>, thr: nat, limit: nat)
    requires at <= |data| && IsColumn(piece, col, thr) && data[at..] == piece + rest && At(data, at) >= 2
    requires |col| < 0x8000 && limit <= 0x8000 && (|col| < 0x80 || limit >= 0x101)
    ensures var size := At(data, at) / 2;
      at < |data| && at + 1 + size <= |data| && IsSide(data, at + 1, size, thr, limit, col, rest)
  {
    assert data[at] == piece[0];
    var side :| IsPackedColumn(piece, col, thr, side);
    SideOf(data, at, piece, col, rest, thr, limit, side);
  }

  lemma SideOf(data: seq<Byte>, at: nat, piece: seq<Byte>, col: seq<Byte>, rest: seq<Byte>, thr: nat, limit: nat, side: seq<Byte>)
    requires at <= |data| && IsPackedColumn(piece, col, thr, side) && data[at..] == piece + rest
    requires |col| < 0x8000 && limit <= 0x8000 && (|col| < 0x80 || limit >= 0x101)
    ensures at + 1 + |side| <= |data| && At(data, at) == 2 * |side| && IsSide(data, at + 1, |side|, thr, limit, col, rest)
  {
    var p := Packed(0, col, thr);
    var v := Varint(0x8000, |p.bytes|);
    PackedIsShort(0, col, thr);
    ShortLimit(0x8000, limit, |p.bytes|, p.bytes + rest);
    SideBehind(data, at, piece, side, v + p.bytes, rest);
    Cat(v, p.bytes, rest);
  }

  lemma SideBehind(data: seq<Byte>, at: nat, piece: seq<Byte>, side: seq<Byte>, body: seq<Byte>, rest: seq<Byte>)
    requires at <= |data| && data[at..] == piece + rest && |side| < 0x80 && piece == [2 * |side|] + (side + body)
    ensures at < |data| && data[at] == 2 * |side| && at + 1 + |side| <= |data|
    ensures data[at + 1..at + 1 + |side|] == side && data[at + 1 + |side|..] == body + rest
  {
    Cat(side, body, rest);
    assert data[at] == data[at..][0] && data[at..][1..] == side + (body + rest);
    Divided(data, at + 1, side, body + rest);
  }

  // ---------------------------------------------------------------- the section of a chunk

  /** A section: the columns as they are sent, and the raw bits. */
  datatype Sent = Sent(run: seq<Byte>, length: seq<Byte>, place: seq<Byte>, raw: seq<Byte>)

  /** The columns behind the number of tokens, `rest` behind them. */
  function ColumnBytes(p: Sent, rest: seq<Byte>): seq<Byte> {
    Varint(0x8000, |p.run|) + (p.run + (Varint(0x8000, |p.length|) + (p.length + (Varint(0x8000, |p.place|) + (p.place + rest)))))
  }

  function Section(n: nat, p: Sent, rest: seq<Byte>): seq<Byte> {
    Varint(0x7fff, n) + ColumnBytes(p, Varint(RAW_ROOM, |p.raw|) + (p.raw + rest))
  }

  ghost predicate AreColumnsSent(p: Sent, c: Columns, n: nat) {
    && IsColumn(p.run, c.run, 0) && IsColumn(p.length, c.length, 1) && IsColumn(p.place, c.place, 0)
    && |c.run| == n + 1 && |c.length| == |c.place| == n
  }

  /** What is sent stands for the tokens. */
  ghost predicate AreSent(p: Sent, c: Columns, tokens: seq<Token>, later: seq<bool>)
    requires TokensFit(tokens)
  {
    && AreColumns(c, tokens) && AreColumnsSent(p, c, |tokens|)
    && |p.run| <= |c.run| + 1 && |p.length| <= |tokens| + 1 && |p.place| <= |tokens| + 1
    && Starts(BitsOf(p.raw), AllBits(tokens) + later)
  }

  /** WriteColumns: there is at least one token. */
  method PutSection(tokens: seq<Token>, trailing: U32) returns (out: seq<Byte>, ghost p: Sent, ghost c: Columns)
    requires TokensFit(tokens) && 0 < |tokens| <= 0x4000
    ensures out == Section(|tokens|, p, [])
    ensures var bits := AllBits(tokens) + FieldBits(OfRun, trailing);
      |bits| <= 8 * RAW_ROOM ==> AreSent(p, c, tokens, FieldBits(OfRun, trailing)) && 8 * |p.raw| < |bits| + 8
  {
    var cs, raw := PutFields(tokens, trailing);
    var run := CodeColumn(cs.run, 0);
    var length := CodeColumn(cs.length, 1);
    var place := CodeColumn(cs.place, 0);
    p, c := Sent(run, length, place, raw), cs;
    out := JoinSent(|tokens|, Sent(run, length, place, raw));
  }

  method JoinSent(n: nat, p: Sent) returns (out: seq<Byte>)
    ensures out == Section(n, p, [])
  {
    out := PutVar([], 0x7fff, n);
    out := PutVar(out, 0x8000, |p.run|);
    out := PutVar(out + p.run, 0x8000, |p.length|);
    out := PutVar(out + p.length, 0x8000, |p.place|);
    out := PutVar(out + p.place, RAW_ROOM, |p.raw|);
    out := out + p.raw;
    SectionJoined(n, p, out);
  }

  lemma SectionJoined(n: nat, p: Sent, out: seq<Byte>)
    requires out == Varint(0x7fff, n) + Varint(0x8000, |p.run|) + p.run + Varint(0x8000, |p.length|) + p.length
      + Varint(0x8000, |p.place|) + p.place + Varint(RAW_ROOM, |p.raw|) + p.raw
    ensures out == Section(n, p, [])
  {
    assert p.raw + [] == p.raw;
  }

  /** Where the limits of the writer and those of the reader, who has the chunk's length, say the same. */
  predicate Agreed(n: nat, p: Sent, size: nat) {
    && size <= 0x8000 && n < 0x7fff && |p.run| < 0x8000 && |p.length| < 0x8000 && |p.place| < 0x8000 && |p.raw| < 0x8_0000
    && (n < 0x80 || size >= 0x102) && (n + 1 < 0x80 || size >= 0x101)
    && (|p.run| < 0x80 || size >= 0x101) && (|p.length| < 0x80 || size >= 0x101) && (|p.place| < 0x80 || size >= 0x101)
    && (|p.raw| < 0x80 || (|p.raw| < 0x4000 && size >= 0x41) || size > 0x2000)
  }

  /** How many bytes the next column takes is not needed; then the column. */
  method TakeCounted(data: seq<Byte>, at: nat, n: nat, thr: nat, size: U32, ghost piece: seq<Byte>, ghost col: seq<Byte>, ghost rest: seq<Byte>)
    returns (ok: bool, out: seq<Byte>, next: nat)
    requires at <= |data|
    ensures next <= |data|
    ensures IsColumn(piece, col, thr) && |col| == n < 0x8000 && |piece| < 0x8000 && size <= 0x8000
      && (|piece| < 0x80 || size >= 0x101) && (n < 0x80 || size >= 0x101) && data[at..] == Varint(0x8000, |piece|) + (piece + rest)
      ==> ok && out == col && data[next..] == rest
  {
    if |piece| < 0x8000 && size <= 0x8000 { ShortLimit(0x8000, size, |piece|, piece + rest); }
    var _, i := TakeVar(data, at, size, 0x8000, |piece|, piece + rest);
    ok, out, next := TakeColumn(data, i, n, thr, size, piece, col, rest);
  }

  method TakeColumns(data: seq<Byte>, at: nat, n: nat, size: U32, ghost p: Sent, ghost c: Columns, ghost rest: seq<Byte>)
    returns (ok: bool, out: Columns, next: nat)
    requires at <= |data|
    ensures next <= |data|
    ensures AreColumnsSent(p, c, n) && Agreed(n, p, size) && data[at..] == ColumnBytes(p, rest) ==> ok && out == c && data[next..] == rest
  {
    ghost var r3 := Varint(0x8000, |p.place|) + (p.place + rest);
    ghost var r2 := Varint(0x8000, |p.length|) + (p.length + r3);
    var ok1, run, i := TakeCounted(data, at, n + 1, 0, size, p.run, c.run, r2);
    var ok2, length, j := TakeCounted(data, i, n, 1, size, p.length, c.length, r3);
    var ok3, place, k := TakeCounted(data, j, n, 0, size, p.place, c.place, rest);
    ok, out, next := ok1 && ok2 && ok3, Columns(run, place, length), k;
  }

  /** The reader's side of a section; `size` is the chunk's length. */
  method TakeSection(data: seq<Byte>, at: nat, size: nat, ghost tokens: seq<Token>, ghost p: Sent, ghost c: Columns, ghost later: seq<bool>, ghost rest: seq<Byte>)
    returns (ok: bool, out: seq<Token>, next: nat)
    requires at <= |data| && 0 < size < TWO32 / 4
    ensures next <= |data| && TokensFit(out)
    ensures TokensFit(tokens) && AreSent(p, c, tokens, later) && Agreed(|tokens|, p, size) && data[at..] == Section(|tokens|, p, rest)
      ==> ok && out == tokens && data[next..] == rest
  {
    ghost var raw := Varint(RAW_ROOM, |p.raw|) + (p.raw + rest);
    ghost var known := TokensFit(tokens) && AreSent(p, c, tokens, later) && Agreed(|tokens|, p, size) && data[at..] == Section(|tokens|, p, rest);
    if known { LimitsAgree(|tokens|, p, size, ColumnBytes(p, raw), p.raw + rest); }
    ok, out, next := false, [], |data|;
    var n, i := TakeVar(data, at, size - 1, 0x7fff, |tokens|, ColumnBytes(p, raw));
    var all, cols, j := TakeColumns(data, i, n, size, p, c, raw);
    if !all { return; }
    ok, out, next := TakeRaw(data, j, n, size, cols, tokens, p.raw, later, rest);
  }

  /** The raw bits, and the tokens. */
  method TakeRaw(data: seq<Byte>, at: nat, n: nat, size: nat, c: Columns, ghost tokens: seq<Token>, ghost raw: seq<Byte>, ghost later: seq<bool>, ghost rest: seq<Byte>)
    returns (ok: bool, out: seq<Token>, next: nat)
    requires at <= |data| && 0 < size < TWO32 / 4
    ensures next <= |data| && TokensFit(out)
    ensures TokensFit(tokens) && |tokens| == n && AreColumns(c, tokens) && Starts(BitsOf(raw), AllBits(tokens) + later) && |raw| < 0x8_0000
      && data[at..] == Varint(RAW_ROOM, |raw|) + (raw + rest) && Taken(4 * size, Varint(RAW_ROOM, |raw|) + (raw + rest)) == (|raw|, |Varint(RAW_ROOM, |raw|)|)
      ==> ok && out == tokens && data[next..] == rest
  {
    ok, out, next := false, [], |data|;
    var count, k := TakeVar(data, at, 4 * size, RAW_ROOM, |raw|, raw + rest);
    if data[k..] == raw + rest { Divided(data, k, raw, rest); }
    if count > |data| - k || |c.run| < n || |c.length| < n || |c.place| < n { return; }
    out := TakeFields(n, c, data[k..k + count], tokens, later);
    ok, next := true, k + count;
  }

  lemma LimitsAgree(n: nat, p: Sent, size: nat, columns: seq<Byte>, raw: seq<Byte>)
    requires Agreed(n, p, size) && size > 0
    ensures Taken(size - 1, Varint(0x7fff, n) + columns) == (n, |Varint(0x7fff, n)|)
    ensures Taken(4 * size, Varint(RAW_ROOM, |p.raw|) + raw) == (|p.raw|, |Varint(RAW_ROOM, |p.raw|)|)
  {
    ShortLimit(0x7fff, size - 1, n, columns);
    LongLimit(4 * size, |p.raw|, raw);
  }

  // ---------------------------------------------------------------- the tokens of a chunk

  /** The bytes a token is about. */
  function Span(t: Token): nat {
    t.run + LzTokens.Length(t, if t.sel >= 4 then t.sel - 3 else 0)
  }

  function Spans(tokens: seq<Token>): nat {
    if tokens == [] then 0 else Span(tokens[0]) + Spans(tokens[1..])
  }

  lemma FieldIsNarrow(f: Field, v: U32)
    ensures |FieldBits(f, v)| <= 31 && |FieldBits(f, v)| <= v && (v < 4 ==> FieldBits(f, v) == [])
  {
    if v >= Small(f) {
      var d: nat := v - Small(f);
      BsrOfRegister(d);
      BsrIsLess(d);
    }
  }

  /** A token never has more raw bits than the bytes it is about have bits. */
  lemma TokenIsNarrow(t: Token)
    requires TokenFits(t)
    ensures |TokenBits(t)| <= 8 * Span(t) && Span(t) >= 2
  {
    FieldIsNarrow(OfRun, t.run);
    FieldIsNarrow(OfPlace, t.sel);
    FieldIsNarrow(OfLength, t.raw);
  }

  lemma {:induction false} TokensAreNarrow(tokens: seq<Token>)
    requires TokensFit(tokens)
    ensures |AllBits(tokens)| <= 8 * Spans(tokens) && 2 * |tokens| <= Spans(tokens)
  {
    if tokens != [] {
      TokenIsNarrow(tokens[0]);
      TokensAreNarrow(tokens[1..]);
    }
  }

  /** The tokens of a chunk are about no more than its bytes, and their numbers fit 32 bits. */
  lemma {:induction false} RunIsSpanned(r: Replay, steps: seq<Step>, end: nat)
    requires IsRun(r, steps, end) && |r.rep| == 4 && |r.ring| < TWO32 / 4 && r.at <= end <= |r.ring|
    ensures r.at + Spans(Tokens(steps)) == Reached(r, steps, end).at && TokensFit(Tokens(steps))
    decreases |steps|
  {
    if steps != [] {
      RunIsSpanned(After(r, steps[0], end), steps[1..], end);
      var t := Tokens(steps);
      assert t[0] == steps[0].token && t[1..] == Tokens(steps[1..]);
      forall i | 0 <= i < |t| ensures TokenFits(t[i]) {
        if i > 0 { assert t[i] == t[1..][i - 1]; }
      }
    }
  }

  /** Whatever chunk the tokens were made for. */
  lemma ChunkIsSpanned(ring: seq<Byte>, at: nat, chunk: seq<Byte>, tokens: seq<Token>, lits: seq<Byte>)
    requires IsChunk(ring, at, chunk, tokens, lits) && |ring| < TWO32 / 4
    ensures TokensFit(tokens) && Spans(tokens) <= |chunk|
  {
    var steps, rest :| IsChunkBy(ring, at, chunk, tokens, lits, steps, rest);
    RunIsSpanned(Replay(ring, at, ONES), steps, at + |chunk|);
  }

  /** For the tokens of a chunk all limits agree. */
  lemma ChunkAgrees(tokens: seq<Token>, p: Sent, c: Columns, size: nat, trailing: U32)
    requires TokensFit(tokens) && 0x100 <= size <= 0x8000 && Spans(tokens) + trailing <= size && (size >= 0x102 || |tokens| <= 125)
    requires AreSent(p, c, tokens, FieldBits(OfRun, trailing)) && 8 * |p.raw| < |AllBits(tokens) + FieldBits(OfRun, trailing)| + 8
    ensures Agreed(|tokens|, p, size)
  {
    TokensAreNarrow(tokens);
    FieldIsNarrow(OfRun, trailing);
  }

  /**
   The tokens of a chunk, and the literals behind the last one, as bytes and back, whatever follows. In
   chunks of 256 and 257 bytes the reader takes some numbers above 127 for one byte; a chunk of any other
   length comes back without a condition.
   */
  method SectionRoundTrip(tokens: seq<Token>, trailing: U32, size: nat, rest: seq<Byte>)
    returns (bytes: seq<Byte>, ok: bool, back: seq<Token>, next: nat)
    requires TokensFit(tokens) && tokens != [] && 0x100 <= size <= 0x8000 && Spans(tokens) + trailing <= size
    ensures size >= 0x102 || |tokens| <= 125 ==> ok && back == tokens && next == |bytes|
  {
    TokensAreNarrow(tokens);
    FieldIsNarrow(OfRun, trailing);
    ghost var p: Sent, c: Columns;
    bytes, p, c := PutSection(tokens, trailing);
    ghost var good := size >= 0x102 || |tokens| <= 125;
    if good { ChunkAgrees(tokens, p, c, size, trailing); }
    SectionEnds(|tokens|, p, rest);
    ok, back, next := TakeSection(bytes + rest, 0, size, tokens, p, c, FieldBits(OfRun, trailing), rest);
    if good { EndsAt(bytes, rest, next); }
  }

  lemma EndsAt(a: seq<Byte>, b: seq<Byte>, n: nat)
    requires n <= |a + b| && (a + b)[n..] == b
    ensures n == |a|
  {
  }

  lemma SectionEnds(n: nat, p: Sent, rest: seq<Byte>)
    ensures Section(n, p, []) + rest == Section(n, p, rest) && (Section(n, p, []) + rest)[0..] == Section(n, p, rest)
  {
    assert p.raw + [] == p.raw;
    assert Varint(RAW_ROOM, |p.raw|) + p.raw + rest == Varint(RAW_ROOM, |p.raw|) + (p.raw + rest);
    ColumnsEnd(p, Varint(RAW_ROOM, |p.raw|) + p.raw, rest);
  }

  lemma ColumnsEnd(p: Sent, a: seq<Byte>, rest: seq<Byte>)
    ensures ColumnBytes(p, a) + rest == ColumnBytes(p, a + rest)
  {
  }
}
