/**
 The symbols a bucket uses, in the order they first appear: each one as its index in an alphabet
 that shrinks as it is used up (ReadSomeValue, WriteSomeValue, FillUp).
 */
module SymbolSet {
  import opened Words
  import opened Permutations
  import opened RangeCoder
  import opened IntCoding
  import opened BitStream

  // ---------------------------------------------------------------- an index below n

  /** The part of `n` above its highest power of two, and that power's exponent. */
  function Odd(n: nat): (r: (nat, nat))
    requires n >= 2
    ensures 1 <= r.0 <= Pow2(r.1) && n == Pow2(r.1) + r.0
  {
    BsrBounds(n - 1);
    (n - Pow2(Bsr(n - 1)), Bsr(n - 1))
  }

  /** The odds of an index lying in the upper part. */
  function Share(rest: nat, nb: nat): Prob
    requires rest < Pow2(nb) && nb <= 15
  {
    ShareFits(rest, nb);
    Up(rest, 15 - nb) / 16
  }

  lemma ShareFits(rest: nat, nb: nat)
    requires rest < Pow2(nb) && nb <= 15
    ensures Up(rest, 15 - nb) < 0x8000
  {
    PairFits(rest, nb, 0, 15 - nb);
    Powers15();
  }

  lemma OddFits(n: nat)
    requires 2 <= n <= 0x8000
    ensures Odd(n).1 <= 14
  {
    var nb := Odd(n).1;
    Powers15();
    if nb >= 15 { Pow2Monotone(15, nb); }
  }

  lemma Powers15()
    ensures Pow2(15) == 0x8000
  {
    assert Pow2(7) == 0x80;
  }

  /** The decisions for the index `v` of `n`. */
  function SomeCode(v: nat, n: nat): seq<Decision>
    requires v < n <= 0x8000
    decreases n, v
  {
    if n == 1 then []
    else
      var (rest, nb) := Odd(n);
      OddFits(n);
      if rest == Pow2(nb) then Raw(v, nb + 1)
      else if v >= Pow2(nb) then [Decision(true, Share(rest, nb))] + SomeCode(v - Pow2(nb), rest)
      else [Decision(false, Share(rest, nb))] + Raw(v, nb)
  }

  method WriteSome(enc: Encoder, value: nat, size: nat)
    requires enc.Valid() && value < size <= 0x8000
    modifies enc
    ensures enc.Valid() && enc.trace == old(enc.trace) + SomeCode(value, size)
  {
    var sum: nat, n: nat := 0, size;
    ghost var total := enc.trace + SomeCode(value, size);
    while n != 1
      invariant enc.Valid() && sum <= value && value - sum < n <= size
      invariant enc.trace + SomeCode(value - sum, n) == total
      decreases n
    {
      var (rest, nb) := Odd(n);
      OddFits(n);
      var left := value - sum;
      if rest == Pow2(nb) {
        WriteRaw(enc, left, nb + 1);
        return;
      }
      CodeFromFlag(left, n, rest, nb);
      var flag, p := left >= Pow2(nb), Share(rest, nb);
      Cat(enc.trace, [Decision(flag, p)], Behind(left, rest, nb));
      enc.Encode(flag, p);
      assert enc.trace + Behind(left, rest, nb) == total;
      if !flag {
        WriteRaw(enc, left, nb);
        return;
      }
      sum, n := sum + Pow2(nb), rest;
      assert value - sum == left - Pow2(nb);
    }
  }

  ghost function Behind(v: nat, rest: nat, nb: nat): seq<Decision>
    requires rest < Pow2(nb) <= 0x8000 && v < Pow2(nb) + rest
  {
    if v >= Pow2(nb) then SomeCode(v - Pow2(nb), rest) else Raw(v, nb)
  }

  lemma CodeFromFlag(v: nat, n: nat, rest: nat, nb: nat)
    requires v < n <= 0x8000 && n >= 2 && (rest, nb) == Odd(n) && rest < Pow2(nb)
    ensures nb <= 15 && Pow2(nb) <= 0x8000
    ensures SomeCode(v, n) == [Decision(v >= Pow2(nb), Share(rest, nb))] + Behind(v, rest, nb)
  {
    OddFits(n);
    Powers15();
    Pow2Monotone(nb, 15);
  }

  method ReadSome(dec: Decoder, size: nat, ghost v: nat, ghost later: seq<Decision>) returns (x: nat)
    requires dec.Valid() && 1 <= size <= 0x8000
    modifies dec
    ensures dec.Valid() && x < size
    ensures v < size && old(dec.Ahead(SomeCode(v, size) + later)) ==> x == v && dec.Ahead(later)
  {
    ghost var coded := v < size && dec.Ahead(SomeCode(v, size) + later);
    var n: nat := size;
    x := 0;
    while n != 1
      invariant dec.Valid() && 1 <= n && x + n <= size
      invariant coded ==> x <= v && v - x < n && dec.Ahead(SomeCode(v - x, n) + later)
      decreases n
    {
      var (rest, nb) := Odd(n);
      OddFits(n);
      ghost var left := if coded then v - x else 0;
      if rest == Pow2(nb) {
        var low := ReadIndex(dec, nb + 1, left, later);
        x := x + low;
        return;
      }
      if coded {
        CodeFromFlag(left, n, rest, nb);
        Cat([Decision(left >= Pow2(nb), Share(rest, nb))], Behind(left, rest, nb), later);
      }
      var flag := dec.Read(Share(rest, nb));
      assert coded ==> flag == (left >= Pow2(nb)) && dec.Ahead(Behind(left, rest, nb) + later);
      if !flag {
        var low := ReadIndex(dec, nb, left, later);
        x := x + low;
        return;
      }
      x, n := x + Pow2(nb), rest;
    }
    assert coded ==> SomeCode(v - x, n) + later == later;
  }

  method ReadIndex(dec: Decoder, bits: nat, ghost v: nat, ghost later: seq<Decision>) returns (x: nat)
    requires dec.Valid()
    modifies dec
    ensures dec.Valid() && x < Pow2(bits)
    ensures v < Pow2(bits) && old(dec.Ahead(Raw(v, bits) + later)) ==> x == v && dec.Ahead(later)
  {
    x := ReadRaw(dec, 0, bits, v, later);
    if v < Pow2(bits) { JoinIs(0, v, bits); }
  }

  // ---------------------------------------------------------------- the set

  /** How many indices there are: the symbols left, and the mark that ends the list. */
  function Choices(end: nat): nat {
    if end == 256 then 256 else end + 1
  }

  /** `syms` are different symbols of the first `end` of the alphabet. */
  ghost predicate IsAmong(alphabet: seq<Byte>, end: nat, syms: seq<Byte>) {
    && |alphabet| == 256 && end <= 256 && Distinct(alphabet[..end]) && Distinct(syms)
    && forall s :: s in syms ==> s in alphabet[..end]
  }

  /** `IsAmong`, out of sight until `Look(Codes, 0)`. */
  ghost predicate Among(alphabet: seq<Byte>, end: nat, syms: seq<Byte>) {
    |alphabet| == 256 && end <= 256 && forall z {:trigger Look(Codes, z)} :: Look(Codes, z) ==> IsAmong(alphabet, end, syms)
  }

  function IndexOf(alphabet: seq<Byte>, s: Byte, from: nat): (i: nat)
    requires from <= |alphabet| && s in alphabet[from..]
    ensures from <= i < |alphabet| && alphabet[i] == s
    ensures forall j :: from <= j < i ==> alphabet[j] != s
    decreases |alphabet| - from
  {
    if alphabet[from] == s then from else IndexOf(alphabet, s, from + 1)
  }

  /** The alphabet without its entry `i`: the last one takes its place. */
  function Drop(alphabet: seq<Byte>, end: nat, i: nat): (r: seq<Byte>)
    requires |alphabet| == 256 && i < end <= 256
  {
    alphabet[i := alphabet[end - 1]]
  }

  lemma DropKeeps(alphabet: seq<Byte>, end: nat, syms: seq<Byte>)
    requires Among(alphabet, end, syms) && syms != []
    ensures syms[0] in alphabet && IndexOf(alphabet, syms[0], 0) < end
    ensures Among(Drop(alphabet, end, IndexOf(alphabet, syms[0], 0)), end - 1, syms[1..])
  {
    assert Look(Codes, 0);
    var a := alphabet[..end];
    assert syms[0] in a;
    var k :| 0 <= k < end && a[k] == syms[0];
    var i := IndexOf(alphabet, syms[0], 0);
    assert i <= k;
    var b := Drop(alphabet, end, i)[..end - 1];
    forall x, y | 0 <= x < y < |b| ensures b[x] != b[y] {
      assert b[x] == a[if x == i then end - 1 else x] && b[y] == a[if y == i then end - 1 else y];
    }
    forall s | s in syms[1..] ensures s in b {
      assert s in a && s != syms[0];
      var j :| 0 <= j < end && a[j] == s;
      assert b[if j == end - 1 then i else j] == s;
    }
  }

  /** The list of indices; the mark at its end is left out where the reader knows the list is over. */
  function SetCode(alphabet: seq<Byte>, end: nat, left: nat, syms: seq<Byte>): seq<Decision>
    requires Among(alphabet, end, syms) && |syms| <= left && (syms == [] ==> end < 256)
    decreases |syms|
  {
    if syms == [] then
      if end != 0 && left != 0 then SomeCode(end, end + 1) else []
    else
      DropKeeps(alphabet, end, syms);
      var i := IndexOf(alphabet, syms[0], 0);
      SomeCode(i, Choices(end)) + SetCode(Drop(alphabet, end, i), end - 1, left - 1, syms[1..])
  }

  function Identity(): (p: seq<Byte>)
    ensures |p| == 256 && forall i :: 0 <= i < 256 ==> p[i] == i
  {
    seq(256, i requires 0 <= i < 256 => i)
  }

  lemma AmongAll(syms: seq<Byte>)
    requires Distinct(syms)
    ensures Among(Identity(), 256, syms)
  {
    forall s | s in syms ensures s in Identity()[..256] {
      assert Identity()[..256][s] == s;
    }
  }

  method FindIndex(alphabet: seq<Byte>, s: Byte) returns (i: nat)
    requires s in alphabet
    ensures s in alphabet[0..] && i == IndexOf(alphabet, s, 0)
  {
    assert alphabet[0..] == alphabet;
    i := 0;
    while alphabet[i] != s
      invariant i <= IndexOf(alphabet, s, 0)
      decreases |alphabet| - i
    {
      i := i + 1;
    }
  }

  lemma SetCodeStep(alphabet: seq<Byte>, end: nat, left: nat, syms: seq<Byte>, later: seq<Decision>)
    requires Among(alphabet, end, syms) && |syms| <= left && syms != []
    ensures syms[0] in alphabet && IndexOf(alphabet, syms[0], 0) < end
    ensures var i := IndexOf(alphabet, syms[0], 0);
      Among(Drop(alphabet, end, i), end - 1, syms[1..])
      && SetCode(alphabet, end, left, syms) + later
        == SomeCode(i, Choices(end)) + (SetCode(Drop(alphabet, end, i), end - 1, left - 1, syms[1..]) + later)
  {
    DropKeeps(alphabet, end, syms);
    var i := IndexOf(alphabet, syms[0], 0);
    Cat(SomeCode(i, Choices(end)), SetCode(Drop(alphabet, end, i), end - 1, left - 1, syms[1..]), later);
  }

  /** The next symbol's index, and the list without it. */
  method WriteMember(enc: Encoder, perm0: seq<Byte>, end: nat, ghost left: nat, rest: seq<Byte>) returns (perm: seq<Byte>)
    requires enc.Valid() && Among(perm0, end, rest) && |rest| <= left && rest != []
    modifies enc
    ensures enc.Valid() && end > 0 && Among(perm, end - 1, rest[1..])
    ensures old(enc.trace) + SetCode(perm0, end, left, rest) == enc.trace + SetCode(perm, end - 1, left - 1, rest[1..])
  {
    SetCodeStep(perm0, end, left, rest, []);
    var i := FindIndex(perm0, rest[0]);
    perm := Drop(perm0, end, i);
    ghost var tail := SetCode(perm, end - 1, left - 1, rest[1..]);
    ghost var all := SetCode(perm0, end, left, rest);
    assert tail + [] == tail && all + [] == all;
    Cat(enc.trace, SomeCode(i, Choices(end)), tail);
    WriteSome(enc, i, Choices(end));
  }

  method WriteSet(enc: Encoder, n: nat, syms: seq<Byte>)
    requires enc.Valid() && Distinct(syms) && 1 <= |syms| <= n
    requires Among(Identity(), 256, syms)
    modifies enc
    ensures enc.Valid() && enc.trace == old(enc.trace) + SetCode(Identity(), 256, n, syms)
  {
    WriteMembers(enc, Identity(), 256, n, syms);
  }

  method WriteMembers(enc: Encoder, all: seq<Byte>, most: nat, n: nat, syms: seq<Byte>)
    requires enc.Valid() && Among(all, most, syms) && |syms| <= n && (syms == [] ==> most < 256) && most <= 256
    modifies enc
    ensures enc.Valid() && enc.trace == old(enc.trace) + SetCode(all, most, n, syms)
  {
    var perm, end: nat, left: nat, rest := all, most, n, syms;
    ghost var total := enc.trace + SetCode(perm, end, left, syms);
    while rest != []
      invariant enc.Valid() && |rest| <= left && Among(perm, end, rest) && (rest == [] ==> end < 256) && end <= most
      invariant enc.trace + SetCode(perm, end, left, rest) == total
      decreases |rest|
    {
      perm := WriteMember(enc, perm, end, left, rest);
      end, left, rest := end - 1, left - 1, rest[1..];
      if end == 0 || left == 0 {
        SizeLeft(perm, end, rest);
        break;
      }
    }
    if end != 0 && left != 0 { WriteSome(enc, end, end + 1); }
  }

  lemma SizeLeft(alphabet: seq<Byte>, end: nat, syms: seq<Byte>)
    requires Among(alphabet, end, syms)
    ensures |syms| <= end
  {
    assert Look(Codes, 0);
    ValuesSize(alphabet[..end]);
    ValuesSize(syms);
    Contained(Values(syms), Values(alphabet[..end]));
  }

  lemma {:induction false} Contained(a: set<nat>, b: set<nat>)
    requires a <= b
    ensures |a| <= |b|
    decreases |a|
  {
    if a != {} {
      var x :| x in a;
      Contained(a - {x}, b - {x});
    }
  }

  /** The reader's state before the symbols `rest`. */
  ghost predicate Listing(alphabet: seq<Byte>, end: nat, left: nat, rest: seq<Byte>) {
    Among(alphabet, end, rest) && |rest| <= left && (rest == [] ==> end < 256)
  }

  /** The next index of the list, the mark included, and what it leads to. */
  lemma NextIndex(alphabet: seq<Byte>, end: nat, left: nat, rest: seq<Byte>, later: seq<Decision>)
    returns (i: nat, more: seq<Decision>)
    requires Listing(alphabet, end, left, rest) && 0 < end && 0 < left
    ensures i < Choices(end) && SetCode(alphabet, end, left, rest) + later == SomeCode(i, Choices(end)) + more
    ensures i == end <==> rest == []
    ensures rest == [] ==> more == later
    ensures rest != [] ==> i < end && alphabet[i] == rest[0] && Listing(Drop(alphabet, end, i), end - 1, left - 1, rest[1..])
    ensures rest != [] ==> more == SetCode(Drop(alphabet, end, i), end - 1, left - 1, rest[1..]) + later
    ensures rest != [] && (end == 1 || left == 1) ==> rest[1..] == [] && more == later
  {
    i, more := end, later;
    if rest != [] {
      SetCodeStep(alphabet, end, left, rest, later);
      i := IndexOf(alphabet, rest[0], 0);
      var next := Drop(alphabet, end, i);
      more := SetCode(next, end - 1, left - 1, rest[1..]) + later;
      SizeLeft(next, end - 1, rest[1..]);
    }
  }

  /** Reads one index; `end` is the mark. */
  method ReadMember(dec: Decoder, alphabet: seq<Byte>, end: nat, ghost left: nat, ghost rest: seq<Byte>, ghost later: seq<Decision>)
    returns (cur: nat)
    requires dec.Valid() && |alphabet| == 256 && 0 < end <= 256 && 0 < left
    modifies dec
    ensures dec.Valid() && cur <= end && cur < 256
    ensures Listing(alphabet, end, left, rest) && old(dec.Ahead(SetCode(alphabet, end, left, rest) + later))
      ==> ((rest == [] ==> cur == end && dec.Ahead(later))
        && (rest != [] ==> cur < end && alphabet[cur] == rest[0] && Listing(Drop(alphabet, end, cur), end - 1, left - 1, rest[1..]))
        && (rest != [] ==> dec.Ahead(SetCode(Drop(alphabet, end, cur), end - 1, left - 1, rest[1..]) + later))
        && (rest != [] && (end == 1 || left == 1) ==> rest[1..] == [] && dec.Ahead(later)))
  {
    ghost var coded := Listing(alphabet, end, left, rest) && dec.Ahead(SetCode(alphabet, end, left, rest) + later);
    ghost var more, index := later, end;
    if coded { index, more := NextIndex(alphabet, end, left, rest, later); }
    cur := ReadSome(dec, Choices(end), index, more);
  }

  /** `syms` are read, and the list `perm` has `end` symbols left for `left` more bytes. */
  ghost predicate HaveRead(n: nat, perm: seq<Byte>, end: nat, left: nat, syms: seq<Byte>) {
    |perm| == 256 && |syms| == n - left == 256 - end && Chosen(perm, end, syms)
  }

  /** What is still to be read of `want`. */
  ghost predicate ToRead(want: seq<Byte>, perm: seq<Byte>, end: nat, left: nat, syms: seq<Byte>, rest: seq<Byte>) {
    want == syms + rest && Listing(perm, end, left, rest)
  }

  /** One symbol more, or the end of the list. */
  method TakeMember(dec: Decoder, n: nat, perm0: seq<Byte>, end0: nat, left0: nat, syms0: seq<Byte>,
                    ghost coded: bool, ghost want: seq<Byte>, ghost rest0: seq<Byte>, ghost later: seq<Decision>)
    returns (done: bool, perm: seq<Byte>, end: nat, left: nat, syms: seq<Byte>, ghost rest: seq<Byte>)
    requires dec.Valid() && HaveRead(n, perm0, end0, left0, syms0) && 0 < end0 && 0 < left0
    requires coded ==> ToRead(want, perm0, end0, left0, syms0, rest0) && dec.Ahead(SetCode(perm0, end0, left0, rest0) + later)
    modifies dec
    ensures dec.Valid() && HaveRead(n, perm, end, left, syms)
    ensures left < left0 || (done && syms == syms0)
    ensures if done then syms != [] else 0 < end && 0 < left
    ensures coded && !done ==> ToRead(want, perm, end, left, syms, rest) && dec.Ahead(SetCode(perm, end, left, rest) + later)
    ensures coded && done ==> syms == want && dec.Ahead(later)
  {
    perm, end, left, syms, rest := perm0, end0, left0, syms0, rest0;
    var cur := ReadMember(dec, perm, end, left, rest, later);
    if cur == end {
      assert coded ==> syms + [] == syms;
      return true, perm, end, left, syms, rest;
    }
    ChosenGrows(perm, end, syms, cur);
    MoveOne(syms, perm[cur], rest);
    syms := syms + [perm[cur]];
    perm, end, left := Drop(perm, end, cur), end - 1, left - 1;
    if coded { rest := rest[1..]; }
    done := end == 0 || left == 0;
    assert coded && done ==> syms + [] == syms;
  }

  /**
   Reads the list. Whatever the input, the symbols are different from each other, there is one,
   and there are no more of them than bytes.
   */
  method ReadSet(dec: Decoder, n: nat, ghost want: seq<Byte>, ghost later: seq<Decision>) returns (syms: seq<Byte>)
    requires dec.Valid() && n >= 1
    modifies dec
    ensures dec.Valid() && Distinct(syms) && 1 <= |syms| <= n
    ensures Among(Identity(), 256, want) && 1 <= |want| <= n && old(dec.Ahead(SetCode(Identity(), 256, n, want) + later))
      ==> syms == want && dec.Ahead(later)
  {
    var all := Identity();
    ghost var coded := Among(all, 256, want) && 1 <= |want| <= n && dec.Ahead(SetCode(all, 256, n, want) + later);
    ListStarts(all, n, want);
    syms := ReadMembers(dec, n, all, 256, coded, want, later);
  }

  lemma ListStarts(all: seq<Byte>, n: nat, want: seq<Byte>)
    requires all == Identity()
    ensures HaveRead(n, all, 256, n, [])
    ensures Among(all, 256, want) && 1 <= |want| <= n ==> ToRead(want, all, 256, n, [], want)
  {
    assert [] + all[..256] == all && [] + want == want;
  }

  method ReadMembers(dec: Decoder, n: nat, all: seq<Byte>, most: nat, ghost coded: bool, ghost want: seq<Byte>, ghost later: seq<Decision>)
    returns (syms: seq<Byte>)
    requires dec.Valid() && n >= 1 && HaveRead(n, all, most, n, []) && most > 0
    requires coded ==> ToRead(want, all, most, n, [], want) && dec.Ahead(SetCode(all, most, n, want) + later)
    modifies dec
    ensures dec.Valid() && Distinct(syms) && 1 <= |syms| <= n
    ensures coded ==> syms == want && dec.Ahead(later)
  {
    var perm, end, left := all, most, n;
    ghost var rest := want;
    var done := false;
    syms := [];
    while !done
      invariant dec.Valid() && HaveRead(n, perm, end, left, syms)
      invariant if done then syms != [] else 0 < end && 0 < left
      invariant coded && !done ==> ToRead(want, perm, end, left, syms, rest) && dec.Ahead(SetCode(perm, end, left, rest) + later)
      invariant coded && done ==> syms == want && dec.Ahead(later)
      decreases !done, left
    {
      done, perm, end, left, syms, rest := TakeMember(dec, n, perm, end, left, syms, coded, want, rest, later);
    }
    ChosenAreDistinct(perm, end, syms);
  }

  lemma MoveOne(a: seq<Byte>, x: Byte, b: seq<Byte>)
    ensures b != [] && b[0] == x ==> a + [x] + b[1..] == a + b
  {
  }

  lemma ChosenAreDistinct(alphabet: seq<Byte>, end: nat, syms: seq<Byte>)
    requires Chosen(alphabet, end, syms)
    ensures Distinct(syms)
  {
    assert Look(Codes, 0);
    var a := syms + alphabet[..end];
    assert forall i :: 0 <= i < |syms| ==> a[i] == syms[i];
  }

  /** The symbols taken and those left are all of them, once each; out of sight until `Look(Codes, 0)`. */
  ghost predicate Chosen(alphabet: seq<Byte>, end: nat, syms: seq<Byte>) {
    |alphabet| == 256 && end <= 256 && forall z {:trigger Look(Codes, z)} :: Look(Codes, z) ==> Distinct(syms + alphabet[..end])
  }

  lemma ChosenGrows(alphabet: seq<Byte>, end: nat, syms: seq<Byte>, i: nat)
    requires Chosen(alphabet, end, syms) && i < end
    ensures Chosen(Drop(alphabet, end, i), end - 1, syms + [alphabet[i]])
  {
    assert Look(Codes, 0);
    var a, k := syms + alphabet[..end], |syms|;
    var b := syms + [alphabet[i]] + Drop(alphabet, end, i)[..end - 1];
    forall x, y | 0 <= x < y < |b| ensures b[x] != b[y] {
      assert b[x] == a[if x < k then x else if x == k then k + i else if x - k - 1 == i then k + end - 1 else x - 1];
      assert b[y] == a[if y < k then y else if y == k then k + i else if y - k - 1 == i then k + end - 1 else y - 1];
    }
  }
}
