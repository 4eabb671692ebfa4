/**
 What the parse of param14 does at a place (P14Encoder in src/nz_bwt.cpp), as functions of the block and
 the tables: which match the hash chains lead to, when it is taken, and what is written. The encoder is
 proved to do this, and of this it is proved that of the entries looked at the longest match is found.
 */
module Param14Search {
  import opened Words
  import opened LastFour
  import opened Arith
  import opened IntCoding
  import opened Matching
  import opened Param14Format

  function Hash(v: U32): nat {
    (((v as bv32) >> 19) ^ (v as bv32)) as nat
  }

  function Threshold(len: nat): nat {
    if len < 5 then 0 else (len - 3) * (len - 3) * ((len - 5) / 3)
  }

  function SkipLen(len: nat): (k: nat)
    ensures k >= 1
  {
    if len < 6 then 1 else (len - 4) / 2
  }

  const RARITY_CUT := 15059

  // ---------------------------------------------------------------- the tables

  /**
   The block, with at least four bytes behind it that the word loads may look at; the sizes of the
   tables and the modulus that separates an entry's place from its tag; how common each word is.
   */
  datatype Setting = Setting(s: seq<Byte>, n: nat, hashSize: nat, chainSize: nat, offSize: nat, stats: seq<nat>) {
    predicate Ok() {
      n + 4 <= |s| && 0 < hashSize && 0 < chainSize && 0 < n <= offSize && |stats| >= 0x4_0000
    }
  }

  datatype Chains = Chains(head: seq<U32>, chain: seq<U32>) {
    predicate Ok(x: Setting) {
      x.Ok() && |head| == x.hashSize && |chain| == x.chainSize
    }
  }

  /** A block's tables: sized by half its length, with 2^19 entries at least; places and tags by its length. */
  function SettingFor(block: seq<Byte>, pad: seq<Byte>, stats: seq<nat>): Setting
    requires 0 < |block|
  {
    var bits := if Bsr(|block| / 2) + 1 > 0x14 then Bsr(|block| / 2) else 0x13;
    Setting(block + pad, |block|, Pow2(bits), Pow2(bits - 1), Pow2(Bsr(|block| - 1) + 1), stats)
  }

  /** What the arena holds, if it is large enough, or empty ones. */
  function Lent(arena: seq<U32>, hashSize: nat, chainSize: nat): Chains {
    if |arena| >= hashSize + chainSize then Chains(arena[..hashSize], arena[hashSize..hashSize + chainSize])
    else Chains(seq(hashSize, _ => 0xffff_ffff), seq(chainSize, _ => 0))
  }

  function PlaceOf(link: U32, offSize: nat): nat
    requires offSize > 0
  {
    link % offSize
  }

  /** What an entry keeps of the word at its place. */
  function TagOf(v: U32, offSize: nat): nat
    requires offSize > 0
  {
    ModAtMost(v, offSize);
    v - v % offSize
  }

  lemma ModAtMost(v: nat, m: nat)
    requires m > 0
    ensures v % m <= v
  {
    if v < m {
      assert v % m == v;
    }
  }

  /** Place and tag in one word; the place behind a block of 2^k bytes has a bit that the tag may have too. */
  function EntryFor(at: nat, tag: nat, offSize: nat): U32
    requires offSize > 0
  {
    Wrap32(if at < offSize || tag / offSize % 2 == 0 then at + tag else tag)
  }

  function SlotOf(v: U32, hashSize: nat): nat
    requires hashSize > 0
  {
    Hash(v) % hashSize
  }

  /** A place becomes the head of its chain. */
  function Entered(x: Setting, c: Chains, at: nat): (r: Chains)
    requires c.Ok(x) && at <= x.n
    ensures r.Ok(x)
  {
    var v := Word(x.s, at);
    var h := SlotOf(v, x.hashSize);
    Chains(c.head[h := EntryFor(at, TagOf(v, x.offSize), x.offSize)], c.chain[at % x.chainSize := c.head[h]])
  }

  /** So do those from `from` on up to `to`. */
  function EnteredUpTo(x: Setting, c: Chains, from: nat, end: nat): (r: Chains)
    requires c.Ok(x) && from <= end <= x.n + 1
    ensures r.Ok(x)
    decreases end
  {
    if from == end then c else Entered(x, EnteredUpTo(x, c, from, end - 1), end - 1)
  }

  // ---------------------------------------------------------------- the search

  /** Distance and length of a match, 0 and 0 for none, and the budget after the search. */
  datatype Sought = Sought(dist: nat, len: nat, budget: nat)

  /** How far the block goes on at `c` as it does at `p`. */
  ghost function Agreement(x: Setting, p: nat, c: nat): nat
    requires x.Ok() && c <= p <= x.n
  {
    Agreeing(x.s, p, c, x.n - p)
  }

  /** Is there a place before `p` with this tag? */
  predicate IsLive(x: Setting, p: nat, tag: nat, link: U32)
    requires x.Ok()
  {
    PlaceOf(link, x.offSize) < p && tag == link - PlaceOf(link, x.offSize)
  }

  /**
   From a live entry on, with `probes` left: if its words have been compared, a longer match is kept,
   and one of more than 0x80 bytes is the last.
   */
  ghost function Walk(x: Setting, c: Chains, p: nat, tag: nat, link: U32, probes: nat, best: nat, dist: nat, compare: bool, budget: nat): (r: Sought)
    requires c.Ok(x) && p < x.n && IsLive(x, p, tag, link) && probes >= 1 && (!compare ==> best >= 4) && best <= x.n - p
    requires compare ==> Agreement(x, p, PlaceOf(link, x.offSize)) >= 4
    ensures r.len <= x.n - p
    decreases probes, 1, x
  {
    var cand := PlaceOf(link, x.offSize);
    var cur := Agreement(x, p, cand);
    if !compare || cur <= best then Follow(x, c, p, tag, link, probes - 1, best, dist, budget)
    else
      var b := Paid(budget, best, cur);
      if cur > 0x80 then Sought(p - cand, cur, b) else Follow(x, c, p, tag, link, Halved(probes, cur) - 1, cur, p - cand, b)
  }

  /** What a longer match does to the budget, and a long one to the probes. */
  function Paid(budget: nat, best: nat, cur: nat): nat
    requires best < cur
  {
    ((if best > 6 then (cur - best) % 4 else 0) + budget) % 0x400
  }

  function Halved(probes: nat, cur: nat): (k: nat)
    ensures k <= probes && (probes >= 1 ==> k >= 1)
  {
    if cur > 0x40 then probes - probes / 2 else probes
  }

  /** The next entry of the chain. */
  function Linked(x: Setting, c: Chains, link: U32): U32
    requires c.Ok(x)
  {
    c.chain[link % x.chainSize]
  }

  ghost function Follow(x: Setting, c: Chains, p: nat, tag: nat, link: U32, probes: nat, best: nat, dist: nat, budget: nat): (r: Sought)
    requires c.Ok(x) && p < x.n && 4 <= best <= x.n - p
    ensures r.len <= x.n - p
    decreases probes, 2, x
  {
    if probes == 0 then Sought(dist, best, budget)
    else
      var next := Linked(x, c, link);
      var cand := PlaceOf(next, x.offSize);
      if cand >= p then Sought(dist, best, budget)
      else if !IsLive(x, p, tag, next) then Sought(dist, best, budget - budget / 16)
      else if Word(x.s, cand + best - 3) != Word(x.s, p + best - 3) then Walk(x, c, p, tag, next, probes, best, dist, false, budget)
      else if Word(x.s, cand) != Word(x.s, p) then Sought(dist, best, budget / 2)
      else
        FourAgree(x, p, cand);
        Walk(x, c, p, tag, next, probes, best, dist, true, budget)
  }

  lemma FourAgree(x: Setting, p: nat, c: nat)
    requires x.Ok() && c < p && p + 4 <= x.n && Word(x.s, c) == Word(x.s, p)
    ensures Agreement(x, p, c) >= 4
  {
    SameWord(x.s, c, p);
    assert Agreeing(x.s, p, c, x.n - p) == 1 + Agreeing(x.s, p + 1, c + 1, x.n - p - 1);
    assert Agreeing(x.s, p + 1, c + 1, x.n - p - 1) == 1 + Agreeing(x.s, p + 2, c + 2, x.n - p - 2);
    assert Agreeing(x.s, p + 2, c + 2, x.n - p - 2) == 1 + Agreeing(x.s, p + 3, c + 3, x.n - p - 3);
    assert Agreeing(x.s, p + 3, c + 3, x.n - p - 3) >= 1;
  }

  /** The search at `p`, in tables that `p` has just gone into behind the entry `link`. */
  ghost function Searched(x: Setting, c: Chains, p: nat, tag: nat, link: U32, budget: nat): (r: Sought)
    requires c.Ok(x) && p < x.n
    ensures r.len <= x.n - p
  {
    if !IsLive(x, p, tag, link) then Sought(0, 0, budget)
    else
      var b := budget + if budget < 8 then 1 else 0;
      var cand := PlaceOf(link, x.offSize);
      if Word(x.s, cand) != Word(x.s, p) || x.n - p <= 3 then Sought(0, 0, b)
      else
        FourAgree(x, p, cand);
        Walk(x, c, p, tag, link, budget / 4 + 1, 0, 0, true, b)
  }

  // ---------------------------------------------------------------- the longest of those looked at

  /** The entry `k` further on in the chain. */
  function Nth(x: Setting, c: Chains, link: U32, k: nat): U32
    requires c.Ok(x)
    decreases k, x
  {
    if k == 0 then link else Linked(x, c, Nth(x, c, link, k - 1))
  }

  lemma {:induction false} NthNext(x: Setting, c: Chains, link: U32, k: nat)
    requires c.Ok(x)
    ensures Nth(x, c, Linked(x, c, link), k) == Nth(x, c, link, k + 1)
  {
    if k > 0 { NthNext(x, c, link, k - 1); }
  }

  /** The first `k` entries are live, and none of their matches is longer than `len`. */
  ghost predicate NoneLonger(x: Setting, c: Chains, p: nat, tag: nat, link: U32, k: nat, len: nat)
    requires c.Ok(x) && p < x.n
  {
    forall i | 0 <= i < k :: IsLive(x, p, tag, Nth(x, c, link, i)) && Agreement(x, p, PlaceOf(Nth(x, c, link, i), x.offSize)) <= len
  }

  /** What is found is at one of the first `k` entries. */
  ghost predicate IsAmong(x: Setting, c: Chains, p: nat, tag: nat, link: U32, k: nat, dist: nat, len: nat)
    requires c.Ok(x) && p < x.n
  {
    exists i :: 0 <= i < k && IsLive(x, p, tag, Nth(x, c, link, i)) && dist == p - PlaceOf(Nth(x, c, link, i), x.offSize)
      && len == Agreement(x, p, PlaceOf(Nth(x, c, link, i), x.offSize))
  }

  /** Why the walk ends behind `k` entries: enough were looked at, or there is no more to look at. */
  ghost predicate MayEnd(x: Setting, c: Chains, p: nat, tag: nat, link: U32, k: nat, probes: nat, len: nat)
    requires c.Ok(x) && p < x.n
  {
    var next := Nth(x, c, link, k);
    k >= probes || len > 0x40 || !IsLive(x, p, tag, next) || Word(x.s, PlaceOf(next, x.offSize)) != Word(x.s, p)
  }

  /**
   The walk has looked at `k` entries, all of them live: what it gives is the longest of their matches, or
   `best` if none is longer, and it has not ended before it had to.
   */
  ghost predicate IsLongest(x: Setting, c: Chains, p: nat, tag: nat, link: U32, k: nat, probes: nat, best: nat, dist: nat, r: Sought)
    requires c.Ok(x) && p < x.n
  {
    && best <= r.len && NoneLonger(x, c, p, tag, link, k, r.len) && MayEnd(x, c, p, tag, link, k, probes, r.len)
    && ((r.len == best && r.dist == dist) || IsAmong(x, c, p, tag, link, k, r.dist, r.len))
  }

  lemma {:induction false} WalkIsLongest(x: Setting, c: Chains, p: nat, tag: nat, link: U32, probes: nat, best: nat, dist: nat, compare: bool, budget: nat)
    returns (k: nat)
    requires c.Ok(x) && p < x.n && IsLive(x, p, tag, link) && probes >= 1 && (!compare ==> best >= 4) && best <= x.n - p
    requires if compare then Agreement(x, p, PlaceOf(link, x.offSize)) >= 4 else Agreement(x, p, PlaceOf(link, x.offSize)) <= best
    ensures k >= 1 && IsLongest(x, c, p, tag, link, k, probes, best, dist, Walk(x, c, p, tag, link, probes, best, dist, compare, budget))
    decreases probes, 1
  {
    var cand := PlaceOf(link, x.offSize);
    var cur := Agreement(x, p, cand);
    assert Nth(x, c, link, 0) == link;
    if !compare || cur <= best {
      k := FollowIsLongest(x, c, p, tag, link, probes - 1, best, dist, budget);
      k := k + 1;
      OneMore(x, c, p, tag, link, k, probes, best, dist, probes - 1, best, dist, Walk(x, c, p, tag, link, probes, best, dist, compare, budget));
    } else if cur > 0x80 {
      k := 1;
    } else {
      var left := Halved(probes, cur) - 1;
      k := FollowIsLongest(x, c, p, tag, link, left, cur, p - cand, Paid(budget, best, cur));
      k := k + 1;
      OneMore(x, c, p, tag, link, k, probes, best, dist, left, cur, p - cand, Walk(x, c, p, tag, link, probes, best, dist, compare, budget));
    }
  }

  lemma {:induction false} FollowIsLongest(x: Setting, c: Chains, p: nat, tag: nat, link: U32, probes: nat, best: nat, dist: nat, budget: nat)
    returns (k: nat)
    requires c.Ok(x) && p < x.n && 4 <= best <= x.n - p
    ensures IsLongest(x, c, p, tag, Linked(x, c, link), k, probes, best, dist, Follow(x, c, p, tag, link, probes, best, dist, budget))
    decreases probes, 2
  {
    var next := Linked(x, c, link);
    var cand := PlaceOf(next, x.offSize);
    assert Nth(x, c, next, 0) == next;
    k := 0;
    if probes > 0 && IsLive(x, p, tag, next) {
      if Word(x.s, cand + best - 3) != Word(x.s, p + best - 3) {
        NotLonger(x, p, cand, best);
        k := WalkIsLongest(x, c, p, tag, next, probes, best, dist, false, budget);
      } else if Word(x.s, cand) == Word(x.s, p) {
        FourAgree(x, p, cand);
        k := WalkIsLongest(x, c, p, tag, next, probes, best, dist, true, budget);
      }
    }
  }

  lemma NotLonger(x: Setting, p: nat, c: nat, best: nat)
    requires x.Ok() && c < p < x.n && 4 <= best <= x.n - p && Word(x.s, c + best - 3) != Word(x.s, p + best - 3)
    ensures Agreement(x, p, c) <= best
  {
    if Agreement(x, p, c) > best { WordsOfLonger(x.s, p, c, x.n - p, best); }
  }

  /** A walk from the next entry on is one from this entry on, if this one is counted. */
  lemma OneMore(x: Setting, c: Chains, p: nat, tag: nat, link: U32, k: nat, probes: nat, best: nat, dist: nat,
                left: nat, found: nat, at: nat, r: Sought)
    requires c.Ok(x) && p < x.n && k >= 1 && IsLive(x, p, tag, link)
    requires IsLongest(x, c, p, tag, Linked(x, c, link), k - 1, left, found, at, r)
    requires var cur := Agreement(x, p, PlaceOf(link, x.offSize));
      if found == best && at == dist then cur <= best else best < found == cur && at == p - PlaceOf(link, x.offSize)
    requires left + 1 == probes || found > 0x40
    ensures IsLongest(x, c, p, tag, link, k, probes, best, dist, r)
  {
    var next := Linked(x, c, link);
    assert Nth(x, c, link, 0) == link;
    NthNext(x, c, link, k - 1);
    forall i | 0 <= i < k ensures IsLive(x, p, tag, Nth(x, c, link, i)) && Agreement(x, p, PlaceOf(Nth(x, c, link, i), x.offSize)) <= r.len {
      if i > 0 { NthNext(x, c, link, i - 1); }
    }
    if IsAmong(x, c, p, tag, next, k - 1, r.dist, r.len) {
      var i :| 0 <= i < k - 1 && IsLive(x, p, tag, Nth(x, c, next, i)) && r.dist == p - PlaceOf(Nth(x, c, next, i), x.offSize)
        && r.len == Agreement(x, p, PlaceOf(Nth(x, c, next, i), x.offSize));
      NthNext(x, c, link, i);
    }
  }

  /**
   A search whose first entry is of the same word finds a match: the longest of those at the entries it
   looks at, of which there are as many as the budget gives unless the chain ends or the match is long.
   */
  lemma SearchIsLongest(x: Setting, c: Chains, p: nat, tag: nat, link: U32, budget: nat) returns (k: nat)
    requires c.Ok(x) && p + 4 <= x.n && IsLive(x, p, tag, link) && Word(x.s, PlaceOf(link, x.offSize)) == Word(x.s, p)
    ensures var r := Searched(x, c, p, tag, link, budget);
      k >= 1 && r.len >= 4 && IsLongest(x, c, p, tag, link, k, budget / 4 + 1, 0, 0, r)
  {
    FourAgree(x, p, PlaceOf(link, x.offSize));
    k := WalkIsLongest(x, c, p, tag, link, budget / 4 + 1, 0, 0, true, budget + if budget < 8 then 1 else 0);
    assert Nth(x, c, link, 0) == link;
  }

  // ---------------------------------------------------------------- the last four distances

  /** How many bytes agree at a distance, of those left in the block; two are compared even if only one is left. */
  ghost function RepLength(x: Setting, p: nat, d: int): (k: nat)
    requires x.Ok() && p < x.n
  {
    if 1 <= d <= p then Agreeing(x.s, p, p - d, if x.n - p < 2 then 2 else x.n - p) else 0
  }

  /** The first distance from `i` on at which two bytes agree; 4 if there is none. */
  ghost function FirstRep(x: Setting, p: nat, rep: seq<int>, i: nat): (k: nat)
    requires x.Ok() && p < x.n && |rep| == 4 && i <= 4
    ensures i <= k <= 4 && (forall j | i <= j < k :: RepLength(x, p, -rep[j]) < 2)
    ensures k < 4 ==> RepLength(x, p, -rep[k]) >= 2
    decreases 4 - i, x
  {
    if i == 4 || RepLength(x, p, -rep[i]) >= 2 then i else FirstRep(x, p, rep, i + 1)
  }

  /** It is kept with its length in one word, and its score is four more. */
  ghost function Packed(x: Setting, p: nat, rep: seq<int>): U32
    requires x.Ok() && p < x.n && |rep| == 4
  {
    var i := FirstRep(x, p, rep, 0);
    if i == 4 then 0 else Wrap32(i + RepLength(x, p, -rep[i]) * 4)
  }

  function ScoreOf(packed: U32): U32 {
    Wrap32(packed + 4)
  }

  // ---------------------------------------------------------------- the gate

  /** How common the words of a match are. */
  function Rarity(x: Setting, p: nat, len: nat): nat
    requires x.Ok() && p + len <= x.n
    decreases len
  {
    if len == 0 then 0 else Rarity(x, p, len - 1) + x.stats[Hash(Word(x.s, p + len - 1)) % 0x4_0000]
  }

  /** Whether the match is taken, its slot and length, how many literals there are if not, and the budget. */
  datatype Chosen = Chosen(take: bool, slot: nat, len: nat, skip: nat, budget: nat)

  function IsTaken(slot: nat, len: nat, rarity: nat): bool {
    len > 6 && (len > 0xfe || rarity < Threshold(len) || (slot < 4 && rarity < Threshold(len + 6)))
  }

  /** One of the last distances unless the search found enough more. */
  function Candidate(packed: U32, found: Sought): (nat, nat) {
    if Wrap32(found.len * 4) <= ScoreOf(packed) then (packed % 4, packed / 4) else (found.dist + 4, found.len)
  }

  ghost function Gated(x: Setting, p: nat, slot: nat, len: nat, budget: nat): (c: Chosen)
    requires x.Ok() && (len > 6 ==> p + len <= x.n)
    ensures c.take ==> c.len > 6
    ensures !c.take ==> c.skip >= 1
  {
    var rarity := if 6 < len <= 0xfe then Rarity(x, p, len) else 0;
    var take := IsTaken(slot, len, rarity);
    if !take && rarity >= RARITY_CUT then Chosen(false, slot, len, len - 1, budget - budget / 4)
    else Chosen(take, slot, len, SkipLen(len), budget)
  }

  /** A match of 255 bytes or more is always taken. */
  lemma LongIsTaken(x: Setting, p: nat, slot: nat, len: nat, budget: nat)
    requires x.Ok() && p + len <= x.n && len > 0xfe
    ensures Gated(x, p, slot, len, budget).take && Gated(x, p, slot, len, budget).len == len
  {
  }

  // ---------------------------------------------------------------- steps

  /** Where a parse stands: tables and budget, the last distances, the last two bytes written, the operations and their bytes. */
  datatype Moment = Moment(c: Chains, budget: nat, rep: seq<int>, prev: nat, pos: nat, ops: seq<Op>, size: nat) {
    predicate Ok(x: Setting) {
      c.Ok(x) && |rep| == 4 && pos <= x.n
    }
  }

  function Escaped(x: Setting, m: Moment): Moment
    requires m.Ok(x) && m.pos < x.n
  {
    if m.prev == TAG && x.s[m.pos] < 2 then m.(ops := m.ops + [Escape], size := m.size + 1) else m
  }

  function Passed(x: Setting, m: Moment): Moment
    requires m.Ok(x) && m.pos < x.n
  {
    var b := x.s[m.pos];
    m.(ops := m.ops + [Literal(b)], size := m.size + 1, prev := m.prev % 256 * 256 + b, pos := m.pos + 1)
  }

  function OpOf(slot: nat, len: nat): Op {
    if slot < 4 then Again(slot, len) else Fresh(slot - 4, len)
  }

  function RepAfter(rep: seq<int>, slot: nat): (r: seq<int>)
    requires |rep| == 4
    ensures |r| == 4
  {
    if slot < 4 then Promoted(rep, slot) else [0 - (slot - 4)] + rep[..3]
  }

  function Matched(x: Setting, m: Moment, slot: nat, len: nat): Moment
    requires m.Ok(x) && 1 <= len && m.pos + len <= x.n
  {
    m.(c := EnteredUpTo(x, m.c, m.pos + 1, m.pos + len), ops := m.ops + [OpOf(slot, len)], size := m.size + 3,
       pos := m.pos + len, prev := 0, rep := RepAfter(m.rep, slot))
  }

  lemma MatchedIs(x: Setting, m: Moment, slot: nat, len: nat, next: Moment)
    requires m.Ok(x) && 1 <= len && m.pos + len <= x.n && next.c == EnteredUpTo(x, m.c, m.pos + 1, m.pos + len)
    requires next.ops == m.ops + [OpOf(slot, len)] && next.size == m.size + 3 && next.pos == m.pos + len && next.prev == 0
    requires next.rep == RepAfter(m.rep, slot) && next.budget == m.budget
    ensures next == Matched(x, m, slot, len)
  {
  }

  /** `skip` literals, or fewer where the block or the room ends. */
  function Skipped(x: Setting, m: Moment, skip: nat, room: int): (r: Moment)
    requires m.Ok(x) && m.pos < x.n && skip >= 1
    ensures r.Ok(x) && m.pos < r.pos
    decreases skip, x
  {
    var l := Passed(x, m);
    if skip == 1 then l
    else
      var e := l.(c := Entered(x, l.c, l.pos));
      if e.pos >= x.n || e.size >= room then e else Skipped(x, Escaped(x, e), skip - 1, room)
  }

  /** What the search at a place leads to; out of sight until `Look(Pieces, 0)`. */
  ghost predicate IsSearched(x: Setting, c: Chains, p: nat, budget: nat, found: Sought) {
    forall z {:trigger Look(Pieces, z)} :: Look(Pieces, z) ==>
      && c.Ok(x) && p < x.n
      && var v := Word(x.s, p);
      && found == Searched(x, Entered(x, c, p), p, TagOf(v, x.offSize), c.head[SlotOf(v, x.hashSize)], budget)
  }

  ghost function Found(x: Setting, c: Chains, p: nat, budget: nat): (found: Sought)
    requires c.Ok(x) && p < x.n
    ensures IsSearched(x, c, p, budget, found) && found.len <= x.n - p
  {
    var v := Word(x.s, p);
    var r := Searched(x, Entered(x, c, p), p, TagOf(v, x.offSize), c.head[SlotOf(v, x.hashSize)], budget);
    SearchIsOne(x, c, p, budget, r);
    var found :| IsSearched(x, c, p, budget, found);
    SearchIsOne(x, c, p, budget, found);
    found
  }

  lemma SearchIsOne(x: Setting, c: Chains, p: nat, budget: nat, found: Sought)
    requires c.Ok(x) && p < x.n
    ensures var v := Word(x.s, p);
      IsSearched(x, c, p, budget, found) <==>
      found == Searched(x, Entered(x, c, p), p, TagOf(v, x.offSize), c.head[SlotOf(v, x.hashSize)], budget)
  {
    assert Look(Pieces, 0);
  }

  /** What the gate makes of what was found. */
  ghost function Decided(x: Setting, p: nat, rep: seq<int>, found: Sought): (c: Chosen)
    requires x.Ok() && p < x.n && |rep| == 4 && found.len <= x.n - p
    ensures c.take ==> c.len > 6 && p + c.len <= x.n
    ensures !c.take ==> c.skip >= 1
  {
    var packed := Packed(x, p, rep);
    PackedFits(x, p, rep);
    var m := Candidate(packed, found);
    Gated(x, p, m.0, m.1, found.budget)
  }

  lemma PackedFits(x: Setting, p: nat, rep: seq<int>)
    requires x.Ok() && p < x.n && |rep| == 4
    ensures Packed(x, p, rep) / 4 > 6 ==> p + Packed(x, p, rep) / 4 <= x.n
  {
    var i := FirstRep(x, p, rep, 0);
    if i < 4 { Unpacked(i, RepLength(x, p, -rep[i])); }
  }

  /** A slot and a length packed into 32 bits: the slot is kept, and the length at most shortened. */
  lemma Unpacked(i: nat, k: nat)
    requires i < 4
    ensures Wrap32(i + k * 4) % 4 == i && Wrap32(i + k * 4) / 4 <= k
  {
    var q := (i + k * 4) / TWO32;
    assert Wrap32(i + k * 4) == (k - q * 0x4000_0000) * 4 + i;
  }

  /** The match or the literals behind an escape that has been seen to. */
  ghost function Placed(x: Setting, m: Moment, found: Sought, room: int): (r: Moment)
    requires m.Ok(x) && m.pos < x.n && found.len <= x.n - m.pos
    ensures r.Ok(x) && m.pos < r.pos
  {
    var g := Decided(x, m.pos, m.rep, found);
    var e := m.(c := Entered(x, m.c, m.pos), budget := g.budget);
    if g.take then Matched(x, e, g.slot, g.len) else Skipped(x, e, g.skip, room)
  }

  ghost function Stepped(x: Setting, m: Moment, room: int): (r: Moment)
    requires m.Ok(x) && m.pos < x.n
    ensures r.Ok(x) && m.pos < r.pos
  {
    var e := Escaped(x, m);
    Placed(x, e, Found(x, e.c, e.pos, e.budget), room)
  }

  /** The parse up to the end of the block, or of the room. */
  ghost function Parsed(x: Setting, m: Moment, room: int): (e: Moment)
    requires m.Ok(x)
    ensures e.Ok(x) && (e.pos == x.n || e.size >= room)
    decreases x.n - m.pos
  {
    if m.pos >= x.n || m.size >= room then m else Parsed(x, Stepped(x, m, room), room)
  }

  ghost function Whole(x: Setting, c: Chains, room: int): (e: Moment)
    requires c.Ok(x)
    ensures e.Ok(x) && (e.pos == x.n || e.size >= room)
  {
    var m := Moment(c, 0, [-1, -1, -1, -1], 0, 0, [], 0);
    if 0 >= room then m else Parsed(x, Passed(x, m.(c := Entered(x, c, 0))), room)
  }

  // ---------------------------------------------------------------- every place is entered

  lemma {:induction false} EnteredJoin(x: Setting, c: Chains, a: nat, b: nat, d: nat)
    requires c.Ok(x) && a <= b <= d <= x.n + 1
    ensures EnteredUpTo(x, EnteredUpTo(x, c, a, b), b, d) == EnteredUpTo(x, c, a, d)
    decreases d
  {
    if b < d { EnteredJoin(x, c, a, b, d - 1); }
  }

  /** All places before this one are in the tables, in their order. */
  ghost predicate AllEntered(x: Setting, c: Chains, m: Moment)
    requires c.Ok(x) && m.Ok(x)
  {
    m.c == EnteredUpTo(x, c, 0, m.pos)
  }

  /** The literals of a run are entered as they pass, unless the parse ends there. */
  lemma {:induction false} SkippedEnters(x: Setting, c: Chains, m: Moment, skip: nat, room: int)
    requires c.Ok(x) && m.Ok(x) && m.pos < x.n && skip >= 1 && m.c == EnteredUpTo(x, c, 0, m.pos + 1)
    ensures var r := Skipped(x, m, skip, room); r.pos >= x.n || r.size >= room || AllEntered(x, c, r)
    decreases skip
  {
    var l := Passed(x, m);
    if skip > 1 {
      var e := l.(c := Entered(x, l.c, l.pos));
      if e.pos < x.n && e.size < room { SkippedEnters(x, c, Escaped(x, e), skip - 1, room); }
    }
  }

  /** Every step enters all the places it passes, unless the parse ends with it. */
  lemma StepEnters(x: Setting, c: Chains, m: Moment, room: int)
    requires c.Ok(x) && m.Ok(x) && m.pos < x.n && AllEntered(x, c, m)
    ensures var r := Stepped(x, m, room); r.pos >= x.n || r.size >= room || AllEntered(x, c, r)
  {
    var e := Escaped(x, m);
    PlacedEnters(x, c, e, Found(x, e.c, e.pos, e.budget), room);
  }

  lemma PlacedEnters(x: Setting, c: Chains, m: Moment, found: Sought, room: int)
    requires c.Ok(x) && m.Ok(x) && m.pos < x.n && AllEntered(x, c, m) && found.len <= x.n - m.pos
    ensures var r := Placed(x, m, found, room); r.pos >= x.n || r.size >= room || AllEntered(x, c, r)
  {
    var g := Decided(x, m.pos, m.rep, found);
    var e := m.(c := Entered(x, m.c, m.pos), budget := g.budget);
    assert e.c == EnteredUpTo(x, c, 0, m.pos + 1);
    if g.take {
      EnteredJoin(x, c, 0, m.pos + 1, m.pos + g.len);
    } else {
      SkippedEnters(x, c, e, g.skip, room);
    }
  }

  /** The head of a chain is the last place that went into it. */
  lemma {:induction false} HeadIsLatest(x: Setting, c: Chains, q: nat, end: nat)
    requires c.Ok(x) && q < end <= x.n && forall i | q < i < end :: SlotOf(Word(x.s, i), x.hashSize) != SlotOf(Word(x.s, q), x.hashSize)
    ensures EnteredUpTo(x, c, 0, end).head[SlotOf(Word(x.s, q), x.hashSize)] == EntryFor(q, TagOf(Word(x.s, q), x.offSize), x.offSize)
    decreases end
  {
    if q < end - 1 { HeadIsLatest(x, c, q, end - 1); }
  }

  /** The sizes are such that a place and a tag share a word. */
  predicate Shares(x: Setting) {
    0 < x.offSize && TWO32 % x.offSize == 0
  }

  /** Those of a block of up to 2^31 bytes are. */
  lemma SettingShares(block: seq<Byte>, pad: seq<Byte>, stats: seq<nat>)
    requires 0 < |block| <= 0x8000_0000
    ensures Shares(SettingFor(block, pad, stats))
  {
    var k := Bsr(|block| - 1) + 1;
    BsrBounds(|block| - 1);
    ThirtyTwo();
    if k > 32 { Pow2Monotone(32, k - 1); }
    Pow2Sum(32 - k, k);
    DivUnique(TWO32, Pow2(32 - k), Pow2(k), 0);
  }

  lemma ThirtyTwo()
    ensures Pow2(32) == TWO32
  {
    assert Pow2(4) == 16;
    Pow2Sum(4, 4);
    Pow2Sum(8, 8);
    Pow2Sum(16, 16);
  }

  lemma EntryGivesBack(at: nat, v: U32, offSize: nat)
    requires 0 < offSize && TWO32 % offSize == 0 && at < offSize
    ensures var l := EntryFor(at, TagOf(v, offSize), offSize); PlaceOf(l, offSize) == at && l - PlaceOf(l, offSize) == TagOf(v, offSize)
  {
    var k, q := TWO32 / offSize, v / offSize;
    WholeAndRest(v, offSize);
    WholeAndRest(TWO32, offSize);
    EntryOf(at, q, k, v % offSize, offSize);
    assert TagOf(v, offSize) == q * offSize;
  }

  lemma WholeAndRest(v: nat, p: nat)
    requires p > 0
    ensures v / p >= 0 && v == v / p * p + v % p && 0 <= v % p < p
  {
  }

  lemma EntryOf(at: nat, q: nat, k: nat, rest: nat, p: nat)
    requires at < p && rest < p && q * p + rest < TWO32 == k * p
    ensures EntryFor(at, q * p, p) == q * p + at && PlaceOf(q * p + at, p) == at
  {
    ScaledLess(k, q, p, rest);
    Distributes(q + 1, k - q - 1, p);
    Distributes(q, 1, p);
    DivUnique(q * p + at, q, p, at);
  }

  /** It is live for a later place with the same word. */
  lemma LatestIsLive(x: Setting, q: nat, p: nat)
    requires x.Ok() && Shares(x) && q < p < x.n && Word(x.s, p) == Word(x.s, q)
    ensures var v := Word(x.s, p); var l := EntryFor(q, TagOf(v, x.offSize), x.offSize);
      IsLive(x, p, TagOf(v, x.offSize), l) && PlaceOf(l, x.offSize) == q
  {
    EntryGivesBack(q, Word(x.s, p), x.offSize);
  }

  /** The search at a place finds at least the match at the last place of the same word. */
  lemma LatestIsFound(x: Setting, c0: Chains, c: Chains, q: nat, p: nat, budget: nat)
    requires c0.Ok(x) && Shares(x) && q < p && p + 4 <= x.n && c == EnteredUpTo(x, c0, 0, p) && Word(x.s, p) == Word(x.s, q)
    requires forall i | q < i < p :: SlotOf(Word(x.s, i), x.hashSize) != SlotOf(Word(x.s, q), x.hashSize)
    ensures Found(x, c, p, budget).len >= Agreement(x, p, q) >= 4
  {
    var v := Word(x.s, p);
    var l := EntryFor(q, TagOf(v, x.offSize), x.offSize);
    HeadIsLatest(x, c0, q, p);
    LatestIsLive(x, q, p);
    SearchIsOne(x, c, p, budget, Found(x, c, p, budget));
    FourAgree(x, p, q);
    var k := SearchIsLongest(x, Entered(x, c, p), p, TagOf(v, x.offSize), l, budget);
    assert Nth(x, Entered(x, c, p), l, 0) == l;
  }

  /** One operation more, a match of at least `len` bytes. */
  ghost predicate AddsMatch(m: Moment, next: Moment, len: nat) {
    && |next.ops| == |m.ops| + 1 && next.ops[..|m.ops|] == m.ops && IsLongOp(next.ops[|m.ops|], len)
    && next.pos >= m.pos + len && next.size == m.size + 3
  }

  predicate IsLongOp(op: Op, len: nat) {
    (op.Fresh? || op.Again?) && op.len >= len
  }

  /**
   Where the parse has come to a place that goes on for 0x100 bytes like the last place with its hash, it
   makes a match of at least 0xff bytes. (From 2^30 bytes on the scores of lengths may wrap.)
   */
  lemma LongRepeatIsMatched(x: Setting, c: Chains, m: Moment, q: nat, room: int)
    requires c.Ok(x) && Shares(x) && x.n < 0x4000_0000 && m.Ok(x) && AllEntered(x, c, m) && q < m.pos && m.pos + 0x100 <= x.n
    requires Agreement(x, m.pos, q) >= 0x100
    requires forall i | q < i < m.pos :: SlotOf(Word(x.s, i), x.hashSize) != SlotOf(Word(x.s, q), x.hashSize)
    ensures AddsMatch(Escaped(x, m), Stepped(x, m, room), 0xff)
  {
    var e := Escaped(x, m);
    SameWords(x, m.pos, q);
    LatestIsFound(x, c, e.c, q, m.pos, e.budget);
    LongIsPlaced(x, e, Found(x, e.c, e.pos, e.budget), room);
  }

  lemma SameWords(x: Setting, p: nat, q: nat)
    requires x.Ok() && q < p <= x.n && Agreement(x, p, q) >= 4
    ensures Word(x.s, p) == Word(x.s, q)
  {
    AgreeingBytes(x.s, p, q, x.n - p);
    assert x.s[p] == x.s[p - p + q] && x.s[p + 1] == x.s[p + 1 - p + q] && x.s[p + 2] == x.s[p + 2 - p + q] && x.s[p + 3] == x.s[p + 3 - p + q];
  }

  /** A match of 0x100 bytes is taken, or one at a last distance that is hardly shorter. */
  lemma LongIsPlaced(x: Setting, m: Moment, found: Sought, room: int)
    requires m.Ok(x) && m.pos < x.n < 0x4000_0000 && 0x100 <= found.len <= x.n - m.pos
    ensures AddsMatch(m, Placed(x, m, found, room), 0xff)
  {
    var g := Decided(x, m.pos, m.rep, found);
    DecidedIsLong(x, m.pos, m.rep, found);
    var e := m.(c := Entered(x, m.c, m.pos), budget := g.budget);
    assert Placed(x, m, found, room) == Matched(x, e, g.slot, g.len);
  }

  lemma DecidedIsLong(x: Setting, p: nat, rep: seq<int>, found: Sought)
    requires x.Ok() && p < x.n < 0x4000_0000 && |rep| == 4 && 0x100 <= found.len <= x.n - p
    ensures Decided(x, p, rep, found).take && Decided(x, p, rep, found).len >= 0xff
  {
    var packed := Packed(x, p, rep);
    PackedFits(x, p, rep);
    var i := FirstRep(x, p, rep, 0);
    PackedIsSmall(packed, i, if i == 4 then 0 else RepLength(x, p, -rep[i]), found);
    var m := Candidate(packed, found);
    LongIsTaken(x, p, m.0, m.1, found.budget);
  }

  lemma PackedIsSmall(packed: U32, i: nat, len: nat, found: Sought)
    requires i <= 4 && len < 0x3fff_ffff && packed == (if i == 4 then 0 else Wrap32(i + len * 4)) && 0x100 <= found.len < 0x4000_0000
    ensures Candidate(packed, found).1 >= 0xff
  {
    if i < 4 { assert i + len * 4 < TWO32; }
    assert Wrap32(packed + 4) == packed + 4;
    assert Wrap32(found.len * 4) == found.len * 4;
  }

  // ---------------------------------------------------------------- what the encoder has done

  /** The walk from here gives this; this and the rest is out of sight until `Look(RawBits, 0)`. */
  ghost predicate IsWalk(x: Setting, c: Chains, p: nat, tag: nat, link: U32, probes: nat, best: nat, dist: nat, compare: bool, budget: nat, r: Sought) {
    forall z {:trigger Look(RawBits, z)} :: Look(RawBits, z) ==>
      && c.Ok(x) && p < x.n && IsLive(x, p, tag, link) && probes >= 1 && (!compare ==> best >= 4) && best <= x.n - p
      && (compare ==> Agreement(x, p, PlaceOf(link, x.offSize)) >= 4)
      && r == Walk(x, c, p, tag, link, probes, best, dist, compare, budget)
  }

  ghost predicate IsFollow(x: Setting, c: Chains, p: nat, tag: nat, link: U32, probes: nat, best: nat, dist: nat, budget: nat, r: Sought) {
    forall z {:trigger Look(RawBits, z)} :: Look(RawBits, z) ==>
      c.Ok(x) && p < x.n && 4 <= best <= x.n - p && r == Follow(x, c, p, tag, link, probes, best, dist, budget)
  }

  lemma WalkBegins(x: Setting, c: Chains, p: nat, tag: nat, link: U32, probes: nat, budget: nat) returns (r: Sought)
    requires c.Ok(x) && p < x.n && IsLive(x, p, tag, link) && probes >= 1 && Agreement(x, p, PlaceOf(link, x.offSize)) >= 4
    ensures r == Walk(x, c, p, tag, link, probes, 0, 0, true, budget) && IsWalk(x, c, p, tag, link, probes, 0, 0, true, budget, r)
  {
    r := Walk(x, c, p, tag, link, probes, 0, 0, true, budget);
  }

  lemma WalkPasses(x: Setting, c: Chains, p: nat, tag: nat, link: U32, probes: nat, best: nat, dist: nat, compare: bool, budget: nat, r: Sought)
    requires c.Ok(x) && p < x.n && IsLive(x, p, tag, link) && IsWalk(x, c, p, tag, link, probes, best, dist, compare, budget, r)
    requires !compare || Agreement(x, p, PlaceOf(link, x.offSize)) <= best
    ensures probes >= 1 && IsFollow(x, c, p, tag, link, probes - 1, best, dist, budget, r)
  {
    assert Look(RawBits, 0);
  }

  lemma WalkFinds(x: Setting, c: Chains, p: nat, tag: nat, link: U32, probes: nat, best: nat, dist: nat, budget: nat, r: Sought, cur: nat)
    requires c.Ok(x) && p < x.n && IsLive(x, p, tag, link) && IsWalk(x, c, p, tag, link, probes, best, dist, true, budget, r)
    requires best < cur == Agreement(x, p, PlaceOf(link, x.offSize))
    ensures if cur > 0x80 then r == Sought(p - PlaceOf(link, x.offSize), cur, Paid(budget, best, cur))
      else Halved(probes, cur) >= 1 && IsFollow(x, c, p, tag, link, Halved(probes, cur) - 1, cur, p - PlaceOf(link, x.offSize), Paid(budget, best, cur), r)
  {
    assert Look(RawBits, 0);
  }

  lemma FollowEnds(x: Setting, c: Chains, p: nat, tag: nat, link: U32, best: nat, dist: nat, budget: nat, r: Sought)
    requires IsFollow(x, c, p, tag, link, 0, best, dist, budget, r)
    ensures r == Sought(dist, best, budget)
  {
    assert Look(RawBits, 0);
  }

  lemma FollowGoesOn(x: Setting, c: Chains, p: nat, tag: nat, link: U32, probes: nat, best: nat, dist: nat, budget: nat, r: Sought, next: U32)
    requires c.Ok(x) && p < x.n && IsFollow(x, c, p, tag, link, probes, best, dist, budget, r) && probes >= 1 && next == Linked(x, c, link)
    ensures 4 <= best <= x.n - p
    ensures var cand := PlaceOf(next, x.offSize);
      if cand >= p then r == Sought(dist, best, budget)
      else if !IsLive(x, p, tag, next) then r == Sought(dist, best, budget - budget / 16)
      else if Word(x.s, cand + best - 3) != Word(x.s, p + best - 3) then IsWalk(x, c, p, tag, next, probes, best, dist, false, budget, r)
      else if Word(x.s, cand) != Word(x.s, p) then r == Sought(dist, best, budget / 2)
      else Agreement(x, p, cand) >= 4 && IsWalk(x, c, p, tag, next, probes, best, dist, true, budget, r)
  {
    assert Look(RawBits, 0);
    var cand := PlaceOf(next, x.offSize);
    if IsLive(x, p, tag, next) && Word(x.s, cand) == Word(x.s, p) { FourAgree(x, p, cand); }
  }

  lemma SearchedBy(x: Setting, c: Chains, p: nat, budget: nat, found: Sought)
    requires c.Ok(x) && p < x.n
    requires var v := Word(x.s, p);
      found == Searched(x, Entered(x, c, p), p, TagOf(v, x.offSize), c.head[SlotOf(v, x.hashSize)], budget)
    ensures IsSearched(x, c, p, budget, found)
  {
    SearchIsOne(x, c, p, budget, found);
  }

  /** A distance that is found is one at which the block repeats. */
  lemma FoundIsThere(x: Setting, c: Chains, p: nat, budget: nat, found: Sought)
    requires c.Ok(x) && p < x.n && IsSearched(x, c, p, budget, found)
    ensures if found.dist == 0 then found.len == 0 else 1 <= found.dist <= p && found.len == Agreement(x, p, p - found.dist)
  {
    SearchIsOne(x, c, p, budget, found);
    var v := Word(x.s, p);
    var tag, link, e := TagOf(v, x.offSize), c.head[SlotOf(v, x.hashSize)], Entered(x, c, p);
    if IsLive(x, p, tag, link) && Word(x.s, PlaceOf(link, x.offSize)) == v && x.n - p > 3 {
      var k := SearchIsLongest(x, e, p, tag, link, budget);
    }
  }

  ghost predicate IsFound(x: Setting, c: Chains, p: nat, budget: nat, found: Sought) {
    forall z {:trigger Look(RawBits, z)} :: Look(RawBits, z) ==> c.Ok(x) && p < x.n && found == Found(x, c, p, budget)
  }

  lemma SearchedIsFound(x: Setting, c: Chains, p: nat, budget: nat, found: Sought)
    requires c.Ok(x) && p < x.n && IsSearched(x, c, p, budget, found)
    ensures IsFound(x, c, p, budget, found) && found.len <= x.n - p
  {
    SearchIsOne(x, c, p, budget, found);
    SearchIsOne(x, c, p, budget, Found(x, c, p, budget));
  }

  ghost predicate IsDecided(x: Setting, p: nat, rep: seq<int>, found: Sought, g: Chosen) {
    forall z {:trigger Look(RawBits, z)} :: Look(RawBits, z) ==>
      x.Ok() && p < x.n && |rep| == 4 && found.len <= x.n - p && g == Decided(x, p, rep, found)
  }

  ghost predicate IsSkipped(x: Setting, m: Moment, skip: nat, room: int, next: Moment) {
    forall z {:trigger Look(RawBits, z)} :: Look(RawBits, z) ==>
      m.Ok(x) && m.pos < x.n && skip >= 1 && next == Skipped(x, m, skip, room)
  }

  ghost predicate SkipsOn(x: Setting, m: Moment, skip: nat, room: int, now: Moment, left: nat) {
    forall z {:trigger Look(RawBits, z)} :: Look(RawBits, z) ==>
      && m.Ok(x) && m.pos < x.n && skip >= 1 && now.Ok(x) && now.pos < x.n && left >= 1
      && Skipped(x, m, skip, room) == Skipped(x, now, left, room)
  }

  lemma SkipBegins(x: Setting, m: Moment, skip: nat, room: int)
    requires m.Ok(x) && m.pos < x.n && skip >= 1
    ensures SkipsOn(x, m, skip, room, m, skip)
  {
  }

  lemma SkipEnds(x: Setting, m: Moment, skip: nat, room: int, now: Moment, left: nat)
    requires now.Ok(x) && now.pos < x.n && left == 1 && SkipsOn(x, m, skip, room, now, left)
    ensures IsSkipped(x, m, skip, room, Passed(x, now))
  {
    assert Look(RawBits, 0);
  }

  lemma SkipGoesOn(x: Setting, m: Moment, skip: nat, room: int, now: Moment, left: nat, next: Moment, after: nat)
    requires now.Ok(x) && now.pos < x.n && 1 <= after == left - 1 && SkipsOn(x, m, skip, room, now, left)
    requires var l := Passed(x, now); next == l.(c := Entered(x, l.c, l.pos))
    ensures if next.pos >= x.n || next.size >= room then IsSkipped(x, m, skip, room, next)
      else SkipsOn(x, m, skip, room, Escaped(x, next), after)
  {
    assert Look(RawBits, 0);
  }

  ghost predicate IsStepped(x: Setting, m: Moment, room: int, next: Moment) {
    forall z {:trigger Look(RawBits, z)} :: Look(RawBits, z) ==> m.Ok(x) && m.pos < x.n && next == Stepped(x, m, room)
  }

  lemma StepIs(x: Setting, m: Moment, found: Sought, g: Chosen, room: int, next: Moment)
    requires m.Ok(x) && m.pos < x.n
    requires var e := Escaped(x, m); IsFound(x, e.c, e.pos, e.budget, found) && found.len <= x.n - m.pos && IsDecided(x, e.pos, e.rep, found, g)
    requires var e := Escaped(x, m); var t := e.(c := Entered(x, e.c, e.pos), budget := g.budget);
      if g.take then 1 <= g.len && m.pos + g.len <= x.n && next == Matched(x, t, g.slot, g.len)
      else IsSkipped(x, t, g.skip, room, next)
    ensures IsStepped(x, m, room, next)
  {
    assert Look(RawBits, 0);
    assert next == Placed(x, Escaped(x, m), found, room);
  }

  ghost predicate GoesOn(x: Setting, m: Moment, room: int, now: Moment) {
    forall z {:trigger Look(RawBits, z)} :: Look(RawBits, z) ==> m.Ok(x) && now.Ok(x) && Parsed(x, m, room) == Parsed(x, now, room)
  }

  lemma GoesOnFrom(x: Setting, m: Moment, room: int)
    requires m.Ok(x)
    ensures GoesOn(x, m, room, m)
  {
  }

  lemma GoesOnStep(x: Setting, m: Moment, room: int, at: Moment, next: Moment)
    requires GoesOn(x, m, room, at) && at.pos < x.n && at.size < room && IsStepped(x, at, room, next)
    ensures GoesOn(x, m, room, next)
  {
    assert Look(RawBits, 0);
  }

  ghost predicate IsWhole(x: Setting, c: Chains, room: int, e: Moment) {
    forall z {:trigger Look(RawBits, z)} :: Look(RawBits, z) ==> c.Ok(x) && e == Whole(x, c, room)
  }

  lemma WholeIs(x: Setting, c: Chains, room: int, first: Moment, e: Moment)
    requires c.Ok(x) && 0 < room && first == Passed(x, Moment(Entered(x, c, 0), 0, [-1, -1, -1, -1], 0, 0, [], 0))
    requires GoesOn(x, first, room, e) && (e.pos == x.n || e.size >= room)
    ensures IsWhole(x, c, room, e)
  {
    assert Look(RawBits, 0);
  }

  lemma NoRoomIsWhole(x: Setting, c: Chains, room: int)
    requires c.Ok(x) && room <= 0
    ensures IsWhole(x, c, room, Moment(c, 0, [-1, -1, -1, -1], 0, 0, [], 0))
  {
  }
}
