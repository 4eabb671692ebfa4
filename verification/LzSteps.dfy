/**
 The LZ parse step by step, as functions: which token or literal comes at a place, and how a chunk is
 opened. The parser is proved to take exactly these steps; of them it is proved when a token is made.
 */
module LzSteps {
  import opened Words
  import opened LastFour
  import opened Arith
  import opened IntCoding
  import opened Matching
  import opened LzTokens
  import opened LzSearch

  /** Where a parse stands: `since` is what was left of the chunk when the last token was made. */
  datatype Moment = Moment(tables: Tables, tok: seq<Token>, pos: nat, since: nat, run: nat, rep: seq<int>, cont: nat) {
    ghost predicate Ok(x: Setting) {
      x.Ok() && pos <= x.end && x.end - pos <= since && |rep| == 4 && |tables.one| == x.buckets + 12
    }
  }

  /** The number the encoder's distances have in unsigned words, brought round the ring's end. */
  function Fixed(off: U32, size: nat): U32 {
    Wrap32(off + if off >= 0x8000_0000 then size else 0)
  }

  // ---------------------------------------------------------------- the literals not searched

  /** Is the next literal of a run this long passed over? */
  predicate IsSkipped(skip: seq<bool>, run: nat)
    requires |skip| == 256
  {
    skip[if 0x80 < run then 0x80 + run % 0x80 else run]
  }

  /** How many literals in a row are, of the `left` that there are. */
  function Skipped(skip: seq<bool>, run: nat, left: nat): (n: nat)
    requires |skip| == 256
    ensures n <= left
    decreases left
  {
    if left == 0 || !IsSkipped(skip, run) then 0 else 1 + Skipped(skip, run + 1, left - 1)
  }

  /** Those and no more: the next one, if there is one, is searched. */
  lemma {:induction false} SkippedIsAll(skip: seq<bool>, run: nat, left: nat, k: nat)
    requires |skip| == 256 && k <= Skipped(skip, run, left) && k < left
    ensures IsSkipped(skip, run + k) <==> k < Skipped(skip, run, left)
    decreases left
  {
    if k > 0 { SkippedIsAll(skip, run + 1, left - 1, k - 1); }
  }

  /** At least the first `n` of them are; out of sight until `Look(Codes, 0)`. */
  ghost predicate SkipsTo(skip: seq<bool>, run: nat, left: nat, n: nat) {
    forall z {:trigger Look(Codes, z)} :: Look(Codes, z) ==>
      |skip| == 256 && n <= left && Skipped(skip, run, left) == n + Skipped(skip, run + n, left - n)
  }

  lemma SkipsFrom(skip: seq<bool>, run: nat, left: nat)
    requires |skip| == 256
    ensures SkipsTo(skip, run, left, 0)
  {
  }

  lemma SkipsOn(skip: seq<bool>, run: nat, left: nat, n: nat)
    requires |skip| == 256 && n <= left && SkipsTo(skip, run, left, n)
    ensures if n < left && IsSkipped(skip, run + n) then SkipsTo(skip, run, left, n + 1) else n == Skipped(skip, run, left)
  {
    assert Look(Codes, 0);
  }

  // ---------------------------------------------------------------- the last four distances

  /** How many bytes agree at a distance, of those left; two are compared even if only one is left. */
  ghost function RepLength(x: Setting, p: nat, d: int): (n: nat)
    requires x.Ok() && p <= x.end
  {
    var lim := if x.end - p < 2 then 2 else x.end - p;
    if 0 <= p + d && p + d + lim <= |x.mem| then Agreeing(x.mem, p, p + d, lim) else 0
  }

  /** The first distance from `i` on at which two bytes agree; 4 if there is none. */
  ghost function FirstRep(x: Setting, p: nat, rep: seq<int>, i: nat): (k: nat)
    requires x.Ok() && p <= x.end && |rep| == 4 && i <= 4
    ensures i <= k <= 4 && (forall j | i <= j < k :: RepLength(x, p, rep[j]) < 2)
    ensures k < 4 ==> RepLength(x, p, rep[k]) >= 2
    decreases 4 - i, x
  {
    if i == 4 || RepLength(x, p, rep[i]) >= 2 then i else FirstRep(x, p, rep, i + 1)
  }

  /** A match at a distance is used unless it would run past the window or only one byte is left. */
  predicate RepFits(x: Setting, p: nat, d: int, n: nat) {
    p + d + n <= x.size && p + 1 != x.end
  }

  // ---------------------------------------------------------------- steps

  /** A token of `n` bytes. */
  function Tokened(x: Setting, m: Moment, sel: nat, raw: nat, n: nat): Moment
    requires m.pos + n <= x.end && x.end - m.pos <= m.since
  {
    var t := Token(m.since - (x.end - m.pos), sel, raw);
    m.(tok := m.tok + [t], pos := m.pos + n, since := x.end - (m.pos + n), run := 0)
  }

  function Literal(m: Moment): Moment {
    m.(pos := m.pos + 1, run := m.run + 1, cont := 0)
  }

  function OffsetOf(x: Setting, p: nat, place: nat): U32 {
    Fixed(Wrap32(p - place), x.size)
  }

  /** Is a match long enough for its distance? */
  predicate IsWorth(x: Setting, p: nat, hit: Hit) {
    Extra(OffsetOf(x, p, hit.place)) + 4 <= hit.mlen
  }

  /** A match at a new distance: the last four move up. */
  function New(x: Setting, m: Moment, off: U32, n: nat): Moment
    requires m.pos + n <= x.end && x.end - m.pos <= m.since && |m.rep| == 4 && Extra(off) + 4 <= n
  {
    var d: int := if m.pos < off then x.size - off else 0 - off;
    var b := if m.cont == 0xffff_ffff then -1 else m.rep[0];
    Tokened(x, m, off + 3, n - (Extra(off) + 4), n).(rep := [d, b, m.rep[1], m.rep[2]], cont := off + 3)
  }

  /** What a search gives; that it is what LzSearch says is out of sight until `Look(RawBits, 0)`. */
  ghost function Sought(x: Setting, p: nat, t: Tables): (hit: Hit)
    requires x.Ok() && p <= x.end && |t.one| == x.buckets + 12
    ensures IsSearched(x, p, t, hit) && hit.mlen <= x.end - p && |hit.tables.one| == |t.one|
  {
    SearchIsOne(x, p, t, x.Searched(p, t));
    var hit :| IsSearched(x, p, t, hit);
    SearchIsOne(x, p, t, hit);
    hit
  }

  lemma SearchIsOne(x: Setting, p: nat, t: Tables, hit: Hit)
    requires x.Ok() && p <= x.end && |t.one| == x.buckets + 12
    ensures IsSearched(x, p, t, hit) <==> hit == x.Searched(p, t)
  {
    assert Look(RawBits, 0);
  }

  lemma SoughtIs(x: Setting, p: nat, t: Tables, hit: Hit)
    requires x.Ok() && p <= x.end && |t.one| == x.buckets + 12 && IsSearched(x, p, t, hit)
    ensures hit == Sought(x, p, t)
  {
    SearchIsOne(x, p, t, hit);
    SearchIsOne(x, p, t, Sought(x, p, t));
  }

  /** What a search at this moment may give. */
  ghost predicate Fits(x: Setting, m: Moment, hit: Hit) {
    m.Ok(x) && hit.mlen <= x.end - m.pos && |hit.tables.one| == |m.tables.one|
  }

  /** The token at a new distance, or a literal. */
  ghost function ByTables(x: Setting, m: Moment, hit: Hit): Moment
    requires Fits(x, m, hit)
  {
    var m1 := m.(tables := hit.tables);
    if IsWorth(x, m.pos, hit) then New(x, m1, OffsetOf(x, m.pos, hit.place), hit.mlen) else Literal(m1)
  }

  /** A token, at one of the last distances or as the search gives it, or a literal. */
  ghost function Placed(x: Setting, m: Moment, hit: Hit): Moment
    requires Fits(x, m, hit) && m.pos < x.end
  {
    var i := FirstRep(x, m.pos, m.rep, 0);
    if i == 4 then ByTables(x, m, hit)
    else
      var n := RepLength(x, m.pos, m.rep[i]);
      if RepFits(x, m.pos, m.rep[i], n) then Tokened(x, m, i, n - 2, n).(rep := Promoted(m.rep, i)) else Literal(m)
  }

  function Past(m: Moment, n: nat): Moment {
    m.(pos := m.pos + n, run := m.run + n)
  }

  /** Behind `n` literals that are passed over, the next token or literal. */
  ghost function StepBy(x: Setting, m: Moment, n: nat, hit: Hit): (next: Moment)
    requires m.pos + n <= x.end && 0 < x.end - m.pos && Fits(x, Past(m, n), hit)
    ensures next.Ok(x) && m.pos < next.pos
  {
    if m.pos + n == x.end then Past(m, n) else Placed(x, Past(m, n), hit)
  }

  ghost function Stepped(x: Setting, m: Moment): (next: Moment)
    requires m.Ok(x) && m.pos < x.end
    ensures next.Ok(x) && m.pos < next.pos
  {
    var n := Skipped(x.skip, m.run, x.end - m.pos);
    StepBy(x, m, n, Sought(x, m.pos + n, m.tables))
  }

  // ---------------------------------------------------------------- a chunk

  /** Where the comparison with the place of the hint reads. */
  function HintPlace(hint: U32, size: nat): U32 {
    if hint < size then hint else Wrap32(hint - size)
  }

  /** How far the window at the hint's place agrees with the chunk from `start` to `end`. */
  ghost function AtHint(v: seq<Byte>, start: nat, end: nat, hint: U32): (n: nat)
    requires start <= end <= |v|
    ensures n <= end - start
  {
    var c := HintPlace(hint, |v|);
    if c > |v| || (c < end && start <= c) then 0 else Agreeing(v, start, c, Min(end - start, |v| - c))
  }

  /** A chunk's beginning. */
  function Began(t: Tables, p: nat, left: nat, cont: U32): Moment {
    Moment(t, [], p, left, 0, [-1, -1, -1, -1], cont)
  }

  /** What goes on from the chunk before, or the window's first byte, comes first. */
  ghost function Opened(x: Setting, t: Tables, p: nat, cont: U32): (m: Moment)
    requires x.Ok() && p < x.end && |t.one| == x.buckets + 12
    ensures m.Ok(x)
  {
    var n := AtHint(x.mem[..x.size], p, x.end, cont);
    var m := Began(t, p, x.end - p, cont);
    if cont != 0 && 10 < n then New(x, m.(cont := 0xffff_ffff), OffsetOf(x, p, HintPlace(cont, x.size)), n)
    else if p == 0 then Literal(m)
    else m
  }

  /** The parse of the rest of a chunk. */
  ghost function Parsed(x: Setting, m: Moment): (e: Moment)
    requires m.Ok(x)
    ensures e.Ok(x) && e.pos == x.end
    decreases x.end - m.pos
  {
    if m.pos == x.end then m
    else
      Parsed(x, Stepped(x, m))
  }

  // ---------------------------------------------------------------- a chunk that is not parsed

  /** A place goes to the front of its bucket. */
  function Entered(x: Setting, table: seq<U32>, at: nat): (r: seq<U32>)
    requires x.Ok() && |table| == x.buckets + 12 && at < x.size
    ensures |r| == |table|
  {
    var h := Hash(x.mem, at);
    var b := HashBucket(h, x.buckets);
    Put(table, b, Inserted(table[b..b + 4], EntryFor(at, HashTag(h, x.unit, x.tags), x.unit)))
  }

  /** Of each 0x493 places eight are entered: the first four, and then with gaps. */
  function Gap(k: nat): nat {
    if k < 4 then k else if k == 4 then 0x26 else if k == 5 then 0x4d else if k == 6 then 0x72 else 0x93
  }

  /** One of them is if the chunk goes on behind the gap that follows, as far as this. */
  function Need(k: nat): nat {
    if k < 3 then k
    else if k == 3 then 0x25 else if k == 4 then 0x4c else if k == 5 then 0x71 else if k == 6 then 0x92 else 0x492
  }

  function EnteredLap(x: Setting, table: seq<U32>, p: nat, left: nat, k: nat): (r: seq<U32>)
    requires x.Ok() && |table| == x.buckets + 12 && p + left < x.size
    ensures |r| == |table|
    decreases k, x
  {
    if k == 0 then table
    else
      var t := EnteredLap(x, table, p, left, k - 1);
      if Need(k - 1) <= left && Gap(k - 1) <= left then Entered(x, t, p + Gap(k - 1)) else t
  }

  function EnteredSparse(x: Setting, table: seq<U32>, p: nat, left: int): (r: seq<U32>)
    requires x.Ok() && |table| == x.buckets + 12 && p + left < x.size
    decreases if left < 0 then 0 else left + 1
  {
    if left < 0 then table else EnteredSparse(x, EnteredLap(x, table, p, left, 8), p + 0x493, left - 0x493)
  }

  /** The first `k` of a lap are in the table; out of sight until `Look(Codes, 0)`. */
  ghost predicate IsLap(x: Setting, was: seq<U32>, p: nat, left: nat, k: nat, now: seq<U32>) {
    forall z {:trigger Look(Codes, z)} :: Look(Codes, z) ==>
      x.Ok() && |was| == x.buckets + 12 && p + left < x.size && now == EnteredLap(x, was, p, left, k)
  }

  /** What is still to enter completes the chunk; out of sight until `Look(Codes, 0)`. */
  ghost predicate IsSparse(x: Setting, was: seq<U32>, p: nat, left: int, now: seq<U32>, q: nat, more: int) {
    forall z {:trigger Look(Codes, z)} :: Look(Codes, z) ==>
      && x.Ok() && |was| == |now| == x.buckets + 12 && p + left < x.size && q + more < x.size
      && EnteredSparse(x, was, p, left) == EnteredSparse(x, now, q, more)
  }

  lemma LapBegins(x: Setting, was: seq<U32>, p: nat, left: nat)
    requires x.Ok() && |was| == x.buckets + 12 && p + left < x.size
    ensures IsLap(x, was, p, left, 0, was)
  {
  }

  lemma LapGrows(x: Setting, was: seq<U32>, p: nat, left: nat, k: nat, now: seq<U32>)
    requires x.Ok() && |now| == x.buckets + 12 && p + left < x.size && k < 8 && Need(k) <= left && IsLap(x, was, p, left, k, now)
    ensures Gap(k) <= left && IsLap(x, was, p, left, k + 1, Entered(x, now, p + Gap(k)))
  {
    assert Look(Codes, 0);
  }

  /** The needs grow: where one is not met, those after it are not. */
  lemma {:induction false} LapEnds(x: Setting, was: seq<U32>, p: nat, left: nat, k: nat, now: seq<U32>, all: nat)
    requires x.Ok() && p + left < x.size && k <= all == 8 && (k < all ==> left < Need(k)) && IsLap(x, was, p, left, k, now)
    ensures IsLap(x, was, p, left, all, now)
    decreases 8 - k
  {
    if k < all {
      LapMisses(x, was, p, left, k, now);
      LapEnds(x, was, p, left, k + 1, now, all);
    }
  }

  lemma LapMisses(x: Setting, was: seq<U32>, p: nat, left: nat, k: nat, now: seq<U32>)
    requires left < Need(k) && IsLap(x, was, p, left, k, now)
    ensures IsLap(x, was, p, left, k + 1, now)
  {
    assert Look(Codes, 0);
  }

  lemma SparseBegins(x: Setting, was: seq<U32>, p: nat, left: int)
    requires x.Ok() && |was| == x.buckets + 12 && p + left < x.size
    ensures IsSparse(x, was, p, left, was, p, left)
  {
  }

  lemma SparseGoesOn(x: Setting, was: seq<U32>, p: nat, left: int, mid: seq<U32>, q: nat, more: nat, now: seq<U32>, lap: nat)
    requires IsSparse(x, was, p, left, mid, q, more) && lap == 8 && IsLap(x, mid, q, more, lap, now)
    ensures IsSparse(x, was, p, left, now, q + 0x493, more - 0x493)
  {
    assert Look(Codes, 0);
  }

  // ---------------------------------------------------------------- what the parser has done

  /** It has found which distance comes first; this and the rest is out of sight until `Look(Codes, 0)`. */
  ghost predicate IsFirst(x: Setting, p: nat, rep: seq<int>, i: nat) {
    forall z {:trigger Look(Codes, z)} :: Look(Codes, z) ==>
      x.Ok() && p <= x.end && |rep| == 4 && i == FirstRep(x, p, rep, 0)
  }

  /** None of the first `i` distances will do. */
  ghost predicate IsFrom(x: Setting, p: nat, rep: seq<int>, i: nat) {
    forall z {:trigger Look(Codes, z)} :: Look(Codes, z) ==>
      x.Ok() && p <= x.end && |rep| == 4 && i <= 4 && FirstRep(x, p, rep, i) == FirstRep(x, p, rep, 0)
  }

  lemma FromBeginning(x: Setting, p: nat, rep: seq<int>)
    requires x.Ok() && p <= x.end && |rep| == 4
    ensures IsFrom(x, p, rep, 0)
  {
  }

  lemma FromNext(x: Setting, p: nat, rep: seq<int>, i: nat)
    requires x.Ok() && p <= x.end && |rep| == 4 && i < 4 && IsFrom(x, p, rep, i)
    ensures if RepLength(x, p, rep[i]) >= 2 then IsFirst(x, p, rep, i) else IsFrom(x, p, rep, i + 1)
  {
    assert Look(Codes, 0);
  }

  /** One distance more has been looked at. */
  lemma FromLooked(x: Setting, p: nat, rep: seq<int>, i: nat, agree: bool)
    requires x.Ok() && p < x.end && |rep| == 4 && i < 4 && IsFrom(x, p, rep, i) && 0 <= p + rep[i] && p + rep[i] + x.end - p + 2 <= |x.mem|
    requires agree <==> x.mem[p] == x.mem[p + rep[i]] && x.mem[p + 1] == x.mem[p + rep[i] + 1]
    ensures if agree then IsFirst(x, p, rep, i) else IsFrom(x, p, rep, i + 1)
  {
    TwoAgree(x, p, rep[i]);
    FromNext(x, p, rep, i);
  }

  lemma FromNone(x: Setting, p: nat, rep: seq<int>)
    requires x.Ok() && p <= x.end && |rep| == 4 && IsFrom(x, p, rep, 4)
    ensures IsFirst(x, p, rep, 4)
  {
    assert Look(Codes, 0);
  }

  /** Two bytes agree there if they do. */
  lemma TwoAgree(x: Setting, p: nat, d: int)
    requires x.Ok() && p <= x.end && 0 <= p + d && p + d + (if x.end - p < 2 then 2 else x.end - p) <= |x.mem|
    ensures RepLength(x, p, d) >= 2 <==> x.mem[p] == x.mem[p + d] && x.mem[p + 1] == x.mem[p + d + 1]
  {
    var lim := if x.end - p < 2 then 2 else x.end - p;
    assert Agreeing(x.mem, p, p + d, lim) == if x.mem[p] != x.mem[p + d] then 0 else 1 + Agreeing(x.mem, p + 1, p + d + 1, lim - 1);
    assert Agreeing(x.mem, p + 1, p + d + 1, lim - 1) == if x.mem[p + 1] != x.mem[p + d + 1] then 0 else 1 + Agreeing(x.mem, p + 2, p + d + 2, lim - 2);
  }

  /** The match at distance `i` is used, or cannot be. */
  ghost predicate ByRep(x: Setting, m: Moment, i: nat, put: bool, next: Moment) {
    forall z {:trigger Look(Codes, z)} :: Look(Codes, z) ==>
      && m.Ok(x) && i < 4
      && var n := RepLength(x, m.pos, m.rep[i]);
      && put == RepFits(x, m.pos, m.rep[i], n) && (put ==> m.pos + n <= x.end && n >= 2)
      && next == if put then Tokened(x, m, i, n - 2, n).(rep := Promoted(m.rep, i)) else m
  }

  /** How long the match there is, 0 where it cannot be used. */
  ghost predicate IsRepLength(x: Setting, p: nat, d: int, n: nat) {
    forall z {:trigger Look(Codes, z)} :: Look(Codes, z) ==>
      x.Ok() && p < x.end && n == if RepFits(x, p, d, RepLength(x, p, d)) then RepLength(x, p, d) else 0
  }

  lemma RepLengthIs(x: Setting, p: nat, d: int, n: nat, used: nat)
    requires x.Ok() && p < x.end && 0 <= p + d && n == RepLength(x, p, d)
    requires used == if x.size < n + p + d || x.end - p == 1 then 0 else n
    ensures IsRepLength(x, p, d, used)
  {
  }

  /** A token of that length, or nothing. */
  lemma RepIs(x: Setting, m: Moment, i: nat, n: nat, next: Moment)
    requires m.Ok(x) && m.pos < x.end && i < 4 && IsRepLength(x, m.pos, m.rep[i], n) && (n == 0 || 2 <= n <= x.end - m.pos)
    requires next == if n == 0 then m else Tokened(x, m, i, n - 2, n).(rep := Promoted(m.rep, i))
    requires IsFirst(x, m.pos, m.rep, i)
    ensures ByRep(x, m, i, n > 0, next)
  {
    assert Look(Codes, 0);
  }

  ghost predicate IsNew(x: Setting, m: Moment, off: U32, n: nat, next: Moment) {
    forall z {:trigger Look(Codes, z)} :: Look(Codes, z) ==>
      m.Ok(x) && m.pos + n <= x.end && Extra(off) + 4 <= n && next == New(x, m, off, n)
  }

  /** What a search has given leads to a token, or only to other tables. */
  ghost predicate BySearch(x: Setting, m: Moment, hit: Hit, put: bool, next: Moment) {
    forall z {:trigger Look(Codes, z)} :: Look(Codes, z) ==>
      Fits(x, m, hit) && ByTables(x, m, hit) == if put then next else Literal(next)
  }

  /** There is a token, or there will be a literal. */
  ghost predicate IsPut(x: Setting, m: Moment, hit: Hit, put: bool, next: Moment) {
    forall z {:trigger Look(Codes, z)} :: Look(Codes, z) ==>
      Fits(x, m, hit) && m.pos < x.end && Placed(x, m, hit) == if put then next else Literal(next)
  }

  ghost predicate IsSought(x: Setting, p: nat, t: Tables, hit: Hit) {
    forall z {:trigger Look(Codes, z)} :: Look(Codes, z) ==>
      x.Ok() && p <= x.end && |t.one| == x.buckets + 12 && hit == Sought(x, p, t)
  }

  ghost predicate IsStepped(x: Setting, m: Moment, next: Moment) {
    forall z {:trigger Look(Codes, z)} :: Look(Codes, z) ==> m.Ok(x) && m.pos < x.end && next == Stepped(x, m)
  }

  ghost predicate IsOpened(x: Setting, t: Tables, p: nat, cont: U32, m: Moment) {
    forall z {:trigger Look(Codes, z)} :: Look(Codes, z) ==>
      x.Ok() && p < x.end && |t.one| == x.buckets + 12 && m == Opened(x, t, p, cont)
  }

  /** The parse from `m` on ends as the one from `next` on does. */
  ghost predicate GoesOn(x: Setting, m: Moment, next: Moment) {
    forall z {:trigger Look(Codes, z)} :: Look(Codes, z) ==> m.Ok(x) && next.Ok(x) && Parsed(x, m) == Parsed(x, next)
  }

  lemma SoughtItself(x: Setting, m: Moment)
    requires m.Ok(x)
    ensures IsSought(x, m.pos, m.tables, Sought(x, m.pos, m.tables)) && Fits(x, m, Sought(x, m.pos, m.tables))
  {
  }

  lemma SearchedIsSought(x: Setting, m: Moment, hit: Hit)
    requires m.Ok(x) && IsSearched(x, m.pos, m.tables, hit)
    ensures IsSought(x, m.pos, m.tables, hit) && Fits(x, m, hit)
  {
    SoughtIs(x, m.pos, m.tables, hit);
  }

  lemma NewIs(x: Setting, m: Moment, off: U32, n: nat, next: Moment, d: int, b: int)
    requires m.Ok(x) && m.pos + n <= x.end && Extra(off) + 4 <= n
    requires d == (if m.pos < off then x.size - off else 0 - off) && b == if m.cont == 0xffff_ffff then -1 else m.rep[0]
    requires next == Tokened(x, m, off + 3, n - (Extra(off) + 4), n).(rep := [d, b, m.rep[1], m.rep[2]], cont := off + 3)
    ensures IsNew(x, m, off, n, next)
  {
  }

  lemma SearchLeads(x: Setting, m: Moment, hit: Hit, put: bool, next: Moment)
    requires Fits(x, m, hit) && (put <==> IsWorth(x, m.pos, hit))
    requires if put then IsNew(x, m.(tables := hit.tables), OffsetOf(x, m.pos, hit.place), hit.mlen, next) else next == m.(tables := hit.tables)
    ensures BySearch(x, m, hit, put, next)
  {
    assert Look(Codes, 0);
  }

  lemma FoundLeads(x: Setting, m: Moment, hit: Hit, put: bool, next: Moment)
    requires m.Ok(x) && m.pos < x.end && IsSearched(x, m.pos, m.tables, hit) && (put <==> IsWorth(x, m.pos, hit)) && IsFirst(x, m.pos, m.rep, 4)
    requires if put then IsNew(x, m.(tables := hit.tables), OffsetOf(x, m.pos, hit.place), hit.mlen, next) else next == m.(tables := hit.tables)
    ensures IsSought(x, m.pos, m.tables, hit) && IsPut(x, m, hit, put, next)
  {
    SearchedIsSought(x, m, hit);
    SearchLeads(x, m, hit, put, next);
    RepLeads(x, m, hit, 4, put, next);
  }

  /** Where a distance comes first, no search is made. */
  lemma OldLeads(x: Setting, m: Moment, i: nat, put: bool, next: Moment) returns (hit: Hit)
    requires m.Ok(x) && m.pos < x.end && IsFirst(x, m.pos, m.rep, i) && i < 4 && ByRep(x, m, i, put, next)
    ensures IsSought(x, m.pos, m.tables, hit) && IsPut(x, m, hit, put, next)
  {
    hit := Sought(x, m.pos, m.tables);
    SoughtItself(x, m);
    RepLeads(x, m, hit, i, put, next);
  }

  lemma RepLeads(x: Setting, m: Moment, hit: Hit, i: nat, put: bool, next: Moment)
    requires Fits(x, m, hit) && m.pos < x.end && IsFirst(x, m.pos, m.rep, i) && i <= 4
    requires if i < 4 then ByRep(x, m, i, put, next) else BySearch(x, m, hit, put, next)
    ensures IsPut(x, m, hit, put, next)
  {
    assert Look(Codes, 0);
  }

  lemma StepPasses(x: Setting, m: Moment, n: nat)
    requires m.Ok(x) && m.pos < x.end && n == Skipped(x.skip, m.run, x.end - m.pos) && m.pos + n == x.end
    ensures IsStepped(x, m, Past(m, n))
  {
  }

  lemma StepLeads(x: Setting, m: Moment, n: nat, hit: Hit, put: bool, to: Moment)
    requires m.Ok(x) && n == Skipped(x.skip, m.run, x.end - m.pos) && m.pos + n < x.end
    requires IsSought(x, m.pos + n, m.tables, hit) && IsPut(x, Past(m, n), hit, put, to)
    ensures IsStepped(x, m, if put then to else Literal(to))
  {
    SoughtAgain(x, m.pos + n, m.tables, hit);
    ByPut(x, m, n, hit, put, to);
    StepIs(x, m, n, hit);
  }

  lemma SoughtAgain(x: Setting, p: nat, t: Tables, hit: Hit)
    requires x.Ok() && p <= x.end && |t.one| == x.buckets + 12 && IsSought(x, p, t, hit)
    ensures hit == Sought(x, p, t)
  {
    assert Look(Codes, 0);
  }

  lemma StepIs(x: Setting, m: Moment, n: nat, hit: Hit)
    requires m.Ok(x) && n == Skipped(x.skip, m.run, x.end - m.pos) && m.pos + n < x.end && hit == Sought(x, m.pos + n, m.tables)
    ensures Fits(x, Past(m, n), hit) && Stepped(x, m) == StepBy(x, m, n, hit)
  {
    assert Fits(x, Past(m, n), hit);
    StepUnfolds(x, m, Skipped(x.skip, m.run, x.end - m.pos));
  }

  lemma StepUnfolds(x: Setting, m: Moment, n: nat)
    requires m.Ok(x) && m.pos < x.end && n == Skipped(x.skip, m.run, x.end - m.pos)
    ensures Stepped(x, m) == StepBy(x, m, n, Sought(x, m.pos + n, m.tables))
  {
  }

  lemma ByPut(x: Setting, m: Moment, n: nat, hit: Hit, put: bool, to: Moment)
    requires m.pos + n < x.end && Fits(x, Past(m, n), hit) && IsPut(x, Past(m, n), hit, put, to)
    ensures StepBy(x, m, n, hit) == if put then to else Literal(to)
  {
    assert Look(Codes, 0);
  }

  lemma OpenedByHint(x: Setting, t: Tables, p: nat, cont: U32, n: nat, next: Moment)
    requires x.Ok() && p < x.end && |t.one| == x.buckets + 12 && cont != 0 && n == AtHint(x.mem[..x.size], p, x.end, cont) && 10 < n
    requires IsNew(x, Began(t, p, x.end - p, cont).(cont := 0xffff_ffff), OffsetOf(x, p, HintPlace(cont, x.size)), n, next)
    ensures IsOpened(x, t, p, cont, next)
  {
    assert Look(Codes, 0);
  }

  lemma OpenedFreshly(x: Setting, t: Tables, p: nat, cont: U32)
    requires x.Ok() && p < x.end && |t.one| == x.buckets + 12 && (cont == 0 || AtHint(x.mem[..x.size], p, x.end, cont) <= 10)
    ensures var m := Began(t, p, x.end - p, cont); IsOpened(x, t, p, cont, if p == 0 then Literal(m) else m)
  {
  }

  /** The whole chunk's tokens and the tables after it, and what the last match was. */
  ghost predicate IsCoded(x: Setting, t: Tables, p: nat, cont: U32, tok: seq<Token>, after: Tables, last: nat) {
    forall z {:trigger Look(Codes, z)} :: Look(Codes, z) ==>
      && x.Ok() && p < x.end && |t.one| == x.buckets + 12
      && var m := Parsed(x, Opened(x, t, p, cont));
      && tok == m.tok && after == m.tables && last == m.cont
  }

  lemma CodedIs(x: Setting, t: Tables, p: nat, cont: U32, m: Moment, e: Moment)
    requires IsOpened(x, t, p, cont, m) && GoesOn(x, m, e) && e.pos == x.end
    ensures IsCoded(x, t, p, cont, e.tok, e.tables, e.cont)
  {
    assert Look(Codes, 0);
  }

  lemma GoesOnFrom(x: Setting, m: Moment)
    requires m.Ok(x)
    ensures GoesOn(x, m, m)
  {
  }

  lemma GoesOnStep(x: Setting, m: Moment, at: Moment, next: Moment)
    requires GoesOn(x, m, at) && IsStepped(x, at, next)
    ensures GoesOn(x, m, next)
  {
    assert Look(Codes, 0);
  }

  // ---------------------------------------------------------------- when there is a token

  /** A match of six bytes is worth its token wherever it is. */
  lemma SixIsWorth(x: Setting, p: nat, hit: Hit)
    ensures hit.mlen >= 6 ==> IsWorth(x, p, hit)
    ensures hit.mlen < 4 ==> !IsWorth(x, p, hit)
  {
  }

  /**
   A match of four or five bytes may be lost although it would be worth its token: of four bytes 8 back
   and five bytes 0x7000 back the longer is taken, and it is too short for its distance.
   */
  lemma NearMayBeLost(x: Setting, t: Tables, entry: U32)
    requires x.size == 0x1_0000
    ensures var near, far, dead := Candidate(entry, 0x6ff8, true, 4), Candidate(entry, 0, true, 5), Candidate(0, 0, false, 0);
      var f := Walk(0x100, [near, far, dead, dead], 0, 0, 0);
      && f.mlen == 5 && f.place == 0 && !f.taken
      && IsWorth(x, 0x7000, Hit(near.len, near.place, t)) && !IsWorth(x, 0x7000, Hit(f.mlen, f.place, t))
  {
    var near, far, dead := Candidate(entry, 0x6ff8, true, 4), Candidate(entry, 0, true, 5), Candidate(0, 0, false, 0);
    var one := [near, far, dead, dead];
    var two := Swapped(Swapped(one, 0), 1);
    assert Walk(0x100, one, 0, 0, 0) == Walk(0x100, Swapped(one, 0), 1, 4, 0x6ff8);
    assert Walk(0x100, Swapped(one, 0), 1, 4, 0x6ff8) == Walk(0x100, two, 2, 5, 0);
    assert Walk(0x100, two, 2, 5, 0) == Found(5, 0, false, two);
  }

  /** Runs of fewer than sixteen literals are searched to the end. */
  predicate SearchesShort(x: Setting) {
    |x.skip| == 256 && forall i | 0 <= i < 16 :: !x.skip[i]
  }

  /** At this place the tables are asked, and lead to nothing. */
  ghost predicate IsPlain(x: Setting, m: Moment) {
    && m.Ok(x) && m.pos + 4 <= x.end && m.run < 16 && FirstRep(x, m.pos, m.rep, 0) == 4
    && Sought(x, m.pos, m.tables).mlen < 4
  }

  function BucketAt(x: Setting, p: nat): nat
    requires p + 4 <= |x.mem| && x.buckets > 0
  {
    HashBucket(Hash(x.mem, p), x.buckets)
  }

  lemma PlainIsLiteral(x: Setting, m: Moment, next: Moment)
    requires IsPlain(x, m) && SearchesShort(x) && IsStepped(x, m, next)
    ensures next == Literal(m.(tables := Sought(x, m.pos, m.tables).tables))
  {
    assert Past(m, 0) == m && !IsSkipped(x.skip, m.run);
    var hit := Sought(x, m.pos, m.tables);
    PlainBy(x, m, hit);
    SteppedIs(x, m, next);
    StepIs(x, m, 0, hit);
  }

  lemma SteppedIs(x: Setting, m: Moment, next: Moment)
    requires m.Ok(x) && m.pos < x.end && IsStepped(x, m, next)
    ensures next == Stepped(x, m)
  {
    assert Look(Codes, 0);
  }

  lemma PlainBy(x: Setting, m: Moment, hit: Hit)
    requires Fits(x, m, hit) && m.pos < x.end && FirstRep(x, m.pos, m.rep, 0) == 4 && hit.mlen < 4
    ensures StepBy(x, m, 0, hit) == Literal(m.(tables := hit.tables))
  {
    SixIsWorth(x, m.pos, hit);
    assert Past(m, 0) == m;
  }

  lemma SearchedKeeps(x: Setting, p: nat, t: Tables)
    requires x.Ok() && p + 4 <= x.end && |t.one| == x.buckets + 12
    ensures forall b | 0 <= b < |t.one| && !(BucketAt(x, p) <= b < BucketAt(x, p) + 4) :: x.Searched(p, t).tables.one[b] == t.one[b]
  {
  }

  lemma BucketIs(x: Setting, p: nat)
    requires x.Ok() && p + 4 <= |x.mem|
    ensures BucketAt(x, p) % 4 == 0 && BucketAt(x, p) < x.buckets
  {
    BucketInTable(Hash(x.mem, p), x.buckets);
  }

  lemma BucketInTable(h: U32, buckets: nat)
    requires buckets > 0
    ensures HashBucket(h, buckets) % 4 == 0 && HashBucket(h, buckets) < buckets
  {
    var y := h % buckets;
    assert 0 <= y < buckets;
    assert y / 4 * 4 <= y;
  }

  lemma SoughtIsEntered(x: Setting, p: nat, t: Tables, hit: Hit)
    requires x.Ok() && p + 4 <= x.end && |t.one| == x.buckets + 12 && hit == Sought(x, p, t) && BucketAt(x, p) < x.buckets
    ensures hit.mlen < 4 ==> hit.tables.one[BucketAt(x, p)] == EntryFor(p, HashTag(Hash(x.mem, p), x.unit, x.tags), x.unit)
    ensures forall b | 0 <= b < |t.one| && !(BucketAt(x, p) <= b < BucketAt(x, p) + 4) :: hit.tables.one[b] == t.one[b]
  {
    SearchIsOne(x, p, t, hit);
    if hit.mlen < 4 { SearchedIsEntered(x, p, t); }
    SearchedKeeps(x, p, t);
  }

  /** Then the place is a literal's, and stands in front of its bucket; no other bucket has changed. */
  lemma PlainIsEntered(x: Setting, m: Moment, next: Moment)
    requires IsPlain(x, m) && SearchesShort(x) && IsStepped(x, m, next)
    ensures next.Ok(x) && next.pos == m.pos + 1 && next.run == m.run + 1 && next.tok == m.tok
    ensures BucketAt(x, m.pos) % 4 == 0 && BucketAt(x, m.pos) < |m.tables.one|
    ensures next.tables.one[BucketAt(x, m.pos)] == EntryFor(m.pos, HashTag(Hash(x.mem, m.pos), x.unit, x.tags), x.unit)
    ensures forall b | 0 <= b < |m.tables.one| && !(BucketAt(x, m.pos) <= b < BucketAt(x, m.pos) + 4) :: next.tables.one[b] == m.tables.one[b]
  {
    PlainIsLiteral(x, m, next);
    BucketIs(x, m.pos);
    SoughtIsEntered(x, m.pos, m.tables, Sought(x, m.pos, m.tables));
  }

  /** Steps in a row, at plain places. */
  ghost predicate ArePlain(x: Setting, ms: seq<Moment>) {
    forall i | 0 <= i < |ms| - 1 :: IsPlain(x, ms[i]) && IsStepped(x, ms[i], ms[i + 1])
  }

  lemma PlainStep(x: Setting, m: Moment, next: Moment, b: nat)
    requires IsPlain(x, m) && SearchesShort(x) && IsStepped(x, m, next) && b % 4 == 0 && b < |m.tables.one| && BucketAt(x, m.pos) != b
    ensures next.Ok(x) && next.pos == m.pos + 1 && next.tables.one[b] == m.tables.one[b]
  {
    PlainIsEntered(x, m, next);
    MultiplesApart(BucketAt(x, m.pos), b);
  }

  lemma MultiplesApart(a: nat, b: nat)
    requires a % 4 == 0 && b % 4 == 0 && a != b
    ensures !(a <= b < a + 4)
  {
  }

  /** What stands in front of a bucket stays there while no place of its own is searched. */
  lemma {:induction false} FrontStays(x: Setting, ms: seq<Moment>, b: nat)
    requires SearchesShort(x) && |ms| >= 1 && ms[0].Ok(x) && ArePlain(x, ms) && b % 4 == 0 && b < |ms[0].tables.one|
    requires forall i | 0 <= i < |ms| - 1 :: BucketAt(x, ms[i].pos) != b
    ensures var l := ms[|ms| - 1]; l.Ok(x) && l.pos == ms[0].pos + |ms| - 1 && l.tables.one[b] == ms[0].tables.one[b]
    decreases |ms|
  {
    if |ms| > 1 {
      PlainStep(x, ms[0], ms[1], b);
      FrontStays(x, ms[1..], b);
    }
  }

  /** A match of six bytes or more becomes a token. */
  lemma WorthIsTaken(x: Setting, m: Moment)
    requires SearchesShort(x) && m.Ok(x) && m.pos < x.end && m.run < 16 && FirstRep(x, m.pos, m.rep, 0) == 4
    requires Sought(x, m.pos, m.tables).mlen >= 6
    ensures var next := Stepped(x, m);
      |next.tok| == |m.tok| + 1 && next.tok[..|m.tok|] == m.tok && next.pos == m.pos + Sought(x, m.pos, m.tables).mlen
  {
    assert Past(m, 0) == m && !IsSkipped(x.skip, m.run);
    var hit := Sought(x, m.pos, m.tables);
    WorthBy(x, m, hit);
    StepIs(x, m, 0, hit);
  }

  lemma WorthBy(x: Setting, m: Moment, hit: Hit)
    requires Fits(x, m, hit) && m.pos < x.end && FirstRep(x, m.pos, m.rep, 0) == 4 && hit.mlen >= 6
    ensures var next := StepBy(x, m, 0, hit);
      |next.tok| == |m.tok| + 1 && next.tok[..|m.tok|] == m.tok && next.pos == m.pos + hit.mlen
  {
    SixIsWorth(x, m.pos, hit);
    assert Past(m, 0) == m;
  }

  /**
   What was searched for in vain is found when it comes again: where six bytes or more agree, no other
   place has gone into the same bucket, and none of the last distances comes first, a token of at
   least six bytes is made.
   */
  lemma RepeatIsFound(x: Setting, ms: seq<Moment>, next: Moment)
    requires SearchesShort(x) && Divided(x.unit, x.tags, x.size) && |ms| >= 2 && ArePlain(x, ms) && 0 < ms[0].pos
    requires forall i | 1 <= i < |ms| - 1 :: BucketAt(x, ms[i].pos) != BucketAt(x, ms[0].pos)
    requires var l := ms[|ms| - 1];
      l.Ok(x) && l.pos + 4 <= x.end && l.run < 16 && FirstRep(x, l.pos, l.rep, 0) == 4 && x.Agreement(l.pos, ms[0].pos) >= 6
    requires IsStepped(x, ms[|ms| - 1], next)
    ensures var l := ms[|ms| - 1]; |next.tok| == |l.tok| + 1 && l.pos + 6 <= next.pos
  {
    var m, l, b := ms[0], ms[|ms| - 1], BucketAt(x, ms[0].pos);
    PlainIsEntered(x, m, ms[1]);
    RestIsPlain(x, ms, b);
    FrontStays(x, ms[1..], b);
    StandsInFront(x, m.pos, l);
    WorthStep(x, l, next);
  }

  lemma RestIsPlain(x: Setting, ms: seq<Moment>, b: nat)
    requires |ms| >= 2 && ArePlain(x, ms) && x.Ok() && forall i | 0 <= i < |ms| - 1 :: ms[i].pos + 4 <= |x.mem|
    requires forall i | 1 <= i < |ms| - 1 :: BucketAt(x, ms[i].pos) != b
    ensures ArePlain(x, ms[1..]) && forall i | 0 <= i < |ms[1..]| - 1 :: BucketAt(x, ms[1..][i].pos) != b
  {
    forall i | 0 <= i < |ms[1..]| - 1 ensures IsPlain(x, ms[1..][i]) && IsStepped(x, ms[1..][i], ms[1..][i + 1]) && BucketAt(x, ms[1..][i].pos) != b {
      assert ms[1..][i] == ms[i + 1] && ms[1..][i + 1] == ms[i + 2];
    }
  }

  lemma WorthStep(x: Setting, m: Moment, next: Moment)
    requires SearchesShort(x) && m.Ok(x) && m.pos < x.end && m.run < 16 && FirstRep(x, m.pos, m.rep, 0) == 4
    requires Sought(x, m.pos, m.tables).mlen >= 6 && IsStepped(x, m, next)
    ensures |next.tok| == |m.tok| + 1 && m.pos + 6 <= next.pos
  {
    WorthIsTaken(x, m);
    SteppedIs(x, m, next);
  }

  lemma StandsInFront(x: Setting, q: nat, l: Moment)
    requires Divided(x.unit, x.tags, x.size) && l.Ok(x) && 0 < q < l.pos && l.pos + 4 <= x.end && x.Agreement(l.pos, q) >= 6
    requires BucketAt(x, q) < |l.tables.one| && l.tables.one[BucketAt(x, q)] == EntryFor(q, HashTag(Hash(x.mem, q), x.unit, x.tags), x.unit)
    ensures Sought(x, l.pos, l.tables).mlen >= 6
  {
    FirstIsNotZero(x, q);
    FrontIsFound(x, l.pos, q, l.tables);
    SearchIsOne(x, l.pos, l.tables, Sought(x, l.pos, l.tables));
  }

  lemma FirstIsNotZero(x: Setting, q: nat)
    requires x.Ok() && Divided(x.unit, x.tags, x.size) && 0 < q < x.size && q + 4 <= |x.mem|
    ensures EntryFor(q, HashTag(Hash(x.mem, q), x.unit, x.tags), x.unit) != 0
  {
    var tag := HashTag(Hash(x.mem, q), x.unit, x.tags);
    EntryGivesBack(q, tag, x.unit, x.tags, x.size);
    Distributes(1, q - 1, x.unit);
  }
}
