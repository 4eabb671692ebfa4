/**
 What the LZ parse does at a place, as functions of the window and the tables: which of the last four
 distances or which entry of a bucket is taken, and what the tables hold afterwards. The parser is proved
 to do this, and of this it is proved that the longest match is taken.
 */
module LzSearch {
  import opened Words
  import opened Arith
  import opened IntCoding
  import opened Matching

  // ---------------------------------------------------------------- hashing

  function Rotl(v: U32, k: nat): U32
    requires k < 32
  {
    Wrap32(Wrap32(v * Pow2(k)) + v / Pow2(32 - k))
  }

  function Mixed(v: U32, w: U32): U32 {
    ((v as bv32 >> 19) ^ (w as bv32)) as int
  }

  function Hash(mem: seq<Byte>, at: nat): U32
    requires at + 4 <= |mem|
  {
    Mixed(Word(mem, at), Wrap32(Word(mem, at) * 0x92_3249))
  }

  // ---------------------------------------------------------------- the window and the tables

  /** An entry's place, and what it keeps of the hash. */
  function PlaceOf(entry: U32, unit: nat): nat
    requires unit > 0
  {
    entry / unit
  }

  function TagOf(entry: U32, tags: nat): nat
    requires tags > 0
  {
    entry % tags
  }

  function EntryFor(at: nat, tag: nat, unit: nat): U32 {
    Wrap32(at * unit + tag)
  }

  /** The highest bits of a hash, as many as an entry has room for, and at most eight. */
  function HashTag(h: U32, unit: nat, tags: nat): nat
    requires 1 <= unit <= TWO32 && tags > 0
  {
    h / (if unit == 1 then 1 else TWO32 / unit) % tags
  }

  function HashBucket(h: U32, buckets: nat): nat
    requires buckets > 0
  {
    h % buckets / 4 * 4
  }

  /** What stays the same while a chunk is parsed: memory, the chunk's end, sizes, and which literals are not searched. */
  datatype Setting = Setting(mem: seq<Byte>, end: nat, size: nat, unit: nat, tags: nat, buckets: nat, skip: seq<bool>) {
    ghost predicate Ok() {
      && 1 <= size < 0x4000_0000 && size + 0x8140 <= |mem| && end <= size && 1 <= tags <= unit <= TWO32 && 4 <= buckets && |skip| == 256
    }

    /** How far the window goes on at `c` as it does at `p`. */
    ghost function Agreement(p: nat, c: nat): nat
      requires Ok() && p <= end
    {
      if c < size then Agreeing(mem, p, c, Min(end - p, size - c)) else 0
    }

    /** What an entry comes to at `p`: live if it has the hash's bits and names a place outside the part still unparsed. */
    ghost function Judged(p: nat, tag: nat, entry: U32): Candidate
      requires Ok() && p <= end
    {
      var place := PlaceOf(entry, unit);
      Candidate(entry, place, entry != 0 && TagOf(entry, tags) == tag && (end <= place || place < p), Agreement(p, place))
    }

    ghost function JudgedAll(p: nat, tag: nat, bucket: seq<U32>): (c: seq<Candidate>)
      requires Ok() && p <= end
      ensures |c| == |bucket| && forall i | 0 <= i < |c| :: c[i] == Judged(p, tag, bucket[i])
    {
      seq(|bucket|, i requires 0 <= i < |bucket| => Judged(p, tag, bucket[i]))
    }

    /** The second table's key hashes the sixteen bytes at the position. */
    ghost function LongKey(p: nat, h: U32): U32
      requires Ok() && p <= end
    {
      KeyOf(h, Word(mem, p + 4), Word(mem, p + 8), Word(mem, p + 12))
    }

    /** The second table of the largest windows: one entry for a key, replaced whatever it was. */
    ghost function Probed(p: nat, h: U32, t: Tables): (hit: Hit)
      requires Ok() && p <= end && |t.two| > 0
      ensures hit.tables.one == t.one && |hit.tables.two| == |t.two| && hit.mlen <= end - p
    {
      if end - p <= 0x3f then Hit(0, 0, t)
      else
        var s := LongKey(p, h);
        var slot, tag := Mixed(s, s) % |t.two|, LongTag(s, tags);
        var c := Judged(p, tag, t.two[slot]);
        var now := Tables(t.one, t.two[slot := EntryFor(p, tag, unit)]);
        if c.live then Hit(c.len, c.place, now) else Hit(0, 0, now)
    }

    /** The bucket's walk; unless a match is taken as it is, the position goes to the bucket's front. */
    ghost function Bucketed(p: nat, tag: nat, b: nat, t: Tables): (hit: Hit)
      requires Ok() && p <= end && b + 4 <= |t.one|
      ensures |hit.tables.one| == |t.one| && hit.tables.two == t.two && hit.mlen <= end - p
    {
      WalkFits(end - p, JudgedAll(p, tag, t.one[b..b + 4]), 0, 0, 0);
      var f := Walk(end - p, JudgedAll(p, tag, t.one[b..b + 4]), 0, 0, 0);
      var left := Entries(f.bucket);
      Hit(f.mlen, f.place, Tables(Put(t.one, b, if f.taken then left else Inserted(left, EntryFor(p, tag, unit))), t.two))
    }

    /** The second table at one position in sixteen, and the bucket unless that gives eight bytes. */
    ghost function Searched(p: nat, t: Tables): (hit: Hit)
      requires Ok() && p <= end && |t.one| == buckets + 12
      ensures |hit.tables.one| == |t.one| && |hit.tables.two| == |t.two| && hit.mlen <= end - p
    {
      if end - p <= 3 then Hit(0, 0, t)
      else
        var h := Hash(mem, p);
        var tag := HashTag(h, unit, tags);
        var long := if ProbesLong(t, tag, h) then Probed(p, h, t) else Hit(0, 0, t);
        if 8 <= long.mlen then long else Bucketed(p, tag, HashBucket(h, buckets), long.tables)
    }
  }

  function KeyOf(h: U32, second: U32, third: U32, fourth: U32): U32 {
    Wrap32(Rotl(second, 5) + Rotl(third, 7) + h + Rotl(fourth, 11))
  }

  function LongTag(s: U32, tags: nat): nat
    requires tags > 0
  {
    ((s as bv32 >> 24) ^ (Mixed(s, s) as bv32)) as nat % tags
  }

  /** The buckets of four entries, and the single entries of the second table. */
  datatype Tables = Tables(one: seq<U32>, two: seq<U32>)

  /** What a search gives: the length and place of a match, 0 for none, and the tables after it. */
  datatype Hit = Hit(mlen: nat, place: nat, tables: Tables)

  function Entries(bucket: seq<Candidate>): (e: seq<U32>)
    ensures |e| == |bucket|
  {
    seq(|bucket|, i requires 0 <= i < |bucket| => bucket[i].entry)
  }

  /** A new entry in front; the last one is lost. */
  function Inserted(bucket: seq<U32>, entry: U32): (r: seq<U32>)
    requires |bucket| >= 1
    ensures |r| == |bucket|
  {
    [entry] + bucket[..|bucket| - 1]
  }

  function Put(table: seq<U32>, b: nat, bucket: seq<U32>): (r: seq<U32>)
    requires b + |bucket| <= |table|
    ensures |r| == |table|
  {
    table[..b] + bucket + table[b + |bucket|..]
  }

  // ---------------------------------------------------------------- one bucket

  /** An entry, the place it names, and how long the match there is. */
  datatype Candidate = Candidate(entry: U32, place: nat, live: bool, len: nat)

  /** What a walk finds: the length and place of the match, whether it is taken as it is, and how the bucket is left. */
  datatype Found = Found(mlen: nat, place: nat, taken: bool, bucket: seq<Candidate>)

  function Swapped<T>(bucket: seq<T>, k: nat): (r: seq<T>)
    requires k < |bucket|
    ensures |r| == |bucket|
  {
    bucket[0 := bucket[k]][k := bucket[0]]
  }

  /** A match that ends the walk, of `left` bytes that are possible. */
  predicate Long(left: nat, len: nat) {
    0x3f < len || left <= len
  }

  /** From entry `k` on, with `best` bytes found so far: a longer match comes to the front, a long one ends the walk. */
  function Walk(left: nat, bucket: seq<Candidate>, k: nat, best: nat, place: nat): (f: Found)
    requires k <= |bucket|
    ensures |f.bucket| == |bucket|
    decreases |bucket| - k, left
  {
    if k == |bucket| || !bucket[k].live then Found(best, place, false, bucket)
    else if bucket[k].len <= best then Walk(left, bucket, k + 1, best, place)
    else if Long(left, bucket[k].len) then Found(bucket[k].len, bucket[k].place, true, Swapped(bucket, k))
    else Walk(left, Swapped(bucket, k), k + 1, bucket[k].len, bucket[k].place)
  }

  lemma {:induction false} WalkFits(left: nat, bucket: seq<Candidate>, k: nat, best: nat, place: nat)
    requires k <= |bucket| && best <= left && forall i | 0 <= i < |bucket| :: bucket[i].len <= left
    ensures Walk(left, bucket, k, best, place).mlen <= left
    decreases |bucket| - k
  {
    if k < |bucket| && bucket[k].live {
      WalkFits(left, bucket, k + 1, best, place);
      WalkFits(left, Swapped(bucket, k), k + 1, bucket[k].len, bucket[k].place);
    }
  }

  /** From one state of a bucket the walk goes on as from another; out of sight until `Look(Codes, 0)`. */
  ghost predicate Leads(x: Setting, p: nat, tag: nat, was: seq<U32>, k: nat, best: nat, place: nat, now: seq<U32>, l: nat, more: nat, at: nat)
    requires x.Ok() && p <= x.end && k <= |was| && l <= |now|
  {
    forall z {:trigger Look(Codes, z)} :: Look(Codes, z) ==>
      Walk(x.end - p, x.JudgedAll(p, tag, was), k, best, place) == Walk(x.end - p, x.JudgedAll(p, tag, now), l, more, at)
  }

  /** The walk ends so; out of sight until `Look(Codes, 0)`. */
  ghost predicate Ends(x: Setting, p: nat, tag: nat, was: seq<U32>, k: nat, best: nat, place: nat, now: seq<U32>, mlen: nat, at: nat, taken: bool)
    requires x.Ok() && p <= x.end && k <= |was|
  {
    forall z {:trigger Look(Codes, z)} :: Look(Codes, z) ==>
      Walk(x.end - p, x.JudgedAll(p, tag, was), k, best, place) == Found(mlen, at, taken, x.JudgedAll(p, tag, now))
  }

  lemma LeadsFrom(x: Setting, p: nat, tag: nat, was: seq<U32>, k: nat, best: nat, place: nat)
    requires x.Ok() && p <= x.end && k <= |was|
    ensures Leads(x, p, tag, was, k, best, place, was, k, best, place)
  {
  }

  /** An entry that is not longer is passed over. */
  lemma LeadsPast(x: Setting, p: nat, tag: nat, was: seq<U32>, k: nat, best: nat, place: nat)
    requires x.Ok() && p <= x.end && k < |was| && x.Judged(p, tag, was[k]).live && x.Judged(p, tag, was[k]).len <= best
    ensures Leads(x, p, tag, was, k, best, place, was, k + 1, best, place)
  {
  }

  lemma JudgedSwapped(x: Setting, p: nat, tag: nat, was: seq<U32>, k: nat)
    requires x.Ok() && p <= x.end && k < |was|
    ensures x.JudgedAll(p, tag, Swapped(was, k)) == Swapped(x.JudgedAll(p, tag, was), k)
  {
  }

  /** A longer one comes to the front, and a long one ends the walk. */
  lemma LeadsBySwap(x: Setting, p: nat, tag: nat, was: seq<U32>, k: nat, best: nat, place: nat)
    requires x.Ok() && p <= x.end && k < |was| && x.Judged(p, tag, was[k]).live && x.Judged(p, tag, was[k]).len > best
    ensures var c := x.Judged(p, tag, was[k]);
      if Long(x.end - p, c.len) then Ends(x, p, tag, was, k, best, place, Swapped(was, k), c.len, c.place, true)
      else Leads(x, p, tag, was, k, best, place, Swapped(was, k), k + 1, c.len, c.place)
  {
    JudgedSwapped(x, p, tag, was, k);
  }

  /** At the end of what is live nothing more is found. */
  lemma EndsHere(x: Setting, p: nat, tag: nat, was: seq<U32>, k: nat, best: nat, place: nat)
    requires x.Ok() && p <= x.end && k <= |was| && (k < |was| ==> !x.Judged(p, tag, was[k]).live)
    ensures Ends(x, p, tag, was, k, best, place, was, best, place, false)
  {
  }

  lemma LeadsOn(x: Setting, p: nat, tag: nat, a: seq<U32>, b: seq<U32>, k: nat, best: nat, at: nat, c: seq<U32>, l: nat, more: nat, to: nat)
    requires x.Ok() && p <= x.end && k <= |b| && l <= |c|
    requires Leads(x, p, tag, a, 0, 0, 0, b, k, best, at) && Leads(x, p, tag, b, k, best, at, c, l, more, to)
    ensures Leads(x, p, tag, a, 0, 0, 0, c, l, more, to)
  {
    assert Look(Codes, 0);
  }

  lemma LeadsEnd(x: Setting, p: nat, tag: nat, a: seq<U32>, b: seq<U32>, k: nat, best: nat, at: nat, c: seq<U32>, mlen: nat, to: nat, taken: bool)
    requires x.Ok() && p <= x.end && k <= |b|
    requires Leads(x, p, tag, a, 0, 0, 0, b, k, best, at) && Ends(x, p, tag, b, k, best, at, c, mlen, to, taken)
    ensures Ends(x, p, tag, a, 0, 0, 0, c, mlen, to, taken)
  {
    assert Look(Codes, 0);
  }

  /** How many entries from `k` on are live: as far as a walk can get. */
  function Reach(bucket: seq<Candidate>, k: nat): (n: nat)
    requires k <= |bucket|
    ensures n <= |bucket| - k
    decreases |bucket| - k
  {
    if k == |bucket| || !bucket[k].live then 0 else 1 + Reach(bucket, k + 1)
  }

  /**
   Of the live entries in front of the first that is not: without a long match among them, the longest is
   found; otherwise the first long one.
   */
  ghost predicate IsLongest(left: nat, bucket: seq<Candidate>, f: Found) {
    var n := Reach(bucket, 0);
    if f.taken then
      exists i :: 0 <= i < n && bucket[i].len == f.mlen > 0 && f.place == bucket[i].place && Long(left, f.mlen)
        && forall j | 0 <= j < i :: !Long(left, bucket[j].len)
    else
      && (forall i | 0 <= i < n :: bucket[i].len <= f.mlen && !Long(left, bucket[i].len))
      && (f.mlen > 0 ==> exists i :: 0 <= i < n && bucket[i].len == f.mlen && f.place == bucket[i].place)
  }

  /** A walk that has passed `k` entries of `was` and swapped some of them. */
  ghost predicate Passed(left: nat, was: seq<Candidate>, now: seq<Candidate>, k: nat, best: nat, place: nat) {
    && k <= Reach(was, 0) && |now| == |was| && (forall i | k <= i < |was| :: now[i] == was[i])
    && (forall i | 0 <= i < k :: was[i].len <= best) && !Long(left, best)
    && (best > 0 ==> exists i :: 0 <= i < k && was[i].len == best && place == was[i].place)
  }

  lemma {:induction false} ReachStep(bucket: seq<Candidate>, j: nat, k: nat)
    requires j <= k <= |bucket| && k - j <= Reach(bucket, j)
    ensures k - j < Reach(bucket, j) <==> k < |bucket| && bucket[k].live
    decreases k - j
  {
    if j < k { ReachStep(bucket, j + 1, k); }
  }

  lemma {:induction false} WalkFrom(left: nat, was: seq<Candidate>, now: seq<Candidate>, k: nat, best: nat, place: nat)
    requires k <= |now| && Passed(left, was, now, k, best, place)
    ensures IsLongest(left, was, Walk(left, now, k, best, place))
    decreases |now| - k
  {
    ReachStep(was, 0, k);
    if k < |now| && now[k].live {
      if now[k].len <= best {
        WalkFrom(left, was, now, k + 1, best, place);
      } else if Long(left, now[k].len) {
        LongFound(left, was, now, k, best, place);
      } else {
        WalkFrom(left, was, Swapped(now, k), k + 1, now[k].len, now[k].place);
      }
    }
  }

  lemma LongFound(left: nat, was: seq<Candidate>, now: seq<Candidate>, k: nat, best: nat, place: nat)
    requires k < Reach(was, 0) && Passed(left, was, now, k, best, place) && now[k].len > best && Long(left, now[k].len)
    ensures IsLongest(left, was, Found(now[k].len, now[k].place, true, Swapped(now, k)))
  {
    forall j | 0 <= j < k ensures !Long(left, was[j].len) { assert was[j].len <= best; }
  }

  /** A walk finds the longest match of its bucket, or the first that is long. */
  lemma WalkIsLongest(left: nat, bucket: seq<Candidate>)
    requires left > 0
    ensures IsLongest(left, bucket, Walk(left, bucket, 0, 0, 0))
  {
    WalkFrom(left, bucket, bucket, 0, 0, 0);
  }

  /** However the walk ends, what it finds is as long as the first entry's match, and any other's of up to 63 bytes. */
  lemma FoundIsAsLong(left: nat, bucket: seq<Candidate>, i: nat)
    requires left > 0 && i < Reach(bucket, 0) && bucket[i].len <= left
    ensures var f := Walk(left, bucket, 0, 0, 0); f.mlen >= bucket[i].len || (f.taken && 0x3f < f.mlen)
  {
    WalkIsLongest(left, bucket);
  }

  /** Outside a bucket nothing has changed; out of sight until `Look(Steps, 0)`. */
  ghost predicate Beside(was: seq<U32>, now: seq<U32>, b: nat) {
    |now| == |was| && b + 4 <= |was| && forall z {:trigger Look(Steps, z)} :: Look(Steps, z) ==> now == Put(was, b, now[b..b + 4])
  }

  lemma PutIsBeside(was: seq<U32>, b: nat, bucket: seq<U32>)
    requires b + 4 <= |was| && |bucket| == 4
    ensures Beside(was, Put(was, b, bucket), b) && Put(was, b, bucket)[b..b + 4] == bucket
  {
  }

  lemma SameIsBeside(was: seq<U32>, b: nat)
    requires b + 4 <= |was|
    ensures Beside(was, was, b)
  {
    assert was == Put(was, b, was[b..b + 4]);
  }

  lemma BesideOn(was: seq<U32>, mid: seq<U32>, now: seq<U32>, b: nat)
    requires Beside(was, mid, b) && Beside(mid, now, b)
    ensures Beside(was, now, b)
  {
    assert Look(Steps, 0);
  }

  lemma BesidePut(was: seq<U32>, mid: seq<U32>, b: nat, bucket: seq<U32>)
    requires Beside(was, mid, b) && |bucket| == 4
    ensures Put(mid, b, bucket) == Put(was, b, bucket) && mid == Put(was, b, mid[b..b + 4])
  {
    assert Look(Steps, 0);
  }

  // ---------------------------------------------------------------- what a search finds

  /** What is found is there, and not in the part still unparsed. */
  ghost predicate IsThere(x: Setting, p: nat, hit: Hit)
    requires x.Ok() && p <= x.end
  {
    hit.mlen > 0 ==> (hit.place < p || x.end <= hit.place < x.size) && hit.mlen == x.Agreement(p, hit.place)
  }

  lemma BucketedIsThere(x: Setting, p: nat, tag: nat, b: nat, t: Tables)
    requires x.Ok() && p < x.end && b + 4 <= |t.one|
    ensures IsThere(x, p, x.Bucketed(p, tag, b, t))
  {
    var bucket := x.JudgedAll(p, tag, t.one[b..b + 4]);
    var f := Walk(x.end - p, bucket, 0, 0, 0);
    WalkIsLongest(x.end - p, bucket);
    if f.mlen > 0 {
      var i :| 0 <= i < Reach(bucket, 0) && bucket[i].len == f.mlen && f.place == bucket[i].place;
      ReachStep(bucket, 0, i);
    }
  }

  lemma SearchedIsThere(x: Setting, p: nat, t: Tables, hit: Hit)
    requires x.Ok() && p < x.end && |t.one| == x.buckets + 12 && IsSearched(x, p, t, hit)
    ensures IsThere(x, p, hit) && hit.mlen <= x.end - p
  {
    assert Look(RawBits, 0);
    if x.end - p > 3 {
      var h := Hash(x.mem, p);
      var tag := HashTag(h, x.unit, x.tags);
      var long := if ProbesLong(t, tag, h) then x.Probed(p, h, t) else Hit(0, 0, t);
      BucketedIsThere(x, p, tag, HashBucket(h, x.buckets), long.tables);
    }
  }

  /** The bucket's walk gives this; out of sight until `Look(RawBits, 0)`. */
  ghost predicate IsBucketed(x: Setting, p: nat, tag: nat, b: nat, t: Tables, hit: Hit)
    requires x.Ok() && p <= x.end && b + 4 <= |t.one|
  {
    forall z {:trigger Look(RawBits, z)} :: Look(RawBits, z) ==> hit == x.Bucketed(p, tag, b, t)
  }

  ghost predicate IsProbed(x: Setting, p: nat, h: U32, t: Tables, hit: Hit)
    requires x.Ok() && p <= x.end && |t.two| > 0
  {
    forall z {:trigger Look(RawBits, z)} :: Look(RawBits, z) ==> hit == x.Probed(p, h, t)
  }

  ghost predicate IsSearched(x: Setting, p: nat, t: Tables, hit: Hit)
  {
    forall z {:trigger Look(RawBits, z)} :: Look(RawBits, z) ==>
      x.Ok() && p <= x.end && |t.one| == x.buckets + 12 && hit == x.Searched(p, t)
  }

  lemma BucketedIs(x: Setting, p: nat, tag: nat, b: nat, t: Tables, left: seq<U32>, mlen: nat, at: nat, taken: bool, now: seq<U32>)
    requires x.Ok() && p <= x.end && b + 4 <= |t.one| && |left| == 4 && Ends(x, p, tag, t.one[b..b + 4], 0, 0, 0, left, mlen, at, taken)
    requires now == Put(t.one, b, if taken then left else Inserted(left, EntryFor(p, tag, x.unit)))
    ensures IsBucketed(x, p, tag, b, t, Hit(mlen, at, Tables(now, t.two)))
  {
    assert Look(Codes, 0) && Look(RawBits, 0);
    assert Entries(x.JudgedAll(p, tag, left)) == left;
  }

  /** Is the second table probed at this position? */
  predicate ProbesLong(t: Tables, tag: nat, h: U32) {
    |t.two| > 0 && 0xf0 <= (tag + h) % 0x100
  }

  /** The hash at a place, its bits and its bucket; out of sight until `Look(Spot, 0)`. */
  ghost predicate IsKey(x: Setting, p: nat, h: U32, tag: nat, b: nat) {
    forall z {:trigger Look(Spot, z)} :: Look(Spot, z) ==>
      && x.Ok() && p + 4 <= |x.mem| && h == Hash(x.mem, p)
      && tag == HashTag(h, x.unit, x.tags) && b == HashBucket(h, x.buckets)
  }

  lemma KeyIs(x: Setting, p: nat, h: U32, tag: nat, b: nat)
    requires x.Ok() && p + 4 <= |x.mem| && h == Hash(x.mem, p)
    requires tag == HashTag(h, x.unit, x.tags) && b == HashBucket(h, x.buckets)
    ensures IsKey(x, p, h, tag, b)
  {
  }

  /** What the second table gives, where it is asked. */
  ghost predicate IsLong(x: Setting, p: nat, t: Tables, h: U32, tag: nat, hit: Hit) {
    forall z {:trigger Look(RawBits, z)} :: Look(RawBits, z) ==>
      x.Ok() && p <= x.end && hit == if ProbesLong(t, tag, h) then x.Probed(p, h, t) else Hit(0, 0, t)
  }

  lemma ProbedIsLong(x: Setting, p: nat, t: Tables, h: U32, tag: nat, hit: Hit)
    requires x.Ok() && p <= x.end
    requires if ProbesLong(t, tag, h) then IsProbed(x, p, h, t, hit) else hit == Hit(0, 0, t)
    ensures IsLong(x, p, t, h, tag, hit)
  {
    assert Look(RawBits, 0);
  }

  lemma SearchedByProbe(x: Setting, p: nat, t: Tables, h: U32, tag: nat, b: nat, hit: Hit)
    requires x.Ok() && p + 4 <= x.end && |t.one| == x.buckets + 12 && IsKey(x, p, h, tag, b)
    requires IsLong(x, p, t, h, tag, hit) && 8 <= hit.mlen
    ensures IsSearched(x, p, t, hit)
  {
    assert Look(RawBits, 0) && Look(Spot, 0);
  }

  lemma SearchedByBucket(x: Setting, p: nat, t: Tables, h: U32, tag: nat, b: nat, long: Hit, hit: Hit)
    requires x.Ok() && p + 4 <= x.end && |t.one| == x.buckets + 12 && IsKey(x, p, h, tag, b)
    requires IsLong(x, p, t, h, tag, long) && long.mlen < 8
    requires |long.tables.one| == |t.one| && b + 4 <= |t.one| && IsBucketed(x, p, tag, b, long.tables, hit)
    ensures IsSearched(x, p, t, hit)
  {
    assert Look(RawBits, 0) && Look(Spot, 0);
  }

  /** Bytes that agree at two places have the same hash if there are four. */
  lemma SameHash(mem: seq<Byte>, p: nat, q: nat, lim: nat)
    requires 4 <= lim && p + lim <= |mem| && q + lim <= |mem| && Agreeing(mem, p, q, lim) >= 4
    ensures Hash(mem, p) == Hash(mem, q)
  {
    AgreeingBytes(mem, p, q, lim);
    assert mem[p] == mem[p - p + q] && mem[p + 1] == mem[p + 1 - p + q] && mem[p + 2] == mem[p + 2 - p + q] && mem[p + 3] == mem[p + 3 - p + q];
  }

  lemma BucketedIsEntered(x: Setting, p: nat, tag: nat, b: nat, t: Tables)
    requires x.Ok() && p + 4 <= x.end && b + 4 <= |t.one| && x.Bucketed(p, tag, b, t).mlen < 4
    ensures x.Bucketed(p, tag, b, t).tables.one[b] == EntryFor(p, tag, x.unit)
  {
    WalkIsLongest(x.end - p, x.JudgedAll(p, tag, t.one[b..b + 4]));
  }

  /** A search that finds fewer than four bytes has put its position in front of the bucket. */
  lemma SearchedIsEntered(x: Setting, p: nat, t: Tables)
    requires x.Ok() && p + 4 <= x.end && |t.one| == x.buckets + 12 && x.Searched(p, t).mlen < 4
    ensures var h := Hash(x.mem, p);
      x.Searched(p, t).tables.one[HashBucket(h, x.buckets)] == EntryFor(p, HashTag(h, x.unit, x.tags), x.unit)
  {
    var h := Hash(x.mem, p);
    var tag, b := HashTag(h, x.unit, x.tags), HashBucket(h, x.buckets);
    var long := if ProbesLong(t, tag, h) then x.Probed(p, h, t) else Hit(0, 0, t);
    BucketedIsEntered(x, p, tag, b, long.tables);
  }

  /** The sizes are such that an entry gives its place and its bits back. */
  predicate Divided(unit: nat, tags: nat, size: nat) {
    0 < tags <= unit && unit % tags == 0 && size * unit <= TWO32
  }

  lemma EntryGivesBack(at: nat, tag: nat, unit: nat, tags: nat, size: nat)
    requires Divided(unit, tags, size) && at < size && tag < tags
    ensures EntryFor(at, tag, unit) == at * unit + tag
    ensures PlaceOf(EntryFor(at, tag, unit), unit) == at && TagOf(EntryFor(at, tag, unit), tags) == tag
  {
    EntryIsWord(at, tag, unit, size);
    DivUnique(at * unit + tag, at, unit, tag);
    WholeTimes(unit, tags);
    TagGivesBack(at, tag, unit / tags, unit, tags);
  }

  lemma EntryIsWord(at: nat, tag: nat, unit: nat, size: nat)
    requires tag < unit && size * unit <= TWO32 && at < size
    ensures 0 <= at * unit + tag < TWO32
  {
    Distributes(at + 1, size - at - 1, unit);
    Distributes(at, 1, unit);
  }

  lemma WholeTimes(unit: nat, tags: nat)
    requires 0 < tags && unit % tags == 0
    ensures unit / tags >= 0 && unit == unit / tags * tags
  {
  }

  lemma TagGivesBack(at: nat, tag: nat, m: nat, unit: nat, tags: nat)
    requires tag < tags && unit == m * tags
    ensures (at * unit + tag) % tags == tag
  {
    assert at * unit == at * m * tags;
    DivUnique(at * unit + tag, at * m, tags, tag);
  }

  /**
   A place in front of the bucket of the same four bytes is found, if it is not the very first with no
   bits: the match is as long as the bytes agree there, or eight bytes long.
   */
  lemma FrontIsFound(x: Setting, p: nat, q: nat, t: Tables)
    requires x.Ok() && Divided(x.unit, x.tags, x.size) && p + 4 <= x.end && |t.one| == x.buckets + 12
    requires (q < p || x.end <= q) && q < x.size && x.Agreement(p, q) >= 4
    requires var h := Hash(x.mem, q);
      t.one[HashBucket(h, x.buckets)] == EntryFor(q, HashTag(h, x.unit, x.tags), x.unit) != 0
    ensures x.Searched(p, t).mlen >= x.Agreement(p, q) || x.Searched(p, t).mlen >= 8
  {
    var h := Hash(x.mem, p);
    SameHash(x.mem, p, q, Min(x.end - p, x.size - q));
    var tag, b := HashTag(h, x.unit, x.tags), HashBucket(h, x.buckets);
    var u := SearchedIsEither(x, p, t, h, tag, b);
    FrontIsWalked(x, p, q, tag, b, u);
  }

  /** A search gives eight bytes from the second table, or what the bucket gives. */
  lemma SearchedIsEither(x: Setting, p: nat, t: Tables, h: U32, tag: nat, b: nat) returns (u: Tables)
    requires x.Ok() && p + 4 <= x.end && |t.one| == x.buckets + 12
    requires h == Hash(x.mem, p) && tag == HashTag(h, x.unit, x.tags) && b == HashBucket(h, x.buckets)
    ensures u.one == t.one && b + 4 <= |t.one| && (x.Searched(p, t).mlen >= 8 || x.Searched(p, t) == x.Bucketed(p, tag, b, u))
  {
    u := (if ProbesLong(t, tag, h) then x.Probed(p, h, t) else Hit(0, 0, t)).tables;
  }

  lemma FrontIsWalked(x: Setting, p: nat, q: nat, tag: nat, b: nat, t: Tables)
    requires x.Ok() && Divided(x.unit, x.tags, x.size) && p + 4 <= x.end && b + 4 <= |t.one|
    requires (q < p || x.end <= q) && q < x.size && tag < x.tags && t.one[b] == EntryFor(q, tag, x.unit) != 0
    ensures var n := x.Bucketed(p, tag, b, t).mlen; n >= x.Agreement(p, q) || n >= 8
  {
    EntryGivesBack(q, tag, x.unit, x.tags, x.size);
    var bucket := x.JudgedAll(p, tag, t.one[b..b + 4]);
    assert bucket[0] == x.Judged(p, tag, t.one[b]);
    FoundIsAsLong(x.end - p, bucket, 0);
  }
}
