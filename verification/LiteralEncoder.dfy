/** What the encoder of the literal stream has on its hands between two literals. */
module LiteralBook {
  import opened Words
  import opened LiteralRows
  import opened LiteralContexts
  import opened LiteralPredictor
  import opened LiteralStream

  const RECENT := 256

  function Slot(j: nat): (k: nat)
    ensures k < RECENT
  {
    (j + 1) % RECENT
  }

  /**
   The encoder's fields, and two readings of the stream so far: `plain` gives the open run up,
   `run` keeps it. `now` is where it stands; its predictor is the open run's.
   */
  datatype Book = Book(start: State, plain: seq<Item>, run: seq<Item>, now: State, out: seq<Byte>, ring: seq<Byte>,
                       rates: seq<int>, count: nat, flushed: int, predrun: nat, distance: nat)

  /** Of a stream with tally `t`: `rates` are its numbers and `gap` the plain literals since. */
  predicate Rests(t: Tally, rates: seq<int>, gap: int) {
    t == Tally(rates, gap, 0, 0) || (t.run > 0 && rates == t.Closed() && gap == 0)
  }

  /** The codes of the last literals lie in the ring, each by its number. */
  ghost predicate Remembers(ring: seq<Byte>, codes: seq<Byte>, from: nat) {
    && |ring| == RECENT
    && forall j: nat {:trigger Slot(j)} | from <= j < |codes| && |codes| - j <= RUN :: ring[Slot(j)] == codes[j]
  }

  predicate SamePlace(a: State, b: State) {
    a.rows == b.rows && a.ctx == b.ctx && a.history == b.history
  }

  ghost predicate Streams(b: Book) {
    && b.start.mode.Idle? && Good(b.start, b.plain) && Good(b.start, b.run)
    && SamePlace(AfterItems(b.start, b.plain), b.now) && SamePlace(AfterItems(b.start, b.run), b.now)
    && StateOk(b.now)
    && (b.predrun == 0 ==> b.plain == b.run)
    && (b.predrun > 0 ==> b.now.mode.Running? && b.now == AfterItems(b.start, b.run))
  }

  ghost predicate Bytes(b: Book) {
    && b.out == BytesOf(b.run) && |BytesOf(b.plain)| == |b.out| == b.count && b.predrun <= b.count
    && BytesOf(b.plain)[..b.count - b.predrun] == b.out[..b.count - b.predrun]
    && Remembers(b.ring, BytesOf(b.plain), b.count - b.predrun)
  }

  /** The two readings have tallies `given` and `kept`. */
  predicate Tallies(given: Tally, kept: Tally, b: Book) {
    && b.flushed + b.predrun <= b.count
    && Rests(given, b.rates, b.count - b.flushed)
    && (b.predrun > 0 ==>
          && b.distance > 0 && b.now.mode.Running? && b.now.mode.model.order == b.distance
          && kept == Tally(b.rates, b.count - b.predrun - b.flushed, b.predrun, b.distance))
  }

  ghost predicate Counts(b: Book) {
    (forall i | 0 <= i < |b.rates| :: b.rates[i] >= 0) && Tallies(TallyOf(b.plain), TallyOf(b.run), b)
  }

  ghost predicate Sound(b: Book) {
    Streams(b) && Bytes(b) && Counts(b) && ShapesOf(b.plain) == ShapesOf(b.run)
  }


  /** A run that was too short, its bytes written over. */
  lemma ShortRunIsPlain(b: Book, out: seq<Byte>)
    requires Sound(b) && out == BytesOf(b.plain)
    ensures Sound(b.(out := out, run := b.plain, predrun := 0, now := b.now.(mode := Idle)))
  {
  }

  function Recorded(b: Book): Book {
    b.(rates := b.rates + [b.count - b.predrun - b.flushed, b.predrun - RUN, b.distance - 1],
       flushed := b.count, plain := b.run, predrun := 0, now := b.now.(mode := Idle))
  }

  lemma RecordedCounts(b: Book)
    requires Counts(b) && b.predrun >= RUN
    ensures Counts(Recorded(b))
  {
    var t := TallyOf(b.run);
    assert t.Closed() == Recorded(b).rates;
  }

  lemma RecordedBytes(b: Book)
    requires Bytes(b)
    ensures Bytes(Recorded(b))
  {
  }

  lemma RecordedStreams(b: Book)
    requires Streams(b)
    ensures Streams(Recorded(b))
  {
  }

  /** A long run, put on the record. */
  lemma LongRunIsRecorded(b: Book)
    requires Sound(b) && b.predrun >= RUN
    ensures Sound(Recorded(b))
  {
    RecordedCounts(b);
    RecordedBytes(b);
    RecordedStreams(b);
  }

  // ---- one more item

  lemma RemembersMore(ring: seq<Byte>, codes: seq<Byte>, from: nat, b: Byte)
    requires Remembers(ring, codes, from)
    ensures Remembers(ring[Slot(|codes|) := b], codes, from)
    ensures Remembers(ring[Slot(|codes|) := b], codes + [b], from)
  {
    var n := |codes|;
    forall j: nat | from <= j < n && n - j <= RUN
      ensures Slot(j) != Slot(n)
    {
      assert (n + 1) - (j + 1) < RECENT;
    }
  }

  lemma NotedBytes(b: Book, code: Byte)
    requires Bytes(b)
    ensures Bytes(b.(ring := b.ring[Slot(b.count) := code]))
  {
    RemembersMore(b.ring, BytesOf(b.plain), b.count - b.predrun, code);
  }

  lemma NotedStreams(b: Book, code: Byte)
    requires Streams(b) && |b.ring| == RECENT
    ensures Streams(b.(ring := b.ring[Slot(b.count) := code]))
  {
  }

  lemma NotedCounts(b: Book, code: Byte)
    requires Counts(b) && |b.ring| == RECENT
    ensures Counts(b.(ring := b.ring[Slot(b.count) := code]))
  {
  }

  /** The code of the literal at hand is noted before anything is settled. */
  lemma CodeIsNoted(b: Book, code: Byte)
    requires Sound(b)
    ensures Sound(b.(ring := b.ring[Slot(b.count) := code]))
  {
    NotedBytes(b, code);
    NotedStreams(b, code);
    NotedCounts(b, code);
  }

  /** `kept` and `given` stand for the same next thing in the two readings. */
  lemma StreamsMore(b: Book, given: Item, kept: Item)
    requires Streams(b)
    requires GoodItem(AfterItems(b.start, b.plain), given) && GoodItem(AfterItems(b.start, b.run), kept)
    ensures Good(b.start, b.plain + [given]) && Good(b.start, b.run + [kept])
    ensures AfterItems(b.start, b.plain + [given]) == AfterItem(AfterItems(b.start, b.plain), given)
    ensures AfterItems(b.start, b.run + [kept]) == AfterItem(AfterItems(b.start, b.run), kept)
  {
    More(b.start, b.plain, given);
    More(b.start, b.run, kept);
  }

  lemma BytesMore(b: Book, given: Item, kept: Item, code: Byte, more: Book)
    requires Bytes(b) && given.Lit? && kept.Lit? && given.b == code
    requires more.plain == b.plain + [given] && more.run == b.run + [kept]
    requires more.out == b.out + [kept.b] && more.count == b.count + 1
    requires more.ring == b.ring[Slot(b.count) := code]
    requires (given == kept && b.predrun == 0 && more.predrun == 0) || more.predrun == b.predrun + 1
    ensures Bytes(more)
  {
    MoreCounts(b.plain, given);
    MoreCounts(b.run, kept);
    var from := b.count - b.predrun;
    RemembersMore(b.ring, BytesOf(b.plain), from, code);
    if more.predrun == b.predrun + 1 {
      assert BytesOf(more.plain)[..from] == BytesOf(b.plain)[..from] == b.out[..from] == more.out[..from];
    } else {
      assert BytesOf(b.plain) == BytesOf(b.plain)[..from] == b.out[..from] == b.out;
      assert BytesOf(more.plain) == more.out;
    }
  }

  lemma ShapesMore(b: Book, given: Item, kept: Item)
    requires ShapesOf(b.plain) == ShapesOf(b.run) && ShapeOf(given) == ShapeOf(kept)
    ensures ShapesOf(b.plain + [given]) == ShapesOf(b.run + [kept]) == ShapesOf(b.plain) + [ShapeOf(given)]
  {
    MoreCounts(b.plain, given);
    MoreCounts(b.run, kept);
  }

  ghost function WithPlain(b: Book, c: Byte, code: Byte, distance: nat): Book
    requires StateOk(b.now) && |b.ring| == RECENT
  {
    var item := Lit(c, Plain, code);
    b.(plain := b.plain + [item], run := b.run + [item], out := b.out + [code], count := b.count + 1,
       ring := b.ring[Slot(b.count) := code], distance := distance,
       now := State(After(b.now.rows, b.now.ctx, c), c, b.now.history + [c], Idle))
  }

  /** A literal sent by its context, no run being open. */
  lemma PlainMore(b: Book, c: Byte, code: Byte, distance: nat)
    requires Sound(b) && b.predrun == 0 && Sends(b.now.rows[b.now.ctx], code, c)
    ensures Sound(WithPlain(b, c, code, distance))
    ensures ShapesOf(WithPlain(b, c, code, distance).plain) == ShapesOf(b.plain) + [Gap]
  {
    var item := Lit(c, Plain, code);
    var more := WithPlain(b, c, code, distance);
    StreamsMore(b, item, item);
    BytesMore(b, item, item, code, more);
    ShapesMore(b, item, item);
    PlainCounts(b, c, code, distance);
  }

  lemma PlainCounts(b: Book, c: Byte, code: Byte, distance: nat)
    requires Counts(b) && StateOk(b.now) && |b.ring| == RECENT && b.predrun == 0
    ensures Counts(WithPlain(b, c, code, distance))
  {
    MoreCounts(b.plain, Lit(c, Plain, code));
  }

  /** The item by which a run goes on, or is opened with period `k`. */
  function RunItem(b: Book, c: Byte, k: nat): Item
    requires k > 0 && (b.predrun > 0 ==> b.now.mode.Running? && b.now.mode.model.Valid())
  {
    Lit(c, if b.predrun == 0 then Opened(k) else Predicted, Predictable(RunModel(b, k), b.now.history, c))
  }

  function RunModel(b: Book, k: nat): (m: Model)
    requires k > 0 && (b.predrun > 0 ==> b.now.mode.Running? && b.now.mode.model.Valid())
    ensures m.Valid()
  {
    if b.predrun == 0 then NewModel(k) else b.now.mode.model
  }

  ghost function WithPredicted(b: Book, c: Byte, code: Byte, k: nat): Book
    requires StateOk(b.now) && |b.ring| == RECENT && k > 0 && (b.predrun > 0 ==> b.now.mode.Running?)
  {
    var item := RunItem(b, c, k);
    var m := RunModel(b, k);
    b.(plain := b.plain + [Lit(c, Plain, code)], run := b.run + [item], out := b.out + [item.b], count := b.count + 1,
       ring := b.ring[Slot(b.count) := code], predrun := b.predrun + 1, distance := k,
       now := State(After(b.now.rows, b.now.ctx, c), c, b.now.history + [c],
                    Running(m.Next(c, Back(b.now.history, m.order)))))
  }

  /** A literal of a run: both readings go on, one with the residual and one with the code. */
  lemma PredictedMore(b: Book, c: Byte, code: Byte, k: nat)
    requires Sound(b) && Sends(b.now.rows[b.now.ctx], code, c)
    requires k > 0 && (b.predrun > 0 ==> k == b.distance)
    ensures Sound(WithPredicted(b, c, code, k))
    ensures ShapesOf(WithPredicted(b, c, code, k).plain) == ShapesOf(b.plain) + [Gap]
  {
    var given, kept := Lit(c, Plain, code), RunItem(b, c, k);
    var more := WithPredicted(b, c, code, k);
    PredictedGood(b, c, k);
    StreamsMore(b, given, kept);
    BytesMore(b, given, kept, code, more);
    ShapesMore(b, given, kept);
    PredictedCounts(b, c, code, k);
  }

  lemma PredictedGood(b: Book, c: Byte, k: nat)
    requires Streams(b) && k > 0
    ensures GoodItem(AfterItems(b.start, b.run), RunItem(b, c, k))
  {
  }

  lemma PredictedTallies(given: Tally, kept: Tally, b: Book, c: Byte, code: Byte, k: nat)
    requires Tallies(given, kept, b) && StateOk(b.now) && |b.ring| == RECENT
    requires k > 0 && (b.predrun > 0 ==> k == b.distance) && (b.predrun == 0 ==> given == kept)
    ensures Tallies(given.Add(Lit(c, Plain, code)), kept.Add(RunItem(b, c, k)), WithPredicted(b, c, code, k))
  {
  }

  lemma PredictedCounts(b: Book, c: Byte, code: Byte, k: nat)
    requires Counts(b) && StateOk(b.now) && |b.ring| == RECENT && k > 0 && (b.predrun > 0 ==> k == b.distance)
    requires b.predrun == 0 ==> b.plain == b.run
    ensures Counts(WithPredicted(b, c, code, k))
  {
    MoreCounts(b.plain, Lit(c, Plain, code));
    MoreCounts(b.run, RunItem(b, c, k));
    PredictedTallies(TallyOf(b.plain), TallyOf(b.run), b, c, code, k);
  }

  ghost function WithMatch(b: Book, bytes: seq<Byte>): Book
    requires StateOk(b.now) && bytes != []
  {
    b.(plain := b.plain + [Copy(bytes)], run := b.run + [Copy(bytes)], now := AfterItem(b.now, Copy(bytes)))
  }

  /** A match belongs to both readings alike. */
  lemma MatchMore(b: Book, bytes: seq<Byte>)
    requires Sound(b) && bytes != []
    ensures Sound(WithMatch(b, bytes))
    ensures ShapesOf(WithMatch(b, bytes).plain) == ShapesOf(b.plain) + [Copied(bytes)]
  {
    StreamsMore(b, Copy(bytes), Copy(bytes));
    ShapesMore(b, Copy(bytes), Copy(bytes));
    MatchCounts(b, bytes);
    MatchBytes(b, bytes);
  }

  lemma MatchCounts(b: Book, bytes: seq<Byte>)
    requires Counts(b) && StateOk(b.now) && bytes != []
    ensures Counts(WithMatch(b, bytes))
  {
    MoreCounts(b.plain, Copy(bytes));
    MoreCounts(b.run, Copy(bytes));
  }

  lemma MatchBytes(b: Book, bytes: seq<Byte>)
    requires Bytes(b) && StateOk(b.now) && bytes != []
    ensures Bytes(WithMatch(b, bytes))
  {
    MoreCounts(b.plain, Copy(bytes));
    MoreCounts(b.run, Copy(bytes));
  }

  // ---- the end

  /**
   `bytes` and `rates` are the literal stream of `items`, which begin in state `st`: the bytes as
   sent, and the numbers of all runs, with a last gap that is long enough.
   */
  ghost predicate IsSent(st: State, items: seq<Item>, bytes: seq<Byte>, rates: seq<int>) {
    && st.mode.Idle? && Good(st, items) && bytes == BytesOf(items)
    && (forall i | 0 <= i < |rates| :: rates[i] >= 0)
    && Pending(TallyOf(items), [], rates)
  }

  /** Once settled, one more number ends the stream. */
  lemma SettledIsSent(b: Book, last: int)
    requires Sound(b) && b.predrun == 0 && last >= b.count - b.flushed
    ensures IsSent(b.start, b.plain, b.out, b.rates + [last])
  {
    var t := TallyOf(b.plain);
    SettledIsPending(t, b.rates, b.count - b.flushed, last);
  }

  lemma SettledIsPending(t: Tally, rates: seq<int>, gap: int, last: int)
    requires Rests(t, rates, gap) && last >= gap
    requires forall i | 0 <= i < |rates| :: rates[i] >= 0
    ensures Pending(t, [], rates + [last])
  {
    var final, n := rates + [last], |t.rates|;
    if t.run > 0 {
      assert rates[n] == t.gap && rates[n + 1] == t.run - RUN && rates[n + 2] == t.order - 1;
      assert final[..n] == rates[..n] == t.rates;
    } else {
      assert final[..n] == rates == t.rates;
    }
  }

  // ---- the same, out of sight of the encoder's own frames

  /** `Sound`, held under one name. */
  ghost predicate Kept(b: Book) {
    && StateOk(b.now) && |b.ring| == RECENT && (b.predrun > 0 ==> b.now.mode.Running?)
    && forall z {:trigger Look(Log, z)} :: Look(Log, z) ==> Sound(b)
  }

  lemma KeepNothing(b: Book)
    requires b.plain == b.run == [] && b.now == b.start && StateOk(b.now) && b.now.mode.Idle? && |b.ring| == RECENT
    requires b.out == [] && b.rates == [] && b.count == b.flushed == b.predrun == 0
    ensures Kept(b)
  {
  }

  lemma KeepShort(b: Book)
    requires Kept(b)
    ensures |b.out| == b.count == |BytesOf(b.plain)| && b.predrun <= b.count
    ensures b.out[..b.count - b.predrun] == BytesOf(b.plain)[..b.count - b.predrun]
    ensures Remembers(b.ring, BytesOf(b.plain), b.count - b.predrun)
    ensures Kept(b.(out := BytesOf(b.plain), run := b.plain, predrun := 0, now := b.now.(mode := Idle)))
  {
    assert Look(Log, 0);
    ShortRunIsPlain(b, BytesOf(b.plain));
  }

  lemma KeepLong(b: Book)
    requires Kept(b) && b.predrun >= RUN
    ensures Kept(Recorded(b)) && ShapesOf(b.run) == ShapesOf(b.plain)
  {
    assert Look(Log, 0);
    LongRunIsRecorded(b);
  }

  lemma KeepCode(b: Book, code: Byte)
    requires Kept(b)
    ensures Kept(b.(ring := b.ring[Slot(b.count) := code]))
  {
    assert Look(Log, 0);
    CodeIsNoted(b, code);
  }

  lemma KeepPlain(b: Book, c: Byte, code: Byte, distance: nat)
    requires Kept(b) && b.predrun == 0 && Sends(b.now.rows[b.now.ctx], code, c)
    ensures Kept(WithPlain(b, c, code, distance))
    ensures ShapesOf(WithPlain(b, c, code, distance).plain) == ShapesOf(b.plain) + [Gap]
  {
    assert Look(Log, 0);
    PlainMore(b, c, code, distance);
  }

  /** `residual` and `mode` are what the predictor makes of the literal. */
  lemma KeepPredicted(b: Book, c: Byte, code: Byte, k: nat, m: Model) returns (more: Book)
    requires Kept(b) && Sends(b.now.rows[b.now.ctx], code, c) && b.ring[Slot(b.count)] == code
    requires k > 0 && (b.predrun > 0 ==> k == b.distance)
    requires m.Valid() && m.order == k && (if b.predrun == 0 then m == NewModel(k) else b.now.mode == Running(m))
    ensures Kept(more)
    ensures more.now == State(After(b.now.rows, b.now.ctx, c), c, b.now.history + [c],
                              Running(m.Next(c, Back(b.now.history, k))))
    ensures more == b.(plain := more.plain, run := more.run, now := more.now,
                       out := b.out + [m.Residual(c, Back(b.now.history, k))],
                       count := b.count + 1, predrun := b.predrun + 1, distance := k)
    ensures ShapesOf(more.plain) == ShapesOf(b.plain) + [Gap]
  {
    more := WithPredicted(b, c, code, k);
    assert b.ring == b.ring[Slot(b.count) := code];
    PredictedMore(b, c, code, k) by {
      assert Look(Log, 0);
    }
  }

  lemma KeptIsSent(b: Book, last: int)
    requires Kept(b) && b.predrun == 0 && last >= b.count - b.flushed
    ensures IsSent(b.start, b.plain, b.out, b.rates + [last])
    ensures SamePlace(AfterItems(b.start, b.plain), b.now)
  {
    assert Look(Log, 0);
    SettledIsSent(b, last);
  }

  lemma KeepMatch(b: Book, bytes: seq<Byte>)
    requires Kept(b) && bytes != []
    ensures Kept(WithMatch(b, bytes))
    ensures ShapesOf(WithMatch(b, bytes).plain) == ShapesOf(b.plain) + [Copied(bytes)]
  {
    assert Look(Log, 0);
    MatchMore(b, bytes);
  }
}

/** The encoder's side of the literal stream. */
module LiteralEncoder {
  import opened Words
  import opened LiteralRows
  import opened LiteralTable
  import opened LiteralContexts
  import opened LiteralPredictor
  import opened LiteralStream
  import opened LiteralBook
  import LiteralControl

  class LiteralEncoder {
    const table: array<Byte>
    const recent: array<Byte>
    const predictor: Predictor
    var ctx: Byte
    var history: seq<Byte>
    var out: seq<Byte>
    var rates: seq<nat>
    var count: nat
    var flushed: nat
    var predrun: nat
    var distance: nat
    ghost var book: Book

    ghost predicate Shaped()
      reads this, table, predictor
    {
      && Usable(table) && recent.Length == RECENT && predictor.Shaped() && predictor.stage <= predictor.order
      && table != recent && (table as object) != predictor.taps && (recent as object) != predictor.taps
      && (predrun > 0 ==> predictor.order == distance > 0)
    }

    /** The fields are those of the book. */
    ghost predicate Tied()
      reads this, recent
    {
      && book.out == out && book.rates == rates && book.count == count && book.flushed == flushed
      && book.predrun == predrun && book.distance == distance && book.ring == recent[..]
      && book.now.ctx == ctx && book.now.history == history
    }

    ghost predicate Stands()
      requires Shaped()
      reads this, table, predictor, predictor.taps
    {
      && book.now.rows == Rows(table[..])
      && (predrun > 0 ==> book.now.mode == Running(predictor.View()))
    }

    function Counters(): LiteralControl.Control
      reads this
    {
      LiteralControl.Control(rates, count, flushed, predrun, distance)
    }

    ghost predicate Valid()
      reads this, table, recent, predictor, predictor.taps
    {
      Shaped() && Tied() && Stands() && Kept(book) && Counters().Ok()
    }

    /** A chunk begins: the contexts are kept, the predictor and the counts start afresh. */
    constructor (table: array<Byte>, ctx: Byte, history: seq<Byte>)
      requires Usable(table)
      ensures Valid() && Counters() == LiteralControl.START && book.plain == [] && this.history == history
      ensures this.table == table && book.start == book.now == State(Rows(table[..]), ctx, history, Idle)
      ensures fresh(recent) && fresh(predictor) && fresh(predictor.taps)
    {
      this.table, this.ctx, this.history := table, ctx, history;
      var ring := new Byte[RECENT];
      recent := ring;
      var p := new Predictor();
      predictor := p;
      out, rates, count, flushed, predrun, distance := [], [], 0, 0, 0, 0;
      ghost var now := State(Rows(table[..]), ctx, history, Idle);
      book := Book(now, [], [], now, [], ring[..], [], 0, 0, 0, 0);
      new;
      TableHasRows(table);
      KeepNothing(book);
    }

    /** The bytes of a short run give way to the codes of its literals. */
    method WriteOver(ghost codes: seq<Byte>)
      requires recent.Length == RECENT && predrun < RUN && predrun <= count
      requires |out| == count == |codes| && out[..count - predrun] == codes[..count - predrun]
      requires Remembers(recent[..], codes, count - predrun)
      modifies this`out
      ensures out == codes
    {
      var k, left: nat := count - predrun, predrun;
      while left != 0
        invariant k == count - left && left <= predrun
        invariant |out| == count && out[..k] == codes[..k]
      {
        assert recent[..][Slot(k)] == codes[k];
        out := out[k := recent[Slot(k)]];
        assert out[..k + 1] == codes[..k + 1];
        k := k + 1;
        left := left - 1;
      }
      assert out == codes;
    }

    /** `RUN_END`: a run of 200 or more goes on the record, a shorter one is written over. */
    method Settle()
      requires Valid() && predrun > 0
      modifies this`out, this`predrun, this`rates, this`flushed, this`book
      ensures Valid() && Counters() == old(Counters().Settled()) && book.start == old(book.start)
      ensures book.now == old(book.now).(mode := Idle) && book.ring == old(book.ring)
      ensures ShapesOf(book.plain) == old(ShapesOf(book.plain))
    {
      if predrun < RUN {
        KeepShort(book);
        WriteOver(BytesOf(book.plain));
        book := book.(out := BytesOf(book.plain), run := book.plain, predrun := 0, now := book.now.(mode := Idle));
      } else {
        KeepLong(book);
        rates := rates + [count - predrun - flushed, predrun - RUN, distance - 1];
        flushed := count;
        book := Recorded(book);
      }
      predrun := 0;
    }

    /** `RAW`: the literal goes out as its code. */
    method PutPlain(c: Byte, code: Byte, period: nat)
      requires Valid() && predrun == 0 && period < TWO32 && recent[Slot(count)] == code
      requires Sends(book.now.rows[book.now.ctx], code, c)
      modifies this`ctx, this`history, this`out, this`count, this`distance, this`book, table
      ensures Valid() && book.start == old(book.start) && Counters() == old(Counters()).(count := old(count) + 1, distance := period)
      ensures history == old(history) + [c] && ShapesOf(book.plain) == old(ShapesOf(book.plain)) + [Gap]
      ensures book.now.rows == old(After(book.now.rows, book.now.ctx, c)) && book.now.ctx == c
    {
      KeepPlain(book, c, code, period);
      assert book.ring == book.ring[Slot(count) := code];
      Update(table, ctx, c, code);
      ctx, history, out, count, distance := c, history + [c], out + [code], count + 1, period;
      book := WithPlain(book, c, code, period);
    }

    ghost function RunPredictor(period: nat): (m: Model)
      requires Shaped() && period > 0
      reads this, table, predictor, predictor.taps
      ensures m.Valid()
    {
      if predrun == 0 then NewModel(period) else predictor.View()
    }

    method Predict(c: Byte, period: nat) returns (residual: Byte)
      requires Shaped() && period > 0 && (predrun > 0 ==> period == distance)
      modifies predictor, predictor.taps
      ensures predictor.order == period && predictor.stage <= period
      ensures residual == old(RunPredictor(period)).Residual(c, Back(history, period))
      ensures predictor.View() == old(RunPredictor(period)).Next(c, Back(history, period))
    {
      if predrun == 0 {
        predictor.OpenForEncoder(period);
      }
      residual := predictor.Encode(c, Back(history, period));
    }

    /** The fields catch up with the book of a predicted literal. */
    method Enter(c: Byte, b: Byte, period: nat, ghost more: Book)
      requires Shaped() && Tied() && Counters().Ok() && TWO32 > predictor.order == period > 0 && Kept(more)
      requires more.now == State(Rows(table[..]), c, history + [c], Running(predictor.View()))
      requires more == book.(plain := more.plain, run := more.run, now := more.now, out := out + [b],
                             count := count + 1, predrun := predrun + 1, distance := period)
      modifies this`ctx, this`history, this`out, this`count, this`distance, this`predrun, this`book
      ensures Valid() && book == more && history == old(history) + [c]
      ensures Counters() == old(Counters()).(count := old(count) + 1, predrun := old(predrun) + 1, distance := period)
    {
      ctx, history, out, count := c, history + [c], out + [b], count + 1;
      distance, predrun := period, predrun + 1;
      book := more;
    }

    /** `PRED_START` and `PRED_EMIT`: the literal goes out as a residual, for the time being. */
    method PutPredicted(c: Byte, code: Byte, period: nat)
      requires Valid() && recent[Slot(count)] == code && 0 < period < TWO32
      requires predrun > 0 ==> period == distance
      requires Sends(book.now.rows[book.now.ctx], code, c)
      modifies this`ctx, this`history, this`out, this`count, this`distance, this`predrun, this`book
      modifies table, predictor, predictor.taps
      ensures Valid() && book.start == old(book.start)
      ensures Counters() == old(Counters()).(count := old(count) + 1, predrun := old(predrun) + 1, distance := period)
      ensures history == old(history) + [c] && ShapesOf(book.plain) == old(ShapesOf(book.plain)) + [Gap]
      ensures book.now.rows == old(After(book.now.rows, book.now.ctx, c)) && book.now.ctx == c
    {
      ghost var model := RunPredictor(period);
      ghost var more := KeepPredicted(book, c, code, period, model);
      var residual := Predict(c, period);
      Update(table, ctx, c, code);
      Enter(c, residual, period, more);
    }

    /** The code of the literal at hand, kept in the ring whatever is sent. */
    method NoteCode(c: Byte) returns (code: Byte)
      requires Valid()
      modifies this`book, recent
      ensures Valid() && recent[Slot(count)] == code && Sends(book.now.rows[book.now.ctx], code, c)
      ensures book.now == old(book.now) && book.start == old(book.start) && book.plain == old(book.plain)
    {
      code := CodeOf(table, ctx, c);
      KeepCode(book, code);
      recent[Slot(count)] := code;
      book := book.(ring := book.ring[Slot(book.count) := code]);
    }

    /**
     One literal, and its code. `on` and `period` are what the choice of periods says at it, of which
     only this is known: a period that is on is not 0. A run goes on while both stay, and ends otherwise.
     */
    method PutLiteral(c: Byte, on: bool, period: U32) returns (code: Byte)
      requires Valid() && (on ==> period > 0)
      modifies this, table, recent, predictor, predictor.taps
      ensures Valid() && book.start == old(book.start) && Counters() == old(Counters().Passed(on, period))
      ensures history == old(history) + [c] && ShapesOf(book.plain) == old(ShapesOf(book.plain)) + [Gap]
      ensures Sends(old(book.now.rows[book.now.ctx]), code, c)
      ensures book.now.rows == old(After(book.now.rows, book.now.ctx, c)) && book.now.ctx == c
    {
      ghost var was := Counters();
      code := NoteCode(c);
      if on && distance == period {
        PutPredicted(c, code, period);
      } else {
        var ended := predrun != 0;
        if ended {
          Settle();
        }
        if ended && on {
          PutPredicted(c, code, period);
        } else {
          PutPlain(c, code, period);
        }
      }
      assert Counters() == was.Passed(on, period);
    }

    /** A match passes: its last byte is the next context, and the predictor's corrections are cleared. */
    method PutMatch(bytes: seq<Byte>)
      requires Valid() && bytes != []
      modifies this`ctx, this`history, this`book, predictor, predictor.taps
      ensures Valid() && book.start == old(book.start)
      ensures history == old(history) + bytes
      ensures ShapesOf(book.plain) == old(ShapesOf(book.plain)) + [Copied(bytes)]
      ensures book.now.rows == old(book.now.rows) && book.now.ctx == bytes[|bytes| - 1] && Counters() == old(Counters())
    {
      KeepMatch(book, bytes);
      predictor.Skip(|bytes|);
      ctx, history := bytes[|bytes| - 1], history + bytes;
      book := WithMatch(book, bytes);
    }

    /** The last gap; after a run that ended the chunk it counts one literal too many. */
    method Close(extra: nat)
      requires Valid() && predrun == 0 && extra <= 1
      modifies this`rates
      ensures rates == old(rates) + [count + extra - flushed]
      ensures IsSent(book.start, book.plain, out, rates)
      ensures AfterItems(book.start, book.plain).rows == Rows(table[..])
      ensures AfterItems(book.start, book.plain).ctx == ctx && AfterItems(book.start, book.plain).history == history
    {
      KeptIsSent(book, count + extra - flushed);
      rates := rates + [count + extra - flushed];
    }

    /** `FINISH`: an open run is settled first. */
    method Finish()
      requires Valid()
      modifies this`out, this`predrun, this`rates, this`flushed, this`book
      ensures Usable(table) && book.start == old(book.start) && rates == old(Counters().Finished())
      ensures IsSent(book.start, book.plain, out, rates)
      ensures ShapesOf(book.plain) == old(ShapesOf(book.plain))
      ensures AfterItems(book.start, book.plain).rows == Rows(table[..])
      ensures AfterItems(book.start, book.plain).ctx == ctx && AfterItems(book.start, book.plain).history == history
    {
      if predrun != 0 {
        Settle();
        Close(1);
      } else {
        Close(0);
      }
    }
  }
}
