/**
 The decoder's side of the literal stream, and the round trip: whatever the choice of periods,
 the matches in between and the contexts left by earlier chunks, the literals come back and both
 tables end equal byte for byte.
 */
module LiteralTurns {
  import opened Words
  import opened LiteralRows
  import opened LiteralContexts
  import opened LiteralPredictor
  import opened LiteralStream
  import opened LiteralBook

  function First(rates: seq<nat>): nat {
    if rates == [] then 0 else rates[0]
  }

  function Others(rates: seq<nat>): seq<nat> {
    if rates == [] then [] else rates[1..]
  }

  /** What the decoder counts with: the period of the run it is in or 0, the countdown, the numbers to come. */
  datatype Clock = Clock(mode: nat, left: nat, rates: seq<nat>) {
    /** How the next literal was sent. */
    function Kind(): Kind {
      if mode == 0 && left > 1 then Plain
      else if mode > 0 && left > 1 then Predicted
      else if mode > 0 && First(rates) > 0 then Plain
      else Opened(Opening().mode)
    }

    function Opening(): Clock {
      var ahead := if mode > 0 then Others(rates) else rates;
      Clock(First(Others(ahead)) + 1, First(ahead) + RUN, Others(Others(ahead)))
    }

    /** The numbers that counting one literal down asks for are there. */
    predicate Enough() {
      || left > 1
      || (mode == 0 && |rates| >= 2)
      || (mode > 0 && |rates| >= 1 && (rates[0] > 0 || |rates| >= 3))
    }

    function Next(): Clock {
      if left > 1 then Clock(mode, left - 1, rates)
      else if mode > 0 && First(rates) > 0 then Clock(0, First(rates), Others(rates))
      else Opening()
    }
  }

  ghost predicate Ahead(clock: Clock, items: seq<Item>) {
    && clock.left > 0
    && if clock.mode == 0 then PlainAhead(items, clock.left - 1, clock.rates)
       else RunAhead(items, clock.left - 1, clock.rates)
  }

  /** The countdown tells how each literal was sent, and goes on telling. */
  lemma ClockTellsKind(clock: Clock, items: seq<Item>)
    requires Ahead(clock, items) && items != []
    ensures items[0].Lit? ==> items[0].kind == clock.Kind() && clock.Enough() && Ahead(clock.Next(), items[1..])
    ensures items[0].Copy? ==> Ahead(clock, items[1..])
  {
    if items[0].Lit? && clock.mode > 0 && clock.left == 1 && items[0].kind.Opened? {
      assert PlainAhead(items, 0, clock.rates[1..]);
    }
  }

  /** The decoder has followed `items` up to `done`, and stands in state `now`; out of sight until `Look(Steps, 0)`. */
  ghost predicate InStep(st: State, items: seq<Item>, done: nat, bytes: seq<Byte>, now: State, clock: Clock, lp: nat) {
    done <= |items| && forall z {:trigger Look(Steps, z)} :: Look(Steps, z) ==> Followed(st, items, done, bytes, now, clock, lp)
  }

  ghost predicate Followed(st: State, items: seq<Item>, done: nat, bytes: seq<Byte>, now: State, clock: Clock, lp: nat) {
    && Good(st, items) && done <= |items| && Good(st, items[..done])
    && now == AfterItems(st, items[..done]) && (now.mode.Running? <==> clock.mode > 0)
    && bytes == BytesOf(items) && lp == |BytesOf(items[..done])|
    && Ahead(clock, items[done..])
  }

  lemma {:induction false} BytesPrefix(items: seq<Item>, i: nat)
    requires i <= |items|
    ensures BytesOf(items[..i]) <= BytesOf(items)
    decreases |items|
  {
    if i < |items| {
      var n := |items| - 1;
      BytesPrefix(items[..n], i);
      assert items[..n][..i] == items[..i];
    } else {
      assert items[..i] == items;
    }
  }

  lemma InStepItem(st: State, items: seq<Item>, done: nat, bytes: seq<Byte>, now: State, clock: Clock, lp: nat)
    requires InStep(st, items, done, bytes, now, clock, lp) && done < |items|
    ensures StateOk(now) && GoodItem(now, items[done]) && Good(st, items[..done + 1])
    ensures AfterItems(st, items[..done + 1]) == AfterItem(now, items[done])
    ensures items[done].Lit? ==> lp < |bytes| && bytes[lp] == items[done].b && items[done].kind == clock.Kind()
    ensures items[done].Lit? ==> clock.Enough()
    ensures |BytesOf(items[..done + 1])| == lp + if items[done].Lit? then 1 else 0
    ensures Ahead(if items[done].Lit? then clock.Next() else clock, items[done + 1..])
  {
    assert Look(Steps, 0);
    GoodPrefix(st, items, done + 1);
    assert items[..done + 1][..done] == items[..done] && items[..done + 1] == items[..done] + [items[done]];
    MoreCounts(items[..done], items[done]);
    BytesPrefix(items, done + 1);
    assert items[done..][1..] == items[done + 1..];
    ClockTellsKind(clock, items[done..]);
  }

  /** A literal decoded by the clock's kind is the one that was sent. */
  lemma InStepLiteral(st: State, items: seq<Item>, done: nat, bytes: seq<Byte>, now: State, clock: Clock, lp: nat, c: Byte)
    requires InStep(st, items, done, bytes, now, clock, lp) && done < |items| && items[done].Lit?
    requires StateOk(now) && SentAs(now, clock.Kind(), c, At(bytes, lp))
    ensures c == items[done].c
    ensures GoodItem(now, Lit(c, clock.Kind(), At(bytes, lp)))
    ensures InStep(st, items, done + 1, bytes, AfterItem(now, Lit(c, clock.Kind(), At(bytes, lp))), clock.Next(), lp + 1)
  {
    assert Look(Steps, 0);
    InStepItem(st, items, done, bytes, now, clock, lp);
    ByteTellsSymbol(now, clock.Kind(), c, items[done].c, At(bytes, lp));
    assert items[done] == Lit(c, clock.Kind(), At(bytes, lp));
  }

  lemma InStepMatch(st: State, items: seq<Item>, done: nat, bytes: seq<Byte>, now: State, clock: Clock, lp: nat)
    requires InStep(st, items, done, bytes, now, clock, lp) && done < |items| && items[done].Copy?
    ensures StateOk(now) && GoodItem(now, items[done])
    ensures InStep(st, items, done + 1, bytes, AfterItem(now, items[done]), clock, lp)
  {
    assert Look(Steps, 0);
    InStepItem(st, items, done, bytes, now, clock, lp);
  }

  /** Where the decoder ends. */
  lemma InStepEnd(st: State, items: seq<Item>, bytes: seq<Byte>, now: State, clock: Clock, lp: nat)
    requires InStep(st, items, |items|, bytes, now, clock, lp)
    ensures Good(st, items) && now == AfterItems(st, items)
  {
    assert Look(Steps, 0);
    assert items[..|items|] == items;
  }

  /** Where the decoder begins. */
  lemma SentIsInStep(st: State, items: seq<Item>, bytes: seq<Byte>, rates: seq<nat>)
    requires IsSent(st, items, bytes, rates)
    ensures rates != []
    ensures InStep(st, items, 0, bytes, st, Clock(0, rates[0] + 1, rates[1..]), 0)
  {
    TallyIsAhead(st, items, rates, 0);
    GoodPrefix(st, items, 0);
    assert items[..0] == [] && items[0..] == items;
    assert rates[..0] == [];
  }
}

module LiteralDecoder {
  import opened Words
  import opened BitStream
  import opened LiteralRows
  import opened LiteralTable
  import opened LiteralContexts
  import opened LiteralPredictor
  import opened LiteralStream
  import opened LiteralRates
  import opened LiteralTurns
  import opened LiteralControl

  class LiteralDecoder {
    const table: array<Byte>
    const predictor: Predictor
    const bytes: seq<Byte>
    const reader: BitReader
    var ctx: Byte
    var history: seq<Byte>
    var lp: nat
    var mode: nat
    var left: nat

    /** The numbers ahead, while they are known. */
    ghost var rates: seq<nat>
    ghost var told: bool

    ghost predicate Valid()
      reads this, table, predictor, reader
    {
      && Usable(table) && predictor.Shaped() && predictor.stage <= predictor.order
      && (table as object) != predictor.taps
      && left > 0 && (mode > 0 ==> predictor.order == mode)
      && Listens()
    }

    ghost predicate Listens()
      reads this, reader
    {
      && reader.Valid()
      && (told ==> forall z {:trigger Look(Log, z)} :: Look(Log, z) ==> Numbers(rates) && reader.Ahead(NumbersBits(rates)))
    }

    ghost function Now(): (st: State)
      requires Valid()
      reads this, table, predictor, predictor.taps, reader
      ensures StateOk(st)
    {
      TableHasRows(table);
      State(Rows(table[..]), ctx, history, if mode > 0 then Running(predictor.View()) else Idle)
    }

    ghost function Time(): Clock
      reads this
    {
      Clock(mode, left, rates)
    }

    /** The start of a chunk; the first number is read at once. */
    constructor (table: array<Byte>, ctx: Byte, history: seq<Byte>, bytes: seq<Byte>, ratebits: seq<Byte>, ghost rates: seq<nat>)
      requires Usable(table)
      ensures Valid() && this.table == table && this.bytes == bytes && lp == 0 && this.history == history
      ensures Now() == State(Rows(table[..]), ctx, history, Idle)
      ensures rates != [] && Numbers(rates) && Starts(BitsOf(ratebits), NumbersBits(rates))
        ==> told && Time() == Clock(0, rates[0] + 1, rates[1..])
      ensures fresh(predictor) && fresh(predictor.taps) && fresh(reader)
    {
      this.table, this.ctx, this.history, this.bytes := table, ctx, history, bytes;
      var p := new Predictor();
      predictor := p;
      var r := new BitReader(ratebits, NumbersBits(rates));
      reader := r;
      lp, mode, left := 0, 0, 1;
      this.rates, told := rates, Numbers(rates) && Starts(BitsOf(ratebits), NumbersBits(rates));
      new;
      var first := NextRate();
      left := first + 1;
    }

    /** The next number. What no writer writes is read as 0. */
    method NextRate() returns (v: nat)
      requires Listens()
      modifies this`rates, this`told, reader
      ensures Listens() && (told ==> old(told) && v == old(First(rates)) && rates == old(Others(rates)))
      ensures old(told && rates != []) ==> told
    {
      assert Look(Log, 0);
      ghost var known := told && rates != [];
      var ok;
      ok, v := ReadNumber(reader, First(rates), NumbersBits(Others(rates)));
      if !ok { v := 0; }
      rates, told := Others(rates), known;
    }

    /** A new model run: its length, its period, and a predictor from scratch. */
    method OpenRun()
      requires Usable(table) && predictor.Shaped() && (table as object) != predictor.taps && Listens()
      modifies this`rates, this`told, this`left, this`mode, reader, predictor, predictor.taps
      ensures Usable(table) && predictor.Shaped() && Listens() && left > 0 && mode > 0
      ensures predictor.order == mode && predictor.View() == NewModel(mode)
      ensures told ==> (old(told) && left == old(First(rates)) + RUN && mode == old(First(Others(rates))) + 1
                        && rates == old(Others(Others(rates))))
      ensures old(told && |rates| >= 2) ==> told
    {
      var n := NextRate();
      left := n + RUN;
      var k := NextRate();
      mode := k + 1;
      predictor.OpenForDecoder(mode);
    }

    /** A literal by its context. */
    method TakeCoded() returns (c: Byte)
      requires Usable(table)
      modifies this`ctx, this`history, this`lp, table
      ensures Usable(table) && RowsOk(Rows(old(table[..])))
      ensures Sends(Rows(old(table[..]))[old(ctx)], At(bytes, old(lp)), c)
      ensures Rows(table[..]) == After(Rows(old(table[..])), old(ctx), c)
      ensures ctx == c && history == old(history) + [c] && lp == old(lp) + 1
    {
      c := DecodeCoded(table, ctx, At(bytes, lp));
      ctx, history, lp := c, history + [c], lp + 1;
    }

    /** A literal by the predictor. */
    method TakePredicted() returns (c: Byte)
      requires Usable(table) && predictor.Shaped() && (table as object) != predictor.taps && predictor.order > 0
      modifies this`ctx, this`history, this`lp, table, predictor`stage, predictor.taps
      ensures Usable(table) && RowsOk(Rows(old(table[..])))
      ensures At(bytes, old(lp)) == Predictable(old(predictor.View()), old(history), c)
      ensures Rows(table[..]) == After(Rows(old(table[..])), old(ctx), c)
      ensures ctx == c && history == old(history) + [c] && lp == old(lp) + 1
      ensures predictor.View() == old(predictor.View()).Next(c, Back(old(history), predictor.order))
      ensures predictor.stage <= predictor.order
    {
      c := predictor.Decode(At(bytes, lp), Back(history, predictor.order));
      DecodePredicted(table, ctx, c);
      ctx, history, lp := c, history + [c], lp + 1;
    }

    /** A run is over: the next number is the gap to the next one, which may be none. */
    method EndRun() returns (plain: bool)
      requires Usable(table) && predictor.Shaped() && (table as object) != predictor.taps && Listens() && mode > 0
      modifies this`rates, this`told, this`left, this`mode, reader, predictor, predictor.taps
      ensures Usable(table) && predictor.Shaped() && Listens() && left > 0
      ensures plain ==> mode == 0 && predictor.stage == old(predictor.stage) && predictor.order == old(predictor.order)
      ensures !plain ==> mode > 0 && predictor.order == mode && predictor.View() == NewModel(mode)
      ensures told ==> old(told) && (plain <==> First(old(rates)) > 0)
      ensures told && plain ==> left == First(old(rates)) && rates == Others(old(rates))
      ensures told && !plain ==> Time() == Clock(First(Others(Others(old(rates)))) + 1, First(Others(old(rates))) + RUN,
                                                 Others(Others(Others(old(rates)))))
      ensures old(told && |rates| >= 1 && (rates[0] > 0 || |rates| >= 3)) ==> told
    {
      ghost var known := told && |rates| >= 1 && (rates[0] > 0 || |rates| >= 3);
      var gap := NextRate();
      assert known ==> told && (gap > 0 || |rates| >= 2);
      plain := gap != 0;
      if plain {
        left, mode := gap, 0;
        return;
      }
      OpenRun();
    }

    /** Counts the literal down; a run may end here, or begin. True if it is to come by its context. */
    method CountDown() returns (plain: bool)
      requires Valid()
      modifies this`rates, this`told, this`left, this`mode, reader, predictor, predictor.taps
      ensures Usable(table) && predictor.Shaped() && left > 0 && Listens()
      ensures plain ==> mode == 0 && predictor.stage <= predictor.order
      ensures !plain ==> mode > 0 && predictor.order == mode
      ensures told ==> old(told) && Time() == old(Time()).Next() && (plain <==> old(Time()).Kind().Plain?)
      ensures told && !plain ==> predictor.View() == old(ModelFor(Now().mode, Time().Kind()))
      ensures old(told && Time().Enough()) ==> told
    {
      left := left - 1;
      if mode == 0 {
        plain := left != 0;
        if !plain {
          OpenRun();
        }
      } else if left == 0 {
        plain := EndRun();
      } else {
        plain := false;
      }
    }

    /** One literal. Its byte is what the encoder sends for `c` in this state, sent the way the countdown says. */
    method TakeLiteral() returns (c: Byte)
      requires Valid()
      modifies this`ctx, this`history, this`lp, this`rates, this`told, this`left, this`mode
      modifies reader, table, predictor, predictor.taps
      ensures Valid() && lp == old(lp) + 1 && history == old(history) + [c]
      ensures told ==> (old(told) && SentAs(old(Now()), old(Time().Kind()), c, At(bytes, old(lp)))
                        && Now() == AfterItem(old(Now()), Lit(c, old(Time().Kind()), At(bytes, old(lp))))
                        && Time() == old(Time().Next()))
      ensures old(told && Time().Enough()) ==> told
    {
      var plain := CountDown();
      if plain {
        c := TakeCoded();
      } else {
        c := TakePredicted();
      }
    }

    /** A match, whose bytes the copying has already found. */
    method TakeMatch(copied: seq<Byte>)
      requires Valid() && copied != []
      modifies this`ctx, this`history, predictor, predictor.taps
      ensures Valid() && Time() == old(Time()) && told == old(told) && history == old(history) + copied
      ensures Now() == AfterItem(old(Now()), Copy(copied))
    {
      predictor.Skip(|copied|);
      ctx, history := copied[|copied| - 1], history + copied;
    }
  }
}

/** A chunk through both sides. */
module LiteralRoundTrip {
  import opened Words
  import opened BitStream
  import opened LiteralRows
  import opened LiteralTable
  import opened LiteralContexts
  import opened LiteralStream
  import opened LiteralRates
  import opened LiteralBook
  import opened LiteralTurns
  import opened LiteralControl
  import E = LiteralEncoder
  import D = LiteralDecoder

  function BytesIn(e: Event): seq<Byte> {
    match e
    case Literal(c, _, _) => [c]
    case Match(bytes) => bytes
  }

  function TextOf(events: seq<Event>): seq<Byte> {
    if events == [] then [] else TextOf(events[..|events| - 1]) + BytesIn(events[|events| - 1])
  }

  function Shape(e: Event): Shape {
    match e
    case Literal(_, _, _) => Gap
    case Match(bytes) => Copied(bytes)
  }

  function Shapes(events: seq<Event>): (s: seq<Shape>)
    ensures |s| == |events| && forall i | 0 <= i < |s| :: s[i] == Shape(events[i])
  {
    seq(|events|, i requires 0 <= i < |events| => Shape(events[i]))
  }

  lemma OneMoreEvent(events: seq<Event>, i: nat)
    requires i < |events|
    ensures Shapes(events[..i + 1]) == Shapes(events[..i]) + [Shape(events[i])]
    ensures TextOf(events[..i + 1]) == TextOf(events[..i]) + BytesIn(events[i])
  {
    assert events[..i + 1][..i] == events[..i];
  }

  method PutEvent(e: E.LiteralEncoder, event: Event)
    requires e.Valid() && EventOk(event)
    modifies e, e.table, e.recent, e.predictor, e.predictor.taps
    ensures e.Valid() && e.book.start == old(e.book.start)
    ensures e.Counters() == if event.Literal? then old(e.Counters()).Passed(event.on, event.period) else old(e.Counters())
    ensures ShapesOf(e.book.plain) == old(ShapesOf(e.book.plain)) + [Shape(event)]
    ensures e.history == old(e.history) + BytesIn(event)
  {
    match event {
      case Literal(c, on, period) => var _ := e.PutLiteral(c, on, period);
      case Match(copied) => e.PutMatch(copied);
    }
  }

  /** The encoder over a chunk: any events, any contexts left by the chunks before. */
  method EncodeChunk(table: array<Byte>, ctx: Byte, history: seq<Byte>, events: seq<Event>)
    returns (bytes: seq<Byte>, rates: seq<nat>, next: Byte, ghost items: seq<Item>)
    requires Usable(table) && WellFormed(events)
    modifies table
    ensures Usable(table)
    ensures var st := State(Rows(old(table[..])), ctx, history, Idle);
            && IsSent(st, items, bytes, rates)
            && AfterItems(st, items).rows == Rows(table[..]) && AfterItems(st, items).ctx == next
            && AfterItems(st, items).history == history + TextOf(events)
    ensures ShapesOf(items) == Shapes(events) && rates == RatesOf(events)
  {
    var e := new E.LiteralEncoder(table, ctx, history);
    ghost var st := State(Rows(table[..]), ctx, history, Idle);
    for i := 0 to |events|
      invariant e.Valid() && e.table == table && e.book.start == st && e.Counters() == Reached(events[..i])
      invariant fresh(e) && fresh(e.recent) && fresh(e.predictor) && fresh(e.predictor.taps)
      invariant ShapesOf(e.book.plain) == Shapes(events[..i]) && e.history == history + TextOf(events[..i])
    {
      OneMoreEvent(events, i);
      AfterOne(events, i);
      PutEvent(e, events[i]);
    }
    assert events[..|events|] == events;
    e.Finish();
    bytes, rates, next, items := e.out, e.rates, e.ctx, e.book.plain;
  }

  /** The numbers of a chunk as bits; `lost` when they overrun the buffer. */
  method WriteNumbers(rates: seq<nat>) returns (ratebits: seq<Byte>, ghost lost: bool)
    requires Numbers(rates)
    ensures lost == (|NumbersBits(rates)| > 8 * ROOM) && |ratebits| <= ROOM
    ensures !lost <==> Starts(BitsOf(ratebits), NumbersBits(rates)) && |NumbersBits(rates)| <= |BitsOf(ratebits)|
  {
    var w := new RateWriter(ROOM);
    for i := 0 to |rates|
      invariant fresh(w) && w.Valid() && w.trace == NumbersBits(rates[..i])
    {
      assert rates[..i + 1] == rates[..i] + [rates[i]];
      NumbersSnoc(rates[..i], rates[i]);
      w.PutNumber(rates[i]);
    }
    assert rates[..|rates|] == rates;
    lost := |w.trace| > 8 * ROOM;
    ratebits := w.Flush();
  }

  /** The decoder on what it is told of a chunk; `items` are what was sent, if anything was. */
  method DecodeChunk(table: array<Byte>, ctx: Byte, history: seq<Byte>, shapes: seq<Shape>, bytes: seq<Byte>,
                     ratebits: seq<Byte>, ghost items: seq<Item>, ghost rates: seq<nat>)
    returns (text: seq<Byte>, next: Byte)
    requires Usable(table) && forall s | s in shapes :: s.Copied? ==> s.bytes != []
    modifies table
    ensures Usable(table) && |text| >= |history| && text[..|history|] == history
    ensures var st := State(Rows(old(table[..])), ctx, history, Idle);
            IsSent(st, items, bytes, rates) && ShapesOf(items) == shapes
            && Numbers(rates) && Starts(BitsOf(ratebits), NumbersBits(rates)) ==>
              AfterItems(st, items).rows == Rows(table[..]) && AfterItems(st, items).ctx == next
              && AfterItems(st, items).history == text
  {
    ghost var st := State(Rows(table[..]), ctx, history, Idle);
    ghost var sent := IsSent(st, items, bytes, rates) && ShapesOf(items) == shapes
      && Numbers(rates) && Starts(BitsOf(ratebits), NumbersBits(rates));
    if sent {
      SentIsInStep(st, items, bytes, rates);
    }
    var d := new D.LiteralDecoder(table, ctx, history, bytes, ratebits, rates);
    for i := 0 to |shapes|
      invariant d.Valid() && d.table == table && d.bytes == bytes
      invariant fresh(d) && fresh(d.predictor) && fresh(d.predictor.taps) && fresh(d.reader)
      invariant |d.history| >= |history| && d.history[..|history|] == history
      invariant sent ==> d.told && InStep(st, items, i, bytes, d.Now(), d.Time(), d.lp)
    {
      TakeShape(d, shapes[i], st, items, i, sent);
    }
    if sent { InStepEnd(st, items, bytes, d.Now(), d.Time(), d.lp); }
    text, next := d.history, d.ctx;
  }

  method TakeShape(d: D.LiteralDecoder, shape: Shape, ghost st: State, ghost items: seq<Item>, ghost i: nat,
                   ghost sent: bool)
    requires d.Valid() && (shape.Copied? ==> shape.bytes != [])
    requires sent ==> d.told && InStep(st, items, i, d.bytes, d.Now(), d.Time(), d.lp)
    requires sent ==> i < |items| && ShapeOf(items[i]) == shape
    modifies d, d.table, d.predictor, d.predictor.taps, d.reader
    ensures d.Valid() && |d.history| >= |old(d.history)| && d.history[..|old(d.history)|] == old(d.history)
    ensures sent ==> d.told && InStep(st, items, i + 1, d.bytes, d.Now(), d.Time(), d.lp)
  {
    ghost var now, clock, lp := d.Now(), d.Time(), d.lp;
    if sent {
      InStepItem(st, items, i, d.bytes, now, clock, lp);
    }
    match shape {
      case Gap =>
        var c := d.TakeLiteral();
        if sent {
          InStepLiteral(st, items, i, d.bytes, now, clock, lp, c);
        }
      case Copied(copied) =>
        if sent {
          InStepMatch(st, items, i, d.bytes, now, clock, lp);
        }
        d.TakeMatch(copied);
    }
  }

  /**
   The literals come back whenever the numbers of the chunk fit their buffer of 255 bytes. Both
   sides start from the same table, of whatever contents, and end with the same one; nothing is
   assumed of the choice of periods or of where the matches fall.
   */
  method RoundTrip(mine: array<Byte>, yours: array<Byte>, ctx: Byte, history: seq<Byte>, events: seq<Event>)
    returns (text: seq<Byte>, next: Byte, other: Byte)
    requires mine != yours && Usable(mine) && Usable(yours) && mine[..] == yours[..] && WellFormed(events)
    modifies mine, yours
    ensures Usable(mine) && Usable(yours)
    ensures |NumbersBits(RatesOf(events))| <= 8 * ROOM
      ==> text == history + TextOf(events) && mine[..] == yours[..] && next == other
  {
    ghost var start := State(Rows(mine[..]), ctx, history, Idle);
    var bytes, rates, after, items := EncodeChunk(mine, ctx, history, events);
    text, other := Deliver(mine, yours, ctx, history, Shapes(events), bytes, rates, start, items);
    next := after;
  }

  /** What the encoder made of a chunk, given to a decoder that stands where the encoder stood. */
  method Deliver(mine: array<Byte>, yours: array<Byte>, ctx: Byte, history: seq<Byte>, shapes: seq<Shape>, bytes: seq<Byte>,
                 rates: seq<nat>, ghost start: State, ghost items: seq<Item>)
    returns (text: seq<Byte>, next: Byte)
    requires mine != yours && Usable(mine) && Usable(yours) && start == State(Rows(yours[..]), ctx, history, Idle)
    requires IsSent(start, items, bytes, rates) && ShapesOf(items) == shapes && Numbers(rates)
    requires (forall s | s in shapes :: s.Copied? ==> s.bytes != []) && AfterItems(start, items).rows == Rows(mine[..])
    modifies yours
    ensures Usable(yours)
    ensures |NumbersBits(rates)| <= 8 * ROOM
      ==> text == AfterItems(start, items).history && next == AfterItems(start, items).ctx && mine[..] == yours[..]
  {
    var ratebits, lost := WriteNumbers(rates);
    text, next := DecodeChunk(yours, ctx, history, shapes, bytes, ratebits, items, rates);
    if !lost {
      TableIsItsRows(mine[..], yours[..]) by {
        assert Look(Spot, 0);
      }
    }
  }
}
