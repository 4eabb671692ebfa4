/**
 When runs of predicted literals begin and end, and the numbers that tell: all of it follows from
 what the choice of periods says at each literal, whatever the literals are.
 */
module LiteralControl {
  import opened Words
  import opened IntCoding
  import opened LiteralStream
  import opened LiteralRates

  /** What the parse passes over: a literal, with what the choice of periods says at it, or a match. */
  datatype Event = Literal(c: Byte, on: bool, period: U32) | Match(bytes: seq<Byte>)

  /** A period that is on is not 0, and a match is not empty; the chunk's length fits a register. */
  ghost predicate WellFormed(events: seq<Event>) {
    |events| < 0xffff_ffff && AllOk(events)
  }

  predicate AllOk(events: seq<Event>) {
    forall i | 0 <= i < |events| :: EventOk(events[i])
  }

  predicate EventOk(e: Event) {
    if e.Literal? then e.on ==> e.period > 0 else e.bytes != []
  }

  /** Numbers that fit the registers they are kept in. */
  ghost predicate Numbers(rates: seq<nat>) {
    forall i | 0 <= i < |rates| :: rates[i] < TWO32
  }

  /** The counters: numbers so far, literals, literals up to the last run, those of the open run, its period. */
  datatype Control = Control(rates: seq<nat>, count: nat, flushed: nat, predrun: nat, distance: nat) {
    predicate Ok() {
      && flushed + predrun <= count && distance < TWO32 && (predrun > 0 ==> distance > 0)
      && forall i | 0 <= i < |rates| :: rates[i] < TWO32 || rates[i] <= count
    }

    /** The open run ends: 200 literals or more go on the record. */
    function Settled(): (c: Control)
      requires Ok() && predrun > 0
      ensures c.Ok() && c.predrun == 0
    {
      if predrun < RUN then this.(predrun := 0)
      else Control(rates + [count - predrun - flushed, predrun - RUN, distance - 1], count, count, 0, distance)
    }

    /** One literal: a run goes on while the period stays, and ends otherwise. */
    function Passed(on: bool, period: U32): (c: Control)
      requires Ok() && (on ==> period > 0)
      ensures c.Ok() && c.count == count + 1
    {
      if on && distance == period then this.(count := count + 1, predrun := predrun + 1)
      else if predrun == 0 then this.(count := count + 1, distance := period)
      else Settled().(count := count + 1, distance := period, predrun := if on then 1 else 0)
    }

    /** The end of the chunk; after a run that ends it the last gap counts one literal too many. */
    function Finished(): (r: seq<nat>)
      requires Ok()
      ensures r != [] && forall i | 0 <= i < |r| :: r[i] < TWO32 || r[i] <= count + 1
    {
      if predrun == 0 then rates + [count - flushed]
      else Settled().rates + [count + 1 - Settled().flushed]
    }
  }

  const START := Control([], 0, 0, 0, 0)

  function Reached(events: seq<Event>): (c: Control)
    requires AllOk(events)
    ensures c.Ok() && c.count <= |events|
  {
    if events == [] then START
    else
      var n := |events| - 1;
      if events[n].Literal? then Reached(events[..n]).Passed(events[n].on, events[n].period) else Reached(events[..n])
  }

  /** The numbers of a chunk. */
  ghost function RatesOf(events: seq<Event>): (rates: seq<nat>)
    requires WellFormed(events)
    ensures Numbers(rates) && rates != []
  {
    Reached(events).Finished()
  }

  lemma AfterOne(events: seq<Event>, i: nat)
    requires i < |events| && AllOk(events)
    ensures Reached(events[..i + 1]) == if events[i].Literal? then Reached(events[..i]).Passed(events[i].on, events[i].period) else Reached(events[..i])
  {
    assert events[..i + 1][..i] == events[..i];
  }

  // ---------------------------------------------------------------- few literals

  lemma {:induction false} LongWidth(v: nat)
    requires v >= 0x100
    ensures 30 * Bsr(v) <= 64 + v
    decreases v
  {
    if v < 0x200 { BsrMonotone(v, 0x1ff); assert Bsr(0x1ff) == 8; } else { LongWidth(v / 2); }
  }

  lemma ShortWidth(k: nat)
    requires k <= 7
    ensures var w := Bsr(k) + 1 + LowWidth(k) + if k == 0 then 1 else k;
      w <= 12 && (k <= 6 ==> w <= 11) && (k <= 5 ==> w <= 10) && (k <= 4 ==> w <= 9) && (k <= 3 ==> w <= 6)
  {
    assert Bsr(2) == Bsr(3) == 1 && Bsr(4) == Bsr(5) == Bsr(6) == Bsr(7) == 2;
  }

  /** What a number takes, at most. */
  lemma WidthIsBounded(v: nat)
    ensures 10 * |NumberBits(v)| <= 74 + v && (v < 16 ==> |NumberBits(v)| <= 6)
  {
    BsrIsLess(Bsr(v));
    if v >= 0x100 {
      LongWidth(v);
    } else {
      assert Bsr(0xf) == 3 && Bsr(0x1f) == 4 && Bsr(0x3f) == 5 && Bsr(0x7f) == 6 && Bsr(0xff) == 7;
      BsrMonotone(v, if v < 0x10 then 0xf else if v < 0x20 then 0x1f else if v < 0x40 then 0x3f else if v < 0x80 then 0x7f else 0xff);
      ShortWidth(Bsr(v));
    }
  }

  /** The numbers so far take few bits for the literals they are about. */
  predicate Thrifty(c: Control) {
    c.Ok() && c.distance <= 16 && 250 * |NumbersBits(c.rates)| <= 26 * c.flushed
  }

  lemma RunIsThrifty(rates: seq<nat>, gap: nat, more: nat, period: nat)
    requires period < 16
    ensures 10 * |NumbersBits(rates + [gap, more, period])| <= 10 * |NumbersBits(rates)| + 208 + gap + more
  {
    NumbersSnoc(rates, gap);
    NumbersSnoc(rates + [gap], more);
    NumbersSnoc(rates + [gap] + [more], period);
    assert rates + [gap] + [more] + [period] == rates + [gap, more, period];
    WidthIsBounded(gap);
    WidthIsBounded(more);
    WidthIsBounded(period);
  }

  lemma SettledIsThrifty(c: Control)
    requires Thrifty(c) && c.predrun > 0
    ensures Thrifty(c.Settled())
  {
    if c.predrun >= RUN { RunIsThrifty(c.rates, c.count - c.predrun - c.flushed, c.predrun - RUN, c.distance - 1); }
  }

  lemma {:induction false} ReachedIsThrifty(events: seq<Event>)
    requires AllOk(events) && SmallPeriods(events)
    ensures Thrifty(Reached(events))
    decreases |events|
  {
    if events != [] {
      var n := |events| - 1;
      ReachedIsThrifty(events[..n]);
      var c := Reached(events[..n]);
      if c.predrun > 0 { SettledIsThrifty(c); }
    }
  }

  predicate SmallPeriods(events: seq<Event>) {
    forall i | 0 <= i < |events| && events[i].Literal? :: events[i].period <= 16
  }

  function Literals(events: seq<Event>): nat {
    if events == [] then 0 else Literals(events[..|events| - 1]) + if events[|events| - 1].Literal? then 1 else 0
  }

  lemma {:induction false} CountIsLiterals(events: seq<Event>)
    requires AllOk(events)
    ensures Reached(events).count == Literals(events)
  {
    if events != [] { CountIsLiterals(events[..|events| - 1]); }
  }

  lemma LastIsThrifty(rates: seq<nat>, last: nat, all: seq<nat>)
    requires all == rates + [last]
    ensures 10 * |NumbersBits(all)| <= 10 * |NumbersBits(rates)| + 74 + last
  {
    NumbersSnoc(rates, last);
    WidthIsBounded(last);
  }

  lemma FinishedIsThrifty(c: Control)
    requires Thrifty(c)
    ensures 250 * |NumbersBits(c.Finished())| <= 26 * c.count + 1875
  {
    if c.predrun == 0 { LastIsThrifty(c.rates, c.count - c.flushed, c.Finished()); } else { SettledAtTheEnd(c); }
  }

  lemma SettledAtTheEnd(c: Control)
    requires Thrifty(c) && c.predrun > 0
    ensures 250 * |NumbersBits(c.Finished())| <= 26 * c.count + 1875
  {
    SettledIsThrifty(c);
    LastIsThrifty(c.Settled().rates, c.count + 1 - c.Settled().flushed, c.Finished());
  }

  /** With periods up to 16 the numbers of a chunk with at most 19 543 literals fit, wherever the runs fall. */
  lemma FewLiteralsFit(events: seq<Event>)
    requires WellFormed(events) && SmallPeriods(events) && Literals(events) <= 19543
    ensures |NumbersBits(RatesOf(events))| <= 8 * ROOM
  {
    ReachedIsThrifty(events);
    CountIsLiterals(events);
    FinishedIsThrifty(Reached(events));
  }
}
