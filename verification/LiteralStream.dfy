/**
 The literal stream of the `-cD` codec: one byte per literal, sent either by its context or as
 the residual of a predictor, and a list of numbers that tells the decoder which is which.
 A run of predicted literals is only known to be long enough when it ends; a shorter one is
 written over with the bytes its literals have in their contexts.
 */
module LiteralStream {
  import opened Words
  import opened LiteralRows
  import opened LiteralTable
  import opened LiteralContexts
  import opened LiteralPredictor

  const RUN := 200

  /** How a literal is sent: by its context, as the first of a run, or as a further one. */
  datatype Kind = Plain | Opened(order: nat) | Predicted

  /** What both sides go through: a literal and the byte sent for it, or a match. */
  datatype Item = Lit(c: Byte, kind: Kind, b: Byte) | Copy(bytes: seq<Byte>)

  datatype Mode = Idle | Running(model: Model)

  datatype State = State(rows: seq<seq<Byte>>, ctx: Byte, history: seq<Byte>, mode: Mode)

  ghost predicate StateOk(st: State) {
    RowsOk(st.rows) && (st.mode.Running? ==> st.mode.model.Valid())
  }

  /** The byte `k` back; before the first there are zeros. */
  function Back(h: seq<Byte>, k: nat): Byte {
    if 0 < k <= |h| then h[|h| - k] else 0
  }

  predicate Fits(mode: Mode, kind: Kind) {
    match kind
    case Plain => true
    case Opened(k) => k > 0
    case Predicted => mode.Running?
  }

  function ModelFor(mode: Mode, kind: Kind): (m: Model)
    requires Fits(mode, kind) && !kind.Plain?
    requires mode.Running? ==> mode.model.Valid()
    ensures m.Valid()
  {
    if kind.Opened? then NewModel(kind.order) else mode.model
  }

  /** In state `st`, literal `c` with this kind is sent as `b`. */
  ghost predicate SentAs(st: State, kind: Kind, c: Byte, b: Byte)
    requires StateOk(st)
  {
    && Fits(st.mode, kind)
    && if kind.Plain? then Sends(st.rows[st.ctx], b, c)
       else b == Predictable(ModelFor(st.mode, kind), st.history, c)
  }

  function Predictable(m: Model, h: seq<Byte>, c: Byte): Byte
    requires m.Valid()
  {
    m.Residual(c, Back(h, m.order))
  }

  function ModeAfter(mode: Mode, h: seq<Byte>, kind: Kind, c: Byte): (r: Mode)
    requires Fits(mode, kind)
    requires mode.Running? ==> mode.model.Valid()
    ensures r.Running? ==> r.model.Valid()
  {
    if kind.Plain? then Idle
    else var m := ModelFor(mode, kind); Running(m.Next(c, Back(h, m.order)))
  }

  ghost predicate GoodItem(st: State, item: Item)
    requires StateOk(st)
  {
    match item
    case Lit(c, kind, b) => SentAs(st, kind, c, b)
    case Copy(bytes) => bytes != []
  }

  ghost function AfterItem(st: State, item: Item): (q: State)
    requires StateOk(st) && GoodItem(st, item)
    ensures StateOk(q)
  {
    match item
    case Lit(c, kind, b) =>
      State(After(st.rows, st.ctx, c), c, st.history + [c], ModeAfter(st.mode, st.history, kind, c))
    case Copy(bytes) =>
      State(st.rows, bytes[|bytes| - 1], st.history + bytes,
            if st.mode.Running? then Running(st.mode.model.Skipped(|bytes|)) else Idle)
  }

  /** The byte of a literal tells it, once the state and the kind are known. */
  lemma ByteTellsSymbol(st: State, kind: Kind, c: Byte, d: Byte, b: Byte)
    requires StateOk(st) && SentAs(st, kind, c, b) && SentAs(st, kind, d, b)
    ensures c == d
  {
    if kind.Plain? {
      CodeIsOneToOne(st.rows[st.ctx], b, c, b, d);
    } else {
      var m := ModelFor(st.mode, kind);
      ResidualIsOneToOne(m, c, d, Back(st.history, m.order));
    }
  }

  // ---- whole streams

  ghost predicate Good(st: State, items: seq<Item>)
    decreases |items|, 0
  {
    if items == [] then StateOk(st)
    else var n := |items| - 1; Good(st, items[..n]) && GoodItem(AfterItems(st, items[..n]), items[n])
  }

  ghost function AfterItems(st: State, items: seq<Item>): (q: State)
    requires Good(st, items)
    ensures StateOk(q)
    decreases |items|, 1
  {
    if items == [] then st
    else var n := |items| - 1; AfterItem(AfterItems(st, items[..n]), items[n])
  }

  /** The bytes of the literal stream. */
  function BytesOf(items: seq<Item>): (s: seq<Byte>)
    ensures |s| <= |items|
  {
    if items == [] then []
    else
      var n := |items| - 1;
      if items[n].Lit? then BytesOf(items[..n]) + [items[n].b] else BytesOf(items[..n])
  }

  /** What the tokens of the parse already say: where a literal stands, and what is copied. */
  datatype Shape = Gap | Copied(bytes: seq<Byte>)

  function ShapeOf(item: Item): Shape {
    match item
    case Lit(_, _, _) => Gap
    case Copy(bytes) => Copied(bytes)
  }

  function ShapesOf(items: seq<Item>): (s: seq<Shape>)
    ensures |s| == |items| && forall i | 0 <= i < |s| :: s[i] == ShapeOf(items[i])
  {
    seq(|items|, i requires 0 <= i < |items| => ShapeOf(items[i]))
  }

  /** The numbers written so far, the plain literals since, and the run that is still open. */
  datatype Tally = Tally(rates: seq<int>, gap: int, run: nat, order: nat) {
    function Closed(): seq<int> {
      rates + [gap, run - RUN, order - 1]
    }

    function Add(item: Item): Tally {
      if item.Copy? then this
      else match item.kind
      case Plain => if run > 0 then Tally(Closed(), 1, 0, 0) else Tally(rates, gap + 1, 0, 0)
      case Opened(k) => if run > 0 then Tally(Closed(), 0, 1, k) else Tally(rates, gap, 1, k)
      case Predicted => Tally(rates, gap, run + 1, order)
    }
  }

  function TallyOf(items: seq<Item>): Tally {
    if items == [] then Tally([], 0, 0, 0)
    else var n := |items| - 1; TallyOf(items[..n]).Add(items[n])
  }

  lemma More(st: State, items: seq<Item>, item: Item)
    requires Good(st, items) && GoodItem(AfterItems(st, items), item)
    ensures Good(st, items + [item])
    ensures AfterItems(st, items + [item]) == AfterItem(AfterItems(st, items), item)
  {
    var longer := items + [item];
    assert longer[..|items|] == items && longer[|items|] == item;
  }

  lemma MoreCounts(items: seq<Item>, item: Item)
    ensures BytesOf(items + [item]) == BytesOf(items) + if item.Lit? then [item.b] else []
    ensures TallyOf(items + [item]) == TallyOf(items).Add(item)
    ensures ShapesOf(items + [item]) == ShapesOf(items) + [ShapeOf(item)]
  {
    var longer := items + [item];
    assert longer[..|items|] == items && longer[|items|] == item;
  }

  /** However the literals of a stream were sent, the weights of the open run are small. */
  lemma {:induction false} WeightsAreSmall(st: State, items: seq<Item>)
    requires Good(st, items) && st.mode.Idle?
    ensures var q := AfterItems(st, items); q.mode.Running? ==> IsSmall(q.mode.model, |BytesOf(items)|)
    decreases |items|
  {
    if items != [] {
      var n := |items| - 1;
      var q, was := AfterItems(st, items[..n]), |BytesOf(items[..n])|;
      WeightsAreSmall(st, items[..n]);
      match items[n] {
        case Lit(c, kind, b) =>
          if !kind.Plain? {
            var m := ModelFor(q.mode, kind);
            NextIsSmall(m, c, Back(q.history, m.order), was);
          }
        case Copy(bytes) =>
          if q.mode.Running? { SkippedIsSmall(q.mode.model, |bytes|, was); }
      }
    }
  }

  /** In a chunk of up to 0x8000 bytes no tap leaves the 32-bit registers, at whichever literal. */
  lemma TapsFit(st: State, items: seq<Item>, item: Item)
    requires Good(st, items) && GoodItem(AfterItems(st, items), item) && st.mode.Idle? && |BytesOf(items + [item])| <= 0x8000
    ensures item.Lit? && !item.kind.Plain?
      ==> forall p | p in ModelFor(AfterItems(st, items).mode, item.kind).phases :: TapIs32(p)
  {
    MoreCounts(items, item);
    WeightsAreSmall(st, items);
    if item.Lit? && !item.kind.Plain? {
      var m := ModelFor(AfterItems(st, items).mode, item.kind);
      forall p | p in m.phases ensures TapIs32(p) { TapFits(p, |BytesOf(items)|); }
    }
  }

  lemma {:induction false} GoodPrefix(st: State, items: seq<Item>, i: nat)
    requires Good(st, items) && i <= |items|
    ensures Good(st, items[..i])
    decreases |items|
  {
    if i < |items| {
      var n := |items| - 1;
      GoodPrefix(st, items[..n], i);
      assert items[..n][..i] == items[..i];
    } else {
      assert items[..i] == items;
    }
  }

  // ---- the numbers, as the decoder will read them

  /** `g` more plain literals are promised, then a run that `rates` describes. */
  predicate PlainAhead(items: seq<Item>, g: int, rates: seq<int>)
    decreases |items|, 0
  {
    if items == [] then true
    else match items[0]
    case Copy(_) => PlainAhead(items[1..], g, rates)
    case Lit(_, kind, _) =>
      match kind
      case Plain => g > 0 && PlainAhead(items[1..], g - 1, rates)
      case Opened(k) =>
        g == 0 && |rates| >= 2 && rates[0] >= 0 && k == rates[1] + 1 && RunAhead(items[1..], rates[0] + RUN - 1, rates[2..])
      case Predicted => false
  }

  /** `g` more predicted literals are promised, then the next gap. */
  predicate RunAhead(items: seq<Item>, g: int, rates: seq<int>)
    decreases |items|, 1
  {
    if items == [] then true
    else match items[0]
    case Copy(_) => RunAhead(items[1..], g, rates)
    case Lit(_, kind, _) =>
      match kind
      case Predicted => g > 0 && RunAhead(items[1..], g - 1, rates)
      case Plain => g == 0 && |rates| >= 1 && rates[0] > 0 && PlainAhead(items[1..], rates[0] - 1, rates[1..])
      case Opened(k) => g == 0 && |rates| >= 1 && rates[0] == 0 && PlainAhead(items, 0, rates[1..])
  }

  /** Having written what `t` says, and with `items` to come, `final` is a list of numbers that
      the decoder reads rightly from here on. */
  predicate Pending(t: Tally, items: seq<Item>, final: seq<int>) {
    var n := |t.rates|;
    if t.run == 0 then
      && n < |final| && t.rates == final[..n]
      && final[n] >= t.gap
      && PlainAhead(items, final[n] - t.gap, final[n + 1..])
    else
      && n + 3 <= |final| && t.rates == final[..n]
      && final[n] == t.gap && final[n + 1] + RUN >= t.run && final[n + 2] + 1 == t.order
      && RunAhead(items, final[n + 1] + RUN - t.run, final[n + 3..])
  }

  lemma PendingPlain(t: Tally, item: Item, rest: seq<Item>, final: seq<int>)
    requires item.Lit? && item.kind.Plain?
    requires forall i | 0 <= i < |final| :: final[i] >= 0
    requires Pending(t.Add(item), rest, final)
    ensures Pending(t, [item] + rest, final)
  {
    var n := |t.rates|;
    assert ([item] + rest)[1..] == rest;
    if t.run > 0 {
      assert t.rates == final[..n + 3][..n] == final[..n];
      assert final[n] == final[..n + 3][n] && final[n + 1] == final[..n + 3][n + 1] && final[n + 2] == final[..n + 3][n + 2];
      assert final[n + 3..][1..] == final[n + 4..];
    }
  }

  lemma PendingOpened(t: Tally, item: Item, rest: seq<Item>, final: seq<int>)
    requires item.Lit? && item.kind.Opened?
    requires forall i | 0 <= i < |final| :: final[i] >= 0
    requires Pending(t.Add(item), rest, final)
    ensures Pending(t, [item] + rest, final)
  {
    var n := |t.rates|;
    var all := [item] + rest;
    assert all[1..] == rest;
    if t.run > 0 {
      assert t.rates == final[..n + 3][..n] == final[..n];
      assert final[n] == final[..n + 3][n] && final[n + 1] == final[..n + 3][n + 1] && final[n + 2] == final[..n + 3][n + 2];
      var more := final[n + 3..];
      assert more[1..][2..] == final[n + 6..];
      assert more[0] == 0 && more[1..][0] == final[n + 4] && more[1..][1] == final[n + 5];
      assert PlainAhead(all, 0, more[1..]);
    } else {
      assert final[n + 1..][2..] == final[n + 3..];
      assert PlainAhead(all, final[n] - t.gap, final[n + 1..]);
    }
  }

  lemma PendingStep(t: Tally, item: Item, rest: seq<Item>, final: seq<int>)
    requires item.Lit? && item.kind.Predicted? ==> t.run > 0
    requires forall i | 0 <= i < |final| :: final[i] >= 0
    requires Pending(t.Add(item), rest, final)
    ensures Pending(t, [item] + rest, final)
  {
    assert ([item] + rest)[1..] == rest;
    if item.Lit? {
      if item.kind.Plain? {
        PendingPlain(t, item, rest, final);
      } else if item.kind.Opened? {
        PendingOpened(t, item, rest, final);
      }
    }
  }

  /** A further predicted literal is only ever sent inside a run. */
  lemma {:induction false} RunningIsOpen(st: State, items: seq<Item>)
    requires Good(st, items) && st.mode.Idle?
    ensures AfterItems(st, items).mode.Running? <==> TallyOf(items).run > 0
  {
    if items != [] {
      RunningIsOpen(st, items[..|items| - 1]);
    }
  }

  /** The tally of a stream, completed by its last gap, is what the decoder counts along. */
  lemma {:induction false} TallyIsAhead(st: State, items: seq<Item>, final: seq<int>, i: nat)
    requires Good(st, items) && st.mode.Idle? && i <= |items|
    requires forall i | 0 <= i < |final| :: final[i] >= 0
    requires Pending(TallyOf(items), [], final)
    ensures Pending(TallyOf(items[..i]), items[i..], final)
    decreases |items| - i
  {
    if i == |items| {
      assert items[..i] == items && items[i..] == [];
    } else {
      TallyIsAhead(st, items, final, i + 1);
      assert items[..i + 1][..i] == items[..i] && items[i..] == [items[i]] + items[i + 1..];
      GoodPrefix(st, items, i + 1);
      GoodPrefix(st, items, i);
      RunningIsOpen(st, items[..i]);
      PendingStep(TallyOf(items[..i]), items[i], items[i + 1..], final);
    }
  }
}
