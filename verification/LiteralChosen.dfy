/**
 The literal stream with the program's own choice of periods: from what the parse leaves as
 literals and what it copies to the bytes and numbers of the chunk, and back.
 */
module LiteralChosen {
  import opened Words
  import opened LiteralRows
  import opened LiteralTable
  import opened LiteralContexts
  import opened LiteralStream
  import opened LiteralRates
  import opened LiteralBook
  import opened LiteralControl
  import opened LiteralPeriods
  import opened LiteralDrive
  import opened LiteralRoundTrip
  import E = LiteralEncoder

  function TextIn(p: Piece): seq<Byte> {
    if p.One? then [p.c] else p.bytes
  }

  function PiecesText(pieces: seq<Piece>): seq<Byte> {
    if pieces == [] then [] else PiecesText(pieces[..|pieces| - 1]) + TextIn(pieces[|pieces| - 1])
  }

  /** The rows and the context behind some pieces. */
  ghost function Place(rows: seq<seq<Byte>>, ctx: Byte, pieces: seq<Piece>): (p: (seq<seq<Byte>>, Byte))
    requires RowsOk(rows) && PiecesOk(pieces)
    ensures RowsOk(p.0)
  {
    if pieces == [] then (rows, ctx)
    else
      var n := |pieces| - 1;
      var (r, c) := Place(rows, ctx, pieces[..n]);
      if pieces[n].One? then (After(r, c, pieces[n].c), pieces[n].c) else (r, pieces[n].bytes[|pieces[n].bytes| - 1])
  }

  /** The byte that a piece costs: a literal its code, whether or not it is sent as that. */
  ghost predicate IsCode(row: seq<Byte>, p: Piece, code: Byte)
    requires |row| == SLOTS
  {
    if p.One? then Sends(row, code, p.c) else code == 0
  }

  ghost predicate CodesAre(rows: seq<seq<Byte>>, ctx: Byte, pieces: seq<Piece>, codes: seq<Byte>)
    requires RowsOk(rows) && PiecesOk(pieces)
  {
    |codes| == |pieces| && forall i | 0 <= i < |pieces| ::
      var p := Place(rows, ctx, pieces[..i]); IsCode(p.0[p.1], pieces[i], codes[i])
  }

  /** The codes follow from the contexts and the pieces. */
  lemma CodesAreDetermined(rows: seq<seq<Byte>>, ctx: Byte, pieces: seq<Piece>, a: seq<Byte>, b: seq<Byte>)
    requires RowsOk(rows) && PiecesOk(pieces) && CodesAre(rows, ctx, pieces, a) && CodesAre(rows, ctx, pieces, b)
    ensures a == b
  {
    forall i | 0 <= i < |pieces| ensures a[i] == b[i] {
      var p := Place(rows, ctx, pieces[..i]);
      assert IsCode(p.0[p.1], pieces[i], a[i]) && IsCode(p.0[p.1], pieces[i], b[i]);
      if pieces[i].One? { OneCode(p.0[p.1], a[i], b[i], pieces[i].c); }
    }
  }

  lemma OneCode(row: seq<Byte>, a: Byte, b: Byte, c: Byte)
    requires IsRow(row) && Sends(row, a, c) && Sends(row, b, c)
    ensures a == b
  {
    CodeIsOneToOne(row, a, c, b, c);
  }

  lemma CodesOn(rows: seq<seq<Byte>>, ctx: Byte, pieces: seq<Piece>, codes: seq<Byte>, i: nat, code: Byte)
    requires RowsOk(rows) && PiecesOk(pieces) && i < |pieces| && CodesAre(rows, ctx, pieces[..i], codes)
    requires var p := Place(rows, ctx, pieces[..i]); IsCode(p.0[p.1], pieces[i], code)
    ensures CodesAre(rows, ctx, pieces[..i + 1], codes + [code])
  {
    var more := pieces[..i + 1];
    forall j | 0 <= j < |more| ensures var p := Place(rows, ctx, more[..j]); IsCode(p.0[p.1], more[j], (codes + [code])[j]) {
      assert more[..j] == pieces[..i][..j] || j == i;
      assert j == i ==> more[..j] == pieces[..i];
    }
  }

  lemma {:induction false} DrivenOnPrefix(start: Drive, pieces: seq<Piece>, codes: seq<Byte>, more: seq<Piece>, others: seq<Byte>, n: nat)
    requires start.Ok() && PiecesOk(more) && |codes| == |pieces| && |others| == |more| && n <= |pieces| <= |more|
    requires pieces == more[..|pieces|] && codes == others[..|pieces|]
    ensures PiecesOk(pieces) && Driven(start, pieces, codes, n) == Driven(start, more, others, n)
    decreases n
  {
    assert forall i | 0 <= i < |pieces| :: pieces[i] == more[i];
    if n > 0 { DrivenOnPrefix(start, pieces, codes, more, others, n - 1); }
  }

  /** The encoder and the choice stand where the drive does. */
  ghost predicate Drives(e: E.LiteralEncoder, choice: Chooser, d: Drive)
    reads e, e.table, e.recent, e.predictor, e.predictor.taps
    reads choice, choice.hist, choice.counters, choice.ring, choice.last
  {
    && e.Valid() && choice.Valid() && d.Ok() && d.choice == choice.View() && d.control == e.Counters() && d.history == e.history
    && ShapesOf(e.book.plain) == Shapes(d.events)
  }

  lemma ShapesOn(events: seq<Event>, e: Event)
    ensures Shapes(events + [e]) == Shapes(events) + [LiteralRoundTrip.Shape(e)]
  {
  }

  method PutPiece(e: E.LiteralEncoder, choice: Chooser, p: Piece, ghost d: Drive) returns (code: Byte)
    requires Drives(e, choice, d) && (p.Copy? ==> p.bytes != [])
    requires Apart(e, choice)
    modifies e, e.table, e.recent, e.predictor, e.predictor.taps
    modifies choice, choice.hist, choice.counters, choice.ring, choice.last
    ensures Drives(e, choice, d.Passed(p, code)) && e.book.start == old(e.book.start)
    ensures IsCode(old(e.book.now.rows[e.book.now.ctx]), p, code)
    ensures e.book.now.rows == (if p.One? then old(After(e.book.now.rows, e.book.now.ctx, p.c)) else old(e.book.now.rows))
    ensures e.book.now.ctx == if p.One? then p.c else p.bytes[|p.bytes| - 1]
  {
    match p {
      case One(c) =>
        var history, on, period := e.history, choice.on, choice.period;
        code := e.PutLiteral(c, on, period);
        choice.Pass(c, code, history, e.predrun > 0);
        ShapesOn(d.events, Literal(c, on, period));
      case Copy(bytes) =>
        code := 0;
        e.PutMatch(bytes);
        ShapesOn(d.events, Match(bytes));
    }
  }

  /** One piece more; the drive is the one over the pieces so far. */
  lemma PieceOn(start: Drive, rows: seq<seq<Byte>>, ctx: Byte, pieces: seq<Piece>, codes: seq<Byte>, i: nat, code: Byte)
    requires start.Ok() && RowsOk(rows) && PiecesOk(pieces) && i < |pieces| && |codes| == i
    ensures PiecesOk(pieces[..i]) && PiecesOk(pieces[..i + 1])
    ensures Driven(start, pieces[..i + 1], codes + [code], i + 1) == Driven(start, pieces[..i], codes, i).Passed(pieces[i], code)
    ensures PiecesText(pieces[..i + 1]) == PiecesText(pieces[..i]) + TextIn(pieces[i])
    ensures var (r, c) := Place(rows, ctx, pieces[..i]);
      Place(rows, ctx, pieces[..i + 1]) == if pieces[i].One? then (After(r, c, pieces[i].c), pieces[i].c) else (r, pieces[i].bytes[|pieces[i].bytes| - 1])
  {
    assert pieces[..i + 1][..i] == pieces[..i];
    DrivenOnPrefix(start, pieces[..i], codes, pieces[..i + 1], codes + [code], i);
  }

  predicate Apart(e: E.LiteralEncoder, choice: Chooser) {
    {e, e.table, e.recent, e.predictor, e.predictor.taps} !! {choice, choice.hist, choice.counters, choice.ring, choice.last}
  }

  /** The encoder and the choice behind the first `i` pieces; out of sight until `Look(Steps, 0)`. */
  ghost predicate Goes(e: E.LiteralEncoder, choice: Chooser, start: Drive, rows: seq<seq<Byte>>, ctx: Byte, pieces: seq<Piece>, codes: seq<Byte>, i: nat)
    reads e, e.table, e.recent, e.predictor, e.predictor.taps
    reads choice, choice.hist, choice.counters, choice.ring, choice.last
  {
    && i <= |pieces| && |codes| == i && PiecesOk(pieces[..i]) && start.Ok() && RowsOk(rows)
    && forall z {:trigger Look(Steps, z)} :: Look(Steps, z) ==>
      && Drives(e, choice, Driven(start, pieces[..i], codes, i)) && CodesAre(rows, ctx, pieces[..i], codes)
      && (e.book.now.rows, e.book.now.ctx) == Place(rows, ctx, pieces[..i])
  }

  method NextPiece(e: E.LiteralEncoder, choice: Chooser, ghost start: Drive, ghost rows: seq<seq<Byte>>, ghost ctx: Byte,
                   pieces: seq<Piece>, ghost codes: seq<Byte>, i: nat)
    returns (ghost more: seq<Byte>)
    requires PiecesOk(pieces) && i < |pieces| && Goes(e, choice, start, rows, ctx, pieces, codes, i) && Apart(e, choice)
    modifies e, e.table, e.recent, e.predictor, e.predictor.taps
    modifies choice, choice.hist, choice.counters, choice.ring, choice.last
    ensures Goes(e, choice, start, rows, ctx, pieces, more, i + 1) && e.book.start == old(e.book.start)
    ensures e.history == old(e.history) + TextIn(pieces[i]) && PiecesText(pieces[..i + 1]) == PiecesText(pieces[..i]) + TextIn(pieces[i])
  {
    assert Look(Steps, 0);
    var code := PutPiece(e, choice, pieces[i], Driven(start, pieces[..i], codes, i));
    PieceOn(start, rows, ctx, pieces, codes, i, code);
    CodesOn(rows, ctx, pieces, codes, i, code);
    more := codes + [code];
  }

  method PutPieces(e: E.LiteralEncoder, choice: Chooser, ghost start: Drive, ghost rows: seq<seq<Byte>>, ghost ctx: Byte, pieces: seq<Piece>)
    returns (ghost codes: seq<Byte>)
    requires PiecesOk(pieces) && Goes(e, choice, start, rows, ctx, pieces, [], 0) && Apart(e, choice)
    modifies e, e.table, e.recent, e.predictor, e.predictor.taps
    modifies choice, choice.hist, choice.counters, choice.ring, choice.last
    ensures Goes(e, choice, start, rows, ctx, pieces, codes, |pieces|)
    ensures e.book.start == old(e.book.start) && e.history == old(e.history) + PiecesText(pieces)
  {
    codes := [];
    for i := 0 to |pieces|
      invariant Goes(e, choice, start, rows, ctx, pieces, codes, i)
      invariant e.book.start == old(e.book.start) && e.history == old(e.history) + PiecesText(pieces[..i])
    {
      codes := NextPiece(e, choice, start, rows, ctx, pieces, codes, i);
    }
    assert pieces[..|pieces|] == pieces;
  }

  /**
   The encoder over a chunk of `length` bytes with its own choice of periods; `ring` are the last 256
   codes of the chunks before.
   */
  method EncodePieces(table: array<Byte>, ctx: Byte, history: seq<Byte>, length: nat, ring: seq<Byte>, pieces: seq<Piece>)
    returns (bytes: seq<Byte>, rates: seq<nat>, next: Byte, ghost items: seq<Item>, ghost codes: seq<Byte>)
    requires Usable(table) && |ring| == 256 && PiecesOk(pieces) && |pieces| < 0xffff_ffff
    modifies table
    ensures Usable(table) && RowsOk(Rows(old(table[..]))) && CodesAre(Rows(old(table[..])), ctx, pieces, codes)
    ensures var st := State(Rows(old(table[..])), ctx, history, Idle);
            && IsSent(st, items, bytes, rates)
            && AfterItems(st, items).rows == Rows(table[..]) && AfterItems(st, items).ctx == next
            && AfterItems(st, items).history == history + PiecesText(pieces)
    ensures var events := Driven(Begun(history, length, ring), pieces, codes, |pieces|).events;
            WellFormed(events) && ShapesOf(items) == Shapes(events) && rates == RatesOf(events)
  {
    TableHasRows(table);
    var e := new E.LiteralEncoder(table, ctx, history);
    var choice := new Chooser(|history|, length, ring);
    ghost var rows, start := Rows(table[..]), Begun(history, length, ring);
    codes := PutPieces(e, choice, start, rows, ctx, pieces);
    assert Look(Steps, 0) && pieces[..|pieces|] == pieces;
    ControlIsReached(start, pieces, codes, |pieces|);
    e.Finish();
    bytes, rates, next, items := e.out, e.rates, e.ctx, e.book.plain;
  }

  function PieceShapes(pieces: seq<Piece>): seq<Shape> {
    seq(|pieces|, i requires 0 <= i < |pieces| => if pieces[i].One? then Gap else Copied(pieces[i].bytes))
  }

  /** How many pieces are literals. */
  function Singles(pieces: seq<Piece>): nat {
    if pieces == [] then 0 else Singles(pieces[..|pieces| - 1]) + if pieces[|pieces| - 1].One? then 1 else 0
  }

  /** What the events keep of the pieces, and that periods are small. */
  lemma {:induction false} EventsArePieces(start: Drive, pieces: seq<Piece>, codes: seq<Byte>, n: nat)
    requires start.Ok() && PiecesOk(pieces) && |codes| == |pieces| && n <= |pieces| && start.events == []
    ensures var events := Driven(start, pieces, codes, n).events;
      SmallPeriods(events) && Literals(events) == Singles(pieces[..n]) && Shapes(events) == PieceShapes(pieces[..n])
    decreases n
  {
    if n > 0 {
      EventsArePieces(start, pieces, codes, n - 1);
      assert pieces[..n][..n - 1] == pieces[..n - 1];
      EventOn(Driven(start, pieces, codes, n - 1), pieces[n - 1], codes[n - 1], pieces[..n]);
    }
  }

  lemma {:induction false} EventOn(d: Drive, p: Piece, code: Byte, pieces: seq<Piece>)
    requires d.Ok() && (p.Copy? ==> p.bytes != []) && pieces != [] && pieces[|pieces| - 1] == p && SmallPeriods(d.events)
    requires Literals(d.events) == Singles(pieces[..|pieces| - 1]) && Shapes(d.events) == PieceShapes(pieces[..|pieces| - 1])
    ensures var events := d.Passed(p, code).events;
      SmallPeriods(events) && Literals(events) == Singles(pieces) && Shapes(events) == PieceShapes(pieces)
  {
    OneMore(d.events, EventOf(d, p), p, pieces);
  }

  function EventOf(d: Drive, p: Piece): (e: Event)
    requires d.Ok()
    ensures e.Literal? == p.One? && (p.One? ==> e.period <= 16) && (p.Copy? ==> e.bytes == p.bytes)
    ensures forall code: Byte {:trigger d.Passed(p, code)} :: (p.Copy? ==> p.bytes != []) ==> d.Passed(p, code).events == d.events + [e]
  {
    if p.One? then Literal(p.c, d.choice.on, d.choice.period) else Match(p.bytes)
  }

  lemma {:induction false} OneMore(events: seq<Event>, e: Event, p: Piece, pieces: seq<Piece>)
    requires pieces != [] && pieces[|pieces| - 1] == p && SmallPeriods(events)
    requires e.Literal? == p.One? && (p.One? ==> e.period <= 16) && (p.Copy? ==> e.bytes == p.bytes)
    requires Literals(events) == Singles(pieces[..|pieces| - 1]) && Shapes(events) == PieceShapes(pieces[..|pieces| - 1])
    ensures SmallPeriods(events + [e]) && Literals(events + [e]) == Singles(pieces) && Shapes(events + [e]) == PieceShapes(pieces)
  {
    assert (events + [e])[..|events|] == events;
    ShapesOn(events, e);
  }

  /**
   The program's own choice, with whatever codes the chunks before left behind: the text comes back
   whenever the numbers fit their buffer, and so at least when no more than 19 543 pieces are literals.
   */
  method ChosenRoundTrip(mine: array<Byte>, yours: array<Byte>, ctx: Byte, history: seq<Byte>, length: nat, ring: seq<Byte>,
                         pieces: seq<Piece>)
    returns (text: seq<Byte>, next: Byte, other: Byte, ghost codes: seq<Byte>)
    requires mine != yours && Usable(mine) && Usable(yours) && mine[..] == yours[..]
    requires |ring| == 256 && PiecesOk(pieces) && |pieces| < 0xffff_ffff
    modifies mine, yours
    ensures Usable(mine) && Usable(yours)
    ensures RowsOk(Rows(old(mine[..]))) && CodesAre(Rows(old(mine[..])), ctx, pieces, codes)
    ensures var events := Driven(Begun(history, length, ring), pieces, codes, |pieces|).events;
      WellFormed(events) && (|NumbersBits(RatesOf(events))| <= 8 * ROOM
        ==> text == history + PiecesText(pieces) && mine[..] == yours[..] && next == other)
    ensures Singles(pieces) <= 19543 ==> text == history + PiecesText(pieces) && mine[..] == yours[..] && next == other
  {
    ghost var st := State(Rows(mine[..]), ctx, history, Idle);
    var bytes, rates, after, items, sent := EncodePieces(mine, ctx, history, length, ring, pieces);
    codes := sent;
    ghost var events := Driven(Begun(history, length, ring), pieces, codes, |pieces|).events;
    EventsArePieces(Begun(history, length, ring), pieces, codes, |pieces|);
    assert pieces[..|pieces|] == pieces;
    if Singles(pieces) <= 19543 { FewLiteralsFit(events); }
    text, other := Deliver(mine, yours, ctx, history, PieceShapes(pieces), bytes, rates, st, items);
    next := after;
  }
}
