/**
 How the encoder of the literal stream chooses the period it predicts with: sixteen running
 costs, one a period, over the last 128 literals, compared every seven literals with the cost of
 sending codes.
 */
module LiteralPeriods {
  import opened Words
  import opened LiteralStream

  const PERIODS := 16

  // ---------------------------------------------------------------- the comparison

  /** A running cost as it is compared: rounded to 128ths. Entry 0 is the cost of codes. */
  function Score(counters: seq<nat>, i: nat): nat
    requires i < |counters|
  {
    (counters[i] + 0x40) / 0x80
  }

  /** `first` is the cheapest of the periods from `i` up, and `second` the cheapest of the others. */
  predicate Ranked(counters: seq<nat>, i: nat, first: nat, second: nat)
    requires |counters| == PERIODS + 1
  {
    && 1 <= i <= first <= PERIODS && i <= second <= PERIODS && first != second
    && Score(counters, first) <= Score(counters, second)
    && forall j {:trigger Score(counters, j)} | i <= j <= PERIODS && j != first :: Score(counters, second) <= Score(counters, j)
  }

  /** The two cheapest from `i` up; of equal ones the longer period. */
  function Scan(counters: seq<nat>, i: nat): (r: (nat, nat))
    requires |counters| == PERIODS + 1 && 1 <= i <= 15
    ensures i <= r.0 <= PERIODS && i <= r.1 <= PERIODS && r.0 != r.1
    decreases 15 - i, counters
  {
    if i == 15 then if Score(counters, 15) < Score(counters, 16) then (15, 16) else (16, 15)
    else
      var (first, second) := Scan(counters, i + 1);
      if Score(counters, i) < Score(counters, first) then (i, first)
      else if Score(counters, i) < Score(counters, second) then (first, i)
      else (first, second)
  }

  datatype Selection = Selection(on: bool, period: nat, other: nat)

  /**
   The choice: off when codes are cheap enough, otherwise the cheapest period, or the one in use
   when it comes second by no more than a third. A period that is on is never 0.
   */
  function Select(counters: seq<nat>, on: bool, period: nat): (s: Selection)
    requires |counters| == PERIODS + 1
    ensures 1 <= s.period <= PERIODS && 1 <= s.other <= PERIODS && s.period != s.other
  {
    var (first, second) := Scan(counters, 1);
    var best, codes := Score(counters, first), Score(counters, 0);
    if best * 4 < first + codes * 4 && (codes < 0x51 || best * 9 < codes * 8) then
      var before := if on then period else 0;
      if before != first && before == second && Score(counters, second) * 3 <= best * 4 then Selection(true, second, first)
      else Selection(true, first, second)
    else Selection(false, first, second)
  }

  lemma {:induction false} ScanIsRanked(counters: seq<nat>, i: nat)
    requires |counters| == PERIODS + 1 && 1 <= i <= 15
    ensures Ranked(counters, i, Scan(counters, i).0, Scan(counters, i).1)
    decreases 15 - i
  {
    if i < 15 { ScanIsRanked(counters, i + 1); }
  }

  /** No period costs less than three quarters of the chosen one; and it is on only where codes cost little, or more. */
  lemma ChosenIsCheap(counters: seq<nat>, on: bool, period: nat)
    requires |counters| == PERIODS + 1
    ensures forall j | 1 <= j <= PERIODS :: 3 * Score(counters, Select(counters, on, period).period) <= 4 * Score(counters, j)
    ensures Select(counters, on, period).on
      ==> Score(counters, 0) < 0x51 || exists j | 1 <= j <= PERIODS :: 9 * Score(counters, j) < 8 * Score(counters, 0)
  {
    ScanIsRanked(counters, 1);
  }

  method PeriodChoice(counters: seq<nat>, on: bool, period: nat) returns (s: Selection)
    requires |counters| == PERIODS + 1
    ensures s == Select(counters, on, period)
  {
    var first: nat, second: nat := 16, 15;
    var best, next := Score(counters, 16), Score(counters, 15);
    if next < best {
      first, second, best, next := 15, 16, next, best;
    }
    for i := 15 downto 1
      invariant (first, second) == Scan(counters, i) && best == Score(counters, first) && next == Score(counters, second)
    {
      var c := Score(counters, i);
      if c < best {
        first, second, best, next := i, first, c, best;
      } else if c < next {
        second, next := i, c;
      }
    }
    var codes := Score(counters, 0);
    s := Selection(false, first, second);
    if best * 4 < first + codes * 4 && (codes < 0x51 || best * 9 < codes * 8) {
      var before := if on then period else 0;
      s := Selection(true, first, second);
      if before != first && before == second && next * 3 <= best * 4 {
        s := Selection(true, second, first);
      }
    }
  }

  // ---------------------------------------------------------------- the costs

  type Row = s: seq<Byte> | |s| == 17 witness seq(17, _ => 0)

  /** The cost of a magnitude below 128. */
  function Cost(m: nat): (c: Byte)
    requires m < 0x80
    ensures m <= c
  {
    if m > 0x70 then 2 * m
    else if m < 9 then m
    else if m < 0x11 then m + m / 8
    else if m < 0x21 then m + m / 4
    else m + m / 2
  }

  /** Of a residual: below 0 by its complement. */
  function ResidualCost(u: Byte): Byte {
    Cost(if u >= 0x80 then 0xff - u else u)
  }

  /** Of a code, by half of it. */
  function RankCost(code: Byte): (c: Byte)
    ensures code >= 2 ==> c >= 1
  {
    var z := if code % 2 == 0 then code / 2 else 0xff - code / 2;
    Cost(if z >= 0x80 then 0xff - z else z)
  }

  // ---------------------------------------------------------------- the bookkeeping

  const ROWS := 0x80

  /** The sum of entry `d` over the last `k` rows; before the first they count 127 each. */
  function LastSum(rows: seq<Row>, k: nat, d: nat): nat
    requires d < 17
    decreases k
  {
    if k == 0 then 0
    else if rows == [] then 0x7f * k
    else rows[|rows| - 1][d] + LastSum(rows[..|rows| - 1], k - 1, d)
  }

  function Counters(rows: seq<Row>): (c: seq<nat>)
    ensures |c| == 17
  {
    seq(17, d requires 0 <= d < 17 => LastSum(rows, ROWS, d))
  }

  function Total(codes: seq<Byte>): nat {
    if codes == [] then 0 else Total(codes[..|codes| - 1]) + codes[|codes| - 1]
  }

  /**
   The rows of the literals so far, the row as it stands, where each byte was last, the periods
   found by bytes that recur, the two that are measured, how many literals until the next choice,
   what the last choice was, how long choosing still pays, and the last 256 codes.
   */
  datatype Choice = Choice(rows: seq<Row>, row: Row, last: seq<nat>, found: nat, before: nat, period: nat, other: nat,
                           wait: nat, on: bool, budget: nat, codes: seq<Byte>) {

    predicate Ok() {
      && |last| == 256 && found <= PERIODS && before <= PERIODS && period <= PERIODS && other <= PERIODS
      && 1 <= wait <= 17 && |codes| == 256 && (on ==> 1 <= period)
    }

    /** The row of a literal. The order of the assignments decides where they meet. */
    function RowOf(c: Byte, code: Byte, history: seq<Byte>): Row
      requires Ok()
    {
      var r1 := row[before := 0x6f];
      var r2 := r1[other := Residual(c, history, other)];
      var r3 := if found != 0 then r2[found := Residual(c, history, found)] else r2;
      var r4 := r3[period := Residual(c, history, period)];
      r4[Found(c, |history|) := 0][0 := RankCost(code)]
    }

    /** How far back the byte was last, if that is a period; 0 if not. */
    function Found(c: Byte, pos: nat): (d: nat)
      requires Ok()
      ensures d <= PERIODS
    {
      if 1 <= pos - last[c] <= PERIODS then pos - last[c] else 0
    }

    /** What choosing costs: less when the codes are small. */
    function Spent(code: Byte, predicted: bool): nat
      requires Ok()
    {
      var b := if predicted then budget + 2 else budget;
      var shift := if (Total(codes[1..] + [code]) + 0x80) / 0x100 < 0x71 then 0x10_0000 else 0x80;
      if b == 0 then 0 else b - 1 - b / shift
    }

    /** The literal's costs are noted. */
    function Noted(c: Byte, code: Byte, history: seq<Byte>, predicted: bool): (x: Choice)
      requires Ok()
      ensures x.Ok() && x.wait == wait && x.on == on && x.period == period && x.other == other
    {
      var r := RowOf(c, code, history);
      Choice(rows + [r], r, last[c := |history|], Found(c, |history|), found, period, other,
             wait, on, Spent(code, predicted), codes[1..] + [code])
    }

    /** A literal passes. The choice changes only when the wait is over, or for good when it does not pay any more. */
    function Passed(c: Byte, code: Byte, history: seq<Byte>, predicted: bool): (x: Choice)
      requires Ok()
      ensures x.Ok()
      ensures (predicted || budget > 0) && wait > 1 ==> x.on == on && x.period == period && x.other == other && x.wait == wait - 1
    {
      if !predicted && budget == 0 then this.(on := false) else Noted(c, code, history, predicted).Waited()
    }

    function Waited(): (x: Choice)
      requires Ok()
      ensures x.Ok()
    {
      if wait > 1 then this.(wait := wait - 1)
      else
        var s := Select(Counters(rows), on, period);
        this.(wait := 7, on := s.on, period := s.period, other := s.other)
    }
  }

  function Residual(c: Byte, history: seq<Byte>, d: nat): Byte {
    ResidualCost(if d == 0 then 0 else (c - Back(history, d)) % 0x100)
  }

  /** ResetSelection: at the start of every chunk nothing is chosen. */
  function Reset(pos: nat, length: nat, codes: seq<Byte>): (c: Choice)
    requires |codes| == 256
    ensures c.Ok()
  {
    Choice([], seq(17, _ => 0xff), seq(256, _ => pos), 0, 0, 0, 0, 0x11, false, length / 16 + 1, codes)
  }

  lemma {:induction false} LastSumMoves(rows: seq<Row>, row: Row, k: nat, d: nat)
    requires d < 17 && k > 0
    ensures LastSum(rows + [row], k, d) + (if |rows| >= k then rows[|rows| - k][d] else 0x7f) == LastSum(rows, k, d) + row[d]
    decreases k
  {
    var all := rows + [row];
    assert all[..|all| - 1] == rows;
    if k > 1 && rows != [] {
      var n := |rows| - 1;
      LastSumMoves(rows[..n], rows[n], k - 1, d);
      assert rows[..n] + [rows[n]] == rows;
    }
  }

  // ---------------------------------------------------------------- the same, with the rows in a ring

  /** The ring of rows holds the last 128 of them; slots not used yet hold 127s. */
  ghost predicate HoldsRows(hist: seq<Row>, rows: seq<Row>) {
    && |hist| == ROWS
    && (forall j | 0 <= j < |rows| && |rows| - ROWS <= j :: hist[(j + 1) % ROWS] == rows[j])
    && (forall j | |rows| < j <= ROWS :: hist[j % ROWS] == seq(17, _ => 0x7f))
  }

  lemma RowsTurn(hist: seq<Row>, rows: seq<Row>, row: Row, slot: nat)
    requires HoldsRows(hist, rows) && slot == (|rows| + 1) % ROWS
    ensures HoldsRows(hist[slot := row], rows + [row])
    ensures hist[slot] == if |rows| >= ROWS then rows[|rows| - ROWS] else seq(17, _ => 0x7f)
  {
    var n, after, all := |rows|, hist[slot := row], rows + [row];
    forall j | 0 <= j < n && n + 1 - ROWS <= j ensures after[(j + 1) % ROWS] == all[j] { Apart(j + 1, n + 1); }
    forall j | n + 1 < j <= ROWS ensures after[j % ROWS] == seq(17, _ => 0x7f) { Apart(n + 1, j); }
    if n >= ROWS { assert (n - ROWS + 1) % ROWS == slot; }
  }

  lemma Apart(i: nat, j: nat)
    requires i < j < i + ROWS
    ensures i % ROWS != j % ROWS
  {
  }

  /** The ring of codes holds the last 256, the oldest right behind `turn`. */
  ghost predicate HoldsCodes(ring: seq<Byte>, turn: nat, codes: seq<Byte>) {
    |ring| == |codes| == 256 && turn < 256 && forall j | 0 <= j < 256 :: ring[(turn + 1 + j) % 256] == codes[j]
  }

  lemma CodesTurn(ring: seq<Byte>, turn: nat, codes: seq<Byte>, code: Byte, next: nat)
    requires HoldsCodes(ring, turn, codes) && next == (turn + 1) % 256
    ensures HoldsCodes(ring[next := code], next, codes[1..] + [code]) && ring[next] == codes[0]
    ensures Total(codes[1..] + [code]) + codes[0] == Total(codes) + code
  {
    var now, after := ring[next := code], codes[1..] + [code];
    assert ring[(turn + 1 + 0) % 256] == codes[0];
    forall j | 0 <= j < 256 ensures now[(next + 1 + j) % 256] == after[j] {
      if j < 255 {
        assert ring[(turn + 1 + (j + 1)) % 256] == codes[j + 1];
      }
    }
    TotalFromFront(codes);
    assert after[..255] == codes[1..];
  }

  lemma {:induction false} TotalFromFront(codes: seq<Byte>)
    requires codes != []
    ensures Total(codes) == codes[0] + Total(codes[1..])
  {
    var n := |codes| - 1;
    if n > 0 {
      TotalFromFront(codes[..n]);
      assert codes[..n][1..] == codes[1..][..n - 1];
    }
  }

  lemma SlotOn(n: nat)
    ensures (n % ROWS + 1) % ROWS == (n + 1) % ROWS
  {
  }

  /** Out of sight until `Look(Spot, 0)`. */
  ghost predicate SumsOf(counters: seq<nat>, hist: seq<Row>, rows: seq<Row>) {
    forall z {:trigger Look(Spot, z)} :: Look(Spot, z) ==> counters == Counters(rows) && HoldsRows(hist, rows)
  }

  /** Out of sight until `Look(Spot, 0)`. */
  ghost predicate CodesOf(ring: seq<Byte>, turn: nat, sum: nat, codes: seq<Byte>) {
    turn < 256 && forall z {:trigger Look(Spot, z)} :: Look(Spot, z) ==> sum == Total(codes) && HoldsCodes(ring, turn, codes)
  }

  lemma CountersMove(rows: seq<Row>, row: Row, out: Row, d: nat)
    requires d < 17 && out == if |rows| >= ROWS then rows[|rows| - ROWS] else seq(17, _ => 0x7f)
    ensures Counters(rows + [row])[d] == Counters(rows)[d] - out[d] + row[d]
  {
    LastSumMoves(rows, row, ROWS, d);
  }

  lemma NothingHeld(counters: seq<nat>, hist: seq<Row>, ring: seq<Byte>, codes: seq<Byte>)
    requires |counters| == 17 && |hist| == ROWS && |ring| == |codes| == 256
    requires (forall i | 0 <= i < 17 :: counters[i] == 0x3f80) && forall i | 0 <= i < ROWS :: hist[i] == seq(17, _ => 0x7f)
    requires forall i | 0 <= i < 256 :: ring[i] == codes[i]
    ensures SumsOf(counters, hist, []) && CodesOf(ring, 255, Total(codes), codes)
  {
    assert counters == Counters([]);
  }

  method AddCodes(codes: seq<Byte>) returns (total: nat)
    ensures total == Total(codes)
  {
    total := 0;
    for i := 0 to |codes|
      invariant total == Total(codes[..i])
    {
      assert codes[..i + 1][..i] == codes[..i];
      total := total + codes[i];
    }
    assert codes[..|codes|] == codes;
  }

  lemma CodesOn(ring: seq<Byte>, turn: nat, sum: nat, codes: seq<Byte>, code: Byte, next: nat)
    requires CodesOf(ring, turn, sum, codes) && |codes| == |ring| == 256 && next == (turn + 1) % 256
    ensures sum + code >= ring[next] && CodesOf(ring[next := code], next, sum + code - ring[next], codes[1..] + [code])
  {
    assert Look(Spot, 0);
    CodesTurn(ring, turn, codes, code, next);
  }

  /** The costs as the encoder keeps them: rows and codes in rings, and running sums. */
  class Chooser {
    const hist: array<Row>
    const counters: array<nat>
    const ring: array<Byte>
    const last: array<nat>
    var row: Row
    var slot: nat
    var found: nat
    var before: nat
    var period: nat
    var other: nat
    var wait: nat
    var on: bool
    var budget: nat
    var turn: nat
    var sum: nat
    ghost var rows: seq<Row>
    ghost var codes: seq<Byte>

    ghost function View(): Choice
      reads this, last
    {
      Choice(rows, row, last[..], found, before, period, other, wait, on, budget, codes)
    }

    ghost predicate Valid()
      reads this, hist, counters, ring, last
    {
      && hist.Length == ROWS && counters.Length == 17 && ring.Length == 256 && counters != last && View().Ok()
      && slot == |rows| % ROWS && SumsOf(counters[..], hist[..], rows) && CodesOf(ring[..], turn, sum, codes)
    }

    constructor (pos: nat, length: nat, codes: seq<Byte>)
      requires |codes| == 256
      ensures Valid() && View() == Reset(pos, length, codes) && fresh(hist) && fresh(counters) && fresh(ring) && fresh(last)
    {
      var total := AddCodes(codes);
      hist := new Row[ROWS](_ => seq(17, _ => 0x7f));
      counters := new nat[17](_ => 0x3f80);
      ring := new Byte[256](i requires 0 <= i < 256 => codes[i]);
      last := new nat[256](_ => pos);
      row, slot, found, before, period, other := seq(17, _ => 0xff), 0, 0, 0, 0, 0;
      wait, on, budget, turn, sum := 0x11, false, length / 16 + 1, 255, total;
      rows, this.codes := [], codes;
      new;
      NothingHeld(counters[..], hist[..], ring[..], codes);
      assert last[..] == seq(256, _ => pos);
    }

    /** The oldest code gives way to the new one. */
    method TurnCodes(code: Byte)
      requires Valid()
      modifies this`turn, this`sum, this`codes, ring
      ensures Valid() && codes == old(codes)[1..] + [code]
    {
      ghost var was := ring[..];
      var next := (turn + 1) % 256;
      CodesOn(was, turn, sum, codes, code, next);
      turn := next;
      sum := sum + code - ring[turn];
      ring[turn] := code;
      codes := codes[1..] + [code];
      assert ring[..] == was[next := code];
    }

    /** What choosing costs. */
    method Spend(code: Byte, predicted: bool)
      requires Valid() && (predicted || budget > 0)
      modifies this`budget, this`turn, this`sum, this`codes, ring
      ensures Valid() && codes == old(codes)[1..] + [code] && budget == old(View().Spent(code, predicted))
    {
      TurnCodes(code);
      assert Look(Spot, 0);
      var b := if predicted then budget + 2 else budget;
      var shift := if (sum + 0x80) / 0x100 < 0x71 then 0x10_0000 else 0x80;
      budget := b - 1 - b / shift;
    }

    /** The row of the literal. */
    method NewRow(c: Byte, code: Byte, history: seq<Byte>) returns (r: Row, d: nat)
      requires Valid()
      ensures r == View().RowOf(c, code, history) && d == View().Found(c, |history|)
    {
      r := row[before := 0x6f];
      r := r[other := Residual(c, history, other)];
      if found != 0 { r := r[found := Residual(c, history, found)]; }
      r := r[period := Residual(c, history, period)];
      d := if 1 <= |history| - last[c] <= PERIODS then |history| - last[c] else 0;
      r := r[d := 0];
      r := r[0 := RankCost(code)];
    }

    method Mark(c: Byte, r: Row, d: nat, pos: nat)
      requires Valid() && d <= PERIODS
      modifies this`row, this`found, this`before, last
      ensures Valid() && row == r && last[..] == old(last[..])[c := pos] && found == d && before == old(found)
    {
      row := r;
      last[c] := pos;
      before, found := found, d;
    }

    /** The running sums of the last 128 rows. */
    method AddUp(out: Row)
      requires counters.Length == 17 && counters[..] == Counters(rows)
      requires out == if |rows| >= ROWS then rows[|rows| - ROWS] else seq(17, _ => 0x7f)
      modifies counters
      ensures counters[..] == Counters(rows + [row])
    {
      ghost var sums := counters[..];
      for i := 17 downto 0
        invariant forall d | 0 <= d < 17 :: counters[d] == if d < i then sums[d] else Counters(rows + [row])[d]
      {
        CountersMove(rows, row, out, i);
        assert counters[i] == sums[i];
        counters[i] := counters[i] - out[i] + row[i];
      }
    }

    /** The oldest row gives way to the new one. */
    method Count()
      requires Valid()
      modifies this`slot, this`rows, hist, counters
      ensures Valid() && rows == old(rows) + [row]
    {
      assert Look(Spot, 0);
      ghost var was := hist[..];
      var next := (slot + 1) % ROWS;
      SlotOn(|rows|);
      RowsTurn(was, rows, row, next);
      AddUp(hist[next]);
      slot := next;
      hist[slot] := row;
      rows := rows + [row];
      assert hist[..] == was[next := row];
    }

    /** A literal passes. */
    method Pass(c: Byte, code: Byte, history: seq<Byte>, predicted: bool)
      requires Valid()
      modifies this, hist, counters, ring, last
      ensures Valid() && View() == old(View()).Passed(c, code, history, predicted)
    {
      if !predicted && budget == 0 {
        on := false;
        return;
      }
      Note(c, code, history, predicted);
      Wait();
    }

    method Note(c: Byte, code: Byte, history: seq<Byte>, predicted: bool)
      requires Valid() && (predicted || budget > 0)
      modifies this, hist, counters, ring, last
      ensures Valid() && View() == old(View()).Noted(c, code, history, predicted)
    {
      var r, d := NewRow(c, code, history);
      Spend(code, predicted);
      Mark(c, r, d, |history|);
      Count();
    }

    /** The choice is made anew when the wait is over. */
    method Wait()
      requires Valid()
      modifies this`on, this`period, this`other, this`wait
      ensures Valid() && View() == old(View()).Waited()
    {
      if wait > 1 {
        wait := wait - 1;
      } else {
        assert Look(Spot, 0);
        var s := PeriodChoice(counters[..], on, period);
        on, period, other, wait := s.on, s.period, s.other, 7;
      }
    }
  }
}

/** A chunk: what the parse makes of it is given, and the choice of periods drives the runs of predicted literals. */
module LiteralDrive {
  import opened Words
  import opened LiteralStream
  import opened LiteralControl
  import opened LiteralPeriods

  /** What the parse leaves as a literal, and what it copies. */
  datatype Piece = One(c: Byte) | Copy(bytes: seq<Byte>)

  /** The choice, the runs, the bytes behind, and the events so far. */
  datatype Drive = Drive(choice: Choice, control: Control, history: seq<Byte>, events: seq<Event>) {
    predicate Ok() {
      choice.Ok() && control.Ok() && AllOk(events) && choice.period < TWO32
    }

    /** A piece passes; `code` is what a literal is sent as. */
    function Passed(p: Piece, code: Byte): (d: Drive)
      requires Ok() && (p.Copy? ==> p.bytes != [])
      ensures d.Ok()
    {
      if p.Copy? then Drive(choice, control, history + p.bytes, events + [Match(p.bytes)])
      else
        var after := control.Passed(choice.on, choice.period);
        Drive(choice.Passed(p.c, code, history, after.predrun > 0), after, history + [p.c], events + [Literal(p.c, choice.on, choice.period)])
    }
  }

  function Begun(history: seq<Byte>, length: nat, codes: seq<Byte>): (d: Drive)
    requires |codes| == 256
    ensures d.Ok()
  {
    Drive(Reset(|history|, length, codes), START, history, [])
  }

  predicate PiecesOk(pieces: seq<Piece>) {
    forall i | 0 <= i < |pieces| :: pieces[i].Copy? ==> pieces[i].bytes != []
  }

  /** Behind the first `n` pieces. */
  function Driven(start: Drive, pieces: seq<Piece>, codes: seq<Byte>, n: nat): (d: Drive)
    requires start.Ok() && PiecesOk(pieces) && |codes| == |pieces| && n <= |pieces|
    ensures d.Ok() && |d.events| == |start.events| + n
    decreases n
  {
    if n == 0 then start else Driven(start, pieces, codes, n - 1).Passed(pieces[n - 1], codes[n - 1])
  }

  /** The runs are those of the events. */
  lemma {:induction false} ControlIsReached(start: Drive, pieces: seq<Piece>, codes: seq<Byte>, n: nat)
    requires start.Ok() && PiecesOk(pieces) && |codes| == |pieces| && n <= |pieces| && start.events == [] && start.control == START
    ensures Driven(start, pieces, codes, n).control == Reached(Driven(start, pieces, codes, n).events)
    decreases n
  {
    if n > 0 {
      ControlIsReached(start, pieces, codes, n - 1);
      var e := Driven(start, pieces, codes, n).events;
      assert e[..n - 1] == Driven(start, pieces, codes, n - 1).events;
    }
  }

  /** The choice is made after the first seventeen literals, and then after every seventh: in between it stays. */
  lemma ChoiceIsPaced(d: Drive, c: Byte, code: Byte)
    requires d.Ok() && d.choice.wait > 1
    ensures var x := d.Passed(One(c), code).choice; (x.on == d.choice.on || !x.on) && x.period == d.choice.period
  {
  }
}
