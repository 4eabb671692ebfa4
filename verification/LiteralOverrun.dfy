/** The bytes, what they cost at each distance, and what the choice makes of them. */
module LiteralTurning {
  import opened Words
  import opened LiteralStream
  import opened LiteralPeriods

  // ---------------------------------------------------------------- the bytes

  const FIRST := 479
  const CYCLE := 434
  const STEPS := 105

  /**
   Downwards by one, until FIRST; then again and again 105 steps up by 16 and down by 17 in turn, and 329
   down by one.
   */
  function Level(n: nat): int {
    if n < FIRST then 0 - n else LevelAt((n - FIRST) / CYCLE, (n - FIRST) % CYCLE)
  }

  function LevelAt(k: nat, u: nat): int {
    -478 - 365 * k + if u < STEPS then (if u % 2 == 0 then 16 - u / 2 else 0 - (u + 1) / 2) else 68 - u
  }

  function Octet(n: nat): Byte {
    Level(n) % 0x100
  }

  lemma Where(n: nat, k: nat, u: nat)
    requires n == FIRST + CYCLE * k + u && u < CYCLE
    ensures (n - FIRST) / CYCLE == k && (n - FIRST) % CYCLE == u && Level(n) == LevelAt(k, u)
  {
  }

  /** From a byte to the next. */
  function Move(n: nat): int {
    if n < FIRST || (n - FIRST) % CYCLE >= STEPS then -1 else if (n - FIRST) % CYCLE % 2 == 0 then 16 else -17
  }

  lemma LevelMoves(n: nat)
    requires n >= 1
    ensures Level(n) == Level(n - 1) + Move(n)
  {
    if n >= FIRST {
      var k, u := (n - FIRST) / CYCLE, (n - FIRST) % CYCLE;
      Where(n, k, u);
      if u > 0 { Where(n - 1, k, u - 1); } else if k > 0 { Where(n - 1, k - 1, CYCLE - 1); }
    }
  }

  lemma OctetsDiffer(n: nat, m: nat, d: int)
    requires Level(n) - Level(m) == d
    ensures (Octet(n) - Octet(m)) % 0x100 == d % 0x100
  {
    var a, b := Level(n), Level(m);
    assert a == a / 0x100 * 0x100 + a % 0x100 && b == b / 0x100 * 0x100 + b % 0x100;
  }

  /** No byte comes again within sixteen. */
  lemma NoneAgain(n: nat, j: nat)
    requires 1 <= j <= 16 && j <= n
    ensures Octet(n) != Octet(n - j)
  {
    LevelsApart(n, j);
    Incongruent(Level(n), Level(n - j));
  }

  lemma Incongruent(a: int, b: int)
    requires a != b && -0x100 < a - b < 0x100
    ensures a % 0x100 != b % 0x100
  {
  }

  lemma LevelsApart(n: nat, j: nat)
    requires 1 <= j <= 16 && j <= n
    ensures Level(n) != Level(n - j) && -0x100 < Level(n) - Level(n - j) < 0x100
  {
    if n >= FIRST {
      var k, u := (n - FIRST) / CYCLE, (n - FIRST) % CYCLE;
      Where(n, k, u);
      if u >= j {
        Where(n - j, k, u - j);
        ApartInside(k, u, u - j);
      } else if k > 0 {
        Where(n - j, k - 1, CYCLE + u - j);
      }
    }
  }

  lemma ApartInside(k: nat, u: nat, v: nat)
    requires v < u <= v + 16 && u < CYCLE
    ensures LevelAt(k, u) != LevelAt(k, v) && -0x100 < LevelAt(k, u) - LevelAt(k, v) < 0x100
  {
  }

  // ---------------------------------------------------------------- the costs

  predicate Stepping(n: nat) {
    n >= FIRST && (n - FIRST) % CYCLE < STEPS
  }

  /** One back, and two back. */
  function Lag1(n: nat): nat {
    if Stepping(n) then 18 else 0
  }

  function Lag2(n: nat): nat {
    if n >= FIRST && ((n - FIRST) % CYCLE == 0 || (n - FIRST) % CYCLE == STEPS) then 16 else if Stepping(n) then 0 else 1
  }

  lemma Lag1Costs(n: nat)
    requires n >= 1
    ensures ResidualCost((Octet(n) - Octet(n - 1)) % 0x100) == Lag1(n)
  {
    LevelMoves(n);
    OctetsDiffer(n, n - 1, Move(n));
    StepCosts(Move(n), (Octet(n) - Octet(n - 1)) % 0x100);
  }

  lemma StepCosts(d: int, u: Byte)
    requires u == d % 0x100
    ensures d == -1 ==> ResidualCost(u) == 0
    ensures d == 16 || d == -17 ==> ResidualCost(u) == 18
    ensures d == -2 ==> ResidualCost(u) == 1
    ensures d == 15 ==> ResidualCost(u) == 16
  {
  }

  lemma Lag2Costs(n: nat)
    requires n >= 2
    ensures ResidualCost((Octet(n) - Octet(n - 2)) % 0x100) == Lag2(n)
  {
    LevelMoves(n);
    LevelMoves(n - 1);
    TwoMoves(n);
    var d := Move(n) + Move(n - 1);
    OctetsDiffer(n, n - 2, d);
    StepCosts(d, (Octet(n) - Octet(n - 2)) % 0x100);
  }

  lemma TwoMoves(n: nat)
    requires n >= 2
    ensures Move(n) + Move(n - 1) == if Lag2(n) == 0 then -1 else if Lag2(n) == 1 then -2 else 15
  {
    if n >= FIRST {
      var k, u := (n - FIRST) / CYCLE, (n - FIRST) % CYCLE;
      Where(n, k, u);
      if u > 0 { Where(n - 1, k, u - 1); } else if k > 0 { Where(n - 1, k - 1, CYCLE - 1); }
    }
  }

  // ---------------------------------------------------------------- the rows

  /** The period a byte's recurrence names, at the front of a chunk where nothing was seen yet. */
  function Named(n: int): nat {
    if 1 <= n <= PERIODS then n else 0
  }

  /** Entry `d` of the row of literal `n`, for the periods. */
  function RowAt(n: nat, d: nat): nat {
    if n < d then 0xff else if n == d then 0
    else if n == d + 1 then (if 1 <= d <= PERIODS then Cost(d - 1) else 0)
    else if n >= 17 && d == 1 then Lag1(n) else if n >= 17 && d == 2 then Lag2(n) else 0x6f
  }

  /** The sum of entry `d` over the first `n` rows. */
  function SumTo(n: nat, d: nat): nat
    decreases n, d
  {
    if n == 0 then 0 else SumTo(n - 1, d) + RowAt(n - 1, d)
  }

  ghost predicate RowsAre(rows: seq<Row>, d: nat) {
    d < 17 && forall i | 0 <= i < |rows| :: rows[i][d] == RowAt(i, d)
  }

  lemma {:induction false} LastSumIs(rows: seq<Row>, k: nat, d: nat)
    requires RowsAre(rows, d)
    ensures LastSum(rows, k, d) == if k <= |rows| then SumTo(|rows|, d) - SumTo(|rows| - k, d) else SumTo(|rows|, d) + 0x7f * (k - |rows|)
    decreases k
  {
    if k > 0 && rows != [] {
      LastSumIs(rows[..|rows| - 1], k - 1, d);
    }
  }

  // ---------------------------------------------------------------- the sums

  /** Periods above 2 look dear from the start. */
  lemma {:induction false} DearFrom(n: nat, d: nat)
    requires 3 <= d <= PERIODS && n >= 17
    ensures SumTo(n, d) >= 432 + 111 * (n - 2)
    decreases n
  {
    if n == 17 { DearAtFirst(17, d); } else { DearFrom(n - 1, d); }
  }

  lemma {:induction false} DearAtFirst(n: nat, d: nat)
    requires 3 <= d <= PERIODS && n <= 18
    ensures SumTo(n, d) == if n <= d then 255 * n else if n == d + 1 then 255 * d else 255 * d + Cost(d - 1) + 111 * (n - d - 2)
    decreases n
  {
    if n > 0 { DearAtFirst(n - 1, d); }
  }

  lemma {:induction false} DearBetween(m: nat, n: nat, d: nat)
    requires 3 <= d <= PERIODS && 18 <= m <= n
    ensures SumTo(n, d) == SumTo(m, d) + 111 * (n - m)
    decreases n
  {
    if m < n { DearBetween(m, n - 1, d); }
  }

  lemma {:induction false} SmallAtFirst(n: nat)
    requires n <= 17
    ensures SumTo(n, 1) == (if n == 0 then 0 else if n <= 3 then 255 else 255 + 111 * (n - 3))
    ensures SumTo(n, 2) == (if n <= 2 then 255 * n else if n == 3 then 510 else 511 + 111 * (n - 4))
    decreases n
  {
    if n > 0 { SmallAtFirst(n - 1); }
  }

  /** The sums of the first two from literal 17 on: before the first cycle, and inside the cycles. */
  function Rise1(v: nat): nat {
    if v <= STEPS then 18 * v else 18 * STEPS
  }

  function Rise2(v: nat): nat {
    if v == 0 then 0 else if v <= STEPS then 16 else v - 74
  }

  lemma {:induction false} SumsBefore(n: nat)
    requires 17 <= n <= FIRST
    ensures SumTo(n, 1) == 1809 && SumTo(n, 2) == 1954 + (n - 17)
    decreases n
  {
    if n == 17 { SmallAtFirst(17); } else { SumsBefore(n - 1); }
  }

  lemma {:induction false} SumsInside(n: nat, k: nat, v: nat)
    requires n == FIRST + CYCLE * k + v && v <= CYCLE
    ensures SumTo(n, 1) == 1809 + 1890 * k + Rise1(v) && SumTo(n, 2) == 2416 + 360 * k + Rise2(v)
    decreases n, k
  {
    if v > 0 {
      SumsInside(n - 1, k, v - 1);
      Where(n - 1, k, v - 1);
    } else if k > 0 {
      SumsInside(n, k - 1, CYCLE);
    } else {
      SumsBefore(n);
    }
  }

  /** A running cost after `n` literals. */
  function Count(n: nat, d: nat): int {
    if ROWS <= n then SumTo(n, d) - SumTo(n - ROWS, d) else SumTo(n, d) + 0x7f * (ROWS - n)
  }

  lemma {:induction false} CheapBetween(m: nat, n: nat, d: nat)
    requires 1 <= d <= 2 && 17 <= m <= n
    ensures SumTo(n, d) <= SumTo(m, d) + 18 * (n - m)
    decreases n
  {
    if m < n { CheapBetween(m, n - 1, d); }
  }

  lemma CheapCount(n: nat, d: nat)
    requires 1 <= d <= 2 && n >= ROWS
    ensures Count(n, d) <= 2304
  {
    if n < 145 { SumsBefore(n); } else { CheapBetween(n - ROWS, n, d); }
  }

  /** The first two periods are by far the cheapest. */
  lemma DearCount(n: nat, d: nat, e: nat)
    requires n >= 17 && 3 <= d <= PERIODS && 1 <= e <= 2
    ensures Count(n, d) >= Count(n, e) + 0x80
  {
    DearFrom(n, d);
    if n < ROWS {
      SumsBefore(n);
    } else {
      CheapCount(n, e);
      var m: nat := n - ROWS;
      if m >= 18 { DearBetween(m, n, d); } else { DearAtFirst(m, d); }
    }
  }

  /** Before the first cycle, once the front of the chunk is 128 literals back. */
  lemma CountsBefore(n: nat)
    requires 145 <= n <= FIRST
    ensures Count(n, 1) == 0 && Count(n, 2) == 128
  {
    SumsBefore(n);
    SumsBefore(n - ROWS);
  }

  lemma CountsInside(n: nat, k: nat, v: nat)
    requires n == FIRST + CYCLE * k + v && v < CYCLE
    ensures Count(n, 1) == if v <= 105 then 18 * v else if v <= 128 then 1890 else if v <= 233 then 18 * (233 - v) else 0
    ensures Count(n, 2) == if v == 0 then 128 else if v <= 105 then 144 - v else if v <= 128 then 54 else if v <= 233 then v - 90 else 128
  {
    SumsInside(n, k, v);
    if v >= ROWS {
      SumsInside(n - ROWS, k, v - ROWS);
    } else if k > 0 {
      SumsInside(n - ROWS, k - 1, v + 306);
    } else {
      SumsBefore(n - ROWS);
    }
  }

  // ---------------------------------------------------------------- the choice

  /** The period in use at literal `n`. */
  function Period(n: nat): nat {
    if n < 493 then 1 else if (n - 493) / 217 % 2 == 0 then 2 else 1
  }

  ghost predicate TwoCheap(counters: seq<nat>) {
    |counters| == PERIODS + 1
    && forall d {:trigger Score(counters, d)} | 3 <= d <= PERIODS :: Score(counters, d) > Score(counters, 1) && Score(counters, d) > Score(counters, 2)
  }

  lemma {:induction false} TwoAreFound(counters: seq<nat>)
    requires TwoCheap(counters)
    ensures Scan(counters, 1) == if Score(counters, 1) < Score(counters, 2) then (1, 2) else (2, 1)
  {
    var (first, second) := Scan(counters, 3);
    assert Scan(counters, 2) == (2, first);
  }

  /** What is chosen when both are cheap and codes are not free. */
  lemma Chosen(counters: seq<nat>, on: bool, period: nat, s1: nat, s2: nat)
    requires TwoCheap(counters) && s1 == Score(counters, 1) && s2 == Score(counters, 2)
    ensures var s := Select(counters, on, period); (s.period, s.other) == (1, 2) || (s.period, s.other) == (2, 1)
    ensures s1 == 0 < s2 ==> Select(counters, on, period) == Selection(true, 1, 2)
    ensures s1 == s2 == 1 <= Score(counters, 0) && on && 1 <= period <= 2 ==> Select(counters, on, period) == Selection(true, period, 3 - period)
    ensures s2 == 0 < s1 ==> Select(counters, on, period) == Selection(true, 2, 1)
    ensures s2 == 1 <= Score(counters, 0) && s1 >= 2 ==> Select(counters, on, period) == Selection(true, 2, 1)
  {
    TwoAreFound(counters);
  }

  ghost predicate CountsAre(counters: seq<nat>, n: nat) {
    |counters| == PERIODS + 1 && counters[0] >= ROWS && forall d | 1 <= d <= PERIODS :: counters[d] == Count(n, d)
  }

  lemma CountsAreCheap(counters: seq<nat>, n: nat)
    requires |counters| == PERIODS + 1 && n >= 17 && forall d | 1 <= d <= PERIODS :: counters[d] == Count(n, d)
    ensures TwoCheap(counters)
  {
    forall d | 3 <= d <= PERIODS ensures Score(counters, d) > Score(counters, 1) && Score(counters, d) > Score(counters, 2) {
      DearCount(n, d, 1);
      DearCount(n, d, 2);
    }
  }

  /** Where the choice is made: literal 17, and every seventh behind it. */
  lemma ChosenBefore(counters: seq<nat>, n: nat, on: bool, period: nat)
    requires CountsAre(counters, n) && 145 <= n <= FIRST
    ensures Select(counters, on, period) == Selection(true, 1, 2)
  {
    CountsAreCheap(counters, n);
    CountsBefore(n);
    Chosen(counters, on, period, 0, 1);
  }

  lemma ChosenInside(counters: seq<nat>, n: nat, k: nat, v: nat, on: bool, period: nat)
    requires CountsAre(counters, n) && n == FIRST + CYCLE * k + v && v < CYCLE && v % 7 == 0
    requires on && period == if 14 < v <= 231 then 2 else 1
    ensures Select(counters, on, period) == if 14 <= v < 231 then Selection(true, 2, 1) else Selection(true, 1, 2)
  {
    CountsAreCheap(counters, n);
    CountsInside(n, k, v);
    Chosen(counters, on, period, Score(counters, 1), Score(counters, 2));
  }
}

/** The chunk, its runs, and what their numbers take. */
module LiteralOverrun {
  import opened Words
  import opened IntCoding
  import opened LiteralStream
  import opened LiteralRates
  import opened LiteralControl
  import opened LiteralPeriods
  import opened LiteralDrive
  import opened LiteralTurning

  const LITERALS := 30006
  const COPIED := 300
  const LENGTH := 30306

  function Pieces(): (s: seq<Piece>)
    ensures |s| == LITERALS + 1 && PiecesOk(s) && s[LITERALS].Copy?
    ensures forall i | 0 <= i < LITERALS :: s[i] == One(Octet(i))
  {
    seq(LITERALS + 1, i requires 0 <= i < LITERALS + 1 => if i < LITERALS then One(Octet(i)) else Piece.Copy(seq(COPIED, _ => 0)))
  }

  function Octets(n: nat): (s: seq<Byte>)
    ensures |s| == n && forall i | 0 <= i < n :: s[i] == Octet(i)
  {
    seq(n, i requires 0 <= i < n => Octet(i))
  }

  // ---------------------------------------------------------------- the choice

  function Waits(n: nat): nat {
    if n < 17 then 17 - n else 7 - (n - 17) % 7
  }

  /** The budget does not run out: until literal 151 every literal may cost, and then they pay. */
  function Least(n: nat): nat {
    if n <= 60 then 1895 - 15 * n else if n <= 151 then 995 - 8 * (n - 60) else 150
  }

  ghost predicate LastOk(last: seq<nat>, pos: nat, n: nat) {
    |last| == 256 && forall b: Byte :: last[b] == pos || (pos <= last[b] < pos + n && Octet(last[b] - pos) == b)
  }

  ghost predicate RowIs(row: Row, n: nat) {
    forall d | 1 <= d <= PERIODS :: row[d] == RowAt(n, d)
  }

  ghost predicate Paying(rows: seq<Row>) {
    forall i | 0 <= i < |rows| :: rows[i][0] >= 1
  }

  /** What is noted after `n` literals. */
  ghost predicate NotesAre(ch: Choice, pos: nat, n: nat) {
    && |ch.rows| == n && (forall d | 1 <= d <= PERIODS :: RowsAre(ch.rows, d)) && Paying(ch.rows)
    && (if n == 0 then ch.row == seq(17, _ => 0xff) else RowIs(ch.row, n - 1))
    && ch.found == Named(n - 1) && ch.before == Named(n - 2) && LastOk(ch.last, pos, n) && ch.budget >= Least(n)
  }

  /** And what is chosen. */
  ghost predicate TurnIs(ch: Choice, n: nat) {
    && ch.wait == Waits(n) && (n >= 150 ==> ch.on && ch.period == Period(n))
    && if n < 17 then !ch.on && ch.period == ch.other == 0 else (ch.period, ch.other) == (1, 2) || (ch.period, ch.other) == (2, 1)
  }

  /** Out of sight until `Look(Log, 0)`. */
  ghost predicate ChoiceIs(ch: Choice, pos: nat, n: nat) {
    ch.Ok() && forall z {:trigger Look(Log, z)} :: Look(Log, z) ==> NotesAre(ch, pos, n) && TurnIs(ch, n)
  }

  lemma FoundIs(ch: Choice, pos: nat, n: nat)
    requires ch.Ok() && LastOk(ch.last, pos, n)
    ensures ch.Found(Octet(n), pos + n) == Named(n)
  {
    var l := ch.last[Octet(n)];
    if l != pos || n == 0 {
      if n > 0 && n <= l - pos + 16 { NoneAgain(n, n - (l - pos)); }
    }
  }

  lemma ResidualIs(h: seq<Byte>, n: nat, d: nat)
    requires 1 <= d <= n
    ensures Residual(Octet(n), h + Octets(n), d) == ResidualCost((Octet(n) - Octet(n - d)) % 0x100)
  {
  }

  /** Until literal 17 the bytes fall by one. */
  lemma FrontCosts(n: nat, d: nat)
    requires 1 <= d < n <= 17
    ensures ResidualCost((Octet(n) - Octet(n - d)) % 0x100) == Cost(d - 1)
  {
    OctetsDiffer(n, n - d, 0 - d);
  }

  /** The assignments of a row, the last one first. */
  lemma EntryOf(ch: Choice, c: Byte, code: Byte, history: seq<Byte>, d: nat)
    requires ch.Ok() && 1 <= d <= PERIODS
    ensures ch.RowOf(c, code, history)[d] == if d == ch.Found(c, |history|) then 0
      else if d == ch.period || d == ch.found || d == ch.other then Residual(c, history, d)
      else if d == ch.before then 0x6f else ch.row[d]
  {
  }

  lemma RowOfIs(ch: Choice, h: seq<Byte>, n: nat, code: Byte)
    requires ChoiceIs(ch, |h|, n)
    ensures RowIs(ch.RowOf(Octet(n), code, h + Octets(n)), n)
  {
    assert Look(Log, 0);
    FoundIs(ch, |h|, n);
    forall d | 1 <= d <= PERIODS ensures ch.RowOf(Octet(n), code, h + Octets(n))[d] == RowAt(n, d) {
      EntryOf(ch, Octet(n), code, h + Octets(n), d);
      if n >= 17 { EntryBehind(ch, h, n, d); } else { EntryInFront(ch, h, n, d); }
    }
  }

  lemma EntryBehind(ch: Choice, h: seq<Byte>, n: nat, d: nat)
    requires ch.Ok() && n >= 17 && 1 <= d <= PERIODS && RowIs(ch.row, n - 1) && ch.found == Named(n - 1) && ch.before == Named(n - 2)
    requires (ch.period, ch.other) == (1, 2) || (ch.period, ch.other) == (2, 1)
    ensures RowAt(n, d) == if d == ch.period || d == ch.found || d == ch.other then Residual(Octet(n), h + Octets(n), d)
      else if d == ch.before then 0x6f else ch.row[d]
  {
    ResidualIs(h, n, d);
    if d == 1 {
      Lag1Costs(n);
    } else if d == 2 {
      Lag2Costs(n);
    } else if n == 17 && d == 16 {
      FrontCosts(n, 16);
    }
  }

  lemma EntryInFront(ch: Choice, h: seq<Byte>, n: nat, d: nat)
    requires ch.Ok() && n < 17 && 1 <= d <= PERIODS && ch.found == Named(n - 1) && ch.before == Named(n - 2)
    requires ch.period == ch.other == 0 && if n == 0 then ch.row == seq(17, _ => 0xff) else RowIs(ch.row, n - 1)
    ensures RowAt(n, d) == if d == Named(n) then 0 else if d == ch.found then Residual(Octet(n), h + Octets(n), d)
      else if d == ch.before then 0x6f else ch.row[d]
  {
    if d < n {
      ResidualIs(h, n, d);
      FrontCosts(n, d);
    }
  }

  lemma SpentIs(ch: Choice, code: Byte, predicted: bool, n: nat)
    requires ch.Ok() && ch.budget >= Least(n) && (n >= 151 ==> predicted)
    ensures ch.budget > 0 && ch.Spent(code, predicted) >= Least(n + 1)
  {
    var b := if predicted then ch.budget + 2 else ch.budget;
    var shift := if (Total(ch.codes[1..] + [code]) + 0x80) / 0x100 < 0x71 then 0x10_0000 else 0x80;
    SpendLittle(b, shift, if n >= 151 then Least(n) + 2 else Least(n));
  }

  lemma SpendLittle(b: nat, shift: nat, least: nat)
    requires b >= least >= 1 && (shift == 0x80 || shift == 0x10_0000)
    ensures b - 1 - b / shift >= least - 1 - least / 0x80
  {
  }

  lemma CountersAre(rows: seq<Row>)
    requires (forall d | 1 <= d <= PERIODS :: RowsAre(rows, d)) && Paying(rows)
    ensures forall d | 1 <= d <= PERIODS :: Counters(rows)[d] == Count(|rows|, d)
    ensures |rows| >= ROWS ==> CountsAre(Counters(rows), |rows|)
  {
    forall d | 1 <= d <= PERIODS ensures Counters(rows)[d] == Count(|rows|, d) { LastSumIs(rows, ROWS, d); }
    if |rows| >= ROWS { PaidSum(rows, ROWS); }
  }

  lemma {:induction false} PaidSum(rows: seq<Row>, k: nat)
    requires Paying(rows) && k <= |rows|
    ensures LastSum(rows, k, 0) >= k
    decreases k
  {
    if k > 0 { PaidSum(rows[..|rows| - 1], k - 1); }
  }

  lemma PeriodInside(n: nat, k: nat, v: nat)
    requires n == FIRST + CYCLE * k + v && v < CYCLE
    ensures Period(n) == if 14 <= v < 231 then 2 else 1
  {
    if v >= 14 {
      var q := if v < 231 then 2 * k else 2 * k + 1;
      Quotient(n - 493, 217, q);
    } else if k > 0 {
      Quotient(n - 493, 217, 2 * k - 1);
    }
  }

  lemma Quotient(x: nat, p: nat, q: nat)
    requires p == 217 && q * p <= x < q * p + p
    ensures x / p == q
  {
  }

  /** The period changes only where the choice is made. */
  lemma PeriodStays(n: nat)
    requires n >= 17 && (n + 1 - 17) % 7 != 0
    ensures Period(n + 1) == Period(n)
  {
    if n + 1 > FIRST {
      var k, v := (n + 1 - FIRST) / CYCLE, (n + 1 - FIRST) % CYCLE;
      PeriodInside(n + 1, k, v);
      if v == 14 { Sevens(n + 1 - 17, 68 + 62 * k); }
      if v == 231 { Sevens(n + 1 - 17, 99 + 62 * k); }
      if v > 0 { PeriodInside(n, k, v - 1); } else if k > 0 { PeriodInside(n, k - 1, CYCLE - 1); }
    }
  }

  lemma Sevens(x: nat, q: nat)
    requires x == 7 * q
    ensures x % 7 == 0
  {
  }

  /** The choice where it is made. */
  lemma SelectedIs(counters: seq<nat>, n: nat, on: bool, period: nat)
    requires n >= 16 && (n + 1 - 17) % 7 == 0 && (n + 1 >= ROWS ==> CountsAre(counters, n + 1))
    requires |counters| == PERIODS + 1 && forall d | 1 <= d <= PERIODS :: counters[d] == Count(n + 1, d)
    requires n >= 150 ==> on && period == Period(n)
    ensures var s := Select(counters, on, period); (s.period, s.other) == (1, 2) || (s.period, s.other) == (2, 1)
    ensures n + 1 >= 150 ==> Select(counters, on, period).on && Select(counters, on, period).period == Period(n + 1)
  {
    CountsAreCheap(counters, n + 1);
    Chosen(counters, on, period, Score(counters, 1), Score(counters, 2));
    if 150 <= n + 1 <= FIRST {
      ChosenBefore(counters, n + 1, on, period);
    } else if n + 1 > FIRST {
      SelectedInside(counters, n, (n + 1 - FIRST) / CYCLE, (n + 1 - FIRST) % CYCLE, on, period);
    }
  }

  lemma SelectedInside(counters: seq<nat>, n: nat, k: nat, v: nat, on: bool, period: nat)
    requires n >= FIRST && n + 1 == FIRST + CYCLE * k + v && v < CYCLE && (n + 1 - 17) % 7 == 0
    requires CountsAre(counters, n + 1) && on && period == Period(n)
    ensures Select(counters, on, period).on && Select(counters, on, period).period == Period(n + 1)
  {
    PeriodInside(n + 1, k, v);
    if v > 0 { PeriodInside(n, k, v - 1); } else { PeriodInside(n, k - 1, CYCLE - 1); }
    ChosenInside(counters, n + 1, k, v, on, period);
  }

  lemma RowsOn(rows: seq<Row>, r: Row, code: Byte)
    requires (forall d | 1 <= d <= PERIODS :: RowsAre(rows, d)) && Paying(rows) && RowIs(r, |rows|) && r[0] == RankCost(code) && code >= 2
    ensures (forall d | 1 <= d <= PERIODS :: RowsAre(rows + [r], d)) && Paying(rows + [r])
  {
    forall d | 1 <= d <= PERIODS ensures RowsAre(rows + [r], d) {
      assert RowsAre(rows, d) && r[d] == RowAt(|rows|, d);
    }
  }

  lemma LastOn(last: seq<nat>, pos: nat, n: nat)
    requires LastOk(last, pos, n)
    ensures LastOk(last[Octet(n) := pos + n], pos, n + 1)
  {
  }

  lemma NotedIs(ch: Choice, h: seq<Byte>, n: nat, code: Byte, predicted: bool)
    requires ChoiceIs(ch, |h|, n) && code >= 2 && (n >= 151 ==> predicted)
    ensures ch.budget > 0 && NotesAre(ch.Noted(Octet(n), code, h + Octets(n), predicted), |h|, n + 1)
  {
    RowOfIs(ch, h, n, code);
    assert Look(Log, 0);
    FoundIs(ch, |h|, n);
    SpentIs(ch, code, predicted, n);
    NotesOn(ch, ch.Noted(Octet(n), code, h + Octets(n), predicted), ch.RowOf(Octet(n), code, h + Octets(n)), |h|, n, code);
  }

  lemma NotesOn(ch: Choice, x: Choice, r: Row, pos: nat, n: nat, code: Byte)
    requires ch.Ok() && x.Ok() && NotesAre(ch, pos, n) && RowIs(r, n) && r[0] == RankCost(code) && code >= 2
    requires x.rows == ch.rows + [r] && x.row == r && x.last == ch.last[Octet(n) := pos + n]
    requires x.found == Named(n) && x.before == ch.found && x.budget >= Least(n + 1)
    ensures NotesAre(x, pos, n + 1)
  {
    LastOn(ch.last, pos, n);
    RowsOn(ch.rows, r, code);
  }

  /** The counts of the notes are those of the bytes; out of sight until `Look(Spot, 0)`. */
  ghost predicate Counted(counters: seq<nat>, n: nat) {
    |counters| == PERIODS + 1 && forall z {:trigger Look(Spot, z)} :: Look(Spot, z) ==>
      (n >= ROWS ==> CountsAre(counters, n)) && forall d | 1 <= d <= PERIODS :: counters[d] == Count(n, d)
  }

  lemma NotesStay(x: Choice, pos: nat, n: nat)
    requires x.Ok() && NotesAre(x, pos, n)
    ensures NotesAre(x.Waited(), pos, n) && Counted(Counters(x.rows), n)
  {
    CountersAre(x.rows);
  }

  lemma TurnOn(x: Choice, n: nat)
    requires x.Ok() && TurnIs(x, n) && Counted(Counters(x.rows), n + 1)
    ensures TurnIs(x.Waited(), n + 1)
  {
    if x.wait == 1 {
      assert Look(Spot, 0);
      SelectedIs(Counters(x.rows), n, x.on, x.period);
    } else if n >= 17 {
      PeriodStays(n);
    }
  }

  lemma ChoiceOn(ch: Choice, h: seq<Byte>, n: nat, code: Byte, predicted: bool)
    requires ChoiceIs(ch, |h|, n) && code >= 2 && (n >= 151 ==> predicted)
    ensures ChoiceIs(ch.Passed(Octet(n), code, h + Octets(n), predicted), |h|, n + 1)
  {
    NotedIs(ch, h, n, code, predicted);
    assert TurnIs(ch, n) by { assert Look(Log, 0); }
    NotesStay(ch.Noted(Octet(n), code, h + Octets(n), predicted), |h|, n + 1);
    TurnOn(ch.Noted(Octet(n), code, h + Octets(n), predicted), n);
  }

  // ---------------------------------------------------------------- the runs

  /** How often the period has turned before literal `n`. */
  function Turns(n: nat): nat {
    if n <= 493 then 0 else (n - 494) / 217 + 1
  }

  ghost predicate RunsAre(c: Control, n: nat) {
    && c.Ok() && c.count == n && |NumbersBits(c.rates)| >= 15 * Turns(n)
    && (n >= 151 ==> c.distance == Period(n - 1)) && (n >= 152 ==> c.predrun > 0)
    && (152 <= n <= 493 ==> c.predrun >= n - 151) && (n >= 494 ==> c.predrun == (n - 494) % 217 + 1)
  }

  lemma NumberWidth(v: nat)
    ensures |NumberBits(v)| >= 3 && (v >= 16 ==> |NumberBits(v)| >= 9)
  {
    if v >= 16 {
      assert Bsr(16) == 4 && Bsr(4) == 2;
      BsrMonotone(16, v);
      BsrMonotone(4, Bsr(v));
    }
  }

  lemma ThreeNumbers(rates: seq<nat>, a: nat, b: nat, c: nat)
    ensures |NumbersBits(rates + [a, b, c])| >= |NumbersBits(rates)| + 9 && (b >= 16 ==> |NumbersBits(rates + [a, b, c])| >= |NumbersBits(rates)| + 15)
  {
    NumbersSnoc(rates, a);
    NumbersSnoc(rates + [a], b);
    NumbersSnoc(rates + [a] + [b], c);
    assert rates + [a] + [b] + [c] == rates + [a, b, c];
    NumberWidth(a);
    NumberWidth(b);
    NumberWidth(c);
  }

  lemma PeriodTurns(n: nat)
    requires n >= 1
    ensures Period(n) != Period(n - 1) <==> n >= 493 && (n - 493) % 217 == 0
    ensures Turns(n + 1) == Turns(n) + if n >= 493 && (n - 493) % 217 == 0 then 1 else 0
    ensures n >= 494 ==> (n + 1 - 494) % 217 == if (n - 493) % 217 == 0 then 0 else (n - 494) % 217 + 1
    ensures n >= 494 && (n - 493) % 217 == 0 ==> (n - 494) % 217 == 216
  {
    if n >= 494 {
      var q, x := (n - 493) / 217, (n - 493) % 217;
      if x == 0 { Quotient(n - 494, 217, q - 1); } else { Quotient(n - 494, 217, q); }
    }
  }

  /** Passing literal `n` of the chunk. */
  ghost predicate Goes(c: Control, n: nat, on: bool, period: U32) {
    RunsAre(c, n) && (on ==> period > 0) && (n >= 150 ==> on && period == Period(n))
  }

  lemma RunsOn(c: Control, n: nat, on: bool, period: U32)
    requires Goes(c, n, on, period)
    ensures RunsAre(c.Passed(on, period), n + 1) && (n >= 151 ==> c.Passed(on, period).predrun > 0)
  {
    if n < 151 {
      RunsBefore(c, n, on, period);
    } else if n >= 493 && (n - 493) % 217 == 0 {
      RunTurns(c, n, period);
    } else {
      RunGoesOn(c, n, period);
    }
  }

  lemma RunsBefore(c: Control, n: nat, on: bool, period: U32)
    requires Goes(c, n, on, period) && n < 151
    ensures RunsAre(c.Passed(on, period), n + 1)
  {
    assert Turns(n + 1) == 0 && (n == 150 ==> period == Period(n));
  }

  lemma RunGoesOn(c: Control, n: nat, period: U32)
    requires Goes(c, n, true, period) && n >= 151 && (n >= 493 ==> (n - 493) % 217 != 0)
    ensures RunsAre(c.Passed(true, period), n + 1) && c.Passed(true, period).predrun > 0
  {
    PeriodTurns(n);
    assert c.Passed(true, period) == c.(count := n + 1, predrun := c.predrun + 1);
  }

  lemma RunTurns(c: Control, n: nat, period: U32)
    requires Goes(c, n, true, period) && n >= 493 && (n - 493) % 217 == 0
    ensures RunsAre(c.Passed(true, period), n + 1) && c.Passed(true, period).predrun > 0
  {
    PeriodTurns(n);
    assert c.predrun >= 217 && c.distance != period;
    SettledIsLonger(c);
    assert c.Passed(true, period) == c.Settled().(count := n + 1, distance := period, predrun := 1);
  }

  lemma SettledIsLonger(c: Control)
    requires c.Ok() && c.predrun > 0
    ensures |NumbersBits(c.Settled().rates)| >= |NumbersBits(c.rates)| + if c.predrun >= 216 then 15 else 0
  {
    if c.predrun >= RUN { ThreeNumbers(c.rates, c.count - c.predrun - c.flushed, c.predrun - RUN, c.distance - 1); }
  }

  // ---------------------------------------------------------------- the chunk

  ghost predicate Along(d: Drive, h: seq<Byte>, n: nat) {
    d.Ok() && d.history == h + Octets(n) && ChoiceIs(d.choice, |h|, n) && RunsAre(d.control, n)
  }

  lemma {:induction false} DriveAlong(h: seq<Byte>, ring: seq<Byte>, codes: seq<Byte>, n: nat)
    requires |ring| == 256 && |codes| == LITERALS + 1 && n <= LITERALS && forall i | 0 <= i < LITERALS :: codes[i] >= 2
    ensures Along(Driven(Begun(h, LENGTH, ring), Pieces(), codes, n), h, n)
    decreases n
  {
    var start := Begun(h, LENGTH, ring);
    if n == 0 {
      AlongFirst(h, ring);
    } else {
      DriveAlong(h, ring, codes, n - 1);
      AlongOn(Driven(start, Pieces(), codes, n - 1), h, n - 1, codes[n - 1]);
    }
  }

  lemma AlongFirst(h: seq<Byte>, ring: seq<Byte>)
    requires |ring| == 256
    ensures Along(Begun(h, LENGTH, ring), h, 0)
  {
    assert h + Octets(0) == h;
  }

  lemma TurnNow(ch: Choice, pos: nat, n: nat)
    requires ChoiceIs(ch, pos, n)
    ensures n >= 150 ==> ch.on && ch.period == Period(n)
  {
    assert Look(Log, 0);
  }

  lemma PassedOne(d: Drive, c: Byte, code: Byte)
    requires d.Ok()
    ensures var (x, after) := (d.Passed(One(c), code), d.control.Passed(d.choice.on, d.choice.period));
      x.history == d.history + [c] && x.control == after && x.choice == d.choice.Passed(c, code, d.history, after.predrun > 0)
  {
  }

  lemma RunsAlong(d: Drive, h: seq<Byte>, n: nat)
    requires Along(d, h, n)
    ensures var after := d.control.Passed(d.choice.on, d.choice.period); RunsAre(after, n + 1) && (n >= 151 ==> after.predrun > 0)
  {
    TurnNow(d.choice, |h|, n);
    RunsOn(d.control, n, d.choice.on, d.choice.period);
  }

  lemma ChoiceAlong(d: Drive, h: seq<Byte>, n: nat, code: Byte, predicted: bool)
    requires Along(d, h, n) && code >= 2 && (n >= 151 ==> predicted)
    ensures ChoiceIs(d.choice.Passed(Octet(n), code, d.history, predicted), |h|, n + 1)
    ensures d.history + [Octet(n)] == h + Octets(n + 1)
  {
    ChoiceOn(d.choice, h, n, code, predicted);
    assert h + Octets(n) + [Octet(n)] == h + Octets(n + 1);
  }

  lemma AlongOn(d: Drive, h: seq<Byte>, n: nat, code: Byte)
    requires Along(d, h, n) && code >= 2
    ensures Along(d.Passed(One(Octet(n)), code), h, n + 1)
  {
    RunsAlong(d, h, n);
    ChoiceAlong(d, h, n, code, d.control.Passed(d.choice.on, d.choice.period).predrun > 0);
    PassedOne(d, Octet(n), code);
  }

  /**
   Whatever was coded before: 30 006 literals and a copied rest, 30 306 bytes in all and few enough
   literals not to be stored raw. With the periods that the program itself chooses for them, as long as
   no literal's code is 0 or 1, the numbers of the runs do not fit their buffer.
   */
  lemma TurnsOverrun(h: seq<Byte>, ring: seq<Byte>, codes: seq<Byte>)
    requires |ring| == 256 && |codes| == LITERALS + 1 && forall i | 0 <= i < LITERALS :: codes[i] >= 2
    ensures LENGTH == LITERALS + COPIED <= 0x8000 && LITERALS + 0x10 + LITERALS / 0x80 < LENGTH
    ensures var events := Driven(Begun(h, LENGTH, ring), Pieces(), codes, LITERALS + 1).events;
      WellFormed(events) && |NumbersBits(RatesOf(events))| > 8 * ROOM
  {
    var start := Begun(h, LENGTH, ring);
    DriveAlong(h, ring, codes, LITERALS);
    AllTurned(Driven(start, Pieces(), codes, LITERALS), Pieces()[LITERALS], h, codes[LITERALS]);
    ControlIsReached(start, Pieces(), codes, LITERALS + 1);
  }

  lemma AllTurned(d: Drive, last: Piece, h: seq<Byte>, code: Byte)
    requires Along(d, h, LITERALS) && last.Copy? && last.bytes != []
    ensures var c := d.Passed(last, code).control; c.Ok() && |NumbersBits(c.Finished())| > 8 * ROOM
  {
    assert Turns(LITERALS) == 137;
    FinishedIsLonger(d.control);
  }

  lemma FinishedIsLonger(c: Control)
    requires c.Ok()
    ensures |NumbersBits(c.Finished())| >= |NumbersBits(c.rates)|
  {
    if c.predrun == 0 { LastNumber(c.rates, c.count - c.flushed, c.Finished()); } else { FinishedSettles(c); }
  }

  lemma LastNumber(rates: seq<nat>, v: nat, all: seq<nat>)
    requires all == rates + [v]
    ensures |NumbersBits(all)| >= |NumbersBits(rates)|
  {
    NumbersSnoc(rates, v);
  }

  lemma FinishedSettles(c: Control)
    requires c.Ok() && c.predrun > 0
    ensures |NumbersBits(c.Finished())| >= |NumbersBits(c.rates)|
  {
    SettledIsLonger(c);
    LastNumber(c.Settled().rates, c.count + 1 - c.Settled().flushed, c.Finished());
  }
}
