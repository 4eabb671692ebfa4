/**
 The literal contexts of the `-cD` codec: for each previous byte a row of 32 recent symbols,
 kept by partial moves to the front, and a bitmap of which symbols the row holds. A literal is
 sent as its slot when it is in the row, and otherwise as a byte of 32 or more.
 */
module LiteralRows {
  import opened Words
  import opened Permutations

  const SLOTS := 32

  /** A row: 32 different symbols. */
  ghost predicate IsRow(r: seq<Byte>) {
    |r| == SLOTS && Distinct(r)
  }

  /** The row a stream starts from: slot `i` holds symbol `i`. */
  function Identity(): (r: seq<Byte>)
    ensures |r| == SLOTS
    ensures forall i | 0 <= i < SLOTS :: r[i] == i
  {
    seq(SLOTS, i requires 0 <= i < SLOTS => i as Byte)
  }

  lemma IdentityIsRow()
    ensures IsRow(Identity())
    ensures forall s: Byte :: s in Identity() <==> s < SLOTS
  {
    forall s: Byte
      ensures s in Identity() <==> s < SLOTS
    {
      if s < SLOTS {
        assert Identity()[s] == s;
      }
    }
  }

  // ---- updates

  /** A new symbol enters half way, and the last one leaves. */
  function Inserted(r: seq<Byte>, s: Byte): (q: seq<Byte>)
    requires |r| == SLOTS
    ensures |q| == SLOTS
  {
    r[..16] + [s] + r[16..31]
  }

  /** How far towards the front slot `i` moves: by a quarter of its number. */
  function Target(i: nat): (j: nat)
    ensures i > 0 ==> j < i
    ensures i == 0 ==> j == 0
  {
    if i == 0 then 0 else i - (i + 3) / 4
  }

  function Promoted(r: seq<Byte>, i: nat): (q: seq<Byte>)
    requires i < |r|
    ensures |q| == |r|
  {
    r[i := r[Target(i)]][Target(i) := r[i]]
  }

  lemma InsertedKeeps(r: seq<Byte>, s: Byte)
    requires IsRow(r) && s !in r
    ensures IsRow(Inserted(r, s))
    ensures forall z: Byte :: z in Inserted(r, s) <==> z == s || (z in r && z != r[31])
  {
    var q := Inserted(r, s);
    assert forall i | 0 <= i < SLOTS :: q[i] == if i < 16 then r[i] else if i == 16 then s else r[i - 1];
    forall z: Byte
      ensures z in q <==> z == s || (z in r && z != r[31])
    {
      if z in r && z != r[31] {
        var i :| 0 <= i < SLOTS && r[i] == z;
        assert q[if i < 16 then i else i + 1] == z;
      }
      assert q[16] == s;
    }
  }

  lemma PromotedKeeps(r: seq<Byte>, i: nat)
    requires IsRow(r) && i < SLOTS
    ensures IsRow(Promoted(r, i))
    ensures forall z: Byte :: z in Promoted(r, i) <==> z in r
  {
    var q, t := Promoted(r, i), Target(i);
    forall z: Byte
      ensures z in q <==> z in r
    {
      if z in r {
        var j :| 0 <= j < SLOTS && r[j] == z;
        assert q[if j == i then t else if j == t then i else j] == z;
      }
    }
  }

  ghost function SlotOf(r: seq<Byte>, s: Byte): (i: nat)
    requires s in r
    ensures i < |r| && r[i] == s
  {
    var i :| 0 <= i < |r| && r[i] == s;
    i
  }

  /** What both sides make of a row when its context is followed by `s`. */
  ghost function Placed(r: seq<Byte>, s: Byte): (q: seq<Byte>)
    requires |r| == SLOTS
    ensures |q| == SLOTS
  {
    if s in r then Promoted(r, SlotOf(r, s)) else Inserted(r, s)
  }

  lemma PlacedKeeps(r: seq<Byte>, s: Byte)
    requires IsRow(r)
    ensures IsRow(Placed(r, s))
  {
    if s in r {
      PromotedKeeps(r, SlotOf(r, s));
    } else {
      InsertedKeeps(r, s);
    }
  }

  // ---- a symbol that comes often

  /** The row after `s` has come `k` times. */
  ghost function Often(r: seq<Byte>, s: Byte, k: nat): (q: seq<Byte>)
    requires IsRow(r)
    ensures IsRow(q)
  {
    if k == 0 then r
    else
      var q := Often(r, s, k - 1);
      PlacedKeeps(q, s);
      Placed(q, s)
  }

  /** It stands in one of the first slots, up to `b`. */
  ghost predicate IsUpTo(r: seq<Byte>, s: Byte, b: nat) {
    exists i :: 0 <= i < |r| && i <= b && r[i] == s
  }

  /** Each time it comes it moves a quarter of its number towards the front. */
  lemma ComesForward(r: seq<Byte>, s: Byte, b: nat)
    requires IsRow(r) && IsUpTo(r, s, b)
    ensures IsUpTo(Placed(r, s), s, Target(b))
  {
    var i := SlotOf(r, s);
    assert i <= b;
    assert Placed(r, s)[Target(i)] == s;
    assert Target(i) <= Target(b);
  }

  lemma EntersHalfWay(r: seq<Byte>, s: Byte)
    requires IsRow(r) && s !in r
    ensures IsUpTo(Placed(r, s), s, 16)
  {
    assert Placed(r, s)[16] == s;
  }

  /** How far from slot `b` it has come after `n` times. */
  function Fallen(b: nat, n: nat): (f: nat)
    ensures f <= b
  {
    if n == 0 then b else Target(Fallen(b, n - 1))
  }

  lemma {:induction false} OftenFalls(r: seq<Byte>, s: Byte, b: nat, n: nat)
    requires IsRow(r) && IsUpTo(r, s, b)
    ensures IsUpTo(Often(r, s, n), s, Fallen(b, n))
  {
    if n > 0 {
      OftenFalls(r, s, b, n - 1);
      ComesForward(Often(r, s, n - 1), s, Fallen(b, n - 1));
    }
  }

  lemma {:induction false} OftenAgain(r: seq<Byte>, s: Byte, n: nat)
    requires IsRow(r) && IsRow(Placed(r, s))
    ensures Often(r, s, n + 1) == Often(Placed(r, s), s, n)
  {
    if n > 0 { OftenAgain(r, s, n - 1); }
  }

  lemma {:induction false} FallenToFirst(n: nat)
    ensures n >= 8 ==> Fallen(16, n) == 0
    ensures n >= 10 ==> Fallen(31, n) == 0
  {
    if n > 10 {
      FallenToFirst(n - 1);
    } else {
      assert Fallen(16, 4) == 4 && Fallen(31, 4) == 9;
      assert Fallen(16, 8) == 0 && Fallen(31, 8) == 2;
      assert Fallen(16, 9) == 0 && Fallen(31, 9) == 1 && Fallen(31, 10) == 0;
    }
  }

  lemma FirstIsSent(r: seq<Byte>, s: Byte)
    requires IsRow(r) && IsUpTo(r, s, 0)
    ensures Sends(r, 0, s)
  {
  }

  /** A symbol that has come ten times in a row in a context is sent as 0 there. */
  lemma OftenIsFirst(r: seq<Byte>, s: Byte, n: nat)
    requires IsRow(r) && n >= 10
    ensures Sends(Often(r, s, n), 0, s)
  {
    if s in r {
      assert r[SlotOf(r, s)] == s;
      OftenFalls(r, s, 31, n);
      FallenToFirst(n);
    } else {
      EntersHalfWay(r, s);
      PlacedKeeps(r, s);
      OftenAgain(r, s, n - 1);
      OftenFalls(Placed(r, s), s, 16, n - 1);
      FallenToFirst(n - 1);
    }
    FirstIsSent(Often(r, s, n), s);
  }

  // ---- the code of a symbol

  ghost predicate Follows(r: seq<Byte>, p: seq<Byte>, i: nat)
    requires |r| == SLOTS && i < |p| - 1
  {
    p[i] < SLOTS && p[i + 1] == r[p[i]]
  }

  /** `p` walks the row from slot number to symbol, and leaves it only at the end. */
  ghost predicate IsWalk(r: seq<Byte>, p: seq<Byte>) {
    |r| == SLOTS && p != [] && forall i :: 0 <= i < |p| - 1 ==> Follows(r, p, i)
  }

  /** A whole walk: from a symbol that is in no slot to a byte that is no slot number. */
  ghost predicate IsChase(r: seq<Byte>, p: seq<Byte>) {
    IsWalk(r, p) && p[0] !in r && p[|p| - 1] >= SLOTS
  }

  /** `b` is what a literal `s` is sent as. */
  ghost predicate Sends(r: seq<Byte>, b: Byte, s: Byte)
    requires |r| == SLOTS
  {
    if b < SLOTS then r[b] == s
    else exists p :: IsChase(r, p) && p[0] == s && p[|p| - 1] == b
  }

  /** Seen from the start: a walk from a symbol in no slot never meets itself. */
  lemma {:induction false} ApartFromStart(r: seq<Byte>, p: seq<Byte>, i: nat, j: nat)
    requires IsRow(r) && IsWalk(r, p) && p[0] !in r
    requires i < j < |p|
    ensures p[i] != p[j]
    decreases i
  {
    assert Follows(r, p, j - 1);
    if i > 0 {
      ApartFromStart(r, p, i - 1, j - 1);
      assert Follows(r, p, i - 1);
    }
  }

  /** Seen from the end: a walk to a byte that is no slot number never meets itself. */
  lemma {:induction false} ApartFromEnd(r: seq<Byte>, p: seq<Byte>, i: nat, j: nat)
    requires IsRow(r) && IsWalk(r, p) && p[|p| - 1] >= SLOTS
    requires i < j < |p|
    ensures p[i] != p[j]
    decreases |p| - j
  {
    assert Follows(r, p, i);
    if j < |p| - 1 {
      ApartFromEnd(r, p, i + 1, j + 1);
      assert Follows(r, p, j);
    }
  }

  /** So either kind of walk is at most 33 bytes long, which ends both searches. */
  lemma WalkIsShort(r: seq<Byte>, p: seq<Byte>)
    requires IsRow(r) && IsWalk(r, p)
    requires p[0] !in r || p[|p| - 1] >= SLOTS
    ensures |p| <= SLOTS + 1
  {
    var q := p[..|p| - 1];
    forall i | 0 <= i < |q|
      ensures q[i] < SLOTS
    {
      assert Follows(r, p, i);
    }
    forall i, j | 0 <= i < j < |q|
      ensures q[i] != q[j]
    {
      if p[0] !in r {
        ApartFromStart(r, p, i, j);
      } else {
        ApartFromEnd(r, p, i, j);
      }
    }
    ValuesSize(q);
    Fits(Values(q), SLOTS);
  }

  lemma {:induction false} SameStartSameEnd(r: seq<Byte>, p: seq<Byte>, q: seq<Byte>, i: nat)
    requires IsRow(r) && IsChase(r, p) && IsChase(r, q) && p[0] == q[0]
    requires i < |p|
    ensures i < |q| && p[i] == q[i]
  {
    if i > 0 {
      SameStartSameEnd(r, p, q, i - 1);
      assert Follows(r, p, i - 1);
      assert i < |q|;
      assert Follows(r, q, i - 1);
    }
  }

  lemma {:induction false} SameEndSameStart(r: seq<Byte>, p: seq<Byte>, q: seq<Byte>, i: nat)
    requires IsRow(r) && IsChase(r, p) && IsChase(r, q) && p[|p| - 1] == q[|q| - 1]
    requires i < |p|
    ensures i < |q| && p[|p| - 1 - i] == q[|q| - 1 - i]
  {
    if i > 0 {
      SameEndSameStart(r, p, q, i - 1);
      var a, b := |p| - i, |q| - i;
      assert Follows(r, p, a - 1);
      assert p[a] in r;
      assert b > 0;
      assert Follows(r, q, b - 1);
    }
  }

  /** No byte is two symbols, and no symbol is two bytes: the code is one to one. */
  lemma CodeIsOneToOne(r: seq<Byte>, b: Byte, s: Byte, b': Byte, s': Byte)
    requires IsRow(r) && Sends(r, b, s) && Sends(r, b', s')
    ensures b == b' <==> s == s'
  {
    if b >= SLOTS && b' >= SLOTS {
      var p :| IsChase(r, p) && p[0] == s && p[|p| - 1] == b;
      var q :| IsChase(r, q) && q[0] == s' && q[|q| - 1] == b';
      if s == s' {
        SameStartSameEnd(r, p, q, |p| - 1);
        SameStartSameEnd(r, q, p, |q| - 1);
      }
      if b == b' {
        SameEndSameStart(r, p, q, |p| - 1);
        SameEndSameStart(r, q, p, |q| - 1);
      }
    } else if b >= SLOTS {
      var p :| IsChase(r, p) && p[0] == s && p[|p| - 1] == b;
      assert r[b'] in r;
    } else if b' >= SLOTS {
      var p :| IsChase(r, p) && p[0] == s' && p[|p| - 1] == b';
      assert r[b] in r;
    }
  }

  /** An absent symbol is never sent as a slot, and a present one always is. */
  lemma CodeTellsPresence(r: seq<Byte>, b: Byte, s: Byte)
    requires IsRow(r) && Sends(r, b, s)
    ensures s in r <==> b < SLOTS
    ensures s in r ==> SlotOf(r, s) == b
  {
    if s in r && b < SLOTS {
      assert r[SlotOf(r, s)] == r[b];
    }
  }

  /** From every symbol in no slot there is a byte to send. */
  lemma {:induction false} ChaseFrom(r: seq<Byte>, p: seq<Byte>) returns (q: seq<Byte>)
    requires IsRow(r) && IsWalk(r, p) && p[0] !in r
    ensures IsChase(r, q) && q[0] == p[0]
    decreases SLOTS + 1 - |p|
  {
    WalkIsShort(r, p);
    if p[|p| - 1] >= SLOTS {
      q := p;
    } else {
      var longer := p + [r[p[|p| - 1]]];
      assert forall i | 0 <= i < |p| - 1 :: Follows(r, p, i) ==> Follows(r, longer, i);
      WalkIsShort(r, longer);
      q := ChaseFrom(r, longer);
    }
  }

  /** To every byte that is no slot number there is a symbol it sends. */
  lemma {:induction false} ChaseTo(r: seq<Byte>, p: seq<Byte>) returns (q: seq<Byte>)
    requires IsRow(r) && IsWalk(r, p) && p[|p| - 1] >= SLOTS
    ensures IsChase(r, q) && q[|q| - 1] == p[|p| - 1]
    decreases SLOTS + 1 - |p|
  {
    WalkIsShort(r, p);
    if p[0] !in r {
      q := p;
    } else {
      var k: Byte := SlotOf(r, p[0]);
      var longer := [k] + p;
      assert forall i | 1 <= i < |p| :: Follows(r, p, i - 1) ==> Follows(r, longer, i);
      WalkIsShort(r, longer);
      q := ChaseTo(r, longer);
    }
  }

  /** Every symbol has a code, and every byte is one: together with `CodeIsOneToOne`, at each
      row the code is a permutation of the 256 bytes. */
  lemma CodeIsOnto(r: seq<Byte>, x: Byte)
    requires IsRow(r)
    ensures exists b: Byte :: Sends(r, b, x)
    ensures exists s: Byte :: Sends(r, x, s)
  {
    if x in r {
      assert Sends(r, SlotOf(r, x), x);
    } else {
      var p := ChaseFrom(r, [x]);
      assert Sends(r, p[|p| - 1], x);
    }
    if x < SLOTS {
      assert Sends(r, x, r[x]);
    } else {
      var p := ChaseTo(r, [x]);
      assert Sends(r, x, p[0]);
    }
  }
}

/** The contexts as they lie in memory: 256 records of 32 slots and a 32-byte bitmap. */
module LiteralTable {
  import opened Words
  import IntCoding
  import opened LiteralRows

  const RECORD := 64
  const CONTEXTS := 256
  const TABLE := 0x4000

  // ---- the bits of a byte

  predicate TestBit(x: nat, k: nat) {
    if k == 0 then x % 2 == 1 else TestBit(x / 2, k - 1)
  }

  /** `x ^ (1 << k)`. */
  function Flipped(x: nat, k: nat): (y: nat)
    ensures TestBit(y, k) == !TestBit(x, k)
  {
    if k == 0 then (if x % 2 == 1 then x - 1 else x + 1) else x % 2 + 2 * Flipped(x / 2, k - 1)
  }

  lemma {:induction false} FlippedFits(x: nat, k: nat, n: nat)
    requires k < n && x < IntCoding.Pow2(n)
    ensures Flipped(x, k) < IntCoding.Pow2(n)
  {
    if k > 0 {
      FlippedFits(x / 2, k - 1, n - 1);
    }
  }

  lemma {:induction false} FlippedElsewhere(x: nat, k: nat, j: nat)
    requires j != k
    ensures TestBit(Flipped(x, k), j) == TestBit(x, j)
  {
    if k > 0 && j > 0 {
      FlippedElsewhere(x / 2, k - 1, j - 1);
    }
  }

  lemma {:induction false} BitsMakeNumber(x: nat, y: nat, n: nat)
    requires x < IntCoding.Pow2(n) && y < IntCoding.Pow2(n)
    requires forall k: nat | k < n :: TestBit(x, k) == TestBit(y, k)
    ensures x == y
  {
    if n > 0 {
      forall k: nat | k < n - 1
        ensures TestBit(x / 2, k) == TestBit(y / 2, k)
      {
        assert TestBit(x, k + 1) == TestBit(y, k + 1);
      }
      BitsMakeNumber(x / 2, y / 2, n - 1);
      assert TestBit(x, 0) == TestBit(y, 0);
    }
  }

  function Flip(x: Byte, k: nat): (y: Byte)
    requires k < 8
  {
    FlippedFits(x, k, 8);
    Flipped(x, k)
  }

  // ---- one record

  function Row(rec: seq<Byte>): (r: seq<Byte>)
    requires |rec| == RECORD
    ensures |r| == SLOTS
  {
    rec[..SLOTS]
  }

  /** The bitmap of the record has the bit of symbol `s`. */
  predicate Marked(rec: seq<Byte>, s: Byte)
    requires |rec| == RECORD
  {
    TestBit(rec[SLOTS + s / 8], s % 8)
  }

  /** The slots are 32 different symbols, and the bitmap is exactly their set. */
  ghost predicate RecordOk(rec: seq<Byte>) {
    && |rec| == RECORD
    && IsRow(Row(rec))
    && forall s: Byte :: Marked(rec, s) <==> s in Row(rec)
  }

  /** The record with the bit of `s` turned round. */
  function Turned(rec: seq<Byte>, s: Byte): (q: seq<Byte>)
    requires |rec| == RECORD
    ensures |q| == RECORD && Row(q) == Row(rec)
  {
    rec[SLOTS + s / 8 := Flip(rec[SLOTS + s / 8], s % 8)]
  }

  lemma TurnedMarks(rec: seq<Byte>, s: Byte, z: Byte)
    requires |rec| == RECORD
    ensures Marked(Turned(rec, s), z) == if z == s then !Marked(rec, z) else Marked(rec, z)
  {
    if z / 8 == s / 8 && z != s {
      assert z == z / 8 * 8 + z % 8 && s == s / 8 * 8 + s % 8;
      FlippedElsewhere(rec[SLOTS + s / 8], s % 8, z % 8);
    }
  }

  function Refilled(rec: seq<Byte>, r: seq<Byte>): (q: seq<Byte>)
    requires |rec| == RECORD && |r| == SLOTS
    ensures |q| == RECORD && Row(q) == r
  {
    r + rec[SLOTS..]
  }

  lemma RefilledMarks(rec: seq<Byte>, r: seq<Byte>, z: Byte)
    requires |rec| == RECORD && |r| == SLOTS
    ensures Marked(Refilled(rec, r), z) == Marked(rec, z)
  {
  }

  /** What inserting an absent symbol makes of a record: one bit out, one bit in, slots shifted. */
  function Renewed(rec: seq<Byte>, s: Byte): (q: seq<Byte>)
    requires |rec| == RECORD
    ensures |q| == RECORD && Row(q) == Inserted(Row(rec), s)
  {
    Refilled(Turned(Turned(rec, rec[31]), s), Inserted(Row(rec), s))
  }

  lemma RenewedOk(rec: seq<Byte>, s: Byte)
    requires RecordOk(rec) && s !in Row(rec)
    ensures RecordOk(Renewed(rec, s))
  {
    InsertedKeeps(Row(rec), s);
    var out := Turned(rec, rec[31]);
    var both := Turned(out, s);
    assert Row(rec)[31] == rec[31];
    forall z: Byte
      ensures Marked(Renewed(rec, s), z) <==> z in Row(Renewed(rec, s))
    {
      TurnedMarks(rec, rec[31], z);
      TurnedMarks(out, s, z);
      RefilledMarks(both, Inserted(Row(rec), s), z);
    }
  }

  lemma RefilledOk(rec: seq<Byte>, i: nat)
    requires RecordOk(rec) && i < SLOTS
    ensures RecordOk(Refilled(rec, Promoted(Row(rec), i)))
  {
    PromotedKeeps(Row(rec), i);
    forall z: Byte
      ensures Marked(Refilled(rec, Promoted(Row(rec), i)), z) <==> z in Promoted(Row(rec), i)
    {
      RefilledMarks(rec, Promoted(Row(rec), i), z);
    }
  }

  /** A record is known by its slots: the bitmap holds nothing else. */
  lemma RecordIsItsRow(a: seq<Byte>, b: seq<Byte>)
    requires RecordOk(a) && RecordOk(b) && Row(a) == Row(b)
    ensures a == b
  {
    forall i | SLOTS <= i < RECORD
      ensures a[i] == b[i]
    {
      forall k: nat | k < 8
        ensures TestBit(a[i], k) == TestBit(b[i], k)
      {
        var s: Byte := (i - SLOTS) * 8 + k;
        assert s / 8 == i - SLOTS && s % 8 == k;
        assert Marked(a, s) == Marked(b, s);
      }
      BitsMakeNumber(a[i], b[i], 8);
    }
    assert forall i | 0 <= i < SLOTS :: a[i] == Row(a)[i] && b[i] == Row(b)[i];
  }

  // ---- the table

  function Record(t: seq<Byte>, c: Byte): (rec: seq<Byte>)
    requires |t| == TABLE
    ensures |rec| == RECORD
  {
    t[RECORD * c..RECORD * c + RECORD]
  }

  ghost predicate TableOk(t: seq<Byte>) {
    |t| == TABLE && forall c: Byte :: RecordOk(Record(t, c))
  }

  /** The table as the codec thinks of it: a row of symbols for each previous byte. */
  function Rows(t: seq<Byte>): (rows: seq<seq<Byte>>)
    requires |t| == TABLE
    ensures |rows| == CONTEXTS
    ensures forall c: Byte :: rows[c] == Row(Record(t, c))
  {
    seq(CONTEXTS, c requires 0 <= c < CONTEXTS => Row(Record(t, c)))
  }

  ghost predicate RowsOk(rows: seq<seq<Byte>>) {
    |rows| == CONTEXTS && forall c: Byte :: IsRow(rows[c])
  }

  /** Two tables with the same rows are the same bytes. */
  lemma TableIsItsRows(t: seq<Byte>, u: seq<Byte>)
    requires TableOk(t) && TableOk(u) && Rows(t) == Rows(u)
    ensures t == u
  {
    forall i | 0 <= i < TABLE
      ensures t[i] == u[i]
    {
      var c: Byte, j := i / RECORD, i % RECORD;
      assert Rows(t)[c] == Rows(u)[c];
      RecordIsItsRow(Record(t, c), Record(u, c));
      assert t[i] == Record(t, c)[j] && u[i] == Record(u, c)[j];
    }
  }

  function Patched(t: seq<Byte>, c: Byte, rec: seq<Byte>): (u: seq<Byte>)
    requires |t| == TABLE && |rec| == RECORD
    ensures |u| == TABLE
  {
    t[..RECORD * c] + rec + t[RECORD * c + RECORD..]
  }

  lemma PatchedRecord(t: seq<Byte>, c: Byte, rec: seq<Byte>, d: Byte)
    requires |t| == TABLE && |rec| == RECORD
    ensures Record(Patched(t, c, rec), d) == if d == c then rec else Record(t, d)
  {
    var u := Patched(t, c, rec);
    if d < c {
      assert RECORD * d + RECORD <= RECORD * c;
    } else if d > c {
      assert RECORD * c + RECORD <= RECORD * d;
    }
  }

  lemma PatchedTable(t: seq<Byte>, c: Byte, rec: seq<Byte>)
    requires TableOk(t) && RecordOk(rec)
    ensures TableOk(Patched(t, c, rec))
    ensures Rows(Patched(t, c, rec)) == Rows(t)[c := Row(rec)]
  {
    forall d: Byte
      ensures RecordOk(Record(Patched(t, c, rec), d))
      ensures Rows(Patched(t, c, rec))[d] == Rows(t)[c := Row(rec)][d]
    {
      PatchedRecord(t, c, rec, d);
    }
  }
}

/**
 The operations on the table, in place: the two of the decoder (a coded byte, a predicted
 symbol) and the encoder's search and update.
 */
module LiteralContexts {
  import opened Words
  import opened LiteralRows
  import opened LiteralTable

  /** The rows after symbol `s` in context `c`, whichever side and whichever way it went. */
  ghost function After(rows: seq<seq<Byte>>, c: Byte, s: Byte): (q: seq<seq<Byte>>)
    requires RowsOk(rows)
    ensures RowsOk(q)
  {
    PlacedKeeps(rows[c], s);
    rows[c := Placed(rows[c], s)]
  }

  /** The table is in order; out of sight until `Look(Spot, 0)`. */
  ghost predicate Usable(table: array<Byte>)
    reads table
  {
    table.Length == TABLE && forall z {:trigger Look(Spot, z)} :: Look(Spot, z) ==> TableOk(table[..])
  }

  method InitTable(table: array<Byte>)
    requires table.Length == TABLE
    modifies table
    ensures Usable(table)
    ensures forall c: Byte :: Rows(table[..])[c] == Identity()
  {
    for c := 0 to CONTEXTS
      invariant forall d: Byte | d < c :: Record(table[..], d) == Fresh()
    {
      FillRecord(table, c);
    }
    FreshOk();
    forall c: Byte
      ensures RecordOk(Record(table[..], c)) && Rows(table[..])[c] == Identity()
    {
      assert Record(table[..], c) == Fresh();
    }
  }

  function FreshByte(i: nat): Byte {
    if i < SLOTS then i else if i < SLOTS + 4 then 0xff else 0
  }

  function Fresh(): (rec: seq<Byte>)
    ensures |rec| == RECORD && forall i | 0 <= i < RECORD :: rec[i] == FreshByte(i)
  {
    seq(RECORD, i requires 0 <= i < RECORD => FreshByte(i))
  }

  lemma {:induction false} AllOnes(x: nat, n: nat, k: nat)
    requires x == IntCoding.Pow2(n) - 1
    ensures TestBit(x, k) <==> k < n
    decreases k
  {
    if n > 0 && k > 0 {
      AllOnes(x / 2, n - 1, k - 1);
    } else if k > 0 {
      AllOnes(x / 2, 0, k - 1);
    }
  }

  lemma FreshOk()
    ensures RecordOk(Fresh()) && Row(Fresh()) == Identity()
  {
    IdentityIsRow();
    assert Row(Fresh()) == Identity();
    forall s: Byte
      ensures Marked(Fresh(), s) <==> s in Identity()
    {
      AllOnes(0xff, 8, s % 8);
      AllOnes(0, 0, s % 8);
    }
  }

  method FillRecord(table: array<Byte>, c: Byte)
    requires table.Length == TABLE
    modifies table
    ensures Record(table[..], c) == Fresh()
    ensures forall d: Byte | d < c :: Record(table[..], d) == Record(old(table[..]), d)
  {
    var at := RECORD * c;
    ghost var was := table[..];
    for i := 0 to RECORD
      invariant forall j | 0 <= j < at :: table[j] == was[j]
      invariant forall j | 0 <= j < i :: table[at + j] == FreshByte(j)
    {
      table[at + i] := FreshByte(i);
    }
    forall d: Byte | d < c
      ensures Record(table[..], d) == Record(was, d)
    {
      assert RECORD * d + RECORD <= at;
    }
  }

  // ---- in place

  /** Turns the bit of symbol `s` round in the record of context `c`. */
  method TurnBit(table: array<Byte>, c: Byte, s: Byte)
    requires table.Length == TABLE
    modifies table
    ensures table[..] == Patched(old(table[..]), c, Turned(Record(old(table[..]), c), s))
  {
    var i := RECORD * c + SLOTS + s / 8;
    ghost var rec := Record(table[..], c);
    assert rec[SLOTS + s / 8] == table[i];
    table[i] := Flip(table[i], s % 8);
  }

  method SetBit(table: array<Byte>, c: Byte, s: Byte)
    requires table.Length == TABLE
    modifies table
    ensures var rec := Record(old(table[..]), c);
            table[..] == Patched(old(table[..]), c, if Marked(rec, s) then rec else Turned(rec, s))
  {
    ghost var rec := Record(table[..], c);
    assert rec[SLOTS + s / 8] == table[RECORD * c + SLOTS + s / 8];
    if !TestBit(table[RECORD * c + SLOTS + s / 8], s % 8) {
      TurnBit(table, c, s);
    }
    assert table[..] == old(table[..]) ==> table[..] == Patched(old(table[..]), c, rec);
  }

  method ClearBit(table: array<Byte>, c: Byte, s: Byte)
    requires table.Length == TABLE
    modifies table
    ensures var rec := Record(old(table[..]), c);
            table[..] == Patched(old(table[..]), c, if Marked(rec, s) then Turned(rec, s) else rec)
  {
    ghost var rec := Record(table[..], c);
    assert rec[SLOTS + s / 8] == table[RECORD * c + SLOTS + s / 8];
    if TestBit(table[RECORD * c + SLOTS + s / 8], s % 8) {
      TurnBit(table, c, s);
    }
    assert table[..] == old(table[..]) ==> table[..] == Patched(old(table[..]), c, rec);
  }

  lemma IsPatched(u: seq<Byte>, t: seq<Byte>, c: Byte, rec: seq<Byte>)
    requires |u| == TABLE && |t| == TABLE && |rec| == RECORD
    requires forall j | 0 <= j < TABLE && !(RECORD * c <= j < RECORD * c + RECORD) :: u[j] == t[j]
    requires forall k | 0 <= k < RECORD :: u[RECORD * c + k] == rec[k]
    ensures u == Patched(t, c, rec)
  {
    assert u[RECORD * c..RECORD * c + RECORD] == rec;
  }

  /** Slots 16 to 30 move down by one, and `s` takes slot 16. */
  method ShiftIn(table: array<Byte>, c: Byte, s: Byte)
    requires table.Length == TABLE
    modifies table
    ensures var rec := Record(old(table[..]), c);
            table[..] == Patched(old(table[..]), c, Refilled(rec, Inserted(Row(rec), s)))
  {
    var at := RECORD * c;
    ghost var was := table[..];
    var i := 31;
    while i != 16
      invariant 16 <= i <= 31
      invariant forall j | 0 <= j < TABLE && !(at + i < j <= at + 31) :: table[j] == was[j]
      invariant forall j | at + i < j <= at + 31 :: table[j] == was[j - 1]
    {
      table[at + i] := table[at + i - 1];
      i := i - 1;
    }
    table[at + 16] := s;
    ghost var rec := Record(was, c);
    forall k | 0 <= k < RECORD
      ensures table[at + k] == Refilled(rec, Inserted(Row(rec), s))[k]
    {
      assert rec[k] == was[at + k];
      if 16 < k <= 31 {
        assert table[at + k] == was[at + k - 1] == rec[k - 1];
      }
    }
    IsPatched(table[..], was, c, Refilled(rec, Inserted(Row(rec), s)));
  }

  lemma PatchedTwice(t: seq<Byte>, c: Byte, a: seq<Byte>, b: seq<Byte>)
    requires |t| == TABLE && |a| == RECORD && |b| == RECORD
    ensures Patched(Patched(t, c, a), c, b) == Patched(t, c, b)
    ensures Record(Patched(t, c, a), c) == a
  {
    PatchedRecord(t, c, a, c);
  }

  /** Slot `i` takes the symbol of its target, and the target takes its symbol. */
  method Exchange(table: array<Byte>, c: Byte, i: nat)
    requires table.Length == TABLE && i < SLOTS
    modifies table
    ensures var rec := Record(old(table[..]), c);
            table[..] == Patched(old(table[..]), c, Refilled(rec, Promoted(Row(rec), i)))
  {
    var at, j := RECORD * c, Target(i);
    ghost var was, rec := table[..], Record(table[..], c);
    assert rec[i] == was[at + i] && rec[j] == was[at + j];
    table[at + i], table[at + j] := table[at + j], table[at + i];
    forall k | 0 <= k < RECORD
      ensures table[at + k] == Refilled(rec, Promoted(Row(rec), i))[k]
    {
      assert rec[k] == was[at + k];
    }
    IsPatched(table[..], was, c, Refilled(rec, Promoted(Row(rec), i)));
  }

  /** Moves slot `i` of context `c` up to its target. */
  method MoveUp(table: array<Byte>, c: Byte, i: nat)
    requires Usable(table) && i < SLOTS
    modifies table
    ensures Usable(table)
    ensures Rows(table[..]) == Rows(old(table[..]))[c := Promoted(Rows(old(table[..]))[c], i)]
  {
    assert Look(Spot, 0);
    ghost var was, rec := table[..], Record(table[..], c);
    Exchange(table, c, i);
    RefilledOk(rec, i);
    PatchedTable(was, c, Refilled(rec, Promoted(Row(rec), i)));
  }

  /** `InsertNew`: only ever called for a symbol that is not in the row. */
  method InsertNew(table: array<Byte>, c: Byte, s: Byte)
    requires Usable(table) && s !in Rows(table[..])[c]
    modifies table
    ensures Usable(table)
    ensures Rows(table[..]) == Rows(old(table[..]))[c := Inserted(Rows(old(table[..]))[c], s)]
  {
    assert Look(Spot, 0);
    ghost var was, rec := table[..], Record(table[..], c);
    var evict := table[RECORD * c + 31];
    assert evict == Row(rec)[31];
    assert Marked(rec, evict);
    ClearBit(table, c, evict);
    ghost var out := Turned(rec, evict);
    PatchedTwice(was, c, out, rec);
    TurnedMarks(rec, evict, s);
    SetBit(table, c, s);
    ghost var both := Turned(out, s);
    PatchedTwice(was, c, out, both);
    PatchedTwice(was, c, both, rec);
    ShiftIn(table, c, s);
    PatchedTwice(was, c, both, Renewed(rec, s));
    RenewedOk(rec, s);
    PatchedTable(was, c, Renewed(rec, s));
  }

  // ---- the decoder

  /** The slot of `s`, or 32 when no slot holds it. */
  method FindSlot(table: array<Byte>, c: Byte, s: Byte) returns (i: nat)
    requires Usable(table)
    ensures i <= SLOTS
    ensures if s in Rows(table[..])[c] then i < SLOTS && Rows(table[..])[c][i] == s else i == SLOTS
  {
    ghost var r := Rows(table[..])[c];
    i := 0;
    while i < SLOTS && table[RECORD * c + i] != s
      invariant i <= SLOTS
      invariant forall j | 0 <= j < i :: r[j] != s
    {
      assert r[i] == table[RECORD * c + i];
      i := i + 1;
    }
    assert i < SLOTS ==> r[i] == table[RECORD * c + i];
  }

  method IsMarked(table: array<Byte>, c: Byte, s: Byte) returns (yes: bool)
    requires Usable(table)
    ensures yes <==> s in Rows(table[..])[c]
  {
    assert Look(Spot, 0);
    ghost var rec := Record(table[..], c);
    assert rec[SLOTS + s / 8] == table[RECORD * c + SLOTS + s / 8];
    yes := TestBit(table[RECORD * c + SLOTS + s / 8], s % 8);
    assert yes == Marked(rec, s);
  }

  /** The search: while the byte is itself a symbol of the row, its slot number is tried next. */
  method Chase(table: array<Byte>, c: Byte, b: Byte) returns (s: Byte)
    requires Usable(table) && b >= SLOTS
    ensures s !in Rows(table[..])[c] && Sends(Rows(table[..])[c], b, s)
  {
    assert Look(Spot, 0);
    ghost var r := Rows(table[..])[c];
    ghost var p := [b];
    assert IsRow(r) by {
      assert RecordOk(Record(table[..], c));
    }
    s := b;
    var marked := IsMarked(table, c, s);
    while marked
      invariant marked <==> s in r
      invariant IsWalk(r, p) && p[0] == s && p[|p| - 1] == b
      decreases SLOTS + 1 - |p|
    {
      var i := FindSlot(table, c, s);
      p := Longer(r, p, i);
      s := i;
      marked := IsMarked(table, c, s);
    }
    assert IsChase(r, p);
  }

  /** One step of the search; a walk cannot grow for ever. */
  ghost method Longer(r: seq<Byte>, p: seq<Byte>, i: nat) returns (q: seq<Byte>)
    requires IsRow(r) && IsWalk(r, p) && p[|p| - 1] >= SLOTS
    requires i < SLOTS && r[i] == p[0]
    ensures IsWalk(r, q) && q[0] == i && q[|q| - 1] == p[|p| - 1]
    ensures |p| < |q| <= SLOTS + 1
  {
    q := [i as Byte] + p;
    assert forall k | 1 <= k < |p| :: Follows(r, p, k - 1) ==> Follows(r, q, k);
    WalkIsShort(r, q);
  }

  /** A coded literal: `RawDecodeAndUpdate`. */
  method DecodeCoded(table: array<Byte>, c: Byte, b: Byte) returns (s: Byte)
    requires Usable(table)
    modifies table
    ensures Usable(table)
    ensures Sends(Rows(old(table[..]))[c], b, s)
    ensures RowsOk(Rows(old(table[..])))
    ensures Rows(table[..]) == After(Rows(old(table[..])), c, s)
  {
    ghost var r := Rows(table[..])[c];
    TableHasRows(table);
    if b < SLOTS {
      s := table[RECORD * c + b];
      assert r[b] == s;
      CodeTellsPresence(r, b, s);
      if b == 0 {
        assert Promoted(r, 0) == r;
        assert Rows(table[..]) == Rows(table[..])[c := r];
      } else {
        MoveUp(table, c, b);
      }
    } else {
      s := Chase(table, c, b);
      InsertNew(table, c, s);
    }
  }

  lemma TableHasRows(table: array<Byte>)
    requires Usable(table)
    ensures RowsOk(Rows(table[..]))
  {
    assert Look(Spot, 0);
    forall c: Byte
      ensures IsRow(Rows(table[..])[c])
    {
      assert RecordOk(Record(table[..], c));
    }
  }

  /** A predicted literal: `EmitPredictorSymbol`. Its update is that of the same symbol coded. */
  method DecodePredicted(table: array<Byte>, c: Byte, s: Byte)
    requires Usable(table)
    modifies table
    ensures Usable(table)
    ensures RowsOk(Rows(old(table[..])))
    ensures Rows(table[..]) == After(Rows(old(table[..])), c, s)
  {
    ghost var r := Rows(table[..])[c];
    TableHasRows(table);
    var marked := IsMarked(table, c, s);
    if marked {
      var i := FindSlot(table, c, s);
      CodeTellsPresence(r, i, s);
      if i == 0 {
        assert Promoted(r, 0) == r;
        assert Rows(table[..]) == Rows(table[..])[c := r];
      } else {
        MoveUp(table, c, i);
      }
    } else {
      InsertNew(table, c, s);
    }
  }

  // ---- the encoder

  /** What the literal `s` is sent as. */
  method CodeOf(table: array<Byte>, c: Byte, s: Byte) returns (b: Byte)
    requires Usable(table)
    ensures Sends(Rows(table[..])[c], b, s)
  {
    ghost var r := Rows(table[..])[c];
    TableHasRows(table);
    var marked := IsMarked(table, c, s);
    if marked {
      b := FindSlot(table, c, s);
    } else {
      ghost var p := [s];
      b := s;
      while b < SLOTS
        invariant IsWalk(r, p) && p[0] == s && p[|p| - 1] == b
        decreases SLOTS + 1 - |p|
      {
        assert r[b] == table[RECORD * c + b];
        p := Farther(r, p);
        b := table[RECORD * c + b];
      }
      assert IsChase(r, p);
    }
  }

  ghost method Farther(r: seq<Byte>, p: seq<Byte>) returns (q: seq<Byte>)
    requires IsRow(r) && IsWalk(r, p) && p[0] !in r && p[|p| - 1] < SLOTS
    ensures IsWalk(r, q) && q[0] == p[0] && q[|q| - 1] == r[p[|p| - 1]]
    ensures |p| < |q| <= SLOTS + 1
  {
    q := p + [r[p[|p| - 1]]];
    assert forall k | 0 <= k < |p| - 1 :: Follows(r, p, k) ==> Follows(r, q, k);
    WalkIsShort(r, q);
  }

  /** The encoder's update, by the code it has just found: here the bit of the evicted symbol is
      turned round rather than cleared. */
  method Update(table: array<Byte>, c: Byte, s: Byte, b: Byte)
    requires Usable(table) && Sends(Rows(table[..])[c], b, s)
    modifies table
    ensures Usable(table)
    ensures RowsOk(Rows(old(table[..])))
    ensures Rows(table[..]) == After(Rows(old(table[..])), c, s)
  {
    assert Look(Spot, 0);
    ghost var r := Rows(table[..])[c];
    TableHasRows(table);
    CodeTellsPresence(r, b, s);
    if b < SLOTS {
      if b == 0 {
        assert Promoted(r, 0) == r;
        assert Rows(table[..]) == Rows(table[..])[c := r];
      } else {
        MoveUp(table, c, b);
      }
    } else {
      ghost var was, rec := table[..], Record(table[..], c);
      var evict := table[RECORD * c + 31];
      assert evict == Row(rec)[31];
      TurnBit(table, c, evict);
      ghost var out := Turned(rec, evict);
      PatchedTwice(was, c, out, rec);
      TurnedMarks(rec, evict, s);
      SetBit(table, c, s);
      ghost var both := Turned(out, s);
      PatchedTwice(was, c, out, both);
      PatchedTwice(was, c, both, rec);
      ShiftIn(table, c, s);
      PatchedTwice(was, c, both, Renewed(rec, s));
      RenewedOk(rec, s);
      PatchedTable(was, c, Renewed(rec, s));
    }
  }
}
