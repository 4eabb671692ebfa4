/** The counting sort that builds the table of the inverse BWT (NzBwtUntransform). */
module BwtTable {
  import opened Words
  import opened Permutations
  import opened BwtWalk
  import opened StableSort

  /** The first row of every byte value, and the number of rows behind the last. */
  ghost predicate IsCumulative(l: seq<Byte>, c: seq<nat>) {
    |c| == 257 && forall k :: 0 <= k <= 256 ==> c[k] == Less(l, k, |l|)
  }

  /** `entries[k]` is row k's successor, in packed form with row k's byte below it. */
  ghost predicate IsEntries(l: seq<Byte>, table: seq<nat>, packed: bool, entries: seq<nat>) {
    && |entries| == |table| == |l| && InRange(table)
    && forall k :: 0 <= k < |l| ==> entries[k] == Entry(l, table[k], packed)
  }

  method CountBytes(l: seq<Byte>) returns (c: seq<nat>)
    ensures IsCumulative(l, c)
  {
    var count := new nat[256](_ => 0);
    for i := 0 to |l|
      invariant forall b :: 0 <= b < 256 ==> count[b] == Same(l, b, i)
    {
      count[l[i]] := count[l[i]] + 1;
    }
    c := [];
    var sum := 0;
    NoneBelowZero(l, |l|);
    for b := 0 to 256
      invariant |c| == b && sum == Less(l, b, |l|)
      invariant forall k :: 0 <= k < b ==> c[k] == Less(l, k, |l|)
      invariant forall k :: 0 <= k < 256 ==> count[k] == Same(l, k, |l|)
    {
      LessNext(l, b, |l|);
      c := c + [sum];
      sum := sum + count[b];
    }
    c := c + [sum];
  }

  /** The table, by counting sort; entries are packed when asked for. */
  method BuildTable(l: seq<Byte>, c: seq<nat>, packed: bool) returns (entries: array<nat>, ghost table: seq<nat>)
    requires IsCumulative(l, c)
    ensures IsStable(l, table) && IsEntries(l, table, packed, entries[..]) && fresh(entries)
    ensures forall k :: 0 <= k < |l| ==> k == Place(l, table[k])
  {
    ghost var places := Places(l);
    PlacesPerm(l);
    entries := new nat[|l|](_ => 0);
    var next := new nat[256](b requires 0 <= b < 256 => c[b]);
    for i := 0 to |l|
      invariant |l| == entries.Length
      invariant forall b :: 0 <= b < 256 ==> next[b] == Less(l, b, |l|) + Same(l, b, i)
      invariant forall j :: 0 <= j < i ==> entries[places[j]] == Entry(l, j, packed)
    {
      var slot := next[l[i]];
      assert slot == places[i];
      entries[slot] := if packed then i * 256 + l[i] else i;
      next[l[i]] := slot + 1;
    }
    table := FromPlaced(l, entries[..], packed);
  }

  function Entry(l: seq<Byte>, i: nat, packed: bool): nat
    requires i < |l|
  {
    if packed then i * 256 + l[i] else i
  }

  lemma FromPlaced(l: seq<Byte>, entries: seq<nat>, packed: bool) returns (table: seq<nat>)
    requires |entries| == |l| && IsPerm(Places(l))
    requires forall i :: 0 <= i < |l| ==> entries[Places(l)[i]] == Entry(l, i, packed)
    ensures IsStable(l, table) && IsEntries(l, table, packed, entries)
    ensures forall k :: 0 <= k < |l| ==> k == Place(l, table[k])
  {
    var places := Places(l);
    table := seq(|l|, k requires 0 <= k < |l| => if packed then entries[k] / 256 else entries[k]);
    forall i | 0 <= i < |l| ensures table[places[i]] == i {
      assert entries[places[i]] == Entry(l, i, packed);
    }
    PlacedIsStable(l, table);
    forall k | 0 <= k < |l| ensures entries[k] == Entry(l, table[k], packed) {
      assert places[table[k]] == k;
    }
  }

  /** Binary search of the byte whose rows hold `pos`. */
  method SymOf(c: seq<nat>, pos: nat, ghost l: seq<Byte>, ghost table: seq<nat>) returns (s: Byte)
    requires IsCumulative(l, c) && |table| == |l| && InRange(table) && pos < |l| && pos == Place(l, table[pos])
    ensures s == l[table[pos]]
  {
    ghost var i: nat, b: nat := table[pos], l[table[pos]];
    PlaceIn(l, i, b);
    var x: nat, k: nat := 0, 128;
    ghost var span := 256;
    while k > 0
      invariant span == 2 * k || (k == 0 && span == 1)
      invariant span in {1, 2, 4, 8, 16, 32, 64, 128, 256} && x + span <= 256
      invariant x <= b < x + span
    {
      LessMonotone(l, b + 1, x + k, |l|);
      LessMonotone(l, x + k, b, |l|);
      if pos >= c[x + k] { x := x + k; }
      span := k;
      k := k / 2;
    }
    s := x;
  }
}
