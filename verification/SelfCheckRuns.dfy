/** The self-check's runs: pieces of files, in any order, joined into one description per file (nzr::selfcheck::Runs). */
module SelfCheckRuns {
  import opened Words
  import opened Crc64Math
  import opened Crc64Check

  /** A piece of a stored file. */
  datatype Item = Item(name: string, off: nat, len: nat, crc: Word)

  datatype Run = Run(off: nat, len: nat, crc: Word)

  // ---------------------------------------------------------------- the order of items

  predicate NameAtMost(a: string, b: string) {
    a == [] || (b != [] && (a[0] < b[0] || (a[0] == b[0] && NameAtMost(a[1..], b[1..]))))
  }

  /** By name, then by place, length and CRC. */
  predicate AtMost(a: Item, b: Item) {
    if a.name != b.name then NameAtMost(a.name, b.name)
    else if a.off != b.off then a.off < b.off
    else if a.len != b.len then a.len < b.len
    else Value(a.crc) <= Value(b.crc)
  }

  lemma {:induction false} NamesOrdered(a: string, b: string, c: string)
    ensures NameAtMost(a, b) || NameAtMost(b, a)
    ensures NameAtMost(a, b) && NameAtMost(b, a) ==> a == b
    ensures NameAtMost(a, b) && NameAtMost(b, c) ==> NameAtMost(a, c)
    decreases |a| + |b| + |c|
  {
    if a != [] && b != [] {
      NamesOrdered(a[1..], b[1..], if c == [] then c else c[1..]);
      if a[0] == b[0] && a[1..] == b[1..] { assert a == [a[0]] + a[1..] && b == [b[0]] + b[1..]; }
    }
  }

  lemma Ordered(a: Item, b: Item, c: Item)
    ensures AtMost(a, b) || AtMost(b, a)
    ensures AtMost(a, b) && AtMost(b, c) ==> AtMost(a, c)
  {
    NamesOrdered(a.name, b.name, c.name);
    NamesOrdered(b.name, c.name, a.name);
  }

  ghost predicate Sorted(s: seq<Item>) {
    forall i, j :: 0 <= i < j < |s| ==> AtMost(s[i], s[j])
  }

  method SortItems(items: seq<Item>) returns (s: seq<Item>)
    ensures Sorted(s) && multiset(s) == multiset(items)
  {
    s := [];
    for i := 0 to |items|
      invariant Sorted(s) && multiset(s) == multiset(items[..i])
    {
      s := InsertItem(s, items[i]);
      assert items[..i + 1] == items[..i] + [items[i]];
    }
    assert items[..|items|] == items;
  }

  method InsertItem(s: seq<Item>, x: Item) returns (r: seq<Item>)
    requires Sorted(s)
    ensures Sorted(r) && multiset(r) == multiset(s) + multiset{x}
  {
    var k: nat := |s|;
    while k > 0 && !AtMost(s[k - 1], x)
      invariant k <= |s| && forall j :: k <= j < |s| ==> AtMost(x, s[j])
    {
      Ordered(s[k - 1], x, x);
      k := k - 1;
    }
    r := s[..k] + [x] + s[k..];
    forall i, j | 0 <= i < j < |r| ensures AtMost(r[i], r[j]) {
      if i < k { Ordered(s[i], s[k - 1], x); }
    }
    assert s == s[..k] + s[k..];
  }

  // ---------------------------------------------------------------- runs

  function Joined(a: Word, b: Word, len: nat): Word {
    if len == 0 then a else Xor(Shift(a, 8 * len), b)
  }

  /** The item extends the first run that ends where it starts, or opens one. */
  function Extend(rs: seq<Run>, it: Item): (r: seq<Run>)
  {
    if rs == [] then [Run(it.off, it.len, it.crc)]
    else if rs[0].off + rs[0].len == it.off && it.len != 0 then
      [Run(rs[0].off, rs[0].len + it.len, Joined(rs[0].crc, it.crc, it.len))] + rs[1..]
    else [rs[0]] + Extend(rs[1..], it)
  }

  /** The runs of one name. */
  function RunsOf(items: seq<Item>, name: string): seq<Run> {
    if items == [] then []
    else
      var last := items[|items| - 1];
      var rs := RunsOf(items[..|items| - 1], name);
      if last.name == name then Extend(rs, last) else rs
  }

  method ExtendRuns(rs: seq<Run>, it: Item) returns (r: seq<Run>)
    ensures r == Extend(rs, it)
  {
    for k := 0 to |rs|
      invariant Extend(rs, it) == rs[..k] + Extend(rs[k..], it)
    {
      ExtendFrom(rs, k, it);
      if rs[k].off + rs[k].len == it.off && it.len != 0 {
        var crc := Combine(rs[k].crc, it.crc, it.len);
        return rs[..k] + [Run(rs[k].off, rs[k].len + it.len, crc)] + rs[k + 1..];
      }
    }
    assert rs[|rs|..] == [] && rs[..|rs|] == rs;
    r := rs + [Run(it.off, it.len, it.crc)];
  }

  lemma ExtendFrom(rs: seq<Run>, k: nat, it: Item)
    requires k < |rs|
    ensures rs[..k] + Extend(rs[k..], it)
      == if rs[k].off + rs[k].len == it.off && it.len != 0 then
        rs[..k] + [Run(rs[k].off, rs[k].len + it.len, Joined(rs[k].crc, it.crc, it.len))] + rs[k + 1..]
      else rs[..k + 1] + Extend(rs[k + 1..], it)
  {
    assert rs[k..][1..] == rs[k + 1..] && rs[..k + 1] == rs[..k] + [rs[k]];
  }

  predicate RunAtMost(a: Run, b: Run) {
    if a.off != b.off then a.off < b.off
    else if a.len != b.len then a.len < b.len
    else Value(a.crc) <= Value(b.crc)
  }

  ghost predicate RunsSorted(s: seq<Run>) {
    forall i, j :: 0 <= i < j < |s| ==> RunAtMost(s[i], s[j])
  }

  method SortRuns(rs: seq<Run>) returns (s: seq<Run>)
    ensures multiset(s) == multiset(rs) && RunsSorted(s)
  {
    s := [];
    for i := 0 to |rs|
      invariant multiset(s) == multiset(rs[..i]) && RunsSorted(s)
    {
      s := InsertRun(s, rs[i]);
      assert rs[..i + 1] == rs[..i] + [rs[i]];
    }
    assert rs[..|rs|] == rs;
  }

  method InsertRun(s: seq<Run>, x: Run) returns (r: seq<Run>)
    requires RunsSorted(s)
    ensures RunsSorted(r) && multiset(r) == multiset(s) + multiset{x}
  {
    var k: nat := |s|;
    while k > 0 && !RunAtMost(s[k - 1], x)
      invariant k <= |s| && forall j :: k <= j < |s| ==> RunAtMost(x, s[j])
    {
      k := k - 1;
    }
    r := s[..k] + [x] + s[k..];
    forall i, j | 0 <= i < j < |r| ensures RunAtMost(r[i], r[j]) {
      if i < k { assert i < k - 1 ==> RunAtMost(s[i], s[k - 1]); }
    }
    assert s == s[..k] + s[k..];
  }

  lemma {:induction false} ExtendIsRuns(rs: seq<Run>, it: Item)
    ensures Extend(rs, it) != []
  {
  }

  lemma RunsStep(s: seq<Item>, i: nat, name: string)
    requires i < |s|
    ensures RunsOf(s[..i + 1], name) == if s[i].name == name then Extend(RunsOf(s[..i], name), s[i]) else RunsOf(s[..i], name)
  {
    assert s[..i + 1][..i] == s[..i];
  }

  /** The runs collected from the first `i` items. */
  ghost predicate Collected(out: map<string, seq<Run>>, s: seq<Item>, i: nat)
    requires i <= |s|
  {
    && (forall name :: name in out ==> out[name] != [] && out[name] == RunsOf(s[..i], name))
    && forall name :: RunsOf(s[..i], name) != [] ==> name in out
  }

  lemma CollectOne(out: map<string, seq<Run>>, s: seq<Item>, i: nat)
    requires i < |s| && Collected(out, s, i)
    ensures Collected(out[s[i].name := Extend(if s[i].name in out then out[s[i].name] else [], s[i])], s, i + 1)
  {
    var it := s[i];
    var out' := out[it.name := Extend(if it.name in out then out[it.name] else [], it)];
    var j := i + 1;
    forall name | name in out' ensures out'[name] != [] && out'[name] == RunsOf(s[..j], name) {
      RunsStep(s, i, name);
      ExtendIsRuns(if it.name in out then out[it.name] else [], it);
    }
    forall name | RunsOf(s[..j], name) != [] ensures name in out' {
      RunsStep(s, i, name);
    }
  }

  /** The runs of every name, sorted. */
  method Runs(items: seq<Item>) returns (out: map<string, seq<Run>>, ghost order: seq<Item>)
    ensures Sorted(order) && multiset(order) == multiset(items)
    ensures forall name :: name in out <==> RunsOf(order, name) != []
    ensures forall name :: name in out ==> RunsSorted(out[name]) && multiset(out[name]) == multiset(RunsOf(order, name))
  {
    var s := SortItems(items);
    order := s;
    out := map[];
    for i := 0 to |s|
      invariant Collected(out, s, i)
    {
      var it := s[i];
      CollectOne(out, s, i);
      var rs := ExtendRuns(if it.name in out then out[it.name] else [], it);
      out := out[it.name := rs];
    }
    assert s[..|s|] == s;
    out := SortAll(out);
  }

  method SortAll(runs: map<string, seq<Run>>) returns (out: map<string, seq<Run>>)
    ensures out.Keys == runs.Keys
    ensures forall name :: name in out ==> RunsSorted(out[name]) && multiset(out[name]) == multiset(runs[name])
  {
    out := map[];
    var left := runs.Keys;
    while left != {}
      invariant left <= runs.Keys && out.Keys == runs.Keys - left
      invariant forall name :: name in out ==> RunsSorted(out[name]) && multiset(out[name]) == multiset(runs[name])
      decreases |left|
    {
      var name :| name in left;
      var sorted := SortRuns(runs[name]);
      out := out[name := sorted];
      left := left - {name};
    }
  }

  // ---------------------------------------------------------------- a file in pieces

  function Whole(parts: seq<seq<Byte>>): seq<Byte> {
    if parts == [] then [] else Whole(parts[..|parts| - 1]) + parts[|parts| - 1]
  }

  /** A file as consecutive pieces. */
  function Pieces(name: string, parts: seq<seq<Byte>>): (s: seq<Item>)
    ensures |s| == |parts|
  {
    if parts == [] then []
    else
      var last := parts[|parts| - 1];
      Pieces(name, parts[..|parts| - 1]) + [Item(name, |Whole(parts[..|parts| - 1])|, |last|, Of(last))]
  }

  /** Consecutive pieces make one run with the whole file's CRC. */
  lemma {:induction false} PiecesJoin(name: string, parts: seq<seq<Byte>>)
    requires parts != [] && forall i :: 0 <= i < |parts| ==> parts[i] != []
    ensures RunsOf(Pieces(name, parts), name) == [Run(0, |Whole(parts)|, Of(Whole(parts)))]
  {
    var init, last := parts[..|parts| - 1], parts[|parts| - 1];
    var all, item := Pieces(name, parts), Item(name, |Whole(init)|, |last|, Of(last));
    assert all[..|all| - 1] == Pieces(name, init) && all[|all| - 1] == item;
    if init == [] {
      assert Whole(parts) == last;
    } else {
      PiecesJoin(name, init);
      OneRunGrows(Whole(init), last, item);
    }
  }

  lemma OneRunGrows(a: seq<Byte>, b: seq<Byte>, item: Item)
    requires b != [] && item.off == |a| && item.len == |b| && item.crc == Of(b)
    ensures Extend([Run(0, |a|, Of(a))], item) == [Run(0, |a + b|, Of(a + b))]
  {
    CrcJoins(a, b);
  }

  function OfName(s: seq<Item>, name: string): (r: seq<Item>)
    ensures forall i :: 0 <= i < |r| ==> r[i].name == name && r[i] in s
  {
    if s == [] then []
    else
      var last := s[|s| - 1];
      OfName(s[..|s| - 1], name) + if last.name == name then [last] else []
  }

  lemma {:induction false} OfNameCounts(s: seq<Item>, name: string, x: Item)
    ensures multiset(OfName(s, name))[x] == if x.name == name then multiset(s)[x] else 0
  {
    if s != [] {
      OfNameCounts(s[..|s| - 1], name, x);
      assert s == s[..|s| - 1] + [s[|s| - 1]];
    }
  }

  lemma {:induction false} OfNameSorted(s: seq<Item>, name: string)
    requires Sorted(s)
    ensures Sorted(OfName(s, name))
  {
    if s != [] {
      var init := s[..|s| - 1];
      OfNameSorted(init, name);
      forall i | 0 <= i < |OfName(init, name)| ensures AtMost(OfName(init, name)[i], s[|s| - 1]) {
        var k :| 0 <= k < |init| && init[k] == OfName(init, name)[i];
      }
    }
  }

  lemma {:induction false} RunsOfName(s: seq<Item>, name: string)
    ensures RunsOf(OfName(s, name), name) == RunsOf(s, name)
  {
    if s != [] {
      var init := s[..|s| - 1];
      RunsOfName(init, name);
      var all := OfName(s, name);
      if s[|s| - 1].name == name {
        assert all[..|all| - 1] == OfName(init, name);
      } else {
        assert all == OfName(init, name);
      }
    }
  }

  ghost predicate Rising(s: seq<Item>, name: string) {
    (forall i :: 0 <= i < |s| ==> s[i].name == name) && forall i, j :: 0 <= i < j < |s| ==> s[i].off < s[j].off
  }

  lemma {:induction false} PiecesRise(name: string, parts: seq<seq<Byte>>)
    requires forall i :: 0 <= i < |parts| ==> parts[i] != []
    ensures Rising(Pieces(name, parts), name)
    ensures forall i :: 0 <= i < |parts| ==> Pieces(name, parts)[i].off < |Whole(parts)|
  {
    if parts != [] { PiecesRise(name, parts[..|parts| - 1]); }
  }

  /** There is only one way to sort rising pieces. */
  lemma {:induction false} SortedIsRising(s: seq<Item>, p: seq<Item>, name: string)
    requires Sorted(s) && Rising(p, name) && multiset(s) == multiset(p)
    ensures s == p
    decreases |s|
  {
    assert |s| == |multiset(s)| == |multiset(p)| == |p|;
    if s != [] {
      SameFirst(s, p, name);
      assert s == [s[0]] + s[1..] && p == [p[0]] + p[1..];
      assert multiset(s[1..]) == multiset(s) - multiset{s[0]} == multiset(p[1..]);
      SortedIsRising(s[1..], p[1..], name);
    }
  }

  lemma SameFirst(s: seq<Item>, p: seq<Item>, name: string)
    requires Sorted(s) && Rising(p, name) && multiset(s) == multiset(p) && s != [] && p != []
    ensures s[0] == p[0]
  {
    assert s[0] in multiset(p) && p[0] in multiset(s);
    var i :| 0 <= i < |p| && p[i] == s[0];
    var j :| 0 <= j < |s| && s[j] == p[0];
    assert j > 0 ==> AtMost(s[0], s[j]);
    assert i > 0 ==> p[0].off < p[i].off;
  }

  /**
   However a file's non-empty pieces are shuffled, and whatever other items lie between them, they
   come out as one run from 0 to the file's length with the CRC of the whole file.
   */
  method FileIsOneRun(items: seq<Item>, ghost name: string, ghost parts: seq<seq<Byte>>) returns (out: map<string, seq<Run>>)
    requires parts != [] && forall i :: 0 <= i < |parts| ==> parts[i] != []
    requires multiset(OfName(items, name)) == multiset(Pieces(name, parts))
    ensures name in out && out[name] == [Run(0, |Whole(parts)|, Of(Whole(parts)))]
  {
    ghost var order;
    out, order := Runs(items);
    forall x ensures multiset(OfName(order, name))[x] == multiset(Pieces(name, parts))[x] {
      OfNameCounts(order, name, x);
      OfNameCounts(items, name, x);
    }
    assert multiset(OfName(order, name)) == multiset(Pieces(name, parts));
    PiecesRise(name, parts);
    OfNameSorted(order, name);
    SortedIsRising(OfName(order, name), Pieces(name, parts), name);
    RunsOfName(order, name);
    PiecesJoin(name, parts);
    OneElement(out[name], Run(0, |Whole(parts)|, Of(Whole(parts))));
  }

  lemma OneElement<T>(s: seq<T>, x: T)
    requires multiset(s) == multiset([x])
    ensures s == [x]
  {
    assert |s| == |multiset(s)| == 1;
    assert s[0] in multiset(s);
  }
}
