/** Bytes that agree at two places, and the little-endian words by which the match finders compare them. */
module Matching {
  import opened Words

  /** `n` bytes at `a` and at `b` are the same. */
  ghost predicate Same(s: seq<Byte>, a: nat, b: nat, n: nat) {
    a + n <= |s| && b + n <= |s| && forall k | a <= k < a + n :: s[k] == s[k - a + b]
  }

  function Min(a: nat, b: nat): nat {
    if a < b then a else b
  }

  /** How many of `lim` bytes at `a` and at `b` agree. */
  ghost function Agreeing(v: seq<Byte>, a: nat, b: nat, lim: nat): (n: nat)
    requires a + lim <= |v| && b + lim <= |v|
    ensures n <= lim
    decreases lim
  {
    if lim == 0 || v[a] != v[b] then 0 else 1 + Agreeing(v, a + 1, b + 1, lim - 1)
  }

  lemma {:induction false} AgreeingIs(v: seq<Byte>, a: nat, b: nat, lim: nat, n: nat)
    requires a + lim <= |v| && b + lim <= |v| && n <= lim && Same(v, a, b, n) && (n < lim ==> v[a + n] != v[b + n])
    ensures Agreeing(v, a, b, lim) == n
    decreases n
  {
    if n > 0 {
      assert v[a] == v[a - a + b];
      assert Same(v, a + 1, b + 1, n - 1) by {
        forall k | a + 1 <= k < a + n ensures v[k] == v[k - (a + 1) + (b + 1)] { assert v[k] == v[k - a + b]; }
      }
      AgreeingIs(v, a + 1, b + 1, lim - 1, n - 1);
    }
  }

  /** The bytes that agree are the same, and the next one differs. */
  lemma {:induction false} AgreeingBytes(v: seq<Byte>, a: nat, b: nat, lim: nat)
    requires a + lim <= |v| && b + lim <= |v|
    ensures Same(v, a, b, Agreeing(v, a, b, lim))
    ensures var n := Agreeing(v, a, b, lim); n < lim ==> v[a + n] != v[b + n]
    decreases lim
  {
    if lim > 0 && v[a] == v[b] {
      AgreeingBytes(v, a + 1, b + 1, lim - 1);
      var n := Agreeing(v, a, b, lim);
      forall k | a <= k < a + n ensures v[k] == v[k - a + b] {
        if k > a { assert v[k] == v[k - (a + 1) + (b + 1)]; }
      }
    }
  }

  /** A little-endian word. */
  function Word(mem: seq<Byte>, at: nat): U32
    requires at + 4 <= |mem|
  {
    var b0: int, b1: int, b2: int, b3: int := mem[at], mem[at + 1], mem[at + 2], mem[at + 3];
    b0 + b1 * TWO8 + b2 * TWO16 + b3 * TWO24
  }

  lemma SameDigits(a0: Byte, a1: Byte, a2: Byte, a3: Byte, b0: Byte, b1: Byte, b2: Byte, b3: Byte)
    requires a0 + a1 * TWO8 + a2 * TWO16 + a3 * TWO24 == b0 + b1 * TWO8 + b2 * TWO16 + b3 * TWO24
    ensures a0 == b0 && a1 == b1 && a2 == b2 && a3 == b3
  {
    var x: int, y: int := a1 + a2 * TWO8 + a3 * TWO16, b1 + b2 * TWO8 + b3 * TWO16;
    assert a0 - b0 == (y - x) * 256;
    var u: int, v: int := a2 + a3 * TWO8, b2 + b3 * TWO8;
    assert a1 - b1 == (v - u) * 256;
  }

  lemma SameWord(s: seq<Byte>, a: nat, b: nat)
    requires a + 4 <= |s| && b + 4 <= |s| && Word(s, a) == Word(s, b)
    ensures s[a] == s[b] && s[a + 1] == s[b + 1] && s[a + 2] == s[b + 2] && s[a + 3] == s[b + 3]
  {
    SameDigits(s[a], s[a + 1], s[a + 2], s[a + 3], s[b], s[b + 1], s[b + 2], s[b + 3]);
  }

  /** Bytes that agree for longer than `best` agree in the word that ends there. */
  lemma WordsOfLonger(mem: seq<Byte>, p: nat, c: nat, lim: nat, best: nat)
    requires p + lim <= |mem| && c + lim <= |mem| && 4 <= best && Agreeing(mem, p, c, lim) > best
    ensures Word(mem, p + best - 3) == Word(mem, c + best - 3)
  {
    AgreeingBytes(mem, p, c, lim);
    forall k | p + best - 3 <= k <= p + best ensures mem[k] == mem[k - p + c] { }
  }
}
