/**
 Machine words of the codecs: bytes, 16-bit model cells and 32-bit registers, with the
 truncation that unsigned 8-, 16- and 32-bit arithmetic performs written out.
 */
module Words {

  const TWO8 := 0x100
  const TWO16 := 0x1_0000
  const TWO24 := 0x100_0000
  const TWO32 := 0x1_0000_0000

  type Byte = x: int | 0 <= x < 0x100
  type U16 = x: int | 0 <= x < 0x1_0000
  type U32 = x: int | 0 <= x < 0x1_0000_0000

  /** The value an unsigned 32-bit register keeps of `x`. */
  function Wrap32(x: int): U32 {
    x % TWO32
  }

  lemma Cat<T>(a: seq<T>, b: seq<T>, c: seq<T>)
    ensures a + b + c == a + (b + c)
  {
  }

  /** A byte of a stream that reads as zeros past its end. */
  function At(s: seq<Byte>, i: nat): Byte {
    if i < |s| then s[i] else 0
  }

  /** Two streams that read the same for ever. */
  ghost predicate SameStream(s: seq<Byte>, t: seq<Byte>) {
    forall i: nat :: At(s, i) == At(t, i)
  }

  function Rest(s: seq<Byte>): seq<Byte> {
    if s == [] then [] else s[1..]
  }

  /** The 32-bit window at the front of a stream, first byte on top. */
  function Window(s: seq<Byte>): U32 {
    At(s, 0) * TWO24 + At(s, 1) * TWO16 + At(s, 2) * TWO8 + At(s, 3)
  }

  function Bytes4(x: U32): (s: seq<Byte>)
    ensures |s| == 4
  {
    [x / TWO24, x / TWO16 % 256, x / TWO8 % 256, x % 256]
  }

  lemma WindowOfBytes4(x: U32)
    ensures Window(Bytes4(x)) == x
  {
    var x1 := x / 256;
    var x2 := x1 / 256;
    assert x2 == x / TWO16 && x2 / 256 == x / TWO24;
    assert x == x1 * 256 + x % 256 && x1 == x2 * 256 + x1 % 256 && x2 == x2 / 256 * 256 + x2 % 256;
  }

  lemma Bytes4Of(a: Byte, b: Byte, c: Byte, d: Byte)
    ensures Bytes4(a * TWO24 + b * TWO16 + c * TWO8 + d) == [a, b, c, d]
  {
    var x := a * TWO24 + b * TWO16 + c * TWO8 + d;
    assert x / TWO24 == a;
    assert x / TWO16 == a * 256 + b;
    assert x / TWO8 == a * TWO16 + b * 256 + c;
    assert x % 256 == d;
    assert (a * 256 + b) % 256 == b;
    assert ((a * 256 + b) * 256 + c) % 256 == c;
  }

  /** `(code << 8) | b`: the window moves on by one byte. */
  function ShiftIn(code: U32, b: Byte): U32 {
    Wrap32(code * 256 + b)
  }

  lemma ShiftInBytes(code: U32, y: Byte)
    ensures Bytes4(ShiftIn(code, y)) == Bytes4(code)[1..] + [y]
  {
    var s := Bytes4(code);
    var low := s[1] * TWO16 + s[2] * TWO8 + s[3];
    WindowOfBytes4(code);
    assert code == s[0] * TWO24 + low && 0 <= low < TWO24;
    assert ShiftIn(code, y) == low * 256 + y by {
      assert code * 256 + y == (low * 256 + y) + s[0] * TWO32;
    }
    Bytes4Of(s[1], s[2], s[3], y);
  }

  lemma ShiftInDropsOne(code: U32, rest: seq<Byte>, i: nat)
    ensures At(Bytes4(ShiftIn(code, At(rest, 0))) + Rest(rest), i) == At(Bytes4(code) + rest, i + 1)
  {
    ShiftInBytes(code, At(rest, 0));
  }

  /** A window filled with the first four bytes of a stream, and what follows them. */
  lemma WindowThenRest(s: seq<Byte>)
    ensures SameStream(Bytes4(Window(s)) + (if |s| <= 4 then [] else s[4..]), s)
  {
    Bytes4Of(At(s, 0), At(s, 1), At(s, 2), At(s, 3));
  }

  lemma SameStreamTail(s: seq<Byte>, t: seq<Byte>, s': seq<Byte>, t': seq<Byte>)
    requires SameStream(s, t)
    requires forall i: nat :: At(s', i) == At(s, i + 1)
    requires forall i: nat :: At(t', i) == At(t, i + 1)
    ensures SameStream(s', t')
  {
  }

  /**
   Holds of everything. A large fact stated for every `k` under `Look(topic, k)` stays out of the
   verifier's sight where it is only passed on; mentioning `Look(topic, 0)` brings it up.
   */
  ghost predicate Look(topic: Topic, k: int) {
    true
  }

  datatype Topic = Coder | Steps | Spot | Log | Codes | Pieces | RawBits
}
