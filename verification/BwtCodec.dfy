/** A block through the transform and the bucket coder, and back. */
module BwtCodec {
  import opened Words
  import opened BwtWalk
  import opened BucketFrame
  import opened BwtUntransform
  import opened RotationSort
  import opened SuffixRoute
  import opened BwtBlock

  /**
   The transform by doubling, the coded buckets, and both undone: for every block, capacity and
   thread count for which the encoder gives a payload, periodic blocks included.
   */
  method CodecRoundTrip(block: array<Byte>, cap: U32, threads: nat) returns (payload: seq<Byte>, primary: nat, ok: bool, back: array<Byte>)
    requires block.Length < ENCODE_LIMIT
    ensures payload != [] ==> |payload| < block.Length && ok && back[..] == block[..]
  {
    var out;
    ghost var sa;
    out, primary, sa := Transform(block);
    payload, ok, back := ThereAndBack(out[..], primary, cap, threads, block[..], sa);
  }

  /** The same with both routes of the transform, whatever sorts the suffixes for the second. */
  method EitherRoundTrip(block: array<Byte>, sort: seq<nat> -> seq<nat>, cap: U32, threads: nat)
    returns (payload: seq<Byte>, primary: nat, ok: bool, back: array<Byte>)
    requires block.Length < ENCODE_LIMIT && SortsSuffixes(sort)
    ensures payload != [] ==> |payload| < block.Length && ok && back[..] == block[..]
  {
    var out;
    ghost var sa;
    out, primary, sa := TransformEither(block, sort);
    payload, ok, back := ThereAndBack(out[..], primary, cap, threads, block[..], sa);
  }

  method ThereAndBack(column: seq<Byte>, primary: nat, cap: U32, threads: nat, ghost s: seq<Byte>, ghost sa: seq<nat>)
    returns (payload: seq<Byte>, ok: bool, back: array<Byte>)
    requires |s| < ENCODE_LIMIT && SortedRotations(s, sa) && column == LastColumn(s, sa)
    requires s != [] ==> primary < |s| && sa[primary] == 0
    ensures payload != [] ==> |payload| < |s| && ok && back[..] == s
  {
    ghost var k;
    payload, k := EncodeInput(column, cap, threads);
    ok, back := false, new Byte[0];
    if payload != [] {
      var again;
      ok, again := DecodeInput(payload, |column|, column);
      back := new Byte[|again|](i requires 0 <= i < |again| => again[i]);
      assert back[..] == again;
      ok := UntransformSorted(back, primary, s, sa);
    }
  }
}
