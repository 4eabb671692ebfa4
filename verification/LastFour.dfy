/** The last four distances, the latest first: both LZ coders of the program keep them. */
module LastFour {
  /** The last distances after one of them was used again: it moves to the front. */
  function Promoted<T>(rep: seq<T>, i: nat): (r: seq<T>)
    requires |rep| == 4 && i < 4
    ensures |r| == 4
  {
    [rep[i]] + rep[..i] + rep[i + 1..]
  }
}
