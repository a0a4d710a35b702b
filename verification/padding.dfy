/** Pre-padding of the reduction input (`reduce` in host.cpp): the by-value
    copy of the input is extended at the end with filler elements until its
    length is a multiple of the block size 16. */
module Padding {

  /** The block size the first reduction pass assumes. */
  const BlockSize := 16

  /** Length of the padded copy: the least multiple of `BlockSize` that is
      at least `n`. */
  function PaddedLength(n: nat): (m: nat)
    ensures m % BlockSize == 0
    ensures n <= m < n + BlockSize
    ensures forall k: nat :: k % BlockSize == 0 && n <= k ==> m <= k
  {
    var rem := n % BlockSize;
    if rem != 0 then n + (BlockSize - rem) else n
  }

  /** The padded copy: `values` unchanged as a prefix, followed by fewer
      than `BlockSize` copies of `filler`, none when the length is already a
      multiple of `BlockSize`. */
  function Pad<T>(values: seq<T>, filler: T): (padded: seq<T>)
    ensures |padded| == PaddedLength(|values|)
    ensures padded[..|values|] == values
    ensures forall i :: |values| <= i < |padded| ==> padded[i] == filler
  {
    var rem := |values| % BlockSize;
    if rem != 0 then values + seq(BlockSize - rem, _ => filler) else values
  }

  /** Removing the appended filler gives back the input, and an input whose
      length is already a multiple of the block size is left as it is. */
  lemma PadRoundTrip<T>(values: seq<T>, filler: T)
    ensures Pad(values, filler)[..|values|] == values
    ensures |values| % BlockSize == 0 <==> Pad(values, filler) == values
  {
    if Pad(values, filler) == values {
      assert |values| == PaddedLength(|values|);
    }
  }

  /** Padding twice is padding once. */
  lemma PadIdempotent<T>(values: seq<T>, filler: T)
    ensures Pad(Pad(values, filler), filler) == Pad(values, filler)
  {
    PadRoundTrip(Pad(values, filler), filler);
  }
}
