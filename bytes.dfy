/** Octets as the program stores them in `unsigned char` buffers. */
module Bytes {
  /** An `unsigned char`: a number in 0..255. */
  type byte = x: int | 0 <= x < 256

  /** Size of every frame buffer the program allocates (`[256]`). */
  const BufferSize := 256

  /** Overwriting the first slot past a copied prefix extends the prefix by one. */
  lemma SpliceStep<T>(src: seq<T>, dst: seq<T>, n: nat)
    requires n < |src| && n < |dst|
    ensures (src[..n] + dst[n..])[n := src[n]] == src[..n + 1] + dst[n + 1..]
  {
  }
}
