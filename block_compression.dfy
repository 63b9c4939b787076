/**
 * DEFLATE compression as the clipboard store uses it. The compressor itself
 * is a library routine outside this model, so it enters as a pair of
 * functions together with the laws the store relies on.
 */
module BlockCompression {
  import opened Encodings

  /**
   * `deflate` compresses a buffer; `inflate(d, n)` decompresses `d` into a
   * fresh buffer of `n` bytes.
   */
  datatype Codec = Codec(deflate: seq<byte> -> seq<byte>, inflate: (seq<byte>, nat) -> seq<byte>)

  /**
   * The decompressed buffer has the requested size, decompressing with the
   * original size gives the original bytes back, and so two different
   * buffers never compress to the same bytes.
   */
  ghost predicate Lawful(c: Codec)
  {
    && (forall d, n :: |c.inflate(d, n)| == n)
    && (forall x :: c.inflate(c.deflate(x), |x|) == x)
    && (forall x, y :: c.deflate(x) == c.deflate(y) ==> x == y)
  }
}
