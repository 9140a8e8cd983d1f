/** Bytes, and what several modules need about sequences. */
module Sequences {

  type Byte = x: int | 0 <= x < 256

  lemma Assoc<T>(a: seq<T>, b: seq<T>, c: seq<T>)
    ensures a + b + c == a + (b + c)
  {
  }

  /** The first `n` chunks, joined. */
  function ConcatTo<T>(chunks: seq<seq<T>>, n: nat): seq<T>
    requires n <= |chunks|
  {
    if n == 0 then [] else ConcatTo(chunks, n - 1) + chunks[n - 1]
  }
}
