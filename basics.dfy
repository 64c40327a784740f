/** Small arithmetic and sequence facts shared by the chunking and batching models. */
module Basics {

  /** Python's `min` on two integers. */
  function Min(a: int, b: int): int { if a <= b then a else b }

  /** Python's `max` on two integers. */
  function Max(a: int, b: int): int { if a >= b then a else b }

  lemma AppendAssoc<T>(a: seq<T>, b: seq<T>, c: seq<T>)
    ensures a + (b + c) == (a + b) + c
  {
  }
}
