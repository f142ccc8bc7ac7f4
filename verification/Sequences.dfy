/** Facts about concatenation. */
module Sequences {
  lemma PlusAssoc<T>(a: seq<T>, b: seq<T>, c: seq<T>)
    ensures a + (b + c) == a + b + c
  {
  }

  lemma PlusNil<T>(a: seq<T>)
    ensures a + [] == a && [] + a == a
  {
  }
}
