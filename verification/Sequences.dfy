/** Concatenation. */
module Sequences {
  lemma Associative<T>(x: seq<T>, y: seq<T>, z: seq<T>)
    ensures x + y + z == x + (y + z)
  {
  }

  lemma Nothing<T>(x: seq<T>)
    ensures x + [] == x && [] + x == x
  {
  }
}
