/** Small facts about sequences shared by both algorithm modules. */
module Sequences {

  /** Prepending an element and appending a sequence can be done in either
      order. */
  lemma ConsAppend<T>(x: T, p: seq<T>, q: seq<T>)
    ensures [x] + (p + q) == ([x] + p) + q
  {
  }
}
