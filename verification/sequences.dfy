/** Regrouping concatenations. */
module Sequences {
  lemma Associate<T>(a: seq<T>, b: seq<T>, c: seq<T>)
    ensures a + b + c == a + (b + c)
  {
  }

  lemma Associate4<T>(a: seq<T>, b: seq<T>, c: seq<T>, d: seq<T>)
    ensures a + b + c + d == a + (b + c) + d == a + b + (c + d) == a + (b + c + d) == a + (b + (c + d))
  {
  }

  lemma Associate5<T>(a: seq<T>, b: seq<T>, c: seq<T>, d: seq<T>, e: seq<T>)
    ensures a + b + c + d + e == a + b + (c + (d + e)) == a + (b + c + (d + e)) == a + (b + (c + d + e))
    ensures a + b + c + d + e == a + (b + (c + (d + e))) == a + (b + (c + d)) + e
  {
  }
}
