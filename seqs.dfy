/**
 * Regrouping facts about sequence concatenation, stated once for any element
 * type. Dafny knows each of them, but handing one over at the point where a
 * proof needs that exact shape keeps the proof small.
 */
module Seqs {

  lemma Assoc<T>(x: seq<T>, y: seq<T>, z: seq<T>)
    ensures x + (y + z) == x + y + z
  {
  }

  lemma Assoc4<T>(a: seq<T>, b: seq<T>, c: seq<T>, d: seq<T>)
    ensures a + (b + c + d) == a + b + c + d
  {
  }

  lemma HeadTail<T>(s: seq<T>)
    requires s != []
    ensures s == [s[0]] + s[1..]
  {
  }

  lemma InitLast<T>(s: seq<T>)
    requires s != []
    ensures s == s[..|s| - 1] + [s[|s| - 1]]
  {
  }

  lemma Regroup<T>(p: seq<T>, a: seq<T>, c: T, b: seq<T>)
    ensures p + a + [c] + p + b == p + (a + [c] + (p + b))
  {
  }
}
