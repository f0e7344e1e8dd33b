/** `Pair<T, U>` and its comparison operators. */
module Pairs {
  datatype Pair<T, U> = Pair(first: T, second: U)

  /** `operator==`: both components agree. */
  predicate Eq(a: Pair<int, int>, b: Pair<int, int>) {
    a.first == b.first && a.second == b.second
  }

  /** `operator!=`. */
  predicate Ne(a: Pair<int, int>, b: Pair<int, int>) {
    !Eq(a, b)
  }

  /** `operator<`, written with `<` only, as the source does. */
  predicate Less(a: Pair<int, int>, b: Pair<int, int>) {
    a.first < b.first || (!(b.first < a.first) && a.second < b.second)
  }

  /** `operator>`: the arguments of `<` swapped. */
  predicate Greater(a: Pair<int, int>, b: Pair<int, int>) {
    Less(b, a)
  }

  /** `operator<=`: not greater. */
  predicate LessEq(a: Pair<int, int>, b: Pair<int, int>) {
    !Less(b, a)
  }

  /** `operator>=`: not less. */
  predicate GreaterEq(a: Pair<int, int>, b: Pair<int, int>) {
    !Less(a, b)
  }

  /** `<` is the lexicographic order on (first, second), and `==` is equality of pairs. */
  lemma LessIsLexicographic(a: Pair<int, int>, b: Pair<int, int>)
    ensures Less(a, b) <==> a.first < b.first || (a.first == b.first && a.second < b.second)
    ensures Eq(a, b) <==> a == b
    ensures Ne(a, b) <==> a != b
  {
  }

  /** `<` is a strict total order: irreflexive, transitive and total on distinct pairs, so
      `<=` is `<` or `==`, and `>`, `>=` are their mirror images. */
  lemma LessIsStrictTotalOrder(a: Pair<int, int>, b: Pair<int, int>, c: Pair<int, int>)
    ensures !Less(a, a)
    ensures Less(a, b) && Less(b, c) ==> Less(a, c)
    ensures a != b ==> Less(a, b) || Less(b, a)
    ensures LessEq(a, b) <==> Less(a, b) || a == b
    ensures GreaterEq(a, b) <==> Greater(a, b) || a == b
    ensures Greater(a, b) <==> Less(b, a)
  {
  }
}
