/** Small facts shared by several programs: `std::reverse` on sequences, and what `%` does
    to a value less than one or two turns of a ring. */
module Basics {
  /** `std::reverse`: the k-th element is the k-th from the end. */
  function Reverse<T>(s: seq<T>): (r: seq<T>)
    ensures |r| == |s| && forall k :: 0 <= k < |s| ==> r[k] == s[|s| - 1 - k]
  {
    seq(|s|, k requires 0 <= k < |s| => s[|s| - 1 - k])
  }

  lemma ReverseAppend<T>(a: seq<T>, b: seq<T>)
    ensures Reverse(a + b) == Reverse(b) + Reverse(a)
  {
  }

  lemma ReverseReverse<T>(s: seq<T>)
    ensures Reverse(Reverse(s)) == s
  {
  }

  /** Less than one turn: `%` changes nothing. */
  lemma ModSmall(x: int, n: int)
    requires 0 <= x < n
    ensures x % n == x
  {
  }

  /** Between one and two turns: `%` takes one turn off. */
  lemma ModWrap(x: int, n: int)
    requires 0 < n <= x < 2 * n
    ensures x % n == x - n
  {
    ModSmall(x - n, n);
    assert (x - n) % n == x % n;
  }
}
