/** The Josephus ring of ex1/joseph_ring.cpp: persons 1..n sit in a circle, each holding a
    password; starting from the first, the count runs as far as the current person's
    password, the person reached leaves the circle, and the count goes on from the next. */
module Josephus {
  import opened CircularLists

  /** `Person` (ex1/joseph_ring.cpp:6-15). */
  datatype Person = Person(id: int, password: int)

  /** The circle built by ex1/joseph_ring.cpp:28-30: persons `1..n` in order, person `i`
      holding the `i`-th password read. */
  function Circle(passwords: seq<int>): (c: seq<Person>)
    ensures |c| == |passwords|
    ensures forall i :: 0 <= i < |c| ==> c[i] == Person(i + 1, passwords[i])
  {
    seq(|passwords|, i requires 0 <= i < |passwords| => Person(i + 1, passwords[i]))
  }

  /** `2^64`: `current + m - 1` is an `int` that `% circle.size()` converts to `size_t`. */
  const Word: int := 0x1_0000_0000_0000_0000

  /** The position the count reaches (ex1/joseph_ring.cpp:34): `current + m - 1` taken as a
      64-bit unsigned number, reduced modulo the circle's size. For a non-negative sum that
      fits in 64 bits this is the plain remainder. */
  function Reach(current: int, m: int, size: nat): (k: nat)
    requires size > 0
    ensures k < size
    ensures 0 <= current + m - 1 < Word ==> k == (current + m - 1) % size
  {
    ((current + m - 1) % Word) % size
  }

  /** Taking out the element at `k` leaves the rest of the multiset. */
  lemma RemoveAt<T>(s: seq<T>, k: nat)
    requires k < |s|
    ensures multiset(s) == multiset(s[..k] + s[k + 1..]) + multiset{s[k]}
  {
    assert s == s[..k] + [s[k]] + s[k + 1..];
  }

  /** The order in which the persons of `circle` leave when the count starts at position
      `current` (ex1/joseph_ring.cpp:32-40): the person reached leaves, and the count resumes
      at the same position, which wraps to 0 past the new end. */
  function Eliminate(circle: seq<Person>, current: nat): seq<Person>
    requires circle != [] ==> current < |circle|
    decreases |circle|
  {
    if circle == [] then []
    else
      var k := Reach(current, circle[current].password, |circle|);
      var rest := circle[..k] + circle[k + 1..];
      [circle[k]] + Eliminate(rest, if k == |rest| then 0 else k)
  }

  /** One round of the order of leaving. */
  lemma EliminateStep(circle: seq<Person>, current: nat)
    requires current < |circle|
    ensures var k := Reach(current, circle[current].password, |circle|);
            Eliminate(circle, current)
            == [circle[k]] + Eliminate(circle[..k] + circle[k + 1..], if k == |circle| - 1 then 0 else k)
  {
  }

  /** Every person leaves exactly once: the order of leaving is a permutation of the circle. */
  lemma {:induction false} EliminatePermutes(circle: seq<Person>, current: nat)
    requires circle != [] ==> current < |circle|
    ensures |Eliminate(circle, current)| == |circle|
    ensures multiset(Eliminate(circle, current)) == multiset(circle)
    decreases |circle|
  {
    if circle != [] {
      var k := Reach(current, circle[current].password, |circle|);
      var rest := circle[..k] + circle[k + 1..];
      var next := if k == |rest| then 0 else k;
      EliminatePermutes(rest, next);
      RemoveAt(circle, k);
      assert Eliminate(circle, current) == [circle[k]] + Eliminate(rest, next);
    }
  }

  /** A value at two positions of a sequence occurs at least twice in it. */
  lemma TwiceCounted<T>(s: seq<T>, i: nat, j: nat)
    requires i < j < |s| && s[i] == s[j]
    ensures multiset(s)[s[i]] >= 2
  {
    assert s == s[..i] + [s[i]] + s[i + 1..j] + [s[j]] + s[j + 1..];
  }

  /** In the circle each person occurs once. */
  lemma {:induction false} CircleOnce(passwords: seq<int>, x: Person)
    ensures multiset(Circle(passwords))[x] <= 1
    decreases |passwords|
  {
    if passwords != [] {
      var init := passwords[..|passwords| - 1];
      CircleOnce(init, x);
      assert Circle(passwords) == Circle(init) + [Person(|passwords|, passwords[|passwords| - 1])];
      if x == Person(|passwords|, passwords[|passwords| - 1]) {
        assert x !in Circle(init);
      }
    }
  }

  /** Any rearrangement of the circle lists every person `1..n` exactly once, each with
      their own password. */
  lemma Rearranged(passwords: seq<int>, r: seq<Person>)
    requires multiset(r) == multiset(Circle(passwords))
    ensures |r| == |passwords|
    ensures forall i :: 0 <= i < |passwords| ==> Person(i + 1, passwords[i]) in r
    ensures forall x :: x in r ==> 1 <= x.id <= |passwords| && x.password == passwords[x.id - 1]
    ensures forall i, j :: 0 <= i < j < |r| ==> r[i].id != r[j].id
  {
    assert |r| == |multiset(r)|;
    RearrangedHasAll(passwords, r);
    RearrangedFromCircle(passwords, r);
    RearrangedOnce(passwords, r);
  }

  lemma RearrangedHasAll(passwords: seq<int>, r: seq<Person>)
    requires multiset(r) == multiset(Circle(passwords))
    ensures forall i :: 0 <= i < |passwords| ==> Person(i + 1, passwords[i]) in r
  {
    var c := Circle(passwords);
    forall i | 0 <= i < |passwords|
      ensures Person(i + 1, passwords[i]) in r
    {
      assert c[i] in multiset(c);
    }
  }

  lemma RearrangedFromCircle(passwords: seq<int>, r: seq<Person>)
    requires multiset(r) == multiset(Circle(passwords))
    ensures forall x :: x in r ==> 1 <= x.id <= |passwords| && x.password == passwords[x.id - 1]
  {
    var c := Circle(passwords);
    forall x | x in r
      ensures 1 <= x.id <= |passwords| && x.password == passwords[x.id - 1]
    {
      assert x in multiset(c);
      var i :| 0 <= i < |c| && c[i] == x;
    }
  }

  lemma RearrangedOnce(passwords: seq<int>, r: seq<Person>)
    requires multiset(r) == multiset(Circle(passwords))
    ensures forall i, j :: 0 <= i < j < |r| ==> r[i].id != r[j].id
  {
    RearrangedFromCircle(passwords, r);
    forall i, j | 0 <= i < j < |r|
      ensures r[i].id != r[j].id
    {
      if r[i].id == r[j].id {
        assert r[i] == r[j];
        TwiceCounted(r, i, j);
        CircleOnce(passwords, r[i]);
      }
    }
  }

  /** The order of leaving from the circle of ex1/joseph_ring.cpp lists every person `1..n`
      exactly once, each with its own password, whatever the passwords are. */
  lemma LeavingOrder(passwords: seq<int>)
    ensures |Eliminate(Circle(passwords), 0)| == |passwords|
    ensures forall i :: 0 <= i < |passwords| ==> Person(i + 1, passwords[i]) in Eliminate(Circle(passwords), 0)
    ensures forall x :: x in Eliminate(Circle(passwords), 0) ==>
              1 <= x.id <= |passwords| && x.password == passwords[x.id - 1]
    ensures forall i, j :: 0 <= i < j < |passwords| ==>
              Eliminate(Circle(passwords), 0)[i].id != Eliminate(Circle(passwords), 0)[j].id
  {
    var r := Eliminate(Circle(passwords), 0);
    EliminatePermutes(Circle(passwords), 0);
    Rearranged(passwords, r);
  }

  /** The filling loop (ex1/joseph_ring.cpp:27-30): a new `CircularList` holding the
      circle, persons `1..n` in order. */
  method FillCircle(passwords: seq<int>) returns (circle: CircularList<Person>)
    ensures circle.Valid() && fresh(circle.Repr)
    ensures circle.contents == Circle(passwords)
  {
    circle := new CircularList<Person>();
    var i := 1;
    while i <= |passwords|
      invariant 1 <= i <= |passwords| + 1
      invariant circle.Valid() && fresh(circle.Repr)
      invariant circle.contents == Circle(passwords)[..i - 1]
    {
      circle.PushBack(Person(i, passwords[i - 1]));
      i := i + 1;
    }
    assert Circle(passwords)[..|passwords|] == Circle(passwords);
  }

  /** One round (ex1/joseph_ring.cpp:33-39): count from `current` by the password found
      there, erase the person reached, and resume at the same position or at 0. The person
      and the rest of the order of leaving make up the order of leaving before the round. */
  method Leave(circle: CircularList<Person>, current: nat) returns (reached: Person, next: nat)
    requires circle.Valid() && current < |circle.contents|
    modifies circle, circle.Repr
    ensures circle.Valid() && circle.Repr == old(circle.Repr)
    ensures |circle.contents| == |old(circle.contents)| - 1
    ensures circle.contents != [] ==> next < |circle.contents|
    ensures [reached] + Eliminate(circle.contents, next) == Eliminate(old(circle.contents), current)
  {
    ghost var before := circle.contents;
    var here := circle.At(current);
    var m := here.value.password;
    var k := Reach(current, m, circle.Size());
    var at := circle.At(k);
    reached := at.value;
    var _ := circle.Erase(k);
    next := k;
    if next == circle.Size() {
      next := 0;
    }
    EliminateStep(before, current);
  }

  /** Moving the first element of the rest to the end of what is done. */
  lemma Shift<T>(done: seq<T>, x: T, rest: seq<T>)
    ensures done + ([x] + rest) == (done + [x]) + rest
  {
  }

  /** `main` (ex1/joseph_ring.cpp:17-42) with the `n` passwords read as input: fill a
      `CircularList` with persons `1..n`, then repeatedly count from `current`, append the
      person reached to the result and erase them from the circle. The result is the order of
      leaving. */
  method JosephRing(passwords: seq<int>) returns (result: seq<Person>)
    ensures result == Eliminate(Circle(passwords), 0)
  {
    var circle := FillCircle(passwords);
    result := [];
    var current: nat := 0;
    while !circle.Empty()
      invariant circle.Valid() && fresh(circle.Repr)
      invariant circle.contents != [] ==> current < |circle.contents|
      invariant result + Eliminate(circle.contents, current) == Eliminate(Circle(passwords), 0)
      decreases |circle.contents|
    {
      var reached;
      ghost var done := result;
      reached, current := Leave(circle, current);
      result := result + [reached];
      Shift(done, reached, Eliminate(circle.contents, current));
    }
  }
}
