/** The tutor records of ex3/cube_teacher.cpp: a tutor supervises graduates directly and
    undergraduates either directly or through one of the graduates. Removing a graduate hands
    the graduate's undergraduates on, so that nobody supervised is lost. */
module Tutors {
  /** An `Undergraduate`: a name and a class, never changed once made. */
  datatype Undergraduate = Undergraduate(name: string, className: string)

  /** A `Graduate`, whose list of undergraduates grows and is cleared. */
  class Graduate {
    const name: string
    const className: string
    var undergrads: seq<Undergraduate>

    /** `Graduate(n, c)` (ex3/cube_teacher.cpp:39): no undergraduates yet. */
    constructor (name: string, className: string)
      ensures this.name == name && this.className == className && undergrads == []
    {
      this.name := name;
      this.className := className;
      undergrads := [];
    }

    /** `add_grad(undergrad)` (ex3/cube_teacher.cpp:47-49): appends an undergraduate. */
    method AddGrad(u: Undergraduate)
      modifies this
      ensures undergrads == old(undergrads) + [u]
    {
      undergrads := undergrads + [u];
    }
  }

  /** The position of the first graduate called `name`, or `|gs|` when there is none. */
  function FindGrad(gs: seq<Graduate>, name: string): (i: nat)
    ensures i <= |gs| && (i < |gs| ==> gs[i].name == name)
    ensures forall j :: 0 <= j < i ==> gs[j].name != name
  {
    if gs == [] then 0
    else if gs[0].name == name then 0
    else 1 + FindGrad(gs[1..], name)
  }

  /** The position of the first undergraduate called `name`, or `|us|` when there is none. */
  function FindUndergrad(us: seq<Undergraduate>, name: string): (i: nat)
    ensures i <= |us| && (i < |us| ==> us[i].name == name)
    ensures forall j :: 0 <= j < i ==> us[j].name != name
  {
    if us == [] then 0
    else if us[0].name == name then 0
    else 1 + FindUndergrad(us[1..], name)
  }

  /** The list without its first undergraduate called `name`; unchanged when there is none. */
  function RemoveFirst(us: seq<Undergraduate>, name: string): (r: seq<Undergraduate>)
    ensures FindUndergrad(us, name) == |us| ==> r == us
    ensures FindUndergrad(us, name) < |us| ==>
      |r| == |us| - 1 && multiset(r) + multiset{us[FindUndergrad(us, name)]} == multiset(us)
  {
    var i := FindUndergrad(us, name);
    if i < |us| then
      assert us == us[..i] + [us[i]] + us[i + 1..];
      us[..i] + us[i + 1..]
    else us
  }

  /** Only the first match goes: what comes before it is kept, and so is every later
      undergraduate, including later ones with the same name. */
  lemma RemoveFirstKeepsOthers(us: seq<Undergraduate>, name: string)
    requires FindUndergrad(us, name) < |us|
    ensures var i := FindUndergrad(us, name);
      RemoveFirst(us, name)[..i] == us[..i] && RemoveFirst(us, name)[i..] == us[i + 1..]
  {
  }

  // ---------------------------------------------------------------------------------------
  // How `remove_grad` deals a removed graduate's undergraduates (ex3/cube_teacher.cpp:108-118)
  // ---------------------------------------------------------------------------------------

  /** The `m`-th graduate other than the one at position `i`. */
  function Other(m: int, i: int): int
  {
    if m < i then m else m + 1
  }

  /** Where the `k`-th undergraduate of the removed graduate at position `i` goes, among `s`
      graduates: round the others in order, starting over after the last. */
  function Target(k: nat, i: nat, s: nat): (t: int)
    requires 2 <= s && i < s
    ensures 0 <= t < s && t != i
  {
    Other(k % (s - 1), i)
  }

  /** The undergraduates of `us` that go to the graduate at position `j`, in order. */
  function Dealt(us: seq<Undergraduate>, i: nat, s: nat, j: int): seq<Undergraduate>
    requires 2 <= s && i < s
  {
    if us == [] then []
    else Dealt(us[..|us| - 1], i, s, j) + (if Target(|us| - 1, i, s) == j then [us[|us| - 1]] else [])
  }

  /** Dealing one more undergraduate extends exactly one share. */
  lemma DealtStep(us: seq<Undergraduate>, k: nat, i: nat, s: nat, j: int)
    requires 2 <= s && i < s && k < |us|
    ensures Dealt(us[..k + 1], i, s, j) == Dealt(us[..k], i, s, j) + (if Target(k, i, s) == j then [us[k]] else [])
  {
    assert us[..k + 1][..k] == us[..k];
  }

  /** The removed graduate gets none of its own undergraduates back. */
  lemma {:induction false} DealtNoneToRemoved(us: seq<Undergraduate>, i: nat, s: nat)
    requires 2 <= s && i < s
    ensures Dealt(us, i, s, i) == []
  {
    if us != [] {
      DealtNoneToRemoved(us[..|us| - 1], i, s);
    }
  }

  /** `s - 1` consecutive undergraduates go to `s - 1` different graduates: the deal is a
      rotation through all the others. */
  lemma RoundRobin(k: nat, k2: nat, i: nat, s: nat)
    requires 2 <= s && i < s && k < k2 < k + s - 1
    ensures Target(k, i, s) != Target(k2, i, s)
    ensures Target(k + s - 1, i, s) == Target(k, i, s)
  {
    var d := s - 1;
    var q, m := k / d, k % d;
    DivModIs(k2, d, if m + (k2 - k) < d then q else q + 1, if m + (k2 - k) < d then m + (k2 - k) else m + (k2 - k) - d);
    DivModIs(k + d, d, q + 1, m);
  }

  /** `x == d * q + m` with `0 <= m < d` determines `x % d` and `x / d`. */
  lemma DivModIs(x: int, d: int, q: int, m: int)
    requires 0 < d && 0 <= m < d && x == d * q + m
    ensures x % d == m && x / d == q
  {
    var q0 := x / d;
    MulBounds(d, q - q0);
    assert d * q - d * q0 == d * (q - q0);
  }

  /** A multiple of `d` other than 0 is at least `d` away from 0. */
  lemma {:induction false} MulBounds(d: int, e: int)
    requires d > 0
    ensures e >= 1 ==> d * e >= d
    ensures e <= -1 ==> d * e <= -d
    decreases if e < 0 then -e else e
  {
    if e > 1 {
      MulBounds(d, e - 1);
      assert d * e == d * (e - 1) + d;
    } else if e < -1 {
      MulBounds(d, e + 1);
      assert d * e == d * (e + 1) - d;
    }
  }

  /** `(x + 1) % d` follows from `x % d`. */
  lemma ModNext(x: int, d: int)
    requires 0 < d
    ensures (x + 1) % d == if x % d == d - 1 then 0 else x % d + 1
  {
    var q, m := x / d, x % d;
    if m == d - 1 {
      DivModIs(x + 1, d, q + 1, 0);
    } else {
      DivModIs(x + 1, d, q, m + 1);
    }
  }

  /** The sum of the lengths of some lists. */
  function SumLengths(ls: seq<seq<Undergraduate>>): nat
  {
    if ls == [] then 0 else SumLengths(ls[..|ls| - 1]) + |ls[|ls| - 1]|
  }

  lemma {:induction false} SumLengthsConcat(a: seq<seq<Undergraduate>>, b: seq<seq<Undergraduate>>)
    ensures SumLengths(a + b) == SumLengths(a) + SumLengths(b)
    decreases |b|
  {
    if b != [] {
      assert (a + b)[..|a + b| - 1] == a + b[..|b| - 1];
      assert (a + b)[|a + b| - 1] == b[|b| - 1];
      SumLengthsConcat(a, b[..|b| - 1]);
      assert SumLengths(a + b) == SumLengths(a + b[..|b| - 1]) + |b[|b| - 1]|;
    } else {
      assert a + b == a;
    }
  }

  /** The sizes of the first `n` shares of a deal. */
  function SumDealt(us: seq<Undergraduate>, i: nat, s: nat, n: nat): nat
    requires 2 <= s && i < s
  {
    if n == 0 then 0 else SumDealt(us, i, s, n - 1) + |Dealt(us, i, s, n - 1)|
  }

  /** One more undergraduate makes one share, the target's, longer by one. */
  lemma {:induction false} SumDealtSnoc(us: seq<Undergraduate>, u: Undergraduate, i: nat, s: nat, n: nat)
    requires 2 <= s && i < s
    ensures SumDealt(us + [u], i, s, n) == SumDealt(us, i, s, n) + (if Target(|us|, i, s) < n then 1 else 0)
  {
    assert (us + [u])[..|us|] == us;
    if n > 0 {
      SumDealtSnoc(us, u, i, s, n - 1);
    }
  }

  /** The deal hands out every undergraduate once: the shares add up to all of them. */
  lemma {:induction false} DealtTotal(us: seq<Undergraduate>, i: nat, s: nat)
    requires 2 <= s && i < s
    ensures SumDealt(us, i, s, s) == |us|
  {
    if us != [] {
      var t := us[..|us| - 1];
      DealtTotal(t, i, s);
      assert t + [us[|us| - 1]] == us;
      SumDealtSnoc(t, us[|us| - 1], i, s, s);
    } else {
      SumDealtNone(i, s, s);
    }
  }

  lemma {:induction false} SumDealtNone(i: nat, s: nat, n: nat)
    requires 2 <= s && i < s
    ensures SumDealt([], i, s, n) == 0
  {
    if n > 0 {
      SumDealtNone(i, s, n - 1);
    }
  }

  /** Every list `ls[j]` extended by share `j` of the deal of `us`. */
  function Deal(ls: seq<seq<Undergraduate>>, us: seq<Undergraduate>, i: nat, s: nat): (r: seq<seq<Undergraduate>>)
    requires 2 <= s && i < s && |ls| <= s
    ensures |r| == |ls| && forall j :: 0 <= j < |ls| ==> r[j] == ls[j] + Dealt(us, i, s, j)
  {
    if ls == [] then []
    else Deal(ls[..|ls| - 1], us, i, s) + [ls[|ls| - 1] + Dealt(us, i, s, |ls| - 1)]
  }

  lemma {:induction false} SumLengthsDeal(ls: seq<seq<Undergraduate>>, us: seq<Undergraduate>, i: nat, s: nat)
    requires 2 <= s && i < s && |ls| <= s
    ensures SumLengths(Deal(ls, us, i, s)) == SumLengths(ls) + SumDealt(us, i, s, |ls|)
  {
    if ls != [] {
      var d := Deal(ls, us, i, s);
      assert d[..|d| - 1] == Deal(ls[..|ls| - 1], us, i, s);
      SumLengthsDeal(ls[..|ls| - 1], us, i, s);
    }
  }

  /** The graduates' lists after `remove_grad` removes graduate `i` of several: the others'
      lists, each extended by its share of graduate `i`'s undergraduates. */
  function Redistribute(ls: seq<seq<Undergraduate>>, i: nat): (r: seq<seq<Undergraduate>>)
    requires 2 <= |ls| && i < |ls|
    ensures |r| == |ls| - 1
    ensures forall j :: 0 <= j < i ==> r[j] == ls[j] + Dealt(ls[i], i, |ls|, j)
    ensures forall j :: i <= j < |r| ==> r[j] == ls[j + 1] + Dealt(ls[i], i, |ls|, j + 1)
  {
    var d := Deal(ls, ls[i], i, |ls|);
    d[..i] + d[i + 1..]
  }

  lemma SumLengthsOne(l: seq<Undergraduate>)
    ensures SumLengths([l]) == |l|
  {
    assert [l][..0] == [];
  }

  /** Dropping one list takes its length off the sum. */
  lemma SumLengthsDrop(d: seq<seq<Undergraduate>>, i: nat)
    requires i < |d|
    ensures SumLengths(d[..i] + d[i + 1..]) + |d[i]| == SumLengths(d)
  {
    assert d == (d[..i] + [d[i]]) + d[i + 1..];
    SumLengthsConcat(d[..i] + [d[i]], d[i + 1..]);
    SumLengthsConcat(d[..i], [d[i]]);
    SumLengthsConcat(d[..i], d[i + 1..]);
    SumLengthsOne(d[i]);
  }

  /** Redistributing loses and duplicates no undergraduate: the lists hold as many as
      before. */
  lemma RedistributeKeepsCount(ls: seq<seq<Undergraduate>>, i: nat)
    requires 2 <= |ls| && i < |ls|
    ensures SumLengths(Redistribute(ls, i)) == SumLengths(ls)
  {
    var s := |ls|;
    var d := Deal(ls, ls[i], i, s);
    DealtNoneToRemoved(ls[i], i, s);
    assert d[i] == ls[i];
    SumLengthsDrop(d, i);
    SumLengthsDeal(ls, ls[i], i, s);
    DealtTotal(ls[i], i, s);
  }

  /** The undergraduate lists of some graduates. */
  ghost function Lists(gs: seq<Graduate>): (ls: seq<seq<Undergraduate>>)
    reads gs
    ensures |ls| == |gs| && forall j :: 0 <= j < |gs| ==> ls[j] == gs[j].undergrads
  {
    seq(|gs|, j requires 0 <= j < |gs| reads gs => gs[j].undergrads)
  }

  /** No graduate object appears twice. */
  ghost predicate Distinct(gs: seq<Graduate>)
  {
    forall a, b :: 0 <= a < b < |gs| ==> gs[a] != gs[b]
  }

  /** Erasing graduate `i` keeps the others distinct and leaves `i` out. */
  lemma DistinctDrop(gs: seq<Graduate>, i: nat)
    requires Distinct(gs) && i < |gs|
    ensures Distinct(gs[..i] + gs[i + 1..]) && gs[i] !in gs[..i] + gs[i + 1..]
  {
    var rest := gs[..i] + gs[i + 1..];
    forall a, b | 0 <= a < b < |rest|
      ensures rest[a] != rest[b]
    {
      var a' := if a < i then a else a + 1;
      var b' := if b < i then b else b + 1;
      assert rest[a] == gs[a'] && rest[b] == gs[b'];
    }
    forall j | 0 <= j < |rest|
      ensures rest[j] != gs[i]
    {
      var j' := if j < i then j else j + 1;
      assert rest[j] == gs[j'];
    }
  }

  /** The lists of the graduates left after erasing graduate `i`. */
  lemma ListsDrop(gs: seq<Graduate>, i: nat)
    requires i < |gs|
    ensures Lists(gs[..i] + gs[i + 1..]) == Lists(gs)[..i] + Lists(gs)[i + 1..]
  {
    var rest := gs[..i] + gs[i + 1..];
    var l, r := Lists(gs), Lists(rest);
    var e := l[..i] + l[i + 1..];
    assert |r| == |e|;
    forall j | 0 <= j < |r|
      ensures r[j] == e[j]
    {
      if j < i {
        assert rest[j] == gs[j] && e[j] == l[j];
      } else {
        assert rest[j] == gs[j + 1] && e[j] == l[j + 1];
      }
    }
  }

  /** Dealing one more undergraduate extends the share of `Target(k)` and no other. */
  lemma DealNext(ls: seq<seq<Undergraduate>>, us: seq<Undergraduate>, k: nat, i: nat)
    requires 2 <= |ls| && i < |ls| && k < |us|
    ensures var s, t := |ls|, Target(k, i, |ls|);
      Deal(ls, us[..k + 1], i, s) == Deal(ls, us[..k], i, s)[t := Deal(ls, us[..k], i, s)[t] + [us[k]]]
  {
    var s, t := |ls|, Target(k, i, |ls|);
    var a, b := Deal(ls, us[..k + 1], i, s), Deal(ls, us[..k], i, s);
    var c := b[t := b[t] + [us[k]]];
    forall j | 0 <= j < s
      ensures a[j] == c[j]
    {
      DealNextAt(ls, us, k, i, j);
    }
  }

  /** The same, for the list at one position `j`. */
  lemma DealNextAt(ls: seq<seq<Undergraduate>>, us: seq<Undergraduate>, k: nat, i: nat, j: nat)
    requires 2 <= |ls| && i < |ls| && k < |us| && j < |ls|
    ensures Deal(ls, us[..k + 1], i, |ls|)[j] ==
      Deal(ls, us[..k], i, |ls|)[j] + (if Target(k, i, |ls|) == j then [us[k]] else [])
  {
    var s := |ls|;
    DealtStep(us, k, i, s, j);
    var y := Dealt(us[..k], i, s, j);
    var z: seq<Undergraduate> := if Target(k, i, s) == j then [us[k]] else [];
    assert ls[j] + (y + z) == (ls[j] + y) + z;
  }

  /** Dealing nobody changes no list. */
  lemma DealNone(ls: seq<seq<Undergraduate>>, i: nat)
    requires 2 <= |ls| && i < |ls|
    ensures Deal(ls, [], i, |ls|) == ls
  {
    var d := Deal(ls, [], i, |ls|);
    forall j | 0 <= j < |ls|
      ensures d[j] == ls[j]
    {
      assert Dealt([], i, |ls|, j) == [];
    }
  }

  /** Erasing the removed graduate's list from the dealt lists gives `Redistribute`. */
  lemma DropAfterDeal(ls: seq<seq<Undergraduate>>, i: nat, dealt: seq<seq<Undergraduate>>, left: seq<seq<Undergraduate>>)
    requires 2 <= |ls| && i < |ls| && dealt == Deal(ls, ls[i], i, |ls|)
    requires left == dealt[..i] + dealt[i + 1..]
    ensures left == Redistribute(ls, i)
  {
  }

  /** A `Tutor`: its direct undergraduates and its graduates, each graduate a distinct
      object. */
  class Tutor {
    const name: string
    const title: string
    var undergrads: seq<Undergraduate>
    var grads: seq<Graduate>

    ghost predicate Valid()
      reads this
    {
      Distinct(grads)
    }

    /** Everybody the tutor supervises at undergraduate level, directly or through a
        graduate: the count `statistics` prints. */
    ghost function Total(): nat
      reads this, grads
    {
      |undergrads| + SumLengths(Lists(grads))
    }

    /** `Tutor(n, t)` (ex3/cube_teacher.cpp:80): nobody supervised yet. */
    constructor (name: string, title: string)
      ensures Valid() && this.name == name && this.title == title
      ensures undergrads == [] && grads == []
    {
      this.name := name;
      this.title := title;
      undergrads := [];
      grads := [];
    }

    /** `add_grad(g)` (ex3/cube_teacher.cpp:91-93), always called with a new graduate. */
    method AddGrad(g: Graduate)
      requires Valid() && g !in grads
      modifies this
      ensures Valid() && grads == old(grads) + [g] && undergrads == old(undergrads)
    {
      grads := grads + [g];
    }

    /** `add_undergrad(u)` (ex3/cube_teacher.cpp:95-97). */
    method AddUndergrad(u: Undergraduate)
      modifies this
      ensures undergrads == old(undergrads) + [u] && grads == old(grads)
    {
      undergrads := undergrads + [u];
    }

    /** `remove_undergrad(name)` (ex3/cube_teacher.cpp:127-135): drops the first direct
        undergraduate called `name`, if any; the graduates' lists are not searched. */
    method RemoveUndergrad(name: string)
      modifies this
      ensures undergrads == RemoveFirst(old(undergrads), name) && grads == old(grads)
    {
      var i := 0;
      while i < |undergrads| && undergrads[i].name != name
        invariant i <= |undergrads| && forall j :: 0 <= j < i ==> undergrads[j].name != name
      {
        i := i + 1;
      }
      assert i == FindUndergrad(undergrads, name);
      if i < |undergrads| {
        undergrads := undergrads[..i] + undergrads[i + 1..];
      }
    }

    /** `statistics()` (ex3/cube_teacher.cpp:149-158): the number of graduates, and the
        number of undergraduates, direct ones plus those of every graduate. */
    method Statistics() returns (gradCount: nat, undergradCount: nat)
      ensures gradCount == |grads| && undergradCount == Total()
    {
      gradCount := |grads|;
      undergradCount := |undergrads|;
      for k := 0 to |grads|
        invariant undergradCount == |undergrads| + SumLengths(Lists(grads[..k]))
      {
        ghost var l := Lists(grads[..k + 1]);
        assert l[..k] == Lists(grads[..k]) && l[k] == grads[k].undergrads;
        undergradCount := undergradCount + |grads[k].undergrads|;
      }
      assert grads[..|grads|] == grads;
    }

    /** `remove_grad(name)` (ex3/cube_teacher.cpp:99-125): removes the first graduate called
        `name`. Its undergraduates go to the tutor's own list when it was the only graduate,
        and are otherwise dealt in turn to the other graduates, starting from the first and
        skipping the removed one. */
    method RemoveGrad(name: string)
      requires Valid()
      modifies this, grads
      ensures Valid()
      ensures var i := FindGrad(old(grads), name);
        i == old(|grads|) ==> grads == old(grads) && undergrads == old(undergrads) && Lists(grads) == old(Lists(grads))
      ensures var i := FindGrad(old(grads), name);
        i < old(|grads|) ==> grads == old(grads[..i] + grads[i + 1..])
      ensures var i := FindGrad(old(grads), name);
        i < old(|grads|) == 1 ==> undergrads == old(undergrads + grads[i].undergrads)
      ensures var i := FindGrad(old(grads), name);
        i < old(|grads|) && old(|grads|) >= 2 ==>
          undergrads == old(undergrads) && Lists(grads) == Redistribute(old(Lists(grads)), i)
    {
      var i := IndexOfGrad(name);
      if i == |grads| {
        return;
      }
      if |grads| == 1 {
        RemoveOnlyGrad();
      } else {
        RemoveGradAmong(i);
      }
    }

    /** The search loop of `remove_grad` (ex3/cube_teacher.cpp:100-101): the position of
        the first graduate called `name`, or the number of graduates when there is none. */
    method IndexOfGrad(name: string) returns (i: nat)
      ensures i == FindGrad(grads, name)
    {
      i := 0;
      while i < |grads| && grads[i].name != name
        invariant i <= |grads| && forall j :: 0 <= j < i ==> grads[j].name != name
      {
        i := i + 1;
      }
    }

    /** `remove_grad` on the only graduate: its undergraduates move to the tutor. */
    method RemoveOnlyGrad()
      requires |grads| == 1
      modifies this, grads
      ensures Valid() && grads == [] && undergrads == old(undergrads + grads[0].undergrads)
    {
      MoveToTutor(grads[0]);
      EraseGrad(0);
    }

    /** `remove_grad` on graduate `i` of several: its undergraduates are dealt to the
        others, and it is erased. */
    method RemoveGradAmong(i: nat)
      requires Valid() && 2 <= |grads| && i < |grads|
      modifies this, grads
      ensures Valid() && grads == old(grads[..i] + grads[i + 1..]) && undergrads == old(undergrads)
      ensures Lists(grads) == Redistribute(old(Lists(grads)), i)
    {
      ghost var ls := Lists(grads);
      DealAround(i);
      ghost var dealt := Lists(grads);
      EraseGrad(i);
      DropAfterDeal(ls, i, dealt, Lists(grads));
    }

    /** The end of `remove_grad` (ex3/cube_teacher.cpp:119-121): graduate `i`'s list is
        cleared and the graduate is erased; the others keep their lists. */
    method EraseGrad(i: nat)
      requires Valid() && i < |grads|
      modifies this, grads[i]
      ensures Valid() && grads == old(grads[..i] + grads[i + 1..]) && undergrads == old(undergrads)
      ensures Lists(grads) == old(Lists(grads)[..i] + Lists(grads)[i + 1..])
    {
      var g := grads[i];
      var rest := grads[..i] + grads[i + 1..];
      DistinctDrop(grads, i);
      ListsDrop(grads, i);
      ghost var kept := Lists(rest);
      g.undergrads := [];
      assert Lists(rest) == kept;
      grads := rest;
    }

    /** No undergraduate is lost or duplicated by `remove_grad`: the count `statistics`
        gives is unchanged. */
    method RemoveGradKeepsTotal(name: string)
      requires Valid()
      modifies this, grads
      ensures Valid() && Total() == old(Total())
    {
      ghost var ls := Lists(grads);
      ghost var i := FindGrad(grads, name);
      ghost var before := undergrads;
      RemoveGrad(name);
      if i < |ls| {
        if |ls| == 1 {
          assert Lists(grads) == [];
          assert ls == [ls[0]];
          SumLengthsOne(ls[0]);
        } else {
          RedistributeKeepsCount(ls, i);
        }
      }
    }

    /** The single-graduate branch (ex3/cube_teacher.cpp:103-106): the graduate's
        undergraduates are appended to the tutor's own list, one by one. */
    method MoveToTutor(g: Graduate)
      modifies this
      ensures undergrads == old(undergrads) + g.undergrads && grads == old(grads)
    {
      ghost var start := undergrads;
      var us := g.undergrads;
      for k := 0 to |us|
        invariant undergrads == start + us[..k] && grads == old(grads)
      {
        assert us[..k + 1] == us[..k] + [us[k]];
        undergrads := undergrads + [us[k]];
      }
      assert us[..|us|] == us;
    }

    /** One undergraduate handed to graduate `t`; every other list is untouched. */
    method GiveTo(t: nat, u: Undergraduate)
      requires Valid() && t < |grads|
      modifies grads[t]
      ensures Lists(grads) == old(Lists(grads))[t := old(Lists(grads))[t] + [u]]
    {
      grads[t].AddGrad(u);
      assert forall j :: 0 <= j < |grads| && j != t ==> grads[j] != grads[t];
    }

    /** The several-graduates branch (ex3/cube_teacher.cpp:108-118): `index` walks the
        graduates cyclically, stepping once more past the removed graduate `i`, and every
        undergraduate of graduate `i` goes to the graduate `index` names. */
    method DealAround(i: nat)
      requires Valid() && 2 <= |grads| && i < |grads|
      modifies grads
      ensures Lists(grads) == Deal(old(Lists(grads)), old(grads[i].undergrads), i, |grads|)
    {
      ghost var ls := Lists(grads);
      var g := grads[i];
      var us := g.undergrads;
      var index: nat := 0;
      FirstTarget(i, |grads|);
      DealNone(ls, i);
      assert us[..0] == [];
      for k := 0 to |us|
        invariant Skip(index % |grads|, i, |grads|) == Target(k, i, |grads|)
        invariant Lists(grads) == Deal(ls, us[..k], i, |ls|)
      {
        index := DealOne(ls, i, g, us, k, index);
      }
      assert us[..|us|] == us;
    }

    /** One pass of that loop: undergraduate `k` goes to the graduate `index` names, after
        stepping over the removed graduate. */
    method DealOne(ghost ls: seq<seq<Undergraduate>>, i: nat, g: Graduate, us: seq<Undergraduate>,
                   k: nat, index: nat) returns (next: nat)
      requires Valid() && 2 <= |grads| == |ls| && i < |grads| && grads[i] == g && k < |us|
      requires Skip(index % |grads|, i, |grads|) == Target(k, i, |grads|)
      requires Lists(grads) == Deal(ls, us[..k], i, |ls|)
      modifies grads
      ensures Skip(next % |grads|, i, |grads|) == Target(k + 1, i, |grads|)
      ensures Lists(grads) == Deal(ls, us[..k + 1], i, |ls|)
    {
      var s := |grads|;
      SkipStep(index, i, s, k);
      next := index;
      var t := next % s;
      if grads[t] == g {
        next := next + 1;
        t := next % s;
      }
      GiveTo(t, us[k]);
      DealNext(ls, us, k, i);
      next := next + 1;
    }

    /** `remove_grad(name)` then `remove_undergrad(name)`, as the delete menu entry runs them
        (ex3/cube_teacher.cpp:319-329): at most one undergraduate is dropped. */
    method RemovePerson(name: string)
      requires Valid()
      modifies this, grads
      ensures Valid()
      ensures old(Total()) - 1 <= Total() <= old(Total())
    {
      RemoveGradKeepsTotal(name);
      ghost var ls := Lists(grads);
      RemoveUndergrad(name);
      assert Lists(grads) == ls;
    }
  }

  /** Where `index % size` points once the removed graduate is stepped over. */
  function Skip(p: int, i: int, s: int): int
  {
    if p == i then (if p + 1 == s then 0 else p + 1) else p
  }

  /** One step of the walk: when `index % s` names the removed graduate the walk steps
      once more, and either way lands on `Target(k)` and then points at `Target(k + 1)`. */
  lemma SkipStep(index: nat, i: nat, s: nat, k: nat)
    requires 2 <= s && i < s && Skip(index % s, i, s) == Target(k, i, s)
    ensures index % s == i ==>
      (index + 1) % s == Target(k, i, s) && Skip((index + 2) % s, i, s) == Target(k + 1, i, s)
    ensures index % s != i ==>
      index % s == Target(k, i, s) && Skip((index + 1) % s, i, s) == Target(k + 1, i, s)
  {
    ModNext(index, s);
    ModNext(index + 1, s);
    NextTarget(k, i, s);
  }

  /** The first undergraduate goes to position 0 stepped over the removed graduate. */
  lemma FirstTarget(i: nat, s: nat)
    requires 2 <= s && i < s
    ensures Skip(0 % s, i, s) == Target(0, i, s)
  {
    DivModIs(0, s, 0, 0);
    DivModIs(0, s - 1, 0, 0);
  }

  /** After the `k`-th undergraduate goes to `Target(k)`, the next position stepped over the
      removed graduate is `Target(k + 1)`. */
  lemma NextTarget(k: nat, i: nat, s: nat)
    requires 2 <= s && i < s
    ensures var t := Target(k, i, s); Skip(if t == s - 1 then 0 else t + 1, i, s) == Target(k + 1, i, s)
  {
    ModNext(k, s - 1);
  }
}
