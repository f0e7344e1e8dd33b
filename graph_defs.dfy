/** The vocabulary `Graph<T>` is specified in: edges, adjacency lists, paths and degree
    counts. The weight type `T` is `int`. */
module GraphDefs {
  /** `Graph::Edge`: an edge `from -> to` with its weight. */
  datatype Edge = Edge(from: nat, to: nat, weight: int)

  /** Every list `adj[v]` holds edges leaving `v` towards a vertex of the graph. */
  ghost predicate WellFormed(adj: seq<seq<Edge>>)
  {
    forall v, e :: 0 <= v < |adj| && e in adj[v] ==> e.from == v && e.to < |adj|
  }

  /** The number of edges in `l` that end at `w`. */
  function CountTo(l: seq<Edge>, w: nat): (n: nat)
    ensures n <= |l|
  {
    if l == [] then 0 else CountTo(l[..|l| - 1], w) + (if l[|l| - 1].to == w then 1 else 0)
  }

  /** An undirected graph stores each edge in both directions: as many `u -> v` edges in
      `adj[u]` as `v -> u` edges in `adj[v]`. */
  ghost predicate Symmetric(adj: seq<seq<Edge>>)
  {
    forall u, v :: 0 <= u < |adj| && 0 <= v < |adj| ==> CountTo(adj[u], v) == CountTo(adj[v], u)
  }

  /** Some stored edge goes from `u` to `w`. */
  ghost predicate HasEdge(adj: seq<seq<Edge>>, u: nat, w: nat)
  {
    u < |adj| && exists e :: e in adj[u] && e.to == w
  }

  /** `p` is a walk along stored edges. */
  ghost predicate IsPath(adj: seq<seq<Edge>>, p: seq<nat>)
  {
    forall i :: 0 <= i < |p| - 1 ==> HasEdge(adj, p[i], p[i + 1])
  }

  /** `t` is reachable from `s` (every vertex reaches itself). */
  ghost predicate Reachable(adj: seq<seq<Edge>>, s: nat, t: nat)
  {
    exists p :: |p| > 0 && p[0] == s && p[|p| - 1] == t && IsPath(adj, p)
  }

  /** `p` is a chain of stored edges from `s` to `t`. */
  ghost predicate WeightedPath(adj: seq<seq<Edge>>, s: nat, t: nat, p: seq<Edge>)
  {
    (p == [] ==> s == t) &&
    (p != [] ==> p[0].from == s && p[|p| - 1].to == t) &&
    (forall i :: 0 <= i < |p| ==> p[i].from < |adj| && p[i] in adj[p[i].from]) &&
    (forall i :: 0 <= i < |p| - 1 ==> p[i].to == p[i + 1].from)
  }

  /** The total weight of a chain of edges. */
  function Weight(p: seq<Edge>): int
  {
    if p == [] then 0 else Weight(p[..|p| - 1]) + p[|p| - 1].weight
  }

  /** No stored edge has a negative weight. */
  ghost predicate NonNegative(adj: seq<seq<Edge>>)
  {
    forall v, e :: 0 <= v < |adj| && e in adj[v] ==> e.weight >= 0
  }

  /** All edges of the lists, list by list, as `edges()` collects them. */
  function Flatten(adj: seq<seq<Edge>>): seq<Edge>
  {
    if adj == [] then [] else Flatten(adj[..|adj| - 1]) + adj[|adj| - 1]
  }

  /** The number of edges into `w` from the vertices below `n` that are not `done`. */
  function InFrom(adj: seq<seq<Edge>>, done: seq<bool>, w: nat, n: nat): nat
    requires n <= |adj| && n <= |done|
  {
    if n == 0 then 0
    else InFrom(adj, done, w, n - 1) + (if done[n - 1] then 0 else CountTo(adj[n - 1], w))
  }

  /** The number of `true` entries. */
  function CountTrue(s: seq<bool>): (n: nat)
    ensures n <= |s|
  {
    if s == [] then 0 else CountTrue(s[..|s| - 1]) + (if s[|s| - 1] then 1 else 0)
  }

  /** A non-empty set of vertices each of which has a stored edge from inside the set: the
      vertices of a cycle, and what Kahn's algorithm leaves behind on a cyclic graph. */
  ghost predicate IsCore(adj: seq<seq<Edge>>, core: set<nat>)
  {
    core != {} && (forall v :: v in core ==> v < |adj|) &&
    forall v :: v in core ==> exists u :: u in core && HasEdge(adj, u, v)
  }

  ghost predicate HasCore(adj: seq<seq<Edge>>)
  {
    exists core :: IsCore(adj, core)
  }

  /** A topological order: every vertex exactly once, and each edge `u -> v` with `u` listed
      before `v`. */
  ghost predicate IsTopologicalOrder(adj: seq<seq<Edge>>, r: seq<nat>)
  {
    |r| == |adj| &&
    (forall i :: 0 <= i < |r| ==> r[i] < |adj|) &&
    (forall i, j :: 0 <= i < j < |r| ==> r[i] != r[j]) &&
    (forall i, j :: 0 <= i < |r| && 0 <= j < |r| && HasEdge(adj, r[i], r[j]) ==> i < j)
  }

  // ---------------------------------------------------------------------------------------
  // Counting edges

  lemma {:induction false} CountToAppend(a: seq<Edge>, b: seq<Edge>, w: nat)
    ensures CountTo(a + b, w) == CountTo(a, w) + CountTo(b, w)
    decreases |b|
  {
    if b == [] {
      assert a + b == a;
    } else {
      assert (a + b)[..|a + b| - 1] == a + b[..|b| - 1];
      CountToAppend(a, b[..|b| - 1], w);
    }
  }

  /** Dropping one edge lowers the count of its end point by one and no other count. */
  lemma CountToDelete(l: seq<Edge>, i: nat, w: nat)
    requires i < |l|
    ensures CountTo(l[..i] + l[i + 1..], w) == CountTo(l, w) - (if l[i].to == w then 1 else 0)
  {
    assert l == l[..i] + [l[i]] + l[i + 1..];
    CountToAppend(l[..i] + [l[i]], l[i + 1..], w);
    CountToAppend(l[..i], [l[i]], w);
    CountToAppend(l[..i], l[i + 1..], w);
    assert CountTo([l[i]], w) == if l[i].to == w then 1 else 0 by {
      assert [l[i]][..0] == [];
    }
  }

  /** A list counts an end point exactly when one of its edges ends there. */
  lemma {:induction false} CountToPositive(l: seq<Edge>, w: nat)
    ensures CountTo(l, w) > 0 <==> exists e :: e in l && e.to == w
  {
    if l != [] {
      CountToPositive(l[..|l| - 1], w);
      if CountTo(l[..|l| - 1], w) > 0 {
        var e :| e in l[..|l| - 1] && e.to == w;
        assert e in l;
      }
      if exists e :: e in l && e.to == w {
        var e :| e in l && e.to == w;
        if e != l[|l| - 1] {
          assert e in l[..|l| - 1];
        }
      }
    }
  }

  /** Summed over all possible end points below `n`, the counts of a list whose edges all end
      below `n` add up to its length. */
  function CountBelow(l: seq<Edge>, n: nat): nat
  {
    if n == 0 then 0 else CountBelow(l, n - 1) + CountTo(l, n - 1)
  }

  lemma {:induction false} CountBelowAppend(a: seq<Edge>, b: seq<Edge>, n: nat)
    ensures CountBelow(a + b, n) == CountBelow(a, n) + CountBelow(b, n)
  {
    if n > 0 {
      CountBelowAppend(a, b, n - 1);
      CountToAppend(a, b, n - 1);
    }
  }

  lemma {:induction false} CountBelowSingle(e: Edge, n: nat)
    ensures CountBelow([e], n) == if e.to < n then 1 else 0
  {
    if n > 0 {
      CountBelowSingle(e, n - 1);
      assert [e][..0] == [];
    }
  }

  lemma {:induction false} CountBelowEmpty(n: nat)
    ensures CountBelow([], n) == 0
  {
    if n > 0 {
      CountBelowEmpty(n - 1);
    }
  }

  lemma {:induction false} CountBelowLength(l: seq<Edge>, n: nat)
    requires forall e :: e in l ==> e.to < n
    ensures CountBelow(l, n) == |l|
  {
    if l == [] {
      CountBelowEmpty(n);
    } else {
      var last := l[|l| - 1];
      assert l == l[..|l| - 1] + [last];
      assert last in l;
      CountBelowLength(l[..|l| - 1], n);
      CountBelowAppend(l[..|l| - 1], [last], n);
      CountBelowSingle(last, n);
      assert CountBelow([last], n) == 1;
      assert CountBelow(l[..|l| - 1], n) == |l| - 1;
    }
  }

  /** The number of edges into `w` from all vertices below `n`. */
  function TotalTo(adj: seq<seq<Edge>>, w: nat, n: nat): nat
    requires n <= |adj|
  {
    if n == 0 then 0 else TotalTo(adj, w, n - 1) + CountTo(adj[n - 1], w)
  }

  /** In an undirected graph the edges stored into `v` from all lists number as many as the
      edges stored in `adj[v]`. */
  lemma UndirectedInEqualsOut(adj: seq<seq<Edge>>, v: nat)
    requires WellFormed(adj) && Symmetric(adj) && v < |adj|
    ensures TotalTo(adj, v, |adj|) == |adj[v]|
  {
    SymmetricTotal(adj, v, |adj|);
    CountBelowLength(adj[v], |adj|);
  }

  lemma {:induction false} SymmetricTotal(adj: seq<seq<Edge>>, v: nat, n: nat)
    requires Symmetric(adj) && v < |adj| && n <= |adj|
    ensures TotalTo(adj, v, n) == CountBelow(adj[v], n)
  {
    if n > 0 {
      SymmetricTotal(adj, v, n - 1);
    }
  }

  // ---------------------------------------------------------------------------------------
  // Paths and reachability

  lemma ReachableRefl(adj: seq<seq<Edge>>, s: nat)
    ensures Reachable(adj, s, s)
  {
    assert IsPath(adj, [s]);
  }

  /** A vertex reachable from `s` extends by one stored edge. */
  lemma ReachableStep(adj: seq<seq<Edge>>, s: nat, u: nat, e: Edge)
    requires Reachable(adj, s, u) && u < |adj| && e in adj[u]
    ensures Reachable(adj, s, e.to)
  {
    var p :| |p| > 0 && p[0] == s && p[|p| - 1] == u && IsPath(adj, p);
    var q := p + [e.to];
    assert HasEdge(adj, q[|p| - 1], q[|p|]);
    assert IsPath(adj, q);
  }

  /** A set holding `s` that every stored edge leaving it stays inside holds every vertex
      reachable from `s`. */
  lemma ClosedHoldsReachable(adj: seq<seq<Edge>>, inside: set<nat>, s: nat, t: nat)
    requires s in inside
    requires forall u, e :: u < |adj| && u in inside && e in adj[u] ==> e.to in inside
    requires Reachable(adj, s, t)
    ensures t in inside
  {
    var p :| |p| > 0 && p[0] == s && p[|p| - 1] == t && IsPath(adj, p);
    var k := 0;
    while k < |p| - 1
      invariant 0 <= k < |p| && p[k] in inside
    {
      assert HasEdge(adj, p[k], p[k + 1]);
      var e :| e in adj[p[k]] && e.to == p[k + 1];
      k := k + 1;
    }
  }

  /** A chain of edges witnesses reachability. */
  lemma WeightedPathReachable(adj: seq<seq<Edge>>, s: nat, t: nat, p: seq<Edge>)
    requires WeightedPath(adj, s, t, p)
    ensures Reachable(adj, s, t)
  {
    var q := [s] + seq(|p|, i requires 0 <= i < |p| => p[i].to);
    forall i | 0 <= i < |q| - 1
      ensures HasEdge(adj, q[i], q[i + 1])
    {
      assert p[i] in adj[p[i].from] && p[i].to == q[i + 1];
      if i > 0 {
        assert p[i - 1].to == p[i].from;
      }
    }
    assert IsPath(adj, q);
  }

  /** A chain of edges extends by an edge leaving its end. */
  lemma WeightedPathStep(adj: seq<seq<Edge>>, s: nat, u: nat, p: seq<Edge>, e: Edge)
    requires WeightedPath(adj, s, u, p) && u < |adj| && e in adj[u] && e.from == u
    ensures WeightedPath(adj, s, e.to, p + [e]) && Weight(p + [e]) == Weight(p) + e.weight
  {
    assert (p + [e])[..|p|] == p;
  }

  /** With no negative weights, no chain of edges weighs less than nothing. */
  lemma {:induction false} WeightNonNegative(adj: seq<seq<Edge>>, p: seq<Edge>)
    requires NonNegative(adj)
    requires forall i :: 0 <= i < |p| ==> p[i].from < |adj| && p[i] in adj[p[i].from]
    ensures Weight(p) >= 0
  {
    if p != [] {
      WeightNonNegative(adj, p[..|p| - 1]);
    }
  }

  // ---------------------------------------------------------------------------------------
  // Counting what is left

  lemma {:induction false} CountTrueSet(s: seq<bool>, u: nat)
    requires u < |s| && !s[u]
    ensures CountTrue(s[u := true]) == CountTrue(s) + 1
  {
    var t := s[u := true];
    if u < |s| - 1 {
      assert t[..|t| - 1] == s[..|s| - 1][u := true];
      CountTrueSet(s[..|s| - 1], u);
    } else {
      assert t[..|t| - 1] == s[..|s| - 1];
    }
  }

  lemma {:induction false} CountTrueAll(s: seq<bool>)
    ensures CountTrue(s) == |s| <==> forall i :: 0 <= i < |s| ==> s[i]
  {
    if s != [] {
      CountTrueAll(s[..|s| - 1]);
      assert forall i :: 0 <= i < |s| - 1 ==> s[..|s| - 1][i] == s[i];
    }
  }

  lemma {:induction false} CountTrueNone(n: nat)
    ensures CountTrue(seq(n, _ => false)) == 0
  {
    if n > 0 {
      assert seq(n, _ => false)[..n - 1] == seq(n - 1, _ => false);
      CountTrueNone(n - 1);
    }
  }

  /** Marking an unmarked vertex `done` takes its edges out of every in-count. */
  lemma {:induction false} InFromMark(adj: seq<seq<Edge>>, done: seq<bool>, v: nat, w: nat, n: nat)
    requires n <= |adj| && n <= |done| && v < |done| && !done[v]
    ensures InFrom(adj, done[v := true], w, n) == InFrom(adj, done, w, n) - (if v < n then CountTo(adj[v], w) else 0)
    ensures v < n ==> InFrom(adj, done, w, n) >= CountTo(adj[v], w)
  {
    if n > 0 {
      InFromMark(adj, done, v, w, n - 1);
    }
  }

  /** An in-count is zero exactly when no vertex left below `n` has an edge into `w`. */
  lemma {:induction false} InFromZero(adj: seq<seq<Edge>>, done: seq<bool>, w: nat, n: nat)
    requires n <= |adj| && n <= |done|
    ensures InFrom(adj, done, w, n) == 0 <==> forall u :: 0 <= u < n && !done[u] ==> !HasEdge(adj, u, w)
  {
    if n > 0 {
      InFromZero(adj, done, w, n - 1);
      CountToPositive(adj[n - 1], w);
    }
  }

  /** With nothing done, the in-count is the total count. */
  lemma {:induction false} InFromNone(adj: seq<seq<Edge>>, w: nat, n: nat)
    requires n <= |adj|
    ensures InFrom(adj, seq(|adj|, _ => false), w, n) == TotalTo(adj, w, n)
  {
    if n > 0 {
      InFromNone(adj, w, n - 1);
    }
  }

  /** When a core exists no order lists every vertex with each edge forwards: the core's
      first listed vertex has an edge from a core vertex listed no earlier. */
  lemma CoreHasNoOrder(adj: seq<seq<Edge>>, r: seq<nat>)
    requires HasCore(adj)
    ensures !IsTopologicalOrder(adj, r)
  {
    if |r| == |adj| && (forall i :: 0 <= i < |r| ==> r[i] < |adj|) &&
       (forall i, j :: 0 <= i < j < |r| ==> r[i] != r[j])
    {
      var core :| IsCore(adj, core);
      AllListed(r, |adj|);
      var k :| k in core;
      var first := FirstIn(r, core, Index(r, k));
      var u :| u in core && HasEdge(adj, u, r[first]);
      var j := Index(r, u);
      assert first <= j && HasEdge(adj, r[j], r[first]);
    }
  }

  /** The first position of `r` whose vertex lies in `core`. */
  lemma FirstIn(r: seq<nat>, core: set<nat>, k: nat) returns (first: nat)
    requires k < |r| && r[k] in core
    ensures first < |r| && r[first] in core
    ensures forall j :: 0 <= j < first ==> r[j] !in core
  {
    first := k;
    var i := 0;
    while i < first
      invariant 0 <= i <= first < |r| && r[first] in core
      invariant forall j :: 0 <= j < i ==> r[j] !in core
    {
      if r[i] in core {
        first := i;
      } else {
        i := i + 1;
      }
    }
  }

  /** A duplicate-free list of `n` vertices below `n` lists every vertex below `n`. */
  lemma AllListed(r: seq<nat>, n: nat)
    requires |r| == n && (forall i :: 0 <= i < |r| ==> r[i] < n)
    requires forall i, j :: 0 <= i < j < |r| ==> r[i] != r[j]
    ensures forall v: nat :: v < n ==> v in r
  {
    var listed := ToSet(r);
    var all := Below(n);
    ToSetSize(r);
    assert listed <= all by {
      forall x | x in listed
        ensures x in all
      {
        assert x in r;
        var i :| 0 <= i < |r| && r[i] == x;
      }
    }
    SubsetEqualSize(listed, all);
    forall v: nat | v < n
      ensures v in r
    {
      assert v in all;
    }
  }

  /** The position of a listed vertex. */
  function Index(r: seq<nat>, v: nat): (i: nat)
    requires v in r
    ensures i < |r| && r[i] == v
  {
    if r[0] == v then 0 else 1 + Index(r[1..], v)
  }

  /** The vertices listed in `r`. */
  function ToSet(r: seq<nat>): (s: set<nat>)
    ensures forall x :: x in s <==> x in r
  {
    if r == [] then {} else ToSet(r[..|r| - 1]) + {r[|r| - 1]}
  }

  /** The vertices below `n`. */
  function Below(n: nat): (s: set<nat>)
    ensures forall x: nat :: x in s <==> x < n
    ensures |s| == n
  {
    if n == 0 then {}
    else
      var below := Below(n - 1);
      assert n - 1 !in below;
      assert below * {n - 1} == {};
      below + {n - 1}
  }

  lemma {:induction false} ToSetSize(r: seq<nat>)
    requires forall i, j :: 0 <= i < j < |r| ==> r[i] != r[j]
    ensures |ToSet(r)| == |r|
  {
    if r != [] {
      ToSetSize(r[..|r| - 1]);
      assert r[|r| - 1] !in r[..|r| - 1];
    }
  }

  lemma SubsetEqualSize<X>(a: set<X>, b: set<X>)
    requires a <= b && |a| == |b|
    ensures a == b
  {
    if a != b {
      var x :| x in b && x !in a;
      SubsetSize(a, b - {x});
    }
  }

  lemma SubsetSize<X>(a: set<X>, b: set<X>)
    requires a <= b
    ensures |a| <= |b|
  {
    if a != {} {
      var x :| x in a;
      SubsetSize(a - {x}, b - {x});
    }
  }
}
