/** The missionaries-and-cannibals search of ex5/graph_alg.cpp: `n` missionaries and `n`
    cannibals start on the left bank with a boat that carries at most `c`; a breadth-first
    search over bank states finds a crossing plan. */
module RiverCrossing {
  import opened Pairs
  import Basics

  /** `state` (ex5/graph_alg.cpp:9-14): missionaries and cannibals on the left bank, and the
      boat's bank (0 for left, 1 for right). */
  datatype State = State(lm: int, lc: int, pos: int)

  /** `boat` (ex5/graph_alg.cpp:49-54): missionaries and cannibals aboard. `boat()` is
      value-initialised, so both are 0. */
  datatype Boat = Boat(m: int, c: int)

  // ---------------------------------------------------------------------------------------
  // Comparisons

  /** `state::operator<` (ex5/graph_alg.cpp:16-24). */
  function Less(a: State, b: State): bool
  {
    if a.lm != b.lm then a.lm < b.lm
    else if a.lc != b.lc then a.lc < b.lc
    else a.pos < b.pos
  }

  /** `state::operator>` (ex5/graph_alg.cpp:26-28): `<` with the operands swapped. */
  function Greater(a: State, b: State): (r: bool)
    ensures r <==> Less(b, a)
  {
    Less(b, a)
  }

  /** `state::operator==` (ex5/graph_alg.cpp:30-32): field by field, which is equality of
      states. */
  function Equal(a: State, b: State): (r: bool)
    ensures r <==> a == b
  {
    a.lm == b.lm && a.lc == b.lc && a.pos == b.pos
  }

  /** `<` is lexicographic on (lm, lc, pos): a strict total order whose incomparable pairs are
      exactly the equal ones, which is what `Set<state>` needs to find a state again. */
  lemma LessIsLexicographic(a: State, b: State, d: State)
    ensures !Less(a, a)
    ensures Less(a, b) && Less(b, d) ==> Less(a, d)
    ensures Less(a, b) || a == b || Less(b, a)
    ensures !(Less(a, b) && Less(b, a))
    ensures Less(a, b) <==> a.lm < b.lm || (a.lm == b.lm && a.lc < b.lc)
                            || (a.lm == b.lm && a.lc == b.lc && a.pos < b.pos)
  {
  }

  // ---------------------------------------------------------------------------------------
  // States and moves

  /** `state::valid(n)` (ex5/graph_alg.cpp:34-46): no bank holds a negative count, and on each
      bank the missionaries, if any, are not outnumbered. */
  function Valid(s: State, n: int): bool
  {
    var rm, rc := n - s.lm, n - s.lc;
    if s.lm < 0 || s.lc < 0 || rm < 0 || rc < 0 then false
    else if s.lm != 0 && s.lm < s.lc then false
    else if rm != 0 && rm < rc then false
    else true
  }

  /** A valid state holds every count in `0..n`, and neither bank has more cannibals than a
      non-zero number of missionaries. */
  lemma ValidMeans(s: State, n: int)
    ensures Valid(s, n) <==>
            0 <= s.lm <= n && 0 <= s.lc <= n
            && (s.lm == 0 || s.lc <= s.lm)
            && (n - s.lm == 0 || n - s.lc <= n - s.lm)
  {
  }

  /** Validity does not care which bank is called left: swapping the banks keeps it. */
  lemma ValidMirror(s: State, n: int, pos: int)
    ensures Valid(s, n) <==> Valid(State(n - s.lm, n - s.lc, pos), n)
  {
    ValidMeans(s, n);
    ValidMeans(State(n - s.lm, n - s.lc, pos), n);
  }

  /** `pos ^= 1` (ex5/graph_alg.cpp:94): flip the lowest bit. */
  function Flip(p: int): (q: int)
    ensures (p == 0 <==> q == 1) && (p == 1 <==> q == 0)
  {
    if p % 2 == 0 then p + 1 else p - 1
  }

  /** The loads the loops of ex5/graph_alg.cpp:78-85 try: some people and no more than `c`. */
  predicate Legal(b: Boat, c: int)
  {
    0 <= b.m && 0 <= b.c && 1 <= b.m + b.c <= c
  }

  /** One crossing (ex5/graph_alg.cpp:86-94): the load leaves the boat's bank and the boat
      changes sides. */
  function Apply(s: State, b: Boat): (t: State)
    ensures s.pos == 0 ==> t == State(s.lm - b.m, s.lc - b.c, 1)
    ensures s.pos == 1 ==> t == State(s.lm + b.m, s.lc + b.c, 0)
  {
    var lm := if s.pos == 0 then s.lm - b.m else s.lm + b.m;
    var lc := if s.pos == 0 then s.lc - b.c else s.lc + b.c;
    State(lm, lc, Flip(s.pos))
  }

  /** Rowing the same load back undoes a crossing. */
  lemma ApplyUndo(s: State, b: Boat)
    requires s.pos == 0 || s.pos == 1
    ensures Apply(Apply(s, b), b) == s
  {
  }

  /** A crossing changes the number of people on the left bank by the load, down when the
      boat leaves the left bank and up when it comes back. */
  lemma ApplyMoves(s: State, b: Boat, c: int)
    requires (s.pos == 0 || s.pos == 1) && Legal(b, c)
    ensures s.pos == 0 ==> Apply(s, b).lm + Apply(s, b).lc < s.lm + s.lc
    ensures s.pos == 1 ==> Apply(s, b).lm + Apply(s, b).lc > s.lm + s.lc
  {
  }

  /** Everyone is on the right bank. */
  predicate Goal(s: State)
  {
    s.lm == 0 && s.lc == 0
  }

  /** The start of the search (ex5/graph_alg.cpp:68). */
  function Start(n: int): State
  {
    State(n, n, 0)
  }

  /** Every state a search can hold: counts in `0..n`, boat on either bank. */
  function Universe(n: int): set<State>
  {
    set lm: int, lc: int, pos: int | 0 <= lm <= n && 0 <= lc <= n && 0 <= pos <= 1 :: State(lm, lc, pos)
  }

  lemma InUniverse(s: State, n: int)
    requires Valid(s, n) && (s.pos == 0 || s.pos == 1)
    ensures s in Universe(n)
  {
    assert s == State(s.lm, s.lc, s.pos);
  }

  // ---------------------------------------------------------------------------------------
  // Plans

  /** One step of a plan: a legal load takes `p` to the step's state, which is valid. */
  predicate Crossing(n: int, c: int, p: State, step: Pair<State, Boat>)
  {
    Legal(step.second, c) && Valid(step.first, n) && step.first == Apply(p, step.second)
  }

  /** The state a plan is in before its `i`-th step. */
  function Prior(from: State, path: seq<Pair<State, Boat>>, i: int): State
    requires 0 <= i <= |path|
  {
    if i == 0 then from else path[i - 1].first
  }

  /** A crossing plan from `from`: each step is a legal load taking the previous state to a
      valid one. Steps are (state reached, load) pairs, as `main` stores them in `path`. */
  ghost predicate IsPlan(n: int, c: int, from: State, path: seq<Pair<State, Boat>>)
  {
    forall i :: 0 <= i < |path| ==> Crossing(n, c, Prior(from, path, i), path[i])
  }

  /** Where a plan ends. */
  function EndOf(from: State, path: seq<Pair<State, Boat>>): State
  {
    if path == [] then from else path[|path| - 1].first
  }

  /** The successors of `s` that are valid all lie in `vis`. */
  ghost predicate ClosedAt(n: int, c: int, s: State, vis: set<State>)
  {
    forall b :: Legal(b, c) && Valid(Apply(s, b), n) ==> Apply(s, b) in vis
  }

  /** A plan without its last step is still a plan, and its last step starts where the
      shorter plan ends. */
  lemma PlanInit(n: int, c: int, from: State, path: seq<Pair<State, Boat>>)
    requires IsPlan(n, c, from, path) && path != []
    ensures IsPlan(n, c, from, path[..|path| - 1])
    ensures Crossing(n, c, EndOf(from, path[..|path| - 1]), path[|path| - 1])
  {
    var init := path[..|path| - 1];
    forall i | 0 <= i < |init|
      ensures Crossing(n, c, Prior(from, init, i), init[i])
    {
      assert init[i] == path[i];
      assert Prior(from, init, i) == Prior(from, path, i);
    }
    assert EndOf(from, init) == Prior(from, path, |path| - 1);
  }

  /** A plan that starts in a set closed under valid crossings never leaves it. */
  lemma {:induction false} PlanStaysIn(n: int, c: int, from: State, path: seq<Pair<State, Boat>>, vis: set<State>)
    requires from in vis && IsPlan(n, c, from, path)
    requires forall s :: s in vis ==> ClosedAt(n, c, s, vis)
    ensures EndOf(from, path) in vis
    decreases |path|
  {
    if path != [] {
      var init := path[..|path| - 1];
      PlanInit(n, c, from, path);
      PlanStaysIn(n, c, from, init, vis);
      assert ClosedAt(n, c, EndOf(from, init), vis);
    }
  }

  /** A plan from the predecessor: one more crossing in front. */
  lemma PlanCons(n: int, c: int, p: State, s: State, b: Boat, path: seq<Pair<State, Boat>>)
    requires Legal(b, c) && Valid(s, n) && s == Apply(p, b) && IsPlan(n, c, s, path)
    ensures IsPlan(n, c, p, [Pair(s, b)] + path)
    ensures EndOf(p, [Pair(s, b)] + path) == EndOf(s, path)
  {
    var q := [Pair(s, b)] + path;
    forall i | 0 <= i < |q|
      ensures Crossing(n, c, Prior(p, q, i), q[i])
    {
      if i > 0 {
        assert q[i] == path[i - 1];
        assert Prior(p, q, i) == Prior(s, path, i - 1);
      }
    }
  }

  // ---------------------------------------------------------------------------------------
  // The search

  /** The search's data: the queue `q`, the `vis` set, and the `prev` and `prev_boat` maps. */
  datatype Frontier = Frontier(queue: seq<State>, vis: set<State>,
                               prev: map<State, State>, prevBoat: map<State, Boat>)

  /** The start is visited and has no predecessor; every other visited state has one, and
      `dist` is defined on the visited states; the boat is on one bank or the other. */
  ghost predicate Rooted(n: int, f: Frontier, dist: map<State, nat>)
  {
    Start(n) in f.vis && Start(n) !in f.prev
    && f.vis == f.prev.Keys + {Start(n)} && f.prevBoat.Keys == f.prev.Keys
    && dist.Keys == f.vis
    && (forall s :: s in f.vis ==> s.pos == 0 || s.pos == 1)
  }

  /** The predecessor of `s` is visited, one crossing by a legal load away, and one step
      nearer the start. */
  ghost predicate Link(n: int, c: int, f: Frontier, dist: map<State, nat>, s: State)
    requires Rooted(n, f, dist) && s in f.prev
  {
    f.prev[s] in f.vis && Legal(f.prevBoat[s], c) && Valid(s, n)
    && s == Apply(f.prev[s], f.prevBoat[s]) && dist[s] == dist[f.prev[s]] + 1
  }

  /** The queue holds visited states, each once. */
  ghost predicate Queued(f: Frontier)
  {
    (forall i :: 0 <= i < |f.queue| ==> f.queue[i] in f.vis)
    && (forall i, j :: 0 <= i < j < |f.queue| ==> f.queue[i] != f.queue[j])
  }

  /** What the search keeps true: the visited states form a tree of valid crossings rooted
      at the start, with `dist` the depth, and the queue holds visited states, each once. */
  ghost predicate Searching(n: int, c: int, f: Frontier, dist: map<State, nat>)
  {
    Rooted(n, f, dist) && (forall s :: s in f.prev ==> Link(n, c, f, dist, s)) && Queued(f)
  }

  /** Every visited state that has left the queue was no
      goal, and its valid successors are visited. */
  ghost predicate Settled(n: int, c: int, f: Frontier)
  {
    forall s :: s in f.vis && s !in f.queue ==> !Goal(s) && ClosedAt(n, c, s, f.vis)
  }

  /** `g` extends `f`: more visited states, the queue extended at its back, and exactly the
      newly visited states appended to it. */
  ghost predicate Grows(f: Frontier, g: Frontier)
  {
    f.vis <= g.vis && |f.queue| <= |g.queue| && g.queue[..|f.queue|] == f.queue
    && (forall s :: s in g.vis && s !in f.vis ==> s in g.queue[|f.queue|..])
    && (forall i :: |f.queue| <= i < |g.queue| ==> g.queue[i] !in f.vis)
    && (g.vis == f.vis ==> g.queue == f.queue)
  }

  lemma GrowsTrans(f: Frontier, g: Frontier, h: Frontier)
    requires Grows(f, g) && Grows(g, h)
    ensures Grows(f, h)
  {
    assert h.queue[..|f.queue|] == h.queue[..|g.queue|][..|f.queue|];
    forall s | s in h.vis && s !in f.vis
      ensures s in h.queue[|f.queue|..]
    {
      if s in g.vis {
        var i :| |f.queue| <= i < |g.queue| && g.queue[i] == s;
        assert h.queue[i] == s;
      } else {
        var i :| |g.queue| <= i < |h.queue| && h.queue[i] == s;
        assert h.queue[|f.queue|..][i - |f.queue|] == s;
      }
    }
  }

  lemma GrowsRefl(f: Frontier)
    ensures Grows(f, f)
  {
    assert f.queue[..|f.queue|] == f.queue;
  }

  /** The frontier after `nxt` is reached from `cur` by load `b`: marked visited, its
      predecessor and load recorded, and queued. */
  function Visit(f: Frontier, cur: State, b: Boat, nxt: State): Frontier
  {
    Frontier(f.queue + [nxt], f.vis + {nxt}, f.prev[nxt := cur], f.prevBoat[nxt := b])
  }

  /** Visiting a new valid state keeps the search's invariant, and extends the frontier. */
  lemma VisitKeeps(n: int, c: int, f: Frontier, dist: map<State, nat>, cur: State, b: Boat, nxt: State)
    requires Searching(n, c, f, dist) && cur in f.vis && Legal(b, c)
    requires nxt == Apply(cur, b) && Valid(nxt, n) && nxt !in f.vis
    ensures Searching(n, c, Visit(f, cur, b, nxt), dist[nxt := dist[cur] + 1])
    ensures Grows(f, Visit(f, cur, b, nxt))
  {
    VisitRooted(n, f, dist, cur, b, nxt);
    VisitLinked(n, c, f, dist, cur, b, nxt);
    VisitQueued(f, cur, b, nxt);
    VisitGrows(f, cur, b, nxt);
  }

  lemma VisitRooted(n: int, f: Frontier, dist: map<State, nat>, cur: State, b: Boat, nxt: State)
    requires Rooted(n, f, dist) && cur in f.vis && nxt == Apply(cur, b) && nxt !in f.vis
    ensures Rooted(n, Visit(f, cur, b, nxt), dist[nxt := dist[cur] + 1])
  {
  }

  lemma VisitLinked(n: int, c: int, f: Frontier, dist: map<State, nat>, cur: State, b: Boat, nxt: State)
    requires Searching(n, c, f, dist) && cur in f.vis && Legal(b, c)
    requires nxt == Apply(cur, b) && Valid(nxt, n) && nxt !in f.vis
    requires Rooted(n, Visit(f, cur, b, nxt), dist[nxt := dist[cur] + 1])
    ensures forall s :: s in Visit(f, cur, b, nxt).prev ==>
              Link(n, c, Visit(f, cur, b, nxt), dist[nxt := dist[cur] + 1], s)
  {
    var g, d := Visit(f, cur, b, nxt), dist[nxt := dist[cur] + 1];
    forall s | s in g.prev
      ensures Link(n, c, g, d, s)
    {
      if s != nxt {
        assert Link(n, c, f, dist, s);
      }
    }
  }

  lemma VisitQueued(f: Frontier, cur: State, b: Boat, nxt: State)
    requires Queued(f) && nxt !in f.vis
    ensures Queued(Visit(f, cur, b, nxt))
  {
    var g := Visit(f, cur, b, nxt);
    forall i | 0 <= i < |g.queue|
      ensures g.queue[i] in g.vis
    {
      if i < |f.queue| {
        assert g.queue[i] == f.queue[i];
      }
    }
  }

  lemma VisitGrows(f: Frontier, cur: State, b: Boat, nxt: State)
    requires Queued(f) && nxt !in f.vis
    ensures Grows(f, Visit(f, cur, b, nxt))
  {
    var g := Visit(f, cur, b, nxt);
    assert g.queue[..|f.queue|] == f.queue;
    assert g.queue[|f.queue|..] == [nxt];
  }

  /** One load tried from `cur` (ex5/graph_alg.cpp:80-102): skip the empty load, compute the
      crossing, and keep the new state only if it is valid and not yet visited; then it is
      marked visited before it is queued, so no state is queued twice. */
  method TryBoat(n: int, c: int, cur: State, m: int, cc: int, f: Frontier, ghost dist: map<State, nat>)
    returns (g: Frontier, ghost dist': map<State, nat>)
    requires Searching(n, c, f, dist) && cur in f.vis && 0 <= m && 0 <= cc
    ensures Searching(n, c, g, dist') && Grows(f, g)
    ensures Legal(Boat(m, cc), c) && Valid(Apply(cur, Boat(m, cc)), n) ==> Apply(cur, Boat(m, cc)) in g.vis
  {
    g, dist' := f, dist;
    GrowsRefl(f);
    if m == 0 && cc == 0 {
      return;
    }
    if m + cc > c {
      return;
    }
    var lm, lc := cur.lm, cur.lc;
    if cur.pos == 0 {
      lm := lm - m;
      lc := lc - cc;
    } else {
      lm := lm + m;
      lc := lc + cc;
    }
    var nxt := State(lm, lc, Flip(cur.pos));
    assert nxt == Apply(cur, Boat(m, cc));
    if !Valid(nxt, n) || nxt in f.vis {
      return;
    }
    VisitKeeps(n, c, f, dist, cur, Boat(m, cc), nxt);
    g := Visit(f, cur, Boat(m, cc), nxt);
    dist' := dist[nxt := dist[cur] + 1];
  }

  /** Every valid successor of `cur` by a load that comes before `(m, k)` in the order the
      loops try them is in `vis`. */
  ghost predicate Reached(n: int, c: int, cur: State, vis: set<State>, m: int, k: int)
  {
    forall b :: Legal(b, c) && (b.m < m || (b.m == m && b.c < k)) && Valid(Apply(cur, b), n)
                ==> Apply(cur, b) in vis
  }

  /** Trying load `(m, k)` extends what has been reached. */
  lemma ReachedNext(n: int, c: int, cur: State, vis: set<State>, vis': set<State>, m: int, k: int)
    requires Reached(n, c, cur, vis, m, k) && vis <= vis'
    requires Legal(Boat(m, k), c) && Valid(Apply(cur, Boat(m, k)), n) ==> Apply(cur, Boat(m, k)) in vis'
    ensures Reached(n, c, cur, vis', m, k + 1)
  {
    forall b | Legal(b, c) && (b.m < m || (b.m == m && b.c < k + 1)) && Valid(Apply(cur, b), n)
      ensures Apply(cur, b) in vis'
    {
      if b.m == m && b.c == k {
        assert b == Boat(m, k);
      }
    }
  }

  /** Past the last load with `m` missionaries, every load with `m` has been tried. */
  lemma ReachedRow(n: int, c: int, cur: State, vis: set<State>, m: int, k: int)
    requires Reached(n, c, cur, vis, m, k) && k > c - m
    ensures Reached(n, c, cur, vis, m + 1, 0)
  {
  }

  /** Every load with `m` missionaries that fits beside them (the inner loop of
      ex5/graph_alg.cpp:79-104). */
  method ExpandWith(n: int, c: int, cur: State, m: int, f: Frontier, ghost dist: map<State, nat>)
    returns (g: Frontier, ghost dist': map<State, nat>)
    requires Searching(n, c, f, dist) && cur in f.vis && 0 <= m && Reached(n, c, cur, f.vis, m, 0)
    ensures Searching(n, c, g, dist') && Grows(f, g)
    ensures Reached(n, c, cur, g.vis, m + 1, 0)
  {
    g, dist' := f, dist;
    GrowsRefl(f);
    var cc := 0;
    while cc <= c - m
      invariant 0 <= cc && (cc <= c - m + 1 || cc == 0)
      invariant Searching(n, c, g, dist') && Grows(f, g)
      invariant Reached(n, c, cur, g.vis, m, cc)
    {
      ghost var before := g;
      g, dist' := TryBoat(n, c, cur, m, cc, g, dist');
      GrowsTrans(f, before, g);
      ReachedNext(n, c, cur, before.vis, g.vis, m, cc);
      cc := cc + 1;
    }
    ReachedRow(n, c, cur, g.vis, m, cc);
  }

  /** The loops over loads (ex5/graph_alg.cpp:78-104): every load of `m` missionaries and
      `cc` cannibals with `m + cc <= c`, in that order. Afterwards every valid successor of
      `cur` is visited. */
  method Expand(n: int, c: int, cur: State, f: Frontier, ghost dist: map<State, nat>)
    returns (g: Frontier, ghost dist': map<State, nat>)
    requires Searching(n, c, f, dist) && cur in f.vis
    ensures Searching(n, c, g, dist') && Grows(f, g)
    ensures ClosedAt(n, c, cur, g.vis)
  {
    g, dist' := f, dist;
    GrowsRefl(f);
    var m := 0;
    while m <= c
      invariant 0 <= m && (m <= c + 1 || m == 0)
      invariant Searching(n, c, g, dist') && Grows(f, g)
      invariant Reached(n, c, cur, g.vis, m, 0)
    {
      ghost var before := g;
      g, dist' := ExpandWith(n, c, cur, m, g, dist');
      GrowsTrans(f, before, g);
      m := m + 1;
    }
  }

  /** Whatever is in a suffix of a sequence is in the sequence. */
  lemma SuffixIn<T>(q: seq<T>, k: nat)
    requires k <= |q|
    ensures forall x :: x in q[k..] ==> x in q
  {
    forall x | x in q[k..]
      ensures x in q
    {
      var i :| 0 <= i < |q[k..]| && q[k..][i] == x;
      assert q[k + i] == x;
    }
  }

  /** Dequeuing `cur` and expanding it keeps the settled part settled. */
  lemma SettleStep(n: int, c: int, f: Frontier, rest: Frontier, g: Frontier, cur: State)
    requires Settled(n, c, f) && f.queue != [] && cur == f.queue[0]
    requires rest == f.(queue := f.queue[1..]) && Grows(rest, g)
    requires !Goal(cur) && ClosedAt(n, c, cur, g.vis)
    ensures Settled(n, c, g)
  {
    SuffixIn(g.queue, |rest.queue|);
    assert f.queue == [cur] + rest.queue;
    forall s | s in g.vis && s !in g.queue && s != cur
      ensures !Goal(s) && ClosedAt(n, c, s, g.vis)
    {
      assert s in f.vis;
      assert g.queue[..|rest.queue|] == rest.queue;
      assert s !in rest.queue;
    }
  }

  /** One round of the search loop (ex5/graph_alg.cpp:72-104): dequeue a state; stop if it
      is a goal, expand it otherwise. */
  method Step(n: int, c: int, f: Frontier, ghost dist: map<State, nat>)
    returns (flag: bool, goal: State, g: Frontier, ghost dist': map<State, nat>)
    requires Searching(n, c, f, dist) && Settled(n, c, f) && f.queue != []
    ensures Searching(n, c, g, dist')
    ensures flag ==> goal in g.vis && Goal(goal)
    ensures !flag ==> Settled(n, c, g)
    ensures f.vis <= g.vis && g.vis - f.vis <= Universe(n)
    ensures g.vis == f.vis ==> |g.queue| < |f.queue|
  {
    var cur := f.queue[0];
    var rest := f.(queue := f.queue[1..]);
    if Goal(cur) {
      return true, cur, rest, dist;
    }
    flag, goal := false, cur;
    g, dist' := Expand(n, c, cur, rest, dist);
    SettleStep(n, c, f, rest, g, cur);
    forall s | s in g.vis - f.vis
      ensures s in Universe(n)
    {
      assert s in g.prev;
      InUniverse(s, n);
    }
  }

  /** Visiting states of `u` leaves fewer of them unvisited. */
  lemma FewerUnvisited<T>(u: set<T>, a: set<T>, b: set<T>)
    requires a <= b && b - a <= u && a != b
    ensures |u - b| < |u - a|
  {
    assert u - a == (u - b) + (b - a);
    assert (u - b) * (b - a) == {};
    var x :| x in b && x !in a;
    assert x in b - a;
  }

  /** With the queue used up, every visited state is settled. */
  lemma SettledAll(n: int, c: int, f: Frontier)
    requires Settled(n, c, f) && f.queue == []
    ensures forall s :: s in f.vis ==> !Goal(s) && ClosedAt(n, c, s, f.vis)
  {
  }

  /** The breadth-first search of `main` (ex5/graph_alg.cpp:63-105): from `(n, n, 0)`,
      dequeue a state, stop at the first one with nobody left on the left bank, and
      otherwise queue its unvisited valid successors. Either that goal was found, or the
      visited states are closed under valid crossings and none of them is a goal. */
  method Bfs(n: int, c: int) returns (flag: bool, goal: State, f: Frontier, ghost dist: map<State, nat>)
    ensures Searching(n, c, f, dist)
    ensures flag ==> goal in f.vis && Goal(goal)
    ensures !flag ==> forall s :: s in f.vis ==> !Goal(s) && ClosedAt(n, c, s, f.vis)
  {
    var start := Start(n);
    f := Frontier([start], {start}, map[], map[]);
    dist := map[start := 0];
    flag := false;
    goal := start;
    while f.queue != [] && !flag
      invariant Searching(n, c, f, dist)
      invariant !flag ==> Settled(n, c, f)
      invariant flag ==> goal in f.vis && Goal(goal)
      decreases |Universe(n) - f.vis|, |f.queue|
    {
      var g;
      ghost var dist';
      flag, goal, g, dist' := Step(n, c, f, dist);
      if g.vis != f.vis {
        FewerUnvisited(Universe(n), f.vis, g.vis);
      }
      f, dist := g, dist';
    }
    if !flag {
      SettledAll(n, c, f);
    }
  }

  // ---------------------------------------------------------------------------------------
  // Path reconstruction

  /** `prev[cur]` (ex5/graph_alg.cpp:110): `Map::operator[]` yields a default `state()`,
      `(0, 0, 0)`, for a state with no entry. */
  function Back(prev: map<State, State>, s: State): State
  {
    if s in prev then prev[s] else State(0, 0, 0)
  }

  /** The state the reconstruction loop holds after `k` rounds from `s`. */
  function Trace(prev: map<State, State>, s: State, k: nat): State
    decreases k
  {
    if k == 0 then s else Trace(prev, Back(prev, s), k - 1)
  }

  /** The reconstruction as written (ex5/graph_alg.cpp:106-111) runs before `flag` is
      checked and starts from `(0, 0, 1)`. When the search found no goal, that state has no
      predecessor, the default `(0, 0, 0)` has none either, and the loop, which stops only at
      `(n, n, 0)`, never ends. */
  lemma ReconstructNeverEnds(n: int, c: int, f: Frontier, dist: map<State, nat>, k: nat)
    requires Searching(n, c, f, dist)
    requires forall s :: s in f.vis ==> !Goal(s)
    ensures Trace(f.prev, State(0, 0, 1), k) != Start(n)
  {
    assert !Goal(Start(n));
    assert State(0, 0, 1) !in f.vis;
    NoDefaultEntry(n, c, f, dist);
    TraceStuck(f.prev, k);
  }

  /** Every state a search reaches with the boat on the left bank has somebody there: a
      crossing onto the left bank brings somebody with it. So `(0, 0, 0)` never has a
      predecessor. */
  lemma NoDefaultEntry(n: int, c: int, f: Frontier, dist: map<State, nat>)
    requires Searching(n, c, f, dist)
    ensures forall s :: s in f.prev && s.pos == 0 ==> s.lm + s.lc >= 1
    ensures State(0, 0, 0) !in f.prev
  {
    forall s | s in f.prev && s.pos == 0
      ensures s.lm + s.lc >= 1
    {
      var p, b := f.prev[s], f.prevBoat[s];
      ApplyMoves(p, b, c);
      assert p.pos == 1;
      assert p in f.prev;
    }
  }

  /** A goal the search finds is `(0, 0, 1)`, the state the reconstruction of
      ex5/graph_alg.cpp:106 starts from, unless nobody had to cross at all. */
  lemma GoalOnRightBank(n: int, c: int, f: Frontier, dist: map<State, nat>, goal: State)
    requires Searching(n, c, f, dist) && goal in f.vis && Goal(goal) && n != 0
    ensures goal == State(0, 0, 1)
  {
    NoDefaultEntry(n, c, f, dist);
    assert goal in f.prev;
  }

  /** With a negative `n` no state is valid, so the search visits only the start, finds no
      goal, and the reconstruction as written never ends: `-1 2` is an input that hangs. */
  lemma NegativeNeverEnds(n: int, c: int, f: Frontier, dist: map<State, nat>, k: nat)
    requires Searching(n, c, f, dist) && n < 0
    ensures f.vis == {Start(n)}
    ensures Trace(f.prev, State(0, 0, 1), k) != Start(n)
  {
    forall s | s in f.prev
      ensures Valid(s, n)
    {
      assert Link(n, c, f, dist, s);
    }
    assert f.prev.Keys == {};
    ReconstructNeverEnds(n, c, f, dist, k);
  }

  lemma {:induction false} TraceStuck(prev: map<State, State>, k: nat)
    requires State(0, 0, 1) !in prev && State(0, 0, 0) !in prev
    ensures k > 0 ==> Trace(prev, State(0, 0, 1), k) == State(0, 0, 0)
  {
    if k > 1 {
      TraceZero(prev, k - 1);
    }
  }

  lemma {:induction false} TraceZero(prev: map<State, State>, k: nat)
    requires State(0, 0, 0) !in prev
    ensures Trace(prev, State(0, 0, 0), k) == State(0, 0, 0)
  {
    if k > 0 {
      TraceZero(prev, k - 1);
    }
  }

  /** One step back along `prev`: the plan from `cur` gains the crossing into `cur` in front,
      and the predecessor is nearer the start. */
  lemma StepBack(n: int, c: int, f: Frontier, dist: map<State, nat>, cur: State, goal: State,
                 rev: seq<Pair<State, Boat>>)
    requires Searching(n, c, f, dist) && cur in f.prev
    requires IsPlan(n, c, cur, Basics.Reverse(rev)) && EndOf(cur, Basics.Reverse(rev)) == goal
    ensures f.prev[cur] in f.vis && dist[f.prev[cur]] < dist[cur]
    ensures IsPlan(n, c, f.prev[cur], Basics.Reverse(rev + [Pair(cur, f.prevBoat[cur])]))
    ensures EndOf(f.prev[cur], Basics.Reverse(rev + [Pair(cur, f.prevBoat[cur])])) == goal
  {
    var step := Pair(cur, f.prevBoat[cur]);
    PlanCons(n, c, f.prev[cur], cur, f.prevBoat[cur], Basics.Reverse(rev));
    Basics.ReverseAppend(rev, [step]);
    assert Basics.Reverse([step]) == [step];
  }

  /** The reconstruction once a goal is known (ex5/graph_alg.cpp:106-112): follow `prev` and
      `prev_boat` back to the start, collecting (state, load) pairs, then reverse them. The
      result is a crossing plan from the start to the goal. */
  method Reconstruct(n: int, c: int, goal: State, f: Frontier, ghost dist: map<State, nat>)
    returns (path: seq<Pair<State, Boat>>)
    requires Searching(n, c, f, dist) && goal in f.vis
    ensures IsPlan(n, c, Start(n), path) && EndOf(Start(n), path) == goal
  {
    var rev: seq<Pair<State, Boat>> := [];
    var cur := goal;
    assert Basics.Reverse(rev) == [];
    while cur.lm != n || cur.lc != n || cur.pos != 0
      invariant cur in f.vis
      invariant IsPlan(n, c, cur, Basics.Reverse(rev)) && EndOf(cur, Basics.Reverse(rev)) == goal
      decreases dist[cur]
    {
      assert cur != Start(n);
      StepBack(n, c, f, dist, cur, goal, rev);
      rev := rev + [Pair(cur, f.prevBoat[cur])];
      cur := f.prev[cur];
    }
    path := Basics.Reverse(rev);
  }

  /** What `main` reports. */
  datatype Answer = TooFew | NoSolution | Solution(path: seq<Pair<State, Boat>>)

  /** `main` (ex5/graph_alg.cpp:56-116) with `flag` checked before the reconstruction: a
      boat for fewer than two is refused; otherwise the answer is a crossing plan from
      `(n, n, 0)` to a state with nobody on the left bank, or "no solution" exactly when no
      plan reaches such a state. */
  method Solve(n: int, c: int) returns (a: Answer)
    ensures a == TooFew <==> c < 2
    ensures a.Solution? ==> IsPlan(n, c, Start(n), a.path) && Goal(EndOf(Start(n), a.path))
    ensures a.NoSolution? ==>
              forall path :: IsPlan(n, c, Start(n), path) ==> !Goal(EndOf(Start(n), path))
  {
    if c < 2 {
      return TooFew;
    }
    var flag, goal, f, dist := Bfs(n, c);
    if !flag {
      forall path | IsPlan(n, c, Start(n), path)
        ensures !Goal(EndOf(Start(n), path))
      {
        PlanStaysIn(n, c, Start(n), path, f.vis);
      }
      return NoSolution;
    }
    var path := Reconstruct(n, c, goal, f, dist);
    return Solution(path);
  }
}
