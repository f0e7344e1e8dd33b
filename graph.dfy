/** `Graph<T>`: a directed or undirected graph over vertices `0 .. count-1` stored as
    adjacency lists, with depth- and breadth-first traversal, the array-scan version of
    Dijkstra's algorithm, degree counts and Kahn's topological sort. Weights are `int`. */
module Graphs {
  import opened Errors
  import opened Pairs
  import opened GraphDefs

  /** A distance of `dijkstra`: `Infinite` stands for `numeric_limits<T>::max()`. */
  datatype Dist = Finite(d: int) | Infinite

  /** `a < b` on distances. */
  predicate Shorter(a: Dist, b: Dist)
  {
    a.Finite? && (b.Infinite? || a.d < b.d)
  }

  /** The vertices not yet visited. */
  ghost function Unvisited(visited: seq<bool>): set<nat>
  {
    set u: nat | u < |visited| && !visited[u]
  }

  /** The lists after `add_edge(from, to, weight)`: the edge is appended to `adj[from]`, and
      in an undirected graph the reverse edge to `adj[to]` unless it is a self-loop. */
  function Added(adj: seq<seq<Edge>>, directed: bool, from: nat, to: nat, weight: int): seq<seq<Edge>>
    requires from < |adj| && to < |adj|
  {
    var a := adj[from := adj[from] + [Edge(from, to, weight)]];
    if !directed && from != to then a[to := a[to] + [Edge(to, from, weight)]] else a
  }

  /** The position of the first edge of `l` ending at `to`, or `|l|`. */
  function FirstTo(l: seq<Edge>, to: nat): (i: nat)
    ensures i <= |l|
    ensures i < |l| ==> l[i].to == to
    ensures forall k :: 0 <= k < i ==> l[k].to != to
  {
    if l == [] then 0 else if l[0].to == to then 0 else 1 + FirstTo(l[1..], to)
  }

  /** `l` without its first edge ending at `to`. */
  function DropFirstTo(l: seq<Edge>, to: nat): seq<Edge>
  {
    var i := FirstTo(l, to);
    if i < |l| then l[..i] + l[i + 1..] else l
  }

  /** The lists after `remove_edge(from, to)`. */
  function Removed(adj: seq<seq<Edge>>, directed: bool, from: nat, to: nat): seq<seq<Edge>>
    requires from < |adj| && to < |adj|
  {
    var a := adj[from := DropFirstTo(adj[from], to)];
    if !directed && from != to then a[to := DropFirstTo(a[to], from)] else a
  }

  lemma CountToSnoc(l: seq<Edge>, e: Edge, w: nat)
    ensures CountTo(l + [e], w) == CountTo(l, w) + (if e.to == w then 1 else 0)
  {
    assert (l + [e])[..|l|] == l;
  }

  /** `add_edge` stores one edge `from -> to` and, undirected and not a loop, one edge
      `to -> from`; no other count changes. */
  lemma AddedCounts(adj: seq<seq<Edge>>, directed: bool, from: nat, to: nat, weight: int, x: nat, y: nat)
    requires from < |adj| && to < |adj| && x < |adj|
    ensures CountTo(Added(adj, directed, from, to, weight)[x], y) ==
      CountTo(adj[x], y) + (if x == from && y == to then 1 else 0) +
      (if !directed && from != to && x == to && y == from then 1 else 0)
  {
    CountToSnoc(adj[from], Edge(from, to, weight), y);
    CountToSnoc(adj[to], Edge(to, from, weight), y);
  }

  /** `add_edge` keeps the lists well formed and an undirected graph symmetric. */
  lemma AddedKeeps(adj: seq<seq<Edge>>, directed: bool, from: nat, to: nat, weight: int)
    requires from < |adj| && to < |adj| && WellFormed(adj) && (!directed ==> Symmetric(adj))
    ensures WellFormed(Added(adj, directed, from, to, weight))
    ensures !directed ==> Symmetric(Added(adj, directed, from, to, weight))
    ensures |Added(adj, directed, from, to, weight)| == |adj|
  {
    var b := Added(adj, directed, from, to, weight);
    forall v, e: Edge | 0 <= v < |b| && e in b[v]
      ensures e.from == v && e.to < |b|
    {
      if e !in adj[v] {
        assert e == Edge(from, to, weight) || e == Edge(to, from, weight);
      }
    }
    if !directed {
      forall u, v | 0 <= u < |b| && 0 <= v < |b|
        ensures CountTo(b[u], v) == CountTo(b[v], u)
      {
        AddedCounts(adj, directed, from, to, weight, u, v);
        AddedCounts(adj, directed, from, to, weight, v, u);
      }
    }
  }

  /** Dropping the first edge to `to` lowers that count by one when there is such an edge,
      and leaves the other counts alone. */
  lemma DropCounts(l: seq<Edge>, to: nat, y: nat)
    ensures CountTo(DropFirstTo(l, to), y) == CountTo(l, y) - (if y == to && CountTo(l, to) > 0 then 1 else 0)
  {
    var i := FirstTo(l, to);
    CountToPositive(l, to);
    if i < |l| {
      CountToDelete(l, i, y);
    } else {
      assert forall e :: e in l ==> e.to != to;
    }
  }

  /** `remove_edge` takes out only the first matching edge in each stored direction. */
  lemma RemovedCounts(adj: seq<seq<Edge>>, directed: bool, from: nat, to: nat, x: nat, y: nat)
    requires from < |adj| && to < |adj| && x < |adj|
    ensures CountTo(Removed(adj, directed, from, to)[x], y) ==
      CountTo(adj[x], y) - (if x == from && y == to && CountTo(adj[from], to) > 0 then 1 else 0)
                         - (if !directed && from != to && x == to && y == from && CountTo(adj[to], from) > 0 then 1 else 0)
  {
    var b := Removed(adj, directed, from, to);
    if x == from {
      assert b[x] == DropFirstTo(adj[from], to);
      DropCounts(adj[from], to, y);
    } else if !directed && from != to && x == to {
      assert b[x] == DropFirstTo(adj[to], from);
      DropCounts(adj[to], from, y);
    } else {
      assert b[x] == adj[x];
    }
  }

  /** `remove_edge` keeps the lists well formed and an undirected graph symmetric. */
  lemma RemovedKeeps(adj: seq<seq<Edge>>, directed: bool, from: nat, to: nat)
    requires from < |adj| && to < |adj| && WellFormed(adj) && (!directed ==> Symmetric(adj))
    ensures WellFormed(Removed(adj, directed, from, to))
    ensures !directed ==> Symmetric(Removed(adj, directed, from, to))
    ensures |Removed(adj, directed, from, to)| == |adj|
  {
    var b := Removed(adj, directed, from, to);
    RemovedWellFormed(adj, directed, from, to);
    if !directed {
      forall u, v | 0 <= u < |b| && 0 <= v < |b|
        ensures CountTo(b[u], v) == CountTo(b[v], u)
      {
        RemovedCounts(adj, directed, from, to, u, v);
        RemovedCounts(adj, directed, from, to, v, u);
      }
    }
  }

  lemma RemovedWellFormed(adj: seq<seq<Edge>>, directed: bool, from: nat, to: nat)
    requires from < |adj| && to < |adj| && WellFormed(adj)
    ensures WellFormed(Removed(adj, directed, from, to))
  {
    var b := Removed(adj, directed, from, to);
    forall v, e: Edge | 0 <= v < |b| && e in b[v]
      ensures e.from == v && e.to < |b|
    {
      DropSubset(adj[v], if v == from then to else from, e);
    }
  }

  lemma DropSubset(l: seq<Edge>, to: nat, e: Edge)
    ensures e in DropFirstTo(l, to) ==> e in l
  {
    var i := FirstTo(l, to);
    if i < |l| && e in DropFirstTo(l, to) {
      var k :| 0 <= k < |l| - 1 && (l[..i] + l[i + 1..])[k] == e;
      if k < i {
        assert l[k] == e;
      } else {
        assert l[k + 1] == e;
      }
    }
  }

  /** A new vertex has no edges, and no edge ends at it. */
  lemma AddVertexKeeps(adj: seq<seq<Edge>>)
    requires WellFormed(adj)
    ensures WellFormed(adj + [[]])
    ensures Symmetric(adj) ==> Symmetric(adj + [[]])
  {
    var b := adj + [[]];
    if Symmetric(adj) {
      forall u, v | 0 <= u < |b| && 0 <= v < |b|
        ensures CountTo(b[u], v) == CountTo(b[v], u)
      {
        CountToPositive(b[u], v);
        CountToPositive(b[v], u);
      }
    }
  }

  /** What a depth-first visit that appended `r[lo..]` did to the marks: the appended
      vertices were unmarked, are distinct and reachable from `root`; the marks now are the
      old ones plus the appended vertices; every edge leaving an appended vertex ends at a
      marked vertex. */
  ghost predicate Explored(adj: seq<seq<Edge>>, root: nat, lo: nat, r: seq<nat>, before: seq<bool>, after: seq<bool>)
  {
    lo <= |r| && |before| == |adj| && |after| == |adj| &&
    (forall i :: lo <= i < |r| ==> r[i] < |adj| && !before[r[i]] && Reachable(adj, root, r[i])) &&
    (forall i, k :: lo <= i < k < |r| ==> r[i] != r[k]) &&
    (forall u :: 0 <= u < |adj| ==> (after[u] <==> before[u] || u in r[lo..])) &&
    (forall i :: lo <= i < |r| ==> forall e :: e in adj[r[i]] ==> e.to < |adj| && after[e.to])
  }

  /** Dropping the first element of a suffix. */
  lemma SuffixTail(r: seq<nat>, p: nat)
    requires p < |r|
    ensures r[p..][0] == r[p] && r[p..][1..] == r[p + 1..]
  {
  }

  /** A prefix of a prefix. */
  lemma PrefixOfPrefix(r: seq<nat>, r0: seq<nat>, n: nat)
    requires |r0| <= |r| && r[..|r0|] == r0 && n < |r0|
    ensures r[..n] == r0[..n] && r[n] == r0[n]
  {
    assert r[n] == r[..|r0|][n];
    assert r[..n] == r[..|r0|][..n];
  }

  /** Marking a vertex takes it out of the unvisited ones. */
  lemma UnvisitedMark(visited: seq<bool>, v: nat)
    requires v < |visited| && !visited[v]
    ensures Unvisited(visited[v := true]) == Unvisited(visited) - {v}
    ensures v in Unvisited(visited)
    ensures |Unvisited(visited[v := true])| == |Unvisited(visited)| - 1
  {
    var a := Unvisited(visited);
    assert Unvisited(visited[v := true]) == a - {v};
    assert a == (a - {v}) + {v};
  }

  /** Marks only ever get added. */
  lemma ExploredShrinks(adj: seq<seq<Edge>>, root: nat, lo: nat, r: seq<nat>, before: seq<bool>, after: seq<bool>)
    requires Explored(adj, root, lo, r, before, after)
    ensures Unvisited(after) <= Unvisited(before)
  {
  }

  /** Two visits one after the other make one visit. */
  lemma ExploredTrans(adj: seq<seq<Edge>>, root: nat, lo: nat, r1: seq<nat>, r2: seq<nat>,
                      b0: seq<bool>, b1: seq<bool>, b2: seq<bool>)
    requires WellFormed(adj)
    requires Explored(adj, root, lo, r1, b0, b1) && Explored(adj, root, |r1|, r2, b1, b2)
    requires |r1| <= |r2| && r2[..|r1|] == r1
    ensures Explored(adj, root, lo, r2, b0, b2)
  {
    assert r2[lo..] == r1[lo..] + r2[|r1|..];
    forall i | lo <= i < |r2|
      ensures r2[i] < |adj| && !b0[r2[i]] && Reachable(adj, root, r2[i])
    {
      if i < |r1| {
        assert r2[i] == r1[i];
      }
    }
    forall i, k | lo <= i < k < |r2|
      ensures r2[i] != r2[k]
    {
      if i < |r1| <= k {
        assert r2[i] == r1[i] && r1[i] in r1[lo..];
      } else if k < |r1| {
        assert r2[i] == r1[i] && r2[k] == r1[k];
      }
    }
    forall i, e | lo <= i < |r2| && e in adj[r2[i]]
      ensures b2[e.to]
    {
      if i < |r1| {
        assert r2[i] == r1[i];
        assert b1[e.to];
      }
    }
  }

  /** The loop step of `dfs`: a recursive visit of the `j`-th neighbour extends the visit
      so far and marks that neighbour. */
  lemma ExploredStep(adj: seq<seq<Edge>>, root: nat, lo: nat, r1: seq<nat>, r2: seq<nat>,
                     mark: seq<bool>, b1: seq<bool>, b2: seq<bool>, vertex: nat, j: nat)
    requires WellFormed(adj) && vertex < |adj| && j < |adj[vertex]|
    requires Explored(adj, root, lo, r1, mark, b1) && Explored(adj, root, |r1|, r2, b1, b2)
    requires |r1| < |r2| && r2[..|r1|] == r1 && r2[|r1|] == adj[vertex][j].to
    requires forall k :: 0 <= k < j ==> b1[adj[vertex][k].to]
    ensures Explored(adj, root, lo, r2, mark, b2)
    ensures forall k :: 0 <= k <= j ==> b2[adj[vertex][k].to]
  {
    ExploredTrans(adj, root, lo, r1, r2, mark, b1, b2);
    assert r2[|r1|] in r2[|r1|..];
    forall k | 0 <= k < j
      ensures b2[adj[vertex][k].to]
    {
      assert adj[vertex][k] in adj[vertex];
    }
  }

  /** A vertex marked first, followed by a visit from the marks that includes it, whose
      edges all end at marked vertices, is a visit of its own. */
  lemma ExploredCons(adj: seq<seq<Edge>>, root: nat, lo: nat, r: seq<nat>, start: seq<bool>, after: seq<bool>,
                     vertex: nat)
    requires lo < |r| && r[lo] == vertex && vertex < |adj| && |start| == |adj| && !start[vertex]
    requires Reachable(adj, root, vertex)
    requires Explored(adj, root, lo + 1, r, start[vertex := true], after)
    requires forall e :: e in adj[vertex] ==> e.to < |adj| && after[e.to]
    ensures Explored(adj, root, lo, r, start, after)
  {
    var mark := start[r[lo] := true];
    assert r[lo..] == [r[lo]] + r[lo + 1..];
    forall i, k | lo <= i < k < |r|
      ensures r[i] != r[k]
    {
      if i == lo {
        assert !mark[r[k]];
      }
    }
  }

  /** The state of `bfs` from `root`: `result` starts at `root` and lists distinct
      reachable vertices, the marks are exactly the listed vertices, and the first `settled`
      listed vertices have all their edges ending at marked vertices. */
  ghost predicate Scanned(adj: seq<seq<Edge>>, root: nat, visited: seq<bool>, result: seq<nat>, settled: nat)
  {
    |visited| == |adj| && |result| > 0 && result[0] == root && settled <= |result| &&
    (forall i :: 0 <= i < |result| ==> result[i] < |adj| && Reachable(adj, root, result[i])) &&
    (forall i, k :: 0 <= i < k < |result| ==> result[i] != result[k]) &&
    (forall u :: 0 <= u < |adj| ==> (visited[u] <==> u in result)) &&
    (forall i :: 0 <= i < settled ==> forall e :: e in adj[result[i]] ==> e.to < |adj| && visited[e.to])
  }

  /** Marking and listing an unmarked neighbour of a listed vertex keeps the state. */
  lemma Discover(adj: seq<seq<Edge>>, root: nat, visited: seq<bool>, result: seq<nat>, p: nat, e: Edge)
    requires WellFormed(adj) && Scanned(adj, root, visited, result, p)
    requires p < |result| && e in adj[result[p]] && !visited[e.to]
    ensures e.to < |adj| && Scanned(adj, root, visited[e.to := true], result + [e.to], p)
  {
    ReachableStep(adj, root, result[p], e);
  }

  /** Once every edge of the next listed vertex ends at a marked vertex, it is settled. */
  lemma ScannedNext(adj: seq<seq<Edge>>, root: nat, visited: seq<bool>, result: seq<nat>, p: nat)
    requires Scanned(adj, root, visited, result, p) && p < |result|
    requires forall k :: 0 <= k < |adj[result[p]]| ==> adj[result[p]][k].to < |adj| && visited[adj[result[p]][k].to]
    ensures Scanned(adj, root, visited, result, p + 1)
  {
    forall e | e in adj[result[p]]
      ensures e.to < |adj| && visited[e.to]
    {
      var k :| 0 <= k < |adj[result[p]]| && adj[result[p]][k] == e;
    }
  }

  /** The state of the inner loop of `bfs`: listed vertex `p` is `v`, the queue is the
      unscanned rest of the list, and the first `j` neighbours of `v` are marked. */
  ghost predicate Scanning(adj: seq<seq<Edge>>, root: nat, visited: seq<bool>, result: seq<nat>,
                           queue: seq<nat>, p: nat, v: nat, j: nat)
  {
    WellFormed(adj) && Scanned(adj, root, visited, result, p) &&
    p < |result| && result[p] == v && queue == result[p + 1..] && j <= |adj[v]| &&
    forall k :: 0 <= k < j ==> adj[v][k].to < |adj| && visited[adj[v][k].to]
  }

  /** An unmarked neighbour gets marked, listed and queued. */
  lemma ScanDiscover(adj: seq<seq<Edge>>, root: nat, visited: seq<bool>, result: seq<nat>,
                     queue: seq<nat>, p: nat, v: nat, j: nat)
    requires Scanning(adj, root, visited, result, queue, p, v, j) && j < |adj[v]|
    requires !visited[adj[v][j].to]
    ensures var w := adj[v][j].to;
      w < |visited| &&
      Scanning(adj, root, visited[w := true], result + [w], queue + [w], p, v, j + 1) &&
      |Unvisited(visited[w := true])| == |Unvisited(visited)| - 1
  {
    var e := adj[v][j];
    assert e in adj[v];
    Discover(adj, root, visited, result, p, e);
    UnvisitedMark(visited, e.to);
    assert (result + [e.to])[p + 1..] == result[p + 1..] + [e.to];
  }

  /** A marked neighbour is passed over. */
  lemma ScanSkip(adj: seq<seq<Edge>>, root: nat, visited: seq<bool>, result: seq<nat>,
                 queue: seq<nat>, p: nat, v: nat, j: nat)
    requires Scanning(adj, root, visited, result, queue, p, v, j) && j < |adj[v]|
    requires adj[v][j].to < |visited| && visited[adj[v][j].to]
    ensures Scanning(adj, root, visited, result, queue, p, v, j + 1)
  {
    assert adj[v][j] in adj[v];
  }

  /** When every listed vertex is settled, the list holds exactly the reachable vertices. */
  lemma ScannedAll(adj: seq<seq<Edge>>, root: nat, visited: seq<bool>, result: seq<nat>)
    requires Scanned(adj, root, visited, result, |result|)
    ensures forall u: nat :: u in result <==> u < |adj| && Reachable(adj, root, u)
  {
    var inside := set i | 0 <= i < |result| :: result[i];
    forall u, e | u < |adj| && u in inside && e in adj[u]
      ensures e.to in inside
    {
      var i :| 0 <= i < |result| && result[i] == u;
      assert visited[e.to];
    }
    forall u: nat | u < |adj| && Reachable(adj, root, u)
      ensures u in result
    {
      assert result[0] in inside;
      ClosedHoldsReachable(adj, inside, root, u);
    }
  }

  /** What `dijkstra` from `source` returns: a vertex has a finite distance exactly when
      it is reachable; each finite distance is the weight of a chain of stored edges from the
      source; a predecessor is set exactly for the reached vertices other than the source,
      and starts a stored edge into the vertex; with no negative weights the source is at
      distance 0 with no predecessor. */
  ghost predicate ShortestPathTree(adj: seq<seq<Edge>>, source: nat, dist: seq<Dist>, prev: seq<nat>)
  {
    |dist| == |adj| && |prev| == |adj| &&
    (forall v: nat :: v < |adj| ==> (dist[v].Finite? <==> Reachable(adj, source, v))) &&
    (forall v :: 0 <= v < |adj| && dist[v].Finite? ==>
       exists p :: WeightedPath(adj, source, v, p) && Weight(p) == dist[v].d) &&
    (forall v :: 0 <= v < |adj| && prev[v] != |adj| ==>
       prev[v] < |adj| && dist[v].Finite? && HasEdge(adj, prev[v], v)) &&
    (forall v :: 0 <= v < |adj| && v != source ==> (dist[v].Finite? <==> prev[v] != |adj|)) &&
    (NonNegative(adj) && source < |adj| ==> dist[source] == Finite(0) && prev[source] == |adj|)
  }

  /** What every round of `dijkstra` from `source` keeps: the source and every visited
      vertex have a finite distance; each finite distance is the weight of the recorded
      chain of edges from the source; a predecessor is set exactly for the vertices other
      than the source that have a finite distance, and starts a stored edge into the
      vertex; with no negative weights, the source stays at distance 0 with no predecessor
      and no distance is negative. */
  ghost predicate Tentative(adj: seq<seq<Edge>>, source: nat, dist: seq<Dist>, prev: seq<nat>, visited: seq<bool>,
                            paths: seq<seq<Edge>>)
  {
    |dist| == |adj| && |prev| == |adj| && |visited| == |adj| && |paths| == |adj| &&
    source < |adj| && dist[source].Finite? &&
    (forall v :: 0 <= v < |adj| && visited[v] ==> dist[v].Finite?) &&
    (forall v :: 0 <= v < |adj| && dist[v].Finite? ==>
       WeightedPath(adj, source, v, paths[v]) && Weight(paths[v]) == dist[v].d) &&
    (forall v :: 0 <= v < |adj| && prev[v] != |adj| ==>
       prev[v] < |adj| && dist[v].Finite? && HasEdge(adj, prev[v], v)) &&
    (forall v :: 0 <= v < |adj| && v != source ==> (dist[v].Finite? <==> prev[v] != |adj|)) &&
    (NonNegative(adj) ==>
       dist[source] == Finite(0) && prev[source] == |adj| &&
       forall v :: 0 <= v < |adj| && dist[v].Finite? ==> dist[v].d >= 0)
  }

  /** Every edge out of a visited vertex ends at a vertex of finite distance. */
  ghost predicate Settled(adj: seq<seq<Edge>>, dist: seq<Dist>, visited: seq<bool>)
  {
    |dist| == |adj| && |visited| == |adj| &&
    forall v :: 0 <= v < |adj| && visited[v] ==> forall e :: e in adj[v] ==> e.to < |adj| && dist[e.to].Finite?
  }

  /** While the edges of the newly visited `u` are relaxed: every edge out of another
      visited vertex, and each of the first `k` edges out of `u`, ends at a vertex of finite
      distance. */
  ghost predicate Covers(adj: seq<seq<Edge>>, dist: seq<Dist>, visited: seq<bool>, u: nat, k: nat)
  {
    |dist| == |adj| && |visited| == |adj| && u < |adj| && k <= |adj[u]| &&
    (forall v :: 0 <= v < |adj| && visited[v] && v != u ==>
       forall e :: e in adj[v] ==> e.to < |adj| && dist[e.to].Finite?) &&
    (forall m :: 0 <= m < k ==> adj[u][m].to < |adj| && dist[adj[u][m].to].Finite?)
  }

  /** Distances that stay finite keep the cover, and the `k`-th edge of `u` joins it once
      its target has a finite distance. */
  lemma CoversStep(adj: seq<seq<Edge>>, dist: seq<Dist>, dist': seq<Dist>, visited: seq<bool>, u: nat, k: nat)
    requires Covers(adj, dist, visited, u, k) && k < |adj[u]| && |dist'| == |dist|
    requires adj[u][k].to < |adj| && dist'[adj[u][k].to].Finite?
    requires forall v :: 0 <= v < |dist| && dist[v].Finite? ==> dist'[v].Finite?
    ensures Covers(adj, dist', visited, u, k + 1)
  {
  }

  /** Once every edge of `u` is covered, every visited vertex is settled. */
  lemma CoversAll(adj: seq<seq<Edge>>, dist: seq<Dist>, visited: seq<bool>, u: nat)
    requires u < |adj| && Covers(adj, dist, visited, u, |adj[u]|)
    ensures Settled(adj, dist, visited)
  {
    forall e | e in adj[u]
      ensures e.to < |adj| && dist[e.to].Finite?
    {
      var m :| 0 <= m < |adj[u]| && adj[u][m] == e;
    }
  }

  /** Before the first round only the source has a distance, 0, and nothing is visited. */
  lemma TentativeInit(adj: seq<seq<Edge>>, source: nat)
    requires source < |adj|
    ensures var n := |adj|;
      Tentative(adj, source, seq(n, _ => Infinite)[source := Finite(0)], seq(n, _ => n), seq(n, _ => false),
                seq(n, _ => []))
    ensures Settled(adj, seq(|adj|, _ => Infinite)[source := Finite(0)], seq(|adj|, _ => false))
  {
  }

  /** Visiting a vertex of finite distance keeps the round invariant, and every other
      visited vertex stays settled. */
  lemma TentativeVisit(adj: seq<seq<Edge>>, source: nat, dist: seq<Dist>, prev: seq<nat>, visited: seq<bool>,
                       paths: seq<seq<Edge>>, u: nat)
    requires Tentative(adj, source, dist, prev, visited, paths) && Settled(adj, dist, visited)
    requires u < |adj| && dist[u].Finite?
    ensures Tentative(adj, source, dist, prev, visited[u := true], paths)
    ensures Covers(adj, dist, visited[u := true], u, 0)
  {
  }

  /** Relaxing one edge out of a vertex of finite distance keeps the round invariant. */
  lemma RelaxStep(adj: seq<seq<Edge>>, source: nat, dist: seq<Dist>, prev: seq<nat>, visited: seq<bool>,
                  paths: seq<seq<Edge>>, u: nat, e: Edge)
    requires WellFormed(adj) && Tentative(adj, source, dist, prev, visited, paths)
    requires u < |adj| && dist[u].Finite? && e in adj[u]
    requires Shorter(Finite(dist[u].d + e.weight), dist[e.to])
    ensures e.to < |adj|
    ensures Tentative(adj, source, dist[e.to := Finite(dist[u].d + e.weight)], prev[e.to := u], visited,
                      paths[e.to := paths[u] + [e]])
    ensures forall v :: 0 <= v < |dist| && dist[v].Finite? ==>
              dist[e.to := Finite(dist[u].d + e.weight)][v].Finite? &&
              dist[e.to := Finite(dist[u].d + e.weight)][v].d <= dist[v].d
  {
    WeightedPathStep(adj, source, u, paths[u], e);
    assert HasEdge(adj, u, e.to);
  }

  /** When the rounds end, every vertex of finite distance has been visited, so the vertices
      of finite distance are exactly the reachable ones. */
  lemma TentativeFinal(adj: seq<seq<Edge>>, source: nat, dist: seq<Dist>, prev: seq<nat>, visited: seq<bool>,
                       paths: seq<seq<Edge>>)
    requires Tentative(adj, source, dist, prev, visited, paths) && Settled(adj, dist, visited)
    requires forall v :: 0 <= v < |adj| && dist[v].Finite? ==> visited[v]
    ensures ShortestPathTree(adj, source, dist, prev)
  {
    forall v | 0 <= v < |adj| && dist[v].Finite?
      ensures exists p :: WeightedPath(adj, source, v, p) && Weight(p) == dist[v].d
    {
      assert WeightedPath(adj, source, v, paths[v]);
    }
    var reached := set v: nat | v < |adj| && dist[v].Finite?;
    forall v: nat | v < |adj| && Reachable(adj, source, v)
      ensures dist[v].Finite?
    {
      ClosedHoldsReachable(adj, reached, source, v);
    }
    forall v: nat | v < |adj| && dist[v].Finite?
      ensures Reachable(adj, source, v)
    {
      WeightedPathReachable(adj, source, v, paths[v]);
    }
  }

  /** The counts of `topological_sort`: `inDegree[w]` is the number of stored edges into
      `w` from vertices not yet listed, plus those in `pending`, the part of the current
      vertex's list whose edges have not been taken off yet. */
  ghost predicate KahnCounts(adj: seq<seq<Edge>>, inDegree: seq<nat>, done: seq<bool>, pending: seq<Edge>)
  {
    |inDegree| == |adj| && |done| == |adj| &&
    forall w: nat :: w < |adj| ==> inDegree[w] == InFrom(adj, done, w, |adj|) + CountTo(pending, w)
  }

  /** The queue holds, without repeats, exactly the vertices not yet listed whose count is
      0; a listed vertex has count 0. */
  ghost predicate KahnQueue(adj: seq<seq<Edge>>, inDegree: seq<nat>, done: seq<bool>, queue: seq<nat>)
  {
    |inDegree| == |adj| && |done| == |adj| &&
    (forall k :: 0 <= k < |queue| ==> queue[k] < |adj|) &&
    (forall k, m :: 0 <= k < m < |queue| ==> queue[k] != queue[m]) &&
    (forall w :: 0 <= w < |adj| ==> (w in queue <==> !done[w] && inDegree[w] == 0)) &&
    (forall w :: 0 <= w < |adj| && done[w] ==> inDegree[w] == 0)
  }

  /** The listed vertices are the `done` ones, without repeats, and every edge into a listed
      vertex starts at a vertex listed before it. */
  ghost predicate KahnOrder(adj: seq<seq<Edge>>, done: seq<bool>, result: seq<nat>)
  {
    |done| == |adj| && |result| == CountTrue(done) &&
    (forall k :: 0 <= k < |result| ==> result[k] < |adj|) &&
    (forall k, m :: 0 <= k < m < |result| ==> result[k] != result[m]) &&
    (forall w :: 0 <= w < |adj| ==> (done[w] <==> w in result)) &&
    (forall k, u :: 0 <= k < |result| && HasEdge(adj, u, result[k]) ==> u in result[..k])
  }

  /** Dequeueing `v` and listing it: every edge into `v` comes from a listed vertex, and the
      edges out of `v` become pending. */
  lemma KahnDequeue(adj: seq<seq<Edge>>, inDegree: seq<nat>, done: seq<bool>, queue: seq<nat>, result: seq<nat>)
    requires KahnCounts(adj, inDegree, done, []) && KahnQueue(adj, inDegree, done, queue)
    requires KahnOrder(adj, done, result) && queue != []
    ensures queue[0] < |adj| && !done[queue[0]]
    ensures KahnCounts(adj, inDegree, done[queue[0] := true], adj[queue[0]])
    ensures KahnQueue(adj, inDegree, done[queue[0] := true], queue[1..])
    ensures KahnOrder(adj, done[queue[0] := true], result + [queue[0]])
  {
    var v := queue[0];
    assert v in queue;
    var done' := done[v := true];
    var result' := result + [v];
    forall w: nat | w < |adj|
      ensures inDegree[w] == InFrom(adj, done', w, |adj|) + CountTo(adj[v], w)
    {
      InFromMark(adj, done, v, w, |adj|);
    }
    forall w | 0 <= w < |adj|
      ensures w in queue[1..] <==> !done'[w] && inDegree[w] == 0
    {
      assert queue == [v] + queue[1..];
      forall m | 0 <= m < |queue| - 1
        ensures queue[1..][m] != v
      {
        assert queue[1..][m] == queue[m + 1];
      }
    }
    CountTrueSet(done, v);
    InFromZero(adj, done, v, |adj|);
    forall k, u | 0 <= k < |result'| && HasEdge(adj, u, result'[k])
      ensures u in result'[..k]
    {
      if k < |result| {
        assert result'[..k] == result[..k];
      } else {
        assert result'[..k] == result;
      }
    }
  }

  /** The next pending edge ends at a vertex whose count is positive, so that vertex is
      neither listed nor queued. */
  lemma KahnPending(adj: seq<seq<Edge>>, inDegree: seq<nat>, done: seq<bool>, queue: seq<nat>, pending: seq<Edge>)
    requires KahnCounts(adj, inDegree, done, pending) && KahnQueue(adj, inDegree, done, queue)
    requires pending != [] && pending[0].to < |adj|
    ensures inDegree[pending[0].to] >= 1 && !done[pending[0].to] && pending[0].to !in queue
  {
    assert pending == [pending[0]] + pending[1..];
    CountToAppend([pending[0]], pending[1..], pending[0].to);
    assert [pending[0]][..0] == [];
  }

  /** Taking the next pending edge off its target's count, and queueing the target when
      the count reaches 0, keeps the counts and the queue. */
  lemma KahnDecrement(adj: seq<seq<Edge>>, inDegree: seq<nat>, inDegree': seq<nat>, done: seq<bool>,
                      queue: seq<nat>, queue': seq<nat>, pending: seq<Edge>)
    requires KahnCounts(adj, inDegree, done, pending) && KahnQueue(adj, inDegree, done, queue)
    requires pending != [] && pending[0].to < |adj| && inDegree[pending[0].to] >= 1
    requires !done[pending[0].to] && pending[0].to !in queue
    requires inDegree' == inDegree[pending[0].to := inDegree[pending[0].to] - 1]
    requires queue' == if inDegree'[pending[0].to] == 0 then queue + [pending[0].to] else queue
    ensures KahnCounts(adj, inDegree', done, pending[1..]) && KahnQueue(adj, inDegree', done, queue')
  {
    var e := pending[0];
    assert pending == [e] + pending[1..];
    forall w: nat | w < |adj|
      ensures inDegree'[w] == InFrom(adj, done, w, |adj|) + CountTo(pending[1..], w)
    {
      CountToAppend([e], pending[1..], w);
      assert [e][..0] == [];
    }
  }

  /** When the queue runs dry before every vertex is listed, the unlisted vertices each
      have an edge from an unlisted vertex: they form a core, so there is a cycle. */
  lemma KahnCycle(adj: seq<seq<Edge>>, inDegree: seq<nat>, done: seq<bool>)
    requires KahnCounts(adj, inDegree, done, []) && KahnQueue(adj, inDegree, done, [])
    requires CountTrue(done) != |adj|
    ensures HasCore(adj)
  {
    CountTrueAll(done);
    var core := set w: nat | w < |adj| && !done[w];
    var k :| 0 <= k < |adj| && !done[k];
    assert k in core;
    forall w | w in core
      ensures exists u :: u in core && HasEdge(adj, u, w)
    {
      var u := KahnStuck(adj, inDegree, done, w);
      assert u in core;
    }
    assert IsCore(adj, core);
  }

  /** With the queue empty, a vertex not yet listed has an edge from another one. */
  lemma KahnStuck(adj: seq<seq<Edge>>, inDegree: seq<nat>, done: seq<bool>, w: nat) returns (u: nat)
    requires KahnCounts(adj, inDegree, done, []) && KahnQueue(adj, inDegree, done, [])
    requires w < |adj| && !done[w]
    ensures u < |adj| && !done[u] && HasEdge(adj, u, w)
  {
    assert inDegree[w] != 0 && inDegree[w] == InFrom(adj, done, w, |adj|) + CountTo([], w);
    InFromZero(adj, done, w, |adj|);
    u :| 0 <= u < |adj| && !done[u] && HasEdge(adj, u, w);
  }

  /** When every vertex got listed, the list is a topological order. */
  lemma KahnSorted(adj: seq<seq<Edge>>, done: seq<bool>, result: seq<nat>)
    requires KahnOrder(adj, done, result) && |result| == |adj|
    ensures IsTopologicalOrder(adj, result)
  {
    forall a, b | 0 <= a < |result| && 0 <= b < |result| && HasEdge(adj, result[a], result[b])
      ensures a < b
    {
      assert result[a] in result[..b];
      var c :| 0 <= c < b && result[c] == result[a];
    }
  }

  /** `edges()` lists exactly the stored edges. */
  lemma {:induction false} FlattenMembers(adj: seq<seq<Edge>>, e: Edge)
    ensures e in Flatten(adj) <==> exists v :: 0 <= v < |adj| && e in adj[v]
  {
    if adj != [] {
      var init := adj[..|adj| - 1];
      var last := |adj| - 1;
      assert Flatten(adj) == Flatten(init) + adj[last];
      FlattenMembers(init, e);
      if e in Flatten(init) {
        var v :| 0 <= v < |init| && e in init[v];
        assert adj[v] == init[v];
      } else if e in adj[last] {
      } else {
        forall v | 0 <= v < |adj|
          ensures e !in adj[v]
        {
          if v < last {
            assert adj[v] == init[v];
          }
        }
      }
    }
  }

  class Graph {
    const directed: bool
    /** The number of vertices (`count`) and the adjacency lists (`adj`). */
    var count: nat
    var adj: seq<seq<Edge>>

    ghost predicate Valid()
      reads this
    {
      |adj| == count && WellFormed(adj) && (!directed ==> Symmetric(adj))
    }

    /** `Graph(directed)` (MyDS/graph.h:51): no vertices. */
    constructor (directed: bool)
      ensures Valid() && this.directed == directed && count == 0 && adj == []
    {
      this.directed := directed;
      count := 0;
      adj := [];
    }

    /** `check_vertex(v)` (MyDS/graph.h:253-257). */
    method CheckVertex(v: nat) returns (o: Outcome)
      requires Valid()
      ensures o.Fail? <==> v >= count
      ensures o.Fail? ==> o.error == OutOfRange("vertex out of range")
    {
      if v >= count {
        return Fail(OutOfRange("vertex out of range"));
      }
      return Pass;
    }

    /** `add_vertex()` (MyDS/graph.h:53-56): returns the old count, the index of the new
        vertex, which has no edges. */
    method AddVertex() returns (v: nat)
      requires Valid()
      modifies this
      ensures Valid() && v == old(count) && count == old(count) + 1 && adj == old(adj) + [[]]
    {
      AddVertexKeeps(adj);
      adj := adj + [[]];
      v := count;
      count := count + 1;
    }

    /** `add_edge(from, to, weight)` (MyDS/graph.h:58-65). */
    method AddEdge(from: nat, to: nat, weight: int) returns (o: Outcome)
      requires Valid()
      modifies this
      ensures Valid() && count == old(count)
      ensures o.Fail? <==> from >= count || to >= count
      ensures o.Fail? ==> o.error == OutOfRange("vertex out of range") && adj == old(adj)
      ensures o.Pass? ==> adj == Added(old(adj), directed, from, to, weight)
    {
      o := CheckVertex(from);
      if o.Fail? {
        return;
      }
      o := CheckVertex(to);
      if o.Fail? {
        return;
      }
      AddedKeeps(adj, directed, from, to, weight);
      adj := adj[from := adj[from] + [Edge(from, to, weight)]];
      if !directed && from != to {
        adj := adj[to := adj[to] + [Edge(to, from, weight)]];
      }
    }

    /** The erasing loop of `remove_edge` (MyDS/graph.h:70-75, 77-82): the first edge of `l`
        ending at `to`, if any, is erased. */
    static method EraseFirstTo(l: seq<Edge>, to: nat) returns (r: seq<Edge>)
      ensures r == DropFirstTo(l, to)
    {
      var i := 0;
      while i < |l|
        invariant i <= |l|
        invariant forall k :: 0 <= k < i ==> l[k].to != to
      {
        if l[i].to == to {
          return l[..i] + l[i + 1..];
        }
        i := i + 1;
      }
      return l;
    }

    /** `remove_edge(from, to)` (MyDS/graph.h:67-84): the first edge `from -> to` goes, and in
        an undirected graph the first edge `to -> from` too. */
    method RemoveEdge(from: nat, to: nat) returns (o: Outcome)
      requires Valid()
      modifies this
      ensures Valid() && count == old(count)
      ensures o.Fail? <==> from >= count || to >= count
      ensures o.Fail? ==> o.error == OutOfRange("vertex out of range") && adj == old(adj)
      ensures o.Pass? ==> adj == Removed(old(adj), directed, from, to)
    {
      o := CheckVertex(from);
      if o.Fail? {
        return;
      }
      o := CheckVertex(to);
      if o.Fail? {
        return;
      }
      RemovedKeeps(adj, directed, from, to);
      var l := EraseFirstTo(adj[from], to);
      adj := adj[from := l];
      if !directed && from != to {
        l := EraseFirstTo(adj[to], from);
        adj := adj[to := l];
      }
      assert adj == Removed(old(adj), directed, from, to);
    }

    /** `edges()` (MyDS/graph.h:86-94): every stored edge, list by list. */
    method Edges() returns (lists: seq<Edge>)
      requires Valid()
      ensures lists == Flatten(adj)
      ensures forall e :: e in lists <==> exists v :: 0 <= v < count && e in adj[v]
    {
      lists := [];
      var i := 0;
      while i < count
        invariant i <= count && lists == Flatten(adj[..i])
      {
        var j := 0;
        while j < |adj[i]|
          invariant j <= |adj[i]| && lists == Flatten(adj[..i]) + adj[i][..j]
        {
          assert adj[i][..j + 1] == adj[i][..j] + [adj[i][j]];
          lists := lists + [adj[i][j]];
          j := j + 1;
        }
        assert adj[..i + 1][..i] == adj[..i];
        assert adj[i][..j] == adj[i];
        i := i + 1;
      }
      assert adj[..count] == adj;
      forall e
        ensures e in lists <==> exists v :: 0 <= v < count && e in adj[v]
      {
        FlattenMembers(adj, e);
      }
    }

    /** `adjacent(v)` (MyDS/graph.h:96-99). */
    method Adjacent(v: nat) returns (r: Result<seq<Edge>>)
      requires Valid()
      ensures v < count ==> r == Ok(adj[v]) && forall e :: e in r.value ==> e.from == v && e.to < count
      ensures v >= count ==> r == Err(OutOfRange("vertex out of range"))
    {
      var guard := CheckVertex(v);
      if guard.Fail? {
        return Err(guard.error);
      }
      return Ok(adj[v]);
    }

    /** `outdegree(v)` (MyDS/graph.h:200-203): the length of `adj[v]`. */
    method OutDegree(v: nat) returns (r: Result<nat>)
      requires Valid()
      ensures v < count ==> r == Ok(|adj[v]|)
      ensures v >= count ==> r == Err(OutOfRange("vertex out of range"))
    {
      var guard := CheckVertex(v);
      if guard.Fail? {
        return Err(guard.error);
      }
      return Ok(|adj[v]|);
    }

    /** The inner loop of `indegree` for a directed graph (MyDS/graph.h:183-187): `in` grows
        by the number of edges of `l` that end at `v`. */
    static method AddEdgesTo(l: seq<Edge>, v: nat, n0: nat) returns (n: nat)
      ensures n == n0 + CountTo(l, v)
    {
      n := n0;
      var j := 0;
      while j < |l|
        invariant j <= |l| && n == n0 + CountTo(l[..j], v)
      {
        assert l[..j + 1] == l[..j] + [l[j]];
        if l[j].to == v {
          n := n + 1;
        }
        j := j + 1;
      }
      assert l[..j] == l;
    }

    /** The undirected branch of `indegree` (MyDS/graph.h:190-195): `in` starts at the length
        of `l` and drops by one for each edge of `l` that ends at `v`. */
    static method SubtractLoops(l: seq<Edge>, v: nat) returns (n: nat)
      ensures n == |l| - CountTo(l, v)
    {
      n := |l|;
      var j := 0;
      while j < |l|
        invariant j <= |l| && n == |l| - CountTo(l[..j], v)
      {
        assert l[..j + 1] == l[..j] + [l[j]];
        if l[j].to == v {
          n := n - 1;
        }
        j := j + 1;
      }
      assert l[..j] == l;
    }

    /** `indegree(v)` (MyDS/graph.h:178-198): directed, the edges of all lists that end at
        `v`; undirected, the length of `adj[v]` minus its self-loops. */
    method InDegree(v: nat) returns (r: Result<nat>)
      requires Valid()
      ensures v >= count ==> r == Err(OutOfRange("vertex out of range"))
      ensures v < count && directed ==> r == Ok(TotalTo(adj, v, count))
      ensures v < count && !directed ==> r == Ok(TotalTo(adj, v, count) - CountTo(adj[v], v))
    {
      var guard := CheckVertex(v);
      if guard.Fail? {
        return Err(guard.error);
      }
      var n: nat := 0;
      if directed {
        var i := 0;
        while i < count
          invariant i <= count && n == TotalTo(adj, v, i)
        {
          n := AddEdgesTo(adj[i], v, n);
          i := i + 1;
        }
      } else {
        n := SubtractLoops(adj[v], v);
        UndirectedInEqualsOut(adj, v);
      }
      return Ok(n);
    }

    /** `degree(v)` (MyDS/graph.h:205-211): directed, indegree plus outdegree; undirected, the
        length of `adj[v]`. The undirected branch does not check `v`. */
    method Degree(v: nat) returns (r: Result<nat>)
      requires Valid()
      requires !directed ==> v < count
      ensures directed && v >= count ==> r == Err(OutOfRange("vertex out of range"))
      ensures directed && v < count ==> r == Ok(TotalTo(adj, v, count) + |adj[v]|)
      ensures !directed ==> r == Ok(|adj[v]|)
    {
      if directed {
        var i := InDegree(v);
        if i.Err? {
          return i;
        }
        var o := OutDegree(v);
        return Ok(i.value + o.value);
      }
      return Ok(|adj[v]|);
    }

    /** The recursive `dfs(vertex, visited, result)` (MyDS/graph.h:101-111): marks the vertex,
        appends it, and recurses into each unvisited neighbour in list order. */
    method DfsVisit(vertex: nat, visited: array<bool>, result: seq<nat>, ghost root: nat) returns (r: seq<nat>)
      requires Valid() && visited.Length == count && vertex < count && !visited[vertex]
      requires Reachable(adj, root, vertex)
      modifies visited
      ensures |r| > |result| && r[..|result|] == result && r[|result|] == vertex
      ensures Explored(adj, root, |result|, r, old(visited[..]), visited[..])
      decreases Unvisited(visited[..]), 1
    {
      ghost var start := visited[..];
      visited[vertex] := true;
      ghost var mark := visited[..];
      assert mark == start[vertex := true];
      UnvisitedMark(start, vertex);
      r := result + [vertex];
      ghost var r0 := r;
      r := DfsNeighbours(vertex, visited, r, |result| + 1, mark, root);
      PrefixOfPrefix(r, r0, |result|);
      ExploredCons(adj, root, |result|, r, start, visited[..], vertex);
    }

    /** The loop of `dfs(vertex, visited, result)` (MyDS/graph.h:106-110) over the neighbours
        of the marked `vertex`: the visit so far grows and every neighbour ends up marked. */
    method DfsNeighbours(vertex: nat, visited: array<bool>, r0: seq<nat>, ghost lo: nat,
                         ghost mark: seq<bool>, ghost root: nat) returns (r: seq<nat>)
      requires Valid() && visited.Length == count && vertex < count
      requires Reachable(adj, root, vertex) && lo == |r0|
      requires Explored(adj, root, lo, r0, mark, visited[..])
      modifies visited
      ensures |r| >= |r0| && r[..|r0|] == r0
      ensures Explored(adj, root, lo, r, mark, visited[..])
      ensures forall e :: e in adj[vertex] ==> e.to < count && visited[e.to]
      decreases Unvisited(visited[..]), 3
    {
      r := r0;
      var j := 0;
      while j < |adj[vertex]|
        invariant 0 <= j <= |adj[vertex]|
        invariant |r| >= |r0| && r[..|r0|] == r0
        invariant Explored(adj, root, lo, r, mark, visited[..])
        invariant forall k :: 0 <= k < j ==> visited[..][adj[vertex][k].to]
        invariant Unvisited(visited[..]) <= old(Unvisited(visited[..]))
      {
        ghost var before := r;
        r := DfsChild(vertex, j, visited, r, lo, mark, root);
        assert r[..|r0|] == before[..|r0|];
        j := j + 1;
      }
      forall e | e in adj[vertex]
        ensures e.to < count && visited[e.to]
      {
        var k :| 0 <= k < |adj[vertex]| && adj[vertex][k] == e;
      }
    }

    /** One round of the loop of `dfs(vertex, visited, result)` (MyDS/graph.h:106-110): the
        `j`-th neighbour, when unvisited, is visited recursively. The visit so far grows and
        that neighbour ends up marked. */
    method DfsChild(vertex: nat, j: nat, visited: array<bool>, r0: seq<nat>, ghost lo: nat,
                    ghost mark: seq<bool>, ghost root: nat) returns (r: seq<nat>)
      requires Valid() && visited.Length == count && vertex < count && j < |adj[vertex]|
      requires Reachable(adj, root, vertex)
      requires Explored(adj, root, lo, r0, mark, visited[..])
      requires forall k :: 0 <= k < j ==> visited[..][adj[vertex][k].to]
      modifies visited
      ensures |r| >= |r0| && r[..|r0|] == r0
      ensures Explored(adj, root, lo, r, mark, visited[..])
      ensures forall k :: 0 <= k <= j ==> visited[..][adj[vertex][k].to]
      ensures Unvisited(visited[..]) <= old(Unvisited(visited[..]))
      decreases Unvisited(visited[..]), 2
    {
      var e := adj[vertex][j];
      if !visited[e.to] {
        assert e in adj[vertex];
        ReachableStep(adj, root, vertex, e);
        ghost var marked := visited[..];
        r := DfsVisit(e.to, visited, r0, root);
        ExploredStep(adj, root, lo, r0, r, mark, marked, visited[..], vertex, j);
        ExploredShrinks(adj, root, |r0|, r, marked, visited[..]);
      } else {
        r := r0;
      }
    }

    /** `dfs(vertex)` (MyDS/graph.h:113-117): the vertices reachable from `vertex`, each once,
        starting with `vertex`. The source does not check `vertex`. */
    method Dfs(vertex: nat) returns (r: seq<nat>)
      requires Valid() && vertex < count
      ensures |r| > 0 && r[0] == vertex
      ensures forall i, j :: 0 <= i < j < |r| ==> r[i] != r[j]
      ensures forall u: nat :: u in r <==> u < count && Reachable(adj, vertex, u)
    {
      var visited := new bool[count](_ => false);
      ReachableRefl(adj, vertex);
      r := DfsVisit(vertex, visited, [], vertex);
      assert r[0..] == r;
      ghost var inside := set u: nat | u < count && visited[u];
      forall u, e | u < |adj| && u in inside && e in adj[u]
        ensures e.to in inside
      {
        var i :| 0 <= i < |r| && r[i] == u;
      }
      forall u: nat | u < count && Reachable(adj, vertex, u)
        ensures u in r
      {
        ClosedHoldsReachable(adj, inside, vertex, u);
      }
    }

    /** `bfs(vertex)` (MyDS/graph.h:119-139): the vertices reachable from `vertex`, each once,
        starting with `vertex`, in the order a FIFO queue visits them. */
    method Bfs(vertex: nat) returns (res: Result<seq<nat>>)
      requires Valid()
      ensures res.Err? <==> vertex >= count
      ensures res.Err? ==> res.error == OutOfRange("vertex out of range")
      ensures res.Ok? ==> |res.value| > 0 && res.value[0] == vertex
      ensures res.Ok? ==> forall i, j :: 0 <= i < j < |res.value| ==> res.value[i] != res.value[j]
      ensures res.Ok? ==> forall u: nat :: u in res.value <==> u < count && Reachable(adj, vertex, u)
    {
      var guard := CheckVertex(vertex);
      if guard.Fail? {
        return Err(guard.error);
      }
      var visited := seq(count, _ => false)[vertex := true];
      var result := [vertex];
      ReachableRefl(adj, vertex);
      visited, result := BfsQueue(vertex, visited, result, [vertex]);
      ScannedAll(adj, vertex, visited, result);
      return Ok(result);
    }

    /** The queue loop of `bfs` (MyDS/graph.h:127-137): the front vertex is taken off the
        queue and its neighbours scanned until the queue is empty; then every listed vertex
        has been scanned. */
    method BfsQueue(ghost root: nat, visited0: seq<bool>, result0: seq<nat>, queue0: seq<nat>)
      returns (visited: seq<bool>, result: seq<nat>)
      requires Valid() && |queue0| <= |result0| && queue0 == result0[|result0| - |queue0|..]
      requires Scanned(adj, root, visited0, result0, |result0| - |queue0|)
      ensures Scanned(adj, root, visited, result, |result|)
    {
      visited, result := visited0, result0;
      var queue := queue0;
      while queue != []
        invariant |queue| <= |result| && queue == result[|result| - |queue|..]
        invariant Scanned(adj, root, visited, result, |result| - |queue|)
        decreases |Unvisited(visited)| + |queue|
      {
        ghost var p := |result| - |queue|;
        var v := queue[0];
        queue := queue[1..];
        SuffixTail(result, p);
        visited, result, queue := ScanNeighbours(v, root, p, visited, result, queue);
      }
    }

    /** The inner loop of `bfs` (MyDS/graph.h:130-136): each unmarked neighbour of `v` is
        marked, listed and queued, in list order. */
    method ScanNeighbours(v: nat, ghost root: nat, ghost p: nat, visited: seq<bool>, result: seq<nat>, queue: seq<nat>)
      returns (visited': seq<bool>, result': seq<nat>, queue': seq<nat>)
      requires Valid() && Scanned(adj, root, visited, result, p)
      requires p < |result| && result[p] == v && queue == result[p + 1..]
      ensures Scanned(adj, root, visited', result', p + 1) && queue' == result'[p + 1..]
      ensures |Unvisited(visited')| + |queue'| == |Unvisited(visited)| + |queue|
    {
      visited', result', queue' := visited, result, queue;
      var j := 0;
      while j < |adj[v]|
        invariant Scanning(adj, root, visited', result', queue', p, v, j)
        invariant |Unvisited(visited')| + |queue'| == |Unvisited(visited)| + |queue|
      {
        var e := adj[v][j];
        if !visited'[e.to] {
          ScanDiscover(adj, root, visited', result', queue', p, v, j);
          queue' := queue' + [e.to];
          visited' := visited'[e.to := true];
          result' := result' + [e.to];
        } else {
          ScanSkip(adj, root, visited', result', queue', p, v, j);
        }
        j := j + 1;
      }
      ScannedNext(adj, root, visited', result', p);
    }

    /** `dijkstra(vertex)` (MyDS/graph.h:141-168): `count` rounds each settle the unvisited
        vertex of least finite distance (the first such in index order) and relax its edges;
        a round that finds none ends the loop. The result pairs the distances with the
        predecessors. A vertex has a finite distance exactly when it is reachable, each
        finite distance is the weight of a chain of edges from the source, and an unreached
        vertex keeps `Infinite` and predecessor `count`. */
    method Dijkstra(vertex: nat) returns (res: Result<Pair<seq<Dist>, seq<nat>>>)
      requires Valid()
      ensures res.Err? <==> vertex >= count
      ensures res.Err? ==> res.error == OutOfRange("vertex out of range")
      ensures res.Ok? ==> |res.value.first| == count && |res.value.second| == count
      ensures res.Ok? ==> forall v: nat :: v < count ==> (res.value.first[v].Finite? <==> Reachable(adj, vertex, v))
      ensures res.Ok? ==> forall v :: 0 <= v < count && res.value.first[v].Finite? ==>
                exists p :: WeightedPath(adj, vertex, v, p) && Weight(p) == res.value.first[v].d
      ensures res.Ok? ==> forall v :: 0 <= v < count && res.value.second[v] != count ==>
                res.value.second[v] < count && res.value.first[v].Finite? && HasEdge(adj, res.value.second[v], v)
      ensures res.Ok? ==> forall v :: 0 <= v < count && v != vertex ==>
                (res.value.first[v].Finite? <==> res.value.second[v] != count)
      ensures res.Ok? && NonNegative(adj) ==> res.value.first[vertex] == Finite(0) && res.value.second[vertex] == count
    {
      var guard := CheckVertex(vertex);
      if guard.Fail? {
        return Err(guard.error);
      }
      var dist, prev := Rounds(vertex);
      return Ok(Pair(dist, prev));
    }

    /** The rounds of `dijkstra` (MyDS/graph.h:143-166), from the initial distances to the
        point where every vertex of finite distance has been visited. */
    method Rounds(vertex: nat) returns (dist: seq<Dist>, prev: seq<nat>)
      requires Valid() && vertex < count
      ensures ShortestPathTree(adj, vertex, dist, prev)
    {
      var n := count;
      dist := seq(n, _ => Infinite)[vertex := Finite(0)];
      prev := seq(n, _ => n);
      var visited := seq(n, _ => false);
      ghost var paths: seq<seq<Edge>> := seq(n, _ => []);
      CountTrueNone(n);
      TentativeInit(adj, vertex);
      var i := 0;
      while i < count
        invariant i <= count && |visited| == count && CountTrue(visited) == i
        invariant Tentative(adj, vertex, dist, prev, visited, paths) && Settled(adj, dist, visited)
      {
        var u := Nearest(dist, visited);
        if u == count {
          break;
        }
        CountTrueSet(visited, u);
        TentativeVisit(adj, vertex, dist, prev, visited, paths, u);
        visited := visited[u := true];
        dist, prev, paths := RelaxEdges(u, vertex, dist, prev, visited, paths);
        i := i + 1;
      }
      if i == count {
        CountTrueAll(visited);
      }
      TentativeFinal(adj, vertex, dist, prev, visited, paths);
    }

    /** The selection loop of `dijkstra` (MyDS/graph.h:148-155): the first unvisited vertex
        of least finite distance, or `count` when every unvisited vertex is at `Infinite`. */
    method Nearest(dist: seq<Dist>, visited: seq<bool>) returns (u: nat)
      requires Valid() && |dist| == count && |visited| == count
      ensures u <= count
      ensures u == count <==> forall k :: 0 <= k < count && !visited[k] ==> dist[k].Infinite?
      ensures u < count ==> !visited[u] && dist[u].Finite?
      ensures u < count ==> forall k :: 0 <= k < count && !visited[k] ==> !Shorter(dist[k], dist[u])
      ensures u < count ==> forall k :: 0 <= k < u && !visited[k] ==> Shorter(dist[u], dist[k])
    {
      var minDist := Infinite;
      u := count;
      var j := 0;
      while j < count
        invariant j <= count && u <= count
        invariant u == count ==> minDist == Infinite
        invariant u < count ==> u < j && !visited[u] && dist[u] == minDist && minDist.Finite?
        invariant forall k :: 0 <= k < j && !visited[k] ==> !Shorter(dist[k], minDist)
        invariant u < count ==> forall k :: 0 <= k < u && !visited[k] ==> Shorter(minDist, dist[k])
      {
        if !visited[j] && Shorter(dist[j], minDist) {
          minDist := dist[j];
          u := j;
        }
        j := j + 1;
      }
    }

    /** The relaxation loop of `dijkstra` (MyDS/graph.h:159-164): each edge out of the newly
        visited `u` that gives a shorter distance to its target lowers that distance and
        makes `u` the target's predecessor. */
    method RelaxEdges(u: nat, ghost source: nat, dist: seq<Dist>, prev: seq<nat>, visited: seq<bool>,
                      ghost paths: seq<seq<Edge>>)
      returns (dist': seq<Dist>, prev': seq<nat>, ghost paths': seq<seq<Edge>>)
      requires Valid() && Tentative(adj, source, dist, prev, visited, paths) && u < count && visited[u]
      requires Covers(adj, dist, visited, u, 0)
      ensures Tentative(adj, source, dist', prev', visited, paths') && Settled(adj, dist', visited)
    {
      dist', prev', paths' := dist, prev, paths;
      var k := 0;
      while k < |adj[u]|
        invariant k <= |adj[u]|
        invariant Tentative(adj, source, dist', prev', visited, paths') && Covers(adj, dist', visited, u, k)
      {
        var e := adj[u][k];
        assert e in adj[u];
        ghost var before := dist';
        if Shorter(Finite(dist'[u].d + e.weight), dist'[e.to]) {
          RelaxStep(adj, source, dist', prev', visited, paths', u, e);
          paths' := paths'[e.to := paths'[u] + [e]];
          dist' := dist'[e.to := Finite(dist'[u].d + e.weight)];
          prev' := prev'[e.to := u];
        }
        CoversStep(adj, before, dist', visited, u, k);
        k := k + 1;
      }
      CoversAll(adj, dist', visited, u);
    }

    /** `topological_sort()` (MyDS/graph.h:213-246): Kahn's algorithm. An undirected graph is
        refused; otherwise the in-degrees are counted, the vertices of in-degree 0 queued in
        index order, and each dequeued vertex is listed and its edges removed from the
        counts, queueing each vertex whose count reaches 0. If not every vertex got listed
        the graph has a cycle. */
    method TopologicalSort() returns (res: Result<seq<nat>>)
      requires Valid()
      ensures !directed ==> res == Err(LogicError("topological sort is only for directed graph"))
      ensures directed && res.Ok? ==> IsTopologicalOrder(adj, res.value)
      ensures directed && res.Err? ==> res.error == LogicError("graph has a cycle") && HasCore(adj)
    {
      if !directed {
        return Err(LogicError("topological sort is only for directed graph"));
      }
      var inDegree := CountInDegrees();
      var n := count;
      ghost var done := seq(n, _ => false);
      forall w: nat | w < count
        ensures inDegree[w] == InFrom(adj, done, w, count)
      {
        InFromNone(adj, w, count);
      }
      var queue := InitialQueue(inDegree, done);
      CountTrueNone(count);
      var result: seq<nat> := [];
      while queue != []
        invariant KahnCounts(adj, inDegree, done, []) && KahnQueue(adj, inDegree, done, queue)
        invariant KahnOrder(adj, done, result)
        decreases count - |result|
      {
        KahnDequeue(adj, inDegree, done, queue, result);
        var v := queue[0];
        queue := queue[1..];
        result := result + [v];
        done := done[v := true];
        inDegree, queue := TakeOffEdges(v, inDegree, done, queue);
      }
      if |result| != count {
        KahnCycle(adj, inDegree, done);
        return Err(LogicError("graph has a cycle"));
      }
      KahnSorted(adj, done, result);
      return Ok(result);
    }

    /** The queueing loop of `topological_sort` (MyDS/graph.h:225-230): the vertices of count
        0, in index order. */
    method InitialQueue(inDegree: seq<nat>, ghost done: seq<bool>) returns (queue: seq<nat>)
      requires Valid() && |inDegree| == count && done == seq(count, _ => false)
      ensures KahnQueue(adj, inDegree, done, queue)
      ensures forall k, m :: 0 <= k < m < |queue| ==> queue[k] < queue[m]
    {
      queue := [];
      var i := 0;
      while i < count
        invariant i <= count
        invariant forall k :: 0 <= k < |queue| ==> queue[k] < i && inDegree[queue[k]] == 0
        invariant forall k, m :: 0 <= k < m < |queue| ==> queue[k] < queue[m]
        invariant forall w :: 0 <= w < i && inDegree[w] == 0 ==> w in queue
      {
        if inDegree[i] == 0 {
          queue := queue + [i];
        }
        i := i + 1;
      }
    }

    /** The inner loop of `topological_sort` (MyDS/graph.h:235-240): each edge out of `v`
        lowers its target's count, and a target whose count reaches 0 is queued. */
    method TakeOffEdges(v: nat, inDegree: seq<nat>, ghost done: seq<bool>, queue: seq<nat>)
      returns (inDegree': seq<nat>, queue': seq<nat>)
      requires Valid() && v < count
      requires KahnCounts(adj, inDegree, done, adj[v]) && KahnQueue(adj, inDegree, done, queue)
      ensures KahnCounts(adj, inDegree', done, []) && KahnQueue(adj, inDegree', done, queue')
    {
      inDegree', queue' := inDegree, queue;
      var j := 0;
      assert adj[v][0..] == adj[v];
      while j < |adj[v]|
        invariant j <= |adj[v]|
        invariant KahnCounts(adj, inDegree', done, adj[v][j..]) && KahnQueue(adj, inDegree', done, queue')
      {
        var e := adj[v][j];
        assert e in adj[v] && adj[v][j..][0] == e && adj[v][j..][1..] == adj[v][j + 1..];
        KahnPending(adj, inDegree', done, queue', adj[v][j..]);
        var d := inDegree'[e.to := inDegree'[e.to] - 1];
        var q := if d[e.to] == 0 then queue' + [e.to] else queue';
        KahnDecrement(adj, inDegree', d, done, queue', q, adj[v][j..]);
        inDegree', queue' := d, q;
        j := j + 1;
      }
      assert adj[v][j..] == [];
    }

    /** The counting loops of `topological_sort` (MyDS/graph.h:219-224): `in[w]` is the number
        of stored edges that end at `w`. */
    method CountInDegrees() returns (inDegree: seq<nat>)
      requires Valid()
      ensures |inDegree| == count && forall w: nat :: w < count ==> inDegree[w] == TotalTo(adj, w, count)
    {
      inDegree := seq(count, _ => 0);
      var i := 0;
      while i < count
        invariant i <= count && |inDegree| == count
        invariant forall w: nat :: w < count ==> inDegree[w] == TotalTo(adj, w, i)
      {
        var j := 0;
        while j < |adj[i]|
          invariant j <= |adj[i]| && |inDegree| == count
          invariant forall w: nat :: w < count ==> inDegree[w] == TotalTo(adj, w, i) + CountTo(adj[i][..j], w)
        {
          var e := adj[i][j];
          assert e in adj[i];
          assert adj[i][..j + 1] == adj[i][..j] + [e];
          inDegree := inDegree[e.to := inDegree[e.to] + 1];
          j := j + 1;
        }
        assert adj[i][..j] == adj[i];
        i := i + 1;
      }
    }

  }
}
