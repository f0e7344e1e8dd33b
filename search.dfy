/** Highest and second-highest score among numbered players, found three ways: a sequential
    scan, a tournament tree and a heap ordered by `std::greater`. A player is a
    `Pair(score, id)` and player `i` (from 0) has id `i + 1`. */
module Search {
  import opened Errors
  import opened Pairs
  import opened Heaps

  type Entry = Pair<int, int>

  /** `Pair(numeric_limits<unsigned int>::min(), 0u)`, the start value of both scans. */
  const Zero: Entry := Pair(0, 0)

  /** The score table as the program builds it: unsigned scores, and ids `1, 2, ...` in
      order. */
  ghost predicate Numbered(s: seq<Entry>)
  {
    forall i :: 0 <= i < |s| ==> s[i].first >= 0 && s[i].second == i + 1
  }

  /** What every method below finds: `max1` is an entry with the greatest score, and `max2`
      has the greatest score among the other entries (it stays `Zero` when no other entry
      scores above 0). */
  ghost predicate IsTopTwo(s: seq<Entry>, max1: Entry, max2: Entry)
  {
    max1 in s
    && (forall x :: x in s ==> x.first <= max1.first)
    && (max2 == Zero || (max2 in s && max2 != max1))
    && (forall x :: x in s && x != max1 ==> x.first <= max2.first)
  }

  /** Entry `k` has the greatest score and every entry before it scores strictly less. */
  ghost predicate FirstBestAt(s: seq<Entry>, k: int)
  {
    0 <= k < |s|
    && (forall j :: 0 <= j < k ==> s[j].first < s[k].first)
    && (forall j :: 0 <= j < |s| ==> s[j].first <= s[k].first)
  }

  // ---------------------------------------------------------------------------------------
  // Sequential scan (ex6/search.cpp:44-55)
  // ---------------------------------------------------------------------------------------

  /** The value a scan `if (s[i].first > m.first) m = s[i];` leaves in `m`, started at
      `init`. */
  function Best(s: seq<Entry>, init: Entry): Entry
  {
    if |s| == 0 then init
    else
      var b := Best(s[..|s| - 1], init);
      if s[|s| - 1].first > b.first then s[|s| - 1] else b
  }

  /** The scan keeps `init` unless some entry beats it, and otherwise stops at the first entry
      with the greatest score. */
  lemma {:induction false} BestIsFirstBest(s: seq<Entry>, init: Entry)
    ensures Best(s, init).first >= init.first
    ensures forall j :: 0 <= j < |s| ==> s[j].first <= Best(s, init).first
    ensures Best(s, init) == init || exists k :: FirstBestAt(s, k) && s[k] == Best(s, init) && s[k].first > init.first
    ensures Best(s, init) == init ==> forall j :: 0 <= j < |s| ==> s[j].first <= init.first
    ensures Best(s, init) == init || Best(s, init) in s
  {
    if |s| > 0 {
      var t := s[..|s| - 1];
      BestIsFirstBest(t, init);
      var b := Best(t, init);
      assert forall j :: 0 <= j < |t| ==> s[j] == t[j];
      if s[|s| - 1].first > b.first {
        assert FirstBestAt(s, |s| - 1);
      } else if b != init {
        ghost var k :| FirstBestAt(t, k) && t[k] == b && t[k].first > init.first;
        assert FirstBestAt(s, k);
      }
    }
  }

  /** One scan over `s[from..]` started at `init` (the loops at ex6/search.cpp:44-48 and
      51-55). */
  method ScanMax(s: seq<Entry>, from: nat, init: Entry) returns (m: Entry)
    requires from <= |s|
    ensures m == Best(s[from..], init)
  {
    m := init;
    var i := from;
    while i < |s|
      invariant from <= i <= |s|
      invariant m == Best(s[from..i], init)
    {
      assert s[from..i + 1][..i - from] == s[from..i];
      if s[i].first > m.first {
        m := s[i];
      }
      i := i + 1;
    }
    assert s[from..i] == s[from..];
  }

  /** `scores1.erase(scores1.begin() + k)`: the table without entry `k`. */
  function EraseAt(s: seq<Entry>, k: nat): (r: seq<Entry>)
    requires k < |s|
    ensures |r| == |s| - 1
    ensures forall j :: 0 <= j < |s| && j != k ==> s[j] in r
    ensures forall x :: x in r ==> exists j :: 0 <= j < |s| && j != k && s[j] == x
  {
    assert forall j :: 0 <= j < k ==> s[j] == (s[..k] + s[k + 1..])[j];
    assert forall j :: k < j < |s| ==> s[j] == (s[..k] + s[k + 1..])[j - 1];
    s[..k] + s[k + 1..]
  }

  /** In a numbered table an entry is found at the index its id names. */
  lemma EntriesAtIds(s: seq<Entry>)
    requires Numbered(s)
    ensures forall x :: x in s ==> 1 <= x.second <= |s| && s[x.second - 1] == x
  {
  }

  /** The second scan (ex6/search.cpp:49-55): drop the entry of `max1`, located by its id,
      and scan the rest from `Zero`. */
  method RunnerUp(scores: seq<Entry>, max1: Entry) returns (max2: Entry)
    requires Numbered(scores) && max1 in scores
    ensures max2 == Zero || (max2 in scores && max2 != max1)
    ensures forall x :: x in scores && x != max1 ==> x.first <= max2.first
  {
    EntriesAtIds(scores);
    var rest := EraseAt(scores, max1.second - 1);
    max2 := ScanMax(rest, 0, Zero);
    assert rest[0..] == rest;
    BestIsFirstBest(rest, Zero);
    forall x | x in scores && x != max1
      ensures x.first <= max2.first
    {
      assert x in rest;
    }
    if max2 != Zero {
      ghost var k :| FirstBestAt(rest, k) && rest[k] == max2;
      assert max2 in rest;
      ghost var j :| 0 <= j < |scores| && j != max1.second - 1 && scores[j] == max2;
    }
  }

  /** The sequential method as written (ex6/search.cpp:38-55): `max1` starts at `Zero`, so
      when no score is above 0 it stays `Zero`, its id is 0 and the erase position lies
      before the first entry; that case is reported as an error instead of undefined
      behaviour. Otherwise `max1` is the first entry with the greatest score. */
  method SequentialTopTwo(scores: seq<Entry>) returns (r: Result<(Entry, Entry)>)
    requires Numbered(scores)
    ensures r.Err? <==> forall j :: 0 <= j < |scores| ==> scores[j].first == 0
    ensures r.Ok? ==> FirstBestAt(scores, r.value.0.second - 1) && scores[r.value.0.second - 1] == r.value.0
    ensures r.Ok? ==> IsTopTwo(scores, r.value.0, r.value.1)
  {
    var max1 := ScanMax(scores, 0, Zero);
    assert scores[0..] == scores;
    BestIsFirstBest(scores, Zero);
    EntriesAtIds(scores);
    if max1.second == 0 {
      return Err(OutOfRange("erase before begin"));
    }
    ghost var k :| FirstBestAt(scores, k) && scores[k] == max1 && scores[k].first > 0;
    var max2 := RunnerUp(scores, max1);
    r := Ok((max1, max2));
  }

  /** With no score above 0 the as-written scan leaves `max1` at id 0, so the erase at
      `max1.second - 1` is at position -1. */
  lemma {:induction false} AllZeroEraseBeforeBegin(s: seq<Entry>)
    requires Numbered(s) && forall j :: 0 <= j < |s| ==> s[j].first == 0
    ensures Best(s, Zero).second - 1 == -1
  {
    BestIsFirstBest(s, Zero);
  }

  /** The sequential method with `max1` started at the first entry instead of `Zero`: the
      erase position is then always a real entry, and `max1` is still the first entry with
      the greatest score. */
  method SequentialTopTwoFromFirst(scores: seq<Entry>) returns (max1: Entry, max2: Entry)
    requires Numbered(scores) && |scores| >= 1
    ensures FirstBestAt(scores, max1.second - 1) && scores[max1.second - 1] == max1
    ensures IsTopTwo(scores, max1, max2)
  {
    max1 := ScanMax(scores, 1, scores[0]);
    BestIsFirstBest(scores[1..], scores[0]);
    if max1 == scores[0] {
      assert FirstBestAt(scores, 0);
    } else {
      ghost var k :| FirstBestAt(scores[1..], k) && scores[1..][k] == max1 && max1.first > scores[0].first;
      assert FirstBestAt(scores, k + 1);
    }
    max2 := RunnerUp(scores, max1);
  }

  // ---------------------------------------------------------------------------------------
  // Tournament tree (ex6/search.cpp:67-110)
  // ---------------------------------------------------------------------------------------

  /** The entry node `i` of the tournament over `s` holds: nodes `n .. 2n-1` are the
      entries, and an inner node `i` holds the higher of nodes `2i` and `2i+1`, the left one
      on a tie. */
  function Winner(s: seq<Entry>, i: nat): Entry
    requires 1 <= i < 2 * |s|
    decreases 2 * |s| - i
  {
    if i >= |s| then s[i - |s|]
    else
      var l := Winner(s, 2 * i);
      var r := Winner(s, 2 * i + 1);
      if l.first >= r.first then l else r
  }

  /** Node `k` lies in the subtree of node `i` (`i` is reached from `k` by halving). */
  predicate Under(i: nat, k: nat)
  {
    k == i || (k > i && Under(i, k / 2))
  }

  /** Every node from 1 on lies under the root. */
  lemma {:induction false} UnderRoot(k: nat)
    requires k >= 1
    ensures Under(1, k)
  {
    if k > 1 {
      UnderRoot(k / 2);
    }
  }

  lemma RootCoversAll(s: seq<Entry>)
    ensures forall k :: |s| <= k < 2 * |s| ==> Under(1, k)
  {
    forall k | |s| <= k < 2 * |s|
      ensures Under(1, k)
    {
      UnderRoot(k);
    }
  }

  /** A node strictly under `i` lies under one of `i`'s two children. */
  lemma {:induction false} UnderChild(i: nat, k: nat)
    requires i >= 1 && Under(i, k) && k != i
    ensures Under(2 * i, k) || Under(2 * i + 1, k)
  {
    if k / 2 != i {
      UnderChild(i, k / 2);
    }
  }

  /** A node under a child of `i` lies under `i`. */
  lemma {:induction false} UnderParent(i: nat, c: nat, k: nat)
    requires i >= 1 && (c == 2 * i || c == 2 * i + 1) && Under(c, k)
    ensures Under(i, k)
  {
    if k != c {
      UnderParent(i, c, k / 2);
    }
  }

  /** The nodes above `k` form a chain: of two of them, the lower lies under the higher. */
  lemma {:induction false} UnderChain(i: nat, j: nat, k: nat)
    requires i <= j && Under(i, k) && Under(j, k)
    ensures Under(i, j)
  {
    if k != j {
      UnderChain(i, j, k / 2);
    }
  }

  /** The subtrees of two siblings share no node. */
  lemma SiblingsDisjoint(i: nat, k: nat)
    requires i >= 1 && Under(2 * i + 1, k)
    ensures !Under(2 * i, k)
  {
    if Under(2 * i, k) {
      UnderChain(2 * i, 2 * i + 1, k);
    }
  }

  /** Every node wins against everything in its subtree. */
  lemma {:induction false} WinnerBeats(s: seq<Entry>, i: nat, k: nat)
    requires 1 <= i && k < 2 * |s| && Under(i, k)
    ensures Winner(s, i).first >= Winner(s, k).first
    decreases k
  {
    if k != i {
      WinnerBeats(s, i, k / 2);
    }
  }

  /** Every node holds one of the entries of its subtree. */
  lemma {:induction false} WinnerIsEntry(s: seq<Entry>, i: nat) returns (j: nat)
    requires 1 <= i < 2 * |s|
    ensures j < |s| && Under(i, |s| + j) && Winner(s, i) == s[j]
    decreases 2 * |s| - i
  {
    if i >= |s| {
      j := i - |s|;
    } else if Winner(s, 2 * i).first >= Winner(s, 2 * i + 1).first {
      j := WinnerIsEntry(s, 2 * i);
      UnderParent(i, 2 * i, |s| + j);
    } else {
      j := WinnerIsEntry(s, 2 * i + 1);
      UnderParent(i, 2 * i + 1, |s| + j);
    }
  }

  /** Node 1 holds an entry with the greatest score (ex6/search.cpp:85). */
  lemma RootIsBest(s: seq<Entry>)
    requires |s| >= 1
    ensures Winner(s, 1) in s
    ensures forall j :: 0 <= j < |s| ==> s[j].first <= Winner(s, 1).first
  {
    var w := WinnerIsEntry(s, 1);
    forall j | 0 <= j < |s|
      ensures s[j].first <= Winner(s, 1).first
    {
      UnderRoot(|s| + j);
      WinnerBeats(s, 1, |s| + j);
    }
  }

  /** The tree as the two loops leave it (ex6/search.cpp:68-82). */
  ghost predicate Built(a: array<Entry>, s: seq<Entry>)
    reads a
  {
    a.Length == 2 * |s| && forall i :: 1 <= i < a.Length ==> a[i] == Winner(s, i)
  }

  /** An inner node holds the higher of its children, the left one on a tie. */
  lemma WinnerInner(s: seq<Entry>, i: nat)
    requires 1 <= i < |s|
    ensures Winner(s, i) == if Winner(s, 2 * i).first >= Winner(s, 2 * i + 1).first then Winner(s, 2 * i) else Winner(s, 2 * i + 1)
  {
  }

  /** A leaf holds its entry. */
  lemma WinnerLeaves(s: seq<Entry>)
    ensures forall k :: |s| <= k < 2 * |s| ==> Winner(s, k) == s[k - |s|]
  {
  }

  /** Fills the leaves `n .. 2n-1` with the entries (ex6/search.cpp:71-73). */
  method FillLeaves(a: array<Entry>, s: seq<Entry>)
    requires a.Length == 2 * |s|
    modifies a
    ensures forall k :: |s| <= k < 2 * |s| ==> a[k] == Winner(s, k)
  {
    var n := |s|;
    for i := 0 to n
      invariant forall k :: n <= k < n + i ==> a[k] == s[k - n]
    {
      a[n + i] := s[i];
    }
    WinnerLeaves(s);
  }

  /** Fills every inner node from `n - 1` down to 1 with the higher of its children, the left
      one on a tie (ex6/search.cpp:76-82). */
  method FillInner(a: array<Entry>, s: seq<Entry>)
    requires a.Length == 2 * |s|
    requires forall k :: |s| <= k < 2 * |s| ==> a[k] == Winner(s, k)
    modifies a
    ensures Built(a, s)
  {
    var n := |s|;
    var i := n - 1;
    while i >= 1
      invariant -1 <= i < n
      invariant forall k {:trigger a[k]} :: i < k < 2 * n && k >= 1 ==> a[k] == Winner(s, k)
    {
      WinnerInner(s, i);
      if a[i * 2].first >= a[i * 2 + 1].first {
        a[i] := a[i * 2];
      } else {
        a[i] := a[i * 2 + 1];
      }
      i := i - 1;
    }
  }

  /** While the walk is at node `idx`: every entry outside `idx`'s subtree scores at most
      `max2`, and `max2` is `Zero` or one of those entries. */
  ghost predicate Beaten(s: seq<Entry>, idx: nat, max2: Entry)
  {
    (forall j :: 0 <= j < |s| && !Under(idx, |s| + j) ==> s[j].first <= max2.first)
    && (max2 == Zero || exists j :: 0 <= j < |s| && !Under(idx, |s| + j) && s[j] == max2)
  }

  /** One step of the walk: going down from `idx` to the child `c` the winner came from, the
      other child `o` is the best of the entries that newly fall outside the subtree. */
  lemma DescendKeeps(s: seq<Entry>, idx: nat, c: nat, o: nat, max2: Entry, next: Entry)
    requires 1 <= idx < |s| && {c, o} == {2 * idx, 2 * idx + 1}
    requires Beaten(s, idx, max2)
    requires next == if Winner(s, o).first > max2.first then Winner(s, o) else max2
    ensures Beaten(s, c, next)
  {
    forall j | 0 <= j < |s| && !Under(c, |s| + j)
      ensures s[j].first <= next.first
    {
      if Under(idx, |s| + j) {
        UnderChild(idx, |s| + j);
        WinnerBeats(s, o, |s| + j);
      }
    }
    if next != max2 {
      var j := WinnerIsEntry(s, o);
      if c == 2 * idx {
        SiblingsDisjoint(idx, |s| + j);
      } else if Under(c, |s| + j) {
        SiblingsDisjoint(idx, |s| + j);
      }
    } else if max2 != Zero {
      var j :| 0 <= j < |s| && !Under(idx, |s| + j) && s[j] == max2;
      if Under(c, |s| + j) {
        UnderParent(idx, c, |s| + j);
      }
    }
  }

  /** At an inner node, `a[idx] == a[left]` holds exactly when the winner came from the left
      child. */
  lemma FromLeft(s: seq<Entry>, idx: nat)
    requires 1 <= idx < |s|
    ensures Winner(s, idx) == Winner(s, 2 * idx) <==> Winner(s, 2 * idx).first >= Winner(s, 2 * idx + 1).first
    ensures Winner(s, idx) != Winner(s, 2 * idx) ==> Winner(s, idx) == Winner(s, 2 * idx + 1)
  {
  }

  /** A leaf's subtree is the leaf alone. */
  lemma LeafAlone(n: nat, idx: nat, k: nat)
    requires n <= idx && k < 2 * n && Under(idx, k)
    ensures k == idx
  {
  }

  /** The runner-up walk (ex6/search.cpp:88-110): from the root down the winner's path,
      keeping the best of the entries the winner met on the way. Ends at the winner's leaf,
      whose index it returns. */
  method WalkRunnerUp(a: array<Entry>, ghost s: seq<Entry>, max1: Entry) returns (max2: Entry, leaf: nat)
    requires |s| >= 1 && Built(a, s) && max1 == a[1]
    ensures 0 <= leaf < |s| && s[leaf] == max1
    ensures Beaten(s, |s| + leaf, max2)
  {
    var n := a.Length / 2;
    max2 := Zero;
    var idx := 1;
    RootCoversAll(s);
    while idx < n
      invariant 1 <= idx < 2 * n && Winner(s, idx) == max1
      invariant Beaten(s, idx, max2)
      decreases 2 * n - idx
    {
      var left := idx * 2;
      var right := left + 1;
      FromLeft(s, idx);
      UnderRoot(right);
      UnderRoot(left);
      if a[idx] == a[left] {
        WinnerBeats(s, 1, right);
        var next := if a[right].first > max2.first then a[right] else max2;
        DescendKeeps(s, idx, left, right, max2, next);
        if a[right].first > max2.first && a[right].first <= max1.first {
          max2 := a[right];
        }
        idx := left;
      } else {
        WinnerBeats(s, 1, left);
        var next := if a[left].first > max2.first then a[left] else max2;
        DescendKeeps(s, idx, right, left, max2, next);
        if a[left].first > max2.first && a[left].first <= max1.first {
          max2 := a[left];
        }
        idx := right;
      }
    }
    leaf := idx - n;
  }

  /** The tournament method (ex6/search.cpp:67-110): build the tree over the table, take the
      root as `max1`, and walk the winner's path for `max2`. */
  method TournamentTopTwo(scores: seq<Entry>) returns (max1: Entry, max2: Entry)
    requires Numbered(scores) && |scores| >= 1
    ensures max1 == Winner(scores, 1)
    ensures IsTopTwo(scores, max1, max2)
  {
    var n := |scores|;
    var a := new Entry[2 * n](_ => Zero);
    FillLeaves(a, scores);
    FillInner(a, scores);
    max1 := a[1];
    var leaf;
    max2, leaf := WalkRunnerUp(a, scores, max1);
    WalkFindsTopTwo(scores, max1, max2, leaf);
  }

  /** Where the walk ends, the root's entry and the best entry outside its leaf are the top
      two. */
  lemma WalkFindsTopTwo(s: seq<Entry>, max1: Entry, max2: Entry, leaf: nat)
    requires Numbered(s) && |s| >= 1 && leaf < |s| && s[leaf] == max1 && max1 == Winner(s, 1)
    requires Beaten(s, |s| + leaf, max2)
    ensures IsTopTwo(s, max1, max2)
  {
    var n := |s|;
    RootIsBest(s);
    EntriesAtIds(s);
    forall x | x in s && x != max1
      ensures x.first <= max2.first
    {
      if Under(n + leaf, n + x.second - 1) {
        LeafAlone(n, n + leaf, n + x.second - 1);
      }
    }
    if max2 != Zero {
      var j :| 0 <= j < n && !Under(n + leaf, n + j) && s[j] == max2;
    }
  }

  // ---------------------------------------------------------------------------------------
  // Heap (ex6/search.cpp:122-130)
  // ---------------------------------------------------------------------------------------

  /** `std::greater<Pair>`: `a` sits nearer the top than `b` when `a > b`. */
  function GreaterFirst(): (Entry, Entry) -> bool
  {
    (a: Entry, b: Entry) => Greater(a, b)
  }

  /** `>` on pairs is a strict weak order, so it is a valid heap comparator. */
  lemma GreaterIsStrictWeakOrder()
    ensures StrictWeakOrder(GreaterFirst())
  {
    forall a: Entry, b: Entry, c: Entry
      ensures !GreaterFirst()(a, a)
      ensures GreaterFirst()(a, b) && GreaterFirst()(b, c) ==> GreaterFirst()(a, c)
      ensures !GreaterFirst()(a, b) && !GreaterFirst()(b, c) ==> !GreaterFirst()(a, c)
    {
      LessIsStrictTotalOrder(c, b, a);
    }
  }

  /** In a numbered table every entry occurs once. */
  lemma {:induction false} NumberedOnce(s: seq<Entry>, x: Entry)
    requires Numbered(s)
    ensures multiset(s)[x] <= 1
  {
    if |s| > 0 {
      var t := s[..|s| - 1];
      assert s == t + [s[|s| - 1]];
      NumberedOnce(t, x);
      EntriesAtIds(t);
    }
  }

  /** The heap method (ex6/search.cpp:122-130): build a heap ordered by `>` from the table,
      take the top, pop it and take the top again. `max1` is the greatest pair (the highest
      score, and among equal scores the highest id) and `max2` the greatest of the rest;
      `top` on a heap emptied too early throws. */
  method HeapTopTwo(scores: seq<Entry>) returns (r: Result<(Entry, Entry)>)
    requires Numbered(scores)
    ensures r.Err? <==> |scores| < 2
    ensures r.Err? ==> r.error == OutOfRange("Heap is empty")
    ensures r.Ok? ==> forall x :: x in scores ==> GreaterEq(r.value.0, x)
    ensures r.Ok? ==> forall x :: x in scores && x != r.value.0 ==> GreaterEq(r.value.1, x)
    ensures r.Ok? ==> IsTopTwo(scores, r.value.0, r.value.1)
  {
    GreaterIsStrictWeakOrder();
    var heap := new Heap<Entry>.FromList(scores, GreaterFirst());
    assert |heap.data| == |multiset(heap.data)| == |scores|;
    var t1 := heap.Top();
    if t1.Err? {
      return Err(t1.error);
    }
    var max1 := t1.value;
    TopOfBag(heap.data, max1);
    var o1 := heap.Pop();
    var t2 := heap.Top();
    if t2.Err? {
      return Err(t2.error);
    }
    var max2 := t2.value;
    TopOfBag(heap.data, max2);
    var o2 := heap.Pop();
    HeapPicksTopTwo(scores, max1, max2);
    r := Ok((max1, max2));
  }

  /** What `top` promises, over the heap's bag: no element is greater than the top. */
  lemma TopOfBag(d: seq<Entry>, m: Entry)
    requires forall j :: 0 <= j < |d| ==> !GreaterFirst()(d[j], m)
    ensures forall x :: x in multiset(d) ==> GreaterEq(m, x)
  {
    forall x | x in multiset(d)
      ensures GreaterEq(m, x)
    {
      var j :| 0 <= j < |d| && d[j] == x;
    }
  }

  /** The greatest pair of the table and the greatest pair of the rest are its top two. */
  lemma HeapPicksTopTwo(s: seq<Entry>, max1: Entry, max2: Entry)
    requires Numbered(s)
    requires max1 in multiset(s) && forall x :: x in multiset(s) ==> GreaterEq(max1, x)
    requires max2 in multiset(s) - multiset{max1}
    requires forall x :: x in multiset(s) - multiset{max1} ==> GreaterEq(max2, x)
    ensures forall x :: x in s ==> GreaterEq(max1, x)
    ensures forall x :: x in s && x != max1 ==> GreaterEq(max2, x)
    ensures IsTopTwo(s, max1, max2)
  {
    NumberedOnce(s, max1);
    forall x | x in s && x != max1
      ensures GreaterEq(max2, x)
    {
      assert x in multiset(s) - multiset{max1};
    }
  }

  /** The three methods agree on the two scores: any two results that are top two of the same
      table name the same highest and second-highest score. */
  lemma TopTwoScoresAgree(s: seq<Entry>, max1: Entry, max2: Entry, other1: Entry, other2: Entry)
    requires Numbered(s)
    requires IsTopTwo(s, max1, max2) && IsTopTwo(s, other1, other2)
    ensures max1.first == other1.first && max2.first == other2.first
  {
    if max1 != other1 {
      assert max2.first >= other1.first;
      assert other2.first >= max1.first;
    }
  }
}
