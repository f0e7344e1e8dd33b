/** `Heap<T, C>`: a binary heap stored level by level in a sequence, ordered by a comparator
    `comp` for which `comp(a, b)` means that `a` sits nearer the top than `b`. */
module Heaps {
  import opened Errors

  /** What the heap needs of `comp`, and what `std::less`, `std::greater` and the Huffman
      frequency comparison give: a strict weak order. Irreflexive and transitive, and
      "does not precede" is transitive too. */
  ghost predicate StrictWeakOrder<T(!new)>(comp: (T, T) -> bool)
  {
    (forall a :: !comp(a, a))
    && (forall a, b, c :: comp(a, b) && comp(b, c) ==> comp(a, c))
    && (forall a, b, c :: !comp(a, b) && !comp(b, c) ==> !comp(a, c))
  }

  /** `parent(i)` (MyDS/heap.h:106-108): the slot whose child `i` is. */
  function Parent(i: nat): (p: nat)
    requires i > 0
    ensures p < i && (i == 2 * p + 1 || i == 2 * p + 2)
  {
    (i - 1) / 2
  }

  /** `left_child(i)` (MyDS/heap.h:110-112). */
  function LeftChild(i: nat): (c: nat)
    ensures c > 0 && Parent(c) == i
  {
    2 * i + 1
  }

  /** `right_child(i)` (MyDS/heap.h:114-116). */
  function RightChild(i: nat): (c: nat)
    ensures c > 0 && Parent(c) == i && c == LeftChild(i) + 1
  {
    2 * i + 2
  }

  /** Heap order on every edge whose upper end is at slot `lo` or below it: no child precedes
      its parent. `HeapFrom(s, comp, 0)` is the whole heap. */
  ghost predicate HeapFrom<T>(s: seq<T>, comp: (T, T) -> bool, lo: nat)
  {
    forall c :: 0 < c < |s| && Parent(c) >= lo ==> !comp(s[c], s[Parent(c)])
  }

  ghost predicate HeapOrdered<T>(s: seq<T>, comp: (T, T) -> bool)
  {
    HeapFrom(s, comp, 0)
  }

  /** While `up` moves the value at `k` towards the root: every edge is in order except the one
      from `k` to its parent, and `k`'s children do not precede `k`'s parent either. */
  ghost predicate RisingAt<T>(s: seq<T>, comp: (T, T) -> bool, k: nat)
    requires k < |s|
  {
    (forall c :: 0 < c < |s| && c != k ==> !comp(s[c], s[Parent(c)]))
    && (k > 0 ==> forall c :: 0 < c < |s| && Parent(c) == k ==> !comp(s[c], s[Parent(k)]))
  }

  /** While `down` moves the value at `k` away from the root, among the edges from slot `lo`
      on: only the edges from `k` to its children may be out of order, and those children do
      not precede `k`'s parent. */
  ghost predicate SinkingAt<T>(s: seq<T>, comp: (T, T) -> bool, lo: nat, k: nat)
    requires k < |s|
  {
    (forall c :: 0 < c < |s| && Parent(c) >= lo && Parent(c) != k ==> !comp(s[c], s[Parent(c)]))
    && (k > 0 && Parent(k) >= lo ==> forall c :: 0 < c < |s| && Parent(c) == k ==> !comp(s[c], s[Parent(k)]))
  }

  /** `std::swap(data[i], data[j])`. */
  function Swap<T>(s: seq<T>, i: nat, j: nat): (r: seq<T>)
    requires i < |s| && j < |s|
    ensures |r| == |s| && r[i] == s[j] && r[j] == s[i]
    ensures forall k :: 0 <= k < |s| && k != i && k != j ==> r[k] == s[k]
    ensures multiset(r) == multiset(s)
  {
    s[i := s[j]][j := s[i]]
  }

  /** In a heap no element precedes the one at slot `j`'s ancestors, so none precedes the
      top (MyDS/heap.h:83-88). */
  lemma {:induction false} TopPrecedesAt<T(!new)>(s: seq<T>, comp: (T, T) -> bool, j: nat)
    requires StrictWeakOrder(comp) && HeapOrdered(s, comp) && j < |s|
    ensures !comp(s[j], s[0])
    decreases j
  {
    if j > 0 {
      TopPrecedesAt(s, comp, Parent(j));
    }
  }

  lemma TopPrecedesAll<T(!new)>(s: seq<T>, comp: (T, T) -> bool)
    requires StrictWeakOrder(comp) && HeapOrdered(s, comp)
    ensures forall j :: 0 <= j < |s| ==> !comp(s[j], s[0])
    ensures forall x :: x in multiset(s) ==> !comp(x, s[0])
  {
    forall j | 0 <= j < |s| {
      TopPrecedesAt(s, comp, j);
    }
    forall x | x in multiset(s)
      ensures !comp(x, s[0])
    {
      var j :| 0 <= j < |s| && s[j] == x;
    }
  }

  /** One swap of `up` (MyDS/heap.h:121-123): when the value at `k` precedes its parent, the
      exchange moves the single out-of-order edge one level up. */
  lemma UpStep<T(!new)>(s: seq<T>, comp: (T, T) -> bool, k: nat)
    requires StrictWeakOrder(comp) && 0 < k < |s| && RisingAt(s, comp, k)
    requires comp(s[k], s[Parent(k)])
    ensures RisingAt(Swap(s, Parent(k), k), comp, Parent(k))
  {
    var p := Parent(k);
    var r := Swap(s, p, k);
    forall c | 0 < c < |r| && c != p
      ensures !comp(r[c], r[Parent(c)])
    {
      if c == k {
        assert !comp(s[p], s[k]);
      } else if Parent(c) == p {
        assert !comp(s[c], s[p]);
      }
    }
    if p > 0 {
      forall c | 0 < c < |r| && Parent(c) == p
        ensures !comp(r[c], r[Parent(p)])
      {
        assert !comp(s[p], s[Parent(p)]);
        if c != k {
          assert !comp(s[c], s[p]);
        }
      }
    }
  }

  /** One swap of `down` (MyDS/heap.h:140-142): when a child `m` of `k` precedes `k` and no
      child of `k` precedes `m`, the exchange moves the out-of-order edges one level down. */
  lemma DownStep<T(!new)>(s: seq<T>, comp: (T, T) -> bool, lo: nat, k: nat, m: nat)
    requires StrictWeakOrder(comp) && lo <= k < m < |s| && Parent(m) == k
    requires SinkingAt(s, comp, lo, k) && comp(s[m], s[k])
    requires forall c :: 0 < c < |s| && Parent(c) == k ==> !comp(s[c], s[m])
    ensures SinkingAt(Swap(s, k, m), comp, lo, m)
  {
    var r := Swap(s, k, m);
    forall c | 0 < c < |r| && Parent(c) >= lo && Parent(c) != m
      ensures !comp(r[c], r[Parent(c)])
    {
      if c == m {
        assert !comp(s[k], s[m]);
      } else if c == k {
        assert !comp(s[m], s[Parent(k)]);
      }
    }
  }

  class Heap<T(!new)> {
    /** The slots, level by level (`data`), and the comparator (`comp`). */
    var data: seq<T>
    const comp: (T, T) -> bool

    ghost predicate Valid()
      reads this
    {
      StrictWeakOrder(comp) && HeapOrdered(data, comp)
    }

    /** `Heap(comp)` (MyDS/heap.h:16-18): an empty heap; `Heap()` passes `C()`. */
    constructor (comp: (T, T) -> bool)
      requires StrictWeakOrder(comp)
      ensures Valid() && data == [] && this.comp == comp
    {
      data := [];
      this.comp := comp;
    }

    /** `Heap(list, comp)` (MyDS/heap.h:20-30): the list's elements, rearranged by
        `build_heap`. */
    constructor FromList(list: seq<T>, comp: (T, T) -> bool)
      requires StrictWeakOrder(comp)
      ensures Valid() && multiset(data) == multiset(list) && this.comp == comp
    {
      data := list;
      this.comp := comp;
      new;
      BuildHeap();
    }

    /** The copy constructor (MyDS/heap.h:32): the same slots and comparator. */
    constructor Copy(other: Heap<T>)
      requires other.Valid()
      ensures Valid() && data == other.data && comp == other.comp
    {
      data := other.data;
      comp := other.comp;
    }

    /** `empty()` (MyDS/heap.h:55-57). */
    function Empty(): (e: bool)
      reads this
      ensures e <==> multiset(data) == multiset{}
    {
      |data| == 0
    }

    /** `size()` (MyDS/heap.h:59-61). */
    function Size(): (n: nat)
      reads this
      ensures n == |multiset(data)|
    {
      |data|
    }

    /** `clear()` (MyDS/heap.h:63-65). */
    method Clear()
      requires Valid()
      modifies this
      ensures Valid() && data == []
    {
      data := [];
    }

    /** `push(value)` (MyDS/heap.h:67-70): the value joins at the end and rises. */
    method Push(value: T)
      requires Valid()
      modifies this
      ensures Valid() && multiset(data) == old(multiset(data)) + multiset{value}
      ensures |data| == old(|data|) + 1
    {
      data := data + [value];
      Up(|data| - 1);
    }

    /** `pop()` (MyDS/heap.h:72-81): the last element replaces the top and sinks; an empty
        heap throws `out_of_range`. */
    method Pop() returns (o: Outcome)
      requires Valid()
      modifies this
      ensures Valid()
      ensures old(data) == [] <==> o.Fail?
      ensures o.Fail? ==> o.error == OutOfRange("Heap is empty") && data == old(data)
      ensures o.Pass? ==> multiset(data) == old(multiset(data)) - multiset{old(data[0])}
      ensures o.Pass? ==> |data| == old(|data|) - 1
    {
      if |data| == 0 {
        return Fail(OutOfRange("Heap is empty"));
      }
      o := Pass;
      ghost var before := data;
      var n := |data|;
      data := data[0 := data[n - 1]][..n - 1];
      DropTop(before);
      if |data| != 0 {
        Down(0, 0);
      }
    }

    /** `top()` (MyDS/heap.h:83-88): the first slot, which no element precedes; an empty heap
        throws `out_of_range`. */
    method Top() returns (r: Result<T>)
      requires Valid()
      ensures data == [] ==> r == Err(OutOfRange("Heap is empty"))
      ensures data != [] ==> r == Ok(data[0])
      ensures r.Ok? ==> r.value in data && forall j :: 0 <= j < |data| ==> !comp(data[j], r.value)
    {
      if |data| == 0 {
        return Err(OutOfRange("Heap is empty"));
      }
      TopPrecedesAll(data, comp);
      return Ok(data[0]);
    }

    /** What `pop` leaves before `down`: slot 0 holds the old last element and the rest is
        unchanged, so only the edges below the root can be out of order. */
    lemma DropTop(before: seq<T>)
      requires StrictWeakOrder(comp) && HeapOrdered(before, comp) && |before| > 0
      requires data == before[0 := before[|before| - 1]][..|before| - 1]
      ensures multiset(data) == multiset(before) - multiset{before[0]}
      ensures |data| > 0 ==> SinkingAt(data, comp, 0, 0)
    {
      var n := |before|;
      if n > 1 {
        assert before == [before[0]] + before[1..n - 1] + [before[n - 1]];
        assert data == [before[n - 1]] + before[1..n - 1];
      }
    }

    /** `up(index)` (MyDS/heap.h:118-128): swaps the value at `index` with its parent while it
        precedes the parent. */
    method Up(index: nat)
      requires StrictWeakOrder(comp) && index < |data| && RisingAt(data, comp, index)
      modifies this
      ensures Valid() && multiset(data) == old(multiset(data)) && |data| == old(|data|)
    {
      var k: nat := index;
      while k > 0
        invariant k < |data| == old(|data|) && multiset(data) == old(multiset(data))
        invariant RisingAt(data, comp, k)
      {
        var p := Parent(k);
        if comp(data[k], data[p]) {
          UpStep(data, comp, k);
          data := Swap(data, p, k);
          k := p;
        } else {
          break;
        }
      }
    }

    /** `down(index)` (MyDS/heap.h:130-144): swaps the value at `index` with the child that
        precedes it and its sibling, until neither child precedes it. */
    method Down(index: nat, ghost lo: nat)
      requires StrictWeakOrder(comp) && lo <= index < |data| && SinkingAt(data, comp, lo, index)
      modifies this
      ensures HeapFrom(data, comp, lo) && multiset(data) == old(multiset(data)) && |data| == old(|data|)
      decreases |data| - index
    {
      var largest := index;
      var l := LeftChild(index);
      var r := RightChild(index);
      if l < |data| && comp(data[l], data[largest]) {
        largest := l;
      }
      if r < |data| && comp(data[r], data[largest]) {
        largest := r;
      }
      if largest != index {
        forall c | 0 < c < |data| && Parent(c) == index
          ensures !comp(data[c], data[largest])
        {
          assert c == l || c == r;
        }
        DownStep(data, comp, lo, index, largest);
        data := Swap(data, index, largest);
        Down(largest, lo);
      } else {
        forall c | 0 < c < |data| && Parent(c) >= lo
          ensures !comp(data[c], data[Parent(c)])
        {
          if Parent(c) == index {
            assert c == l || c == r;
          }
        }
      }
    }

    /** `build_heap()` (MyDS/heap.h:146-153): `down` from the last slot with a child back to
        the root. */
    method BuildHeap()
      requires StrictWeakOrder(comp)
      modifies this
      ensures Valid() && multiset(data) == old(multiset(data))
    {
      if |data| == 0 {
        return;
      }
      var i: int := |data| / 2 - 1;
      while i >= 0
        invariant -1 <= i < |data| && multiset(data) == old(multiset(data))
        invariant HeapFrom(data, comp, i + 1)
      {
        Down(i, i);
        i := i - 1;
      }
    }
  }

  /** `std::less<int>` and `std::greater<int>`. */
  function IntLess(a: int, b: int): bool
  {
    a < b
  }

  function IntGreater(a: int, b: int): bool
  {
    a > b
  }

  /** `make_max_heap(list)` as MyDS/heap.h:156-159 writes it: it passes `std::less`, so it
      builds the min-heap, and the smallest element, not the largest, is on top. */
  method MakeMaxHeapAsWritten(list: seq<int>) returns (h: Heap<int>)
    ensures fresh(h) && h.Valid() && multiset(h.data) == multiset(list)
    ensures h.data != [] ==> forall x :: x in list ==> h.data[0] <= x
  {
    h := MakeMinHeap(list);
  }

  /** `make_max_heap(list)` with `std::greater`: the largest element is on top. */
  method MakeMaxHeap(list: seq<int>) returns (h: Heap<int>)
    ensures fresh(h) && h.Valid() && multiset(h.data) == multiset(list)
    ensures h.data != [] ==> forall x :: x in list ==> h.data[0] >= x
  {
    h := new Heap.FromList(list, IntGreater);
    TopPrecedesAll(h.data, h.comp);
    forall x | x in list && h.data != []
      ensures h.data[0] >= x
    {
      assert x in multiset(list);
    }
  }

  /** What `make_min_heap(list)` (MyDS/heap.h:161-164) intends: a heap with `std::less`, the
      smallest element on top. As written it passes `std::greater` to a `Heap<T>`, whose
      comparator type is `std::less<T>`, so it does not compile once instantiated. */
  method MakeMinHeap(list: seq<int>) returns (h: Heap<int>)
    ensures fresh(h) && h.Valid() && multiset(h.data) == multiset(list)
    ensures h.data != [] ==> forall x :: x in list ==> h.data[0] <= x
  {
    h := new Heap.FromList(list, IntLess);
    TopPrecedesAll(h.data, h.comp);
    forall x | x in list && h.data != []
      ensures h.data[0] <= x
    {
      assert x in multiset(list);
    }
  }
}
