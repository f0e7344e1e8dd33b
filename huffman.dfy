/** The Huffman coder of ex4/hufftree.cpp, over byte sequences instead of files: frequency
    counting, the heap-driven merge loop, code generation by root paths, the MSB-first bit
    packing of `compress` and the tree walk of `decompress`. */
module Huffman {
  import opened Errors
  import opened Pairs
  import opened Maps
  import opened Heaps

  /** `unsigned char`. */
  type Byte = b: int | 0 <= b < 256

  /** A pointer that may be null. */
  datatype Option<T> = None | Some(value: T)

  /** `HuffmanTree::Node` (ex4/hufftree.cpp:11-35). A leaf carries a byte and its frequency;
      an inner node carries the frequency the merge gave it (its `data` is `'\0'` and never
      read). Inner nodes built by `build_tree` always have both children. */
  datatype Tree = Leaf(data: Byte, freq: nat) | Branch(freq: nat, left: Tree, right: Tree)

  // ---------------------------------------------------------------------------------------
  // count_freq

  /** The distinct bytes of `s` in the order they first occur. */
  function Distinct(s: seq<Byte>): (r: seq<Byte>)
    ensures forall b :: b in r <==> b in s
    ensures forall i, j :: 0 <= i < j < |r| ==> r[i] != r[j]
    ensures r == [] <==> s == []
  {
    if s == [] then []
    else
      var d := Distinct(s[..|s| - 1]);
      if s[|s| - 1] in s[..|s| - 1] then d else d + [s[|s| - 1]]
  }

  /** The pairs hold each distinct byte of `input` once, in first-occurrence order, with the
      number of times it occurs. */
  ghost predicate Counts(s: seq<Pair<Byte, nat>>, input: seq<Byte>)
  {
    UniqueKeys(s) && Keys(s) == Distinct(input)
    && forall b :: b in input ==> Lookup(s, b) == Ok(multiset(input)[b])
  }

  /** A byte already seen adds no distinct byte; a new one comes last. */
  lemma DistinctSnoc(input: seq<Byte>, ch: Byte)
    ensures Distinct(input + [ch]) == if ch in input then Distinct(input) else Distinct(input) + [ch]
  {
    assert (input + [ch])[..|input|] == input;
  }

  /** After `freq[ch]++` each byte seen so far is counted once more if it is `ch`. */
  lemma TallyAt(s: seq<Pair<Byte, nat>>, input: seq<Byte>, ch: Byte, n: nat, b: Byte)
    requires UniqueKeys(s) && n == multiset(input)[ch]
    requires b != ch ==> Lookup(s, b) == Ok(multiset(input)[b])
    ensures Lookup(Put(s, ch, n + 1), b) == Ok(multiset(input + [ch])[b])
  {
    CountSnoc(input, ch, b);
    if b != ch {
      PutOthers(s, ch, n + 1, b);
    } else {
      PutSpec(s, ch, n + 1);
    }
  }

  /** Appending `ch` counts `ch` once more and every other byte as before. */
  lemma CountSnoc(input: seq<Byte>, ch: Byte, b: Byte)
    ensures multiset(input + [ch])[b] == multiset(input)[b] + (if b == ch then 1 else 0)
  {
    assert multiset(input + [ch]) == multiset(input) + multiset{ch};
  }

  /** One `freq[ch]++` on a map that counts `input` makes it count `input + [ch]`. */
  lemma TallyStep(s: seq<Pair<Byte, nat>>, input: seq<Byte>, ch: Byte, n: nat)
    requires Counts(s, input)
    requires n == multiset(input)[ch]
    ensures Counts(Put(s, ch, n + 1), input + [ch])
  {
    PutSpec(s, ch, n + 1);
    DistinctSnoc(input, ch);
    forall b | b in input + [ch]
      ensures Lookup(Put(s, ch, n + 1), b) == Ok(multiset(input + [ch])[b])
    {
      if b != ch {
        assert b in input;
      }
      TallyAt(s, input, ch, n, b);
    }
  }

  /** `count_freq` (ex4/hufftree.cpp:127-137): one `freq[ch]++` per byte. The map's pairs
      come out with each distinct byte once, in first-occurrence order, paired with the
      number of times it occurs. */
  method CountFreq(input: seq<Byte>) returns (freq: seq<Pair<Byte, nat>>)
    ensures UniqueKeys(freq) && Keys(freq) == Distinct(input)
    ensures forall b :: b in input ==> Lookup(freq, b) == Ok(multiset(input)[b])
  {
    var m := new Map<Byte, nat>();
    var k := 0;
    while k < |input|
      invariant 0 <= k <= |input| && m.Valid() && Counts(m.data, input[..k])
    {
      Increment(m, input[k], input[..k]);
      assert input[..k + 1] == input[..k] + [input[k]];
      k := k + 1;
    }
    assert input[..k] == input;
    freq := m.data;
    assert Counts(freq, input);
  }

  /** `freq[ch]++` (ex4/hufftree.cpp:132): `operator[]` finds or appends the byte's counter,
      and the increment stores one more through the returned reference. */
  method Increment(m: Map<Byte, nat>, ch: Byte, ghost seen: seq<Byte>)
    requires m.Valid() && Counts(m.data, seen)
    modifies m
    ensures m.Valid() && Counts(m.data, seen + [ch])
  {
    ghost var before := m.data;
    var n := m.Index(ch, 0);
    assert n == multiset(seen)[ch] by {
      if ch in Keys(before) {
        assert ch in Distinct(seen);
      } else {
        assert ch !in Distinct(seen);
      }
    }
    IndexThenAssign(before, ch, 0, n + 1);
    m.Insert(ch, n + 1);
    TallyStep(before, seen, ch, n);
  }

  // ---------------------------------------------------------------------------------------
  // Trees

  /** The leaves, left to right, as (byte, frequency) pairs. */
  function Leaves(t: Tree): seq<Pair<Byte, nat>>
  {
    match t
    case Leaf(d, f) => [Pair(d, f)]
    case Branch(_, l, r) => Leaves(l) + Leaves(r)
  }

  /** The bytes at the leaves. */
  function Symbols(t: Tree): set<Byte>
  {
    set p | p in Leaves(t) :: p.first
  }

  /** Every inner node's frequency is the sum of its children's, as `build_tree` sets it. */
  predicate Consistent(t: Tree)
  {
    match t
    case Leaf(_, _) => true
    case Branch(f, l, r) => f == l.freq + r.freq && Consistent(l) && Consistent(r)
  }

  /** A consistent tree's frequency is the sum of its leaves' frequencies. */
  function LeafTotal(s: seq<Pair<Byte, nat>>): nat
  {
    if s == [] then 0 else s[0].second + LeafTotal(s[1..])
  }

  lemma {:induction false} LeafTotalAppend(a: seq<Pair<Byte, nat>>, b: seq<Pair<Byte, nat>>)
    ensures LeafTotal(a + b) == LeafTotal(a) + LeafTotal(b)
    decreases |a|
  {
    if a == [] {
      assert a + b == b;
    } else {
      assert (a + b)[0] == a[0];
      assert (a + b)[1..] == a[1..] + b;
      LeafTotalAppend(a[1..], b);
    }
  }

  lemma {:induction false} ConsistentWeight(t: Tree)
    requires Consistent(t)
    ensures t.freq == LeafTotal(Leaves(t))
  {
    match t
    case Leaf(_, _) =>
    case Branch(_, l, r) =>
      ConsistentWeight(l);
      ConsistentWeight(r);
      LeafTotalAppend(Leaves(l), Leaves(r));
  }

  /** All the leaves of a forest, as a bag. */
  function LeafBag(ts: seq<Tree>): multiset<Pair<Byte, nat>>
  {
    if ts == [] then multiset{} else multiset(Leaves(ts[0])) + LeafBag(ts[1..])
  }

  lemma {:induction false} LeafBagAppend(a: seq<Tree>, b: seq<Tree>)
    ensures LeafBag(a + b) == LeafBag(a) + LeafBag(b)
    decreases |a|
  {
    if a == [] {
      assert a + b == b;
    } else {
      assert (a + b)[0] == a[0];
      assert (a + b)[1..] == a[1..] + b;
      LeafBagAppend(a[1..], b);
    }
  }

  /** Taking one tree out of a forest takes its leaves out of the bag. */
  lemma LeafBagRemove(b: seq<Tree>, j: nat)
    requires j < |b|
    ensures LeafBag(b) == multiset(Leaves(b[j])) + LeafBag(b[..j] + b[j + 1..])
  {
    var u, x, w := b[..j], b[j], b[j + 1..];
    assert b == u + ([x] + w);
    LeafBagAppend(u, [x] + w);
    LeafBagAppend(u, w);
    assert ([x] + w)[1..] == w;
    assert LeafBag([x] + w) == multiset(Leaves(x)) + LeafBag(w);
  }

  lemma MultisetRemove(b: seq<Tree>, j: nat)
    requires j < |b|
    ensures multiset(b) == multiset{b[j]} + multiset(b[..j] + b[j + 1..])
  {
    assert b == b[..j] + [b[j]] + b[j + 1..];
  }

  /** The step of `LeafBagPerm`: matching the first tree of `a` with slot `j` of `b`. */
  lemma MultisetMatch(a: seq<Tree>, b: seq<Tree>, j: nat)
    requires multiset(a) == multiset(b) && a != [] && j < |b| && b[j] == a[0]
    ensures multiset(a[1..]) == multiset(b[..j] + b[j + 1..])
  {
    MultisetRemove(b, j);
    assert a == [a[0]] + a[1..];
    var m, n := multiset(a[1..]), multiset(b[..j] + b[j + 1..]);
    assert multiset{a[0]} + m == multiset{a[0]} + n;
    forall y
      ensures m[y] == n[y]
    {
      assert (multiset{a[0]} + m)[y] == (multiset{a[0]} + n)[y];
    }
  }

  /** The bag of leaves depends only on which trees the forest holds, not on their order:
      the heap may rearrange its slots freely. */
  lemma {:induction false} LeafBagPerm(a: seq<Tree>, b: seq<Tree>)
    requires multiset(a) == multiset(b)
    ensures LeafBag(a) == LeafBag(b)
    decreases |a|
  {
    if a == [] {
      assert |b| == |multiset(b)| == 0;
    } else {
      assert a[0] in multiset(b);
      var j :| 0 <= j < |b| && b[j] == a[0];
      MultisetMatch(a, b, j);
      LeafBagPerm(a[1..], b[..j] + b[j + 1..]);
      LeafBagRemove(b, j);
    }
  }

  // ---------------------------------------------------------------------------------------
  // build_tree

  /** The heap's comparator (ex4/hufftree.cpp:45-47): the lighter node sits nearer the top. */
  function Lighter(a: Tree, b: Tree): bool
  {
    a.freq < b.freq
  }

  lemma LighterIsStrictWeakOrder()
    ensures StrictWeakOrder(Lighter)
  {
  }

  /** `heap.top()` then `heap.pop()`: take the lightest node off the heap. */
  method PopLightest(heap: Heap<Tree>) returns (t: Tree)
    requires heap.Valid() && heap.comp == Lighter && |heap.data| > 0
    modifies heap
    ensures heap.Valid() && heap.comp == Lighter
    ensures |heap.data| == old(|heap.data|) - 1
    ensures t in old(multiset(heap.data))
    ensures forall u :: u in old(multiset(heap.data)) ==> t.freq <= u.freq
    ensures multiset(heap.data) == old(multiset(heap.data)) - multiset{t}
  {
    var top := heap.Top();
    t := top.value;
    var _ := heap.Pop();
  }

  /** One round of the merge loop (ex4/hufftree.cpp:54-61): the lightest node becomes the
      left child, the lightest of the rest the right child, and their parent, weighing
      their sum, goes back on the heap. */
  method MergeTwoLowest(heap: Heap<Tree>) returns (left: Tree, right: Tree)
    requires heap.Valid() && heap.comp == Lighter && |heap.data| > 1
    modifies heap
    ensures heap.Valid() && heap.comp == Lighter
    ensures |heap.data| == old(|heap.data|) - 1
    ensures left in old(multiset(heap.data))
    ensures forall t :: t in old(multiset(heap.data)) ==> left.freq <= t.freq
    ensures right in old(multiset(heap.data)) - multiset{left}
    ensures forall t :: t in old(multiset(heap.data)) - multiset{left} ==> right.freq <= t.freq
    ensures multiset(heap.data) == old(multiset(heap.data)) - multiset{left} - multiset{right}
                                   + multiset{Branch(left.freq + right.freq, left, right)}
  {
    left := PopLightest(heap);
    right := PopLightest(heap);
    heap.Push(Branch(left.freq + right.freq, left, right));
  }

  /** A forest of consistent trees whose leaves make up `bag`. */
  ghost predicate Forest(ts: seq<Tree>, bag: multiset<Pair<Byte, nat>>)
  {
    LeafBag(ts) == bag && forall t :: t in ts ==> Consistent(t)
  }

  /** Pushing a leaf adds it to the bag. */
  lemma PushKeeps(before: seq<Tree>, after: seq<Tree>, leaf: Tree, bag: multiset<Pair<Byte, nat>>)
    requires Forest(before, bag) && leaf.Leaf?
    requires multiset(after) == multiset(before) + multiset{leaf}
    ensures Forest(after, bag + multiset{Pair(leaf.data, leaf.freq)})
  {
    assert multiset(after) == multiset([leaf] + before);
    LeafBagPerm(after, [leaf] + before);
    assert ([leaf] + before)[1..] == before;
    forall t | t in after
      ensures Consistent(t)
    {
      assert t in multiset(after);
    }
  }

  /** Taking one copy of `x` out of a forest. */
  lemma Extract(s: seq<Tree>, x: Tree) returns (rest: seq<Tree>)
    requires x in multiset(s)
    ensures multiset(rest) == multiset(s) - multiset{x}
    ensures LeafBag(s) == multiset(Leaves(x)) + LeafBag(rest)
  {
    var i :| 0 <= i < |s| && s[i] == x;
    rest := s[..i] + s[i + 1..];
    LeafBagRemove(s, i);
    MultisetRemove(s, i);
  }

  /** Replacing two trees of the forest by their parent keeps the bag of leaves. */
  lemma MergeKeepsBag(before: seq<Tree>, after: seq<Tree>, left: Tree, right: Tree)
    requires left in multiset(before) && right in multiset(before) - multiset{left}
    requires multiset(after) == multiset(before) - multiset{left} - multiset{right}
                                + multiset{Branch(left.freq + right.freq, left, right)}
    ensures LeafBag(after) == LeafBag(before)
  {
    var parent := Branch(left.freq + right.freq, left, right);
    var b1 := Extract(before, left);
    var rest := Extract(b1, right);
    assert multiset(after) == multiset([parent] + rest);
    LeafBagPerm(after, [parent] + rest);
    assert ([parent] + rest)[1..] == rest;
  }

  /** Replacing two trees of the forest by their parent keeps the bag, and the parent's
      frequency is the sum of its children's. */
  lemma MergeKeeps(before: seq<Tree>, after: seq<Tree>, left: Tree, right: Tree, bag: multiset<Pair<Byte, nat>>)
    requires Forest(before, bag)
    requires left in multiset(before) && right in multiset(before) - multiset{left}
    requires multiset(after) == multiset(before) - multiset{left} - multiset{right}
                                + multiset{Branch(left.freq + right.freq, left, right)}
    ensures Forest(after, bag)
  {
    MergeKeepsBag(before, after, left, right);
    assert left in before && right in before;
    forall t | t in after
      ensures Consistent(t)
    {
      assert t in multiset(after);
      if t != Branch(left.freq + right.freq, left, right) {
        assert t in multiset(before);
      }
    }
  }

  /** The push loop of `build_tree` (ex4/hufftree.cpp:49-51): a leaf per pair, in map order. */
  method PushLeaves(heap: Heap<Tree>, freq: seq<Pair<Byte, nat>>)
    requires heap.Valid() && heap.comp == Lighter && heap.data == []
    modifies heap
    ensures heap.Valid() && heap.comp == Lighter && |heap.data| == |freq|
    ensures Forest(heap.data, multiset(freq))
    ensures multiset(heap.data) == multiset(LeafTrees(freq))
  {
    var k := 0;
    while k < |freq|
      invariant 0 <= k <= |freq|
      invariant heap.Valid() && heap.comp == Lighter && |heap.data| == k
      invariant Forest(heap.data, multiset(freq[..k]))
      invariant multiset(heap.data) == multiset(LeafTrees(freq[..k]))
    {
      ghost var before := heap.data;
      var leaf := Leaf(freq[k].first, freq[k].second);
      heap.Push(leaf);
      PushKeeps(before, heap.data, leaf, multiset(freq[..k]));
      assert freq[..k + 1] == freq[..k] + [freq[k]];
      assert LeafTrees(freq[..k + 1]) == LeafTrees(freq[..k]) + [leaf];
      k := k + 1;
    }
    assert freq[..k] == freq;
  }

  /** One leaf per pair, in order. */
  function LeafTrees(freq: seq<Pair<Byte, nat>>): (r: seq<Tree>)
    ensures |r| == |freq|
  {
    seq(|freq|, i requires 0 <= i < |freq| => Leaf(freq[i].first, freq[i].second))
  }

  /** The tree two leaves of different frequencies merge into: the lighter one, taken off
      the heap first, becomes the left child. */
  function TwoLeaves(a: Pair<Byte, nat>, b: Pair<Byte, nat>): Tree
  {
    if a.second < b.second then Branch(a.second + b.second, Leaf(a.first, a.second), Leaf(b.first, b.second))
    else Branch(a.second + b.second, Leaf(b.first, b.second), Leaf(a.first, a.second))
  }

  /** The single round of the merge loop on two leaves of different frequencies leaves
      exactly their `TwoLeaves` parent on the heap. */
  lemma MergeTwoLeaves(before: seq<Tree>, after: seq<Tree>, a: Pair<Byte, nat>, b: Pair<Byte, nat>,
                       left: Tree, right: Tree)
    requires a.second != b.second
    requires multiset(before) == multiset{Leaf(a.first, a.second), Leaf(b.first, b.second)}
    requires left in multiset(before) && forall t :: t in multiset(before) ==> left.freq <= t.freq
    requires right in multiset(before) - multiset{left}
    requires multiset(after) == multiset(before) - multiset{left} - multiset{right}
                                + multiset{Branch(left.freq + right.freq, left, right)}
    ensures after == [TwoLeaves(a, b)]
  {
    var la, lb := Leaf(a.first, a.second), Leaf(b.first, b.second);
    assert la in multiset(before) && lb in multiset(before);
    if a.second < b.second {
      assert left == la;
      assert right == lb;
    } else {
      assert left == lb;
      assert right == la;
    }
    assert multiset(after) == multiset{TwoLeaves(a, b)};
    assert |after| == 1;
    assert after[0] in multiset(after);
  }

  /** `build_tree`'s heap work (ex4/hufftree.cpp:45-63): push a leaf per pair in map order,
      merge the two lightest until one tree is left, and take it. An empty map leaves the
      heap empty, and `heap.top()` throws. */
  method MergeAll(freq: seq<Pair<Byte, nat>>) returns (r: Result<Tree>)
    ensures freq == [] <==> r.Err?
    ensures r.Err? ==> r.error == OutOfRange("Heap is empty")
    ensures r.Ok? ==> Consistent(r.value)
    ensures r.Ok? ==> multiset(Leaves(r.value)) == multiset(freq)
    ensures |freq| == 2 && freq[0].second != freq[1].second ==> r == Ok(TwoLeaves(freq[0], freq[1]))
  {
    LighterIsStrictWeakOrder();
    var heap := new Heap<Tree>(Lighter);
    PushLeaves(heap, freq);
    MergeRounds(heap, freq);
    var top := heap.Top();
    if top.Err? {
      return Err(top.error);
    }
    r := Ok(top.value);
    assert heap.data == [top.value];
    assert LeafBag([top.value]) == multiset(Leaves(top.value)) by {
      assert [top.value][1..] == [];
    }
    if |freq| == 2 && freq[0].second != freq[1].second {
      assert |multiset(heap.data)| == 1;
    }
  }

  /** While two leaves of different frequencies are being merged, the heap holds either both
      leaves or their `TwoLeaves` parent. */
  ghost predicate Pending(data: seq<Tree>, freq: seq<Pair<Byte, nat>>)
  {
    |freq| == 2 && freq[0].second != freq[1].second ==>
      multiset(data) == multiset(LeafTrees(freq)) || data == [TwoLeaves(freq[0], freq[1])]
  }

  /** The merge loop of `build_tree` (ex4/hufftree.cpp:53-62): merge the two lightest
      until at most one tree is left. */
  method MergeRounds(heap: Heap<Tree>, ghost freq: seq<Pair<Byte, nat>>)
    requires heap.Valid() && heap.comp == Lighter
    requires |heap.data| == |freq| && Forest(heap.data, multiset(freq))
    requires multiset(heap.data) == multiset(LeafTrees(freq))
    modifies heap
    ensures heap.Valid() && heap.comp == Lighter && |heap.data| <= 1
    ensures |heap.data| == 0 <==> freq == []
    ensures Forest(heap.data, multiset(freq)) && Pending(heap.data, freq)
  {
    while heap.Size() > 1
      invariant heap.Valid() && heap.comp == Lighter
      invariant |heap.data| == 0 <==> freq == []
      invariant Forest(heap.data, multiset(freq))
      invariant Pending(heap.data, freq)
      decreases |heap.data|
    {
      ghost var before := heap.data;
      var left, right := MergeTwoLowest(heap);
      MergeKeeps(before, heap.data, left, right, multiset(freq));
      PendingStep(before, heap.data, freq, left, right);
    }
  }

  /** One merge round keeps `Pending`: with more than one tree on the heap, it still holds
      the two leaves, and the round leaves their parent. */
  lemma PendingStep(before: seq<Tree>, after: seq<Tree>, freq: seq<Pair<Byte, nat>>, left: Tree, right: Tree)
    requires Pending(before, freq) && |before| > 1
    requires left in multiset(before) && forall t :: t in multiset(before) ==> left.freq <= t.freq
    requires right in multiset(before) - multiset{left}
    requires multiset(after) == multiset(before) - multiset{left} - multiset{right}
                                + multiset{Branch(left.freq + right.freq, left, right)}
    ensures Pending(after, freq)
  {
    if |freq| == 2 && freq[0].second != freq[1].second {
      assert LeafTrees(freq) == [Leaf(freq[0].first, freq[0].second), Leaf(freq[1].first, freq[1].second)];
      assert before != [TwoLeaves(freq[0], freq[1])];
      MergeTwoLeaves(before, after, freq[0], freq[1], left, right);
    }
  }

  /** A tree whose leaves are exactly the pairs `count_freq` produced holds each input byte
      at a leaf, no other byte, and each with its number of occurrences. */
  lemma LeavesCount(t: Tree, freq: seq<Pair<Byte, nat>>, input: seq<Byte>)
    requires UniqueKeys(freq) && Keys(freq) == Distinct(input)
    requires forall b :: b in input ==> Lookup(freq, b) == Ok(multiset(input)[b])
    requires multiset(Leaves(t)) == multiset(freq)
    ensures forall b :: b in Symbols(t) <==> b in input
    ensures forall p :: p in Leaves(t) ==> p.second == multiset(input)[p.first]
  {
    forall b
      ensures b in Symbols(t) <==> b in input
    {
      if b in input {
        LeafOfInput(t, freq, b);
      }
      if b in Symbols(t) {
        var p :| p in Leaves(t) && p.first == b;
        LeafInFreq(t, freq, p);
      }
    }
    forall p | p in Leaves(t)
      ensures p.second == multiset(input)[p.first]
    {
      LeafInFreq(t, freq, p);
      var i :| 0 <= i < |freq| && freq[i] == p;
      FindUnique(freq, i);
    }
  }

  /** A key of the frequency list is the byte of some leaf. */
  lemma LeafOfInput(t: Tree, freq: seq<Pair<Byte, nat>>, b: Byte)
    requires multiset(Leaves(t)) == multiset(freq) && b in Keys(freq)
    ensures b in Symbols(t)
  {
    var i :| 0 <= i < |freq| && Keys(freq)[i] == b;
    assert freq[i] in multiset(Leaves(t));
  }

  /** A leaf is one of the pairs of the frequency list. */
  lemma LeafInFreq(t: Tree, freq: seq<Pair<Byte, nat>>, p: Pair<Byte, nat>)
    requires multiset(Leaves(t)) == multiset(freq) && p in Leaves(t)
    ensures p in freq && p.first in Keys(freq)
  {
    assert p in multiset(freq);
    var i :| 0 <= i < |freq| && freq[i] == p;
    assert Keys(freq)[i] == p.first;
  }

  // ---------------------------------------------------------------------------------------
  // generate_codes

  /** `generate_codes(node, code)` (ex4/hufftree.cpp:139-149): what it writes into `codes`.
      A leaf gets the path that led to it; an inner node hands `code + "0"` to its left
      subtree and then `code + "1"` to its right, so a later write for the same byte wins.
      A code is a sequence of bits, `true` for `'1'`. */
  function Codes(t: Tree, code: seq<bool>): (m: map<Byte, seq<bool>>)
    ensures m.Keys == Symbols(t)
  {
    match t
    case Leaf(d, f) =>
      assert Pair(d, f) in Leaves(t);
      map[d := code]
    case Branch(_, l, r) =>
      assert forall p :: p in Leaves(t) <==> p in Leaves(l) || p in Leaves(r);
      Codes(l, code + [false]) + Codes(r, code + [true])
  }

  /** Following `path` from `t`, 0 to the left and 1 to the right, ends at a leaf holding
      `b`. */
  predicate Reaches(t: Tree, path: seq<bool>, b: Byte)
    decreases |path|
  {
    match t
    case Leaf(d, _) => path == [] && d == b
    case Branch(_, l, r) => path != [] && Reaches(if path[0] then r else l, path[1..], b)
  }

  /** A byte's code is `code` followed by a path from the node to a leaf holding that byte:
      the code of a leaf is its root path. */
  lemma {:induction false} CodesReach(t: Tree, code: seq<bool>, b: Byte)
    requires b in Codes(t, code)
    ensures code <= Codes(t, code)[b]
    ensures Reaches(t, Codes(t, code)[b][|code|..], b)
  {
    match t
    case Leaf(_, _) =>
    case Branch(_, l, r) =>
      var bit := b in Codes(r, code + [true]);
      var sub := if bit then r else l;
      assert Codes(t, code)[b] == Codes(sub, code + [bit])[b];
      CodesReach(sub, code + [bit], b);
      PathStep(Codes(t, code)[b], code, bit);
  }

  /** A path that extends `code + [bit]` extends `code`, and past `code` starts with `bit`. */
  lemma PathStep(v: seq<bool>, code: seq<bool>, bit: bool)
    requires code + [bit] <= v
    ensures code <= v && v[|code|..] != [] && v[|code|..][0] == bit
    ensures v[|code|..][1..] == v[|code| + 1..]
  {
    assert v[|code|] == (code + [bit])[|code|];
  }

  /** No path to a leaf extends another: one that did would have to pass through a leaf. */
  lemma {:induction false} ReachesPrefixFree(t: Tree, p: seq<bool>, q: seq<bool>, a: Byte, b: Byte)
    requires Reaches(t, p, a) && Reaches(t, q, b) && p <= q
    ensures p == q && a == b
    decreases |p|
  {
    match t
    case Leaf(_, _) =>
    case Branch(_, l, r) =>
      assert p[0] == q[0];
      ReachesPrefixFree(if p[0] then r else l, p[1..], q[1..], a, b);
      assert p == [p[0]] + p[1..] && q == [q[0]] + q[1..];
  }

  /** The codes `generate_codes(root, "")` produces are prefix-free. */
  lemma CodesPrefixFree(t: Tree, a: Byte, b: Byte)
    requires a in Codes(t, []) && b in Codes(t, []) && a != b
    ensures !(Codes(t, [])[a] <= Codes(t, [])[b])
  {
    var ca, cb := Codes(t, [])[a], Codes(t, [])[b];
    CodesReach(t, [], a);
    CodesReach(t, [], b);
    assert ca[0..] == ca && cb[0..] == cb;
    if ca <= cb {
      ReachesPrefixFree(t, ca, cb, a, b);
    }
  }

  // ---------------------------------------------------------------------------------------
  // Bits and bytes

  function Pow2(n: nat): (p: nat)
    ensures p >= 1
  {
    if n == 0 then 1 else 2 * Pow2(n - 1)
  }

  lemma {:induction false} Pow2Bound(n: nat)
    requires n <= 8
    ensures Pow2(n) <= 256
    decreases 8 - n
  {
    if n < 8 {
      Pow2Bound(n + 1);
    }
  }

  /** `n` zero bits. */
  function Zeros(n: nat): (z: seq<bool>)
    ensures |z| == n && forall i :: 0 <= i < n ==> !z[i]
  {
    if n == 0 then [] else Zeros(n - 1) + [false]
  }

  /** The number a run of bits spells, most significant first: what `buf = (buf << 1) | bit`
      accumulates from zero. */
  function Value(bits: seq<bool>): nat
  {
    if bits == [] then 0 else 2 * Value(bits[..|bits| - 1]) + (if bits[|bits| - 1] then 1 else 0)
  }

  lemma {:induction false} ValueBound(bits: seq<bool>)
    ensures Value(bits) < Pow2(|bits|)
  {
    if bits != [] {
      ValueBound(bits[..|bits| - 1]);
    }
  }

  /** `b << k` on a non-negative value: `k` doublings. */
  function Shl(b: nat, k: nat): nat
  {
    if k == 0 then b else 2 * Shl(b, k - 1)
  }

  /** Appending `z` zero bits is `buf <<= z`. */
  lemma {:induction false} ValueZeros(bits: seq<bool>, z: nat)
    ensures Value(bits + Zeros(z)) == Shl(Value(bits), z)
  {
    if z == 0 {
      assert bits + Zeros(z) == bits;
    } else {
      var s := bits + Zeros(z);
      assert s[..|s| - 1] == bits + Zeros(z - 1) && !s[|s| - 1];
      ValueZeros(bits, z - 1);
    }
  }

  /** `b >> i` on a non-negative value: `i` halvings. */
  function Shr(b: nat, i: nat): nat
  {
    if i == 0 then b else Shr(b / 2, i - 1)
  }

  /** Bit `i` of `b`, counting from the least significant: `(buf >> i) & 1`. */
  function Bit(b: nat, i: nat): bool
  {
    Shr(b, i) % 2 == 1
  }

  /** The eight bits of a byte in the order `decompress` reads them, bit 7 first. */
  function ByteBits(b: Byte): (r: seq<bool>)
    ensures |r| == 8 && forall j :: 0 <= j < 8 ==> r[j] == Bit(b, 7 - j)
  {
    seq(8, j requires 0 <= j < 8 => Bit(b, 7 - j))
  }

  /** The bits of a byte stream, each byte most significant bit first. */
  function Bits(bytes: seq<Byte>): (r: seq<bool>)
    ensures |r| == 8 * |bytes|
  {
    if bytes == [] then [] else ByteBits(bytes[0]) + Bits(bytes[1..])
  }

  /** Reading bit `i` of the number a run spells gives back the run's bit at that place. */
  lemma {:induction false} BitOfValue(bits: seq<bool>, i: nat)
    requires i < |bits|
    ensures Bit(Value(bits), i) == bits[|bits| - 1 - i]
  {
    var init := bits[..|bits| - 1];
    if i > 0 {
      BitOfValue(init, i - 1);
      assert Value(bits) / 2 == Value(init);
      assert init[|init| - 1 - (i - 1)] == bits[|bits| - 1 - i];
    }
  }

  /** Eight packed bits read back as the same eight bits. */
  lemma ByteBitsValue(bits: seq<bool>)
    requires |bits| == 8
    ensures Value(bits) < 256
    ensures ByteBits(Value(bits)) == bits
  {
    ValueBound(bits);
    forall j | 0 <= j < 8
      ensures ByteBits(Value(bits))[j] == bits[j]
    {
      BitOfValue(bits, 7 - j);
    }
  }

  /** What `compress` writes for a run of bits: every full group of eight as one byte, then
      a last partial group shifted up to the top of a byte, zero padded. */
  function Pack(bits: seq<bool>): (r: seq<Byte>)
    decreases |bits|
  {
    if bits == [] then []
    else if |bits| < 8 then
      var padded := bits + Zeros(8 - |bits|);
      ValueByte(padded);
      [Value(padded)]
    else
      ValueByte(bits[..8]);
      [Value(bits[..8])] + Pack(bits[8..])
  }

  /** Eight bits spell a byte. */
  lemma ValueByte(bits: seq<bool>)
    requires |bits| == 8
    ensures Value(bits) < 256
  {
    ValueBound(bits);
    Pow2Bound(8);
  }

  /** How many zero bits `compress` pads the last byte with. */
  function Pad(n: nat): (p: nat)
    ensures p < 8 && (n + p) % 8 == 0
  {
    if n % 8 == 0 then 0 else 8 - n % 8
  }

  lemma PadShort(n: nat)
    requires 0 < n < 8
    ensures Pad(n) == 8 - n
  {
    assert n % 8 == n;
  }

  lemma PadSkip(n: nat)
    requires n >= 8
    ensures Pad(n) == Pad(n - 8)
  {
    assert n % 8 == (n - 8) % 8;
  }

  /** Unpacking a packed run gives the run back, followed by the padding zeros. */
  lemma {:induction false} BitsOfPack(bits: seq<bool>)
    ensures Bits(Pack(bits)) == bits + Zeros(Pad(|bits|))
    decreases |bits|
  {
    if bits == [] {
    } else if |bits| < 8 {
      BitsOfPartial(bits);
    } else {
      BitsOfPack(bits[8..]);
      BitsOfWhole(bits);
    }
  }

  /** A last partial byte unpacks to its bits and the padding zeros. */
  lemma BitsOfPartial(bits: seq<bool>)
    requires 0 < |bits| < 8
    ensures Bits(Pack(bits)) == bits + Zeros(Pad(|bits|))
  {
    var padded := bits + Zeros(8 - |bits|);
    ValueByte(padded);
    var v: Byte := Value(padded);
    calc {
      Bits(Pack(bits));
      { PackShort(bits); }
      Bits([v]);
      { BitsCons(v, []); ByteBitsValue(padded); assert padded + [] == padded; }
      padded;
      { PadShort(|bits|); }
      bits + Zeros(Pad(|bits|));
    }
  }

  /** A whole first byte unpacks to its eight bits, ahead of the rest. */
  lemma BitsOfWhole(bits: seq<bool>)
    requires |bits| >= 8
    requires Bits(Pack(bits[8..])) == bits[8..] + Zeros(Pad(|bits| - 8))
    ensures Bits(Pack(bits)) == bits + Zeros(Pad(|bits|))
  {
    PackLong(bits);
    BitsOfByte(bits[..8], Pack(bits[8..]));
    PadSkip(|bits|);
    SplitJoin(bits, 8, Zeros(Pad(|bits|)));
  }

  /** A byte built from eight bits unpacks to them. */
  lemma BitsOfByte(eight: seq<bool>, rest: seq<Byte>)
    requires |eight| == 8
    ensures Value(eight) < 256 && Bits([Value(eight)] + rest) == eight + Bits(rest)
  {
    ValueByte(eight);
    BitsCons(Value(eight), rest);
    ByteBitsValue(eight);
  }

  lemma SplitJoin<T>(s: seq<T>, k: nat, t: seq<T>)
    requires k <= |s|
    ensures s[..k] + (s[k..] + t) == s + t
  {
    assert s == s[..k] + s[k..];
  }

  /** The bits of a byte stream: the first byte's, then the rest's. */
  lemma BitsCons(b: Byte, rest: seq<Byte>)
    ensures Bits([b] + rest) == ByteBits(b) + Bits(rest)
  {
    assert ([b] + rest)[0] == b && ([b] + rest)[1..] == rest;
  }

  lemma PackLong(bits: seq<bool>)
    requires |bits| >= 8
    ensures Value(bits[..8]) < 256
    ensures Pack(bits) == [Value(bits[..8])] + Pack(bits[8..])
  {
    ValueByte(bits[..8]);
  }

  /** Packing whole bytes first and the rest after is packing the lot. */
  lemma {:induction false} PackAppend(a: seq<bool>, b: seq<bool>)
    requires |a| % 8 == 0
    ensures Pack(a + b) == Pack(a) + Pack(b)
    decreases |a|
  {
    if a == [] {
      assert a + b == b;
    } else {
      assert |a| >= 8;
      assert (a + b)[..8] == a[..8];
      assert (a + b)[8..] == a[8..] + b;
      PackAppend(a[8..], b);
    }
  }

  // ---------------------------------------------------------------------------------------
  // compress

  /** `codes[ch]` (ex4/hufftree.cpp:83): `Map::operator[]` yields `""` for a byte with no
      code. */
  function CodeOf(codes: map<Byte, seq<bool>>, b: Byte): seq<bool>
  {
    if b in codes then codes[b] else []
  }

  /** The codes of the input's bytes, one after the other. */
  function Encode(codes: map<Byte, seq<bool>>, input: seq<Byte>): seq<bool>
  {
    if input == [] then [] else Encode(codes, input[..|input| - 1]) + CodeOf(codes, input[|input| - 1])
  }

  /** The state of `compress` between bits: the bytes written so far pack the bits `sent`
      (whole bytes), and `buf` holds the `count` bits `pending` after them. */
  ghost predicate Packing(out: seq<Byte>, buf: Byte, count: nat, sent: seq<bool>, pending: seq<bool>)
  {
    |sent| % 8 == 0 && out == Pack(sent) && |pending| == count < 8 && buf == Value(pending)
  }

  /** One code bit (ex4/hufftree.cpp:85-91): `buf = (buf << 1) | bit` in an `unsigned char`,
      and the byte goes out once it holds eight bits. */
  method ShiftIn(out: seq<Byte>, buf: Byte, count: nat, bit: bool,
                 ghost sent: seq<bool>, ghost pending: seq<bool>)
    returns (out': seq<Byte>, buf': Byte, count': nat, ghost sent': seq<bool>, ghost pending': seq<bool>)
    requires Packing(out, buf, count, sent, pending)
    ensures Packing(out', buf', count', sent', pending')
    ensures sent' + pending' == sent + pending + [bit]
  {
    ValueBound(pending + [bit]);
    Pow2Bound(count + 1);
    assert (pending + [bit])[..count] == pending;
    buf' := (buf * 2 + (if bit then 1 else 0)) % 256;
    count' := count + 1;
    pending' := pending + [bit];
    sent' := sent;
    out' := out;
    if count' == 8 {
      out' := out + [buf'];
      PackAppend(sent, pending');
      assert Pack(pending') == [Value(pending')] by {
        assert pending'[..8] == pending' && pending'[8..] == [];
      }
      sent' := sent + pending';
      pending' := [];
      buf' := 0;
      count' := 0;
    }
  }

  /** The last partial byte (ex4/hufftree.cpp:94-97): `buf <<= 8 - count`, then written. */
  method Flush(out: seq<Byte>, buf: Byte, count: nat, ghost sent: seq<bool>, ghost pending: seq<bool>)
    returns (out': seq<Byte>)
    requires Packing(out, buf, count, sent, pending)
    ensures out' == Pack(sent + pending)
  {
    PackAppend(sent, pending);
    out' := out;
    if count > 0 {
      PackPartial(pending);
      out' := out + [Shl(buf, 8 - count) % 256];
    } else {
      assert sent + pending == sent;
    }
  }

  /** A last partial byte packs to its value shifted up to the top bits. */
  lemma PackPartial(pending: seq<bool>)
    requires 0 < |pending| < 8
    ensures Pack(pending) == [Shl(Value(pending), 8 - |pending|) % 256]
  {
    PackShort(pending);
    ValueZeros(pending, 8 - |pending|);
    ShlByte(pending);
    Below256(Shl(Value(pending), 8 - |pending|));
  }

  /** A partial byte shifted up to the top bits still fits in a byte. */
  lemma ShlByte(bits: seq<bool>)
    requires |bits| <= 8
    ensures Shl(Value(bits), 8 - |bits|) < 256
  {
    var padded := bits + Zeros(8 - |bits|);
    ValueZeros(bits, 8 - |bits|);
    ValueByte(padded);
    assert Shl(Value(bits), 8 - |bits|) == Value(padded);
  }

  lemma PackShort(bits: seq<bool>)
    requires 0 < |bits| < 8
    ensures Pack(bits) == [Value(bits + Zeros(8 - |bits|))]
  {
  }

  lemma Below256(v: nat)
    requires v < 256
    ensures v % 256 == v
  {
  }

  /** The inner loop of `compress` (ex4/hufftree.cpp:84-92): every bit of one code. */
  method ShiftCode(out: seq<Byte>, buf: Byte, count: nat, cd: seq<bool>,
                   ghost sent: seq<bool>, ghost pending: seq<bool>)
    returns (out': seq<Byte>, buf': Byte, count': nat, ghost sent': seq<bool>, ghost pending': seq<bool>)
    requires Packing(out, buf, count, sent, pending)
    ensures Packing(out', buf', count', sent', pending')
    ensures sent' + pending' == sent + pending + cd
  {
    out', buf', count', sent', pending' := out, buf, count, sent, pending;
    var j := 0;
    while j < |cd|
      invariant 0 <= j <= |cd|
      invariant Packing(out', buf', count', sent', pending')
      invariant sent' + pending' == sent + pending + cd[..j]
    {
      out', buf', count', sent', pending' := ShiftIn(out', buf', count', cd[j], sent', pending');
      assert cd[..j + 1] == cd[..j] + [cd[j]];
      j := j + 1;
    }
    assert cd[..j] == cd;
  }

  /** The loops of `compress` (ex4/hufftree.cpp:79-97): shift each code bit into `buf`, write
      it when eight have gathered, and shift a last partial byte up before writing it. The
      output is the packed concatenation of the codes. */
  method CompressBytes(codes: map<Byte, seq<bool>>, input: seq<Byte>) returns (out: seq<Byte>)
    ensures out == Pack(Encode(codes, input))
  {
    out := [];
    var buf: Byte := 0;
    var count := 0;
    ghost var sent: seq<bool> := [];
    ghost var pending: seq<bool> := [];
    var k := 0;
    while k < |input|
      invariant 0 <= k <= |input|
      invariant Packing(out, buf, count, sent, pending)
      invariant sent + pending == Encode(codes, input[..k])
    {
      out, buf, count, sent, pending := ShiftCode(out, buf, count, CodeOf(codes, input[k]), sent, pending);
      assert input[..k + 1][..k] == input[..k];
      k := k + 1;
    }
    assert input[..k] == input;
    out := Flush(out, buf, count, sent, pending);
  }

  // ---------------------------------------------------------------------------------------
  // decompress

  /** What `decompress`'s inner loop does with a stream of bits (ex4/hufftree.cpp:108-116):
      from `node`, step right on 1 and left on 0; on reaching a leaf emit its byte and go
      back to `root`. */
  function Walk(root: Tree, node: Tree, bits: seq<bool>): seq<Byte>
    requires root.Branch? && node.Branch?
    decreases |bits|
  {
    if bits == [] then []
    else
      var next := if bits[0] then node.right else node.left;
      if next.Leaf? then [next.data] + Walk(root, root, bits[1..])
      else Walk(root, next, bits[1..])
  }

  /** A path to a leaf emits exactly that leaf's byte and brings the walk back to the root. */
  lemma {:induction false} WalkPath(root: Tree, node: Tree, path: seq<bool>, b: Byte, rest: seq<bool>)
    requires root.Branch? && node.Branch? && Reaches(node, path, b)
    ensures Walk(root, node, path + rest) == [b] + Walk(root, root, rest)
    decreases |path|
  {
    var s := path + rest;
    assert s[0] == path[0] && s[1..] == path[1..] + rest;
    var next := if path[0] then node.right else node.left;
    if next.Branch? {
      WalkPath(root, next, path[1..], b, rest);
    }
  }

  /** The code of a byte leads from the root to its leaf. */
  lemma CodeReaches(root: Tree, b: Byte)
    requires b in Symbols(root)
    ensures b in Codes(root, []) && Reaches(root, Codes(root, [])[b], b)
  {
    CodesReach(root, [], b);
    assert Codes(root, [])[b][0..] == Codes(root, [])[b];
  }

  /** Every byte of `input` has a code in `codes`, and that code leads from the root to a
      leaf holding the byte. */
  ghost predicate Decodable(root: Tree, codes: map<Byte, seq<bool>>, input: seq<Byte>)
  {
    forall b :: b in input ==> b in codes && Reaches(root, codes[b], b)
  }

  /** Walking the codes of an input from the root emits the input and ends at the root. */
  lemma {:induction false} WalkEncode(root: Tree, codes: map<Byte, seq<bool>>, input: seq<Byte>, rest: seq<bool>)
    requires root.Branch? && Decodable(root, codes, input)
    ensures Walk(root, root, Encode(codes, input) + rest) == input + Walk(root, root, rest)
    decreases |input|
  {
    if input == [] {
      assert Encode(codes, input) + rest == rest;
    } else {
      var init, last := input[..|input| - 1], input[|input| - 1];
      var code := codes[last];
      assert last in input;
      assert Decodable(root, codes, init) by {
        assert forall b :: b in init ==> b in input;
      }
      calc {
        Walk(root, root, Encode(codes, input) + rest);
        { assert Encode(codes, input) + rest == Encode(codes, init) + (code + rest); }
        Walk(root, root, Encode(codes, init) + (code + rest));
        { WalkEncode(root, codes, init, code + rest); }
        init + Walk(root, root, code + rest);
        { WalkPath(root, root, code, last, rest); }
        init + ([last] + Walk(root, root, rest));
        { assert input == init + [last]; }
        input + Walk(root, root, rest);
      }
    }
  }

  /** The codes `generate_codes` gives a tree decode every input made of the tree's bytes. */
  lemma CodesDecodable(root: Tree, input: seq<Byte>)
    requires forall b :: b in input ==> b in Symbols(root)
    ensures Decodable(root, Codes(root, []), input)
  {
    forall b | b in input
      ensures b in Codes(root, []) && Reaches(root, Codes(root, [])[b], b)
    {
      CodeReaches(root, b);
    }
  }

  /** The loops of `decompress` (ex4/hufftree.cpp:105-117): every bit of every byte, bit 7
      first, drives the walk. */
  method DecompressBytes(root: Tree, bytes: seq<Byte>) returns (out: seq<Byte>)
    requires root.Branch?
    ensures out == Walk(root, root, Bits(bytes))
  {
    out := [];
    var node := root;
    var k := 0;
    while k < |bytes|
      invariant 0 <= k <= |bytes| && node.Branch?
      invariant out + Walk(root, node, Bits(bytes[k..])) == Walk(root, root, Bits(bytes))
    {
      var buf := bytes[k];
      assert bytes[k..][0] == buf && bytes[k..][1..] == bytes[k + 1..];
      assert Bits(bytes[k..]) == ByteBits(buf)[7 - 7..] + Bits(bytes[k + 1..]);
      var i := 7;
      while i >= 0
        invariant -1 <= i <= 7 && node.Branch?
        invariant out + Walk(root, node, ByteBits(buf)[7 - i..] + Bits(bytes[k + 1..]))
                  == Walk(root, root, Bits(bytes))
      {
        var bit := Bit(buf, i);
        var s := ByteBits(buf)[7 - i..] + Bits(bytes[k + 1..]);
        assert s[0] == bit && s[1..] == ByteBits(buf)[7 - (i - 1)..] + Bits(bytes[k + 1..]);
        node := if bit then node.right else node.left;
        if node.Leaf? {
          out := out + [node.data];
          node := root;
        }
        i := i - 1;
      }
      assert ByteBits(buf)[7 - i..] + Bits(bytes[k + 1..]) == Bits(bytes[k + 1..]);
      k := k + 1;
    }
  }

  /** Decoding only the first `total` bits: what `decompress` would need to stop before the
      padding. */
  method DecompressPrefix(root: Tree, bytes: seq<Byte>, total: nat) returns (out: seq<Byte>)
    requires root.Branch? && total <= 8 * |bytes|
    ensures out == Walk(root, root, Bits(bytes)[..total])
  {
    var all := Bits(bytes);
    out := [];
    var node := root;
    var pos := 0;
    while pos < total
      invariant 0 <= pos <= total && node.Branch?
      invariant out + Walk(root, node, all[pos..total]) == Walk(root, root, all[..total])
    {
      var k, i := pos / 8, 7 - pos % 8;
      var bit := Bit(bytes[k], i);
      assert all[pos] == bit by {
        BitsIndex(bytes, k, 7 - i);
      }
      assert all[pos..total][1..] == all[pos + 1..total];
      node := if bit then node.right else node.left;
      if node.Leaf? {
        out := out + [node.data];
        node := root;
      }
      pos := pos + 1;
    }
  }

  /** Bit `j` of byte `k` sits at position `8 * k + j` of the stream. */
  lemma {:induction false} BitsIndex(bytes: seq<Byte>, k: nat, j: nat)
    requires k < |bytes| && j < 8
    ensures Bits(bytes)[8 * k + j] == ByteBits(bytes[k])[j]
    decreases k
  {
    if k > 0 {
      BitsIndex(bytes[1..], k - 1, j);
    }
  }

  // ---------------------------------------------------------------------------------------
  // Round trip

  /** Decoding the first (total code length) bits of the packed codes gives the input back,
      whenever the tree has at least two leaves and every input byte has a leaf. */
  lemma RoundTrip(root: Tree, input: seq<Byte>)
    requires root.Branch? && forall b :: b in input ==> b in Symbols(root)
    ensures var bits := Encode(Codes(root, []), input);
            |bits| <= 8 * |Pack(bits)| && Walk(root, root, Bits(Pack(bits))[..|bits|]) == input
  {
    var bits := Encode(Codes(root, []), input);
    BitsOfPack(bits);
    assert Bits(Pack(bits))[..|bits|] == bits;
    CodesDecodable(root, input);
    WalkEncode(root, Codes(root, []), input, []);
    assert bits + [] == bits;
  }

  /** `decompress` as written decodes the padding bits too: the walk over the whole packed
      stream is the input followed by whatever the zero padding spells from the root. */
  lemma DecompressAsWritten(root: Tree, input: seq<Byte>)
    requires root.Branch? && forall b :: b in input ==> b in Symbols(root)
    ensures var bits := Encode(Codes(root, []), input);
            Walk(root, root, Bits(Pack(bits))) == input + Walk(root, root, Zeros(Pad(|bits|)))
  {
    var bits := Encode(Codes(root, []), input);
    BitsOfPack(bits);
    CodesDecodable(root, input);
    WalkEncode(root, Codes(root, []), input, Zeros(Pad(|bits|)));
  }

  /** The tree `build_tree` builds for the input "aab": 'b' (once) is lighter than 'a'
      (twice), so 'b' becomes the left child. `BuildsAabTree` derives it from `Build`. */
  function AabTree(): Tree
  {
    Branch(3, Leaf(98, 1), Leaf(97, 2))
  }

  /** For "aab" the codes are 1, 1, 0 and five zero bits pad the byte; decompressing that
      byte yields "aabbbbbb" instead of "aab". */
  lemma DecompressPaddingCounterexample()
    ensures Walk(AabTree(), AabTree(), Bits(Pack(Encode(Codes(AabTree(), []), [97, 97, 98]))))
            == [97, 97, 98, 98, 98, 98, 98, 98]
  {
    var bits := [true, true, false];
    AabEncode();
    BitsOfPack(bits);
    assert bits + Zeros(Pad(3)) == [true, true, false, false, false, false, false, false];
    AabWalk();
  }

  /** "aab" encodes to 1, 1, 0: 'a' is the right leaf and 'b' the left. */
  lemma AabEncode()
    ensures Encode(Codes(AabTree(), []), [97, 97, 98]) == [true, true, false]
  {
    var input: seq<Byte> := [97, 97, 98];
    var codes := Codes(AabTree(), []);
    assert codes == map[98 := [false], 97 := [true]] by {
      assert [] + [false] == [false] && [] + [true] == [true];
    }
    assert input[..2] == [97, 97] && input[..2][..1] == [97] && input[..2][..1][..0] == [];
    assert Encode(codes, [97]) == [true];
  }

  /** The walk over 1, 1, 0 and five padding zeros. */
  lemma AabWalk()
    ensures Walk(AabTree(), AabTree(), [true, true, false, false, false, false, false, false])
            == [97, 97, 98, 98, 98, 98, 98, 98]
  {
    var t := AabTree();
    var stream := [true, true, false, false, false, false, false, false];
    assert Walk(t, t, stream[7..]) == [98];
    assert Walk(t, t, stream[6..]) == [98, 98];
    assert Walk(t, t, stream[5..]) == [98, 98, 98];
    assert Walk(t, t, stream[4..]) == [98, 98, 98, 98];
    assert Walk(t, t, stream[3..]) == [98, 98, 98, 98, 98];
    assert Walk(t, t, stream[2..]) == [98, 98, 98, 98, 98, 98];
    assert Walk(t, t, stream[1..]) == [97, 98, 98, 98, 98, 98, 98];
  }

  /** The tree `build_tree` (ex4/hufftree.cpp:43-62) makes: count the bytes, then merge.
      Each input byte sits at one leaf with its number of occurrences; an empty input makes
      `heap.top()` throw. */
  method Build(input: seq<Byte>) returns (r: Result<Tree>)
    ensures input == [] <==> r.Err?
    ensures r.Err? ==> r.error == OutOfRange("Heap is empty")
    ensures r.Ok? ==> Consistent(r.value)
    ensures r.Ok? ==> forall b :: b in Symbols(r.value) <==> b in input
    ensures r.Ok? ==> forall p :: p in Leaves(r.value) ==> p.second == multiset(input)[p.first]
    ensures var d := Distinct(input);
            |d| == 2 && multiset(input)[d[0]] != multiset(input)[d[1]] ==>
              r == Ok(TwoLeaves(Tally(input, d[0]), Tally(input, d[1])))
  {
    var freq := CountFreq(input);
    r := MergeAll(freq);
    if |freq| == 2 {
      FreqAt(freq, input, 0);
      FreqAt(freq, input, 1);
    }
    if r.Err? {
      assert Keys(freq) == [];
      return;
    }
    LeavesCount(r.value, freq, input);
  }

  /** A byte and its number of occurrences in the input. */
  function Tally(input: seq<Byte>, b: Byte): Pair<Byte, nat>
  {
    Pair(b, multiset(input)[b])
  }

  /** The i-th pair `count_freq` produces is the i-th distinct byte with its count. */
  lemma FreqAt(freq: seq<Pair<Byte, nat>>, input: seq<Byte>, i: nat)
    requires UniqueKeys(freq) && Keys(freq) == Distinct(input)
    requires forall b :: b in input ==> Lookup(freq, b) == Ok(multiset(input)[b])
    requires i < |freq|
    ensures freq[i] == Tally(input, Distinct(input)[i])
  {
    var b := freq[i].first;
    assert Keys(freq)[i] == b;
    assert b in input;
    FindUnique(freq, i);
  }

  /** The input "aab" has the distinct bytes 'a' then 'b', counted twice and once. */
  lemma AabTally()
    ensures Distinct([97, 97, 98]) == [97, 98]
    ensures multiset([97, 97, 98])[97] == 2 && multiset([97, 97, 98])[98] == 1
  {
    var input: seq<Byte> := [97, 97, 98];
    assert input[..2] == [97, 97] && input[..2][..1] == [97] && input[..2][..1][..0] == [];
  }

  /** `build_tree` on "aab" builds `AabTree()`. */
  method BuildsAabTree() returns (r: Result<Tree>)
    ensures r == Ok(AabTree())
  {
    AabTally();
    r := Build([97, 97, 98]);
  }

  // ---------------------------------------------------------------------------------------
  // The HuffmanTree object

  /** `HuffmanTree` (ex4/hufftree.cpp:9-150): the tree's root, null until built, and the
      byte-to-code map. */
  class HuffmanTree {
    var root: Option<Tree>
    var codes: map<Byte, seq<bool>>

    /** `HuffmanTree()` (ex4/hufftree.cpp:37). */
    constructor ()
      ensures root == None && codes == map[]
    {
      root := None;
      codes := map[];
    }

    /** `build_tree` (ex4/hufftree.cpp:43-65) over the input's bytes: count, merge, and
        record each leaf's root path in `codes`. An empty input makes `heap.top()` throw
        before anything is assigned. */
    method BuildTree(input: seq<Byte>) returns (o: Outcome)
      modifies this
      ensures input == [] ==> o == Fail(OutOfRange("Heap is empty"))
                              && root == old(root) && codes == old(codes)
      ensures input != [] ==> o == Pass && root.Some? && Consistent(root.value)
                              && codes == old(codes) + Codes(root.value, [])
      ensures input != [] ==> forall b :: b in Symbols(root.value) <==> b in input
      ensures input != [] ==> forall p :: p in Leaves(root.value) ==> p.second == multiset(input)[p.first]
    {
      var r := Build(input);
      if r.Err? {
        return Fail(r.error);
      }
      root := Some(r.value);
      codes := codes + Codes(r.value, []);
      o := Pass;
    }

    /** `compress` (ex4/hufftree.cpp:75-100) over the input's bytes. `codes[ch]` inserts an
        empty code for a byte it has not seen. */
    method Compress(input: seq<Byte>) returns (out: seq<Byte>)
      modifies this
      ensures out == Pack(Encode(old(codes), input))
      ensures codes == old(codes) + map b | b in input && b !in old(codes) :: []
      ensures root == old(root)
    {
      out := CompressBytes(codes, input);
      codes := codes + map b | b in input && b !in codes :: [];
    }

    /** `decompress` (ex4/hufftree.cpp:102-120) over the packed bytes. A null root or a
        root that is a leaf would be dereferenced past; neither is modelled. */
    method Decompress(bytes: seq<Byte>) returns (out: seq<Byte>)
      requires root.Some? && root.value.Branch?
      ensures out == Walk(root.value, root.value, Bits(bytes))
    {
      out := DecompressBytes(root.value, bytes);
    }
  }
}
