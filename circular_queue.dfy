/** `CircularQueue<T>`: a ring buffer that keeps one slot free to tell full from empty. */
module CircularQueues {
  import opened Errors
  import opened Basics
  import ArrayLists

  /** The elements of a ring of `n` slots from `front` up to, not including, `back`. */
  function Ring<T>(a: seq<T>, front: nat, back: nat): seq<T>
    requires front < |a| && back < |a|
  {
    if front <= back then a[front..back] else a[front..] + a[..back]
  }

  /** The slot `k` places after `front` in a ring of `n` slots. */
  function Slot(front: nat, k: nat, n: nat): nat
    requires n > 0
  {
    (front + k) % n
  }

  /** Within one turn of the ring, the slot is `front + k`, wrapped once past the end. */
  lemma SlotIs(front: nat, k: nat, n: nat)
    requires front < n && k < n
    ensures Slot(front, k, n) == if front + k < n then front + k else front + k - n
  {
    if front + k < n {
      ModSmall(front + k, n);
    } else {
      ModWrap(front + k, n);
    }
  }

  /** The ring's length is `(back - front + n) % n`, which is what `size()` computes. */
  lemma RingLength<T>(a: seq<T>, front: nat, back: nat)
    requires front < |a| && back < |a|
    ensures |Ring(a, front, back)| == (back - front + |a|) % |a| < |a|
  {
    if front <= back {
      ModWrap(back - front + |a|, |a|);
    } else {
      ModSmall(back - front + |a|, |a|);
    }
  }

  /** Slot `Slot(front, k, n)` holds the `k`-th element of the ring. */
  lemma RingAt<T>(a: seq<T>, front: nat, back: nat, k: nat)
    requires front < |a| && back < |a| && k < |Ring(a, front, back)|
    ensures Ring(a, front, back)[k] == a[Slot(front, k, |a|)]
  {
    RingLength(a, front, back);
    SlotIs(front, k, |a|);
  }

  /** The ring holds `m` elements exactly when `back` is `m` slots after `front`. */
  lemma RingLengthIs<T>(a: seq<T>, front: nat, back: nat, m: nat)
    requires front < |a| && back < |a| && m < |a|
    ensures |Ring(a, front, back)| == m <==> back == Slot(front, m, |a|)
  {
    SlotIs(front, m, |a|);
  }

  /** `full()`'s test `(back + 1) % n == front` holds exactly when `n - 1` slots are in use. */
  lemma FullIs<T>(a: seq<T>, front: nat, back: nat)
    requires front < |a| && back < |a|
    ensures (back + 1) % |a| == front <==> |Ring(a, front, back)| == |a| - 1
  {
    if back + 1 < |a| {
      ModSmall(back + 1, |a|);
    } else {
      ModWrap(back + 1, |a|);
    }
  }

  /** Advancing a cursor by one with `(i + 1) % n` moves it to the next slot; stepping back
      with `(i - 1 + n) % n` returns. */
  lemma Step(front: nat, k: nat, n: nat)
    requires front < n && k + 1 < n
    ensures (Slot(front, k, n) + 1) % n == Slot(front, k + 1, n)
    ensures (Slot(front, k + 1, n) - 1 + n) % n == Slot(front, k, n)
  {
    SlotIs(front, k, n);
    SlotIs(front, k + 1, n);
    var i := Slot(front, k, n);
    if i + 1 < n {
      ModSmall(i + 1, n);
    } else {
      ModWrap(i + 1, n);
    }
    var i' := Slot(front, k + 1, n);
    if i' >= 1 {
      ModWrap(i' - 1 + n, n);
    } else {
      ModSmall(i' - 1 + n, n);
    }
  }

  /** Writing `v` at `back` and advancing `back` appends `v`, as long as a free slot is left. */
  lemma RingPush<T>(a: seq<T>, front: nat, back: nat, v: T)
    requires front < |a| && back < |a| && |Ring(a, front, back)| < |a| - 1
    ensures Ring(a[back := v], front, (back + 1) % |a|) == Ring(a, front, back) + [v]
  {
    var a' := a[back := v];
    if back + 1 < |a| {
      ModSmall(back + 1, |a|);
      if front <= back {
        assert a'[front..back + 1] == a[front..back] + [v];
      } else {
        assert a'[front..] == a[front..];
        assert a'[..back + 1] == a[..back] + [v];
      }
    } else {
      ModWrap(back + 1, |a|);
      assert 0 < front <= back;
      assert a'[front..] == a[front..back] + [v];
    }
  }

  /** Advancing `front` drops the oldest element of a non-empty ring. */
  lemma RingPop<T>(a: seq<T>, front: nat, back: nat)
    requires front < |a| && back < |a| && front != back
    ensures Ring(a, (front + 1) % |a|, back) == Ring(a, front, back)[1..]
  {
    if front + 1 < |a| {
      ModSmall(front + 1, |a|);
      if front > back {
        assert (a[front..] + a[..back])[1..] == a[front + 1..] + a[..back];
      }
    } else {
      ModWrap(front + 1, |a|);
      assert (a[front..] + a[..back])[1..] == a[..back];
    }
  }

  /** Fewer than `n` consecutive slots are pairwise distinct. */
  lemma SlotDistinct(front: nat, k: nat, j: nat, n: nat)
    requires front < n && k < j < n
    ensures Slot(front, k, n) != Slot(front, j, n)
  {
    SlotIs(front, k, n);
    SlotIs(front, j, n);
  }

  class CircularQueue<T(0)> {
    /** The buffer (`elements`), its length (`_capacity`, one more than the usable capacity)
        and the two cursors (`_front`, `_back`). */
    var elements: array<T>
    var capacity: nat
    var front: nat
    var back: nat

    ghost predicate Valid()
      reads this
    {
      capacity == elements.Length && front < capacity && back < capacity
    }

    /** The queue from oldest to newest. */
    function Contents(): seq<T>
      reads this, elements
      requires Valid()
    {
      Ring(elements[..], front, back)
    }

    /** `CircularQueue(capacity)` (MyDS/circularqueue.h:13-17): `capacity + 1` slots. */
    constructor (capacity: nat)
      ensures Valid() && fresh(elements) && Contents() == [] && this.capacity == capacity + 1
    {
      elements := new T[capacity + 1];
      this.capacity := capacity + 1;
      front, back := 0, 0;
    }

    /** `CircularQueue()` (MyDS/circularqueue.h:11): 16 usable slots. */
    constructor Default()
      ensures Valid() && fresh(elements) && Contents() == [] && capacity == ArrayLists.InitialCapacity + 1
    {
      elements := new T[ArrayLists.InitialCapacity + 1];
      capacity := ArrayLists.InitialCapacity + 1;
      front, back := 0, 0;
    }

    /** The copy constructor (MyDS/circularqueue.h:19-27): the live slots are copied to the
        same positions of a buffer of the same size. */
    constructor Copy(other: CircularQueue<T>)
      requires other.Valid()
      ensures Valid() && fresh(elements) && capacity == other.capacity
      ensures front == other.front && back == other.back && Contents() == other.Contents()
    {
      var buffer := CopySlots(other.elements, other.front, other.back);
      elements := buffer;
      capacity := other.capacity;
      front, back := other.front, other.back;
    }

    /** The copying loop of the copy constructor (MyDS/circularqueue.h:24-26): each live
        slot of `src` to the same slot of a fresh buffer of the same size. */
    static method CopySlots(src: array<T>, front: nat, back: nat) returns (buffer: array<T>)
      requires front < src.Length && back < src.Length
      ensures fresh(buffer) && buffer.Length == src.Length
      ensures Ring(buffer[..], front, back) == Ring(src[..], front, back)
    {
      var n := src.Length;
      buffer := new T[n];
      ghost var live := Ring(src[..], front, back);
      RingLength(src[..], front, back);
      SlotIs(front, 0, src.Length);
      var i, j := front, 0;
      while i != back
        invariant j <= |live| && i == Slot(front, j, n)
        invariant forall k :: 0 <= k < j ==> buffer[Slot(front, k, n)] == live[k]
        decreases |live| - j
      {
        RingLengthIs(src[..], front, back, j);
        RingAt(src[..], front, back, j);
        forall k | 0 <= k < j {
          SlotDistinct(front, k, j, n);
        }
        buffer[i] := src[i];
        Step(front, j, n);
        i, j := (i + 1) % n, j + 1;
      }
      RingLengthIs(src[..], front, back, j);
      RingLength(buffer[..], front, back);
      forall k | 0 <= k < |live|
        ensures Ring(buffer[..], front, back)[k] == live[k]
      {
        RingAt(buffer[..], front, back, k);
      }
    }

    /** `empty()` (MyDS/circularqueue.h:59-61). */
    function Empty(): (e: bool)
      reads this, elements
      requires Valid()
      ensures e <==> Contents() == []
    {
      front == back
    }

    /** `full()` (MyDS/circularqueue.h:63-65): one free slot is left. */
    function Full(): (f: bool)
      reads this, elements
      requires Valid()
      ensures f <==> |Contents()| == capacity - 1
    {
      FullIs(elements[..], front, back);
      (back + 1) % capacity == front
    }

    /** `size()` (MyDS/circularqueue.h:67-69). */
    function Size(): (n: nat)
      reads this, elements
      requires Valid()
      ensures n == |Contents()| && n < capacity
    {
      RingLength(elements[..], front, back);
      (back - front + capacity) % capacity
    }

    /** `clear()` (MyDS/circularqueue.h:71-73). */
    method Clear()
      requires Valid()
      modifies this
      ensures Valid() && Contents() == [] && elements == old(elements) && capacity == old(capacity)
    {
      front, back := 0, 0;
    }

    /**
     * `reserve(new_capacity)` (MyDS/circularqueue.h:109-122): a request for more usable slots
     * than there are moves the elements, oldest first, to the start of a fresh buffer of
     * `new_capacity + 1` slots; any other request changes nothing.
     */
    method Reserve(newCapacity: nat)
      requires Valid()
      modifies this
      ensures Valid() && Contents() == old(Contents())
      ensures newCapacity > old(capacity) - 1 ==> capacity == newCapacity + 1 && fresh(elements) && front == 0
      ensures newCapacity <= old(capacity) - 1 ==> capacity == old(capacity) && elements == old(elements)
    {
      if newCapacity > capacity - 1 {
        RingLength(elements[..], front, back);
        var buffer, count := Unroll(elements, front, back, newCapacity + 1);
        elements := buffer;
        front, back := 0, count;
        capacity := newCapacity + 1;
      }
    }

    /** The moving loop of `reserve` (MyDS/circularqueue.h:112-115): the live slots of
        `src`, oldest first, to the start of a fresh buffer of `size` slots. */
    static method Unroll(src: array<T>, front: nat, back: nat, size: nat) returns (buffer: array<T>, count: nat)
      requires front < src.Length && back < src.Length && |Ring(src[..], front, back)| < size
      ensures fresh(buffer) && buffer.Length == size
      ensures count == |Ring(src[..], front, back)| && buffer[..count] == Ring(src[..], front, back)
    {
      buffer := new T[size];
      ghost var live := Ring(src[..], front, back);
      RingLength(src[..], front, back);
      SlotIs(front, 0, src.Length);
      var i, j := front, 0;
      while i != back
        invariant j <= |live| && i == Slot(front, j, src.Length)
        invariant forall k :: 0 <= k < j ==> buffer[k] == live[k]
        modifies buffer
        decreases |live| - j
      {
        RingLengthIs(src[..], front, back, j);
        RingAt(src[..], front, back, j);
        buffer[j] := src[i];
        Step(front, j, src.Length);
        i, j := (i + 1) % src.Length, j + 1;
      }
      RingLengthIs(src[..], front, back, j);
      count := j;
      assert buffer[..count] == live;
    }

    /** `enqueue(value)` (MyDS/circularqueue.h:75-82): a full queue first grows from `u` to
        `2u + 1` usable slots; the value joins at the back. */
    method Enqueue(value: T)
      requires Valid()
      modifies this, elements
      ensures Valid() && Contents() == old(Contents()) + [value]
      ensures capacity == if old(Full()) then 2 * old(capacity) else old(capacity)
      ensures elements == old(elements) || fresh(elements)
    {
      if Full() {
        Reserve(2 * (capacity - 1) + 1);
      }
      RingPush(elements[..], front, back, value);
      elements[back] := value;
      back := (back + 1) % capacity;
    }

    /** `dequeue()` (MyDS/circularqueue.h:84-87): the oldest element leaves; an empty queue
        throws `runtime_error`. */
    method Dequeue() returns (o: Outcome)
      requires Valid()
      modifies this
      ensures Valid() && elements == old(elements) && capacity == old(capacity)
      ensures old(Contents()) == [] <==> o.Fail?
      ensures o.Fail? ==> o.error == RuntimeError("empty queue!") && Contents() == old(Contents())
      ensures o.Pass? ==> Contents() == old(Contents())[1..]
    {
      o := CheckEmpty();
      if o.Pass? {
        RingPop(elements[..], front, back);
        front := (front + 1) % capacity;
      }
    }

    /** `front()` (MyDS/circularqueue.h:89-97): the oldest element. */
    method Front() returns (r: Result<T>)
      requires Valid()
      ensures Contents() != [] ==> r == Ok(Contents()[0])
      ensures Contents() == [] ==> r == Err(RuntimeError("empty queue!"))
    {
      var guard := CheckEmpty();
      if guard.Fail? {
        return Err(guard.error);
      }
      RingAt(elements[..], front, back, 0);
      ModSmall(front, capacity);
      return Ok(elements[front]);
    }

    /** `back()` (MyDS/circularqueue.h:99-107): the newest element, one slot before `back`. */
    method Back() returns (r: Result<T>)
      requires Valid()
      ensures Contents() != [] ==> r == Ok(Contents()[|Contents()| - 1])
      ensures Contents() == [] ==> r == Err(RuntimeError("empty queue!"))
    {
      var guard := CheckEmpty();
      if guard.Fail? {
        return Err(guard.error);
      }
      var m := |Contents()|;
      RingLength(elements[..], front, back);
      RingLengthIs(elements[..], front, back, m);
      RingAt(elements[..], front, back, m - 1);
      Step(front, m - 1, capacity);
      return Ok(elements[(back - 1 + capacity) % capacity]);
    }

    /** `check_empty()` (MyDS/circularqueue.h:146-150). */
    method CheckEmpty() returns (o: Outcome)
      requires Valid()
      ensures o.Fail? <==> Contents() == []
      ensures o.Fail? ==> o.error == RuntimeError("empty queue!")
    {
      if front == back {
        return Fail(RuntimeError("empty queue!"));
      }
      return Pass;
    }
  }

}
