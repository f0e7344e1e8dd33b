/** `ArrayList<T>`: a dynamic array whose buffer doubles when it is full. */
module ArrayLists {
  import opened Errors
  import LinearList

  /** The capacity the default constructor asks for. */
  const InitialCapacity: nat := 16

  /** The capacity `insert` grows a full buffer to: twice the old one, and 1 for an empty
      buffer. */
  function Grown(capacity: nat): (r: nat)
    ensures r > capacity && (capacity == 0 ==> r == 1) && (capacity > 0 ==> r == 2 * capacity)
  {
    if capacity == 0 then 1 else 2 * capacity
  }

  class ArrayList<T(0)> {
    /** The buffer (`elements`), its length (`_capacity`) and the count (`_size`). */
    var elements: array<T>
    var capacity: nat
    var size: nat

    ghost predicate Valid()
      reads this
    {
      capacity == elements.Length && size <= capacity
    }

    /** The list's elements in order: the first `size` slots of the buffer. */
    function Contents(): seq<T>
      reads this, elements
      requires Valid()
    {
      elements[..size]
    }

    /** `ArrayList(capacity)` (MyDS/arraylist.h:15-18). */
    constructor (capacity: nat)
      ensures Valid() && fresh(elements) && Contents() == [] && this.capacity == capacity
    {
      elements := new T[capacity];
      this.capacity := capacity;
      size := 0;
    }

    /** `ArrayList()` (MyDS/arraylist.h:13): the initial capacity is 16. */
    constructor Default()
      ensures Valid() && fresh(elements) && Contents() == [] && capacity == InitialCapacity
    {
      elements := new T[InitialCapacity];
      capacity := InitialCapacity;
      size := 0;
    }

    /** The copy constructor (MyDS/arraylist.h:20-27): a buffer of the same capacity holding
        the same elements. */
    constructor Copy(other: ArrayList<T>)
      requires other.Valid()
      ensures Valid() && fresh(elements)
      ensures Contents() == other.Contents() && capacity == other.capacity
    {
      var buffer := new T[other.capacity];
      var i := 0;
      while i < other.size
        invariant 0 <= i <= other.size
        invariant buffer[..i] == other.elements[..i]
      {
        buffer[i] := other.elements[i];
        i := i + 1;
      }
      elements := buffer;
      capacity := other.capacity;
      size := other.size;
    }

    /** The move constructor (MyDS/arraylist.h:29-36): takes over the other list's buffer and
        leaves it empty with capacity 0. */
    constructor Move(other: ArrayList<T>)
      requires other.Valid()
      modifies other
      ensures Valid() && elements == old(other.elements)
      ensures Contents() == old(other.Contents()) && capacity == old(other.capacity)
      ensures other.Valid() && other.Contents() == [] && other.capacity == 0
    {
      elements := other.elements;
      capacity := other.capacity;
      size := other.size;
      other.elements := new T[0];
      other.capacity := 0;
      other.size := 0;
    }

    /** `empty()` (MyDS/arraylist.h:57-59). */
    function Empty(): (e: bool)
      reads this, elements
      requires Valid()
      ensures e <==> Contents() == []
    {
      size == 0
    }

    /** `clear()` (MyDS/arraylist.h:65-67): the count drops to zero; the buffer stays. */
    method Clear()
      requires Valid()
      modifies this
      ensures Valid() && Contents() == [] && elements == old(elements) && capacity == old(capacity)
    {
      size := 0;
    }

    /** `at(index)` (MyDS/arraylist.h:69-77): the element at `index`, or `out_of_range`. */
    method At(index: nat) returns (r: Result<T>)
      requires Valid()
      ensures index < |Contents()| ==> r == Ok(Contents()[index])
      ensures index >= |Contents()| ==> r == Err(OutOfRange("out of range"))
    {
      var guard := LinearList.CheckIndex(index, size, false);
      if guard.Fail? {
        return Err(guard.error);
      }
      return Ok(elements[index]);
    }

    /**
     * `reserve(new_capacity)` (MyDS/arraylist.h:138-148): a larger request moves the elements
     * into a fresh buffer of that capacity; a request that is not larger changes nothing.
     */
    method Reserve(newCapacity: nat)
      requires Valid()
      modifies this
      ensures Valid() && Contents() == old(Contents())
      ensures newCapacity > old(capacity) ==> capacity == newCapacity && fresh(elements)
      ensures newCapacity <= old(capacity) ==> capacity == old(capacity) && elements == old(elements)
    {
      if newCapacity > capacity {
        var buffer := new T[newCapacity];
        var i := 0;
        while i < size
          invariant 0 <= i <= size
          invariant buffer[..i] == elements[..i]
          modifies buffer
        {
          buffer[i] := elements[i];
          i := i + 1;
        }
        elements := buffer;
        capacity := newCapacity;
      }
    }

    /**
     * `insert(index, value)` (MyDS/arraylist.h:79-90): positions up to `size` are accepted;
     * a full buffer first grows to `Grown(capacity)`; the elements from `index` on shift one
     * slot right and `value` goes to `index`.
     */
    method Insert(index: nat, value: T) returns (o: Outcome)
      requires Valid()
      modifies this, elements
      ensures Valid()
      ensures o == LinearList.CheckIndex(index, old(size), true)
      ensures o.Pass? ==> Contents() == old(Contents())[..index] + [value] + old(Contents())[index..]
      ensures o.Pass? ==> capacity == if old(size) == old(capacity) then Grown(old(capacity)) else old(capacity)
      ensures o.Fail? ==> Contents() == old(Contents()) && capacity == old(capacity)
      ensures elements == old(elements) || fresh(elements)
    {
      o := LinearList.CheckIndex(index, size, true);
      if o.Fail? {
        return;
      }
      if size == capacity {
        Reserve(Grown(capacity));
      }
      OpenSlot(elements, index, size, value);
      size := size + 1;
    }

    /** `replace(index, value)` (MyDS/arraylist.h:92-95): only the element at `index`
        changes; a position past the end throws `out_of_range`. */
    method Replace(index: nat, value: T) returns (o: Outcome)
      requires Valid()
      modifies elements
      ensures Valid()
      ensures o == LinearList.CheckIndex(index, size, false)
      ensures o.Pass? ==> Contents() == old(Contents())[index := value]
      ensures o.Fail? ==> Contents() == old(Contents())
    {
      o := LinearList.CheckIndex(index, size, false);
      if o.Pass? {
        elements[index] := value;
      }
    }

    /** `erase(index)` (MyDS/arraylist.h:97-103): the elements after `index` shift one slot
        left and the count drops by one. */
    method Erase(index: nat) returns (o: Outcome)
      requires Valid()
      modifies this, elements
      ensures Valid() && elements == old(elements) && capacity == old(capacity)
      ensures o == LinearList.CheckIndex(index, old(size), false)
      ensures o.Pass? ==> Contents() == old(Contents())[..index] + old(Contents())[index + 1..]
      ensures o.Fail? ==> Contents() == old(Contents())
    {
      o := LinearList.CheckIndex(index, size, false);
      if o.Fail? {
        return;
      }
      CloseSlot(elements, index, size);
      size := size - 1;
    }

    /** `push_back(value)` (MyDS/arraylist.h:105-107): `insert` at the end. */
    method PushBack(value: T)
      requires Valid()
      modifies this, elements
      ensures Valid() && Contents() == old(Contents()) + [value]
      ensures capacity == if old(size) == old(capacity) then Grown(old(capacity)) else old(capacity)
      ensures elements == old(elements) || fresh(elements)
    {
      var o := Insert(size, value);
      assert old(Contents())[..old(size)] == old(Contents());
    }

    /** `pop_back()` (MyDS/arraylist.h:109-112): drops the last element; an empty list throws
        `runtime_error`. */
    method PopBack() returns (o: Outcome)
      requires Valid()
      modifies this
      ensures Valid() && elements == old(elements)
      ensures o == LinearList.CheckEmpty(old(size))
      ensures o.Pass? ==> Contents() == old(Contents())[..old(size) - 1]
      ensures o.Fail? ==> Contents() == old(Contents())
    {
      o := LinearList.CheckEmpty(size);
      if o.Pass? {
        size := size - 1;
      }
    }

    /** `front()` (MyDS/arraylist.h:114-122): the first element, or `runtime_error`. */
    method Front() returns (r: Result<T>)
      requires Valid()
      ensures Contents() != [] ==> r == Ok(Contents()[0])
      ensures Contents() == [] ==> r.Err? && r.error.RuntimeError?
    {
      var guard := LinearList.CheckEmpty(size);
      if guard.Fail? {
        return Err(guard.error);
      }
      return Ok(elements[0]);
    }

    /** `back()` (MyDS/arraylist.h:124-132): the last element, or `runtime_error`. */
    method Back() returns (r: Result<T>)
      requires Valid()
      ensures Contents() != [] ==> r == Ok(Contents()[|Contents()| - 1])
      ensures Contents() == [] ==> r.Err? && r.error.RuntimeError?
    {
      var guard := LinearList.CheckEmpty(size);
      if guard.Fail? {
        return Err(guard.error);
      }
      return Ok(elements[size - 1]);
    }
  }

  /** The shifting loop of `insert` (MyDS/arraylist.h:85-87): the slots `lo..hi-1` move one
      slot right, leaving slot `lo` as it was. */
  method ShiftRight<T>(a: array<T>, lo: nat, hi: nat)
    requires lo <= hi < a.Length
    modifies a
    ensures forall k :: 0 <= k <= lo ==> a[k] == old(a[k])
    ensures forall k :: lo < k <= hi ==> a[k] == old(a[k - 1])
    ensures forall k :: hi < k < a.Length ==> a[k] == old(a[k])
  {
    var i := hi;
    while i > lo
      invariant lo <= i <= hi
      invariant forall k :: 0 <= k <= i ==> a[k] == old(a[k])
      invariant forall k :: i < k <= hi ==> a[k] == old(a[k - 1])
      invariant forall k :: hi < k < a.Length ==> a[k] == old(a[k])
    {
      a[i] := a[i - 1];
      i := i - 1;
    }
  }

  /** The shifting loop of `erase` (MyDS/arraylist.h:99-101): the slots `lo+1..hi` move one
      slot left, leaving slot `hi` as it was. */
  method ShiftLeft<T>(a: array<T>, lo: nat, hi: nat)
    requires lo <= hi < a.Length
    modifies a
    ensures forall k :: 0 <= k < lo ==> a[k] == old(a[k])
    ensures forall k :: lo <= k < hi ==> a[k] == old(a[k + 1])
    ensures forall k :: hi <= k < a.Length ==> a[k] == old(a[k])
  {
    var i := lo;
    while i < hi
      invariant lo <= i <= hi
      invariant forall k :: 0 <= k < lo ==> a[k] == old(a[k])
      invariant forall k :: lo <= k < i ==> a[k] == old(a[k + 1])
      invariant forall k :: i <= k < a.Length ==> a[k] == old(a[k])
    {
      a[i] := a[i + 1];
      i := i + 1;
    }
  }

  /** The body of `insert` after the capacity check (MyDS/arraylist.h:85-88): the first `n`
      slots become themselves with `value` put at `index`. */
  method OpenSlot<T>(a: array<T>, index: nat, n: nat, value: T)
    requires index <= n < a.Length
    modifies a
    ensures a[..n + 1] == old(a[..n])[..index] + [value] + old(a[..n])[index..]
  {
    ghost var before := a[..n];
    ShiftRight(a, index, n);
    a[index] := value;
    forall k | 0 <= k < n + 1
      ensures a[..n + 1][k] == (before[..index] + [value] + before[index..])[k]
    {
    }
  }

  /** The body of `erase` after the index check (MyDS/arraylist.h:99-101): the first `n`
      slots lose the one at `index`. */
  method CloseSlot<T>(a: array<T>, index: nat, n: nat)
    requires index < n <= a.Length
    modifies a
    ensures a[..n - 1] == old(a[..n])[..index] + old(a[..n])[index + 1..]
  {
    ghost var before := a[..n];
    var m := n - 1;
    ShiftLeft(a, index, m);
    forall k | 0 <= k < m
      ensures a[..m][k] == (before[..index] + before[index + 1..])[k]
    {
    }
  }

  /** `testBasicOperations` (MyDS/test.cpp:15-42): the values its asserts inspect, in order. */
  method BasicOperationsScenario()
    returns (emptyAtFirst: bool, filled: seq<int>, front: Result<int>, back: Result<int>,
             at: seq<Result<int>>, popped: seq<int>, backAfterPop: Result<int>)
    ensures emptyAtFirst && filled == [10, 20, 30]
    ensures front == Ok(10) && back == Ok(30) && at == [Ok(10), Ok(20), Ok(30)]
    ensures popped == [10, 20] && backAfterPop == Ok(20)
  {
    var list := new ArrayList<int>.Default();
    emptyAtFirst := list.Empty();
    list.PushBack(10);
    list.PushBack(20);
    list.PushBack(30);
    filled := list.Contents();
    front := list.Front();
    back := list.Back();
    var a0 := list.At(0);
    var a1 := list.At(1);
    var a2 := list.At(2);
    at := [a0, a1, a2];
    var _ := list.PopBack();
    popped := list.Contents();
    backAfterPop := list.Back();
  }

  /** `testInsertAndErase` (MyDS/test.cpp:44-62). */
  method InsertEraseScenario() returns (inserted: seq<int>, at1: Result<int>, erased: seq<int>, at1After: Result<int>)
    ensures inserted == [1, 10, 2, 3] && at1 == Ok(10)
    ensures erased == [1, 2, 3] && at1After == Ok(2)
  {
    var list := new ArrayList<int>.Default();
    list.PushBack(1);
    list.PushBack(2);
    list.PushBack(3);
    var _ := list.Insert(1, 10);
    assert [1, 2, 3][..1] + [10] + [1, 2, 3][1..] == [1, 10, 2, 3];
    inserted := list.Contents();
    at1 := list.At(1);
    var _ := list.Erase(1);
    erased := list.Contents();
    at1After := list.At(1);
  }

  /** `testCopyAndMove` (MyDS/test.cpp:64-84): the copy holds the same elements, and the
      move leaves its source empty. */
  method CopyMoveScenario() returns (copied: seq<int>, movedFrom: seq<int>, moved: seq<int>)
    ensures copied == [1, 2] && movedFrom == [] && moved == [1, 2]
  {
    var list1 := new ArrayList<int>.Default();
    list1.PushBack(1);
    list1.PushBack(2);
    var list2 := new ArrayList<int>.Copy(list1);
    copied := list2.Contents();
    var list3 := new ArrayList<int>.Move(list1);
    movedFrom := list1.Contents();
    moved := list3.Contents();
  }

  /** `testExceptionHandling` (MyDS/test.cpp:86-105): `front` on an empty list throws
      `runtime_error`, and `at(5)` on a one-element list throws `out_of_range`. */
  method ExceptionScenario() returns (front: Result<int>, outOfRange: Result<int>)
    ensures front.Err? && front.error.RuntimeError?
    ensures outOfRange == Err(OutOfRange("out of range"))
  {
    var list := new ArrayList<int>.Default();
    front := list.Front();
    list.PushBack(1);
    outOfRange := list.At(5);
  }

  /** `testReplace` (MyDS/test.cpp:107-118). */
  method ReplaceScenario() returns (at1: Result<int>)
    ensures at1 == Ok(20)
  {
    var list := new ArrayList<int>.Default();
    list.PushBack(1);
    list.PushBack(2);
    list.PushBack(3);
    var _ := list.Replace(1, 20);
    at1 := list.At(1);
  }
}
