/** `ArrayStack<T>`: a stack over a buffer that doubles when it is full. */
module ArrayStacks {
  import opened Errors
  import ArrayLists

  class ArrayStack<T(0)> {
    /** The buffer (`elements`), its length (`_capacity`) and the count (`_size`). */
    var elements: array<T>
    var capacity: nat
    var size: nat

    ghost predicate Valid()
      reads this
    {
      capacity == elements.Length && size <= capacity
    }

    /** The stack from bottom to top. */
    function Contents(): seq<T>
      reads this, elements
      requires Valid()
    {
      elements[..size]
    }

    /** `ArrayStack(capacity)` (MyDS/arraystack.h:13-16). */
    constructor (capacity: nat)
      ensures Valid() && fresh(elements) && Contents() == [] && this.capacity == capacity
    {
      elements := new T[capacity];
      this.capacity := capacity;
      size := 0;
    }

    /** `ArrayStack()` (MyDS/arraystack.h:11): the initial capacity is 16. */
    constructor Default()
      ensures Valid() && fresh(elements) && Contents() == [] && capacity == ArrayLists.InitialCapacity
    {
      elements := new T[ArrayLists.InitialCapacity];
      capacity := ArrayLists.InitialCapacity;
      size := 0;
    }

    /** The copy constructor (MyDS/arraystack.h:18-25): same capacity, same elements. */
    constructor Copy(other: ArrayStack<T>)
      requires other.Valid()
      ensures Valid() && fresh(elements)
      ensures Contents() == other.Contents() && capacity == other.capacity
    {
      var buffer := new T[other.capacity];
      var i := 0;
      while i < other.size
        invariant 0 <= i <= other.size
        invariant buffer[..i] == other.elements[..i]
      {
        buffer[i] := other.elements[i];
        i := i + 1;
      }
      elements := buffer;
      capacity := other.capacity;
      size := other.size;
    }

    /** The move constructor (MyDS/arraystack.h:27-34): takes over the buffer and leaves the
        other stack empty with capacity 0. */
    constructor Move(other: ArrayStack<T>)
      requires other.Valid()
      modifies other
      ensures Valid() && elements == old(other.elements)
      ensures Contents() == old(other.Contents()) && capacity == old(other.capacity)
      ensures other.Valid() && other.Contents() == [] && other.capacity == 0
    {
      elements := other.elements;
      capacity := other.capacity;
      size := other.size;
      other.elements := new T[0];
      other.capacity := 0;
      other.size := 0;
    }

    /** `empty()` (MyDS/arraystack.h:55-57). */
    function Empty(): (e: bool)
      reads this, elements
      requires Valid()
      ensures e <==> Contents() == []
    {
      size == 0
    }

    /** `clear()` (MyDS/arraystack.h:63-65). */
    method Clear()
      requires Valid()
      modifies this
      ensures Valid() && Contents() == [] && elements == old(elements) && capacity == old(capacity)
    {
      size := 0;
    }

    /** `reserve(new_capacity)` (MyDS/arraystack.h:90-100): only a larger request reallocates,
        and the elements are kept. */
    method Reserve(newCapacity: nat)
      requires Valid()
      modifies this
      ensures Valid() && Contents() == old(Contents())
      ensures newCapacity > old(capacity) ==> capacity == newCapacity && fresh(elements)
      ensures newCapacity <= old(capacity) ==> capacity == old(capacity) && elements == old(elements)
    {
      if newCapacity > capacity {
        var buffer := new T[newCapacity];
        var i := 0;
        while i < size
          invariant 0 <= i <= size
          invariant buffer[..i] == elements[..i]
          modifies buffer
        {
          buffer[i] := elements[i];
          i := i + 1;
        }
        elements := buffer;
        capacity := newCapacity;
      }
    }

    /** `push(value)` (MyDS/arraystack.h:67-73): a full buffer grows first; the value goes on
        top. */
    method Push(value: T)
      requires Valid()
      modifies this, elements
      ensures Valid() && Contents() == old(Contents()) + [value]
      ensures capacity == if old(size) == old(capacity) then ArrayLists.Grown(old(capacity)) else old(capacity)
      ensures elements == old(elements) || fresh(elements)
    {
      if size == capacity {
        Reserve(ArrayLists.Grown(capacity));
      }
      elements[size] := value;
      size := size + 1;
    }

    /** `pop()` (MyDS/arraystack.h:75-78): removes the top; an empty stack throws
        `runtime_error`. */
    method Pop() returns (o: Outcome)
      requires Valid()
      modifies this
      ensures Valid() && elements == old(elements)
      ensures old(Contents()) == [] <==> o.Fail?
      ensures o.Fail? ==> o.error == RuntimeError("empty stack!") && Contents() == old(Contents())
      ensures o.Pass? ==> Contents() == old(Contents())[..|old(Contents())| - 1]
    {
      o := CheckEmpty();
      if o.Pass? {
        size := size - 1;
      }
    }

    /** `top()` (MyDS/arraystack.h:80-88): the most recently pushed element still present. */
    method Top() returns (r: Result<T>)
      requires Valid()
      ensures Contents() != [] ==> r == Ok(Contents()[|Contents()| - 1])
      ensures Contents() == [] ==> r == Err(RuntimeError("empty stack!"))
    {
      var guard := CheckEmpty();
      if guard.Fail? {
        return Err(guard.error);
      }
      return Ok(elements[size - 1]);
    }

    /** `check_empty()` (MyDS/arraystack.h:121-125). */
    method CheckEmpty() returns (o: Outcome)
      requires Valid()
      ensures o.Fail? <==> Contents() == []
      ensures o.Fail? ==> o.error == RuntimeError("empty stack!")
    {
      if size == 0 {
        return Fail(RuntimeError("empty stack!"));
      }
      return Pass;
    }
  }

  /** Push then top returns the pushed value, and pop then gives back the stack as it was:
      last in, first out. */
  method PushPopScenario(s: ArrayStack<int>, v: int) returns (top: Result<int>, popped: Outcome)
    requires s.Valid()
    modifies s, s.elements
    ensures top == Ok(v) && popped == Pass
    ensures s.Valid() && s.Contents() == old(s.Contents())
  {
    s.Push(v);
    top := s.Top();
    popped := s.Pop();
  }
}
