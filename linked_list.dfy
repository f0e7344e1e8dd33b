/** `LinkedList<T>`: a doubly linked list with head and tail pointers. */
module LinkedLists {
  import opened Errors
  import LinearList

  /** A list cell: the value and the links to its neighbours (`null` at either end). */
  class Node<T> {
    var data: T
    var next: Node?<T>
    var prev: Node?<T>

    constructor (data: T, prev: Node?<T>, next: Node?<T>)
      ensures this.data == data && this.prev == prev && this.next == next
    {
      this.data := data;
      this.prev := prev;
      this.next := next;
    }
  }

  class LinkedList<T> {
    /** The fields of the source (`head_`, `tail_`, `size_`). */
    var head: Node?<T>
    var tail: Node?<T>
    var size: nat

    /** The cells from head to tail, the values they hold, and every object the list owns. */
    ghost var nodes: seq<Node<T>>
    ghost var contents: seq<T>
    ghost var Repr: set<object>

    /** A well-formed list: distinct cells chained by `next` from `head` to `tail` and by
        `prev` back again, with `null` beyond both ends, and `size_` counting them. */
    ghost predicate Valid()
      reads this, Repr
    {
      this in Repr
      && (forall i :: 0 <= i < |nodes| ==> nodes[i] in Repr)
      && size == |nodes| == |contents|
      && (forall i, j :: 0 <= i < j < |nodes| ==> nodes[i] != nodes[j])
      && head == (if nodes == [] then null else nodes[0])
      && tail == (if nodes == [] then null else nodes[|nodes| - 1])
      && (forall i {:trigger nodes[i].data} :: 0 <= i < |nodes| ==> nodes[i].data == contents[i])
      && (forall i {:trigger nodes[i].next} :: 0 <= i < |nodes| - 1 ==> nodes[i].next == nodes[i + 1])
      && (forall i {:trigger nodes[i].prev} :: 0 < i < |nodes| ==> nodes[i].prev == nodes[i - 1])
      && (nodes != [] ==> nodes[0].prev == null && nodes[|nodes| - 1].next == null)
    }

    /** `LinkedList()` (MyDS/linkedlist.h:48). */
    constructor ()
      ensures Valid() && fresh(Repr) && contents == []
    {
      head, tail, size := null, null, 0;
      nodes, contents := [], [];
      Repr := {this};
    }

    /** The copy constructor (MyDS/linkedlist.h:50-59): `push_back` of every value from head
        to tail. */
    constructor Copy(other: LinkedList<T>)
      requires other.Valid()
      ensures Valid() && fresh(Repr) && contents == other.contents
    {
      head, tail, size := null, null, 0;
      nodes, contents := [], [];
      Repr := {this};
      new;
      var current := other.head;
      ghost var i := 0;
      while current != null
        invariant Valid() && fresh(Repr) && other.Valid()
        invariant i <= |other.nodes| && current == (if i < |other.nodes| then other.nodes[i] else null)
        invariant contents == other.contents[..i]
        decreases |other.nodes| - i
      {
        PushBack(current.data);
        current := current.next;
        i := i + 1;
      }
    }

    /** The move constructor (MyDS/linkedlist.h:61-68): takes over the cells and leaves the
        other list empty. */
    constructor Move(other: LinkedList<T>)
      requires other.Valid()
      modifies other
      ensures Valid() && contents == old(other.contents) && nodes == old(other.nodes)
      ensures other.Valid() && other.contents == []
    {
      head, tail, size := other.head, other.tail, other.size;
      nodes, contents := other.nodes, other.contents;
      Repr := {this} + (set n: Node<T> | n in other.nodes :: n as object);
      new;
      forall i | 0 <= i < |nodes|
        ensures nodes[i] in Repr
      {
        assert nodes[i] in other.nodes;
      }
      other.head, other.tail, other.size := null, null, 0;
      other.nodes, other.contents := [], [];
    }

    /** `empty()` (MyDS/linkedlist.h:89-91). */
    function Empty(): (e: bool)
      reads this, Repr
      requires Valid()
      ensures e <==> contents == []
    {
      size == 0
    }

    /** `size()` (MyDS/linkedlist.h:93-95). */
    function Size(): (n: nat)
      reads this, Repr
      requires Valid()
      ensures n == |contents|
    {
      size
    }

    /** `clear()` (MyDS/linkedlist.h:97-105): walks from the head to the end, letting go of each
        cell; `head_` ends up null. */
    method Clear()
      requires Valid()
      modifies this
      ensures Valid() && contents == [] && Repr == old(Repr)
    {
      var current := head;
      ghost var i := 0;
      while current != null
        invariant i <= |nodes| && current == (if i < |nodes| then nodes[i] else null)
        decreases |nodes| - i
      {
        current := current.next;
        i := i + 1;
      }
      head := current;
      tail, size := null, 0;
      nodes, contents := [], [];
    }

    /** `locate(index)` (MyDS/linkedlist.h:25-39): the cell at `index`, reached from the head
        when `index` is in the first half and from the tail otherwise. */
    method Locate(index: nat) returns (n: Node<T>)
      requires Valid() && index < size
      ensures n == nodes[index] && n.data == contents[index]
    {
      if index <= size / 2 {
        var current := head;
        var i := 0;
        while i < index
          invariant i <= index && current == nodes[i]
        {
          current := current.next;
          i := i + 1;
        }
        n := current;
      } else {
        var current := tail;
        var i := size - 1;
        while i > index
          invariant index <= i < size && current == nodes[i]
        {
          current := current.prev;
          i := i - 1;
        }
        n := current;
      }
    }

    /** `at(index)` (MyDS/linkedlist.h:107-115): the value `index` steps from the head, or
        `out_of_range`. */
    method At(index: nat) returns (r: Result<T>)
      requires Valid()
      ensures index < |contents| ==> r == Ok(contents[index])
      ensures index >= |contents| ==> r == Err(OutOfRange("out of range"))
    {
      var guard := LinearList.CheckIndex(index, size, false);
      if guard.Fail? {
        return Err(guard.error);
      }
      var n := Locate(index);
      return Ok(n.data);
    }

    /**
     * `insert(index, value)` as MyDS/linkedlist.h:117-141 writes it. At the two ends the new
     * cell is linked to its neighbour but `head_` (index 0) or `tail_` (index `size_`) is not
     * moved to it, while `size_` still grows: the list read from the head no longer has
     * `size_` cells. Only the middle case keeps the list well formed.
     */
    method InsertAsWritten(index: nat, value: T) returns (o: Outcome)
      requires Valid()
      modifies this, Repr
      ensures o == LinearList.CheckIndex(index, old(size), true)
      ensures o.Fail? ==> Valid() && contents == old(contents)
      ensures o.Pass? && index == 0 ==> head == old(head) && size == old(size) + 1
      ensures o.Pass? && index == 0 && old(size) == 0 ==> head == null && tail != null
      ensures o.Pass? && index == 0 && old(size) > 0 ==> head != null && head.prev != null
      ensures o.Pass? && 0 < index == old(size) ==> tail == old(tail) && tail != null && tail.next != null
      ensures o.Pass? && 0 < index < old(size) ==> Valid() && contents == old(contents)[..index] + [value] + old(contents)[index..]
    {
      o := LinearList.CheckIndex(index, size, true);
      if o.Fail? {
        return;
      }
      if index == 0 {
        var cell := new Node(value, null, head);
        if head != null {
          head.prev := cell;
        } else {
          tail := cell;
        }
      } else if index == size {
        var cell := new Node(value, tail, null);
        // `tail_` is not null here, as the list is not empty.
        tail.next := cell;
      } else {
        InsertMiddle(index, value);
        return;
      }
      size := size + 1;
    }

    /** `insert(index, value)` with `head_`/`tail_` moved to the new cell at the two ends, as
        the rest of the class expects: the value lands at `index`. */
    method Insert(index: nat, value: T) returns (o: Outcome)
      requires Valid()
      modifies this, Repr
      ensures Valid() && fresh(Repr - old(Repr))
      ensures o == LinearList.CheckIndex(index, old(size), true)
      ensures o.Fail? ==> contents == old(contents)
      ensures o.Pass? ==> contents == old(contents)[..index] + [value] + old(contents)[index..]
    {
      o := LinearList.CheckIndex(index, size, true);
      if o.Fail? {
        return;
      }
      if index == 0 {
        var cell := new Node(value, null, head);
        if head != null {
          head.prev := cell;
        } else {
          tail := cell;
        }
        head := cell;
        nodes, contents := [cell] + nodes, [value] + contents;
        Repr := Repr + {cell};
        size := size + 1;
      } else if index == size {
        PushBack(value);
      } else {
        InsertMiddle(index, value);
      }
    }

    /** The middle case of `insert` (MyDS/linkedlist.h:134-139): a new cell between the one
        at `index` and its predecessor. */
    method InsertMiddle(index: nat, value: T)
      requires Valid() && 0 < index < size
      modifies this, Repr
      ensures Valid() && fresh(Repr - old(Repr)) && size == old(size) + 1
      ensures contents == old(contents)[..index] + [value] + old(contents)[index..]
    {
      var current := Locate(index);
      assert current.prev == nodes[index - 1];
      var cell := new Node(value, current.prev, current);
      current.prev.next := cell;
      current.prev := cell;
      nodes := nodes[..index] + [cell] + nodes[index..];
      contents := contents[..index] + [value] + contents[index..];
      Repr := Repr + {cell};
      size := size + 1;
    }

    /** `front()` (MyDS/linkedlist.h:143-151): the head's value, or `runtime_error`. */
    method Front() returns (r: Result<T>)
      requires Valid()
      ensures contents != [] ==> r == Ok(contents[0])
      ensures contents == [] ==> r == Err(RuntimeError("empty!"))
    {
      var guard := LinearList.CheckEmpty(size);
      if guard.Fail? {
        return Err(guard.error);
      }
      return Ok(head.data);
    }

    /** `back()` (MyDS/linkedlist.h:153-161): the tail's value, or `runtime_error`. */
    method Back() returns (r: Result<T>)
      requires Valid()
      ensures contents != [] ==> r == Ok(contents[|contents| - 1])
      ensures contents == [] ==> r == Err(RuntimeError("empty!"))
    {
      var guard := LinearList.CheckEmpty(size);
      if guard.Fail? {
        return Err(guard.error);
      }
      return Ok(tail.data);
    }

    /** `replace(index, value)` (MyDS/linkedlist.h:163-166): only the value at `index`
        changes. */
    method Replace(index: nat, value: T) returns (o: Outcome)
      requires Valid()
      modifies Repr
      ensures Valid() && nodes == old(nodes) && Repr == old(Repr)
      ensures o == LinearList.CheckIndex(index, old(size), false)
      ensures o.Fail? ==> contents == old(contents)
      ensures o.Pass? ==> contents == old(contents)[index := value]
    {
      o := LinearList.CheckIndex(index, size, false);
      if o.Fail? {
        return;
      }
      var n := Locate(index);
      n.data := value;
      contents := contents[index := value];
    }

    /** `push_back(value)` (MyDS/linkedlist.h:168-177): a new tail cell; in an empty list it
        is both head and tail. */
    method PushBack(value: T)
      requires Valid()
      modifies this, Repr
      ensures Valid() && fresh(Repr - old(Repr))
      ensures contents == old(contents) + [value] && size == old(size) + 1
      ensures old(size) == 0 ==> head == tail && head != null
    {
      if size == 0 {
        var cell := new Node(value, null, null);
        head, tail := cell, cell;
        nodes := [cell];
      } else {
        var cell := new Node(value, tail, null);
        tail.next := cell;
        tail := cell;
        nodes := nodes + [cell];
      }
      contents := contents + [value];
      Repr := Repr + {tail};
      size := size + 1;
    }

    /** `pop_back()` (MyDS/linkedlist.h:179-182): removes the tail, or `runtime_error`. */
    method PopBack() returns (o: Outcome)
      requires Valid()
      modifies this, Repr
      ensures Valid() && Repr == old(Repr)
      ensures o == LinearList.CheckEmpty(old(size))
      ensures o.Fail? ==> contents == old(contents)
      ensures o.Pass? ==> contents == old(contents)[..old(size) - 1]
    {
      o := LinearList.CheckEmpty(size);
      if o.Pass? {
        o := Erase(size - 1);
      }
    }

    /**
     * `erase(index)` (MyDS/linkedlist.h:184-206): unlinks the cell at `index`; removing the
     * head or the tail moves that pointer, and removing the only cell leaves both `null`.
     */
    method Erase(index: nat) returns (o: Outcome)
      requires Valid()
      modifies this, Repr
      ensures Valid() && Repr == old(Repr)
      ensures o == LinearList.CheckIndex(index, old(size), false)
      ensures o.Fail? ==> contents == old(contents)
      ensures o.Pass? ==> contents == old(contents)[..index] + old(contents)[index + 1..]
      ensures o.Pass? && old(size) == 1 ==> head == null && tail == null && size == 0
    {
      o := LinearList.CheckIndex(index, size, false);
      if o.Fail? {
        return;
      }
      if index == 0 {
        EraseHead();
      } else if index == size - 1 {
        EraseTail();
      } else {
        EraseMiddle(index);
      }
    }

    /** The first case of `erase` (MyDS/linkedlist.h:187-194): `head_` moves on, and when no
        cell is left `tail_` becomes null too. */
    method EraseHead()
      requires Valid() && size > 0
      modifies this, Repr
      ensures Valid() && Repr == old(Repr) && contents == old(contents)[1..]
      ensures old(size) == 1 ==> head == null && tail == null && size == 0
    {
      assert size > 1 ==> head.next == nodes[1];
      head := head.next;
      if head != null {
        head.prev := null;
      } else {
        tail := null;
      }
      nodes, contents := nodes[1..], contents[1..];
      size := size - 1;
    }

    /** The second case of `erase` (MyDS/linkedlist.h:195-198): `tail_` moves back. */
    method EraseTail()
      requires Valid() && size > 1
      modifies this, Repr
      ensures Valid() && Repr == old(Repr) && contents == old(contents)[..old(size) - 1]
    {
      assert tail.prev == nodes[size - 2];
      tail := tail.prev;
      tail.next := null;
      nodes, contents := nodes[..size - 1], contents[..size - 1];
      size := size - 1;
    }

    /** The third case of `erase` (MyDS/linkedlist.h:199-203): the neighbours of the cell at
        `index` are linked to each other. */
    method EraseMiddle(index: nat)
      requires Valid() && 0 < index < size - 1
      modifies this, Repr
      ensures Valid() && Repr == old(Repr)
      ensures contents == old(contents)[..index] + old(contents)[index + 1..]
    {
      var d := Locate(index);
      assert d.prev == nodes[index - 1] && d.next == nodes[index + 1];
      d.next.prev := d.prev;
      d.prev.next := d.next;
      nodes := nodes[..index] + nodes[index + 1..];
      contents := contents[..index] + contents[index + 1..];
      size := size - 1;
    }
  }

  /** The as-written `insert` at index 0 of an empty list leaves `head_` null while `size_`
      is 1, so a following `front()` reads through a null head; the corrected insert makes
      the value the front. */
  method InsertFrontScenario() returns (headIsNull: bool, size: nat, front: Result<int>)
    ensures headIsNull && size == 1
    ensures front == Ok(7)
  {
    var list := new LinkedList<int>();
    var _ := list.InsertAsWritten(0, 7);
    headIsNull := list.head == null;
    size := list.size;
    var fixed := new LinkedList<int>();
    var _ := fixed.Insert(0, 7);
    front := fixed.Front();
  }
}
