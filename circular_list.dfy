/** `CircularList<T>`: a circular doubly linked list reached through its head cell. */
module CircularLists {
  import opened Errors
  import LinearList

  /** A ring cell: the value and the links to its neighbours, never null in a ring. */
  class Node<T> {
    var data: T
    var next: Node?<T>
    var prev: Node?<T>

    constructor (data: T, prev: Node?<T>, next: Node?<T>)
      ensures this.data == data && this.prev == prev && this.next == next
    {
      this.data := data;
      this.prev := prev;
      this.next := next;
    }
  }

  class CircularList<T> {
    /** The fields of the source (`head_`, `size_`). */
    var head: Node?<T>
    var size: nat

    /** The cells in order from the head, the values they hold, and every object the list
        owns. */
    ghost var nodes: seq<Node<T>>
    ghost var contents: seq<T>
    ghost var Repr: set<object>

    /** A well-formed ring: distinct cells, each `next` the following cell and the last
        cell's `next` the head, each `prev` the one before and the head's `prev` the last. */
    ghost predicate Valid()
      reads this, Repr
    {
      this in Repr
      && (forall i :: 0 <= i < |nodes| ==> nodes[i] in Repr)
      && size == |nodes| == |contents|
      && (forall i, j :: 0 <= i < j < |nodes| ==> nodes[i] != nodes[j])
      && head == (if nodes == [] then null else nodes[0])
      && (forall i {:trigger nodes[i].data} :: 0 <= i < |nodes| ==> nodes[i].data == contents[i])
      && (forall i {:trigger nodes[i].next} :: 0 <= i < |nodes| - 1 ==> nodes[i].next == nodes[i + 1])
      && (forall i {:trigger nodes[i].prev} :: 0 < i < |nodes| ==> nodes[i].prev == nodes[i - 1])
      && (nodes != [] ==> nodes[|nodes| - 1].next == nodes[0] && nodes[0].prev == nodes[|nodes| - 1])
    }

    /** `CircularList()` (MyDS/circularlist.h:37). */
    constructor ()
      ensures Valid() && fresh(Repr) && contents == []
    {
      head, size := null, 0;
      nodes, contents := [], [];
      Repr := {this};
    }

    /**
     * The copy constructor as MyDS/circularlist.h:39-49 writes it: after copying the head it
     * copies `current` only while `current->next` is not the head, so the cell before the
     * head, the last one, is never copied once there are two or more.
     */
    constructor CopyAsWritten(other: CircularList<T>)
      requires other.Valid()
      ensures Valid() && fresh(Repr)
      ensures |other.contents| <= 1 ==> contents == other.contents
      ensures |other.contents| >= 2 ==> contents == other.contents[..|other.contents| - 1]
    {
      head, size := null, 0;
      nodes, contents := [], [];
      Repr := {this};
      new;
      if other.size != 0 {
        var current := other.head;
        PushBack(current.data);
        current := current.next;
        ghost var i := 1;
        ghost var n := |other.nodes|;
        while current.next != other.head
          invariant Valid() && fresh(Repr) && other.Valid() && Repr !! other.Repr
          invariant n == 1 ==> i == 1 && current == other.head && contents == other.contents
          invariant n >= 2 ==> 1 <= i < n && current == other.nodes[i] && contents == other.contents[..i]
          decreases n - i
        {
          assert current.next == other.nodes[i + 1];
          PushBack(current.data);
          current := current.next;
          i := i + 1;
        }
        other.OnlyLastLinksHead();
      }
    }

    /** In a ring only the last cell links forward to the head. */
    lemma OnlyLastLinksHead()
      requires Valid()
      ensures forall i :: 0 <= i < |nodes| - 1 ==> nodes[i].next != head
    {
      forall i | 0 <= i < |nodes| - 1
        ensures nodes[i].next != head
      {
        assert nodes[i].next == nodes[i + 1];
      }
    }

    /** The copy constructor with the loop running over every cell, as the other containers'
        copy constructors do: the copy holds the same values in the same order. */
    constructor Copy(other: CircularList<T>)
      requires other.Valid()
      ensures Valid() && fresh(Repr) && contents == other.contents
    {
      head, size := null, 0;
      nodes, contents := [], [];
      Repr := {this};
      new;
      if other.size != 0 {
        var current := other.head;
        PushBack(current.data);
        current := current.next;
        ghost var i := 1;
        ghost var n := |other.nodes|;
        while current != other.head
          invariant Valid() && fresh(Repr) && other.Valid() && Repr !! other.Repr
          invariant 1 <= i <= n && current == other.nodes[if i < n then i else 0]
          invariant contents == other.contents[..i]
          decreases n - i
        {
          if i == n {
            assert false;
          }
          PushBack(current.data);
          current := current.next;
          i := i + 1;
        }
      }
    }

    /** The move constructor (MyDS/circularlist.h:51-56): takes over the ring and leaves the
        other list empty. */
    constructor Move(other: CircularList<T>)
      requires other.Valid()
      modifies other
      ensures Valid() && contents == old(other.contents) && nodes == old(other.nodes)
      ensures other.Valid() && other.contents == []
    {
      head, size := other.head, other.size;
      nodes, contents := other.nodes, other.contents;
      Repr := {this} + (set n: Node<T> | n in other.nodes :: n as object);
      new;
      forall i | 0 <= i < |nodes|
        ensures nodes[i] in Repr
      {
        assert nodes[i] in other.nodes;
      }
      other.head, other.size := null, 0;
      other.nodes, other.contents := [], [];
    }

    /** `empty()` (MyDS/circularlist.h:77-79). */
    function Empty(): (e: bool)
      reads this, Repr
      requires Valid()
      ensures e <==> contents == []
    {
      size == 0
    }

    /** `size()` (MyDS/circularlist.h:81-83). */
    function Size(): (n: nat)
      reads this, Repr
      requires Valid()
      ensures n == |contents|
    {
      size
    }

    /** `clear()` (MyDS/circularlist.h:85-97): walks once round the ring letting go of each
        cell, then the head; the list is empty with `head_` null. */
    method Clear()
      requires Valid()
      modifies this
      ensures Valid() && contents == [] && head == null && Repr == old(Repr)
    {
      if size != 0 {
        var current := head.next;
        ghost var i := 1;
        ghost var n := |nodes|;
        while current != head
          invariant 1 <= i <= n && current == nodes[if i < n then i else 0]
          decreases n - i
        {
          if i == n {
            assert false;
          }
          current := current.next;
          i := i + 1;
        }
        head, size := null, 0;
        nodes, contents := [], [];
      }
    }

    /** `locate(index)` (MyDS/circularlist.h:23-29): `index` steps along `next` from the
        head; `size_` steps come back round to the head. */
    method Locate(index: nat) returns (n: Node<T>)
      requires Valid() && 0 < size && index <= size
      ensures n == nodes[if index < size then index else 0]
      ensures n.data == contents[if index < size then index else 0]
    {
      var current := head;
      var i := 0;
      while i < index
        invariant i <= index && current == nodes[if i < size then i else 0]
      {
        current := current.next;
        i := i + 1;
      }
      n := current;
    }

    /** `at(index)` (MyDS/circularlist.h:99-107): the value `index` steps from the head, or
        `out_of_range`. */
    method At(index: nat) returns (r: Result<T>)
      requires Valid()
      ensures index < |contents| ==> r == Ok(contents[index])
      ensures index >= |contents| ==> r == Err(OutOfRange("out of range"))
    {
      var guard := LinearList.CheckIndex(index, size, false);
      if guard.Fail? {
        return Err(guard.error);
      }
      var n := Locate(index);
      return Ok(n.data);
    }

    /**
     * `insert(index, value)` (MyDS/circularlist.h:109-127): into an empty list, a cell linked
     * to itself; otherwise a cell just before the one `index` steps from the head (the head
     * itself for `index` 0 and for `index == size_`), and for `index` 0 it becomes the head.
     */
    method Insert(index: nat, value: T) returns (o: Outcome)
      requires Valid()
      modifies this, Repr
      ensures Valid() && fresh(Repr - old(Repr))
      ensures o == LinearList.CheckIndex(index, old(size), true)
      ensures o.Fail? ==> contents == old(contents)
      ensures o.Pass? ==> contents == old(contents)[..index] + [value] + old(contents)[index..]
      ensures o.Pass? && old(size) == 0 ==> head != null && head.next == head && head.prev == head
    {
      o := LinearList.CheckIndex(index, size, true);
      if o.Fail? {
        return;
      }
      if size == 0 {
        var cell := new Node(value, null, null);
        cell.prev := cell;
        cell.next := cell;
        head := cell;
        nodes, contents := [cell], [value];
        Repr := Repr + {cell};
        size := size + 1;
      } else {
        InsertBefore(index, value);
      }
    }

    /** The non-empty case of `insert` (MyDS/circularlist.h:117-125). */
    method InsertBefore(index: nat, value: T)
      requires Valid() && 0 < size && index <= size
      modifies this, Repr
      ensures Valid() && fresh(Repr - old(Repr))
      ensures contents == old(contents)[..index] + [value] + old(contents)[index..]
    {
      var current;
      if index == 0 {
        current := head;
      } else {
        current := Locate(index);
      }
      if index == 0 {
        LinkFront(current, value);
      } else if index == size {
        LinkBack(current, value);
      } else {
        LinkBefore(current, index, value);
      }
    }

    /** Linking a new cell between the last cell and the head, which becomes the head:
        `insert(0)`. */
    method LinkFront(current: Node<T>, value: T)
      requires Valid() && 0 < size && current == head
      modifies this, Repr
      ensures Valid() && fresh(Repr - old(Repr))
      ensures contents == [value] + old(contents)
    {
      ghost var last := |nodes| - 1;
      assert current.prev == nodes[last];
      var cell := new Node(value, null, null);
      cell.next := current;
      cell.prev := current.prev;
      current.prev.next := cell;
      current.prev := cell;
      head := cell;
      nodes, contents := [cell] + nodes, [value] + contents;
      Repr := Repr + {cell};
      size := size + 1;
    }

    /** Linking a new cell between the last cell and the head, which stays the head:
        `insert(size_)`. */
    method LinkBack(current: Node<T>, value: T)
      requires Valid() && 0 < size && current == head
      modifies this, Repr
      ensures Valid() && fresh(Repr - old(Repr))
      ensures contents == old(contents) + [value]
    {
      ghost var last := |nodes| - 1;
      assert current.prev == nodes[last];
      var cell := new Node(value, null, null);
      cell.next := current;
      cell.prev := current.prev;
      current.prev.next := cell;
      current.prev := cell;
      nodes, contents := nodes + [cell], contents + [value];
      Repr := Repr + {cell};
      size := size + 1;
    }

    /** Linking a new cell just before the cell at `index`, strictly inside the ring. */
    method LinkBefore(current: Node<T>, index: nat, value: T)
      requires Valid() && 0 < index < size && current == nodes[index]
      modifies this, Repr
      ensures Valid() && fresh(Repr - old(Repr))
      ensures contents == old(contents)[..index] + [value] + old(contents)[index..]
    {
      assert current.prev == nodes[index - 1];
      var cell := new Node(value, null, null);
      cell.next := current;
      cell.prev := current.prev;
      current.prev.next := cell;
      current.prev := cell;
      nodes := nodes[..index] + [cell] + nodes[index..];
      contents := contents[..index] + [value] + contents[index..];
      Repr := Repr + {cell};
      size := size + 1;
    }

    /** `erase(index)` (MyDS/circularlist.h:129-144): the only cell empties the list;
        otherwise the cell's neighbours are linked, and erasing the head moves `head_` on. */
    method Erase(index: nat) returns (o: Outcome)
      requires Valid()
      modifies this, Repr
      ensures Valid() && Repr == old(Repr)
      ensures o == LinearList.CheckIndex(index, old(size), false)
      ensures o.Fail? ==> contents == old(contents)
      ensures o.Pass? ==> contents == old(contents)[..index] + old(contents)[index + 1..]
      ensures o.Pass? && old(size) == 1 ==> head == null
      ensures o.Pass? && index == 0 && old(size) > 1 ==> head == old(head.next)
    {
      o := LinearList.CheckIndex(index, size, false);
      if o.Fail? {
        return;
      }
      if size == 1 {
        head := null;
        nodes, contents := [], [];
        size := size - 1;
      } else {
        var current := Locate(index);
        if current == head {
          UnlinkHead(current);
        } else {
          Unlink(current, index);
        }
      }
    }

    /** The case of `erase` with more than one cell (MyDS/circularlist.h:134-142), for the
        head: its neighbours are linked and the next cell becomes the head. */
    method UnlinkHead(current: Node<T>)
      requires Valid() && 1 < size && current == head
      modifies this, Repr
      ensures Valid() && Repr == old(Repr)
      ensures contents == old(contents)[1..]
      ensures head == old(head.next)
    {
      ghost var ns, last := nodes, |nodes| - 1;
      assert current.prev == ns[last] && current.next == ns[1];
      current.prev.next := current.next;
      current.next.prev := current.prev;
      head := head.next;
      nodes := ns[1..];
      contents := contents[1..];
      size := size - 1;
    }

    /** The case of `erase` with more than one cell (MyDS/circularlist.h:134-142), for a
        cell other than the head: its neighbours are linked. */
    method Unlink(current: Node<T>, index: nat)
      requires Valid() && 1 < size && 0 < index < size && current == nodes[index]
      modifies this, Repr
      ensures Valid() && Repr == old(Repr) && head == old(head)
      ensures contents == old(contents)[..index] + old(contents)[index + 1..]
    {
      ghost var ns, last := nodes, |nodes| - 1;
      ghost var q := if index == last then 0 else index + 1;
      assert current.prev == ns[index - 1] && current.next == ns[q];
      current.prev.next := current.next;
      current.next.prev := current.prev;
      nodes := ns[..index] + ns[index + 1..];
      contents := contents[..index] + contents[index + 1..];
      size := size - 1;
    }

    /** `push_back(value)` (MyDS/circularlist.h:146-155): an empty list takes the `insert(0)`
        path; otherwise the new cell goes between the last cell and the head, so it becomes
        the back. */
    method PushBack(value: T)
      requires Valid()
      modifies this, Repr
      ensures Valid() && fresh(Repr - old(Repr))
      ensures contents == old(contents) + [value]
    {
      if size == 0 {
        var o := Insert(0, value);
      } else {
        ghost var last := |nodes| - 1;
        assert head.prev == nodes[last];
        var cell := new Node(value, head.prev, head);
        head.prev.next := cell;
        head.prev := cell;
        nodes, contents := nodes + [cell], contents + [value];
        Repr := Repr + {cell};
        size := size + 1;
      }
    }

    /** `pop_back()` (MyDS/circularlist.h:157-160): removes the back, or `runtime_error`. */
    method PopBack() returns (o: Outcome)
      requires Valid()
      modifies this, Repr
      ensures Valid() && Repr == old(Repr)
      ensures o == LinearList.CheckEmpty(old(size))
      ensures o.Fail? ==> contents == old(contents)
      ensures o.Pass? ==> contents == old(contents)[..old(size) - 1]
    {
      o := LinearList.CheckEmpty(size);
      if o.Pass? {
        o := Erase(size - 1);
      }
    }

    /** `front()` (MyDS/circularlist.h:162-170): the head's value, or `runtime_error`. */
    method Front() returns (r: Result<T>)
      requires Valid()
      ensures contents != [] ==> r == Ok(contents[0])
      ensures contents == [] ==> r == Err(RuntimeError("empty!"))
    {
      var guard := LinearList.CheckEmpty(size);
      if guard.Fail? {
        return Err(guard.error);
      }
      return Ok(head.data);
    }

    /** `back()` (MyDS/circularlist.h:172-180): the value of the head's `prev`, or
        `runtime_error`. */
    method Back() returns (r: Result<T>)
      requires Valid()
      ensures contents != [] ==> r == Ok(contents[|contents| - 1])
      ensures contents == [] ==> r == Err(RuntimeError("empty!"))
    {
      var guard := LinearList.CheckEmpty(size);
      if guard.Fail? {
        return Err(guard.error);
      }
      return Ok(head.prev.data);
    }

    /** `replace(index, value)` (MyDS/circularlist.h:182-185): only the value at `index`
        changes. */
    method Replace(index: nat, value: T) returns (o: Outcome)
      requires Valid()
      modifies Repr
      ensures Valid() && nodes == old(nodes) && Repr == old(Repr)
      ensures o == LinearList.CheckIndex(index, old(size), false)
      ensures o.Fail? ==> contents == old(contents)
      ensures o.Pass? ==> contents == old(contents)[index := value]
    {
      o := LinearList.CheckIndex(index, size, false);
      if o.Fail? {
        return;
      }
      var n := Locate(index);
      n.data := value;
      contents := contents[index := value];
    }
  }

  /** Copying the list [1, 2] with the constructor as written keeps only the first element;
      the corrected copy keeps both. */
  method CopyScenario()
    returns (lossySize: nat, lossyAt: seq<Result<int>>, copySize: nat, copyAt: seq<Result<int>>)
    ensures lossySize == 1 && lossyAt == [Ok(1), Err(OutOfRange("out of range"))]
    ensures copySize == 2 && copyAt == [Ok(1), Ok(2)]
  {
    var list := new CircularList<int>();
    list.PushBack(1);
    list.PushBack(2);
    var lossy := new CircularList<int>.CopyAsWritten(list);
    lossySize := lossy.Size();
    var l0 := lossy.At(0);
    var l1 := lossy.At(1);
    lossyAt := [l0, l1];
    var copy := new CircularList<int>.Copy(list);
    copySize := copy.Size();
    var c0 := copy.At(0);
    var c1 := copy.At(1);
    copyAt := [c0, c1];
  }
}
