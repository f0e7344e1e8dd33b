/** `Map<K, V>`: an association list of key/value pairs with unique keys, scanned linearly
    and kept in insertion order. */
module Maps {
  import opened Errors
  import opened Pairs

  /** No key occurs twice. */
  ghost predicate UniqueKeys<K, V>(s: seq<Pair<K, V>>)
  {
    forall i, j :: 0 <= i < j < |s| ==> s[i].first != s[j].first
  }

  /** The keys in storage (and iteration) order. */
  function Keys<K, V>(s: seq<Pair<K, V>>): (r: seq<K>)
    ensures |r| == |s| && forall i :: 0 <= i < |s| ==> r[i] == s[i].first
  {
    if s == [] then [] else [s[0].first] + Keys(s[1..])
  }

  /** The position the linear scan stops at: the first pair with the key, or `|s|`. */
  function Find<K(==), V>(s: seq<Pair<K, V>>, key: K): (i: nat)
    ensures i <= |s|
    ensures i < |s| ==> s[i].first == key
    ensures forall j :: 0 <= j < i ==> s[j].first != key
  {
    if s == [] then 0
    else if s[0].first == key then 0
    else 1 + Find(s[1..], key)
  }

  /** The const `at(key)` and const `operator[]`: the value stored under the key, or
      `out_of_range("Key not found")`. */
  function Lookup<K(==), V>(s: seq<Pair<K, V>>, key: K): (r: Result<V>)
    ensures r.Ok? <==> key in Keys(s)
    ensures r.Ok? ==> Pair(key, r.value) in s
    ensures r.Err? ==> r.error == OutOfRange("Key not found")
  {
    var i := Find(s, key);
    if i < |s| then Ok(s[i].second) else Err(OutOfRange("Key not found"))
  }

  /** What `insert(key, value)` does to the list: overwrite the value in place, or append. */
  function Put<K(==), V>(s: seq<Pair<K, V>>, key: K, value: V): seq<Pair<K, V>>
  {
    var i := Find(s, key);
    if i < |s| then s[i := Pair(key, value)] else s + [Pair(key, value)]
  }

  /** What `erase(key)` does to the list: drop the first pair with the key, if any. */
  function Remove<K(==), V>(s: seq<Pair<K, V>>, key: K): seq<Pair<K, V>>
  {
    var i := Find(s, key);
    if i < |s| then s[..i] + s[i + 1..] else s
  }

  /** With unique keys, a stored pair is the one the scan finds for its key. */
  lemma FindUnique<K, V>(s: seq<Pair<K, V>>, i: nat)
    requires UniqueKeys(s) && i < |s|
    ensures Find(s, s[i].first) == i
  {
  }

  /** `insert` keeps keys unique and the key then maps to the new value; an existing key
      keeps the size and the iteration order, a new one adds one and is iterated last. */
  lemma PutSpec<K, V>(s: seq<Pair<K, V>>, key: K, value: V)
    requires UniqueKeys(s)
    ensures UniqueKeys(Put(s, key, value))
    ensures Lookup(Put(s, key, value), key) == Ok(value)
    ensures key in Keys(s) ==> |Put(s, key, value)| == |s| && Keys(Put(s, key, value)) == Keys(s)
    ensures key !in Keys(s) ==> |Put(s, key, value)| == |s| + 1 && Keys(Put(s, key, value)) == Keys(s) + [key]
  {
    var t := Put(s, key, value);
    var i := Find(s, key);
    if i < |s| {
      assert Keys(t) == Keys(s);
      FindUnique(t, i);
    } else {
      assert key !in Keys(s) by {
        forall k | 0 <= k < |s|
          ensures Keys(s)[k] != key
        {
        }
      }
      assert Keys(t) == Keys(s) + [key];
      FindUnique(t, |s|);
    }
  }

  /** `insert` leaves every other key with the value it had. */
  lemma PutOthers<K, V>(s: seq<Pair<K, V>>, key: K, value: V, other: K)
    requires other != key
    ensures Lookup(Put(s, key, value), other) == Lookup(s, other)
  {
    var t := Put(s, key, value);
    var i := Find(s, key);
    var j := Find(s, other);
    if i < |s| {
      assert forall k :: 0 <= k < |s| ==> (t[k].first == other <==> s[k].first == other);
      assert Find(t, other) == j;
    } else if j < |s| {
      assert t[j] == s[j];
      assert Find(t, other) == j;
    } else {
      assert Find(t, other) == |t|;
    }
  }

  /** `erase` keeps keys unique and removes the key; the size drops by one exactly when the
      key was present. */
  lemma RemoveSpec<K, V>(s: seq<Pair<K, V>>, key: K)
    requires UniqueKeys(s)
    ensures UniqueKeys(Remove(s, key))
    ensures Lookup(Remove(s, key), key).Err?
    ensures key in Keys(s) ==> |Remove(s, key)| == |s| - 1
    ensures key !in Keys(s) ==> Remove(s, key) == s
  {
    var t := Remove(s, key);
    var i := Find(s, key);
    if i < |s| {
      assert forall k :: 0 <= k < i ==> t[k] == s[k];
      assert forall k :: i <= k < |t| ==> t[k] == s[k + 1];
      forall k | 0 <= k < |t|
        ensures t[k].first != key
      {
        if k >= i {
          assert s[k + 1].first != s[i].first;
        }
      }
    } else {
      assert key !in Keys(s) by {
        forall k | 0 <= k < |s|
          ensures Keys(s)[k] != key
        {
        }
      }
    }
  }

  /** The scan stops at the first position holding the key, or at the end. */
  lemma {:induction false} FindAt<K, V>(s: seq<Pair<K, V>>, key: K, j: nat)
    requires j <= |s| && (j < |s| ==> s[j].first == key)
    requires forall k :: 0 <= k < j ==> s[k].first != key
    ensures Find(s, key) == j
    decreases j
  {
    if j > 0 {
      FindAt(s[1..], key, j - 1);
    }
  }

  /** `erase` leaves every other key with its value, and the pairs it keeps stay in their
      order. */
  lemma RemoveOthers<K, V>(s: seq<Pair<K, V>>, key: K, other: K)
    requires other != key
    ensures Lookup(Remove(s, key), other) == Lookup(s, other)
    ensures Remove(s, key) == s || exists i :: 0 <= i < |s| && s[i].first == key && Remove(s, key) == s[..i] + s[i + 1..]
  {
    var t := Remove(s, key);
    var i := Find(s, key);
    if i < |s| {
      assert t == s[..i] + s[i + 1..];
      assert forall k :: 0 <= k < i ==> t[k] == s[k];
      assert forall k :: i <= k < |t| ==> t[k] == s[k + 1];
      var j := Find(s, other);
      if j < i {
        FindAt(t, other, j);
      } else if j < |s| {
        assert j != i;
        FindAt(t, other, j - 1);
      } else {
        FindAt(t, other, |t|);
      }
    }
  }

  /** `operator[]` followed by an assignment through the returned reference stores the value
      like `insert` does. */
  lemma IndexThenAssign<K, V>(s: seq<Pair<K, V>>, key: K, zero: V, value: V)
    ensures var t := if key in Keys(s) then s else s + [Pair(key, zero)];
            Find(t, key) < |t| && t[Find(t, key) := Pair(key, value)] == Put(s, key, value)
  {
    var t := if key in Keys(s) then s else s + [Pair(key, zero)];
    var i := Find(s, key);
    if i < |s| {
      assert Keys(s)[i] == key;
    } else {
      assert t[|s|].first == key;
      assert forall j :: 0 <= j < |s| ==> t[j] == s[j];
      assert Find(t, key) == |s|;
    }
  }

  class Map<K(==), V> {
    /** The backing list of pairs. */
    var data: seq<Pair<K, V>>

    ghost predicate Valid()
      reads this
    {
      UniqueKeys(data)
    }

    /** `Map()` (MyDS/map.h:14). */
    constructor ()
      ensures Valid() && data == []
    {
      data := [];
    }

    /** The copy constructor (MyDS/map.h:16). */
    constructor Copy(other: Map<K, V>)
      requires other.Valid()
      ensures Valid() && data == other.data
    {
      data := other.data;
    }

    /** The move constructor (MyDS/map.h:18): the other map is left empty. */
    constructor Move(other: Map<K, V>)
      requires other.Valid()
      modifies other
      ensures Valid() && data == old(other.data)
      ensures other.Valid() && other.data == []
    {
      data := other.data;
      other.data := [];
    }

    /** `empty()` (MyDS/map.h:37-39). */
    function Empty(): (e: bool)
      reads this
      ensures e <==> Keys(data) == []
    {
      |data| == 0
    }

    /** `size()` (MyDS/map.h:41-43): the number of distinct keys. */
    function Size(): (n: nat)
      reads this
      ensures n == |Keys(data)|
    {
      |data|
    }

    /** `clear()` (MyDS/map.h:45-47). */
    method Clear()
      modifies this
      ensures Valid() && data == []
    {
      data := [];
    }

    /** `insert(key, value)` (MyDS/map.h:49-57): the scan overwrites the value of a pair with
        the key, or the pair is appended. */
    method Insert(key: K, value: V)
      requires Valid()
      modifies this
      ensures Valid() && data == Put(old(data), key, value)
    {
      PutSpec(data, key, value);
      var i := 0;
      while i < |data|
        invariant i <= |data| && data == old(data)
        invariant forall j :: 0 <= j < i ==> data[j].first != key
      {
        if data[i].first == key {
          data := data[i := Pair(data[i].first, value)];
          return;
        }
        i := i + 1;
      }
      data := data + [Pair(key, value)];
    }

    /** `insert(pair)` (MyDS/map.h:59-61). */
    method InsertPair(p: Pair<K, V>)
      requires Valid()
      modifies this
      ensures Valid() && data == Put(old(data), p.first, p.second)
    {
      Insert(p.first, p.second);
    }

    /** `erase(key)` (MyDS/map.h:63-70): the first pair with the key is removed from the
        backing list; a missing key is a no-op. */
    method Erase(key: K)
      requires Valid()
      modifies this
      ensures Valid() && data == Remove(old(data), key)
    {
      RemoveSpec(data, key);
      var i := 0;
      while i < |data|
        invariant i <= |data| && data == old(data)
        invariant forall j :: 0 <= j < i ==> data[j].first != key
      {
        if data[i].first == key {
          data := data[..i] + data[i + 1..];
          return;
        }
        i := i + 1;
      }
    }

    /** `contains(key)` (MyDS/map.h:72-87; the const and non-const copies are identical). */
    method Contains(key: K) returns (b: bool)
      ensures b <==> key in Keys(data)
      ensures b <==> exists i :: 0 <= i < |data| && data[i].first == key
    {
      var i := 0;
      while i < |data|
        invariant i <= |data|
        invariant forall j :: 0 <= j < i ==> data[j].first != key
      {
        if data[i].first == key {
          return true;
        }
        i := i + 1;
      }
      return false;
    }

    /** `at(key)` (MyDS/map.h:89-105) and the const `operator[]` (MyDS/map.h:117-124): the
        stored value, or `out_of_range("Key not found")`. */
    method At(key: K) returns (r: Result<V>)
      ensures r == Lookup(data, key)
      ensures r.Ok? <==> key in Keys(data)
      ensures r.Ok? ==> Pair(key, r.value) in data
      ensures r.Err? ==> r.error == OutOfRange("Key not found")
    {
      var i := 0;
      while i < |data|
        invariant i <= |data|
        invariant forall j :: 0 <= j < i ==> data[j].first != key
      {
        if data[i].first == key {
          return Ok(data[i].second);
        }
        i := i + 1;
      }
      return Err(OutOfRange("Key not found"));
    }

    /** The non-const `operator[]` (MyDS/map.h:107-115): the stored value, or a missing key is
        appended with `V()` (passed in as `zero`) and that value is returned. */
    method Index(key: K, zero: V) returns (v: V)
      requires Valid()
      modifies this
      ensures Valid()
      ensures old(key in Keys(data)) ==> data == old(data) && Lookup(data, key) == Ok(v)
      ensures old(key !in Keys(data)) ==> data == old(data) + [Pair(key, zero)] && v == zero
    {
      var i := 0;
      while i < |data|
        invariant i <= |data| && data == old(data)
        invariant forall j :: 0 <= j < i ==> data[j].first != key
      {
        if data[i].first == key {
          return data[i].second;
        }
        i := i + 1;
      }
      PutSpec(data, key, zero);
      data := data + [Pair(key, zero)];
      v := zero;
    }
  }

  /** Iteration after a run of inserts: new keys come out in the order they were first
      inserted, and each key with its last inserted value; erase removes the key's pair, and
      `at` on it then throws. */
  method InsertionOrderScenario()
    returns (afterInserts: seq<Pair<int, int>>, afterErase: seq<Pair<int, int>>, missing: Result<int>)
    ensures afterInserts == [Pair(3, 31), Pair(1, 10)]
    ensures afterErase == [Pair(1, 10)]
    ensures missing == Err(OutOfRange("Key not found"))
  {
    var m := new Map<int, int>();
    m.Insert(3, 30);
    m.Insert(1, 10);
    m.Insert(3, 31);
    afterInserts := m.data;
    m.Erase(3);
    afterErase := m.data;
    missing := m.At(3);
  }
}
