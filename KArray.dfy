/*
 * The growable array of src/core/karray.h (the ARRAY(T) macros): a buffer
 * `list` of `capacity` slots whose first `size` slots are in use.
 */
module KArray {
  import opened Config

  /** Capacity after one step of ensureSize's loop: 1 << LOG2(capacity * 2 + 1). */
  function GrowCapacity(capacity: nat): (r: nat)
    ensures exists k: nat :: r == Pow2(k)
  {
    Pow2(Log2(capacity * 2 + 1))
  }

  /** One growth step strictly enlarges the buffer, by at most a factor of four. */
  lemma GrowCapacityBounds(capacity: nat)
    ensures capacity < GrowCapacity(capacity) <= 4 * capacity + 1
  {
    RoundUpPow2(capacity * 2 + 1);
  }

  /** First position of o in s, or -1 when o does not occur. */
  function FirstIndex<T(==)>(s: seq<T>, o: T): (k: int)
    ensures -1 <= k < |s|
  {
    if s == [] then -1
    else if s[0] == o then 0
    else var k := FirstIndex(s[1..], o); if k < 0 then -1 else k + 1
  }

  /** FirstIndex finds the first occurrence, and -1 exactly when there is none. */
  lemma {:induction false} FirstIndexSpec<T>(s: seq<T>, o: T)
    ensures var k := FirstIndex(s, o);
      (k == -1 <==> o !in s) &&
      (k != -1 ==> 0 <= k < |s| && s[k] == o && o !in s[..k])
  {
    if s != [] && s[0] != o {
      FirstIndexSpec(s[1..], o);
      assert s == [s[0]] + s[1..];
      var k := FirstIndex(s[1..], o);
      if k != -1 {
        assert s[..k + 1] == [s[0]] + s[1..][..k];
      }
    }
  }

  /** s without its first occurrence of o (s itself when o is absent). */
  function RemoveFirst<T(==)>(s: seq<T>, o: T): (r: seq<T>)
    ensures o !in s ==> r == s
    ensures o in s ==> |r| == |s| - 1
    ensures multiset(r) == multiset(s) - multiset{o}
  {
    FirstIndexSpec(s, o);
    var k := FirstIndex(s, o);
    if k < 0 then s
    else
      assert s == s[..k] + [s[k]] + s[k + 1..];
      s[..k] + s[k + 1..]
  }

  class Array<T(==)> {
    /** The value memset(0) leaves in a fresh slot (0, NULL). */
    const zero: T
    var list: array<T>
    var capacity: nat
    var size: nat

    ghost predicate Valid()
      reads this
    {
      capacity == list.Length && size <= capacity
    }

    /** The elements in use. */
    ghost function Contents(): seq<T>
      reads this, list
      requires Valid()
    {
      list[..size]
    }

    /** ARRAY_init: an empty array with room for initsize elements. */
    constructor Init(initsize: nat, zero: T)
      ensures Valid() && fresh(list)
      ensures size == 0 && capacity == initsize
      ensures this.zero == zero
    {
      this.zero := zero;
      list := new T[initsize](_ => zero);
      capacity := initsize;
      size := 0;
    }

    /** ARRAY_get: the element at idx. */
    function Get(idx: nat): T
      reads this, list
      requires Valid() && idx < size
    {
      list[idx]
    }

    /** ARRAY_set: overwrite the element at idx. */
    method Set(idx: nat, v: T)
      requires Valid() && idx < size
      modifies list
      ensures Valid()
      ensures Contents() == old(Contents())[idx := v]
    {
      list[idx] := v;
    }

    /**
     * ARRAY_ensureSize: make room for n more elements, growing the capacity
     * step by step and zeroing the slots that were added.
     */
    method EnsureSize(n: nat)
      requires Valid()
      modifies this
      ensures Valid() && size == old(size)
      ensures size + n <= capacity
      ensures old(size) + n <= old(capacity) ==> capacity == old(capacity) && list == old(list)
      ensures list == old(list) || fresh(list)
      ensures list[..old(capacity)] == old(list[..capacity])
      ensures forall i :: old(capacity) <= i < capacity ==> list[i] == zero
      ensures Contents() == old(Contents())
    {
      var oldCapacity := capacity;
      if size + n <= capacity {
        return;
      }
      while size + n > capacity
        invariant capacity >= oldCapacity
        invariant size == old(size) && list == old(list) && oldCapacity == list.Length
        decreases size + n - capacity
      {
        GrowCapacityBounds(capacity);
        capacity := GrowCapacity(capacity);
      }
      var grown := new T[capacity](_ => zero);
      forall i | 0 <= i < oldCapacity {
        grown[i] := list[i];
      }
      list := grown;
    }

    /** ARRAY_dispose: release the buffer. */
    method Dispose()
      modifies this
      ensures Valid() && size == 0 && capacity == 0
    {
      list := new T[0];
      size := 0;
      capacity := 0;
    }

    /** ARRAY_add: append v. */
    method Add(v: T)
      requires Valid()
      modifies this, list
      ensures Valid()
      ensures Contents() == old(Contents()) + [v]
      ensures list == old(list) || fresh(list)
    {
      EnsureSize(1);
      list[size] := v;
      size := size + 1;
    }

    /** ARRAY_add_once: append v unless it is already present. */
    method AddOnce(v: T)
      requires Valid()
      modifies this, list
      ensures Valid()
      ensures v in old(Contents()) ==> Contents() == old(Contents())
      ensures v !in old(Contents()) ==> Contents() == old(Contents()) + [v]
      ensures list == old(list) || fresh(list)
    {
      var i := 0;
      while i < size
        invariant 0 <= i <= size
        invariant v !in list[..i]
      {
        if list[i] == v {
          return;
        }
        i := i + 1;
      }
      Add(v);
    }

    /** ARRAY_remove: delete the element at idx, shifting the rest left. */
    method Remove(idx: nat)
      requires Valid() && idx < size
      modifies this, list
      ensures Valid() && list == old(list)
      ensures Contents() == old(Contents())[..idx] + old(Contents())[idx + 1..]
    {
      forall i | idx <= i < size - 1 {
        list[i] := list[i + 1];
      }
      size := size - 1;
    }

    /** ARRAY_remove_element (remove2): delete the first occurrence of o. */
    method RemoveElement(o: T)
      requires Valid() && size > 0
      modifies this, list
      ensures Valid() && list == old(list)
      ensures Contents() == RemoveFirst(old(Contents()), o)
    {
      FirstIndexSpec(list[..size], o);
      var i := 0;
      while i < size
        invariant 0 <= i <= size
        invariant o !in list[..i]
      {
        if list[i] == o {
          ghost var s := list[..size];
          FirstIndexUnique(s, o, i);
          Remove(i);
          return;
        }
        i := i + 1;
      }
      assert list[..size] == list[..i];
    }

    /** ARRAY_insert: place v at idx, shifting the elements from idx right. */
    method Insert(idx: nat, v: T)
      requires Valid() && idx <= size
      modifies this, list
      ensures Valid()
      ensures Contents() == old(Contents())[..idx] + [v] + old(Contents())[idx..]
      ensures list == old(list) || fresh(list)
    {
      if size == idx {
        Add(v);
        assert old(Contents())[idx..] == [];
      } else {
        EnsureSize(1);
        ghost var s := list[..size];
        forall i | idx < i <= size {
          list[i] := list[i - 1];
        }
        size := size + 1;
        list[idx] := v;
        ghost var t := s[..idx] + [v] + s[idx..];
        assert forall i :: 0 <= i < size ==> list[i] == t[i];
        assert list[..size] == t;
      }
    }

    /** ARRAY_index: the first position of o, or -1. */
    method Index(o: T) returns (r: int)
      requires Valid() && size > 0
      ensures r == FirstIndex(Contents(), o)
    {
      FirstIndexSpec(list[..size], o);
      var i := 0;
      while i < size
        invariant 0 <= i <= size
        invariant o !in list[..i]
      {
        if list[i] == o {
          FirstIndexUnique(list[..size], o, i);
          return i;
        }
        i := i + 1;
      }
      assert list[..size] == list[..i];
      return -1;
    }

    /** ARRAY_pop: remove and return the last element. */
    method Pop() returns (r: T)
      requires Valid() && size > 0
      modifies this
      ensures Valid() && list == old(list)
      ensures old(Contents()) == Contents() + [r]
    {
      size := size - 1;
      r := list[size];
      assert old(list[..size]) == list[..size] + [r];
    }
  }

  /** The first occurrence is the only index k with s[k] == o and o absent before k. */
  lemma FirstIndexUnique<T>(s: seq<T>, o: T, k: nat)
    requires k < |s| && s[k] == o && o !in s[..k]
    ensures FirstIndex(s, o) == k
  {
    FirstIndexSpec(s, o);
    assert o in s;
  }

  /** Adding 10 to a fresh array gives size 1 with 10 at index 0. */
  method AddToFreshArray() returns (size: nat, first: int)
    ensures size == 1 && first == 10
  {
    var a := new Array<int>.Init(0, 0);
    a.Add(10);
    assert a.Contents() == [10];
    size := a.size;
    first := a.Get(0);
  }
}
