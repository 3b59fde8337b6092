/*
 * The worklist of src/compiler/worklist.h: a LIFO list over ARRAY(T) that
 * never holds an element twice, and the apply loop that pops until the list
 * is empty. The callback is a function value: what it reports and what it
 * pushes onto the list, per element.
 */
module Worklist {
  import KArray

  /** What the callback does for one element: its result and the elements it pushes, in order. */
  datatype Work<T> = Work(modified: int, pushes: seq<T>)

  /** No element occurs twice. */
  ghost predicate Distinct<T>(s: seq<T>)
  {
    forall i, j :: 0 <= i < j < |s| ==> s[i] != s[j]
  }

  /** ARRAY_add_once on contents. */
  function AddOnce<T(==)>(s: seq<T>, v: T): (r: seq<T>)
    ensures v in r && (forall x :: x in s ==> x in r)
    ensures forall x :: x in r ==> x in s || x == v
    ensures |s| <= |r| <= |s| + 1 && r[..|s|] == s
  {
    if v in s then s else s + [v]
  }

  /** A sequence of add_once calls, in order. */
  function PushAll<T(==)>(s: seq<T>, vs: seq<T>): seq<T>
    decreases |vs|
  {
    if vs == [] then s else PushAll(AddOnce(s, vs[0]), vs[1..])
  }

  /** add_once never introduces a duplicate. */
  lemma AddOnceDistinct<T>(s: seq<T>, v: T)
    requires Distinct(s)
    ensures Distinct(AddOnce(s, v))
  {
  }

  /** Pushing a list of elements keeps the contents duplicate-free. */
  lemma {:induction false} PushAllDistinct<T>(s: seq<T>, vs: seq<T>)
    requires Distinct(s)
    ensures Distinct(PushAll(s, vs))
    decreases |vs|
  {
    if vs != [] {
      AddOnceDistinct(s, vs[0]);
      PushAllDistinct(AddOnce(s, vs[0]), vs[1..]);
    }
  }

  /** The elements after a list of pushes are the old ones and the pushed ones. */
  lemma {:induction false} PushAllMembers<T>(s: seq<T>, vs: seq<T>, x: T)
    ensures x in PushAll(s, vs) <==> x in s || x in vs
    decreases |vs|
  {
    if vs != [] {
      PushAllMembers(AddOnce(s, vs[0]), vs[1..], x);
      assert x in vs <==> x == vs[0] || x in vs[1..];
    }
  }

  /**
   * The apply loop on a list s: pop the last element, run the callback,
   * push what it pushes, and add up the results. fuel bounds the number of
   * pops; the second component says whether the list ran empty.
   */
  function Run<T(==)>(s: seq<T>, func: T -> Work<T>, fuel: nat): (int, bool)
    decreases fuel
  {
    if s == [] then (0, true)
    else if fuel == 0 then (0, false)
    else
      var v := s[|s| - 1];
      var rest := Run(PushAll(s[..|s| - 1], func(v).pushes), func, fuel - 1);
      (func(v).modified + rest.0, rest.1)
  }

  /** One pop of the apply loop, as Run unfolds it. */
  lemma RunStep<T>(s: seq<T>, func: T -> Work<T>, fuel: nat)
    requires s != [] && fuel > 0
    ensures var v := s[|s| - 1]; var rest := Run(PushAll(s[..|s| - 1], func(v).pushes), func, fuel - 1);
      Run(s, func, fuel) == (func(v).modified + rest.0, rest.1)
  {
  }

  /** The sum of the callback's results over s. */
  function Sum<T>(s: seq<T>, func: T -> Work<T>): int
  {
    if s == [] then 0 else func(s[0]).modified + Sum(s[1..], func)
  }

  lemma {:induction false} SumLast<T>(s: seq<T>, func: T -> Work<T>)
    requires s != []
    ensures Sum(s, func) == Sum(s[..|s| - 1], func) + func(s[|s| - 1]).modified
  {
    if |s| > 1 {
      assert s[1..][..|s[1..]| - 1] == s[..|s| - 1][1..];
      SumLast(s[1..], func);
    }
  }

  /**
   * A callback that pushes nothing sees every element once: apply with
   * enough fuel empties the list and returns the sum of the results.
   */
  lemma {:induction false} RunWithoutPushes<T>(s: seq<T>, func: T -> Work<T>, fuel: nat)
    requires forall v :: func(v).pushes == []
    requires fuel >= |s|
    ensures Run(s, func, fuel) == (Sum(s, func), true)
    decreases fuel
  {
    if s != [] {
      assert PushAll(s[..|s| - 1], func(s[|s| - 1]).pushes) == s[..|s| - 1];
      RunWithoutPushes(s[..|s| - 1], func, fuel - 1);
      SumLast(s, func);
    }
  }

  /** Apply on an empty list does nothing and reports 0. */
  lemma RunEmpty<T>(func: T -> Work<T>, fuel: nat)
    ensures Run([], func, fuel) == (0, true)
  {
  }

  /** WORK_LIST(T, CTX_T): the list and the context it was set up with. */
  class Worklist<T(==), C> {
    const list: KArray.Array<T>
    const context: C

    ghost predicate Valid()
      reads this, list, list.list
    {
      list.Valid() && Distinct(list.Contents())
    }

    ghost function Contents(): seq<T>
      reads this, list, list.list
      requires Valid()
    {
      list.Contents()
    }

    /** worklist_init: an empty list of capacity 1 holding the context. */
    constructor Init(context: C, zero: T)
      ensures Valid() && fresh(list) && fresh(list.list)
      ensures Contents() == [] && this.context == context
    {
      list := new KArray.Array<T>.Init(1, zero);
      this.context := context;
    }

    /** worklist_empty: whether the size is 0. */
    function Empty(): (r: bool)
      reads this, list, list.list
      requires Valid()
      ensures r <==> Contents() == []
    {
      list.size == 0
    }

    /** worklist_push: add_once, so the list stays duplicate-free. */
    method Push(v: T)
      requires Valid()
      modifies list, list.list
      ensures Valid() && Contents() == AddOnce(old(Contents()), v)
      ensures list.list == old(list.list) || fresh(list.list)
    {
      AddOnceDistinct(list.Contents(), v);
      list.AddOnce(v);
    }

    /** worklist_pop: the last element, removed (LIFO). */
    method Pop() returns (v: T)
      requires Valid() && !Empty()
      modifies list
      ensures Valid() && old(Contents()) == Contents() + [v]
      ensures list.list == old(list.list)
    {
      v := list.Pop();
      assert list.Contents() == old(Contents())[..|old(Contents())| - 1];
    }

    /** Push each element of vs in order. */
    method PushEach(vs: seq<T>)
      requires Valid()
      modifies list, list.list
      ensures Valid() && Contents() == PushAll(old(Contents()), vs)
      ensures list.list == old(list.list) || fresh(list.list)
    {
      var i := 0;
      while i < |vs|
        invariant 0 <= i <= |vs| && Valid()
        invariant PushAll(old(Contents()), vs) == PushAll(Contents(), vs[i..])
        invariant list.list == old(list.list) || fresh(list.list)
      {
        assert vs[i..][1..] == vs[i + 1..];
        Push(vs[i]);
        i := i + 1;
      }
    }
  }

  /** One turn of the apply loop: pop the last element, run func on it and push what it pushes. */
  method Turn<T(==), C>(w: Worklist<T, C>, func: T -> Work<T>) returns (r: Work<T>)
    requires w.Valid() && !w.Empty()
    modifies w.list, w.list.list
    ensures w.Valid() && (w.list.list == old(w.list.list) || fresh(w.list.list))
    ensures var s := old(w.Contents()); r == func(s[|s| - 1]) && w.Contents() == PushAll(s[..|s| - 1], r.pushes)
  {
    ghost var s := w.Contents();
    var obj := w.Pop();
    assert w.Contents() == s[..|s| - 1] && obj == s[|s| - 1];
    r := func(obj);
    w.PushEach(r.pushes);
  }

  /** What the apply loop returns from list s with fuel f once it has summed m. */
  function Outcome<T(==)>(s: seq<T>, func: T -> Work<T>, f: nat, m: int): (int, bool)
  {
    (m + Run(s, func, f).0, Run(s, func, f).1)
  }

  /** One turn moves the outcome's sum into m and leaves the outcome alone. */
  lemma OutcomeStep<T>(s: seq<T>, func: T -> Work<T>, f: nat, m: int, r: Work<T>, t: seq<T>, f': nat, m': int)
    requires s != [] && f > 0
    requires r == func(s[|s| - 1]) && t == PushAll(s[..|s| - 1], r.pushes)
    requires f' == f - 1 && m' == m + r.modified
    ensures Outcome(s, func, f, m) == Outcome(t, func, f', m')
  {
    RunStep(s, func, f);
  }

  /**
   * worklist_apply(ctx, init, func): set up a list, let init push its
   * elements, then pop and run func until the list is empty, summing what
   * func reports. At most fuel elements are popped.
   */
  method Apply<T(==), C>(ctx: C, zero: T, init: seq<T>, func: T -> Work<T>, fuel: nat) returns (modified: int, done: bool)
    ensures (modified, done) == Run(PushAll([], init), func, fuel)
  {
    var w := new Worklist<T, C>.Init(ctx, zero);
    w.PushEach(init);
    modified := 0;
    var f := fuel;
    ghost var cur := w.Contents();
    ghost var outcome := Outcome(cur, func, f, 0);
    while !w.Empty() && f > 0
      invariant w.Valid() && fresh(w.list) && fresh(w.list.list)
      invariant cur == w.Contents()
      invariant outcome == Outcome(cur, func, f, modified)
      decreases f
    {
      ghost var s, f0, m0 := cur, f, modified;
      var r := Turn(w, func);
      cur := w.Contents();
      modified := modified + r.modified;
      f := f - 1;
      OutcomeStep(s, func, f0, m0, r, cur, f, modified);
    }
    done := w.Empty();
  }

  /** Pushing twice keeps one copy, and pop returns the last element pushed. */
  method PushTwicePop() returns (v: int, empty: bool)
    ensures v == 2 && !empty
  {
    var w := new Worklist<int, bool>.Init(true, 0);
    w.Push(1);
    w.Push(2);
    w.Push(2);
    PushedOnce();
    v, empty := PopFromTwo(w);
  }

  lemma PushedOnce()
    ensures AddOnce(AddOnce(AddOnce([], 1), 2), 2) == [1, 2]
  {
    assert AddOnce([], 1) == [1];
    assert AddOnce([1], 2) == [1, 2];
  }

  /** Pop then empty on the worklist [1, 2]. */
  method PopFromTwo(w: Worklist<int, bool>) returns (v: int, empty: bool)
    requires w.Valid() && w.Contents() == [1, 2]
    modifies w.list
    ensures v == 2 && !empty
  {
    v := w.Pop();
    empty := w.Empty();
  }

  /** Apply over init pushes [1, 2, 1] with a callback that returns its element: 2 + 1, once each. */
  method ApplySums() returns (modified: int, done: bool)
    ensures modified == 3 && done
  {
    var func := (x: int) => Work(x, []);
    assert PushAll([], [1, 2, 1]) == [1, 2];
    RunWithoutPushes([1, 2], func, 5);
    modified, done := Apply(false, 0, [1, 2, 1], func, 5);
  }
}
