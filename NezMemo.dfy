/*
 * The memo table of src/libnez/memo.c: a direct-mapped array of
 * MemoEntry_t (src/memo.h) indexed by the low bits of a key built from the
 * input position and the memo point. A Node pointer is an identity number,
 * 0 standing for NULL; uintptr_t is 64 bits wide.
 */
module NezMemo {
  import opened Config
  import opened Bits
  import KArray

  const Word32: nat := 0x1_0000_0000
  const Word64: nat := 0x1_0000_0000_0000_0000
  /** MEMO_ENTRY_FAILED: UINTPTR_MAX written over the result/failed union. */
  const EntryFailed: nat := 0xffff_ffff_ffff_ffff

  /** A Node pointer by identity; 0 is NULL. */
  type NodeRef = nat

  /** MemoEntry_t; `result` is the union of the node pointer and the failed marker. */
  datatype MemoEntry = MemoEntry(hash: nat, result: NodeRef, consumed: nat, state: nat)

  datatype Option<T> = None | Some(value: T)

  predicate IsFailed(e: MemoEntry)
  {
    e.result == EntryFailed
  }

  /** The key ((uintptr_t)pos << shift) | memoId, in 64-bit arithmetic. */
  function Key(pos: nat, memoId: nat, shift: nat): (r: nat)
    requires memoId < Word32
    ensures r < Word64
  {
    Pow2Is64Bit();
    Pow2Is16And32Bit();
    assert Word32 <= Pow2(64) by {
      Pow2Add(32, 32);
    }
    OrBound((pos * Pow2(shift)) % Word64, memoId, 64);
    Or((pos * Pow2(shift)) % Word64, memoId)
  }

  /** a * p + x == b * p + y with x, y below p forces a == b and x == y. */
  lemma {:induction false} DigitsUnique(a: nat, x: nat, b: nat, y: nat, p: nat)
    requires x < p && y < p && a * p + x == b * p + y
    ensures a == b && x == y
  {
    if a < b {
      MulSplit(a, b - a, p);
    } else if b < a {
      MulSplit(b, a - b, p);
    }
  }

  /** (a + d) * p is a * p plus at least p, for d >= 1. */
  lemma MulSplit(a: nat, d: nat, p: nat)
    requires d >= 1
    ensures (a + d) * p >= a * p + p
  {
    assert (a + d) * p == a * p + d * p;
    assert d * p == p + (d - 1) * p;
  }

  /**
   * Keys do not collide while the shifted position fits in 64 bits and the
   * memo point fits below the shift: equal keys mean the same position and
   * memo point.
   */
  lemma KeyInjective(pos1: nat, id1: nat, pos2: nat, id2: nat, shift: nat)
    requires id1 < Word32 && id2 < Word32 && id1 < Pow2(shift) && id2 < Pow2(shift)
    requires pos1 * Pow2(shift) < Word64 && pos2 * Pow2(shift) < Word64
    ensures Key(pos1, id1, shift) == Key(pos2, id2, shift) <==> pos1 == pos2 && id1 == id2
  {
    KeyValue(pos1, id1, shift);
    KeyValue(pos2, id2, shift);
    if Key(pos1, id1, shift) == Key(pos2, id2, shift) {
      DigitsUnique(pos1, id1, pos2, id2, Pow2(shift));
    }
  }

  /** Without wrap-around and with memoId below the shift, the key is pos * 2^shift + memoId. */
  lemma KeyValue(pos: nat, memoId: nat, shift: nat)
    requires memoId < Word32 && memoId < Pow2(shift) && pos * Pow2(shift) < Word64
    ensures Key(pos, memoId, shift) == pos * Pow2(shift) + memoId
  {
    var hi := pos * Pow2(shift);
    assert hi % Word64 == hi;
    OrDisjoint(pos, memoId, shift);
  }

  /** memo_elastic_get's test on slot idx: the entry when hash and state both match. */
  function Lookup(es: seq<MemoEntry>, idx: nat, key: nat, state: nat): Option<MemoEntry>
    requires idx < |es|
  {
    if es[idx].hash == key && es[idx].state == state then Some(es[idx]) else None
  }

  /** A set is found by a get with the same key and state, as stored. */
  lemma SetThenLookup(es: seq<MemoEntry>, idx: nat, key: nat, result: NodeRef, consumed: nat, state: nat)
    requires idx < |es|
    ensures Lookup(es[idx := MemoEntry(key, result, consumed, state)], idx, key, state) ==
      Some(MemoEntry(key, result, consumed, state))
  {
  }

  /** After a fail, a get with the key finds the failed marker or misses on the state. */
  lemma FailThenLookup(es: seq<MemoEntry>, idx: nat, key: nat, state: nat)
    requires idx < |es|
    ensures var f := es[idx].(hash := key, result := EntryFailed);
      Lookup(es[idx := f], idx, key, state) == (if es[idx].state == state then Some(f) else None)
  {
  }

  /**
   * After a fail, a get with any other key on that slot misses: the marker
   * is never reported for the key the slot held before.
   */
  lemma FailHidesOtherKey(es: seq<MemoEntry>, idx: nat, key: nat, other: nat, state: nat)
    requires idx < |es| && other != key
    ensures Lookup(es[idx := es[idx].(hash := key, result := EntryFailed)], idx, other, state) == None
  {
  }

  /** Writing one slot leaves every lookup of another slot as it was. */
  lemma OtherSlotUnchanged(es: seq<MemoEntry>, idx: nat, e: MemoEntry, other: nat, key: nat, state: nat)
    requires idx < |es| && other < |es| && other != idx
    ensures Lookup(es[idx := e], other, key, state) == Lookup(es, other, key, state)
  {
  }

  /** struct memo: the entry array, the key shift and the index mask. */
  class Memo {
    const ary: KArray.Array<MemoEntry>
    const shift: nat
    const mask: nat

    ghost predicate Valid()
      reads ary
    {
      ary.Valid() && ary.size == mask + 1
    }

    ghost function Contents(): seq<MemoEntry>
      reads ary, ary.list
      requires Valid()
    {
      ary.Contents()
    }

    /** The slot of a key: hash & mask, always inside the table. */
    function Slot(key: nat): (idx: nat)
      ensures idx <= mask
    {
      And(key, mask)
    }

    /**
     * memo_elastic_init(w, n): w * 2^LOG2(n) zeroed entries, mask len - 1,
     * shift LOG2(n) + 1.
     */
    constructor Init(w: nat, n: nat)
      requires 1 <= w && 1 <= n && w * Pow2(Log2(n)) < Word32
      ensures Valid() && fresh(ary) && fresh(ary.list)
      ensures |Contents()| == w * Pow2(Log2(n))
      ensures forall i :: 0 <= i < |Contents()| ==> Contents()[i] == MemoEntry(0, 0, 0, 0)
      ensures mask == w * Pow2(Log2(n)) - 1 && shift == Log2(n) + 1
    {
      var len := w * Pow2(Log2(n));
      var a := new KArray.Array<MemoEntry>.Init(len, MemoEntry(0, 0, 0, 0));
      var e := MemoEntry(0, 0, 0, 0);
      var i := 0;
      while i < len
        invariant 0 <= i <= len && a.Valid() && a.size == i && fresh(a) && fresh(a.list)
        invariant forall k :: 0 <= k < i ==> a.Contents()[k] == e
      {
        a.Add(e);
        i := i + 1;
      }
      ary := a;
      mask := len - 1;
      shift := Log2(n) + 1;
    }

    /**
     * memo_elastic_set: overwrite the slot's hash, consumed, state and
     * result, and answer 1. The int state is stored as unsigned.
     */
    method Set(pos: nat, memoId: nat, result: NodeRef, consumed: nat, state: int) returns (r: int)
      requires Valid() && memoId < Word32
      modifies ary.list
      ensures Valid() && r == 1
      ensures Contents() == old(Contents())[Slot(Key(pos, memoId, shift)) :=
        MemoEntry(Key(pos, memoId, shift), result, consumed, state % Word32)]
    {
      var hash := Key(pos, memoId, shift);
      var idx := Slot(hash);
      ary.Set(idx, MemoEntry(hash, result, consumed, state % Word32));
      return 1;
    }

    /** memo_elastic_fail: set the slot's hash and the failed marker, answer 0. */
    method Fail(pos: nat, memoId: nat) returns (r: int)
      requires Valid() && memoId < Word32
      modifies ary.list
      ensures Valid() && r == 0
      ensures var idx := Slot(Key(pos, memoId, shift));
        Contents() == old(Contents())[idx := old(Contents())[idx].(hash := Key(pos, memoId, shift), result := EntryFailed)]
    {
      var hash := Key(pos, memoId, shift);
      var idx := Slot(hash);
      var prev := ary.Get(idx);
      ary.Set(idx, prev.(hash := hash, result := EntryFailed));
      return 0;
    }

    /** memo_elastic_get: the slot when its hash and state match, else NULL. */
    method Get(pos: nat, memoId: nat, state: nat) returns (r: Option<MemoEntry>)
      requires Valid() && memoId < Word32
      ensures r == Lookup(Contents(), Slot(Key(pos, memoId, shift)), Key(pos, memoId, shift), state)
    {
      var hash := Key(pos, memoId, shift);
      var idx := Slot(hash);
      var e := ary.Get(idx);
      if e.hash == hash {
        if e.state == state {
          return Some(e);
        }
      }
      return None;
    }
  }

  /** The null variant's memo_null_set: nothing is stored, the answer is 0. */
  function NullSet(pos: nat, memoId: nat, e: MemoEntry): (r: int)
    ensures r == 0
  {
    0
  }

  /** memo_null_fail: nothing is stored, the answer is 0. */
  function NullFail(pos: nat, memoId: nat): (r: int)
    ensures r == 0
  {
    0
  }

  /** memo_null_get: every lookup misses. */
  function NullGet(pos: nat, memoId: nat, state: nat): (r: Option<MemoEntry>)
    ensures r.None?
  {
    None
  }

  /**
   * The test of test/test_memo.c: memo_init(32, 4), set(0, 0, NULL, 0, 0),
   * then get(0, 0, 0) finds an entry whose result is NULL.
   */
  method SetThenGet() returns (found: bool, result: NodeRef)
    ensures found && result == 0
  {
    assert Pow2(Log2(4)) == 4 by {
      assert Log2(4) == 2;
    }
    var m := new Memo.Init(MemoDefaultWindow, 4);
    var _ := m.Set(0, 0, 0, 0, 0);
    var e := m.Get(0, 0, 0);
    found := e.Some?;
    result := e.value.result;
  }

  /** A fail on a key already set leaves get finding that key, now marked failed. */
  method SetFailGet(pos: nat, memoId: nat, node: NodeRef, state: nat) returns (found: bool, failed: bool)
    requires memoId < Word32 && state < 256
    ensures found && failed
  {
    assert Pow2(Log2(4)) == 4 by {
      assert Log2(4) == 2;
    }
    var m := new Memo.Init(MemoDefaultWindow, 4);
    found, failed := SetFailGetOn(m, pos, memoId, node, state);
  }

  /** The same on any table: set, then fail, then get, all on one key. */
  method SetFailGetOn(m: Memo, pos: nat, memoId: nat, node: NodeRef, state: nat) returns (found: bool, failed: bool)
    requires m.Valid() && memoId < Word32 && state < 256
    modifies m.ary.list
    ensures found && failed
  {
    ghost var key := Key(pos, memoId, m.shift);
    ghost var idx := m.Slot(key);
    var _ := m.Set(pos, memoId, node, 1, state);
    ghost var stored := m.Contents();
    assert stored[idx] == MemoEntry(key, node, 1, state);
    var _ := m.Fail(pos, memoId);
    FailThenLookup(stored, idx, key, state);
    var e := m.Get(pos, memoId, state);
    found := e.Some?;
    failed := e.Some? && IsFailed(e.value);
  }

  /**
   * With the hash updated by fail, a colliding fail evicts the older key
   * instead of marking it: in a table of 2 entries with shift 2, (pos 0,
   * id 0) and (pos 1, id 0) have keys 0 and 4, both on slot 0; after
   * set(0, 0) and fail(1, 0), get(0, 0) misses.
   */
  method CollidingFailMisses(node: NodeRef) returns (found: bool)
    ensures !found
  {
    assert Pow2(Log2(2)) == 2 by {
      assert Log2(2) == 1;
    }
    var m := new Memo.Init(1, 2);
    KeyValue(0, 0, 2);
    KeyValue(1, 0, 2);
    assert And(4, 1) == 0 && And(0, 1) == 0;
    var _ := m.Set(0, 0, node, 1, 0);
    var _ := m.Fail(1, 0);
    var e := m.Get(0, 0, 0);
    found := e.Some?;
  }
}
