/*
 * The older memo table of src/memo.c: w * n + 1 entries initialised with
 * hash UINTPTR_MAX, the slot chosen by the key modulo the table size. It
 * shares MemoEntry_t and the key with NezMemo.
 */
module MemoLegacy {
  import opened Config
  import KArray
  import opened NezMemo

  /** struct memo of src/memo.c: the entry array and the key shift. */
  class Memo {
    const ary: KArray.Array<MemoEntry>
    const shift: nat

    ghost predicate Valid()
      reads ary
    {
      ary.Valid() && ary.size >= 1
    }

    ghost function Contents(): seq<MemoEntry>
      reads ary, ary.list
      requires Valid()
    {
      ary.Contents()
    }

    /** The slot of a key: hash % ARRAY_size, always inside the table. */
    function Slot(key: nat): (idx: nat)
      reads ary
      requires Valid()
      ensures idx < ary.size
    {
      key % ary.size
    }

    /**
     * memo_elastic_init(w, n): w * n + 1 entries with hash UINTPTR_MAX and
     * every other field 0; shift LOG2(n) + 1. moz_runtime_init(0) passes
     * n = 0, which gives one entry and shift 33.
     */
    constructor Init(w: nat, n: nat)
      requires w * n + 1 < Word32
      ensures Valid() && fresh(ary) && fresh(ary.list)
      ensures |Contents()| == w * n + 1
      ensures forall i :: 0 <= i < |Contents()| ==> Contents()[i] == MemoEntry(EntryFailed, 0, 0, 0)
      ensures shift == Log2(n) + 1
      ensures n == 0 ==> |Contents()| == 1 && shift == 33
    {
      var len := w * n + 1;
      var a := new KArray.Array<MemoEntry>.Init(len, MemoEntry(0, 0, 0, 0));
      var e := MemoEntry(EntryFailed, 0, 0, 0);
      var i := 0;
      while i < len
        invariant 0 <= i <= len && a.Valid() && a.size == i && fresh(a) && fresh(a.list)
        invariant forall k :: 0 <= k < i ==> a.Contents()[k] == e
      {
        a.Add(e);
        i := i + 1;
      }
      ary := a;
      shift := Log2(n) + 1;
    }

    /** memo_elastic_set: overwrite the slot's four fields and answer 1. */
    method Set(pos: nat, memoId: nat, result: NodeRef, consumed: nat, state: int) returns (r: int)
      requires Valid() && memoId < Word32
      modifies ary.list
      ensures Valid() && r == 1
      ensures Contents() == old(Contents())[Slot(Key(pos, memoId, shift)) :=
        MemoEntry(Key(pos, memoId, shift), result, consumed, state % Word32)]
    {
      var hash := Key(pos, memoId, shift);
      var idx := Slot(hash);
      ary.Set(idx, MemoEntry(hash, result, consumed, state % Word32));
      return 1;
    }

    /**
     * memo_elastic_fail as written: the failed marker replaces the result,
     * but the slot keeps the hash of whatever key it held.
     */
    method Fail(pos: nat, memoId: nat) returns (r: int)
      requires Valid() && memoId < Word32
      modifies ary.list
      ensures Valid() && r == 0
      ensures var idx := Slot(Key(pos, memoId, shift));
        Contents() == old(Contents())[idx := old(Contents())[idx].(result := EntryFailed)]
    {
      var hash := Key(pos, memoId, shift);
      var idx := Slot(hash);
      var prev := ary.Get(idx);
      ary.Set(idx, prev.(result := EntryFailed));
      return 0;
    }

    /** memo_elastic_get: the slot when its hash and state match, else NULL. */
    method Get(pos: nat, memoId: nat, state: nat) returns (r: Option<MemoEntry>)
      requires Valid() && memoId < Word32
      ensures r == Lookup(Contents(), Slot(Key(pos, memoId, shift)), Key(pos, memoId, shift), state)
    {
      var hash := Key(pos, memoId, shift);
      var idx := Slot(hash);
      var e := ary.Get(idx);
      if e.hash == hash {
        if e.state == state {
          return Some(e);
        }
      }
      return None;
    }
  }

  /**
   * A fail for one key turns another key's stored success into a failure:
   * in a table of 3 entries with shift 2, (pos 0, id 0) and (pos 3, id 0)
   * have keys 0 and 12, both on slot 0; after set(0, 0) and fail(3, 0),
   * get(0, 0) reports the marker.
   */
  method CollidingFailHits(node: NodeRef) returns (found: bool, failed: bool)
    ensures found && failed
  {
    assert Log2(2) == 1;
    var m := new Memo.Init(1, 2);
    KeyValue(0, 0, 2);
    KeyValue(3, 0, 2);
    var _ := m.Set(0, 0, node, 1, 0);
    var _ := m.Fail(3, 0);
    var e := m.Get(0, 0, 0);
    found := e.Some?;
    failed := e.Some? && IsFailed(e.value);
  }

  /**
   * moz_runtime_init(0), as src/compiler/module.c:82 calls it: memo_init
   * with the default window and n = 0 builds a table of one entry whose
   * key shift is 33.
   */
  method InitForCompiler() returns (len: nat, shift: nat)
    ensures len == 1 && shift == 33
  {
    var m := new Memo.Init(MemoDefaultWindow, 0);
    len := m.ary.size;
    shift := m.shift;
  }
}
