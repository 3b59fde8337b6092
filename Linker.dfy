/*
 * The label linker of src/compiler/linker.c. While the encoder writes, each
 * 4-byte label slot is recorded with the id of the instruction it must reach
 * and filled with the id of the instruction that holds it; resolve then
 * overwrites every slot with the distance from the end of that instruction
 * to the start of the target, as a 32-bit value in host (little-endian)
 * order.
 */
module Linker {
  import opened Config
  import opened Buffer
  import KArray

  const Word32: nat := 0x1_0000_0000

  /** Label slots are 4 bytes each, in increasing order, and never overlap. */
  ghost predicate SlotsApart(labels: seq<nat>)
  {
    forall i, j :: 0 <= i < j < |labels| ==> labels[i] + 4 <= labels[j]
  }

  /** The 32-bit little-endian value stored at off. */
  function SlotValue(code: seq<Byte>, off: nat): (r: nat)
    requires off + 4 <= |code|
    ensures r < Word32
  {
    FromLittleEndianRoundTrip(code[off..off + 4]);
    ByteWidths();
    FromLittleEndian(code[off..off + 4])
  }

  /** code with the 4 bytes at off replaced. */
  function Splice(code: seq<Byte>, off: nat, bytes: seq<Byte>): (r: seq<Byte>)
    requires off + 4 <= |code| && |bytes| == 4
    ensures |r| == |code| && r[off..off + 4] == bytes
    ensures forall p :: 0 <= p < |code| && (p < off || off + 4 <= p) ==> r[p] == code[p]
  {
    code[..off] + bytes + code[off + 4..]
  }

  /** callee_addr_head - caller_addr_tail, cut to mozaddr_t. */
  function Distance(head: seq<nat>, tail: seq<nat>, targetId: nat, callerId: nat): (r: nat)
    requires targetId < |head| && callerId < |tail|
    ensures r < Word32
  {
    (head[targetId] - tail[callerId]) % Word32
  }

  /** Each label may be resolved: its slot is inside code, its target and its caller are known ids. */
  ghost predicate Resolvable(code: seq<Byte>, labels: seq<nat>, targets: seq<nat>, head: seq<nat>, tail: seq<nat>)
  {
    |labels| == |targets| &&
    forall i :: 0 <= i < |labels| ==>
      labels[i] + 4 <= |code| && targets[i] < |head| && SlotValue(code, labels[i]) < |tail|
  }

  /**
   * The first n labels resolved: slot i gets the distance from the tail of
   * the caller whose id code held there to the head of targets[i].
   */
  ghost function Resolved(code: seq<Byte>, labels: seq<nat>, targets: seq<nat>, head: seq<nat>, tail: seq<nat>, n: nat): (r: seq<Byte>)
    requires Resolvable(code, labels, targets, head, tail) && n <= |labels|
    ensures |r| == |code|
  {
    if n == 0 then code
    else
      var i := n - 1;
      Splice(Resolved(code, labels, targets, head, tail, i), labels[i],
        LittleEndian(Distance(head, tail, targets[i], SlotValue(code, labels[i])), 4))
  }

  /** A byte outside every slot is a byte of code. */
  ghost predicate OutsideSlots(labels: seq<nat>, n: nat, p: nat)
  {
    forall i :: 0 <= i < n && i < |labels| ==> p < labels[i] || labels[i] + 4 <= p
  }

  /**
   * Resolving the first n labels leaves every later slot as it was, and
   * every byte outside the first n slots.
   */
  lemma {:induction false} ResolvedKeeps(code: seq<Byte>, labels: seq<nat>, targets: seq<nat>, head: seq<nat>, tail: seq<nat>, n: nat)
    requires Resolvable(code, labels, targets, head, tail) && SlotsApart(labels) && n <= |labels|
    ensures forall p :: 0 <= p < |code| && OutsideSlots(labels, n, p) ==> Resolved(code, labels, targets, head, tail, n)[p] == code[p]
    ensures forall j :: n <= j < |labels| ==>
      Resolved(code, labels, targets, head, tail, n)[labels[j]..labels[j] + 4] == code[labels[j]..labels[j] + 4]
  {
    if n > 0 {
      ResolvedKeeps(code, labels, targets, head, tail, n - 1);
      var prev := Resolved(code, labels, targets, head, tail, n - 1);
      var cur := Resolved(code, labels, targets, head, tail, n);
      forall p | 0 <= p < |code| && OutsideSlots(labels, n, p)
        ensures cur[p] == code[p]
      {
        assert OutsideSlots(labels, n - 1, p);
      }
      forall j | n <= j < |labels|
        ensures cur[labels[j]..labels[j] + 4] == code[labels[j]..labels[j] + 4]
      {
        forall p | labels[j] <= p < labels[j] + 4
          ensures cur[p] == prev[p]
        {
        }
        assert cur[labels[j]..labels[j] + 4] == prev[labels[j]..labels[j] + 4];
      }
    }
  }

  /**
   * What resolve promises: every label slot holds the distance from its
   * caller's tail to its target's head, and no other byte changes.
   */
  lemma {:induction false} ResolvedSlots(code: seq<Byte>, labels: seq<nat>, targets: seq<nat>, head: seq<nat>, tail: seq<nat>)
    requires Resolvable(code, labels, targets, head, tail) && SlotsApart(labels)
    ensures var r := Resolved(code, labels, targets, head, tail, |labels|);
      forall i :: 0 <= i < |labels| ==>
        SlotValue(r, labels[i]) == Distance(head, tail, targets[i], SlotValue(code, labels[i]))
    ensures var r := Resolved(code, labels, targets, head, tail, |labels|);
      forall p :: 0 <= p < |code| && OutsideSlots(labels, |labels|, p) ==> r[p] == code[p]
  {
    var n := |labels|;
    var r := Resolved(code, labels, targets, head, tail, n);
    ResolvedKeeps(code, labels, targets, head, tail, n);
    forall i | 0 <= i < n
      ensures SlotValue(r, labels[i]) == Distance(head, tail, targets[i], SlotValue(code, labels[i]))
    {
      ResolvedSlot(code, labels, targets, head, tail, i, n);
    }
  }

  /** Slot i keeps the value it was given when it was resolved. */
  lemma {:induction false} ResolvedSlot(code: seq<Byte>, labels: seq<nat>, targets: seq<nat>, head: seq<nat>, tail: seq<nat>, i: nat, n: nat)
    requires Resolvable(code, labels, targets, head, tail) && SlotsApart(labels) && i < n <= |labels|
    ensures SlotValue(Resolved(code, labels, targets, head, tail, n), labels[i]) ==
      Distance(head, tail, targets[i], SlotValue(code, labels[i]))
    decreases n
  {
    if n == i + 1 {
      ResolvedLast(code, labels, targets, head, tail, i);
    } else {
      ResolvedSlot(code, labels, targets, head, tail, i, n - 1);
      ResolvedLater(code, labels, targets, head, tail, i, n);
    }
  }

  /** Resolving label i stores its distance in its slot. */
  lemma ResolvedLast(code: seq<Byte>, labels: seq<nat>, targets: seq<nat>, head: seq<nat>, tail: seq<nat>, i: nat)
    requires Resolvable(code, labels, targets, head, tail) && i < |labels|
    ensures SlotValue(Resolved(code, labels, targets, head, tail, i + 1), labels[i]) ==
      Distance(head, tail, targets[i], SlotValue(code, labels[i]))
  {
    var d := Distance(head, tail, targets[i], SlotValue(code, labels[i]));
    ByteWidths();
    LittleEndianRoundTrip(d, 4);
  }

  /** Resolving a later label leaves the slot of label i alone. */
  lemma ResolvedLater(code: seq<Byte>, labels: seq<nat>, targets: seq<nat>, head: seq<nat>, tail: seq<nat>, i: nat, n: nat)
    requires Resolvable(code, labels, targets, head, tail) && SlotsApart(labels) && i + 1 < n <= |labels|
    ensures SlotValue(Resolved(code, labels, targets, head, tail, n), labels[i]) ==
      SlotValue(Resolved(code, labels, targets, head, tail, n - 1), labels[i])
  {
    var prev := Resolved(code, labels, targets, head, tail, n - 1);
    var cur := Resolved(code, labels, targets, head, tail, n);
    assert cur[labels[i]..labels[i] + 4] == prev[labels[i]..labels[i] + 4] by {
      forall p | labels[i] <= p < labels[i] + 4
        ensures cur[p] == prev[p]
      {
      }
    }
  }

  /** Resolving label i reads the caller id from the slot as the first i labels left it. */
  lemma ResolveStep(code: seq<Byte>, labels: seq<nat>, targets: seq<nat>, head: seq<nat>, tail: seq<nat>, i: nat)
    requires Resolvable(code, labels, targets, head, tail) && SlotsApart(labels) && i < |labels|
    ensures var cur := Resolved(code, labels, targets, head, tail, i);
      SlotValue(cur, labels[i]) == SlotValue(code, labels[i]) &&
      Resolved(code, labels, targets, head, tail, i + 1) ==
        Splice(cur, labels[i], LittleEndian(Distance(head, tail, targets[i], SlotValue(cur, labels[i])), 4))
  {
    ResolvedKeeps(code, labels, targets, head, tail, i);
  }

  /** A slot added at or past the end of every earlier slot keeps the slots apart. */
  lemma SlotsApartAppend(labels: seq<nat>, x: nat)
    requires SlotsApart(labels) && forall l :: l in labels ==> l + 4 <= x
    ensures SlotsApart(labels + [x])
  {
    forall i, j | 0 <= i < j < |labels| + 1
      ensures (labels + [x])[i] + 4 <= (labels + [x])[j]
    {
      assert labels[i] in labels;
    }
  }

  /** mozlinker_t: the address tables and the recorded labels with their targets. */
  class Linker {
    const addressHead: array<nat>
    const addressTail: array<nat>
    const addressSize: nat
    const labels: KArray.Array<nat>
    const targets: KArray.Array<nat>

    ghost predicate Valid()
      reads this, labels, labels.list, targets, targets.list
    {
      labels.Valid() && targets.Valid() && labels != targets && labels.list != targets.list &&
      labels.size == targets.size && SlotsApart(labels.Contents())
    }

    /** The writer's buffer shares no object with the label and target arrays. */
    ghost predicate ApartFrom(w: Writer)
      reads this, labels, targets, w, w.buf
    {
      w.buf as object != labels && w.buf as object != targets &&
      w.buf.list as object != labels.list && w.buf.list as object != targets.list
    }

    ghost function Labels(): seq<nat>
      reads this, labels, labels.list
      requires labels.Valid()
    {
      labels.Contents()
    }

    ghost function Targets(): seq<nat>
      reads this, targets, targets.list
      requires targets.Valid()
    {
      targets.Contents()
    }

    /** mozlinker_init: keep the address tables, start with no labels and no targets. */
    constructor Init(addressHead: array<nat>, addressTail: array<nat>, addressSize: nat)
      ensures Valid() && fresh(labels) && fresh(labels.list) && fresh(targets) && fresh(targets.list)
      ensures Labels() == [] && Targets() == []
      ensures this.addressHead == addressHead && this.addressTail == addressTail && this.addressSize == addressSize
    {
      this.addressHead := addressHead;
      this.addressTail := addressTail;
      this.addressSize := addressSize;
      labels := new KArray.Array<nat>.Init(1, 0);
      targets := new KArray.Array<nat>.Init(1, 0);
    }

    /**
     * mozlinker_add_label(W, target, calleeId): record the writer length and
     * the id of the target block's first instruction, then write calleeId
     * into the new 4-byte slot. The target block is given by that id.
     */
    method AddLabel(w: Writer, targetHead: nat, calleeId: nat)
      requires Valid() && w.Valid() && calleeId < Word32
      requires forall l :: l in Labels() ==> l + 4 <= w.Length()
      requires ApartFrom(w)
      modifies labels, labels.list, targets, targets.list, w.buf, w.buf.list
      ensures Valid() && w.Valid()
      ensures Labels() == old(Labels()) + [old(w.Length())] && Targets() == old(Targets()) + [targetHead]
      ensures w.Contents() == old(w.Contents()) + LittleEndian(calleeId, 4)
      ensures forall l :: l in Labels() ==> l + 4 <= w.Length()
      ensures labels.list == old(labels.list) || fresh(labels.list)
      ensures targets.list == old(targets.list) || fresh(targets.list)
      ensures w.buf.list == old(w.buf.list) || fresh(w.buf.list)
      ensures ApartFrom(w)
    {
      var at := w.Length();
      SlotsApartAppend(Labels(), at);
      labels.Add(at);
      targets.Add(targetHead);
      w.Write32(calleeId);
    }

    /**
     * mozlinker_resolve(code): patch every label slot of code, in the order
     * the labels were added, reading the caller id out of the slot itself.
     */
    method Resolve(code: array<Byte>)
      requires Valid() && addressHead.Length == addressSize && addressTail.Length == addressSize
      requires Resolvable(code[..], Labels(), Targets(), addressHead[..], addressTail[..])
      modifies code
      ensures code[..] == Resolved(old(code[..]), Labels(), Targets(), addressHead[..], addressTail[..], |Labels()|)
    {
      ghost var orig := code[..];
      ghost var ls := Labels();
      ghost var ts := Targets();
      ghost var head := addressHead[..];
      ghost var tail := addressTail[..];
      var i := 0;
      while i < labels.size
        invariant 0 <= i <= labels.size
        invariant Valid() && Labels() == ls && Targets() == ts
        invariant addressHead[..] == head && addressTail[..] == tail
        invariant code[..] == Resolved(orig, ls, ts, head, tail, i)
      {
        ResolveAt(code, orig, i);
        i := i + 1;
      }
    }

    /** One turn of the resolve loop: patch label i. */
    method ResolveAt(code: array<Byte>, ghost orig: seq<Byte>, i: nat)
      requires Valid() && addressHead.Length == addressSize && addressTail.Length == addressSize
      requires Resolvable(orig, Labels(), Targets(), addressHead[..], addressTail[..]) && i < labels.size
      requires code[..] == Resolved(orig, Labels(), Targets(), addressHead[..], addressTail[..], i)
      modifies code
      ensures code[..] == Resolved(orig, Labels(), Targets(), addressHead[..], addressTail[..], i + 1)
    {
      ghost var ls := Labels();
      ghost var ts := Targets();
      ghost var head := addressHead[..];
      ghost var tail := addressTail[..];
      ghost var cur := code[..];
      ResolveStep(orig, ls, ts, head, tail, i);
      var labelOffset := labels.Get(i);
      var targetId := targets.Get(i);
      assert labelOffset == ls[i] && targetId == ts[i];
      var callerId := SlotValue(code[..], labelOffset);
      assert callerId < |tail| && targetId < |head|;
      var bytes := LittleEndian((addressHead[targetId] - addressTail[callerId]) % Word32, 4);
      assert bytes == LittleEndian(Distance(head, tail, ts[i], SlotValue(cur, ls[i])), 4);
      Store(code, labelOffset, bytes);
      assert Labels() == ls && Targets() == ts && addressHead[..] == head && addressTail[..] == tail;
      assert code[..] == Resolved(orig, ls, ts, head, tail, i + 1);
    }
  }

  /** Overwrite the 4 bytes of code at off. */
  method Store(code: array<Byte>, off: nat, bytes: seq<Byte>)
    requires off + 4 <= code.Length && |bytes| == 4
    modifies code
    ensures code[..] == Splice(old(code[..]), off, bytes)
  {
    code[off], code[off + 1], code[off + 2], code[off + 3] := bytes[0], bytes[1], bytes[2], bytes[3];
    assert code[..] == old(code[..])[..off] + bytes + old(code[..])[off + 4..];
  }
}
