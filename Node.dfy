/*
 * The parse-tree node of src/node.c and src/node/node.h. A node keeps up
 * to MOZVM_SMALL_ARRAY_LIMIT (2) children inline and moves them to a
 * growable array on the third; the inline count and the array's size share
 * one field. Reference counting (NODE_GC_*) and the node allocator are not
 * part of this model.
 */
module Node {
  import opened Config
  import KArray

  /** NODE_LABEL_UNDEF. */
  const LabelUndef: int := -1

  /** s padded with NULL children up to length k. */
  function Padded(s: seq<Node?>, k: nat): (r: seq<Node?>)
    ensures |r| == if |s| < k then k else |s|
    ensures r[..|s|] == s
    ensures forall i :: |s| <= i < |r| ==> r[i] == null
  {
    if |s| < k then s + seq(k - |s|, _ => null) else s
  }

  class Node {
    /** The tag, the matched text and the replacement value, by identity (0 is NULL). */
    var tag: nat
    var pos: nat
    var value: nat
    var len: nat
    var labelId: int
    /** entry.raw.size, at the offset of entry.array.size. */
    var size: nat
    /** entry.raw.ary, the inline children. */
    const raw: array<Node?>
    /** entry.array, in use while size > 2. */
    var entries: KArray.Array?<Node?>

    /** The objects holding this node's children. */
    ghost function Store(): set<object>
      reads this, entries
    {
      if entries != null then ({raw} + {entries as object} + {entries.list}) else {raw}
    }

    ghost predicate Valid()
      reads this, entries
    {
      raw.Length == SmallArrayLimit &&
      (size > SmallArrayLimit ==> entries != null && entries.Valid() && entries.size == size && entries.list != raw)
    }

    /** The children, inline or in the array. */
    ghost function Children(): seq<Node?>
      reads this, raw, entries, if entries != null then {entries.list} else {}
      requires Valid()
    {
      if size > SmallArrayLimit then entries.Contents() else raw[..size]
    }

    /** Node_length: the shared size field. */
    function Length(): (r: nat)
      reads this, raw, entries, if entries != null then {entries.list} else {}
      requires Valid()
      ensures r == |Children()|
    {
      size
    }

    /**
     * Node_new: elm_size NULL children, inline when at most 2, else in an
     * array filled with NULL. The label is left as the allocator leaves it.
     */
    constructor New(tag: nat, str: nat, len: nat, elmSize: nat, value: nat)
      ensures Valid() && fresh(Store())
      ensures Children() == seq(elmSize, _ => null)
      ensures this.tag == tag && pos == str && this.len == len && this.value == value
    {
      this.tag := tag;
      pos := str;
      this.len := len;
      this.value := value;
      labelId := LabelUndef;
      size := elmSize;
      raw := new Node?[SmallArrayLimit](_ => null);
      if elmSize > SmallArrayLimit {
        var a := new KArray.Array<Node?>.Init(elmSize, null);
        var i := 0;
        while i < elmSize
          invariant 0 <= i <= elmSize && a.Valid() && a.size == i && fresh(a) && fresh(a.list)
          invariant forall k :: 0 <= k < i ==> a.Contents()[k] == null
        {
          a.Add(null);
          i := i + 1;
        }
        entries := a;
      } else {
        entries := null;
      }
      new;
      assert Children() == seq(elmSize, _ => null);
    }

    /** Node_get: the child at index, NULL for any index past the end. */
    function Get(index: nat): (r: Node?)
      reads this, raw, entries, if entries != null then {entries.list} else {}
      requires Valid()
      ensures index < |Children()| ==> r == Children()[index]
      ensures index >= |Children()| ==> r == null
    {
      if index < size then
        if size > SmallArrayLimit then entries.Get(index) else raw[index]
      else null
    }

    /**
     * Node_append: add n as the last child. At length 2 the two inline
     * children and n move to a new array of capacity 3.
     */
    method Append(n: Node?)
      requires Valid()
      modifies this, Store()
      ensures Valid() && Children() == old(Children()) + [n]
      ensures forall o :: o in Store() ==> o in old(Store()) || fresh(o)
      ensures tag == old(tag) && pos == old(pos) && len == old(len) && value == old(value) && labelId == old(labelId)
    {
      var len := size;
      if len > SmallArrayLimit {
        ghost var before := entries.Contents();
        entries.EnsureSize(1);
        entries.Add(n);
        assert entries.Contents() == before + [n];
        size := size + 1;
      } else if len == 2 {
        var e0 := raw[0];
        var e1 := raw[1];
        var a := Spill(e0, e1, n);
        assert old(Children()) == [e0, e1];
        entries := a;
        size := 3;
      } else if len == 1 {
        size := size + 1;
        raw[1] := n;
        assert Children() == old(Children()) + [n];
      } else {
        size := size + 1;
        raw[0] := n;
      }
    }

    /** The padding loop of Node_set: NULL children are appended until there are at least k. */
    method PadTo(k: nat)
      requires Valid()
      modifies this, Store()
      ensures Valid() && Children() == Padded(old(Children()), k)
      ensures forall o :: o in Store() ==> o in old(Store()) || fresh(o)
      ensures tag == old(tag) && pos == old(pos) && len == old(len) && value == old(value) && labelId == old(labelId)
    {
      ghost var before := Children();
      while k > size
        invariant Valid()
        invariant forall o :: o in Store() ==> o in old(Store()) || fresh(o)
        invariant |before| <= |Children()| && Children() == Padded(before, |Children()|)
        invariant |Children()| <= k || Children() == before
        invariant tag == old(tag) && pos == old(pos) && len == old(len) && value == old(value) && labelId == old(labelId)
        decreases k - size
      {
        Append(null);
      }
    }

    /**
     * Node_set: the label goes to n; NULL children are appended until index
     * is in range, then child index becomes n and every other child stays.
     */
    method Set(index: nat, labelId: int, n: Node)
      requires Valid() && n != this && 0 <= labelId < 0x1_0000
      modifies this, Store(), n
      ensures Valid() && Children() == Padded(old(Children()), index + 1)[index := n]
      ensures n.labelId == labelId
      ensures forall o :: o in Store() ==> o in old(Store()) || fresh(o)
      ensures tag == old(tag) && pos == old(pos) && len == old(len) && value == old(value)
    {
      n.labelId := labelId;
      PadTo(index + 1);
      ghost var padded := Children();
      if size > SmallArrayLimit {
        entries.Set(index, n);
      } else {
        raw[index] := n;
        assert Children() == padded[index := n];
      }
    }
  }

  /** The array of capacity 3 that Node_append moves two inline children and a third into. */
  method Spill(e0: Node?, e1: Node?, n: Node?) returns (a: KArray.Array<Node?>)
    ensures fresh(a) && fresh(a.list) && a.Valid() && a.size == 3 && a.Contents() == [e0, e1, n]
  {
    a := new KArray.Array<Node?>.Init(3, null);
    a.Add(e0);
    a.Add(e1);
    a.Add(n);
  }

  /** Appending to a NULL-filled new node, across the switch to the array, keeps every child in order. */
  method AppendThree(a: Node, b: Node, c: Node) returns (o: Node)
    ensures o.Valid() && o.Children() == [a, b, c]
  {
    o := new Node.New(0, 0, 0, 0, 0);
    o.Append(a);
    o.Append(b);
    o.Append(c);
  }

  /** Node_set past the end pads with NULL; reading past the end gives NULL. */
  method SetPastEnd() returns (o: Node, n: Node, first: Node?, third: Node?, fourth: Node?)
    ensures o.Valid() && o.Length() == 3 && first == null && third == n && fourth == null && n.labelId == 5
  {
    o := new Node.New(0, 0, 0, 1, 0);
    n := new Node.New(0, 0, 0, 0, 0);
    o.Set(2, 5, n);
    first := o.Get(0);
    third := o.Get(2);
    fourth := o.Get(3);
  }
}
