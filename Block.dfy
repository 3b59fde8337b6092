/*
 * The basic blocks of src/compiler/block.c: a block has an id drawn from a
 * global counter, a set of type flags, its instructions in order and its
 * predecessor and successor blocks, each in an ARRAY. Instructions are the
 * IR objects of src/compiler/ir.h, of which only the id and the parent
 * block matter here.
 */
module Block {
  import opened Config
  import opened Bits
  import KArray
  import Worklist

  /** enum block_type, as the 32-bit word of an int enum. */
  const BlockDefault: nat := 1
  const BlockEntry: nat := 2
  const BlockExit: nat := 4
  const BlockFail: nat := 8
  const BlockHandler: nat := 16
  const BlockLoopHead: nat := 32
  /** BLOCK_DELETED = -1: every one of the 32 bits. */
  const BlockDeleted: nat := 0xFFFF_FFFF
  const Word32: nat := 0x1_0000_0000

  /** The fields of an IR that blocks read or write. */
  class Inst {
    const id: nat
    var parent: Block?

    constructor New(id: nat)
      ensures this.id == id && parent == null
    {
      this.id := id;
      parent := null;
    }
  }

  /** static unsigned max_block_id. */
  class BlockIds {
    var maxBlockId: nat

    constructor Init()
      ensures maxBlockId == 0
    {
      maxBlockId := 0;
    }
  }

  /** (type & t) == t: every bit of t is set in type. */
  predicate HasAll(kind: nat, t: nat)
  {
    And(kind, t) == t
  }

  class Block {
    const id: nat
    var kind: nat
    const insts: KArray.Array<Inst?>
    const preds: KArray.Array<Block?>
    const succs: KArray.Array<Block?>

    ghost predicate Valid()
      reads this, insts, preds, succs
    {
      insts.Valid() && preds.Valid() && succs.Valid() && kind < Word32 &&
      preds != succs && preds.list != succs.list
    }

    ghost function Insts(): seq<Inst?>
      reads this, insts, insts.list
      requires insts.Valid()
    {
      insts.Contents()
    }

    ghost function Preds(): seq<Block?>
      reads this, preds, preds.list
      requires preds.Valid()
    {
      preds.Contents()
    }

    ghost function Succs(): seq<Block?>
      reads this, succs, succs.list
      requires succs.Valid()
    {
      succs.Contents()
    }

    /**
     * block_new: the next id from the counter, which then moves on (wrapping
     * as an unsigned does), the type bits ORed into the zeroed field, and
     * three empty arrays of capacity 0.
     */
    constructor New(ids: BlockIds, t: nat)
      requires ids.maxBlockId < Word32 && t < Word32
      modifies ids
      ensures Valid() && fresh(insts) && fresh(preds) && fresh(succs)
      ensures fresh(insts.list) && fresh(preds.list) && fresh(succs.list)
      ensures id == old(ids.maxBlockId) && ids.maxBlockId == (old(ids.maxBlockId) + 1) % Word32
      ensures kind == t
      ensures Insts() == [] && Preds() == [] && Succs() == []
    {
      id := ids.maxBlockId;
      kind := 0;
      insts := new KArray.Array<Inst?>.Init(0, null);
      preds := new KArray.Array<Block?>.Init(0, null);
      succs := new KArray.Array<Block?>.Init(0, null);
      new;
      ids.maxBlockId := (ids.maxBlockId + 1) % Word32;
      ZeroOr(t);
      SetType(t);
    }

    /** block_set_type: ORs the bits of t into the type. */
    method SetType(t: nat)
      requires Valid() && t < Word32
      modifies this
      ensures Valid() && kind == Or(old(kind), t)
    {
      Pow2Is16And32Bit();
      OrBound(kind, t, 32);
      kind := Or(kind, t);
    }

    /** block_is: whether every bit of t is set. */
    function Is(t: nat): (r: bool)
      reads this
      ensures r ==> forall k: nat :: Bit(t, k) ==> Bit(kind, k)
      ensures (forall k: nat :: Bit(t, k) ==> Bit(kind, k)) ==> r
    {
      HasAllBits(kind, t);
      And(kind, t) == t
    }

    /** block_size: the number of instructions. */
    function Size(): (r: nat)
      reads this, insts, insts.list
      requires insts.Valid()
      ensures r == |Insts()|
    {
      insts.size
    }

    /** block_append: inst goes last and gets bb as its parent. */
    method Append(inst: Inst)
      requires Valid()
      modifies insts, insts.list, inst
      ensures Valid() && Insts() == old(Insts()) + [inst] && inst.parent == this
      ensures insts.list == old(insts.list) || fresh(insts.list)
    {
      insts.Add(inst);
      inst.parent := this;
    }

    /** block_remove: the first occurrence of inst leaves the list; karray asserts it is not empty. */
    method Remove(inst: Inst)
      requires Valid() && Size() > 0
      modifies insts, insts.list
      ensures Valid() && Insts() == KArray.RemoveFirst(old(Insts()), inst)
      ensures insts.list == old(insts.list)
    {
      insts.RemoveElement(inst);
    }

    /**
     * block_insert_before: target must be in the block (the asserts on
     * ARRAY_index and on its result); inst takes target's index and
     * everything from target on moves one place up.
     */
    method InsertBefore(target: Inst, inst: Inst)
      requires Valid() && target in Insts()
      modifies insts, insts.list
      ensures Valid() && (insts.list == old(insts.list) || fresh(insts.list))
      ensures var k := KArray.FirstIndex(old(Insts()), target);
        0 <= k && Insts() == old(Insts())[..k] + [inst] + old(Insts())[k..]
    {
      KArray.FirstIndexSpec(Insts(), target);
      var idx := insts.Index(target);
      insts.Insert(idx, inst);
    }

    /** block_get: ARRAY_get, which C does not bound-check. */
    function Get(i: nat): (r: Inst?)
      reads this, insts, insts.list
      requires insts.Valid() && i < Size()
      ensures r == Insts()[i]
    {
      insts.Get(i)
    }

    /** block_get_last: NULL for an empty block, the last instruction otherwise. */
    function GetLast(): (r: Inst?)
      reads this, insts, insts.list
      requires insts.Valid()
      ensures Insts() == [] ==> r == null
      ensures Insts() != [] ==> r == Insts()[|Insts()| - 1]
    {
      var size := Size();
      if size == 0 then null else Get(size - 1)
    }
  }

  /** The arrays of pred and succ that block_link and block_unlink change are distinct objects. */
  ghost predicate LinkApart(pred: Block, succ: Block)
    reads pred, succ, pred.succs, succ.preds
  {
    pred.succs != succ.preds && pred.succs.list != succ.preds.list
  }

  /** block_link: succ joins pred's successors and pred joins succ's predecessors, each at most once. */
  method Link(pred: Block, succ: Block)
    requires pred.Valid() && succ.Valid() && LinkApart(pred, succ)
    modifies pred.succs, pred.succs.list, succ.preds, succ.preds.list
    ensures pred.Valid() && succ.Valid() && LinkApart(pred, succ)
    ensures pred.Succs() == Worklist.AddOnce(old(pred.Succs()), succ)
    ensures succ.Preds() == Worklist.AddOnce(old(succ.Preds()), pred)
    ensures pred.succs.list == old(pred.succs.list) || fresh(pred.succs.list)
    ensures succ.preds.list == old(succ.preds.list) || fresh(succ.preds.list)
  {
    pred.succs.AddOnce(succ);
    succ.preds.AddOnce(pred);
  }

  /** block_unlink: the first occurrence of each goes; karray asserts both lists are non-empty. */
  method Unlink(pred: Block, succ: Block)
    requires pred.Valid() && succ.Valid() && LinkApart(pred, succ)
    requires pred.Succs() != [] && succ.Preds() != []
    modifies pred.succs, pred.succs.list, succ.preds, succ.preds.list
    ensures pred.Valid() && succ.Valid()
    ensures pred.Succs() == KArray.RemoveFirst(old(pred.Succs()), succ)
    ensures succ.Preds() == KArray.RemoveFirst(old(succ.Preds()), pred)
    ensures pred.succs.list == old(pred.succs.list) && succ.preds.list == old(succ.preds.list)
  {
    pred.succs.RemoveElement(succ);
    succ.preds.RemoveElement(pred);
  }

  /** 0 | t == t, the first set_type of block_new. */
  lemma {:induction false} ZeroOr(t: nat)
    decreases t
    ensures Or(0, t) == t
  {
    if t != 0 {
      ZeroOr(t / 2);
    }
  }

  /** (a & t) == t holds exactly when every digit of t is a digit of a. */
  lemma HasAllBits(a: nat, t: nat)
    ensures And(a, t) == t ==> forall k: nat :: Bit(t, k) ==> Bit(a, k)
    ensures (forall k: nat :: Bit(t, k) ==> Bit(a, k)) ==> And(a, t) == t
  {
    forall k: nat
      ensures Bit(And(a, t), k) == (Bit(a, k) && Bit(t, k))
    {
      BitAnd(a, t, k);
    }
    if forall k: nat :: Bit(t, k) ==> Bit(a, k) {
      BitsEqual(And(a, t), t);
    } else {
      var k: nat :| Bit(t, k) && !Bit(a, k);
      assert !Bit(And(a, t), k);
    }
  }

  /** After set_type(t), block_is(t) holds, and every flag set before is still set. */
  lemma SetTypeIs(a: nat, t: nat, u: nat)
    ensures HasAll(Or(a, t), t)
    ensures HasAll(a, u) ==> HasAll(Or(a, t), u)
  {
    forall k: nat
      ensures Bit(Or(a, t), k) == (Bit(a, k) || Bit(t, k))
    {
      BitOr(a, t, k);
    }
    HasAllBits(Or(a, t), t);
    HasAllBits(Or(a, t), u);
    HasAllBits(a, u);
  }

  /** For a single flag 1 << k, block_is tests digit k. */
  lemma IsFlag(a: nat, k: nat)
    ensures HasAll(a, Pow2(k)) <==> Bit(a, k)
  {
    forall j: nat
      ensures Bit(Pow2(k), j) == (j == k)
    {
      BitPow2(k, j);
    }
    HasAllBits(a, Pow2(k));
  }

  /** BLOCK_DELETED sets all 32 bits: afterwards the block is of every type. */
  lemma DeletedIsEverything(a: nat, t: nat)
    requires a < Word32 && t < Word32
    ensures Or(a, BlockDeleted) == BlockDeleted && HasAll(BlockDeleted, t)
  {
    Pow2Is16And32Bit();
    forall k: nat
      ensures Bit(Or(a, BlockDeleted), k) == Bit(BlockDeleted, k)
    {
      AllOnes(32, k);
      BitOr(a, BlockDeleted, k);
      if k >= 32 {
        HighBits(a, 32, k);
      }
    }
    BitsEqual(Or(a, BlockDeleted), BlockDeleted);
    forall k: nat | Bit(t, k)
      ensures Bit(BlockDeleted, k)
    {
      AllOnes(32, k);
      if k >= 32 {
        HighBits(t, 32, k);
      }
    }
    HasAllBits(BlockDeleted, t);
  }

  /** 2^n - 1 has exactly the digits below n. */
  lemma {:induction false} AllOnes(n: nat, k: nat)
    decreases n
    ensures Bit(Pow2(n) - 1, k) <==> k < n
  {
    if n == 0 {
      BitZero(k);
    } else if k > 0 {
      AllOnes(n - 1, k - 1);
      assert (Pow2(n) - 1) / 2 == Pow2(n - 1) - 1;
    }
  }

  /** Linking the same pair twice leaves the lists as one link does. */
  lemma LinkTwice<T>(s: seq<T>, v: T)
    ensures Worklist.AddOnce(Worklist.AddOnce(s, v), v) == Worklist.AddOnce(s, v)
  {
  }

  /** Unlinking undoes a link that was new: the lists are as before. */
  lemma {:induction false} UnlinkAfterLink<T>(s: seq<T>, v: T)
    requires v !in s
    ensures KArray.RemoveFirst(Worklist.AddOnce(s, v), v) == s
  {
    var r := s + [v];
    assert r[..|s|] == s;
    KArray.FirstIndexUnique(r, v, |s|);
  }

  /** Removing an instruction just inserted before target restores the list, when the list did not hold it. */
  lemma {:induction false} RemoveAfterInsert<T>(s: seq<T>, k: nat, v: T)
    requires k <= |s| && v !in s
    ensures var r := s[..k] + [v] + s[k..];
      r[k] == v && (k < |s| ==> r[k + 1] == s[k]) && KArray.RemoveFirst(r, v) == s
  {
    var r := s[..k] + [v] + s[k..];
    assert r[..k] == s[..k];
    assert v !in r[..k];
    KArray.FirstIndexUnique(r, v, k);
    assert r[..k] + r[k + 1..] == s;
  }

  /** Two blocks from one counter, with their own arrays. */
  method TwoBlocks() returns (a: Block, b: Block)
    ensures a.Valid() && b.Valid() && LinkApart(a, b) && a != b
    ensures fresh(a.succs) && fresh(a.succs.list) && fresh(b.preds) && fresh(b.preds.list)
    ensures a.id == 0 && b.id == 1
    ensures a.Succs() == [] && b.Preds() == []
  {
    var ids := new BlockIds.Init();
    a := new Block.New(ids, BlockEntry);
    b := new Block.New(ids, BlockExit);
  }

  /** Linking two blocks twice: each list holds the other once; unlinking empties both. */
  method LinkUnlink() returns (succs: nat, preds: nat, after: nat, firstId: nat, secondId: nat)
    ensures succs == 1 && preds == 1 && after == 0 && firstId == 0 && secondId == 1
  {
    var a, b := TwoBlocks();
    firstId := a.id;
    secondId := b.id;
    Link(a, b);
    Link(a, b);
    succs := a.succs.size;
    preds := b.preds.size;
    assert a.Succs() == [b] && b.Preds() == [a];
    assert KArray.FirstIndex([b], b) == 0 && KArray.FirstIndex([a], a) == 0;
    Unlink(a, b);
    after := a.succs.size;
  }

  /** Append then insert_before the first: the new instruction leads, get_last is the appended one. */
  method AppendInsert() returns (first: Inst?, last: Inst?, size: nat, parentSet: bool)
    ensures size == 2 && first != null && first.id == 2 && last != null && last.id == 1 && parentSet
  {
    var ids := new BlockIds.Init();
    var bb := new Block.New(ids, BlockDefault);
    var i1 := new Inst.New(1);
    var i2 := new Inst.New(2);
    bb.Append(i1);
    parentSet := i1.parent == bb;
    bb.InsertBefore(i1, i2);
    assert KArray.FirstIndex([i1], i1) == 0;
    size := bb.Size();
    first := bb.Get(0);
    last := bb.GetLast();
  }
}
