/*
 * The bytecode encoder of src/compiler/module.c: each IR instruction is
 * written as its type byte followed by its operands, label operands go
 * through the linker of src/compiler/linker.c, and the address of every
 * instruction's first and one-past-last byte is recorded by id. An IR value
 * carries its block references as the id of the referenced block's first
 * instruction, which is what mozlinker_add_label reads from the block.
 */
module Module {
  import opened Config
  import opened Buffer
  import opened Linker
  import KArray

  /** ir_type_t codes, in FOR_EACH_IR order (src/compiler/ir.h). */
  const ILabel: nat := 0
  const IJump: nat := 2
  const IInvoke: nat := 4
  const IPLoad: nat := 5
  const IPStore: nat := 6
  const IRet: nat := 7
  const IFail: nat := 8
  const IAny: nat := 9
  const INAny: nat := 10
  const IByte: nat := 11
  const IStr: nat := 12
  const ISet: nat := 13
  const IRByte: nat := 16
  const IRStr: nat := 17
  const IRSet: nat := 18
  const IOByte: nat := 21
  const IOStr: nat := 22
  const IOSet: nat := 23
  const ITPush: nat := 32
  const ITPop: nat := 33
  const ITNew: nat := 35
  const ITCapture: nat := 36
  const ITTag: nat := 37
  /** MAX_IR: the number of instruction types. */
  const MaxIr: nat := 50

  datatype Result<T> = Success(value: T) | Failure

  /**
   * An IR instruction: its id and type, the first instruction of its fail
   * block, the first instruction of its jump target or invoked declaration,
   * and its immediate operand (byte, string, set or tag id).
   */
  datatype Ir = Ir(id: nat, kind: nat, fail: nat, target: nat, operand: nat)

  /** One operand as written: a label slot aimed at an instruction id, a byte, or a 16-bit id. */
  datatype Field = Label(to: nat) | U8(v: nat) | U16(v: nat)

  /** What the encoder of a type does: write these operands, or stop at TODO (int3). */
  datatype Layout = Todo | Fields(fs: seq<Field>)

  /** The encode[] table: the operands each moz_I*_encode writes. */
  function LayoutOf(ir: Ir): Layout
  {
    var k := ir.kind;
    if k in {ILabel, IPLoad, IPStore, IRet, IFail, ITPush} then Fields([])
    else if k == IJump then Fields([Label(ir.target)])
    else if k == IInvoke then Fields([Label(ir.fail), Label(ir.target)])
    else if k in {IAny, INAny} then Fields([Label(ir.fail)])
    else if k == IByte then Fields([Label(ir.fail), U8(ir.operand)])
    else if k in {IStr, ISet} then Fields([Label(ir.fail), U16(ir.operand)])
    else if k in {IRByte, IOByte} then Fields([U8(ir.operand)])
    else if k in {IRStr, IRSet, IOStr, IOSet, ITPop, ITTag} then Fields([U16(ir.operand)])
    else if k in {ITNew, ITCapture} then Fields([U8(0)])
    else Todo
  }

  /** A byte operand fits uint8_t, a 16-bit one uint16_t. */
  predicate Fits(f: Field)
  {
    (f.U8? ==> f.v < 0x100) && (f.U16? ==> f.v < 0x1_0000)
  }

  /** Every operand fits its width. */
  ghost predicate AllFit(fs: seq<Field>)
  {
    forall i :: 0 <= i < |fs| ==> Fits(fs[i])
  }

  /** Every operand fits its width and every label aims at an id below maxId. */
  ghost predicate FieldsOk(fs: seq<Field>, maxId: nat)
  {
    forall i :: 0 <= i < |fs| ==> Fits(fs[i]) && (fs[i].Label? ==> fs[i].to < maxId)
  }

  /** An instruction the encoder can take: its id is known and fits unsigned, its operands fit. */
  ghost predicate WellFormed(ir: Ir, maxId: nat)
  {
    ir.id < maxId && ir.id < Word32 && ir.kind < MaxIr &&
    (LayoutOf(ir).Fields? ==> FieldsOk(LayoutOf(ir).fs, maxId))
  }

  /** No encoder writes more than two operands. */
  lemma LayoutShort(ir: Ir)
    ensures LayoutOf(ir).Fields? ==> |LayoutOf(ir).fs| <= 2
  {
  }

  /** The bytes of one operand; a label slot first holds the id of the instruction it belongs to. */
  function FieldBytes(f: Field, id: nat): (r: seq<Byte>)
    requires id < Word32 && Fits(f)
    ensures |r| == if f.Label? then 4 else if f.U8? then 1 else 2
  {
    ByteWidths();
    match f
    case Label(_) => LittleEndian(id, 4)
    case U8(v) => [v]
    case U16(v) => LittleEndian(v, 2)
  }

  /** Everything encoding has produced: the code, the linker's labels and targets, and the address tables. */
  datatype Image = Image(code: seq<Byte>, labels: seq<nat>, targets: seq<nat>, head: seq<nat>, tail: seq<nat>)

  /** Before any instruction: no code, no labels, both tables zeroed. */
  function Start(maxId: nat): Image
  {
    Image([], [], [], seq(maxId, _ => 0), seq(maxId, _ => 0))
  }

  /** One operand written: its bytes and, for a label, a slot at the old end aimed at its target. */
  function AddField(img: Image, f: Field, id: nat): Image
    requires id < Word32 && Fits(f)
  {
    img.(code := img.code + FieldBytes(f, id),
      labels := img.labels + (if f.Label? then [|img.code|] else []),
      targets := img.targets + (if f.Label? then [f.to] else []))
  }

  /** The operands written in order; the address tables are not touched and the code only grows. */
  function AddFields(img: Image, fs: seq<Field>, id: nat): (r: Image)
    requires id < Word32 && AllFit(fs)
    ensures r.head == img.head && r.tail == img.tail
    ensures |img.code| <= |r.code| && r.code[..|img.code|] == img.code
  {
    if fs == [] then img
    else AddField(AddFields(img, fs[..|fs| - 1], id), fs[|fs| - 1], id)
  }

  /** moz_ir_encode on an image, for a type whose encoder is not TODO. */
  ghost function EncodeIr(img: Image, ir: Ir): (r: Image)
    requires WellFormed(ir, |img.head|) && |img.tail| == |img.head| && LayoutOf(ir).Fields?
    ensures |img.code| < |r.code| && r.code[..|img.code|] == img.code && r.code[|img.code|] == ir.kind
    ensures |r.head| == |r.tail| == |img.head|
    ensures forall k :: 0 <= k < |img.head| && k != ir.id ==> r.head[k] == img.head[k] && r.tail[k] == img.tail[k]
  {
    var body := AddFields(img.(code := img.code + [ir.kind]), LayoutOf(ir).fs, ir.id);
    body.(head := img.head[ir.id := |img.code|], tail := img.tail[ir.id := |body.code|])
  }

  /** Whether every instruction has an encoder that is not TODO. */
  ghost predicate Encodable(irs: seq<Ir>)
  {
    forall i :: 0 <= i < |irs| ==> LayoutOf(irs[i]).Fields?
  }

  /** moz_ir_encode of each instruction in order. */
  ghost function EncodeAll(img: Image, irs: seq<Ir>): (r: Image)
    requires |img.tail| == |img.head| && Encodable(irs)
    requires forall i :: 0 <= i < |irs| ==> WellFormed(irs[i], |img.head|)
    ensures |r.head| == |img.head| && |r.tail| == |img.head|
  {
    if irs == [] then img
    else EncodeIr(EncodeAll(img, irs[..|irs| - 1]), irs[|irs| - 1])
  }

  /** One more instruction of irs encoded. */
  lemma EncodeAllStep(img: Image, irs: seq<Ir>, i: nat)
    requires |img.tail| == |img.head| && i < |irs| && Encodable(irs[..i]) && LayoutOf(irs[i]).Fields?
    requires forall k :: 0 <= k < |irs| ==> WellFormed(irs[k], |img.head|)
    ensures Encodable(irs[..i + 1])
    ensures EncodeAll(img, irs[..i + 1]) == EncodeIr(EncodeAll(img, irs[..i]), irs[i])
  {
    assert irs[..i + 1][..i] == irs[..i];
  }

  /** The instructions of the blocks, block after block. */
  function Flatten(blocks: seq<seq<Ir>>): (r: seq<Ir>)
  {
    if blocks == [] then [] else Flatten(blocks[..|blocks| - 1]) + blocks[|blocks| - 1]
  }

  /** Every instruction of irs is well formed. */
  ghost predicate AllWellFormed(irs: seq<Ir>, maxId: nat)
  {
    forall i :: 0 <= i < |irs| ==> WellFormed(irs[i], maxId)
  }

  /** Every instruction of every block is well formed. */
  ghost predicate BlocksWellFormed(blocks: seq<seq<Ir>>, maxId: nat)
  {
    forall b, i :: 0 <= b < |blocks| && 0 <= i < |blocks[b]| ==> WellFormed(blocks[b][i], maxId)
  }

  /**
   * The flattened list holds well-formed instructions when the blocks do,
   * and it can be encoded exactly when every block can.
   */
  lemma {:induction false} FlattenOk(blocks: seq<seq<Ir>>, maxId: nat)
    requires BlocksWellFormed(blocks, maxId)
    ensures forall i :: 0 <= i < |Flatten(blocks)| ==> WellFormed(Flatten(blocks)[i], maxId)
    ensures Encodable(Flatten(blocks)) <==> forall b :: 0 <= b < |blocks| ==> Encodable(blocks[b])
  {
    if blocks != [] {
      var init := blocks[..|blocks| - 1];
      var last := blocks[|blocks| - 1];
      assert BlocksWellFormed(init, maxId) by {
        forall b | 0 <= b < |init| ensures init[b] == blocks[b] {}
      }
      FlattenOk(init, maxId);
      var f := Flatten(init);
      assert Flatten(blocks) == f + last;
      forall i | 0 <= i < |f + last|
        ensures WellFormed((f + last)[i], maxId)
      {
        if i >= |f| {
          assert (f + last)[i] == blocks[|blocks| - 1][i - |f|];
        }
      }
      if Encodable(f + last) {
        assert Encodable(f) && Encodable(last) by {
          forall i | 0 <= i < |last| ensures last[i] == (f + last)[|f| + i] {}
          forall i | 0 <= i < |f| ensures f[i] == (f + last)[i] {}
        }
        forall b | 0 <= b < |blocks| ensures Encodable(blocks[b])
        {
          if b < |init| {
            assert blocks[b] == init[b];
          }
        }
      }
      if forall b :: 0 <= b < |blocks| ==> Encodable(blocks[b]) {
        assert forall b :: 0 <= b < |init| ==> Encodable(init[b]) by {
          forall b | 0 <= b < |init| ensures init[b] == blocks[b] {}
        }
        assert Encodable(last);
        forall i | 0 <= i < |f + last|
          ensures LayoutOf((f + last)[i]).Fields?
        {
          if i >= |f| {
            assert (f + last)[i] == last[i - |f|];
          }
        }
      }
    }
  }

  /** Concatenation keeps both properties of its parts. */
  lemma ConcatOk(a: seq<Ir>, b: seq<Ir>, maxId: nat)
    requires Encodable(a) && Encodable(b) && AllWellFormed(a, maxId) && AllWellFormed(b, maxId)
    ensures Encodable(a + b) && AllWellFormed(a + b, maxId)
  {
    assert forall i :: 0 <= i < |a + b| ==> (a + b)[i] == if i < |a| then a[i] else b[i - |a|];
  }

  /** Encoding a + b is encoding a, then b. */
  lemma {:induction false} EncodeAllAppend(img: Image, a: seq<Ir>, b: seq<Ir>)
    requires |img.tail| == |img.head| && Encodable(a) && Encodable(b)
    requires AllWellFormed(a, |img.head|) && AllWellFormed(b, |img.head|)
    ensures Encodable(a + b) && AllWellFormed(a + b, |img.head|)
    ensures EncodeAll(img, a + b) == EncodeAll(EncodeAll(img, a), b)
    decreases |b|
  {
    ConcatOk(a, b, |img.head|);
    if b == [] {
      assert a + b == a;
    } else {
      var init := b[..|b| - 1];
      assert (a + b)[..|a + b| - 1] == a + init;
      assert (a + b)[|a + b| - 1] == b[|b| - 1];
      assert Encodable(init) && AllWellFormed(init, |img.head|) by {
        forall i | 0 <= i < |init| ensures init[i] == b[i] {}
      }
      EncodeAllAppend(img, a, init);
    }
  }

  /**
   * What the linker needs of an image: the slots are apart and inside the
   * code, and every slot's target and caller are ids below maxId.
   */
  ghost predicate Linkable(img: Image, maxId: nat)
  {
    |img.head| == maxId && |img.tail| == maxId && SlotsApart(img.labels) &&
    (forall l :: l in img.labels ==> l + 4 <= |img.code|) &&
    Resolvable(img.code, img.labels, img.targets, img.head, img.tail)
  }

  /** The prefix is kept: a slot inside a reads the same in a + b. */
  lemma SlotValueAppend(a: seq<Byte>, b: seq<Byte>, off: nat)
    requires off + 4 <= |a|
    ensures SlotValue(a + b, off) == SlotValue(a, off)
  {
    assert (a + b)[off..off + 4] == a[off..off + 4];
  }

  /** Extending the code keeps an image linkable. */
  lemma GrowLinkable(img: Image, more: seq<Byte>, maxId: nat)
    requires Linkable(img, maxId)
    ensures Linkable(img.(code := img.code + more), maxId)
  {
    forall i | 0 <= i < |img.labels|
      ensures SlotValue(img.code + more, img.labels[i]) == SlotValue(img.code, img.labels[i])
    {
      assert img.labels[i] in img.labels;
      SlotValueAppend(img.code, more, img.labels[i]);
    }
  }

  /** A new slot past the old ones, aimed at a known id and holding a known id, keeps an image linkable. */
  lemma AddSlotLinkable(img: Image, off: nat, to: nat, maxId: nat)
    requires Linkable(img, maxId) && off + 4 <= |img.code| && to < maxId && SlotValue(img.code, off) < maxId
    requires forall l :: l in img.labels ==> l + 4 <= off
    ensures Linkable(img.(labels := img.labels + [off], targets := img.targets + [to]), maxId)
  {
    SlotsApartAppend(img.labels, off);
  }

  /** Writing one operand keeps an image linkable; a new slot holds the instruction's own id. */
  lemma AddFieldLinkable(img: Image, f: Field, id: nat, maxId: nat)
    requires Linkable(img, maxId) && id < maxId && id < Word32 && Fits(f) && (f.Label? ==> f.to < maxId)
    ensures Linkable(AddField(img, f, id), maxId)
    ensures f.Label? ==> SlotValue(AddField(img, f, id).code, |img.code|) == id
  {
    var grown := img.(code := img.code + FieldBytes(f, id));
    GrowLinkable(img, FieldBytes(f, id), maxId);
    if f.Label? {
      assert grown.code[|img.code|..|img.code| + 4] == LittleEndian(id, 4);
      ByteWidths();
      LittleEndianRoundTrip(id, 4);
      AddSlotLinkable(grown, |img.code|, f.to, maxId);
      assert AddField(img, f, id) == grown.(labels := grown.labels + [|img.code|], targets := grown.targets + [f.to]);
    } else {
      assert AddField(img, f, id) == grown;
    }
  }

  lemma {:induction false} AddFieldsLinkable(img: Image, fs: seq<Field>, id: nat, maxId: nat)
    requires Linkable(img, maxId) && id < maxId && id < Word32 && FieldsOk(fs, maxId)
    ensures AllFit(fs) && Linkable(AddFields(img, fs, id), maxId)
    decreases |fs|
  {
    if fs != [] {
      var init := fs[..|fs| - 1];
      assert FieldsOk(init, maxId) by {
        forall i | 0 <= i < |init| ensures init[i] == fs[i] {}
      }
      AddFieldsLinkable(img, init, id, maxId);
      AddFieldLinkable(AddFields(img, init, id), fs[|fs| - 1], id, maxId);
    }
  }

  /** Encoding a well-formed instruction keeps an image linkable. */
  lemma EncodeIrLinkable(img: Image, ir: Ir, maxId: nat)
    requires Linkable(img, maxId) && WellFormed(ir, maxId) && LayoutOf(ir).Fields?
    ensures Linkable(EncodeIr(img, ir), maxId)
  {
    var typed := img.(code := img.code + [ir.kind]);
    GrowLinkable(img, [ir.kind], maxId);
    AddFieldsLinkable(typed, LayoutOf(ir).fs, ir.id, maxId);
  }

  /** Encoding well-formed instructions from the start leaves an image the linker can resolve. */
  lemma {:induction false} EncodeAllLinkable(irs: seq<Ir>, maxId: nat)
    requires Encodable(irs) && forall i :: 0 <= i < |irs| ==> WellFormed(irs[i], maxId)
    ensures Linkable(EncodeAll(Start(maxId), irs), maxId)
  {
    if irs != [] {
      var init := irs[..|irs| - 1];
      assert Encodable(init) && forall i :: 0 <= i < |init| ==> WellFormed(init[i], maxId) by {
        forall i | 0 <= i < |init| ensures init[i] == irs[i] {}
      }
      EncodeAllLinkable(init, maxId);
      EncodeIrLinkable(EncodeAll(Start(maxId), init), irs[|irs| - 1], maxId);
    }
  }

  /**
   * Every label slot of an encoded instruction holds that instruction's
   * id until resolve: the caller id resolve reads back.
   */
  lemma {:induction false} AddFieldsSlots(img: Image, fs: seq<Field>, id: nat, maxId: nat)
    requires Linkable(img, maxId) && id < maxId && id < Word32 && FieldsOk(fs, maxId)
    ensures AllFit(fs) && var r := AddFields(img, fs, id);
      |img.labels| <= |r.labels| && r.labels[..|img.labels|] == img.labels &&
      forall k :: |img.labels| <= k < |r.labels| ==> r.labels[k] + 4 <= |r.code| && SlotValue(r.code, r.labels[k]) == id
    decreases |fs|
  {
    AddFieldsLinkable(img, fs, id, maxId);
    if fs != [] {
      var init := fs[..|fs| - 1];
      var last := fs[|fs| - 1];
      assert FieldsOk(init, maxId) by {
        forall i | 0 <= i < |init| ensures init[i] == fs[i] {}
      }
      AddFieldsSlots(img, init, id, maxId);
      AddFieldsLinkable(img, init, id, maxId);
      var mid := AddFields(img, init, id);
      AddFieldLinkable(mid, last, id, maxId);
      var r := AddField(mid, last, id);
      assert r == AddFields(img, fs, id);
      SlotsStep(img, mid, last, id, r);
    }
  }

  /** One more operand keeps every slot since img holding id; a new label slot holds id as well. */
  lemma SlotsStep(img: Image, mid: Image, last: Field, id: nat, r: Image)
    requires id < Word32 && Fits(last) && r == AddField(mid, last, id)
    requires last.Label? ==> |mid.code| + 4 <= |r.code| && SlotValue(r.code, |mid.code|) == id
    requires |img.labels| <= |mid.labels| && mid.labels[..|img.labels|] == img.labels
    requires forall k :: |img.labels| <= k < |mid.labels| ==> mid.labels[k] + 4 <= |mid.code| && SlotValue(mid.code, mid.labels[k]) == id
    ensures |img.labels| <= |r.labels| && r.labels[..|img.labels|] == img.labels
    ensures forall k :: |img.labels| <= k < |r.labels| ==> r.labels[k] + 4 <= |r.code| && SlotValue(r.code, r.labels[k]) == id
  {
    assert r.labels[..|mid.labels|] == mid.labels;
    forall k | |img.labels| <= k < |r.labels|
      ensures r.labels[k] + 4 <= |r.code| && SlotValue(r.code, r.labels[k]) == id
    {
      if k < |mid.labels| {
        assert r.labels[k] == mid.labels[k];
        SlotValueAppend(mid.code, FieldBytes(last, id), mid.labels[k]);
      } else {
        assert r.labels[k] == |mid.code|;
      }
    }
  }

  /**
   * The compiled code: encode every instruction, then patch each label
   * slot with the distance from its caller's tail to its target's head.
   * Every slot then holds exactly that distance and no other byte differs
   * from the encoding.
   */
  lemma CompiledSlots(irs: seq<Ir>, maxId: nat)
    requires Encodable(irs) && forall i :: 0 <= i < |irs| ==> WellFormed(irs[i], maxId)
    ensures var img := EncodeAll(Start(maxId), irs);
      Resolvable(img.code, img.labels, img.targets, img.head, img.tail) &&
      var r := Resolved(img.code, img.labels, img.targets, img.head, img.tail, |img.labels|);
      (forall i :: 0 <= i < |img.labels| ==>
        SlotValue(r, img.labels[i]) == Distance(img.head, img.tail, img.targets[i], SlotValue(img.code, img.labels[i]))) &&
      (forall p :: 0 <= p < |img.code| && OutsideSlots(img.labels, |img.labels|, p) ==> r[p] == img.code[p])
  {
    EncodeAllLinkable(irs, maxId);
    var img := EncodeAll(Start(maxId), irs);
    ResolvedSlots(img.code, img.labels, img.targets, img.head, img.tail);
  }

  /** moz_bytecode_writer_t: the byte writer and the linker with its address tables. */
  class Encoder {
    const writer: Writer
    const linker: Linker

    ghost function Repr(): set<object>
      reads this, writer, linker
    {
      {writer, writer.buf, linker, linker.labels, linker.targets, linker.addressHead, linker.addressTail}
    }

    ghost predicate Valid()
      reads this, writer, writer.buf, writer.buf.list, linker, linker.labels, linker.labels.list,
        linker.targets, linker.targets.list, linker.addressHead, linker.addressTail
    {
      writer.Valid() && linker.Valid() &&
      linker.ApartFrom(writer) && linker.addressHead != linker.addressTail &&
      linker.addressHead != linker.labels.list && linker.addressHead != linker.targets.list &&
      linker.addressTail != linker.labels.list && linker.addressTail != linker.targets.list &&
      linker.addressHead as object != writer.buf.list && linker.addressTail as object != writer.buf.list &&
      linker.addressHead.Length == linker.addressSize && linker.addressTail.Length == linker.addressSize &&
      forall l :: l in linker.Labels() ==> l + 4 <= writer.Length()
    }

    /** The buffers in use are the ones there before or new allocations. */
    twostate predicate Grown()
      reads this, writer, writer.buf, linker, linker.labels, linker.targets
    {
      (writer.buf.list == old(writer.buf.list) || fresh(writer.buf.list)) &&
      (linker.labels.list == old(linker.labels.list) || fresh(linker.labels.list)) &&
      (linker.targets.list == old(linker.targets.list) || fresh(linker.targets.list))
    }

    /** The encoding so far. */
    ghost function State(): Image
      reads this, writer, writer.buf, writer.buf.list, linker, linker.labels, linker.labels.list,
        linker.targets, linker.targets.list, linker.addressHead, linker.addressTail
      requires Valid()
    {
      Image(writer.Contents(), linker.Labels(), linker.Targets(), linker.addressHead[..], linker.addressTail[..])
    }

    /**
     * The set-up of moz_vm2_module_compile: zeroed address tables of
     * maxId entries, the linker over them and a writer of capacity 32.
     */
    constructor Init(maxId: nat)
      ensures Valid() && State() == Start(maxId) && linker.addressSize == maxId
      ensures fresh(writer) && fresh(writer.buf) && fresh(writer.buf.list) && fresh(linker)
      ensures fresh(linker.labels) && fresh(linker.labels.list) && fresh(linker.targets) && fresh(linker.targets.list)
      ensures fresh(linker.addressHead) && fresh(linker.addressTail)
    {
      var head := new nat[maxId](_ => 0);
      var tail := new nat[maxId](_ => 0);
      linker := new Linker.Init(head, tail, maxId);
      writer := new Writer.Init(32);
      new;
      assert linker.addressHead[..] == seq(maxId, _ => 0);
      assert linker.addressTail[..] == seq(maxId, _ => 0);
    }

    /** One operand: mozlinker_add_label for a label, write8 or write16 otherwise. */
    method EncodeField(f: Field, id: nat)
      requires Valid() && id < Word32 && Fits(f)
      modifies writer.buf, writer.buf.list, linker.labels, linker.labels.list, linker.targets, linker.targets.list
      ensures Valid() && State() == AddField(old(State()), f, id)
      ensures Grown()
    {
      match f
      case Label(to) => EncodeLabel(to, id);
      case U8(v) => EncodeByte(v);
      case U16(v) => EncodeShort(v);
    }

    /** A label operand: a new slot aimed at instruction to, holding id. */
    method EncodeLabel(to: nat, id: nat)
      requires Valid() && id < Word32
      modifies writer.buf, writer.buf.list, linker.labels, linker.labels.list, linker.targets, linker.targets.list
      ensures Valid() && State() == AddField(old(State()), Label(to), id)
      ensures Grown()
    {
      ghost var s0 := State();
      linker.AddLabel(writer, to, id);
      assert linker.addressHead[..] == s0.head && linker.addressTail[..] == s0.tail;
    }

    /** A byte operand: write8. */
    method EncodeByte(v: nat)
      requires Valid() && v < 0x100
      modifies writer.buf, writer.buf.list
      ensures Valid() && State() == old(State()).(code := old(State()).code + [v])
      ensures writer.buf.list == old(writer.buf.list) || fresh(writer.buf.list)
    {
      ghost var s0 := State();
      writer.Write8(v);
      assert linker.Labels() == s0.labels && linker.Targets() == s0.targets;
      assert linker.addressHead[..] == s0.head && linker.addressTail[..] == s0.tail;
    }

    /** A 16-bit operand: write16, low byte first. */
    method EncodeShort(v: nat)
      requires Valid() && v < 0x1_0000
      modifies writer.buf, writer.buf.list
      ensures Valid() && State() == old(State()).(code := old(State()).code + LittleEndian(v, 2))
      ensures writer.buf.list == old(writer.buf.list) || fresh(writer.buf.list)
    {
      ghost var s0 := State();
      writer.Write16(v);
      assert linker.Labels() == s0.labels && linker.Targets() == s0.targets;
      assert linker.addressHead[..] == s0.head && linker.addressTail[..] == s0.tail;
    }

    /** The body of a moz_I*_encode function: at most two operands, in order. */
    method EncodeFields(fs: seq<Field>, id: nat)
      requires Valid() && id < Word32 && AllFit(fs) && |fs| <= 2
      modifies writer.buf, writer.buf.list, linker.labels, linker.labels.list, linker.targets, linker.targets.list
      ensures Valid() && State() == AddFields(old(State()), fs, id)
      ensures Grown()
    {
      ghost var s0 := State();
      if |fs| > 0 {
        EncodeField(fs[0], id);
        assert fs[..1][..0] == [];
        assert State() == AddFields(s0, fs[..1], id);
      }
      if |fs| > 1 {
        assert fs[..2] == fs;
        EncodeField(fs[1], id);
      }
    }

    /**
     * moz_ir_encode: write the type byte and the operands, record the
     * instruction's head and tail addresses under its id, and answer the
     * head. A TODO encoder traps after the type byte: Failure.
     */
    method Encode(ir: Ir) returns (r: Result<nat>)
      requires Valid() && WellFormed(ir, linker.addressSize)
      modifies writer.buf, writer.buf.list, linker.labels, linker.labels.list, linker.targets, linker.targets.list,
        linker.addressHead, linker.addressTail
      ensures Valid() && (r.Success? <==> LayoutOf(ir).Fields?)
      ensures r.Success? ==> r.value == |old(State()).code| && State() == EncodeIr(old(State()), ir)
      ensures Grown()
    {
      ghost var s0 := State();
      var pos := writer.Length();
      writer.Write8(ir.kind);
      var layout := LayoutOf(ir);
      if layout.Todo? {
        return Failure;
      }
      LayoutShort(ir);
      ghost var s1 := State();
      assert s1 == s0.(code := s0.code + [ir.kind]);
      EncodeFields(layout.fs, ir.id);
      var end := writer.Length();
      Record(ir.id, pos, end);
      r := Success(pos);
    }

    /** The address of an instruction's first byte and of the byte after its last, under its id. */
    method Record(id: nat, pos: nat, end: nat)
      requires Valid() && id < linker.addressSize
      modifies linker.addressHead, linker.addressTail
      ensures Valid() && State() == old(State()).(head := old(State()).head[id := pos], tail := old(State()).tail[id := end])
    {
      ghost var s := State();
      linker.addressHead[id] := pos;
      linker.addressTail[id] := end;
      assert writer.Contents() == s.code && linker.Labels() == s.labels && linker.Targets() == s.targets;
      assert linker.addressHead[..] == s.head[id := pos] && linker.addressTail[..] == s.tail[id := end];
    }

    /**
     * After the loops of moz_vm2_module_compile: copy the code and let
     * mozlinker_resolve patch the copy.
     */
    method Finish() returns (code: array<Byte>)
      requires Valid() && Linkable(State(), linker.addressSize)
      ensures fresh(code) && var s := State();
        Resolvable(s.code, s.labels, s.targets, s.head, s.tail) &&
        code[..] == Resolved(s.code, s.labels, s.targets, s.head, s.tail, |s.labels|)
    {
      code := CopyCode();
      linker.Resolve(code);
    }

    /** The code written so far, copied into an array of its exact length. */
    method CopyCode() returns (code: array<Byte>)
      requires Valid()
      ensures fresh(code) && code[..] == State().code
    {
      var n := writer.Length();
      code := new Byte[n](_ => 0);
      var i := 0;
      while i < n
        invariant 0 <= i <= n && code[..i] == writer.Contents()[..i]
      {
        code[i] := writer.buf.list[i];
        i := i + 1;
      }
    }

    /** The state after encoding irs[..i] from s0, when all of irs is well formed. */
    ghost predicate EncodedUpTo(irs: seq<Ir>, i: nat, s0: Image)
      reads this, writer, writer.buf, writer.buf.list, linker, linker.labels, linker.labels.list,
        linker.targets, linker.targets.list, linker.addressHead, linker.addressTail
    {
      Valid() && i <= |irs| && |s0.head| == linker.addressSize && |s0.tail| == |s0.head| &&
      AllWellFormed(irs, linker.addressSize) && Encodable(irs[..i]) && State() == EncodeAll(s0, irs[..i])
    }

    /** One turn of the inner compile loop: encode irs[i] after irs[..i]. */
    method EncodeNext(irs: seq<Ir>, i: nat, ghost next: nat, ghost s0: Image) returns (ok: bool)
      requires EncodedUpTo(irs, i, s0) && i < |irs| && next == i + 1
      modifies writer.buf, writer.buf.list, linker.labels, linker.labels.list, linker.targets, linker.targets.list,
        linker.addressHead, linker.addressTail
      ensures Valid() && (ok <==> LayoutOf(irs[i]).Fields?) && (ok ==> EncodedUpTo(irs, next, s0))
      ensures Grown()
    {
      var res := Encode(irs[i]);
      ok := res.Success?;
      if ok {
        EncodeAllStep(s0, irs, i);
      }
    }

    /**
     * The inner loop of moz_vm2_module_compile, over the instructions of
     * one block: encode each in order, stopping at the first whose type has
     * no encoder.
     */
    method EncodeEach(irs: seq<Ir>) returns (ok: bool)
      requires Valid() && AllWellFormed(irs, linker.addressSize)
      modifies writer.buf, writer.buf.list, linker.labels, linker.labels.list, linker.targets, linker.targets.list,
        linker.addressHead, linker.addressTail
      ensures Valid() && (ok <==> Encodable(irs)) && (ok ==> State() == EncodeAll(old(State()), irs))
      ensures Grown()
    {
      ghost var s0 := State();
      var i := 0;
      while i < |irs|
        invariant EncodedUpTo(irs, i, s0) && Grown()
      {
        var i0 := i;
        i := i + 1;
        ok := EncodeNext(irs, i0, i, s0);
        if !ok {
          assert !LayoutOf(irs[i0]).Fields?;
          return;
        }
      }
      assert irs[..i] == irs;
      ok := true;
    }

    /** The state after encoding the first b blocks from s0, when every block is well formed. */
    ghost predicate EncodedBlocks(blocks: seq<seq<Ir>>, b: nat, s0: Image)
      reads this, writer, writer.buf, writer.buf.list, linker, linker.labels, linker.labels.list,
        linker.targets, linker.targets.list, linker.addressHead, linker.addressTail
    {
      Valid() && b <= |blocks| && |s0.head| == linker.addressSize && |s0.tail| == |s0.head| &&
      BlocksWellFormed(blocks, linker.addressSize) && (forall k :: 0 <= k < b ==> Encodable(blocks[k])) &&
      Encodable(Flatten(blocks[..b])) && AllWellFormed(Flatten(blocks[..b]), linker.addressSize) &&
      State() == EncodeAll(s0, Flatten(blocks[..b]))
    }

    /** One turn of the outer compile loop: encode block b after the blocks before it. */
    method EncodeBlock(blocks: seq<seq<Ir>>, b: nat, ghost s0: Image) returns (ok: bool)
      requires EncodedBlocks(blocks, b, s0) && b < |blocks|
      modifies writer.buf, writer.buf.list, linker.labels, linker.labels.list, linker.targets, linker.targets.list,
        linker.addressHead, linker.addressTail
      ensures Valid() && (ok <==> Encodable(blocks[b])) && (ok ==> EncodedBlocks(blocks, b + 1, s0))
      ensures Grown()
    {
      assert AllWellFormed(blocks[b], linker.addressSize);
      ok := EncodeEach(blocks[b]);
      if ok {
        assert blocks[..b + 1][..b] == blocks[..b];
        assert Flatten(blocks[..b + 1]) == Flatten(blocks[..b]) + blocks[b];
        EncodeAllAppend(s0, Flatten(blocks[..b]), blocks[b]);
      }
    }

    /**
     * The two loops of moz_vm2_module_compile: every instruction of every
     * block, in order, stopping at the first whose type has no encoder.
     */
    method EncodeBlocks(blocks: seq<seq<Ir>>) returns (ok: bool)
      requires Valid() && BlocksWellFormed(blocks, linker.addressSize)
      modifies writer.buf, writer.buf.list, linker.labels, linker.labels.list, linker.targets, linker.targets.list,
        linker.addressHead, linker.addressTail
      ensures Valid() && (ok <==> forall b :: 0 <= b < |blocks| ==> Encodable(blocks[b]))
      ensures ok ==> (Encodable(Flatten(blocks)) && AllWellFormed(Flatten(blocks), linker.addressSize) &&
        State() == EncodeAll(old(State()), Flatten(blocks)))
      ensures Grown()
    {
      ghost var s0 := State();
      var b := 0;
      assert blocks[..0] == [];
      while b < |blocks|
        invariant EncodedBlocks(blocks, b, s0) && Grown()
      {
        ok := EncodeBlock(blocks, b, s0);
        if !ok {
          assert !Encodable(blocks[b]);
          return;
        }
        b := b + 1;
      }
      assert blocks[..b] == blocks;
      ok := true;
    }
  }

  /**
   * moz_vm2_module_compile: zeroed address tables of maxId entries, encode
   * every instruction of every block, copy the code and resolve its
   * labels. It fails when an instruction's type has no encoder.
   */
  method Compile(blocks: seq<seq<Ir>>, maxId: nat) returns (r: Result<array<Byte>>)
    requires BlocksWellFormed(blocks, maxId)
    ensures r.Success? <==> Encodable(Flatten(blocks))
    ensures forall i :: 0 <= i < |Flatten(blocks)| ==> WellFormed(Flatten(blocks)[i], maxId)
    ensures r.Success? ==> (fresh(r.value) &&
      var img := EncodeAll(Start(maxId), Flatten(blocks));
      Resolvable(img.code, img.labels, img.targets, img.head, img.tail) &&
      r.value[..] == Resolved(img.code, img.labels, img.targets, img.head, img.tail, |img.labels|))
  {
    FlattenOk(blocks, maxId);
    var e := new Encoder.Init(maxId);
    var ok := e.EncodeBlocks(blocks);
    if !ok {
      return Failure;
    }
    EncodeAllLinkable(Flatten(blocks), maxId);
    var code := e.Finish();
    r := Success(code);
  }

  /** The encoding of a jump to the instruction right after it, then a return. */
  lemma JumpRetImage()
    ensures Encodable([Ir(0, IJump, 0, 1, 0), Ir(1, IRet, 0, 0, 0)])
    ensures forall i :: 0 <= i < 2 ==> WellFormed([Ir(0, IJump, 0, 1, 0), Ir(1, IRet, 0, 0, 0)][i], 2)
    ensures EncodeAll(Start(2), [Ir(0, IJump, 0, 1, 0), Ir(1, IRet, 0, 0, 0)]) ==
      Image([IJump, 0, 0, 0, 0, IRet], [1], [1], [0, 5], [5, 6])
  {
    var jump := Ir(0, IJump, 0, 1, 0);
    var ret := Ir(1, IRet, 0, 0, 0);
    var img1 := Image([IJump, 0, 0, 0, 0], [1], [1], [0, 0], [5, 0]);
    JumpEncoded();
    assert [jump][..0] == [];
    assert EncodeAll(Start(2), [jump]) == img1;
    assert [jump, ret][..1] == [jump];
    RetEncoded();
  }

  /** The jump of JumpRetImage: its opcode, a zeroed slot that the linker will patch, and its address entries. */
  lemma JumpEncoded()
    ensures WellFormed(Ir(0, IJump, 0, 1, 0), 2) && LayoutOf(Ir(0, IJump, 0, 1, 0)).Fields?
    ensures EncodeIr(Start(2), Ir(0, IJump, 0, 1, 0)) == Image([IJump, 0, 0, 0, 0], [1], [1], [0, 0], [5, 0])
  {
    var jump := Ir(0, IJump, 0, 1, 0);
    assert LayoutOf(jump) == Fields([Label(1)]);
    assert LittleEndian(0, 1) == [0];
    assert LittleEndian(0, 2) == [0, 0];
    assert LittleEndian(0, 3) == [0, 0, 0];
    assert FieldBytes(Label(1), 0) == [0, 0, 0, 0];
    var img0 := Start(2);
    assert img0.head == [0, 0] && img0.tail == [0, 0];
    var typed := img0.(code := [IJump]);
    assert [Label(1)][..0] == [];
    assert AddFields(typed, [Label(1)], 0) == AddField(typed, Label(1), 0);
    assert img0.(code := img0.code + [IJump]) == typed;
    assert AddField(typed, Label(1), 0) == Image([IJump, 0, 0, 0, 0], [1], [1], [0, 0], [0, 0]);
  }

  /** The return of JumpRetImage: one opcode byte, starting where the jump's slot ends. */
  lemma RetEncoded()
    ensures WellFormed(Ir(1, IRet, 0, 0, 0), 2) && LayoutOf(Ir(1, IRet, 0, 0, 0)).Fields?
    ensures EncodeIr(Image([IJump, 0, 0, 0, 0], [1], [1], [0, 0], [5, 0]), Ir(1, IRet, 0, 0, 0)) ==
      Image([IJump, 0, 0, 0, 0, IRet], [1], [1], [0, 5], [5, 6])
  {
    assert LayoutOf(Ir(1, IRet, 0, 0, 0)) == Fields([]);
  }

  /** Resolving that image writes distance 0 into the one slot: the jump's tail is the return's head. */
  lemma JumpRetResolved()
    ensures Resolvable([IJump, 0, 0, 0, 0, IRet], [1], [1], [0, 5], [5, 6])
    ensures Resolved([IJump, 0, 0, 0, 0, IRet], [1], [1], [0, 5], [5, 6], 1) == [IJump, 0, 0, 0, 0, IRet]
  {
    var code: seq<Byte> := [IJump, 0, 0, 0, 0, IRet];
    assert code[1..5] == [0, 0, 0, 0] by {
      assert forall k | 0 <= k < 4 :: code[1..5][k] == [0, 0, 0, 0][k];
    }
    assert FromLittleEndian([0]) == 0;
    assert FromLittleEndian([0, 0]) == 0;
    assert FromLittleEndian([0, 0, 0]) == 0;
    assert SlotValue(code, 1) == 0;
    assert Distance([0, 5], [5, 6], 1, 0) == 0;
    assert LittleEndian(0, 1) == [0];
    assert LittleEndian(0, 2) == [0, 0];
    assert LittleEndian(0, 3) == [0, 0, 0];
    assert Resolved(code, [1], [1], [0, 5], [5, 6], 0) == code;
    assert Splice(code, 1, [0, 0, 0, 0]) == code;
  }

  /** Compiling that pair patches the slot to distance 0: the jump lands where its own tail ends. */
  method CompileJumpRet() returns (code: seq<Byte>)
    ensures code == [IJump, 0, 0, 0, 0, IRet]
  {
    var irs := [Ir(0, IJump, 0, 1, 0), Ir(1, IRet, 0, 0, 0)];
    assert Flatten([irs]) == irs by {
      assert [irs][..0] == [];
    }
    assert BlocksWellFormed([irs], 2) by {
      JumpRetImage();
    }
    var r := Compile([irs], 2);
    assert r.Success? by {
      JumpRetImage();
    }
    code := r.value[..];
    JumpRetImage();
    JumpRetResolved();
  }

}
