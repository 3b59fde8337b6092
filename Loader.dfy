/*
 * The bytecode loader of src/loader.c. The input is a big-endian stream of
 * instructions, each an opcode byte whose bit 0x80 asks for a trailing
 * jump, followed by its operands. Loading translates every instruction
 * into the machine's layout, in host (little-endian) order, records in an
 * index table where each one starts, and then rewrites every jump operand,
 * which still holds an instruction index, into a distance from the end of
 * the jumping instruction. The file header and the constant pools read by
 * mozvm_loader_load_file are not part of this model.
 */
module Loader {
  import opened Config
  import opened Bits
  import opened Buffer
  import KArray

  datatype Result<T> = Success(value: T) | Failure

  /** enum MozOpcode of src/instruction.h. */
  const Nop: Byte := 0
  const Fail: Byte := 1
  const Alt: Byte := 2
  const Succ: Byte := 3
  const Jump: Byte := 4
  const Call: Byte := 5
  const Ret: Byte := 6
  const Pos: Byte := 7
  const Back: Byte := 8
  const Skip: Byte := 9
  const OpByte: Byte := 10
  const Any: Byte := 11
  const Str: Byte := 12
  const OpSet: Byte := 13
  const NByte: Byte := 14
  const NAny: Byte := 15
  const NStr: Byte := 16
  const NSet: Byte := 17
  const OByte: Byte := 18
  const OAny: Byte := 19
  const OStr: Byte := 20
  const OSet: Byte := 21
  const RByte: Byte := 22
  const RAny: Byte := 23
  const RStr: Byte := 24
  const RSet: Byte := 25
  const Consume: Byte := 26
  const First: Byte := 27
  const Lookup: Byte := 28
  const Memo: Byte := 29
  const MemoFail: Byte := 30
  const TPush: Byte := 31
  const TPop: Byte := 32
  const TLeftFold: Byte := 33
  const TNew: Byte := 34
  const TCapture: Byte := 35
  const TTag: Byte := 36
  const TReplace: Byte := 37
  const TStart: Byte := 38
  const TCommit: Byte := 39
  const TAbort: Byte := 40
  const TLookup: Byte := 41
  const TMemo: Byte := 42
  const SOpen: Byte := 43
  const SCount: Byte := 53
  const Exit: Byte := 54
  const Label: Byte := 127

  /** The has_jump bit of an instruction byte, and the mask of its opcode. */
  const JumpFlag: nat := 0x80
  const OpcodeMask: nat := 0x7f
  /** MOZ_JMPTABLE_SIZE entries are kept of the 257 a First instruction carries. */
  const TableEntries: nat := 257
  const Word32: nat := 0x1_0000_0000
  const Half32: nat := 0x8000_0000

  /** The value of bytes read most significant first. */
  function BigEndian(bytes: seq<Byte>): nat
  {
    if bytes == [] then 0 else 256 * BigEndian(bytes[..|bytes| - 1]) + bytes[|bytes| - 1]
  }

  /** The n bytes of v, most significant first. */
  function ToBigEndian(v: nat, n: nat): (r: seq<Byte>)
    ensures |r| == n
  {
    if n == 0 then [] else ToBigEndian(v / 256, n - 1) + [v % 256]
  }

  /** n bytes read most significant first give a value below 2^(8n). */
  lemma {:induction false} BigEndianBound(bytes: seq<Byte>)
    ensures BigEndian(bytes) < Pow2(8 * |bytes|)
  {
    if bytes != [] {
      BigEndianBound(bytes[..|bytes| - 1]);
      Pow2Byte(|bytes|);
    }
  }

  /** Reading a then b is a's value shifted past b's bytes, plus b's value. */
  lemma {:induction false} BigEndianAppend(a: seq<Byte>, b: seq<Byte>)
    decreases |b|
    ensures BigEndian(a + b) == BigEndian(a) * Pow2(8 * |b|) + BigEndian(b)
  {
    if b == [] {
      assert a + b == a;
    } else {
      var b' := b[..|b| - 1];
      var last := b[|b| - 1];
      assert (a + b)[..|a + b| - 1] == a + b';
      assert (a + b)[|a + b| - 1] == last;
      BigEndianAppend(a, b');
      Pow2Byte(|b|);
      assert BigEndian(b) == 256 * BigEndian(b') + last;
      assert BigEndian(a + b) == 256 * BigEndian(a + b') + last;
      ShiftByte(BigEndian(a), BigEndian(b'), Pow2(8 * |b'|), last);
    }
  }

  lemma ShiftByte(x: int, y: int, p: int, last: int)
    ensures 256 * (x * p + y) + last == x * (256 * p) + (256 * y + last)
  {
  }

  /** Big-endian encoding and decoding are inverse. */
  lemma {:induction false} BigEndianRoundTrip(v: nat, n: nat)
    requires v < Pow2(8 * n)
    decreases n
    ensures BigEndian(ToBigEndian(v, n)) == v
  {
    if n > 0 {
      Pow2Byte(n);
      var r := ToBigEndian(v, n);
      assert r[..n - 1] == ToBigEndian(v / 256, n - 1);
      BigEndianRoundTrip(v / 256, n - 1);
    }
  }

  /** For a below 2^(k+1), a & (1 << k) is the top bit of a. */
  lemma {:induction false} AndTop(a: nat, k: nat)
    requires a < 2 * Pow2(k)
    decreases k
    ensures And(a, Pow2(k)) == if a >= Pow2(k) then Pow2(k) else 0
  {
    if k > 0 && a != 0 {
      AndTop(a / 2, k - 1);
    }
  }

  /** For a below 2^(k+1), a & ((1 << k) - 1) is a without its top bit. */
  lemma {:induction false} AndLow(a: nat, k: nat)
    requires a < 2 * Pow2(k)
    decreases k
    ensures And(a, Pow2(k) - 1) == if a >= Pow2(k) then a - Pow2(k) else a
  {
    if k > 0 && a != 0 {
      AndLow(a / 2, k - 1);
      assert (Pow2(k) - 1) / 2 == Pow2(k - 1) - 1 && (Pow2(k) - 1) % 2 == 1;
    }
  }

  /** The bits of an instruction byte: bit 0x80 is the flag, the rest the opcode. */
  lemma FlagBits(b: Byte)
    ensures (And(b, JumpFlag) != 0) == (b >= 128)
    ensures And(b, OpcodeMask) == b % 128
  {
    assert Pow2(7) == 128;
    AndTop(b, 7);
    AndLow(b, 7);
  }

  /** The input fields of an instruction: unsigned big-endian numbers of 1 to 4 bytes (read8 .. read32). */
  datatype Field = F8 | F16 | F24 | F32

  function Width(f: Field): (r: nat)
    ensures 1 <= r <= 4
  {
    match f
    case F8 => 1
    case F16 => 2
    case F24 => 3
    case F32 => 4
  }

  /** The operands the loader writes: the low byte, the low 16 bits or the low 32 bits of the k-th field read, or a 32-bit 0. */
  datatype Out = Low8(k: nat) | Low16(k: nat) | Low32(k: nat) | Zero

  function OutWidth(w: Out): nat
  {
    match w
    case Low8(_) => 1
    case Low16(_) => 2
    case Low32(_) => 4
    case Zero => 4
  }

  /**
   * What mozvm_loader_load_inst does after the opcode byte: read fields and
   * write operands, trap (the cases that execute int3), or, for First, read
   * a 257-entry jump table.
   */
  datatype Shape = Plain(fields: seq<Field>, outs: seq<Out>) | Trap | JumpTable

  /** The switch of mozvm_loader_load_inst, one case per opcode. */
  function ShapeOf(op: nat): (r: Shape)
    ensures r.JumpTable? <==> op == First
    ensures r.Plain? ==> Wired(r.fields, r.outs)
  {
    if op in {Alt, Jump} then Plain([F24], [Low32(0)])
    else if op == Call then Plain([F24, F16, F24], [Low32(2)])
    else if op == Ret then Plain([], [Zero])
    else if op in {OpByte, NByte, OByte, RByte} then Plain([F8], [Low8(0)])
    else if op in {Str, NStr, OStr, RStr, OpSet, NSet, OSet, RSet, TTag} then Plain([F16], [Low16(0)])
    else if op in {Consume, TReplace, TAbort} || SOpen <= op <= SCount then Trap
    else if op == First then JumpTable
    else if op == Lookup then Plain([F8, F32, F24], [Low8(0), Low16(1), Low32(2)])
    else if op in {Memo, MemoFail, TMemo} then Plain([F8, F32], [Low8(0), Low16(1)])
    else if op in {TPop, TLeftFold, TNew, TCapture, TCommit, Exit} then Plain([F8], [Low8(0)])
    else if op == TLookup then Plain([F8, F32, F24, F8], [Low8(3), Low8(0), Low16(1), Low32(2)])
    else if op == Label then Plain([F16], [])
    else Plain([], [])
  }

  /** Jump and Call read their last operand with get_next, which clears has_jump. */
  predicate TakesFlag(op: nat)
  {
    op == Jump || op == Call
  }

  /** Nop and Label (without MOZVM_EMIT_OP_LABEL) write no opcode byte. */
  predicate Emitted(op: nat)
  {
    op != Nop && op != Label
  }

  /** The opcode byte an instruction starts with, absent for Nop and Label. */
  function Head(op: nat): (r: seq<Byte>)
    ensures |r| <= 1
  {
    if Emitted(op) && op < 256 then [op as Byte] else []
  }

  /** Every operand written names a field that was read. */
  predicate Wired(fs: seq<Field>, ws: seq<Out>)
  {
    forall i :: 0 <= i < |ws| ==> !ws[i].Zero? ==> ws[i].k < |fs|
  }

  /** The number of input bytes the fields take. */
  function Total(fs: seq<Field>): nat
  {
    if fs == [] then 0 else Total(fs[..|fs| - 1]) + Width(fs[|fs| - 1])
  }

  /** The number of bytes the operands take. */
  function Written(ws: seq<Out>): nat
  {
    if ws == [] then 0 else Written(ws[..|ws| - 1]) + OutWidth(ws[|ws| - 1])
  }

  /** A prefix of the fields takes no more input than all of them, and one more field takes its width. */
  lemma {:induction false} TotalPrefix(fs: seq<Field>, i: nat)
    requires i < |fs|
    decreases |fs|
    ensures Total(fs[..i + 1]) == Total(fs[..i]) + Width(fs[i])
    ensures Total(fs[..i + 1]) <= Total(fs)
  {
    assert fs[..i + 1][..i] == fs[..i];
    if i + 1 < |fs| {
      var fs' := fs[..|fs| - 1];
      assert fs'[..i + 1] == fs[..i + 1] && fs'[..i] == fs[..i];
      TotalPrefix(fs', i);
    } else {
      assert fs[..i + 1] == fs;
    }
  }

  /** The field values read from input at at, in order. */
  function FieldValues(input: seq<Byte>, at: nat, fs: seq<Field>): (r: seq<nat>)
    requires at + Total(fs) <= |input|
    ensures |r| == |fs|
  {
    if fs == [] then []
    else
      var p := at + Total(fs[..|fs| - 1]);
      FieldValues(input, at, fs[..|fs| - 1]) + [BigEndian(input[p..p + Width(fs[|fs| - 1])])]
  }

  /** The bytes of one written operand, in host order. */
  function OutBytes(vals: seq<nat>, w: Out): (r: seq<Byte>)
    requires !w.Zero? ==> w.k < |vals|
    ensures |r| == OutWidth(w)
  {
    match w
    case Low8(k) => [vals[k] % 256]
    case Low16(k) => LittleEndian(vals[k] % 0x1_0000, 2)
    case Low32(k) => LittleEndian(vals[k] % Word32, 4)
    case Zero => LittleEndian(0, 4)
  }

  /** The operands ws of the field values vals, one after another. */
  function Emit(vals: seq<nat>, ws: seq<Out>): (r: seq<Byte>)
    requires forall i :: 0 <= i < |ws| ==> !ws[i].Zero? ==> ws[i].k < |vals|
    ensures |r| == Written(ws)
  {
    if ws == [] then [] else Emit(vals, ws[..|ws| - 1]) + OutBytes(vals, ws[|ws| - 1])
  }

  /** Emitting one operand more appends its bytes. */
  lemma EmitNext(vals: seq<nat>, ws: seq<Out>, i: nat)
    requires i < |ws| && forall i :: 0 <= i < |ws| ==> !ws[i].Zero? ==> ws[i].k < |vals|
    ensures Emit(vals, ws[..i + 1]) == Emit(vals, ws[..i]) + OutBytes(vals, ws[i])
  {
    assert ws[..i + 1][..i] == ws[..i];
  }

  /** The jump table a First instruction carries, or none. */
  datatype Table = NoTable | Table(entries: seq<nat>)

  /** One loaded instruction: the bytes written, where the input continues, and the jump table read by First. */
  datatype Step = Step(out: seq<Byte>, next: nat, table: Table)

  /** The 257 field types of a First instruction's jump table. */
  function TableFields(): (r: seq<Field>)
    ensures |r| == TableEntries
  {
    seq(TableEntries, _ => F24)
  }

  /**
   * The switch of mozvm_loader_load_inst for opcode op, with its operands
   * from input position p on: the operand bytes written, where the input
   * continues, and the jump table of a First instruction. Failure stands
   * for the int3 traps and for reads past the end of the input, which C
   * does not check.
   */
  function Operands(input: seq<Byte>, p: nat, op: nat, tblId: nat): (r: Result<Step>)
    ensures r.Success? ==> p <= r.value.next <= |input|
    ensures r.Success? ==> (r.value.table.Table? <==> ShapeOf(op).JumpTable?)
    ensures r.Success? && r.value.table.Table? ==> |r.value.table.entries| == JmpTableSize
  {
    match ShapeOf(op)
    case Trap => Failure
    case JumpTable => TableOperands(input, p, tblId)
    case Plain(fs, ws) =>
      PlainOperands(input, p, fs, ws)
  }

  /** The First case: 257 entries of 24 bits each, written as the table's 16-bit id. */
  function TableOperands(input: seq<Byte>, p: nat, tblId: nat): (r: Result<Step>)
    ensures r.Success? ==> p <= r.value.next <= |input| && r.value.table.Table? && |r.value.table.entries| == JmpTableSize
  {
    if p + Total(TableFields()) > |input| then Failure
    else
      var vals := FieldValues(input, p, TableFields());
      Success(Step(LittleEndian(tblId % 0x1_0000, 2), p + Total(TableFields()), Table(vals[..JmpTableSize])))
  }

  /** Every other case: read the fields fs, then write the operands ws. */
  function PlainOperands(input: seq<Byte>, p: nat, fs: seq<Field>, ws: seq<Out>): (r: Result<Step>)
    requires Wired(fs, ws)
    ensures r.Success? ==> p <= r.value.next <= |input| && r.value.table.NoTable?
  {
    if p + Total(fs) > |input| then Failure
    else Success(Step(Emit(FieldValues(input, p, fs), ws), p + Total(fs), NoTable))
  }

  /**
   * mozvm_loader_load_inst on the instruction at at, given the next jump
   * table id: the opcode byte without its flag (unless it is one that
   * writes none), the operands, then the trailing Jump the flag asks for.
   */
  function Translate(input: seq<Byte>, at: nat, tblId: nat): (r: Result<Step>)
    ensures r.Success? ==> at < r.value.next <= |input|
    ensures r.Success? ==> (r.value.table.Table? <==> ShapeOf(input[at] % 128).JumpTable?)
    ensures r.Success? && r.value.table.Table? ==> |r.value.table.entries| == JmpTableSize
  {
    if at >= |input| then Failure
    else
      var b := input[at];
      var op := b % 128;
      var head := Head(op);
      match Operands(input, at + 1, op, tblId)
      case Failure => Failure
      case Success(o) => WithJump(input, o.next, b >= 128 && !TakesFlag(op), head + o.out, o.table)
  }

  /** A loaded instruction is its opcode byte, its operands and the trailing Jump. */
  lemma TranslateSplit(input: seq<Byte>, at: nat, tblId: nat)
    requires at < |input| && Operands(input, at + 1, input[at] % 128, tblId).Success?
    ensures var op := input[at] % 128;
      var o := Operands(input, at + 1, op, tblId).value;
      Translate(input, at, tblId) ==
        WithJump(input, o.next, input[at] >= 128 && !TakesFlag(op), Head(op) + o.out, o.table)
  {
  }

  /** An instruction whose operands fail to load, or whose table does not fit, fails to load. */
  lemma OperandsFail(input: seq<Byte>, at: nat, tblId: nat, jumps: seq<int>, r: Result<Step>)
    requires at < |input| && r == Operands(input, at + 1, input[at] % 128, tblId)
    requires !(r.Success? && StoreTable(jumps, tblId, r.value.table).Success?)
    ensures var t := Translate(input, at, tblId); !(t.Success? && StoreTable(jumps, tblId, t.value.table).Success?)
  {
  }

  /**
   * The opcode byte written after c0, then the operands o and the table
   * they store, then the trailing Jump that gives c3 and pos3: together
   * the instruction Translate loads, after c0.
   */
  lemma InstJoin(input: seq<Byte>, at: nat, tblId: nat, jumps: seq<int>, c0: seq<Byte>, c1: seq<Byte>, o: Step,
                 trailing: bool, c2: seq<Byte>, ok: bool, c3: seq<Byte>, pos3: nat, jumps3: seq<int>, id3: nat)
    requires at < |input| && Operands(input, at + 1, input[at] % 128, tblId) == Success(o)
    requires StoreTable(jumps, tblId, o.table).Success?
    requires trailing == (input[at] >= 128 && !TakesFlag(input[at] % 128))
    requires c1 == c0 + Head(input[at] % 128) && c2 == c1 + o.out
    requires jumps3 == StoreTable(jumps, tblId, o.table).value && id3 == NextId(tblId, o.table)
    requires var w := WithJump(input, o.next, trailing, c2, o.table);
      (ok <==> w.Success?) && (ok ==> w.value == Step(c3, pos3, o.table))
    ensures var t := Translate(input, at, tblId);
      ok <==> t.Success? && StoreTable(jumps, tblId, t.value.table).Success?
    ensures ok ==> var t := Translate(input, at, tblId).value;
      c3 == c0 + t.out && pos3 == t.next && jumps3 == StoreTable(jumps, tblId, t.table).value && id3 == NextId(tblId, t.table)
  {
    var head := Head(input[at] % 128);
    TranslateSplit(input, at, tblId);
    Assoc(c0, head, o.out);
    JoinWithJump(input, o.next, trailing, c0, head + o.out, o.table);
  }

  /** The trailing Jump of an instruction whose flag is set: its 24-bit target as a 32-bit word. */
  function WithJump(input: seq<Byte>, p: nat, trailing: bool, body: seq<Byte>, table: Table): (r: Result<Step>)
    ensures r.Success? ==> r.value.next == p + (if trailing then 3 else 0) <= |input| || (!trailing && r.value.next == p)
    ensures r.Success? ==> r.value.table == table
    ensures r.Failure? <==> trailing && p + 3 > |input|
  {
    if !trailing then Success(Step(body, p, table))
    else if p + 3 > |input| then Failure
    else Success(Step(body + TrailingJump(input[p..p + 3]), p + 3, table))
  }

  /** Adding the trailing Jump to what follows code c extends c by the instruction. */
  lemma JoinWithJump(input: seq<Byte>, p: nat, trailing: bool, c: seq<Byte>, body: seq<Byte>, table: Table)
    ensures WithJump(input, p, trailing, c + body, table).Success? == WithJump(input, p, trailing, body, table).Success?
    ensures WithJump(input, p, trailing, c + body, table).Success? ==>
      WithJump(input, p, trailing, c + body, table).value ==
      var s := WithJump(input, p, trailing, body, table).value; Step(c + s.out, s.next, s.table)
  {
    if trailing && p + 3 <= |input| {
      Assoc(c, body, TrailingJump(input[p..p + 3]));
    }
  }

  /** A Jump whose 24-bit big-endian target becomes a 32-bit little-endian word. */
  function TrailingJump(target: seq<Byte>): (r: seq<Byte>)
    requires |target| == 3
    ensures |r| == 5 && r[0] == Jump && FromLittleEndian(r[1..]) == BigEndian(target)
  {
    var w := BigEndian(target);
    BigEndianBound(target);
    ByteWidths();
    Pow2Add(16, 8);
    assert w < 0x100_0000;
    LittleEndianRoundTrip(w, 4);
    var r := [Jump] + LittleEndian(w, 4);
    assert r[1..] == LittleEndian(w, 4);
    r
  }

  /**
   * The memcpy of a First instruction's first 256 entries into the
   * runtime's jump tables, at the slot of its 16-bit id; Failure when the
   * tables end before that slot does.
   */
  function StoreTable(jumps: seq<int>, tblId: nat, t: Table): (r: Result<seq<int>>)
    ensures t.NoTable? ==> r == Success(jumps)
    ensures r.Success? ==> |r.value| == |jumps|
    ensures t.Table? && r.Success? ==> var base := JmpTableSize * (tblId % 0x1_0000);
      forall i :: 0 <= i < |jumps| ==>
        r.value[i] == if base <= i < base + |t.entries| then t.entries[i - base] else jumps[i]
  {
    match t
    case NoTable => Success(jumps)
    case Table(entries) =>
      var base := JmpTableSize * (tblId % 0x1_0000);
      if base + |entries| > |jumps| then Failure
      else Success(jumps[..base] + entries + jumps[base + |entries|..])
  }

  /** The id the next First instruction takes: jmptbl_id counts the tables read. */
  function NextId(tblId: nat, t: Table): nat
  {
    if t.Table? then tblId + 1 else tblId
  }

  /**
   * The state of the first pass: the bytes written (L->buf), the offset of
   * each instruction loaded so far (L->table), the runtime's jump tables and
   * the jump table counter (L->jmptbl_id).
   */
  datatype Image = Image(code: seq<Byte>, offsets: seq<nat>, jumps: seq<int>, tblId: nat)

  /** An image after one more instruction, and where the input continues. */
  datatype Loaded = Loaded(img: Image, next: nat)

  /**
   * One turn of the first loop of mozvm_loader_load: record where the
   * instruction's output begins in the index table of capacity slots, then
   * load it. Failure also when the table has no slot left (C writes past
   * its end).
   */
  function LoadOne(input: seq<Byte>, at: nat, capacity: nat, img: Image): (r: Result<Loaded>)
    ensures r.Success? ==> |img.offsets| < capacity && at < r.value.next <= |input|
    ensures r.Success? ==> var img' := r.value.img;
      |img.code| <= |img'.code| && img'.code[..|img.code|] == img.code &&
      img'.offsets == img.offsets + [|img.code|] && |img'.jumps| == |img.jumps|
  {
    if |img.offsets| >= capacity then Failure
    else match Translate(input, at, img.tblId)
      case Failure => Failure
      case Success(st) =>
        match StoreTable(img.jumps, img.tblId, st.table)
        case Failure => Failure
        case Success(jumps) =>
          assert (img.code + st.out)[..|img.code|] == img.code;
          Success(Loaded(Image(img.code + st.out, img.offsets + [|img.code|], jumps, NextId(img.tblId, st.table)), st.next))
  }

  /** The first loop of mozvm_loader_load, from input position at to the end of the input. */
  function LoadInsts(input: seq<Byte>, at: nat, capacity: nat, img: Image): (r: Result<Image>)
    decreases |input| - at
    ensures r.Success? ==> |img.code| <= |r.value.code| && r.value.code[..|img.code|] == img.code
    ensures r.Success? ==> |img.offsets| <= |r.value.offsets| && r.value.offsets[..|img.offsets|] == img.offsets
    ensures r.Success? ==> |r.value.jumps| == |img.jumps|
    ensures r.Success? && |img.offsets| <= capacity ==> |r.value.offsets| <= capacity
  {
    if at >= |input| then Success(img)
    else match LoadOne(input, at, capacity, img)
      case Failure => Failure
      case Success(l) =>
        var r := LoadInsts(input, l.next, capacity, l.img);
        if r.Success? then
          assert r.value.code[..|img.code|] == r.value.code[..|l.img.code|][..|img.code|];
          assert r.value.offsets[..|img.offsets|] == r.value.offsets[..|l.img.offsets|][..|img.offsets|];
          r
        else r
  }

  /**
   * Every offset the first loop records lies between the old end of the
   * code and the new one, in increasing order (what it keeps of the code
   * and the offsets is the contract of LoadInsts).
   */
  lemma {:induction false} LoadInstsShape(input: seq<Byte>, at: nat, capacity: nat, img: Image)
    requires LoadInsts(input, at, capacity, img).Success?
    decreases |input| - at
    ensures var r := LoadInsts(input, at, capacity, img).value;
      forall k :: |img.offsets| <= k < |r.offsets| ==> |img.code| <= r.offsets[k] <= |r.code|
    ensures var r := LoadInsts(input, at, capacity, img).value;
      forall k, l :: |img.offsets| <= k < l < |r.offsets| ==> r.offsets[k] <= r.offsets[l]
  {
    if at < |input| {
      var l := LoadOne(input, at, capacity, img).value;
      var img' := l.img;
      LoadInstsShape(input, l.next, capacity, img');
      var r := LoadInsts(input, at, capacity, img).value;
      assert r == LoadInsts(input, l.next, capacity, img').value;
      ShapeStep(img, img', r);
    }
  }

  /**
   * The offset one turn records, the old end of the code, in front of
   * offsets that keep the shape from the image after that turn on.
   */
  lemma ShapeStep(img: Image, img': Image, r: Image)
    requires img'.offsets == img.offsets + [|img.code|] && |img.code| <= |img'.code| <= |r.code|
    requires |img'.offsets| <= |r.offsets| && r.offsets[..|img'.offsets|] == img'.offsets
    requires forall k :: |img'.offsets| <= k < |r.offsets| ==> |img'.code| <= r.offsets[k] <= |r.code|
    requires forall k, l :: |img'.offsets| <= k < l < |r.offsets| ==> r.offsets[k] <= r.offsets[l]
    ensures forall k :: |img.offsets| <= k < |r.offsets| ==> |img.code| <= r.offsets[k] <= |r.code|
    ensures forall k, l :: |img.offsets| <= k < l < |r.offsets| ==> r.offsets[k] <= r.offsets[l]
  {
    var n := |img.offsets|;
    assert r.offsets[n] == |img.code| by {
      assert r.offsets[n] == r.offsets[..|img'.offsets|][n];
    }
    forall k | n < k < |r.offsets|
      ensures |img.code| <= r.offsets[k] <= |r.code|
    {
    }
    forall k, k' | n <= k < k' < |r.offsets|
      ensures r.offsets[k] <= r.offsets[k']
    {
      if k > n {
      }
    }
  }

  /**
   * opcode_size, the table the build generates into vm_inst.h: the opcode
   * byte plus the operand bytes of the instruction in the machine's layout,
   * and -1 (its default) for numbers past Exit. The table is taken to be
   * the layout load_inst writes (OpSizeLayout); the trapping opcodes, which
   * are never written, have no size here.
   */
  function OpSize(op: nat): (r: int)
    ensures r == -1 <==> ShapeOf(op).Trap? || op > Exit
    ensures r != -1 ==> 1 <= r <= 9
  {
    if op in {Alt, Jump, Call, Ret} then 5
    else if op == Lookup then 8
    else if op == TLookup then 9
    else if op in {OpByte, NByte, OByte, RByte, TPop, TLeftFold, TNew, TCapture, TCommit, Exit} then 2
    else if op in {Str, NStr, OStr, RStr, OpSet, NSet, OSet, RSet, TTag, First} then 3
    else if op in {Memo, MemoFail, TMemo} then 4
    else if op in {Consume, TReplace, TAbort} || SOpen <= op <= SCount then -1
    else if op <= Exit then 1
    else -1
  }

  /** The bytes an operand list takes, for the lists of ShapeOf. */
  lemma WrittenSizes()
    ensures Written([]) == 0 && Written([Zero]) == 4 && Written([Low32(0)]) == 4 && Written([Low32(2)]) == 4
    ensures Written([Low8(0)]) == 1 && Written([Low16(0)]) == 2
    ensures Written([Low8(0), Low16(1)]) == 3 && Written([Low8(0), Low16(1), Low32(2)]) == 7
    ensures Written([Low8(3), Low8(0), Low16(1), Low32(2)]) == 8
  {
    assert [Low8(0), Low16(1)][..1] == [Low8(0)];
    assert [Low8(0), Low16(1), Low32(2)][..2] == [Low8(0), Low16(1)];
    var a, b, c := [Low8(3)], [Low8(3), Low8(0)], [Low8(3), Low8(0), Low16(1)];
    assert b[..1] == a;
    assert Written(b) == 2;
    assert c[..2] == b;
    assert Written(c) == 4;
    assert [Low8(3), Low8(0), Low16(1), Low32(2)][..3] == c;
  }

  /** opcode_size agrees with what load_inst writes for every opcode up to Exit that does not trap. */
  lemma OpSizeLayout(op: nat)
    requires op <= Exit && !ShapeOf(op).Trap?
    ensures ShapeOf(op).JumpTable? ==> OpSize(op) == 1 + 2
    ensures ShapeOf(op).Plain? ==> OpSize(op) == 1 + Written(ShapeOf(op).outs)
  {
    WrittenSizes();
  }

  /** The opcodes whose last 4 operand bytes hold an instruction index that the second loop turns into a distance. */
  predicate IsJumping(op: nat)
  {
    op == Jump || op == Alt || op == Call || op == Lookup || op == TLookup
  }

  /** A 32-bit word read as a two's complement int. */
  function Signed32(w: nat): int
  {
    if w >= Half32 then w - Word32 else w
  }

  /** The int stored in the 4 bytes before end. */
  function WordBefore(bytes: seq<Byte>, end: nat): int
    requires 4 <= end <= |bytes|
  {
    Signed32(FromLittleEndian(bytes[end - 4..end]))
  }

  /** s with w written over it from at on. */
  function Patch(s: seq<Byte>, at: nat, w: seq<Byte>): (r: seq<Byte>)
    requires at + |w| <= |s|
    ensures |r| == |s|
    ensures r[at..at + |w|] == w
    ensures forall i :: 0 <= i < |s| && !(at <= i < at + |w|) ==> r[i] == s[i]
  {
    s[..at] + w + s[at + |w|..]
  }

  /** The program after relocation: the bytecode and the runtime's jump tables. */
  datatype Code = Code(bytes: seq<Byte>, jumps: seq<int>)

  /** Every entry is an instruction index below n. */
  predicate Refs(entries: seq<int>, n: nat)
  {
    forall i :: 0 <= i < |entries| ==> 0 <= entries[i] < n
  }

  /** A relocated jump table: each instruction index becomes its offset minus end, as a C int. */
  function Rebase(entries: seq<int>, offsets: seq<nat>, end: nat): (r: seq<int>)
    requires Refs(entries, |offsets|)
    ensures |r| == |entries|
  {
    seq(|entries|, i requires 0 <= i < |entries| => Signed32((offsets[entries[i]] - end) % Word32))
  }

  /**
   * The jump case of the second loop of mozvm_loader_load, for the
   * instruction from j to end: its last 4 bytes, read as an instruction
   * index, become the distance from end to where that instruction starts,
   * as a 32-bit word; a Jump whose target is a Ret becomes a Ret (the two
   * have the same size). Failure for an index that names no loaded
   * instruction, or a target outside the code (C reads uninitialised or
   * unallocated memory there).
   */
  function RelocJumpAt(c: Code, offsets: seq<nat>, j: nat, end: nat): (r: Result<Code>)
    requires j + 5 <= end <= |c.bytes|
    ensures r.Success? ==> |r.value.bytes| == |c.bytes| && r.value.bytes[..j] == c.bytes[..j] && r.value.jumps == c.jumps
  {
    var ref := WordBefore(c.bytes, end);
    if ref < 0 || ref >= |offsets| then Failure
    else
      var target := offsets[ref];
      if c.bytes[j] == Jump && target >= |c.bytes| then Failure
      else
        var bytes := JumpToRet(c.bytes, j, target);
        var r := PatchDistance(bytes, end, target);
        assert r[..j] == bytes[..j];
        Success(Code(r, c.jumps))
  }

  /** L0: Jump L3 ... L3: Ret becomes L0: Ret: a Jump to a Ret is itself a Ret. */
  function JumpToRet(bytes: seq<Byte>, j: nat, target: nat): (r: seq<Byte>)
    requires j < |bytes| && (bytes[j] == Jump ==> target < |bytes|)
    ensures |r| == |bytes| && r[..j] == bytes[..j]
    ensures r[j] == (if bytes[j] == Jump && bytes[target] == Ret then Ret else bytes[j])
    ensures forall i :: 0 <= i < |bytes| && i != j ==> r[i] == bytes[i]
  {
    if bytes[j] == Jump && bytes[target] == Ret then bytes[j := Ret] else bytes
  }

  /** *ref = L->table[*ref] - (j + shift): the 4 bytes before end become target - end, as a 32-bit word. */
  function PatchDistance(bytes: seq<Byte>, end: nat, target: nat): (r: seq<Byte>)
    requires 4 <= end <= |bytes|
    ensures |r| == |bytes|
    ensures forall i :: 0 <= i < |bytes| && !(end - 4 <= i < end) ==> r[i] == bytes[i]
  {
    Patch(bytes, end - 4, LittleEndian((target - end) % Word32, 4))
  }

  /** The patched word reads back as the distance, taken modulo 2^32. */
  lemma PatchDistanceWord(bytes: seq<Byte>, end: nat, target: nat)
    requires 4 <= end <= |bytes|
    ensures WordBefore(PatchDistance(bytes, end, target), end) == Signed32((target - end) % Word32)
  {
    var w := (target - end) % Word32;
    assert PatchDistance(bytes, end, target)[end - 4..end] == LittleEndian(w, 4);
    ByteWidths();
    LittleEndianRoundTrip(w, 4);
  }

  /**
   * The First case of the second loop: the 256 entries of the jump table
   * whose 16-bit id ends at end are relocated like jump operands. Failure
   * when the tables end before that one does, or an entry names no loaded
   * instruction.
   */
  function RelocTableAt(c: Code, offsets: seq<nat>, end: nat): (r: Result<Code>)
    requires 2 <= end <= |c.bytes|
    ensures r.Success? ==> r.value.bytes == c.bytes && |r.value.jumps| == |c.jumps|
  {
    var base := JmpTableSize * FromLittleEndian(c.bytes[end - 2..end]);
    if base + JmpTableSize > |c.jumps| then Failure
    else
      var entries := c.jumps[base..base + JmpTableSize];
      if !Refs(entries, |offsets|) then Failure
      else Success(Code(c.bytes, c.jumps[..base] + Rebase(entries, offsets, end) + c.jumps[base + JmpTableSize..]))
  }

  /**
   * The body of the second loop of mozvm_loader_load at the instruction at
   * j: relocate a jump operand or a jump table. Failure for an opcode
   * without a size, and for a jump operand or a table id past the end of
   * the code (C reads past the bytes written there); any other
   * instruction is left alone, even one that runs past the end.
   */
  function RelocStep(c: Code, offsets: seq<nat>, j: nat): (r: Result<Code>)
    requires j < |c.bytes|
    ensures r.Success? ==> 1 <= OpSize(c.bytes[j]) && ((IsJumping(c.bytes[j]) || c.bytes[j] == First) ==> j + OpSize(c.bytes[j]) <= |c.bytes|)
    ensures r.Success? ==> |r.value.bytes| == |c.bytes| && |r.value.jumps| == |c.jumps| && r.value.bytes[..j] == c.bytes[..j]
  {
    var op := c.bytes[j];
    var shift := OpSize(op);
    if shift < 1 then Failure
    else if IsJumping(op) then
      if j + shift > |c.bytes| then Failure else RelocJumpAt(c, offsets, j, j + shift)
    else if op == First then
      if j + shift > |c.bytes| then Failure else RelocTableAt(c, offsets, j + shift)
    else Success(c)
  }

  /** The second loop of mozvm_loader_load from j on: walk the bytecode by opcode_size, relocating each instruction. */
  function RelocFrom(c: Code, offsets: seq<nat>, j: nat): (r: Result<Code>)
    decreases |c.bytes| - j
    ensures r.Success? ==> |r.value.bytes| == |c.bytes| && |r.value.jumps| == |c.jumps|
  {
    if j >= |c.bytes| then Success(c)
    else match RelocStep(c, offsets, j)
      case Failure => Failure
      case Success(c') => RelocFrom(c', offsets, j + OpSize(c.bytes[j]))
  }

  /** A jump table entry that names no loaded instruction stops relocation. */
  lemma RelocTableBadEntry(c: Code, offsets: seq<nat>, end: nat, i: nat)
    requires 2 <= end <= |c.bytes|
    requires var base := JmpTableSize * FromLittleEndian(c.bytes[end - 2..end]);
      base + JmpTableSize <= |c.jumps| && i < JmpTableSize && !(0 <= c.jumps[base + i] < |offsets|)
    ensures RelocTableAt(c, offsets, end).Failure?
  {
    var base := JmpTableSize * FromLittleEndian(c.bytes[end - 2..end]);
    assert c.jumps[base..base + JmpTableSize][i] == c.jumps[base + i];
  }

  /** One turn of the second loop, then the rest of it. */
  lemma RelocFromNext(c: Code, offsets: seq<nat>, j: nat)
    requires j < |c.bytes|
    ensures RelocStep(c, offsets, j).Failure? ==> RelocFrom(c, offsets, j).Failure?
    ensures RelocStep(c, offsets, j).Success? ==>
      RelocFrom(c, offsets, j) == RelocFrom(RelocStep(c, offsets, j).value, offsets, j + OpSize(c.bytes[j]))
  {
  }

  /** The 32-bit word of a distance that fits an int reads back as that distance. */
  lemma Signed32Word(x: int)
    requires -(Half32 as int) <= x < Half32
    ensures Signed32(x % Word32) == x
  {
  }

  /** A relocated jump operand holds the distance from the end of the instruction to its target, as a 32-bit word. */
  lemma RelocJumpWord(c: Code, offsets: seq<nat>, j: nat, end: nat)
    requires j + 5 <= end <= |c.bytes|
    requires RelocJumpAt(c, offsets, j, end).Success?
    ensures var ref := WordBefore(c.bytes, end);
      0 <= ref < |offsets| &&
      WordBefore(RelocJumpAt(c, offsets, j, end).value.bytes, end) == Signed32((offsets[ref] - end) % Word32)
  {
    var ref := WordBefore(c.bytes, end);
    var bytes := JumpToRet(c.bytes, j, offsets[ref]);
    assert RelocJumpAt(c, offsets, j, end).value.bytes == PatchDistance(bytes, end, offsets[ref]);
    PatchDistanceWord(bytes, end, offsets[ref]);
  }

  /** When the distance fits an int, the relocated operand is exactly the distance. */
  lemma RelocJumpDistance(c: Code, offsets: seq<nat>, j: nat, end: nat)
    requires j + 5 <= end <= |c.bytes|
    requires RelocJumpAt(c, offsets, j, end).Success?
    requires var ref := WordBefore(c.bytes, end);
      0 <= ref < |offsets| && -(Half32 as int) <= offsets[ref] - end < Half32
    ensures WordBefore(RelocJumpAt(c, offsets, j, end).value.bytes, end) == offsets[WordBefore(c.bytes, end)] - end
  {
    RelocJumpWord(c, offsets, j, end);
    Signed32Word(offsets[WordBefore(c.bytes, end)] - end);
  }

  /** Relocating a jump changes only its operand and, for a Jump to a Ret, its opcode. */
  lemma RelocJumpOpcode(c: Code, offsets: seq<nat>, j: nat, end: nat)
    requires j + 5 <= end <= |c.bytes|
    requires RelocJumpAt(c, offsets, j, end).Success?
    ensures var target := offsets[WordBefore(c.bytes, end)];
      var r := RelocJumpAt(c, offsets, j, end).value.bytes;
      r[j] == (if c.bytes[j] == Jump && c.bytes[target] == Ret then Ret else c.bytes[j]) &&
      forall i :: 0 <= i < |c.bytes| && i != j && !(end - 4 <= i < end) ==> r[i] == c.bytes[i]
  {
  }

  /** A relocated jump table holds the distance from the end of the First instruction to each target. */
  lemma RelocTable(c: Code, offsets: seq<nat>, end: nat)
    requires 2 <= end <= |c.bytes|
    requires RelocTableAt(c, offsets, end).Success?
    ensures var r := RelocTableAt(c, offsets, end).value.jumps;
      var base := JmpTableSize * FromLittleEndian(c.bytes[end - 2..end]);
      base + JmpTableSize <= |c.jumps| &&
      forall i :: 0 <= i < |c.jumps| ==>
        if base <= i < base + JmpTableSize then 0 <= c.jumps[i] < |offsets| && r[i] == Signed32((offsets[c.jumps[i]] - end) % Word32)
        else r[i] == c.jumps[i]
  {
    var base := JmpTableSize * FromLittleEndian(c.bytes[end - 2..end]);
    var r := RelocTableAt(c, offsets, end).value.jumps;
    forall i | 0 <= i < |c.jumps|
      ensures if base <= i < base + JmpTableSize then 0 <= c.jumps[i] < |offsets| && r[i] == Signed32((offsets[c.jumps[i]] - end) % Word32)
        else r[i] == c.jumps[i]
    {
      if base <= i < base + JmpTableSize {
        assert c.jumps[base..base + JmpTableSize][i - base] == c.jumps[i];
      }
    }
  }

  /** Relocation never rewrites the bytes before the instruction it starts at. */
  lemma {:induction false} RelocFromKeeps(c: Code, offsets: seq<nat>, j: nat)
    requires RelocFrom(c, offsets, j).Success?
    decreases |c.bytes| - j
    ensures var r := RelocFrom(c, offsets, j).value;
      |r.bytes| == |c.bytes| && |r.jumps| == |c.jumps| && (j <= |c.bytes| ==> r.bytes[..j] == c.bytes[..j])
  {
    if j < |c.bytes| {
      var c' := RelocStep(c, offsets, j).value;
      var j' := j + OpSize(c.bytes[j]);
      RelocFromKeeps(c', offsets, j');
      if j' <= |c.bytes| {
        assert c'.bytes[..j'][..j] == c'.bytes[..j];
      }
    }
  }

  /** The two Exit instructions that open every loaded program: exit with status 0 and with status 1. */
  const Header: seq<Byte> := [Exit, 0, Exit, 1]

  /** Relocation passes over the header unchanged. */
  lemma RelocHeader(c: Code, offsets: seq<nat>)
    requires |Header| <= |c.bytes| && c.bytes[..|Header|] == Header
    ensures RelocFrom(c, offsets, 0) == RelocFrom(c, offsets, |Header|)
  {
    assert c.bytes[0] == Exit && c.bytes[2] == Exit;
    assert OpSize(Exit) == 2;
    assert RelocStep(c, offsets, 0) == Success(c);
    assert RelocStep(c, offsets, 2) == Success(c);
  }

  /**
   * mozvm_loader_load on the instructions from input position at, with an
   * index table of capacity slots and the runtime's jump tables: write the
   * header, load every instruction, then relocate.
   */
  function LoadProgram(input: seq<Byte>, at: nat, capacity: nat, jumps: seq<int>, tblId: nat): (r: Result<Image>)
    ensures r.Success? ==> |Header| <= |r.value.code| && |r.value.offsets| <= capacity && |r.value.jumps| == |jumps|
  {
    match LoadInsts(input, at, capacity, Image(Header, [], jumps, tblId))
    case Failure => Failure
    case Success(img) =>
      match RelocFrom(Code(img.code, img.jumps), img.offsets, 0)
      case Failure => Failure
      case Success(c) => Success(Image(c.bytes, img.offsets, c.jumps, img.tblId))
  }

  /**
   * A loaded program starts with the header; the index table records, in
   * increasing order, offsets past the header and inside the code; the jump
   * tables keep their size.
   */
  lemma LoadProgramShape(input: seq<Byte>, at: nat, capacity: nat, jumps: seq<int>, tblId: nat)
    requires LoadProgram(input, at, capacity, jumps, tblId).Success?
    ensures var r := LoadProgram(input, at, capacity, jumps, tblId).value;
      |Header| <= |r.code| && r.code[..|Header|] == Header &&
      |r.offsets| <= capacity && |r.jumps| == |jumps|
    ensures var r := LoadProgram(input, at, capacity, jumps, tblId).value;
      forall k :: 0 <= k < |r.offsets| ==> |Header| <= r.offsets[k] <= |r.code|
    ensures var r := LoadProgram(input, at, capacity, jumps, tblId).value;
      forall k, l :: 0 <= k < l < |r.offsets| ==> r.offsets[k] <= r.offsets[l]
  {
    var img := LoadInsts(input, at, capacity, Image(Header, [], jumps, tblId)).value;
    LoadInstsShape(input, at, capacity, Image(Header, [], jumps, tblId));
    var c := Code(img.code, img.jumps);
    RelocHeader(c, img.offsets);
    RelocFromKeeps(c, img.offsets, 4);
  }

  /** input_stream_t: the bytes of the file and the read position. */
  class InputStream {
    const data: seq<Byte>
    var pos: nat

    constructor (data: seq<Byte>)
      ensures this.data == data && pos == 0
    {
      this.data := data;
      pos := 0;
    }

    /** read8: the byte at pos. */
    method Read8() returns (r: Byte)
      requires pos < |data|
      modifies this
      ensures r == data[old(pos)] && pos == old(pos) + 1
    {
      r := data[pos];
      pos := pos + 1;
    }

    /** read16: d1 << 8 | d2, the next two bytes most significant first. */
    method Read16() returns (r: nat)
      requires pos + 2 <= |data|
      modifies this
      ensures r == BigEndian(data[old(pos)..old(pos) + 2]) && pos == old(pos) + 2
    {
      var p := pos;
      var d1: nat := Read8();
      var d2: nat := Read8();
      r := Or(d1 * 256, d2);
      JoinBytes(data, p, d1, d2);
    }

    /** read24: d1 << 16 | d2 << 8 | d3. */
    method Read24() returns (r: nat)
      requires pos + 3 <= |data|
      modifies this
      ensures r == BigEndian(data[old(pos)..old(pos) + 3]) && pos == old(pos) + 3
      ensures r < 0x100_0000
    {
      var p := pos;
      var d1: nat := Read8();
      var d2: nat := Read8();
      var d3: nat := Read8();
      r := Or(Or(d1 * 65536, d2 * 256), d3);
      JoinThreeBytes(data, p, d1, d2, d3);
    }

    /** read32: two read16 values, the first shifted left by 16. */
    method Read32() returns (r: nat)
      requires pos + 4 <= |data|
      modifies this
      ensures r == BigEndian(data[old(pos)..old(pos) + 4]) && pos == old(pos) + 4
    {
      var p := pos;
      var d1 := Read16();
      var d2 := Read16();
      r := Or(d1 * 65536, d2);
      JoinHalves(data, p, d1, d2);
    }

    /** The read that matches a field's width. */
    method ReadField(f: Field) returns (v: nat)
      requires pos + Width(f) <= |data|
      modifies this
      ensures v == BigEndian(data[old(pos)..old(pos) + Width(f)]) && pos == old(pos) + Width(f)
    {
      match f
      case F8 =>
        var b := Read8();
        BigEndianNext(data, old(pos), 0);
        v := b;
      case F16 => v := Read16();
      case F24 => v := Read24();
      case F32 => v := Read32();
    }

    /** The fields fs, read one after another. */
    method ReadFields(fs: seq<Field>) returns (vals: seq<nat>)
      requires pos + Total(fs) <= |data|
      modifies this
      ensures vals == FieldValues(data, old(pos), fs) && pos == old(pos) + Total(fs)
    {
      var p := pos;
      vals := [];
      for i := 0 to |fs|
        invariant pos == p + Total(fs[..i]) && pos <= |data|
        invariant vals == FieldValues(data, p, fs[..i])
      {
        TotalPrefix(fs, i);
        var v := ReadField(fs[i]);
        assert fs[..i + 1][..i] == fs[..i];
        vals := vals + [v];
      }
      assert fs[..|fs|] == fs;
    }
  }

  /** d1 << 16 | d2 << 8 | d3 adds up the three shifted bytes. */
  lemma ThreeBytes(d1: nat, d2: nat, d3: nat)
    requires d2 < 256 && d3 < 256
    ensures Or(Or(d1 * 65536, d2 * 256), d3) == (d1 * 256 + d2) * 256 + d3
    ensures d1 < 256 ==> (d1 * 256 + d2) * 256 + d3 < 0x100_0000
  {
    ByteWidths();
    Pow2Is16And32Bit();
    OrDisjoint(d1, d2 * 256, 16);
    var hi := d1 * 256 + d2;
    assert d1 * 65536 + d2 * 256 == hi * Pow2(8);
    OrDisjoint(hi, d3, 8);
  }

  lemma Assoc<T>(a: seq<T>, b: seq<T>, c: seq<T>)
    ensures (a + b) + c == a + (b + c)
  {
  }

  /** The bytes of one instruction, written field by field, extend the program by the whole instruction. */
  lemma JoinJump(c: seq<Byte>, head: seq<Byte>, ops: seq<Byte>, jump: seq<Byte>)
    ensures ((c + head) + ops) + jump == c + ((head + ops) + jump)
  {
  }

  /** One more byte read most significant first: the value so far shifted by 8, plus the byte. */
  lemma BigEndianNext(data: seq<Byte>, p: nat, n: nat)
    requires p + n < |data|
    ensures BigEndian(data[p..p + n + 1]) == 256 * BigEndian(data[p..p + n]) + data[p + n]
  {
    assert data[p..p + n + 1][..n] == data[p..p + n];
  }

  /** The two bytes of read16, the first shifted by 8 and or-ed with the second, read the two bytes. */
  lemma JoinBytes(data: seq<Byte>, p: nat, d1: nat, d2: nat)
    requires p + 2 <= |data| && d1 == data[p] && d2 == data[p + 1]
    ensures Or(d1 * 256, d2) == BigEndian(data[p..p + 2])
  {
    assert Pow2(8) == 256 by {
      assert Pow2(4) == 16;
    }
    assert Or(d1 * Pow2(8), d2) == d1 * Pow2(8) + d2 by {
      OrDisjoint(d1, d2, 8);
    }
    BigEndianNext(data, p, 0);
    BigEndianNext(data, p, 1);
  }

  /** The three bytes of read24, shifted by 16, 8 and 0 and or-ed, read the three bytes, a 24-bit value. */
  lemma JoinThreeBytes(data: seq<Byte>, p: nat, d1: nat, d2: nat, d3: nat)
    requires p + 3 <= |data| && d1 == data[p] && d2 == data[p + 1] && d3 == data[p + 2]
    ensures Or(Or(d1 * 65536, d2 * 256), d3) == BigEndian(data[p..p + 3]) < 0x100_0000
  {
    ThreeBytes(d1, d2, d3);
    BigEndianNext(data, p, 0);
    BigEndianNext(data, p, 1);
    BigEndianNext(data, p, 2);
  }

  /** The two 16-bit halves of read32, the first shifted by 16 and or-ed with the second, read the four bytes. */
  lemma JoinHalves(data: seq<Byte>, p: nat, d1: nat, d2: nat)
    requires p + 4 <= |data| && d1 == BigEndian(data[p..p + 2]) && d2 == BigEndian(data[p + 2..p + 4])
    ensures Or(d1 * 65536, d2) == BigEndian(data[p..p + 4])
  {
    var a, b := data[p..p + 2], data[p + 2..p + 4];
    assert data[p..p + 4] == a + b;
    assert BigEndian(a + b) == d1 * Pow2(16) + d2 by {
      BigEndianAppend(a, b);
    }
    assert d2 < Pow2(16) by {
      BigEndianBound(b);
    }
    assert Or(d1 * Pow2(16), d2) == d1 * Pow2(16) + d2 by {
      OrDisjoint(d1, d2, 16);
    }
    Pow2Is16And32Bit();
  }

  /** checkFileType: the stream starts with 'N', 'E', 'Z'; the reads stop at the first byte that differs. */
  method CheckFileType(stream: InputStream) returns (r: bool)
    requires stream.pos + 3 <= |stream.data|
    modifies stream
    ensures r <==> stream.data[old(stream.pos)..old(stream.pos) + 3] == [78, 69, 90]
    ensures stream.pos == old(stream.pos) + (if stream.data[old(stream.pos)] != 78 then 1 else if stream.data[old(stream.pos) + 1] != 69 then 2 else 3)
  {
    var p := stream.pos;
    var b := stream.Read8();
    r := b == 78;
    if r {
      b := stream.Read8();
      r := b == 69;
      if r {
        b := stream.Read8();
        r := b == 90;
      }
    }
    assert stream.data[p..p + 3] == [stream.data[p], stream.data[p + 1], stream.data[p + 2]];
  }

  /** checkVersion: the version byte is at least MOZ_SUPPORTED_NEZ_VERSION (0), which every byte meets. */
  method CheckVersion(stream: InputStream) returns (r: bool)
    requires stream.pos < |stream.data|
    modifies stream
    ensures r && stream.pos == old(stream.pos) + 1
  {
    var b := stream.Read8();
    r := b >= 0;
  }

  /**
   * mozvm_loader_t: the output buffer L->buf, the index table L->table, the
   * instruction and jump table counters, and the runtime's jump tables
   * (L->R->C.jumps), which loading fills and relocation rewrites.
   */
  class Loader {
    const out: Writer
    const table: array<nat>
    const jumps: array<int>
    var jmptblId: nat
    var instSize: nat

    ghost predicate Valid()
      reads this, out, out.buf
    {
      out.Valid()
    }

    /**
     * mozvm_loader_init: an empty buffer with room for 4 bytes and an index
     * table of capacity slots. The counters start at 0, as the loader is
     * zero-initialised by its callers.
     */
    constructor Init(capacity: nat, jumps: array<int>)
      ensures Valid() && out.Contents() == [] && fresh(out) && fresh(out.buf) && fresh(out.buf.list) && fresh(table)
      ensures table.Length == capacity && this.jumps == jumps && jmptblId == 0 && instSize == 0
    {
      out := new Writer.Init(4);
      table := new nat[capacity](_ => 0);
      this.jumps := jumps;
      jmptblId := 0;
      instSize := 0;
    }

    /** One operand write: mozvm_loader_write8, write16 or write32 of a field value. */
    method WriteOperand(vals: seq<nat>, w: Out)
      requires Valid() && (!w.Zero? ==> w.k < |vals|)
      modifies out.buf, out.buf.list
      ensures Valid() && out.Contents() == old(out.Contents()) + OutBytes(vals, w)
      ensures out.buf.list == old(out.buf.list) || fresh(out.buf.list)
    {
      ByteWidths();
      match w
      case Low8(k) =>
        out.Write8(vals[k] % 256);
        assert LittleEndian(vals[k] % 256, 0) == [];
      case Low16(k) => out.Write16(vals[k] % 0x1_0000);
      case Low32(k) => out.Write32(vals[k] % Word32);
      case Zero => out.Write32(0);
    }

    /** The writes of one switch case: each operand in turn. */
    method WriteOperands(vals: seq<nat>, ws: seq<Out>)
      requires Valid() && forall i :: 0 <= i < |ws| ==> !ws[i].Zero? ==> ws[i].k < |vals|
      modifies out.buf, out.buf.list
      ensures Valid() && out.Contents() == old(out.Contents()) + Emit(vals, ws)
      ensures out.buf.list == old(out.buf.list) || fresh(out.buf.list)
    {
      ghost var c0 := out.Contents();
      for i := 0 to |ws|
        invariant Valid() && out.Contents() == c0 + Emit(vals, ws[..i])
        invariant out.buf.list == old(out.buf.list) || fresh(out.buf.list)
      {
        EmitNext(vals, ws, i);
        WriteOperand(vals, ws[i]);
        Assoc(c0, Emit(vals, ws[..i]), OutBytes(vals, ws[i]));
      }
      assert ws[..|ws|] == ws;
    }

    /**
     * The switch of mozvm_loader_load_inst for opcode op: read the
     * operands and write them; a First instruction takes the next jump
     * table id, and its table goes to the runtime's tables.
     */
    method LoadOperands(stream: InputStream, op: nat) returns (ok: bool)
      requires Valid() && stream.pos <= |stream.data|
      modifies stream, out.buf, out.buf.list, jumps, this`jmptblId
      ensures Valid() && (out.buf.list == old(out.buf.list) || fresh(out.buf.list))
      ensures var r := Operands(stream.data, old(stream.pos), op, old(jmptblId));
        ok <==> r.Success? && StoreTable(old(jumps[..]), old(jmptblId), r.value.table).Success?
      ensures ok ==> var st := Operands(stream.data, old(stream.pos), op, old(jmptblId)).value;
        out.Contents() == old(out.Contents()) + st.out && stream.pos == st.next &&
        jumps[..] == StoreTable(old(jumps[..]), old(jmptblId), st.table).value &&
        jmptblId == NextId(old(jmptblId), st.table)
    {
      match ShapeOf(op)
      case Trap =>
        return false;
      case JumpTable =>
        ok := LoadTable(stream);
      case Plain(fs, ws) =>
        ok := LoadPlain(stream, fs, ws);
    }

    /** The First case of the switch: the table goes to the runtime's tables, its id to the code. */
    method LoadTable(stream: InputStream) returns (ok: bool)
      requires Valid() && stream.pos <= |stream.data|
      modifies stream, out.buf, out.buf.list, jumps, this`jmptblId
      ensures Valid() && (out.buf.list == old(out.buf.list) || fresh(out.buf.list))
      ensures var r := TableOperands(stream.data, old(stream.pos), old(jmptblId));
        ok <==> r.Success? && StoreTable(old(jumps[..]), old(jmptblId), r.value.table).Success?
      ensures ok ==> var st := TableOperands(stream.data, old(stream.pos), old(jmptblId)).value;
        out.Contents() == old(out.Contents()) + st.out && stream.pos == st.next &&
        jumps[..] == StoreTable(old(jumps[..]), old(jmptblId), st.table).value &&
        jmptblId == old(jmptblId) + 1
    {
      var tblId := jmptblId;
      jmptblId := jmptblId + 1;
      if stream.pos + Total(TableFields()) > |stream.data| {
        return false;
      }
      var vals := stream.ReadFields(TableFields());
      ok := StoreJumpTable(tblId, vals);
      if ok {
        ByteWidths();
        out.Write16(tblId % 0x1_0000);
      }
    }

    /** Every other case of the switch: read the fields, write the operands. */
    method LoadPlain(stream: InputStream, fs: seq<Field>, ws: seq<Out>) returns (ok: bool)
      requires Valid() && stream.pos <= |stream.data| && Wired(fs, ws)
      modifies stream, out.buf, out.buf.list
      ensures Valid() && (out.buf.list == old(out.buf.list) || fresh(out.buf.list))
      ensures var r := PlainOperands(stream.data, old(stream.pos), fs, ws);
        (ok <==> r.Success?) && (ok ==> out.Contents() == old(out.Contents()) + r.value.out && stream.pos == r.value.next)
    {
      if stream.pos + Total(fs) > |stream.data| {
        return false;
      }
      var vals := stream.ReadFields(fs);
      WriteOperands(vals, ws);
      ok := true;
    }

    /** The memcpy of the first 256 entries of a jump table into the runtime's tables, at the slot of tblId. */
    method StoreJumpTable(tblId: nat, vals: seq<nat>) returns (ok: bool)
      requires |vals| == TableEntries
      modifies jumps
      ensures var r := StoreTable(old(jumps[..]), tblId, Table(vals[..JmpTableSize]));
        (ok <==> r.Success?) && (ok ==> jumps[..] == r.value)
    {
      var base := JmpTableSize * (tblId % 0x1_0000);
      if base + JmpTableSize > jumps.Length {
        return false;
      }
      forall i | 0 <= i < JmpTableSize {
        jumps[base + i] := vals[i];
      }
      ghost var stored := StoreTable(old(jumps[..]), tblId, Table(vals[..JmpTableSize]));
      assert jumps[..] == stored.value;
      ok := true;
    }

    /** The trailing Jump: get_next's 24-bit target, written as a Jump with a 32-bit operand. */
    method WriteJump(stream: InputStream)
      requires Valid() && stream.pos + 3 <= |stream.data|
      modifies stream, out.buf, out.buf.list
      ensures Valid() && (out.buf.list == old(out.buf.list) || fresh(out.buf.list))
      ensures stream.pos == old(stream.pos) + 3
      ensures out.Contents() == old(out.Contents()) + TrailingJump(stream.data[old(stream.pos)..old(stream.pos) + 3])
    {
      ghost var c0 := out.Contents();
      ghost var target := stream.data[stream.pos..stream.pos + 3];
      var jump := stream.Read24();
      out.Write8(Jump);
      out.Write32(jump);
      assert TrailingJump(target) == [Jump] + LittleEndian(jump, 4);
      Assoc(c0, [Jump], LittleEndian(jump, 4));
    }

    /** The opcode byte of an instruction, without its flag, copied unless it writes none. */
    method WriteHead(stream: InputStream) returns (op: nat, hasJump: bool)
      requires Valid() && stream.pos < |stream.data|
      modifies stream, out.buf, out.buf.list
      ensures Valid() && (out.buf.list == old(out.buf.list) || fresh(out.buf.list))
      ensures op == stream.data[old(stream.pos)] as nat % 128 && hasJump == (stream.data[old(stream.pos)] >= 128)
      ensures stream.pos == old(stream.pos) + 1 && out.Contents() == old(out.Contents()) + Head(op)
    {
      var b := stream.Read8();
      FlagBits(b);
      hasJump := And(b, JumpFlag) != 0;
      op := And(b, OpcodeMask);
      if Emitted(op) {
        out.Write8(op as Byte);
      }
    }

    /** The trailing Jump of an instruction whose flag is set; false when its target runs past the input. */
    method WriteTrailing(stream: InputStream, trailing: bool, ghost t: Table) returns (ok: bool)
      requires Valid() && stream.pos <= |stream.data|
      modifies stream, out.buf, out.buf.list
      ensures Valid() && (out.buf.list == old(out.buf.list) || fresh(out.buf.list))
      ensures var r := WithJump(stream.data, old(stream.pos), trailing, old(out.Contents()), t);
        (ok <==> r.Success?) && (ok ==> r.value == Step(out.Contents(), stream.pos, t))
    {
      if !trailing {
        return true;
      }
      if stream.pos + 3 > |stream.data| {
        return false;
      }
      WriteJump(stream);
      return true;
    }

    /**
     * mozvm_loader_load_inst: read one instruction from the stream and
     * write it in the machine's layout; a First instruction's jump table
     * goes to the runtime's tables. The result is false where C traps or
     * reads or writes out of bounds.
     */
    method LoadInst(stream: InputStream) returns (ok: bool)
      requires Valid() && stream.pos < |stream.data|
      modifies stream, out.buf, out.buf.list, jumps, this`jmptblId
      ensures Valid() && (out.buf.list == old(out.buf.list) || fresh(out.buf.list))
      ensures var r := Translate(stream.data, old(stream.pos), old(jmptblId));
        ok <==> r.Success? && StoreTable(old(jumps[..]), old(jmptblId), r.value.table).Success?
      ensures ok ==> var st := Translate(stream.data, old(stream.pos), old(jmptblId)).value;
        out.Contents() == old(out.Contents()) + st.out && stream.pos == st.next &&
        jumps[..] == StoreTable(old(jumps[..]), old(jmptblId), st.table).value &&
        jmptblId == NextId(old(jmptblId), st.table)
    {
      ghost var at, c0, jumps0, id0 := stream.pos, out.Contents(), jumps[..], jmptblId;
      var op, hasJump := WriteHead(stream);
      ghost var c1 := out.Contents();
      ok := LoadOperands(stream, op);
      ghost var r := Operands(stream.data, at + 1, op, id0);
      if !ok {
        OperandsFail(stream.data, at, id0, jumps0, r);
        return;
      }
      ghost var o := r.value;
      var trailing := hasJump && !TakesFlag(op);
      ghost var c2 := out.Contents();
      ok := WriteTrailing(stream, trailing, o.table);
      InstJoin(stream.data, at, id0, jumps0, c0, c1, o, trailing, c2, ok, out.Contents(), stream.pos, jumps[..], jmptblId);
    }

    /** *ref = L->table[*ref] - (j + shift): the int before end becomes target - end. */
    method WriteDistance(end: nat, target: nat)
      requires Valid() && 4 <= end <= |out.Contents()|
      modifies out.buf.list
      ensures Valid() && out.Contents() == PatchDistance(old(out.Contents()), end, target)
    {
      var w := LittleEndian((target - end) % Word32, 4);
      forall i | 0 <= i < 4 {
        out.buf.list[end - 4 + i] := w[i];
      }
      assert out.Contents() == PatchDistance(old(out.Contents()), end, target);
    }

    /** The Jump, Alt, Call, Lookup and TLookup cases of the second loop, for the instruction from j to end. */
    method RelocJump(j: nat, end: nat, count: nat) returns (ok: bool)
      requires Valid() && j + 5 <= end <= |out.Contents()| && count <= table.Length
      modifies out.buf.list
      ensures Valid()
      ensures var r := RelocJumpAt(Code(old(out.Contents()), jumps[..]), table[..count], j, end);
        (ok <==> r.Success?) && (ok ==> out.Contents() == r.value.bytes)
    {
      ghost var c := Code(out.Contents(), jumps[..]);
      assert out.buf.list[end - 4..end] == c.bytes[end - 4..end];
      var ref := Signed32(FromLittleEndian(out.buf.list[end - 4..end]));
      if ref < 0 || ref >= count {
        return false;
      }
      var target := table[ref];
      if out.buf.Get(j) == Jump {
        if target >= out.Length() {
          return false;
        }
        if out.buf.Get(target) == Ret {
          out.buf.Set(j, Ret);
        }
      }
      assert out.Contents() == JumpToRet(c.bytes, j, target);
      WriteDistance(end, target);
      return true;
    }

    /** The First case of the second loop: each entry of the jump table whose id ends at end becomes a distance. */
    method RebaseTable(end: nat, count: nat) returns (ok: bool)
      requires Valid() && 2 <= end <= |out.Contents()| && count <= table.Length
      modifies jumps
      ensures var r := RelocTableAt(Code(out.Contents(), old(jumps[..])), table[..count], end);
        (ok <==> r.Success?) && (ok ==> jumps[..] == r.value.jumps)
    {
      ghost var c := Code(out.Contents(), jumps[..]);
      ghost var offsets: seq<nat> := table[..count];
      ghost var id := c.bytes[end - 2..end];
      assert |c.bytes| == out.buf.size <= out.buf.list.Length;
      assert out.buf.list[end - 2..end][0] == id[0] && out.buf.list[end - 2..end][1] == id[1];
      assert out.buf.list[end - 2..end] == id;
      var base := JmpTableSize * FromLittleEndian(out.buf.list[end - 2..end]);
      if base + JmpTableSize > jumps.Length {
        return false;
      }
      ghost var entries := c.jumps[base..base + JmpTableSize];
      for i := 0 to JmpTableSize
        invariant forall k :: 0 <= k < i ==> 0 <= entries[k] < count
        invariant forall k :: 0 <= k < jumps.Length ==>
          jumps[k] == if base <= k < base + i then Signed32((offsets[c.jumps[k]] - end) % Word32) else c.jumps[k]
      {
        var e := jumps[base + i];
        if e < 0 || e >= count {
          RelocTableBadEntry(c, offsets, end, i);
          return false;
        }
        jumps[base + i] := Signed32((table[e] - end) % Word32);
      }
      RelocTable(c, offsets, end);
      assert jumps[..] == RelocTableAt(c, offsets, end).value.jumps;
      return true;
    }

    /** One turn of the second loop of mozvm_loader_load, at the instruction at j. */
    method RelocOne(j: nat, count: nat) returns (ok: bool, shift: int)
      requires Valid() && j < |out.Contents()| && count <= table.Length
      modifies out.buf.list, jumps
      ensures Valid() && shift == OpSize(old(out.Contents())[j])
      ensures var r := RelocStep(Code(old(out.Contents()), old(jumps[..])), table[..count], j);
        (ok <==> r.Success?) && (ok ==> r.value == Code(out.Contents(), jumps[..]))
    {
      ghost var c := Code(out.Contents(), jumps[..]);
      ghost var offsets: seq<nat> := table[..count];
      var op := out.buf.Get(j);
      shift := OpSize(op);
      if shift < 1 {
        return false, shift;
      }
      if IsJumping(op) {
        if j + shift > out.Length() {
          return false, shift;
        }
        assert RelocStep(c, offsets, j) == RelocJumpAt(c, offsets, j, j + shift);
        ok := RelocJump(j, j + shift, count);
      } else if op == First {
        if j + shift > out.Length() {
          return false, shift;
        }
        assert RelocStep(c, offsets, j) == RelocTableAt(c, offsets, j + shift);
        ok := RebaseTable(j + shift, count);
      } else {
        ok := true;
      }
    }

    /** The second loop of mozvm_loader_load: walk the code by opcode_size and relocate each instruction. */
    method Relocate(count: nat) returns (ok: bool)
      requires Valid() && count <= table.Length
      modifies out.buf.list, jumps
      ensures Valid()
      ensures var r := RelocFrom(Code(old(out.Contents()), old(jumps[..])), table[..count], 0);
        (ok <==> r.Success?) && (ok ==> r.value == Code(out.Contents(), jumps[..]))
    {
      ghost var spec := RelocFrom(Code(out.Contents(), jumps[..]), table[..count], 0);
      ghost var n := |out.Contents()|;
      var j := 0;
      while j < out.Length()
        invariant Valid() && |out.Contents()| == n
        invariant spec == RelocFrom(Code(out.Contents(), jumps[..]), table[..count], j)
        decreases n - j
      {
        RelocFromNext(Code(out.Contents(), jumps[..]), table[..count], j);
        var shift;
        ok, shift := RelocOne(j, count);
        if !ok {
          return;
        }
        j := j + shift;
      }
      return true;
    }

    /** The first two instructions of every program: Exit 0 (success) and Exit 1 (failure). */
    method WriteHeader()
      requires Valid()
      modifies out.buf, out.buf.list
      ensures Valid() && (out.buf.list == old(out.buf.list) || fresh(out.buf.list))
      ensures out.Contents() == old(out.Contents()) + Header
    {
      out.Write8(Exit);
      out.Write8(0);
      out.Write8(Exit);
      out.Write8(1);
    }

    /**
     * The first loop of mozvm_loader_load: while input is left, count the
     * instruction, record where its output begins in L->table, and load it.
     */
    method LoadAll(stream: InputStream) returns (ok: bool, count: nat)
      requires Valid() && stream.pos <= |stream.data|
      modifies stream, out.buf, out.buf.list, table, jumps, this`jmptblId, this`instSize
      ensures Valid() && (out.buf.list == old(out.buf.list) || fresh(out.buf.list))
      ensures var r := LoadInsts(stream.data, old(stream.pos), table.Length, Image(old(out.Contents()), [], old(jumps[..]), old(jmptblId)));
        (ok <==> r.Success?) &&
        (ok ==> count <= table.Length && r.value == Image(out.Contents(), table[..count], jumps[..], jmptblId) && instSize == old(instSize) + count)
    {
      ghost var spec := LoadInsts(stream.data, stream.pos, table.Length, Image(out.Contents(), [], jumps[..], jmptblId));
      count := 0;
      while stream.pos < |stream.data|
        invariant Valid() && (out.buf.list == old(out.buf.list) || fresh(out.buf.list))
        invariant count <= table.Length && instSize == old(instSize) + count
        invariant spec == LoadInsts(stream.data, stream.pos, table.Length, Image(out.Contents(), table[..count], jumps[..], jmptblId))
        decreases |stream.data| - stream.pos
      {
        ghost var img := Image(out.Contents(), table[..count], jumps[..], jmptblId);
        ghost var at := stream.pos;
        instSize := instSize + 1;
        if count >= table.Length {
          return false, count;
        }
        table[count] := out.Length();
        count := count + 1;
        assert table[..count] == img.offsets + [|img.code|];
        ok := LoadInst(stream);
        if !ok {
          return;
        }
        assert LoadOne(stream.data, at, table.Length, img).value == Loaded(Image(out.Contents(), table[..count], jumps[..], jmptblId), stream.pos);
      }
      return true, count;
    }

    /**
     * mozvm_loader_load: write the header (Exit 0, Exit 1), load the
     * instructions up to the end of the input, then relocate. inst_size
     * counts the instructions.
     */
    method Load(stream: InputStream) returns (ok: bool)
      requires Valid() && out.Contents() == [] && stream.pos <= |stream.data|
      modifies stream, out.buf, out.buf.list, table, jumps, this`jmptblId, this`instSize
      ensures Valid()
      ensures var r := LoadProgram(stream.data, old(stream.pos), table.Length, old(jumps[..]), old(jmptblId));
        (ok <==> r.Success?) &&
        (ok ==> (out.Contents() == r.value.code && instSize == old(instSize) + |r.value.offsets| &&
          |r.value.offsets| <= table.Length && table[..|r.value.offsets|] == r.value.offsets &&
          jumps[..] == r.value.jumps && jmptblId == r.value.tblId))
    {
      WriteHeader();
      assert out.Contents() == Header;
      var count;
      ok, count := LoadAll(stream);
      if !ok {
        return;
      }
      ok := Relocate(count);
    }
  }
}
