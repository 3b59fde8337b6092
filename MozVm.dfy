/*
 * The frame discipline of the parsing machine in src/mozvm.c. The stack is
 * an array of long words; SP and FP are indices into it, and the positions,
 * AST transactions, symbol-table savepoints and code addresses stored in a
 * frame are numbers. A frame is five words: the caller's FP, the input
 * position, the code address to resume at on failure, the AST log size and
 * the symbol-table size. Failure pops the newest frame and backtracks to it.
 */
module MozVm {
  import opened Config
  import opened Buffer
  import Ast
  import SymTable

  /** Word offsets inside a frame (FP_FP .. FP_SYMTBL) and its size FP_MAX. */
  const FpFp: nat := 0
  const FpPos: nat := 1
  const FpNext: nat := 2
  const FpAst: nat := 3
  const FpSymtbl: nat := 4
  const FpMax: nat := 5

  /** Opcode Exit of src/instruction.h. */
  const Exit: Byte := 54
  /** bytecode_base: Exit 0 (success), then Exit 1 (error). */
  const BytecodeBase: seq<Byte> := [Exit, 0, Exit, 1]

  datatype Frame = Frame(fp: int, pos: int, next: int, ast: int, symtbl: int)

  /** The five words PUSH_FRAME stores, in FP_* order. */
  function Words(f: Frame): (r: seq<int>)
    ensures |r| == FpMax
  {
    [f.fp, f.pos, f.next, f.ast, f.symtbl]
  }

  /** The frame whose first word is at index at. */
  function FrameAt(s: seq<int>, at: nat): Frame
    requires at + FpMax <= |s|
  {
    Frame(s[at + FpFp], s[at + FpPos], s[at + FpNext], s[at + FpAst], s[at + FpSymtbl])
  }

  /** s with the words w stored from index at on. */
  function Store(s: seq<int>, at: nat, w: seq<int>): (r: seq<int>)
    requires at + |w| <= |s|
    ensures |r| == |s|
  {
    s[..at] + w + s[at + |w|..]
  }

  /** A stored frame reads back as itself, and the words around it keep their values. */
  lemma FrameRoundTrip(s: seq<int>, at: nat, f: Frame)
    requires at + FpMax <= |s|
    ensures FrameAt(Store(s, at, Words(f)), at) == f
    ensures forall i :: 0 <= i < |s| && !(at <= i < at + FpMax) ==> Store(s, at, Words(f))[i] == s[i]
  {
    var r := Store(s, at, Words(f));
    assert r[at..at + FpMax] == Words(f);
  }

  /** The operand types of the read_* macros, in the small-instruction configuration. */
  datatype Operand = UInt8 | Int8 | UInt16 | Addr | StringId | BitsetId | TagId | JmptblId

  /** sizeof the operand type: the string, bitset, tag and jump-table ids are uint16_t; mozaddr_t is 32 bits. */
  function Size(t: Operand): (r: nat)
    ensures 1 <= r <= 4
  {
    match t
    case UInt8 => 1
    case Int8 => 1
    case Addr => 4
    case _ => 2
  }

  predicate Signed(t: Operand)
  {
    t == Int8 || t == Addr
  }

  /** The value an operand read from the host's little-endian memory, two's complement when signed. */
  function Decode(t: Operand, bytes: seq<Byte>): int
    requires |bytes| == Size(t)
  {
    var u := FromLittleEndian(bytes);
    if Signed(t) && u >= Pow2(8 * Size(t) - 1) then u - Pow2(8 * Size(t)) else u
  }

  /** The values an operand of type t can hold. */
  predicate InRange(t: Operand, v: int)
  {
    if Signed(t) then -(Pow2(8 * Size(t) - 1) as int) <= v < Pow2(8 * Size(t) - 1) else 0 <= v < Pow2(8 * Size(t))
  }

  /** The bytes v is stored as: its two's complement word, least significant byte first. */
  function Encode(t: Operand, v: int): (r: seq<Byte>)
    requires InRange(t, v)
    ensures |r| == Size(t)
  {
    LittleEndian(if v < 0 then v + Pow2(8 * Size(t)) else v, Size(t))
  }

  lemma HalfWord(t: Operand)
    ensures Pow2(8 * Size(t)) == 2 * Pow2(8 * Size(t) - 1)
  {
  }

  /** Every byte string decodes to a value of its type, and encoding that value gives the bytes back. */
  lemma DecodeEncode(t: Operand, bytes: seq<Byte>)
    requires |bytes| == Size(t)
    ensures InRange(t, Decode(t, bytes)) && Encode(t, Decode(t, bytes)) == bytes
  {
    FromLittleEndianRoundTrip(bytes);
    HalfWord(t);
  }

  /** Decoding the bytes a value is stored as gives the value. */
  lemma EncodeDecode(t: Operand, v: int)
    requires InRange(t, v)
    ensures Decode(t, Encode(t, v)) == v
  {
    HalfWord(t);
    var u := if v < 0 then v + Pow2(8 * Size(t)) else v;
    LittleEndianRoundTrip(u, Size(t));
  }

  /** The registers and the stack of one parse: runtime->stack and runtime->fp, the position, HEAD and PC. */
  class Machine {
    const stack: array<int>
    var sp: nat
    var fp: nat
    var pos: nat
    var head: nat
    var pc: nat

    ghost predicate Valid()
      reads this
    {
      sp <= stack.Length && fp <= stack.Length
    }

    /** A machine with an empty stack of n words, all registers 0. */
    constructor Init(n: nat)
      ensures Valid() && stack.Length == n && fresh(stack)
      ensures sp == 0 && fp == 0 && pos == 0 && head == 0 && pc == 0
    {
      stack := new int[n](_ => 0);
      sp := 0;
      fp := 0;
      pos := 0;
      head := 0;
      pc := 0;
    }

    /** The frame FP points at. */
    ghost function Top(): Frame
      reads this, stack
      requires fp + FpMax <= stack.Length
    {
      FrameAt(stack[..], fp)
    }

    /** PUSH_FRAME: the frame [FP, POS, NEXT, AST, SYMTBL] goes at SP; FP becomes SP and SP moves past the frame. */
    method PushFrame(p: int, next: int, ast: int, symtbl: int)
      requires Valid() && sp + FpMax <= stack.Length
      modifies this, stack
      ensures Valid() && fp == old(sp) && sp == old(sp) + FpMax
      ensures stack[..] == Store(old(stack[..]), old(sp), Words(Frame(old(fp), p, next, ast, symtbl)))
      ensures pos == old(pos) && head == old(head) && pc == old(pc)
    {
      stack[sp + FpFp] := fp;
      stack[sp + FpPos] := p;
      stack[sp + FpNext] := next;
      stack[sp + FpAst] := ast;
      stack[sp + FpSymtbl] := symtbl;
      assert stack[..] == Store(old(stack[..]), sp, Words(Frame(fp, p, next, ast, symtbl)));
      fp := sp;
      sp := sp + FpMax;
    }

    /** PUSH: one word at SP, then SP moves on. */
    method Push(x: int)
      requires Valid() && sp < stack.Length
      modifies this, stack
      ensures Valid() && sp == old(sp) + 1 && stack[..] == old(stack[..])[old(sp) := x]
      ensures fp == old(fp) && pos == old(pos) && head == old(head) && pc == old(pc)
    {
      stack[sp] := x;
      sp := sp + 1;
    }

    /** DROP_FRAME: SP goes back to FP and FP to the FP saved in the frame. */
    method DropFrame()
      requires Valid() && fp < stack.Length && 0 <= stack[fp] <= stack.Length
      modifies this
      ensures Valid() && sp == old(fp) && fp == old(stack[fp])
      ensures pos == old(pos) && head == old(head) && pc == old(pc)
    {
      sp := fp;
      fp := stack[fp + FpFp];
    }

    /** POP_FRAME: the four values of the frame at FP, then DROP_FRAME. */
    method PopFrame() returns (p: int, next: int, ast: int, symtbl: int)
      requires Valid() && fp + FpMax <= stack.Length && 0 <= Top().fp <= stack.Length
      modifies this
      ensures Valid() && Frame(fp, p, next, ast, symtbl) == old(Top())
      ensures sp == old(fp)
      ensures pos == old(pos) && head == old(head) && pc == old(pc)
    {
      sp := fp;
      symtbl := stack[fp + FpSymtbl];
      ast := stack[fp + FpAst];
      next := stack[fp + FpNext];
      p := stack[fp + FpPos];
      DropFrame();
    }

    /**
     * FAIL_IMPL: pop a frame. When the saved position lies behind the
     * current one, HEAD first becomes the farthest position reached and
     * the position goes back; otherwise the position stays. The AST log and
     * the symbol table roll back to the saved sizes and PC resumes at the
     * saved address.
     */
    method Fail(ast: Ast.AstMachine, tbl: SymTable.SymTable)
      requires Valid() && ast.Valid() && tbl.Valid()
      requires fp + FpMax <= stack.Length && 0 <= Top().fp <= stack.Length
      requires 0 <= Top().pos && 0 <= Top().next
      requires 0 <= Top().ast <= |ast.Contents()| && 0 <= Top().symtbl <= |tbl.Contents()|
      modifies this, ast.logs, ast.logs.list, tbl.table
      ensures Valid() && ast.Valid() && tbl.Valid()
      ensures var f := old(Top());
        sp == old(fp) && fp == f.fp && pc == f.next &&
        (f.pos < old(pos) ==> pos == f.pos && head == (if old(head) < old(pos) then old(pos) else old(head))) &&
        (f.pos >= old(pos) ==> pos == old(pos) && head == old(head)) &&
        ast.Contents() == old(ast.Contents())[..f.ast] &&
        tbl.Contents() == old(tbl.Contents())[..f.symtbl]
      ensures head >= old(head) && pos <= old(pos) && (pos < old(pos) ==> head >= old(pos))
    {
      var p, jump, astTx, saved := PopFrame();
      if p < pos {
        head := if head < pos then pos else head;
        pos := p;
      }
      ast.RollbackTx(astTx);
      tbl.Rollback(saved);
      pc := jump;
    }

    /**
     * moz_runtime_parse_init: FP starts at the stack top; a frame for
     * position 0 whose failure address is bytecode_base + 2 (Exit 1) is
     * pushed, then bytecode_base itself, and the registers are saved back.
     * base is the address of bytecode_base; PC is returned unchanged.
     */
    method ParseInit(ast: Ast.AstMachine, tbl: SymTable.SymTable, base: nat, code: nat) returns (r: nat)
      requires Valid() && ast.Valid() && tbl.Valid() && sp + FpMax + 1 <= stack.Length
      modifies this, stack
      ensures Valid() && r == code && fp == old(sp) && sp == old(sp) + FpMax + 1
      ensures Top() == Frame(old(sp), 0, base + 2, |ast.Contents()|, |tbl.Contents()|)
      ensures stack[old(sp) + FpMax] == base
      ensures forall i :: 0 <= i < old(sp) ==> stack[i] == old(stack[i])
      ensures pos == old(pos) && head == old(head) && pc == old(pc)
    {
      fp := sp;
      ghost var s0 := stack[..];
      var tx := ast.logs.size;
      var saved := tbl.table.size;
      PushFrame(0, base + 2, tx, saved);
      FrameRoundTrip(s0, fp, Frame(fp, 0, base + 2, tx, saved));
      Push(base);
      r := code;
    }

    /** read_T(PC): the operand at PC, and PC moves past it. */
    method Read(code: array<Byte>, t: Operand) returns (v: int)
      requires pc + Size(t) <= code.Length
      modifies this
      ensures v == Decode(t, code[old(pc)..old(pc) + Size(t)]) && pc == old(pc) + Size(t)
      ensures InRange(t, v)
      ensures sp == old(sp) && fp == old(fp) && pos == old(pos) && head == old(head)
    {
      v := Decode(t, code[pc..pc + Size(t)]);
      DecodeEncode(t, code[pc..pc + Size(t)]);
      pc := pc + Size(t);
    }
  }

  /** POP_FRAME after PUSH_FRAME gives back the pushed values and the registers as they were. */
  method PushPop(m: Machine, p: int, next: int, ast: int, symtbl: int) returns (p': int, next': int, ast': int, symtbl': int)
    requires m.Valid() && m.sp + FpMax <= m.stack.Length
    modifies m, m.stack
    ensures (p', next', ast', symtbl') == (p, next, ast, symtbl)
    ensures m.Valid() && m.sp == old(m.sp) && m.fp == old(m.fp)
  {
    ghost var s0 := m.stack[..];
    ghost var sp0 := m.sp;
    m.PushFrame(p, next, ast, symtbl);
    FrameRoundTrip(s0, sp0, Frame(old(m.fp), p, next, ast, symtbl));
    p', next', ast', symtbl' := m.PopFrame();
  }

  /** A failure right after parse_init, at position 3, resumes at Exit 1 with HEAD at 3 and the stack empty. */
  method InitThenFail() returns (op: Byte, status: Byte, head: nat, pos: nat, sp: nat)
    ensures op == Exit && status == 1 && head == 3 && pos == 0 && sp == 0
  {
    var ast := new Ast.AstMachine.Init(4, 0);
    var tbl := new SymTable.SymTable.Init();
    var m := new Machine.Init(8);
    var base := 100;
    var _ := m.ParseInit(ast, tbl, base, 0);
    m.pos := 3;
    m.Fail(ast, tbl);
    op := BytecodeBase[m.pc - base];
    status := BytecodeBase[m.pc - base + 1];
    head := m.head;
    pos := m.pos;
    sp := m.sp;
  }

  /** 34 12 is the uint16_t 0x1234; ff is the int8_t -1. */
  lemma DecodeSamples()
    ensures Decode(UInt16, [0x34, 0x12]) == 0x1234 && Decode(Int8, [0xff]) == -1
  {
    DecodeUInt16Sample();
    DecodeInt8Sample();
  }

  lemma DecodeUInt16Sample()
    ensures Decode(UInt16, [0x34, 0x12]) == 0x1234
  {
    assert FromLittleEndian([0x12]) == 0x12;
    assert FromLittleEndian([0x34, 0x12]) == 0x34 + 256 * FromLittleEndian([0x12]);
  }

  lemma DecodeInt8Sample()
    ensures Decode(Int8, [0xff]) == -1
  {
    assert Pow2(7) == 128 && Pow2(8) == 256 by { assert Pow2(4) == 16; }
    assert FromLittleEndian([0xff]) == 0xff;
  }

  /** A uint16_t and an int8_t read in turn: 0x1234 from 34 12, then -1 from ff. */
  method ReadOperands() returns (a: int, b: int, pc: nat)
    ensures a == 0x1234 && b == -1 && pc == 3
  {
    var code := new Byte[3];
    code[0], code[1], code[2] := 0x34, 0x12, 0xff;
    var m := new Machine.Init(0);
    assert code[0..2] == [0x34, 0x12] && code[2..3] == [0xff];
    DecodeSamples();
    a := m.Read(code, UInt16);
    b := m.Read(code, Int8);
    pc := m.pc;
  }
}
