// vmgen.rb: the older generator. It reads src/instruction.def, writes the
// dispatch code to standard output and the size table to src/vm_inst.h.
// It differs from tool/vmgen.rb in three places: the DEF pattern is not
// anchored, the case header is one line, and the header width is the
// literal 1. The operand list, the types table, the brace and pass-through
// rules and the size-table frame are those of VmGen.

module VmGenLegacy {
  import opened RubyText
  import opened VmGen

  /** "DEF(" starts at q in t. */
  predicate DefAt(t: string, q: nat)
  {
    q + 4 <= |t| && t[q..q + 4] == "DEF("
  }

  /** The first position at or after p where "DEF(" starts in t. */
  function FindDef(t: string, p: nat): (r: Option<nat>)
    requires p <= |t|
    ensures r.Some? ==> p <= r.value && DefAt(t, r.value)
    ensures forall q :: p <= q && (r.None? || q < r.value) ==> !DefAt(t, q)
    decreases |t| - p
  {
    if p + 4 > |t| then None
    else if DefAt(t, p) then Some(p)
    else FindDef(t, p + 1)
  }

  /**
   * $1 of l =~ /DEF\((.*)\)/ on a line as gets returns it: the leftmost
   * "DEF(" that a ")" follows on the line, and the group up to the last ")".
   * If the first "DEF(" has no ")" after it, no later one has.
   */
  function LegacyMatch(l: string): Option<string>
  {
    var t := UpToNewline(l);
    match FindDef(t, 0)
    case None => None
    case Some(p) =>
      match LastIndex(t[p + 4..], ')')
      case None => None
      case Some(k) => Some(t[p + 4..p + 4 + k])
  }

  /** On a line that starts with "DEF(", the unanchored pattern matches as the anchored one does. */
  lemma LegacyMatchAnchored(l: string)
    requires |l| >= 4 && l[..4] == "DEF("
    ensures LegacyMatch(l) == DefMatch(l)
  {
    AnchoredLine(l);
    AnchoredFind(UpToNewline(l));
  }

  /** The line as gets returns it still starts with "DEF(". */
  lemma AnchoredLine(l: string)
    requires |l| >= 4 && l[..4] == "DEF("
    ensures |UpToNewline(l)| >= 4 && UpToNewline(l)[..4] == "DEF("
  {
    var rest := l[4..];
    assert l == "DEF(" + rest;
    assert '\n' !in "DEF(";
    UpToNewlineAppend("DEF(", rest);
    PrefixOf(UpToNewline(l), "DEF(", UpToNewline(rest));
  }

  lemma PrefixOf(t: string, a: string, b: string)
    requires t == a + b
    ensures |a| <= |t| && t[..|a|] == a
  {
  }

  lemma AnchoredFind(t: string)
    requires |t| >= 4 && t[..4] == "DEF("
    ensures FindDef(t, 0) == Some(0)
  {
    assert t[0..4] == t[..4];
  }

  /** A DEF( after other text on the line is a definition here and an ordinary line for tool/vmgen.rb. */
  lemma LegacyMatchesInside()
    ensures LegacyMatch("x DEF(A)\n") == Some("A")
    ensures DefMatch("x DEF(A)\n") == None
  {
    var t := InsideText();
    InsideFind(t);
    InsideGroup(t);
    assert t[..4] != "DEF(" by {
      assert t[0] == 'x';
    }
  }

  lemma InsideFind(t: string)
    requires t == ['x', ' ', 'D', 'E', 'F', '(', 'A', ')']
    ensures FindDef(t, 0) == Some(2)
  {
    assert !DefAt(t, 0) by {
      assert t[0] == 'x';
    }
    assert !DefAt(t, 1) by {
      assert t[1] == ' ';
    }
    assert DefAt(t, 2) by {
      assert t[2..6] == "DEF(";
    }
  }

  lemma InsideGroup(t: string)
    requires t == ['x', ' ', 'D', 'E', 'F', '(', 'A', ')']
    ensures LastIndex(t[6..], ')') == Some(1) && t[6..7] == "A"
  {
    assert t[6..] == ['A', ')'];
  }

  /** The line "x DEF(A)\n" without its newline. */
  lemma InsideText() returns (t: string)
    ensures t == UpToNewline("x DEF(A)\n") && t == ['x', ' ', 'D', 'E', 'F', '(', 'A', ')']
  {
    t := ['x', ' ', 'D', 'E', 'F', '(', 'A', ')'];
    assert '\n' !in t;
    UpToNewlineAppend(t, "\n");
    assert "x DEF(A)\n" == t + "\n";
    assert UpToNewline("\n") == "";
  }

  /** puts TAB + e + " = read_<type>(PC);": the operand declaration as written, unstripped. */
  function LegacyReadLine(e: string): string
  {
    Puts(Tab + e + " = read_" + FirstWordOr(Strip(e)) + "(PC);")
  }

  function LegacyReadLines(fs: seq<string>): string
  {
    if fs == [] then "" else LegacyReadLines(fs[..|fs| - 1]) + LegacyReadLine(fs[|fs| - 1])
  }

  lemma LegacyReadLinesSnoc(fs: seq<string>, i: nat)
    requires i < |fs|
    ensures LegacyReadLines(fs[..i + 1]) == LegacyReadLines(fs[..i]) + LegacyReadLine(fs[i])
  {
    assert fs[..i + 1][..i] == fs[..i];
  }

  /** "OP_CASE(op) {" on one line, then the reads. */
  function LegacyCaseText(d: Def): string
  {
    Puts("OP_CASE(" + d.op + ") {") + LegacyReadLines(d.fields)
  }

  lemma LegacyCaseHeader(op: string)
    ensures Puts("OP_CASE(" + op + ") {") == "OP_CASE(" + op + ") {" + "\n"
  {
    var h := "OP_CASE(" + op + ") {";
    assert h[|h| - 1] == '{';
  }

  /** One turn of the while loop of vmgen.rb. */
  function LegacyLineOut(l: string): (r: Result<Emitted>)
    ensures LegacyMatch(l).None? <==> r.Success? && r.value.def.None?
    ensures LegacyMatch(l).Some? ==> (r.Success? <==> ParseDef(LegacyMatch(l).value).Success?)
    ensures r.Success? && r.value.def.Some? ==>
      r.value.def == Some(ParseDef(LegacyMatch(l).value).value) &&
      r.value.text == "OP_CASE(" + r.value.def.value.op + ") {" + "\n" + LegacyReadLines(r.value.def.value.fields)
    ensures LegacyMatch(l).None? && l == "{\n" ==> r.value.text == ""
    ensures LegacyMatch(l).None? && l == "}\n" ==> r.value.text == Tab + "NEXT();" + "\n" + "}" + "\n"
    ensures LegacyMatch(l).None? && l != "{\n" && l != "}\n" && l != [] && l[|l| - 1] == '\n' ==> r.value.text == l
  {
    match LegacyMatch(l)
    case Some(body) =>
      (match ParseDef(body)
       case Failure => Failure
       case Success(d) => LegacyCaseHeader(d.op); Success(Emitted(LegacyCaseText(d), Some(d))))
    case None => Success(Emitted(PlainText(l), None))
  }

  function LegacyStep(o: Result<Output>, l: string): Result<Output>
  {
    match o
    case Failure => Failure
    case Success(o) =>
      match LegacyLineOut(l)
      case Failure => Failure
      case Success(e) => Success(Output(o.core + e.text, o.defs + Added(e.def)))
  }

  /** The whole loop over the lines ls. */
  function LegacyGenerate(ls: seq<string>): Result<Output>
  {
    if ls == [] then Success(Output("", [])) else LegacyStep(LegacyGenerate(ls[..|ls| - 1]), ls[|ls| - 1])
  }

  lemma LegacyGenerateNext(read: seq<string>, l: string, o: Output)
    requires LegacyGenerate(read) == Success(o) && LegacyLineOut(l).Success?
    ensures LegacyGenerate(read + [l]) == Success(Output(o.core + LegacyLineOut(l).value.text, o.defs + Added(LegacyLineOut(l).value.def)))
  {
    assert (read + [l])[..|read|] == read;
  }

  /** A failed run stays failed whatever lines follow. */
  lemma {:induction false} LegacyGenerateFails(a: seq<string>, b: seq<string>)
    requires LegacyGenerate(a).Failure?
    decreases |b|
    ensures LegacyGenerate(a + b).Failure?
  {
    if b == [] {
      assert a + b == a;
    } else {
      assert (a + b)[..|a + b| - 1] == a + b[..|b| - 1];
      LegacyGenerateFails(a, b[..|b| - 1]);
    }
  }

  lemma LegacyLineFails(read: seq<string>, l: string, rest: seq<string>)
    requires LegacyLineOut(l).Failure?
    ensures LegacyGenerate(read + [l] + rest).Failure?
  {
    assert (read + [l])[..|read|] == read;
    LegacyGenerateFails(read + [l], rest);
  }

  /** The lines vmgen.rb takes for definitions, in file order. */
  function LegacyDefLines(ls: seq<string>): (r: seq<string>)
    ensures forall i :: 0 <= i < |r| ==> LegacyMatch(r[i]).Some?
  {
    if ls == [] then []
    else LegacyDefLines(ls[..|ls| - 1]) + (if LegacyMatch(ls[|ls| - 1]).Some? then [ls[|ls| - 1]] else [])
  }

  /** types gets one entry per definition line, in file order. */
  lemma {:induction false} LegacyGenerateDefs(ls: seq<string>)
    requires LegacyGenerate(ls).Success?
    ensures var defs := LegacyGenerate(ls).value.defs;
      |defs| == |LegacyDefLines(ls)| &&
      forall i :: 0 <= i < |defs| ==> ParseDef(LegacyMatch(LegacyDefLines(ls)[i]).value) == Success(defs[i])
  {
    if ls != [] {
      var init := ls[..|ls| - 1];
      var l := ls[|ls| - 1];
      LegacyGenerateDefs(init);
      var defs := LegacyGenerate(ls).value.defs;
      var prev := LegacyGenerate(init).value.defs;
      if LegacyMatch(l).Some? {
        assert defs == prev + [ParseDef(LegacyMatch(l).value).value];
        assert LegacyDefLines(ls) == LegacyDefLines(init) + [l];
        forall i | 0 <= i < |defs|
          ensures ParseDef(LegacyMatch(LegacyDefLines(ls)[i]).value) == Success(defs[i])
        {
          if i < |prev| {
            assert LegacyDefLines(ls)[i] == LegacyDefLines(init)[i];
          }
        }
      } else {
        assert defs == prev;
        assert LegacyDefLines(ls) == LegacyDefLines(init);
      }
    }
  }

  /** [1, *sizeof(type)...].join(" + "). */
  function LegacySizeExpr(d: Def): string
  {
    Join(["1"] + Sizeofs(d.types), " + ")
  }

  /** The header counts as one unit: 1 + sizeof(type) for each operand; an operand-less instruction is 1. */
  lemma LegacySizeExprTerms(d: Def)
    ensures LegacySizeExpr(d) == "1" + SizeTerms(d.types)
    ensures d.types == [] ==> LegacySizeExpr(d) == "1"
  {
    JoinTerms("1", d.types);
    if d.types == [] {
      assert ["1"] + Sizeofs(d.types) == ["1"];
    }
  }

  function LegacySizeCase(d: Def): string
  {
    Puts(Tab + "case " + d.op + ": return " + LegacySizeExpr(d) + ";")
  }

  function LegacySizeCases(defs: seq<Def>): string
  {
    if defs == [] then "" else LegacySizeCases(defs[..|defs| - 1]) + LegacySizeCase(defs[|defs| - 1])
  }

  lemma LegacySizeCasesSnoc(ds: seq<Def>, i: nat)
    requires i < |ds|
    ensures LegacySizeCases(ds[..i + 1]) == LegacySizeCases(ds[..i]) + LegacySizeCase(ds[i])
  {
    assert ds[..i + 1][..i] == ds[..i];
  }

  /** src/vm_inst.h: opcode_size inside #ifdef MOZVM_OPCODE_SIZE, -1 for an unknown opcode. */
  function LegacySizeTable(defs: seq<Def>): string
  {
    Prologue + LegacySizeCases(defs) + Epilogue
  }

  /** The script's state: standard output, src/vm_inst.h, the types table and $line. */
  class LegacyGenerator {
    var core: string
    var inst: string
    var types: seq<Def>
    var line: nat

    constructor ()
      ensures core == "" && inst == "" && types == [] && line == 0
    {
      core := "";
      inst := "";
      types := [];
      line := 0;
    }

    /** The body of the while loop, for line l; false where the script raises. */
    method Line(l: string) returns (ok: bool)
      modifies this
      ensures ok <==> LegacyLineOut(l).Success?
      ensures ok ==> core == old(core) + LegacyLineOut(l).value.text
      ensures ok ==> types == old(types) + Added(LegacyLineOut(l).value.def)
      ensures ok ==> inst == old(inst) && line == old(line) + 1
    {
      var m := LegacyMatch(l);
      if m.Some? {
        ok := WriteDef(m.value);
        if !ok {
          return;
        }
      } else {
        PassThrough(l);
        assert types + Added(None) == types;
      }
      line := line + 1;
      ok := true;
    }

    /** The branches of the loop body for a line that is not a definition. */
    method PassThrough(l: string)
      modifies this`core
      ensures core == old(core) + PlainText(l)
    {
      if l == "{\n" {
      } else if l == "}\n" {
        core := core + Puts(Tab + "NEXT();");
        core := core + Puts("}");
      } else {
        core := core + Puts(l);
      }
    }

    /** A definition with group body: the one-line case header, the types entry, the reads. */
    method WriteDef(body: string) returns (ok: bool)
      modifies this`core, this`types
      ensures ok <==> ParseDef(body).Success?
      ensures ok ==> core == old(core) + LegacyCaseText(ParseDef(body).value)
      ensures ok ==> types == old(types) + [ParseDef(body).value]
    {
      var a := Split(body, ',');
      var op := if a == [] then "" else a[0];
      var fs := if a == [] then [] else a[1..];
      ghost var c0 := core;
      core := core + Puts("OP_CASE(" + op + ") {");
      var tys;
      ok, tys := OperandTypes(fs);
      if !ok {
        return;
      }
      types := types + [Def(op, fs, tys)];
      WriteReads(fs);
      Assoc(c0, Puts("OP_CASE(" + op + ") {"), LegacyReadLines(fs));
    }

    /** type, name = e.strip.split(" "), and puts TAB + e + " = read_<type>(PC);". */
    method WriteReads(fs: seq<string>)
      modifies this`core
      ensures core == old(core) + LegacyReadLines(fs)
    {
      for i := 0 to |fs|
        invariant core == old(core) + LegacyReadLines(fs[..i])
      {
        var e := fs[i];
        var ty := FirstWordOr(Strip(e));
        var text := Puts(Tab + e + " = read_" + ty + "(PC);");
        assert text == LegacyReadLine(fs[i]);
        LegacyReadLinesSnoc(fs, i);
        Assoc(old(core), LegacyReadLines(fs[..i]), text);
        core := core + text;
      }
      assert fs[..|fs|] == fs;
    }

    method WriteSizeTable()
      modifies this`inst
      ensures inst == old(inst) + LegacySizeTable(types)
    {
      inst := inst + Prologue;
      WriteCases();
      Assoc(old(inst), Prologue, LegacySizeCases(types));
      Assoc(old(inst), Prologue + LegacySizeCases(types), Epilogue);
      inst := inst + Epilogue;
    }

    /** types.each: one case line per entry. */
    method WriteCases()
      modifies this`inst
      ensures inst == old(inst) + LegacySizeCases(types)
    {
      for i := 0 to |types|
        invariant inst == old(inst) + LegacySizeCases(types[..i])
      {
        var e := types[i];
        var size := Join(["1"] + Sizeofs(e.types), " + ");
        var text := Puts(Tab + "case " + e.op + ": return " + size + ";");
        assert text == LegacySizeCase(e);
        LegacySizeCasesSnoc(types, i);
        Assoc(old(inst), LegacySizeCases(types[..i]), text);
        inst := inst + text;
      }
      assert types[..|types|] == types;
    }

    /** The script: the gets loop over src/instruction.def, then src/vm_inst.h. */
    method Run(text: string) returns (ok: bool)
      requires core == "" && inst == "" && types == [] && line == 0
      modifies this
      ensures var r := LegacyGenerate(LinesFrom(text, 0));
        (ok <==> r.Success?) &&
        (ok ==> core == r.value.core && types == r.value.defs && inst == LegacySizeTable(types) && line == |LinesFrom(text, 0)|)
    {
      var f := new Reader(text);
      ok := ReadAll(f);
      if ok {
        WriteSizeTable();
      }
    }

    /** The while loop over f.gets. */
    method ReadAll(f: Reader) returns (ok: bool)
      requires core == "" && inst == "" && types == [] && line == 0 && f.pos == 0
      modifies this, f
      ensures var r := LegacyGenerate(LinesFrom(f.text, 0));
        (ok <==> r.Success?) &&
        (ok ==> core == r.value.core && types == r.value.defs && inst == "" && line == |LinesFrom(f.text, 0)|)
    {
      ghost var read: seq<string> := [];
      var l := f.Gets();
      while l.Some?
        invariant f.pos <= |f.text|
        invariant l.Some? ==> LinesFrom(f.text, 0) == read + [l.value] + LinesFrom(f.text, f.pos)
        invariant l.None? ==> LinesFrom(f.text, 0) == read
        invariant LegacyGenerate(read) == Success(Output(core, types)) && inst == "" && line == |read|
        decreases |f.text| - f.pos + (if l.Some? then 1 else 0)
      {
        ghost var o := Output(core, types);
        ok := Line(l.value);
        if !ok {
          LegacyLineFails(read, l.value, LinesFrom(f.text, f.pos));
          return;
        }
        LegacyGenerateNext(read, l.value, o);
        ghost var read0, l0, pos0 := read, l.value, f.pos;
        read := read + [l.value];
        l := f.Gets();
        GetsStep(f.text, LinesFrom(f.text, 0), read0, l0, pos0, read, l, f.pos);
      }
      ok := true;
    }
  }
}
