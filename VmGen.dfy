// tool/vmgen.rb: the generator that turns the instruction definitions
// into the VM's dispatch code (one OP_CASE per DEF line, operand reads
// included) and into opcode_size, the table of instruction widths.
// The input file is the text given to Run; the two output files are the
// strings core and inst.

module VmGen {
  import opened RubyText

  const Tab: string := "    "

  /** The text of a line before its first newline: what `.` can match. */
  function UpToNewline(l: string): (r: string)
    ensures |r| <= |l| && r == l[..|r|] && '\n' !in r
    ensures |r| < |l| ==> l[|r|] == '\n'
  {
    if l == [] || l[0] == '\n' then [] else [l[0]] + UpToNewline(l[1..])
  }

  /** The position of the last c in s, if any. */
  function LastIndex(s: string, c: char): (r: Option<nat>)
    ensures r.Some? ==> r.value < |s| && s[r.value] == c && c !in s[r.value + 1..]
    ensures r.None? ==> c !in s
  {
    if s == [] then None
    else if s[|s| - 1] == c then Some(|s| - 1)
    else
      var r := LastIndex(s[..|s| - 1], c);
      assert s == s[..|s| - 1] + [s[|s| - 1]];
      r
  }

  /**
   * $1 of l =~ /^DEF\((.*)\)/ on a line as gets returns it: the line must
   * start with "DEF(", and the greedy group runs to the last ")" before
   * the newline.
   */
  function DefMatch(l: string): Option<string>
  {
    var t := UpToNewline(l);
    if |t| >= 4 && t[..4] == "DEF(" then
      match LastIndex(t[4..], ')')
      case None => None
      case Some(k) => Some(t[4..4 + k])
    else None
  }

  /** A matched line is "DEF(", the group, ")" and a rest with no ")" before its newline. */
  lemma DefMatchShape(l: string)
    requires DefMatch(l).Some?
    ensures var b := DefMatch(l).value;
      |l| >= |b| + 5 && l[..4] == "DEF(" && l[4..4 + |b|] == b && l[4 + |b|] == ')' &&
      '\n' !in b && ')' !in UpToNewline(l[5 + |b|..])
  {
    var t := UpToNewline(l);
    var k := LastIndex(t[4..], ')').value;
    var b := t[4..4 + k];
    assert t[4..][k + 1..] == t[5 + k..];
    assert t == l[..|t|];
    assert l[..4] == t[..4];
    assert l[4..4 + k] == b by {
      assert l[..|t|][4..4 + k] == l[4..4 + k];
    }
    UpToNewlineTail(l, 5 + k);
  }

  /** Past a cut inside the text before the newline, that text is what is left of it. */
  lemma {:induction false} UpToNewlineTail(l: string, n: nat)
    requires n <= |UpToNewline(l)|
    ensures UpToNewline(l[n..]) == UpToNewline(l)[n..]
  {
    if n > 0 {
      assert l[n..] == l[1..][n - 1..];
      UpToNewlineTail(l[1..], n - 1);
    }
  }

  /** UpToNewline of a line that starts with a piece without newline. */
  lemma {:induction false} UpToNewlineAppend(a: string, rest: string)
    requires '\n' !in a
    ensures UpToNewline(a + rest) == a + UpToNewline(rest)
  {
    if a != [] {
      assert (a + rest)[1..] == a[1..] + rest;
      UpToNewlineAppend(a[1..], rest);
      assert [a[0]] + a[1..] == a;
    } else {
      assert a + rest == rest;
    }
  }

  /** Conversely, "DEF(" + b + ")" and a rest without ")" before its newline match with group b. */
  lemma DefMatchOf(b: string, rest: string)
    requires '\n' !in b && ')' !in UpToNewline(rest)
    ensures DefMatch("DEF(" + b + ")" + rest) == Some(b)
  {
    var head := "DEF(" + (b + ")");
    assert "DEF(" + b + ")" + rest == head + rest;
    HeadNoNewline(b);
    UpToNewlineAppend(head, rest);
    MatchText("DEF(" + b + ")" + rest, b, UpToNewline(rest));
  }

  lemma HeadNoNewline(b: string)
    requires '\n' !in b
    ensures '\n' !in "DEF(" + (b + ")")
  {
    var head := "DEF(" + (b + ")");
    forall k | 0 <= k < |head|
      ensures head[k] != '\n'
    {
      if 4 <= k < 4 + |b| {
        assert head[k] == b[k - 4];
      }
    }
  }

  lemma MatchText(l: string, b: string, u: string)
    requires UpToNewline(l) == "DEF(" + (b + ")") + u && ')' !in u
    ensures DefMatch(l) == Some(b)
  {
    var t := UpToNewline(l);
    assert t[..4] == "DEF(";
    assert t[4..] == (b + ")") + u;
    LastOf(b + ")", u, ')');
    assert t[4..4 + |b|] == b;
  }

  lemma LastOf(a: string, rest: string, c: char)
    requires a != [] && a[|a| - 1] == c && c !in rest
    ensures LastIndex(a + rest, c) == Some(|a| - 1)
  {
    var s := a + rest;
    assert s[|a| - 1] == c;
  }

  /** One DEF: the opcode name and the operand declarations ("type name"), and the type of each. */
  datatype Def = Def(op: string, fields: seq<string>, types: seq<string>)

  /**
   * a = $1.split(","); op = a.shift; the entry [op, *a.map{|e| e.split(" ")[0].strip }]
   * of types. Failure where a field has no word: nil.strip raises and the
   * script stops. An empty group gives op nil, printed as "".
   */
  function ParseDef(body: string): (r: Result<Def>)
    ensures r.Success? ==> |r.value.fields| == |r.value.types|
  {
    var a := Split(body, ',');
    if a == [] then Success(Def("", [], []))
    else
      var fs := a[1..];
      if exists i :: 0 <= i < |fs| && Words(fs[i]) == [] then Failure
      else Success(Def(a[0], fs, TypesOf(fs)))
  }

  /** The type of each operand declaration: its first word, stripped. */
  function TypesOf(fs: seq<string>): (r: seq<string>)
    requires forall i :: 0 <= i < |fs| ==> Words(fs[i]) != []
    ensures |r| == |fs|
  {
    seq(|fs|, i requires 0 <= i < |fs| => Strip(Words(fs[i])[0]))
  }

  /** The read of one operand: TAB + e.strip + " = read_<type>(PC);", type being its first word. */
  function ReadLine(e: string): string
  {
    var s := Strip(e);
    Puts(Tab + s + " = read_" + FirstWordOr(s) + "(PC);")
  }

  function ReadLines(fs: seq<string>): string
  {
    if fs == [] then "" else ReadLines(fs[..|fs| - 1]) + ReadLine(fs[|fs| - 1])
  }

  lemma ReadLinesSnoc(fs: seq<string>, i: nat)
    requires i < |fs|
    ensures ReadLines(fs[..i + 1]) == ReadLines(fs[..i]) + ReadLine(fs[i])
  {
    assert fs[..i + 1][..i] == fs[..i];
  }

  /** What a DEF line becomes: "OP_CASE(op)", "{" on a line of its own, then the reads. */
  function CaseText(d: Def): string
  {
    Puts("OP_CASE(" + d.op + ")\n{") + ReadLines(d.fields)
  }

  /** The output of one line, and the entry it adds to types if it is a DEF. */
  datatype Emitted = Emitted(text: string, def: Option<Def>)

  /** One turn of the while loop: a DEF line, "{\n" (dropped), "}\n" (NEXT(); and "}"), or any other line (copied). */
  function LineOut(l: string): (r: Result<Emitted>)
    ensures DefMatch(l).None? <==> r.Success? && r.value.def.None?
    ensures DefMatch(l).Some? ==> (r.Success? <==> ParseDef(DefMatch(l).value).Success?)
    ensures r.Success? && r.value.def.Some? ==>
      r.value.def == Some(ParseDef(DefMatch(l).value).value) &&
      r.value.text == "OP_CASE(" + r.value.def.value.op + ")\n{\n" + ReadLines(r.value.def.value.fields)
    ensures DefMatch(l).None? && l == "{\n" ==> r.value.text == ""
    ensures DefMatch(l).None? && l == "}\n" ==> r.value.text == Tab + "NEXT();" + "\n" + "}" + "\n"
    ensures DefMatch(l).None? && l != "{\n" && l != "}\n" && l != [] && l[|l| - 1] == '\n' ==> r.value.text == l
  {
    match DefMatch(l)
    case Some(body) =>
      (match ParseDef(body)
       case Failure => Failure
       case Success(d) => CaseHeader(d.op); Success(Emitted(CaseText(d), Some(d))))
    case None => Success(Emitted(PlainText(l), None))
  }

  /** The text a line that is not a definition gives: nothing for "{", NEXT and the closing brace for "}", the line itself otherwise. */
  function PlainText(l: string): (r: string)
    ensures l == "{\n" ==> r == ""
    ensures l == "}\n" ==> r == Tab + "NEXT();" + "\n" + "}" + "\n"
    ensures l != "{\n" && l != "}\n" && l != [] && l[|l| - 1] == '\n' ==> r == l
  {
    if l == "{\n" then ""
    else if l == "}\n" then Puts(Tab + "NEXT();") + Puts("}")
    else Puts(l)
  }

  /** The dispatch code written so far and the types table collected. */
  datatype Output = Output(core: string, defs: seq<Def>)

  function Added(d: Option<Def>): seq<Def>
  {
    if d.Some? then [d.value] else []
  }

  /** The output after one more line. */
  function Step(o: Result<Output>, l: string): Result<Output>
  {
    match o
    case Failure => Failure
    case Success(o) =>
      match LineOut(l)
      case Failure => Failure
      case Success(e) => Success(Output(o.core + e.text, o.defs + Added(e.def)))
  }

  /** The whole loop over the lines ls. */
  function Generate(ls: seq<string>): Result<Output>
  {
    if ls == [] then Success(Output("", [])) else Step(Generate(ls[..|ls| - 1]), ls[|ls| - 1])
  }

  /** The lines are independent: the output of a + b is that of a followed by that of b. */
  lemma {:induction false} GenerateAppend(a: seq<string>, b: seq<string>)
    decreases |b|
    ensures Generate(a + b).Success? <==> Generate(a).Success? && Generate(b).Success?
    ensures Generate(a + b).Success? ==>
      Generate(a + b).value.core == Generate(a).value.core + Generate(b).value.core &&
      Generate(a + b).value.defs == Generate(a).value.defs + Generate(b).value.defs
  {
    if b == [] {
      assert a + b == a;
    } else {
      var b' := b[..|b| - 1];
      assert (a + b)[..|a + b| - 1] == a + b';
      assert (a + b)[|a + b| - 1] == b[|b| - 1];
      GenerateAppend(a, b');
      var l := b[|b| - 1];
      assert Generate(a + b) == Step(Generate(a + b'), l);
      assert Generate(b) == Step(Generate(b'), l);
      if Generate(a + b).Success? {
        var x, y, z := Generate(a).value, Generate(b').value, LineOut(l).value;
        Assoc(x.core, y.core, z.text);
        Assoc(x.defs, y.defs, Added(z.def));
      }
    }
  }

  /** The DEF lines among ls, in file order. */
  function DefLines(ls: seq<string>): (r: seq<string>)
    ensures forall i :: 0 <= i < |r| ==> DefMatch(r[i]).Some?
  {
    if ls == [] then []
    else DefLines(ls[..|ls| - 1]) + (if DefMatch(ls[|ls| - 1]).Some? then [ls[|ls| - 1]] else [])
  }

  /** types gets one entry per DEF line, in file order: the entry of the i-th DEF line comes from that line. */
  lemma {:induction false} GenerateDefs(ls: seq<string>)
    requires Generate(ls).Success?
    ensures var defs := Generate(ls).value.defs;
      |defs| == |DefLines(ls)| &&
      forall i :: 0 <= i < |defs| ==> ParseDef(DefMatch(DefLines(ls)[i]).value) == Success(defs[i])
  {
    if ls != [] {
      var init := ls[..|ls| - 1];
      var l := ls[|ls| - 1];
      GenerateDefs(init);
      var defs := Generate(ls).value.defs;
      var prev := Generate(init).value.defs;
      if DefMatch(l).Some? {
        assert defs == prev + [ParseDef(DefMatch(l).value).value];
        assert DefLines(ls) == DefLines(init) + [l];
        forall i | 0 <= i < |defs|
          ensures ParseDef(DefMatch(DefLines(ls)[i]).value) == Success(defs[i])
        {
          if i < |prev| {
            assert DefLines(ls)[i] == DefLines(init)[i];
          }
        }
      } else {
        assert defs == prev;
        assert DefLines(ls) == DefLines(init);
      }
    }
  }

  /** opcode_size's header, as the heredoc writes it. */
  const Prologue: string := "#ifdef MOZVM_OPCODE_SIZE\nstatic unsigned opcode_size(int opcode)\n{\n    switch (opcode) {\n"

  /** An unknown opcode leaves the switch and gets -1. */
  const Epilogue: string := "    default: break;\n    }\n    return -1;\n}\n#endif /*MOZVM_OPCODE_SIZE*/\n"

  function SizeofOf(t: string): string
  {
    "sizeof(" + t + ")"
  }

  function Sizeofs(types: seq<string>): (r: seq<string>)
    ensures |r| == |types|
  {
    seq(|types|, i requires 0 <= i < |types| => SizeofOf(types[i]))
  }

  /** The width of an instruction: MOZVM_INST_HEADER_SIZE + sizeof(type) for each operand. */
  function SizeExpr(d: Def): string
  {
    Join(["MOZVM_INST_HEADER_SIZE"] + Sizeofs(d.types), " + ")
  }

  function SizeCase(d: Def): string
  {
    Puts(Tab + "case " + d.op + ": return " + SizeExpr(d) + ";")
  }

  function SizeCases(defs: seq<Def>): string
  {
    if defs == [] then "" else SizeCases(defs[..|defs| - 1]) + SizeCase(defs[|defs| - 1])
  }

  /** The vminst file: the whole of opcode_size, inside #ifdef MOZVM_OPCODE_SIZE. */
  function SizeTable(defs: seq<Def>): string
  {
    Prologue + SizeCases(defs) + Epilogue
  }

  /** The terms after the header width: " + sizeof(t)" for each operand type, in order. */
  function SizeTerms(types: seq<string>): string
  {
    if types == [] then "" else " + " + SizeofOf(types[0]) + SizeTerms(types[1..])
  }

  /** An instruction is as wide as the header plus each operand's sizeof, in operand order. */
  lemma SizeExprTerms(d: Def)
    ensures SizeExpr(d) == "MOZVM_INST_HEADER_SIZE" + SizeTerms(d.types)
  {
    JoinTerms("MOZVM_INST_HEADER_SIZE", d.types);
  }

  /** An operand-less instruction is the header alone. */
  lemma BareSizeCase(d: Def)
    requires d.types == []
    ensures SizeCase(d) == Tab + "case " + d.op + ": return " + "MOZVM_INST_HEADER_SIZE" + ";" + "\n"
  {
    assert ["MOZVM_INST_HEADER_SIZE"] + Sizeofs(d.types) == ["MOZVM_INST_HEADER_SIZE"];
    var s := Tab + "case " + d.op + ": return " + "MOZVM_INST_HEADER_SIZE" + ";";
    assert s[|s| - 1] == ';';
  }

  lemma {:induction false} JoinTerms(head: string, types: seq<string>)
    decreases |types|
    ensures Join([head] + Sizeofs(types), " + ") == head + SizeTerms(types)
  {
    var sep := " + ";
    if types == [] {
      assert [head] + Sizeofs(types) == [head];
      assert head + "" == head;
    } else {
      var xs := [head] + Sizeofs(types);
      var ys := Sizeofs(types);
      var x := SizeofOf(types[0]);
      var r := SizeTerms(types[1..]);
      assert xs[1..] == ys;
      assert Join(xs, sep) == head + sep + Join(ys, sep);
      assert ys == [x] + Sizeofs(types[1..]);
      JoinTerms(x, types[1..]);
      assert Join(ys, sep) == x + r;
      Assoc(head, sep, x + r);
      Assoc(sep, x, r);
    }
  }

  lemma SizeCasesSnoc(ds: seq<Def>, i: nat)
    requires i < |ds|
    ensures SizeCases(ds[..i + 1]) == SizeCases(ds[..i]) + SizeCase(ds[i])
  {
    assert ds[..i + 1][..i] == ds[..i];
  }

  /** The size table has one case line per DEF, in DEF order. */
  lemma {:induction false} SizeCasesAppend(a: seq<Def>, b: seq<Def>)
    decreases |b|
    ensures SizeCases(a + b) == SizeCases(a) + SizeCases(b)
  {
    if b == [] {
      assert a + b == a;
    } else {
      var b' := b[..|b| - 1];
      assert (a + b)[..|a + b| - 1] == a + b';
      assert (a + b)[|a + b| - 1] == b[|b| - 1];
      SizeCasesAppend(a, b');
      assert SizeCases(a + b) == SizeCases(a + b') + SizeCase(b[|b| - 1]);
      assert SizeCases(b) == SizeCases(b') + SizeCase(b[|b| - 1]);
      Assoc(SizeCases(a), SizeCases(b'), SizeCase(b[|b| - 1]));
    }
  }

  /**
   * A DEF line written from an opcode and its operand declarations reads
   * back as that opcode and those declarations, when none holds a comma
   * or a newline, the last is not empty and each has a word.
   */
  lemma DefRoundTrip(op: string, fs: seq<string>)
    requires ',' !in op && '\n' !in op
    requires forall i :: 0 <= i < |fs| ==> ',' !in fs[i] && '\n' !in fs[i] && Words(fs[i]) != []
    requires (if fs == [] then op else fs[|fs| - 1]) != ""
    ensures var r := LineOut("DEF(" + Join([op] + fs, ",") + ")\n");
      r.Success? && r.value.def == Some(Def(op, fs, TypesOf(fs))) &&
      r.value.text == "OP_CASE(" + op + ")\n{\n" + ReadLines(fs)
  {
    var xs := [op] + fs;
    var body := Join(xs, ",");
    assert forall i :: 0 <= i < |xs| ==> ',' !in xs[i] && '\n' !in xs[i] by {
      forall i | 0 <= i < |xs|
        ensures ',' !in xs[i] && '\n' !in xs[i]
      {
        if i > 0 {
          assert xs[i] == fs[i - 1];
        }
      }
    }
    RoundTripMatch(xs);
    RoundTripParse(op, fs);
    CaseHeader(op);
  }

  lemma RoundTripMatch(xs: seq<string>)
    requires forall i :: 0 <= i < |xs| ==> '\n' !in xs[i]
    ensures DefMatch("DEF(" + Join(xs, ",") + ")\n") == Some(Join(xs, ","))
  {
    var body := Join(xs, ",");
    JoinNoChar(xs, ",", '\n');
    assert UpToNewline("\n") == "";
    DefMatchOf(body, "\n");
    assert "DEF(" + body + ")\n" == "DEF(" + body + ")" + "\n";
  }

  lemma RoundTripParse(op: string, fs: seq<string>)
    requires ',' !in op
    requires forall i :: 0 <= i < |fs| ==> ',' !in fs[i] && Words(fs[i]) != []
    requires (if fs == [] then op else fs[|fs| - 1]) != ""
    ensures ParseDef(Join([op] + fs, ",")) == Success(Def(op, fs, TypesOf(fs)))
  {
    var xs := [op] + fs;
    assert forall i :: 0 <= i < |xs| ==> ',' !in xs[i] by {
      forall i | 0 <= i < |xs|
        ensures ',' !in xs[i]
      {
        if i > 0 {
          assert xs[i] == fs[i - 1];
        }
      }
    }
    assert xs[|xs| - 1] != "";
    SplitJoin(xs, ',');
    assert xs[1..] == fs;
  }

  lemma CaseHeader(op: string)
    ensures Puts("OP_CASE(" + op + ")\n{") == "OP_CASE(" + op + ")\n{\n"
  {
    var h := "OP_CASE(" + op + ")\n{";
    assert h[|h| - 1] == '{';
  }

  /** Joining pieces without c, with a separator without c, gives a string without c. */
  lemma {:induction false} JoinNoChar(xs: seq<string>, sep: string, c: char)
    requires c !in sep && forall i :: 0 <= i < |xs| ==> c !in xs[i]
    decreases |xs|
    ensures c !in Join(xs, sep)
  {
    if |xs| > 1 {
      JoinNoChar(xs[1..], sep, c);
    }
  }

  /** a.map{|e| e.split(" ")[0].strip }: false where some e has no word (nil.strip raises). */
  method OperandTypes(fs: seq<string>) returns (ok: bool, tys: seq<string>)
    ensures ok <==> forall k :: 0 <= k < |fs| ==> Words(fs[k]) != []
    ensures ok ==> tys == TypesOf(fs)
  {
    tys := [];
    for i := 0 to |fs|
      invariant |tys| == i
      invariant forall k :: 0 <= k < i ==> Words(fs[k]) != [] && tys[k] == Strip(Words(fs[k])[0])
    {
      var ws := Words(fs[i]);
      if ws == [] {
        return false, tys;
      }
      tys := tys + [Strip(ws[0])];
    }
    ok := true;
  }

  /**
   * The generator's state: the vmcore output, the vminst output, the types
   * table (one entry per DEF) and $line.
   */
  class Generator {
    var core: string
    var inst: string
    var types: seq<Def>
    var line: nat

    constructor ()
      ensures core == "" && inst == "" && types == [] && line == 0
    {
      core := "";
      inst := "";
      types := [];
      line := 0;
    }

    /** The body of the while loop, for line l; false where the script raises. */
    method Line(l: string) returns (ok: bool)
      modifies this
      ensures ok <==> LineOut(l).Success?
      ensures ok ==> core == old(core) + LineOut(l).value.text
      ensures ok ==> types == old(types) + Added(LineOut(l).value.def)
      ensures ok ==> inst == old(inst) && line == old(line) + 1
    {
      var m := DefMatch(l);
      if m.Some? {
        ok := WriteDef(m.value);
        if !ok {
          return;
        }
      } else {
        PassThrough(l);
        assert types + Added(None) == types;
      }
      line := line + 1;
      ok := true;
    }

    /** The branches of the loop body for a line that is not a definition. */
    method PassThrough(l: string)
      modifies this`core
      ensures core == old(core) + PlainText(l)
    {
      if l == "{\n" {
      } else if l == "}\n" {
        core := core + Puts(Tab + "NEXT();");
        core := core + Puts("}");
      } else {
        core := core + Puts(l);
      }
    }

    /** A DEF line with group body: the case header, the types entry, one read per operand. */
    method WriteDef(body: string) returns (ok: bool)
      modifies this`core, this`types
      ensures ok <==> ParseDef(body).Success?
      ensures ok ==> core == old(core) + CaseText(ParseDef(body).value)
      ensures ok ==> types == old(types) + [ParseDef(body).value]
    {
      var a := Split(body, ',');
      var op := if a == [] then "" else a[0];
      var fs := if a == [] then [] else a[1..];
      ghost var c0 := core;
      core := core + Puts("OP_CASE(" + op + ")\n{");
      var tys;
      ok, tys := OperandTypes(fs);
      if !ok {
        return;
      }
      types := types + [Def(op, fs, tys)];
      WriteReads(fs);
      Assoc(c0, Puts("OP_CASE(" + op + ")\n{"), ReadLines(fs));
    }

    /** e.strip, and puts TAB + e + " = read_<type>(PC);" for each operand declaration e. */
    method WriteReads(fs: seq<string>)
      modifies this`core
      ensures core == old(core) + ReadLines(fs)
    {
      for i := 0 to |fs|
        invariant core == old(core) + ReadLines(fs[..i])
      {
        var e := Strip(fs[i]);
        var ty := FirstWordOr(e);
        var text := Puts(Tab + e + " = read_" + ty + "(PC);");
        assert text == ReadLine(fs[i]);
        ReadLinesSnoc(fs, i);
        Assoc(old(core), ReadLines(fs[..i]), text);
        core := core + text;
      }
      assert fs[..|fs|] == fs;
    }
    /** opcode_size: the first heredoc, the cases, the second heredoc. */
    method WriteSizeTable()
      modifies this`inst
      ensures inst == old(inst) + SizeTable(types)
    {
      inst := inst + Prologue;
      WriteCases();
      Assoc(old(inst), Prologue, SizeCases(types));
      Assoc(old(inst), Prologue + SizeCases(types), Epilogue);
      inst := inst + Epilogue;
    }

    /** types.each: one case line per entry. */
    method WriteCases()
      modifies this`inst
      ensures inst == old(inst) + SizeCases(types)
    {
      for i := 0 to |types|
        invariant inst == old(inst) + SizeCases(types[..i])
      {
        var e := types[i];
        var size := Join(["MOZVM_INST_HEADER_SIZE"] + Sizeofs(e.types), " + ");
        var text := Puts(Tab + "case " + e.op + ": return " + size + ";");
        assert text == SizeCase(e);
        SizeCasesSnoc(types, i);
        Assoc(old(inst), SizeCases(types[..i]), text);
        inst := inst + text;
      }
      assert types[..|types|] == types;
    }

    /**
     * The script: read the definitions line by line with gets, writing the
     * dispatch code, then write the size table. False where the script
     * raises.
     */
    method Run(text: string) returns (ok: bool)
      requires core == "" && inst == "" && types == [] && line == 0
      modifies this
      ensures var r := Generate(LinesFrom(text, 0));
        (ok <==> r.Success?) &&
        (ok ==> core == r.value.core && types == r.value.defs && inst == SizeTable(types) && line == |LinesFrom(text, 0)|)
    {
      var f := new Reader(text);
      ok := ReadAll(f);
      if ok {
        WriteSizeTable();
      }
    }

    /** The while loop over f.gets. */
    method ReadAll(f: Reader) returns (ok: bool)
      requires core == "" && inst == "" && types == [] && line == 0 && f.pos == 0
      modifies this, f
      ensures var r := Generate(LinesFrom(f.text, 0));
        (ok <==> r.Success?) &&
        (ok ==> core == r.value.core && types == r.value.defs && inst == "" && line == |LinesFrom(f.text, 0)|)
    {
      ghost var read: seq<string> := [];
      var l := f.Gets();
      while l.Some?
        invariant f.pos <= |f.text|
        invariant l.Some? ==> LinesFrom(f.text, 0) == read + [l.value] + LinesFrom(f.text, f.pos)
        invariant l.None? ==> LinesFrom(f.text, 0) == read
        invariant Generate(read) == Success(Output(core, types)) && inst == "" && line == |read|
        decreases |f.text| - f.pos + (if l.Some? then 1 else 0)
      {
        ghost var o := Output(core, types);
        ok := Line(l.value);
        if !ok {
          GenerateFails(read, l.value, LinesFrom(f.text, f.pos));
          return;
        }
        GenerateNext(read, l.value, o);
        ghost var read0, l0, pos0 := read, l.value, f.pos;
        read := read + [l.value];
        l := f.Gets();
        GetsStep(f.text, LinesFrom(f.text, 0), read0, l0, pos0, read, l, f.pos);
      }
      ok := true;
    }
  }

  /** A line that makes the script raise makes the whole run fail. */
  lemma GenerateFails(read: seq<string>, l: string, rest: seq<string>)
    requires LineOut(l).Failure?
    ensures Generate(read + [l] + rest).Failure?
  {
    assert (read + [l])[..|read|] == read;
    GenerateAppend(read + [l], rest);
  }

  lemma GenerateNext(read: seq<string>, l: string, o: Output)
    requires Generate(read) == Success(o) && LineOut(l).Success?
    ensures Generate(read + [l]) == Success(Output(o.core + LineOut(l).value.text, o.defs + Added(LineOut(l).value.def)))
  {
    assert (read + [l])[..|read|] == read;
  }
}
