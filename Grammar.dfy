/**
 * The grammar expressions of src/compiler/expression.h that the optimisers
 * rewrite, and a recognition reading of them, against which the rewrites
 * are shown to keep the language a grammar accepts.
 *
 * The reading is PEG recognition over a byte input: each expression,
 * started at a position, either matches up to a later position or fails.
 * Tree-construction nodes consume nothing and never fail. A rule
 * reference and a symbol-table test have no meaning of their own here
 * (their outcome is Unknown), so a rewrite need only agree with the
 * original where the original's outcome is known.
 */
module Grammar {
  import opened Config

  /** Tree-construction nodes (Tcapture .. Ttag): leaves the optimisers leave alone. */
  datatype TreeOp = Tcapture | Tdetree | Tlfold | Tpush | Tpop | Tnew | Treplace | Ttag

  /** Symbol-table tests (Xexists, Xif, Xis, Xisa, Xon, Xmatch): leaves as well. */
  datatype SymbolOp = Xexists | Xif | Xis | Xisa | Xon | Xmatch

  /** Nodes with one child that only scope the symbol table: Xblock, Xlocal, Xsymbol. */
  datatype ScopeOp = Xblock | Xlocal | Xsymbol

  /** The declaration a rule reference is bound to, by its place in the declaration table, if any. */
  datatype Ref = NoDecl | DeclAt(index: nat)

  /** One expression node; its name is the node's type in expression.h. */
  datatype Expr =
    | Empty
    | Invoke(name: seq<Byte>, decl: Ref)
    | Any
    | Byte(byte: Byte)
    | Str(bytes: seq<Byte>)
    | Set(members: set<nat>)
    | And(expr: Expr)
    | Choice(list: seq<Expr>)
    | Fail
    | Not(expr: Expr)
    | Option(expr: Expr)
    | Sequence(list: seq<Expr>)
    | Repetition(list: seq<Expr>)
    | Tree(op: TreeOp, name: seq<Byte>)
    | Symbol(test: SymbolOp, name: seq<Byte>)
    | Scope(scope: ScopeOp, name: seq<Byte>, expr: Expr)

  /** The number of nodes of an expression. */
  function Size(e: Expr): nat
  {
    match e
    case And(x) => 1 + Size(x)
    case Not(x) => 1 + Size(x)
    case Option(x) => 1 + Size(x)
    case Scope(_, _, x) => 1 + Size(x)
    case Choice(l) => 1 + SizeList(l)
    case Sequence(l) => 1 + SizeList(l)
    case Repetition(l) => 1 + SizeList(l)
    case _ => 1
  }

  function SizeList(l: seq<Expr>): nat
  {
    if l == [] then 0 else Size(l[0]) + SizeList(l[1..])
  }

  lemma {:induction false} SizeListAppend(a: seq<Expr>, b: seq<Expr>)
    ensures SizeList(a + b) == SizeList(a) + SizeList(b)
  {
    if a != [] {
      assert (a + b)[1..] == a[1..] + b;
      SizeListAppend(a[1..], b);
    } else {
      assert a + b == b;
    }
  }

  /** bitset_flip: the bytes not in m. */
  function Complement(m: set<nat>): (r: set<nat>)
    ensures forall x: nat :: x in r <==> x < 256 && x !in m
  {
    set x: nat | x < 256 && x !in m
  }

  /** The outcome of matching an expression at a position. */
  datatype Outcome = Matched(pos: nat) | Failed | Unknown

  /** Whether s occurs in input at pos. */
  predicate At(input: seq<Byte>, pos: nat, s: seq<Byte>)
  {
    pos + |s| <= |input| && input[pos..pos + |s|] == s
  }

  function Match(e: Expr, input: seq<Byte>, pos: nat): (o: Outcome)
    requires pos <= |input|
    ensures o.Matched? ==> pos <= o.pos <= |input|
    decreases Size(e), 0, |input| - pos
  {
    match e
    case Empty => Matched(pos)
    case Invoke(_, _) => Unknown
    case Any => if pos < |input| then Matched(pos + 1) else Failed
    case Byte(b) => if pos < |input| && input[pos] == b then Matched(pos + 1) else Failed
    case Str(s) => if At(input, pos, s) then Matched(pos + |s|) else Failed
    case Set(m) => if pos < |input| && input[pos] as nat in m then Matched(pos + 1) else Failed
    case And(x) => (match Match(x, input, pos) case Matched(_) => Matched(pos) case o => o)
    case Choice(l) => MatchChoice(l, input, pos)
    case Fail => Failed
    case Not(x) =>
      (match Match(x, input, pos) case Matched(_) => Failed case Failed => Matched(pos) case Unknown => Unknown)
    case Option(x) => (match Match(x, input, pos) case Failed => Matched(pos) case o => o)
    case Sequence(l) => MatchSeq(l, input, pos)
    case Repetition(l) => MatchRep(l, input, pos)
    case Tree(_, _) => Matched(pos)
    case Symbol(_, _) => Unknown
    case Scope(_, _, x) => Match(x, input, pos)
  }

  /** The children one after the other. */
  function MatchSeq(l: seq<Expr>, input: seq<Byte>, pos: nat): (o: Outcome)
    requires pos <= |input|
    ensures o.Matched? ==> pos <= o.pos <= |input|
    decreases SizeList(l), 1, |input| - pos
  {
    if l == [] then Matched(pos)
    else
      match Match(l[0], input, pos)
      case Matched(p) => MatchSeq(l[1..], input, p)
      case o => o
  }

  /** Ordered choice: the first alternative that does not fail. */
  function MatchChoice(l: seq<Expr>, input: seq<Byte>, pos: nat): (o: Outcome)
    requires pos <= |input|
    ensures o.Matched? ==> pos <= o.pos <= |input|
    decreases SizeList(l), 1, |input| - pos
  {
    if l == [] then Failed
    else
      match Match(l[0], input, pos)
      case Failed => MatchChoice(l[1..], input, pos)
      case o => o
  }

  /** Zero or more rounds of the children, stopping at the first round that fails or consumes nothing. */
  function MatchRep(l: seq<Expr>, input: seq<Byte>, pos: nat): (o: Outcome)
    requires pos <= |input|
    ensures o.Matched? ==> pos <= o.pos <= |input|
    decreases SizeList(l), 2, |input| - pos
  {
    match MatchSeq(l, input, pos)
    case Failed => Matched(pos)
    case Unknown => Unknown
    case Matched(p) => if p == pos then Matched(pos) else MatchRep(l, input, p)
  }

  /** b accepts, and rejects, wherever a has a known outcome, exactly as a does. */
  ghost predicate Refines(a: Expr, b: Expr)
    ensures a == b ==> Refines(a, b)
  {
    forall input: seq<Byte>, pos: nat :: pos <= |input| && Match(a, input, pos) != Unknown ==>
      Match(b, input, pos) == Match(a, input, pos)
  }

  /** The same for two lists of children matched one after the other. */
  ghost predicate ListRefines(a: seq<Expr>, b: seq<Expr>)
  {
    forall input: seq<Byte>, pos: nat :: pos <= |input| && MatchSeq(a, input, pos) != Unknown ==>
      MatchSeq(b, input, pos) == MatchSeq(a, input, pos)
  }

  lemma RefinesTrans(a: Expr, b: Expr, c: Expr)
    requires Refines(a, b) && Refines(b, c)
    ensures Refines(a, c)
  {
  }

  lemma ListRefinesRefl(a: seq<Expr>)
    ensures ListRefines(a, a)
  {
  }

  lemma ListRefinesTrans(a: seq<Expr>, b: seq<Expr>, c: seq<Expr>)
    requires ListRefines(a, b) && ListRefines(b, c)
    ensures ListRefines(a, c)
  {
  }

  /** Matching two lists one after the other. */
  lemma {:induction false} MatchSeqAppend(a: seq<Expr>, b: seq<Expr>, input: seq<Byte>, pos: nat)
    requires pos <= |input|
    decreases |a|
    ensures MatchSeq(a + b, input, pos) ==
      (match MatchSeq(a, input, pos) case Matched(p) => MatchSeq(b, input, p) case o => o)
  {
    if a == [] {
      assert a + b == b;
    } else {
      assert (a + b)[0] == a[0];
      assert (a + b)[1..] == a[1..] + b;
      match Match(a[0], input, pos)
      case Matched(p) => MatchSeqAppend(a[1..], b, input, p);
      case Failed =>
      case Unknown =>
    }
  }

  /** Replacing a piece of a list by a piece that refines it refines the list. */
  lemma Replace(pre: seq<Expr>, m1: seq<Expr>, m2: seq<Expr>, post: seq<Expr>)
    requires ListRefines(m1, m2)
    ensures ListRefines(pre + m1 + post, pre + m2 + post)
  {
    forall input: seq<Byte>, pos: nat | pos <= |input| && MatchSeq(pre + m1 + post, input, pos) != Unknown
      ensures MatchSeq(pre + m2 + post, input, pos) == MatchSeq(pre + m1 + post, input, pos)
    {
      assert pre + m1 + post == pre + (m1 + post);
      assert pre + m2 + post == pre + (m2 + post);
      MatchSeqAppend(pre, m1 + post, input, pos);
      MatchSeqAppend(pre, m2 + post, input, pos);
      var o := MatchSeq(pre, input, pos);
      if o.Matched? {
        MatchSeqAppend(m1, post, input, o.pos);
        MatchSeqAppend(m2, post, input, o.pos);
      }
    }
  }

  /** One child refined is the one-child list refined. */
  lemma Single(x: Expr, y: Expr)
    requires Refines(x, y)
    ensures ListRefines([x], [y])
  {
    forall input: seq<Byte>, pos: nat | pos <= |input|
      ensures MatchSeq([x], input, pos) == Match(x, input, pos)
      ensures MatchSeq([y], input, pos) == Match(y, input, pos)
    {
      assert [x][1..] == [];
      assert [y][1..] == [];
    }
  }

  /** Every child refined, in place. */
  ghost predicate Pointwise(a: seq<Expr>, b: seq<Expr>)
  {
    |a| == |b| && forall i :: 0 <= i < |a| ==> Refines(a[i], b[i])
  }

  lemma {:induction false} PointwiseSeq(a: seq<Expr>, b: seq<Expr>, input: seq<Byte>, pos: nat)
    requires Pointwise(a, b) && pos <= |input| && MatchSeq(a, input, pos) != Unknown
    decreases |a|
    ensures MatchSeq(b, input, pos) == MatchSeq(a, input, pos)
  {
    if a != [] {
      assert Refines(a[0], b[0]);
      assert Pointwise(a[1..], b[1..]) by {
        forall i | 0 <= i < |a[1..]|
          ensures Refines(a[1..][i], b[1..][i])
        {
          assert Refines(a[i + 1], b[i + 1]);
        }
      }
      var o := Match(a[0], input, pos);
      if o.Matched? {
        PointwiseSeq(a[1..], b[1..], input, o.pos);
      }
    }
  }

  lemma {:induction false} PointwiseChoice(a: seq<Expr>, b: seq<Expr>, input: seq<Byte>, pos: nat)
    requires Pointwise(a, b) && pos <= |input| && MatchChoice(a, input, pos) != Unknown
    decreases |a|
    ensures MatchChoice(b, input, pos) == MatchChoice(a, input, pos)
  {
    if a != [] {
      assert Refines(a[0], b[0]);
      assert Pointwise(a[1..], b[1..]) by {
        forall i | 0 <= i < |a[1..]|
          ensures Refines(a[1..][i], b[1..][i])
        {
          assert Refines(a[i + 1], b[i + 1]);
        }
      }
      if Match(a[0], input, pos).Failed? {
        PointwiseChoice(a[1..], b[1..], input, pos);
      }
    }
  }

  /** Refining every child refines the list. */
  lemma PointwiseList(a: seq<Expr>, b: seq<Expr>)
    requires Pointwise(a, b)
    ensures ListRefines(a, b)
  {
    forall input: seq<Byte>, pos: nat | pos <= |input| && MatchSeq(a, input, pos) != Unknown
      ensures MatchSeq(b, input, pos) == MatchSeq(a, input, pos)
    {
      PointwiseSeq(a, b, input, pos);
    }
  }

  lemma {:induction false} RepListRefines(a: seq<Expr>, b: seq<Expr>, input: seq<Byte>, pos: nat)
    requires ListRefines(a, b) && pos <= |input| && MatchRep(a, input, pos) != Unknown
    decreases |input| - pos
    ensures MatchRep(b, input, pos) == MatchRep(a, input, pos)
  {
    var o := MatchSeq(a, input, pos);
    assert o != Unknown;
    if o.Matched? && o.pos != pos {
      RepListRefines(a, b, input, o.pos);
    }
  }

  /** The optimisers rewrite children in place: each kind of node keeps refinement of its children. */
  lemma UnaryCongruence(e: Expr, x: Expr)
    requires e.And? || e.Not? || e.Option? || e.Scope?
    requires Refines(e.expr, x)
    ensures Refines(e, e.(expr := x))
  {
    forall input: seq<Byte>, pos: nat | pos <= |input| && Match(e, input, pos) != Unknown
      ensures Match(e.(expr := x), input, pos) == Match(e, input, pos)
    {
      assert Match(e.expr, input, pos) != Unknown;
    }
  }

  lemma SequenceCongruence(a: seq<Expr>, b: seq<Expr>)
    requires ListRefines(a, b)
    ensures Refines(Sequence(a), Sequence(b))
  {
  }

  lemma RepetitionCongruence(a: seq<Expr>, b: seq<Expr>)
    requires ListRefines(a, b)
    ensures Refines(Repetition(a), Repetition(b))
  {
    forall input: seq<Byte>, pos: nat | pos <= |input| && MatchRep(a, input, pos) != Unknown
      ensures MatchRep(b, input, pos) == MatchRep(a, input, pos)
    {
      RepListRefines(a, b, input, pos);
    }
  }

  lemma ChoiceCongruence(a: seq<Expr>, b: seq<Expr>)
    requires Pointwise(a, b)
    ensures Refines(Choice(a), Choice(b))
  {
    forall input: seq<Byte>, pos: nat | pos <= |input| && MatchChoice(a, input, pos) != Unknown
      ensures MatchChoice(b, input, pos) == MatchChoice(a, input, pos)
    {
      PointwiseChoice(a, b, input, pos);
    }
  }

  // ---- The rewrites the optimisers make, each shown to keep the reading. ----

  /** A one-child list matches as its child. */
  lemma One(x: Expr, input: seq<Byte>, pos: nat)
    requires pos <= |input|
    ensures MatchSeq([x], input, pos) == Match(x, input, pos)
  {
    assert [x][1..] == [];
  }

  /** A two-child list matches as its first child, then its second. */
  lemma Two(x: Expr, y: Expr, input: seq<Byte>, pos: nat)
    requires pos <= |input|
    ensures var o := Match(x, input, pos);
      MatchSeq([x, y], input, pos) == if o.Matched? then Match(y, input, o.pos) else o
  {
    assert [x, y][1..] == [y];
    var o := Match(x, input, pos);
    if o.Matched? {
      One(y, input, o.pos);
    }
  }

  /** Two bytes in a row match as the two-byte string. */
  lemma ConcatBytes(a: Byte, b: Byte)
    ensures ListRefines([Byte(a), Byte(b)], [Str([a, b])])
  {
    forall input: seq<Byte>, pos: nat | pos <= |input|
      ensures MatchSeq([Str([a, b])], input, pos) == MatchSeq([Byte(a), Byte(b)], input, pos)
    {
      One(Str([a, b]), input, pos);
      Two(Byte(a), Byte(b), input, pos);
      if pos + 2 <= |input| {
        assert input[pos..pos + 2] == [input[pos], input[pos + 1]];
      }
    }
  }

  lemma AtAppend(input: seq<Byte>, pos: nat, s: seq<Byte>, t: seq<Byte>)
    ensures At(input, pos, s + t) <==> At(input, pos, s) && At(input, pos + |s|, t)
  {
    if At(input, pos, s) && At(input, pos + |s|, t) {
      assert input[pos..pos + |s| + |t|] == input[pos..pos + |s|] + input[pos + |s|..pos + |s| + |t|];
    }
    if At(input, pos, s + t) {
      assert input[pos..pos + |s|] == (s + t)[..|s|];
      assert input[pos + |s|..pos + |s| + |t|] == (s + t)[|s|..];
    }
  }

  /** Two strings in a row match as their concatenation. */
  lemma ConcatStrings(s: seq<Byte>, t: seq<Byte>)
    ensures ListRefines([Str(s), Str(t)], [Str(s + t)])
  {
    forall input: seq<Byte>, pos: nat | pos <= |input|
      ensures MatchSeq([Str(s + t)], input, pos) == MatchSeq([Str(s), Str(t)], input, pos)
    {
      One(Str(s + t), input, pos);
      Two(Str(s), Str(t), input, pos);
      AtAppend(input, pos, s, t);
    }
  }

  /** A string followed by a byte matches as the string with the byte appended. */
  lemma AppendByte(s: seq<Byte>, b: Byte)
    ensures ListRefines([Str(s), Byte(b)], [Str(s + [b])])
  {
    forall input: seq<Byte>, pos: nat | pos <= |input|
      ensures MatchSeq([Str(s + [b])], input, pos) == MatchSeq([Str(s), Byte(b)], input, pos)
    {
      One(Str(s + [b]), input, pos);
      Two(Str(s), Byte(b), input, pos);
      AtAppend(input, pos, s, [b]);
      if pos + |s| < |input| {
        assert input[pos + |s|..pos + |s| + 1] == [input[pos + |s|]];
      }
    }
  }

  /** "not b, then any byte" matches as the set of every byte but b. */
  lemma NotByteAny(b: Byte)
    ensures ListRefines([Not(Byte(b)), Any], [Set(Complement({b}))])
  {
    forall input: seq<Byte>, pos: nat | pos <= |input|
      ensures MatchSeq([Set(Complement({b}))], input, pos) == MatchSeq([Not(Byte(b)), Any], input, pos)
    {
      One(Set(Complement({b})), input, pos);
      Two(Not(Byte(b)), Any, input, pos);
    }
  }

  /** A nested sequence matches as its children spliced in its place. */
  lemma Flatten(l: seq<Expr>)
    ensures ListRefines([Sequence(l)], l)
  {
    forall input: seq<Byte>, pos: nat | pos <= |input|
      ensures MatchSeq([Sequence(l)], input, pos) == MatchSeq(l, input, pos)
    {
      assert [Sequence(l)][1..] == [];
    }
  }

  /** Empty contributes nothing to a sequence. */
  lemma DropEmpty()
    ensures ListRefines([Empty], [])
  {
    forall input: seq<Byte>, pos: nat | pos <= |input|
      ensures MatchSeq([Empty], input, pos) == Matched(pos)
    {
      assert [Empty][1..] == [];
    }
  }

  /** A sequence of one child is that child. */
  lemma SequenceOfOne(x: Expr)
    ensures Refines(Sequence([x]), x)
  {
    forall input: seq<Byte>, pos: nat | pos <= |input|
      ensures MatchSeq([x], input, pos) == Match(x, input, pos)
    {
      assert [x][1..] == [];
    }
  }

  /** A choice of one alternative is that alternative. */
  lemma ChoiceOfOne(x: Expr)
    ensures Refines(Choice([x]), x)
  {
    forall input: seq<Byte>, pos: nat | pos <= |input|
      ensures MatchChoice([x], input, pos) == Match(x, input, pos)
    {
      assert [x][1..] == [];
    }
  }

  /** A rule reference has no outcome of its own, so any body may stand in for it. */
  lemma InlineRefines(name: seq<Byte>, d: Ref, body: Expr)
    ensures Refines(Invoke(name, d), body)
  {
  }

  predicate IsByteOrSet(e: Expr)
  {
    e.Byte? || e.Set?
  }

  /** The bytes a Byte or Set accepts. */
  function BytesOf(e: Expr): (r: set<nat>)
    requires IsByteOrSet(e)
    ensures forall x: nat :: x in r <==> (if e.Byte? then x == e.byte else x in e.members)
  {
    if e.Byte? then {e.byte as nat} else e.members
  }

  /** The bytes any alternative of a list of Byte and Set nodes accepts. */
  function UnionOf(l: seq<Expr>): (r: set<nat>)
    requires forall i :: 0 <= i < |l| ==> IsByteOrSet(l[i])
    ensures forall x: nat :: x in r <==> exists i :: 0 <= i < |l| && x in BytesOf(l[i])
  {
    if l == [] then {}
    else
      var rest := UnionOf(l[1..]);
      assert forall i :: 1 <= i < |l| ==> l[1..][i - 1] == l[i];
      BytesOf(l[0]) + rest
  }

  lemma {:induction false} ChoiceOfBytes(l: seq<Expr>, input: seq<Byte>, pos: nat)
    requires forall i :: 0 <= i < |l| ==> IsByteOrSet(l[i])
    requires pos <= |input|
    ensures MatchChoice(l, input, pos) == Match(Set(UnionOf(l)), input, pos)
  {
    if l != [] {
      ChoiceOfBytes(l[1..], input, pos);
    }
  }

  /** A choice between bytes and sets of bytes is the set of their union. */
  lemma ByteMap(l: seq<Expr>)
    requires forall i :: 0 <= i < |l| ==> IsByteOrSet(l[i])
    ensures Refines(Choice(l), Set(UnionOf(l)))
  {
    forall input: seq<Byte>, pos: nat | pos <= |input|
      ensures MatchChoice(l, input, pos) == Match(Set(UnionOf(l)), input, pos)
    {
      ChoiceOfBytes(l, input, pos);
    }
  }

  /**
   * isPatternMatchOnly (the same in expression.c and ast.c): built from
   * Empty, Any, Byte, Str, Set and Fail with And, Not, Option, Choice,
   * Sequence and Repetition only.
   */
  predicate IsPatternMatchOnly(e: Expr)
    ensures IsPatternMatchOnly(e) ==> !e.Invoke? && !e.Tree? && !e.Symbol? && !e.Scope?
  {
    match e
    case Empty => true
    case Any => true
    case Byte(_) => true
    case Str(_) => true
    case Set(_) => true
    case Fail => true
    case And(x) => IsPatternMatchOnly(x)
    case Not(x) => IsPatternMatchOnly(x)
    case Option(x) => IsPatternMatchOnly(x)
    case Choice(l) => AllPatternMatchOnly(l)
    case Sequence(l) => AllPatternMatchOnly(l)
    case Repetition(l) => AllPatternMatchOnly(l)
    case _ => false
  }

  /** The FOR_EACH_ARRAY loop over a list's children, stopping at the first that is not pattern-only. */
  predicate AllPatternMatchOnly(l: seq<Expr>)
  {
    l == [] || (IsPatternMatchOnly(l[0]) && AllPatternMatchOnly(l[1..]))
  }

  /** The loop's answer is the answer for every child. */
  lemma {:induction false} AllPatternMatchOnlyEach(l: seq<Expr>)
    ensures AllPatternMatchOnly(l) <==> forall i :: 0 <= i < |l| ==> IsPatternMatchOnly(l[i])
  {
    if l != [] {
      AllPatternMatchOnlyEach(l[1..]);
      assert forall i :: 1 <= i < |l| ==> l[1..][i - 1] == l[i];
    }
  }

  /** A pattern-only expression has a known outcome everywhere: it needs no rule, tree or symbol table. */
  lemma {:induction false} PatternDecided(e: Expr, input: seq<Byte>, pos: nat)
    requires IsPatternMatchOnly(e) && pos <= |input|
    ensures Match(e, input, pos) != Unknown
    decreases Size(e), 0, |input| - pos
  {
    match e
    case And(x) => PatternDecided(x, input, pos);
    case Not(x) => PatternDecided(x, input, pos);
    case Option(x) => PatternDecided(x, input, pos);
    case Choice(l) => ChoiceDecided(l, input, pos);
    case Sequence(l) => SeqDecided(l, input, pos);
    case Repetition(l) => RepDecided(l, input, pos);
    case _ =>
  }

  lemma {:induction false} SeqDecided(l: seq<Expr>, input: seq<Byte>, pos: nat)
    requires AllPatternMatchOnly(l) && pos <= |input|
    ensures MatchSeq(l, input, pos) != Unknown
    decreases SizeList(l), 1, |input| - pos
  {
    if l != [] {
      PatternDecided(l[0], input, pos);
      var o := Match(l[0], input, pos);
      if o.Matched? {
        SeqDecided(l[1..], input, o.pos);
      }
    }
  }

  lemma {:induction false} ChoiceDecided(l: seq<Expr>, input: seq<Byte>, pos: nat)
    requires AllPatternMatchOnly(l) && pos <= |input|
    ensures MatchChoice(l, input, pos) != Unknown
    decreases SizeList(l), 1, |input| - pos
  {
    if l != [] {
      PatternDecided(l[0], input, pos);
      if Match(l[0], input, pos).Failed? {
        ChoiceDecided(l[1..], input, pos);
      }
    }
  }

  lemma {:induction false} RepDecided(l: seq<Expr>, input: seq<Byte>, pos: nat)
    requires AllPatternMatchOnly(l) && pos <= |input|
    ensures MatchRep(l, input, pos) != Unknown
    decreases SizeList(l), 2, |input| - pos
  {
    SeqDecided(l, input, pos);
    var o := MatchSeq(l, input, pos);
    if o.Matched? && o.pos != pos {
      RepDecided(l, input, o.pos);
    }
  }
}
