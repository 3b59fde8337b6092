/**
 * The AST optimisers over a grammar's rule declarations:
 * moz_ast_optimize and the moz_*_optimize handlers of
 * src/compiler/expression.c, src/compiler/ast.c and src/compiler/compiler.c,
 * and the compile_Invoke binders, which count rule references.
 *
 * The three files share one shape. Each node kind has a handler; the
 * handler of a node with children first optimises those children in place,
 * and moz_Invoke_optimize replaces a rule reference by the referenced
 * declaration's body when the declaration's count or its body allows it.
 * The files differ in the inlining rule, in the Sequence and Choice
 * rewrites they apply, and in how the passes over the table are driven.
 *
 * Expressions are values: a rewrite returns the new node and a flag for the
 * `modified` result of expression.c. The declaration table is a class whose
 * fields the optimiser updates: bodies, reference counts and the list of
 * declarations still in C->decls.
 */
module Optimizer {
  import opened Config
  import opened Grammar
  import opened CharClass
  import opened SequenceOpt
  import opened ChoiceOpt
  import KArray

  /** Which file's handlers the optimiser follows. */
  datatype Rules = ExpressionRules | AstRules | CompilerRules

  /** What moz_Invoke_optimize does with a bound reference. */
  datatype Decision = Keep | Inline | Trap

  /** The outcome of expression.c's repeated passes. */
  datatype Status = Finished | Stopped | OutOfFuel

  /** The body types of the switch in moz_Invoke_optimize: Empty, Any, Byte, Str, Set and Fail. */
  predicate IsLeaf(body: Expr)
  {
    body.Empty? || body.Any? || body.Byte? || body.Str? || body.Set? || body.Fail?
  }

  /**
   * The test of moz_Invoke_optimize on a declaration with count `count`:
   * expression.c inlines a declaration used once (count 2, one for the
   * reference and one from moz_ast_mark_live_decl) or with a pattern-only
   * body, ast.c one with count 1 or a pattern-only body, and compiler.c
   * stops on `int3` for count 1; all three then inline a leaf body.
   */
  function InlineRule(rules: Rules, count: int, body: Expr): (d: Decision)
    ensures d == Trap <==> rules == CompilerRules && count == 1
    ensures IsLeaf(body) && d != Trap ==> d == Inline
  {
    match rules
    case ExpressionRules =>
      if count == 2 || IsPatternMatchOnly(body) then Inline
      else if IsLeaf(body) then Inline
      else Keep
    case AstRules =>
      if count == 1 || IsPatternMatchOnly(body) then Inline
      else if IsLeaf(body) then Inline
      else Keep
    case CompilerRules =>
      if count == 1 then Trap
      else if IsLeaf(body) then Inline
      else Keep
  }

  /** Every leaf body is pattern-only, so the switch of expression.c and ast.c adds nothing. */
  lemma ExpressionInlines(count: int, body: Expr)
    ensures InlineRule(ExpressionRules, count, body) == Inline <==> count == 2 || IsPatternMatchOnly(body)
    ensures InlineRule(ExpressionRules, count, body) != Trap
  {
  }

  lemma AstInlines(count: int, body: Expr)
    ensures InlineRule(AstRules, count, body) == Inline <==> count == 1 || IsPatternMatchOnly(body)
    ensures InlineRule(AstRules, count, body) != Trap
  {
  }

  /** compiler.c traps on a declaration of count 1 and otherwise inlines exactly the leaf bodies. */
  lemma CompilerInlines(count: int, body: Expr)
    ensures InlineRule(CompilerRules, count, body) == Trap <==> count == 1
    ensures InlineRule(CompilerRules, count, body) == Inline <==> count != 1 && IsLeaf(body)
  {
  }

  /** Every table entry names a declaration. */
  ghost predicate InTable(decls: seq<nat>, n: nat)
  {
    forall i :: 0 <= i < |decls| ==> decls[i] < n
  }

  /** No declaration is twice in the table. */
  ghost predicate Distinct(decls: seq<nat>)
  {
    forall i, j :: 0 <= i < j < |decls| ==> decls[i] != decls[j]
  }

  /** compile_Invoke of compiler.c: the last declaration in table order whose name is `name`. */
  function LastNamed(names: seq<seq<Byte>>, decls: seq<nat>, name: seq<Byte>): (r: Ref)
    requires InTable(decls, |names|)
    ensures r.DeclAt? ==> r.index in decls && names[r.index] == name
  {
    if decls == [] then NoDecl
    else if names[decls[|decls| - 1]] == name then DeclAt(decls[|decls| - 1])
    else LastNamed(names, decls[..|decls| - 1], name)
  }

  /** compile_Invoke of expression.c: the first declaration in table order whose name is `name`. */
  function FirstNamed(names: seq<seq<Byte>>, decls: seq<nat>, name: seq<Byte>): (r: Ref)
    requires InTable(decls, |names|)
    ensures r.DeclAt? ==> r.index in decls && names[r.index] == name
  {
    if decls == [] then NoDecl
    else if names[decls[0]] == name then DeclAt(decls[0])
    else FirstNamed(names, decls[1..], name)
  }

  /** LastNamed finds the last entry of that name, and nothing exactly when no entry has it. */
  lemma {:induction false} LastNamedSpec(names: seq<seq<Byte>>, decls: seq<nat>, name: seq<Byte>)
    requires InTable(decls, |names|)
    ensures LastNamed(names, decls, name) == NoDecl <==> forall i :: 0 <= i < |decls| ==> names[decls[i]] != name
    ensures LastNamed(names, decls, name).DeclAt? ==> exists i :: (0 <= i < |decls| &&
      decls[i] == LastNamed(names, decls, name).index && names[decls[i]] == name &&
      forall j :: i < j < |decls| ==> names[decls[j]] != name)
  {
    if decls != [] {
      var front := decls[..|decls| - 1];
      LastNamedSpec(names, front, name);
      if names[decls[|decls| - 1]] != name {
        assert forall i :: 0 <= i < |front| ==> decls[i] == front[i];
        if LastNamed(names, front, name).DeclAt? {
          var i :| 0 <= i < |front| && front[i] == LastNamed(names, front, name).index &&
            names[front[i]] == name && forall j :: i < j < |front| ==> names[front[j]] != name;
          assert forall j :: i < j < |decls| ==> names[decls[j]] != name;
        }
      }
    }
  }

  /** FirstNamed finds the first entry of that name, and nothing exactly when no entry has it. */
  lemma {:induction false} FirstNamedSpec(names: seq<seq<Byte>>, decls: seq<nat>, name: seq<Byte>)
    requires InTable(decls, |names|)
    ensures FirstNamed(names, decls, name) == NoDecl <==> forall i :: 0 <= i < |decls| ==> names[decls[i]] != name
    ensures FirstNamed(names, decls, name).DeclAt? ==> exists i :: (0 <= i < |decls| &&
      decls[i] == FirstNamed(names, decls, name).index && names[decls[i]] == name &&
      forall j :: 0 <= j < i ==> names[decls[j]] != name)
  {
    if decls != [] {
      var rest := decls[1..];
      FirstNamedSpec(names, rest, name);
      if names[decls[0]] != name {
        assert forall i :: 0 <= i < |rest| ==> decls[i + 1] == rest[i];
        if FirstNamed(names, rest, name).DeclAt? {
          var i :| 0 <= i < |rest| && rest[i] == FirstNamed(names, rest, name).index &&
            names[rest[i]] == name && forall j :: 0 <= j < i ==> names[rest[j]] != name;
          assert decls[i + 1] == rest[i];
          assert forall j :: 0 <= j < i + 1 ==> names[decls[j]] != name by {
            forall j | 0 <= j < i + 1
              ensures names[decls[j]] != name
            {
              if j > 0 {
                assert decls[j] == rest[j - 1];
              }
            }
          }
        }
      } else {
        assert decls[0] == FirstNamed(names, decls, name).index;
      }
    }
  }

  /** With one declaration per name, the two binders agree. */
  lemma BindersAgree(names: seq<seq<Byte>>, decls: seq<nat>, name: seq<Byte>)
    requires InTable(decls, |names|)
    requires forall i, j :: 0 <= i < j < |decls| ==> names[decls[i]] != names[decls[j]]
    ensures FirstNamed(names, decls, name) == LastNamed(names, decls, name)
  {
    FirstNamedSpec(names, decls, name);
    LastNamedSpec(names, decls, name);
    if FirstNamed(names, decls, name).DeclAt? {
      var i :| 0 <= i < |decls| && decls[i] == FirstNamed(names, decls, name).index && names[decls[i]] == name &&
        forall j :: 0 <= j < i ==> names[decls[j]] != name;
      var k :| 0 <= k < |decls| && decls[k] == LastNamed(names, decls, name).index && names[decls[k]] == name &&
        forall j :: k < j < |decls| ==> names[decls[j]] != name;
      assert i == k;
    }
  }

  /** The decls[] array of moz_ast_remove_unused_decl: the entries whose count is 1, in table order. */
  function Unused(decls: seq<nat>, refc: seq<int>): (r: seq<nat>)
    requires InTable(decls, |refc|)
    ensures InTable(r, |refc|)
  {
    if decls == [] then []
    else
      var rest := Unused(decls[..|decls| - 1], refc);
      var d := decls[|decls| - 1];
      if refc[d] == 1 then rest + [d] else rest
  }

  /** The table after ARRAY_remove_element of each entry of `removed`, in turn. */
  function RemoveEach(decls: seq<nat>, removed: seq<nat>): seq<nat>
  {
    if removed == [] then decls
    else KArray.RemoveFirst(RemoveEach(decls, removed[..|removed| - 1]), removed[|removed| - 1])
  }

  lemma {:induction false} UnusedMembers(decls: seq<nat>, refc: seq<int>, x: nat)
    requires InTable(decls, |refc|)
    ensures x in Unused(decls, refc) <==> x in decls && refc[x] == 1
  {
    if decls != [] {
      var front := decls[..|decls| - 1];
      UnusedMembers(front, refc, x);
      assert decls == front + [decls[|decls| - 1]];
    }
  }

  /** Removing the first occurrence of o from a table without repeats removes o and nothing else. */
  lemma RemoveFirstMembers(s: seq<nat>, o: nat)
    requires Distinct(s)
    ensures Distinct(KArray.RemoveFirst(s, o))
    ensures forall x :: x in KArray.RemoveFirst(s, o) <==> x in s && x != o
  {
    KArray.FirstIndexSpec(s, o);
    var k := KArray.FirstIndex(s, o);
    if k >= 0 {
      assert KArray.RemoveFirst(s, o) == s[..k] + s[k + 1..];
      DropAtMembers(s, k, o);
    }
  }

  /** Dropping the entry at k of a table without repeats leaves exactly the other entries. */
  lemma DropAtMembers(s: seq<nat>, k: nat, o: nat)
    requires Distinct(s) && k < |s| && s[k] == o
    ensures var r := s[..k] + s[k + 1..]; Distinct(r) && forall x :: x in r <==> x in s && x != o
  {
    var r := s[..k] + s[k + 1..];
    assert forall i :: 0 <= i < |r| ==> r[i] == (if i < k then s[i] else s[i + 1]);
    forall x
      ensures x in r <==> x in s && x != o
    {
      if x in s && x != o {
        var i :| 0 <= i < |s| && s[i] == x;
        assert i != k;
        assert r[if i < k then i else i - 1] == x;
      }
    }
  }

  /** The loop of ARRAY_remove_element calls, one per entry of `removed`, in order. */
  method RemoveEachLoop(decls: seq<nat>, removed: seq<nat>) returns (left: seq<nat>)
    ensures left == RemoveEach(decls, removed)
  {
    left := decls;
    var j := 0;
    while j < |removed|
      invariant 0 <= j <= |removed|
      invariant left == RemoveEach(decls, removed[..j])
    {
      assert removed[..j + 1][..j] == removed[..j];
      left := KArray.RemoveFirst(left, removed[j]);
      j := j + 1;
    }
    assert removed[..j] == removed;
  }

  /** Removing each entry of `removed` in turn leaves exactly the other entries, still without repeats. */
  lemma {:induction false} RemoveEachMembers(decls: seq<nat>, removed: seq<nat>)
    requires Distinct(decls)
    ensures Distinct(RemoveEach(decls, removed))
    ensures forall x :: x in RemoveEach(decls, removed) <==> x in decls && x !in removed
  {
    if removed != [] {
      var front, o := removed[..|removed| - 1], removed[|removed| - 1];
      var mid := RemoveEach(decls, front);
      var left := KArray.RemoveFirst(mid, o);
      assert RemoveEach(decls, removed) == left;
      RemoveEachMembers(decls, front);
      RemoveFirstMembers(mid, o);
      LastSplit(removed, front, o);
      MembersStep(decls, front, o, mid, left, removed);
    }
  }

  lemma LastSplit<T>(s: seq<T>, front: seq<T>, last: T)
    requires s != [] && front == s[..|s| - 1] && last == s[|s| - 1]
    ensures s == front + [last]
  {
  }

  /** Removing o after the entries of front removes the entries of front + [o]. */
  lemma MembersStep(decls: seq<nat>, front: seq<nat>, o: nat, mid: seq<nat>, left: seq<nat>, removed: seq<nat>)
    requires forall x :: x in mid <==> x in decls && x !in front
    requires forall x :: x in left <==> x in mid && x != o
    requires removed == front + [o]
    ensures forall x :: x in left <==> x in decls && x !in removed
  {
  }

  /** The order of the table is kept, so what is left is a sub-list of it. */
  lemma {:induction false} RemoveEachKeepsTable(decls: seq<nat>, removed: seq<nat>, n: nat)
    requires InTable(decls, n)
    ensures InTable(RemoveEach(decls, removed), n)
  {
    if removed != [] {
      var front := removed[..|removed| - 1];
      RemoveEachKeepsTable(decls, front, n);
      var s := RemoveEach(decls, front);
      var r := RemoveEach(decls, removed);
      forall i | 0 <= i < |r|
        ensures r[i] < n
      {
        assert r[i] in multiset(r);
      }
    }
  }

  /** One more table entry: the prefix grows by an entry it did not hold. */
  lemma PrefixStep(decls: seq<nat>, i: nat)
    requires i < |decls| && Distinct(decls)
    ensures decls[i] !in decls[..i]
    ensures |decls[..i + 1]| == i + 1 && decls[..i + 1][..i] == decls[..i] && decls[..i + 1][i] == decls[i]
    ensures forall k :: k in decls[..i + 1] <==> k in decls[..i] || k == decls[i]
  {
    assert decls[..i + 1] == decls[..i] + [decls[i]];
  }

  /** Unused grows by the new entry exactly when its count is 1. */
  lemma UnusedStep(decls: seq<nat>, i: nat, refc: seq<int>)
    requires i < |decls| && InTable(decls, |refc|)
    ensures Unused(decls[..i + 1], refc) == Unused(decls[..i], refc) + (if refc[decls[i]] == 1 then [decls[i]] else [])
  {
    assert decls[..i + 1][..i] == decls[..i];
  }

  lemma {:induction false} SizeInList(l: seq<Expr>, i: nat)
    requires i < |l|
    decreases i
    ensures Size(l[i]) <= SizeList(l)
  {
    if i > 0 {
      SizeInList(l[1..], i - 1);
      assert l[1..][i - 1] == l[i];
    }
  }

  /** The node kinds whose handler optimises the one child. */
  predicate IsUnary(e: Expr)
  {
    e.And? || e.Not? || e.Option? || e.Scope?
  }

  /** moz_compiler_t as far as the optimisers use it: the declaration table. */
  class Compiler {
    /** The file whose handlers this compiler follows. */
    const rules: Rules
    /** decl->name, by the order moz_ast_prepare made the declarations in. */
    var names: seq<seq<Byte>>
    /** decl->body */
    var bodies: seq<Expr>
    /** decl->refc */
    var refc: seq<int>
    /** The count of each declaration's body node. */
    var bodyRefc: seq<int>
    /** C->decls: the declarations still in the table, in table order. */
    var decls: seq<nat>

    ghost predicate Valid()
      reads this
    {
      |names| == |bodies| == |refc| == |bodyRefc| && InTable(decls, |bodies|) && Distinct(decls)
    }

    /** The counts of the call's start, unchanged. */
    twostate predicate CountsKept()
      reads this
    {
      refc == old(refc) && bodyRefc == old(bodyRefc)
    }

    /** Each inline only lowers declaration counts and raises body counts. */
    twostate predicate CountsMoved()
      reads this
    {
      |refc| == |old(refc)| && |bodyRefc| == |old(bodyRefc)| &&
      (forall k :: 0 <= k < |refc| ==> refc[k] <= old(refc[k])) &&
      (forall k :: 0 <= k < |bodyRefc| ==> bodyRefc[k] >= old(bodyRefc[k]))
    }

    /**
     * The table once moz_ast_prepare has made a declaration per name and
     * compile_production has given each its body, which holds one count.
     */
    constructor (rules: Rules, names: seq<seq<Byte>>, bodies: seq<Expr>, refc: seq<int>)
      requires |names| == |bodies| == |refc|
      ensures Valid() && this.rules == rules
      ensures this.names == names && this.bodies == bodies && this.refc == refc
      ensures |bodyRefc| == |bodies| && forall k :: 0 <= k < |bodyRefc| ==> bodyRefc[k] == 1
      ensures |decls| == |names| && forall i :: 0 <= i < |decls| ==> decls[i] == i
    {
      this.rules := rules;
      this.names := names;
      this.bodies := bodies;
      this.refc := refc;
      bodyRefc := seq(|bodies|, _ => 1);
      decls := seq(|names|, i => i);
    }

    /** moz_decl_mark_as_top_level on the first declaration: one more count for the start rule. */
    method MarkTopLevel()
      requires Valid()
      modifies this`refc
      ensures Valid()
      ensures decls == [] ==> refc == old(refc)
      ensures decls != [] ==> refc == old(refc)[decls[0] := old(refc[decls[0]]) + 1]
    {
      if |decls| > 0 {
        refc := refc[decls[0] := refc[decls[0]] + 1];
      }
    }

    /** compile_Invoke of compiler.c: every declaration named `name` is counted once more, and the last is bound. */
    method BindLast(name: seq<Byte>) returns (r: Ref)
      requires Valid()
      modifies this`refc
      ensures Valid()
      ensures r == LastNamed(names, decls, name)
      ensures forall k :: 0 <= k < |refc| ==> refc[k] == old(refc[k]) + (if k in decls && names[k] == name then 1 else 0)
    {
      r := NoDecl;
      var i := 0;
      while i < |decls|
        invariant 0 <= i <= |decls| && Valid()
        invariant r == LastNamed(names, decls[..i], name)
        invariant forall k :: 0 <= k < |refc| ==> refc[k] == old(refc[k]) + (if k in decls[..i] && names[k] == name then 1 else 0)
      {
        var d := decls[i];
        PrefixStep(decls, i);
        if names[d] == name {
          r := DeclAt(d);
          refc := refc[d := refc[d] + 1];
        }
        i := i + 1;
      }
      assert decls[..i] == decls;
    }

    /** compile_Invoke of expression.c: the first declaration named `name` is bound and retained once. */
    method BindFirst(name: seq<Byte>) returns (r: Ref)
      requires Valid()
      modifies this`refc
      ensures Valid()
      ensures r == FirstNamed(names, decls, name)
      ensures r.DeclAt? ==> r.index in decls && r.index < |refc|
      ensures r.NoDecl? ==> refc == old(refc)
      ensures r.DeclAt? ==> refc == old(refc)[r.index := old(refc[r.index]) + 1]
    {
      var i := FindNamed(name);
      if i == |decls| {
        return NoDecl;
      }
      r := DeclAt(decls[i]);
      refc := refc[decls[i] := refc[decls[i]] + 1];
    }

    /** The loop of compile_Invoke: the index in the table of the first declaration named `name`, or the table's size. */
    method FindNamed(name: seq<Byte>) returns (i: nat)
      requires Valid()
      ensures i <= |decls|
      ensures FirstNamed(names, decls, name) == if i == |decls| then NoDecl else DeclAt(decls[i])
    {
      i := 0;
      while i < |decls| && names[decls[i]] != name
        invariant 0 <= i <= |decls|
        invariant FirstNamed(names, decls[i..], name) == FirstNamed(names, decls, name)
      {
        assert decls[i..][1..] == decls[i + 1..];
        i := i + 1;
      }
    }

    /**
     * moz_ast_do_inline on a reference to declaration k held `invokeRefc`
     * times: the body takes one more count. ast.c and compiler.c lower the
     * reference's and the declaration's counts by one; expression.c
     * releases the reference (asserting its count is positive), which
     * releases the declaration when that was its last count.
     */
    method DoInline(k: nat, invokeRefc: int) returns (r: Result<Expr>, invokeLeft: int)
      requires Valid() && k < |bodies|
      modifies this`refc, this`bodyRefc
      ensures Valid() && CountsMoved()
      ensures invokeLeft == invokeRefc - 1
      ensures r.Failure? <==> rules == ExpressionRules && (invokeRefc <= 0 || (invokeRefc == 1 && old(refc[k]) <= 0))
      ensures r.Success? ==> r.value == bodies[k]
      ensures r.Success? ==> bodyRefc == old(bodyRefc)[k := old(bodyRefc[k]) + 1]
      ensures r.Success? && (rules != ExpressionRules || invokeRefc == 1) ==> refc == old(refc)[k := old(refc[k]) - 1]
      ensures r.Success? && rules == ExpressionRules && invokeRefc != 1 ==> refc == old(refc)
    {
      bodyRefc := bodyRefc[k := bodyRefc[k] + 1];
      invokeLeft := invokeRefc - 1;
      if rules == ExpressionRules {
        if invokeRefc <= 0 {
          return Failure, invokeLeft;
        }
        if invokeLeft == 0 {
          if refc[k] <= 0 {
            return Failure, invokeLeft;
          }
          refc := refc[k := refc[k] - 1];
        }
      } else {
        refc := refc[k := refc[k] - 1];
      }
      r := Success(bodies[k]);
    }

    /**
     * moz_Invoke_optimize on a reference held once by its parent: an
     * unbound reference, or one past the table, is left as it is;
     * otherwise InlineRule decides.
     */
    method InvokeOptimize(e: Expr) returns (r: Result<Expr>, modified: bool)
      requires Valid() && e.Invoke?
      modifies this`refc, this`bodyRefc
      ensures Valid() && CountsMoved()
      ensures r.Success? ==> Refines(e, r.value)
      ensures r.Success? && !modified ==> r.value == e && CountsKept()
      ensures e.decl.NoDecl? || e.decl.index >= |bodies| ==> r == Success(e) && !modified
      ensures e.decl.DeclAt? && e.decl.index < |bodies| ==>
        (InlineRule(rules, old(refc[e.decl.index]), bodies[e.decl.index]) == Keep ==> r == Success(e) && !modified)
      ensures e.decl.DeclAt? && e.decl.index < |bodies| ==>
        (InlineRule(rules, old(refc[e.decl.index]), bodies[e.decl.index]) == Trap ==> r.Failure?)
      ensures e.decl.DeclAt? && e.decl.index < |bodies| && InlineRule(rules, old(refc[e.decl.index]), bodies[e.decl.index]) == Inline ==>
        var k := e.decl.index;
        modified && (r.Failure? <==> rules == ExpressionRules && old(refc[k]) <= 0) &&
        (r.Success? ==> (r.value == bodies[k] && refc == old(refc)[k := old(refc[k]) - 1] &&
          bodyRefc == old(bodyRefc)[k := old(bodyRefc[k]) + 1]))
    {
      if e.decl.NoDecl? || e.decl.index >= |bodies| {
        return Success(e), false;
      }
      var k := e.decl.index;
      var d := InlineRule(rules, refc[k], bodies[k]);
      if d == Trap {
        return Failure, true;
      }
      if d == Keep {
        assert Refines(e, e);
        return Success(e), false;
      }
      var body, _ := DoInline(k, 1);
      if body.Success? {
        InlineRefines(e.name, e.decl, body.value);
      }
      r, modified := body, true;
    }

    /** moz_expr_optimize: the handler of e's node type. */
    method Optimize(e: Expr) returns (r: Result<Expr>, modified: bool)
      requires Valid()
      modifies this`refc, this`bodyRefc
      decreases Size(e), 0
      ensures Valid() && CountsMoved()
      ensures r.Success? ==> Refines(e, r.value)
      ensures r.Success? && !modified ==> r.value == e && CountsKept()
    {
      match e {
        case Invoke(_, _) =>
          r, modified := InvokeOptimize(e);
        case And(_) =>
          r, modified := OptimizeUnary(e);
        case Not(_) =>
          r, modified := OptimizeUnary(e);
        case Option(_) =>
          r, modified := OptimizeUnary(e);
        case Scope(_, _, _) =>
          r, modified := OptimizeUnary(e);
        case Choice(l) =>
          r, modified := OptimizeChoice(l);
        case Sequence(l) =>
          r, modified := OptimizeSequence(l);
        case Repetition(l) =>
          r, modified := OptimizeRepetition(l);
        case _ =>
          assert Refines(e, e);
          r, modified := Success(e), false;
      }
    }

    /** moz_Unary_optimize, moz_NameUnary_optimize, moz_Not_optimize and moz_Option_optimize: the child, in place. */
    method OptimizeUnary(e: Expr) returns (r: Result<Expr>, modified: bool)
      requires Valid() && IsUnary(e)
      modifies this`refc, this`bodyRefc
      decreases Size(e.expr), 1
      ensures Valid() && CountsMoved()
      ensures r.Success? ==> Refines(e, r.value)
      ensures r.Success? ==> IsUnary(r.value) && r.value.(expr := e.expr) == e
      ensures r.Success? && !modified ==> r.value == e && CountsKept()
    {
      var x, m := Optimize(e.expr);
      if x.Failure? {
        return Failure, m;
      }
      UnaryCongruence(e, x.value);
      r, modified := Success(e.(expr := x.value)), m;
    }

    /** _moz_List_optimize: each child in turn, in place; the first assertion that fails stops the walk. */
    method OptimizeList(l: seq<Expr>) returns (r: Result<seq<Expr>>, modified: bool)
      requires Valid()
      modifies this`refc, this`bodyRefc
      decreases SizeList(l), 1
      ensures Valid() && CountsMoved()
      ensures r.Success? ==> Pointwise(l, r.value)
      ensures r.Success? && !modified ==> r.value == l && CountsKept()
    {
      var out: seq<Expr> := [];
      modified := false;
      var i := 0;
      while i < |l|
        invariant 0 <= i <= |l| && |out| == i
        invariant Valid() && CountsMoved()
        invariant forall j :: 0 <= j < i ==> Refines(l[j], out[j])
        invariant !modified ==> out == l[..i] && CountsKept()
      {
        SizeInList(l, i);
        var x, m := Optimize(l[i]);
        if x.Failure? {
          return Failure, true;
        }
        out := out + [x.value];
        modified := modified || m;
        i := i + 1;
      }
      assert l[..i] == l;
      r := Success(out);
    }

    /**
     * moz_Choice_optimize: the alternatives, then in expression.c and
     * ast.c the one-alternative collapse or the byte map; compiler.c's
     * list handler stops at the alternatives.
     */
    method OptimizeChoice(l: seq<Expr>) returns (r: Result<Expr>, modified: bool)
      requires Valid()
      modifies this`refc, this`bodyRefc
      decreases SizeList(l), 2
      ensures Valid() && CountsMoved()
      ensures r.Success? ==> Refines(Choice(l), r.value)
      ensures r.Success? && !modified ==> r.value == Choice(l) && CountsKept()
    {
      var list, m := OptimizeList(l);
      if list.Failure? {
        return Failure, m;
      }
      ChoiceCongruence(l, list.value);
      if rules == CompilerRules {
        return Success(Choice(list.value)), m;
      }
      var c, collapsed := ChoiceRewrite(list.value);
      if c.Success? {
        RefinesTrans(Choice(l), Choice(list.value), c.value);
      }
      r, modified := c, m || collapsed;
    }

    /**
     * moz_Sequence_optimize: the children, then in expression.c and ast.c
     * the list pass, the removal of Empty children and the one-child
     * collapse; compiler.c's handler stops at the children.
     */
    method OptimizeSequence(l: seq<Expr>) returns (r: Result<Expr>, modified: bool)
      requires Valid()
      modifies this`refc, this`bodyRefc
      decreases SizeList(l), 2
      ensures Valid() && CountsMoved()
      ensures r.Success? ==> Refines(Sequence(l), r.value)
      ensures r.Success? && !modified ==> r.value == Sequence(l) && CountsKept()
    {
      var list, m := OptimizeList(l);
      if list.Failure? {
        return Failure, m;
      }
      PointwiseList(l, list.value);
      SequenceCongruence(l, list.value);
      if rules == CompilerRules {
        return Success(Sequence(list.value)), m;
      }
      var cfg := if rules == ExpressionRules then Expression else AstPass;
      var s, changed := SequenceRewrite(list.value, cfg);
      SequenceRewriteRefines(list.value, cfg);
      RefinesTrans(Sequence(l), Sequence(list.value), s);
      r, modified := Success(s), m || changed;
    }

    /** moz_Repetition_optimize: the children, in place. */
    method OptimizeRepetition(l: seq<Expr>) returns (r: Result<Expr>, modified: bool)
      requires Valid()
      modifies this`refc, this`bodyRefc
      decreases SizeList(l), 2
      ensures Valid() && CountsMoved()
      ensures r.Success? ==> Refines(Repetition(l), r.value)
      ensures r.Success? && !modified ==> r.value == Repetition(l) && CountsKept()
    {
      var list, m := OptimizeList(l);
      if list.Failure? {
        return Failure, m;
      }
      PointwiseList(l, list.value);
      RepetitionCongruence(l, list.value);
      r, modified := Success(Repetition(list.value)), m;
    }

    /**
     * One FOR_EACH_ARRAY loop over C->decls: each declaration's body is
     * optimised and stored back. `guarded` is ast.c's `refc > 0` test.
     */
    method OptimizeDecls(guarded: bool) returns (ok: bool, modified: bool)
      requires Valid()
      modifies this`bodies, this`refc, this`bodyRefc
      ensures Valid() && CountsMoved() && |bodies| == |old(bodies)|
      ensures forall k :: 0 <= k < |bodies| ==> Refines(old(bodies[k]), bodies[k])
      ensures forall k :: 0 <= k < |bodies| && k !in decls ==> bodies[k] == old(bodies[k])
      ensures ok && !modified ==> bodies == old(bodies) && CountsKept()
    {
      ok, modified := true, false;
      var i := 0;
      while i < |decls|
        invariant 0 <= i <= |decls| && Valid() && CountsMoved() && |bodies| == |old(bodies)|
        invariant forall k :: 0 <= k < |bodies| ==> Refines(old(bodies[k]), bodies[k])
        invariant forall k :: 0 <= k < |bodies| && k !in decls ==> bodies[k] == old(bodies[k])
        invariant !modified ==> bodies == old(bodies) && CountsKept()
      {
        var k := decls[i];
        if !guarded || refc[k] > 0 {
          var r, m := Optimize(bodies[k]);
          if r.Failure? {
            return false, modified;
          }
          RefinesTrans(old(bodies[k]), bodies[k], r.value);
          bodies := bodies[k := r.value];
          modified := modified || m;
        }
        i := i + 1;
      }
    }

    /** moz_ast_mark_live_decl: one more count for every declaration in the table. */
    method MarkLive()
      requires Valid()
      modifies this`refc
      ensures Valid()
      ensures forall k :: 0 <= k < |refc| ==> refc[k] == old(refc[k]) + (if k in decls then 1 else 0)
    {
      var i := 0;
      while i < |decls|
        invariant 0 <= i <= |decls| && Valid()
        invariant forall k :: 0 <= k < |refc| ==> refc[k] == old(refc[k]) + (if k in decls[..i] then 1 else 0)
      {
        var d := decls[i];
        PrefixStep(decls, i);
        refc := refc[d := refc[d] + 1];
        i := i + 1;
      }
      assert decls[..i] == decls;
    }

    /**
     * The first loop of moz_ast_remove_unused_decl: each declaration of
     * count 1 is noted, and every declaration is released, MOZ_RC_RELEASE
     * asserting a positive count.
     */
    method ReleaseAll() returns (ok: bool, removed: seq<nat>)
      requires Valid()
      modifies this`refc
      ensures Valid()
      ensures ok <==> forall i :: 0 <= i < |decls| ==> old(refc)[decls[i]] > 0
      ensures ok ==> removed == Unused(decls, old(refc))
      ensures ok ==> forall k :: 0 <= k < |refc| ==> refc[k] == old(refc[k]) - (if k in decls then 1 else 0)
    {
      removed := [];
      var i := 0;
      while i < |decls|
        invariant 0 <= i <= |decls| && Valid()
        invariant removed == Unused(decls[..i], old(refc))
        invariant forall j :: 0 <= j < i ==> old(refc)[decls[j]] > 0
        invariant forall k :: 0 <= k < |refc| ==> refc[k] == old(refc[k]) - (if k in decls[..i] then 1 else 0)
      {
        var d := decls[i];
        PrefixStep(decls, i);
        UnusedStep(decls, i, old(refc));
        if refc[d] <= 0 {
          return false, removed;
        }
        if refc[d] == 1 {
          removed := removed + [d];
        }
        refc := refc[d := refc[d] - 1];
        i := i + 1;
      }
      assert decls[..i] == decls;
      ok := true;
    }

    /** The second loop of moz_ast_remove_unused_decl: ARRAY_remove_element of each noted declaration. */
    method RemoveAll(removed: seq<nat>)
      requires Valid()
      modifies this`decls
      ensures Valid()
      ensures decls == RemoveEach(old(decls), removed)
      ensures forall k :: k in decls <==> k in old(decls) && k !in removed
    {
      var left := RemoveEachLoop(decls, removed);
      RemoveEachMembers(decls, removed);
      RemoveEachKeepsTable(decls, removed, |bodies|);
      decls := left;
    }

    /** moz_ast_remove_unused_decl: the declarations whose count was 1 leave the table, every count drops by one. */
    method RemoveUnused() returns (ok: bool)
      requires Valid()
      modifies this`refc, this`decls
      ensures Valid()
      ensures forall k :: k in decls ==> k in old(decls)
      ensures ok <==> forall i :: 0 <= i < |old(decls)| ==> old(refc)[old(decls)[i]] > 0
      ensures ok ==> decls == RemoveEach(old(decls), Unused(old(decls), old(refc)))
      ensures ok ==> forall k :: 0 <= k < |refc| ==> refc[k] == old(refc[k]) - (if k in old(decls) then 1 else 0)
      ensures ok ==> forall k :: k in decls <==> k in old(decls) && old(refc)[k] != 1
    {
      var removed;
      ok, removed := ReleaseAll();
      if !ok {
        return;
      }
      RemoveAll(removed);
      forall k
        ensures k in decls <==> k in old(decls) && old(refc)[k] != 1
      {
        if k in old(decls) {
          UnusedMembers(old(decls), old(refc), k);
        }
      }
    }

    /**
     * moz_ast_optimize of expression.c: passes of mark, optimise and remove
     * while the last pass reported a change, at most `fuel` of them. On
     * Finished, `stable` is the body table the last pass optimised, which
     * that pass left as it was; `lastDecls` is the table that pass started
     * with and `liveRefc` the counts after its marking, which decided the
     * declarations it removed.
     */
    method OptimizeUntilStable(fuel: nat) returns (status: Status, ghost stable: seq<Expr>, ghost lastDecls: seq<nat>, ghost liveRefc: seq<int>)
      requires Valid() && rules == ExpressionRules
      modifies this`bodies, this`refc, this`bodyRefc, this`decls
      ensures Valid() && |bodies| == |old(bodies)|
      ensures forall k :: 0 <= k < |bodies| ==> Refines(old(bodies[k]), bodies[k])
      ensures forall k :: k in decls ==> k in old(decls)
      ensures status == Finished ==> bodies == stable
      ensures status == Finished ==> |liveRefc| == |refc| && InTable(lastDecls, |liveRefc|)
      ensures status == Finished ==> decls == RemoveEach(lastDecls, Unused(lastDecls, liveRefc))
      ensures status == Finished ==> forall k :: k in decls <==> k in lastDecls && liveRefc[k] != 1
      ensures status == Finished ==> forall k :: 0 <= k < |refc| ==> refc[k] == liveRefc[k] - (if k in lastDecls then 1 else 0)
    {
      var modified := true;
      var passes := 0;
      stable, lastDecls, liveRefc := bodies, decls, refc;
      while modified
        invariant Valid() && |bodies| == |old(bodies)| && passes <= fuel
        invariant forall k :: 0 <= k < |bodies| ==> Refines(old(bodies[k]), bodies[k])
        invariant forall k :: k in decls ==> k in old(decls)
        invariant !modified ==> bodies == stable
        invariant !modified ==> |liveRefc| == |refc| && InTable(lastDecls, |liveRefc|)
        invariant !modified ==> decls == RemoveEach(lastDecls, Unused(lastDecls, liveRefc))
        invariant !modified ==> forall k :: k in decls <==> k in lastDecls && liveRefc[k] != 1
        invariant !modified ==> forall k :: 0 <= k < |refc| ==> refc[k] == liveRefc[k] - (if k in lastDecls then 1 else 0)
        decreases fuel - passes
      {
        if passes == fuel {
          return OutOfFuel, stable, lastDecls, liveRefc;
        }
        MarkLive();
        ghost var before := bodies;
        var ok;
        ok, modified := OptimizeDecls(false);
        forall k | 0 <= k < |bodies|
          ensures Refines(old(bodies[k]), bodies[k])
        {
          RefinesTrans(old(bodies[k]), before[k], bodies[k]);
        }
        if !ok {
          return Stopped, stable, lastDecls, liveRefc;
        }
        stable, lastDecls, liveRefc := before, decls, refc;
        ok := RemoveUnused();
        if !ok {
          return Stopped, stable, lastDecls, liveRefc;
        }
        passes := passes + 1;
      }
      return Finished, stable, lastDecls, liveRefc;
    }

    /** moz_ast_optimize of ast.c: two passes over the declarations whose count is positive. */
    method OptimizeTwice() returns (ok: bool)
      requires Valid() && rules == AstRules
      modifies this`bodies, this`refc, this`bodyRefc
      ensures Valid() && |bodies| == |old(bodies)| && decls == old(decls)
      ensures forall k :: 0 <= k < |bodies| ==> Refines(old(bodies[k]), bodies[k])
    {
      var m;
      ok, m := OptimizeDecls(true);
      if !ok {
        return;
      }
      ghost var before := bodies;
      ok, m := OptimizeDecls(true);
      forall k | 0 <= k < |bodies|
        ensures Refines(old(bodies[k]), bodies[k])
      {
        RefinesTrans(old(bodies[k]), before[k], bodies[k]);
      }
    }

    /** moz_ast_optimize of compiler.c: one pass over every declaration. */
    method OptimizeOnce() returns (ok: bool)
      requires Valid() && rules == CompilerRules
      modifies this`bodies, this`refc, this`bodyRefc
      ensures Valid() && |bodies| == |old(bodies)| && decls == old(decls)
      ensures forall k :: 0 <= k < |bodies| ==> Refines(old(bodies[k]), bodies[k])
    {
      var m;
      ok, m := OptimizeDecls(false);
    }
  }
}
