/**
 * The Sequence rewrites of src/compiler/expression.c (_moz_Sequence_optimize,
 * moz_Sequence_optimize) and of src/compiler/ast.c (the same two), over a
 * Sequence node's list of children.
 *
 * One pass walks the list once. At each index the child there is read
 * into a local `child`, then: a nested Sequence is flattened into the
 * list; two Bytes become one Str; while the child is a Str, a following
 * Byte is appended to it and a following Str concatenated with it; and
 * Not(Byte b) followed by Any becomes the Set of every byte but b. The
 * variants differ in whether `child` is read again after a rewrite put a
 * new node at the index, and in which Sequences are flattened.
 */
module SequenceOpt {
  import opened Config
  import opened Grammar

  /**
   * flattenOnlyPatterns: ast.c flattens a Sequence only when it is pattern-only.
   * refreshAfterBytes: ast.c sets `child` to the Str concatByte made.
   * refreshAfterStrings: ast.c sets `child` to the Str concatString made;
   * expression.c as written does not.
   * strRefc: the reference count of a Str child when the Str loop starts
   * at it: 1 for a node the list alone holds, more for a shared one (a
   * declaration body inlined into the list). It decides whether the
   * release after concatString sweeps that node.
   */
  datatype PassConfig = PassConfig(flattenOnlyPatterns: bool, refreshAfterBytes: bool, refreshAfterStrings: bool, strRefc: nat)

  /** _moz_Sequence_optimize of expression.c, as written, on Str children the list alone holds. */
  const ExpressionAsWritten := PassConfig(false, false, false, 1)

  /** _moz_Sequence_optimize of expression.c, as written, on Str children held twice. */
  const ExpressionAsWrittenShared := PassConfig(false, false, false, 2)

  /** _moz_Sequence_optimize of expression.c with `child` read again after concatString. */
  const Expression := PassConfig(false, false, true, 1)

  /** _moz_Sequence_optimize of ast.c. */
  const AstPass := PassConfig(true, true, true, 1)

  /** Whether the pass keeps the language: `child` is read again, or the released node is swept. */
  predicate KeepsLanguage(cfg: PassConfig)
  {
    cfg.refreshAfterStrings || cfg.strRefc <= 1
  }

  /** The list after a rewrite, and whether the rewrite changed anything. */
  datatype Rewrite = Rewrite(list: seq<Expr>, modified: bool)

  /** The result of r, with the changes already made in front of it. */
  function Join(r: Rewrite, modified: bool): Rewrite
  {
    Rewrite(r.list, modified || r.modified)
  }

  lemma SizeListAt(list: seq<Expr>, k: nat)
    requires k < |list|
    ensures SizeList(list[k..]) == Size(list[k]) + SizeList(list[k + 1..])
  {
    assert list[k..][1..] == list[k + 1..];
  }

  /**
   * The Str loop at index i. `bytes` is what `child` holds and `refc` the
   * reference count of its node; `live` says whether `child` is still the
   * node at list[i], so that an append through it changes the list. When
   * a concatString has replaced list[i] and `child` is not read again,
   * `child` is the released node. If that release brought its count to 0,
   * the sweep zeroed it, its type reads as Empty and the loop stops (a read
   * of freed memory where VM_FREE frees). Otherwise it is a Str with its
   * bytes disposed (size 0): later bytes are appended to it and removed
   * from the list, and a later Str replaces list[i] by what `child` holds
   * followed by that Str, and releases `child` once more.
   */
  function StrLoop(list: seq<Expr>, i: nat, bytes: seq<Byte>, live: bool, refc: nat, cfg: PassConfig): (r: Rewrite)
    requires i < |list| && (live ==> list[i] == Str(bytes))
    ensures i < |r.list| <= |list| && r.list[..i] == list[..i]
    decreases |list|
  {
    if i + 1 >= |list| then Rewrite(list, false)
    else
      match list[i + 1]
      case Byte(b) =>
        var l := if live then list[..i] + [Str(bytes + [b])] + list[i + 2..] else list[..i] + [list[i]] + list[i + 2..];
        assert l[..i] == list[..i];
        Join(StrLoop(l, i, bytes + [b], live, refc, cfg), true)
      case Str(t) =>
        var l := list[..i] + [Str(bytes + t)] + list[i + 2..];
        assert l[..i] == list[..i];
        if cfg.refreshAfterStrings then Join(StrLoop(l, i, bytes + t, true, 1, cfg), true)
        else if refc <= 1 then Rewrite(l, true)
        else Join(StrLoop(l, i, [], false, refc - 1, cfg), true)
      case _ => Rewrite(list, false)
  }

  /** One turn of the Str loop at a Byte: the byte joins the Str, which stays at i when it is live. */
  lemma StrStepByte(list: seq<Expr>, i: nat, bytes: seq<Byte>, live: bool, refc: nat, cfg: PassConfig, l: seq<Expr>, bytes': seq<Byte>)
    requires i + 1 < |list| && list[i + 1].Byte? && (live ==> list[i] == Str(bytes))
    requires bytes' == bytes + [list[i + 1].byte]
    requires l == if live then list[..i] + [Str(bytes')] + list[i + 2..] else list[..i] + [list[i]] + list[i + 2..]
    ensures i < |l| && (live ==> l[i] == Str(bytes'))
    ensures StrLoop(list, i, bytes, live, refc, cfg) == Join(StrLoop(l, i, bytes', live, refc, cfg), true)
  {
  }

  /** One turn of the Str loop at a Str: the two are merged at i, and the loop goes on as cfg and refc say. */
  lemma StrStepStr(list: seq<Expr>, i: nat, bytes: seq<Byte>, live: bool, refc: nat, cfg: PassConfig, l: seq<Expr>)
    requires i + 1 < |list| && list[i + 1].Str? && (live ==> list[i] == Str(bytes))
    requires l == list[..i] + [Str(bytes + list[i + 1].bytes)] + list[i + 2..]
    ensures i < |l| && l[i] == Str(bytes + list[i + 1].bytes)
    ensures cfg.refreshAfterStrings ==>
      StrLoop(list, i, bytes, live, refc, cfg) == Join(StrLoop(l, i, bytes + list[i + 1].bytes, true, 1, cfg), true)
    ensures !cfg.refreshAfterStrings && refc <= 1 ==> StrLoop(list, i, bytes, live, refc, cfg) == Rewrite(l, true)
    ensures !cfg.refreshAfterStrings && refc > 1 ==>
      StrLoop(list, i, bytes, live, refc, cfg) == Join(StrLoop(l, i, [], false, refc - 1, cfg), true)
  {
  }

  /** The Str loop only removes children after index i. */
  lemma {:induction false} StrLoopShrinks(list: seq<Expr>, i: nat, bytes: seq<Byte>, live: bool, refc: nat, cfg: PassConfig)
    requires i < |list| && (live ==> list[i] == Str(bytes))
    ensures SizeList(StrLoop(list, i, bytes, live, refc, cfg).list[i + 1..]) <= SizeList(list[i + 1..])
    decreases |list|
  {
    if i + 1 < |list| {
      SizeListAt(list, i + 1);
      match list[i + 1]
      case Byte(b) =>
        var l := if live then list[..i] + [Str(bytes + [b])] + list[i + 2..] else list[..i] + [list[i]] + list[i + 2..];
        assert l[i + 1..] == list[i + 2..];
        StrLoopShrinks(l, i, bytes + [b], live, refc, cfg);
      case Str(t) =>
        var l := list[..i] + [Str(bytes + t)] + list[i + 2..];
        assert l[i + 1..] == list[i + 2..];
        if cfg.refreshAfterStrings {
          StrLoopShrinks(l, i, bytes + t, true, 1, cfg);
        } else if refc > 1 {
          StrLoopShrinks(l, i, [], false, refc - 1, cfg);
        }
      case _ =>
    }
  }

  /** Whether the child is a Sequence the pass flattens. */
  predicate Flattens(child: Expr, cfg: PassConfig)
  {
    child.Sequence? && (!cfg.flattenOnlyPatterns || IsPatternMatchOnly(child))
  }

  /** One turn of the pass's loop, at index i. */
  function StepAt(list: seq<Expr>, i: nat, cfg: PassConfig): (r: Rewrite)
    requires i < |list|
    ensures i <= |r.list| && r.list[..i] == list[..i]
  {
    var child := list[i];
    if Flattens(child, cfg) then
      var l := list[..i] + child.list + list[i + 1..];
      assert l[..i] == list[..i];
      Rewrite(l, true)
    else if child.Byte? && i + 1 < |list| && list[i + 1].Byte? then
      var s := [child.byte, list[i + 1].byte];
      var l := list[..i] + [Str(s)] + list[i + 2..];
      assert l[..i] == list[..i];
      if cfg.refreshAfterBytes then Join(StrLoop(l, i, s, true, 1, cfg), true) else Rewrite(l, true)
    else if child.Str? then StrLoop(list, i, child.bytes, true, cfg.strRefc, cfg)
    else if child.Not? && child.expr.Byte? && i + 1 < |list| && list[i + 1].Any? then
      var l := list[..i] + [Set(Complement({child.expr.byte}))] + list[i + 2..];
      assert l[..i] == list[..i];
      Rewrite(l, true)
    else Rewrite(list, false)
  }

  /** What follows index i after a turn is smaller than what was at i and after it. */
  lemma StepShrinks(list: seq<Expr>, i: nat, cfg: PassConfig)
    requires i < |list|
    ensures i < |StepAt(list, i, cfg).list| ==> SizeList(StepAt(list, i, cfg).list[i + 1..]) < SizeList(list[i..])
  {
    SizeListAt(list, i);
    var child := list[i];
    if Flattens(child, cfg) {
      var l := list[..i] + child.list + list[i + 1..];
      assert l[i..] == child.list + list[i + 1..];
      SizeListAppend(child.list, list[i + 1..]);
      if i < |l| {
        SizeListAt(l, i);
      }
    } else if child.Byte? && i + 1 < |list| && list[i + 1].Byte? {
      SizeListAt(list, i + 1);
      var s := [child.byte, list[i + 1].byte];
      var l := list[..i] + [Str(s)] + list[i + 2..];
      assert l[i + 1..] == list[i + 2..];
      if cfg.refreshAfterBytes {
        StrLoopShrinks(l, i, s, true, 1, cfg);
      }
    } else if child.Str? {
      StrLoopShrinks(list, i, child.bytes, true, cfg.strRefc, cfg);
    } else if child.Not? && child.expr.Byte? && i + 1 < |list| && list[i + 1].Any? {
      SizeListAt(list, i + 1);
      var l := list[..i] + [Set(Complement({child.expr.byte}))] + list[i + 2..];
      assert l[i + 1..] == list[i + 2..];
    }
  }

  /** The pass from index i to the end of the list. */
  function PassFrom(list: seq<Expr>, i: nat, cfg: PassConfig): (r: Rewrite)
    requires i <= |list|
    ensures i <= |r.list| && r.list[..i] == list[..i]
    decreases SizeList(list[i..])
  {
    if i == |list| then Rewrite(list, false)
    else
      var s := StepAt(list, i, cfg);
      if i == |s.list| then s
      else
        StepShrinks(list, i, cfg);
        Join(PassFrom(s.list, i + 1, cfg), s.modified)
  }

  /**
   * The whole pass. It reports a change whenever it makes one, and keeps
   * the language of the list unless a shared Str is merged as written.
   */
  function Pass(list: seq<Expr>, cfg: PassConfig): (r: Rewrite)
    ensures !r.modified ==> r.list == list
    ensures KeepsLanguage(cfg) ==> ListRefines(list, r.list)
  {
    PassUnmodified(list, 0, cfg);
    if KeepsLanguage(cfg) then
      PassRefines(list, 0, cfg);
      PassFrom(list, 0, cfg)
    else PassFrom(list, 0, cfg)
  }

  /**
   * The Str loop: while the child is a Str and another child follows it.
   * refc0 is the reference count of the Str the loop starts at.
   */
  method MergeStrings(list0: seq<Expr>, i: nat, child0: Expr, refc0: nat, cfg: PassConfig) returns (list: seq<Expr>, child: Expr, modified: bool)
    requires i < |list0| && (child0.Str? ==> list0[i] == child0)
    ensures child.Not? ==> child == child0
    ensures !child0.Str? ==> list == list0 && child == child0 && !modified
    ensures child0.Str? ==> Rewrite(list, modified) == StrLoop(list0, i, child0.bytes, true, refc0, cfg)
  {
    list, child, modified := list0, child0, false;
    // whether `child` is still the node at list[i], and the count of its node
    var live, refc := true, refc0;
    while child.Str? && i + 1 < |list|
      invariant i < |list|
      invariant child.Not? ==> child == child0
      invariant !child0.Str? ==> list == list0 && child == child0 && !modified
      invariant live && child.Str? ==> list[i] == child
      invariant child0.Str? && child.Str? ==> StrLoop(list0, i, child0.bytes, true, refc0, cfg) == Join(StrLoop(list, i, child.bytes, live, refc, cfg), modified)
      invariant child0.Str? && !child.Str? ==> StrLoop(list0, i, child0.bytes, true, refc0, cfg) == Rewrite(list, modified)
      decreases |list|
    {
      var child2 := list[i + 1];
      ghost var list1, bytes1, live1, refc1 := list, child.bytes, live, refc;
      if child2.Byte? {
        child := Str(child.bytes + [child2.byte]);
        if live {
          list := list[..i] + [child] + list[i + 2..];
        } else {
          list := list[..i] + [list[i]] + list[i + 2..];
        }
        modified := true;
        StrStepByte(list1, i, bytes1, live1, refc1, cfg, list, child.bytes);
      } else if child2.Str? {
        var s := Str(child.bytes + child2.bytes);
        list := list[..i] + [s] + list[i + 2..];
        if cfg.refreshAfterStrings {
          child, live, refc := s, true, 1;
        } else if refc <= 1 {
          // the released node was swept: the zeroed node reads as Empty
          child := Empty;
        } else {
          // the released node, still held elsewhere, its bytes disposed
          child, live, refc := Str([]), false, refc - 1;
        }
        modified := true;
        StrStepStr(list1, i, bytes1, live1, refc1, cfg, list);
      } else {
        break;
      }
    }
  }

  /** The body of the pass's loop at index i. */
  method Step(list0: seq<Expr>, i: nat, cfg: PassConfig) returns (list: seq<Expr>, modified: bool)
    requires i < |list0|
    ensures Rewrite(list, modified) == StepAt(list0, i, cfg)
  {
    list, modified := list0, false;
    var child := list[i];
    if child.Sequence? && (!cfg.flattenOnlyPatterns || IsPatternMatchOnly(child)) {
      list := list[..i] + child.list + list[i + 1..];
      modified := true;
    }
    var refc := cfg.strRefc;
    if child.Byte? && i + 1 < |list| && list[i + 1].Byte? {
      var s := Str([child.byte, list[i + 1].byte]);
      list := list[..i] + [s] + list[i + 2..];
      if cfg.refreshAfterBytes {
        child, refc := s, 1;
      }
      modified := true;
    }
    if i < |list| {
      var merged;
      list, child, merged := MergeStrings(list, i, child, refc, cfg);
      modified := modified || merged;
    }
    if child.Not? && i + 1 < |list| && child.expr.Byte? && list[i + 1].Any? {
      list := list[..i] + [Set(Complement({child.expr.byte}))] + list[i + 2..];
      modified := true;
    }
  }

  /** _moz_Sequence_optimize: the loop over the list's indices. */
  method SequencePass(list0: seq<Expr>, cfg: PassConfig) returns (list: seq<Expr>, modified: bool)
    ensures Rewrite(list, modified) == Pass(list0, cfg)
  {
    list, modified := list0, false;
    var i := 0;
    while i < |list|
      invariant i <= |list| + 1
      invariant i <= |list| ==> Pass(list0, cfg) == Join(PassFrom(list, i, cfg), modified)
      invariant i > |list| ==> Pass(list0, cfg) == Rewrite(list, modified)
      decreases if i <= |list| then SizeList(list[i..]) + 1 else 0
    {
      StepShrinks(list, i, cfg);
      var m;
      list, m := Step(list, i, cfg);
      modified := modified || m;
      i := i + 1;
    }
  }

  /** A pass that reports no change leaves the list as it was. */
  lemma {:induction false} StrLoopUnmodified(list: seq<Expr>, i: nat, bytes: seq<Byte>, live: bool, refc: nat, cfg: PassConfig)
    requires i < |list| && (live ==> list[i] == Str(bytes))
    ensures !StrLoop(list, i, bytes, live, refc, cfg).modified ==> StrLoop(list, i, bytes, live, refc, cfg).list == list
  {
  }

  lemma {:induction false} PassUnmodified(list: seq<Expr>, i: nat, cfg: PassConfig)
    requires i <= |list|
    ensures !PassFrom(list, i, cfg).modified ==> PassFrom(list, i, cfg).list == list
    decreases SizeList(list[i..])
  {
    if i < |list| {
      var s := StepAt(list, i, cfg);
      StepShrinks(list, i, cfg);
      if i < |s.list| {
        PassUnmodified(s.list, i + 1, cfg);
        if list[i].Str? && !Flattens(list[i], cfg) {
          StrLoopUnmodified(list, i, list[i].bytes, true, cfg.strRefc, cfg);
        }
      }
    }
  }

  /**
   * With `child` read again after concatString, or with the node it
   * started at swept by the release, the Str loop keeps the language of
   * the list.
   */
  lemma {:induction false} StrLoopRefines(list: seq<Expr>, i: nat, bytes: seq<Byte>, refc: nat, cfg: PassConfig)
    requires cfg.refreshAfterStrings || refc <= 1
    requires i < |list| && list[i] == Str(bytes)
    ensures ListRefines(list, StrLoop(list, i, bytes, true, refc, cfg).list)
    decreases |list|
  {
    if i + 1 < |list| {
      var pre, post := list[..i], list[i + 2..];
      assert list == pre + [Str(bytes), list[i + 1]] + post;
      match list[i + 1]
      case Byte(b) =>
        var l := pre + [Str(bytes + [b])] + post;
        AppendByte(bytes, b);
        Replace(pre, [Str(bytes), Byte(b)], [Str(bytes + [b])], post);
        StrLoopRefines(l, i, bytes + [b], refc, cfg);
        ListRefinesTrans(list, l, StrLoop(l, i, bytes + [b], true, refc, cfg).list);
      case Str(t) =>
        var l := pre + [Str(bytes + t)] + post;
        ConcatStrings(bytes, t);
        Replace(pre, [Str(bytes), Str(t)], [Str(bytes + t)], post);
        if cfg.refreshAfterStrings {
          StrLoopRefines(l, i, bytes + t, 1, cfg);
          ListRefinesTrans(list, l, StrLoop(l, i, bytes + t, true, 1, cfg).list);
        }
      case _ =>
    }
  }

  lemma StepRefines(list: seq<Expr>, i: nat, cfg: PassConfig)
    requires KeepsLanguage(cfg) && i < |list|
    ensures ListRefines(list, StepAt(list, i, cfg).list)
  {
    var child := list[i];
    var pre := list[..i];
    if Flattens(child, cfg) {
      assert list == pre + [child] + list[i + 1..];
      Flatten(child.list);
      Replace(pre, [child], child.list, list[i + 1..]);
    } else if child.Byte? && i + 1 < |list| && list[i + 1].Byte? {
      var s := [child.byte, list[i + 1].byte];
      var l := pre + [Str(s)] + list[i + 2..];
      assert list == pre + [child, list[i + 1]] + list[i + 2..];
      ConcatBytes(child.byte, list[i + 1].byte);
      Replace(pre, [child, list[i + 1]], [Str(s)], list[i + 2..]);
      if cfg.refreshAfterBytes {
        StrLoopRefines(l, i, s, 1, cfg);
        ListRefinesTrans(list, l, StrLoop(l, i, s, true, 1, cfg).list);
      }
    } else if child.Str? {
      StrLoopRefines(list, i, child.bytes, cfg.strRefc, cfg);
    } else if child.Not? && child.expr.Byte? && i + 1 < |list| && list[i + 1].Any? {
      assert list == pre + [child, list[i + 1]] + list[i + 2..];
      NotByteAny(child.expr.byte);
      Replace(pre, [child, list[i + 1]], [Set(Complement({child.expr.byte}))], list[i + 2..]);
    } else {
      ListRefinesRefl(list);
    }
  }

  /** With `child` read again after concatString, or Str children the list alone holds, the pass keeps the language of the list. */
  lemma {:induction false} PassRefines(list: seq<Expr>, i: nat, cfg: PassConfig)
    requires KeepsLanguage(cfg) && i <= |list|
    ensures ListRefines(list, PassFrom(list, i, cfg).list)
    decreases SizeList(list[i..])
  {
    if i == |list| {
      ListRefinesRefl(list);
    } else {
      var s := StepAt(list, i, cfg);
      StepRefines(list, i, cfg);
      StepShrinks(list, i, cfg);
      if i < |s.list| {
        PassRefines(s.list, i + 1, cfg);
        ListRefinesTrans(list, s.list, PassFrom(s.list, i + 1, cfg).list);
      }
    }
  }

  /**
   * The pass of expression.c (as written on unshared Str children, and with
   * the correction) and of ast.c keep the language of a Sequence.
   */
  lemma SequencePassRefines(list: seq<Expr>)
    ensures Refines(Sequence(list), Sequence(Pass(list, ExpressionAsWritten).list))
    ensures Refines(Sequence(list), Sequence(Pass(list, Expression).list))
    ensures Refines(Sequence(list), Sequence(Pass(list, AstPass).list))
  {
    PassRefines(list, 0, ExpressionAsWritten);
    SequenceCongruence(list, Pass(list, ExpressionAsWritten).list);
    PassRefines(list, 0, Expression);
    SequenceCongruence(list, Pass(list, Expression).list);
    PassRefines(list, 0, AstPass);
    SequenceCongruence(list, Pass(list, AstPass).list);
  }

  /**
   * As written, expression.c goes on with the released Str after merging
   * two strings. When the first Str is also held elsewhere, that node
   * survives the release: on ["a", "b", 'c'] the byte is appended to it and
   * dropped from the list, so the Sequence no longer matches "abc".
   */
  lemma DroppedByteExample()
    ensures Pass([Str([97]), Str([98]), Byte(99)], ExpressionAsWrittenShared).list == [Str([97, 98])]
    ensures MatchSeq([Str([97]), Str([98]), Byte(99)], [97, 98, 99], 0) == Matched(3)
    ensures MatchSeq([Str([97, 98])], [97, 98, 99], 0) == Matched(2)
  {
    var cfg := ExpressionAsWrittenShared;
    var l0: seq<Expr> := [Str([97]), Str([98]), Byte(99)];
    var l1: seq<Expr> := [Str([97, 98]), Byte(99)];
    var l2: seq<Expr> := [Str([97, 98])];
    var a: seq<Byte>, b: seq<Byte>, ab: seq<Byte> := [97], [98], [97, 98];
    assert a + b == ab;
    assert l0[..0] + [Str(a + b)] + l0[2..] == l1;
    assert l1[..0] + [l1[0]] + l1[2..] == l2;
    assert StrLoop(l2, 0, [99], false, 1, cfg) == Rewrite(l2, false);
    assert StrLoop(l1, 0, [], false, 1, cfg) == Rewrite(l2, true);
    assert StrLoop(l0, 0, [97], true, 2, cfg) == Rewrite(l2, true);
    assert StepAt(l0, 0, cfg) == Rewrite(l2, true);
    assert PassFrom(l2, 1, cfg) == Rewrite(l2, false);
    assert At([97, 98, 99], 0, [97]);
    assert At([97, 98, 99], 1, [98]);
    assert At([97, 98, 99], 0, [97, 98]);
  }

  /**
   * When the list alone holds the first Str, the release sweeps it and the
   * loop stops at the zeroed node: one pass merges the two strings and
   * leaves the byte for the next pass.
   */
  lemma SweptExample()
    ensures Pass([Str([97]), Str([98]), Byte(99)], ExpressionAsWritten) == Rewrite([Str([97, 98]), Byte(99)], true)
  {
    var cfg := ExpressionAsWritten;
    var l0: seq<Expr> := [Str([97]), Str([98]), Byte(99)];
    var l1: seq<Expr> := [Str([97, 98]), Byte(99)];
    var a: seq<Byte>, b: seq<Byte>, ab: seq<Byte> := [97], [98], [97, 98];
    assert a + b == ab;
    assert l0[..0] + [Str(a + b)] + l0[2..] == l1;
    assert StrLoop(l0, 0, [97], true, 1, cfg) == Rewrite(l1, true);
    assert StepAt(l0, 0, cfg) == Rewrite(l1, true);
    assert PassFrom(l1, 1, cfg) == Rewrite(l1, false);
  }

  /** With `child` read again, the same list becomes the one Str "abc". */
  lemma MergedExample()
    ensures Pass([Str([97]), Str([98]), Byte(99)], Expression).list == [Str([97, 98, 99])]
  {
    var l0: seq<Expr> := [Str([97]), Str([98]), Byte(99)];
    var l1: seq<Expr> := [Str([97, 98]), Byte(99)];
    var l2: seq<Expr> := [Str([97, 98, 99])];
    var a: seq<Byte>, b: seq<Byte>, ab: seq<Byte>, c: seq<Byte>, abc: seq<Byte> := [97], [98], [97, 98], [99], [97, 98, 99];
    assert a + b == ab && ab + c == abc;
    assert l0[..0] + [Str(a + b)] + l0[2..] == l1;
    assert l1[..0] + [Str(ab + c)] + l1[2..] == l2;
    assert StrLoop(l2, 0, [97, 98, 99], true, 1, Expression) == Rewrite(l2, false);
    assert StrLoop(l1, 0, [97, 98], true, 1, Expression) == Rewrite(l2, true);
    assert StrLoop(l0, 0, [97], true, 1, Expression) == Rewrite(l2, true);
    assert StepAt(l0, 0, Expression) == Rewrite(l2, true);
    assert PassFrom(l2, 1, Expression) == Rewrite(l2, false);
  }

  /** The children that are not Empty, in order. */
  function WithoutEmpty(list: seq<Expr>): (r: seq<Expr>)
    ensures Empty !in r && |r| <= |list|
  {
    if list == [] then []
    else (if list[0] == Empty then [] else [list[0]]) + WithoutEmpty(list[1..])
  }

  /** A child is kept exactly when it is not Empty. */
  lemma {:induction false} WithoutEmptyMembers(list: seq<Expr>, x: Expr)
    ensures x in WithoutEmpty(list) <==> x in list && x != Empty
  {
    if list != [] {
      WithoutEmptyMembers(list[1..], x);
      assert list == [list[0]] + list[1..];
    }
  }

  /** Dropping Empty children keeps the language of the list. */
  lemma {:induction false} WithoutEmptyRefines(list: seq<Expr>)
    ensures ListRefines(list, WithoutEmpty(list))
  {
    if list == [] {
      ListRefinesRefl([]);
    } else {
      var rest := list[1..];
      WithoutEmptyRefines(rest);
      assert list == [] + [list[0]] + rest;
      if list[0] == Empty {
        DropEmpty();
        Replace([], [Empty], [], rest);
        assert [] + [] + rest == rest;
        assert WithoutEmpty(list) == [] + WithoutEmpty(rest) == WithoutEmpty(rest);
        ListRefinesTrans(list, rest, WithoutEmpty(rest));
      } else {
        Replace([list[0]], rest, WithoutEmpty(rest), []);
        assert [list[0]] + rest + [] == list;
        assert [list[0]] + WithoutEmpty(rest) + [] == WithoutEmpty(list);
      }
    }
  }

  /** The backward loop of moz_Sequence_optimize that removes every Empty child. */
  method RemoveEmpty(list0: seq<Expr>) returns (list: seq<Expr>, modified: bool)
    ensures list == WithoutEmpty(list0)
    ensures modified <==> Empty in list0
  {
    list, modified := list0, false;
    var i := |list0| - 1;
    while i >= 0
      invariant -1 <= i < |list0|
      invariant list == list0[..i + 1] + WithoutEmpty(list0[i + 1..])
      invariant modified <==> Empty in list0[i + 1..]
    {
      RemoveEmptyStep(list0, i, list);
      if list[i] == Empty {
        list := list[..i] + list[i + 1..];
        modified := true;
      }
      i := i - 1;
    }
    assert list0[0..] == list0;
  }

  /** One turn of the backward removal loop at index i, with list as the loop has it on entry. */
  lemma RemoveEmptyStep(list0: seq<Expr>, i: nat, list: seq<Expr>)
    requires i < |list0| && list == list0[..i + 1] + WithoutEmpty(list0[i + 1..])
    ensures i < |list| && list[i] == list0[i]
    ensures list0[i] == Empty ==> list[..i] + list[i + 1..] == list0[..i] + WithoutEmpty(list0[i..])
    ensures list0[i] != Empty ==> list == list0[..i] + WithoutEmpty(list0[i..])
    ensures Empty in list0[i..] <==> list0[i] == Empty || Empty in list0[i + 1..]
  {
    var a, x, rest := list0[..i], list0[i], list0[i + 1..];
    assert list0[..i + 1] == a + [x];
    assert list0[i..] == [x] + rest;
    assert WithoutEmpty(list0[i..]) == (if x == Empty then [] else [x]) + WithoutEmpty(rest) by {
      assert ([x] + rest)[1..] == rest;
    }
    PartsAt(a, x, WithoutEmpty(rest), list);
  }

  /** The parts of a + [x] + w, read back by index and slice. */
  lemma PartsAt<T>(a: seq<T>, x: T, w: seq<T>, l: seq<T>)
    requires l == a + [x] + w
    ensures |a| < |l| && l[|a|] == x && l[..|a|] == a && l[|a| + 1..] == w
  {
  }

  /**
   * moz_Sequence_optimize after the children: the pass, the removal of
   * Empty children, and a list of one child replaced by that child.
   */
  method SequenceRewrite(list0: seq<Expr>, cfg: PassConfig) returns (r: Expr, modified: bool)
    ensures var p := Pass(list0, cfg).list;
      var l := WithoutEmpty(p);
      r == (if |l| == 1 then l[0] else Sequence(l)) &&
      modified == (Pass(list0, cfg).modified || Empty in p || |l| == 1)
  {
    var list, m1 := SequencePass(list0, cfg);
    var m2;
    list, m2 := RemoveEmpty(list);
    if |list| == 1 {
      return list[0], true;
    }
    return Sequence(list), m1 || m2;
  }

  /** The rewrite of a Sequence keeps its language, and reports no change only when there is none. */
  lemma SequenceRewriteRefines(list: seq<Expr>, cfg: PassConfig)
    requires KeepsLanguage(cfg)
    ensures var p := Pass(list, cfg).list;
      var l := WithoutEmpty(p);
      Refines(Sequence(list), if |l| == 1 then l[0] else Sequence(l))
    ensures var p := Pass(list, cfg);
      var l := WithoutEmpty(p.list);
      !(p.modified || Empty in p.list || |l| == 1) ==> l == list
  {
    var p := Pass(list, cfg).list;
    var l := WithoutEmpty(p);
    PassRefines(list, 0, cfg);
    WithoutEmptyRefines(p);
    ListRefinesTrans(list, p, l);
    SequenceCongruence(list, l);
    if |l| == 1 {
      assert l == [l[0]];
      SequenceOfOne(l[0]);
      RefinesTrans(Sequence(list), Sequence(l), l[0]);
    }
    PassUnmodified(list, 0, cfg);
    if Empty !in p {
      WithoutEmptyNone(p);
    }
  }

  lemma {:induction false} WithoutEmptyNone(list: seq<Expr>)
    requires Empty !in list
    ensures WithoutEmpty(list) == list
  {
    if list != [] {
      assert list[1..] == list[1..] && Empty !in list[1..] by {
        forall x | x in list[1..] ensures x in list {
        }
      }
      WithoutEmptyNone(list[1..]);
      assert list == [list[0]] + list[1..];
    }
  }
}
