/**
 * The Choice rewrites of src/compiler/expression.c (useByteMapOptimization,
 * moz_Choice_optimize) and of src/compiler/ast.c (applyByteMapOptimization,
 * moz_Choice_optimize), applied once the alternatives are optimised: a
 * Choice of one alternative becomes that alternative, and a Choice whose
 * alternatives are all bytes and sets becomes the one Set of their union.
 */
module ChoiceOpt {
  import opened Config
  import opened Grammar
  import opened CharClass

  /** An alternative the byte-map test accepts: a Byte, a Set, or Not of one of them. */
  predicate ByteMapAlternative(e: Expr)
  {
    e.Byte? || e.Set? || (e.Not? && IsByteOrSet(e.expr))
  }

  /** useByteMapOptimization: the loop over the alternatives, stopping at the first the test refuses. */
  method UseByteMap(list: seq<Expr>) returns (b: bool)
    ensures b <==> forall i :: 0 <= i < |list| ==> ByteMapAlternative(list[i])
  {
    var i := 0;
    while i < |list|
      invariant 0 <= i <= |list|
      invariant forall j :: 0 <= j < i ==> ByteMapAlternative(list[j])
    {
      var x := list[i];
      if x.Byte? || x.Set? {
      } else if x.Not? && (x.expr.Byte? || x.expr.Set?) {
      } else {
        return false;
      }
      i := i + 1;
    }
    return true;
  }

  /**
   * The loop of moz_Choice_optimize that builds the Set: each byte is set
   * and each set joined in; a Not alternative stops on the "not tested"
   * assertion before anything of it is read.
   */
  method ByteMapSet(list: seq<Expr>) returns (r: Result<set<nat>>)
    requires forall i :: 0 <= i < |list| ==> ByteMapAlternative(list[i])
    ensures r.Failure? <==> exists i :: 0 <= i < |list| && list[i].Not?
    ensures r.Success? ==> (forall i :: 0 <= i < |list| ==> IsByteOrSet(list[i])) && r.value == UnionOf(list)
  {
    var m: set<nat> := {};
    var i := 0;
    while i < |list|
      invariant 0 <= i <= |list|
      invariant forall j :: 0 <= j < i ==> IsByteOrSet(list[j])
      invariant forall x: nat :: x in m <==> exists j :: 0 <= j < i && x in BytesOf(list[j])
    {
      var child := list[i];
      if child.Not? {
        return Failure;
      }
      if child.Byte? {
        m := m + {child.byte as nat};
      } else {
        m := m + child.members;
      }
      i := i + 1;
    }
    assert m == UnionOf(list);
    return Success(m);
  }

  /** Whether the byte map stops on its assertion: the test passes and some alternative is a Not. */
  predicate ByteMapFails(list: seq<Expr>)
  {
    |list| != 1 && (forall i :: 0 <= i < |list| ==> ByteMapAlternative(list[i])) &&
    exists i :: 0 <= i < |list| && list[i].Not?
  }

  /**
   * moz_Choice_optimize after the alternatives: collapse a single
   * alternative, else fold bytes and sets into one Set. `collapsed` is the
   * 1 the source returns for either rewrite.
   */
  method ChoiceRewrite(list: seq<Expr>) returns (r: Result<Expr>, collapsed: bool)
    ensures r.Failure? <==> ByteMapFails(list)
    ensures r.Success? ==> Refines(Choice(list), r.value)
    ensures !collapsed ==> r == Success(Choice(list))
    ensures |list| == 1 ==> r == Success(list[0])
    ensures r.Success? && collapsed && |list| != 1 ==> r.value.Set? && (forall i :: 0 <= i < |list| ==> IsByteOrSet(list[i])) && forall x: nat ::
      x in r.value.members <==> exists i :: 0 <= i < |list| && x in BytesOf(list[i])
  {
    if |list| == 1 {
      assert list == [list[0]];
      ChoiceOfOne(list[0]);
      return Success(list[0]), true;
    }
    var use := UseByteMap(list);
    if use {
      var m := ByteMapSet(list);
      if m.Failure? {
        return Failure, true;
      }
      ByteMap(list);
      return Success(Set(m.value)), true;
    }
    assert Refines(Choice(list), Choice(list));
    return Success(Choice(list)), false;
  }
}
