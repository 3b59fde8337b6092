/**
 * Character classes: compile_Set and moz_expr_new_Set of
 * src/compiler/expression.c, and compile_Set of src/compiler/ast.c and of
 * src/compiler/compiler.c. Each child of a Class node is one character or
 * a range; the result is the Set node of every byte the children cover.
 * A Set node's bitset is modelled by the set of its members. Every
 * member takes the reading of \x escapes (asWritten, or the shift
 * corrected) that parseClass uses.
 */
module ClassSet {
  import opened Config
  import opened Grammar
  import opened CharClass
  import Bitset

  /** A child of a Class node: a Class (one character), a List (a range) or a node of another tag. */
  datatype Item = Single(text: seq<Byte>) | Range(left: seq<Byte>, right: seq<Byte>) | Unexpected

  /** parseClass can read every character of the item. */
  predicate Readable(item: Item)
  {
    match item
    case Single(t) => ClassReadable(t)
    case Range(l, r) => ClassReadable(l) && ClassReadable(r)
    case Unexpected => true
  }

  predicate AllReadable(items: seq<Item>)
  {
    forall i :: 0 <= i < |items| ==> Readable(items[i])
  }

  /** The endpoints data[2i], data[2i+1] compile_Set stores for an item: the character twice, or the range in order. */
  function Bounds(asWritten: bool, item: Item): (r: (nat, nat))
    requires Readable(item) && !item.Unexpected?
    ensures r.0 <= r.1
    ensures item.Single? ==> r == (ParseClass(asWritten, item.text), ParseClass(asWritten, item.text))
    ensures item.Range? ==> {r.0, r.1} == {ParseClass(asWritten, item.left), ParseClass(asWritten, item.right)}
  {
    match item
    case Single(t) => (ParseClass(asWritten, t), ParseClass(asWritten, t))
    case Range(l, r) =>
      var a := ParseClass(asWritten, l);
      var b := ParseClass(asWritten, r);
      if a > b then (b, a) else (a, b)
  }

  predicate InRange(x: nat, lo: nat, hi: nat)
  {
    lo <= x <= hi
  }

  /** The bytes from lo to hi, both included. */
  function RangeSet(lo: nat, hi: nat): (r: set<nat>)
    ensures forall x: nat :: x in r <==> x < 256 && InRange(x, lo, hi)
  {
    set x: nat | x < 256 && InRange(x, lo, hi)
  }

  /** The bytes of every pair of endpoints. */
  function PairsSet(data: seq<(nat, nat)>): set<nat>
  {
    if data == [] then {}
    else PairsSet(data[..|data| - 1]) + RangeSet(data[|data| - 1].0, data[|data| - 1].1)
  }

  /** A byte is in the set exactly when some pair covers it. */
  lemma {:induction false} PairsSetMembers(data: seq<(nat, nat)>, x: nat)
    ensures x in PairsSet(data) <==> x < 256 && exists i :: 0 <= i < |data| && InRange(x, data[i].0, data[i].1)
  {
    if data != [] {
      var init := data[..|data| - 1];
      PairsSetMembers(init, x);
      assert forall i :: 0 <= i < |init| ==> init[i] == data[i];
    }
  }

  /**
   * The check moz_expr_new_Set makes before setting a range, as written:
   * it lets 256 through although the bitset holds the bytes 0 to 255.
   */
  predicate GuardAsWritten(ch1: nat, ch2: nat)
  {
    !(ch1 > 256 || ch2 > 256)
  }

  /** The check as intended: both endpoints are bytes. */
  predicate Guard(ch1: nat, ch2: nat)
  {
    !(ch1 > 255 || ch2 > 255)
  }

  /** As written, the range 256-256 passes, and bitset_set is then given an index outside the bitset. */
  lemma GuardAsWrittenExample()
    ensures GuardAsWritten(256, 256) && !(256 < Bitset.Universe)
    ensures !Guard(256, 256)
  {
  }

  /** As intended, every index a passing range sets is inside the bitset. */
  lemma GuardInBitset(ch1: nat, ch2: nat, x: nat)
    requires Guard(ch1, ch2) && InRange(x, ch1, ch2)
    ensures x < Bitset.Universe
  {
  }

  predicate AllGuarded(data: seq<(nat, nat)>)
  {
    forall i :: 0 <= i < |data| ==> Guard(data[i].0, data[i].1)
  }

  /**
   * The range loop of moz_expr_new_Set (and the second loop of ast.c's
   * compile_Set), started from the members m0 already set: each pair in
   * turn is checked, then each byte of it set. The first pair that fails
   * the check stops on the assertion.
   */
  method AddRanges(m0: set<nat>, data: seq<(nat, nat)>) returns (r: Result<set<nat>>)
    ensures r.Success? <==> AllGuarded(data)
    ensures r.Success? ==> r.value == m0 + PairsSet(data)
  {
    var m := m0;
    var i := 0;
    while i < |data|
      invariant 0 <= i <= |data|
      invariant AllGuarded(data[..i])
      invariant m == m0 + PairsSet(data[..i])
    {
      var ch1 := data[i].0;
      var ch2 := data[i].1;
      if ch1 > 255 || ch2 > 255 {
        assert !AllGuarded(data) by {
          assert !Guard(data[i].0, data[i].1);
        }
        return Failure;
      }
      assert data[..i + 1][..i] == data[..i];
      m := SetRange(m, ch1, ch2);
      i := i + 1;
    }
    assert data[..i] == data;
    return Success(m);
  }

  /** The loop `for (; ch1 <= ch2; ch1++) bitset_set(set, ch1)`. */
  method SetRange(m0: set<nat>, lo: nat, hi: nat) returns (m: set<nat>)
    requires hi < 256
    ensures m == m0 + RangeSet(lo, hi)
  {
    m := m0;
    var ch := lo;
    while ch <= hi
      invariant lo <= ch
      invariant forall x: nat :: x in m <==> x in m0 || (lo <= x < ch && x <= hi)
    {
      m := m + {ch};
      ch := ch + 1;
    }
  }

  /**
   * moz_expr_new_Set: the bytes of every range. A range past 256 stops on
   * the assertion; a range with the endpoint 256 passes the `> 256` guard
   * and bitset_set then writes outside the 256-bit set, which is not
   * defined. Both are Failure.
   */
  method NewSet(data: seq<(nat, nat)>) returns (r: Result<set<nat>>)
    ensures r.Success? <==> AllGuarded(data)
    ensures r.Success? ==> r.value == PairsSet(data)
  {
    r := AddRanges({}, data);
  }

  /** The endpoints of every item, in order. */
  function Pairs(asWritten: bool, items: seq<Item>): (r: seq<(nat, nat)>)
    requires AllReadable(items) && forall i :: 0 <= i < |items| ==> !items[i].Unexpected?
    ensures |r| == |items| && forall i :: 0 <= i < |r| ==> r[i] == Bounds(asWritten, items[i])
  {
    seq(|items|, i requires 0 <= i < |items| => Bounds(asWritten, items[i]))
  }

  predicate NoUnexpected(items: seq<Item>)
  {
    forall i :: 0 <= i < |items| ==> !items[i].Unexpected?
  }

  /**
   * What compile_Set of expression.c and of ast.c gives: the Set of every
   * byte some item covers; the assertions stop on an empty class, a child
   * of another tag and a character past 255.
   */
  function ClassResult(asWritten: bool, items: seq<Item>): (r: Result<Expr>)
    requires AllReadable(items)
    ensures r.Success? ==> items != [] && NoUnexpected(items) && r.value.Set?
  {
    if items == [] || !NoUnexpected(items) || !AllGuarded(Pairs(asWritten, items)) then Failure
    else Success(Set(PairsSet(Pairs(asWritten, items))))
  }

  /** The Set of a class holds exactly the bytes that some child covers. */
  lemma ClassMembers(asWritten: bool, items: seq<Item>, x: nat)
    requires AllReadable(items) && ClassResult(asWritten, items).Success?
    ensures x in ClassResult(asWritten, items).value.members <==>
      x < 256 && exists i :: 0 <= i < |items| && InRange(x, Bounds(asWritten, items[i]).0, Bounds(asWritten, items[i]).1)
  {
    PairsSetMembers(Pairs(asWritten, items), x);
  }

  /** A class succeeds exactly when it has a child, every child is Class or List, and no endpoint passes 255. */
  lemma ClassResultSucceeds(asWritten: bool, items: seq<Item>)
    requires AllReadable(items)
    ensures ClassResult(asWritten, items).Success? <==>
      items != [] && NoUnexpected(items) && forall i :: 0 <= i < |items| ==> Bounds(asWritten, items[i]).1 < 256
  {
  }

  /** compile_Set of expression.c: the endpoints of each child, then moz_expr_new_Set. */
  method CompileSet(asWritten: bool, items: seq<Item>) returns (r: Result<Expr>)
    requires AllReadable(items)
    ensures r == ClassResult(asWritten, items)
  {
    if |items| == 0 {
      return Failure;
    }
    var data: seq<(nat, nat)> := [];
    var i := 0;
    while i < |items|
      invariant 0 <= i <= |items|
      invariant NoUnexpected(items[..i])
      invariant data == Pairs(asWritten, items[..i])
    {
      if items[i].Unexpected? {
        return Failure;
      }
      data := data + [Bounds(asWritten, items[i])];
      i := i + 1;
    }
    assert items[..i] == items;
    var m := NewSet(data);
    if m.Failure? {
      return Failure;
    }
    return Success(Set(m.value));
  }

  /**
   * compile_Set of ast.c: the same endpoints, but a single character is
   * set in the bitset at once, so one past 255 is written outside it.
   */
  method CompileSetAst(asWritten: bool, items: seq<Item>) returns (r: Result<Expr>)
    requires AllReadable(items)
    ensures r == ClassResult(asWritten, items)
  {
    if |items| == 0 {
      return Failure;
    }
    var data: seq<(nat, nat)> := [];
    var singles: set<nat> := {};
    var i := 0;
    while i < |items|
      invariant 0 <= i <= |items|
      invariant NoUnexpected(items[..i])
      invariant data == Pairs(asWritten, items[..i])
      invariant singles <= PairsSet(data)
    {
      match items[i] {
        case Single(t) =>
          var ch := ParseClass(asWritten, t);
          if ch > 255 {
            SingleOutOfRange(asWritten, items, i);
            return Failure;
          }
          assert Bounds(asWritten, items[i]) == (ch, ch);
          singles := singles + {ch};
        case Range(_, _) =>
        case Unexpected =>
          return Failure;
      }
      ghost var i0, data0 := i, data;
      var p := Bounds(asWritten, items[i]);
      data := data + [p];
      i := i + 1;
      AstPrefixStep(asWritten, items, i0, i, data0, p, data);
    }
    assert items[..i] == items;
    var m := AddRanges(singles, data);
    if m.Failure? {
      return Failure;
    }
    assert m.value == PairsSet(data);
    return Success(Set(m.value));
  }

  /** A single character past 255 fails the whole class. */
  lemma SingleOutOfRange(asWritten: bool, items: seq<Item>, i: nat)
    requires AllReadable(items) && i < |items| && items[i].Single?
    requires ParseClass(asWritten, items[i].text) > 255
    ensures ClassResult(asWritten, items).Failure?
  {
    if NoUnexpected(items) {
      assert !Guard(Pairs(asWritten, items)[i].0, Pairs(asWritten, items)[i].1);
    }
  }

  lemma PairsSnoc(asWritten: bool, items: seq<Item>, i: nat)
    requires i < |items| && AllReadable(items) && NoUnexpected(items[..i + 1])
    ensures NoUnexpected(items[..i])
    ensures Pairs(asWritten, items[..i + 1]) == Pairs(asWritten, items[..i]) + [Bounds(asWritten, items[i])]
  {
    assert items[..i + 1][..i] == items[..i];
  }

  /** The prefix invariant of ast.c's loop extended by one item that is not of another tag. */
  lemma AstPrefixStep(asWritten: bool, items: seq<Item>, i: nat, j: nat, data: seq<(nat, nat)>, p: (nat, nat), data': seq<(nat, nat)>)
    requires AllReadable(items) && i < |items| && !items[i].Unexpected? && j == i + 1
    requires NoUnexpected(items[..i]) && data == Pairs(asWritten, items[..i])
    requires p == Bounds(asWritten, items[i]) && data' == data + [p]
    ensures NoUnexpected(items[..j]) && data' == Pairs(asWritten, items[..j])
    ensures PairsSet(data') == PairsSet(data) + RangeSet(p.0, p.1)
  {
    assert forall k :: 0 <= k < i ==> items[..j][k] == items[..i][k];
    PairsSnoc(asWritten, items, i);
    PairsSetSnoc(data, p);
  }

  lemma PairsSetSnoc(data: seq<(nat, nat)>, p: (nat, nat))
    ensures PairsSet(data + [p]) == PairsSet(data) + RangeSet(p.0, p.1)
  {
    assert (data + [p])[..|data|] == data;
  }

  /** No character of the item is a \u escape. */
  predicate ByteOnly(item: Item)
  {
    match item
    case Single(t) => ClassReadable(t) && !IsUnicodeEscape(t)
    case Range(l, r) => ClassReadable(l) && ClassReadable(r) && !IsUnicodeEscape(l) && !IsUnicodeEscape(r)
    case Unexpected => true
  }

  predicate AllByteOnly(items: seq<Item>)
  {
    forall i :: 0 <= i < |items| ==> ByteOnly(items[i])
  }

  /**
   * What compile_Set of compiler.c gives: no assertion on an empty class,
   * the TODO assertion on a \u escape, and no range check, since a
   * character without \u is a byte.
   */
  function CompilerClassResult(asWritten: bool, items: seq<Item>): (r: Result<Expr>)
    requires AllReadable(items)
    ensures r.Success? ==> NoUnexpected(items) && r.value.Set?
  {
    if !NoUnexpected(items) || !AllByteOnly(items) then Failure
    else
      BoundsBelow256(asWritten, items);
      Success(Set(PairsSet(Pairs(asWritten, items))))
  }

  lemma BoundsBelow256(asWritten: bool, items: seq<Item>)
    requires AllReadable(items) && NoUnexpected(items) && AllByteOnly(items)
    ensures AllGuarded(Pairs(asWritten, items))
    ensures forall i :: 0 <= i < |items| ==> Bounds(asWritten, items[i]).1 < 256
  {
    forall i | 0 <= i < |items|
      ensures Bounds(asWritten, items[i]).1 < 256
    {
      assert ByteOnly(items[i]);
    }
  }

  /** One child in compile_Set of compiler.c, set in the bitset as it is read. */
  method CompilerItem(asWritten: bool, m0: set<nat>, item: Item) returns (r: Result<set<nat>>)
    requires Readable(item)
    ensures r.Failure? <==> item.Unexpected? || !ByteOnly(item)
    ensures r.Success? ==> r.value == m0 + RangeSet(Bounds(asWritten, item).0, Bounds(asWritten, item).1)
  {
    match item {
      case Single(t) =>
        var ch := ParseClassNoUnicode(asWritten, t);
        if ch.Failure? {
          return Failure;
        }
        assert m0 + {ch.value} == m0 + RangeSet(ch.value, ch.value);
        return Success(m0 + {ch.value});
      case Range(left, right) =>
        var a := ParseClassNoUnicode(asWritten, left);
        var b := ParseClassNoUnicode(asWritten, right);
        if a.Failure? || b.Failure? {
          return Failure;
        }
        var ch1 := a.value;
        var ch2 := b.value;
        if ch1 > ch2 {
          ch1, ch2 := ch2, ch1;
        }
        var m := SetRange(m0, ch1, ch2);
        return Success(m);
      case Unexpected =>
        return Failure;
    }
  }

  /** compile_Set of compiler.c: each character or range is set in the bitset as it is read. */
  method CompileSetCompiler(asWritten: bool, items: seq<Item>) returns (r: Result<Expr>)
    requires AllReadable(items)
    ensures r == CompilerClassResult(asWritten, items)
  {
    var m: set<nat> := {};
    var i := 0;
    while i < |items|
      invariant 0 <= i <= |items|
      invariant NoUnexpected(items[..i]) && AllByteOnly(items[..i])
      invariant m == PairsSet(Pairs(asWritten, items[..i]))
    {
      var next := CompilerItem(asWritten, m, items[i]);
      if next.Failure? {
        CompilerItemFails(asWritten, items, i);
        return Failure;
      }
      CompilerPrefixStep(asWritten, items, i);
      m := next.value;
      i := i + 1;
    }
    assert items[..i] == items;
    return Success(Set(m));
  }

  /** One item stopping compiler.c's loop stops the whole class. */
  lemma CompilerItemFails(asWritten: bool, items: seq<Item>, i: nat)
    requires AllReadable(items) && i < |items| && (items[i].Unexpected? || !ByteOnly(items[i]))
    ensures CompilerClassResult(asWritten, items) == Failure
  {
  }

  /** The prefix invariant of compiler.c's loop extended by one accepted item. */
  lemma CompilerPrefixStep(asWritten: bool, items: seq<Item>, i: nat)
    requires AllReadable(items) && i < |items| && !items[i].Unexpected? && ByteOnly(items[i])
    requires NoUnexpected(items[..i]) && AllByteOnly(items[..i])
    ensures NoUnexpected(items[..i + 1]) && AllByteOnly(items[..i + 1])
    ensures PairsSet(Pairs(asWritten, items[..i + 1])) == PairsSet(Pairs(asWritten, items[..i])) + RangeSet(Bounds(asWritten, items[i]).0, Bounds(asWritten, items[i]).1)
  {
    assert forall j :: 0 <= j < i ==> items[..i + 1][j] == items[..i][j];
    PairsSnoc(asWritten, items, i);
    PairsSetSnoc(Pairs(asWritten, items[..i]), Bounds(asWritten, items[i]));
  }

  /** The Set compiler.c builds holds exactly the bytes that some child covers. */
  lemma CompilerClassMembers(asWritten: bool, items: seq<Item>, x: nat)
    requires AllReadable(items) && CompilerClassResult(asWritten, items).Success?
    ensures x in CompilerClassResult(asWritten, items).value.members <==>
      exists i :: 0 <= i < |items| && InRange(x, Bounds(asWritten, items[i]).0, Bounds(asWritten, items[i]).1)
  {
    PairsSetMembers(Pairs(asWritten, items), x);
    BoundsBelow256(asWritten, items);
  }

  /** compiler.c and expression.c agree on every non-empty class without a \u escape. */
  lemma CompilersAgree(asWritten: bool, items: seq<Item>)
    requires AllReadable(items) && items != [] && AllByteOnly(items)
    ensures CompilerClassResult(asWritten, items) == ClassResult(asWritten, items)
  {
    if NoUnexpected(items) {
      BoundsBelow256(asWritten, items);
    }
  }
}
