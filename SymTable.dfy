/*
 * The symbol table of src/symtable.c: a stack of entries (state, hash, tag,
 * symbol) searched newest first. A table name (tag) is compared as a
 * pointer, so it is modelled by an identity number; a symbol is a token into
 * the input `mem`, absent (NULL) in a mask entry.
 */
module SymTable {
  import opened Config
  import KArray
  import KHash

  /** A table name, compared by identity as the C code compares pointers. */
  type Tag = nat

  /** The captured slice [s, s + len) of the input. */
  datatype TokenValue = TokenValue(s: nat, len: nat)

  datatype Option<T> = None | Some(value: T)

  /** symtable_entry_t; sym is None where the C token's s is NULL. */
  datatype Entry = Entry(state: nat, hash: nat, tag: Tag, sym: Option<TokenValue>)

  /** A mask entry pushed by symtable_add_symbol_mask. */
  predicate IsMask(e: Entry)
  {
    e.sym.None?
  }

  /** Every symbol of es lies inside mem. */
  ghost predicate TokensIn(es: seq<Entry>, mem: seq<Byte>)
  {
    forall i :: 0 <= i < |es| && es[i].sym.Some? ==> es[i].sym.value.s + es[i].sym.value.len <= |mem|
  }

  function Bytes(mem: seq<Byte>, t: TokenValue): seq<Byte>
    requires t.s + t.len <= |mem|
  {
    mem[t.s..t.s + t.len]
  }

  /** token_equal on two tokens into mem: same length and same bytes. */
  function TokenEqual(mem: seq<Byte>, a: TokenValue, b: TokenValue): bool
    requires a.s + a.len <= |mem| && b.s + b.len <= |mem|
  {
    a.len == b.len && Bytes(mem, a) == Bytes(mem, b)
  }

  /** Every symbol entry's hash is the FNV-1a hash of its bytes, as add_symbol stores it. */
  ghost predicate HashesMatch(es: seq<Entry>, mem: seq<Byte>)
    requires TokensIn(es, mem)
  {
    forall i :: 0 <= i < |es| && es[i].sym.Some? ==> es[i].hash == KHash.Hash(Bytes(mem, es[i].sym.value))
  }

  /** has_symbol: the newest entry for tag, if any, carries a symbol. */
  function HasOf(es: seq<Entry>, tag: Tag): bool
  {
    if es == [] then false
    else if es[|es| - 1].tag == tag then es[|es| - 1].sym.Some?
    else HasOf(es[..|es| - 1], tag)
  }

  /** get_symbol: the newest symbol entry for tag, passing over masks. */
  function GetOf(es: seq<Entry>, tag: Tag): Option<TokenValue>
  {
    if es == [] then None
    else if es[|es| - 1].tag == tag && es[|es| - 1].sym.Some? then es[|es| - 1].sym
    else GetOf(es[..|es| - 1], tag)
  }

  /**
   * contains: newest first, a mask for tag ends the search with false; a
   * symbol for tag with the token's hash and bytes ends it with true.
   */
  function ContainsOf(es: seq<Entry>, tag: Tag, hash: nat, mem: seq<Byte>, t: TokenValue): bool
    requires TokensIn(es, mem) && t.s + t.len <= |mem|
  {
    if es == [] then false
    else
      var e := es[|es| - 1];
      if e.tag == tag && e.sym.None? then false
      else if e.tag == tag && hash == e.hash && TokenEqual(mem, t, e.sym.value) then true
      else ContainsOf(es[..|es| - 1], tag, hash, mem, t)
  }

  /** The same search comparing bytes only: what contains means. */
  function ContainsBytes(es: seq<Entry>, tag: Tag, mem: seq<Byte>, t: TokenValue): bool
    requires TokensIn(es, mem) && t.s + t.len <= |mem|
  {
    if es == [] then false
    else
      var e := es[|es| - 1];
      if e.tag == tag && e.sym.None? then false
      else if e.tag == tag && TokenEqual(mem, t, e.sym.value) then true
      else ContainsBytes(es[..|es| - 1], tag, mem, t)
  }

  /** No entry newer than i is for tag. */
  ghost predicate NewestFor(es: seq<Entry>, tag: Tag, i: nat)
    requires i < |es|
  {
    es[i].tag == tag && forall j :: i < j < |es| ==> es[j].tag != tag
  }

  /** has_symbol holds exactly when the newest entry for tag is a symbol. */
  lemma {:induction false} HasOfMeaning(es: seq<Entry>, tag: Tag)
    ensures HasOf(es, tag) <==> exists i :: 0 <= i < |es| && NewestFor(es, tag, i) && es[i].sym.Some?
  {
    if es != [] {
      var n := |es| - 1;
      var pre := es[..n];
      HasOfMeaning(pre, tag);
      if es[n].tag == tag {
        assert NewestFor(es, tag, n);
        forall i | 0 <= i < n && NewestFor(es, tag, i)
          ensures false
        {
        }
      } else {
        forall i | 0 <= i < n
          ensures NewestFor(es, tag, i) <==> NewestFor(pre, tag, i)
        {
        }
        if HasOf(es, tag) {
          var i :| 0 <= i < |pre| && NewestFor(pre, tag, i) && pre[i].sym.Some?;
          assert NewestFor(es, tag, i);
        }
      }
    }
  }

  /**
   * get_symbol finds a symbol entry for tag with no newer symbol entry for
   * tag, and finds nothing exactly when tag has no symbol entry.
   */
  lemma {:induction false} GetOfMeaning(es: seq<Entry>, tag: Tag)
    ensures GetOf(es, tag).None? <==> forall i :: 0 <= i < |es| && es[i].tag == tag ==> es[i].sym.None?
    ensures GetOf(es, tag).Some? ==> exists i :: 0 <= i < |es| && es[i].tag == tag && es[i].sym == GetOf(es, tag) &&
                                                (forall j :: i < j < |es| && es[j].tag == tag ==> es[j].sym.None?)
  {
    if es != [] {
      var n := |es| - 1;
      var pre := es[..n];
      GetOfMeaning(pre, tag);
      if !(es[n].tag == tag && es[n].sym.Some?) {
        if GetOf(es, tag).Some? {
          var i :| 0 <= i < |pre| && pre[i].tag == tag && pre[i].sym == GetOf(pre, tag) &&
                   (forall j :: i < j < |pre| && pre[j].tag == tag ==> pre[j].sym.None?);
          assert es[i] == pre[i];
        }
      }
    }
  }

  /**
   * When every stored hash is the hash of its bytes, comparing hashes first
   * changes nothing: contains answers the byte comparison.
   */
  lemma {:induction false} ContainsHashFilter(es: seq<Entry>, tag: Tag, mem: seq<Byte>, t: TokenValue)
    requires TokensIn(es, mem) && HashesMatch(es, mem) && t.s + t.len <= |mem|
    ensures ContainsOf(es, tag, KHash.Hash(Bytes(mem, t)), mem, t) == ContainsBytes(es, tag, mem, t)
  {
    if es != [] {
      var pre := es[..|es| - 1];
      assert TokensIn(pre, mem) && HashesMatch(pre, mem);
      ContainsHashFilter(pre, tag, mem, t);
    }
  }

  /** symtable_t: the state counter and the entry stack. */
  class SymTable {
    var state: nat
    const table: KArray.Array<Entry>

    ghost predicate Valid()
      reads this, table
    {
      table.Valid() && state < KHash.Word32
    }

    ghost function Contents(): seq<Entry>
      reads this, table, table.list
      requires Valid()
    {
      table.Contents()
    }

    /** symtable_init: an empty table, room for 4 entries, state 0. */
    constructor Init()
      ensures Valid() && fresh(table) && fresh(table.list)
      ensures Contents() == [] && state == 0
    {
      state := 0;
      table := new KArray.Array<Entry>.Init(4, Entry(0, 0, 0, None));
    }

    /**
     * symtable_push: append an entry stamped with the current state, which
     * then advances (an unsigned counter, so modulo 2^32).
     */
    method Push(tag: Tag, hash: nat, t: Option<TokenValue>)
      requires Valid()
      modifies this, table, table.list
      ensures Valid() && Contents() == old(Contents()) + [Entry(old(state), hash, tag, t)]
      ensures state == (old(state) + 1) % KHash.Word32
      ensures table.list == old(table.list) || fresh(table.list)
    {
      var entry := Entry(state, hash, tag, t);
      state := (state + 1) % KHash.Word32;
      table.Add(entry);
    }

    /** symtable_add_symbol_mask: push a mask, which hides tag's older symbols. */
    method AddSymbolMask(tag: Tag)
      requires Valid()
      modifies this, table, table.list
      ensures Valid() && Contents() == old(Contents()) + [Entry(old(state), 0, tag, None)]
      ensures state == (old(state) + 1) % KHash.Word32
      ensures table.list == old(table.list) || fresh(table.list)
      ensures !HasOf(Contents(), tag)
    {
      Push(tag, 0, None);
    }

    /** symtable_add_symbol: push the captured token with its FNV-1a hash. */
    method AddSymbol(tag: Tag, captured: TokenValue, mem: seq<Byte>)
      requires Valid() && captured.s + captured.len <= |mem|
      modifies this, table, table.list
      ensures Valid()
      ensures Contents() == old(Contents()) + [Entry(old(state), KHash.Hash(Bytes(mem, captured)), tag, Some(captured))]
      ensures state == (old(state) + 1) % KHash.Word32
      ensures table.list == old(table.list) || fresh(table.list)
      ensures HasOf(Contents(), tag) && GetOf(Contents(), tag) == Some(captured)
    {
      var hash := KHash.Fnv1a(mem, captured.s, captured.len);
      Push(tag, hash, Some(captured));
    }

    /** symtable_has_symbol: scan newest to oldest for the first entry for tag. */
    method HasSymbol(tag: Tag) returns (r: bool)
      requires Valid()
      ensures r == HasOf(Contents(), tag)
    {
      if table.size == 0 {
        return false;
      }
      var i := table.size;
      assert Contents()[..i] == Contents();
      while i > 0
        invariant 0 <= i <= table.size
        invariant HasOf(Contents(), tag) == HasOf(Contents()[..i], tag)
      {
        i := i - 1;
        assert Contents()[..i + 1][..i] == Contents()[..i];
        if table.list[i].tag == tag {
          return table.list[i].sym.Some?;
        }
      }
      return false;
    }

    /** symtable_get_symbol: the newest symbol for tag, or nothing. */
    method GetSymbol(tag: Tag) returns (r: Option<TokenValue>)
      requires Valid()
      ensures r == GetOf(Contents(), tag)
    {
      if table.size == 0 {
        return None;
      }
      var i := table.size;
      assert Contents()[..i] == Contents();
      while i > 0
        invariant 0 <= i <= table.size
        invariant GetOf(Contents(), tag) == GetOf(Contents()[..i], tag)
      {
        i := i - 1;
        assert Contents()[..i + 1][..i] == Contents()[..i];
        if table.list[i].tag == tag && table.list[i].sym.Some? {
          return table.list[i].sym;
        }
      }
      return None;
    }

    /** symtable_contains: hash the token, then scan newest to oldest. */
    method Contains(tag: Tag, t: TokenValue, mem: seq<Byte>) returns (r: bool)
      requires Valid() && TokensIn(Contents(), mem) && t.s + t.len <= |mem|
      ensures r == ContainsOf(Contents(), tag, KHash.Hash(Bytes(mem, t)), mem, t)
    {
      if table.size == 0 {
        return false;
      }
      var hash := KHash.Fnv1a(mem, t.s, t.len);
      var i := table.size;
      assert Contents()[..i] == Contents();
      while i > 0
        invariant 0 <= i <= table.size && TokensIn(Contents()[..i], mem)
        invariant ContainsOf(Contents(), tag, hash, mem, t) == ContainsOf(Contents()[..i], tag, hash, mem, t)
      {
        i := i - 1;
        assert Contents()[..i + 1][..i] == Contents()[..i];
        var e := table.list[i];
        if e.tag == tag {
          if e.sym.None? {
            return false;
          }
          if hash == e.hash && TokenEqual(mem, t, e.sym.value) {
            return true;
          }
        }
      }
      return false;
    }

    /** symtable_savepoint: the current number of entries. */
    function Savepoint(): (r: nat)
      reads this, table, table.list
      requires Valid()
      ensures r == |Contents()|
    {
      table.size
    }

    /**
     * symtable_rollback: drop the entries pushed since the savepoint; the
     * state counter is left where it is.
     */
    method Rollback(saved: nat)
      requires Valid() && saved <= |Contents()|
      modifies table
      ensures Valid() && Contents() == old(Contents())[..saved] && state == old(state)
    {
      table.size := saved;
    }
  }

  /** The test of src/symtable.c: on an empty table, has_symbol and get_symbol give 0. */
  method EmptyTable(tag: Tag) returns (has: bool, got: Option<TokenValue>)
    ensures !has && got == None
  {
    var tbl := new SymTable.Init();
    has := tbl.HasSymbol(tag);
    got := tbl.GetSymbol(tag);
  }

  /**
   * rollback(savepoint()) undoes a later add_symbol, while the state counter
   * keeps its advance.
   */
  method RollbackUndoesAdd(tag: Tag, captured: TokenValue, mem: seq<Byte>)
    returns (before: bool, during: bool, after: bool, state: nat)
    requires captured.s + captured.len <= |mem|
    ensures !before && during && !after && state == 1
  {
    var tbl := new SymTable.Init();
    before := tbl.HasSymbol(tag);
    var saved := tbl.Savepoint();
    tbl.AddSymbol(tag, captured, mem);
    during := tbl.HasSymbol(tag);
    tbl.Rollback(saved);
    after := tbl.HasSymbol(tag);
    state := tbl.state;
  }

  /** A mask hides the older symbol from has_symbol, get_symbol finds it, contains stops at the mask. */
  method MaskHidesSymbol(tag: Tag, captured: TokenValue, mem: seq<Byte>)
    returns (has: bool, got: Option<TokenValue>, found: bool)
    requires captured.s + captured.len <= |mem|
    ensures !has && got == Some(captured) && !found
  {
    var tbl := new SymTable.Init();
    tbl.AddSymbol(tag, captured, mem);
    tbl.AddSymbolMask(tag);
    has := tbl.HasSymbol(tag);
    got := tbl.GetSymbol(tag);
    found := tbl.Contains(tag, captured, mem);
  }
}
