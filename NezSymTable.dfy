/*
 * The symbol table of src/libnez/symtable.c. Its lookups, add_symbol and
 * init are the code of src/symtable.c over the same entry layout and are
 * modelled by SymTable; only symtable_push differs: its entry_t is not
 * zeroed first, so an entry pushed without a token keeps whatever token the
 * stack slot held. That leftover is a parameter, `stale`.
 */
module NezSymTable {
  import KHash
  import opened SymTable

  /**
   * symtable_push with an uninitialised entry: state, hash and tag are set;
   * the token is copied only when there is one, else it is `stale`.
   */
  method Push(tbl: SymTable, tag: Tag, hash: nat, t: Option<TokenValue>, stale: Option<TokenValue>)
    requires tbl.Valid()
    modifies tbl, tbl.table, tbl.table.list
    ensures tbl.Valid()
    ensures tbl.Contents() == old(tbl.Contents()) + [Entry(old(tbl.state), hash, tag, if t.Some? then t else stale)]
    ensures tbl.state == (old(tbl.state) + 1) % KHash.Word32
    ensures tbl.table.list == old(tbl.table.list) || fresh(tbl.table.list)
  {
    var sym := if t.Some? then t else stale;
    tbl.Push(tag, hash, sym);
  }

  /**
   * symtable_add_symbol_mask as written: the mask entry is a mask only when
   * the leftover token is NULL.
   */
  method AddSymbolMask(tbl: SymTable, tag: Tag, stale: Option<TokenValue>)
    requires tbl.Valid()
    modifies tbl, tbl.table, tbl.table.list
    ensures tbl.Valid()
    ensures tbl.Contents() == old(tbl.Contents()) + [Entry(old(tbl.state), 0, tag, stale)]
    ensures tbl.state == (old(tbl.state) + 1) % KHash.Word32
    ensures tbl.table.list == old(tbl.table.list) || fresh(tbl.table.list)
    ensures HasOf(tbl.Contents(), tag) <==> stale.Some?
  {
    Push(tbl, tag, 0, None, stale);
  }

  /**
   * A mask pushed over a stack slot that last held a token reads as that
   * symbol: has_symbol answers 1 and get_symbol returns the leftover token.
   */
  method StaleMaskReadsAsSymbol(tag: Tag, leftover: TokenValue) returns (has: bool, got: Option<TokenValue>)
    ensures has && got == Some(leftover)
  {
    var tbl := new SymTable.Init();
    AddSymbolMask(tbl, tag, Some(leftover));
    has := tbl.HasSymbol(tag);
    got := tbl.GetSymbol(tag);
  }
}
