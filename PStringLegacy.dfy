/*
 * The older pstring of src/pstring.h: the same header, but the buffer holds
 * exactly len bytes and no terminator. Its starts_with_simple and
 * starts_with are the same code as in src/core/pstring.h (PString module).
 */
module PStringLegacy {
  import opened Config
  import PString

  /** pstring_t of src/pstring.h: len, then len bytes. */
  class LegacyPString {
    const len: nat
    const str: array<Byte>

    ghost predicate Valid()
      reads this
    {
      str.Length == len
    }

    /** pstring_alloc(mem + t, len): copy len bytes, with no terminator. */
    constructor Alloc(mem: seq<Byte>, t: nat, len: nat)
      requires t + len <= |mem|
      ensures Valid() && fresh(str) && this.len == len && str[..] == mem[t..t + len]
    {
      var a := new Byte[len];
      forall i | 0 <= i < len {
        a[i] := mem[t + i];
      }
      this.len := len;
      str := a;
    }

    /** pstring_length: the stored length, which is the whole buffer. */
    function Length(): (r: nat)
      reads this
      requires Valid()
      ensures r == str.Length
    {
      len
    }
  }

  /** A copied prefix of the input matches the input where it was copied from. */
  method AllocThenStartsWith(mem: seq<Byte>, t: nat, len: nat) returns (n: nat, found: bool)
    requires t + len <= |mem|
    ensures n == len && found
  {
    var s := new LegacyPString.Alloc(mem, t, len);
    n := s.Length();
    found := PString.StartsWith(mem, t, s.str[..], n);
  }
}
