/*
 * The token of src/token.h: a slice of the input named by its start and
 * length. Pointers into the input are indices into `mem`, the input's bytes.
 */
module Token {
  import opened Config

  /** The bytes a slice [s, s + len) of mem holds. */
  ghost function Slice(mem: seq<Byte>, s: nat, len: nat): seq<Byte>
    requires s + len <= |mem|
  {
    mem[s..s + len]
  }

  /** token_t */
  class Token {
    var s: nat
    var len: nat

    /** token_init(t, s, e): the slice from s up to e. */
    constructor Init(s: nat, e: nat)
      requires s <= e
      ensures this.s == s && len == e - s
    {
      this.s := s;
      len := e - s;
    }

    /** token_copy(t, t2): take t2's slice. */
    method Copy(t2: Token)
      modifies this
      ensures s == t2.s && len == t2.len
    {
      s := t2.s;
      len := t2.len;
    }

    /** token_length */
    function Length(): (r: nat)
      reads this
      ensures r == len
    {
      len
    }

    /**
     * token_equal(this, t2): 0 when the lengths differ, else 1 exactly when
     * all len bytes agree.
     */
    method Equal(t2: Token, mem: seq<Byte>) returns (r: bool)
      requires s + len <= |mem| && t2.s + t2.len <= |mem|
      ensures r <==> len == t2.len && Slice(mem, s, len) == Slice(mem, t2.s, t2.len)
    {
      if len != t2.len {
        return false;
      }
      var i := 0;
      while i < len
        invariant 0 <= i <= len
        invariant mem[s..s + i] == mem[t2.s..t2.s + i]
      {
        if mem[s + i] != mem[t2.s + i] {
          assert Slice(mem, s, len)[i] != Slice(mem, t2.s, t2.len)[i];
          return false;
        }
        assert mem[s..s + i + 1] == mem[s..s + i] + [mem[s + i]];
        assert mem[t2.s..t2.s + i + 1] == mem[t2.s..t2.s + i] + [mem[t2.s + i]];
        i := i + 1;
      }
      return true;
    }

    /**
     * token_equal_string(this, mem + str): 1 exactly when the token's len
     * bytes equal the len bytes at str; the string's own end is not looked at.
     */
    method EqualString(str: nat, mem: seq<Byte>) returns (r: bool)
      requires s + len <= |mem| && str + len <= |mem|
      ensures r <==> Slice(mem, s, len) == Slice(mem, str, len)
    {
      var i := 0;
      while i < len
        invariant 0 <= i <= len
        invariant mem[s..s + i] == mem[str..str + i]
      {
        if mem[s + i] != mem[str + i] {
          assert Slice(mem, s, len)[i] != Slice(mem, str, len)[i];
          return false;
        }
        assert mem[s..s + i + 1] == mem[s..s + i] + [mem[s + i]];
        assert mem[str..str + i + 1] == mem[str..str + i] + [mem[str + i]];
        i := i + 1;
      }
      return true;
    }
  }

  /** After token_copy(t, t2), token_equal(t, t2) holds. */
  method CopyThenEqual(mem: seq<Byte>, s: nat, e: nat) returns (r: bool)
    requires s <= e <= |mem|
    ensures r
  {
    var t2 := new Token.Init(s, e);
    var t := new Token.Init(0, 0);
    t.Copy(t2);
    r := t.Equal(t2, mem);
  }

  /** token_equal is symmetric: both orders give the same answer. */
  method EqualSymmetric(mem: seq<Byte>, a: nat, alen: nat, b: nat, blen: nat) returns (r1: bool, r2: bool)
    requires a + alen <= |mem| && b + blen <= |mem|
    ensures r1 == r2
  {
    var t1 := new Token.Init(a, a + alen);
    var t2 := new Token.Init(b, b + blen);
    r1 := t1.Equal(t2, mem);
    r2 := t2.Equal(t1, mem);
  }

  /** token_equal_string against the token's own start holds. */
  method EqualStringSelf(mem: seq<Byte>, s: nat, e: nat) returns (r: bool)
    requires s <= e <= |mem|
    ensures r
  {
    var t := new Token.Init(s, e);
    r := t.EqualString(s, mem);
  }
}
