/*
 * The length-prefixed strings of src/core/pstring.h and the scalar string
 * scans beside them. A C pointer into the input is an index into `mem`, the
 * input's bytes; a pstring is an object holding len and its byte buffer.
 */
module PString {
  import opened Config

  /**
   * strncmp(a, b, n) == 0: the first n bytes agree, except that the
   * comparison ends early at a NUL byte both strings share.
   */
  function StrncmpEqual(a: seq<Byte>, b: seq<Byte>, n: nat): bool
    requires n <= |a| && n <= |b|
    decreases n
  {
    n == 0 || (a[0] == b[0] && (a[0] == 0 || StrncmpEqual(a[1..], b[1..], n - 1)))
  }

  /** Without a NUL among the first n bytes, strncmp compares exactly those bytes. */
  lemma {:induction false} StrncmpWithoutNul(a: seq<Byte>, b: seq<Byte>, n: nat)
    requires n <= |a| && n <= |b| && forall i :: 0 <= i < n ==> a[i] != 0
    decreases n
    ensures StrncmpEqual(a, b, n) <==> a[..n] == b[..n]
  {
    if n > 0 {
      StrncmpWithoutNul(a[1..], b[1..], n - 1);
      if a[0] == b[0] && a[1..][..n - 1] == b[1..][..n - 1] {
        assert a[..n] == [a[0]] + a[1..][..n - 1];
        assert b[..n] == [b[0]] + b[1..][..n - 1];
      }
      if a[..n] == b[..n] {
        assert a[0] == a[..n][0] && b[0] == b[..n][0];
        assert a[1..][..n - 1] == a[..n][1..];
        assert b[1..][..n - 1] == b[..n][1..];
      }
    }
  }

  /** Equal prefixes always compare equal under strncmp. */
  lemma {:induction false} StrncmpReflexive(a: seq<Byte>, b: seq<Byte>, n: nat)
    requires n <= |a| && n <= |b| && a[..n] == b[..n]
    decreases n
    ensures StrncmpEqual(a, b, n)
  {
    if n > 0 {
      assert a[0] == a[..n][0] && b[0] == b[..n][0];
      assert a[1..][..n - 1] == a[..n][1..] && b[1..][..n - 1] == b[..n][1..];
      StrncmpReflexive(a[1..], b[1..], n - 1);
    }
  }

  /** What pstring_equal needs of strncmp, in one place. */
  lemma StrncmpFacts(a: seq<Byte>, b: seq<Byte>, n: nat)
    requires n <= |a| && n <= |b|
    ensures a[..n] == b[..n] ==> StrncmpEqual(a, b, n)
    ensures (forall i :: 0 <= i < n ==> a[i] != 0) ==> (StrncmpEqual(a, b, n) <==> a[..n] == b[..n])
  {
    if a[..n] == b[..n] {
      StrncmpReflexive(a, b, n);
    }
    if forall i :: 0 <= i < n ==> a[i] != 0 {
      StrncmpWithoutNul(a, b, n);
    }
  }

  /** pstring_t: len, then len bytes and a NUL at index len. */
  class PString {
    const len: nat
    const str: array<Byte>

    ghost predicate Valid()
      reads str
    {
      str.Length == len + 1 && str[len] == 0
    }

    /** The len bytes of the string. */
    function Bytes(): seq<Byte>
      reads str
      requires Valid()
    {
      str[..len]
    }

    /** pstring_alloc(mem + t, len): copy len bytes and terminate them. */
    constructor Alloc(mem: seq<Byte>, t: nat, len: nat)
      requires t + len <= |mem|
      ensures Valid() && fresh(str) && this.len == len && Bytes() == mem[t..t + len]
    {
      var a := new Byte[len + 1];
      forall i | 0 <= i < len {
        a[i] := mem[t + i];
      }
      a[len] := 0;
      this.len := len;
      str := a;
    }

    /** pstring_length: the stored length, the number of bytes of the string. */
    function Length(): (r: nat)
      reads str
      requires Valid()
      ensures r == |Bytes()| && r + 1 == str.Length
    {
      len
    }
  }

  /**
   * pstring_equal: 0 on a length mismatch, else strncmp over len bytes.
   * Strings with the same bytes compare equal; for strings without an
   * embedded NUL, equal means the same bytes.
   */
  function Equal(p1: PString, p2: PString): (r: bool)
    reads p1.str, p2.str
    requires p1.Valid() && p2.Valid()
    ensures p1.Bytes() == p2.Bytes() ==> r
    ensures r ==> p1.len == p2.len
    ensures (forall i :: 0 <= i < p1.len ==> p1.str[i] != 0) ==> (r <==> p1.Bytes() == p2.Bytes())
  {
    if p1.len != p2.len then false
    else
      StrncmpFacts(p1.str[..], p2.str[..], p1.len);
      StrncmpEqual(p1.str[..], p2.str[..], p1.len)
  }

  /**
   * pstring_starts_with_simple(mem + p, text, len): compare len bytes,
   * stopping at the first mismatch.
   */
  method StartsWithSimple(mem: seq<Byte>, p: nat, text: seq<Byte>, len: nat) returns (r: bool)
    requires p + len <= |mem| && len <= |text|
    ensures r <==> mem[p..p + len] == text[..len]
  {
    var i := 0;
    while i < len
      invariant 0 <= i <= len
      invariant mem[p..p + i] == text[..i]
    {
      if mem[p + i] != text[i] {
        assert mem[p..p + len][i] != text[..len][i];
        return false;
      }
      assert mem[p..p + i + 1] == mem[p..p + i] + [mem[p + i]];
      assert text[..i + 1] == text[..i] + [text[i]];
      i := i + 1;
    }
    return true;
  }

  /** pstring_starts_with without AVX2: the simple loop. */
  method StartsWith(mem: seq<Byte>, p: nat, text: seq<Byte>, len: nat) returns (r: bool)
    requires p + len <= |mem| && len <= |text|
    ensures r <==> mem[p..p + len] == text[..len]
  {
    r := StartsWithSimple(mem, p, text, len);
  }

  /**
   * A byte as a signed char, promoted to int: the reading of `*str` on
   * x86, the target of the function's SSE4.2 branch.
   */
  function SignedChar(b: Byte): (r: int)
    ensures -128 <= r < 128
    ensures r == b <==> b < 0x80
  {
    if b < 0x80 then b else b - 256
  }

  /**
   * The scalar tail of pstring_find_not_char(mem + str, end, c): skip
   * bytes whose signed char value equals c. It never looks at end, so it
   * needs some such byte at or after str to stop on. A c of 0x80 or more
   * equals no signed char, and the scan stops at str at once.
   */
  method FindNotChar(mem: seq<Byte>, str: nat, end: nat, c: Byte) returns (r: nat)
    requires exists k :: str <= k < |mem| && SignedChar(mem[k]) != c
    ensures str <= r < |mem| && SignedChar(mem[r]) != c
    ensures forall k :: str <= k < r ==> mem[k] == c
    ensures c < 0x80 ==> mem[r] != c
    ensures c >= 0x80 ==> r == str
  {
    ghost var stop :| str <= stop < |mem| && SignedChar(mem[stop]) != c;
    r := str;
    while SignedChar(mem[r]) == c
      invariant str <= r <= stop
      invariant forall k :: str <= k < r ==> mem[k] == c
      invariant c >= 0x80 ==> r == str
      decreases stop - r
    {
      r := r + 1;
    }
  }

  /**
   * The scan as written runs past end: with every byte of [str, end) equal
   * to c it returns a position beyond end.
   */
  method FindNotCharPastEnd() returns (r: nat)
    ensures r == 3
  {
    var mem: seq<Byte> := [7, 7, 7, 1];
    assert SignedChar(mem[3]) != 7;
    r := FindNotChar(mem, 0, 2, 7);
    assert r >= 3 by {
      assert mem[0] == 7 && mem[1] == 7 && mem[2] == 7;
    }
  }

  /** The scan bounded by end: the first byte in [str, end) other than c, else end. */
  method FindNotCharBounded(mem: seq<Byte>, str: nat, end: nat, c: Byte) returns (r: nat)
    requires str <= end <= |mem|
    ensures str <= r <= end
    ensures forall k :: str <= k < r ==> mem[k] == c
    ensures r < end ==> mem[r] != c
  {
    r := str;
    while r < end && mem[r] == c
      invariant str <= r <= end
      invariant forall k :: str <= k < r ==> mem[k] == c
    {
      r := r + 1;
    }
  }

  /**
   * A c of 0x80 or more: over [0xFF, 0x01] with c = 0xFF the scan as
   * written returns str, where the bounded unsigned scan skips the 0xFF.
   */
  method FindNotCharHighByte() returns (r: nat, bounded: nat)
    ensures r == 0 && bounded == 1
  {
    var mem: seq<Byte> := [0xFF, 0x01];
    assert SignedChar(mem[0]) != 0xFF;
    r := FindNotChar(mem, 0, 2, 0xFF);
    bounded := FindNotCharBounded(mem, 0, 2, 0xFF);
    assert mem[1] != 0xFF;
  }

  /** pstring_alloc, then pstring_length and pstring_equal against a copy of the same bytes. */
  method AllocTwice(mem: seq<Byte>, t: nat, len: nat) returns (n: nat, same: bool)
    requires t + len <= |mem|
    ensures n == len && same
  {
    var a := new PString.Alloc(mem, t, len);
    var b := new PString.Alloc(mem, t, len);
    n := a.Length();
    same := Equal(a, b);
  }

  /** Two pstrings that share a NUL at index 0 compare equal though their later bytes differ. */
  method EqualStopsAtNul() returns (same: bool, sameBytes: bool)
    ensures same && !sameBytes
  {
    var a := new PString.Alloc([0, 1], 0, 2);
    var b := new PString.Alloc([0, 2], 0, 2);
    assert a.str[..] == [0, 1, 0] && b.str[..] == [0, 2, 0];
    assert a.str[..][1..] == [1, 0];
    same := Equal(a, b);
    sameBytes := a.Bytes() == b.Bytes();
    assert a.Bytes()[1] != b.Bytes()[1];
  }
}
