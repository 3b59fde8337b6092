/**
 * Reading the text of grammar literals: hexadecimal digits (to_hex),
 * escaped characters (parseEscapedChar), \u escapes (parseUnicode4), the
 * characters of a character class (parseClass) and the Character literal
 * (compile_Byte). The copies of these in src/compiler/expression.c,
 * src/compiler/ast.c and src/compiler/compiler.c agree except where noted.
 *
 * A literal is read from the text where its token starts; the code reads
 * as many bytes as the escape needs, past the end of the token if need be,
 * so each function asks for the bytes it reads.
 */
module CharClass {
  import opened Config
  import opened Bits
  import opened Grammar

  datatype Option<T> = None | Some(value: T)

  /** (unsigned)-1, what to_hex returns for a byte that is not a digit. */
  const NotHex: nat := 0xFFFF_FFFF

  /** The byte of an ASCII character. */
  function B(c: char): Byte
    requires c as int < 256
  {
    c as int
  }

  const Backslash: Byte := B('\\')

  predicate IsHexDigit(c: Byte)
  {
    B('0') <= c <= B('9') || B('a') <= c <= B('f') || B('A') <= c <= B('F')
  }

  /** to_hex: the value of a hexadecimal digit, of either case. */
  function ToHex(c: Byte): (r: nat)
    ensures IsHexDigit(c) <==> r < 16
    ensures !IsHexDigit(c) ==> r == NotHex
  {
    if B('0') <= c <= B('9') then c - B('0')
    else if B('a') <= c <= B('f') then c - B('a') + 10
    else if B('A') <= c <= B('F') then c - B('A') + 10
    else NotHex
  }

  /** The digit table "0123456789abcdef" write_char prints bytes with. */
  const HexDigits: string := "0123456789abcdef"

  /** The lower-case digit of v. */
  function HexChar(v: nat): (c: Byte)
    requires v < 16
  {
    B(HexDigits[v])
  }

  /** to_hex reads back every digit of the table. */
  lemma ToHexOfHexChar(v: nat)
    requires v < 16
    ensures ToHex(HexChar(v)) == v
  {
  }

  /** Upper-case digits read as the lower-case ones. */
  lemma ToHexUpper(v: nat)
    requires 10 <= v < 16
    ensures ToHex(B("ABCDEF"[v - 10])) == v
  {
  }

  /** x | (2^n - 1) sets every bit below n. */
  lemma {:induction false} OrAllOnes(x: nat, n: nat)
    requires x < Pow2(n)
    decreases n
    ensures Or(x, Pow2(n) - 1) == Pow2(n) - 1
  {
    if n == 0 {
      assert x == 0 && Pow2(n) - 1 == 0;
    } else {
      var p := Pow2(n - 1);
      assert Pow2(n) == 2 * p;
      var m := 2 * p - 1;
      assert m / 2 == p - 1 && m % 2 == 1;
      assert x / 2 < p;
      OrAllOnes(x / 2, n - 1);
      assert Or(x, m) == 2 * Or(x / 2, m / 2) + 1;
    }
  }

  /**
   * The value of the escape \xHL as written: `c = to_hex(H); c = c << 8 |
   * to_hex(L)` with c an unsigned char, so the first digit is shifted out
   * of the byte altogether.
   */
  function HexEscapeAsWritten(hi: Byte, lo: Byte): (r: Byte)
    ensures r == ToHex(lo) % 256
  {
    ShiftedLowByte(ToHex(hi) % 256, ToHex(lo));
    Or((ToHex(hi) % 256) * 256, ToHex(lo)) % 256
  }

  /** The value of \xHL as intended: H is the high digit and L the low one. */
  function HexEscape(hi: Byte, lo: Byte): (r: Byte)
    ensures IsHexDigit(hi) && IsHexDigit(lo) ==> r / 16 == ToHex(hi) && r % 16 == ToHex(lo)
  {
    DigitPair(ToHex(hi), ToHex(lo));
    (ToHex(hi) * 16 + ToHex(lo)) % 256
  }

  /**
   * The value of \xHL under one of the two readings: as the source writes
   * it, or with the shift corrected. Every reader below takes the reading
   * as a parameter.
   */
  function HexValue(asWritten: bool, hi: Byte, lo: Byte): Byte
  {
    if asWritten then HexEscapeAsWritten(hi, lo) else HexEscape(hi, lo)
  }

  /** Or-ing a digit, or the all-ones "not a digit", below a byte shifted by 8 leaves that digit as the low byte. */
  lemma ShiftedLowByte(a: nat, d: nat)
    requires a < 256 && (d < 16 || d == NotHex)
    ensures Or(a * 256, d) % 256 == d % 256
  {
    if d < 16 {
      ShiftedOrDigit(a, d);
      LowByte(a, d);
    } else {
      ShiftedOrAllOnes(a);
    }
  }

  lemma LowByte(a: nat, d: nat)
    requires d < 256
    ensures (a * 256 + d) % 256 == d
  {
  }

  lemma ShiftedOrDigit(a: nat, d: nat)
    requires a < 256 && d < 16
    ensures Or(a * 256, d) == a * 256 + d
  {
    Pow2Is256();
    OrDisjoint(a, d, 8);
  }

  lemma ShiftedOrAllOnes(a: nat)
    requires a < 256
    ensures Or(a * 256, NotHex) == NotHex
  {
    Pow2Is16And32Bit();
    assert a * 256 < Pow2(32);
    OrAllOnes(a * 256, 32);
  }

  lemma Pow2Is256()
    ensures Pow2(8) == 256
  {
    assert Pow2(4) == 16;
  }

  /** Whenever the high digit is not 0 the escape as written is not the intended byte: "\x41" gives 1, not 'A'. */
  lemma HexEscapeAsWrittenExample(hi: Byte, lo: Byte)
    requires IsHexDigit(hi) && IsHexDigit(lo) && ToHex(hi) != 0
    ensures HexEscapeAsWritten(hi, lo) == ToHex(lo)
    ensures HexEscape(hi, lo) == ToHex(hi) * 16 + ToHex(lo) != HexEscapeAsWritten(hi, lo)
  {
    TwoDigits(ToHex(hi), ToHex(lo));
  }

  lemma TwoDigits(h: nat, l: nat)
    requires h < 16 && l < 16
    ensures (h * 16 + l) % 256 == h * 16 + l && l % 256 == l
  {
  }

  /** Two digits h and l make the byte h * 16 + l, whose digits they are. */
  lemma DigitPair(h: nat, l: nat)
    ensures h < 16 && l < 16 ==> (h * 16 + l) % 256 / 16 == h && (h * 16 + l) % 256 % 16 == l
  {
  }

  /** As intended, two hexadecimal digits give every byte back. */
  lemma HexEscapeRoundTrip(v: Byte)
    ensures HexEscape(HexChar(v / 16), HexChar(v % 16)) == v
  {
    ToHexOfHexChar(v / 16);
    ToHexOfHexChar(v % 16);
  }

  datatype Result<T> = Success(value: T) | Failure

  /** The byte escaped by one of the letters b, f, v, n, r and t, the escapes both readers share. */
  function ControlOf(c: Byte): Option<Byte>
  {
    if c == B('b') then Some(8)
    else if c == B('f') then Some(12)
    else if c == B('v') then Some(11)
    else if c == B('n') then Some(10)
    else if c == B('r') then Some(13)
    else if c == B('t') then Some(9)
    else None
  }

  /** The letter that escapes a control byte, if it has one. */
  function LetterOf(b: Byte): (r: Option<Byte>)
    ensures r.Some? ==> ControlOf(r.value) == Some(b)
  {
    if b == 8 then Some(B('b'))
    else if b == 12 then Some(B('f'))
    else if b == 11 then Some(B('v'))
    else if b == 10 then Some(B('n'))
    else if b == 13 then Some(B('r'))
    else if b == 9 then Some(B('t'))
    else None
  }

  lemma LetterOfControl(c: Byte)
    ensures ControlOf(c).Some? ==> LetterOf(ControlOf(c).value) == Some(c)
  {
  }

  /** parseEscapedChar reads a backslash, its letter and, for \x, two digits. */
  predicate EscapeReadable(p: seq<Byte>)
  {
    |p| >= 1 && (p[0] == Backslash ==> |p| >= 2 && (p[1] == B('x') ==> |p| >= 4))
  }

  /**
   * parseEscapedChar: the byte an escape at the start of p stands for;
   * None where p does not start with one. As written, \xHL gives the
   * value of L alone.
   */
  function ParseEscapedChar(asWritten: bool, p: seq<Byte>): (r: Option<Byte>)
    requires EscapeReadable(p)
    ensures r.Some? <==> p[0] == Backslash && (p[1] == Backslash || p[1] == B('x') || ControlOf(p[1]).Some?)
    ensures r.Some? && p[1] == B('x') ==> r.value == HexValue(asWritten, p[2], p[3])
    ensures r.Some? && p[1] == B('x') && asWritten ==> r.value == ToHex(p[3]) % 256
  {
    if p[0] != Backslash then None
    else if p[1] == Backslash then Some(Backslash)
    else if p[1] == B('x') then
      Some(HexValue(asWritten, p[2], p[3]))
    else ControlOf(p[1])
  }

  /** How a byte is written as an escape: by its letter, or as \x and two digits. */
  function EscapeOf(b: Byte): (r: seq<Byte>)
    ensures |r| >= 2 && r[0] == Backslash
  {
    if b == Backslash then [Backslash, Backslash]
    else if LetterOf(b).Some? then [Backslash, LetterOf(b).value]
    else [Backslash, B('x'), HexChar(b / 16), HexChar(b % 16)]
  }

  /** The two digits a byte is written with read back as it, corrected, and as its low digit, as written. */
  lemma HexDigitsOf(b: Byte)
    ensures HexValue(false, HexChar(b / 16), HexChar(b % 16)) == b
    ensures HexValue(true, HexChar(b / 16), HexChar(b % 16)) == b % 16
  {
    HexEscapeRoundTrip(b);
    var l := b % 16;
    ToHexOfHexChar(l);
    assert ToHex(HexChar(l)) % 256 == l;
  }

  /**
   * With the shift corrected, every byte's escape reads back as that byte,
   * whatever follows it. As written, a byte escaped as \xHL reads back as
   * its low digit, so only the bytes below 16 and those escaped by a
   * letter survive.
   */
  lemma EscapeRoundTrip(b: Byte, rest: seq<Byte>)
    ensures EscapeReadable(EscapeOf(b) + rest)
    ensures ParseEscapedChar(false, EscapeOf(b) + rest) == Some(b)
    ensures ParseEscapedChar(true, EscapeOf(b) + rest) == Some(if |EscapeOf(b)| == 2 then b else b % 16)
    ensures ParseEscapedChar(true, EscapeOf(b) + rest) == Some(b) <==> |EscapeOf(b)| == 2 || b < 16
  {
    var p := EscapeOf(b) + rest;
    assert p[0] == Backslash && p[1] == EscapeOf(b)[1];
    if b != Backslash && LetterOf(b).None? {
      var hi, lo := HexChar(b / 16), HexChar(b % 16);
      assert p[1] == B('x') && p[2] == hi && p[3] == lo;
      HexDigitsOf(b);
      assert ParseEscapedChar(false, p) == Some(b);
      assert ParseEscapedChar(true, p) == Some(b % 16);
    } else {
      assert ParseEscapedChar(false, p) == ParseEscapedChar(true, p) == Some(b);
    }
  }

  /** parseUnicode4: four hexadecimal digits, in unsigned arithmetic. */
  function ParseUnicode4(q: seq<Byte>): (r: nat)
    requires |q| >= 4
    ensures r < 0x1_0000_0000
  {
    (ToHex(q[0]) * 4096 + ToHex(q[1]) * 256 + ToHex(q[2]) * 16 + ToHex(q[3])) % 0x1_0000_0000
  }

  /** The four lower-case digits of a 16-bit value. */
  function Hex4(v: nat): seq<Byte>
    requires v < 0x1_0000
  {
    var w := v / 16;
    var x := w / 16;
    [HexChar(x / 16), HexChar(x % 16), HexChar(w % 16), HexChar(v % 16)]
  }

  /** Four digits read back as the value they were written from. */
  lemma Unicode4RoundTrip(v: nat)
    requires v < 0x1_0000
    ensures ParseUnicode4(Hex4(v)) == v
  {
    var w := v / 16;
    var x := w / 16;
    assert v == w * 16 + v % 16;
    assert w == x * 16 + w % 16;
    assert x == x / 16 * 16 + x % 16;
    ToHexOfHexChar(x / 16);
    ToHexOfHexChar(x % 16);
    ToHexOfHexChar(w % 16);
    ToHexOfHexChar(v % 16);
    assert v == x / 16 * 4096 + x % 16 * 256 + w % 16 * 16 + v % 16;
  }

  /** parseClass reads a backslash, its letter and, for \x and \u, two or four digits. */
  predicate ClassReadable(p: seq<Byte>)
  {
    |p| >= 1 && (p[0] == Backslash ==> |p| >= 2 && (p[1] == B('x') ==> |p| >= 4) && (p[1] == B('u') ==> |p| >= 6))
  }

  predicate IsUnicodeEscape(p: seq<Byte>)
  {
    |p| >= 2 && p[0] == Backslash && p[1] == B('u')
  }

  /**
   * parseClass: the character a class item starting at p stands for. A
   * backslash escapes '-', ']', itself and the control letters, or starts
   * \x and \u; before any other byte it is dropped.
   */
  function ParseClass(asWritten: bool, p: seq<Byte>): (r: nat)
    requires ClassReadable(p)
    ensures !IsUnicodeEscape(p) ==> r < 256
    ensures p[0] != Backslash ==> r == p[0]
    ensures p[0] == Backslash && p[1] == B('x') ==> r == HexValue(asWritten, p[2], p[3])
    ensures p[0] == Backslash && p[1] == B('x') && asWritten ==> r == ToHex(p[3]) % 256
  {
    if p[0] != Backslash then p[0]
    else
      var c := p[1];
      if c == B('-') || c == B(']') || c == Backslash then c
      else if ControlOf(c).Some? then ControlOf(c).value
      else if c == B('x') then
        HexValue(asWritten, p[2], p[3])
      else if c == B('u') then ParseUnicode4(p[2..6])
      else c
  }

  /** The readers agree on every escape both know. */
  lemma ClassAgreesWithEscape(asWritten: bool, p: seq<Byte>)
    requires ClassReadable(p) && ParseEscapedChar(asWritten, p).Some?
    ensures ParseClass(asWritten, p) == ParseEscapedChar(asWritten, p).value
  {
  }

  /** How a byte is written inside a class: escaped if it is special or not printable. */
  function ClassEscape(b: Byte): (r: seq<Byte>)
    ensures |r| >= 1
  {
    if b == B('-') || b == B(']') || b == Backslash then [Backslash, b]
    else if LetterOf(b).Some? then [Backslash, LetterOf(b).value]
    else if 32 <= b <= 126 then [b]
    else [Backslash, B('x'), HexChar(b / 16), HexChar(b % 16)]
  }

  /**
   * With the shift corrected, every byte written as a class item reads
   * back as that byte, whatever follows it. As written, a byte written as
   * \xHL reads back as its low digit.
   */
  lemma ClassRoundTrip(b: Byte, rest: seq<Byte>)
    ensures ClassReadable(ClassEscape(b) + rest)
    ensures ParseClass(false, ClassEscape(b) + rest) == b
    ensures ParseClass(true, ClassEscape(b) + rest) == if |ClassEscape(b)| == 4 then b % 16 else b
    ensures ParseClass(true, ClassEscape(b) + rest) == b <==> |ClassEscape(b)| < 4 || b < 16
  {
    var e := ClassEscape(b);
    var p := e + rest;
    assert p[0] == e[0];
    if |e| >= 2 {
      assert p[1] == e[1];
    }
    if |e| == 4 {
      var hi, lo := HexChar(b / 16), HexChar(b % 16);
      assert p[0] == Backslash && p[1] == B('x') && p[2] == hi && p[3] == lo;
      HexDigitsOf(b);
      assert ParseClass(false, p) == b;
      assert ParseClass(true, p) == b % 16;
    } else {
      assert ParseClass(false, p) == ParseClass(true, p) == b;
    }
  }

  /** \u and four digits read as the 16-bit value they spell. */
  lemma ClassUnicode(asWritten: bool, v: nat, rest: seq<Byte>)
    requires v < 0x1_0000
    ensures ClassReadable([Backslash, B('u')] + Hex4(v) + rest)
    ensures ParseClass(asWritten, [Backslash, B('u')] + Hex4(v) + rest) == v
  {
    var p := [Backslash, B('u')] + Hex4(v) + rest;
    assert p[2..6] == Hex4(v);
    Unicode4RoundTrip(v);
  }

  /** The parseClass of compiler.c: the same, except that \u stops on an assertion. */
  function ParseClassNoUnicode(asWritten: bool, p: seq<Byte>): (r: Result<nat>)
    requires ClassReadable(p)
    ensures r.Failure? <==> IsUnicodeEscape(p)
    ensures r.Success? ==> r.value == ParseClass(asWritten, p) && r.value < 256
  {
    if IsUnicodeEscape(p) then Failure else Success(ParseClass(asWritten, p))
  }

  /**
   * compile_Byte of expression.c for a Character token of len bytes at the
   * start of text: Empty for no byte, the byte for one, the escaped byte
   * when the text starts with an escape (read as asWritten says), and
   * otherwise the token as Str.
   */
  function CompileByte(asWritten: bool, text: seq<Byte>, len: nat): (r: Expr)
    requires len <= |text| && (len >= 2 ==> EscapeReadable(text))
    ensures r == Empty <==> len == 0
    ensures len == 1 ==> r == Byte(text[0])
    ensures len >= 2 && ParseEscapedChar(asWritten, text).Some? ==> r == Byte(ParseEscapedChar(asWritten, text).value)
    ensures len >= 2 && ParseEscapedChar(asWritten, text).None? ==> r == Str(text[..len])
  {
    if len == 0 then Empty
    else if len == 1 then Byte(text[0])
    else
      match ParseEscapedChar(asWritten, text)
      case Some(b) => Byte(b)
      case None => Str(text[..len])
  }

  /**
   * A Character literal holding one byte, or with the shift corrected one
   * escape, compiles to that byte. As written, a literal \xHL compiles to
   * the byte of its low digit.
   */
  lemma CompileByteOfEscape(asWritten: bool, b: Byte, rest: seq<Byte>)
    ensures CompileByte(asWritten, [b] + rest, 1) == Byte(b)
    ensures CompileByte(false, EscapeOf(b) + rest, |EscapeOf(b)|) == Byte(b)
    ensures CompileByte(true, EscapeOf(b) + rest, |EscapeOf(b)|) == Byte(if |EscapeOf(b)| == 2 then b else b % 16)
  {
    EscapeRoundTrip(b, rest);
  }

  /**
   * compile_Byte of ast.c as written: a two-byte token starting with a
   * backslash compiles to the backslash itself.
   */
  function CompileByteAstAsWritten(text: seq<Byte>, len: nat): (r: Expr)
    requires len <= |text|
    ensures r == Empty <==> len == 0
    ensures r.Byte? <==> len == 1 || (len == 2 && text[0] == Backslash)
    ensures r.Byte? ==> r.byte == text[0]
    ensures r.Str? ==> r.bytes == text[..len]
  {
    if len == 0 then Empty
    else if len == 1 || (len == 2 && text[0] == Backslash) then Byte(text[0])
    else Str(text[..len])
  }

  /** The byte a backslash and one letter stand for. */
  function Unescape(c: Byte): (r: Byte)
    ensures ControlOf(c).Some? ==> LetterOf(r) == Some(c)
    ensures ControlOf(c).None? ==> r == c
  {
    LetterOfControl(c);
    if ControlOf(c).Some? then ControlOf(c).value else c
  }

  /** compile_Byte of ast.c as intended: the two-byte escape stands for the byte it escapes. */
  function CompileByteAst(text: seq<Byte>, len: nat): (r: Expr)
    requires len <= |text|
    ensures r == Empty <==> len == 0
    ensures len == 1 ==> r == Byte(text[0])
    ensures len == 2 && text[0] == Backslash ==> r == Byte(Unescape(text[1]))
    ensures r.Str? <==> len >= 2 && !(len == 2 && text[0] == Backslash)
    ensures r.Str? ==> r.bytes == text[..len]
  {
    if len == 0 then Empty
    else if len == 1 then Byte(text[0])
    else if len == 2 && text[0] == Backslash then Byte(Unescape(text[1]))
    else Str(text[..len])
  }

  /** As written, '\n' compiles to a backslash. */
  lemma CompileByteAstExample()
    ensures CompileByteAstAsWritten([Backslash, B('n')], 2) == Byte(Backslash)
    ensures CompileByteAst([Backslash, B('n')], 2) == Byte(10)
  {
  }

  /** As intended, ast.c compiles every two-byte escape as expression.c does. */
  lemma CompileByteAstAgrees(b: Byte)
    requires b == Backslash || LetterOf(b).Some?
    ensures |EscapeOf(b)| == 2
    ensures CompileByteAst(EscapeOf(b), 2) == Byte(b)
    ensures CompileByte(false, EscapeOf(b), 2) == Byte(b) && CompileByte(true, EscapeOf(b), 2) == Byte(b)
  {
    EscapeRoundTrip(b, []);
    assert EscapeOf(b) + [] == EscapeOf(b);
  }
}
