// The Ruby string operations the instruction-set generators rely on:
// gets, String#strip, String#split with "," and with " ", Array#join and
// puts. Ruby strings are modelled as sequences of characters.

module RubyText {

  datatype Option<T> = None | Some(value: T)

  datatype Result<T> = Success(value: T) | Failure

  /** The characters String#split(" ") treats as blanks (ASCII isspace). */
  predicate IsSpace(c: char)
  {
    c == ' ' || c == '\t' || c == '\n' || c == '\U{000B}' || c == '\U{000C}' || c == '\r'
  }

  /** The characters String#strip removes: the blanks and NUL. */
  predicate IsStripped(c: char)
  {
    IsSpace(c) || c == '\0'
  }

  function LStrip(s: string): (r: string)
    ensures |r| <= |s| && r == s[|s| - |r|..]
    ensures r == [] || !IsStripped(r[0])
  {
    if s != [] && IsStripped(s[0]) then LStrip(s[1..]) else s
  }

  function RStrip(s: string): (r: string)
    ensures |r| <= |s| && r == s[..|r|]
    ensures r == [] || !IsStripped(r[|r| - 1])
  {
    if s != [] && IsStripped(s[|s| - 1]) then RStrip(s[..|s| - 1]) else s
  }

  /** String#strip: s without its leading and trailing blanks and NULs. */
  function Strip(s: string): (r: string)
    ensures |r| <= |s|
    ensures r == [] || (!IsStripped(r[0]) && !IsStripped(r[|r| - 1]))
  {
    LStrip(RStrip(s))
  }

  /** What strip leaves starts and ends with a kept character, and is a piece of s. */
  lemma StripShape(s: string)
    ensures var r := Strip(s); var m := RStrip(s);
      (r == [] || (!IsStripped(r[0]) && !IsStripped(r[|r| - 1]))) &&
      |r| <= |m| <= |s| && r == s[|m| - |r|..|m|]
  {
    var m := RStrip(s);
    var r := LStrip(m);
    assert s[|m| - |r|..|m|] == m[|m| - |r|..] by {
      assert m == s[..|m|];
    }
  }

  lemma {:induction false} LStripNone(s: string)
    requires s == [] || !IsStripped(s[0])
    ensures LStrip(s) == s
  {
  }

  lemma {:induction false} RStripNone(s: string)
    requires s == [] || !IsStripped(s[|s| - 1])
    ensures RStrip(s) == s
  {
  }

  /** strip leaves a string alone that neither starts nor ends with a blank, so stripping twice is stripping once. */
  lemma StripIdempotent(s: string)
    ensures Strip(Strip(s)) == Strip(s)
  {
    StripShape(s);
    var r := Strip(s);
    RStripNone(r);
    LStripNone(r);
  }

  /**
   * The fields of s between the separator c, empty ones included: one more
   * than the separators in s.
   */
  function Fields(s: string, c: char): (r: seq<string>)
    ensures |r| >= 1
  {
    if s == [] then [""]
    else
      var rest := Fields(s[1..], c);
      if s[0] == c then [""] + rest else [[s[0]] + rest[0]] + rest[1..]
  }

  /** limit 0 of String#split: trailing empty fields are dropped. */
  function DropTrailingEmpty(xs: seq<string>): (r: seq<string>)
    ensures |r| <= |xs| && r == xs[..|r|]
    ensures r == [] || r[|r| - 1] != ""
  {
    if xs != [] && xs[|xs| - 1] == "" then DropTrailingEmpty(xs[..|xs| - 1]) else xs
  }

  /** String#split(c) for a one-character string pattern c. */
  function Split(s: string, c: char): (r: seq<string>)
    ensures r == [] || r[|r| - 1] != ""
    ensures c !in s ==> r == (if s == "" then [] else [s])
  {
    if c !in s then FieldsNone(s, c); DropTrailingEmpty(Fields(s, c))
    else DropTrailingEmpty(Fields(s, c))
  }

  /** Array#join(sep). */
  function Join(xs: seq<string>, sep: string): (r: string)
    decreases |xs|
    ensures xs != [] ==> |xs[0]| <= |r| && r[..|xs[0]|] == xs[0]
  {
    if xs == [] then ""
    else if |xs| == 1 then xs[0]
    else xs[0] + sep + Join(xs[1..], sep)
  }

  /** A string without the separator is one field. */
  lemma {:induction false} FieldsNone(s: string, c: char)
    requires c !in s
    ensures Fields(s, c) == [s]
  {
    if s != [] {
      FieldsNone(s[1..], c);
      assert [s[0]] + s[1..] == s;
    }
  }

  /** A field a without the separator, then the separator, is the first field. */
  lemma {:induction false} FieldsCons(a: string, rest: string, c: char)
    requires c !in a
    ensures Fields(a + [c] + rest, c) == [a] + Fields(rest, c)
  {
    if a == [] {
      assert [c] + rest == ([] + [c] + rest);
      assert ([c] + rest)[1..] == rest;
    } else {
      var s := a + [c] + rest;
      assert s[1..] == a[1..] + [c] + rest;
      FieldsCons(a[1..], rest, c);
      assert [a[0]] + a[1..] == a;
    }
  }

  /** Splitting what join put together, on a separator no field contains, gives the fields back. */
  lemma {:induction false} FieldsJoin(xs: seq<string>, c: char)
    requires xs != [] && forall i :: 0 <= i < |xs| ==> c !in xs[i]
    decreases |xs|
    ensures Fields(Join(xs, [c]), c) == xs
  {
    if |xs| == 1 {
      FieldsNone(xs[0], c);
    } else {
      FieldsJoin(xs[1..], c);
      FieldsCons(xs[0], Join(xs[1..], [c]), c);
      assert [xs[0]] + xs[1..] == xs;
    }
  }

  /** split(",") undoes join(","), when no field holds a comma and the last field is not empty. */
  lemma SplitJoin(xs: seq<string>, c: char)
    requires forall i :: 0 <= i < |xs| ==> c !in xs[i]
    requires xs == [] || xs[|xs| - 1] != ""
    ensures Split(Join(xs, [c]), c) == xs
  {
    if xs != [] {
      FieldsJoin(xs, c);
    }
  }

  /** The word at the start of s: its characters up to the first blank. */
  function TakeWord(s: string): (r: string)
    ensures |r| <= |s| && r == s[..|r|]
    ensures forall i :: 0 <= i < |r| ==> !IsSpace(r[i])
    ensures |r| < |s| ==> IsSpace(s[|r|])
  {
    if s == [] || IsSpace(s[0]) then [] else [s[0]] + TakeWord(s[1..])
  }

  /** String#split(" "): the words of s, blanks at either end and runs of blanks ignored. */
  function Words(s: string): (r: seq<string>)
    ensures forall i :: 0 <= i < |r| ==> r[i] != [] && forall k :: 0 <= k < |r[i]| ==> !IsSpace(r[i][k])
    decreases |s|
  {
    if s == [] then []
    else if IsSpace(s[0]) then Words(s[1..])
    else
      var w := TakeWord(s);
      [w] + Words(s[|w|..])
  }

  /** Blanks before the words change nothing. */
  lemma {:induction false} WordsSkip(pad: string, s: string)
    requires forall i :: 0 <= i < |pad| ==> IsSpace(pad[i])
    ensures Words(pad + s) == Words(s)
  {
    if pad != [] {
      assert (pad + s)[1..] == pad[1..] + s;
      WordsSkip(pad[1..], s);
    } else {
      assert pad + s == s;
    }
  }

  /** The first word of a string that starts with word w and a blank is w. */
  lemma FirstWord(w: string, rest: string)
    requires w != [] && forall i :: 0 <= i < |w| ==> !IsSpace(w[i])
    requires rest == [] || IsSpace(rest[0])
    ensures Words(w + rest) != [] && Words(w + rest)[0] == w
  {
    TakeWordOf(w, rest);
  }

  lemma {:induction false} TakeWordOf(w: string, rest: string)
    requires forall i :: 0 <= i < |w| ==> !IsSpace(w[i])
    requires rest == [] || IsSpace(rest[0])
    ensures TakeWord(w + rest) == w
  {
    if w != [] {
      assert (w + rest)[1..] == w[1..] + rest;
      TakeWordOf(w[1..], rest);
      assert [w[0]] + w[1..] == w;
    } else {
      assert w + rest == rest;
    }
  }

  /** The first word, or "" where Ruby has nil (which interpolates as ""). */
  function FirstWordOr(s: string): (r: string)
    ensures r == "" <==> Words(s) == []
  {
    var ws := Words(s);
    if ws == [] then "" else ws[0]
  }

  /** puts s: s and a newline, unless s already ends with one. */
  function Puts(s: string): (r: string)
    ensures |r| > 0 && r[|r| - 1] == '\n'
    ensures (s != [] && s[|s| - 1] == '\n') <==> r == s
    ensures r == s || r == s + "\n"
  {
    if s != [] && s[|s| - 1] == '\n' then s else s + "\n"
  }

  /** Where the line that starts at pos ends: after its newline, or at the end of the text. */
  function LineEnd(text: string, pos: nat): (e: nat)
    requires pos < |text|
    ensures pos < e <= |text|
    ensures forall k :: pos <= k < e - 1 ==> text[k] != '\n'
    ensures e < |text| ==> text[e - 1] == '\n'
    decreases |text| - pos
  {
    if text[pos] == '\n' || pos + 1 == |text| then pos + 1 else LineEnd(text, pos + 1)
  }

  /** The lines gets returns from pos to the end of the text. */
  function LinesFrom(text: string, pos: nat): (r: seq<string>)
    requires pos <= |text|
    decreases |text| - pos
    ensures forall k :: 0 <= k < |r| ==> IsLine(r[k])
  {
    if pos == |text| then [] else [text[pos..LineEnd(text, pos)]] + LinesFrom(text, LineEnd(text, pos))
  }

  /** Every line gets returns is not empty and holds a newline only as its last character. */
  predicate IsLine(l: string)
  {
    l != [] && forall k :: 0 <= k < |l| - 1 ==> l[k] != '\n'
  }

  lemma Assoc<T>(a: seq<T>, b: seq<T>, c: seq<T>)
    ensures (a + b) + c == a + (b + c)
  {
  }

  /** The concatenation of strings. */
  function Concat(ls: seq<string>): string
  {
    if ls == [] then "" else ls[0] + Concat(ls[1..])
  }

  /** gets splits the text into lines: put back together, they are the text from pos. */
  lemma {:induction false} LinesFromConcat(text: string, pos: nat)
    requires pos <= |text|
    decreases |text| - pos
    ensures Concat(LinesFrom(text, pos)) == text[pos..]
    ensures forall i :: 0 <= i < |LinesFrom(text, pos)| ==> IsLine(LinesFrom(text, pos)[i])
  {
    if pos < |text| {
      var e := LineEnd(text, pos);
      LinesFromConcat(text, e);
      var ls := LinesFrom(text, pos);
      assert ls[1..] == LinesFrom(text, e);
      assert text[pos..] == text[pos..e] + text[e..];
      forall i | 0 <= i < |ls|
        ensures IsLine(ls[i])
      {
        if i > 0 {
          assert ls[i] == LinesFrom(text, e)[i - 1];
        }
      }
    }
  }

  /**
   * The lines of a gets loop: after the lines read and the current line l
   * come the lines from pos; one more gets moves l to the lines read and
   * returns the next line, or nil when no line is left.
   */
  lemma GetsStep(text: string, lines: seq<string>, read: seq<string>, l: string, pos: nat,
                 read': seq<string>, l': Option<string>, pos': nat)
    requires pos <= |text| && lines == read + [l] + LinesFrom(text, pos) && read' == read + [l]
    requires pos == |text| ==> l' == None && pos' == pos
    requires pos < |text| ==> pos' == LineEnd(text, pos) && l' == Some(text[pos..pos'])
    ensures pos' <= |text|
    ensures l'.Some? ==> lines == read' + [l'.value] + LinesFrom(text, pos')
    ensures l'.None? ==> lines == read'
  {
    if pos < |text| {
      assert LinesFrom(text, pos) == [l'.value] + LinesFrom(text, pos');
      assert read + [l] + ([l'.value] + LinesFrom(text, pos')) == read' + [l'.value] + LinesFrom(text, pos');
    } else {
      assert LinesFrom(text, pos) == [];
    }
  }

  /** A file opened for reading, and the position gets reads from. */
  class Reader {
    const text: string
    var pos: nat

    constructor (text: string)
      ensures this.text == text && pos == 0
    {
      this.text := text;
      pos := 0;
    }

    /** IO#gets: the next line, newline included, or nil at the end of the file. */
    method Gets() returns (l: Option<string>)
      requires pos <= |text|
      modifies this
      ensures pos <= |text|
      ensures old(pos) == |text| ==> l == None && pos == old(pos)
      ensures old(pos) < |text| ==> pos == LineEnd(text, old(pos)) && l == Some(text[old(pos)..pos])
    {
      if pos == |text| {
        return None;
      }
      var e := pos;
      while e < |text| && text[e] != '\n'
        invariant pos <= e <= |text|
        invariant forall k :: pos <= k < e ==> text[k] != '\n'
        invariant e < |text| ==> LineEnd(text, pos) == LineEnd(text, e)
        invariant e == |text| ==> LineEnd(text, pos) == |text|
      {
        e := e + 1;
      }
      if e < |text| {
        e := e + 1;
      }
      l := Some(text[pos..e]);
      pos := e;
    }
  }
}
