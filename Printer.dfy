/**
 * The debug printers of src/compiler/compiler.c: write_char, which escapes
 * one byte into an output buffer, and dump_set, which prints a character
 * class as "[...]" with each run of consecutive members as first-last;
 * also tag_equal, the tag test compile_Set and compile_expression use.
 */
module Printer {
  import opened Config
  import opened CharClass
  import Bitset

  /** tag_equal: a node without a tag matches only the missing tag; otherwise the tags are the same bytes. */
  function TagEqual(nodeTag: Option<seq<Byte>>, tag: Option<seq<Byte>>): (r: bool)
    ensures r <==> nodeTag == tag
  {
    if nodeTag.None? then tag.None?
    else if tag.None? then false
    else
      var a, b := nodeTag.value, tag.value;
      assert (|a| == |b| && forall k :: 0 <= k < |b| ==> a[k] == b[k]) ==> a == b;
      |a| == |b| && forall k :: 0 <= k < |b| ==> a[k] == b[k]
  }

  /** The lower-case digit of "0123456789abcdef" for d. */
  function HexDigit(d: nat): Byte
    requires d < 16
  {
    if d < 10 then B('0') + d else B('a') + d - 10
  }

  /** The value of a lower-case hexadecimal digit, if c is one. */
  function DigitValue(c: Byte): Option<nat>
  {
    if B('0') <= c <= B('9') then Some(c - B('0'))
    else if B('a') <= c <= B('f') then Some(c - B('a') + 10)
    else None
  }

  lemma DigitRoundTrip(d: nat)
    requires d < 16
    ensures DigitValue(HexDigit(d)) == Some(d)
  {
  }

  /** The letter write_char puts after the backslash for \b \f \n \r \t, if ch is one of them. */
  function NamedEscape(ch: Byte): Option<Byte>
  {
    if ch == 8 then Some(B('b'))
    else if ch == 12 then Some(B('f'))
    else if ch == 10 then Some(B('n'))
    else if ch == 13 then Some(B('r'))
    else if ch == 9 then Some(B('t'))
    else None
  }

  /** The byte a named escape letter stands for. */
  function NamedByte(letter: Byte): Option<Byte>
  {
    if letter == B('b') then Some(8)
    else if letter == B('f') then Some(12)
    else if letter == B('n') then Some(10)
    else if letter == B('r') then Some(13)
    else if letter == B('t') then Some(9)
    else None
  }

  /**
   * What write_char writes for ch: a backslash alone for a backslash, a
   * backslash and a letter for the five named control bytes, the byte
   * itself for the other printable bytes 32..126, and a backslash and two
   * lower-case hexadecimal digits for everything else.
   */
  function Escape(ch: Byte): (r: seq<Byte>)
    ensures 1 <= |r| <= 3
    ensures |r| == 1 <==> 32 <= ch <= 126
    ensures |r| == 1 ==> r == [ch]
    ensures |r| > 1 ==> r[0] == B('\\')
    ensures 0 !in r
  {
    if ch == B('\\') then [B('\\')]
    else if NamedEscape(ch).Some? then [B('\\'), NamedEscape(ch).value]
    else if 32 <= ch <= 126 then [ch]
    else [B('\\'), HexDigit(ch / 16), HexDigit(ch % 16)]
  }

  /** Reads one escape back: the inverse of Escape on its image. */
  function Unescape(t: seq<Byte>): (r: Option<Byte>)
    ensures r.Some? ==> 1 <= |t| <= 3 && (|t| > 1 ==> t[0] == B('\\'))
    ensures |t| == 2 && t[0] == B('\\') && r.Some? ==> Escape(r.value) == t
  {
    if |t| == 1 then Some(t[0])
    else if |t| == 2 && t[0] == B('\\') then NamedByte(t[1])
    else if |t| == 3 && t[0] == B('\\') && DigitValue(t[1]).Some? && DigitValue(t[2]).Some? then
      var v := DigitValue(t[1]).value * 16 + DigitValue(t[2]).value;
      if v < 256 then Some(v) else None
    else None
  }

  /** Each escape on its own names its byte. */
  lemma UnescapeEscape(ch: Byte)
    ensures Unescape(Escape(ch)) == Some(ch)
  {
    if ch != B('\\') && NamedEscape(ch).None? && !(32 <= ch <= 126) {
      DigitRoundTrip(ch / 16);
      DigitRoundTrip(ch % 16);
    }
  }

  /** So distinct bytes have distinct escapes. */
  lemma EscapeInjective(a: Byte, b: Byte)
    requires Escape(a) == Escape(b)
    ensures a == b
  {
    UnescapeEscape(a);
    UnescapeEscape(b);
  }

  /**
   * Escapes are not self-delimiting, so a printed class is not always read
   * back the same: the backslash followed by 'n' prints as the escape of a
   * newline, and \b followed by '0' as the escape of 0xb0.
   */
  lemma ConcatenationAmbiguous()
    ensures Escape(92) + Escape(110) == Escape(10)
    ensures Escape(8) + Escape(48) == Escape(176)
  {
    assert HexDigit(176 / 16) == 98 && HexDigit(176 % 16) == 48;
  }

  /** One byte written at buf[p], the next position returned. */
  method WriteByte(buf: array<Byte>, p: nat, b: Byte) returns (q: nat)
    requires p < buf.Length
    modifies buf
    ensures q == p + 1 && buf[..q] == old(buf[..p]) + [b]
  {
    buf[p] := b;
    q := p + 1;
    assert buf[..q] == buf[..p] + [b];
  }

  /** write_char: Escape(ch) written at buf[p], the position after it returned. */
  method WriteChar(buf: array<Byte>, p: nat, ch: Byte) returns (q: nat)
    requires p + |Escape(ch)| <= buf.Length
    modifies buf
    ensures q == p + |Escape(ch)| && buf[..q] == old(buf[..p]) + Escape(ch)
  {
    q := p;
    if ch == B('\\') {
      q := WriteByte(buf, q, B('\\'));
    } else if ch == 8 || ch == 12 || ch == 10 || ch == 13 || ch == 9 {
      var letter := if ch == 8 then B('b') else if ch == 12 then B('f') else if ch == 10 then B('n')
        else if ch == 13 then B('r') else B('t');
      q := WriteByte(buf, q, B('\\'));
      q := WriteByte(buf, q, letter);
    } else if 32 <= ch <= 126 {
      q := WriteByte(buf, q, ch);
    } else {
      q := WriteByte(buf, q, B('\\'));
      q := WriteByte(buf, q, HexDigit(ch / 16));
      q := WriteByte(buf, q, HexDigit(ch % 16));
    }
  }

  /** The first index after i that is not a member, or 256: where the run starting at a member i ends. */
  function RunEnd(members: set<nat>, i: nat): (j: nat)
    requires i < 256
    decreases 256 - i
    ensures i < j <= 256
  {
    if i + 1 == 256 || i + 1 !in members then i + 1 else RunEnd(members, i + 1)
  }

  /** The run starting at i ends at the first non-member after i. */
  lemma {:induction false} RunEndSpec(members: set<nat>, i: nat)
    requires i < 256
    decreases 256 - i
    ensures forall k :: i < k < RunEnd(members, i) ==> k in members
    ensures RunEnd(members, i) < 256 ==> RunEnd(members, i) !in members
  {
    if !(i + 1 == 256 || i + 1 !in members) {
      RunEndSpec(members, i + 1);
    }
  }

  /** The index where the search for the end of a run stops is RunEnd. */
  lemma RunEndIs(members: set<nat>, i: nat, j: nat)
    requires i < j <= 256 && (forall k :: i < k < j ==> k in members) && (j < 256 ==> j !in members)
    ensures RunEnd(members, i) == j
  {
    RunEndSpec(members, i);
  }

  /** One run [a, b] as printed: the one member, or first-last. */
  function Piece(a: Byte, b: Byte): seq<Byte>
  {
    Escape(a) + (if a != b then [B('-')] + Escape(b) else [])
  }

  /**
   * What dump_set writes for a run that starts at i and whose search
   * stopped at j: the member i, then "-last" when the run is longer than
   * one. The loop prints a run that reaches 255 through its `j == 256`
   * branch, which writes "-last" even for the one-member run {255};
   * `asWritten` false leaves it out there too.
   */
  function RunPrint(i: Byte, j: nat, asWritten: bool): (r: seq<Byte>)
    requires i < j <= 256
    ensures |Escape(i)| <= |r| && r[..|Escape(i)|] == Escape(i)
    ensures r == Escape(i) <==> j == i + 1 && !(asWritten && j == 256)
    ensures 0 !in r
  {
    if asWritten && j == 256 then Escape(i) + ([B('-')] + Escape(255)) else Piece(i, j - 1)
  }

  /** The order of dump_set's writes for one run: the member, then "-last" under the loop's condition. */
  lemma RunPrintShape(i: Byte, j: nat, asWritten: bool)
    requires i < j <= 256
    ensures RunPrint(i, j, asWritten) ==
      Escape(i) + (if j - 1 != i || (j == 256 && asWritten) then [B('-')] + Escape(j - 1) else [])
  {
  }

  /** The text dump_set writes for the run of members starting at i. */
  function RunText(members: set<nat>, i: Byte, asWritten: bool): seq<Byte>
  {
    RunPrint(i, RunEnd(members, i), asWritten)
  }

  /** The text of dump_set's loop from index i on. */
  function DumpFrom(members: set<nat>, i: nat, asWritten: bool): (r: seq<Byte>)
    requires i <= 256
    decreases 256 - i
    ensures 0 !in r
  {
    if i == 256 then []
    else if i !in members then DumpFrom(members, i + 1, asWritten)
    else RunText(members, i, asWritten) + DumpFrom(members, RunEnd(members, i), asWritten)
  }

  /** dump_set: '[', the runs, ']' and the terminating NUL. */
  function DumpText(members: set<nat>, asWritten: bool): (r: seq<Byte>)
    ensures |r| >= 3 && r[0] == B('[') && r[|r| - 2] == B(']') && r[|r| - 1] == 0
    ensures 0 !in r[..|r| - 1]
  {
    var body := [B('[')] + DumpFrom(members, 0, asWritten) + [B(']')];
    assert (body + [0])[..|body|] == body;
    body + [0]
  }

  /** The maximal runs of members from i on, as (first, last) pairs in increasing order. */
  function RunsFrom(members: set<nat>, i: nat): (r: seq<(Byte, Byte)>)
    requires i <= 256
    decreases 256 - i
    ensures forall k :: 0 <= k < |r| ==> i <= r[k].0 <= r[k].1 && r[k].0 in members
    ensures forall k :: 0 <= k < |r| - 1 ==> r[k].1 < r[k + 1].0
  {
    if i == 256 then []
    else if i !in members then RunsFrom(members, i + 1)
    else [(i, RunEnd(members, i) - 1)] + RunsFrom(members, RunEnd(members, i))
  }

  /** The pieces of the runs, printed one after another. */
  function Pieces(runs: seq<(Byte, Byte)>): seq<Byte>
  {
    if runs == [] then [] else Piece(runs[0].0, runs[0].1) + Pieces(runs[1..])
  }

  /** Every run lies within members, from i on, and cannot be extended. */
  ghost predicate MaximalRuns(members: set<nat>, i: nat, runs: seq<(Byte, Byte)>)
  {
    (forall r :: 0 <= r < |runs| ==> i <= runs[r].0 <= runs[r].1) &&
    (forall r, k :: 0 <= r < |runs| && runs[r].0 <= k <= runs[r].1 ==> k in members) &&
    (forall r :: 0 <= r < |runs| ==> runs[r].0 == i || runs[r].0 - 1 !in members) &&
    (forall r :: 0 <= r < |runs| ==> runs[r].1 == 255 || runs[r].1 + 1 !in members) &&
    (forall r, t :: 0 <= r < t < |runs| ==> runs[r].1 as int + 1 < runs[t].0)
  }

  /** Every member from i on lies in one of the runs. */
  ghost predicate Covers(members: set<nat>, i: nat, runs: seq<(Byte, Byte)>)
  {
    forall k :: i <= k < 256 && k in members ==> exists r :: 0 <= r < |runs| && runs[r].0 <= k <= runs[r].1
  }

  /** RunsFrom gives exactly the maximal runs of members from i on. */
  lemma RunsFromSpec(members: set<nat>, i: nat)
    requires i <= 256
    ensures MaximalRuns(members, i, RunsFrom(members, i))
    ensures Covers(members, i, RunsFrom(members, i))
  {
    RunsFromMaximal(members, i);
    RunsFromCovers(members, i);
  }

  lemma {:induction false} RunsFromMaximal(members: set<nat>, i: nat)
    requires i <= 256
    decreases 256 - i
    ensures MaximalRuns(members, i, RunsFrom(members, i))
  {
    if i < 256 {
      if i !in members {
        RunsFromMaximal(members, i + 1);
        MaximalSkip(members, i);
      } else {
        var j := RunEnd(members, i);
        RunsFromMaximal(members, j);
        MaximalStep(members, i, j, RunsFrom(members, j), RunsFrom(members, i));
      }
    }
  }

  lemma MaximalSkip(members: set<nat>, i: nat)
    requires i < 256 && i !in members && MaximalRuns(members, i + 1, RunsFrom(members, i + 1))
    ensures MaximalRuns(members, i, RunsFrom(members, i))
  {
    RunsSkipMaximal(members, i, RunsFrom(members, i + 1));
  }

  lemma MaximalStep(members: set<nat>, i: nat, j: nat, rest: seq<(Byte, Byte)>, runs: seq<(Byte, Byte)>)
    requires i < 256 && i in members && j == RunEnd(members, i)
    requires rest == RunsFrom(members, j) && runs == RunsFrom(members, i) && MaximalRuns(members, j, rest)
    ensures MaximalRuns(members, i, runs)
  {
    RunsFromAt(members, i);
    RunsStepMaximal(members, i, j, rest, runs);
  }

  /** From a member, RunsFrom starts with the run it begins. */
  lemma RunsFromAt(members: set<nat>, i: nat)
    requires i < 256 && i in members
    ensures RunsFrom(members, i) == [(i, RunEnd(members, i) - 1)] + RunsFrom(members, RunEnd(members, i))
    ensures RunEnd(members, i) == 256 ==> RunsFrom(members, RunEnd(members, i)) == []
  {
  }

  lemma {:induction false} RunsFromCovers(members: set<nat>, i: nat)
    requires i <= 256
    decreases 256 - i
    ensures Covers(members, i, RunsFrom(members, i))
  {
    if i < 256 {
      if i !in members {
        RunsFromCovers(members, i + 1);
        CoversSkip(members, i);
      } else {
        var j := RunEnd(members, i);
        RunsFromCovers(members, j);
        CoversStep(members, i, j, RunsFrom(members, j), RunsFrom(members, i));
      }
    }
  }

  lemma CoversSkip(members: set<nat>, i: nat)
    requires i < 256 && i !in members && Covers(members, i + 1, RunsFrom(members, i + 1))
    ensures Covers(members, i, RunsFrom(members, i))
  {
    RunsSkipCovers(members, i, RunsFrom(members, i + 1));
  }

  lemma CoversStep(members: set<nat>, i: nat, j: nat, rest: seq<(Byte, Byte)>, runs: seq<(Byte, Byte)>)
    requires i < 256 && i in members && j == RunEnd(members, i)
    requires rest == RunsFrom(members, j) && runs == RunsFrom(members, i) && Covers(members, j, rest)
    ensures Covers(members, i, runs)
  {
    RunsFromAt(members, i);
    RunsStepCovers(members, i, j, rest, runs);
  }

  /** A non-member i adds no run. */
  lemma RunsSkipMaximal(members: set<nat>, i: nat, runs: seq<(Byte, Byte)>)
    requires i < 256 && i !in members && MaximalRuns(members, i + 1, runs)
    ensures MaximalRuns(members, i, runs)
  {
  }

  lemma RunsSkipCovers(members: set<nat>, i: nat, runs: seq<(Byte, Byte)>)
    requires i < 256 && i !in members && Covers(members, i + 1, runs)
    ensures Covers(members, i, runs)
  {
  }

  /** The run [i, j - 1] in front of the maximal runs from j. */
  lemma RunsStepMaximal(members: set<nat>, i: Byte, j: nat, rest: seq<(Byte, Byte)>, runs: seq<(Byte, Byte)>)
    requires i in members && j == RunEnd(members, i)
    requires MaximalRuns(members, j, rest)
    requires j == 256 ==> rest == []
    requires runs == [(i, j - 1)] + rest
    ensures MaximalRuns(members, i, runs)
  {
    RunEndSpec(members, i);
    assert forall r :: 0 <= r < |rest| ==> rest[r].0 in members by {
      forall r | 0 <= r < |rest|
        ensures rest[r].0 in members
      {
        assert rest[r].0 <= rest[r].0 <= rest[r].1;
      }
    }
    RunsStepEnds(members, i, j, rest, runs);
    RunsStepInside(members, i, j, rest, runs);
    RunsStepGaps(members, i, j, rest, runs);
  }

  lemma RunsStepEnds(members: set<nat>, i: Byte, j: nat, rest: seq<(Byte, Byte)>, runs: seq<(Byte, Byte)>)
    requires i < j <= 256 && (j < 256 ==> j !in members) && runs == [(i, j - 1)] + rest
    requires forall r :: 0 <= r < |rest| ==> j <= rest[r].0 <= rest[r].1 && rest[r].0 in members
    requires forall r :: 0 <= r < |rest| ==> rest[r].0 == j || rest[r].0 - 1 !in members
    requires forall r :: 0 <= r < |rest| ==> rest[r].1 == 255 || rest[r].1 + 1 !in members
    ensures forall r :: 0 <= r < |runs| ==> i <= runs[r].0 <= runs[r].1
    ensures forall r :: 0 <= r < |runs| ==> runs[r].0 == i || runs[r].0 - 1 !in members
    ensures forall r :: 0 <= r < |runs| ==> runs[r].1 == 255 || runs[r].1 + 1 !in members
  {
    forall r | 0 < r < |runs|
      ensures runs[r] == rest[r - 1]
    {
    }
  }

  lemma RunsStepInside(members: set<nat>, i: Byte, j: nat, rest: seq<(Byte, Byte)>, runs: seq<(Byte, Byte)>)
    requires i < j <= 256 && i in members && forall k :: i < k < j ==> k in members
    requires forall r, k :: 0 <= r < |rest| && rest[r].0 <= k <= rest[r].1 ==> k in members
    requires runs == [(i, j - 1)] + rest
    ensures forall r, k :: 0 <= r < |runs| && runs[r].0 <= k <= runs[r].1 ==> k in members
  {
    forall r, k | 0 <= r < |runs| && runs[r].0 <= k <= runs[r].1
      ensures k in members
    {
      if r > 0 {
        assert runs[r] == rest[r - 1];
      }
    }
  }

  lemma RunsStepGaps(members: set<nat>, i: Byte, j: nat, rest: seq<(Byte, Byte)>, runs: seq<(Byte, Byte)>)
    requires i < j <= 256 && (j < 256 ==> j !in members) && (j == 256 ==> rest == [])
    requires forall r :: 0 <= r < |rest| ==> j <= rest[r].0 && rest[r].0 in members
    requires forall r, t :: 0 <= r < t < |rest| ==> rest[r].1 as int + 1 < rest[t].0
    requires runs == [(i, j - 1)] + rest
    ensures forall r, t :: 0 <= r < t < |runs| ==> runs[r].1 as int + 1 < runs[t].0
  {
    forall r, t | 0 <= r < t < |runs|
      ensures runs[r].1 as int + 1 < runs[t].0
    {
      assert runs[t] == rest[t - 1];
      if r > 0 {
        assert runs[r] == rest[r - 1];
      }
    }
  }

  /** Members in [i, j - 1] are in the new run, the others in the runs from j. */
  lemma RunsStepCovers(members: set<nat>, i: Byte, j: nat, rest: seq<(Byte, Byte)>, runs: seq<(Byte, Byte)>)
    requires i < j <= 256
    requires Covers(members, j, rest)
    requires runs == [(i, j - 1)] + rest
    ensures Covers(members, i, runs)
  {
    forall k | i <= k < 256 && k in members
      ensures exists r :: 0 <= r < |runs| && runs[r].0 <= k <= runs[r].1
    {
      if k < j {
        assert runs[0].0 <= k <= runs[0].1;
      } else {
        var r :| 0 <= r < |rest| && rest[r].0 <= k <= rest[r].1;
        assert runs[r + 1] == rest[r];
      }
    }
  }

  /** The intended dump prints exactly the maximal runs, each as its piece. */
  lemma {:induction false} DumpIsRuns(members: set<nat>, i: nat)
    requires i <= 256
    decreases 256 - i
    ensures DumpFrom(members, i, false) == Pieces(RunsFrom(members, i))
  {
    if i < 256 {
      if i !in members {
        DumpIsRuns(members, i + 1);
      } else {
        DumpIsRuns(members, RunEnd(members, i));
        DumpIsRunsAt(members, i);
      }
    }
  }

  /** The step of DumpIsRuns at a member: its run's text is the first piece. */
  lemma DumpIsRunsAt(members: set<nat>, i: nat)
    requires i < 256 && i in members
    requires DumpFrom(members, RunEnd(members, i), false) == Pieces(RunsFrom(members, RunEnd(members, i)))
    ensures DumpFrom(members, i, false) == Pieces(RunsFrom(members, i))
  {
    var j := RunEnd(members, i);
    var rest := RunsFrom(members, j);
    assert RunText(members, i, false) == Piece(i, j - 1) by {
      RunPrintPiece(i, j);
    }
    assert DumpFrom(members, i, false) == Piece(i, j - 1) + DumpFrom(members, j, false) by {
      DumpAtMember(members, i, false);
    }
    assert Pieces(RunsFrom(members, i)) == Piece(i, j - 1) + Pieces(rest) by {
      RunsFromAt(members, i);
      PiecesCons((i, j - 1), rest);
    }
  }

  /** Without the as-written quirk a run is printed as its piece. */
  lemma RunPrintPiece(i: Byte, j: nat)
    requires i < j <= 256
    ensures RunPrint(i, j, false) == Piece(i, j - 1)
  {
  }

  lemma PiecesCons(run: (Byte, Byte), rest: seq<(Byte, Byte)>)
    ensures Pieces([run] + rest) == Piece(run.0, run.1) + Pieces(rest)
  {
    assert ([run] + rest)[1..] == rest;
  }

  /** Whether the run of dump_set's loop from i on that reaches 255 is the single member 255. */
  predicate EndsAlone(members: set<nat>, i: nat)
  {
    i <= 255 && 255 in members && (i == 255 || 254 !in members)
  }

  /**
   * The loop as written and as intended agree except on a class whose last
   * run is {255}, where the loop as written adds "-\ff".
   */
  lemma {:induction false} AsWrittenDump(members: set<nat>, i: nat)
    requires i <= 256
    decreases 256 - i
    ensures DumpFrom(members, i, true) ==
      DumpFrom(members, i, false) + (if EndsAlone(members, i) then [B('-')] + Escape(255) else [])
  {
    if i < 256 {
      if i !in members {
        AsWrittenDump(members, i + 1);
        assert EndsAlone(members, i) == EndsAlone(members, i + 1);
      } else if RunEnd(members, i) < 256 {
        AsWrittenDump(members, RunEnd(members, i));
        AsWrittenStep(members, i);
      } else {
        AsWrittenLast(members, i);
      }
    }
  }

  /** A run that stops before 255 prints the same both ways, and the difference is the one from its end. */
  lemma AsWrittenStep(members: set<nat>, i: Byte)
    requires i in members && RunEnd(members, i) < 256
    requires DumpFrom(members, RunEnd(members, i), true) == DumpFrom(members, RunEnd(members, i), false) +
      (if EndsAlone(members, RunEnd(members, i)) then [B('-')] + Escape(255) else [])
    ensures DumpFrom(members, i, true) ==
      DumpFrom(members, i, false) + (if EndsAlone(members, i) then [B('-')] + Escape(255) else [])
  {
    var j := RunEnd(members, i);
    RunEndSpec(members, i);
    DumpAtMember(members, i, true);
    DumpAtMember(members, i, false);
    assert RunText(members, i, true) == RunText(members, i, false);
    assert EndsAlone(members, i) == EndsAlone(members, j);
  }

  /** The run that reaches 255 is the last; it differs when it is {255} alone. */
  lemma AsWrittenLast(members: set<nat>, i: Byte)
    requires i in members && RunEnd(members, i) == 256
    ensures DumpFrom(members, i, true) ==
      DumpFrom(members, i, false) + (if EndsAlone(members, i) then [B('-')] + Escape(255) else [])
  {
    RunEndSpec(members, i);
    DumpAtMember(members, i, true);
    DumpAtMember(members, i, false);
    assert EndsAlone(members, i) <==> i == 255 by {
      if i < 255 {
        assert i < 254 + 1 < 256;
      }
    }
  }

  /** So the two differ exactly when 255 is a member and 254 is not. */
  lemma DumpTextDiffers(members: set<nat>)
    ensures DumpText(members, true) == DumpText(members, false) <==> !(255 in members && 254 !in members)
  {
    AsWrittenDump(members, 0);
    if 255 in members && 254 !in members {
      assert |DumpText(members, true)| > |DumpText(members, false)|;
    }
  }

  /** Indices without members print nothing. */
  lemma {:induction false} DumpFromSkip(members: set<nat>, i: nat, k: nat, asWritten: bool)
    requires i <= k <= 256 && forall x :: i <= x < k ==> x !in members
    decreases k - i
    ensures DumpFrom(members, i, asWritten) == DumpFrom(members, k, asWritten)
  {
    if i < k {
      DumpFromSkip(members, i + 1, k, asWritten);
    }
  }

  /** The class {255} shows it: "[\ff-\ff]" where "[\ff]" is meant. */
  lemma DumpSetAsWrittenExample()
    ensures DumpText({255}, true) == [B('['), 92, B('f'), B('f'), B('-'), 92, B('f'), B('f'), B(']'), 0]
    ensures DumpText({255}, false) == [B('['), 92, B('f'), B('f'), B(']'), 0]
  {
    DumpFromSkip({255}, 0, 255, true);
    DumpFromSkip({255}, 0, 255, false);
    assert RunEnd({255}, 255) == 256;
    assert Escape(255) == [92, B('f'), B('f')];
  }

  /** From a non-member the text is shorter by the bound's slack. */
  lemma {:induction false} DumpBound(members: set<nat>, i: nat, asWritten: bool)
    requires i <= 256
    decreases 256 - i
    ensures |DumpFrom(members, i, asWritten)| <= 3 * (256 - i) + 4
    ensures i < 256 && i !in members ==> |DumpFrom(members, i, asWritten)| <= 3 * (256 - i) + 1
  {
    if i < 256 {
      if i !in members {
        DumpBound(members, i + 1, asWritten);
      } else {
        var j := RunEnd(members, i);
        RunEndSpec(members, i);
        DumpBound(members, j, asWritten);
      }
    }
  }

  /** The dump fits the 1024-byte buffers that compile_Set and moz_Set_dump pass to dump_set. */
  lemma DumpFits(members: set<nat>, asWritten: bool)
    ensures |DumpText(members, asWritten)| <= 775
  {
    DumpBound(members, 0, asWritten);
  }

  /** The text of the run from i, followed by the text from its end, is the text from i. */
  lemma DumpAtMember(members: set<nat>, i: Byte, asWritten: bool)
    requires i in members
    ensures DumpFrom(members, i, asWritten) == RunText(members, i, asWritten) + DumpFrom(members, RunEnd(members, i), asWritten)
  {
  }

  /**
   * dump_set over the runs of the bitset s, written into buf: `asWritten`
   * true is the loop of compiler.c:70-97, false the same loop with a
   * one-member last run printed alone. For each member i the loop writes
   * i, searches to the end of the run, and writes "-last" where the run
   * needs it; here the search comes before the first write, which changes
   * nothing the loop reads.
   */
  method DumpSet(s: Bitset.Bitset, buf: array<Byte>, asWritten: bool) returns (n: nat)
    requires s.Valid() && buf.Length >= 1024 && buf as object != s.data
    modifies buf
    ensures n <= buf.Length && buf[..n] == DumpText(s.Elements(), asWritten)
  {
    ghost var members := s.Elements();
    ghost var words := s.data[..];
    DumpFits(members, asWritten);
    var p := WriteByte(buf, 0, B('['));
    p := DumpLoop(s, buf, p, asWritten);
    ghost var front := buf[..p];
    p := WriteByte(buf, p, B(']'));
    ghost var closed := buf[..p];
    p := WriteByte(buf, p, 0);
    assert buf[..p] == closed + [0] && closed == front + [B(']')];
    assert s.data[..] == words;
    n := p;
  }

  /** The outer loop of dump_set, after the '[': the text of every run. */
  method DumpLoop(s: Bitset.Bitset, buf: array<Byte>, p0: nat, asWritten: bool) returns (p: nat)
    requires s.Valid() && buf.Length >= 1024 && buf as object != s.data && p0 == 1 && buf[..1] == [B('[')]
    requires |DumpFrom(s.Elements(), 0, asWritten)| <= 772
    modifies buf
    ensures s.data[..] == old(s.data[..])
    ensures 1 <= p <= 1021 && buf[..p] == [B('[')] + DumpFrom(s.Elements(), 0, asWritten)
  {
    ghost var members := s.Elements();
    ghost var whole := DumpFrom(members, 0, asWritten);
    ghost var done: seq<Byte> := [];
    ghost var words := s.data[..];
    p := p0;
    var i := 0;
    while i < 256
      invariant 0 <= i <= 256 && s.data[..] == words && 1 <= p <= buf.Length
      invariant buf[..p] == [B('[')] + done && done + DumpFrom(members, i, asWritten) == whole
    {
      p, i, done := DumpAt(s, buf, p, i, asWritten, members, done, whole);
    }
    assert done == whole;
  }

  /** One turn of dump_set's outer loop at index i: nothing for a non-member, else its run. */
  method DumpAt(s: Bitset.Bitset, buf: array<Byte>, p0: nat, i0: nat, asWritten: bool, ghost members: set<nat>,
                ghost done0: seq<Byte>, ghost whole: seq<Byte>) returns (p: nat, i: nat, ghost done: seq<Byte>)
    requires s.Valid() && s.Elements() == members && buf as object != s.data && i0 < 256
    requires |whole| <= 772 && buf.Length >= 1024
    requires 1 <= p0 <= buf.Length && buf[..p0] == [B('[')] + done0 && done0 + DumpFrom(members, i0, asWritten) == whole
    modifies buf
    ensures s.data[..] == old(s.data[..]) && i0 < i <= 256
    ensures 1 <= p <= buf.Length && buf[..p] == [B('[')] + done && done + DumpFrom(members, i, asWritten) == whole
  {
    if s.Get(i0) {
      var j := RunSearch(s, i0);
      p, done := DumpMember(buf, p0, i0, j, asWritten, members, done0, whole);
      i := j;
    } else {
      p, i, done := p0, i0 + 1, done0;
    }
  }

  /** The writes for the member i that starts a run, as a step of dump_set's loop. */
  method DumpMember(buf: array<Byte>, p0: nat, i: Byte, j: nat, asWritten: bool, ghost members: set<nat>,
                    ghost done0: seq<Byte>, ghost whole: seq<Byte>) returns (p: nat, ghost done: seq<Byte>)
    requires i in members && j == RunEnd(members, i) && |whole| <= 772 && buf.Length >= 1024
    requires 1 <= p0 <= buf.Length && buf[..p0] == [B('[')] + done0 && done0 + DumpFrom(members, i, asWritten) == whole
    modifies buf
    ensures 1 <= p <= buf.Length && buf[..p] == [B('[')] + done && done + DumpFrom(members, j, asWritten) == whole
  {
    ghost var before := buf[..p0];
    ghost var after := before + RunPrint(i, j, asWritten);
    DumpMemberText(members, i, j, asWritten, done0, whole, before, after);
    p := WriteRun(buf, p0, i, j, asWritten);
    done := done0 + RunText(members, i, asWritten);
  }

  /** The text of DumpMember: the run's print extends both the buffer and the loop's text so far. */
  lemma DumpMemberText(members: set<nat>, i: Byte, j: nat, asWritten: bool, done0: seq<Byte>, whole: seq<Byte>,
                       before: seq<Byte>, after: seq<Byte>)
    requires i in members && j == RunEnd(members, i)
    requires before == [B('[')] + done0 && done0 + DumpFrom(members, i, asWritten) == whole
    requires after == before + RunPrint(i, j, asWritten)
    ensures after == [B('[')] + (done0 + RunText(members, i, asWritten))
    ensures (done0 + RunText(members, i, asWritten)) + DumpFrom(members, j, asWritten) == whole
    ensures |before| <= |after| <= |whole| + 1
  {
    DumpAtMember(members, i, asWritten);
    TextStep([B('[')], done0, RunText(members, i, asWritten), DumpFrom(members, j, asWritten), whole, before, after);
  }

  /** Moving the next piece of the text from what is left to what is done. */
  lemma TextStep(open: seq<Byte>, done0: seq<Byte>, text: seq<Byte>, rest: seq<Byte>, whole: seq<Byte>,
                 before: seq<Byte>, after: seq<Byte>)
    requires before == open + done0 && done0 + (text + rest) == whole && after == before + text
    ensures after == open + (done0 + text) && (done0 + text) + rest == whole
    ensures |before| <= |after| <= |whole| + |open|
  {
  }

  /** The inner loop of dump_set: the first index after the member i that is not a member, or 256. */
  method RunSearch(s: Bitset.Bitset, i: nat) returns (j: nat)
    requires s.Valid() && i < 256
    ensures j == RunEnd(s.Elements(), i)
  {
    j := i + 1;
    while j < 256 && s.Get(j)
      invariant i < j <= 256 && forall k :: i < k < j ==> k in s.Elements()
    {
      j := j + 1;
    }
    RunEndIs(s.Elements(), i, j);
  }

  /** The writes of dump_set for the run from i whose search stopped at j. */
  method WriteRun(buf: array<Byte>, p0: nat, i: Byte, j: nat, asWritten: bool) returns (p: nat)
    requires i < j <= 256 && p0 + 7 <= buf.Length
    modifies buf
    ensures p == p0 + |RunPrint(i, j, asWritten)| && buf[..p] == old(buf[..p0]) + RunPrint(i, j, asWritten)
  {
    ghost var before := buf[..p0];
    ghost var last: seq<Byte> := if j - 1 != i || (j == 256 && asWritten) then [B('-')] + Escape(j - 1) else [];
    assert RunPrint(i, j, asWritten) == Escape(i) + last by {
      RunPrintShape(i, j, asWritten);
    }
    p := WriteChar(buf, p0, i);
    ghost var mid := buf[..p];
    if j - 1 != i || (j == 256 && asWritten) {
      p := WriteLast(buf, p, j - 1);
    } else {
      assert buf[..p] == mid + last;
    }
    TextAppend(before, Escape(i), last, mid, buf[..p]);
  }

  /** Two writes one after the other append the two texts in order. */
  lemma TextAppend(before: seq<Byte>, first: seq<Byte>, last: seq<Byte>, mid: seq<Byte>, after: seq<Byte>)
    requires mid == before + first && after == mid + last
    ensures after == before + (first + last) && |after| == |before| + |first| + |last|
  {
  }

  /** The "-last" of a run longer than one: the dash and the last member. */
  method WriteLast(buf: array<Byte>, p0: nat, ch: Byte) returns (p: nat)
    requires p0 + 4 <= buf.Length
    modifies buf
    ensures p == p0 + 1 + |Escape(ch)| && buf[..p] == old(buf[..p0]) + ([B('-')] + Escape(ch))
  {
    p := WriteByte(buf, p0, B('-'));
    ghost var mid := buf[..p];
    p := WriteChar(buf, p, ch);
    assert buf[..p] == mid + Escape(ch);
  }
}
