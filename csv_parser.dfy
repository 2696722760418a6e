/** The line-oriented CSV parser: every line is split on the commas that are
    followed by an even number of double quotes up to the end of the line
    (so a comma between a pair of quotes stays inside its field), and, when
    the file declares headers, lines whose field count differs from the
    header line's are set aside as malformed. */
module CsvParsing {
  import opened Common

  // ---------------------------------------------------------------------
  // The quote-aware comma split
  // ---------------------------------------------------------------------

  /** Number of '"' characters in `s`. */
  function QuoteCount(s: string): nat
  {
    if s == [] then 0 else (if s[0] == '"' then 1 else 0) + QuoteCount(s[1..])
  }

  /** Position `i` of `line` is a field separator: it holds a comma and the
      rest of the line after it holds an even number of quotes.  This is the
      meaning of the pattern `,(?=([^"]*"[^"]*")*[^"]*$)`: its look-ahead
      consumes the remainder of the line as pairs of quotes with non-quote
      text around them. */
  predicate IsSeparator(line: string, i: int)
  {
    0 <= i < |line| && line[i] == ',' && QuoteCount(line[i + 1..]) % 2 == 0
  }

  /** The first separator at or after `from`, if any. */
  function FirstSeparatorFrom(line: string, from: nat): (r: Option<nat>)
    requires from <= |line|
    ensures r.Some? ==> from <= r.value < |line| && IsSeparator(line, r.value)
    ensures forall j :: from <= j < |line| && (r.None? || j < r.value) ==> !IsSeparator(line, j)
    decreases |line| - from
  {
    if from == |line| then None
    else if IsSeparator(line, from) then Some(from)
    else FirstSeparatorFrom(line, from + 1)
  }

  /** The texts between consecutive separators, before Java drops trailing
      empty strings.  Quote characters stay in the pieces. */
  function Pieces(line: string): (ps: seq<string>)
    ensures FirstSeparatorFrom(line, 0).None? ==> ps == [line]
    ensures FirstSeparatorFrom(line, 0).Some? ==> |ps| >= 2
    decreases |line|
  {
    match FirstSeparatorFrom(line, 0)
    case None => [line]
    case Some(j) => [line[..j]] + Pieces(line[j + 1..])
  }

  /** The fields written back with a comma between each two. */
  function JoinFields(fields: seq<string>): string
  {
    if |fields| == 0 then ""
    else if |fields| == 1 then fields[0]
    else fields[0] + "," + JoinFields(fields[1..])
  }

  /** Position `i` of `JoinFields(fields)` is one of the commas placed
      between two fields. */
  predicate IsJoint(fields: seq<string>, i: int)
    decreases |fields|
  {
    |fields| >= 2 && 0 <= i && (i == |fields[0]| || IsJoint(fields[1..], i - |fields[0]| - 1))
  }

  /** Whether a position is a separator depends only on the text after it. */
  lemma SeparatorInSuffix(line: string, j: nat, k: nat)
    requires j < |line|
    ensures IsSeparator(line[j + 1..], k) <==> IsSeparator(line, j + 1 + k)
  {
    if 0 <= k < |line| - j - 1 {
      assert line[j + 1..][k] == line[j + 1 + k];
      assert line[j + 1..][k + 1..] == line[j + 1 + k + 1..];
    }
  }

  /** Joining the pieces back with commas restores the line. */
  lemma {:induction false} JoinPieces(line: string)
    ensures JoinFields(Pieces(line)) == line
    decreases |line|
  {
    match FirstSeparatorFrom(line, 0)
    case None =>
      assert Pieces(line) == [line];
    case Some(j) =>
      var rest := line[j + 1..];
      var ps := Pieces(line);
      JoinPieces(rest);
      assert ps == [line[..j]] + Pieces(rest);
      assert ps[1..] == Pieces(rest) && ps[0] == line[..j];
      assert |ps| >= 2;
      assert JoinFields(ps) == line[..j] + "," + JoinFields(Pieces(rest));
      assert line == line[..j] + [line[j]] + rest;
  }

  /** The commas that join the pieces are precisely the separators. */
  lemma {:induction false} SeparatorsAreJoints(line: string)
    ensures forall i :: 0 <= i < |line| ==> (IsSeparator(line, i) <==> IsJoint(Pieces(line), i))
    decreases |line|
  {
    match FirstSeparatorFrom(line, 0)
    case None =>
      assert Pieces(line) == [line];
    case Some(j) =>
      var rest := line[j + 1..];
      var ps := Pieces(line);
      SeparatorsAreJoints(rest);
      assert ps == [line[..j]] + Pieces(rest);
      assert ps[1..] == Pieces(rest) && |ps[0]| == j;
      forall i | 0 <= i < |line|
        ensures IsSeparator(line, i) <==> IsJoint(ps, i)
      {
        if i > j {
          SeparatorInSuffix(line, j, i - j - 1);
          assert IsJoint(ps, i) == IsJoint(Pieces(rest), i - j - 1);
        } else if i < j {
          assert !IsSeparator(line, i);
          assert !IsJoint(ps, i);
        } else {
          assert IsSeparator(line, i) && IsJoint(ps, i);
        }
      }
  }

  /** The pieces are exactly the text of the line cut at its separators:
      joining them back with commas restores the line, and the commas that
      join them are precisely the separator positions.  For a non-empty line
      these determine `Pieces(line)` uniquely; for the empty line both `[]`
      and `[""]` satisfy them, and the postcondition of `Pieces` settles it
      as `[""]`. */
  lemma PiecesCutAtSeparators(line: string)
    ensures JoinFields(Pieces(line)) == line
    ensures forall i :: 0 <= i < |line| ==> (IsSeparator(line, i) <==> IsJoint(Pieces(line), i))
  {
    JoinPieces(line);
    SeparatorsAreJoints(line);
  }

  /** Drops the empty strings at the end, as `String.split` without a limit
      does. */
  function DropTrailingEmpty(fields: seq<string>): (r: seq<string>)
    ensures |r| <= |fields| && r == fields[..|r|]
    ensures forall k :: |r| <= k < |fields| ==> fields[k] == ""
    ensures r != [] ==> r[|r| - 1] != ""
  {
    if fields != [] && fields[|fields| - 1] == "" then DropTrailingEmpty(fields[..|fields| - 1])
    else fields
  }

  /** `line.split(",(?=([^\"]*\"[^\"]*\")*[^\"]*$)")`: the pieces, with
      trailing empty pieces removed unless the line has no separator. */
  function Split(line: string): seq<string>
  {
    var ps := Pieces(line);
    if |ps| == 1 then ps else DropTrailingEmpty(ps)
  }

  /** A line without a separator is returned whole (an empty line gives one
      empty field); otherwise the fields are the pieces up to the last
      non-empty one, and only empty pieces are dropped. */
  lemma SplitDropsTrailingEmptyPieces(line: string)
    ensures (forall i :: 0 <= i < |line| ==> !IsSeparator(line, i)) ==> Split(line) == [line]
    ensures |Split(line)| <= |Pieces(line)| && Split(line) == Pieces(line)[..|Split(line)|]
    ensures forall k :: |Split(line)| <= k < |Pieces(line)| ==> Pieces(line)[k] == ""
    ensures (exists i :: IsSeparator(line, i)) && Split(line) != [] ==> Split(line)[|Split(line)| - 1] != ""
  {
    var ps := Pieces(line);
    match FirstSeparatorFrom(line, 0)
    case None =>
      assert ps == [line];
      assert Split(line) == [line];
      assert forall i :: !IsSeparator(line, i);
    case Some(j) =>
      assert IsSeparator(line, j);
      assert |ps| >= 2;
      assert Split(line) == DropTrailingEmpty(ps);
  }

  /** A trailing comma does not make a trailing empty field: `Virgo,` has one
      field. */
  lemma TrailingCommaDropped()
    ensures Split("Virgo,") == ["Virgo"]
  {
    var line := "Virgo,";
    assert line[6..] == [];
    assert IsSeparator(line, 5);
    assert FirstSeparatorFrom(line, 5) == Some(5);
    assert FirstSeparatorFrom(line, 4) == Some(5);
    assert FirstSeparatorFrom(line, 3) == Some(5);
    assert FirstSeparatorFrom(line, 2) == Some(5);
    assert FirstSeparatorFrom(line, 1) == Some(5);
    assert FirstSeparatorFrom(line, 0) == Some(5);
    assert FirstSeparatorFrom("", 0) == None;
    assert Pieces("") == [""];
    assert line[..5] == "Virgo";
    assert Pieces(line) == ["Virgo", ""];
    assert DropTrailingEmpty(["Virgo"]) == ["Virgo"];
  }

  /** A lone comma splits into no fields at all. */
  lemma LoneCommaHasNoFields()
    ensures Split(",") == []
  {
    assert ","[1..] == [];
    assert IsSeparator(",", 0);
    assert FirstSeparatorFrom(",", 0) == Some(0);
    assert FirstSeparatorFrom("", 0) == None;
    assert Pieces("") == [""];
    assert ","[..0] == "";
    assert Pieces(",") == ["", ""];
    assert DropTrailingEmpty([""]) == [];
  }

  /** The empty line is one empty field. */
  lemma EmptyLineIsOneEmptyField()
    ensures Split("") == [""]
  {
    assert FirstSeparatorFrom("", 0) == None;
    assert Pieces("") == [""];
  }

  /** A comma between two quotes is not a separator: the quotes stay in the
      field text and the quoted amount is one field. */
  lemma QuotedCommaExample()
    ensures Split("a,\"1,0\"") == ["a", "\"1,0\""]
  {
    var line := "a,\"1,0\"";
    assert line[2..] == "\"1,0\"";
    assert QuoteCount("\"") == 1;
    assert QuoteCount("0\"") == 1;
    assert QuoteCount(",0\"") == 1;
    assert QuoteCount("1,0\"") == 1;
    assert QuoteCount("\"1,0\"") == 2;
    assert IsSeparator(line, 1);
    assert FirstSeparatorFrom(line, 0) == Some(1);
    var rest := line[2..];
    assert rest == "\"1,0\"";
    assert rest[3..] == "0\"";
    assert !IsSeparator(rest, 2);
    assert FirstSeparatorFrom(rest, 0).None?;
    assert Pieces(rest) == [rest];
    assert line[..1] == "a";
    assert Pieces(line) == ["a", "\"1,0\""];
  }

  /** With an unclosed quote the rule still counts the quotes after each
      comma: the comma before the quote does not split, the one after it
      does. */
  lemma UnbalancedQuoteExample()
    ensures Split("a,\"b,c") == ["a,\"b", "c"]
  {
    var line := "a,\"b,c";
    assert line[2..] == "\"b,c";
    assert QuoteCount("c") == 0;
    assert QuoteCount(",c") == 0;
    assert QuoteCount("b,c") == 0;
    assert QuoteCount("\"b,c") == 1;
    assert !IsSeparator(line, 1);
    assert IsSeparator(line, 4);
    assert FirstSeparatorFrom(line, 0) == Some(4);
    var rest := line[5..];
    assert rest == "c";
    assert FirstSeparatorFrom(rest, 0).None?;
    assert line[..4] == "a,\"b";
    assert Pieces(line) == ["a,\"b", "c"];
  }

  // ---------------------------------------------------------------------
  // The line loop
  // ---------------------------------------------------------------------

  /** Every line split, in order (the rows the parser emits when nothing is
      dropped; the row creator is the identity). */
  function SplitAll(lines: seq<string>): (rows: seq<seq<string>>)
    ensures |rows| == |lines|
    ensures forall k :: 0 <= k < |lines| ==> rows[k] == Split(lines[k])
  {
    if lines == [] then []
    else
      var init := lines[..|lines| - 1];
      var rows := SplitAll(init);
      assert forall k :: 0 <= k < |init| ==> lines[k] == init[k];
      rows + [Split(lines[|lines| - 1])]
  }

  /** A line is kept unless headers are declared and its field count differs
      from the header line's. */
  predicate WellSized(line: string, hasHeaders: bool, width: nat)
  {
    !hasHeaders || |Split(line)| == width
  }

  /** The rows kept from `lines`, in order. */
  function KeptRows(lines: seq<string>, hasHeaders: bool, width: nat): seq<seq<string>>
  {
    if lines == [] then []
    else
      var last := lines[|lines| - 1];
      KeptRows(lines[..|lines| - 1], hasHeaders, width)
        + (if WellSized(last, hasHeaders, width) then [Split(last)] else [])
  }

  /** The lines recorded as malformed, in order. */
  function MalformedLines(lines: seq<string>, hasHeaders: bool, width: nat): seq<string>
  {
    if lines == [] then []
    else
      var last := lines[|lines| - 1];
      MalformedLines(lines[..|lines| - 1], hasHeaders, width)
        + (if WellSized(last, hasHeaders, width) then [] else [last])
  }

  /** The header width: the field count of the first line when headers are
      declared (the source leaves the header list empty otherwise). */
  function HeaderWidth(lines: seq<string>, hasHeaders: bool): nat
  {
    if hasHeaders && lines != [] then |Split(lines[0])| else 0
  }

  /** What `parse` returns for the given lines. */
  function ParsedRows(lines: seq<string>, hasHeaders: bool): seq<seq<string>>
  {
    KeptRows(lines, hasHeaders, HeaderWidth(lines, hasHeaders))
  }

  /** Taking one more line adds its row or records it as malformed. */
  lemma NextLine(lines: seq<string>, i: nat, hasHeaders: bool, width: nat)
    requires i < |lines|
    ensures KeptRows(lines[..i + 1], hasHeaders, width)
            == KeptRows(lines[..i], hasHeaders, width) + (if WellSized(lines[i], hasHeaders, width) then [Split(lines[i])] else [])
    ensures MalformedLines(lines[..i + 1], hasHeaders, width)
            == MalformedLines(lines[..i], hasHeaders, width) + (if WellSized(lines[i], hasHeaders, width) then [] else [lines[i]])
  {
    assert lines[..i + 1][..i] == lines[..i];
  }

  /** `CsvParser.parse`: reads the lines one by one, splits each, and either
      records it as malformed or appends its fields to the result.  The
      header line is not skipped: it goes through the loop like every other
      line. */
  method Parse(lines: seq<string>, hasHeaders: bool) returns (parsedData: seq<seq<string>>)
    ensures parsedData == ParsedRows(lines, hasHeaders)
    ensures lines == [] ==> parsedData == []
    ensures |parsedData| <= |lines|
  {
    parsedData := [];
    if lines == [] {
      return;
    }
    var headers: seq<string> := [];
    if hasHeaders {
      headers := Split(lines[0]);
    }
    ghost var width := HeaderWidth(lines, hasHeaders);
    assert |headers| == width;
    var malformedRows: seq<string> := [];
    var i := 0;
    assert lines[..0] == [];
    while i < |lines|
      invariant 0 <= i <= |lines|
      invariant parsedData == KeptRows(lines[..i], hasHeaders, width)
      invariant malformedRows == MalformedLines(lines[..i], hasHeaders, width)
    {
      var values := Split(lines[i]);
      NextLine(lines, i, hasHeaders, width);
      if hasHeaders && |values| != |headers| {
        malformedRows := malformedRows + [lines[i]];
      } else {
        parsedData := parsedData + [values];
      }
      i := i + 1;
    }
    assert lines[..i] == lines;
    KeptPlusMalformedIsAllLines(lines, hasHeaders, width);
  }

  // ---------------------------------------------------------------------
  // Properties of the parse result
  // ---------------------------------------------------------------------

  /** Keeping rows distributes over concatenation of the input. */
  lemma {:induction false} KeptRowsAppend(a: seq<string>, b: seq<string>, hasHeaders: bool, width: nat)
    ensures KeptRows(a + b, hasHeaders, width) == KeptRows(a, hasHeaders, width) + KeptRows(b, hasHeaders, width)
    decreases |b|
  {
    if b != [] {
      var b' := b[..|b| - 1];
      KeptRowsAppend(a, b', hasHeaders, width);
      assert (a + b)[..|a + b| - 1] == a + b';
    } else {
      assert a + b == a;
    }
  }

  /** Without headers every line yields exactly one row, in input order. */
  lemma {:induction false} WithoutHeadersEveryLineIsARow(lines: seq<string>)
    ensures ParsedRows(lines, false) == SplitAll(lines)
    ensures |ParsedRows(lines, false)| == |lines|
  {
    if lines != [] {
      WithoutHeadersEveryLineIsARow(lines[..|lines| - 1]);
    }
  }

  /** With headers the header line is itself the first output row. */
  lemma HeaderLineIsFirstRow(lines: seq<string>)
    requires lines != []
    ensures ParsedRows(lines, true) != []
    ensures ParsedRows(lines, true)[0] == Split(lines[0])
  {
    var w := HeaderWidth(lines, true);
    assert lines == [lines[0]] + lines[1..];
    KeptRowsAppend([lines[0]], lines[1..], true, w);
    assert KeptRows([lines[0]], true, w) == [Split(lines[0])];
  }

  /** Every line is either kept or recorded as malformed. */
  lemma {:induction false} KeptPlusMalformedIsAllLines(lines: seq<string>, hasHeaders: bool, width: nat)
    ensures |KeptRows(lines, hasHeaders, width)| + |MalformedLines(lines, hasHeaders, width)| == |lines|
  {
    if lines != [] {
      KeptPlusMalformedIsAllLines(lines[..|lines| - 1], hasHeaders, width);
    }
  }

  /** With headers every kept row has the header width. */
  lemma {:induction false} KeptRowsHaveHeaderWidth(lines: seq<string>, width: nat)
    ensures forall r :: r in KeptRows(lines, true, width) ==> |r| == width
  {
    if lines != [] {
      var init := lines[..|lines| - 1];
      var row := Split(lines[|lines| - 1]);
      KeptRowsHaveHeaderWidth(init, width);
      if |row| == width {
        assert KeptRows(lines, true, width) == KeptRows(init, true, width) + [row];
      } else {
        assert KeptRows(lines, true, width) == KeptRows(init, true, width);
      }
    }
  }

  /** With headers the row of every line of the header width is kept. */
  lemma {:induction false} HeaderWidthLinesKept(lines: seq<string>, width: nat)
    ensures forall k :: 0 <= k < |lines| && |Split(lines[k])| == width ==> Split(lines[k]) in KeptRows(lines, true, width)
  {
    if lines != [] {
      var init := lines[..|lines| - 1];
      var row := Split(lines[|lines| - 1]);
      HeaderWidthLinesKept(init, width);
      var kept := KeptRows(lines, true, width);
      assert KeptRows(init, true, width) <= kept;
      forall k | 0 <= k < |lines| && |Split(lines[k])| == width
        ensures Split(lines[k]) in kept
      {
        if k < |lines| - 1 {
          assert lines[k] == init[k];
          assert Split(init[k]) in KeptRows(init, true, width);
        } else {
          assert kept == KeptRows(init, true, width) + [row];
        }
      }
    }
  }

  /** With headers a kept row has the header width and every line of that
      width yields a kept row. */
  lemma KeptIffHeaderWidth(lines: seq<string>, width: nat)
    ensures forall r :: r in KeptRows(lines, true, width) ==> |r| == width
    ensures forall k :: 0 <= k < |lines| && |Split(lines[k])| == width ==> Split(lines[k]) in KeptRows(lines, true, width)
  {
    KeptRowsHaveHeaderWidth(lines, width);
    HeaderWidthLinesKept(lines, width);
  }

  /** With headers the malformed lines are exactly the lines whose field
      count differs from the header width. */
  lemma {:induction false} MalformedIffOtherWidth(lines: seq<string>, width: nat)
    ensures forall m :: m in MalformedLines(lines, true, width) ==> m in lines && |Split(m)| != width
    ensures forall k :: 0 <= k < |lines| && |Split(lines[k])| != width ==> lines[k] in MalformedLines(lines, true, width)
  {
    if lines != [] {
      var init := lines[..|lines| - 1];
      var last := lines[|lines| - 1];
      MalformedIffOtherWidth(init, width);
      var bad := MalformedLines(lines, true, width);
      assert lines == init + [last];
      assert bad == MalformedLines(init, true, width) + (if |Split(last)| == width then [] else [last]);
      forall k | 0 <= k < |lines| && |Split(lines[k])| != width
        ensures lines[k] in bad
      {
        if k < |lines| - 1 {
          assert lines[k] == init[k];
        }
      }
    }
  }

  /** The rows are the lines' splits, in source order, with some omitted:
      a kept row is appended unchanged. */
  lemma {:induction false} ParsedRowsAreSubsequence(lines: seq<string>, hasHeaders: bool, width: nat)
    ensures IsSubsequence(KeptRows(lines, hasHeaders, width), SplitAll(lines))
  {
    if lines != [] {
      var init := lines[..|lines| - 1];
      ParsedRowsAreSubsequence(init, hasHeaders, width);
      var kept := KeptRows(lines, hasHeaders, width);
      var all := SplitAll(lines);
      assert all[..|all| - 1] == SplitAll(init);
      if WellSized(lines[|lines| - 1], hasHeaders, width) {
        assert kept[..|kept| - 1] == KeptRows(init, hasHeaders, width);
      } else {
        assert kept == KeptRows(init, hasHeaders, width);
        if kept != [] {
          assert IsSubsequence(kept, all[..|all| - 1]);
        }
      }
    }
  }

  /** When every line has the header's field count nothing is dropped: each
      line (the header included) yields one row. */
  lemma {:induction false} UniformWidthKeepsEveryLine(lines: seq<string>, width: nat)
    requires forall k :: 0 <= k < |lines| ==> |Split(lines[k])| == width
    ensures KeptRows(lines, true, width) == SplitAll(lines)
    ensures MalformedLines(lines, true, width) == []
  {
    if lines != [] {
      UniformWidthKeepsEveryLine(lines[..|lines| - 1], width);
    }
  }
}
