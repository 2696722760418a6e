/** Column resolution and row filtering over a parsed CSV table: a column
    identifier is read as a 32-bit integer index when it parses as one and
    otherwise looked up, case-sensitively, in the first row; the rows are then
    filtered by substring containment, either over every field or over the
    resolved column only. */
module CsvSearch {
  import opened Common
  import CsvParsing

  // ---------------------------------------------------------------------
  // Substring containment (Java's String.contains)
  // ---------------------------------------------------------------------

  predicate StartsWith(s: string, prefix: string)
  {
    |prefix| <= |s| && s[..|prefix|] == prefix
  }

  /** `s.contains(term)`: `term` occurs in `s` as a contiguous block. */
  predicate Contains(s: string, term: string)
    decreases |s|
  {
    StartsWith(s, term) || (s != [] && Contains(s[1..], term))
  }

  /** `Contains` holds exactly when `term` starts at some position of `s`;
      in particular the empty term is in every string. */
  lemma {:induction false} ContainsIffOccurs(s: string, term: string)
    ensures Contains(s, term) <==> exists i :: 0 <= i <= |s| && StartsWith(s[i..], term)
    decreases |s|
  {
    assert s[0..] == s;
    if s != [] {
      ContainsIffOccurs(s[1..], term);
      if Contains(s, term) && !StartsWith(s, term) {
        var i :| 0 <= i <= |s[1..]| && StartsWith(s[1..][i..], term);
        assert s[1..][i..] == s[i + 1..];
      }
      if exists i :: 0 <= i <= |s| && StartsWith(s[i..], term) {
        var i :| 0 <= i <= |s| && StartsWith(s[i..], term);
        if i > 0 {
          assert s[1..][i - 1..] == s[i..];
        }
      }
    }
  }

  // ---------------------------------------------------------------------
  // Integer.parseInt, restricted to an optional sign and ASCII digits
  // ---------------------------------------------------------------------

  const Int32Min: int := -0x8000_0000
  const Int32Max: int := 0x7fff_ffff

  predicate IsDigit(c: char)
  {
    '0' <= c <= '9'
  }

  predicate AllDigits(s: string)
  {
    forall k :: 0 <= k < |s| ==> IsDigit(s[k])
  }

  function DigitValue(c: char): nat
    requires IsDigit(c)
  {
    c as int - '0' as int
  }

  /** The value of a string of decimal digits, most significant first. */
  function DigitsValue(s: string): nat
    requires AllDigits(s)
  {
    if s == [] then 0 else DigitsValue(s[..|s| - 1]) * 10 + DigitValue(s[|s| - 1])
  }

  /** The text after an optional leading '-' or '+'. */
  function UnsignedPart(s: string): (d: string)
    ensures |d| <= |s|
  {
    if |s| > 0 && (s[0] == '-' || s[0] == '+') then s[1..] else s
  }

  /** An optional sign followed by at least one digit. */
  predicate IsDecimalText(s: string)
  {
    UnsignedPart(s) != [] && AllDigits(UnsignedPart(s))
  }

  /** `Integer.parseInt`: an optional '-' or '+', then at least one digit,
      and a value within the 32-bit range; anything else is a
      `NumberFormatException`, modelled as `None`. */
  function ParseInt32(s: string): (r: Option<int>)
    ensures r.Some? ==> Int32Min <= r.value <= Int32Max
    ensures r.Some? ==> IsDecimalText(s)
    ensures r.Some? ==> s != [] && (IsDigit(s[0]) || s[0] == '-' || s[0] == '+')
  {
    if !IsDecimalText(s) then None
    else
      var v := DecimalValue(s);
      if Int32Min <= v <= Int32Max then Some(v) else None
  }

  /** The value of decimal text, negative after a '-'. */
  function DecimalValue(s: string): int
    requires IsDecimalText(s)
  {
    var magnitude: int := DigitsValue(UnsignedPart(s));
    if s[0] == '-' then -magnitude else magnitude
  }

  function DigitChar(d: nat): (c: char)
    requires d < 10
    ensures IsDigit(c) && DigitValue(c) == d
  {
    ('0' as int + d) as char
  }

  /** The decimal text of a natural number (no sign, no leading zeros). */
  function NatToDecimal(n: nat): (s: string)
    ensures s != [] && AllDigits(s)
    decreases n
  {
    if n < 10 then [DigitChar(n)] else NatToDecimal(n / 10) + [DigitChar(n % 10)]
  }

  /** The decimal text of an integer, with a '-' when negative. */
  function IntToDecimal(n: int): string
  {
    if n < 0 then "-" + NatToDecimal(-n) else NatToDecimal(n)
  }

  lemma {:induction false} NatToDecimalValue(n: nat)
    ensures DigitsValue(NatToDecimal(n)) == n
    decreases n
  {
    var s := NatToDecimal(n);
    if n >= 10 {
      NatToDecimalValue(n / 10);
      assert s[..|s| - 1] == NatToDecimal(n / 10);
    }
  }

  /** Parsing reads back every 32-bit integer from its decimal text. */
  lemma ParseInt32OfDecimal(n: int)
    requires Int32Min <= n <= Int32Max
    ensures ParseInt32(IntToDecimal(n)) == Some(n)
  {
    var s := IntToDecimal(n);
    if n < 0 {
      var digits := NatToDecimal(-n);
      NatToDecimalValue(-n);
      assert s == "-" + digits;
      assert s[0] == '-' && s[1..] == digits;
      assert AllDigits(digits) && digits != [];
      assert DigitsValue(digits) == -n;
    } else {
      NatToDecimalValue(n);
      assert s == NatToDecimal(n);
      assert IsDigit(s[0]);
    }
  }

  /** Digits without superfluous leading zeros: "0" keeps its one zero. */
  function StripLeadingZeros(d: string): (r: string)
    requires d != [] && AllDigits(d)
    ensures r != [] && AllDigits(r) && |r| <= |d|
    ensures r[0] == '0' ==> r == "0"
  {
    if |d| > 1 && d[0] == '0' then StripLeadingZeros(d[1..]) else d
  }

  /** The canonical form of decimal text: no '+', no leading zeros, and no
      '-' in front of zero. */
  function CanonicalDecimal(s: string): string
    requires IsDecimalText(s)
  {
    var m := StripLeadingZeros(UnsignedPart(s));
    if s[0] == '-' && m != "0" then "-" + m else m
  }

  /** A leading zero does not change the value of a digit string. */
  lemma {:induction false} LeadingZeroValue(t: string)
    requires AllDigits(t)
    ensures AllDigits("0" + t) && DigitsValue("0" + t) == DigitsValue(t)
    decreases |t|
  {
    var z := "0" + t;
    if t != [] {
      var init := t[..|t| - 1];
      assert z[..|z| - 1] == "0" + init;
      LeadingZeroValue(init);
    }
  }

  lemma {:induction false} StripLeadingZerosValue(d: string)
    requires d != [] && AllDigits(d)
    ensures DigitsValue(StripLeadingZeros(d)) == DigitsValue(d)
    decreases |d|
  {
    if |d| > 1 && d[0] == '0' {
      StripLeadingZerosValue(d[1..]);
      assert d == "0" + d[1..];
      LeadingZeroValue(d[1..]);
    }
  }

  /** Digits led by a non-zero digit have a positive value. */
  lemma {:induction false} LeadingNonZeroPositive(d: string)
    requires d != [] && AllDigits(d) && d[0] != '0'
    ensures DigitsValue(d) > 0
    decreases |d|
  {
    if |d| > 1 {
      LeadingNonZeroPositive(d[..|d| - 1]);
    }
  }

  /** Digits without superfluous leading zeros are the decimal text of their
      value. */
  lemma {:induction false} DecimalOfDigitsValue(d: string)
    requires d != [] && AllDigits(d) && (d[0] == '0' ==> d == "0")
    ensures NatToDecimal(DigitsValue(d)) == d
    decreases |d|
  {
    var n := DigitsValue(d);
    var last := d[|d| - 1];
    if |d| == 1 {
      assert d[..|d| - 1] == [];
      assert DigitsValue(d[..|d| - 1]) == 0;
      assert n == DigitsValue(d[..|d| - 1]) * 10 + DigitValue(last);
      assert DigitChar(n) == last;
    } else {
      var init := d[..|d| - 1];
      LeadingNonZeroPositive(init);
      DecimalOfDigitsValue(init);
      assert n / 10 == DigitsValue(init) && n % 10 == DigitValue(last);
      assert DigitChar(DigitValue(last)) == last;
      assert d == init + [last];
    }
  }

  /** What `ParseInt32` accepts and what it yields: it gives `n` exactly when
      the text is an optional sign and digits whose canonical form is the
      decimal text of `n`, and `n` is a 32-bit integer.  So "007" and "+7"
      give 7, "-0" gives 0, and "12x" or "2147483648" give nothing. */
  lemma ParseInt32Exactly(s: string, n: int)
    ensures ParseInt32(s) == Some(n) <==>
              IsDecimalText(s) && Int32Min <= n <= Int32Max && CanonicalDecimal(s) == IntToDecimal(n)
  {
    if IsDecimalText(s) {
      CanonicalIsDecimalOfValue(s);
      if CanonicalDecimal(s) == IntToDecimal(n) {
        TextDeterminesInteger(DecimalValue(s), n);
      }
    }
  }

  /** The canonical form of decimal text is the decimal text of its value. */
  lemma CanonicalIsDecimalOfValue(s: string)
    requires IsDecimalText(s)
    ensures CanonicalDecimal(s) == IntToDecimal(DecimalValue(s))
  {
    var d := UnsignedPart(s);
    var m := StripLeadingZeros(d);
    StripLeadingZerosValue(d);
    DecimalOfDigitsValue(m);
    assert NatToDecimal(DigitsValue(d)) == m;
    if s[0] == '-' && m == "0" {
      assert DigitsValue(d) == 0;
    }
  }

  /** Different integers have different decimal texts. */
  lemma TextDeterminesInteger(a: int, b: int)
    requires IntToDecimal(a) == IntToDecimal(b)
    ensures a == b
  {
    NatToDecimalValue(if a < 0 then -a else a);
    NatToDecimalValue(if b < 0 then -b else b);
    var ta := IntToDecimal(a);
    var tb := IntToDecimal(b);
    if a < 0 {
      assert ta[0] == '-';
      assert ta[1..] == NatToDecimal(-a);
    } else {
      assert IsDigit(ta[0]);
    }
    if b < 0 {
      assert tb[1..] == NatToDecimal(-b);
    }
  }

  /** Text that starts with neither a digit nor a sign is not a number. */
  lemma NonNumericIdentifier(s: string)
    requires s != [] && !IsDigit(s[0]) && s[0] != '-' && s[0] != '+'
    ensures ParseInt32(s).None?
  {
  }

  // ---------------------------------------------------------------------
  // Column resolution
  // ---------------------------------------------------------------------

  /** The position of the first element equal to `x`, or -1 (`List.indexOf`). */
  function IndexOf(xs: seq<string>, x: string): (r: int)
    ensures -1 <= r < |xs|
    ensures r == -1 <==> x !in xs
    ensures r >= 0 ==> xs[r] == x && x !in xs[..r]
  {
    if xs == [] then -1
    else if xs[0] == x then 0
    else
      var k := IndexOf(xs[1..], x);
      if k == -1 then -1 else k + 1
  }

  /** The diagnostics `determineColumnIndex` prints to standard error. */
  datatype ColumnError = ColumnNameNotFound | InvalidColumnIdentifier

  /** The column index together with the diagnostic, if one was printed. */
  datatype Resolution = Resolution(index: int, error: Option<ColumnError>)

  /** A column was given: neither null nor empty. */
  predicate ColumnSpecified(columnId: Option<string>)
  {
    columnId.Some? && columnId.value != ""
  }

  /** `Search.determineColumnIndex`.  The lower-casing in the source discards
      its results, so the header lookup is exact and case-sensitive. */
  function DetermineColumnIndex(data: seq<seq<string>>, columnId: Option<string>, hasHeaders: bool): (r: Resolution)
    ensures !ColumnSpecified(columnId) ==> r == Resolution(-1, None)
    ensures ColumnSpecified(columnId) && ParseInt32(columnId.value).Some? ==>
              r == Resolution(ParseInt32(columnId.value).value, None)
    ensures ColumnSpecified(columnId) && ParseInt32(columnId.value).None? && hasHeaders && data != [] ==>
              && r.index >= -1
              && (r.index == -1 <==> columnId.value !in data[0])
              && (r.index >= 0 ==> r.index < |data[0]| && data[0][r.index] == columnId.value
                                   && columnId.value !in data[0][..r.index])
              && (r.error == if r.index == -1 then Some(ColumnNameNotFound) else None)
    ensures ColumnSpecified(columnId) && ParseInt32(columnId.value).None? && !(hasHeaders && data != []) ==>
              r == Resolution(-1, Some(InvalidColumnIdentifier))
  {
    if !ColumnSpecified(columnId) then Resolution(-1, None)
    else match ParseInt32(columnId.value)
      case Some(n) => Resolution(n, None)
      case None =>
        if hasHeaders && data != [] then
          var i := IndexOf(data[0], columnId.value);
          Resolution(i, if i == -1 then Some(ColumnNameNotFound) else None)
        else
          Resolution(-1, Some(InvalidColumnIdentifier))
  }

  // ---------------------------------------------------------------------
  // Row filtering
  // ---------------------------------------------------------------------

  /** Some field of the row contains the term. */
  predicate RowContains(row: seq<string>, term: string)
  {
    exists j :: 0 <= j < |row| && Contains(row[j], term)
  }

  /** The rows with some field containing the term, in order. */
  function AnyFieldMatches(data: seq<seq<string>>, term: string): seq<seq<string>>
  {
    if data == [] then []
    else
      var row := data[|data| - 1];
      AnyFieldMatches(data[..|data| - 1], term) + (if RowContains(row, term) then [row] else [])
  }

  /** The index lies inside the row. */
  predicate InRange(row: seq<string>, columnIndex: int)
  {
    0 <= columnIndex < |row|
  }

  /** The field of the row at the index exists and contains the term. */
  predicate FieldContains(row: seq<string>, columnIndex: int, term: string)
  {
    InRange(row, columnIndex) && Contains(row[columnIndex], term)
  }

  /** The rows whose field at `columnIndex` exists and contains the term. */
  function ColumnMatches(data: seq<seq<string>>, columnIndex: int, term: string): seq<seq<string>>
  {
    if data == [] then []
    else
      var row := data[|data| - 1];
      ColumnMatches(data[..|data| - 1], columnIndex, term)
        + (if FieldContains(row, columnIndex, term) then [row] else [])
  }

  /** The position of the first row that the index does not fit, or the
      number of rows when it fits them all. */
  function FirstOutOfRange(data: seq<seq<string>>, columnIndex: int): (k: nat)
    ensures k <= |data|
    ensures forall j :: 0 <= j < k ==> InRange(data[j], columnIndex)
    ensures k < |data| ==> !InRange(data[k], columnIndex)
  {
    if data == [] || !InRange(data[0], columnIndex) then 0
    else 1 + FirstOutOfRange(data[1..], columnIndex)
  }

  /** Why a scoped scan stopped early: the diagnostics `getMatchingRows`
      prints before its `break`. */
  datatype RangeError = ColumnTooLarge | ColumnTooSmall

  /** The rows `getMatchingRows` returns.  A scoped scan ends at the first
      row the index does not fit; the matches found before it are kept. */
  function MatchingRows(data: seq<seq<string>>, columnIndex: int, columnSpecified: bool, term: string): seq<seq<string>>
  {
    if columnSpecified then ColumnMatches(data[..FirstOutOfRange(data, columnIndex)], columnIndex, term)
    else AnyFieldMatches(data, term)
  }

  /** The diagnostic printed when a scoped scan stops early, if any. */
  function StopReason(data: seq<seq<string>>, columnIndex: int, columnSpecified: bool): Option<RangeError>
  {
    var k := FirstOutOfRange(data, columnIndex);
    if !columnSpecified || k == |data| then None
    else if columnIndex >= |data[k]| then Some(ColumnTooLarge)
    else Some(ColumnTooSmall)
  }

  /** Unscoped search keeps exactly the rows having a field that contains the
      term, in input order. */
  lemma {:induction false} AnyFieldMatchesExactly(data: seq<seq<string>>, term: string)
    ensures IsSubsequence(AnyFieldMatches(data, term), data)
    ensures forall row :: row in AnyFieldMatches(data, term) <==> row in data && RowContains(row, term)
  {
    if data != [] {
      var init := data[..|data| - 1];
      var last := data[|data| - 1];
      AnyFieldMatchesExactly(init, term);
      var m := AnyFieldMatches(data, term);
      assert data == init + [last];
      assert data[..|data| - 1] == init;
      if RowContains(last, term) {
        assert m[..|m| - 1] == AnyFieldMatches(init, term);
      } else {
        assert m == AnyFieldMatches(init, term);
      }
    }
  }

  /** Unscoped search returns a matching row as often as it occurs in the
      input, and a row without a match never. */
  lemma {:induction false} AnyFieldMatchesCounts(data: seq<seq<string>>, term: string)
    ensures forall row :: multiset(AnyFieldMatches(data, term))[row] ==
              if RowContains(row, term) then multiset(data)[row] else 0
  {
    if data != [] {
      var init := data[..|data| - 1];
      var last := data[|data| - 1];
      AnyFieldMatchesCounts(init, term);
      assert data == init + [last];
      assert multiset(data) == multiset(init) + multiset{last};
    }
  }

  /** Unscoped search over two blocks of rows is the search over the first
      followed by the search over the second. */
  lemma {:induction false} AnyFieldMatchesAppend(a: seq<seq<string>>, b: seq<seq<string>>, term: string)
    ensures AnyFieldMatches(a + b, term) == AnyFieldMatches(a, term) + AnyFieldMatches(b, term)
    decreases |b|
  {
    if b == [] {
      assert a + b == a;
    } else {
      var init := b[..|b| - 1];
      assert (a + b)[..|a + b| - 1] == a + init;
      assert (a + b)[|a + b| - 1] == b[|b| - 1];
      AnyFieldMatchesAppend(a, init, term);
    }
  }

  /** Unscoped search over one row returns it iff some field contains the
      term. */
  lemma AnyFieldMatchesOneRow(row: seq<string>, term: string)
    ensures AnyFieldMatches([row], term) == if RowContains(row, term) then [row] else []
  {
    assert [row][..0] == [];
  }

  /** Scoped search on rows the index fits keeps exactly the rows whose field
      at the index contains the term, in order. */
  lemma {:induction false} ColumnMatchesExactly(data: seq<seq<string>>, columnIndex: int, term: string)
    requires forall j :: 0 <= j < |data| ==> InRange(data[j], columnIndex)
    ensures IsSubsequence(ColumnMatches(data, columnIndex, term), data)
    ensures forall row :: row in ColumnMatches(data, columnIndex, term) <==>
              row in data && FieldContains(row, columnIndex, term)
  {
    if data != [] {
      var init := data[..|data| - 1];
      var last := data[|data| - 1];
      ColumnMatchesExactly(init, columnIndex, term);
      var m := ColumnMatches(data, columnIndex, term);
      assert data == init + [last];
      assert data[..|data| - 1] == init;
      if Contains(last[columnIndex], term) {
        assert m[..|m| - 1] == ColumnMatches(init, columnIndex, term);
      } else {
        assert m == ColumnMatches(init, columnIndex, term);
      }
    }
  }

  /** Scoped search returns a row whose field at the index contains the term
      as often as it occurs in the input, and any other row never. */
  lemma {:induction false} ColumnMatchesCounts(data: seq<seq<string>>, columnIndex: int, term: string)
    ensures forall row :: multiset(ColumnMatches(data, columnIndex, term))[row] ==
              if FieldContains(row, columnIndex, term) then multiset(data)[row] else 0
  {
    if data != [] {
      var init := data[..|data| - 1];
      var last := data[|data| - 1];
      ColumnMatchesCounts(init, columnIndex, term);
      assert data == init + [last];
      assert multiset(data) == multiset(init) + multiset{last};
    }
  }

  /** Scoped search over two blocks of rows is the search over the first
      followed by the search over the second. */
  lemma {:induction false} ColumnMatchesAppend(a: seq<seq<string>>, b: seq<seq<string>>, columnIndex: int, term: string)
    ensures ColumnMatches(a + b, columnIndex, term) == ColumnMatches(a, columnIndex, term) + ColumnMatches(b, columnIndex, term)
    decreases |b|
  {
    if b == [] {
      assert a + b == a;
    } else {
      var init := b[..|b| - 1];
      assert (a + b)[..|a + b| - 1] == a + init;
      assert (a + b)[|a + b| - 1] == b[|b| - 1];
      ColumnMatchesAppend(a, init, columnIndex, term);
    }
  }

  /** Scoped search over one row returns it iff its field at the index exists
      and contains the term. */
  lemma ColumnMatchesOneRow(row: seq<string>, columnIndex: int, term: string)
    ensures ColumnMatches([row], columnIndex, term) == if FieldContains(row, columnIndex, term) then [row] else []
  {
    assert [row][..0] == [];
  }

  /** A subsequence of a prefix is a subsequence of the whole. */
  lemma {:induction false} SubsequenceOfPrefix<T>(xs: seq<T>, ys: seq<T>, n: nat)
    requires n <= |ys| && IsSubsequence(xs, ys[..n])
    ensures IsSubsequence(xs, ys)
    decreases |ys| - n
  {
    if n < |ys| {
      var ys' := ys[..n + 1];
      assert ys'[..|ys'| - 1] == ys[..n];
      if xs != [] {
        assert IsSubsequence(xs, ys');
      } else {
        assert IsSubsequence(xs, ys');
      }
      SubsequenceOfPrefix(xs, ys, n + 1);
    } else {
      assert ys[..n] == ys;
    }
  }

  /** Whatever the arguments, the result is an order-preserving subsequence
      of the input rows: never more rows, and only rows of the input. */
  lemma MatchingRowsIsSubsequence(data: seq<seq<string>>, columnIndex: int, columnSpecified: bool, term: string)
    ensures var r := MatchingRows(data, columnIndex, columnSpecified, term);
            && IsSubsequence(r, data)
            && |r| <= |data|
            && (forall row :: row in r ==> row in data)
  {
    var r := MatchingRows(data, columnIndex, columnSpecified, term);
    if columnSpecified {
      var k := FirstOutOfRange(data, columnIndex);
      ColumnMatchesExactly(data[..k], columnIndex, term);
      SubsequenceOfPrefix(r, data, k);
    } else {
      AnyFieldMatchesExactly(data, term);
    }
    SubsequenceElements(r, data);
  }

  /** Scoped search: a row before the first row the index does not fit is
      returned iff its field at the index contains the term, as often as it
      occurs before that row; the scan stops
      at that row, "too large" when the index is at least its width and
      "too small" otherwise. */
  lemma ScopedSearchStops(data: seq<seq<string>>, columnIndex: int, term: string)
    ensures var k := FirstOutOfRange(data, columnIndex);
            && (forall row :: row in MatchingRows(data, columnIndex, true, term) <==>
                  row in data[..k] && FieldContains(row, columnIndex, term))
            && (forall row :: multiset(MatchingRows(data, columnIndex, true, term))[row] ==
                  if FieldContains(row, columnIndex, term) then multiset(data[..k])[row] else 0)
            && (k < |data| <==> StopReason(data, columnIndex, true).Some?)
            && (k < |data| ==> (StopReason(data, columnIndex, true) == Some(ColumnTooLarge) <==> columnIndex >= |data[k]|))
  {
    var k := FirstOutOfRange(data, columnIndex);
    ColumnMatchesExactly(data[..k], columnIndex, term);
    ColumnMatchesCounts(data[..k], columnIndex, term);
  }

  /** A negative index finds nothing: the first row already stops the scan
      as "too small". */
  lemma NegativeIndexFindsNothing(data: seq<seq<string>>, columnIndex: int, term: string)
    requires columnIndex < 0
    ensures MatchingRows(data, columnIndex, true, term) == []
    ensures data != [] ==> StopReason(data, columnIndex, true) == Some(ColumnTooSmall)
  {
    assert data[..0] == [];
  }

  /** An unknown column name resolves to -1, so the scoped scan then stops at
      the first row as "too small" and nothing is returned. */
  lemma UnknownColumnNameFindsNothing(data: seq<seq<string>>, name: string, term: string)
    requires name != [] && ParseInt32(name).None?
    requires data != [] && name !in data[0]
    ensures DetermineColumnIndex(data, Some(name), true) == Resolution(-1, Some(ColumnNameNotFound))
    ensures MatchingRows(data, -1, true, term) == []
    ensures StopReason(data, -1, true) == Some(ColumnTooSmall)
  {
    NegativeIndexFindsNothing(data, -1, term);
  }

  /** Unscoped search example: of `RI,White` and `MA,Black`, only the first
      row contains `Whi`. */
  lemma UnscopedSearchExample()
    ensures AnyFieldMatches([["RI", "White"], ["MA", "Black"]], "Whi") == [["RI", "White"]]
  {
    var data := [["RI", "White"], ["MA", "Black"]];
    assert StartsWith("White", "Whi");
    assert Contains(data[0][1], "Whi");
    assert !Contains("I", "Whi");
    assert !Contains("RI", "Whi");
    assert !Contains("A", "Whi");
    assert !Contains("MA", "Whi");
    assert !Contains("ck", "Whi") && !Contains("k", "Whi");
    assert "ack"[..3][0] == 'a';
    assert !Contains("ack", "Whi");
    assert "lack"[..3][0] == 'l';
    assert !Contains("lack", "Whi");
    assert "Black"[..3][0] == 'B';
    assert !Contains("Black", "Whi");
    assert !RowContains(data[1], "Whi");
    assert data[..1] == [["RI", "White"]];
  }

  // ---------------------------------------------------------------------
  // The Search object
  // ---------------------------------------------------------------------

  /** The notices `searchFor` prints to standard output when nothing
      matched. */
  datatype NoMatchNotice = NoMatchesInSpecifiedColumns | NoMatches

  /** What `searchFor` reported besides its result list. */
  datatype SearchReport =
    | InvalidFileLocation
    | FileUnreadable
    | Searched(columnError: Option<ColumnError>, stopped: Option<RangeError>, notice: Option<NoMatchNotice>)

  /** A search request.  Its four fields are set by the constructor and
      never change. */
  class Search {
    const filename: string
    const searchFor: string
    const columnId: Option<string>
    const hasHeaders: bool

    constructor(filename: string, searchFor: string, columnId: Option<string>, hasHeaders: bool)
      ensures this.filename == filename && this.searchFor == searchFor
      ensures this.columnId == columnId && this.hasHeaders == hasHeaders
    {
      this.filename := filename;
      this.searchFor := searchFor;
      this.columnId := columnId;
      this.hasHeaders := hasHeaders;
    }

    /** `getMatchingRows`: scans the rows in order; unscoped, a row is added
        at its first field containing the term; scoped, a row is added when
        its field at the index contains the term, and the scan breaks at the
        first row the index does not fit. */
    method GetMatchingRows(data: seq<seq<string>>, columnIndex: int, columnSpecified: bool)
      returns (matchingRows: seq<seq<string>>, stopped: Option<RangeError>)
      ensures matchingRows == MatchingRows(data, columnIndex, columnSpecified, searchFor)
      ensures stopped == StopReason(data, columnIndex, columnSpecified)
      ensures IsSubsequence(matchingRows, data)
    {
      matchingRows := [];
      stopped := None;
      var i := 0;
      while i < |data|
        invariant 0 <= i <= |data|
        invariant columnSpecified ==> i <= FirstOutOfRange(data, columnIndex)
        invariant columnSpecified ==> matchingRows == ColumnMatches(data[..i], columnIndex, searchFor)
        invariant !columnSpecified ==> matchingRows == AnyFieldMatches(data[..i], searchFor)
        invariant stopped == None
      {
        var eachRow := data[i];
        assert data[..i + 1][..i] == data[..i];
        if columnSpecified {
          if 0 <= columnIndex < |eachRow| {
            if Contains(eachRow[columnIndex], searchFor) {
              matchingRows := matchingRows + [eachRow];
            }
          } else if columnIndex >= |eachRow| {
            stopped := Some(ColumnTooLarge);
            break;
          } else {
            stopped := Some(ColumnTooSmall);
            break;
          }
        } else {
          var j := 0;
          while j < |eachRow|
            invariant 0 <= j <= |eachRow|
            invariant forall f :: 0 <= f < j ==> !Contains(eachRow[f], searchFor)
            invariant matchingRows == AnyFieldMatches(data[..i], searchFor)
          {
            if Contains(eachRow[j], searchFor) {
              matchingRows := matchingRows + [eachRow];
              break;
            }
            j := j + 1;
          }
        }
        i := i + 1;
      }
      if i == |data| {
        assert data[..i] == data;
      }
      MatchingRowsIsSubsequence(data, columnIndex, columnSpecified, searchFor);
    }

    /** `searchFor`, with the file's contents given as its lines (`None` when
        the file cannot be opened or read): a name outside a `data/`
        directory is refused, otherwise the file is parsed, the column
        resolved and the rows filtered, with a notice when nothing matched. */
    method SearchFor(file: Option<seq<string>>) returns (resultList: seq<seq<string>>, report: SearchReport)
      ensures !Contains(filename, "data/") ==> resultList == [] && report == InvalidFileLocation
      ensures Contains(filename, "data/") && file.None? ==> resultList == [] && report == FileUnreadable
      ensures Contains(filename, "data/") && file.Some? ==>
                var parsed := CsvParsing.ParsedRows(file.value, hasHeaders);
                var resolution := DetermineColumnIndex(parsed, columnId, hasHeaders);
                && resultList == MatchingRows(parsed, resolution.index, ColumnSpecified(columnId), searchFor)
                && report.Searched?
                && report.columnError == resolution.error
                && report.stopped == StopReason(parsed, resolution.index, ColumnSpecified(columnId))
      ensures report.Searched? ==>
                report.notice == if resultList != [] then None
                                 else if ColumnSpecified(columnId) then Some(NoMatchesInSpecifiedColumns)
                                 else Some(NoMatches)
      ensures IsSubsequence(resultList, if Contains(filename, "data/") && file.Some? then CsvParsing.ParsedRows(file.value, hasHeaders) else [])
    {
      resultList := [];
      if !Contains(filename, "data/") {
        report := InvalidFileLocation;
        return;
      }
      if file.None? {
        report := FileUnreadable;
        return;
      }
      var parsedData := CsvParsing.Parse(file.value, hasHeaders);
      var columnSpecified := columnId.Some? && columnId.value != "";
      var resolution := DetermineColumnIndex(parsedData, columnId, hasHeaders);
      var stopped;
      resultList, stopped := GetMatchingRows(parsedData, resolution.index, columnSpecified);
      var notice := None;
      if resultList == [] {
        if columnSpecified {
          notice := Some(NoMatchesInSpecifiedColumns);
        } else {
          notice := Some(NoMatches);
        }
      }
      report := Searched(resolution.error, stopped, notice);
    }
  }
}
