/** CSV unit extraction: the number test, the header heuristic, synthetic column
    names, row formatting and the dispatch on a file's extension. A CSV file is
    given as the rows of cells a CSV reader produces from it. */
module Extractors {
  import opened Results
  import opened Text

  type Row = seq<string>

  /** MAX_CSV_HEADER_LENGTH: the longest stripped cell a header row may have. */
  const MaxCsvHeaderLength: int := 50

  /** The default number of rows sampled for header detection. */
  const CsvSampleRows: int := 20

  // ---------------------------------------------------------------------------
  // _is_number

  /** _is_number: removing the first '.', or else the first ',', leaves a
      non-empty string of digits. */
  predicate IsNumber(s: string)
  {
    IsDigitString(RemoveFirst(s, '.')) || IsDigitString(RemoveFirst(s, ','))
  }

  /** A digit string, possibly with one '.' or ',' placed somewhere in it. */
  predicate NumberShape(s: string)
  {
    || IsDigitString(s)
    || exists i | 0 <= i < |s| :: (s[i] == '.' || s[i] == ',') && IsDigitString(s[..i] + s[i + 1..])
  }

  lemma IsNumberIff(s: string)
    ensures IsNumber(s) <==> NumberShape(s)
  {
    if IsNumber(s) {
      var c := if IsDigitString(RemoveFirst(s, '.')) then '.' else ',';
      assert IsDigitString(RemoveFirst(s, c));
      if c in s {
        RemoveFirstSplit(s, c);
        var i :| 0 <= i < |s| && s[i] == c && c !in s[..i] && RemoveFirst(s, c) == s[..i] + s[i + 1..];
        assert (s[i] == '.' || s[i] == ',') && IsDigitString(s[..i] + s[i + 1..]);
      }
    }
    if NumberShape(s) {
      if IsDigitString(s) {
        assert forall k | 0 <= k < |s| :: s[k] != '.';
        assert '.' !in s;
      } else {
        var i :| 0 <= i < |s| && (s[i] == '.' || s[i] == ',') && IsDigitString(s[..i] + s[i + 1..]);
        var t := s[..i] + s[i + 1..];
        assert forall k | 0 <= k < i :: s[..i][k] == t[k];
        assert forall k | 0 <= k < i :: s[..i][k] != s[i];
        assert s[i] !in s[..i];
        RemoveFirstAt(s, s[i], i);
      }
    }
  }

  lemma IsNumberDecimalExample()
    ensures IsNumber("3.5")
  {
    assert RemoveFirst("3.5", '.') == "35";
  }

  lemma IsNumberThousandsExample()
    ensures IsNumber("1,000")
  {
    assert '.' !in "1,000";
    assert RemoveFirst(",000", ',') == "000";
    assert RemoveFirst("1,000", ',') == ['1'] + "000" == "1000";
  }

  lemma NotNumberExamples()
    ensures !IsNumber("") && !IsNumber("-1")
  {
    assert RemoveFirst("-1", '.') == "-1";
    assert RemoveFirst("-1", ',') == "-1";
    assert !IsDigit('-');
  }

  lemma {:induction false} RemoveFirstKeeps(s: string, c: char, d: char)
    requires c != d && d in s
    ensures d in RemoveFirst(s, c)
  {
    if s[0] != d {
      assert d in s[1..];
      if s[0] != c {
        RemoveFirstKeeps(s[1..], c, d);
      }
    }
  }

  /** Only one separator is removed, so a string with both a '.' and a ',' is
      not a number. */
  lemma NotNumberBothSeparators(s: string)
    requires '.' in s && ',' in s
    ensures !IsNumber(s)
  {
    RemoveFirstKeeps(s, '.', ',');
    RemoveFirstKeeps(s, ',', '.');
  }

  /** A number holds only digits, '.' and ','. */
  lemma IsNumberChars(s: string)
    requires IsNumber(s)
    ensures forall i :: 0 <= i < |s| ==> IsDigit(s[i]) || s[i] == '.' || s[i] == ','
  {
    IsNumberIff(s);
    if !IsDigitString(s) {
      var i :| 0 <= i < |s| && (s[i] == '.' || s[i] == ',') && IsDigitString(s[..i] + s[i + 1..]);
      var t := s[..i] + s[i + 1..];
      forall k | 0 <= k < |s|
        ensures IsDigit(s[k]) || s[k] == '.' || s[k] == ','
      {
        if k < i {
          assert s[k] == t[k];
        } else if k > i {
          assert s[k] == t[k - 1];
        }
      }
    }
  }

  lemma NotNumberMixedExample()
    ensures !IsNumber("1,000.5")
  {
    var s := "1,000.5";
    assert s[1] == ',' && s[5] == '.';
    NotNumberBothSeparators(s);
  }

  // ---------------------------------------------------------------------------
  // read_csv_sample_rows and detect_csv_has_header

  /** read_csv_sample_rows: the first maxRows rows; a negative bound never stops the loop. */
  function SampleRows(rows: seq<Row>, maxRows: int): (sample: seq<Row>)
    ensures |sample| <= |rows| && sample == rows[..|sample|]
    ensures 0 <= maxRows ==> |sample| == if maxRows < |rows| then maxRows else |rows|
    ensures maxRows < 0 ==> sample == rows
  {
    if 0 <= maxRows < |rows| then rows[..maxRows] else rows
  }

  /** A header cell that is blank or longer than the limit once stripped. */
  predicate BadHeaderCell(cell: string)
  {
    |Strip(cell)| > MaxCsvHeaderLength || |Strip(cell)| == 0
  }

  /** Some column, up to the shorter row, has a numeric value under a non-numeric header. */
  predicate NumericUnderText(first: Row, second: Row)
  {
    exists i | 0 <= i < |first| && i < |second| :: IsNumber(second[i]) && !IsNumber(first[i])
  }

  /** detect_csv_has_header, with its rules in their order. */
  function DetectCsvHasHeader(sample: seq<Row>): (r: bool)
    ensures |sample| < 2 ==> !r
    ensures |sample| >= 2 && !Distinct(sample[0]) ==> !r
    ensures |sample| >= 2 && (exists c | c in sample[0] :: BadHeaderCell(c)) ==> !r
    ensures |sample| >= 2 && NumericUnderText(sample[0], sample[1]) ==>
      (r <==> Distinct(sample[0]) && forall c | c in sample[0] :: !BadHeaderCell(c))
  {
    if |sample| < 2 then false
    else
      var first := sample[0];
      var second := sample[1];
      DistinctIffCard(first);
      if |Elements(first)| != |first| then false
      else if exists c | c in first :: BadHeaderCell(c) then false
      else if NumericUnderText(first, second) then true
      else if first == second then false
      else true
  }

  /** The numeric-column rule never changes the outcome: a numeric value under
      a non-numeric header already makes the two rows differ, so a header is
      detected exactly when the first row is clean and the two rows differ. */
  lemma DetectCsvHasHeaderIff(sample: seq<Row>)
    ensures DetectCsvHasHeader(sample) <==>
      && |sample| >= 2
      && Distinct(sample[0])
      && (forall c | c in sample[0] :: !BadHeaderCell(c))
      && sample[0] != sample[1]
  {
    if |sample| >= 2 {
      DistinctIffCard(sample[0]);
    }
    if |sample| >= 2 && NumericUnderText(sample[0], sample[1]) {
      var i :| 0 <= i < |sample[0]| && i < |sample[1]| && IsNumber(sample[1][i]) && !IsNumber(sample[0][i]);
      assert sample[0][i] != sample[1][i];
    }
  }

  /** A sample whose first two rows are equal has no header. */
  lemma IdenticalRowsNoHeader(sample: seq<Row>)
    requires |sample| >= 2 && sample[0] == sample[1]
    ensures !DetectCsvHasHeader(sample)
  {
    DetectCsvHasHeaderIff(sample);
  }

  // ---------------------------------------------------------------------------
  // parse_csv_rows

  /** The length of the longest row; 0 for no rows. */
  function LongestRow(rows: seq<Row>): (n: nat)
    ensures forall k :: 0 <= k < |rows| ==> |rows[k]| <= n
    ensures rows != [] ==> exists k :: 0 <= k < |rows| && |rows[k]| == n
  {
    if rows == [] then 0
    else
      var m := LongestRow(rows[..|rows| - 1]);
      var last := |rows[|rows| - 1]|;
      assert forall k :: 0 <= k < |rows| - 1 ==> rows[k] == rows[..|rows| - 1][k];
      if last > m then last else m
  }

  /** The column name col{i}, numbered from 1. */
  function ColumnName(i: nat): string
  {
    "col" + NatToString(i)
  }

  /** col1 .. coln. */
  function SyntheticHeaders(n: nat): (h: seq<string>)
    ensures |h| == n
  {
    seq(n, i requires 0 <= i < n => ColumnName(i + 1))
  }

  lemma ColumnNameInjective(a: nat, b: nat)
    ensures ColumnName(a) == ColumnName(b) ==> a == b
  {
    if ColumnName(a) == ColumnName(b) {
      assert ColumnName(a)[3..] == NatToString(a);
      assert ColumnName(b)[3..] == NatToString(b);
      IntToStringInjective(a, b);
    }
  }

  /** Synthetic column names never repeat. */
  lemma SyntheticHeadersDistinct(n: nat)
    ensures Distinct(SyntheticHeaders(n))
  {
    var h := SyntheticHeaders(n);
    forall i, j | 0 <= i < j < n
      ensures h[i] != h[j]
    {
      ColumnNameInjective(i + 1, j + 1);
    }
  }

  /** What parse_csv_rows returns: with a header, the first row and the rest;
      without, col1..colN for the longest row and every row; ([], []) when no
      data row is left. */
  function ParsedCsv(rows: seq<Row>, hasHeader: bool): (seq<string>, seq<Row>)
  {
    if rows == [] then ([], [])
    else if hasHeader then (if |rows| == 1 then ([], []) else (rows[0], rows[1..]))
    else (SyntheticHeaders(LongestRow(rows)), rows)
  }

  /** parse_csv_rows: the header row or the first data row, then a loop over the
      remaining rows, then a loop that names the columns of a header-less file. */
  method ParseCsvRows(rows: seq<Row>, hasHeader: bool) returns (headers: seq<string>, values: seq<Row>)
    ensures (headers, values) == ParsedCsv(rows, hasHeader)
  {
    headers := [];
    values := [];
    if rows == [] {
      return [], [];
    }
    if hasHeader {
      headers := rows[0];
    } else {
      values := values + [rows[0]];
    }
    for k := 1 to |rows|
      invariant values == if hasHeader then rows[1..k] else rows[..k]
    {
      values := values + [rows[k]];
    }
    if values == [] {
      return [], [];
    }
    if !hasHeader {
      var n := LongestRow(values);
      for i := 1 to n + 1
        invariant headers == SyntheticHeaders(i - 1)
      {
        headers := headers + [ColumnName(i)];
      }
    }
    assert values == if hasHeader then rows[1..] else rows;
  }

  /** Headers never come without data; a header-less file gets distinct column
      names and every row fits under them. */
  lemma ParsedCsvShape(rows: seq<Row>, hasHeader: bool)
    ensures var (h, v) := ParsedCsv(rows, hasHeader);
      && (v == [] ==> h == [])
      && (hasHeader && |rows| >= 2 ==> h == rows[0] && v == rows[1..])
      && (!hasHeader ==> v == rows && Distinct(h) && forall k :: 0 <= k < |v| ==> |v[k]| <= |h|)
  {
    if !hasHeader && rows != [] {
      SyntheticHeadersDistinct(LongestRow(rows));
    }
  }

  // ---------------------------------------------------------------------------
  // format_csv_row

  function Max(a: int, b: int): int { if a < b then b else a }

  /** Column i of a row: its stripped header and stripped value; a missing value
      shows as '' and a missing header as col{i+1}. */
  function CsvPart(headers: Row, row: Row, i: nat): string
    requires i < |headers| || i < |row|
  {
    if i >= |row| then Strip(headers[i]) + ": ''"
    else if i >= |headers| then ColumnName(i + 1) + ": " + Strip(row[i])
    else Strip(headers[i]) + ": " + Strip(row[i])
  }

  /** One part per column of the longer of the header row and the row. */
  function CsvParts(headers: Row, row: Row): (parts: seq<string>)
    ensures |parts| == Max(|headers|, |row|)
  {
    seq(Max(|headers|, |row|), i requires 0 <= i < Max(|headers|, |row|) => CsvPart(headers, row, i))
  }

  /** The unit text of one row: its parts joined with " | ". */
  function FormattedRow(headers: Row, row: Row): string
  {
    Join(CsvParts(headers, row), " | ")
  }

  /** format_csv_row: the zip_longest loop that builds the parts, then the join. */
  method FormatCsvRow(headers: Row, row: Row) returns (text: string)
    ensures text == FormattedRow(headers, row)
  {
    var parts: seq<string> := [];
    var n := Max(|headers|, |row|);
    ghost var all := CsvParts(headers, row);
    for i := 0 to n
      invariant parts == all[..i]
    {
      var part := CsvPart(headers, row, i);
      assert part == all[i];
      PrefixSnoc(all, i);
      parts := parts + [part];
    }
    assert parts == all;
    text := Join(parts, " | ");
  }

  lemma StripColumnName(i: nat)
    ensures Strip(ColumnName(i)) == ColumnName(i)
  {
    var s := ColumnName(i);
    var d := NatToString(i);
    assert s[|s| - 1] == d[|d| - 1];
    assert IsDigit(d[|d| - 1]);
    StripIdentity(s);
  }

  lemma SyntheticPartAgrees(row: Row, i: nat)
    requires i < |row|
    ensures CsvPart(SyntheticHeaders(|row|), row, i) == CsvPart([], row, i)
  {
    var h := SyntheticHeaders(|row|);
    assert h[i] == ColumnName(i + 1);
    StripColumnName(i + 1);
  }

  /** A row formatted under synthetic column names reads exactly as the same
      row formatted with no headers at all, where every column falls back to
      its col{i+1} name. */
  lemma SyntheticHeadersAgreeWithFallback(row: Row)
    ensures FormattedRow(SyntheticHeaders(|row|), row) == FormattedRow([], row)
  {
    var h := SyntheticHeaders(|row|);
    var a := CsvParts(h, row);
    var b := CsvParts([], row);
    assert |a| == |row| == |b|;
    forall i | 0 <= i < |row|
      ensures a[i] == b[i]
    {
      SyntheticPartAgrees(row, i);
    }
    assert a == b;
  }

  // ---------------------------------------------------------------------------
  // extract_csv_units and extract_units_by_extension

  /** extract_csv_units: one unit per data row, in order, under the headers the
      sampled rows decide on. */
  function ExtractCsvUnits(rows: seq<Row>): (units: seq<string>)
    ensures var hasHeader := DetectCsvHasHeader(SampleRows(rows, CsvSampleRows));
      |units| == if hasHeader then (if |rows| >= 2 then |rows| - 1 else 0) else |rows|
  {
    var hasHeader := DetectCsvHasHeader(SampleRows(rows, CsvSampleRows));
    var (headers, values) := ParsedCsv(rows, hasHeader);
    seq(|values|, k requires 0 <= k < |values| => FormattedRow(headers, values[k]))
  }

  /** The data rows extract_csv_units formats, with the headers it uses. */
  lemma ExtractCsvUnitsRows(rows: seq<Row>)
    ensures var hasHeader := DetectCsvHasHeader(SampleRows(rows, CsvSampleRows));
      var (headers, values) := ParsedCsv(rows, hasHeader);
      var units := ExtractCsvUnits(rows);
      && |units| == |values|
      && (forall k :: 0 <= k < |units| ==> units[k] == FormattedRow(headers, values[k]))
      && values == (if hasHeader then (if |rows| >= 2 then rows[1..] else []) else rows)
  {
  }

  /** The extensions read as plain text. */
  const PlainTextExtensions: set<string> := {".txt", ".log", ".py", ".md"}

  /** extract_units_by_extension on the lower-cased extension. The plain-text,
      JSON and XML extractors have no body and give None; the case_sensitive
      flag is not consulted. */
  function ExtractUnitsByExtension(rows: seq<Row>, ext: string, caseSensitive: bool): (r: Option<seq<string>>)
    ensures LowerString(ext) == ".csv" ==> r == Some(ExtractCsvUnits(rows))
    ensures LowerString(ext) !in PlainTextExtensions + {".csv", ".json", ".xml"} ==> r == Some([])
    ensures r.None? <==> LowerString(ext) in PlainTextExtensions + {".json", ".xml"}
  {
    var e := LowerString(ext);
    if e in PlainTextExtensions then None
    else if e == ".csv" then Some(ExtractCsvUnits(rows))
    else if e == ".json" then None
    else if e == ".xml" then None
    else Some([])
  }

  /** The dispatch ignores the case of the extension and the case flag. */
  lemma ExtractUnitsByExtensionCaseInsensitive(rows: seq<Row>, ext: string, a: bool, b: bool)
    ensures ExtractUnitsByExtension(rows, ext, a) == ExtractUnitsByExtension(rows, LowerString(ext), b)
  {
    LowerStringIdempotent(ext);
  }

  /** The CSV example: a header row over named values. */
  lemma CsvHeaderExample()
    ensures DetectCsvHasHeader([["name", "age"], ["Alice", "30"], ["Bob", "25"]])
  {
    var sample := [["name", "age"], ["Alice", "30"], ["Bob", "25"]];
    assert sample[0][0] != sample[0][1];
    assert sample[0][0] != sample[1][0];
    StripIdentity("name");
    StripIdentity("age");
    assert forall c | c in sample[0] :: c == "name" || c == "age";
    DetectCsvHasHeaderIff(sample);
  }

  /** A two-column row: two parts around one separator. */
  lemma FormatTwoColumns(h1: string, h2: string, v1: string, v2: string)
    ensures FormattedRow([h1, h2], [v1, v2])
         == (Strip(h1) + ": " + Strip(v1)) + " | " + (Strip(h2) + ": " + Strip(v2))
  {
    var p0 := CsvPart([h1, h2], [v1, v2], 0);
    var p1 := CsvPart([h1, h2], [v1, v2], 1);
    assert CsvParts([h1, h2], [v1, v2]) == [p0, p1];
    JoinTwo(p0, p1, " | ");
  }

  lemma CsvFormatExample()
    ensures FormattedRow(["name", "age"], ["Alice", "30"]) == "name: Alice | age: 30"
  {
    StripIdentity("name");
    StripIdentity("age");
    StripIdentity("Alice");
    StripIdentity("30");
    FormatTwoColumns("name", "age", "Alice", "30");
  }
}
