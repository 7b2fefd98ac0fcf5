/**
 * The CSV reader of the dashboard: lib/csv-parser.ts.  Both exported parsers split the text
 * on line feeds, take the first line as the header row, skip the lines that are blank
 * after trimming, split each remaining line on commas (no quoting) and build one record
 * per line, pairing cleaned headers with cleaned values by position.
 */
module CsvParser {
  import opened Text
  import Seqs

  /** A parsed row: field name to field value.  A name not in the map reads as `undefined`. */
  type Record = map<string, string>

  /** A value that the reader can produce: no quote, comma or line feed, no outer white space. */
  ghost predicate IsCleanValue(v: string) {
    && '"' !in v && ',' !in v && '\n' !in v
    && (v == [] || (!IsWhitespace(v[0]) && !IsWhitespace(v[|v| - 1])))
  }

  /**
   * The value for column `i`: `values[index] ? clean(values[index]) : ""`.  A missing cell
   * (undefined) and an empty cell (falsy "") both give "".
   */
  function Cell(values: seq<string>, i: nat): (v: string)
    ensures i >= |values| ==> v == ""
    ensures i < |values| ==> v == Clean(values[i])
  {
    if i < |values| && values[i] != "" then Clean(values[i]) else ""
  }

  /** The set of field names a header row produces. */
  function HeaderKeys(headers: seq<string>): set<string> {
    set h | h in headers :: Clean(h)
  }

  /** The cleaned headers, in column order. */
  function CleanHeaders(headers: seq<string>): (keys: seq<string>)
    ensures |keys| == |headers|
    ensures forall i :: 0 <= i < |headers| ==> keys[i] == Clean(headers[i])
  {
    seq(|headers|, i requires 0 <= i < |headers| => Clean(headers[i]))
  }

  /** The cell under each header, in column order. */
  function RowCells(headers: seq<string>, values: seq<string>): (cells: seq<string>)
    ensures |cells| == |headers|
    ensures forall i :: 0 <= i < |headers| ==> cells[i] == Cell(values, i)
  {
    seq(|headers|, i requires 0 <= i < |headers| => Cell(values, i))
  }

  /**
   * The map built by assigning `cells[i]` to `keys[i]` for each column in turn, so a later
   * duplicate key overwrites an earlier one.
   */
  function Assign(keys: seq<string>, cells: seq<string>): Record
    requires |keys| == |cells|
  {
    if keys == [] then map[]
    else
      var n := |keys| - 1;
      Assign(keys[..n], cells[..n])[keys[n] := cells[n]]
  }

  /**
   * The record that `headers.forEach` builds: each cleaned header in turn is assigned the
   * cell at the same position.
   */
  function RecordOf(headers: seq<string>, values: seq<string>): Record {
    Assign(CleanHeaders(headers), RowCells(headers, values))
  }

  /** The forEach loop itself, assigning key by key into a fresh record. */
  method BuildRecord(headers: seq<string>, values: seq<string>) returns (student: Record)
    ensures student == RecordOf(headers, values)
    ensures student.Keys == HeaderKeys(headers)
  {
    ghost var keys := CleanHeaders(headers);
    ghost var cells := RowCells(headers, values);
    student := map[];
    for i := 0 to |headers|
      invariant student == Assign(keys[..i], cells[..i])
    {
      AssignStep(keys, cells, i);
      student := student[Clean(headers[i]) := Cell(values, i)];
    }
    assert keys[..|headers|] == keys && cells[..|headers|] == cells;
    RecordKeys(headers, values);
  }

  /** One more column assigned: the record so far, updated with that column's cell. */
  lemma AssignStep(keys: seq<string>, cells: seq<string>, i: nat)
    requires |keys| == |cells| && i < |keys|
    ensures Assign(keys[..i + 1], cells[..i + 1]) == Assign(keys[..i], cells[..i])[keys[i] := cells[i]]
  {
    assert keys[..i + 1][..i] == keys[..i] && cells[..i + 1][..i] == cells[..i];
  }

  /** The record of one data line. */
  function ParseLine(headers: seq<string>, line: string): Record {
    RecordOf(headers, Split(line, ','))
  }

  /** The `.filter((line) => line.trim() !== "")` test. */
  predicate IsDataLine(line: string) {
    Trim(line) != ""
  }

  /** The header row: the first line split on commas. */
  function Headers(csvText: string): seq<string> {
    Split(Split(csvText, '\n')[0], ',')
  }

  /** The data lines in order: every line after the first that is not blank. */
  function DataLines(csvText: string): seq<string> {
    Seqs.Filter(IsDataLine, Split(csvText, '\n')[1..])
  }

  /** parseMultipleAttemptsCSV */
  function ParseMultipleAttemptsCsv(csvText: string): (records: seq<Record>)
    ensures |records| == |DataLines(csvText)|
  {
    var lines := Split(csvText, '\n');
    var headers := Split(lines[0], ',');
    var dataLines := Seqs.Filter(IsDataLine, lines[1..]);
    seq(|dataLines|, i requires 0 <= i < |dataLines| => RecordOf(headers, Split(dataLines[i], ',')))
  }

  /** parseFailedSemestersCSV: written out a second time in the source, identically. */
  function ParseFailedSemestersCsv(csvText: string): (records: seq<Record>)
    ensures |records| == |DataLines(csvText)|
  {
    var lines := Split(csvText, '\n');
    var headers := Split(lines[0], ',');
    var dataLines := Seqs.Filter(IsDataLine, lines[1..]);
    seq(|dataLines|, i requires 0 <= i < |dataLines| => RecordOf(headers, Split(dataLines[i], ',')))
  }

  // ---------------------------------------------------------------------------------------
  // properties of one record

  /** The keys of an assigned map are the keys assigned. */
  lemma {:induction false} AssignKeys(keys: seq<string>, cells: seq<string>)
    requires |keys| == |cells|
    ensures Assign(keys, cells).Keys == set k | k in keys
  {
    if keys != [] {
      var n := |keys| - 1;
      AssignKeys(keys[..n], cells[..n]);
      assert keys == keys[..n] + [keys[n]];
    }
  }

  /** A key holds the cell of its last assignment. */
  lemma {:induction false} AssignLastWins(keys: seq<string>, cells: seq<string>, j: nat)
    requires |keys| == |cells| && j < |keys|
    requires forall k :: j < k < |keys| ==> keys[k] != keys[j]
    ensures keys[j] in Assign(keys, cells) && Assign(keys, cells)[keys[j]] == cells[j]
  {
    var n := |keys| - 1;
    if j < n {
      AssignLastWins(keys[..n], cells[..n], j);
    }
  }

  /** Every value of an assigned map is one of the cells. */
  lemma {:induction false} AssignValues(keys: seq<string>, cells: seq<string>)
    requires |keys| == |cells|
    ensures forall k :: k in Assign(keys, cells) ==> Assign(keys, cells)[k] in cells
  {
    if keys != [] {
      var n := |keys| - 1;
      AssignValues(keys[..n], cells[..n]);
      assert forall c :: c in cells[..n] ==> c in cells;
    }
  }

  /** Every record has exactly the cleaned headers as its field names. */
  lemma RecordKeys(headers: seq<string>, values: seq<string>)
    ensures RecordOf(headers, values).Keys == HeaderKeys(headers)
  {
    var keys := CleanHeaders(headers);
    AssignKeys(keys, RowCells(headers, values));
    forall h | h in headers ensures Clean(h) in keys {
      var i :| 0 <= i < |headers| && headers[i] == h;
      assert keys[i] == Clean(h);
    }
  }

  /**
   * The value of a field is the cell under the LAST header that cleans to its name: with
   * duplicate headers the later column wins.
   */
  lemma LastHeaderWins(headers: seq<string>, values: seq<string>, j: nat)
    requires j < |headers|
    requires forall k :: j < k < |headers| ==> Clean(headers[k]) != Clean(headers[j])
    ensures Clean(headers[j]) in RecordOf(headers, values)
    ensures RecordOf(headers, values)[Clean(headers[j])] == Cell(values, j)
  {
    AssignLastWins(CleanHeaders(headers), RowCells(headers, values), j);
  }

  /** A line with fewer cells than headers gives "" for every field past its last cell. */
  lemma MissingCellsAreEmpty(headers: seq<string>, values: seq<string>, j: nat)
    requires |values| <= j < |headers|
    requires forall k :: j < k < |headers| ==> Clean(headers[k]) != Clean(headers[j])
    ensures Clean(headers[j]) in RecordOf(headers, values)
    ensures RecordOf(headers, values)[Clean(headers[j])] == ""
  {
    LastHeaderWins(headers, values, j);
  }

  /** The record depends only on the cells under the headers. */
  lemma RecordOfSameCells(headers: seq<string>, v1: seq<string>, v2: seq<string>)
    requires forall i :: 0 <= i < |headers| ==> Cell(v1, i) == Cell(v2, i)
    ensures RecordOf(headers, v1) == RecordOf(headers, v2)
  {
    assert RowCells(headers, v1) == RowCells(headers, v2);
  }

  /** Cells beyond the number of headers are ignored. */
  lemma ExtraCellsIgnored(headers: seq<string>, values: seq<string>)
    requires |values| >= |headers|
    ensures RecordOf(headers, values) == RecordOf(headers, values[..|headers|])
  {
    RecordOfSameCells(headers, values, values[..|headers|]);
  }

  /** Every value of a record built from comma-free cells is clean. */
  lemma RecordValuesClean(headers: seq<string>, values: seq<string>)
    requires forall i :: 0 <= i < |values| ==> ',' !in values[i] && '\n' !in values[i]
    ensures forall k :: k in RecordOf(headers, values) ==> IsCleanValue(RecordOf(headers, values)[k])
  {
    var cells := RowCells(headers, values);
    AssignValues(CleanHeaders(headers), cells);
    forall i | 0 <= i < |cells| ensures IsCleanValue(cells[i]) {
      if i < |values| {
        CleanShape(values[i]);
        CleanAddsNothing(values[i], ',');
        CleanAddsNothing(values[i], '\n');
      }
    }
  }

  // ---------------------------------------------------------------------------------------
  // properties of the whole parse

  /** The two exported parsers are the same function. */
  lemma ParsersAgree(csvText: string)
    ensures ParseMultipleAttemptsCsv(csvText) == ParseFailedSemestersCsv(csvText)
  {
  }

  /**
   * One record per non-blank line after the header, in the order of the lines: record `k`
   * is the record of line `1 + idx[k]`, the positions `idx` increase, and they are exactly
   * the lines whose trim is not empty.
   */
  lemma RecordsFollowLines(csvText: string)
    ensures var lines := Split(csvText, '\n');
      var records := ParseMultipleAttemptsCsv(csvText);
      var idx := Seqs.KeptIndices(IsDataLine, lines[1..]);
      && |records| == |idx|
      && (forall k :: 0 <= k < |idx| ==>
            1 + idx[k] < |lines| && records[k] == ParseLine(Headers(csvText), lines[1 + idx[k]]))
      && (forall k, l :: 0 <= k < l < |idx| ==> idx[k] < idx[l])
      && (forall j :: 1 <= j < |lines| ==> (Trim(lines[j]) != "" <==> j - 1 in idx))
  {
    var lines := Split(csvText, '\n');
    var rest := lines[1..];
    Seqs.FilterIsSubsequence(IsDataLine, rest);
    forall j | 1 <= j < |lines| ensures Trim(lines[j]) != "" <==> j - 1 in Seqs.KeptIndices(IsDataLine, rest) {
      assert lines[j] == rest[j - 1];
    }
  }

  /** Every record of a parse has the cleaned header row as its field names. */
  lemma ParsedKeys(csvText: string)
    ensures forall r :: r in ParseMultipleAttemptsCsv(csvText) ==> r.Keys == HeaderKeys(Headers(csvText))
  {
    var records := ParseMultipleAttemptsCsv(csvText);
    forall r | r in records ensures r.Keys == HeaderKeys(Headers(csvText)) {
      var i :| 0 <= i < |records| && records[i] == r;
      RecordKeys(Headers(csvText), Split(DataLines(csvText)[i], ','));
    }
  }

  /**
   * No value of a parse holds a quote, a comma or a line feed or starts or ends with white
   * space: a quoted comma is split, not preserved.
   */
  lemma ParsedValuesClean(csvText: string)
    ensures forall r, k :: r in ParseMultipleAttemptsCsv(csvText) && k in r ==> IsCleanValue(r[k])
  {
    var records := ParseMultipleAttemptsCsv(csvText);
    var lines := Split(csvText, '\n');
    forall r, k | r in records && k in r ensures IsCleanValue(r[k]) {
      var i :| 0 <= i < |records| && records[i] == r;
      var line := DataLines(csvText)[i];
      assert line in lines;
      assert '\n' !in line by {
        SplitNoSeparator(csvText, '\n');
      }
      var cells := Split(line, ',');
      SplitNoSeparator(line, ',');
      assert forall m :: 0 <= m < |cells| ==> '\n' !in cells[m] by {
        JoinSplit(line, ',');
        forall m | 0 <= m < |cells| ensures '\n' !in cells[m] {
          JoinHasPieces(cells, ',', m);
        }
      }
      RecordValuesClean(Headers(csvText), cells);
    }
  }

  /** Every character of a piece appears in the joined text. */
  lemma {:induction false} JoinHasPieces(parts: seq<string>, sep: char, m: nat)
    requires m < |parts|
    ensures forall c :: c in parts[m] ==> c in Join(parts, sep)
  {
    if |parts| > 1 && m > 0 {
      JoinHasPieces(parts[1..], sep, m - 1);
    }
  }

  /** Empty text, and text that is only a header row, give no records. */
  lemma NoDataNoRecords(csvText: string)
    requires '\n' !in csvText
    ensures ParseMultipleAttemptsCsv(csvText) == []
  {
    SplitPiece(csvText, '\n');
  }

  /** Lines that are blank after trimming are skipped wherever they stand. */
  lemma BlankLinesOnly(csvText: string)
    requires forall j :: 1 <= j < |Split(csvText, '\n')| ==> Trim(Split(csvText, '\n')[j]) == ""
    ensures ParseMultipleAttemptsCsv(csvText) == []
  {
    var rest := Split(csvText, '\n')[1..];
    Seqs.FilterDropsAll(IsDataLine, rest);
  }

  /** A cell that is already clean is left as it is. */
  lemma CleanUnchanged(s: string)
    requires '"' !in s
    requires s == [] || (!IsWhitespace(s[0]) && !IsWhitespace(s[|s| - 1]))
    ensures Clean(s) == s
  {
    Seqs.FilterKeepsAll(c => c != '"', s);
  }

  /** A text made only of separators splits into empty pieces. */
  lemma {:induction false} SplitSeparatorsOnly(s: string, sep: char)
    requires forall i :: 0 <= i < |s| ==> s[i] == sep
    ensures forall m :: 0 <= m < |Split(s, sep)| ==> Split(s, sep)[m] == ""
  {
    if s != [] {
      SplitSeparatorsOnly(s[1..], sep);
    }
  }

  /**
   * A line made only of commas is not blank, so it is kept, and every field of its record
   * is "".
   */
  lemma CommaLineIsKept(headers: seq<string>, line: string)
    requires line != [] && forall i :: 0 <= i < |line| ==> line[i] == ','
    ensures IsDataLine(line)
    ensures forall k :: k in ParseLine(headers, line) ==> ParseLine(headers, line)[k] == ""
  {
    assert !IsWhitespace(line[0]);
    SplitSeparatorsOnly(line, ',');
    AllCellsEmpty(headers, Split(line, ','));
  }

  lemma AllCellsEmpty(headers: seq<string>, values: seq<string>)
    requires forall m :: 0 <= m < |values| ==> values[m] == ""
    ensures forall k :: k in RecordOf(headers, values) ==> RecordOf(headers, values)[k] == ""
  {
    AssignValues(CleanHeaders(headers), RowCells(headers, values));
  }

  /** Quotes do not protect a comma: the line `"1,2"` fills two fields, without its quotes. */
  lemma QuotedCommaIsSplit()
    ensures ParseLine(["A", "B"], "\"1,2\"") == map["A" := "1", "B" := "2"]
  {
    QuotedLinePieces();
    QuotedPiecesCells();
    RecordOfTwoColumns(["\"1", "2\""]);
  }

  /** The comma inside the quotes splits the line. */
  lemma QuotedLinePieces()
    ensures Split("\"1,2\"", ',') == ["\"1", "2\""]
  {
    var parts := ["\"1", "2\""];
    SplitJoin(parts, ',');
    assert Join(parts, ',') == "\"1,2\"";
  }

  /** Each piece loses its quote. */
  lemma QuotedPiecesCells()
    ensures Cell(["\"1", "2\""], 0) == "1" && Cell(["\"1", "2\""], 1) == "2"
  {
    assert StripQuotes("\"1") == "1" by {
      Seqs.FilterKeepsAll(c => c != '"', "1");
    }
    CleanUnchanged("1");
    assert StripQuotes("2\"") == "2" by {
      assert Seqs.Filter(c => c != '"', "\"") == [];
    }
    CleanUnchanged("2");
  }

  lemma RecordOfTwoColumns(parts: seq<string>)
    requires Cell(parts, 0) == "1" && Cell(parts, 1) == "2"
    ensures RecordOf(["A", "B"], parts) == map["A" := "1", "B" := "2"]
  {
    CleanUnchanged("A");
    CleanUnchanged("B");
    var keys := CleanHeaders(["A", "B"]);
    var cells := RowCells(["A", "B"], parts);
    assert keys == ["A", "B"] && cells == ["1", "2"];
    assert keys[..1] == ["A"] && cells[..1] == ["1"];
    assert Assign(["A"], ["1"]) == map["A" := "1"];
  }
}
