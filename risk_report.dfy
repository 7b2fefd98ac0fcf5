/**
 * The report page: two independent search boxes, one per table, each keeping the records
 * whose student code includes the search text or whose login includes it ignoring case.
 */
module RiskReport {
  import opened Wrappers
  import opened Text
  import Seqs
  import opened Sorting
  import opened CsvParser
  import FailedSemestersTable

  const CodeField := "CODIGO_ESTUDIANTE"
  const LoginField := "LOGIN"

  /** The outcome of testing one record: kept, dropped, or a TypeError on a missing field. */
  datatype Test = Keep | Drop | Missing(field: string)

  /**
   * `student.CODIGO_ESTUDIANTE.toString().includes(search) ||
   *  student.LOGIN.toLowerCase().includes(search.toLowerCase())`, evaluated left to right:
   * the login is only read when the code does not match.
   */
  function TestRecord(r: Record, search: string): (t: Test)
    ensures t.Missing? ==> t.field !in r && (t.field == CodeField || t.field == LoginField)
    ensures t == Keep ==> CodeField in r
  {
    if CodeField !in r then Missing(CodeField)
    else if Contains(r[CodeField], search) then Keep
    else if LoginField !in r then Missing(LoginField)
    else if Contains(Lower(r[LoginField]), Lower(search)) then Keep
    else Drop
  }

  /** The search condition itself, for a record that has the fields it reads. */
  predicate Matches(search: string, r: Record) {
    (CodeField in r && Contains(r[CodeField], search))
    || (LoginField in r && Contains(Lower(r[LoginField]), Lower(search)))
  }

  function MatchesSearch(search: string): Record -> bool {
    r => Matches(search, r)
  }

  /** The result of `filter`: the kept records, or the exception that aborted it. */
  datatype Outcome = Rows(rows: seq<Record>) | Throws(field: string)

  /** `records.filter(...)`: each record checked in turn; the first missing field aborts. */
  function Search(records: seq<Record>, search: string): (out: Outcome)
    ensures out.Rows? ==> |out.rows| <= |records|
    ensures out.Rows? ==> forall r :: r in out.rows ==> r in records && Matches(search, r)
    ensures out.Throws? ==> exists r :: r in records && TestRecord(r, search).Missing?
  {
    if records == [] then Rows([])
    else
      match TestRecord(records[0], search)
      case Missing(field) => Throws(field)
      case Keep =>
        (match Search(records[1..], search)
         case Rows(rest) => Rows([records[0]] + rest)
         case Throws(field) => Throws(field))
      case Drop => Search(records[1..], search)
  }

  /** No record makes the search throw. */
  ghost predicate Searchable(records: seq<Record>, search: string) {
    forall i :: 0 <= i < |records| ==> !TestRecord(records[i], search).Missing?
  }

  /**
   * When no record lacks a field the search reads, the search is the filter of the
   * records by the condition; otherwise it throws.
   */
  lemma {:induction false} SearchIsFilter(records: seq<Record>, search: string)
    ensures Searchable(records, search) ==>
      Search(records, search) == Rows(Seqs.Filter(MatchesSearch(search), records))
    ensures !Searchable(records, search) ==> Search(records, search).Throws?
  {
    if records != [] {
      SearchIsFilter(records[1..], search);
      assert Searchable(records, search) <==>
        !TestRecord(records[0], search).Missing? && Searchable(records[1..], search) by {
        if Searchable(records[1..], search) && !TestRecord(records[0], search).Missing? {
          forall i | 0 <= i < |records| ensures !TestRecord(records[i], search).Missing? {
            if i > 0 {
              assert records[i] == records[1..][i - 1];
            }
          }
        }
      }
    }
  }

  /**
   * The rows found are the records, in their original order, at increasing positions,
   * that are exactly the positions of the records the condition holds for.
   */
  lemma SearchKeepsOrder(records: seq<Record>, search: string)
    requires Searchable(records, search)
    ensures var idx := Seqs.KeptIndices(MatchesSearch(search), records);
      var rows := Search(records, search).rows;
      && |idx| == |rows|
      && (forall k :: 0 <= k < |idx| ==> idx[k] < |records| && rows[k] == records[idx[k]])
      && (forall k, l :: 0 <= k < l < |idx| ==> idx[k] < idx[l])
      && (forall j :: 0 <= j < |records| ==> (Matches(search, records[j]) <==> j in idx))
  {
    SearchIsFilter(records, search);
    Seqs.FilterIsSubsequence(MatchesSearch(search), records);
  }

  /** An empty search box shows every record that has a student code. */
  lemma EmptySearchKeepsAll(records: seq<Record>)
    requires forall i :: 0 <= i < |records| ==> CodeField in records[i]
    ensures Search(records, "") == Rows(records)
  {
    forall i | 0 <= i < |records| ensures TestRecord(records[i], "") == Keep {
      ContainsEmpty(records[i][CodeField]);
    }
    SearchIsFilter(records, "");
    Seqs.FilterKeepsAll(MatchesSearch(""), records);
  }

  /** Searching the rows a search found, with the same text, finds them all again. */
  lemma SearchIdempotent(records: seq<Record>, search: string)
    requires Searchable(records, search)
    ensures var rows := Search(records, search).rows;
      Search(rows, search) == Rows(rows)
  {
    SearchIsFilter(records, search);
    var rows := Search(records, search).rows;
    forall i | 0 <= i < |rows| ensures TestRecord(rows[i], search) == Keep {
      assert rows[i] in rows;
    }
    SearchIsFilter(rows, search);
    Seqs.FilterKeepsAll(MatchesSearch(search), rows);
  }

  /**
   * The login comparison ignores case: two search texts that differ only in the case of
   * their letters test a record the same way whenever its code contains neither.
   */
  lemma LoginIgnoresCase(r: Record, search: string, variant: string)
    requires |variant| == |search| && forall i :: 0 <= i < |search| ==> SameLetter(search[i], variant[i])
    requires CodeField in r && !Contains(r[CodeField], search) && !Contains(r[CodeField], variant)
    ensures TestRecord(r, search) == TestRecord(r, variant)
  {
    LowerEqualIgnoringCase(search, variant);
  }

  /** The code comparison does not ignore case: "AB" finds a code "ab" only by the login. */
  lemma CodeIsCaseSensitive()
    ensures TestRecord(map[CodeField := "ab", LoginField := "zz"], "AB") == Drop
    ensures TestRecord(map[CodeField := "ab", LoginField := "zz"], "ab") == Keep
  {
    assert !Contains("ab", "AB") by {
      assert "ab"[..2][0] != "AB"[0];
      assert !Contains("b", "AB");
    }
    assert !Contains(Lower("zz"), Lower("AB")) by {
      assert Lower("zz") == "zz";
      assert "zz"[..2][0] != "ab"[0];
      assert !Contains("z", "ab");
    }
    assert Contains("ab", "ab") by {
      assert StartsWith("ab", "ab");
    }
  }

  /** Records whose fields come from a header row with both columns never make a search throw. */
  lemma ParsedDataSearchable(csvText: string, search: string)
    requires CodeField in HeaderKeys(Headers(csvText)) && LoginField in HeaderKeys(Headers(csvText))
    ensures Searchable(ParseMultipleAttemptsCsv(csvText), search)
    ensures Searchable(ParseFailedSemestersCsv(csvText), search)
  {
    ParsedKeys(csvText);
    ParsersAgree(csvText);
    var records := ParseMultipleAttemptsCsv(csvText);
    forall i | 0 <= i < |records| ensures !TestRecord(records[i], search).Missing? {
      assert records[i] in records;
      assert CodeField in records[i] && LoginField in records[i];
    }
  }

  // ---------------------------------------------------------------------------------------
  // the page state

  datatype Tab = MultipleAttemptsTab | FailedSemestersTab

  /** The page's state: one search text per table and the tab shown. */
  datatype ReportState = ReportState(
    multipleAttemptsSearch: string,
    failedSemestersSearch: string,
    activeTab: Tab)

  const InitialState := ReportState("", "", MultipleAttemptsTab)

  /** The rows handed to the multiple-attempts table. */
  function MultipleAttemptsRows(state: ReportState, data: seq<Record>): Outcome {
    Search(data, state.multipleAttemptsSearch)
  }

  /** The rows handed to the failed-semesters table. */
  function FailedSemestersRows(state: ReportState, data: seq<Record>): Outcome {
    Search(data, state.failedSemestersSearch)
  }

  /**
   * The two searches are independent: typing in one box changes neither the other table's
   * rows nor the other box, and switching tabs changes no rows.
   */
  lemma SearchesIndependent(state: ReportState, text: string, tab: Tab, ma: seq<Record>, fs: seq<Record>)
    ensures var s := state.(multipleAttemptsSearch := text);
      FailedSemestersRows(s, fs) == FailedSemestersRows(state, fs)
      && s.failedSemestersSearch == state.failedSemestersSearch
    ensures var s := state.(failedSemestersSearch := text);
      MultipleAttemptsRows(s, ma) == MultipleAttemptsRows(state, ma)
      && s.multipleAttemptsSearch == state.multipleAttemptsSearch
    ensures var s := state.(activeTab := tab);
      MultipleAttemptsRows(s, ma) == MultipleAttemptsRows(state, ma)
      && FailedSemestersRows(s, fs) == FailedSemestersRows(state, fs)
  {
  }

  /** On first display both tables show every parsed record. */
  lemma InitialStateShowsAll(maText: string, fsText: string)
    requires CodeField in HeaderKeys(Headers(maText)) && CodeField in HeaderKeys(Headers(fsText))
    ensures MultipleAttemptsRows(InitialState, ParseMultipleAttemptsCsv(maText))
      == Rows(ParseMultipleAttemptsCsv(maText))
    ensures FailedSemestersRows(InitialState, ParseFailedSemestersCsv(fsText))
      == Rows(ParseFailedSemestersCsv(fsText))
  {
    ParsedKeys(maText);
    ParsedKeys(fsText);
    ParsersAgree(fsText);
    var ma := ParseMultipleAttemptsCsv(maText);
    var fs := ParseFailedSemestersCsv(fsText);
    forall i | 0 <= i < |ma| ensures CodeField in ma[i] {
      assert ma[i] in ma;
    }
    forall i | 0 <= i < |fs| ensures CodeField in fs[i] {
      assert fs[i] in fs;
    }
    EmptySearchKeepsAll(ma);
    EmptySearchKeepsAll(fs);
  }

  /**
   * From the file to the screen: for a file whose header row names the student code, the
   * login and the sort column, the failed-semesters table shows the rows the search found,
   * ordered by that column.
   */
  lemma FailedSemestersViewOrdered(csvText: string, search: string, config: SortConfig)
    requires CodeField in HeaderKeys(Headers(csvText)) && LoginField in HeaderKeys(Headers(csvText))
    requires config.key.Some? && config.key.value != ""
    requires config.key.value in HeaderKeys(Headers(csvText))
    ensures Search(ParseFailedSemestersCsv(csvText), search).Rows?
    ensures var rows := Search(ParseFailedSemestersCsv(csvText), search).rows;
      FailedSemestersTable.OrderedBy(
        InsertionSorted(rows, FailedSemestersTable.Comparator(config)), config.key.value, config.direction)
  {
    var records := ParseFailedSemestersCsv(csvText);
    ParsedDataSearchable(csvText, search);
    SearchIsFilter(records, search);
    ParsedKeys(csvText);
    ParsersAgree(csvText);
    var rows := Search(records, search).rows;
    assert FailedSemestersTable.AllHave(rows, config.key.value);
    FailedSemestersTable.SortOrders(config, rows);
  }
}
