# Student risk report — a verified model of its data logic

The student risk report is a small Next.js dashboard. It shows students at academic risk in
two tables:
- students who have taken a blocking course four or more times ("multiple attempts");
- students with consecutive failed semesters.

Its data logic is a short pipeline:
1. Two CSV files are read into records (maps from column name to string).
2. Each table keeps the records whose student code contains a search text, or whose login
   contains it ignoring case.
3. Each table sorts a copy of its records by a clicked column. Clicking the same column
   again switches ascending to descending.
4. The failed-semesters table also formats the most recent failed period as `year-semester`.
   It shows the failed-semester count on a red badge from 3 upwards and an amber one below.
5. An export helper names the downloaded spreadsheet `<name>.xlsx`.

This project models that logic in Dafny and proves what it does:

- `csv_parser.dfy` models the reader. The record of a line is built by a loop method,
  `BuildRecord`, that assigns field by field. The properties proved are:
  - the record count and the order of the records;
  - the field names of every record;
  - last-duplicate-header-wins;
  - missing and extra cells;
  - the shape of every value. Quotes do not protect commas.
- `sorting.dfy` holds what both tables share:
  - the `sortConfig` state and its `requestSort` transition, and the header icon;
  - the string comparison of the comparators;
  - the sort, an insertion sort in place on an array, proved to be a sorted permutation
    that keeps tied records in their input order (stable).
- `multiple_attempts_table.dfy` and `failed_semesters_table.dfy` model one component each.
  Each is a class with the `sortConfig` field, `RequestSort`, `SortedData` (which sorts a
  fresh array copy) and `Total`. The two comparators differ on missing fields. The failed-semesters one
  can fail to be an order when only some records have the field: a record without it ties
  with two records whose values differ.
  The second file also holds `formatPeriod` and the badge rule.
- `js_number.dfy` models `Number.parseInt`, which the badge rule uses.
- `risk_report.dfy` models:
  - the search filter, which throws on a missing field;
  - the page state with its two independent search texts;
  - a lemma that follows a file from parsing through search to an ordered table.
- `csv_downloader.dfy` models the export file-name rule.
- `text.dfy`, `seqs.dfy` and `wrappers.dfy` define the JavaScript string and array
  operations the rest relies on, such as `split`, `trim`, `includes` and `filter`.

Where the code and its own comments or type annotations disagree, the model follows the
code:
- The tables' `StudentData` interfaces declare some fields as numbers or nullable. The
  reader only ever produces strings, so every comparison is a string comparison: `"10"`
  sorts before `"2"`.
- The failed-semesters comparator tests only for `null`. A missing field (`undefined`)
  still compares equal to everything, because both `<` and `>` with `undefined` are false.

## Model

| member | source | states |
|---|---|---|
| Text.JoinSplit | lib/csv-parser.ts:3 | splitting the text on line feeds loses nothing: joining the pieces gives the text back |
| Text.SplitJoin | lib/csv-parser.ts:13 | splitting finds exactly the comma-free cells that were joined |
| Text.Split | lib/csv-parser.ts:6 | `split` always yields at least one piece |
| Text.SplitNoSeparator | lib/csv-parser.ts:13 | no piece of a split contains the separator |
| Text.TrimStartShape | lib/csv-parser.ts:11 | trimming the start removes only white space, and what is left starts with a non-white character or is empty |
| Text.TrimShape | lib/csv-parser.ts:11 | the trimmed text has no white space at either end, and it is empty exactly when the line is all white space |
| Text.CleanShape | lib/csv-parser.ts:19 | a cleaned header or value holds no `"` and has no white space at either end |
| Text.CleanAddsNothing | lib/csv-parser.ts:21 | cleaning never introduces a character that was not in the cell |
| Text.ContainsAt | components/RiskReport.tsx:23 | `includes` holds exactly when the search text occurs at some position |
| Text.Lower | components/RiskReport.tsx:24 | lower-casing keeps the length, leaves no upper-case letter, keeps every other character, and keeps each character's letter |
| Text.LowerIdempotent | components/RiskReport.tsx:24 | lower-casing twice is lower-casing once |
| Text.LowerEqualIgnoringCase | components/RiskReport.tsx:24 | two texts lower-case alike exactly when they have the same length and agree letter by letter up to case |
| Text.LessTotal | components/MultipleAttemptsTable.tsx:41-44 | of two different strings one is always `<` the other |
| Text.LessTransitive | components/MultipleAttemptsTable.tsx:41-44 | string `<` is transitive |
| Text.LessIsNotNumeric | components/MultipleAttemptsTable.tsx:41 | string order is not numeric order: "10" < "2" |
| Seqs.Filter | lib/csv-parser.ts:11 | `filter` keeps only elements that pass, drawn from the input, and never more of them |
| Seqs.FilterIsSubsequence | lib/csv-parser.ts:9-12 | the filter result is the input at strictly increasing positions, and those positions are exactly the elements that pass |
| Seqs.FilterConcat | components/MultipleAttemptsTable.tsx:35 | filtering a concatenation filters each part |
| Seqs.FilterIdempotent | components/RiskReport.tsx:21-25 | filtering twice with the same test is filtering once |
| CsvParser.Cell | lib/csv-parser.ts:21 | a cell past the end of the line gives "", any other gives its cleaned text |
| CsvParser.AssignKeys | lib/csv-parser.ts:17-23 | assigning column by column gives a record whose keys are exactly the keys assigned |
| CsvParser.AssignLastWins | lib/csv-parser.ts:17-23 | a key takes the cell of its last assignment |
| CsvParser.AssignValues | lib/csv-parser.ts:17-23 | every value of the record is one of the cells assigned |
| CsvParser.BuildRecord | lib/csv-parser.ts:14-23 | the forEach loop builds the record of the header row and line, whose keys are exactly the cleaned headers |
| CsvParser.RecordKeys | lib/csv-parser.ts:17-22 | every record's key set is the set of cleaned headers |
| CsvParser.LastHeaderWins | lib/csv-parser.ts:17-22 | with duplicate cleaned headers a field holds the cell of the last such column |
| CsvParser.MissingCellsAreEmpty | lib/csv-parser.ts:21 | a line with fewer cells than headers gives "" for the fields past its last cell |
| CsvParser.ExtraCellsIgnored | lib/csv-parser.ts:17-21 | cells beyond the number of headers do not affect the record |
| CsvParser.RecordValuesClean | lib/csv-parser.ts:13-22 | no value of a record holds a quote, comma or line feed or has outer white space |
| CsvParser.ParseMultipleAttemptsCsv | lib/csv-parser.ts:1-27 | one record per non-blank line after the header |
| CsvParser.ParseFailedSemestersCsv | lib/csv-parser.ts:29-55 | one record per non-blank line after the header |
| CsvParser.ParsersAgree | lib/csv-parser.ts:1-55 | the two exported parsers return the same records for every text |
| CsvParser.RecordsFollowLines | lib/csv-parser.ts:9-12 | record k is the record of the k-th non-blank line after the header: same order, and exactly the lines whose trim is non-empty |
| CsvParser.ParsedKeys | lib/csv-parser.ts:17-22 | every parsed record has exactly the cleaned header row as its field names |
| CsvParser.ParsedValuesClean | lib/csv-parser.ts:13-22 | no parsed value holds a quote, comma or line feed or has outer white space |
| CsvParser.NoDataNoRecords | lib/csv-parser.ts:3-11 | empty text, or only a header line, gives no records |
| CsvParser.BlankLinesOnly | lib/csv-parser.ts:11 | a file whose lines after the header are all blank gives no records |
| CsvParser.CommaLineIsKept | lib/csv-parser.ts:11-21 | a line of commas only is not blank, so it is kept, and every field of its record is "" |
| CsvParser.QuotedCommaIsSplit | lib/csv-parser.ts:13-21 | quotes do not protect a comma: `"1,2"` fills two fields with 1 and 2 |
| CsvParser.CleanUnchanged | lib/csv-parser.ts:19-21 | a cell that is already clean is kept as it is |
| Sorting.NextConfig | components/MultipleAttemptsTable.tsx:50-56 | requestSort sets the clicked key; it is descending exactly when that key was already sorted ascending |
| Sorting.RequestTwiceRestores | components/MultipleAttemptsTable.tsx:50-56 | two clicks on the sorted-ascending column return to ascending |
| Sorting.RequestAlternates | components/MultipleAttemptsTable.tsx:50-56 | after the first click, clicks on a column alternate its direction |
| Sorting.SortIcon | components/MultipleAttemptsTable.tsx:58-66 | an icon is shown exactly on the sorted column, pointing up exactly when ascending |
| Sorting.IconFollowsRequest | components/MultipleAttemptsTable.tsx:50-66 | after a click exactly the clicked column shows an icon |
| Sorting.CompareValues | components/MultipleAttemptsTable.tsx:41-47 | the comparison is -1, 0 or 1; 0 exactly for equal strings; negative exactly when the first goes first in the direction |
| Sorting.DescendingNegates | components/MultipleAttemptsTable.tsx:41-46 | the descending comparison is the negation of the ascending one |
| Sorting.CompareValuesTransitive | components/MultipleAttemptsTable.tsx:41-47 | the value comparison is transitive in both directions |
| Sorting.LessTrichotomy | components/MultipleAttemptsTable.tsx:41-47 | of two strings exactly one is smaller, or they are equal |
| Sorting.InsertPermutes | components/MultipleAttemptsTable.tsx:35 | inserting one record adds exactly that record |
| Sorting.SortPermutes | components/MultipleAttemptsTable.tsx:35 | the sort returns a permutation of its input, of the same length |
| Sorting.InsertSorts | components/MultipleAttemptsTable.tsx:35 | inserting into a sorted sequence keeps it sorted under a consistent comparator |
| Sorting.SortSorts | components/MultipleAttemptsTable.tsx:35 | under a comparator that is total and transitive on the records, the result is sorted |
| Sorting.SortKeepsSorted | components/MultipleAttemptsTable.tsx:35-36 | an already sorted input, such as any input under the constant-0 comparator, comes back unchanged |
| Sorting.InsertKeepsSelected | components/MultipleAttemptsTable.tsx:35 | inserting a record keeps the order of the records of any kind, and puts the new one after them when none of them is greater |
| Sorting.SortStable | components/MultipleAttemptsTable.tsx:35 | the sort is stable: under a consistent comparator, the records tied with any record come out in their input order |
| Sorting.InsertAt | components/MultipleAttemptsTable.tsx:35 | insertion puts the record after the last one not greater than it |
| Sorting.InsertInPlace | components/MultipleAttemptsTable.tsx:35 | shifting an array prefix in place inserts one element and leaves the rest of the array alone |
| Sorting.SortInPlace | components/MultipleAttemptsTable.tsx:35 | the in-place sort of the copied array leaves it holding the stable insertion-sorted sequence |
| MultipleAttemptsTable.NoKeyComparesEqual | components/MultipleAttemptsTable.tsx:36 | with no key (null or "") every order counts as sorted |
| MultipleAttemptsTable.CompareConsistent | components/MultipleAttemptsTable.tsx:35-48 | with missing values read as "", the comparator is a total preorder on any records |
| MultipleAttemptsTable.SortKeepsOrder | components/MultipleAttemptsTable.tsx:35-36 | with no key the sort leaves the records in place |
| MultipleAttemptsTable.SortOrders | components/MultipleAttemptsTable.tsx:35-48 | with a key the sorted rows are ordered by the field's string values in the chosen direction, missing values read as "" |
| MultipleAttemptsTable.SortKeepsTies | components/MultipleAttemptsTable.tsx:35-48 | rows that tie on the sort column keep their order in the data |
| MultipleAttemptsTable.SortsAsStrings | components/MultipleAttemptsTable.tsx:38-47 | a code "10" sorts before "2" ascending |
| MultipleAttemptsTable.Table.constructor | components/MultipleAttemptsTable.tsx:27-33 | a table starts with no sort key, ascending |
| MultipleAttemptsTable.Table.RequestSort | components/MultipleAttemptsTable.tsx:50-56 | the sort state moves by the requestSort transition |
| MultipleAttemptsTable.Table.SortedData | components/MultipleAttemptsTable.tsx:35-48 | the rows are a permutation of the data; with no key they are the data unchanged; otherwise they are non-decreasing (ascending) or non-increasing (descending) in string order of the field, with missing values read as "" |
| MultipleAttemptsTable.Table.Total | components/MultipleAttemptsTable.tsx:167 | the total shown is the number of records given |
| JsNumber.LeadingDigits | components/FailedSemestersTable.tsx:112 | parseInt reads only digits of the base |
| JsNumber.LeadingDigitsLongest | components/FailedSemestersTable.tsx:112 | the digits read are a prefix of the text and the longest one: the next character is not a digit |
| JsNumber.Decimal | components/FailedSemestersTable.tsx:112 | the decimal notation of a count is a non-empty string of digits |
| JsNumber.DecimalValue | components/FailedSemestersTable.tsx:112 | reading the decimal notation of n gives n |
| JsNumber.ParseIntDecimal | components/FailedSemestersTable.tsx:112 | parseInt of white space, an optional sign, a decimal number and any tail that does not start with a digit is that signed number; only a zero followed by x or X is read otherwise (as hexadecimal) |
| JsNumber.ParseIntNoDigits | components/FailedSemestersTable.tsx:112 | parseInt of text with no digit after the white space and an optional sign (such as "-" or "+x") is NaN |
| JsNumber.ParseIntUndefined | components/FailedSemestersTable.tsx:112 | parseInt of a missing value (read as "undefined") is NaN |
| JsNumber.ParseIntHex | components/FailedSemestersTable.tsx:112 | a 0x prefix selects base 16: "0x1A" is 26 |
| FailedSemestersTable.AllCompareEqual | components/FailedSemestersTable.tsx:26-33 | with no key, or a key no record has, every order counts as sorted |
| FailedSemestersTable.CompareConsistent | components/FailedSemestersTable.tsx:25-41 | when every record has the key, the comparator is a total preorder on the records |
| FailedSemestersTable.MissingFieldBreaksOrder | components/FailedSemestersTable.tsx:31-40 | the comparator can fail to be an order when only some records have the key: a record without it ties with two records whose values differ |
| FailedSemestersTable.SortKeepsOrder | components/FailedSemestersTable.tsx:25-26 | with no key, or a key no record has, the sort leaves the records in place |
| FailedSemestersTable.SortOrders | components/FailedSemestersTable.tsx:25-41 | when every record has the key, the sorted rows are ordered by its string values in the chosen direction |
| FailedSemestersTable.SortKeepsTies | components/FailedSemestersTable.tsx:25-41 | with no key, or a key every record has, rows that tie on the sort column keep their order in the data |
| FailedSemestersTable.FormatPeriod | components/FailedSemestersTable.tsx:62-67 | a missing or empty period shows as "" and only those do; otherwise the text is one longer, with the dash after the first four characters (or after all of a shorter period) |
| FailedSemestersTable.FormatPeriodRoundTrip | components/FailedSemestersTable.tsx:62-67 | removing the inserted dash gives the period back |
| FailedSemestersTable.FormatPeriodExamples | components/FailedSemestersTable.tsx:62-67 | "20231" shows as "2023-1", "123" as "123-", a missing period as "" |
| FailedSemestersTable.BadgeThreshold | components/FailedSemestersTable.tsx:112-114 | a count written in decimal, after white space and a sign and before any tail that does not start with a digit (nor, for a zero, with x or X), is red exactly when it is not negative and at least 3 |
| FailedSemestersTable.UnparsableIsAmber | components/FailedSemestersTable.tsx:112-114 | a count with no digit after the white space and an optional sign (NaN, such as "-"), and a missing count, are amber |
| FailedSemestersTable.Table.constructor | components/FailedSemestersTable.tsx:17-23 | a table starts with no sort key, ascending |
| FailedSemestersTable.Table.RequestSort | components/FailedSemestersTable.tsx:43-49 | the sort state moves by the same requestSort transition as the other table |
| FailedSemestersTable.Table.SortedData | components/FailedSemestersTable.tsx:25-41 | the rows are a permutation of the data; with no key, or a key no record has, they are the data unchanged; when every record has the key they are ordered by its string values in the chosen direction |
| FailedSemestersTable.Table.Total | components/FailedSemestersTable.tsx:127 | the total shown is the number of records given |
| RiskReport.TestRecord | components/RiskReport.tsx:21-25 | a record is kept only if it has the code field; a TypeError names a field the record lacks |
| RiskReport.Search | components/RiskReport.tsx:21-25 | the kept rows are no more than the records, each drawn from them and matching the search; a throw comes from a record lacking a field the test reads |
| RiskReport.SearchIsFilter | components/RiskReport.tsx:21-31 | when no record lacks a field the test reads, the search is the filter by "code includes search, or lower-cased login includes lower-cased search"; otherwise it throws |
| RiskReport.SearchKeepsOrder | components/RiskReport.tsx:21-25 | the rows found are the records at increasing positions, exactly those that match: every dropped record fails both tests |
| RiskReport.EmptySearchKeepsAll | components/RiskReport.tsx:23-24 | an empty search keeps every record |
| RiskReport.SearchIdempotent | components/RiskReport.tsx:21-25 | searching the found rows again with the same text returns them unchanged |
| RiskReport.LoginIgnoresCase | components/RiskReport.tsx:24 | search texts that agree letter by letter up to case test a record the same way, unless its code contains one of them |
| RiskReport.CodeIsCaseSensitive | components/RiskReport.tsx:23 | the code test is case-sensitive: "AB" does not find the code "ab" |
| RiskReport.ParsedDataSearchable | components/RiskReport.tsx:27-31 | records parsed from a header row with both columns never make the search throw |
| RiskReport.SearchesIndependent | components/RiskReport.tsx:17-18 | typing in one search box changes neither the other table's rows nor the other box, and switching tabs changes no rows |
| RiskReport.InitialStateShowsAll | components/RiskReport.tsx:17-31 | at first display both tables receive every parsed record |
| RiskReport.FailedSemestersViewOrdered | components/RiskReport.tsx:27-31 | for a file whose header row names the code, the login and the sort column, the failed-semesters table shows the found rows ordered by that column |
| CsvDownloader.ExcelFilename | lib/csv-downloader.ts:21 | the name always ends in .xlsx; a name already ending in it is unchanged, any other gets it appended |
| CsvDownloader.ExcelFilenameIdempotent | lib/csv-downloader.ts:21 | naming a file twice is naming it once |
| CsvDownloader.ExcelFilenameKeepsName | lib/csv-downloader.ts:21 | the given name is always kept as the prefix |
| CsvDownloader.UpperCaseExtensionIsExtended | lib/csv-downloader.ts:21 | the test is case-sensitive: "report.XLSX" becomes "report.XLSX.xlsx" |

## Left out

- Reading the CSV files and serving the JSON response or an HTTP 500 (`app/page.tsx`, `app/api/route.ts`): these are I/O that only call the reader.
- Building the XLSX workbook and the browser download (`lib/csv-downloader.ts` lines 3-20 and 22-25): these call a library that is not part of this model, plus DOM side effects. Only the file-name rule is modelled.
- JSX rendering, the profile link opened with `window.open`, row striping and tab switching as display: these are user interface. The active tab is kept in the page state only to show that it changes no rows.
- React state updates are modelled as plain assignments (`RequestSort`) and record updates (`ReportState`). Re-render timing and batching are not modelled.
- The tables' `data` prop is a constant field of each class. It is given once at construction.
- Sorting.SortInPlace: the JavaScript engine's own `Array.prototype.sort` algorithm is replaced by an insertion sort, proved sorted (`SortSorts`) and stable (`SortStable`). Any sort with those two properties gives the same result for a comparator that is a total preorder, which both tables have on parsed data. For the failed-semesters comparator on records that only partly have the sort field, the engine's result may differ from the insertion sort's.
- Text.Lower: only ASCII letters are lower-cased. The full Unicode `toLowerCase` mapping is not modelled.
- Text.Trim: trims a fixed set of white-space characters (ASCII white space, line terminators, no-break space, byte-order mark). Other Unicode space separators are not included.
- Text.Less: compares Unicode code points. JavaScript compares UTF-16 code units, and the two differ only when characters above U+FFFF meet characters between U+E000 and U+FFFF.
- JsNumber.ParseInt: integers are unbounded. The precision loss of JavaScript numbers above 2^53 is not modelled, and `-0` is the same as `0`.
- Records are maps from strings to strings. JavaScript object quirks are not modelled: keys inherited from the prototype (such as a header named `__proto__`) and key insertion order, which no modelled operation observes.
- Fields declared `number` or `null` in the tables' `StudentData` interfaces are never produced by the reader. Values are modelled as strings. A missing field is `undefined` (an absent key), and a `null` period is the absent value of `FormatPeriod`.
- `.toString()` on a student code is the identity on strings. Reading a field of a record that lacks it throws a TypeError, modelled as `Throws` with the field's name.
- Program and funding category filters, and exporting the filtered rows, do not exist in the code, so nothing of that kind is modelled.
