/**
 * The table of students with consecutive failed semesters: its sort state, its comparator
 * (a missing value compares equal to everything), the sorted copy it renders, the period
 * shown as year-semester, the red/amber badge of the failed-semester count, and its total.
 */
module FailedSemestersTable {
  import opened Wrappers
  import opened Text
  import opened Sorting
  import opened CsvParser
  import opened JsNumber
  import Seqs

  /** `a[key]`: the field, or None (undefined) when the record has no such field. */
  function Field(r: Record, key: string): Option<string> {
    if key in r then Some(r[key]) else None
  }

  /**
   * The comparator handed to `sort`.  A missing value gives 0 against anything: a null by
   * the explicit test, an undefined because both `<` and `>` with it are false.
   */
  function Compare(config: SortConfig, a: Record, b: Record): int {
    if SortsByNothing(config) then 0
    else
      match (Field(a, config.key.value), Field(b, config.key.value))
      case (Some(x), Some(y)) => CompareValues(config.direction, x, y)
      case _ => 0
  }

  function Comparator(config: SortConfig): (Record, Record) -> int {
    (a, b) => Compare(config, a, b)
  }

  /** Every record has the sort key as a field. */
  ghost predicate AllHave(data: seq<Record>, key: string) {
    forall r :: r in data ==> key in r
  }

  /** No record has the sort key as a field. */
  ghost predicate NoneHave(data: seq<Record>, key: string) {
    forall r :: r in data ==> key !in r
  }

  /** With no key, or a key no record has, every pair compares equal. */
  lemma AllCompareEqual(config: SortConfig, data: seq<Record>)
    requires SortsByNothing(config) || NoneHave(data, config.key.value)
    ensures Sorted(data, Comparator(config))
  {
  }

  /** When every record has the key, the comparator is a total preorder on the records. */
  lemma CompareConsistent(config: SortConfig, data: seq<Record>)
    requires !SortsByNothing(config) ==> AllHave(data, config.key.value)
    ensures ConsistentOn(Comparator(config), data)
  {
    var cmp := Comparator(config);
    if !SortsByNothing(config) {
      var key := config.key.value;
      forall a, b, c | a in data && b in data && c in data ensures TransitiveAt(cmp, a, b, c) {
        if cmp(a, b) <= 0 && cmp(b, c) <= 0 {
          CompareValuesTransitive(config.direction, a[key], b[key], c[key]);
        }
      }
    }
  }

  /**
   * When only some records have the key the comparator is not an order: a record without
   * the field ties with two records that are themselves strictly ordered.
   */
  lemma MissingFieldBreaksOrder()
    ensures var config := SortConfig(Some("PERIODO_MAS_RECIENTE_PERDIDO"), Ascending);
      var a := map["PERIODO_MAS_RECIENTE_PERDIDO" := "20242"];
      var b: Record := map[];
      var c := map["PERIODO_MAS_RECIENTE_PERDIDO" := "20231"];
      && Compare(config, a, b) == 0 && Compare(config, b, c) == 0 && Compare(config, a, c) > 0
  {
    assert Less("20231", "20242");
  }

  /**
   * Every record has the field and the values, read as strings, never go against the
   * direction.
   */
  ghost predicate OrderedBy(rows: seq<Record>, key: string, direction: Direction) {
    forall i, j :: 0 <= i < j < |rows| ==>
      key in rows[i] && key in rows[j] &&
      if direction == Ascending then !Less(rows[j][key], rows[i][key])
      else !Less(rows[i][key], rows[j][key])
  }

  /** With no key, or a key no record has, the sort leaves the records where they are. */
  lemma SortKeepsOrder(config: SortConfig, data: seq<Record>)
    requires SortsByNothing(config) || NoneHave(data, config.key.value)
    ensures InsertionSorted(data, Comparator(config)) == data
  {
    AllCompareEqual(config, data);
    SortKeepsSorted(data, Comparator(config));
  }

  /** When every record has the key, the sorted rows are ordered by its values. */
  lemma SortOrders(config: SortConfig, data: seq<Record>)
    requires !SortsByNothing(config) && AllHave(data, config.key.value)
    ensures OrderedBy(InsertionSorted(data, Comparator(config)), config.key.value, config.direction)
  {
    var cmp := Comparator(config);
    var key := config.key.value;
    var rows := InsertionSorted(data, cmp);
    CompareConsistent(config, data);
    SortSorts(data, cmp, data);
    SortPermutes(data, cmp);
    forall r | r in rows ensures key in r {
      assert r in multiset(rows);
    }
    forall i, j | 0 <= i < j < |rows|
      ensures key in rows[i] && key in rows[j]
      ensures if config.direction == Ascending then !Less(rows[j][key], rows[i][key])
              else !Less(rows[i][key], rows[j][key])
    {
      assert rows[i] in rows && rows[j] in rows;
      assert cmp(rows[i], rows[j]) <= 0;
    }
  }

  /**
   * Rows that tie on the sort column (several students with the same number of failed
   * semesters, say) keep the order they had in the data.
   */
  lemma SortKeepsTies(config: SortConfig, data: seq<Record>, x: Record)
    requires x in data
    requires !SortsByNothing(config) ==> AllHave(data, config.key.value)
    ensures Seqs.Filter(TiedWith(Comparator(config), x), InsertionSorted(data, Comparator(config)))
      == Seqs.Filter(TiedWith(Comparator(config), x), data)
  {
    CompareConsistent(config, data);
    SortStable(data, Comparator(config), x, data);
  }

  // ---------------------------------------------------------------------------------------
  // formatPeriod

  /** How many characters of the period make the year: the first four, or all of a shorter one. */
  function YearLength(period: string): nat {
    if |period| < 4 then |period| else 4
  }

  /**
   * `formatPeriod(period)`: nothing for a missing or empty period, otherwise the year part,
   * a dash, and the rest.
   */
  function FormatPeriod(period: Option<string>): (shown: string)
    ensures shown == "" <==> period.None? || period.value == ""
    ensures shown != "" ==> |shown| == |period.value| + 1 && shown[YearLength(period.value)] == '-'
  {
    if period.None? || period.value == "" then ""
    else
      var p := period.value;
      p[..YearLength(p)] + "-" + p[YearLength(p)..]
  }

  /** The inverse of FormatPeriod: the shown text without its year-semester dash. */
  function RemoveDash(shown: string): string
    requires shown != []
  {
    var cut := if |shown| - 1 < 4 then |shown| - 1 else 4;
    shown[..cut] + shown[cut + 1..]
  }

  /** Formatting a period loses nothing: removing the dash gives the period back. */
  lemma FormatPeriodRoundTrip(period: string)
    requires period != ""
    ensures RemoveDash(FormatPeriod(Some(period))) == period
  {
    var shown := FormatPeriod(Some(period));
    var y := YearLength(period);
    assert shown[..y] == period[..y];
    assert shown[y + 1..] == period[y..];
    assert period[..y] + period[y..] == period;
  }

  /** A five-character period shows as year, dash, semester; a short one keeps a trailing dash. */
  lemma FormatPeriodExamples()
    ensures FormatPeriod(Some("20231")) == "2023-1"
    ensures FormatPeriod(Some("123")) == "123-"
    ensures FormatPeriod(None) == ""
  {
  }

  // ---------------------------------------------------------------------------------------
  // the badge of the failed-semester count

  datatype Badge = Red | Amber

  /**
   * The badge colour: red when `Number.parseInt` of the count is at least 3, amber
   * otherwise, NaN included.  A missing count is read as the text "undefined".
   */
  function CountBadge(count: Option<string>): Badge {
    var text := if count.Some? then count.value else "undefined";
    match ParseInt(text)
    case Num(n) => if n >= 3 then Red else Amber
    case NaN => Amber
  }

  /**
   * A count written in decimal, possibly padded with white space and a sign in front and
   * followed by anything that is not a digit (for a zero, not an `x` either, which would
   * start a hexadecimal number), is red exactly when it is 3 or more: a negative count is
   * amber.
   */
  lemma BadgeThreshold(ws: string, sign: string, n: nat, rest: string)
    requires forall i :: 0 <= i < |ws| ==> IsWhitespace(ws[i])
    requires sign == "" || sign == "+" || sign == "-"
    requires rest == [] || (!IsDigit(rest[0], 10) && (n != 0 || (rest[0] != 'x' && rest[0] != 'X')))
    ensures CountBadge(Some(ws + sign + Decimal(n) + rest)) == Red <==> sign != "-" && n >= 3
  {
    ParseIntDecimal(ws, sign, n, rest);
  }

  /**
   * A count with no digit after the white space and an optional sign ("", "-", "n/a",
   * "+x"), and a missing count, are amber.
   */
  lemma UnparsableIsAmber(count: string)
    requires var t := TrimStart(count);
      var u := if t != [] && (t[0] == '+' || t[0] == '-') then t[1..] else t;
      u == [] || !IsDigit(u[0], 10)
    ensures CountBadge(Some(count)) == Amber
    ensures CountBadge(None) == Amber
  {
    ParseIntNoDigits(count);
    ParseIntUndefined();
  }

  // ---------------------------------------------------------------------------------------
  // the component

  /** The component: the records it is given and its `sortConfig` state. */
  class Table {
    const data: seq<Record>
    var sortConfig: SortConfig

    /** `useState({ key: null, direction: "ascending" })` */
    constructor (data: seq<Record>)
      ensures this.data == data
      ensures sortConfig == InitialConfig
    {
      this.data := data;
      sortConfig := InitialConfig;
    }

    /** `requestSort(key)` */
    method RequestSort(key: Option<string>)
      modifies this
      ensures sortConfig == NextConfig(old(sortConfig), key)
    {
      var direction := Ascending;
      if sortConfig.key == key && sortConfig.direction == Ascending {
        direction := Descending;
      }
      sortConfig := SortConfig(key, direction);
    }

    /**
     * `sortedData`: a sorted copy of the records.  It holds the same records; it keeps
     * their order when no key is set or no record has the key; when every record has the
     * key it orders their values as strings, ascending or descending.
     */
    method SortedData() returns (rows: seq<Record>)
      ensures rows == InsertionSorted(data, Comparator(sortConfig))
      ensures |rows| == |data| && multiset(rows) == multiset(data)
      ensures SortsByNothing(sortConfig) || NoneHave(data, sortConfig.key.value) ==> rows == data
      ensures !SortsByNothing(sortConfig) && AllHave(data, sortConfig.key.value) ==>
        OrderedBy(rows, sortConfig.key.value, sortConfig.direction)
    {
      var cmp := Comparator(sortConfig);
      var copy := new Record[|data|](i requires 0 <= i < |data| => data[i]);
      assert copy[..] == data;
      SortInPlace(copy, cmp);
      rows := copy[..];
      SortPermutes(data, cmp);
      if SortsByNothing(sortConfig) || NoneHave(data, sortConfig.key.value) {
        SortKeepsOrder(sortConfig, data);
      }
      if !SortsByNothing(sortConfig) && AllHave(data, sortConfig.key.value) {
        SortOrders(sortConfig, data);
      }
    }

    /** `Total: {sortedData.length}`: the number of records given. */
    method Total() returns (total: nat)
      ensures total == |data|
    {
      var rows := SortedData();
      total := |rows|;
    }
  }
}
