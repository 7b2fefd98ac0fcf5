/**
 * The table of students with blocking-course repeat attempts: its sort state, its
 * comparator (a missing value reads as ""), the sorted copy it renders and its total.
 */
module MultipleAttemptsTable {
  import opened Wrappers
  import opened Text
  import opened Sorting
  import opened CsvParser
  import Seqs

  /** `a[key] ?? ""`: the field, or "" when the record has no such field. */
  function FieldOrEmpty(r: Record, key: string): string {
    if key in r then r[key] else ""
  }

  /** The comparator handed to `sort`. */
  function Compare(config: SortConfig, a: Record, b: Record): int {
    if SortsByNothing(config) then 0
    else CompareValues(config.direction, FieldOrEmpty(a, config.key.value), FieldOrEmpty(b, config.key.value))
  }

  function Comparator(config: SortConfig): (Record, Record) -> int {
    (a, b) => Compare(config, a, b)
  }

  /** With no key every pair compares equal, so every order is already sorted. */
  lemma NoKeyComparesEqual(config: SortConfig, data: seq<Record>)
    requires SortsByNothing(config)
    ensures Sorted(data, Comparator(config))
  {
  }

  /** This comparator is a total preorder on every collection of records. */
  lemma CompareConsistent(config: SortConfig, data: seq<Record>)
    ensures ConsistentOn(Comparator(config), data)
  {
    var cmp := Comparator(config);
    if !SortsByNothing(config) {
      var key := config.key.value;
      forall a, b, c | a in data && b in data && c in data ensures TransitiveAt(cmp, a, b, c) {
        if cmp(a, b) <= 0 && cmp(b, c) <= 0 {
          CompareValuesTransitive(config.direction, FieldOrEmpty(a, key), FieldOrEmpty(b, key), FieldOrEmpty(c, key));
        }
      }
    }
  }

  /** The values of the field, a missing one read as "", never go against the direction. */
  ghost predicate OrderedBy(rows: seq<Record>, key: string, direction: Direction) {
    forall i, j :: 0 <= i < j < |rows| ==>
      if direction == Ascending then !Less(FieldOrEmpty(rows[j], key), FieldOrEmpty(rows[i], key))
      else !Less(FieldOrEmpty(rows[i], key), FieldOrEmpty(rows[j], key))
  }

  /** With no key the sort leaves the records where they are. */
  lemma SortKeepsOrder(config: SortConfig, data: seq<Record>)
    requires SortsByNothing(config)
    ensures InsertionSorted(data, Comparator(config)) == data
  {
    NoKeyComparesEqual(config, data);
    SortKeepsSorted(data, Comparator(config));
  }

  /** With a key the sorted rows are ordered by its values, whichever records lack it. */
  lemma SortOrders(config: SortConfig, data: seq<Record>)
    requires !SortsByNothing(config)
    ensures OrderedBy(InsertionSorted(data, Comparator(config)), config.key.value, config.direction)
  {
    var cmp := Comparator(config);
    var key := config.key.value;
    var rows := InsertionSorted(data, cmp);
    CompareConsistent(config, data);
    SortSorts(data, cmp, data);
    forall i, j | 0 <= i < j < |rows|
      ensures if config.direction == Ascending then !Less(FieldOrEmpty(rows[j], key), FieldOrEmpty(rows[i], key))
              else !Less(FieldOrEmpty(rows[i], key), FieldOrEmpty(rows[j], key))
    {
      assert cmp(rows[i], rows[j]) <= 0;
    }
  }

  /** Rows that tie on the sort column keep the order they had in the data. */
  lemma SortKeepsTies(config: SortConfig, data: seq<Record>, x: Record)
    requires x in data
    ensures Seqs.Filter(TiedWith(Comparator(config), x), InsertionSorted(data, Comparator(config)))
      == Seqs.Filter(TiedWith(Comparator(config), x), data)
  {
    CompareConsistent(config, data);
    SortStable(data, Comparator(config), x, data);
  }

  /** The ascending order on a field compares the strings: "10" sorts before "2". */
  lemma SortsAsStrings()
    ensures Compare(SortConfig(Some("CODIGO_ESTUDIANTE"), Ascending),
                    map["CODIGO_ESTUDIANTE" := "10"], map["CODIGO_ESTUDIANTE" := "2"]) < 0
  {
    LessIsNotNumeric();
  }

  /** The component: the records it is given and its `sortConfig` state. */
  class Table {
    const data: seq<Record>
    var sortConfig: SortConfig

    /** `useState({ key: null, direction: "ascending" })` */
    constructor (data: seq<Record>)
      ensures this.data == data
      ensures sortConfig == InitialConfig
    {
      this.data := data;
      sortConfig := InitialConfig;
    }

    /** `requestSort(key)` */
    method RequestSort(key: Option<string>)
      modifies this
      ensures sortConfig == NextConfig(old(sortConfig), key)
    {
      var direction := Ascending;
      if sortConfig.key == key && sortConfig.direction == Ascending {
        direction := Descending;
      }
      sortConfig := SortConfig(key, direction);
    }

    /**
     * `sortedData`: a sorted copy of the records.  It holds the same records, leaves the
     * order alone when no key is set, and otherwise orders the field values as strings,
     * ascending or descending.
     */
    method SortedData() returns (rows: seq<Record>)
      ensures rows == InsertionSorted(data, Comparator(sortConfig))
      ensures |rows| == |data| && multiset(rows) == multiset(data)
      ensures SortsByNothing(sortConfig) ==> rows == data
      ensures !SortsByNothing(sortConfig) ==> OrderedBy(rows, sortConfig.key.value, sortConfig.direction)
    {
      var cmp := Comparator(sortConfig);
      var copy := new Record[|data|](i requires 0 <= i < |data| => data[i]);
      assert copy[..] == data;
      SortInPlace(copy, cmp);
      rows := copy[..];
      SortPermutes(data, cmp);
      if SortsByNothing(sortConfig) {
        SortKeepsOrder(sortConfig, data);
      } else {
        SortOrders(sortConfig, data);
      }
    }

    /** `Total: {sortedData.length}`: the number of records given. */
    method Total() returns (total: nat)
      ensures total == |data|
    {
      var rows := SortedData();
      total := |rows|;
    }
  }
}
