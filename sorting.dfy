/**
 * Column sorting as both result tables do it: the `sortConfig` state and its `requestSort`
 * transition, the header icon, the string comparison of the comparators, and the sort of
 * a copied array (modelled as a stable insertion sort in place).
 */
module Sorting {
  import opened Wrappers
  import opened Text
  import Seqs

  datatype Direction = Ascending | Descending

  /** `{ key, direction }`: the column sorted on (None for `null`) and the direction. */
  datatype SortConfig = SortConfig(key: Option<string>, direction: Direction)

  /** The state a table starts in: no column, ascending. */
  const InitialConfig := SortConfig(None, Ascending)

  /**
   * `requestSort(key)`: the same column clicked while ascending turns descending; any other
   * click (a new column, or the same column while descending) sorts ascending on `key`.
   */
  function NextConfig(config: SortConfig, key: Option<string>): (next: SortConfig)
    ensures next.key == key
    ensures next.direction == Descending <==> config == SortConfig(key, Ascending)
  {
    var direction := if config.key == key && config.direction == Ascending then Descending else Ascending;
    SortConfig(key, direction)
  }

  /** Clicking the same column twice from ascending comes back to ascending. */
  lemma RequestTwiceRestores(key: Option<string>)
    ensures NextConfig(NextConfig(SortConfig(key, Ascending), key), key) == SortConfig(key, Ascending)
  {
  }

  /** After the first click on a column, further clicks on it alternate the direction. */
  lemma RequestAlternates(config: SortConfig, key: Option<string>)
    ensures var once := NextConfig(config, key);
      var twice := NextConfig(once, key);
      twice.key == key && twice.direction != once.direction
  {
  }

  datatype Icon = ChevronUp | ChevronDown

  /** `getSortIcon(column)`: no icon unless the column is the sorted one; up when ascending. */
  function SortIcon(config: SortConfig, column: Option<string>): (icon: Option<Icon>)
    ensures icon.Some? <==> config.key == column
    ensures icon == Some(ChevronUp) <==> config.key == column && config.direction == Ascending
  {
    if config.key != column then None
    else if config.direction == Ascending then Some(ChevronUp)
    else Some(ChevronDown)
  }

  /** After a click on `key`, exactly that column shows an icon. */
  lemma IconFollowsRequest(config: SortConfig, key: Option<string>, column: Option<string>)
    ensures SortIcon(NextConfig(config, key), column).Some? <==> column == key
  {
  }

  /** `if (!sortConfig.key) return 0`: no key, and also the empty key "", which is falsy. */
  predicate SortsByNothing(config: SortConfig) {
    config.key.None? || config.key.value == ""
  }

  /** Of two strings, exactly one is smaller, or they are equal. */
  lemma LessTrichotomy(a: string, b: string)
    ensures a == b ==> !Less(a, b) && !Less(b, a)
    ensures a != b ==> (Less(a, b) <==> !Less(b, a))
  {
    LessIrreflexive(a);
    if a != b {
      LessTotal(a, b);
      if Less(a, b) && Less(b, a) {
        LessTransitive(a, b, a);
      }
    }
  }

  /**
   * The shared tail of both comparators on two string values: -1, 1 or 0 by the `<` and `>`
   * order of JavaScript strings, turned around when descending.
   */
  function CompareValues(direction: Direction, a: string, b: string): (r: int)
    ensures -1 <= r <= 1
    ensures r == 0 <==> a == b
    ensures r < 0 <==> (if direction == Ascending then Less(a, b) else Less(b, a))
    ensures r > 0 <==> (if direction == Ascending then Less(b, a) else Less(a, b))
  {
    LessTrichotomy(a, b);
    if Less(a, b) then (if direction == Ascending then -1 else 1)
    else if Less(b, a) then (if direction == Ascending then 1 else -1)
    else 0
  }

  /** The descending comparison is the exact negation of the ascending one. */
  lemma DescendingNegates(a: string, b: string)
    ensures CompareValues(Descending, a, b) == -CompareValues(Ascending, a, b)
  {
  }

  /** CompareValues orders all strings consistently: it is total and transitive. */
  lemma CompareValuesTransitive(direction: Direction, a: string, b: string, c: string)
    requires CompareValues(direction, a, b) <= 0 && CompareValues(direction, b, c) <= 0
    ensures CompareValues(direction, a, c) <= 0
  {
    if a != b && b != c && a != c {
      if direction == Ascending {
        LessTransitive(a, b, c);
      } else {
        LessTransitive(c, b, a);
      }
    }
  }

  // ---------------------------------------------------------------------------------------
  // the sort: a stable insertion sort, as a function and in place on an array

  /** The sequence is in the order `cmp` asks for: no pair is out of order. */
  ghost predicate Sorted<T>(s: seq<T>, cmp: (T, T) -> int) {
    forall i, j :: 0 <= i < j < |s| ==> cmp(s[i], s[j]) <= 0
  }

  /** One of the two orders of `a` and `b` is allowed. */
  ghost predicate TotalAt<T>(cmp: (T, T) -> int, a: T, b: T) {
    cmp(a, b) <= 0 || cmp(b, a) <= 0
  }

  /** `a` before `b` and `b` before `c` allow `a` before `c`. */
  ghost predicate TransitiveAt<T>(cmp: (T, T) -> int, a: T, b: T, c: T) {
    cmp(a, b) <= 0 && cmp(b, c) <= 0 ==> cmp(a, c) <= 0
  }

  /** On the elements of `s`, `cmp` is a total preorder, as a comparator must be. */
  ghost predicate ConsistentOn<T>(cmp: (T, T) -> int, s: seq<T>) {
    && (forall a, b :: a in s && b in s ==> TotalAt(cmp, a, b))
    && (forall a, b, c :: a in s && b in s && c in s ==> TransitiveAt(cmp, a, b, c))
  }

  /** `x` inserted into `s` from the right: it moves left past every element greater than it. */
  function Insert<T>(s: seq<T>, x: T, cmp: (T, T) -> int): seq<T>
  {
    if s == [] || cmp(s[|s| - 1], x) <= 0 then s + [x]
    else Insert(s[..|s| - 1], x, cmp) + [s[|s| - 1]]
  }

  /** The sorted copy: each element in turn inserted into the sorted prefix before it. */
  function InsertionSorted<T>(s: seq<T>, cmp: (T, T) -> int): seq<T>
  {
    if s == [] then []
    else Insert(InsertionSorted(s[..|s| - 1], cmp), s[|s| - 1], cmp)
  }

  lemma {:induction false} InsertPermutes<T>(s: seq<T>, x: T, cmp: (T, T) -> int)
    ensures multiset(Insert(s, x, cmp)) == multiset(s) + multiset{x}
  {
    if s != [] && cmp(s[|s| - 1], x) > 0 {
      var n := |s| - 1;
      InsertPermutes(s[..n], x, cmp);
      assert s == s[..n] + [s[n]];
    }
  }

  /** Sorting returns the same records, each as often as before. */
  lemma {:induction false} SortPermutes<T>(s: seq<T>, cmp: (T, T) -> int)
    ensures multiset(InsertionSorted(s, cmp)) == multiset(s)
    ensures |InsertionSorted(s, cmp)| == |s|
  {
    if s != [] {
      var n := |s| - 1;
      SortPermutes(s[..n], cmp);
      InsertPermutes(InsertionSorted(s[..n], cmp), s[n], cmp);
      assert s == s[..n] + [s[n]];
    }
    assert |multiset(InsertionSorted(s, cmp))| == |InsertionSorted(s, cmp)|;
  }

  /** The sort returns only elements of its input. */
  lemma SortElements<T>(s: seq<T>, cmp: (T, T) -> int)
    ensures forall z :: z in InsertionSorted(s, cmp) ==> z in s
  {
    SortPermutes(s, cmp);
    forall z | z in InsertionSorted(s, cmp) ensures z in s {
      assert z in multiset(InsertionSorted(s, cmp));
    }
  }

  /** Appending an element no smaller than every element keeps a sequence sorted. */
  lemma AppendSorted<T>(s: seq<T>, y: T, cmp: (T, T) -> int)
    requires Sorted(s, cmp)
    requires forall i :: 0 <= i < |s| ==> cmp(s[i], y) <= 0
    ensures Sorted(s + [y], cmp)
  {
  }

  /** Insertion adds `x` and nothing else. */
  lemma {:induction false} InsertElements<T>(s: seq<T>, x: T, cmp: (T, T) -> int)
    ensures forall y :: y in Insert(s, x, cmp) ==> y == x || y in s
  {
    if s != [] && cmp(s[|s| - 1], x) > 0 {
      var n := |s| - 1;
      InsertElements(s[..n], x, cmp);
      assert forall y :: y in s[..n] ==> y in s;
    }
  }

  /** Inserting into a sorted sequence keeps it sorted, when `cmp` is consistent there. */
  lemma {:induction false} InsertSorts<T>(s: seq<T>, x: T, cmp: (T, T) -> int, all: seq<T>)
    requires Sorted(s, cmp)
    requires x in all && forall y :: y in s ==> y in all
    requires ConsistentOn(cmp, all)
    ensures Sorted(Insert(s, x, cmp), cmp)
  {
    if s == [] {
    } else if cmp(s[|s| - 1], x) <= 0 {
      var n := |s| - 1;
      forall i | 0 <= i < n ensures cmp(s[i], x) <= 0 {
        assert s[i] in s && s[n] in s;
        assert TransitiveAt(cmp, s[i], s[n], x);
      }
      AppendSorted(s, x, cmp);
    } else {
      var n := |s| - 1;
      var last, init := s[n], s[..n];
      assert last in s;
      assert TotalAt(cmp, last, x);
      assert forall y :: y in init ==> y in s;
      InsertSorts(init, x, cmp, all);
      InsertBelow(s, x, cmp);
      AppendSorted(Insert(init, x, cmp), last, cmp);
    }
  }

  /**
   * When `x` goes before the last element of a sorted sequence, everything the insertion
   * into the rest produces goes before that last element too.
   */
  lemma InsertBelow<T>(s: seq<T>, x: T, cmp: (T, T) -> int)
    requires Sorted(s, cmp) && s != []
    requires cmp(x, s[|s| - 1]) <= 0
    ensures var n := |s| - 1;
      forall i :: 0 <= i < |Insert(s[..n], x, cmp)| ==> cmp(Insert(s[..n], x, cmp)[i], s[n]) <= 0
  {
    var n := |s| - 1;
    var init := s[..n];
    var r := Insert(init, x, cmp);
    InsertElements(init, x, cmp);
    forall i | 0 <= i < |r| ensures cmp(r[i], s[n]) <= 0 {
      if r[i] != x {
        assert r[i] in init;
        var k :| 0 <= k < |init| && init[k] == r[i];
        assert s[k] == r[i];
      }
    }
  }

  /** The sort orders its result whenever the comparator is consistent on the input. */
  lemma {:induction false} SortSorts<T>(s: seq<T>, cmp: (T, T) -> int, all: seq<T>)
    requires forall y :: y in s ==> y in all
    requires ConsistentOn(cmp, all)
    ensures Sorted(InsertionSorted(s, cmp), cmp)
  {
    if s != [] {
      var n := |s| - 1;
      assert forall y :: y in s[..n] ==> y in s;
      SortSorts(s[..n], cmp, all);
      SortElements(s[..n], cmp);
      InsertSorts(InsertionSorted(s[..n], cmp), s[n], cmp, all);
    }
  }

  /** An input already in order comes back unchanged: the sort is stable. */
  lemma {:induction false} SortKeepsSorted<T>(s: seq<T>, cmp: (T, T) -> int)
    requires Sorted(s, cmp)
    ensures InsertionSorted(s, cmp) == s
  {
    if s != [] {
      var n := |s| - 1;
      SortKeepsSorted(s[..n], cmp);
      assert s == s[..n] + [s[n]];
    }
  }

  /** The elements that compare equal to `x` both ways: the records tied with it. */
  function TiedWith<T>(cmp: (T, T) -> int, x: T): T -> bool {
    y => cmp(x, y) == 0 && cmp(y, x) == 0
  }

  /**
   * Inserting `y` keeps the order of the elements that satisfy `p`, and puts `y` after them
   * when it satisfies `p` and none of them is greater than it.
   */
  lemma {:induction false} InsertKeepsSelected<T>(s: seq<T>, y: T, cmp: (T, T) -> int, p: T -> bool)
    requires p(y) ==> forall z :: z in s && p(z) ==> cmp(z, y) <= 0
    ensures Seqs.Filter(p, Insert(s, y, cmp)) == Seqs.Filter(p, s) + Seqs.Filter(p, [y])
  {
    if s == [] || cmp(s[|s| - 1], y) <= 0 {
      Seqs.FilterConcat(p, s, [y]);
    } else {
      var n := |s| - 1;
      var init, last := s[..n], s[n];
      assert s == init + [last];
      InsertKeepsSelected(init, y, cmp, p);
      Seqs.FilterConcat(p, Insert(init, y, cmp), [last]);
      Seqs.FilterConcat(p, init, [last]);
      if p(last) {
        assert Seqs.Filter(p, [y]) == [];
      } else {
        assert Seqs.Filter(p, [last]) == [];
      }
    }
  }

  /**
   * The sort is stable: the records tied with any one record come out in the order they
   * went in, under a comparator that is consistent on the input.
   */
  lemma {:induction false} SortStable<T>(s: seq<T>, cmp: (T, T) -> int, x: T, all: seq<T>)
    requires x in all && forall z :: z in s ==> z in all
    requires ConsistentOn(cmp, all)
    ensures Seqs.Filter(TiedWith(cmp, x), InsertionSorted(s, cmp)) == Seqs.Filter(TiedWith(cmp, x), s)
  {
    if s != [] {
      var n := |s| - 1;
      var init, last := s[..n], s[n];
      assert forall z :: z in init ==> z in s;
      SortStable(init, cmp, x, all);
      var sorted := InsertionSorted(init, cmp);
      SortElements(init, cmp);
      var tied := TiedWith(cmp, x);
      if tied(last) {
        forall z | z in sorted && tied(z) ensures cmp(z, last) <= 0 {
          assert TransitiveAt(cmp, z, x, last);
        }
      }
      InsertKeepsSelected(sorted, last, cmp, tied);
      assert s == init + [last];
      Seqs.FilterConcat(TiedWith(cmp, x), init, [last]);
    }
  }

  /**
   * Where Insert puts `x`: after the prefix that ends in an element not greater than `x`,
   * and before the run of elements greater than `x`.
   */
  lemma {:induction false} InsertAt<T>(s: seq<T>, x: T, cmp: (T, T) -> int, j: nat)
    requires j <= |s|
    requires j == 0 || cmp(s[j - 1], x) <= 0
    requires forall k :: j <= k < |s| ==> cmp(s[k], x) > 0
    ensures Insert(s, x, cmp) == s[..j] + [x] + s[j..]
    decreases |s|
  {
    if j < |s| {
      var n := |s| - 1;
      var init := s[..n];
      assert init[..j] == s[..j];
      InsertAt(init, x, cmp, j);
      assert s[j..] == init[j..] + [s[n]];
    } else {
      assert s[..j] == s;
    }
  }

  /** One step of the sort: `a[i]` moved left into the sorted prefix `a[..i]`. */
  method InsertInPlace<T>(a: array<T>, i: nat, cmp: (T, T) -> int)
    requires i < a.Length
    modifies a
    ensures a[..i + 1] == Insert(old(a[..i]), old(a[i]), cmp)
    ensures a[i + 1..] == old(a[i + 1..])
  {
    var x := a[i];
    ghost var sorted := a[..i];
    var j := i;
    while j > 0 && cmp(a[j - 1], x) > 0
      invariant 0 <= j <= i
      invariant forall k :: 0 <= k < j ==> a[k] == sorted[k]
      invariant forall k :: j < k <= i ==> a[k] == sorted[k - 1]
      invariant forall k :: i < k < a.Length ==> a[k] == old(a[k])
      invariant forall k :: j <= k < i ==> cmp(sorted[k], x) > 0
    {
      a[j] := a[j - 1];
      j := j - 1;
    }
    a[j] := x;
    InsertAt(sorted, x, cmp, j);
    OpenedAt(a[..i + 1], sorted, x, j);
  }

  /** A sequence that is `s` with `x` placed at position `j`, element by element. */
  lemma OpenedAt<T>(p: seq<T>, s: seq<T>, x: T, j: nat)
    requires j <= |s| && |p| == |s| + 1
    requires forall k :: 0 <= k < j ==> p[k] == s[k]
    requires p[j] == x
    requires forall k :: j < k < |p| ==> p[k] == s[k - 1]
    ensures p == s[..j] + [x] + s[j..]
  {
  }

  /**
   * `[...data].sort(compare)` on the copy: the array ends up holding the stable insertion
   * sort of what it held, one element inserted into the sorted prefix at a time.
   */
  method SortInPlace<T>(a: array<T>, cmp: (T, T) -> int)
    modifies a
    ensures a[..] == InsertionSorted(old(a[..]), cmp)
  {
    ghost var input := a[..];
    var i := 0;
    while i < a.Length
      invariant 0 <= i <= a.Length
      invariant a[..i] == InsertionSorted(input[..i], cmp)
      invariant a[i..] == input[i..]
    {
      assert a[i] == input[i];
      InsertInPlace(a, i, cmp);
      assert input[..i + 1][..i] == input[..i];
      i := i + 1;
    }
    assert a[..] == a[..a.Length];
    assert input == input[..a.Length];
  }
}
