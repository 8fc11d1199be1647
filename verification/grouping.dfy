/**
 * The two pandas aggregations the summary uses, on one column of cells:
 * `value_counts()` (occurrences per distinct value, most frequent first) and
 * `groupby(key)[balance].mean()` (average per distinct key, keys in sorted
 * order). Missing cells are dropped by both, as pandas drops NaN.
 */
module Grouping {
  import opened Wrappers

  /** The distinct values present in a column (missing cells excluded). */
  function PresentValues(cells: seq<Option<string>>): set<string> {
    set c | c in cells && c.Some? :: c.value
  }

  /** Number of cells holding exactly `v`; a missing cell never matches. */
  function Occurrences(cells: seq<Option<string>>, v: string): (n: nat)
    ensures n <= |cells|
    ensures n == multiset(cells)[Some(v)]
  {
    if cells == [] then 0
    else
      assert cells == cells[..|cells| - 1] + [cells[|cells| - 1]];
      Occurrences(cells[..|cells| - 1], v) + (if cells[|cells| - 1] == Some(v) then 1 else 0)
  }

  lemma {:induction false} OccurrencesPositive(cells: seq<Option<string>>, v: string)
    ensures Occurrences(cells, v) > 0 <==> v in PresentValues(cells)
  {
    if cells != [] {
      var init := cells[..|cells| - 1];
      OccurrencesPositive(init, v);
      assert cells == init + [cells[|cells| - 1]];
      assert PresentValues(cells) == PresentValues(init) + PresentValues([cells[|cells| - 1]]);
    }
  }

  predicate Distinct(s: seq<string>) {
    forall i, j :: 0 <= i < j < |s| ==> s[i] != s[j]
  }

  /** The distinct present values, in order of first appearance. */
  function FirstSeen(cells: seq<Option<string>>): (r: seq<string>)
    ensures Distinct(r)
    ensures forall v :: v in r <==> v in PresentValues(cells)
  {
    if cells == [] then []
    else
      var init := cells[..|cells| - 1];
      var last := cells[|cells| - 1];
      var p := FirstSeen(init);
      assert cells == init + [last];
      assert PresentValues(cells) == PresentValues(init) + PresentValues([last]);
      if last.Some? && last.value !in p then p + [last.value] else p
  }

  lemma {:induction false} DistinctCardinality(s: seq<string>)
    requires Distinct(s)
    ensures |set v | v in s| == |s|
  {
    if s != [] {
      var init := s[..|s| - 1];
      DistinctCardinality(init);
      assert (set v | v in s) == (set v | v in init) + {s[|s| - 1]};
      assert s[|s| - 1] !in (set v | v in init);
    }
  }

  lemma FirstSeenLength(cells: seq<Option<string>>)
    ensures |FirstSeen(cells)| == |PresentValues(cells)|
  {
    var r := FirstSeen(cells);
    DistinctCardinality(r);
    assert (set v | v in r) == PresentValues(cells);
  }

  // ---------------------------------------------------------------------------
  // value_counts

  /** One row of a count section: a value and how many cells hold it. */
  datatype Tally = Tally(value: string, count: nat)

  predicate NonIncreasing(ts: seq<Tally>) {
    forall i, j :: 0 <= i < j < |ts| ==> ts[i].count >= ts[j].count
  }

  function Values(ts: seq<Tally>): (vs: seq<string>)
    ensures |vs| == |ts| && forall i :: 0 <= i < |ts| ==> vs[i] == ts[i].value
  {
    seq(|ts|, i requires 0 <= i < |ts| => ts[i].value)
  }

  lemma ValuesAppend(s: seq<Tally>, t: Tally)
    ensures Values(s + [t]) == Values(s) + [t.value]
  {
  }

  /**
   * Insert `t` into a list sorted by non-increasing count, after every entry
   * whose count is at least as large (so equal counts keep their order).
   */
  function InsertByCount(s: seq<Tally>, t: Tally): (r: seq<Tally>)
    ensures multiset(r) == multiset(s) + multiset{t}
    ensures multiset(Values(r)) == multiset(Values(s)) + multiset{t.value}
  {
    if s == [] then [t]
    else if s[|s| - 1].count >= t.count then
      ValuesAppend(s, t);
      s + [t]
    else
      var init, last := s[..|s| - 1], s[|s| - 1];
      assert s == init + [last];
      ValuesAppend(init, last);
      ValuesAppend(InsertByCount(init, t), last);
      InsertByCount(init, t) + [last]
  }

  /** Appending a tally no larger than any before it keeps the list non-increasing. */
  lemma NonIncreasingAppend(s: seq<Tally>, x: Tally)
    requires NonIncreasing(s)
    requires forall k :: 0 <= k < |s| ==> s[k].count >= x.count
    ensures NonIncreasing(s + [x])
  {
  }

  lemma {:induction false} InsertByCountSorted(s: seq<Tally>, t: Tally)
    requires NonIncreasing(s)
    ensures NonIncreasing(InsertByCount(s, t))
  {
    if s == [] {
    } else if s[|s| - 1].count >= t.count {
      NonIncreasingAppend(s, t);
    } else {
      var init, last := s[..|s| - 1], s[|s| - 1];
      assert NonIncreasing(init);
      InsertByCountSorted(init, t);
      var r' := InsertByCount(init, t);
      forall k | 0 <= k < |r'|
        ensures r'[k].count >= last.count
      {
        var x := r'[k];
        assert x in multiset(r');
        if x != t {
          assert x in multiset(init);
          var m :| 0 <= m < |init| && init[m] == x;
          assert s[m] == x;
        }
      }
      NonIncreasingAppend(r', last);
    }
  }

  /** Stable sort by non-increasing count (an insertion sort). */
  function SortByCount(ts: seq<Tally>): (r: seq<Tally>)
    ensures multiset(r) == multiset(ts)
    ensures multiset(Values(r)) == multiset(Values(ts))
    ensures NonIncreasing(r)
  {
    if ts == [] then []
    else
      var init, last := ts[..|ts| - 1], ts[|ts| - 1];
      assert ts == init + [last];
      ValuesAppend(init, last);
      InsertByCountSorted(SortByCount(init), last);
      InsertByCount(SortByCount(init), last)
  }

  /** `value_counts()`: every distinct present value with its number of occurrences, most frequent first. */
  function ValueCounts(cells: seq<Option<string>>): (r: seq<Tally>)
    ensures multiset(Values(r)) == multiset(FirstSeen(cells))
    ensures NonIncreasing(r)
  {
    SortByCount(Tallies(cells, FirstSeen(cells)))
  }

  /** Each value of `ks` paired with its number of occurrences, in the order of `ks`. */
  function Tallies(cells: seq<Option<string>>, ks: seq<string>): (ts: seq<Tally>)
    ensures Values(ts) == ks
  {
    seq(|ks|, i requires 0 <= i < |ks| => Tally(ks[i], Occurrences(cells, ks[i])))
  }

  lemma MultisetTwice(b: seq<string>, i: nat, j: nat)
    requires i < j < |b| && b[i] == b[j]
    ensures multiset(b)[b[i]] >= 2
  {
    assert b == b[..i] + [b[i]] + b[i + 1..];
    assert b[j] in b[i + 1..];
    assert multiset(b) == multiset(b[..i]) + multiset{b[i]} + multiset(b[i + 1..]);
  }

  lemma MultisetOnce(a: seq<string>, k: nat)
    requires Distinct(a) && k < |a|
    ensures multiset(a)[a[k]] == 1
  {
    assert a == a[..k] + [a[k]] + a[k + 1..];
    assert multiset(a) == multiset(a[..k]) + multiset{a[k]} + multiset(a[k + 1..]);
    assert a[k] !in a[..k] && a[k] !in a[k + 1..];
  }

  /** A reordering of a list without repetitions has none either. */
  lemma MultisetDistinct(a: seq<string>, b: seq<string>)
    requires multiset(a) == multiset(b) && Distinct(a)
    ensures Distinct(b)
  {
    forall i, j | 0 <= i < j < |b|
      ensures b[i] != b[j]
    {
      if b[i] == b[j] {
        MultisetTwice(b, i, j);
        assert b[i] in multiset(a);
        var k :| 0 <= k < |a| && a[k] == b[i];
        MultisetOnce(a, k);
        assert false;
      }
    }
  }

  /**
   * The count section of a column: one tally per distinct present value, no
   * value twice, each holding that value's number of occurrences, counts
   * never increasing down the list.
   */
  lemma ValueCountsSpec(cells: seq<Option<string>>)
    ensures Distinct(Values(ValueCounts(cells)))
    ensures forall v :: v in Values(ValueCounts(cells)) <==> v in PresentValues(cells)
    ensures |ValueCounts(cells)| == |PresentValues(cells)|
    ensures forall t :: t in ValueCounts(cells) ==> t.count == Occurrences(cells, t.value) && t.count > 0
    ensures NonIncreasing(ValueCounts(cells))
  {
    var ks := FirstSeen(cells);
    var u := Tallies(cells, ks);
    var r := ValueCounts(cells);
    MultisetDistinct(ks, Values(r));
    forall v
      ensures v in Values(r) <==> v in PresentValues(cells)
    {
      assert v in Values(r) <==> v in multiset(Values(r));
      assert v in ks <==> v in multiset(ks);
    }
    assert |r| == |multiset(r)| == |multiset(u)| == |u|;
    FirstSeenLength(cells);
    forall t | t in r
      ensures t.count == Occurrences(cells, t.value) && t.count > 0
    {
      assert t in multiset(u);
      var i :| 0 <= i < |u| && u[i] == t;
      OccurrencesPositive(cells, t.value);
    }
  }

  // ---------------------------------------------------------------------------
  // groupby(key)[balance].mean()

  /** Python's string order: code point by code point, a proper prefix first. No key sorts before itself. */
  predicate Below(a: string, b: string): (r: bool)
    ensures r ==> a != b
  {
    if a == [] then b != []
    else if b == [] then false
    else if a[0] != b[0] then a[0] < b[0]
    else Below(a[1..], b[1..])
  }

  /** The textbook lexicographic order: after a common prefix, `a` ends first or has the smaller character. */
  predicate LexLess(a: string, b: string) {
    exists k :: 0 <= k <= |a| && k < |b| && a[..k] == b[..k] && (k == |a| || a[k] < b[k])
  }

  /** The recursive comparison is the lexicographic order. */
  lemma {:induction false} BelowIsLexLess(a: string, b: string)
    ensures Below(a, b) <==> LexLess(a, b)
  {
    if a == [] || b == [] {
      assert a[..0] == b[..0];
    } else if a[0] != b[0] {
      assert a[..0] == b[..0];
      forall k | 0 < k <= |a| && k < |b|
        ensures a[..k] != b[..k]
      {
        assert a[..k][0] == a[0] && b[..k][0] == b[0];
      }
    } else {
      var a', b' := a[1..], b[1..];
      BelowIsLexLess(a', b');
      if LexLess(a', b') {
        var k :| 0 <= k <= |a'| && k < |b'| && a'[..k] == b'[..k] && (k == |a'| || a'[k] < b'[k]);
        assert a[..k + 1] == [a[0]] + a'[..k] && b[..k + 1] == [b[0]] + b'[..k];
      }
      if LexLess(a, b) {
        var k :| 0 <= k <= |a| && k < |b| && a[..k] == b[..k] && (k == |a| || a[k] < b[k]);
        assert k > 0;
        assert a'[..k - 1] == a[..k][1..] && b'[..k - 1] == b[..k][1..];
      }
    }
  }

  lemma {:induction false} BelowTransitive(a: string, b: string, c: string)
    requires Below(a, b) && Below(b, c)
    ensures Below(a, c)
  {
    if a != [] && b != [] && c != [] && a[0] == b[0] && b[0] == c[0] {
      BelowTransitive(a[1..], b[1..], c[1..]);
    }
  }

  lemma {:induction false} BelowTotal(a: string, b: string)
    requires a != b
    ensures Below(a, b) || Below(b, a)
  {
    if a != [] && b != [] && a[0] == b[0] {
      assert a == [a[0]] + a[1..] && b == [b[0]] + b[1..];
      BelowTotal(a[1..], b[1..]);
    }
  }

  /** Strictly increasing in Python's string order. */
  predicate Ascending(s: seq<string>) {
    forall i, j :: 0 <= i < j < |s| ==> Below(s[i], s[j])
  }

  /** Insert a key that is not yet present into an ascending list of keys. */
  function InsertKey(s: seq<string>, k: string): (r: seq<string>)
    ensures multiset(r) == multiset(s) + multiset{k}
  {
    if s == [] then [k]
    else if Below(k, s[0]) then [k] + s
    else
      assert s == [s[0]] + s[1..];
      [s[0]] + InsertKey(s[1..], k)
  }

  lemma {:induction false} InsertKeyAscending(s: seq<string>, k: string)
    requires Ascending(s) && k !in s
    ensures Ascending(InsertKey(s, k))
  {
    if s == [] {
    } else if Below(k, s[0]) {
      forall j | 0 <= j < |s|
        ensures Below(k, s[j])
      {
        if j > 0 {
          BelowTransitive(k, s[0], s[j]);
        }
      }
    } else {
      BelowTotal(k, s[0]);
      InsertKeyAscending(s[1..], k);
      var r' := InsertKey(s[1..], k);
      forall x | x in r'
        ensures Below(s[0], x)
      {
        assert x in multiset(r');
        assert x in multiset(s[1..]) || x == k;
      }
    }
  }

  /** The keys of `ks` in ascending order (the sorted group keys of `groupby`). */
  function SortKeys(ks: seq<string>): (r: seq<string>)
    ensures multiset(r) == multiset(ks)
  {
    if ks == [] then []
    else
      assert ks == [ks[0]] + ks[1..];
      InsertKey(SortKeys(ks[1..]), ks[0])
  }

  lemma {:induction false} SortKeysAscending(ks: seq<string>)
    requires Distinct(ks)
    ensures Ascending(SortKeys(ks))
  {
    if ks != [] {
      SortKeysAscending(ks[1..]);
      assert ks[0] !in ks[1..];
      assert ks[0] !in SortKeys(ks[1..]) by {
        assert ks[0] !in multiset(ks[1..]);
        assert multiset(SortKeys(ks[1..])) == multiset(ks[1..]);
      }
      InsertKeyAscending(SortKeys(ks[1..]), ks[0]);
    }
  }

  /** Sum of the amounts of the rows whose key cell holds `k`. */
  function GroupSum(keys: seq<Option<string>>, amounts: seq<real>, k: string): (r: real)
    requires |amounts| == |keys|
    ensures Occurrences(keys, k) == 0 ==> r == 0.0
  {
    if keys == [] then 0.0
    else
      GroupSum(keys[..|keys| - 1], amounts[..|amounts| - 1], k)
      + (if keys[|keys| - 1] == Some(k) then amounts[|amounts| - 1] else 0.0)
  }

  /** A group's sum is 0 when every amount is 0. */
  lemma {:induction false} GroupSumOfZeros(keys: seq<Option<string>>, amounts: seq<real>, k: string)
    requires |amounts| == |keys|
    requires forall x :: x in amounts ==> x == 0.0
    ensures GroupSum(keys, amounts, k) == 0.0
  {
    if keys != [] {
      var init := amounts[..|amounts| - 1];
      assert forall x :: x in init ==> x in amounts;
      GroupSumOfZeros(keys[..|keys| - 1], init, k);
      assert amounts[|amounts| - 1] in amounts;
    }
  }

  /** Arithmetic mean of a group of `size` rows whose amounts add up to `total`. */
  function Mean(total: real, size: nat): (m: real)
    requires size > 0
    ensures m * size as real == total
  {
    total / size as real
  }

  /** One row of the averages section: a key and the mean amount of its group. */
  datatype Average = Average(key: string, mean: real)

  function Keys(avgs: seq<Average>): (ks: seq<string>)
    ensures |ks| == |avgs| && forall i :: 0 <= i < |avgs| ==> ks[i] == avgs[i].key
  {
    seq(|avgs|, i requires 0 <= i < |avgs| => avgs[i].key)
  }

  /** Every sorted distinct key occurs in the column. */
  lemma SortedKeysOccur(keys: seq<Option<string>>)
    ensures forall i :: 0 <= i < |SortKeys(FirstSeen(keys))| ==> Occurrences(keys, SortKeys(FirstSeen(keys))[i]) > 0
  {
    var ks := SortKeys(FirstSeen(keys));
    forall i | 0 <= i < |ks|
      ensures Occurrences(keys, ks[i]) > 0
    {
      assert ks[i] in multiset(FirstSeen(keys));
      OccurrencesPositive(keys, ks[i]);
    }
  }

  /**
   * `groupby(key)[amount].mean()`: one entry per distinct present key, in
   * ascending key order, holding the group's sum divided by its size.
   */
  function GroupMeans(keys: seq<Option<string>>, amounts: seq<real>): (r: seq<Average>)
    requires |amounts| == |keys|
    ensures Keys(r) == SortKeys(FirstSeen(keys))
    ensures forall i :: 0 <= i < |r| ==> Occurrences(keys, r[i].key) > 0
    ensures forall i :: 0 <= i < |r| ==> r[i].mean == Mean(GroupSum(keys, amounts, r[i].key), Occurrences(keys, r[i].key))
  {
    var ks := SortKeys(FirstSeen(keys));
    SortedKeysOccur(keys);
    seq(|ks|, i requires 0 <= i < |ks| =>
          Average(ks[i], Mean(GroupSum(keys, amounts, ks[i]), Occurrences(keys, ks[i]))))
  }

  /**
   * The averages section of a column: one entry per distinct present key,
   * keys strictly ascending, each mean being the group's total over its size.
   */
  lemma GroupMeansSpec(keys: seq<Option<string>>, amounts: seq<real>)
    requires |amounts| == |keys|
    ensures Ascending(Keys(GroupMeans(keys, amounts)))
    ensures forall v :: v in Keys(GroupMeans(keys, amounts)) <==> v in PresentValues(keys)
    ensures |GroupMeans(keys, amounts)| == |PresentValues(keys)|
  {
    var ks := FirstSeen(keys);
    SortKeysAscending(ks);
    FirstSeenLength(keys);
    forall v
      ensures v in SortKeys(ks) <==> v in ks
    {
      assert v in SortKeys(ks) <==> v in multiset(SortKeys(ks));
    }
    assert |SortKeys(ks)| == |multiset(SortKeys(ks))| == |ks|;
  }

  // ---------------------------------------------------------------------------
  // The groups partition the rows that have a key

  /** The group sums of the keys `ks`, added up. */
  function SumOfGroups(keys: seq<Option<string>>, amounts: seq<real>, ks: seq<string>): real
    requires |amounts| == |keys|
  {
    if ks == [] then 0.0
    else SumOfGroups(keys, amounts, ks[..|ks| - 1]) + GroupSum(keys, amounts, ks[|ks| - 1])
  }

  /** The amounts of the rows whose key cell is present (rows pandas does not drop), added up. */
  function PresentSum(keys: seq<Option<string>>, amounts: seq<real>): real
    requires |amounts| == |keys|
  {
    if keys == [] then 0.0
    else PresentSum(keys[..|keys| - 1], amounts[..|amounts| - 1])
         + (if keys[|keys| - 1].Some? then amounts[|amounts| - 1] else 0.0)
  }

  lemma {:induction false} SumOfGroupsNoRows(ks: seq<string>)
    ensures SumOfGroups([], [], ks) == 0.0
  {
    if ks != [] {
      SumOfGroupsNoRows(ks[..|ks| - 1]);
    }
  }

  /**
   * Peeling off the last row: its amount lands in exactly one of the groups
   * of distinct keys `ks`, the one of its key, when that key is among them.
   */
  lemma {:induction false} SumOfGroupsLastRow(keys: seq<Option<string>>, amounts: seq<real>, ks: seq<string>)
    requires |amounts| == |keys| && keys != [] && Distinct(ks)
    ensures var n := |keys|;
      SumOfGroups(keys, amounts, ks)
      == SumOfGroups(keys[..n - 1], amounts[..n - 1], ks)
         + (if keys[n - 1].Some? && keys[n - 1].value in ks then amounts[n - 1] else 0.0)
  {
    if ks != [] {
      var n, m := |keys|, |ks|;
      var front, k := ks[..m - 1], ks[m - 1];
      assert Distinct(front);
      SumOfGroupsLastRow(keys, amounts, front);
      assert k !in front;
      assert forall v :: v in ks <==> v in front || v == k by {
        assert ks == front + [k];
      }
    }
  }

  /**
   * With distinct keys `ks` covering every present key, the group sums add
   * up to the amounts of all rows that have a key: no such row is left out
   * and none is counted twice.
   */
  lemma {:induction false} GroupsPartitionRows(keys: seq<Option<string>>, amounts: seq<real>, ks: seq<string>)
    requires |amounts| == |keys| && Distinct(ks)
    requires forall v :: v in PresentValues(keys) ==> v in ks
    ensures SumOfGroups(keys, amounts, ks) == PresentSum(keys, amounts)
  {
    if keys == [] {
      SumOfGroupsNoRows(ks);
    } else {
      var n := |keys|;
      var init, last := keys[..n - 1], keys[n - 1];
      assert keys == init + [last];
      assert PresentValues(keys) == PresentValues(init) + PresentValues([last]);
      GroupsPartitionRows(init, amounts[..n - 1], ks);
      SumOfGroupsLastRow(keys, amounts, ks);
      if last.Some? {
        assert last.value in PresentValues(keys);
      }
    }
  }

  /**
   * The groups `groupby` reports partition the rows with a key: their sums
   * add up to the total amount of those rows.
   */
  lemma GroupSumsCoverPresentRows(keys: seq<Option<string>>, amounts: seq<real>)
    requires |amounts| == |keys|
    ensures SumOfGroups(keys, amounts, Keys(GroupMeans(keys, amounts))) == PresentSum(keys, amounts)
  {
    var ks := Keys(GroupMeans(keys, amounts));
    GroupMeansSpec(keys, amounts);
    MultisetDistinct(FirstSeen(keys), ks);
    GroupsPartitionRows(keys, amounts, ks);
  }
}
