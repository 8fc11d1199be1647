/**
 * `compute_summary_table`: the two-column report written to the Summary tab.
 * A Metric/Value block with the balance total, then three sections each
 * introduced by a blank row and a header row: counts per payment status,
 * counts per account type, and average balance per account type.
 */
module Summary {
  import opened Wrappers
  import opened Numbers
  import opened Frame
  import opened Grouping

  const BALANCE := "balance"
  const PAYMENT_STATUS := "payment_status"
  const ACCOUNT_TYPE := "account_type"

  const SEPARATOR := ["", ""]
  const METRIC_HEADER := ["Metric", "Value"]
  const PAYMENT_HEADER := ["Payment status", "Count"]
  const ACCOUNT_HEADER := ["Account type", "Count"]
  const AVERAGE_HEADER := ["Account type", "Average balance"]

  /** `to_numeric(errors='coerce').fillna(0)` of one balance cell. */
  function Coerce(c: Cell): (r: real)
    ensures r != 0.0 ==> c.Some? && ParseDecimal(c.value) == Some(r)
    ensures c.Some? && ParseDecimal(c.value).Some? ==> r == ParseDecimal(c.value).value
  {
    match c
    case None => 0.0
    case Some(s) => ParseDecimal(s).GetOr(0.0)
  }

  /** A whole column coerced cell by cell. */
  function Coerced(cells: seq<Cell>): (b: seq<real>)
    ensures |b| == |cells|
    ensures forall i :: 0 <= i < |cells| ==> b[i] == Coerce(cells[i])
  {
    if cells == [] then [] else Coerced(cells[..|cells| - 1]) + [Coerce(cells[|cells| - 1])]
  }

  /**
   * The numeric balance column of the working copy: the coerced `balance`
   * column, or all zeros when the table has none.
   */
  function Balances(t: Table): (b: seq<real>)
    requires t.Valid()
    ensures |b| == |t.rows|
    ensures BALANCE !in t.columns ==> forall x :: x in b ==> x == 0.0
    ensures BALANCE in t.columns ==> b == Coerced(Column(t, BALANCE).value)
  {
    match Column(t, BALANCE)
    case None => seq(|t.rows|, _ => 0.0)
    case Some(col) => Coerced(col)
  }

  /** The sum of an amount column; a column of non-negative amounts has a non-negative sum. */
  function Sum(xs: seq<real>): (r: real)
    ensures (forall x :: x in xs ==> x >= 0.0) ==> r >= 0.0
  {
    if xs == [] then 0.0
    else
      var init := xs[..|xs| - 1];
      assert forall x :: x in init ==> x in xs;
      assert xs[|xs| - 1] in xs;
      Sum(init) + xs[|xs| - 1]
  }

  /** `df['balance'].sum()` on the working copy. */
  function Total(t: Table): (r: real)
    requires t.Valid()
    ensures BALANCE !in t.columns ==> r == 0.0
  {
    SumOfZeros(|t.rows|);
    Sum(Balances(t))
  }

  /** The count section for column `name`; empty when the column is absent. */
  function CountsOf(t: Table, name: string): (r: seq<Tally>)
    requires t.Valid()
    ensures name !in t.columns ==> r == []
    ensures NonIncreasing(r)
  {
    match Column(t, name)
    case None => []
    case Some(col) => ValueCounts(col)
  }

  /** The average balance per account type; empty when the column is absent. */
  function AveragesByType(t: Table): (r: seq<Average>)
    requires t.Valid()
    ensures ACCOUNT_TYPE !in t.columns ==> r == []
    ensures Ascending(Keys(r))
  {
    match Column(t, ACCOUNT_TYPE)
    case None => []
    case Some(col) => GroupMeansSpec(col, Balances(t)); GroupMeans(col, Balances(t))
  }

  /** `[k, str(v)]` for one tally. */
  function CountRow(c: Tally): (r: seq<string>)
    ensures |r| == 2 && r[0] == c.value
    ensures r[1] != [] && AllDigits(r[1])
  {
    [c.value, NatToString(c.count)]
  }

  /** The count cell reads back as the count. */
  lemma CountRowReadsBack(c: Tally)
    ensures ParseDecimal(CountRow(c)[1]) == Some(c.count as real)
  {
    ParseNatToString(c.count);
  }

  /** `.round(2)` of a mean, as an exact value (a rounded value rounds to itself). */
  function Round2(x: real): (r: real)
    ensures r * 100.0 == Cents(x) as real
    ensures -0.005 <= r - x <= 0.005
    ensures Cents(r) == Cents(x)
  {
    var c := Cents(x);
    assert (c as real / 100.0) * 100.0 == c as real;
    CentsClose(x);
    c as real / 100.0
  }

  /**
   * `[k, f"{v:.2f}"]` for one average, `v` being the mean after `.round(2)`.
   * Formatting the mean itself gives the same text: rounding to two decimals
   * first changes no digit, and a negative mean that rounds to zero still
   * prints as "-0.00" (see `FormatRoundedMean`).
   */
  function AverageRow(a: Average): (r: seq<string>)
    ensures |r| == 2 && r[0] == a.key && |r[1]| >= 4
  {
    [a.key, FormatAmount(a.mean)]
  }

  /** The average cell reads back as the mean after `.round(2)`, and is signed exactly when the mean is negative. */
  lemma AverageRowReadsBack(a: Average)
    ensures ParseDecimal(AverageRow(a)[1]) == Some(Round2(a.mean))
    ensures AverageRow(a)[1][0] == '-' <==> a.mean < 0.0
  {
    FormatAmountSign(a.mean);
    FormatAmountRoundTrip(a.mean);
  }

  /**
   * Formatting the rounded mean agrees with formatting the mean, except where
   * an exact value cannot carry a sign: a negative mean that rounds to zero.
   */
  lemma FormatRoundedMean(x: real)
    ensures x >= 0.0 || Round2(x) != 0.0 ==> FormatAmount(Round2(x)) == FormatAmount(x)
    ensures x < 0.0 && Round2(x) == 0.0 ==> FormatAmount(x) == "-0.00"
  {
    var c, y := Cents(x), Round2(x);
    assert Cents(y) == c;
    var u := Hundredths(if c < 0 then -c else c);
    assert FormatAmount(x) == (if x < 0.0 then "-" else "") + u;
    assert FormatAmount(y) == (if y < 0.0 then "-" else "") + u;
    assert y == c as real / 100.0;
    if x >= 0.0 {
      assert c >= 0 && y >= 0.0;
    } else if y != 0.0 {
      assert c < 0 && y < 0.0;
    } else {
      assert c == 0;
      assert u == "0.00" by {
        assert NatToString(0) == "0";
      }
    }
  }

  function CountRows(cs: seq<Tally>): (rows: seq<seq<string>>)
    ensures |rows| == |cs|
    ensures forall i :: 0 <= i < |cs| ==> rows[i] == CountRow(cs[i])
  {
    if cs == [] then [] else CountRows(cs[..|cs| - 1]) + [CountRow(cs[|cs| - 1])]
  }

  function AverageRows(avgs: seq<Average>): (rows: seq<seq<string>>)
    ensures |rows| == |avgs|
    ensures forall i :: 0 <= i < |avgs| ==> rows[i] == AverageRow(avgs[i])
  {
    if avgs == [] then [] else AverageRows(avgs[..|avgs| - 1]) + [AverageRow(avgs[|avgs| - 1])]
  }

  /** The Metric/Value block, given the rendered total. */
  function MetricBlock(totalText: string): (g: Grid)
    ensures |g| == 2 && |g[0]| == 2 && |g[1]| == 2
    ensures g[0] != SEPARATOR && g[1] != SEPARATOR
  {
    [METRIC_HEADER, ["Total balance", totalText]]
  }

  /** A section: blank separator row, header row, then its entries. */
  function Section(header: seq<string>, entries: Grid): (g: Grid)
    ensures |g| == |entries| + 2
  {
    [SEPARATOR, header] + entries
  }

  /** The four blocks of the report, whatever their entry rows hold. */
  function Layout(totalText: string, p: Grid, a: Grid, v: Grid): (r: Grid)
    ensures |r| == 8 + |p| + |a| + |v|
  {
    MetricBlock(totalText) + Section(PAYMENT_HEADER, p) + Section(ACCOUNT_HEADER, a) + Section(AVERAGE_HEADER, v)
  }

  /** The report laid out from its computed parts. */
  function Report(total: real, paymentCounts: seq<Tally>, accountTypeCounts: seq<Tally>,
                  avgBalanceByType: seq<Average>): (r: Grid)
    ensures |r| == 8 + |paymentCounts| + |accountTypeCounts| + |avgBalanceByType|
    ensures r[0] == METRIC_HEADER
  {
    Layout(FormatAmount(total), CountRows(paymentCounts), CountRows(accountTypeCounts), AverageRows(avgBalanceByType))
  }

  /** The report of a table. */
  function SummaryTable(t: Table): (r: Grid)
    requires t.Valid()
    ensures |r| >= 8 && r[0] == METRIC_HEADER
  {
    Report(Total(t), CountsOf(t, PAYMENT_STATUS), CountsOf(t, ACCOUNT_TYPE), AveragesByType(t))
  }

  /** The `for k, v in ...counts.items(): table.append([k, str(v)])` loop. */
  method AppendCountRows(table: Grid, counts: seq<Tally>) returns (r: Grid)
    ensures r == table + CountRows(counts)
  {
    r := table;
    for i := 0 to |counts|
      invariant r == table + CountRows(counts[..i])
    {
      assert counts[..i + 1][..i] == counts[..i];
      r := r + [CountRow(counts[i])];
    }
    assert counts[..|counts|] == counts;
  }

  /** The `for k, v in avg_balance_by_type.items(): table.append([k, f"{v:.2f}"])` loop. */
  method AppendAverageRows(table: Grid, avgs: seq<Average>) returns (r: Grid)
    ensures r == table + AverageRows(avgs)
  {
    r := table;
    for i := 0 to |avgs|
      invariant r == table + AverageRows(avgs[..i])
    {
      assert avgs[..i + 1][..i] == avgs[..i];
      r := r + [AverageRow(avgs[i])];
    }
    assert avgs[..|avgs|] == avgs;
  }

  /** The layout is the header, the total, and each section's separator, header and rows, appended one by one. */
  lemma LayoutAsAppends(m: string, p: Grid, a: Grid, v: Grid)
    ensures Layout(m, p, a, v)
         == [] + [METRIC_HEADER] + [["Total balance", m]]
            + [SEPARATOR] + [PAYMENT_HEADER] + p
            + [SEPARATOR] + [ACCOUNT_HEADER] + a
            + [SEPARATOR] + [AVERAGE_HEADER] + v
  {
  }

  /** `compute_summary_table`, appending row after row as the source does. */
  method ComputeSummaryTable(df: Table) returns (table: Grid)
    requires df.Valid()
    ensures table == SummaryTable(df)
  {
    var totalBalance := Total(df);
    var paymentCounts := CountsOf(df, PAYMENT_STATUS);
    var accountTypeCounts := CountsOf(df, ACCOUNT_TYPE);
    var avgBalanceByType := AveragesByType(df);

    table := [];
    table := table + [METRIC_HEADER];
    table := table + [["Total balance", FormatAmount(totalBalance)]];

    table := table + [SEPARATOR];
    table := table + [PAYMENT_HEADER];
    table := AppendCountRows(table, paymentCounts);

    table := table + [SEPARATOR];
    table := table + [ACCOUNT_HEADER];
    table := AppendCountRows(table, accountTypeCounts);

    table := table + [SEPARATOR];
    table := table + [AVERAGE_HEADER];
    table := AppendAverageRows(table, avgBalanceByType);

    LayoutAsAppends(FormatAmount(totalBalance), CountRows(paymentCounts), CountRows(accountTypeCounts),
                    AverageRows(avgBalanceByType));
  }

  // ---------------------------------------------------------------------------
  // Balance total

  /** The number a cell holds, if any: one element when its text parses, none otherwise. */
  function CellNumbers(c: Cell): seq<real> {
    if c.Some? && ParseDecimal(c.value).Some? then [ParseDecimal(c.value).value] else []
  }

  /** The numbers among a column's cells, in order; cells that are not numbers are dropped. */
  function NumbersIn(cells: seq<Cell>): seq<real> {
    if cells == [] then [] else NumbersIn(cells[..|cells| - 1]) + CellNumbers(cells[|cells| - 1])
  }

  lemma SumAppend(a: seq<real>, b: seq<real>)
    ensures Sum(a + b) == Sum(a) + Sum(b)
    decreases |b|
  {
    if b == [] {
      assert a + b == a;
    } else {
      assert (a + b)[..|a + b| - 1] == a + b[..|b| - 1];
      assert (a + b)[|a + b| - 1] == b[|b| - 1];
      SumAppend(a, b[..|b| - 1]);
    }
  }

  lemma {:induction false} SumCoercedIsSumOfNumbers(cells: seq<Cell>)
    ensures Sum(Coerced(cells)) == Sum(NumbersIn(cells))
  {
    if cells != [] {
      var init, last := cells[..|cells| - 1], cells[|cells| - 1];
      SumCoercedIsSumOfNumbers(init);
      SumAppend(NumbersIn(init), CellNumbers(last));
      SumNumbersInCell(last);
      assert Coerced(cells)[..|cells| - 1] == Coerced(init);
    }
  }

  lemma {:induction false} SumOfZeros(n: nat)
    ensures Sum(seq(n, _ => 0.0)) == 0.0
  {
    if n > 0 {
      SumOfZeros(n - 1);
      assert seq(n, _ => 0.0)[..n - 1] == seq(n - 1, _ => 0.0);
    }
  }

  /**
   * The total is the sum of the balance cells that are numbers: a missing or
   * non-numeric cell adds nothing, and a table without a balance column
   * totals 0.
   */
  lemma TotalIsSumOfNumericBalances(t: Table)
    requires t.Valid()
    ensures BALANCE !in t.columns ==> Total(t) == 0.0
    ensures BALANCE in t.columns ==> Total(t) == Sum(NumbersIn(Column(t, BALANCE).value))
  {
    match Column(t, BALANCE)
    case None => SumOfZeros(|t.rows|);
    case Some(col) => SumCoercedIsSumOfNumbers(col);
  }

  /** The parsed balances of the rows whose key cell holds `k`, in row order; text and blanks dropped. */
  function NumbersWhere(keys: seq<Cell>, cells: seq<Cell>, k: string): seq<real>
    requires |cells| == |keys|
  {
    if keys == [] then []
    else
      var last := cells[|cells| - 1];
      NumbersWhere(keys[..|keys| - 1], cells[..|cells| - 1], k)
      + (if keys[|keys| - 1] == Some(k) then CellNumbers(last) else [])
  }

  /** One cell's numbers add up to its coerced value. */
  lemma SumNumbersInCell(c: Cell)
    ensures Sum(CellNumbers(c)) == Coerce(c)
  {
    if c.Some? && ParseDecimal(c.value).Some? {
      assert [ParseDecimal(c.value).value][..0] == [];
    }
  }

  /** The last row adds its coerced balance to its own group's sum. */
  lemma GroupSumOfCoercedLast(keys: seq<Cell>, cells: seq<Cell>, k: string)
    requires |cells| == |keys| && keys != []
    ensures GroupSum(keys, Coerced(cells), k)
         == GroupSum(keys[..|keys| - 1], Coerced(cells[..|cells| - 1]), k)
            + (if keys[|keys| - 1] == Some(k) then Coerce(cells[|cells| - 1]) else 0.0)
  {
    assert Coerced(cells)[..|cells| - 1] == Coerced(cells[..|cells| - 1]);
  }

  /** The numbers of a group: those of all rows but the last, then the last row's if it is in the group. */
  lemma NumbersWhereUnfold(keys: seq<Cell>, cells: seq<Cell>, k: string)
    requires |cells| == |keys| && keys != []
    ensures NumbersWhere(keys, cells, k)
         == NumbersWhere(keys[..|keys| - 1], cells[..|cells| - 1], k)
            + (if keys[|keys| - 1] == Some(k) then CellNumbers(cells[|cells| - 1]) else [])
  {
  }

  /** The last row adds its parsed balance, if any, to its own group's numbers. */
  lemma NumbersWhereLast(keys: seq<Cell>, cells: seq<Cell>, k: string)
    requires |cells| == |keys| && keys != []
    ensures Sum(NumbersWhere(keys, cells, k))
         == Sum(NumbersWhere(keys[..|keys| - 1], cells[..|cells| - 1], k))
            + (if keys[|keys| - 1] == Some(k) then Coerce(cells[|cells| - 1]) else 0.0)
  {
    var last := cells[|cells| - 1];
    NumbersWhereUnfold(keys, cells, k);
    SumAppend(NumbersWhere(keys[..|keys| - 1], cells[..|cells| - 1], k),
              if keys[|keys| - 1] == Some(k) then CellNumbers(last) else []);
    SumNumbersInCell(last);
  }

  /** A group's sum of coerced balances is the sum of the numbers among that group's balance cells. */
  lemma {:induction false} GroupSumOfCoerced(keys: seq<Cell>, cells: seq<Cell>, k: string)
    requires |cells| == |keys|
    ensures GroupSum(keys, Coerced(cells), k) == Sum(NumbersWhere(keys, cells, k))
  {
    if keys != [] {
      GroupSumOfCoerced(keys[..|keys| - 1], cells[..|cells| - 1], k);
      GroupSumOfCoercedLast(keys, cells, k);
      NumbersWhereLast(keys, cells, k);
    }
  }

  /**
   * The balance total of one account type's group: the sum of the numeric
   * balances of its rows, or 0 when the table has no balance column.
   */
  lemma GroupBalanceSum(t: Table, k: string)
    requires t.Valid() && ACCOUNT_TYPE in t.columns
    ensures var keys := Column(t, ACCOUNT_TYPE).value;
      && (BALANCE !in t.columns ==> GroupSum(keys, Balances(t), k) == 0.0)
      && (BALANCE in t.columns ==> GroupSum(keys, Balances(t), k) == Sum(NumbersWhere(keys, Column(t, BALANCE).value, k)))
  {
    var keys := Column(t, ACCOUNT_TYPE).value;
    match Column(t, BALANCE)
    case None => GroupSumOfZeros(keys, Balances(t), k);
    case Some(col) => GroupSumOfCoerced(keys, col, k);
  }

  // ---------------------------------------------------------------------------
  // Layout of the report

  /** Rows that can follow a section header: two cells, the second never empty. */
  predicate EntryRows(g: Grid) {
    forall r :: r in g ==> |r| == 2 && r[1] != []
  }

  /** Row `j` of a section: the separator, the header, then the entries. */
  lemma SectionRow(header: seq<string>, entries: Grid, j: nat)
    requires j < 2 + |entries|
    ensures Section(header, entries)[j] == if j == 0 then SEPARATOR else if j == 1 then header else entries[j - 2]
  {
  }

  /** Row `i` of the layout, located in the block that holds it. */
  lemma LayoutRowAt(m: string, p: Grid, a: Grid, v: Grid, i: nat)
    requires i < 8 + |p| + |a| + |v|
    ensures Layout(m, p, a, v)[i] ==
      if i < 2 then MetricBlock(m)[i]
      else if i < 4 + |p| then Section(PAYMENT_HEADER, p)[i - 2]
      else if i < 6 + |p| + |a| then Section(ACCOUNT_HEADER, a)[i - 4 - |p|]
      else Section(AVERAGE_HEADER, v)[i - 6 - |p| - |a|]
  {
    RowOfFourBlocks(MetricBlock(m), Section(PAYMENT_HEADER, p), Section(ACCOUNT_HEADER, a), Section(AVERAGE_HEADER, v), i);
  }

  /**
   * The fixed rows of `g`: Metric/Value, the total written as `m`, and each
   * section's blank separator immediately followed by its literal header,
   * where np and na are the sizes of the first two sections.
   */
  predicate FixedRowsAt(g: Grid, m: string, np: nat, na: nat) {
    && |g| >= 8 + np + na
    && g[0] == METRIC_HEADER && g[1] == ["Total balance", m]
    && g[2] == SEPARATOR && g[3] == PAYMENT_HEADER
    && g[4 + np] == SEPARATOR && g[5 + np] == ACCOUNT_HEADER
    && g[6 + np + na] == SEPARATOR && g[7 + np + na] == AVERAGE_HEADER
  }

  /** The fixed rows of a layout sit where the section sizes put them. */
  lemma LayoutFixedRows(m: string, p: Grid, a: Grid, v: Grid)
    ensures FixedRowsAt(Layout(m, p, a, v), m, |p|, |a|)
  {
    var R := Layout(m, p, a, v);
    assert R[0] == METRIC_HEADER && R[1] == ["Total balance", m] by {
      LayoutRowAt(m, p, a, v, 0);
      LayoutRowAt(m, p, a, v, 1);
    }
    assert R[2] == SEPARATOR && R[3] == PAYMENT_HEADER by {
      LayoutRowAt(m, p, a, v, 2);
      LayoutRowAt(m, p, a, v, 3);
      SectionRow(PAYMENT_HEADER, p, 0);
      SectionRow(PAYMENT_HEADER, p, 1);
    }
    assert R[4 + |p|] == SEPARATOR && R[5 + |p|] == ACCOUNT_HEADER by {
      LayoutRowAt(m, p, a, v, 4 + |p|);
      LayoutRowAt(m, p, a, v, 5 + |p|);
      SectionRow(ACCOUNT_HEADER, a, 0);
      SectionRow(ACCOUNT_HEADER, a, 1);
    }
    assert R[6 + |p| + |a|] == SEPARATOR && R[7 + |p| + |a|] == AVERAGE_HEADER by {
      LayoutRowAt(m, p, a, v, 6 + |p| + |a|);
      LayoutRowAt(m, p, a, v, 7 + |p| + |a|);
      SectionRow(AVERAGE_HEADER, v, 0);
      SectionRow(AVERAGE_HEADER, v, 1);
    }
  }

  /** Between the fixed rows of `g`, the entry rows p, a and v, each in its own order. */
  predicate EntriesAt(g: Grid, p: Grid, a: Grid, v: Grid) {
    && |g| == 8 + |p| + |a| + |v|
    && (forall k :: 0 <= k < |p| ==> g[4 + k] == p[k])
    && (forall k :: 0 <= k < |a| ==> g[6 + |p| + k] == a[k])
    && (forall k :: 0 <= k < |v| ==> g[8 + |p| + |a| + k] == v[k])
  }

  /** A layout holds its sections' entries between the fixed rows. */
  lemma LayoutEntries(m: string, p: Grid, a: Grid, v: Grid)
    ensures EntriesAt(Layout(m, p, a, v), p, a, v)
  {
    forall k | 0 <= k < |p|
      ensures Layout(m, p, a, v)[4 + k] == p[k]
    {
      LayoutRowAt(m, p, a, v, 4 + k);
      SectionRow(PAYMENT_HEADER, p, k + 2);
    }
    forall k | 0 <= k < |a|
      ensures Layout(m, p, a, v)[6 + |p| + k] == a[k]
    {
      LayoutRowAt(m, p, a, v, 6 + |p| + k);
      SectionRow(ACCOUNT_HEADER, a, k + 2);
    }
    forall k | 0 <= k < |v|
      ensures Layout(m, p, a, v)[8 + |p| + |a| + k] == v[k]
    {
      LayoutRowAt(m, p, a, v, 8 + |p| + |a| + k);
      SectionRow(AVERAGE_HEADER, v, k + 2);
    }
  }

  /** One row of the layout is two cells wide, and is blank exactly at the three separator positions. */
  lemma LayoutRowShape(m: string, p: Grid, a: Grid, v: Grid, i: nat)
    requires EntryRows(p) && EntryRows(a) && EntryRows(v)
    requires i < 8 + |p| + |a| + |v|
    ensures var R := Layout(m, p, a, v);
      && |R[i]| == 2
      && (R[i] == SEPARATOR <==> i == 2 || i == 4 + |p| || i == 6 + |p| + |a|)
  {
    LayoutRowAt(m, p, a, v, i);
    if i < 2 {
    } else if i < 4 + |p| {
      SectionRow(PAYMENT_HEADER, p, i - 2);
      if 4 <= i {
        assert p[i - 4] in p;
      }
    } else if i < 6 + |p| + |a| {
      SectionRow(ACCOUNT_HEADER, a, i - 4 - |p|);
      if 6 + |p| <= i {
        assert a[i - 6 - |p|] in a;
      }
    } else {
      SectionRow(AVERAGE_HEADER, v, i - 6 - |p| - |a|);
      if 8 + |p| + |a| <= i {
        assert v[i - 8 - |p| - |a|] in v;
      }
    }
  }

  /**
   * Exactly three rows of `g` are blank separators: rows 2, 4 + np and
   * 6 + np + na, where np and na are the sizes of the first two sections.
   */
  predicate SeparatorsAt(g: Grid, np: int, na: int) {
    forall i :: 0 <= i < |g| ==> (g[i] == SEPARATOR <==> i == 2 || i == 4 + np || i == 6 + np + na)
  }

  /** The three separators of a layout, whatever the sections hold (even nothing). */
  lemma LayoutSeparators(m: string, p: Grid, a: Grid, v: Grid)
    requires EntryRows(p) && EntryRows(a) && EntryRows(v)
    ensures SeparatorsAt(Layout(m, p, a, v), |p|, |a|)
  {
    forall i | 0 <= i < |Layout(m, p, a, v)|
      ensures Layout(m, p, a, v)[i] == SEPARATOR <==> i == 2 || i == 4 + |p| || i == 6 + |p| + |a|
    {
      LayoutRowShape(m, p, a, v, i);
    }
  }

  /** Rendered counts and averages are entry rows. */
  lemma RenderedEntryRows(pc: seq<Tally>, ac: seq<Tally>, av: seq<Average>)
    ensures EntryRows(CountRows(pc)) && EntryRows(CountRows(ac)) && EntryRows(AverageRows(av))
  {
    forall r | r in CountRows(pc)
      ensures |r| == 2 && r[1] != []
    {
      var k :| 0 <= k < |pc| && CountRows(pc)[k] == r;
    }
    forall r | r in CountRows(ac)
      ensures |r| == 2 && r[1] != []
    {
      var k :| 0 <= k < |ac| && CountRows(ac)[k] == r;
    }
    forall r | r in AverageRows(av)
      ensures |r| == 2 && r[1] != []
    {
      var k :| 0 <= k < |av| && AverageRows(av)[k] == r;
    }
  }

  /** The report's fixed rows, with |pc| payment-status rows and |ac| account-type rows before them. */
  lemma ReportFixedRows(total: real, pc: seq<Tally>, ac: seq<Tally>, av: seq<Average>)
    ensures |Report(total, pc, ac, av)| == 8 + |pc| + |ac| + |av|
    ensures FixedRowsAt(Report(total, pc, ac, av), FormatAmount(total), |pc|, |ac|)
  {
    LayoutFixedRows(FormatAmount(total), CountRows(pc), CountRows(ac), AverageRows(av));
  }

  /**
   * Between the fixed rows, one rendered row per tally or average, in the
   * order of the section (CountRows and AverageRows render entry by entry).
   */
  lemma ReportEntries(total: real, pc: seq<Tally>, ac: seq<Tally>, av: seq<Average>)
    ensures EntriesAt(Report(total, pc, ac, av), CountRows(pc), CountRows(ac), AverageRows(av))
  {
    LayoutEntries(FormatAmount(total), CountRows(pc), CountRows(ac), AverageRows(av));
  }

  /** Exactly three rows are blank separators, whatever the sections hold (even nothing). */
  lemma ReportSeparators(total: real, pc: seq<Tally>, ac: seq<Tally>, av: seq<Average>)
    ensures SeparatorsAt(Report(total, pc, ac, av), |pc|, |ac|)
  {
    RenderedEntryRows(pc, ac, av);
    LayoutSeparators(FormatAmount(total), CountRows(pc), CountRows(ac), AverageRows(av));
  }

  /** Every row of the report has exactly two cells. */
  lemma ReportRowsArePairs(total: real, pc: seq<Tally>, ac: seq<Tally>, av: seq<Average>)
    ensures forall i :: 0 <= i < |Report(total, pc, ac, av)| ==> |Report(total, pc, ac, av)[i]| == 2
  {
    var m, p, a, v := FormatAmount(total), CountRows(pc), CountRows(ac), AverageRows(av);
    RenderedEntryRows(pc, ac, av);
    forall i | 0 <= i < |Layout(m, p, a, v)|
      ensures |Layout(m, p, a, v)[i]| == 2
    {
      LayoutRowShape(m, p, a, v, i);
    }
  }

  lemma RowOfFourBlocks<T>(m: seq<T>, s1: seq<T>, s2: seq<T>, s3: seq<T>, i: nat)
    requires i < |m| + |s1| + |s2| + |s3|
    ensures (m + s1 + s2 + s3)[i] ==
      if i < |m| then m[i]
      else if i < |m| + |s1| then s1[i - |m|]
      else if i < |m| + |s1| + |s2| then s2[i - |m| - |s1|]
      else s3[i - |m| - |s1| - |s2|]
  {
  }

  // ---------------------------------------------------------------------------
  // The report of a table

  /** The distinct values present in column `name`; none when the column is absent. */
  function DistinctValues(t: Table, name: string): set<string>
    requires t.Valid()
  {
    match Column(t, name)
    case None => {}
    case Some(col) => PresentValues(col)
  }

  /**
   * A count section: empty when the column is absent; otherwise one tally per
   * distinct present value, no value twice, each with its number of
   * occurrences, counts never increasing.
   */
  lemma CountSection(t: Table, name: string)
    requires t.Valid()
    ensures name !in t.columns ==> CountsOf(t, name) == []
    ensures |CountsOf(t, name)| == |DistinctValues(t, name)|
    ensures Distinct(Values(CountsOf(t, name)))
    ensures forall v :: v in Values(CountsOf(t, name)) <==> v in DistinctValues(t, name)
    ensures name in t.columns ==>
              forall c :: c in CountsOf(t, name) ==> c.count == Occurrences(Column(t, name).value, c.value)
    ensures NonIncreasing(CountsOf(t, name))
  {
    match Column(t, name)
    case None =>
    case Some(col) => ValueCountsSpec(col);
  }

  /**
   * The averages section: empty without an account type column; otherwise one
   * entry per distinct account type in ascending order, each the mean of
   * the coerced balances of that type's rows.
   */
  lemma AverageSection(t: Table)
    requires t.Valid()
    ensures ACCOUNT_TYPE !in t.columns ==> AveragesByType(t) == []
    ensures |AveragesByType(t)| == |DistinctValues(t, ACCOUNT_TYPE)|
    ensures Ascending(Keys(AveragesByType(t)))
    ensures forall v :: v in Keys(AveragesByType(t)) <==> v in DistinctValues(t, ACCOUNT_TYPE)
    ensures ACCOUNT_TYPE in t.columns ==>
              var col := Column(t, ACCOUNT_TYPE).value;
              forall i :: 0 <= i < |AveragesByType(t)| ==>
                && Occurrences(col, AveragesByType(t)[i].key) > 0
                && AveragesByType(t)[i].mean
                   == Mean(GroupSum(col, Balances(t), AveragesByType(t)[i].key), Occurrences(col, AveragesByType(t)[i].key))
  {
    match Column(t, ACCOUNT_TYPE)
    case None =>
    case Some(col) =>
      GroupMeansSpec(col, Balances(t));
  }

  /** One count row per distinct value; one average row per distinct account type. */
  lemma SectionSizes(t: Table)
    requires t.Valid()
    ensures |CountsOf(t, PAYMENT_STATUS)| == |DistinctValues(t, PAYMENT_STATUS)|
    ensures |CountsOf(t, ACCOUNT_TYPE)| == |DistinctValues(t, ACCOUNT_TYPE)|
    ensures |AveragesByType(t)| == |DistinctValues(t, ACCOUNT_TYPE)|
  {
    CountSection(t, PAYMENT_STATUS);
    CountSection(t, ACCOUNT_TYPE);
    AverageSection(t);
  }

  /** 8 fixed rows, one row per distinct payment status, two per distinct account type. */
  lemma SummaryLength(t: Table)
    requires t.Valid()
    ensures |SummaryTable(t)| == 8 + |DistinctValues(t, PAYMENT_STATUS)| + 2 * |DistinctValues(t, ACCOUNT_TYPE)|
  {
    SectionSizes(t);
    ReportFixedRows(Total(t), CountsOf(t, PAYMENT_STATUS), CountsOf(t, ACCOUNT_TYPE), AveragesByType(t));
  }

  /** Every row of the report is two cells wide. */
  lemma SummaryRowsArePairs(t: Table)
    requires t.Valid()
    ensures forall i :: 0 <= i < |SummaryTable(t)| ==> |SummaryTable(t)[i]| == 2
  {
    ReportRowsArePairs(Total(t), CountsOf(t, PAYMENT_STATUS), CountsOf(t, ACCOUNT_TYPE), AveragesByType(t));
  }

  /**
   * Metric/Value then the total first; each section opens with a blank row
   * and its literal header, at the positions the section sizes dictate.
   */
  lemma SummaryFixedRows(t: Table)
    requires t.Valid()
    ensures FixedRowsAt(SummaryTable(t), FormatAmount(Total(t)),
                        |DistinctValues(t, PAYMENT_STATUS)|, |DistinctValues(t, ACCOUNT_TYPE)|)
  {
    SectionSizes(t);
    ReportFixedRows(Total(t), CountsOf(t, PAYMENT_STATUS), CountsOf(t, ACCOUNT_TYPE), AveragesByType(t));
  }

  /** Exactly three blank separator rows, even when sections are empty. */
  lemma SummarySeparators(t: Table)
    requires t.Valid()
    ensures SeparatorsAt(SummaryTable(t), |DistinctValues(t, PAYMENT_STATUS)|, |DistinctValues(t, ACCOUNT_TYPE)|)
  {
    SectionSizes(t);
    ReportSeparators(Total(t), CountsOf(t, PAYMENT_STATUS), CountsOf(t, ACCOUNT_TYPE), AveragesByType(t));
  }
}
