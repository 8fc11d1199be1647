/**
 * Two worked inputs for the summary: a balance column mixing numbers and
 * text, and account types with their balances.
 */
module Scenarios {
  import opened Wrappers
  import opened Numbers
  import opened Frame
  import opened Grouping
  import opened Summary

  lemma ParseFractionExample()
    ensures ParseDecimal("-50.5") == Some(-50.5)
  {
    assert NatToString(50) == "50";
    NatToStringRoundTrip(50);
    assert "50.5" == "50" + "." + "5";
    ParseUnsignedPoint("50", "5");
    assert Fraction("5") == 0.5;
    ParseDecimalNegative("50.5", 50.5);
  }

  lemma ParseExamples()
    ensures ParseDecimal("100") == Some(100.0)
    ensures ParseDecimal("-50.5") == Some(-50.5)
    ensures ParseDecimal("x") == None
    ensures ParseDecimal("0") == Some(0.0)
  {
    assert NatToString(100) == "100";
    ParseNatToString(100);
    assert NatToString(0) == "0";
    ParseNatToString(0);
    ParseFractionExample();
    assert LeadingDigits("x") == 0;
  }

  /** A bare fraction and a '+' sign are numbers; a word, a lone point or a lone sign are not. */
  lemma ParseEdgeExamples()
    ensures ParseDecimal(".5") == Some(0.5)
    ensures ParseDecimal("+5") == Some(5.0)
    ensures ParseDecimal("abc") == None
    ensures ParseDecimal(".") == None && ParseDecimal("-") == None
  {
    assert "5"[..0] == [];
    assert DigitsValue("5") == 5;
    assert LeadingDigits(".5") == 0 && ".5"[1..] == "5";
    assert Fraction("5") == 0.5;
    assert "+5"[1..] == "5";
    assert LeadingDigits("abc") == 0;
    assert LeadingDigits(".") == 0;
    assert "-"[1..] == [];
  }

  lemma ExampleColumn(t: Table)
    requires t == Table(["balance"], [[Some("100")], [Some("-50.5")], [Some("x")], [Some("0")]])
    ensures t.Valid() && Column(t, "balance") == Some([Some("100"), Some("-50.5"), Some("x"), Some("0")])
  {
    assert ColumnIndex(t.columns, "balance") == Some(0);
    var c := Column(t, "balance").value;
    assert |c| == 4;
    assert c[0] == t.rows[0][0] && c[1] == t.rows[1][0] && c[2] == t.rows[2][0] && c[3] == t.rows[3][0];
    var col := [Some("100"), Some("-50.5"), Some("x"), Some("0")];
    assert c[0] == col[0] && c[1] == col[1] && c[2] == col[2] && c[3] == col[3];
    assert c == col;
  }

  lemma ExampleCoerce()
    ensures Coerce(Some("100")) == 100.0 && Coerce(Some("-50.5")) == -50.5
    ensures Coerce(Some("x")) == 0.0 && Coerce(Some("0")) == 0.0
  {
    ParseExamples();
  }

  lemma ExampleCoerced(col: seq<Cell>)
    requires col == [Some("100"), Some("-50.5"), Some("x"), Some("0")]
    ensures Coerced(col) == [100.0, -50.5, 0.0, 0.0]
  {
    ExampleCoerce();
    var b := Coerced(col);
    assert b[0] == 100.0 && b[1] == -50.5 && b[2] == 0.0 && b[3] == 0.0;
  }

  lemma ExampleSum(b: seq<real>)
    requires b == [100.0, -50.5, 0.0, 0.0]
    ensures Sum(b) == 49.5
  {
    assert Sum(b[..1]) == 100.0 by {
      assert b[..1][..0] == [];
    }
    assert Sum(b[..2]) == 49.5 by {
      assert b[..2][..1] == b[..1];
    }
    assert Sum(b[..3]) == 49.5 by {
      assert b[..3][..2] == b[..2];
    }
    assert b[..3] == b[..|b| - 1];
  }

  lemma ExampleFormat()
    ensures FormatAmount(49.5) == "49.50"
  {
    assert Cents(49.5) == 4950;
    assert NatToString(49) == "49";
  }

  /** Balances 100, -50.5, "x", 0: the total is 49.5, rendered "49.50". */
  lemma TotalExample()
    ensures var t := Table(["balance"], [[Some("100")], [Some("-50.5")], [Some("x")], [Some("0")]]);
      t.Valid() && Total(t) == 49.5 && SummaryTable(t)[1] == ["Total balance", "49.50"]
  {
    var t := Table(["balance"], [[Some("100")], [Some("-50.5")], [Some("x")], [Some("0")]]);
    ExampleColumn(t);
    ExampleCoerced([Some("100"), Some("-50.5"), Some("x"), Some("0")]);
    ExampleSum([100.0, -50.5, 0.0, 0.0]);
    ExampleFormat();
    SummaryFixedRows(t);
  }

  lemma ExampleGroupColumns(t: Table)
    requires t == Table(["account_type", "balance"],
                        [[Some("A"), Some("10")], [Some("A"), Some("30")], [Some("B"), Some("5")]])
    ensures t.Valid()
    ensures Column(t, "account_type") == Some([Some("A"), Some("A"), Some("B")])
    ensures Column(t, "balance") == Some([Some("10"), Some("30"), Some("5")])
  {
    assert ColumnIndex(t.columns, "account_type") == Some(0);
    assert ColumnIndex(t.columns, "balance") == Some(1);
    var c := Column(t, "account_type").value;
    var col := [Some("A"), Some("A"), Some("B")];
    assert c[0] == col[0] && c[1] == col[1] && c[2] == col[2];
    assert c == col;
    var d := Column(t, "balance").value;
    var bal := [Some("10"), Some("30"), Some("5")];
    assert d[0] == bal[0] && d[1] == bal[1] && d[2] == bal[2];
    assert d == bal;
  }

  lemma ExampleGroupBalances(cells: seq<Cell>)
    requires cells == [Some("10"), Some("30"), Some("5")]
    ensures Coerced(cells) == [10.0, 30.0, 5.0]
  {
    assert NatToString(10) == "10" && NatToString(30) == "30" && NatToString(5) == "5";
    ParseNatToString(10);
    ParseNatToString(30);
    ParseNatToString(5);
    var b := Coerced(cells);
    assert b[0] == 10.0 && b[1] == 30.0 && b[2] == 5.0;
  }

  lemma ExampleOccurrences(keys: seq<Cell>)
    requires keys == [Some("A"), Some("A"), Some("B")]
    ensures Occurrences(keys, "A") == 2 && Occurrences(keys, "B") == 1
  {
    var k1, k2 := keys[..1], keys[..2];
    assert k1[..0] == [] && k2[..1] == k1 && keys[..|keys| - 1] == k2;
    assert Occurrences(k1, "A") == 1;
    assert Occurrences(k1, "B") == 0;
    assert Occurrences(k2, "A") == 2;
    assert Occurrences(k2, "B") == 0;
  }

  lemma ExampleFirstSeen(keys: seq<Cell>)
    requires keys == [Some("A"), Some("A"), Some("B")]
    ensures FirstSeen(keys) == ["A", "B"]
  {
    var k1, k2 := keys[..1], keys[..2];
    assert k1[..0] == [] && k2[..1] == k1 && keys[..|keys| - 1] == k2;
    assert FirstSeen(k1) == ["A"];
    assert FirstSeen(k2) == ["A"];
  }

  lemma ExampleGroupKeys(keys: seq<Cell>)
    requires keys == [Some("A"), Some("A"), Some("B")]
    ensures FirstSeen(keys) == ["A", "B"]
    ensures SortKeys(["A", "B"]) == ["A", "B"]
    ensures Occurrences(keys, "A") == 2 && Occurrences(keys, "B") == 1
  {
    ExampleOccurrences(keys);
    ExampleFirstSeen(keys);
    assert ["A", "B"][1..] == ["B"];
    assert ["B"][1..] == [];
    assert Below("A", "B");
  }

  lemma ExampleGroupSums(keys: seq<Cell>, amounts: seq<real>)
    requires keys == [Some("A"), Some("A"), Some("B")] && amounts == [10.0, 30.0, 5.0]
    ensures GroupSum(keys, amounts, "A") == 40.0 && GroupSum(keys, amounts, "B") == 5.0
  {
    assert GroupSum(keys[..1], amounts[..1], "A") == 10.0 && GroupSum(keys[..1], amounts[..1], "B") == 0.0 by {
      assert keys[..1][..0] == [] && amounts[..1][..0] == [];
    }
    assert GroupSum(keys[..2], amounts[..2], "A") == 40.0 && GroupSum(keys[..2], amounts[..2], "B") == 0.0 by {
      assert keys[..2][..1] == keys[..1] && amounts[..2][..1] == amounts[..1];
    }
    assert keys[..2] == keys[..|keys| - 1] && amounts[..2] == amounts[..|amounts| - 1];
  }

  lemma ExampleTwentyAmount()
    ensures FormatAmount(20.0) == "20.00"
  {
    assert Cents(20.0) == 2000;
    assert NatToString(20) == "20";
  }

  lemma ExampleFiveAmount()
    ensures FormatAmount(5.0) == "5.00"
  {
    assert Cents(5.0) == 500;
    assert NatToString(5) == "5";
  }

  lemma ExampleTwoDecimals()
    ensures FormatAmount(20.0) == "20.00"
    ensures FormatAmount(5.0) == "5.00"
  {
    ExampleTwentyAmount();
    ExampleFiveAmount();
  }

  /** A mean of -0.001 rounds to zero but keeps its sign: the row reads "-0.00", as `.2f` writes it. */
  lemma ExampleNegativeZeroMean()
    ensures AverageRow(Average("C", -0.001)) == ["C", "-0.00"]
  {
    assert Round2(-0.001) == 0.0 by {
      assert Cents(-0.001) == 0;
    }
    FormatRoundedMean(-0.001);
  }

  lemma ExampleMeans(keys: seq<Cell>, amounts: seq<real>)
    requires keys == [Some("A"), Some("A"), Some("B")] && amounts == [10.0, 30.0, 5.0]
    ensures GroupMeans(keys, amounts) == [Average("A", 20.0), Average("B", 5.0)]
  {
    ExampleGroupKeys(keys);
    ExampleGroupSums(keys, amounts);
    var r := GroupMeans(keys, amounts);
    assert Keys(r) == ["A", "B"];
    assert r[0].mean == Mean(40.0, 2) == 20.0;
    assert r[1].mean == Mean(5.0, 1) == 5.0;
  }

  lemma ExampleAverageRows(r: seq<Average>)
    requires r == [Average("A", 20.0), Average("B", 5.0)]
    ensures AverageRows(r) == [["A", "20.00"], ["B", "5.00"]]
  {
    ExampleTwoDecimals();
    assert r[..1][..0] == [] && r[..1] == r[..|r| - 1];
  }

  lemma ExampleAverages(t: Table)
    requires t == Table(["account_type", "balance"],
                        [[Some("A"), Some("10")], [Some("A"), Some("30")], [Some("B"), Some("5")]])
    ensures t.Valid() && AveragesByType(t) == [Average("A", 20.0), Average("B", 5.0)]
  {
    ExampleGroupColumns(t);
    ExampleGroupBalances([Some("10"), Some("30"), Some("5")]);
    ExampleMeans([Some("A"), Some("A"), Some("B")], [10.0, 30.0, 5.0]);
  }

  /** Types A (10, 30) and B (5): averages A 20.00 and B 5.00, in key order. */
  lemma GroupingExample()
    ensures var t := Table(["account_type", "balance"],
                           [[Some("A"), Some("10")], [Some("A"), Some("30")], [Some("B"), Some("5")]]);
      && t.Valid()
      && AveragesByType(t) == [Average("A", 20.0), Average("B", 5.0)]
      && AverageRows(AveragesByType(t)) == [["A", "20.00"], ["B", "5.00"]]
  {
    var t := Table(["account_type", "balance"],
                   [[Some("A"), Some("10")], [Some("A"), Some("30")], [Some("B"), Some("5")]]);
    ExampleAverages(t);
    ExampleAverageRows(AveragesByType(t));
  }
}
