/** Small frames worked through the model. */
module Scenarios {
  import opened Wrappers
  import opened Frame
  import opened Classify
  import opened Missing
  import opened Duplicates
  import opened ValueCounts
  import opened Charts

  /** Ages `25, 30, missing, 25` and cities `A, B, A, A`. */
  function AgeCity(): Dataset
  {
    Dataset(4, [
      Column("age", Numeric, [Some(Number(25.0)), Some(Number(30.0)), None, Some(Number(25.0))]),
      Column("city", Object, [Some(Text("A")), Some(Text("B")), Some(Text("A")), Some(Text("A"))])
    ])
  }

  lemma AgeCityShape()
    ensures WellFormed(AgeCity())
    ensures NullCount(AgeCity().columns[0].cells) == 1 && NullCount(AgeCity().columns[1].cells) == 0
  {
  }

  /** Row 3 repeats row 0 exactly, so one row is a duplicate. */
  lemma AgeCityDuplicates()
    ensures WellFormed(AgeCity()) && DuplicateCount(AgeCity()) == 1
  {
    var ds := AgeCity();
    var age := ds.columns[0].cells;
    assert age == [Some(Number(25.0)), Some(Number(30.0)), None, Some(Number(25.0))];
    forall r | 0 <= r < 3
      ensures !IsDuplicate(ds, r)
    {
      NewCellNotDuplicate(ds, r, 0);
    }
    SameCellsDuplicate(ds, 0, 3);
    SingleFlag(ds, 3, 4);
  }

  /**
    A column with exactly two distinct values, one strictly more frequent
    than the other, has both as its top values, the more frequent first.
   */
  lemma TopOfTwo(cells: seq<Cell>, a: Value, b: Value)
    requires ValueSet(cells) == {a, b} && a != b
    requires Frequency(cells, a) > Frequency(cells, b)
    ensures TopValues(cells) == [(a, Frequency(cells, a)), (b, Frequency(cells, b))]
  {
    var top := TopValues(cells);
    assert |top| == 2;
    forall k | 0 <= k < 2
      ensures top[k] == (a, Frequency(cells, a)) || top[k] == (b, Frequency(cells, b))
    {
      var i :| 0 <= i < |cells| && cells[i] == Some(top[k].0);
      assert top[k].0 in ValueSet(cells);
    }
    OrderedPair(top, (a, Frequency(cells, a)), (b, Frequency(cells, b)));
  }

  /** Two distinct entries listed without repetition, most frequent first, come in frequency order. */
  lemma OrderedPair(top: seq<Entry>, x: Entry, y: Entry)
    requires |top| == 2 && x.0 != y.0 && x.1 > y.1
    requires forall k :: 0 <= k < 2 ==> top[k] == x || top[k] == y
    requires top[0].0 != top[1].0 && NonIncreasing(top)
    ensures top == [x, y]
  {
  }

  /** `city` counts `A` three times and `B` once. */
  lemma CityFrequencies()
    ensures ValueSet(AgeCity().columns[1].cells) == {Text("A"), Text("B")}
    ensures Frequency(AgeCity().columns[1].cells, Text("A")) == 3
    ensures Frequency(AgeCity().columns[1].cells, Text("B")) == 1
  {
    var c := AgeCity().columns[1].cells;
    // `Frequency` recurses on ever shorter prefixes of the column; naming
    // them down to the empty one lets it be evaluated to the end.
    assert c[..3][..2][..1][..0] == [];
    assert c[0].value == Text("A") && c[1].value == Text("B");
  }

  /** `city` has two distinct values, `A` three times and `B` once. */
  lemma AgeCityTopValues()
    ensures NUnique(AgeCity().columns[1].cells) == 2
    ensures TopValues(AgeCity().columns[1].cells) == [(Text("A"), 3), (Text("B"), 1)]
  {
    CityFrequencies();
    TopOfTwo(AgeCity().columns[1].cells, Text("A"), Text("B"));
  }

  /** The selection over the first `n` columns extends the one over the first `n - 1`. */
  lemma SelectStep(cols: seq<Column>, dtypes: set<Tag>, n: nat)
    requires 0 < n <= |cols|
    ensures SelectDtypes(cols[..n], dtypes)
      == SelectDtypes(cols[..n - 1], dtypes) + (if cols[n - 1].tag in dtypes then [n - 1] else [])
  {
    assert cols[..n][..n - 1] == cols[..n - 1];
  }

  /** The selection over two columns. */
  lemma SelectTwo(cols: seq<Column>, dtypes: set<Tag>)
    requires |cols| == 2
    ensures SelectDtypes(cols, dtypes) ==
      (if cols[0].tag in dtypes then [0] else []) + (if cols[1].tag in dtypes then [1] else [])
  {
    assert cols[..0] == [] && cols[..2] == cols;
    SelectStep(cols, dtypes, 1);
    SelectStep(cols, dtypes, 2);
  }

  /** The names of the columns selected out of two. */
  lemma SelectedNamesOfTwo(cols: seq<Column>, dtypes: set<Tag>)
    requires |cols| == 2
    ensures Names(Pick(cols, SelectDtypes(cols, dtypes))) ==
      (if cols[0].tag in dtypes then [cols[0].name] else [])
      + (if cols[1].tag in dtypes then [cols[1].name] else [])
  {
    SelectTwo(cols, dtypes);
  }

  /** Two numeric columns `x` and `y` and no rows. */
  function EmptyXY(): Dataset
  {
    Dataset(0, [Column("x", Numeric, []), Column("y", Numeric, [])])
  }

  lemma EmptyXYNumericNames()
    ensures NumericNames(EmptyXY()) == ["x", "y"]
  {
    var cols := EmptyXY().columns;
    assert cols[0].tag == Numeric && cols[1].tag == Numeric;
    assert cols[0].name == "x" && cols[1].name == "y";
    SelectedNamesOfTwo(cols, NumberDtypes);
    assert Numeric in NumberDtypes;
  }

  lemma EmptyXYCategoricalNames()
    ensures CategoricalNames(EmptyXY()) == []
  {
    var cols := EmptyXY().columns;
    assert cols[0].tag == Numeric && cols[1].tag == Numeric;
    SelectedNamesOfTwo(cols, CategoricalDtypes);
    assert Numeric !in CategoricalDtypes;
  }

  /** Two numeric columns make exactly one pair. */
  lemma PairsOfTwo()
    ensures Pairs(2) == [(0, 1)]
  {
    assert RowPairs(0, 2) == [(0, 1)];
    assert RowPairs(1, 2) == [];
    assert PairsBelow(1, 2) == PairsBelow(0, 2) + RowPairs(0, 2);
  }

  /** The charts for two numeric columns and no categorical one. */
  lemma LayoutOfTwoNumeric(x: string, y: string)
    ensures Layout([x, y], []) == [MissingHeatmap, Histogram(x), Histogram(y), CorrelationHeatmap([x, y]), Scatter(x, y)]
  {
    PairsOfTwo();
    assert Histograms([x, y]) == [Histogram(x), Histogram(y)];
    assert BarCharts([]) == [];
    assert BivariatePlan([x, y]) == [Scatter(x, y)];
  }

  /** Without rows the missing percentage is undefined (NaN). */
  lemma EmptyXYMissing()
    ensures WellFormed(EmptyXY())
    ensures MissingPercentage(EmptyXY().columns[0].cells) == None
    ensures MissingPercentage(EmptyXY().columns[1].cells) == None
  {
  }

  /**
    The chart plan of a frame without rows: the plan depends only on the
    columns, so it holds the heatmap, a histogram per column, the
    correlation heatmap and the one scatter plot. (The drawing library
    rejects the heatmap of an empty frame; drawing is not modelled.)
   */
  lemma EmptyXYCharts()
    ensures ChartPlan(EmptyXY()) ==
      [MissingHeatmap, Histogram("x"), Histogram("y"), CorrelationHeatmap(["x", "y"]), Scatter("x", "y")]
  {
    EmptyXYNumericNames();
    EmptyXYCategoricalNames();
    LayoutOfTwoNumeric("x", "y");
  }

  /** One numeric column `n` beside a text column `t`. */
  function SingleNumeric(): Dataset
  {
    Dataset(2, [Column("n", Numeric, [Some(Number(1.0)), None]), Column("t", Object, [None, Some(Text("x"))])])
  }

  lemma SingleNumericNames()
    ensures NumericNames(SingleNumeric()) == ["n"]
    ensures CategoricalNames(SingleNumeric()) == ["t"]
  {
    var cols := SingleNumeric().columns;
    assert cols[0].tag == Numeric && cols[1].tag == Object;
    assert cols[0].name == "n" && cols[1].name == "t";
    SelectedNamesOfTwo(cols, NumberDtypes);
    SelectedNamesOfTwo(cols, CategoricalDtypes);
  }

  /** The charts for one numeric and one categorical column. */
  lemma LayoutOfOneEach(x: string, c: string)
    ensures Layout([x], [c]) == [MissingHeatmap, Histogram(x), BarChart(c)]
  {
    assert Histograms([x]) == [Histogram(x)];
    assert BarCharts([c]) == [BarChart(c)];
  }

  /** One numeric column: one histogram, no correlation heatmap and no scatter plot. */
  lemma SingleNumericCharts()
    ensures ChartPlan(SingleNumeric()) == [MissingHeatmap, Histogram("n"), BarChart("t")]
  {
    SingleNumericNames();
    LayoutOfOneEach("n", "t");
  }

  /** Five rows of which rows 1 and 3 are identical. */
  function OnePairRepeated(): Dataset
  {
    Dataset(5, [
      Column("k", Numeric, [Some(Number(1.0)), Some(Number(2.0)), Some(Number(3.0)), Some(Number(2.0)), Some(Number(5.0))]),
      Column("v", Object, [Some(Text("a")), Some(Text("b")), Some(Text("c")), Some(Text("b")), None])
    ])
  }

  /** Only row 3 is flagged: every other row has a key not seen before it. */
  lemma OnePairRepeatedFlags()
    ensures WellFormed(OnePairRepeated())
    ensures IsDuplicate(OnePairRepeated(), 3)
    ensures forall r :: 0 <= r < 5 && r != 3 ==> !IsDuplicate(OnePairRepeated(), r)
  {
    var ds := OnePairRepeated();
    var key := ds.columns[0].cells;
    assert key == [Some(Number(1.0)), Some(Number(2.0)), Some(Number(3.0)), Some(Number(2.0)), Some(Number(5.0))];
    forall r | 0 <= r < 5 && r != 3
      ensures !IsDuplicate(ds, r)
    {
      NewCellNotDuplicate(ds, r, 0);
    }
    SameCellsDuplicate(ds, 1, 3);
  }

  /** Only the later row of the identical pair is flagged: one duplicate, not two. */
  lemma OnePairRepeatedDuplicates()
    ensures WellFormed(OnePairRepeated()) && DuplicateCount(OnePairRepeated()) == 1
  {
    OnePairRepeatedFlags();
    SingleFlag(OnePairRepeated(), 3, 5);
  }

  /** Shares in percent as shown, rounded to two decimals. */
  lemma RoundedShares()
    ensures Percentage(1, 3) == Some(33.33)
    ensures Percentage(2, 3) == Some(66.67)
    ensures Percentage(1, 8) == Some(12.5)
    ensures Percentage(1, 40000) == Some(0.0)
  {
    assert (10000.0 / 3.0).Floor == 3333;
    assert (20000.0 / 3.0).Floor == 6666;
    assert (10000.0 / 40000.0).Floor == 0;
  }
}
