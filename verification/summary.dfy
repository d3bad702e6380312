/**
  The summary builder, `generate_summary`: the dictionary of shape, column
  names, dtypes, missing counts and percentages, duplicate count, numeric
  summary and categorical summary of a data frame.
 */
module Summary {
  import opened Wrappers
  import opened Frame
  import opened Classify
  import opened Missing
  import opened Duplicates
  import opened ValueCounts

  /** One entry of the categorical summary: `nunique()` and `value_counts().head(5)`. */
  datatype CategoricalStats = CategoricalStats(uniqueValues: nat, topValues: seq<Entry>)

  /**
    The numeric summary is `describe()` of the numeric sub-frame; of its
    statistics only the integer `count` (non-missing cells) is kept, by name.
   */
  datatype DatasetSummary = DatasetSummary(
    shape: (nat, nat),
    columns: seq<string>,
    dataTypes: map<string, Tag>,
    missingValues: map<string, nat>,
    missingPercentage: map<string, Option<real>>,
    duplicates: nat,
    numericSummary: map<string, nat>,
    categoricalSummary: map<string, CategoricalStats>)

  /** `describe()` raises on a frame without columns, here the numeric sub-frame. */
  datatype SummaryError = DescribeWithoutColumns

  function NameSet(cols: seq<Column>): set<string>
  {
    set i | 0 <= i < |cols| :: cols[i].name
  }

  /**
    A dictionary keyed by column name with one entry per column, as
    `to_dict()` gives for a per-column series.
   */
  function ByName<T>(cols: seq<Column>, f: Column -> T): (m: map<string, T>)
    ensures m.Keys == NameSet(cols)
    ensures UniqueNames(cols) ==> forall i :: 0 <= i < |cols| ==> m[cols[i].name] == f(cols[i])
  {
    if cols == [] then map[]
    else
      var k := |cols| - 1;
      var m := ByName(cols[..k], f);
      assert forall i :: 0 <= i < k ==> cols[..k][i] == cols[i];
      ByNameStep(cols, f, m);
      m[cols[k].name := f(cols[k])]
  }

  /** Adding the last column's entry to the dictionary of the others gives the dictionary of all. */
  lemma ByNameStep<T>(cols: seq<Column>, f: Column -> T, m: map<string, T>)
    requires cols != []
    requires m.Keys == NameSet(cols[..|cols| - 1])
    requires UniqueNames(cols[..|cols| - 1]) ==> forall i :: 0 <= i < |cols| - 1 ==> m[cols[i].name] == f(cols[i])
    ensures m[cols[|cols| - 1].name := f(cols[|cols| - 1])].Keys == NameSet(cols)
    ensures UniqueNames(cols) ==>
      forall i :: 0 <= i < |cols| ==> m[cols[|cols| - 1].name := f(cols[|cols| - 1])][cols[i].name] == f(cols[i])
  {
    var k := |cols| - 1;
    var r := m[cols[k].name := f(cols[k])];
    NameSetSnoc(cols);
    if UniqueNames(cols) {
      assert UniqueNames(cols[..k]);
      forall i | 0 <= i < |cols|
        ensures r[cols[i].name] == f(cols[i])
      {
        if i < k {
          assert cols[i].name != cols[k].name;
        }
      }
    }
  }

  /** The names of a non-empty list of columns: those of all but the last, and the last one's. */
  lemma NameSetSnoc(cols: seq<Column>)
    requires cols != []
    ensures NameSet(cols) == NameSet(cols[..|cols| - 1]) + {cols[|cols| - 1].name}
  {
    var k := |cols| - 1;
    forall n | n in NameSet(cols) ensures n in NameSet(cols[..k]) + {cols[k].name} {
      var i :| 0 <= i < |cols| && cols[i].name == n;
      if i < k {
        assert cols[..k][i].name == n;
      }
    }
  }

  /** The categorical summary entry of one column. */
  function CategoricalStatsOf(c: Column): (st: CategoricalStats)
    ensures st.uniqueValues == |ValueSet(c.cells)| <= NonMissingCount(c.cells)
    ensures |st.topValues| == Min(TopN, st.uniqueValues)
  {
    CategoricalStats(NUnique(c.cells), TopValues(c.cells))
  }

  /** The per-column entries: dtype, missing count and missing percentage of every column. */
  predicate DescribesColumns(cols: seq<Column>, dataTypes: map<string, Tag>,
                             missingValues: map<string, nat>, missingPercentage: map<string, Option<real>>)
  {
    && dataTypes.Keys == missingValues.Keys == missingPercentage.Keys == NameSet(cols)
    && (forall i :: 0 <= i < |cols| ==>
          && dataTypes[cols[i].name] == cols[i].tag
          && missingValues[cols[i].name] == NullCount(cols[i].cells)
          && missingPercentage[cols[i].name] == MissingPercentage(cols[i].cells))
  }

  /** The numeric summary: the non-missing count of every numeric column. */
  predicate DescribesNumeric(nums: seq<Column>, numericSummary: map<string, nat>)
  {
    && numericSummary.Keys == NameSet(nums)
    && (forall k :: 0 <= k < |nums| ==> numericSummary[nums[k].name] == NonMissingCount(nums[k].cells))
  }

  /** The categorical summary: the statistics of every object or category column. */
  predicate DescribesCategorical(cats: seq<Column>, catSummary: map<string, CategoricalStats>)
  {
    && catSummary.Keys == NameSet(cats)
    && (forall k :: 0 <= k < |cats| ==> catSummary[cats[k].name] == CategoricalStatsOf(cats[k]))
  }

  /** What each entry of a successful summary is, column by column. */
  predicate Describes(ds: Dataset, s: DatasetSummary)
    requires WellFormed(ds)
  {
    && s.shape == (ds.rows, |ds.columns|)
    && s.columns == Names(ds.columns)
    && DescribesColumns(ds.columns, s.dataTypes, s.missingValues, s.missingPercentage)
    && s.duplicates == DuplicateCount(ds)
    && DescribesNumeric(NumericColumns(ds), s.numericSummary)
    && DescribesCategorical(CategoricalColumns(ds), s.categoricalSummary)
  }

  /**
    The `Data Types`, `Missing Values` and `Missing Percentage` entries of
    `generate_summary`: the dtype, the missing count and
    the missing percentage of every column, keyed by column name.
   */
  method SummarizeColumns(cols: seq<Column>)
    returns (dataTypes: map<string, Tag>, missingValues: map<string, nat>,
             missingPercentage: map<string, Option<real>>)
    requires UniqueNames(cols)
    ensures DescribesColumns(cols, dataTypes, missingValues, missingPercentage)
  {
    dataTypes := ByName(cols, (c: Column) => c.tag);
    missingValues := ByName(cols, (c: Column) => NullCount(c.cells));
    missingPercentage := ByName(cols, (c: Column) => MissingPercentage(c.cells));
  }

  /** `describe()` of the numeric sub-frame, reduced to its `count` row, keyed by column name. */
  method SummarizeNumeric(nums: seq<Column>) returns (numericSummary: map<string, nat>)
    requires UniqueNames(nums)
    ensures DescribesNumeric(nums, numericSummary)
  {
    numericSummary := ByName(nums, (c: Column) => NonMissingCount(c.cells));
  }

  /**
    The loop of `generate_summary` over the object and category columns:
    one entry per column, keyed by its name.
   */
  method SummarizeCategorical(cats: seq<Column>) returns (catSummary: map<string, CategoricalStats>)
    requires UniqueNames(cats)
    ensures DescribesCategorical(cats, catSummary)
  {
    catSummary := map[];
    for k := 0 to |cats|
      invariant catSummary.Keys == NameSet(cats[..k])
      invariant forall i :: 0 <= i < k ==> catSummary[cats[i].name] == CategoricalStatsOf(cats[i])
    {
      KeyedStep(cats, CategoricalStatsOf, k, catSummary);
      catSummary := catSummary[cats[k].name := CategoricalStatsOf(cats[k])];
    }
    assert cats[..|cats|] == cats;
  }

  /**
    One step of a loop that fills a dictionary keyed by column name: the
    entry of column `k` joins those of the columns before it.
   */
  lemma KeyedStep<T>(cols: seq<Column>, f: Column -> T, k: nat, m: map<string, T>)
    requires UniqueNames(cols) && k < |cols|
    requires m.Keys == NameSet(cols[..k])
    requires forall i :: 0 <= i < k ==> m[cols[i].name] == f(cols[i])
    ensures m[cols[k].name := f(cols[k])].Keys == NameSet(cols[..k + 1])
    ensures forall i :: 0 <= i <= k ==> m[cols[k].name := f(cols[k])][cols[i].name] == f(cols[i])
  {
    assert cols[..k + 1][..k] == cols[..k];
    NameSetSnoc(cols[..k + 1]);
    assert forall i :: 0 <= i < k ==> cols[i].name != cols[k].name;
  }

  /**
    `generate_summary(df)`: fills the summary entry by entry. It fails
    exactly when the frame has no numeric column, since `describe()` of the
    empty numeric sub-frame raises.
   */
  method GenerateSummary(ds: Dataset) returns (r: Result<DatasetSummary, SummaryError>)
    requires WellFormed(ds)
    ensures r.Failure? <==> |NumericColumns(ds)| == 0
    ensures r.Success? ==> Describes(ds, r.value)
  {
    var shape := (ds.rows, |ds.columns|);
    var columns := Names(ds.columns);
    var dataTypes, missingValues, missingPercentage := SummarizeColumns(ds.columns);
    var duplicates := DuplicateCount(ds);
    var nums := NumericColumns(ds);
    if |nums| == 0 {
      return Failure(DescribeWithoutColumns);
    }
    SelectionsUnique(ds);
    var numericSummary := SummarizeNumeric(nums);
    var catSummary := SummarizeCategorical(CategoricalColumns(ds));
    r := Success(DatasetSummary(shape, columns, dataTypes, missingValues, missingPercentage,
                                duplicates, numericSummary, catSummary));
  }
}

/** What a summary built by `GenerateSummary` promises, entry by entry. */
module SummaryFacts {
  import opened Wrappers
  import opened Frame
  import opened Classify
  import opened Missing
  import opened Duplicates
  import opened ValueCounts
  import opened Summary

  /**
    Shape and columns: the shape is (rows, columns), the column list is every
    name in frame order, and the dtype, missing-count and missing-percentage
    dictionaries have exactly one entry per column.
   */
  lemma ShapeAndColumns(ds: Dataset, s: DatasetSummary)
    requires WellFormed(ds) && Describes(ds, s)
    ensures s.shape == (ds.rows, |ds.columns|) && |s.columns| == |ds.columns|
    ensures forall i :: 0 <= i < |ds.columns| ==> s.columns[i] == ds.columns[i].name
    ensures s.dataTypes.Keys == s.missingValues.Keys == s.missingPercentage.Keys == set n | n in s.columns
    ensures |s.dataTypes| == |s.columns|
  {
    NameSetOfNames(ds.columns);
    NamesCard(ds.columns);
  }

  /** The names of a column list, as a set. */
  lemma NameSetOfNames(cols: seq<Column>)
    ensures NameSet(cols) == set n | n in Names(cols)
  {
    forall n | n in Names(cols) ensures n in NameSet(cols) {
      var i :| 0 <= i < |cols| && Names(cols)[i] == n;
    }
  }

  /** Unique names: the set of names has one element per column. */
  lemma {:induction false} NamesCard(cols: seq<Column>)
    requires UniqueNames(cols)
    ensures |set n | n in Names(cols)| == |cols|
  {
    NoDuplicatesCard(Names(cols));
  }

  /** The column of the frame that carries a name of the summary's dtype dictionary, and its entries. */
  lemma ColumnOf(ds: Dataset, s: DatasetSummary, n: string) returns (i: nat)
    requires WellFormed(ds) && Describes(ds, s) && n in s.dataTypes
    ensures i < |ds.columns| && ds.columns[i].name == n && |ds.columns[i].cells| == ds.rows
    ensures n in s.missingValues && n in s.missingPercentage
    ensures s.dataTypes[n] == ds.columns[i].tag
    ensures s.missingValues[n] == NullCount(ds.columns[i].cells)
    ensures s.missingPercentage[n] == MissingPercentage(ds.columns[i].cells)
  {
    i :| 0 <= i < |ds.columns| && ds.columns[i].name == n;
  }

  /**
    Missing statistics: each missing count is at most the row count, and the
    missing percentage is that count in percent of the rows: NaN (`None`)
    exactly for a frame without rows, otherwise between 0 and 100.
   */
  lemma MissingStatistics(ds: Dataset, s: DatasetSummary)
    requires WellFormed(ds) && Describes(ds, s)
    ensures forall n :: n in s.missingPercentage ==>
      && n in s.missingValues
      && s.missingValues[n] <= ds.rows
      && IsPercentage(s.missingPercentage[n], s.missingValues[n], ds.rows)
  {
    forall n | n in s.missingPercentage
      ensures n in s.missingValues && s.missingValues[n] <= ds.rows
      ensures IsPercentage(s.missingPercentage[n], s.missingValues[n], ds.rows)
    {
      var i := ColumnOf(ds, s, n);
    }
  }

  /** Duplicates: none with at most one row, and at most `rows - 1` otherwise. */
  lemma DuplicateStatistics(ds: Dataset, s: DatasetSummary)
    requires WellFormed(ds) && Describes(ds, s)
    ensures ds.rows <= 1 ==> s.duplicates == 0
    ensures ds.rows >= 1 ==> s.duplicates <= ds.rows - 1
  {
    DuplicateCountBound(ds);
  }

  /** The column behind an entry of the numeric summary, and its entries elsewhere. */
  lemma NumericEntry(ds: Dataset, s: DatasetSummary, n: string) returns (i: nat)
    requires WellFormed(ds) && Describes(ds, s) && n in s.numericSummary
    ensures i < |ds.columns| && ds.columns[i].name == n && ds.columns[i].tag == Numeric
    ensures |ds.columns[i].cells| == ds.rows
    ensures n in s.dataTypes && s.dataTypes[n] == Numeric
    ensures n in s.missingValues && s.missingValues[n] == NullCount(ds.columns[i].cells)
    ensures s.numericSummary[n] == NonMissingCount(ds.columns[i].cells)
  {
    var nums, idx := NumericColumns(ds), NumericIndices(ds);
    var k :| 0 <= k < |nums| && nums[k].name == n;
    i := idx[k];
    assert nums[k] == ds.columns[i];
  }

  /** The column behind an entry of the categorical summary, and its entries elsewhere. */
  lemma CategoricalEntry(ds: Dataset, s: DatasetSummary, n: string) returns (i: nat)
    requires WellFormed(ds) && Describes(ds, s) && n in s.categoricalSummary
    ensures i < |ds.columns| && ds.columns[i].name == n && ds.columns[i].tag in CategoricalDtypes
    ensures |ds.columns[i].cells| == ds.rows
    ensures n in s.dataTypes && s.dataTypes[n] == ds.columns[i].tag
    ensures n in s.missingValues && s.missingValues[n] == NullCount(ds.columns[i].cells)
    ensures s.categoricalSummary[n] == CategoricalStatsOf(ds.columns[i])
  {
    var cats, idx := CategoricalColumns(ds), CategoricalIndices(ds);
    var k :| 0 <= k < |cats| && cats[k].name == n;
    i := idx[k];
    assert cats[k] == ds.columns[i];
  }

  /** A column selected by `select_dtypes` has its name among the selection's names. */
  lemma SelectedName(cols: seq<Column>, dtypes: set<Tag>, i: nat)
    requires i < |cols| && cols[i].tag in dtypes
    ensures cols[i].name in NameSet(Pick(cols, SelectDtypes(cols, dtypes)))
  {
    var idx := SelectDtypes(cols, dtypes);
    var k :| 0 <= k < |idx| && idx[k] == i;
    assert Pick(cols, idx)[k] == cols[i];
  }

  /**
    Classification: a column is in the numeric summary exactly when its dtype
    is numeric, and in the categorical summary exactly when its dtype is
    object or category; so the two are disjoint, and a column of any other
    dtype is in neither while still having a dtype and a missing count.
   */
  lemma Classification(ds: Dataset, s: DatasetSummary)
    requires WellFormed(ds) && Describes(ds, s)
    ensures s.numericSummary.Keys <= s.dataTypes.Keys && s.categoricalSummary.Keys <= s.dataTypes.Keys
    ensures forall n :: n in s.dataTypes ==>
      && (n in s.numericSummary <==> s.dataTypes[n] == Numeric)
      && (n in s.categoricalSummary <==> s.dataTypes[n] == Object || s.dataTypes[n] == Category)
    ensures s.numericSummary.Keys !! s.categoricalSummary.Keys
  {
    SummaryKeys(ds, s);
    forall n | n in s.dataTypes
      ensures n in s.numericSummary <==> s.dataTypes[n] == Numeric
      ensures n in s.categoricalSummary <==> s.dataTypes[n] == Object || s.dataTypes[n] == Category
    {
      ClassifiedName(ds, s, n);
    }
  }

  /** Both summaries are keyed by names of columns of the frame. */
  lemma SummaryKeys(ds: Dataset, s: DatasetSummary)
    requires WellFormed(ds) && Describes(ds, s)
    ensures s.numericSummary.Keys <= s.dataTypes.Keys && s.categoricalSummary.Keys <= s.dataTypes.Keys
  {
    forall n | n in s.numericSummary
      ensures n in s.dataTypes
    {
      var i := NumericEntry(ds, s, n);
    }
    forall n | n in s.categoricalSummary
      ensures n in s.dataTypes
    {
      var i := CategoricalEntry(ds, s, n);
    }
  }

  /** One column's place in the two summaries follows its dtype. */
  lemma ClassifiedName(ds: Dataset, s: DatasetSummary, n: string)
    requires WellFormed(ds) && Describes(ds, s) && n in s.dataTypes
    ensures n in s.numericSummary <==> s.dataTypes[n] == Numeric
    ensures n in s.categoricalSummary <==> s.dataTypes[n] == Object || s.dataTypes[n] == Category
  {
    var i := ColumnOf(ds, s, n);
    ClassifiedNumeric(ds, s, i);
    ClassifiedCategorical(ds, s, i);
    CategoricalTags(ds.columns[i].tag);
  }

  lemma CategoricalTags(t: Tag)
    ensures t in CategoricalDtypes <==> t == Object || t == Category
  {
  }

  lemma ClassifiedNumeric(ds: Dataset, s: DatasetSummary, i: nat)
    requires WellFormed(ds) && Describes(ds, s) && i < |ds.columns|
    ensures ds.columns[i].name in s.numericSummary <==> ds.columns[i].tag == Numeric
  {
    var n := ds.columns[i].name;
    if n in s.numericSummary {
      var j := NumericEntry(ds, s, n);
      assert i == j;
    }
    if ds.columns[i].tag == Numeric {
      SelectedName(ds.columns, NumberDtypes, i);
    }
  }

  lemma ClassifiedCategorical(ds: Dataset, s: DatasetSummary, i: nat)
    requires WellFormed(ds) && Describes(ds, s) && i < |ds.columns|
    ensures ds.columns[i].name in s.categoricalSummary <==> ds.columns[i].tag in CategoricalDtypes
  {
    var n := ds.columns[i].name;
    if n in s.categoricalSummary {
      var j := CategoricalEntry(ds, s, n);
      assert i == j;
    }
    if ds.columns[i].tag in CategoricalDtypes {
      SelectedName(ds.columns, CategoricalDtypes, i);
    }
  }

  /**
    Numeric summary: the non-missing count of a numeric column and its
    missing count add up to the row count.
   */
  lemma NumericStatistics(ds: Dataset, s: DatasetSummary)
    requires WellFormed(ds) && Describes(ds, s)
    ensures forall n :: n in s.numericSummary ==>
      n in s.missingValues && s.numericSummary[n] + s.missingValues[n] == ds.rows
  {
    forall n | n in s.numericSummary
      ensures n in s.missingValues && s.numericSummary[n] + s.missingValues[n] == ds.rows
    {
      var i := NumericEntry(ds, s, n);
      NullAndNonMissing(ds.columns[i].cells);
    }
  }

  /**
    Categorical summary: the distinct count is at most the non-missing count
    (rows less missing), and the top values are at most five, one per
    distinct value when there are fewer.
   */
  lemma CategoricalStatistics(ds: Dataset, s: DatasetSummary)
    requires WellFormed(ds) && Describes(ds, s)
    ensures forall n :: n in s.categoricalSummary ==>
      && n in s.missingValues
      && s.categoricalSummary[n].uniqueValues + s.missingValues[n] <= ds.rows
      && |s.categoricalSummary[n].topValues| == Min(TopN, s.categoricalSummary[n].uniqueValues)
  {
    forall n | n in s.categoricalSummary
      ensures n in s.missingValues
      ensures s.categoricalSummary[n].uniqueValues + s.missingValues[n] <= ds.rows
      ensures |s.categoricalSummary[n].topValues| == Min(TopN, s.categoricalSummary[n].uniqueValues)
    {
      var i := CategoricalEntry(ds, s, n);
      NullAndNonMissing(ds.columns[i].cells);
    }
  }
}
