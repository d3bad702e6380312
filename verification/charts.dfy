/**
  The chart planner: which charts the dashboard draws for a frame and in
  which order. Drawing is left out; each chart is a `ChartSpec`.
 */
module Charts {
  import opened Frame
  import opened Classify

  datatype ChartSpec =
    | MissingHeatmap
    | Histogram(column: string)
    | BarChart(column: string)
    | CorrelationHeatmap(columns: seq<string>)
    | Scatter(x: string, y: string)

  /** The pairs `(i, j)` for `j` from `i + 1` up to `n - 1`, in increasing `j`. */
  function RowPairs(i: nat, n: nat): (ps: seq<(nat, nat)>)
    ensures |ps| == if i < n then n - i - 1 else 0
    ensures forall k :: 0 <= k < |ps| ==> ps[k] == (i, i + 1 + k)
  {
    if n <= i + 1 then []
    else seq(n - i - 1, k requires 0 <= k < n - i - 1 => (i, i + 1 + k))
  }

  /** The index pairs `(a, b)` with `a < i` and `a < b < n`, as the nested loop visits them. */
  function PairsBelow(i: nat, n: nat): (ps: seq<(nat, nat)>)
    ensures forall k :: 0 <= k < |ps| ==> ps[k].0 < i && ps[k].0 < ps[k].1 < n
    decreases i
  {
    if i == 0 then []
    else PairsBelow(i - 1, n) + RowPairs(i - 1, n)
  }

  /** All index pairs `i < j` below `n`, in lexicographic order. */
  function Pairs(n: nat): (ps: seq<(nat, nat)>)
    ensures forall k :: 0 <= k < |ps| ==> ps[k].0 < ps[k].1 < n
  {
    PairsBelow(n, n)
  }

  /** One scatter plot per index pair, x from the first column, y from the second. */
  function ScattersOf(names: seq<string>, ps: seq<(nat, nat)>): (cs: seq<ChartSpec>)
    requires forall k :: 0 <= k < |ps| ==> ps[k].0 < |names| && ps[k].1 < |names|
    ensures |cs| == |ps|
    ensures forall k :: 0 <= k < |ps| ==> cs[k] == Scatter(names[ps[k].0], names[ps[k].1])
  {
    seq(|ps|, k requires 0 <= k < |ps| => Scatter(names[ps[k].0], names[ps[k].1]))
  }

  function Histograms(names: seq<string>): (cs: seq<ChartSpec>)
    ensures |cs| == |names|
    ensures forall i :: 0 <= i < |names| ==> cs[i] == Histogram(names[i])
  {
    seq(|names|, i requires 0 <= i < |names| => Histogram(names[i]))
  }

  function BarCharts(names: seq<string>): (cs: seq<ChartSpec>)
    ensures |cs| == |names|
    ensures forall i :: 0 <= i < |names| ==> cs[i] == BarChart(names[i])
  {
    seq(|names|, i requires 0 <= i < |names| => BarChart(names[i]))
  }

  /** `plot_correlation_heatmap`: one heatmap over the numeric columns when there are more than one. */
  function CorrelationPlan(numeric: seq<string>): (cs: seq<ChartSpec>)
    ensures |cs| <= 1
    ensures cs != [] <==> |numeric| >= 2
    ensures cs != [] ==> cs[0] == CorrelationHeatmap(numeric)
  {
    if |numeric| > 1 then [CorrelationHeatmap(numeric)] else []
  }

  /** `plot_bivariate`: one scatter per pair of numeric columns when there are at least two. */
  function BivariatePlan(numeric: seq<string>): (cs: seq<ChartSpec>)
    ensures |numeric| < 2 ==> cs == []
    ensures forall k :: 0 <= k < |cs| ==> cs[k].Scatter? && cs[k].x in numeric && cs[k].y in numeric
  {
    if |numeric| >= 2 then ScattersOf(numeric, Pairs(|numeric|)) else []
  }

  function NumericNames(ds: Dataset): seq<string>
  {
    Names(NumericColumns(ds))
  }

  function CategoricalNames(ds: Dataset): seq<string>
  {
    Names(CategoricalColumns(ds))
  }

  /**
    The charts of one analysis, in the order the dashboard calls the
    planners: the missing-value heatmap, the univariate charts, the
    correlation heatmap, the scatter plots.
   */
  function ChartPlan(ds: Dataset): (cs: seq<ChartSpec>)
    ensures 1 + |NumericColumns(ds)| + |CategoricalColumns(ds)| <= |cs|
    ensures cs[0] == MissingHeatmap
  {
    Layout(NumericNames(ds), CategoricalNames(ds))
  }

  /** The chart plan for given numeric and categorical column names. */
  function Layout(numeric: seq<string>, categorical: seq<string>): (cs: seq<ChartSpec>)
    ensures 1 + |numeric| + |categorical| <= |cs|
    ensures cs[0] == MissingHeatmap
  {
    [MissingHeatmap] + Histograms(numeric) + BarCharts(categorical)
      + CorrelationPlan(numeric) + BivariatePlan(numeric)
  }

  /** `plot_missing_heatmap`: always one heatmap of the whole frame. */
  method PlotMissingHeatmap(ds: Dataset) returns (charts: seq<ChartSpec>)
    ensures charts == [MissingHeatmap]
  {
    charts := [MissingHeatmap];
  }

  /**
    `plot_univariate`: a histogram per numeric column, then a bar chart per
    object or category column, each in column order.
   */
  method PlotUnivariate(ds: Dataset) returns (charts: seq<ChartSpec>)
    ensures charts == Histograms(NumericNames(ds)) + BarCharts(CategoricalNames(ds))
  {
    var numericCols, catCols := NumericNames(ds), CategoricalNames(ds);
    charts := UnivariateLoops(numericCols, catCols);
  }

  /** The two loops of `plot_univariate`, over the numeric and then the categorical column names. */
  method UnivariateLoops(numericCols: seq<string>, catCols: seq<string>) returns (charts: seq<ChartSpec>)
    ensures |charts| == |numericCols| + |catCols|
    ensures forall i :: 0 <= i < |numericCols| ==> charts[i] == Histogram(numericCols[i])
    ensures forall j :: 0 <= j < |catCols| ==> charts[|numericCols| + j] == BarChart(catCols[j])
    ensures charts == Histograms(numericCols) + BarCharts(catCols)
  {
    charts := [];
    for i := 0 to |numericCols|
      invariant charts == Histograms(numericCols[..i])
    {
      assert numericCols[..i + 1] == numericCols[..i] + [numericCols[i]];
      charts := charts + [Histogram(numericCols[i])];
    }
    assert numericCols[..|numericCols|] == numericCols;
    for j := 0 to |catCols|
      invariant charts == Histograms(numericCols) + BarCharts(catCols[..j])
    {
      assert catCols[..j + 1] == catCols[..j] + [catCols[j]];
      charts := charts + [BarChart(catCols[j])];
    }
    assert catCols[..|catCols|] == catCols;
  }

  /** `plot_correlation_heatmap`: the heatmap exists exactly when there are at least two numeric columns. */
  method PlotCorrelationHeatmap(ds: Dataset) returns (charts: seq<ChartSpec>)
    ensures charts == CorrelationPlan(NumericNames(ds))
  {
    var numericDf := NumericNames(ds);
    if |numericDf| > 1 {
      charts := [CorrelationHeatmap(numericDf)];
    } else {
      charts := [];
    }
  }

  /**
    `plot_bivariate`: for two or more numeric columns, one scatter per pair
    of numeric columns; otherwise none.
   */
  method PlotBivariate(ds: Dataset) returns (charts: seq<ChartSpec>)
    ensures charts == BivariatePlan(NumericNames(ds))
  {
    var numericCols := NumericNames(ds);
    if |numericCols| >= 2 {
      charts := ScatterLoop(numericCols);
    } else {
      charts := [];
    }
  }

  /** The nested loop of `plot_bivariate` over `i` and `j > i`. */
  method ScatterLoop(numericCols: seq<string>) returns (charts: seq<ChartSpec>)
    ensures charts == ScattersOf(numericCols, Pairs(|numericCols|))
  {
    var n := |numericCols|;
    charts := [];
    for i := 0 to n
      invariant charts == ScattersOf(numericCols, PairsBelow(i, n))
    {
      var row := ScatterRow(numericCols, i);
      ScattersOfAppend(numericCols, PairsBelow(i, n), RowPairs(i, n));
      charts := charts + row;
    }
  }

  /** The inner loop of `plot_bivariate`: the scatter plots of column `i` against each later column. */
  method ScatterRow(numericCols: seq<string>, i: nat) returns (row: seq<ChartSpec>)
    requires i < |numericCols|
    ensures row == ScattersOf(numericCols, RowPairs(i, |numericCols|))
  {
    var n := |numericCols|;
    row := [];
    for j := i + 1 to n
      invariant |row| == j - i - 1
      invariant forall k :: 0 <= k < |row| ==> row[k] == Scatter(numericCols[i], numericCols[i + 1 + k])
    {
      row := row + [Scatter(numericCols[i], numericCols[j])];
    }
  }

  /** Scatter plots of a concatenation of pair lists are the concatenation of their scatter plots. */
  lemma ScattersOfAppend(names: seq<string>, a: seq<(nat, nat)>, b: seq<(nat, nat)>)
    requires forall k :: 0 <= k < |a| ==> a[k].0 < |names| && a[k].1 < |names|
    requires forall k :: 0 <= k < |b| ==> b[k].0 < |names| && b[k].1 < |names|
    ensures ScattersOf(names, a + b) == ScattersOf(names, a) + ScattersOf(names, b)
  {
  }

  /** The chart calls of the dashboard, in order (Universal_EDA.py, lines 137 and 153 to 155). */
  method PlanCharts(ds: Dataset) returns (charts: seq<ChartSpec>)
    ensures charts == ChartPlan(ds)
  {
    var heatmap := PlotMissingHeatmap(ds);
    var univariate := PlotUnivariate(ds);
    var correlation := PlotCorrelationHeatmap(ds);
    var bivariate := PlotBivariate(ds);
    charts := heatmap + univariate + correlation + bivariate;
    ghost var nums, cats := NumericNames(ds), CategoricalNames(ds);
    assert charts == [MissingHeatmap] + Histograms(nums) + BarCharts(cats) + CorrelationPlan(nums) + BivariatePlan(nums);
  }
}

/** What the pair enumeration of `plot_bivariate` and the chart plan promise. */
module ChartFacts {
  import opened Frame
  import opened Classify
  import opened Charts

  /** Lexicographic order on index pairs. */
  predicate LexLess(p: (nat, nat), q: (nat, nat))
  {
    p.0 < q.0 || (p.0 == q.0 && p.1 < q.1)
  }

  /** The nested loop visits `sum (n - 1 - a)` pairs for `a < i`, that is `i * (2n - i - 1) / 2`. */
  lemma {:induction false} PairsBelowCount(i: nat, n: nat)
    requires i <= n
    ensures 2 * |PairsBelow(i, n)| == i * (2 * n - i - 1)
  {
    if i > 0 {
      PairsBelowCount(i - 1, n);
      assert |PairsBelow(i, n)| == |PairsBelow(i - 1, n)| + (n - i);
      assert (i - 1) * (2 * n - i) + 2 * (n - i) == i * (2 * n - i - 1);
    }
  }

  /** With `n` columns there are `n (n - 1) / 2` pairs: C(n, 2). */
  lemma PairsCount(n: nat)
    ensures 2 * |Pairs(n)| == n * (n - 1)
  {
    PairsBelowCount(n, n);
  }

  /** Every pair `a < b < n` with `a < i` is visited. */
  lemma {:induction false} PairsBelowComplete(i: nat, n: nat)
    ensures forall a, b :: 0 <= a < i && a < b < n ==> (a, b) in PairsBelow(i, n)
  {
    if i > 0 {
      PairsBelowComplete(i - 1, n);
      var row := RowPairs(i - 1, n);
      forall a, b | 0 <= a < i && a < b < n
        ensures (a, b) in PairsBelow(i, n)
      {
        if a == i - 1 {
          assert row[b - a - 1] == (a, b);
        }
      }
    }
  }

  /** The pairs come in strictly increasing lexicographic order, so none repeats. */
  lemma {:induction false} PairsBelowSorted(i: nat, n: nat)
    ensures forall p, q :: 0 <= p < q < |PairsBelow(i, n)| ==> LexLess(PairsBelow(i, n)[p], PairsBelow(i, n)[q])
  {
    if i > 0 {
      PairsBelowSorted(i - 1, n);
      var done, row := PairsBelow(i - 1, n), RowPairs(i - 1, n);
      var ps := PairsBelow(i, n);
      assert ps == done + row;
      forall p, q | 0 <= p < q < |ps|
        ensures LexLess(ps[p], ps[q])
      {
        if q < |done| {
          assert ps[p] == done[p] && ps[q] == done[q];
        } else if p < |done| {
          assert ps[p] == done[p] && ps[q] == row[q - |done|];
        } else {
          assert ps[p] == row[p - |done|] && ps[q] == row[q - |done|];
        }
      }
    }
  }

  /**
    The number of scatter plots of `plot_bivariate`: C(n, 2) for `n`
    numeric columns, so none with fewer than two.
   */
  lemma BivariateCount(names: seq<string>)
    ensures |names| < 2 ==> BivariatePlan(names) == []
    ensures 2 * |BivariatePlan(names)| == |names| * (|names| - 1)
  {
    var n := |names|;
    if n >= 2 {
      PairsCount(n);
    } else {
      assert n * (n - 1) == 0;
    }
  }

  /**
    The order of the scatter plots: the k-th pairs columns `a < b`, where
    `(a, b)` is the k-th pair in strictly increasing lexicographic order.
   */
  lemma BivariateOrder(names: seq<string>)
    requires |names| >= 2
    ensures |BivariatePlan(names)| == |Pairs(|names|)|
    ensures forall k :: 0 <= k < |BivariatePlan(names)| ==>
      Pairs(|names|)[k].0 < Pairs(|names|)[k].1 < |names| &&
      BivariatePlan(names)[k] == Scatter(names[Pairs(|names|)[k].0], names[Pairs(|names|)[k].1])
    ensures forall k, m :: 0 <= k < m < |Pairs(|names|)| ==> LexLess(Pairs(|names|)[k], Pairs(|names|)[m])
  {
    PairsBelowSorted(|names|, |names|);
  }

  /** Every pair of numeric columns `a < b` has its scatter plot. */
  lemma BivariateComplete(names: seq<string>)
    ensures |names| >= 2 ==> forall a, b :: 0 <= a < b < |names| ==> Scatter(names[a], names[b]) in BivariatePlan(names)
  {
    var n := |names|;
    if n >= 2 {
      PairsBelowComplete(n, n);
      var cs := BivariatePlan(names);
      forall a, b | 0 <= a < b < n
        ensures Scatter(names[a], names[b]) in cs
      {
        var k :| 0 <= k < |Pairs(n)| && Pairs(n)[k] == (a, b);
        assert cs[k] == Scatter(names[a], names[b]);
      }
    }
  }

  /**
    With distinct column names no scatter plot pairs a column with itself
    and no two scatter plots are the same.
   */
  lemma BivariateDistinct(names: seq<string>)
    requires forall a, b :: 0 <= a < b < |names| ==> names[a] != names[b]
    ensures forall k :: 0 <= k < |BivariatePlan(names)| ==>
      BivariatePlan(names)[k].Scatter? && BivariatePlan(names)[k].x != BivariatePlan(names)[k].y
    ensures forall k, m :: 0 <= k < m < |BivariatePlan(names)| ==> BivariatePlan(names)[k] != BivariatePlan(names)[m]
  {
    var n := |names|;
    if n >= 2 {
      PairsBelowSorted(n, n);
      var ps, cs := Pairs(n), BivariatePlan(names);
      forall k, m | 0 <= k < m < |cs|
        ensures cs[k] != cs[m]
      {
        assert LexLess(ps[k], ps[m]);
        if ps[k].0 != ps[m].0 {
          assert names[ps[k].0] != names[ps[m].0];
        } else {
          assert names[ps[k].1] != names[ps[m].1];
        }
      }
    }
  }

  /** The number of scatter plots in a chart list. */
  function CountScatters(cs: seq<ChartSpec>): nat
  {
    if cs == [] then 0
    else CountScatters(cs[..|cs| - 1]) + (if cs[|cs| - 1].Scatter? then 1 else 0)
  }

  lemma {:induction false} CountScattersAppend(a: seq<ChartSpec>, b: seq<ChartSpec>)
    ensures CountScatters(a + b) == CountScatters(a) + CountScatters(b)
    decreases |b|
  {
    if b == [] {
      assert a + b == a;
    } else {
      var k := |b| - 1;
      assert (a + b)[..|a + b| - 1] == a + b[..k];
      assert (a + b)[|a + b| - 1] == b[k];
      CountScattersAppend(a, b[..k]);
    }
  }

  lemma {:induction false} CountScattersOnly(cs: seq<ChartSpec>, scatters: bool)
    requires forall k :: 0 <= k < |cs| ==> cs[k].Scatter? == scatters
    ensures CountScatters(cs) == if scatters then |cs| else 0
  {
    if cs != [] {
      CountScattersOnly(cs[..|cs| - 1], scatters);
    }
  }

  /** Every chart the bivariate step plans is a scatter plot. */
  lemma BivariateScatters(names: seq<string>)
    ensures forall k :: 0 <= k < |BivariatePlan(names)| ==> BivariatePlan(names)[k].Scatter?
  {
    if |names| >= 2 {
      BivariateOrder(names);
    }
  }

  /** The layout splits into the univariate charts and the rest. */
  lemma LayoutSplit(nums: seq<string>, cats: seq<string>)
    ensures Layout(nums, cats) == ([MissingHeatmap] + Histograms(nums) + BarCharts(cats))
      + (CorrelationPlan(nums) + BivariatePlan(nums))
  {
  }

  /** Where each histogram sits in the layout. */
  lemma LayoutHistograms(nums: seq<string>, cats: seq<string>)
    ensures 1 + |nums| + |cats| <= |Layout(nums, cats)|
    ensures forall i :: 0 <= i < |nums| ==> Layout(nums, cats)[1 + i] == Histogram(nums[i])
  {
    var uni := [MissingHeatmap] + Histograms(nums) + BarCharts(cats);
    LayoutSplit(nums, cats);
    assert |uni| == 1 + |nums| + |cats|;
    forall i | 0 <= i < |nums|
      ensures Layout(nums, cats)[1 + i] == Histogram(nums[i])
    {
      assert uni[1 + i] == Histograms(nums)[i];
    }
  }

  /** Where each bar chart sits in the layout. */
  lemma LayoutBarCharts(nums: seq<string>, cats: seq<string>)
    ensures 1 + |nums| + |cats| <= |Layout(nums, cats)|
    ensures forall j :: 0 <= j < |cats| ==> Layout(nums, cats)[1 + |nums| + j] == BarChart(cats[j])
  {
    var uni := [MissingHeatmap] + Histograms(nums) + BarCharts(cats);
    LayoutSplit(nums, cats);
    forall j | 0 <= j < |cats|
      ensures Layout(nums, cats)[1 + |nums| + j] == BarChart(cats[j])
    {
      assert Layout(nums, cats)[1 + |nums| + j] == uni[1 + |nums| + j];
    }
  }

  /** What follows the univariate charts in the layout. */
  lemma LayoutTail(nums: seq<string>, cats: seq<string>)
    ensures 1 + |nums| + |cats| <= |Layout(nums, cats)|
    ensures Layout(nums, cats)[1 + |nums| + |cats|..] == CorrelationPlan(nums) + BivariatePlan(nums)
  {
    LayoutSplit(nums, cats);
    var uni := [MissingHeatmap] + Histograms(nums) + BarCharts(cats);
    assert |uni| == 1 + |nums| + |cats|;
  }

  /** The univariate part of the layout holds no correlation heatmap and no scatter plot. */
  lemma UnivariateAt(nums: seq<string>, cats: seq<string>, k: nat)
    requires k < 1 + |nums| + |cats|
    ensures k < |Layout(nums, cats)|
    ensures Layout(nums, cats)[k] == MissingHeatmap <==> k == 0
    ensures !Layout(nums, cats)[k].CorrelationHeatmap? && !Layout(nums, cats)[k].Scatter?
  {
    var uni := [MissingHeatmap] + Histograms(nums) + BarCharts(cats);
    assert Layout(nums, cats) == uni + CorrelationPlan(nums) + BivariatePlan(nums);
    assert Layout(nums, cats)[k] == uni[k];
    if 0 < k <= |nums| {
      assert uni[k] == Histogram(nums[k - 1]);
    } else if |nums| < k {
      assert uni[k] == BarChart(cats[k - 1 - |nums|]);
    }
  }

  /** The part of the layout after the univariate charts. */
  lemma MultivariateAt(nums: seq<string>, cats: seq<string>, k: nat)
    requires 1 + |nums| + |cats| <= k < |Layout(nums, cats)|
    ensures Layout(nums, cats)[k] != MissingHeatmap
    ensures Layout(nums, cats)[k].CorrelationHeatmap? <==> k == 1 + |nums| + |cats| && |nums| >= 2
    ensures Layout(nums, cats)[k].CorrelationHeatmap? ==> Layout(nums, cats)[k] == CorrelationHeatmap(nums)
  {
    var uni, corr, back := [MissingHeatmap] + Histograms(nums) + BarCharts(cats), CorrelationPlan(nums), BivariatePlan(nums);
    assert Layout(nums, cats) == uni + (corr + back);
    assert Layout(nums, cats)[k] == (corr + back)[k - |uni|];
    BivariateScatters(nums);
    if |uni| + |corr| <= k {
      assert (corr + back)[k - |uni|] == back[k - |uni| - |corr|];
    }
  }

  /**
    The layout of the chart plan: the missing-value heatmap first and only
    there; then a histogram per numeric column and a bar chart per
    categorical column, each in column order; then the correlation heatmap,
    if any, and the scatter plots.
   */
  lemma ChartPlanOrder(nums: seq<string>, cats: seq<string>)
    ensures 1 + |nums| + |cats| <= |Layout(nums, cats)|
    ensures Layout(nums, cats)[0] == MissingHeatmap
    ensures forall k :: 0 < k < |Layout(nums, cats)| ==> Layout(nums, cats)[k] != MissingHeatmap
    ensures forall i :: 0 <= i < |nums| ==> Layout(nums, cats)[1 + i] == Histogram(nums[i])
    ensures forall j :: 0 <= j < |cats| ==> Layout(nums, cats)[1 + |nums| + j] == BarChart(cats[j])
    ensures Layout(nums, cats)[1 + |nums| + |cats|..] == CorrelationPlan(nums) + BivariatePlan(nums)
  {
    LayoutHistograms(nums, cats);
    LayoutBarCharts(nums, cats);
    LayoutTail(nums, cats);
    UnivariateAt(nums, cats, 0);
    forall k | 0 < k < |Layout(nums, cats)|
      ensures Layout(nums, cats)[k] != MissingHeatmap
    {
      if k < 1 + |nums| + |cats| {
        UnivariateAt(nums, cats, k);
      } else {
        MultivariateAt(nums, cats, k);
      }
    }
  }

  /**
    The correlation heatmap is planned exactly when there are at least two
    numeric columns, once, right after the univariate charts, over exactly
    the numeric columns in order.
   */
  lemma CorrelationLaw(nums: seq<string>, cats: seq<string>)
    ensures (exists k :: 0 <= k < |Layout(nums, cats)| && Layout(nums, cats)[k].CorrelationHeatmap?) <==> |nums| >= 2
    ensures forall k :: 0 <= k < |Layout(nums, cats)| && Layout(nums, cats)[k].CorrelationHeatmap? ==>
      k == 1 + |nums| + |cats| && Layout(nums, cats)[k] == CorrelationHeatmap(nums)
  {
    var plan, h := Layout(nums, cats), 1 + |nums| + |cats|;
    forall k | 0 <= k < |plan| && plan[k].CorrelationHeatmap?
      ensures k == h && plan[k] == CorrelationHeatmap(nums)
    {
      if k < h {
        UnivariateAt(nums, cats, k);
      } else {
        MultivariateAt(nums, cats, k);
      }
    }
    if |nums| >= 2 {
      LayoutTail(nums, cats);
      assert plan[h..][0] == CorrelationHeatmap(nums);
      assert plan[h].CorrelationHeatmap?;
    }
  }

  /** Everything the layout holds before its scatter plots. */
  function LeadingCharts(nums: seq<string>, cats: seq<string>): (cs: seq<ChartSpec>)
    ensures Layout(nums, cats) == cs + BivariatePlan(nums)
    ensures forall k :: 0 <= k < |cs| ==> !cs[k].Scatter?
  {
    var cs := [MissingHeatmap] + Histograms(nums) + BarCharts(cats) + CorrelationPlan(nums);
    assert forall k :: 0 <= k < |cs| ==> !cs[k].Scatter? by {
      forall k | 0 <= k < |cs|
        ensures !cs[k].Scatter?
      {
        if 0 < k <= |nums| {
          assert cs[k] == Histogram(nums[k - 1]);
        } else if |nums| < k <= |nums| + |cats| {
          assert cs[k] == BarChart(cats[k - 1 - |nums|]);
        }
      }
    }
    cs
  }

  /**
    The scatter plots of the chart plan: C(n, 2) of them for `n` numeric
    columns (none for fewer than two), all after every other chart, and in
    the order the bivariate step emits them.
   */
  lemma ScatterCount(nums: seq<string>, cats: seq<string>)
    ensures 2 * CountScatters(Layout(nums, cats)) == |nums| * (|nums| - 1)
    ensures forall k :: 0 <= k < |Layout(nums, cats)| && Layout(nums, cats)[k].Scatter? ==>
      k >= |LeadingCharts(nums, cats)| &&
      Layout(nums, cats)[k] == BivariatePlan(nums)[k - |LeadingCharts(nums, cats)|]
  {
    var front, back := LeadingCharts(nums, cats), BivariatePlan(nums);
    BivariateScatters(nums);
    CountScattersOnly(front, false);
    CountScattersOnly(back, true);
    CountScattersAppend(front, back);
    BivariateCount(nums);
  }

  /** Every pair of numeric columns `a < b` has its scatter plot in the chart plan. */
  lemma ScatterComplete(nums: seq<string>, cats: seq<string>)
    ensures forall a, b :: 0 <= a < b < |nums| ==> Scatter(nums[a], nums[b]) in Layout(nums, cats)
  {
    var front, back := LeadingCharts(nums, cats), BivariatePlan(nums);
    BivariateComplete(nums);
    forall a, b | 0 <= a < b < |nums|
      ensures Scatter(nums[a], nums[b]) in Layout(nums, cats)
    {
      assert Scatter(nums[a], nums[b]) in back;
    }
  }

  /**
    On a well-formed frame the scatter plots of the chart plan never pair a
    column with itself and never repeat.
   */
  lemma ScatterDistinct(ds: Dataset)
    requires WellFormed(ds)
    ensures forall k :: 0 <= k < |BivariatePlan(NumericNames(ds))| ==>
      BivariatePlan(NumericNames(ds))[k].x != BivariatePlan(NumericNames(ds))[k].y
    ensures forall k, m :: 0 <= k < m < |BivariatePlan(NumericNames(ds))| ==>
      BivariatePlan(NumericNames(ds))[k] != BivariatePlan(NumericNames(ds))[m]
  {
    SelectionsUnique(ds);
    BivariateDistinct(NumericNames(ds));
  }
}
