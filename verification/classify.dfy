/**
  The column classifier: `select_dtypes(include=np.number)` and
  `select_dtypes(include=['object', 'category'])`. A selection is given by
  the positions of the chosen columns, which keeps the frame's column order.
 */
module Classify {
  import opened Frame

  /** The tags `np.number` selects. */
  const NumberDtypes: set<Tag> := {Numeric}

  /** The tags `['object', 'category']` selects. */
  const CategoricalDtypes: set<Tag> := {Object, Category}

  predicate StrictlyIncreasing(idx: seq<nat>)
  {
    forall a, b :: 0 <= a < b < |idx| ==> idx[a] < idx[b]
  }

  /**
    `select_dtypes(include=dtypes)`: the positions of exactly the columns
    whose tag is included, in increasing order, so the selection is a
    subsequence of the column order.
   */
  function SelectDtypes(cols: seq<Column>, dtypes: set<Tag>): (idx: seq<nat>)
    ensures StrictlyIncreasing(idx)
    ensures forall k :: 0 <= k < |idx| ==> idx[k] < |cols| && cols[idx[k]].tag in dtypes
    ensures forall i :: 0 <= i < |cols| && cols[i].tag in dtypes ==> i in idx
    decreases |cols|
  {
    if cols == [] then []
    else
      var n := |cols| - 1;
      SelectDtypes(cols[..n], dtypes) + (if cols[n].tag in dtypes then [n] else [])
  }

  /** The sub-frame made of the columns at the given positions. */
  function Pick(cols: seq<Column>, idx: seq<nat>): (r: seq<Column>)
    requires forall k :: 0 <= k < |idx| ==> idx[k] < |cols|
    ensures |r| == |idx|
    ensures forall k :: 0 <= k < |idx| ==> r[k] == cols[idx[k]]
  {
    seq(|idx|, k requires 0 <= k < |idx| => cols[idx[k]])
  }

  function NumericIndices(ds: Dataset): seq<nat>
  {
    SelectDtypes(ds.columns, NumberDtypes)
  }

  function CategoricalIndices(ds: Dataset): seq<nat>
  {
    SelectDtypes(ds.columns, CategoricalDtypes)
  }

  /** `df.select_dtypes(include=np.number)`, as a list of columns. */
  function NumericColumns(ds: Dataset): seq<Column>
  {
    Pick(ds.columns, NumericIndices(ds))
  }

  /** `df.select_dtypes(include=['object', 'category'])`, as a list of columns. */
  function CategoricalColumns(ds: Dataset): seq<Column>
  {
    Pick(ds.columns, CategoricalIndices(ds))
  }

  /** The numeric columns are exactly the `Numeric` columns, in column order. */
  lemma NumericSelection(ds: Dataset)
    ensures StrictlyIncreasing(NumericIndices(ds))
    ensures forall k :: 0 <= k < |NumericIndices(ds)| ==>
      NumericIndices(ds)[k] < |ds.columns| && NumericColumns(ds)[k] == ds.columns[NumericIndices(ds)[k]]
    ensures forall c :: c in NumericColumns(ds) <==> c in ds.columns && c.tag == Numeric
  {
    var idx := NumericIndices(ds);
    forall c | c in ds.columns && c.tag == Numeric
      ensures c in NumericColumns(ds)
    {
      var i :| 0 <= i < |ds.columns| && ds.columns[i] == c;
      var k :| 0 <= k < |idx| && idx[k] == i;
      assert NumericColumns(ds)[k] == c;
    }
  }

  /** The categorical columns are exactly the `Object` and `Category` columns, in column order. */
  lemma CategoricalSelection(ds: Dataset)
    ensures StrictlyIncreasing(CategoricalIndices(ds))
    ensures forall k :: 0 <= k < |CategoricalIndices(ds)| ==>
      CategoricalIndices(ds)[k] < |ds.columns| && CategoricalColumns(ds)[k] == ds.columns[CategoricalIndices(ds)[k]]
    ensures forall c :: c in CategoricalColumns(ds) <==> c in ds.columns && (c.tag == Object || c.tag == Category)
  {
    var idx := CategoricalIndices(ds);
    forall c | c in ds.columns && (c.tag == Object || c.tag == Category)
      ensures c in CategoricalColumns(ds)
    {
      var i :| 0 <= i < |ds.columns| && ds.columns[i] == c;
      var k :| 0 <= k < |idx| && idx[k] == i;
      assert CategoricalColumns(ds)[k] == c;
    }
  }

  /**
    No column is both numeric and categorical, by position and (the names
    being unique) by name; a column tagged `Other` is in neither selection.
   */
  lemma ClassificationDisjoint(ds: Dataset)
    requires WellFormed(ds)
    ensures forall i :: i in NumericIndices(ds) ==> i !in CategoricalIndices(ds)
    ensures forall n :: n in Names(NumericColumns(ds)) ==> n !in Names(CategoricalColumns(ds))
    ensures forall i :: 0 <= i < |ds.columns| && ds.columns[i].tag == Other ==>
      i !in NumericIndices(ds) && i !in CategoricalIndices(ds)
  {
    var num, cat := NumericIndices(ds), CategoricalIndices(ds);
    forall a, b | 0 <= a < |num| && 0 <= b < |cat|
      ensures NumericColumns(ds)[a].name != CategoricalColumns(ds)[b].name
    {
      assert num[a] != cat[b];
    }
  }

  /** A selection of a frame with unique names has unique names. */
  lemma {:induction false} PickUnique(cols: seq<Column>, idx: seq<nat>)
    requires UniqueNames(cols) && StrictlyIncreasing(idx)
    requires forall k :: 0 <= k < |idx| ==> idx[k] < |cols|
    ensures UniqueNames(Pick(cols, idx))
  {
    var r := Pick(cols, idx);
    forall a, b | 0 <= a < b < |r|
      ensures r[a].name != r[b].name
    {
      assert idx[a] < idx[b];
    }
  }

  /** Both selections of a well-formed frame have unique names. */
  lemma SelectionsUnique(ds: Dataset)
    requires WellFormed(ds)
    ensures UniqueNames(NumericColumns(ds)) && UniqueNames(CategoricalColumns(ds))
  {
    PickUnique(ds.columns, NumericIndices(ds));
    PickUnique(ds.columns, CategoricalIndices(ds));
  }
}
