/**
  The data frame the dashboard analyses: an ordered sequence of named
  columns of equal length. Every cell is either a value or missing
  (NaN, None or NaT in the loaded frame).
 */
module Frame {
  import opened Wrappers

  /** A non-missing cell value, as the loader produced it. */
  datatype Value = Number(x: real) | Text(s: string) | Flag(b: bool) | Timestamp(t: int)

  /** A cell: `None` is a missing entry. */
  type Cell = Option<Value>

  /**
    The declared dtype of a column, as a closed tag: `Numeric` stands for the
    integer and floating dtypes that `np.number` selects, `Object` and
    `Category` for the text and categorical dtypes, and `Other` for every
    remaining dtype (bool, datetime, ...).
   */
  datatype Tag = Numeric | Object | Category | Other

  datatype Column = Column(name: string, tag: Tag, cells: seq<Cell>)

  /** `rows` is kept apart from the columns so that a frame without columns still has a row count. */
  datatype Dataset = Dataset(rows: nat, columns: seq<Column>)

  /** The column names, in column order (`df.columns.tolist()`). */
  function Names(cols: seq<Column>): (r: seq<string>)
    ensures |r| == |cols|
    ensures forall i :: 0 <= i < |cols| ==> r[i] == cols[i].name
  {
    seq(|cols|, i requires 0 <= i < |cols| => cols[i].name)
  }

  predicate UniqueNames(cols: seq<Column>)
  {
    forall i, j :: 0 <= i < j < |cols| ==> cols[i].name != cols[j].name
  }

  /** Every column has one cell per row, and no two columns share a name. */
  predicate WellFormed(ds: Dataset)
  {
    && (forall i :: 0 <= i < |ds.columns| ==> |ds.columns[i].cells| == ds.rows)
    && UniqueNames(ds.columns)
  }

  /** Row `r`: the tuple of the cells at position `r`, one per column, in column order. */
  function Row(ds: Dataset, r: nat): (t: seq<Cell>)
    requires WellFormed(ds) && r < ds.rows
    ensures |t| == |ds.columns|
    ensures forall c :: 0 <= c < |t| ==> t[c] == ds.columns[c].cells[r]
  {
    seq(|ds.columns|, c requires 0 <= c < |ds.columns| => ds.columns[c].cells[r])
  }

  /** All rows, top to bottom. */
  function Rows(ds: Dataset): (rs: seq<seq<Cell>>)
    requires WellFormed(ds)
    ensures |rs| == ds.rows
    ensures forall r :: 0 <= r < ds.rows ==> rs[r] == Row(ds, r)
  {
    seq(ds.rows, r requires 0 <= r < ds.rows => Row(ds, r))
  }
}
