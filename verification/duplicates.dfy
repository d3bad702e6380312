/**
  `df.duplicated().sum()`: a row is a duplicate when its whole tuple of
  cells equals the tuple of some strictly earlier row; a missing cell equals
  a missing cell. First occurrences are not counted.
 */
module Duplicates {
  import opened Wrappers
  import opened Frame

  /** `duplicated()[r]`. */
  function IsDuplicate(ds: Dataset, r: nat): (d: bool)
    requires WellFormed(ds) && r < ds.rows
    ensures d <==> exists k :: 0 <= k < r && Row(ds, k) == Row(ds, r)
  {
    var rs := Rows(ds);
    assert forall k :: 0 <= k < r ==> rs[..r][k] == Row(ds, k);
    Row(ds, r) in rs[..r]
  }

  /** The number of duplicates among the first `k` rows. */
  function DuplicatesIn(ds: Dataset, k: nat): (n: nat)
    requires WellFormed(ds) && k <= ds.rows
    ensures n <= k
  {
    if k == 0 then 0
    else DuplicatesIn(ds, k - 1) + (if IsDuplicate(ds, k - 1) then 1 else 0)
  }

  /**
    `duplicated().sum()`. A frame without columns is empty, and pandas
    flags none of its rows.
   */
  function DuplicateCount(ds: Dataset): (n: nat)
    requires WellFormed(ds)
    ensures n <= ds.rows
    ensures ds.columns == [] ==> n == 0
  {
    if ds.columns == [] then 0 else DuplicatesIn(ds, ds.rows)
  }

  /** The distinct row tuples among the first `k` rows. */
  function DistinctRows(ds: Dataset, k: nat): set<seq<Cell>>
    requires WellFormed(ds) && k <= ds.rows
  {
    set t | t in Rows(ds)[..k]
  }

  /**
    Every row is either a first occurrence or a duplicate: the duplicate
    count is the row count less the number of distinct row tuples.
   */
  lemma {:induction false} DuplicatesAndDistinct(ds: Dataset, k: nat)
    requires WellFormed(ds) && k <= ds.rows
    ensures DuplicatesIn(ds, k) + |DistinctRows(ds, k)| == k
  {
    if k == 0 {
      assert DistinctRows(ds, 0) == {};
    } else {
      DuplicatesAndDistinct(ds, k - 1);
      var rs := Rows(ds);
      var last := rs[k - 1];
      var before, now := DistinctRows(ds, k - 1), DistinctRows(ds, k);
      assert rs[..k] == rs[..k - 1] + [last];
      assert now == before + {last};
      if IsDuplicate(ds, k - 1) {
        assert last in rs[..k - 1];
        assert now == before;
      } else {
        assert last !in before;
      }
    }
  }

  /** The first row is never a duplicate, so at most `rows - 1` rows are. */
  lemma {:induction false} DuplicateBound(ds: Dataset, k: nat)
    requires WellFormed(ds) && k <= ds.rows
    ensures k <= 1 ==> DuplicatesIn(ds, k) == 0
    ensures k >= 1 ==> DuplicatesIn(ds, k) <= k - 1
  {
    if k > 0 {
      DuplicateBound(ds, k - 1);
      if k == 1 {
        assert !IsDuplicate(ds, 0);
      }
    }
  }

  /**
    The duplicate count of the whole frame: 0 for at most one row, at most
    `rows - 1` otherwise, and, when there is a column, the row count less
    the number of distinct row tuples.
   */
  lemma DuplicateCountBound(ds: Dataset)
    requires WellFormed(ds)
    ensures ds.rows <= 1 ==> DuplicateCount(ds) == 0
    ensures ds.columns != [] ==> DuplicateCount(ds) + |DistinctRows(ds, ds.rows)| == ds.rows
    ensures ds.rows >= 1 ==> DuplicateCount(ds) <= ds.rows - 1
  {
    DuplicateBound(ds, ds.rows);
    DuplicatesAndDistinct(ds, ds.rows);
  }

  /**
    When row `q` is flagged and no other row is, the duplicates among the
    first `k` rows are 1 once `q` is among them and 0 before.
   */
  lemma {:induction false} SingleFlag(ds: Dataset, q: nat, k: nat)
    requires WellFormed(ds) && q < ds.rows && k <= ds.rows
    requires IsDuplicate(ds, q)
    requires forall r :: 0 <= r < ds.rows && r != q ==> !IsDuplicate(ds, r)
    ensures DuplicatesIn(ds, k) == if q < k then 1 else 0
  {
    if k > 0 {
      SingleFlag(ds, q, k - 1);
    }
  }

  /**
    Two identical rows `p < q` among rows that are otherwise pairwise
    different count as one duplicate, not two: only the later one is
    flagged. (A frame without columns has no duplicates at all.)
   */
  lemma OneRepeatedRow(ds: Dataset, p: nat, q: nat)
    requires WellFormed(ds) && p < q < ds.rows && Row(ds, p) == Row(ds, q)
    requires forall a, b :: 0 <= a < b < ds.rows && (a != p || b != q) ==> Row(ds, a) != Row(ds, b)
    ensures DuplicateCount(ds) == if ds.columns == [] then 0 else 1
  {
    assert IsDuplicate(ds, q);
    forall r | 0 <= r < ds.rows && r != q
      ensures !IsDuplicate(ds, r)
    {
      forall k | 0 <= k < r
        ensures Row(ds, k) != Row(ds, r)
      {
      }
    }
    SingleFlag(ds, q, ds.rows);
  }

  /** A row whose cell in some column differs from that column's cell in every earlier row is not a duplicate. */
  lemma NewCellNotDuplicate(ds: Dataset, r: nat, c: nat)
    requires WellFormed(ds) && r < ds.rows && c < |ds.columns|
    requires forall k :: 0 <= k < r ==> ds.columns[c].cells[k] != ds.columns[c].cells[r]
    ensures !IsDuplicate(ds, r)
  {
    forall k | 0 <= k < r
      ensures Row(ds, k) != Row(ds, r)
    {
      assert Row(ds, k)[c] != Row(ds, r)[c];
    }
  }

  /** A row that agrees with an earlier row in every column is a duplicate. */
  lemma SameCellsDuplicate(ds: Dataset, k: nat, r: nat)
    requires WellFormed(ds) && k < r < ds.rows
    requires forall c :: 0 <= c < |ds.columns| ==> ds.columns[c].cells[k] == ds.columns[c].cells[r]
    ensures IsDuplicate(ds, r)
  {
    assert Row(ds, k) == Row(ds, r);
  }
}
