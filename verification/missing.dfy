/**
  Per-column missing-value statistics: `df.isnull().sum()` and
  `df.isnull().mean() * 100`, and the non-missing `count` that `describe()`
  reports for a numeric column.
 */
module Missing {
  import opened Wrappers
  import opened Frame

  /** `isnull().sum()` for one column: the number of missing cells. */
  function NullCount(cells: seq<Cell>): (n: nat)
    ensures n <= |cells|
    ensures n == 0 <==> forall i :: 0 <= i < |cells| ==> cells[i].Some?
    ensures n == |cells| <==> forall i :: 0 <= i < |cells| ==> cells[i].None?
  {
    if cells == [] then 0
    else
      var k := |cells| - 1;
      NullCount(cells[..k]) + (if cells[k].None? then 1 else 0)
  }

  /** `count()` for one column: the number of non-missing cells. */
  function NonMissingCount(cells: seq<Cell>): (n: nat)
    ensures n <= |cells|
    ensures n == 0 <==> forall i :: 0 <= i < |cells| ==> cells[i].None?
  {
    if cells == [] then 0
    else
      var k := |cells| - 1;
      NonMissingCount(cells[..k]) + (if cells[k].Some? then 1 else 0)
  }

  /** Every cell is either missing or not. */
  lemma {:induction false} NullAndNonMissing(cells: seq<Cell>)
    ensures NullCount(cells) + NonMissingCount(cells) == |cells|
  {
    if cells != [] {
      NullAndNonMissing(cells[..|cells| - 1]);
    }
  }

  /**
    numpy's rounding to an integer: to the nearest one, and to the even one
    of the two when `x` lies exactly half-way between them.
   */
  function RoundHalfEven(x: real): (n: int)
    ensures x - 0.5 <= n as real <= x + 0.5
    ensures x - 0.5 < n as real < x + 0.5 || n % 2 == 0
  {
    var f := x.Floor;
    var d := x - f as real;
    if d < 0.5 then f else if d > 0.5 then f + 1 else if f % 2 == 0 then f else f + 1
  }

  /** `round(2)`: to the nearest hundredth, ties to the even hundredth. */
  function Round2(x: real): (r: real)
    ensures x - 0.005 <= r <= x + 0.005
    ensures (r * 100.0).Floor as real == r * 100.0
  {
    var n := RoundHalfEven(x * 100.0);
    assert (n as real / 100.0) * 100.0 == n as real;
    n as real / 100.0
  }

  /** The exact share of `count` in `rows`, in percent. */
  function Share(count: nat, rows: nat): (s: real)
    requires rows > 0
    ensures s * (rows as real) == (count as real) * 100.0
    ensures count <= rows ==> 0.0 <= s <= 100.0
  {
    PercentBounds(count as real, rows as real);
    (count as real) * 100.0 / (rows as real)
  }

  /**
    `p` is `count` out of `rows` in percent as the dashboard shows it:
    undefined (NaN) without rows, otherwise a whole number of hundredths
    between 0 and 100, within half a hundredth of the exact share.
   */
  predicate IsPercentage(p: Option<real>, count: nat, rows: nat)
  {
    && (p.None? <==> rows == 0)
    && (p.Some? ==>
          && rows > 0
          && 0.0 <= p.value <= 100.0
          && (p.value * 100.0).Floor as real == p.value * 100.0
          && Share(count, rows) - 0.005 <= p.value <= Share(count, rows) + 0.005)
  }

  /**
    `(isnull().mean() * 100).round(2)` for a count out of `rows`: NaN
    (`None`) when there are no rows, since the mean of an empty column is
    NaN; otherwise the share in percent rounded to two decimals.
   */
  function Percentage(count: nat, rows: nat): (p: Option<real>)
    requires count <= rows
    ensures IsPercentage(p, count, rows)
  {
    if rows == 0 then None
    else
      var s := Share(count, rows);
      RoundedRange(s);
      Some(Round2(s))
  }

  /** The missing percentage of one column. */
  function MissingPercentage(cells: seq<Cell>): (p: Option<real>)
    ensures IsPercentage(p, NullCount(cells), |cells|)
  {
    Percentage(NullCount(cells), |cells|)
  }

  /**
    The rounded percentage is 0 exactly when the missing share is at most
    half a hundredth of a percent (one in 20000 rows), and 100 exactly when
    the present share is; so it is 0 when nothing is missing and 100 when
    everything is, but also for a few missing cells in a very long column.
   */
  lemma PercentageExtremes(count: nat, rows: nat)
    requires count <= rows && rows > 0
    ensures Percentage(count, rows).value == 0.0 <==> count * 20000 <= rows
    ensures Percentage(count, rows).value == 100.0 <==> (rows - count) * 20000 <= rows
  {
    var s := Share(count, rows);
    var y := s * 100.0;
    assert Percentage(count, rows).value == RoundHalfEven(y) as real / 100.0;
    ScaledShare(count, rows, y);
    RoundZero(y);
    RoundFull(y);
  }

  /** The scaled share against the integer thresholds of `PercentageExtremes`. */
  lemma ScaledShare(count: nat, rows: nat, y: real)
    requires count <= rows && rows > 0 && y == Share(count, rows) * 100.0
    ensures 0.0 <= y <= 10000.0
    ensures y <= 0.5 <==> count * 20000 <= rows
    ensures y >= 9999.5 <==> (rows - count) * 20000 <= rows
  {
    var s, r, c := Share(count, rows), rows as real, count as real;
    assert y * r == (s * r) * 100.0;
    HalfThreshold(y, r, c);
    FullThreshold(y, r, c);
  }

  lemma HalfThreshold(y: real, r: real, c: real)
    requires r > 0.0 && y * r == c * 10000.0
    ensures y <= 0.5 <==> c * 20000.0 <= r
  {
    ScaleLe(y, 0.5, r);
  }

  lemma FullThreshold(y: real, r: real, c: real)
    requires r > 0.0 && y * r == c * 10000.0
    ensures y >= 9999.5 <==> (r - c) * 20000.0 <= r
  {
    ScaleLe(9999.5, y, r);
  }

  /** Multiplying both sides by a positive factor keeps an inequality. */
  lemma ScaleLe(a: real, b: real, c: real)
    requires c > 0.0
    ensures a <= b <==> a * c <= b * c
  {
    if a <= b {
      assert (b - a) * c >= 0.0;
    } else {
      assert (a - b) * c > 0.0;
    }
  }

  /** A share between 0 and 100 rounds to one between 0 and 100. */
  lemma RoundedRange(x: real)
    requires 0.0 <= x <= 100.0
    ensures 0.0 <= Round2(x) <= 100.0
  {
    var y := x * 100.0;
    assert 0.0 <= y <= 10000.0;
    if y.Floor == 10000 {
      assert y == 10000.0;
    }
  }

  /** A non-negative number rounds to 0 exactly when it is at most one half. */
  lemma RoundZero(y: real)
    requires y >= 0.0
    ensures RoundHalfEven(y) == 0 <==> y <= 0.5
  {
    if y > 0.5 && y < 1.0 {
      assert y.Floor == 0;
    }
  }

  /** A number up to 10000 rounds to 10000 exactly when it is at least 9999.5. */
  lemma RoundFull(y: real)
    requires y <= 10000.0
    ensures RoundHalfEven(y) == 10000 <==> y >= 9999.5
  {
    if 9999.0 <= y < 10000.0 {
      assert y.Floor == 9999;
    }
  }

  /** The arithmetic behind the bounds of a share `n * 100 / r` with `0 <= n <= r`. */
  lemma PercentBounds(n: real, r: real)
    requires 0.0 <= n && r > 0.0
    ensures (n * 100.0 / r) * r == n * 100.0
    ensures n <= r ==> 0.0 <= n * 100.0 / r <= 100.0
  {
  }
}
