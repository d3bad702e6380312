/**
  Per-column frequency statistics of the categorical summary:
  `nunique()` (distinct non-missing values) and `value_counts().head(5)`
  (the most frequent non-missing values with their frequencies).
 */
module ValueCounts {
  import opened Wrappers
  import opened Frame
  import opened Missing

  /** A `value_counts()` entry: a value and how often it occurs. */
  type Entry = (Value, nat)

  /** The number of entries `head(5)` keeps. */
  const TopN: nat := 5

  predicate NoDuplicates<T(==)>(s: seq<T>)
  {
    forall a, b :: 0 <= a < b < |s| ==> s[a] != s[b]
  }

  /** The distinct non-missing values of a column, as a set. */
  function ValueSet(cells: seq<Cell>): set<Value>
  {
    set i | 0 <= i < |cells| && cells[i].Some? :: cells[i].value
  }

  /** How many cells of the column hold `v`. */
  function Frequency(cells: seq<Cell>, v: Value): (f: nat)
    ensures f <= NonMissingCount(cells)
    ensures f > 0 <==> Some(v) in cells
  {
    if cells == [] then 0
    else
      var k := |cells| - 1;
      assert cells == cells[..k] + [cells[k]];
      Frequency(cells[..k], v) + (if cells[k] == Some(v) then 1 else 0)
  }

  /** The distinct non-missing values, in order of first appearance. */
  function Distinct(cells: seq<Cell>): (d: seq<Value>)
    ensures NoDuplicates(d)
    ensures forall v :: v in d <==> Some(v) in cells
    ensures |d| <= NonMissingCount(cells)
  {
    if cells == [] then []
    else
      var k := |cells| - 1;
      var d := Distinct(cells[..k]);
      assert cells == cells[..k] + [cells[k]];
      if cells[k].Some? && cells[k].value !in d then d + [cells[k].value] else d
  }

  /** Some cell holds `u` while no cell up to and including it holds `v`: `u` appears first. */
  predicate AppearsBefore(cells: seq<Cell>, u: Value, v: Value)
  {
    exists i :: 0 <= i < |cells| && cells[i] == Some(u) && forall j :: 0 <= j <= i ==> cells[j] != Some(v)
  }

  /** The distinct values are listed in order of first appearance in the column. */
  lemma {:induction false} DistinctOrder(cells: seq<Cell>)
    ensures forall a, b :: 0 <= a < b < |Distinct(cells)| ==>
      AppearsBefore(cells, Distinct(cells)[a], Distinct(cells)[b])
  {
    if cells != [] {
      var k := |cells| - 1;
      var prefix := cells[..k];
      DistinctOrder(prefix);
      var d, all := Distinct(prefix), Distinct(cells);
      forall a, b | 0 <= a < b < |all|
        ensures AppearsBefore(cells, all[a], all[b])
      {
        assert all[a] == d[a];
        if b < |d| {
          assert all[b] == d[b];
          var i :| 0 <= i < |prefix| && prefix[i] == Some(d[a])
            && forall j :: 0 <= j <= i ==> prefix[j] != Some(d[b]);
          assert cells[i] == Some(all[a]);
          forall j | 0 <= j <= i
            ensures cells[j] != Some(all[b])
          {
            assert cells[j] == prefix[j];
          }
        } else {
          assert all[b] !in d;
          assert Some(d[a]) in prefix;
          var i :| 0 <= i < |prefix| && prefix[i] == Some(d[a]);
          assert cells[i] == Some(all[a]);
          forall j | 0 <= j <= i
            ensures cells[j] != Some(all[b])
          {
            assert cells[j] == prefix[j];
          }
        }
      }
    }
  }

  /** A sequence without repetitions has as many elements as its set. */
  lemma {:induction false} NoDuplicatesCard<T>(s: seq<T>)
    requires NoDuplicates(s)
    ensures |set x | x in s| == |s|
  {
    if s != [] {
      var k := |s| - 1;
      NoDuplicatesCard(s[..k]);
      assert s == s[..k] + [s[k]];
      assert (set x | x in s) == (set x | x in s[..k]) + {s[k]};
      assert s[k] !in s[..k];
    }
  }

  /** `nunique()`: the number of distinct non-missing values. */
  function NUnique(cells: seq<Cell>): (n: nat)
    ensures n == |ValueSet(cells)|
    ensures n <= NonMissingCount(cells)
  {
    var d := Distinct(cells);
    NoDuplicatesCard(d);
    assert (set x | x in d) == ValueSet(cells) by {
      forall v | v in ValueSet(cells) ensures v in d {
        var i :| 0 <= i < |cells| && cells[i].Some? && cells[i].value == v;
        assert cells[i] == Some(v);
      }
    }
    |d|
  }

  predicate NonIncreasing(s: seq<Entry>)
  {
    forall a, b :: 0 <= a < b < |s| ==> s[a].1 >= s[b].1
  }

  /**
    Inserts `x` before the first entry that is not more frequent than it,
    so `x` is placed ahead of the entries of equal frequency.
   */
  function Insert(x: Entry, t: seq<Entry>): (r: seq<Entry>)
    ensures |r| == |t| + 1
    ensures multiset(r) == multiset(t) + multiset{x}
    decreases |t|
  {
    if t == [] || t[0].1 <= x.1 then [x] + t
    else
      assert t == [t[0]] + t[1..];
      [t[0]] + Insert(x, t[1..])
  }

  /** Insertion keeps a non-increasing sequence non-increasing. */
  lemma {:induction false} InsertSorted(x: Entry, t: seq<Entry>)
    requires NonIncreasing(t)
    ensures NonIncreasing(Insert(x, t))
    decreases |t|
  {
    if t != [] && t[0].1 > x.1 {
      var r' := Insert(x, t[1..]);
      InsertSorted(x, t[1..]);
      var r := Insert(x, t);
      assert r == [t[0]] + r';
      assert r'[0].1 <= t[0].1 by {
        if |t| > 1 && t[1].1 > x.1 {
          assert r'[0] == t[1];
        } else {
          assert r'[0] == x;
        }
      }
      forall a, b | 0 <= a < b < |r|
        ensures r[a].1 >= r[b].1
      {
        assert r[b] == r'[b - 1];
        if a > 0 {
          assert r[a] == r'[a - 1];
        }
      }
    }
  }

  /** Inserting a new entry into a sequence without repetitions gives one without repetitions. */
  lemma {:induction false} InsertNoDuplicates(x: Entry, t: seq<Entry>)
    requires NoDuplicates(t) && x !in t
    ensures NoDuplicates(Insert(x, t))
    decreases |t|
  {
    if t != [] && t[0].1 > x.1 {
      var r' := Insert(x, t[1..]);
      InsertNoDuplicates(x, t[1..]);
      assert t == [t[0]] + t[1..];
      assert t[0] !in t[1..];
      assert t[0] !in multiset(r');
      assert Insert(x, t) == [t[0]] + r';
    }
  }

  /** A stable sort by decreasing frequency: a non-increasing permutation of its input. */
  function SortByFrequency(s: seq<Entry>): (r: seq<Entry>)
    ensures |r| == |s|
    ensures multiset(r) == multiset(s)
    ensures NonIncreasing(r)
    ensures NoDuplicates(s) ==> NoDuplicates(r)
  {
    if s == [] then []
    else
      assert s == [s[0]] + s[1..];
      var t := SortByFrequency(s[1..]);
      InsertSorted(s[0], t);
      assert NoDuplicates(s) ==> NoDuplicates(Insert(s[0], t)) by {
        if NoDuplicates(s) {
          assert s[0] !in s[1..];
          assert s[0] !in multiset(t);
          InsertNoDuplicates(s[0], t);
        }
      }
      Insert(s[0], t)
  }

  /** Every distinct non-missing value with its frequency, in order of first appearance. */
  function Counts(cells: seq<Cell>): (c: seq<Entry>)
    ensures |c| == |Distinct(cells)|
    ensures forall i :: 0 <= i < |c| ==> c[i] == (Distinct(cells)[i], Frequency(cells, Distinct(cells)[i]))
  {
    var d := Distinct(cells);
    seq(|d|, i requires 0 <= i < |d| => (d[i], Frequency(cells, d[i])))
  }

  /**
    `value_counts()`: one entry per distinct non-missing value, carrying its
    exact frequency, most frequent first.
   */
  function ValueCounts(cells: seq<Cell>): (vc: seq<Entry>)
    ensures |vc| == NUnique(cells)
    ensures forall k :: 0 <= k < |vc| ==> Some(vc[k].0) in cells && vc[k].1 == Frequency(cells, vc[k].0)
    ensures forall v :: Some(v) in cells ==> exists k :: 0 <= k < |vc| && vc[k].0 == v
    ensures forall a, b :: 0 <= a < b < |vc| ==> vc[a].0 != vc[b].0
    ensures NonIncreasing(vc)
  {
    var d := Distinct(cells);
    var c := Counts(cells);
    assert NoDuplicates(c) by {
      forall a, b | 0 <= a < b < |c| ensures c[a] != c[b] {
        assert c[a].0 == d[a] && c[b].0 == d[b];
      }
    }
    var vc := SortByFrequency(c);
    CountsEntries(cells, c, vc);
    vc
  }

  /** What the sorted counts hold, from what `Counts` holds and the sort being a permutation. */
  lemma CountsEntries(cells: seq<Cell>, c: seq<Entry>, vc: seq<Entry>)
    requires c == Counts(cells)
    requires multiset(vc) == multiset(c) && NoDuplicates(vc)
    ensures forall k :: 0 <= k < |vc| ==> Some(vc[k].0) in cells && vc[k].1 == Frequency(cells, vc[k].0)
    ensures forall v :: Some(v) in cells ==> exists k :: 0 <= k < |vc| && vc[k].0 == v
    ensures forall a, b :: 0 <= a < b < |vc| ==> vc[a].0 != vc[b].0
  {
    var d := Distinct(cells);
    forall k | 0 <= k < |vc|
      ensures Some(vc[k].0) in cells && vc[k].1 == Frequency(cells, vc[k].0)
    {
      assert vc[k] in multiset(c);
      var i :| 0 <= i < |c| && c[i] == vc[k];
      assert d[i] in d;
    }
    forall v | Some(v) in cells
      ensures exists k :: 0 <= k < |vc| && vc[k].0 == v
    {
      var i :| 0 <= i < |d| && d[i] == v;
      assert c[i] in multiset(vc);
      var k :| 0 <= k < |vc| && vc[k] == c[i];
      assert vc[k].0 == v;
    }
  }

  function Min(a: nat, b: nat): nat
  {
    if a <= b then a else b
  }

  /** The values of a list of entries, in order. */
  function Values(es: seq<Entry>): (vs: seq<Value>)
    ensures |vs| == |es|
    ensures forall k :: 0 <= k < |es| ==> vs[k] == es[k].0
  {
    seq(|es|, k requires 0 <= k < |es| => es[k].0)
  }

  /**
    `value_counts().head(5)`: at most five distinct non-missing values, each
    with its exact frequency, most frequent first; no value left out is more
    frequent than one kept, and when there are at most five distinct values
    all of them are kept.
   */
  function TopValues(cells: seq<Cell>): (top: seq<Entry>)
    ensures |top| == Min(TopN, NUnique(cells))
    ensures forall k :: 0 <= k < |top| ==>
      Some(top[k].0) in cells && top[k].1 == Frequency(cells, top[k].0) && top[k].1 > 0
    ensures forall a, b :: 0 <= a < b < |top| ==> top[a].0 != top[b].0
    ensures NonIncreasing(top)
    ensures forall v, k :: Some(v) in cells && v !in Values(top) && 0 <= k < |top| ==>
      Frequency(cells, v) <= top[k].1
    ensures NUnique(cells) <= TopN ==> forall v :: Some(v) in cells ==> v in Values(top)
  {
    var vc := ValueCounts(cells);
    var top := vc[..Min(TopN, |vc|)];
    TopEntries(cells, vc, top);
    TopDominates(cells, vc, top);
    TopComplete(cells, vc, top);
    top
  }

  /** A prefix of the sorted counts keeps their entries' meaning and order. */
  lemma TopEntries(cells: seq<Cell>, vc: seq<Entry>, top: seq<Entry>)
    requires vc == ValueCounts(cells)
    requires top == vc[..Min(TopN, |vc|)]
    ensures forall k :: 0 <= k < |top| ==>
      Some(top[k].0) in cells && top[k].1 == Frequency(cells, top[k].0) && top[k].1 > 0
    ensures forall a, b :: 0 <= a < b < |top| ==> top[a].0 != top[b].0
    ensures NonIncreasing(top)
  {
    assert forall k :: 0 <= k < |top| ==> top[k] == vc[k];
  }

  /** No value left out of a prefix of the sorted counts is more frequent than a kept one. */
  lemma TopDominates(cells: seq<Cell>, vc: seq<Entry>, top: seq<Entry>)
    requires vc == ValueCounts(cells)
    requires top == vc[..Min(TopN, |vc|)]
    ensures forall v, k :: Some(v) in cells && v !in Values(top) && 0 <= k < |top| ==>
      Frequency(cells, v) <= top[k].1
  {
    forall v, k | Some(v) in cells && v !in Values(top) && 0 <= k < |top|
      ensures Frequency(cells, v) <= top[k].1
    {
      var j :| 0 <= j < |vc| && vc[j].0 == v;
      OutsidePrefix(vc, top, j, k);
    }
  }

  /** An entry of a non-increasing list whose value is not in a prefix counts at most any entry of it. */
  lemma OutsidePrefix(vc: seq<Entry>, top: seq<Entry>, j: nat, k: nat)
    requires NonIncreasing(vc) && |top| <= |vc| && top == vc[..|top|]
    requires j < |vc| && vc[j].0 !in Values(top) && k < |top|
    ensures vc[j].1 <= top[k].1
  {
    assert forall m :: 0 <= m < |top| ==> Values(top)[m] == vc[m].0;
    assert k < j;
    assert top[k] == vc[k];
  }

  /** With at most five distinct values, the prefix is all of the counts. */
  lemma TopComplete(cells: seq<Cell>, vc: seq<Entry>, top: seq<Entry>)
    requires vc == ValueCounts(cells)
    requires top == vc[..Min(TopN, |vc|)]
    ensures NUnique(cells) <= TopN ==> forall v :: Some(v) in cells ==> v in Values(top)
  {
    if NUnique(cells) <= TopN {
      assert top == vc;
      forall v | Some(v) in cells
        ensures v in Values(top)
      {
        var j :| 0 <= j < |vc| && vc[j].0 == v;
        assert Values(top)[j] == v;
      }
    }
  }
}
