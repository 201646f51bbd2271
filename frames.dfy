/** In-memory tables as the cleaning scripts see them: ordered rows that keep
    the index label pandas gives them, cells that may be missing, boolean-mask
    filtering, counting of a per-row test, and pandas' element-wise `!=`. */
module Frames {

  datatype Option<T> = None | Some(value: T)

  /** One cell of a text column: pandas' NaN / NA is `None`. */
  type Cell = Option<string>

  /** A row together with the label it carries in the DataFrame index. */
  datatype Indexed<R> = Indexed(index: nat, row: R)

  /** A DataFrame: rows in order, each with its index label. */
  type Table<R> = seq<Indexed<R>>

  /** The table `pd.read_csv` builds: a RangeIndex 0, 1, 2, ... in file order. */
  function FromRows<R>(rows: seq<R>): (t: Table<R>)
    ensures |t| == |rows|
    ensures forall i :: 0 <= i < |t| ==> t[i].index == i && t[i].row == rows[i]
  {
    seq(|rows|, i requires 0 <= i < |rows| => Indexed(i, rows[i]))
  }

  /** Labels strictly increase down the table; true of every RangeIndex table. */
  ghost predicate Increasing<R>(t: Table<R>) {
    forall i, j :: 0 <= i < j < |t| ==> t[i].index < t[j].index
  }

  /** `df[mask]`: keep, in order and with their labels, the rows passing `keep`. */
  function Filter<R(==)>(t: Table<R>, keep: R -> bool): (r: Table<R>)
    ensures |r| <= |t|
    ensures forall x :: x in r ==> x in t && keep(x.row)
    ensures forall x :: x in t && keep(x.row) ==> x in r
  {
    if |t| == 0 then []
    else (if keep(t[0].row) then [t[0]] else []) + Filter(t[1..], keep)
  }

  /** A passing row is found at some position of the filtered table. */
  lemma FilterKeepsAt<R>(t: Table<R>, keep: R -> bool, j: nat) returns (k: nat)
    requires j < |t| && keep(t[j].row)
    ensures k < |Filter(t, keep)| && Filter(t, keep)[k] == t[j]
  {
    assert t[j] in t;
    var f := Filter(t, keep);
    k :| 0 <= k < |f| && f[k] == t[j];
  }

  /** The rows of a table, without their labels. */
  function RowsOf<R>(t: Table<R>): (rows: seq<R>)
    ensures |rows| == |t|
    ensures forall i :: 0 <= i < |t| ==> rows[i] == t[i].row
  {
    seq(|t|, i requires 0 <= i < |t| => t[i].row)
  }

  /** `len(df[mask])`: the number of rows passing the test. */
  lemma {:induction false} FilterLength<R>(t: Table<R>, keep: R -> bool)
    ensures |Filter(t, keep)| == CountWhere(RowsOf(t), keep)
  {
    if |t| > 0 {
      FilterLength(t[1..], keep);
      assert RowsOf(t)[1..] == RowsOf(t[1..]);
    }
  }

  /** Counting `p` over the rows passing `keep` is counting both over all. */
  lemma {:induction false} FilterCount<R>(t: Table<R>, keep: R -> bool, p: R -> bool, both: R -> bool)
    requires forall x :: both(x) == (keep(x) && p(x))
    ensures CountWhere(RowsOf(Filter(t, keep)), p) == CountWhere(RowsOf(t), both)
  {
    if |t| > 0 {
      FilterCount(t[1..], keep, p, both);
      var rows := RowsOf(Filter(t, keep));
      var rest := RowsOf(Filter(t[1..], keep));
      if keep(t[0].row) {
        assert Filter(t, keep) == [t[0]] + Filter(t[1..], keep);
        assert rows[0] == t[0].row && rows[1..] == rest;
      } else {
        assert Filter(t, keep) == Filter(t[1..], keep);
      }
      assert RowsOf(t)[1..] == RowsOf(t[1..]);
    }
  }

  /** A table read from plain rows gives those rows back. */
  lemma RowsOfFromRows<R>(rows: seq<R>)
    ensures RowsOf(FromRows(rows)) == rows
  {
  }

  /** Filtering never reorders: an increasing table stays increasing, so the
      survivors are the passing rows in their original order. */
  lemma {:induction false} FilterIncreasing<R>(t: Table<R>, keep: R -> bool)
    requires Increasing(t)
    ensures Increasing(Filter(t, keep))
  {
    if |t| > 0 {
      FilterIncreasing(t[1..], keep);
      var rest := Filter(t[1..], keep);
      if keep(t[0].row) {
        forall y | y in rest ensures t[0].index < y.index {
          LaterLabel(t, y);
        }
        ConsIncreasing(t[0], rest);
        assert Filter(t, keep) == [t[0]] + rest;
      } else {
        assert Filter(t, keep) == rest;
      }
    }
  }

  lemma LaterLabel<R>(t: Table<R>, y: Indexed<R>)
    requires Increasing(t) && |t| > 0 && y in t[1..]
    ensures t[0].index < y.index
  {
    var k :| 0 <= k < |t[1..]| && t[1..][k] == y;
    assert t[k + 1] == y;
  }

  lemma ConsIncreasing<R>(x: Indexed<R>, rest: Table<R>)
    requires Increasing(rest) && forall y :: y in rest ==> x.index < y.index
    ensures Increasing([x] + rest)
  {
    var r := [x] + rest;
    forall i, j | 0 <= i < j < |r| ensures r[i].index < r[j].index {
      assert r[j] == rest[j - 1];
      if i == 0 {
        assert rest[j - 1] in rest;
      } else {
        assert r[i] == rest[i - 1];
      }
    }
  }

  /** Filtering by two tests in turn is filtering once by both. */
  lemma {:induction false} FilterFilter<R>(t: Table<R>, p: R -> bool, q: R -> bool, both: R -> bool)
    requires forall x :: both(x) == (p(x) && q(x))
    ensures Filter(Filter(t, p), q) == Filter(t, both)
  {
    if |t| > 0 {
      FilterFilter(t[1..], p, q, both);
      var head := if p(t[0].row) then [t[0]] else [];
      assert Filter(t, p) == head + Filter(t[1..], p);
      FilterAppend(head, Filter(t[1..], p), q);
    }
  }

  lemma {:induction false} FilterAppend<R>(a: Table<R>, b: Table<R>, q: R -> bool)
    ensures Filter(a + b, q) == Filter(a, q) + Filter(b, q)
  {
    if |a| > 0 {
      assert (a + b)[1..] == a[1..] + b;
      FilterAppend(a[1..], b, q);
    } else {
      assert a + b == b;
    }
  }

  /** Two tests that agree on every row filter alike. */
  lemma {:induction false} FilterSame<R>(t: Table<R>, p: R -> bool, q: R -> bool)
    requires forall x :: p(x) == q(x)
    ensures Filter(t, p) == Filter(t, q)
  {
    if |t| > 0 {
      FilterSame(t[1..], p, q);
    }
  }

  /** A column assignment `df[c] = f(df[c])`: every row rewritten, labels kept. */
  function MapRows<R>(t: Table<R>, f: R -> R): (r: Table<R>)
    ensures |r| == |t|
    ensures forall i :: 0 <= i < |t| ==> r[i].index == t[i].index && r[i].row == f(t[i].row)
  {
    seq(|t|, i requires 0 <= i < |t| => Indexed(t[i].index, f(t[i].row)))
  }

  lemma MapRowsTail<R>(t: Table<R>, f: R -> R)
    requires |t| > 0
    ensures MapRows(t, f)[0] == Indexed(t[0].index, f(t[0].row))
    ensures MapRows(t, f)[1..] == MapRows(t[1..], f)
  {
  }

  lemma MapRowsAppend<R>(a: Table<R>, b: Table<R>, f: R -> R)
    ensures MapRows(a + b, f) == MapRows(a, f) + MapRows(b, f)
  {
  }

  /** Filtering commutes with a row rewrite when the test is read through it. */
  lemma {:induction false} FilterMapRows<R>(t: Table<R>, f: R -> R, p: R -> bool, q: R -> bool)
    requires forall r :: q(r) == p(f(r))
    ensures Filter(MapRows(t, f), p) == MapRows(Filter(t, q), f)
  {
    if |t| > 0 {
      var m := MapRows(t, f);
      MapRowsTail(t, f);
      FilterMapRows(t[1..], f, p, q);
      var head := if q(t[0].row) then [t[0]] else [];
      assert Filter(t, q) == head + Filter(t[1..], q);
      MapRowsAppend(head, Filter(t[1..], q), f);
      assert MapRows(head, f) == if p(m[0].row) then [m[0]] else [];
    }
  }

  /** `series.apply(test).sum()`: the number of elements passing `p`. */
  function CountWhere<T>(s: seq<T>, p: T -> bool): (n: nat)
    ensures n <= |s|
  {
    if |s| == 0 then 0 else (if p(s[0]) then 1 else 0) + CountWhere(s[1..], p)
  }

  /** The count is zero exactly when no element passes. */
  lemma {:induction false} CountWhereZero<T>(s: seq<T>, p: T -> bool)
    ensures CountWhere(s, p) == 0 <==> forall i :: 0 <= i < |s| ==> !p(s[i])
  {
    if |s| > 0 {
      CountWhereZero(s[1..], p);
      assert forall i :: 1 <= i < |s| ==> s[i] == s[1..][i - 1];
    }
  }

  /** The count equals the length exactly when every element passes. */
  lemma {:induction false} CountWhereAll<T>(s: seq<T>, p: T -> bool)
    ensures CountWhere(s, p) == |s| <==> forall i :: 0 <= i < |s| ==> p(s[i])
  {
    if |s| > 0 {
      CountWhereAll(s[1..], p);
      assert forall i :: 1 <= i < |s| ==> s[i] == s[1..][i - 1];
    }
  }

  /** A weaker test never counts more. */
  lemma {:induction false} CountWhereMono<T>(s: seq<T>, p: T -> bool, q: T -> bool)
    requires forall x :: p(x) ==> q(x)
    ensures CountWhere(s, p) <= CountWhere(s, q)
  {
    if |s| > 0 {
      CountWhereMono(s[1..], p, q);
    }
  }

  /** Two tests that agree on every element count alike. */
  lemma {:induction false} CountWhereSame<T>(s: seq<T>, p: T -> bool, q: T -> bool)
    requires forall x :: p(x) == q(x)
    ensures CountWhere(s, p) == CountWhere(s, q)
  {
    if |s| > 0 {
      CountWhereSame(s[1..], p, q);
    }
  }

  /** Counts of two tests that never hold together add up to the count of either. */
  lemma {:induction false} CountWhereDisjoint<T>(s: seq<T>, p: T -> bool, q: T -> bool, either: T -> bool)
    requires forall x :: !(p(x) && q(x)) && either(x) == (p(x) || q(x))
    ensures CountWhere(s, p) + CountWhere(s, q) == CountWhere(s, either)
  {
    if |s| > 0 {
      CountWhereDisjoint(s[1..], p, q, either);
    }
  }

  /** Two sequences tested element by element: the same answers give the same count. */
  lemma {:induction false} CountWhereSameAt<T>(a: seq<T>, b: seq<T>, p: T -> bool)
    requires |a| == |b| && forall i :: 0 <= i < |a| ==> p(a[i]) == p(b[i])
    ensures CountWhere(a, p) == CountWhere(b, p)
  {
    if |a| > 0 {
      CountWhereSameAt(a[1..], b[1..], p);
    }
  }

  /** Two sequences tested element by element with two tests that give the
      same answers: the same count. */
  lemma {:induction false} CountWhereMatch<T, U>(a: seq<T>, b: seq<U>, p: T -> bool, q: U -> bool)
    requires |a| == |b| && forall i :: 0 <= i < |a| ==> p(a[i]) == q(b[i])
    ensures CountWhere(a, p) == CountWhere(b, q)
  {
    if |a| > 0 {
      CountWhereMatch(a[1..], b[1..], p, q);
    }
  }

  /** Element by element, a pass of `p` on `a` implies a pass of `q` on `b`:
      so `p` counts no more on `a` than `q` does on `b`. */
  lemma {:induction false} CountWherePointwise<T>(a: seq<T>, b: seq<T>, p: T -> bool, q: T -> bool)
    requires |a| == |b| && forall i :: 0 <= i < |a| ==> p(a[i]) ==> q(b[i])
    ensures CountWhere(a, p) <= CountWhere(b, q)
  {
    if |a| > 0 {
      CountWherePointwise(a[1..], b[1..], p, q);
    }
  }

  /** `df[c]`: the values of one column, in row order. */
  function Column<R, C>(t: Table<R>, col: R -> C): (s: seq<C>)
    ensures |s| == |t|
    ensures forall i :: 0 <= i < |t| ==> s[i] == col(t[i].row)
  {
    seq(|t|, i requires 0 <= i < |t| => col(t[i].row))
  }

  /** Counting a column over the rows a filter keeps never exceeds counting it
      over all rows. */
  lemma {:induction false} CountWhereFilter<R, C>(t: Table<R>, keep: R -> bool, col: R -> C, p: C -> bool)
    ensures CountWhere(Column(Filter(t, keep), col), p) <= CountWhere(Column(t, col), p)
  {
    if |t| > 0 {
      CountWhereFilter(t[1..], keep, col, p);
      var rest := Filter(t[1..], keep);
      ColumnTail(t, col);
      if keep(t[0].row) {
        assert Filter(t, keep) == [t[0]] + rest;
        ColumnTail([t[0]] + rest, col);
        assert ([t[0]] + rest)[1..] == rest;
      } else {
        assert Filter(t, keep) == rest;
      }
    }
  }

  lemma ColumnAppend<R, C>(a: Table<R>, b: Table<R>, col: R -> C)
    ensures Column(a + b, col) == Column(a, col) + Column(b, col)
  {
  }

  lemma ColumnTail<R, C>(t: Table<R>, col: R -> C)
    requires |t| > 0
    ensures Column(t, col)[0] == col(t[0].row) && Column(t, col)[1..] == Column(t[1..], col)
  {
  }

  lemma {:induction false} CountWhereAppend<T>(a: seq<T>, b: seq<T>, p: T -> bool)
    ensures CountWhere(a + b, p) == CountWhere(a, p) + CountWhere(b, p)
  {
    if |a| > 0 {
      assert (a + b)[1..] == a[1..] + b;
      CountWhereAppend(a[1..], b, p);
    } else {
      assert a + b == b;
    }
  }

  /** pandas' element-wise `!=` between two Series: a null (NaN or NA) on
      either side compares as different, so missing against missing is a
      difference; otherwise the values are compared. */
  predicate PyNe<T(==)>(a: Option<T>, b: Option<T>) {
    a.None? || b.None? || a.value != b.value
  }

  /** The first row carrying `key`, as `df.loc[key]` finds it. */
  function RowWithLabel<R>(t: Table<R>, key: nat): (r: Option<R>)
    ensures r.Some? <==> exists i :: 0 <= i < |t| && t[i].index == key
  {
    if |t| == 0 then None
    else if t[0].index == key then Some(t[0].row)
    else
      var r := RowWithLabel(t[1..], key);
      assert forall i :: 1 <= i < |t| ==> t[i] == t[1..][i - 1];
      assert (exists i :: 0 <= i < |t| && t[i].index == key) ==
             (exists i :: 0 <= i < |t[1..]| && t[1..][i].index == key);
      r
  }

  /** On a RangeIndex table, key `i` is row `i`. */
  lemma RowWithLabelFromRows<R>(rows: seq<R>, i: nat)
    ensures RowWithLabel(FromRows(rows), i) == if i < |rows| then Some(rows[i]) else None
  {
    var t := FromRows(rows);
    if i < |rows| {
      FirstLabelAtShift(t, i, 0);
    }
  }

  lemma {:induction false} FirstLabelAtShift<R>(t: Table<R>, i: nat, base: nat)
    requires i < |t| && forall k :: 0 <= k < |t| ==> t[k].index == k + base
    ensures RowWithLabel(t, i + base) == Some(t[i].row)
  {
    if i > 0 {
      FirstLabelAtShift(t[1..], i - 1, base + 1);
    }
  }

  /** Every label of `cleaned` is a label of `original`: `original.loc[cleaned.index]`
      raises no KeyError. */
  ghost predicate LabelsIn<R>(original: Table<R>, cleaned: Table<R>) {
    forall x :: x in cleaned ==> RowWithLabel(original, x.index).Some?
  }

  /** One aligned row differs in the column `col`. */
  predicate Differs<R, T(==)>(original: Table<R>, col: R -> Option<T>, x: Indexed<R>) {
    match RowWithLabel(original, x.index)
    case None => false
    case Some(o) => PyNe(col(o), col(x.row))
  }

  /** `Differs` with the original table and the column fixed. */
  function DiffTest<R(!new), T(==)>(original: Table<R>, col: R -> Option<T>): (test: Indexed<R> -> bool)
    ensures forall x :: test(x) == Differs(original, col, x)
  {
    x => Differs(original, col, x)
  }

  /** `(original.loc[cleaned.index][c] != cleaned[c]).sum()`; `None` stands for
      the KeyError raised when a label of `cleaned` is not in `original`. The
      count is bounded by the aligned rows and is zero exactly when no aligned
      row differs. */
  function DiffCount<R(!new), T(==)>(original: Table<R>, cleaned: Table<R>, col: R -> Option<T>): (r: Option<nat>)
    ensures r.Some? <==> forall i :: 0 <= i < |cleaned| ==> RowWithLabel(original, cleaned[i].index).Some?
    ensures r.Some? ==> r.value <= |cleaned|
    ensures r.Some? ==> (r.value == 0 <==> forall i :: 0 <= i < |cleaned| ==> !Differs(original, col, cleaned[i]))
  {
    if forall i :: 0 <= i < |cleaned| ==> RowWithLabel(original, cleaned[i].index).Some?
    then
      CountWhereZero(cleaned, DiffTest(original, col));
      Some(CountWhere(cleaned, DiffTest(original, col)))
    else None
  }

  /** When every aligned row differs exactly where `p` holds of the matching
      element of `s`, the diff count is the count of `p` over `s`. */
  lemma DiffCountIs<R(!new), T, U>(original: Table<R>, cleaned: Table<R>, col: R -> Option<T>, s: seq<U>, p: U -> bool)
    requires forall i :: 0 <= i < |cleaned| ==> RowWithLabel(original, cleaned[i].index).Some?
    requires |s| == |cleaned| && forall i :: 0 <= i < |cleaned| ==> (Differs(original, col, cleaned[i]) <==> p(s[i]))
    ensures DiffCount(original, cleaned, col) == Some(CountWhere(s, p))
  {
    CountWhereMatch(cleaned, s, DiffTest(original, col), p);
  }
}
