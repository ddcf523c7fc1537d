/**
 * The small part of a pandas DataFrame the scripts rely on: a header of
 * distinct column names, a number of rows, one column of cells per name,
 * lookups that raise KeyError, `drop`, `iloc[:n]`, column assignment, and
 * the NaN-skipping mean.
 */
module Frames {
  import opened Wrappers
  import opened Strings

  /** A cell as `pd.read_csv` produces it: a number, a string, or NaN (an empty field). */
  datatype Cell = Num(x: real) | Text(s: string) | NaN

  datatype Frame = Frame(header: seq<string>, rows: nat, data: map<string, seq<Cell>>)

  /** Distinct column names, one column per name, every column `rows` long. */
  predicate WellFormed(f: Frame) {
    && (forall i, j :: 0 <= i < j < |f.header| ==> f.header[i] != f.header[j])
    && (forall c :: c in f.data ==> c in f.header)
    && (forall c :: c in f.header ==> c in f.data)
    && (forall c :: c in f.data ==> |f.data[c]| == f.rows)
  }

  /** Every table the scripts read or build is well formed. */
  type Table = f: Frame | WellFormed(f) witness Frame([], 0, map[])

  /** The exceptions that abort a script, named after what raises them. */
  datatype Error =
    | MissingColumns(names: seq<string>)  // KeyError: `df[name]` or `df[[names]]` on absent columns
    | UnknownEvent(event: Cell)           // KeyError: an event label outside the colour table
    | NonNumeric(column: string)          // TypeError: averaging a column that holds text
    | NoSubPath                           // TypeError: `os.path.join()` called with no argument
    | NothingToConcatenate                // ValueError: `pd.concat([])`
    | SingleAxes                          // TypeError: indexing the lone Axes of `plt.subplots(1, 1)`

  /** The names among `names` that are not columns of `t`, in order. */
  function Absent(t: Table, names: seq<string>): (r: seq<string>)
    ensures forall n :: n in r <==> n in names && n !in t.header
    ensures r == [] <==> forall n :: n in names ==> n in t.header
    decreases |names|
  {
    if names == [] then []
    else
      var init := names[..|names| - 1];
      assert names == init + [Last(names)];
      Absent(t, init) + (if Last(names) in t.header then [] else [Last(names)])
  }

  /** `df[name]`: the column, or KeyError. */
  function Column(t: Table, name: string): (r: Result<seq<Cell>, Error>)
    ensures r.Success? <==> name in t.header
    ensures r.Success? ==> |r.value| == t.rows
    ensures r.Failure? ==> r.error == MissingColumns([name])
  {
    if name in t.data then Success(t.data[name]) else Failure(MissingColumns([name]))
  }

  /** The sequence without its elements equal to `x`. */
  function Without(s: seq<string>, x: string): (r: seq<string>)
    ensures forall y :: y in r <==> y in s && y != x
    ensures |r| <= |s|
    ensures (forall i, j :: 0 <= i < j < |s| ==> s[i] != s[j]) ==>
              (forall i, j :: 0 <= i < j < |r| ==> r[i] != r[j])
    ensures x !in s ==> r == s
    ensures (forall i, j :: 0 <= i < j < |s| ==> s[i] != s[j]) && x in s ==> |r| == |s| - 1
    decreases |s|
  {
    if s == [] then []
    else
      var rest := Without(s[1..], x);
      assert s == [s[0]] + s[1..];
      if s[0] == x then
        rest
      else
        assert (forall i, j :: 0 <= i < j < |s| ==> s[i] != s[j]) ==> s[0] !in s[1..];
        [s[0]] + rest
  }

  /** `df.drop(columns=name)`: the table without that column, or KeyError. */
  function Drop(t: Table, name: string): (r: Result<Table, Error>)
    ensures r.Success? <==> name in t.header
    ensures r.Failure? ==> r.error == MissingColumns([name])
    ensures r.Success? ==> |r.value.header| == |t.header| - 1 && r.value.rows == t.rows
    ensures r.Success? ==> forall c :: c in r.value.header <==> c in t.header && c != name
    ensures r.Success? ==> forall c :: c in r.value.data ==> r.value.data[c] == t.data[c]
  {
    if name !in t.header then Failure(MissingColumns([name]))
    else Success(Frame(Without(t.header, name), t.rows, t.data - {name}))
  }

  /** `df.iloc[:n]`: the first `min(n, rows)` rows of every column. */
  function Head(t: Table, n: nat): (r: Table)
    ensures r.rows == if t.rows <= n then t.rows else n
    ensures r.header == t.header
    ensures forall c :: c in r.data ==> r.data[c] == t.data[c][..r.rows]
  {
    var k := if t.rows <= n then t.rows else n;
    Frame(t.header, k, map c | c in t.data :: t.data[c][..k])
  }

  /** `df[name] = col`: replaces the column, or appends it to the header. */
  function WithColumn(t: Table, name: string, col: seq<Cell>): (r: Table)
    requires |col| == t.rows
    ensures name in r.data && r.data[name] == col && r.rows == t.rows
    ensures forall c :: c in t.data && c != name ==> c in r.data && r.data[c] == t.data[c]
    ensures forall c :: c in r.header <==> c in t.header || c == name
  {
    var header := if name in t.header then t.header else t.header + [name];
    Frame(header, t.rows, t.data[name := col])
  }

  /** True when no cell holds text: pandas can average the column. */
  predicate Numeric(col: seq<Cell>) {
    forall i :: 0 <= i < |col| ==> !col[i].Text?
  }

  /** The numbers of a sequence of cells, in order; NaN and text are skipped. */
  function Present(xs: seq<Cell>): (r: seq<real>)
    ensures forall v :: v in r <==> Num(v) in xs
    ensures |r| <= |xs|
    decreases |xs|
  {
    if xs == [] then []
    else
      var init := xs[..|xs| - 1];
      assert xs == init + [Last(xs)];
      Present(init) + (if Last(xs).Num? then [Last(xs).x] else [])
  }

  function Sum(xs: seq<real>): real
    decreases |xs|
  {
    if xs == [] then 0.0 else xs[0] + Sum(xs[1..])
  }

  /**
   * `Series.mean()` with pandas' default `skipna=True`: the arithmetic mean of
   * the numbers present, or NaN when there is none.
   */
  function Mean(xs: seq<Cell>): (r: Cell)
    ensures !r.Text?
    ensures r.NaN? <==> forall i :: 0 <= i < |xs| ==> !xs[i].Num?
  {
    var p := Present(xs);
    if |p| == 0 then
      NaN
    else
      assert p[0] in p;
      Num(Sum(p) / |p| as real)
  }

  /** The least of a non-empty sequence of numbers. */
  function Min(xs: seq<real>): (r: real)
    requires |xs| > 0
    ensures r in xs && forall i :: 0 <= i < |xs| ==> r <= xs[i]
    decreases |xs|
  {
    if |xs| == 1 then xs[0]
    else
      var m := Min(xs[1..]);
      assert forall i :: 1 <= i < |xs| ==> xs[i] == xs[1..][i - 1];
      if xs[0] <= m then xs[0] else m
  }

  /** The greatest of a non-empty sequence of numbers. */
  function Max(xs: seq<real>): (r: real)
    requires |xs| > 0
    ensures r in xs && forall i :: 0 <= i < |xs| ==> xs[i] <= r
    decreases |xs|
  {
    if |xs| == 1 then xs[0]
    else
      var m := Max(xs[1..]);
      assert forall i :: 1 <= i < |xs| ==> xs[i] == xs[1..][i - 1];
      if xs[0] >= m then xs[0] else m
  }

  /** A sum of `n` numbers between `lo` and `hi` lies between `n * lo` and `n * hi`. */
  lemma {:induction false} SumBetween(xs: seq<real>, lo: real, hi: real)
    requires forall i :: 0 <= i < |xs| ==> lo <= xs[i] <= hi
    ensures |xs| as real * lo <= Sum(xs) <= |xs| as real * hi
    decreases |xs|
  {
    if xs != [] {
      SumBetween(xs[1..], lo, hi);
      var n := (|xs| - 1) as real;
      assert |xs| as real * lo == n * lo + lo;
      assert |xs| as real * hi == n * hi + hi;
    }
  }

  /** A mean lies between the least and the greatest of the numbers it averages. */
  lemma MeanBetweenExtremes(xs: seq<Cell>)
    requires Mean(xs).Num?
    ensures |Present(xs)| > 0
    ensures Min(Present(xs)) <= Mean(xs).x <= Max(Present(xs))
  {
    var p := Present(xs);
    assert Mean(xs) == Num(Sum(p) / |p| as real);
    AverageBetween(p, Min(p), Max(p));
  }

  /** An average of numbers between `lo` and `hi` lies between them. */
  lemma AverageBetween(p: seq<real>, lo: real, hi: real)
    requires |p| > 0
    requires forall i :: 0 <= i < |p| ==> lo <= p[i] <= hi
    ensures lo <= Sum(p) / |p| as real <= hi
  {
    SumBetween(p, lo, hi);
    DivideBetween(Sum(p), |p| as real, lo, hi);
  }

  lemma DivideBetween(s: real, n: real, lo: real, hi: real)
    requires n > 0.0 && n * lo <= s <= n * hi
    ensures lo <= s / n <= hi
  {
    assert s / n - lo == (s - n * lo) / n by {
      assert (s - n * lo) / n == s / n - (n * lo) / n;
      DivideProduct(n, lo);
    }
    assert hi - s / n == (n * hi - s) / n by {
      assert (n * hi - s) / n == (n * hi) / n - s / n;
      DivideProduct(n, hi);
    }
  }

  /** Averaging copies of one number gives that number back. */
  lemma {:induction false} SumConstant(xs: seq<real>, v: real)
    requires forall i :: 0 <= i < |xs| ==> xs[i] == v
    ensures Sum(xs) == |xs| as real * v
    decreases |xs|
  {
    if xs != [] {
      SumConstant(xs[1..], v);
      assert |xs| as real * v == (|xs| - 1) as real * v + v;
    }
  }

  lemma MeanOfEqualValues(xs: seq<Cell>, v: real)
    requires forall i :: 0 <= i < |xs| ==> xs[i] == Num(v) || xs[i] == NaN
    requires Num(v) in xs
    ensures Mean(xs) == Num(v)
  {
    var p := Present(xs);
    assert forall i :: 0 <= i < |p| ==> p[i] == v by {
      forall i | 0 <= i < |p| ensures p[i] == v {
        assert p[i] in p;
      }
    }
    assert v in p;
    AverageConstant(p, v);
  }

  lemma AverageConstant(p: seq<real>, v: real)
    requires |p| > 0 && forall i :: 0 <= i < |p| ==> p[i] == v
    ensures Sum(p) / |p| as real == v
  {
    SumConstant(p, v);
    DivideProduct(|p| as real, v);
  }

  lemma DivideProduct(n: real, v: real)
    requires n > 0.0
    ensures (n * v) / n == v
  {
  }
}
