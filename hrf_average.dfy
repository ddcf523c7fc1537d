/**
 * The averaging HRF plotter: the same file selection as the per-file
 * plotter; each table loses its `station` column, is kept only when exactly
 * 45 columns remain, and is cut to its first 60 rows; the kept tables are
 * averaged row index by row index, and the average is drawn as one panel
 * saved as `average_plot.png`.
 */
module HrfAverage {
  import opened Wrappers
  import opened Strings
  import opened Paths
  import opened Frames
  import opened EventMarkers
  import opened Selection

  const STATION_COLUMN: string := "station"
  const COLUMN_COUNT: nat := 45
  const SAMPLES: nat := 60
  const PLOT_NAME: string := "average_plot.png"

  // ---------------------------------------------------------------------------
  // Admission

  /** One read table: KeyError without `station`; otherwise kept, cut to 60 rows, when 45 columns remain. */
  function Admit(t: Table): (r: Result<Option<Table>, Error>)
    ensures r.Failure? <==> STATION_COLUMN !in t.header
    ensures r.Failure? ==> r.error == MissingColumns([STATION_COLUMN])
    ensures r.Success? && r.value.Some? ==>
      && |r.value.value.header| == COLUMN_COUNT
      && STATION_COLUMN !in r.value.value.header
      && r.value.value.rows == (if t.rows <= SAMPLES then t.rows else SAMPLES)
      && (forall c :: c in r.value.value.data ==> c in t.data && r.value.value.data[c] == t.data[c][..r.value.value.rows])
    ensures r.Success? && r.value.None? ==> |t.header| != COLUMN_COUNT + 1
  {
    match Drop(t, STATION_COLUMN)
    case Failure(e) => Failure(e)
    case Success(d) =>
      if |d.header| == COLUMN_COUNT then Success(Some(Head(d, SAMPLES))) else Success(None)
  }

  /** The tables kept from the selected files, in order, or the first exception. */
  function Admitted(cands: seq<Candidate>, read: string -> Table): Result<seq<Table>, Error>
    decreases |cands|
  {
    if cands == [] then Success([])
    else
      match Admitted(cands[..|cands| - 1], read)
      case Failure(e) => Failure(e)
      case Success(ts) =>
        match Admit(read(Last(cands).path))
        case Failure(e) => Failure(e)
        case Success(None) => Success(ts)
        case Success(Some(t)) => Success(ts + [t])
  }

  /**
   * The admission succeeds exactly when every selected table has a `station`
   * column; then the kept tables are exactly the cut-down 45-column ones, so
   * each has at most 60 rows.
   */
  lemma {:induction false} AdmittedExactly(cands: seq<Candidate>, read: string -> Table)
    ensures Admitted(cands, read).Success? <==> forall c :: c in cands ==> STATION_COLUMN in read(c.path).header
    ensures Admitted(cands, read).Success? ==>
      && |Admitted(cands, read).value| <= |cands|
      && (forall t :: t in Admitted(cands, read).value <==>
            exists c :: c in cands && Admit(read(c.path)) == Success(Some(t)))
      && (forall t :: t in Admitted(cands, read).value ==> |t.header| == COLUMN_COUNT && t.rows <= SAMPLES)
    decreases |cands|
  {
    if cands != [] {
      var init := cands[..|cands| - 1];
      var last := Last(cands);
      AdmittedExactly(init, read);
      assert cands == init + [last];
      assert forall c :: c in cands <==> c in init || c == last;
      var prev := Admitted(init, read);
      var now := Admit(read(last.path));
      if prev.Success? && now.Success? {
        var kept := if now.value.Some? then prev.value + [now.value.value] else prev.value;
        assert Admitted(cands, read) == Success(kept);
        assert forall t :: t in kept <==> t in prev.value || now == Success(Some(t));
      }
    }
  }

  /** The loop of `parse_files` that reads, drops `station`, and keeps the 45-column tables. */
  method CollectTables(cands: seq<Candidate>, read: string -> Table) returns (r: Result<seq<Table>, Error>)
    ensures r == Admitted(cands, read)
  {
    var allData: seq<Table> := [];
    var i := 0;
    while i < |cands|
      invariant 0 <= i <= |cands|
      invariant Admitted(cands[..i], read) == Success(allData)
    {
      assert cands[..i + 1][..i] == cands[..i];
      assert Last(cands[..i + 1]) == cands[i];
      var df := read(cands[i].path);
      var dropped := Drop(df, STATION_COLUMN);
      assert Admit(df) == if dropped.Failure? then Failure(dropped.error)
        else if |dropped.value.header| == COLUMN_COUNT then Success(Some(Head(dropped.value, SAMPLES)))
        else Success(None);
      if dropped.Failure? {
        r := Failure(dropped.error);
        AdmittedStopsAtFailure(cands, read, i + 1);
        return;
      }
      if |dropped.value.header| == COLUMN_COUNT {
        allData := allData + [Head(dropped.value, SAMPLES)];
      }
      i := i + 1;
    }
    assert cands[..i] == cands;
    r := Success(allData);
  }

  lemma {:induction false} AdmittedStopsAtFailure(cands: seq<Candidate>, read: string -> Table, k: nat)
    requires k <= |cands| && Admitted(cands[..k], read).Failure?
    ensures Admitted(cands, read) == Admitted(cands[..k], read)
    decreases |cands| - k
  {
    if k < |cands| {
      var init := cands[..|cands| - 1];
      assert init[..k] == cands[..k];
      AdmittedStopsAtFailure(init, read, k);
    } else {
      assert cands[..k] == cands;
    }
  }

  // ---------------------------------------------------------------------------
  // The index-wise mean: `pd.concat(all_data).groupby(level=0).mean()`

  /** The length of the longest table, 0 for none. */
  function MaxRows(tables: seq<Table>): (r: nat)
    ensures forall j :: 0 <= j < |tables| ==> tables[j].rows <= r
    ensures |tables| > 0 ==> exists j :: 0 <= j < |tables| && tables[j].rows == r
    decreases |tables|
  {
    if tables == [] then 0
    else
      var m := MaxRows(tables[..|tables| - 1]);
      assert forall j :: 0 <= j < |tables| - 1 ==> tables[..|tables| - 1][j] == tables[j];
      if Last(tables).rows <= m then m else Last(tables).rows
  }

  /** The row-`i` cells of column `c` in the tables that have both, in table order. */
  function Contributions(tables: seq<Table>, c: string, i: nat): (r: seq<Cell>)
    ensures |r| <= |tables|
    ensures forall x :: x in r <==>
      exists j :: 0 <= j < |tables| && c in tables[j].data && i < tables[j].rows && tables[j].data[c][i] == x
    decreases |tables|
  {
    if tables == [] then []
    else
      var init := tables[..|tables| - 1];
      var t := Last(tables);
      assert forall j :: 0 <= j < |init| ==> init[j] == tables[j];
      Contributions(init, c, i) + (if c in t.data && i < t.rows then [t.data[c][i]] else [])
  }

  /**
   * Every table holding the cell contributes it once: the contributions
   * number those tables, and each value occurs as often as the tables
   * holding that value there.
   */
  lemma ContributionsCount(tables: seq<Table>, c: string, i: nat, x: Cell)
    ensures |Contributions(tables, c, i)| == |set j | 0 <= j < |tables| && c in tables[j].data && i < tables[j].rows|
    ensures multiset(Contributions(tables, c, i))[x] ==
      |set j | 0 <= j < |tables| && c in tables[j].data && i < tables[j].rows && tables[j].data[c][i] == x|
  {
    ContributionsLength(tables, c, i);
    ContributionsOccurrences(tables, c, i, x);
    HoldingSet(tables, c, i);
    HoldingValueSet(tables, c, i, x);
  }

  lemma HoldingSet(tables: seq<Table>, c: string, i: nat)
    ensures Below(|tables|, Holding(tables, c, i))
         == set j | 0 <= j < |tables| && c in tables[j].data && i < tables[j].rows
  {
  }

  lemma HoldingValueSet(tables: seq<Table>, c: string, i: nat, x: Cell)
    ensures Below(|tables|, HoldingValue(tables, c, i, x))
         == set j | 0 <= j < |tables| && c in tables[j].data && i < tables[j].rows && tables[j].data[c][i] == x
  {
  }

  /** The table has row `i` of column `c`. */
  predicate HasCell(t: Table, c: string, i: nat) {
    c in t.data && i < t.rows
  }

  /** The table holds `x` at row `i` of column `c`. */
  predicate HasValue(t: Table, c: string, i: nat, x: Cell) {
    HasCell(t, c, i) && t.data[c][i] == x
  }

  /** The tables holding row `i` of column `c`. */
  ghost function Holding(tables: seq<Table>, c: string, i: nat): nat -> bool {
    (j: nat) => j < |tables| && HasCell(tables[j], c, i)
  }

  /** The tables holding `x` at row `i` of column `c`. */
  ghost function HoldingValue(tables: seq<Table>, c: string, i: nat, x: Cell): nat -> bool {
    (j: nat) => j < |tables| && HasValue(tables[j], c, i, x)
  }

  /** The length half of `ContributionsCount`. */
  lemma {:induction false} ContributionsLength(tables: seq<Table>, c: string, i: nat)
    ensures |Contributions(tables, c, i)| == |Below(|tables|, Holding(tables, c, i))|
    decreases |tables|
  {
    if tables == [] {
      assert Below(0, Holding(tables, c, i)) == {};
    } else {
      var init := tables[..|tables| - 1];
      ContributionsLength(init, c, i);
      HoldingStep(tables, c, i);
    }
  }

  /** The occurrence half of `ContributionsCount`. */
  lemma {:induction false} ContributionsOccurrences(tables: seq<Table>, c: string, i: nat, x: Cell)
    ensures multiset(Contributions(tables, c, i))[x] == |Below(|tables|, HoldingValue(tables, c, i, x))|
    decreases |tables|
  {
    if tables == [] {
      assert Below(0, HoldingValue(tables, c, i, x)) == {};
    } else {
      var init := tables[..|tables| - 1];
      ContributionsOccurrences(init, c, i, x);
      OccurrencesStep(tables, c, i, x);
      HoldingValueStep(tables, c, i, x);
    }
  }

  /** The last table counts once more exactly when it holds the cell. */
  lemma HoldingStep(tables: seq<Table>, c: string, i: nat)
    requires |tables| > 0
    ensures var init := tables[..|tables| - 1];
      |Below(|tables|, Holding(tables, c, i))|
        == |Below(|init|, Holding(init, c, i))| + (if HasCell(Last(tables), c, i) then 1 else 0)
  {
    var init := tables[..|tables| - 1];
    BelowAgree(|init|, Holding(init, c, i), Holding(tables, c, i));
    BelowStep(|tables|, Holding(tables, c, i));
  }

  /** The last table counts once more exactly when it holds `x` there. */
  lemma HoldingValueStep(tables: seq<Table>, c: string, i: nat, x: Cell)
    requires |tables| > 0
    ensures var init := tables[..|tables| - 1];
      |Below(|tables|, HoldingValue(tables, c, i, x))|
        == |Below(|init|, HoldingValue(init, c, i, x))| + (if HasValue(Last(tables), c, i, x) then 1 else 0)
  {
    var init := tables[..|tables| - 1];
    BelowAgree(|init|, HoldingValue(init, c, i, x), HoldingValue(tables, c, i, x));
    BelowStep(|tables|, HoldingValue(tables, c, i, x));
  }

  /** The last table adds one occurrence of `x` exactly when it holds `x` there. */
  lemma OccurrencesStep(tables: seq<Table>, c: string, i: nat, x: Cell)
    requires |tables| > 0
    ensures var init := tables[..|tables| - 1];
      multiset(Contributions(tables, c, i))[x]
        == multiset(Contributions(init, c, i))[x] + (if HasValue(Last(tables), c, i, x) then 1 else 0)
  {
    var init := tables[..|tables| - 1];
    var t := Last(tables);
    var tail := if HasCell(t, c, i) then [t.data[c][i]] else [];
    CountAppend(Contributions(tables, c, i), Contributions(init, c, i), tail, x);
  }

  /** `acc` followed by the names of `cols` not yet in it, in order. */
  function AddNew(acc: seq<string>, cols: seq<string>): (r: seq<string>)
    ensures forall c :: c in r <==> c in acc || c in cols
    ensures (forall i, j :: 0 <= i < j < |acc| ==> acc[i] != acc[j]) ==> forall i, j :: 0 <= i < j < |r| ==> r[i] != r[j]
    decreases |cols|
  {
    if cols == [] then acc
    else if cols[0] in acc then
      assert forall c :: c in cols ==> c == cols[0] || c in cols[1..];
      AddNew(acc, cols[1..])
    else
      assert forall c :: c in cols ==> c == cols[0] || c in cols[1..];
      AddNew(acc + [cols[0]], cols[1..])
  }

  /** Distinct new names are all appended. */
  lemma {:induction false} AddNewDisjoint(acc: seq<string>, cols: seq<string>)
    requires forall c :: c in cols ==> c !in acc
    requires forall i, j :: 0 <= i < j < |cols| ==> cols[i] != cols[j]
    ensures AddNew(acc, cols) == acc + cols
    decreases |cols|
  {
    if cols != [] {
      assert cols[0] !in cols[1..];
      assert forall i, j :: 0 <= i < j < |cols| - 1 ==> cols[1..][i] != cols[1..][j] by {
        forall i, j | 0 <= i < j < |cols| - 1 ensures cols[1..][i] != cols[1..][j] {
          assert cols[1..][i] == cols[i + 1] && cols[1..][j] == cols[j + 1];
        }
      }
      AddNewDisjoint(acc + [cols[0]], cols[1..]);
      assert acc + [cols[0]] + cols[1..] == acc + cols;
    }
  }

  /** The union of the headers, in order of first appearance. */
  function UnionHeader(tables: seq<Table>): (r: seq<string>)
    ensures forall i, j :: 0 <= i < j < |r| ==> r[i] != r[j]
    ensures forall c :: c in r <==> exists j :: 0 <= j < |tables| && c in tables[j].header
    decreases |tables|
  {
    if tables == [] then []
    else
      var init := tables[..|tables| - 1];
      HeadersOfLast(tables);
      AddNew(UnionHeader(init), Last(tables).header)
  }

  /** A column is in some header exactly when it is in an earlier one or in the last. */
  lemma HeadersOfLast(tables: seq<Table>)
    requires |tables| > 0
    ensures var init := tables[..|tables| - 1];
      forall c :: (exists j :: 0 <= j < |tables| && c in tables[j].header) <==>
        (exists j :: 0 <= j < |init| && c in init[j].header) || c in Last(tables).header
  {
    var init := tables[..|tables| - 1];
    forall c | exists j :: 0 <= j < |tables| && c in tables[j].header
      ensures (exists j :: 0 <= j < |init| && c in init[j].header) || c in Last(tables).header
    {
      var j :| 0 <= j < |tables| && c in tables[j].header;
      if j < |init| {
        assert init[j] == tables[j];
      }
    }
    forall c, j | 0 <= j < |init| && c in init[j].header
      ensures exists k :: 0 <= k < |tables| && c in tables[k].header
    {
      assert tables[j] == init[j];
    }
  }

  /** A column the average speaks about: no kept table holds text in it. */
  predicate NumericIn(tables: seq<Table>, c: string) {
    forall j :: 0 <= j < |tables| && c in tables[j].data ==> Numeric(tables[j].data[c])
  }

  /** The numeric columns among `cols`, in order. */
  function NumericOnly(tables: seq<Table>, cols: seq<string>): (r: seq<string>)
    ensures forall c :: c in r <==> c in cols && NumericIn(tables, c)
    decreases |cols|
  {
    if cols == [] then []
    else
      assert forall c :: c in cols ==> c == cols[0] || c in cols[1..];
      var rest := NumericOnly(tables, cols[1..]);
      if NumericIn(tables, cols[0]) then [cols[0]] + rest else rest
  }

  /** Dropping columns keeps distinct column names distinct. */
  lemma {:induction false} NumericOnlyDistinct(tables: seq<Table>, cols: seq<string>)
    requires forall i, j :: 0 <= i < j < |cols| ==> cols[i] != cols[j]
    ensures forall i, j :: 0 <= i < j < |NumericOnly(tables, cols)| ==>
      NumericOnly(tables, cols)[i] != NumericOnly(tables, cols)[j]
    decreases |cols|
  {
    if cols != [] {
      var tail := cols[1..];
      forall i, j | 0 <= i < j < |tail| ensures tail[i] != tail[j] {
        assert tail[i] == cols[i + 1] && tail[j] == cols[j + 1];
      }
      forall i | 0 <= i < |tail| ensures tail[i] != cols[0] {
        assert tail[i] == cols[i + 1];
      }
      NumericOnlyDistinct(tables, tail);
      var rest := NumericOnly(tables, tail);
      assert cols[0] !in rest;
      if NumericIn(tables, cols[0]) {
        var r := [cols[0]] + rest;
        forall i, j | 0 <= i < j < |r| ensures r[i] != r[j] {
          assert r[j] == rest[j - 1];
          if i > 0 {
            assert r[i] == rest[i - 1];
          }
        }
      }
    }
  }

  /** When every column is numeric, none is dropped. */
  lemma {:induction false} NumericOnlyAll(tables: seq<Table>, cols: seq<string>)
    requires forall c :: c in cols ==> NumericIn(tables, c)
    ensures NumericOnly(tables, cols) == cols
    decreases |cols|
  {
    if cols != [] {
      assert cols[0] in cols;
      assert forall c :: c in cols[1..] ==> c in cols;
      NumericOnlyAll(tables, cols[1..]);
      assert cols == [cols[0]] + cols[1..];
    }
  }

  /** The averaged value of column `c` at row `i`. */
  function CellAverage(tables: seq<Table>, c: string, i: nat): Cell {
    Mean(Contributions(tables, c, i))
  }

  /**
   * The averaged table over the numeric columns: as long as the longest kept
   * table, each cell the NaN-skipping mean over the tables that have that row.
   * Concatenating no table raises.
   */
  function Averaged(tables: seq<Table>): (r: Result<Table, Error>)
    ensures r.Failure? <==> tables == []
    ensures r.Failure? ==> r.error == NothingToConcatenate
    ensures r.Success? ==> r.value.rows == MaxRows(tables)
    ensures r.Success? ==> forall c :: c in r.value.header <==>
      NumericIn(tables, c) && exists j :: 0 <= j < |tables| && c in tables[j].header
  {
    if tables == [] then Failure(NothingToConcatenate)
    else
      var cols := NumericOnly(tables, UnionHeader(tables));
      NumericOnlyDistinct(tables, UnionHeader(tables));
      var n := MaxRows(tables);
      Success(AverageFrame(tables, cols, n))
  }

  /** The frame holding, for each of `cols`, the first `n` averaged cells. */
  function AverageFrame(tables: seq<Table>, cols: seq<string>, n: nat): (r: Table)
    requires forall i, j :: 0 <= i < j < |cols| ==> cols[i] != cols[j]
    ensures r.header == cols && r.rows == n
    ensures forall c :: c in r.data <==> c in cols
    ensures forall c :: c in cols ==> |r.data[c]| == n
    ensures forall c, i :: c in cols && 0 <= i < n ==> r.data[c][i] == CellAverage(tables, c, i)
  {
    var data := map c | c in cols :: seq(n, i requires 0 <= i < n => CellAverage(tables, c, i));
    assert forall c :: c in data ==> |data[c]| == n;
    Frame(cols, n, data)
  }

  /**
   * The averaged table is exactly as long as the longest kept table, hence at
   * most 60 rows.
   */
  lemma AveragedLength(tables: seq<Table>)
    requires Averaged(tables).Success?
    requires forall t :: t in tables ==> t.rows <= SAMPLES
    ensures Averaged(tables).value.rows <= SAMPLES
    ensures exists j :: 0 <= j < |tables| && tables[j].rows == Averaged(tables).value.rows
  {
    var j :| 0 <= j < |tables| && tables[j].rows == MaxRows(tables);
    assert tables[j] in tables;
  }

  /**
   * Each averaged value is the mean of exactly the row-`i` values of the
   * tables that have a row `i`; a number lies between the least and the
   * greatest of them, and NaN means none of them is a number.
   */
  lemma AveragedValue(tables: seq<Table>, c: string, i: nat)
    requires Averaged(tables).Success?
    requires c in Averaged(tables).value.data && i < Averaged(tables).value.rows
    ensures Averaged(tables).value.data[c][i] == Mean(Contributions(tables, c, i))
    ensures Averaged(tables).value.data[c][i].NaN? <==>
      forall j :: 0 <= j < |tables| && c in tables[j].data && i < tables[j].rows ==> !tables[j].data[c][i].Num?
    ensures Averaged(tables).value.data[c][i].Num? ==>
      Min(Present(Contributions(tables, c, i))) <= Averaged(tables).value.data[c][i].x <= Max(Present(Contributions(tables, c, i)))
  {
    assert Averaged(tables).value.data[c][i] == CellAverage(tables, c, i);
    ContributionsMean(tables, c, i);
  }

  /** What the mean of the contributions says about the tables. */
  lemma ContributionsMean(tables: seq<Table>, c: string, i: nat)
    ensures Mean(Contributions(tables, c, i)).NaN? <==>
      forall j :: 0 <= j < |tables| && c in tables[j].data && i < tables[j].rows ==> !tables[j].data[c][i].Num?
    ensures Mean(Contributions(tables, c, i)).Num? ==>
      Min(Present(Contributions(tables, c, i))) <= Mean(Contributions(tables, c, i)).x <= Max(Present(Contributions(tables, c, i)))
  {
    var xs := Contributions(tables, c, i);
    forall j | 0 <= j < |tables| && c in tables[j].data && i < tables[j].rows
      ensures exists k :: 0 <= k < |xs| && xs[k] == tables[j].data[c][i]
    {
      assert tables[j].data[c][i] in xs;
    }
    forall k | 0 <= k < |xs|
      ensures exists j :: 0 <= j < |tables| && c in tables[j].data && i < tables[j].rows && tables[j].data[c][i] == xs[k]
    {
      assert xs[k] in xs;
    }
    if Mean(xs).Num? {
      MeanBetweenExtremes(xs);
    }
  }

  /** Averaging a single all-numeric table gives that table back. */
  lemma AverageOfOne(t: Table)
    requires forall c :: c in t.data ==> Numeric(t.data[c])
    ensures Averaged([t]) == Success(t)
  {
    var ts := [t];
    UnionOfOne(t);
    assert forall c :: c in t.header ==> NumericIn(ts, c);
    NumericOnlyAll(ts, t.header);
    assert MaxRows(ts) == t.rows;
    AverageFrameOfOne(t);
  }

  lemma UnionOfOne(t: Table)
    ensures UnionHeader([t]) == t.header
  {
    assert [t][..0] == [];
    assert UnionHeader([t]) == AddNew([], t.header);
    AddNewDisjoint([], t.header);
    assert [] + t.header == t.header;
  }

  lemma AverageFrameOfOne(t: Table)
    requires forall c :: c in t.data ==> Numeric(t.data[c])
    ensures AverageFrame([t], t.header, t.rows) == t
  {
    var a := AverageFrame([t], t.header, t.rows);
    forall c | c in t.data ensures a.data[c] == t.data[c] {
      forall i | 0 <= i < t.rows ensures a.data[c][i] == t.data[c][i] {
        SingleCellAverage(t, c, i);
      }
    }
    assert forall c :: c in a.data <==> c in t.data;
    assert a.data == t.data;
  }

  lemma SingleCellAverage(t: Table, c: string, i: nat)
    requires c in t.data && i < t.rows && Numeric(t.data[c])
    ensures CellAverage([t], c, i) == t.data[c][i]
  {
    var x := t.data[c][i];
    assert [t][..0] == [];
    assert Contributions([t], c, i) == [x];
    if x.Num? {
      MeanOfEqualValues([x], x.x);
    } else {
      assert x.NaN?;
    }
  }

  // ---------------------------------------------------------------------------
  // The run

  /** Where the average figure is saved. */
  function AveragePath(outDir: string): (r: string)
    ensures Basename(r) == PLOT_NAME
  {
    BasenameOfJoin(outDir, PLOT_NAME);
    Join(outDir, PLOT_NAME)
  }

  /** The averaged table and where its figure goes. */
  datatype Average = Average(table: Table, path: string)

  /** Admission, then the average, then the output path. */
  function AverageRun(cands: seq<Candidate>, read: string -> Table, outDir: string): Result<Average, Error> {
    match Admitted(cands, read)
    case Failure(e) => Failure(e)
    case Success(ts) =>
      match Averaged(ts)
      case Failure(e) => Failure(e)
      case Success(avg) => Success(Average(avg, AveragePath(outDir)))
  }

  /** `parse_files` of the averaging plotter, up to the call that draws the average. */
  method ParseFiles(walk: seq<WalkStep>, listing: string -> seq<string>, ex: seq<Exclusion>,
                    read: string -> Table, outDir: string) returns (r: Result<Average, Error>)
    ensures r == AverageRun(Selected(walk, listing, ex), read, outDir)
  {
    var cands := SelectFiles(walk, listing, ex);
    var allData := CollectTables(cands, read);
    if allData.Failure? {
      return Failure(allData.error);
    }
    var avg := Averaged(allData.value);
    if avg.Failure? {
      return Failure(avg.error);
    }
    r := Success(Average(avg.value, Join(outDir, PLOT_NAME)));
  }

  /**
   * When every selected table lacks the 45 columns (or none is selected),
   * the run raises on the empty concatenation.
   */
  lemma NothingAdmittedFails(cands: seq<Candidate>, read: string -> Table, outDir: string)
    requires forall c :: c in cands ==> STATION_COLUMN in read(c.path).header
    requires forall c :: c in cands ==> |read(c.path).header| != COLUMN_COUNT + 1
    ensures AverageRun(cands, read, outDir) == Failure(NothingToConcatenate)
  {
    assert forall c :: c in cands ==> Admit(read(c.path)) == Success(None);
    NoneAdmitted(cands, read);
  }

  lemma {:induction false} NoneAdmitted(cands: seq<Candidate>, read: string -> Table)
    requires forall c :: c in cands ==> Admit(read(c.path)) == Success(None)
    ensures Admitted(cands, read) == Success([])
    decreases |cands|
  {
    if cands != [] {
      var init := cands[..|cands| - 1];
      assert forall c :: c in init ==> c in cands;
      NoneAdmitted(init, read);
      assert Last(cands) in cands;
    }
  }

  // ---------------------------------------------------------------------------
  // The average figure

  /**
   * `plot_save_fNIRS_HRF` of the averaging plotter: the two mean traces, then
   * the same markers, legend and annotations as the per-file panels, over
   * the event column the average carries.
   */
  function AveragePanel(avg: Table, events: seq<Cell>): (r: Result<(Drawing, seq<string>), Error>)
    requires |events| == avg.rows
    ensures r.Success? ==> MEAN_HBO_COLUMN in avg.header && MEAN_HBR_COLUMN in avg.header
  {
    match Column(avg, MEAN_HBO_COLUMN)
    case Failure(e) => Failure(e)
    case Success(hbo) =>
      match Column(avg, MEAN_HBR_COLUMN)
      case Failure(e) => Failure(e)
      case Success(_) =>
        match Drawn(avg, events, hbo)
        case Failure(e) => Failure(e)
        case Success(d) => Success((d, Legend([MEAN_HBO_COLUMN, MEAN_HBR_COLUMN], d)))
  }

  /**
   * The average panel follows the per-file marker rules: one marker per
   * labelled row, a legend entry for the first occurrence of each label
   * only, the arousal-else-valence annotation on `intermediate_selection`
   * rows at the height of `Mean_HbO`, and a legend holding each entry once.
   */
  lemma AveragePanelRules(avg: Table, events: seq<Cell>)
    requires |events| == avg.rows
    requires AveragePanel(avg, events).Success?
    ensures MEAN_HBO_COLUMN in avg.data
    ensures var (d, legend) := AveragePanel(avg, events).value;
      && Drawn(avg, events, avg.data[MEAN_HBO_COLUMN]) == Success(d)
      && OneMarkerPerEvent(events, d.markers)
      && MarkersLabelled(events, d.markers)
      && NotesFollowRule(avg, events, avg.data[MEAN_HBO_COLUMN], d.notes)
      && (forall i, j :: 0 <= i < j < |legend| ==> legend[i] != legend[j])
      && Elems(legend) == {MEAN_HBO_COLUMN, MEAN_HBR_COLUMN} + (set e | e in Seen(events) :: "Event: " + e)
  {
    var hbo := avg.data[MEAN_HBO_COLUMN];
    DrawnShape(avg, events, hbo);
    PanelLegendEntries(avg, events, hbo, [MEAN_HBO_COLUMN, MEAN_HBR_COLUMN]);
    assert !Hidden(MEAN_HBO_COLUMN) && !Hidden(MEAN_HBR_COLUMN);
    assert (set c | c in [MEAN_HBO_COLUMN, MEAN_HBR_COLUMN] && !Hidden(c)) == {MEAN_HBO_COLUMN, MEAN_HBR_COLUMN};
  }

  const MEAN_HBO_COLUMN: string := "Mean_HbO"
  const MEAN_HBR_COLUMN: string := "Mean_HbR"

  method PlotAverage(avg: Table, events: seq<Cell>) returns (r: Result<(Drawing, seq<string>), Error>)
    requires |events| == avg.rows
    ensures r == AveragePanel(avg, events)
  {
    var hbo := Column(avg, MEAN_HBO_COLUMN);
    if hbo.Failure? {
      return Failure(hbo.error);
    }
    var hbr := Column(avg, MEAN_HBR_COLUMN);
    if hbr.Failure? {
      return Failure(hbr.error);
    }
    var drawn := DrawEventMarkers(avg, events, hbo.value);
    if drawn.Failure? {
      return Failure(drawn.error);
    }
    r := Success((drawn.value, Legend([MEAN_HBO_COLUMN, MEAN_HBR_COLUMN], drawn.value)));
  }
}
