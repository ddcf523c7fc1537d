/**
 * The ECG quality summary: one result row per `exp_` directory of the root
 * listing, holding the directory name and, for each of the three stations,
 * the signal quality of its `EEG.csv` `AUX_EKG` column, or nothing when
 * that file or column cannot be loaded.
 */
module EkgQuality {
  import opened Wrappers
  import opened Strings
  import opened Paths
  import opened Frames
  import opened Batch

  const SESSION_PREFIX: string := "exp_"
  const STATIONS: seq<string> := ["lion", "tiger", "leopard"]
  const DIR_KEY: string := "exp_dir"
  const EEG_FILE: string := "EEG.csv"
  const EKG_COLUMN: string := "AUX_EKG"

  /** The exceptions the station loop can meet. */
  datatype Exception = FileNotFound | EmptyData | KeyError(key: string) | Other(name: string)

  /** The three kinds the station loop catches. */
  predicate Caught(e: Exception) {
    e.FileNotFound? || e.EmptyData? || e.KeyError?
  }

  /** A value of a result row: the directory name, or a station's quality (`None` when caught). */
  datatype Entry = Dir(name: string) | Score(quality: Option<string>)

  type Row = map<string, Entry>

  /** The `exp_` entries of the root listing, in listing order. */
  function ExpNames(listing: seq<string>): (r: seq<string>)
    ensures |r| <= |listing|
    ensures forall d :: d in r <==> d in listing && StartsWith(d, SESSION_PREFIX)
    decreases |listing|
  {
    if listing == [] then []
    else
      var init := listing[..|listing| - 1];
      assert listing == init + [Last(listing)];
      ExpNames(init) + (if StartsWith(Last(listing), SESSION_PREFIX) then [Last(listing)] else [])
  }

  /** `exp_dirs`: each `exp_` entry joined to the root. */
  function ExpDirs(root: string, listing: seq<string>): seq<string> {
    var names := ExpNames(listing);
    seq(|names|, i requires 0 <= i < |names| => Join(root, names[i]))
  }

  /** `<exp_dir>/<station>/EEG.csv` */
  function EegFile(expDir: string, station: string): string {
    JoinAll([expDir, station, EEG_FILE])
  }

  /**
   * The body of the `try`: load the file, take its `AUX_EKG` column, and
   * hand it to the quality routine (scaling, cleaning, peak finding and
   * rating), any step of which may raise.
   */
  function Attempt(expDir: string, station: string, load: string -> Result<Table, Exception>,
                   quality: seq<Cell> -> Result<string, Exception>): Result<string, Exception> {
    match load(EegFile(expDir, station))
    case Failure(e) => Failure(e)
    case Success(df) =>
      if EKG_COLUMN !in df.data then Failure(KeyError(EKG_COLUMN))
      else quality(df.data[EKG_COLUMN])
  }

  /** The `try`/`except`: a caught exception becomes `None`, any other one propagates. */
  function StationValue(expDir: string, station: string, load: string -> Result<Table, Exception>,
                        quality: seq<Cell> -> Result<string, Exception>): Result<Option<string>, Exception> {
    match Attempt(expDir, station, load, quality)
    case Success(q) => Success(Some(q))
    case Failure(e) => if Caught(e) then Success(None) else Failure(e)
  }

  /**
   * A station's value is `None` exactly when loading its file raised one of
   * the three caught kinds, the file has no `AUX_EKG` column, or the quality
   * routine raised one of them; otherwise it is the computed quality, or the
   * uncaught exception.
   */
  lemma StationValueCases(expDir: string, station: string, load: string -> Result<Table, Exception>,
                          quality: seq<Cell> -> Result<string, Exception>)
    ensures var loaded := load(EegFile(expDir, station));
      var v := StationValue(expDir, station, load, quality);
      && (v == Success(None) <==>
            || (loaded.Failure? && Caught(loaded.error))
            || (loaded.Success? && EKG_COLUMN !in loaded.value.data)
            || (loaded.Success? && EKG_COLUMN in loaded.value.data &&
                quality(loaded.value.data[EKG_COLUMN]).Failure? && Caught(quality(loaded.value.data[EKG_COLUMN]).error)))
      && (forall q :: v == Success(Some(q)) <==>
            loaded.Success? && EKG_COLUMN in loaded.value.data && quality(loaded.value.data[EKG_COLUMN]) == Success(q))
      && (v.Failure? ==> !Caught(v.error))
  {
  }

  /** The station step as a function of the station, for the loop. */
  function StationCheck(expDir: string, load: string -> Result<Table, Exception>,
                        quality: seq<Cell> -> Result<string, Exception>): string -> Result<Option<string>, Exception> {
    station => StationValue(expDir, station, load, quality)
  }

  /** `result_row` after the stations `stations` have written their values `values`. */
  function RowOf(expDir: string, stations: seq<string>, values: seq<Option<string>>): Row
    requires |stations| == |values|
    decreases |stations|
  {
    if stations == [] then map[DIR_KEY := Dir(Basename(expDir))]
    else
      var n := |stations| - 1;
      RowOf(expDir, stations[..n], values[..n])[stations[n] := Score(values[n])]
  }

  /**
   * A row holds the directory name under `exp_dir` and each station's value
   * under the station's name, and no other key.
   */
  lemma {:induction false} RowShape(expDir: string, stations: seq<string>, values: seq<Option<string>>)
    requires |stations| == |values|
    requires DIR_KEY !in stations
    requires forall i, j :: 0 <= i < j < |stations| ==> stations[i] != stations[j]
    ensures var r := RowOf(expDir, stations, values);
      && r.Keys == {DIR_KEY} + Elems(stations)
      && r[DIR_KEY] == Dir(Basename(expDir))
      && forall i :: 0 <= i < |stations| ==> r[stations[i]] == Score(values[i])
    decreases |stations|
  {
    if stations != [] {
      var n := |stations| - 1;
      RowShape(expDir, stations[..n], values[..n]);
      assert stations == stations[..n] + [stations[n]];
      assert Elems(stations) == Elems(stations[..n]) + {stations[n]};
    }
  }

  /** The row of one directory, or the exception that ended the run there. */
  function DirRow(expDir: string, load: string -> Result<Table, Exception>,
                  quality: seq<Cell> -> Result<string, Exception>): Result<Row, Exception> {
    var o := RunAll(STATIONS, StationCheck(expDir, load, quality));
    if o.abort.Some? then Failure(o.abort.value)
    else
      RunAllPrefix(STATIONS, StationCheck(expDir, load, quality));
      Success(RowOf(expDir, STATIONS, o.done))
  }

  function DirCheck(load: string -> Result<Table, Exception>,
                    quality: seq<Cell> -> Result<string, Exception>): string -> Result<Row, Exception> {
    expDir => DirRow(expDir, load, quality)
  }

  /** `results`, or the exception that ended the script before anything was written. */
  function Report(root: string, listing: seq<string>, load: string -> Result<Table, Exception>,
                  quality: seq<Cell> -> Result<string, Exception>): Result<seq<Row>, Exception> {
    var o := RunAll(ExpDirs(root, listing), DirCheck(load, quality));
    if o.abort.Some? then Failure(o.abort.value) else Success(o.done)
  }

  // ---------------------------------------------------------------------------
  // Properties of the report

  /**
   * A successful directory row has exactly the keys `exp_dir`, `lion`,
   * `tiger` and `leopard`, the directory's base name, and for each station
   * the value its own `try` produced.
   */
  lemma DirRowShape(expDir: string, load: string -> Result<Table, Exception>,
                    quality: seq<Cell> -> Result<string, Exception>)
    requires DirRow(expDir, load, quality).Success?
    ensures var r := DirRow(expDir, load, quality).value;
      && r.Keys == {DIR_KEY, "lion", "tiger", "leopard"}
      && r[DIR_KEY] == Dir(Basename(expDir))
      && forall s :: s in STATIONS ==> r[s].Score? && StationValue(expDir, s, load, quality) == Success(r[s].quality)
  {
    DirRowKeys(expDir, load, quality);
    forall s | s in STATIONS
      ensures var r := DirRow(expDir, load, quality).value;
        r[s].Score? && StationValue(expDir, s, load, quality) == Success(r[s].quality)
    {
      var i :| 0 <= i < |STATIONS| && STATIONS[i] == s;
      DirRowValue(expDir, load, quality, i);
    }
  }

  /** The keys of a successful row and its `exp_dir` entry. */
  lemma DirRowKeys(expDir: string, load: string -> Result<Table, Exception>,
                   quality: seq<Cell> -> Result<string, Exception>)
    requires DirRow(expDir, load, quality).Success?
    ensures var r := DirRow(expDir, load, quality).value;
      && r.Keys == {DIR_KEY, "lion", "tiger", "leopard"}
      && r[DIR_KEY] == Dir(Basename(expDir))
  {
    var o := RunAll(STATIONS, StationCheck(expDir, load, quality));
    RunAllPrefix(STATIONS, StationCheck(expDir, load, quality));
    StationRowKeys(expDir, o.done);
  }

  lemma StationRowKeys(expDir: string, values: seq<Option<string>>)
    requires |values| == |STATIONS|
    ensures var r := RowOf(expDir, STATIONS, values);
      && r.Keys == {DIR_KEY, "lion", "tiger", "leopard"}
      && r[DIR_KEY] == Dir(Basename(expDir))
  {
    RowShape(expDir, STATIONS, values);
    assert Elems(STATIONS) == {"lion", "tiger", "leopard"};
  }

  /** The `i`-th station's entry of a successful row is what its own `try` produced. */
  lemma DirRowValue(expDir: string, load: string -> Result<Table, Exception>,
                    quality: seq<Cell> -> Result<string, Exception>, i: nat)
    requires DirRow(expDir, load, quality).Success? && i < |STATIONS|
    ensures var r := DirRow(expDir, load, quality).value;
      && STATIONS[i] in r && r[STATIONS[i]].Score?
      && StationValue(expDir, STATIONS[i], load, quality) == Success(r[STATIONS[i]].quality)
  {
    var f := StationCheck(expDir, load, quality);
    var o := RunAll(STATIONS, f);
    RunAllPrefix(STATIONS, f);
    RowShape(expDir, STATIONS, o.done);
    assert f(STATIONS[i]) == Success(o.done[i]);
  }

  /** A directory's row fails exactly when one of its stations raised an uncaught exception. */
  lemma DirRowFails(expDir: string, load: string -> Result<Table, Exception>,
                    quality: seq<Cell> -> Result<string, Exception>)
    ensures DirRow(expDir, load, quality).Failure? <==>
      exists s :: s in STATIONS && StationValue(expDir, s, load, quality).Failure?
    ensures DirRow(expDir, load, quality).Failure? ==>
      !Caught(DirRow(expDir, load, quality).error)
  {
    var f := StationCheck(expDir, load, quality);
    var o := RunAll(STATIONS, f);
    RunAllPrefix(STATIONS, f);
    if o.abort.Some? {
      var s := STATIONS[|o.done|];
      assert f(s).Failure?;
      StationValueCases(expDir, s, load, quality);
    } else {
      forall s | s in STATIONS ensures StationValue(expDir, s, load, quality).Success? {
        var i :| 0 <= i < |STATIONS| && STATIONS[i] == s;
        assert f(STATIONS[i]) == Success(o.done[i]);
      }
    }
  }

  /** The run fails exactly when some `exp_` directory's row raised an uncaught exception. */
  lemma ReportFails(root: string, listing: seq<string>, load: string -> Result<Table, Exception>,
                    quality: seq<Cell> -> Result<string, Exception>)
    ensures Report(root, listing, load, quality).Failure? <==>
      exists i :: 0 <= i < |ExpNames(listing)| && DirRow(Join(root, ExpNames(listing)[i]), load, quality).Failure?
  {
    var dirs := ExpDirs(root, listing);
    var f := DirCheck(load, quality);
    RunAllPrefix(dirs, f);
    var o := RunAll(dirs, f);
    var names := ExpNames(listing);
    assert |dirs| == |names|;
    if o.abort.Some? {
      var i := |o.done|;
      assert dirs[i] == Join(root, names[i]);
      assert f(dirs[i]).Failure?;
    } else {
      forall i | 0 <= i < |names| ensures DirRow(Join(root, names[i]), load, quality).Success? {
        assert dirs[i] == Join(root, names[i]);
        assert f(dirs[i]) == Success(o.done[i]);
      }
    }
  }

  /**
   * One row per `exp_` entry of the listing, in listing order, each the row
   * of that directory and holding the entry's own name.
   */
  lemma ReportRows(root: string, listing: seq<string>, load: string -> Result<Table, Exception>,
                   quality: seq<Cell> -> Result<string, Exception>)
    requires forall d :: d in listing ==> '/' !in d
    requires Report(root, listing, load, quality).Success?
    ensures var names := ExpNames(listing);
      var rows := Report(root, listing, load, quality).value;
      && |rows| == |names|
      && forall i :: 0 <= i < |names| ==>
           DirRow(Join(root, names[i]), load, quality) == Success(rows[i]) &&
           DIR_KEY in rows[i] && rows[i][DIR_KEY] == Dir(names[i])
  {
    var names := ExpNames(listing);
    var dirs := ExpDirs(root, listing);
    var f := DirCheck(load, quality);
    RunAllPrefix(dirs, f);
    var rows := RunAll(dirs, f).done;
    forall i | 0 <= i < |names|
      ensures DirRow(Join(root, names[i]), load, quality) == Success(rows[i])
      ensures DIR_KEY in rows[i] && rows[i][DIR_KEY] == Dir(names[i])
    {
      assert f(dirs[i]) == Success(rows[i]);
      assert names[i] in names;
      DirRowShape(dirs[i], load, quality);
      BasenameOfJoin(root, names[i]);
    }
  }

  /**
   * Error isolation: a station's value in a directory depends only on what
   * loading that station's own file yields, whatever happens at the other
   * stations.
   */
  lemma StationIsolated(expDir: string, s: string, load1: string -> Result<Table, Exception>,
                        load2: string -> Result<Table, Exception>, quality: seq<Cell> -> Result<string, Exception>)
    requires DirRow(expDir, load1, quality).Success? && DirRow(expDir, load2, quality).Success?
    requires s in STATIONS && load1(EegFile(expDir, s)) == load2(EegFile(expDir, s))
    ensures s in DirRow(expDir, load1, quality).value && s in DirRow(expDir, load2, quality).value
    ensures DirRow(expDir, load1, quality).value[s] == DirRow(expDir, load2, quality).value[s]
  {
    var v1, v2 := StationValue(expDir, s, load1, quality), StationValue(expDir, s, load2, quality);
    assert v1 == v2;
    assert s in DirRow(expDir, load1, quality).value && DirRow(expDir, load1, quality).value[s] == Score(v1.value) by {
      DirRowShape(expDir, load1, quality);
    }
    assert s in DirRow(expDir, load2, quality).value && DirRow(expDir, load2, quality).value[s] == Score(v2.value) by {
      DirRowShape(expDir, load2, quality);
    }
  }

  // ---------------------------------------------------------------------------
  // The loops

  /** The station loop of one directory, writing `result_row` key by key. */
  method CheckDir(expDir: string, load: string -> Result<Table, Exception>,
                  quality: seq<Cell> -> Result<string, Exception>) returns (r: Result<Row, Exception>)
    ensures r == DirRow(expDir, load, quality)
  {
    var resultRow: Row := map[DIR_KEY := Dir(Basename(expDir))];
    ghost var f := StationCheck(expDir, load, quality);
    ghost var values: seq<Option<string>> := [];
    var k := 0;
    while k < |STATIONS|
      invariant 0 <= k <= |STATIONS| && |values| == k
      invariant RunAll(STATIONS[..k], f) == Outcome(values, None)
      invariant resultRow == RowOf(expDir, STATIONS[..k], values)
    {
      var imac := STATIONS[k];
      var value := TryStation(expDir, imac, load, quality);
      RunAllNext(STATIONS, f, k, values, value);
      if value.Failure? {
        return Failure(value.error);
      }
      RowOfNext(expDir, STATIONS, values, value.value);
      resultRow := resultRow[imac := Score(value.value)];
      values := values + [value.value];
      k := k + 1;
    }
    assert STATIONS[..k] == STATIONS;
    r := Success(resultRow);
  }

  /** One station's `try` block and its `except` clause. */
  method TryStation(expDir: string, imac: string, load: string -> Result<Table, Exception>,
                    quality: seq<Cell> -> Result<string, Exception>) returns (v: Result<Option<string>, Exception>)
    ensures v == StationValue(expDir, imac, load, quality)
  {
    var loaded := load(EegFile(expDir, imac));
    var attempt: Result<string, Exception>;
    if loaded.Failure? {
      attempt := Failure(loaded.error);
    } else if EKG_COLUMN !in loaded.value.data {
      attempt := Failure(KeyError(EKG_COLUMN));
    } else {
      attempt := quality(loaded.value.data[EKG_COLUMN]);
    }
    if attempt.Success? {
      v := Success(Some(attempt.value));
    } else if Caught(attempt.error) {
      v := Success(None);
    } else {
      v := Failure(attempt.error);
    }
  }

  /** Writing the next station's value extends the row by that one key. */
  lemma RowOfNext(expDir: string, stations: seq<string>, values: seq<Option<string>>, v: Option<string>)
    requires |values| < |stations|
    ensures var k := |values|;
      RowOf(expDir, stations[..k + 1], values + [v]) == RowOf(expDir, stations[..k], values)[stations[k] := Score(v)]
  {
    var k := |values|;
    assert stations[..k + 1][..k] == stations[..k];
    assert (values + [v])[..k] == values;
  }

  /** The directory loop, appending each row to `results`; the run ends at an uncaught exception. */
  method CheckAll(root: string, listing: seq<string>, load: string -> Result<Table, Exception>,
                  quality: seq<Cell> -> Result<string, Exception>) returns (r: Result<seq<Row>, Exception>)
    ensures r == Report(root, listing, load, quality)
  {
    var expDirs := ExpDirs(root, listing);
    var results := CheckEach(expDirs, load, quality);
    if results.abort.Some? {
      return Failure(results.abort.value);
    }
    r := Success(results.done);
  }

  /** The loop body applied to each directory in order, until one raises. */
  method CheckEach(expDirs: seq<string>, load: string -> Result<Table, Exception>,
                   quality: seq<Cell> -> Result<string, Exception>) returns (o: Outcome<Row, Exception>)
    ensures o == RunAll(expDirs, DirCheck(load, quality))
  {
    ghost var f := DirCheck(load, quality);
    var results: seq<Row> := [];
    var i := 0;
    while i < |expDirs|
      invariant 0 <= i <= |expDirs|
      invariant RunAll(expDirs[..i], f) == Outcome(results, None)
    {
      var resultRow := CheckDir(expDirs[i], load, quality);
      RunAllNext(expDirs, f, i, results, resultRow);
      if resultRow.Failure? {
        return Outcome(results, Some(resultRow.error));
      }
      results := results + [resultRow.value];
      i := i + 1;
    }
    assert expDirs[..i] == expDirs;
    o := Outcome(results, None);
  }
}
