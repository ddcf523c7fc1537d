/**
 * The per-file HRF plotter: for every selected CSV it derives the channel
 * names from the `<channel>_HbO` / `<channel>_HbR` columns, adds the
 * row-wise `Mean_HbO` / `Mean_HbR` columns, draws one panel per channel in
 * sorted order followed by the `Mean` panel, and saves the figure under the
 * output directory, mirroring the input path from its fifth component on.
 */
module HrfPlots {
  import opened Wrappers
  import opened Strings
  import opened Paths
  import opened Frames
  import opened EventMarkers
  import opened Selection
  import opened Batch

  const HBO: string := "_HbO"
  const HBR: string := "_HbR"
  const MEAN: string := "Mean"
  const MEAN_HBO: string := "Mean_HbO"
  const MEAN_HBR: string := "Mean_HbR"
  const EVENT_COLUMN: string := "event_type"
  /** The labels of the two empty lines each panel plots as score placeholders. */
  const SCORE_PLACEHOLDERS: seq<string> := ["A: Arousal Score", "V: Valence Score"]

  // ---------------------------------------------------------------------------
  // Channel names

  /** A column that names a channel: it mentions `_HbO` or `_HbR` anywhere. */
  predicate IsChannelColumn(col: string) {
    Contains(col, HBO) || Contains(col, HBR)
  }

  /** The column name with every `_HbO`, then every `_HbR`, removed. */
  function Stripped(col: string): string {
    Replace(Replace(col, HBO, ""), HBR, "")
  }

  /** The stripped channel columns, in header order, repeats kept. */
  function ChannelNames(header: seq<string>): (r: seq<string>)
    ensures forall x :: x in r <==> exists c :: c in header && IsChannelColumn(c) && x == Stripped(c)
    decreases |header|
  {
    if header == [] then []
    else
      var init := header[..|header| - 1];
      assert header == init + [Last(header)];
      ChannelNames(init) + (if IsChannelColumn(Last(header)) then [Stripped(Last(header))] else [])
  }

  /**
   * `sorted(set(...))` of the stripped channel columns: sorted, without
   * repetitions, and holding exactly the stripped names of the columns that
   * mention `_HbO` or `_HbR`.
   */
  function Channels(header: seq<string>): (r: seq<string>)
    ensures StrictlySorted(r)
    ensures forall i, j :: 0 <= i < j < |r| ==> r[i] != r[j]
    ensures forall x :: x in r <==> exists c :: c in header && IsChannelColumn(c) && x == Stripped(c)
  {
    var r := SortedSet(ChannelNames(header));
    SortedDistinct(r);
    assert forall x :: x in r <==> x in Elems(r);
    assert forall x :: x in ChannelNames(header) <==> x in Elems(ChannelNames(header));
    r
  }

  /** Both columns of a channel strip back to the channel's own name. */
  lemma StrippedPair(ch: string)
    requires !Contains(ch, HBO) && !Contains(ch, HBR)
    ensures IsChannelColumn(ch + HBO) && Stripped(ch + HBO) == ch
    ensures IsChannelColumn(ch + HBR) && Stripped(ch + HBR) == ch
  {
    ContainsAppended(ch, HBO);
    ContainsAppended(ch, HBR);
    ReplaceAtEnd(ch, HBO, "");
    assert ch + "" == ch;
    assert !Contains(HBR, HBO) by {
      assert HBR[..4][3] != HBO[3];
      assert HBR[1..] == "HbR";
      assert !Contains("HbR", HBO) by {
        assert "HbR"[1..] == "bR";
        assert "bR"[1..] == "R";
        assert "R"[1..] == "";
      }
    }
    NoNewOccurrence(ch, HBR, HBO);
    ReplaceAtEnd(ch, HBR, "");
  }

  /**
   * A header made of the two columns of each channel in `chs` (at least the
   * `_HbO` one present) and of columns that mention neither suffix yields
   * exactly the channels, sorted.
   */
  lemma ChannelsOfPairedHeader(chs: seq<string>, header: seq<string>)
    requires forall ch :: ch in chs ==> !Contains(ch, HBO) && !Contains(ch, HBR) && ch + HBO in header
    requires forall c :: c in header && IsChannelColumn(c) ==>
      exists ch :: ch in chs && (c == ch + HBO || c == ch + HBR)
    ensures Channels(header) == SortedSet(chs)
  {
    forall x ensures x in Channels(header) <==> x in chs {
      if x in chs {
        StrippedPair(x);
      }
      if x in Channels(header) {
        var c :| c in header && IsChannelColumn(c) && x == Stripped(c);
        var ch :| ch in chs && (c == ch + HBO || c == ch + HBR);
        StrippedPair(ch);
      }
    }
    assert Elems(Channels(header)) == Elems(SortedSet(chs));
    SortedUnique(Channels(header), SortedSet(chs));
  }

  // ---------------------------------------------------------------------------
  // Row-wise means

  /** `[f"{channel}{suffix}" for channel in chs]` */
  function Suffixed(chs: seq<string>, suffix: string): (r: seq<string>)
    ensures |r| == |chs| && forall i :: 0 <= i < |r| ==> r[i] == chs[i] + suffix
  {
    seq(|chs|, i requires 0 <= i < |chs| => chs[i] + suffix)
  }

  /** The cells of row `i` across the columns `names`. */
  function RowCells(t: Table, names: seq<string>, i: nat): (r: seq<Cell>)
    requires i < t.rows && forall n :: n in names ==> n in t.data
    ensures |r| == |names| && forall k :: 0 <= k < |names| ==> r[k] == t.data[names[k]][i]
  {
    seq(|names|, k requires 0 <= k < |names| => t.data[names[k]][i])
  }

  /** The first of `names` whose column holds text. */
  function FirstNonNumeric(t: Table, names: seq<string>): (r: Option<string>)
    requires forall n :: n in names ==> n in t.data
    ensures r.None? <==> forall n :: n in names ==> Numeric(t.data[n])
    ensures r.Some? ==> r.value in names && !Numeric(t.data[r.value])
    decreases |names|
  {
    if names == [] then None
    else if !Numeric(t.data[names[0]]) then Some(names[0])
    else
      assert forall n :: n in names ==> n == names[0] || n in names[1..];
      FirstNonNumeric(t, names[1..])
  }

  /**
   * `df[names].mean(axis=1)`: KeyError naming the absent columns, TypeError
   * on a column holding text, otherwise the NaN-skipping mean of each row.
   */
  function RowMeans(t: Table, names: seq<string>): (r: Result<seq<Cell>, Error>)
    ensures r.Success? <==> (forall n :: n in names ==> n in t.header && Numeric(t.data[n]))
    ensures r.Failure? && Absent(t, names) != [] ==> r.error == MissingColumns(Absent(t, names))
    ensures r.Success? ==> |r.value| == t.rows
  {
    var missing := Absent(t, names);
    if missing != [] then
      assert missing[0] in missing;
      Failure(MissingColumns(missing))
    else
      match FirstNonNumeric(t, names)
      case Some(n) => Failure(NonNumeric(n))
      case None => Success(seq(t.rows, i requires 0 <= i < t.rows => Mean(RowCells(t, names, i))))
  }

  /**
   * Each row mean is NaN exactly when the row holds no number, and otherwise
   * lies between the row's least and greatest number.
   */
  lemma RowMeanBounds(t: Table, names: seq<string>, i: nat)
    requires RowMeans(t, names).Success? && i < t.rows
    ensures forall n :: n in names ==> n in t.data
    ensures RowMeans(t, names).value[i] == Mean(RowCells(t, names, i))
    ensures var m := RowMeans(t, names).value[i];
      && (m.NaN? <==> forall k :: 0 <= k < |names| ==> !t.data[names[k]][i].Num?)
      && (m.Num? ==> Min(Present(RowCells(t, names, i))) <= m.x <= Max(Present(RowCells(t, names, i))))
  {
    var m := RowMeans(t, names).value[i];
    assert m == Mean(RowCells(t, names, i));
    if m.Num? {
      MeanBetweenExtremes(RowCells(t, names, i));
    }
  }

  /**
   * `Mean_HbO` is the row mean of the channels' `_HbO` columns,
   * then `Mean_HbR` of their `_HbR` columns.
   */
  function WithMeans(t: Table): (r: Result<Table, Error>)
    ensures r.Success? ==> MEAN_HBO in r.value.data && MEAN_HBR in r.value.data && r.value.rows == t.rows
    ensures r.Success? ==> forall c :: c in t.data && c != MEAN_HBO && c != MEAN_HBR ==>
      c in r.value.data && r.value.data[c] == t.data[c]
  {
    var chs := Channels(t.header);
    match RowMeans(t, Suffixed(chs, HBO))
    case Failure(e) => Failure(e)
    case Success(hbo) =>
      var t1 := WithColumn(t, MEAN_HBO, hbo);
      match RowMeans(t1, Suffixed(chs, HBR))
      case Failure(e) => Failure(e)
      case Success(hbr) => Success(WithColumn(t1, MEAN_HBR, hbr))
  }

  /** A name ending in `_HbR` is not `Mean_HbO`. */
  lemma HbRIsNotMeanHbO(ch: string)
    ensures ch + HBR != MEAN_HBO
  {
    assert Last(ch + HBR) == 'R';
    assert Last(MEAN_HBO) == 'O';
  }

  /**
   * A channel lacking its `_HbO` column is a KeyError naming that column.  A
   * channel lacking its `_HbR` column makes the step fail too, with a
   * KeyError naming that column once the `_HbO` means could be taken (a text
   * `_HbO` column raises its TypeError first).
   */
  lemma MissingChannelColumnFails(t: Table, ch: string)
    requires ch in Channels(t.header)
    ensures ch + HBO !in t.header ==>
      WithMeans(t).Failure? && WithMeans(t).error.MissingColumns? && ch + HBO in WithMeans(t).error.names
    ensures ch + HBR !in t.header ==> WithMeans(t).Failure?
    ensures ch + HBR !in t.header && RowMeans(t, Suffixed(Channels(t.header), HBO)).Success? ==>
      WithMeans(t).Failure? && WithMeans(t).error.MissingColumns? && ch + HBR in WithMeans(t).error.names
  {
    var chs := Channels(t.header);
    var k :| 0 <= k < |chs| && chs[k] == ch;
    var hboNames := Suffixed(chs, HBO);
    var hbrNames := Suffixed(chs, HBR);
    assert hboNames[k] == ch + HBO && hbrNames[k] == ch + HBR;
    if ch + HBO !in t.header {
      RowMeansMissing(t, hboNames, ch + HBO);
    }
    if ch + HBR !in t.header && RowMeans(t, hboNames).Success? {
      var t1 := WithColumn(t, MEAN_HBO, RowMeans(t, hboNames).value);
      HbRIsNotMeanHbO(ch);
      RowMeansMissing(t1, hbrNames, ch + HBR);
    }
  }

  /** A listed column the table lacks makes the means a KeyError naming it. */
  lemma RowMeansMissing(t: Table, names: seq<string>, n: string)
    requires n in names && n !in t.header
    ensures RowMeans(t, names).Failure?
    ensures RowMeans(t, names).error.MissingColumns? && n in RowMeans(t, names).error.names
  {
    assert n in Absent(t, names);
  }

  /**
   * When the means are added, `Mean_HbO` at each row is the NaN-skipping mean
   * of that row over the channels' `_HbO` columns, and lies between their
   * least and greatest value.
   */
  lemma MeanHbOIsRowMean(t: Table, i: nat)
    requires WithMeans(t).Success? && i < t.rows
    ensures var names := Suffixed(Channels(t.header), HBO);
      && RowMeans(t, names).Success?
      && WithMeans(t).value.data[MEAN_HBO][i] == Mean(RowCells(t, names, i))
      && (WithMeans(t).value.data[MEAN_HBO][i].Num? ==>
            Min(Present(RowCells(t, names, i))) <= WithMeans(t).value.data[MEAN_HBO][i].x
              <= Max(Present(RowCells(t, names, i))))
  {
    var names := Suffixed(Channels(t.header), HBO);
    MeanHbOColumn(t);
    RowMeanBounds(t, names, i);
  }

  /** The `Mean_HbO` column of the extended table is the row-mean column. */
  lemma MeanHbOColumn(t: Table)
    requires WithMeans(t).Success?
    ensures var names := Suffixed(Channels(t.header), HBO);
      RowMeans(t, names).Success? && WithMeans(t).value.data[MEAN_HBO] == RowMeans(t, names).value
  {
    var chs := Channels(t.header);
    var names := Suffixed(chs, HBO);
    var hbo := RowMeans(t, names);
    assert hbo.Success?;
    var t1 := WithColumn(t, MEAN_HBO, hbo.value);
    var hbr := RowMeans(t1, Suffixed(chs, HBR));
    assert hbr.Success?;
    assert WithMeans(t) == Success(WithColumn(t1, MEAN_HBR, hbr.value));
  }

  /**
   * When the means are added, `Mean_HbR` at each row is the NaN-skipping mean
   * of that row over the channels' `_HbR` columns of the table as read, and
   * lies between their least and greatest value.
   */
  lemma MeanHbRIsRowMean(t: Table, i: nat)
    requires WithMeans(t).Success? && i < t.rows
    ensures var names := Suffixed(Channels(t.header), HBR);
      && RowMeans(t, names).Success?
      && WithMeans(t).value.data[MEAN_HBR][i] == Mean(RowCells(t, names, i))
      && (WithMeans(t).value.data[MEAN_HBR][i].Num? ==>
            Min(Present(RowCells(t, names, i))) <= WithMeans(t).value.data[MEAN_HBR][i].x
              <= Max(Present(RowCells(t, names, i))))
  {
    var names := Suffixed(Channels(t.header), HBR);
    MeanHbRColumn(t);
    RowMeanBounds(t, names, i);
  }

  /**
   * The `Mean_HbR` column of the extended table is the row-mean column over
   * the `_HbR` columns as read: adding `Mean_HbO` first changes none of them.
   */
  lemma MeanHbRColumn(t: Table)
    requires WithMeans(t).Success?
    ensures var names := Suffixed(Channels(t.header), HBR);
      RowMeans(t, names).Success? && WithMeans(t).value.data[MEAN_HBR] == RowMeans(t, names).value
  {
    var chs := Channels(t.header);
    var hbo := RowMeans(t, Suffixed(chs, HBO));
    assert hbo.Success?;
    var t1 := WithColumn(t, MEAN_HBO, hbo.value);
    var names := Suffixed(chs, HBR);
    var hbr := RowMeans(t1, names);
    assert hbr.Success?;
    assert WithMeans(t) == Success(WithColumn(t1, MEAN_HBR, hbr.value));
    forall k | 0 <= k < |names| ensures names[k] in t.header && t1.data[names[k]] == t.data[names[k]] {
      HbRIsNotMeanHbO(chs[k]);
    }
    RowMeansOfSameColumns(t, t1, names);
  }

  /** Two tables agreeing on the columns `names` have the same row means over them. */
  lemma RowMeansOfSameColumns(t: Table, t1: Table, names: seq<string>)
    requires t1.rows == t.rows && RowMeans(t1, names).Success?
    requires forall k :: 0 <= k < |names| ==> names[k] in t.header && t1.data[names[k]] == t.data[names[k]]
    ensures RowMeans(t, names) == RowMeans(t1, names)
  {
    assert forall n :: n in names ==> n in t.header && t1.data[n] == t.data[n];
    assert Absent(t, names) == [];
    assert FirstNonNumeric(t, names) == None;
    var a, b := RowMeans(t, names).value, RowMeans(t1, names).value;
    forall i | 0 <= i < t.rows ensures a[i] == b[i] {
      assert RowCells(t1, names, i) == RowCells(t, names, i);
    }
    assert a == b;
  }

  // ---------------------------------------------------------------------------
  // Panels

  /** One panel: its two traces, the event drawing over them, and the legend shown. */
  datatype Panel = Panel(hbo: string, hbr: string, drawing: Drawing, legend: seq<string>)

  /** The trace columns of the panel named `name`. */
  function TraceColumns(name: string): (string, string) {
    if name == MEAN then (MEAN_HBO, MEAN_HBR) else (name + HBO, name + HBR)
  }

  /** One pass of the panel loop: both traces, the event column, then the markers. */
  function PanelFor(t: Table, name: string): (r: Result<Panel, Error>)
    ensures r.Success? ==> (r.value.hbo, r.value.hbr) == TraceColumns(name)
  {
    var (hboName, hbrName) := TraceColumns(name);
    match Column(t, hboName)
    case Failure(e) => Failure(e)
    case Success(hbo) =>
      match Column(t, hbrName)
      case Failure(e) => Failure(e)
      case Success(_) =>
        match Column(t, EVENT_COLUMN)
        case Failure(e) => Failure(e)
        case Success(events) =>
          match Drawn(t, events, hbo)
          case Failure(e) => Failure(e)
          case Success(d) => Success(Panel(hboName, hbrName, d, Legend([hboName, hbrName] + SCORE_PLACEHOLDERS, d)))
  }

  /**
   * A panel's legend holds each entry once: its trace labels unless they
   * start with `_` (the traces of a channel named by an empty string), the
   * two score placeholders, and one `Event:` entry per distinct label.
   */
  lemma PanelLegendShape(t: Table, name: string)
    requires PanelFor(t, name).Success?
    ensures EVENT_COLUMN in t.data
    ensures var p := PanelFor(t, name).value;
      && (forall i, j :: 0 <= i < j < |p.legend| ==> p.legend[i] != p.legend[j])
      && Elems(p.legend) == (set c | c in [p.hbo, p.hbr] && !Hidden(c)) + Elems(SCORE_PLACEHOLDERS)
                            + (set e | e in Seen(t.data[EVENT_COLUMN]) :: "Event: " + e)
  {
    var (hboName, hbrName) := TraceColumns(name);
    var hbo, events := t.data[hboName], t.data[EVENT_COLUMN];
    var plotted := [hboName, hbrName] + SCORE_PLACEHOLDERS;
    assert PanelFor(t, name).value.legend == Legend(plotted, Drawn(t, events, hbo).value);
    PanelLegendEntries(t, events, hbo, plotted);
    assert !Hidden(SCORE_PLACEHOLDERS[0]) && !Hidden(SCORE_PLACEHOLDERS[1]);
    assert (set c | c in plotted && !Hidden(c))
        == (set c | c in [hboName, hbrName] && !Hidden(c)) + Elems(SCORE_PLACEHOLDERS);
  }

  /** The panel step as a function of the name, for the loop. */
  function PanelStep(t: Table): string -> Result<Panel, Error> {
    name => PanelFor(t, name)
  }

  /** The panels for `names` in order, or the first exception. */
  function Panels(t: Table, names: seq<string>): Result<seq<Panel>, Error> {
    var o := RunAll(names, PanelStep(t));
    if o.abort.Some? then Failure(o.abort.value) else Success(o.done)
  }

  /** The panels succeed exactly when each panel does, and then come one per name, in order. */
  lemma PanelsExactly(t: Table, names: seq<string>)
    ensures Panels(t, names).Success? <==> forall i :: 0 <= i < |names| ==> PanelFor(t, names[i]).Success?
    ensures Panels(t, names).Success? ==>
      |Panels(t, names).value| == |names| &&
      forall i :: 0 <= i < |names| ==> Panels(t, names).value[i] == PanelFor(t, names[i]).value
  {
    var f := PanelStep(t);
    var o := RunAll(names, f);
    RunAllPrefix(names, f);
    if o.abort.Some? {
      var k := |o.done|;
      assert f(names[k]).Failure?;
      assert PanelFor(t, names[k]).Failure?;
    } else {
      forall i | 0 <= i < |names| ensures PanelFor(t, names[i]) == Success(o.done[i]) {
        assert f(names[i]) == Success(o.done[i]);
      }
    }
  }

  /** The body of the panel loop. */
  method DrawPanel(t: Table, name: string) returns (r: Result<Panel, Error>)
    ensures r == PanelFor(t, name)
  {
    var hboName, hbrName;
    if name == MEAN {
      hboName, hbrName := MEAN_HBO, MEAN_HBR;
    } else {
      hboName, hbrName := name + HBO, name + HBR;
    }
    var hbo := Column(t, hboName);
    if hbo.Failure? {
      return Failure(hbo.error);
    }
    var hbr := Column(t, hbrName);
    if hbr.Failure? {
      return Failure(hbr.error);
    }
    var events := Column(t, EVENT_COLUMN);
    if events.Failure? {
      return Failure(events.error);
    }
    var drawn := DrawEventMarkers(t, events.value, hbo.value);
    if drawn.Failure? {
      return Failure(drawn.error);
    }
    r := Success(Panel(hboName, hbrName, drawn.value, Legend([hboName, hbrName] + SCORE_PLACEHOLDERS, drawn.value)));
  }

  /** `for i, channel in enumerate(channels + ["Mean"])`, stopping at the first exception. */
  method DrawPanels(t: Table, names: seq<string>) returns (r: Result<seq<Panel>, Error>)
    ensures r == Panels(t, names)
  {
    ghost var f := PanelStep(t);
    var panels: seq<Panel> := [];
    var i := 0;
    while i < |names|
      invariant 0 <= i <= |names|
      invariant RunAll(names[..i], f) == Outcome(panels, None)
    {
      var p := DrawPanel(t, names[i]);
      RunAllNext(names, f, i, panels, p);
      if p.Failure? {
        return Failure(p.error);
      }
      panels := panels + [p.value];
      i := i + 1;
    }
    assert names[..i] == names;
    r := Success(panels);
  }

  /**
   * What `plot_save_fNIRS_HRF` draws for one table: the means, then every
   * panel.  With no channel there is one subplot, which `plt.subplots`
   * returns as a lone Axes that the first panel cannot index.
   */
  function Figure(t: Table): Result<seq<Panel>, Error> {
    match WithMeans(t)
    case Failure(e) => Failure(e)
    case Success(t2) =>
      if Channels(t.header) == [] then Failure(SingleAxes)
      else Panels(t2, Channels(t.header) + [MEAN])
  }

  /**
   * A table without any `_HbO` / `_HbR` column cannot be plotted: its means
   * are all-NaN columns, and then indexing the lone Axes raises.
   */
  lemma NoChannelFailsFigure(t: Table)
    requires Channels(t.header) == []
    ensures WithMeans(t).Success?
    ensures Figure(t) == Failure(SingleAxes)
  {
    assert Suffixed([], HBO) == [] && Suffixed([], HBR) == [];
    assert Absent(t, []) == [];
    var t1 := WithColumn(t, MEAN_HBO, RowMeans(t, []).value);
    assert Absent(t1, []) == [];
  }

  /** `plot_save_fNIRS_HRF` up to the rendering. */
  method PlotFigure(t: Table) returns (r: Result<seq<Panel>, Error>)
    ensures r == Figure(t)
  {
    var withMeans := WithMeans(t);
    if withMeans.Failure? {
      return Failure(withMeans.error);
    }
    var channels := Channels(t.header);
    if channels == [] {
      return Failure(SingleAxes);
    }
    r := DrawPanels(withMeans.value, channels + [MEAN]);
  }

  /**
   * A figure has at least one channel and `|channels| + 1` panels: one per
   * channel in sorted order, drawing its own two columns, then the `Mean`
   * panel drawing the two mean columns.
   */
  lemma FigureLayout(t: Table)
    requires Figure(t).Success?
    ensures |Channels(t.header)| >= 1
    ensures var chs := Channels(t.header); var ps := Figure(t).value;
      && |ps| == |chs| + 1
      && (forall i :: 0 <= i < |chs| ==> (ps[i].hbo, ps[i].hbr) == TraceColumns(chs[i]))
      && (forall i :: 0 <= i < |chs| && chs[i] != MEAN ==> ps[i].hbo == chs[i] + HBO && ps[i].hbr == chs[i] + HBR)
      && Last(ps).hbo == MEAN_HBO && Last(ps).hbr == MEAN_HBR
  {
    var chs := Channels(t.header);
    var names := chs + [MEAN];
    var t2 := WithMeans(t).value;
    assert Figure(t) == Panels(t2, names);
    PanelsExactly(t2, names);
    var ps := Figure(t).value;
    forall i | 0 <= i < |chs| ensures (ps[i].hbo, ps[i].hbr) == TraceColumns(chs[i]) {
      assert names[i] == chs[i];
      assert ps[i] == PanelFor(t2, names[i]).value;
    }
    assert names[|chs|] == MEAN;
    assert Last(ps) == PanelFor(t2, MEAN).value;
  }

  /**
   * A table whose means can be added and whose event column holds a label
   * outside the colour table makes the whole figure fail: an unknown label is
   * never skipped.
   */
  lemma UnknownEventFailsFigure(t: Table, k: nat)
    requires WithMeans(t).Success?
    requires EVENT_COLUMN in t.data && k < t.rows
    requires t.data[EVENT_COLUMN][k] != NaN && !Known(t.data[EVENT_COLUMN][k])
    ensures Figure(t).Failure?
  {
    var t2 := WithMeans(t).value;
    var names := Channels(t.header) + [MEAN];
    var events := t2.data[EVENT_COLUMN];
    assert events[k] == t.data[EVENT_COLUMN][k];
    var i := |names| - 1;
    assert names[i] == MEAN;
    if Column(t2, MEAN_HBO).Success? && Column(t2, MEAN_HBR).Success? {
      DrawnFailsAtFirstBadRow(t2, events, Column(t2, MEAN_HBO).value);
      assert Raises(t2, events[k]);
    }
    assert PanelFor(t2, names[i]).Failure?;
    PanelsExactly(t2, names);
  }

  // ---------------------------------------------------------------------------
  // Output path

  /** `os.path.basename(path).replace('.csv', '.png')` */
  function PngName(path: string): (r: string)
    ensures '/' !in r
  {
    Replace(Basename(path), ".csv", ".png")
  }

  /** A CSV file `<stem>.csv` in any directory is saved as `<stem>.png`. */
  lemma PngNameOf(dir: string, stem: string)
    requires '/' !in stem && !Contains(stem, ".csv")
    ensures PngName(Join(dir, stem + ".csv")) == stem + ".png"
  {
    BasenameOfJoin(dir, stem + ".csv");
    ReplaceAtEnd(stem, ".csv", ".png");
  }

  /**
   * The output path: the output directory, then the input path's components
   * from the fifth to the last directory, then the PNG name.  With fewer than
   * six components the sub-path is empty and `os.path.join()` raises.
   */
  function OutputPath(outDir: string, path: string): (r: Result<string, Error>)
    ensures r.Success? <==> |Split(path, '/')| >= 6
    ensures r.Failure? ==> r.error == NoSubPath
    ensures r.Success? ==> Basename(r.value) == PngName(path)
  {
    OutputUnder(outDir, Split(path, '/'), PngName(path))
  }

  /** `new_dir` from the components `comps` of the input path, then the file `name` inside it. */
  function OutputUnder(outDir: string, comps: seq<string>, name: string): (r: Result<string, Error>)
    ensures r.Success? <==> |comps| >= 6
    ensures r.Failure? ==> r.error == NoSubPath
    ensures r.Success? && '/' !in name ==> Basename(r.value) == name
  {
    if |comps| < 6 then Failure(NoSubPath)
    else
      var newDir := Join(outDir, JoinAll(comps[4..|comps| - 1]));
      if '/' in name then Success(Join(newDir, name))
      else
        BasenameOfJoin(newDir, name);
        Success(Join(newDir, name))
  }

  /** The two-step join of the output path is one join of all the parts. */
  lemma OutputPathIsOneJoin(outDir: string, path: string, comps: seq<string>, name: string)
    requires comps == Split(path, '/') && name == PngName(path) && |comps| >= 6
    ensures OutputPath(outDir, path) == Success(JoinAll([outDir] + comps[4..|comps| - 1] + [name]))
  {
    OutputPathUnder(outDir, path);
    OutputUnderIsOneJoin(outDir, comps, name);
  }

  lemma OutputPathUnder(outDir: string, path: string)
    ensures OutputPath(outDir, path) == OutputUnder(outDir, Split(path, '/'), PngName(path))
  {
  }

  lemma OutputUnderIsOneJoin(outDir: string, comps: seq<string>, name: string)
    ensures |comps| >= 6 ==>
      OutputUnder(outDir, comps, name).value == JoinAll([outDir] + comps[4..|comps| - 1] + [name])
  {
    if |comps| >= 6 {
      JoinUnderDir(outDir, comps[4..|comps| - 1], name);
    }
  }

  lemma JoinUnderDir(dir: string, sub: seq<string>, name: string)
    requires |sub| > 0
    ensures Join(Join(dir, JoinAll(sub)), name) == JoinAll([dir] + sub + [name])
  {
    var parts := sub + [name];
    assert parts[..|parts| - 1] == sub;
    assert JoinAll(parts) == Join(JoinAll(sub), name);
    JoinAllPrepend(dir, parts);
    assert [dir] + sub + [name] == [dir] + parts;
    JoinAssociative(dir, JoinAll(sub), name);
  }

  // ---------------------------------------------------------------------------
  // The run

  /** A saved figure: where it goes and what it shows. */
  datatype Plot = Plot(path: string, panels: seq<Panel>)

  /** One selected file: read it, derive its output path, draw it. */
  function PlotOne(c: Candidate, read: string -> Table, outDir: string): Result<Plot, Error> {
    match OutputPath(outDir, c.path)
    case Failure(e) => Failure(e)
    case Success(out) =>
      match Figure(read(c.path))
      case Failure(e) => Failure(e)
      case Success(ps) => Success(Plot(out, ps))
  }

  /** `PlotOne` as a function of the file, for the loop. */
  function PlotStep(read: string -> Table, outDir: string): Candidate -> Result<Plot, Error> {
    c => PlotOne(c, read, outDir)
  }

  /** The body of the loop of `parse_files`: read one file, derive its output path, draw its figure. */
  method PlotFile(c: Candidate, read: string -> Table, outDir: string) returns (r: Result<Plot, Error>)
    ensures r == PlotOne(c, read, outDir)
  {
    var df := read(c.path);
    var out := OutputPath(outDir, c.path);
    if out.Failure? {
      return Failure(out.error);
    }
    var panels := PlotFigure(df);
    if panels.Failure? {
      return Failure(panels.error);
    }
    r := Success(Plot(out.value, panels.value));
  }

  /**
   * `parse_files` of the per-file plotter: the selected files in order, each
   * saved as a figure, until the first exception ends the run.  The figures
   * written are then those of a prefix of the selection (`Batch.RunAllPrefix`).
   */
  method ParseFiles(walk: seq<WalkStep>, listing: string -> seq<string>, ex: seq<Exclusion>,
                    read: string -> Table, outDir: string) returns (o: Outcome<Plot, Error>)
    ensures o == RunAll(Selected(walk, listing, ex), PlotStep(read, outDir))
  {
    var cands := SelectFiles(walk, listing, ex);
    o := PlotAll(cands, read, outDir);
  }

  /** The loop of `parse_files` over the selected files. */
  method PlotAll(cands: seq<Candidate>, read: string -> Table, outDir: string) returns (o: Outcome<Plot, Error>)
    ensures o == RunAll(cands, PlotStep(read, outDir))
  {
    var written: seq<Plot> := [];
    for i := 0 to |cands|
      invariant RunAll(cands[..i], PlotStep(read, outDir)) == Outcome(written, None)
    {
      var plot := PlotFile(cands[i], read, outDir);
      RunAllNext(cands, PlotStep(read, outDir), i, written, plot);
      if plot.Failure? {
        return Outcome(written, Some(plot.error));
      }
      written := written + [plot.value];
    }
    assert cands[..|cands|] == cands;
    o := Outcome(written, None);
  }
}
