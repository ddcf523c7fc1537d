/**
 * The event overlay both HRF plotters draw on each panel: a dashed marker at
 * every row whose `event_type` is not null, coloured from a closed table of
 * seven labels, with a legend entry only at the first row of each label; a
 * score annotation at every `intermediate_selection` row; and the legend
 * de-duplicated by label.
 */
module EventMarkers {
  import opened Wrappers
  import opened Strings
  import opened Frames

  const INTERMEDIATE_SELECTION: string := "intermediate_selection"
  const AROUSAL: string := "arousal_score"
  const VALENCE: string := "valence_score"

  /** The colour of each event label; looking up any other label raises KeyError. */
  const EVENT_COLOURS: map<string, string> := map[
    "start_affective_task" := "#1f78b4",
    "show_blank_screen" := "#a6cee3",
    "show_cross_screen" := "#33a02c",
    "show_image" := "#e31a1c",
    "show_rating_screen" := "#ff7f00",
    "intermediate_selection" := "#6a3d9a",
    "final_submission" := "#b15928"
  ]

  /** A vertical marker at row `at` (time `at * 0.1` s); `inLegend` when it carries the label `Event: <event>`. */
  datatype Marker = Marker(at: nat, event: string, colour: string, inLegend: bool)

  /** The annotation text: `A(<arousal>)` or `V(<valence>)`. */
  datatype Score = Arousal(value: Cell) | Valence(value: Cell)

  /** A score annotation at row `at`, placed at height `y` of the panel's HbO trace. */
  datatype Annotation = Annotation(at: nat, y: Cell, score: Score)

  datatype Drawing = Drawing(markers: seq<Marker>, notes: seq<Annotation>)

  /** An event cell whose colour can be looked up. */
  predicate Known(c: Cell) {
    c.Text? && c.s in EVENT_COLOURS
  }

  /** The labels of the text events among `events` (the `added_events` set of the loop). */
  function Seen(events: seq<Cell>): (r: set<string>)
    ensures forall e :: e in r <==> Text(e) in events
    decreases |events|
  {
    if events == [] then {}
    else
      var init := events[..|events| - 1];
      assert events == init + [Last(events)];
      Seen(init) + (if Last(events).Text? then {Last(events).s} else {})
  }

  /** The score shown at row `i`: arousal when it is not NaN, valence otherwise. */
  function ScoreAt(t: Table, i: nat): Score
    requires AROUSAL in t.data && VALENCE in t.data && i < t.rows
  {
    if t.data[AROUSAL][i] != NaN then Arousal(t.data[AROUSAL][i]) else Valence(t.data[VALENCE][i])
  }

  /** The annotation of an `intermediate_selection` row; both score columns are looked up first. */
  function Annotate(t: Table, i: nat, y: Cell): Result<Annotation, Error>
    requires i < t.rows
  {
    match Column(t, AROUSAL)
    case Failure(e) => Failure(e)
    case Success(_) =>
      match Column(t, VALENCE)
      case Failure(e) => Failure(e)
      case Success(_) => Success(Annotation(i, y, ScoreAt(t, i)))
  }

  /** One turn of the loop, at row `i`, given the labels seen before it. */
  function DrawRow(t: Table, i: nat, event: Cell, y: Cell, seen: set<string>, d: Drawing): Result<Drawing, Error>
    requires i < t.rows
  {
    if event == NaN then Success(d)
    else if !Known(event) then Failure(UnknownEvent(event))
    else
      var m := Marker(i, event.s, EVENT_COLOURS[event.s], event.s !in seen);
      if event.s != INTERMEDIATE_SELECTION then Success(Drawing(d.markers + [m], d.notes))
      else
        match Annotate(t, i, y)
        case Failure(e) => Failure(e)
        case Success(a) => Success(Drawing(d.markers + [m], d.notes + [a]))
  }

  /** What the loop draws over the rows of `events`, or the exception that stops it. */
  function Drawn(t: Table, events: seq<Cell>, y: seq<Cell>): Result<Drawing, Error>
    requires |events| <= t.rows && |events| <= |y|
    decreases |events|
  {
    if events == [] then Success(Drawing([], []))
    else
      var i := |events| - 1;
      match Drawn(t, events[..i], y)
      case Failure(e) => Failure(e)
      case Success(d) => DrawRow(t, i, events[i], y[i], Seen(events[..i]), d)
  }

  /** Once a row raises, the rows after it change nothing: the exception ends the loop. */
  lemma {:induction false} DrawnStopsAtFailure(t: Table, events: seq<Cell>, y: seq<Cell>, k: nat)
    requires k <= |events| <= t.rows && |events| <= |y|
    requires Drawn(t, events[..k], y).Failure?
    ensures Drawn(t, events, y) == Drawn(t, events[..k], y)
    decreases |events| - k
  {
    if k < |events| {
      var init := events[..|events| - 1];
      assert init[..k] == events[..k];
      DrawnStopsAtFailure(t, init, y, k);
    } else {
      assert events[..k] == events;
    }
  }

  /** The loop's state after one more row, in terms of the state before it. */
  lemma DrawnNext(t: Table, events: seq<Cell>, y: seq<Cell>, k: nat)
    requires k < |events| <= t.rows && |events| <= |y|
    ensures Drawn(t, events[..k + 1], y) ==
      match Drawn(t, events[..k], y)
      case Failure(e) => Failure(e)
      case Success(d) => DrawRow(t, k, events[k], y[k], Seen(events[..k]), d)
    ensures Seen(events[..k + 1]) == Seen(events[..k]) + (if events[k].Text? then {events[k].s} else {})
  {
    var next := events[..k + 1];
    assert next[..k] == events[..k];
    assert next[k] == events[k];
  }

  /**
   * The marker loop of `plot_save_fNIRS_HRF`: walks the event column once,
   * keeping the set of labels already given a legend entry.
   */
  method DrawEventMarkers(t: Table, events: seq<Cell>, y: seq<Cell>) returns (r: Result<Drawing, Error>)
    requires |events| == t.rows && |y| == t.rows
    ensures r == Drawn(t, events, y)
  {
    var drawing := Drawing([], []);
    var added: set<string> := {};
    var idx := 0;
    while idx < |events|
      invariant 0 <= idx <= |events|
      invariant Drawn(t, events[..idx], y) == Success(drawing)
      invariant added == Seen(events[..idx])
    {
      var event := events[idx];
      DrawnNext(t, events, y, idx);
      var next := DrawEvent(t, idx, event, y[idx], added, drawing);
      if next.Failure? {
        DrawnStopsAtFailure(t, events, y, idx + 1);
        return next;
      }
      drawing := next.value;
      if event.Text? {
        added := added + {event.s};
      }
      idx := idx + 1;
    }
    assert events[..idx] == events;
    r := Success(drawing);
  }

  /** The body of the marker loop at row `idx`, given the labels `added` so far. */
  method DrawEvent(t: Table, idx: nat, event: Cell, y: Cell, added: set<string>, d: Drawing)
    returns (r: Result<Drawing, Error>)
    requires idx < t.rows
    ensures r == DrawRow(t, idx, event, y, added, d)
  {
    if event == NaN {
      return Success(d);
    }
    if !(event.Text? && event.s in EVENT_COLOURS) {
      return Failure(UnknownEvent(event));
    }
    var tag := event.s;
    var marker;
    if tag !in added {
      marker := Marker(idx, tag, EVENT_COLOURS[tag], true);
    } else {
      marker := Marker(idx, tag, EVENT_COLOURS[tag], false);
    }
    if tag != INTERMEDIATE_SELECTION {
      return Success(Drawing(d.markers + [marker], d.notes));
    }
    var arousal := Column(t, AROUSAL);
    if arousal.Failure? {
      return Failure(arousal.error);
    }
    var valence := Column(t, VALENCE);
    if valence.Failure? {
      return Failure(valence.error);
    }
    var score := if arousal.value[idx] != NaN then Arousal(arousal.value[idx]) else Valence(valence.value[idx]);
    r := Success(Drawing(d.markers + [marker], d.notes + [Annotation(idx, y, score)]));
  }

  // ---------------------------------------------------------------------------
  // What the loop promises, stated without reference to the loop.

  /** Every non-null row gets exactly one marker, in row order, and no other row gets one. */
  ghost predicate OneMarkerPerEvent(events: seq<Cell>, markers: seq<Marker>) {
    && (forall k :: 0 <= k < |markers| ==> markers[k].at < |events| && events[markers[k].at] != NaN)
    && (forall k, l :: 0 <= k < l < |markers| ==> markers[k].at < markers[l].at)
    && (forall i :: 0 <= i < |events| && events[i] != NaN ==> exists k :: 0 <= k < |markers| && markers[k].at == i)
  }

  /**
   * Each marker carries its row's label and that label's colour, and has a
   * legend entry exactly when the label does not occur in an earlier row.
   */
  ghost predicate MarkersLabelled(events: seq<Cell>, markers: seq<Marker>) {
    forall k :: 0 <= k < |markers| ==>
      && markers[k].at < |events|
      && events[markers[k].at] == Text(markers[k].event)
      && markers[k].event in EVENT_COLOURS
      && markers[k].colour == EVENT_COLOURS[markers[k].event]
      && (markers[k].inLegend <==> Text(markers[k].event) !in events[..markers[k].at])
  }

  /**
   * One annotation per `intermediate_selection` row, in row order, showing
   * the arousal score when present and the valence score otherwise.
   */
  ghost predicate NotesFollowRule(t: Table, events: seq<Cell>, y: seq<Cell>, notes: seq<Annotation>)
    requires |events| <= t.rows && |events| <= |y|
  {
    && (forall k, l :: 0 <= k < l < |notes| ==> notes[k].at < notes[l].at)
    && (forall k :: 0 <= k < |notes| ==>
          && notes[k].at < |events|
          && events[notes[k].at] == Text(INTERMEDIATE_SELECTION)
          && AROUSAL in t.data && VALENCE in t.data
          && notes[k] == Annotation(notes[k].at, y[notes[k].at], ScoreAt(t, notes[k].at)))
    && (forall i :: 0 <= i < |events| && events[i] == Text(INTERMEDIATE_SELECTION) ==>
          exists k :: 0 <= k < |notes| && notes[k].at == i)
  }

  /** The rows whose event makes the loop raise, and what it raises there. */
  predicate Raises(t: Table, c: Cell) {
    c != NaN && (!Known(c) || (c == Text(INTERMEDIATE_SELECTION) && (AROUSAL !in t.header || VALENCE !in t.header)))
  }

  function RaisedAt(t: Table, c: Cell): Error {
    if !Known(c) then UnknownEvent(c)
    else if AROUSAL !in t.header then MissingColumns([AROUSAL])
    else MissingColumns([VALENCE])
  }

  /**
   * The loop raises exactly when some row raises, and then it raises what the
   * first such row raises: an unknown label is a KeyError, never skipped.
   */
  lemma {:induction false} DrawnFailsAtFirstBadRow(t: Table, events: seq<Cell>, y: seq<Cell>)
    requires |events| <= t.rows && |events| <= |y|
    ensures Drawn(t, events, y).Success? <==> forall i :: 0 <= i < |events| ==> !Raises(t, events[i])
    ensures Drawn(t, events, y).Failure? ==>
      exists k :: 0 <= k < |events| && Raises(t, events[k]) &&
        (forall j :: 0 <= j < k ==> !Raises(t, events[j])) &&
        Drawn(t, events, y).error == RaisedAt(t, events[k])
    decreases |events|
  {
    if events != [] {
      var n := |events| - 1;
      var init := events[..n];
      DrawnFailsAtFirstBadRow(t, init, y);
      assert forall i :: 0 <= i < n ==> init[i] == events[i];
      if Drawn(t, init, y).Failure? {
        var k :| 0 <= k < n && Raises(t, init[k]) &&
          (forall j :: 0 <= j < k ==> !Raises(t, init[j])) &&
          Drawn(t, init, y).error == RaisedAt(t, init[k]);
        assert Raises(t, events[k]);
      }
    }
  }

  /** On success the drawing satisfies the three predicates above. */
  lemma {:induction false} DrawnShape(t: Table, events: seq<Cell>, y: seq<Cell>)
    requires |events| <= t.rows && |events| <= |y|
    requires Drawn(t, events, y).Success?
    ensures OneMarkerPerEvent(events, Drawn(t, events, y).value.markers)
    ensures MarkersLabelled(events, Drawn(t, events, y).value.markers)
    ensures NotesFollowRule(t, events, y, Drawn(t, events, y).value.notes)
    decreases |events|
  {
    if events != [] {
      var n := |events| - 1;
      var init := events[..n];
      DrawnShape(t, init, y);
      var d0 := Drawn(t, init, y).value;
      var d := Drawn(t, events, y).value;
      ExtendPositions(events, d0.markers, d.markers);
      ExtendLabels(events, d0.markers, d.markers);
      ExtendNotes(t, events, y, d0.notes, d.notes);
    }
  }

  /** The marker positions after one step of `DrawnShape`. */
  lemma ExtendPositions(events: seq<Cell>, before: seq<Marker>, after: seq<Marker>)
    requires |events| > 0
    requires OneMarkerPerEvent(events[..|events| - 1], before)
    requires Last(events) == NaN ==> after == before
    requires Last(events) != NaN ==>
      |after| == |before| + 1 && after[..|before|] == before && after[|before|].at == |events| - 1
    ensures OneMarkerPerEvent(events, after)
  {
    var n := |events| - 1;
    var init := events[..n];
    if Last(events) != NaN {
      ExtendPositionsMarked(events, before, after);
    } else {
      forall i | 0 <= i < |events| && events[i] != NaN
        ensures exists k :: 0 <= k < |after| && after[k].at == i
      {
        assert i < n && init[i] != NaN;
      }
      forall k | 0 <= k < |after| ensures after[k].at < |events| && events[after[k].at] != NaN {
        assert init[after[k].at] == events[after[k].at];
      }
    }
  }

  /** `ExtendPositions` when the last row is drawn. */
  lemma ExtendPositionsMarked(events: seq<Cell>, before: seq<Marker>, after: seq<Marker>)
    requires |events| > 0 && Last(events) != NaN
    requires OneMarkerPerEvent(events[..|events| - 1], before)
    requires |after| == |before| + 1 && after[..|before|] == before && after[|before|].at == |events| - 1
    ensures OneMarkerPerEvent(events, after)
  {
    MarkedRows(events, before, after);
    MarkedOrdered(events, before, after);
    MarkedCovered(events, before, after);
  }

  lemma MarkedRows(events: seq<Cell>, before: seq<Marker>, after: seq<Marker>)
    requires |events| > 0 && Last(events) != NaN
    requires OneMarkerPerEvent(events[..|events| - 1], before)
    requires |after| == |before| + 1 && after[..|before|] == before && after[|before|].at == |events| - 1
    ensures forall k :: 0 <= k < |after| ==> after[k].at < |events| && events[after[k].at] != NaN
  {
    var init := events[..|events| - 1];
    forall k | 0 <= k < |after| ensures after[k].at < |events| && events[after[k].at] != NaN {
      if k < |before| {
        assert after[k] == after[..|before|][k] == before[k];
        assert init[after[k].at] == events[after[k].at];
      }
    }
  }

  lemma MarkedOrdered(events: seq<Cell>, before: seq<Marker>, after: seq<Marker>)
    requires |events| > 0 && Last(events) != NaN
    requires OneMarkerPerEvent(events[..|events| - 1], before)
    requires |after| == |before| + 1 && after[..|before|] == before && after[|before|].at == |events| - 1
    ensures forall k, l :: 0 <= k < l < |after| ==> after[k].at < after[l].at
  {
    forall k, l | 0 <= k < l < |after| ensures after[k].at < after[l].at {
      assert after[k] == after[..|before|][k] == before[k];
      if l < |before| {
        assert after[l] == after[..|before|][l] == before[l];
      }
    }
  }

  lemma MarkedCovered(events: seq<Cell>, before: seq<Marker>, after: seq<Marker>)
    requires |events| > 0 && Last(events) != NaN
    requires OneMarkerPerEvent(events[..|events| - 1], before)
    requires |after| == |before| + 1 && after[..|before|] == before && after[|before|].at == |events| - 1
    ensures forall i :: 0 <= i < |events| && events[i] != NaN ==> exists k :: 0 <= k < |after| && after[k].at == i
  {
    var n := |events| - 1;
    var init := events[..n];
    forall i | 0 <= i < |events| && events[i] != NaN
      ensures exists k :: 0 <= k < |after| && after[k].at == i
    {
      if i < n {
        assert init[i] != NaN;
        var k :| 0 <= k < |before| && before[k].at == i;
        assert after[k] == after[..|before|][k];
      } else {
        assert after[|before|].at == i;
      }
    }
  }

  /** The marker labels after one step of `DrawnShape`. */
  lemma ExtendLabels(events: seq<Cell>, before: seq<Marker>, after: seq<Marker>)
    requires |events| > 0
    requires MarkersLabelled(events[..|events| - 1], before)
    requires Last(events) == NaN ==> after == before
    requires Last(events) != NaN ==>
      && Known(Last(events))
      && after == before + [Marker(|events| - 1, Last(events).s, EVENT_COLOURS[Last(events).s],
                                   Last(events).s !in Seen(events[..|events| - 1]))]
    ensures MarkersLabelled(events, after)
  {
    var n := |events| - 1;
    var init := events[..n];
    forall k | 0 <= k < |before|
      ensures before[k].at < |events| && events[before[k].at] == Text(before[k].event)
      ensures events[..before[k].at] == init[..before[k].at]
    {
      assert init[before[k].at] == events[before[k].at];
    }
    if Last(events) != NaN {
      assert events[..n] == init;
      forall k | 0 <= k < |after|
        ensures after[k] == if k < |before| then before[k] else Last(after)
      {
      }
    }
  }

  /** The annotation half of one step of `DrawnShape`. */
  lemma ExtendNotes(t: Table, events: seq<Cell>, y: seq<Cell>, before: seq<Annotation>, after: seq<Annotation>)
    requires 0 < |events| <= t.rows && |events| <= |y|
    requires NotesFollowRule(t, events[..|events| - 1], y, before)
    requires Last(events) != Text(INTERMEDIATE_SELECTION) ==> after == before
    requires Last(events) == Text(INTERMEDIATE_SELECTION) ==>
      && AROUSAL in t.data && VALENCE in t.data
      && after == before + [Annotation(|events| - 1, y[|events| - 1], ScoreAt(t, |events| - 1))]
    ensures NotesFollowRule(t, events, y, after)
  {
    var n := |events| - 1;
    var init := events[..n];
    assert forall i :: 0 <= i < n ==> init[i] == events[i];
    if Last(events) == Text(INTERMEDIATE_SELECTION) {
      assert after[|before|].at == n;
      forall i | 0 <= i < |events| && events[i] == Text(INTERMEDIATE_SELECTION)
        ensures exists k :: 0 <= k < |after| && after[k].at == i
      {
        if i < n {
          var k :| 0 <= k < |before| && before[k].at == i;
          assert after[k].at == i;
        }
      }
    }
  }

  /** The labels that get a legend entry. */
  function LegendEvents(markers: seq<Marker>): (r: set<string>)
    ensures forall e :: e in r <==> exists k :: 0 <= k < |markers| && markers[k].inLegend && markers[k].event == e
  {
    set k | 0 <= k < |markers| && markers[k].inLegend :: markers[k].event
  }

  /** Labels are placed so that exactly the distinct non-null labels reach the legend. */
  lemma LegendCoversSeen(events: seq<Cell>, ms: seq<Marker>)
    requires OneMarkerPerEvent(events, ms) && MarkersLabelled(events, ms)
    ensures LegendEvents(ms) == Seen(events)
  {
    forall e | e in LegendEvents(ms) ensures e in Seen(events) {
      var k :| 0 <= k < |ms| && ms[k].inLegend && ms[k].event == e;
      assert events[ms[k].at] == Text(e);
    }
    forall e | e in Seen(events) ensures e in LegendEvents(ms) {
      var i := FirstIndex(events, Text(e));
      var k :| 0 <= k < |ms| && ms[k].at == i;
      assert ms[k].event == e && ms[k].inLegend;
    }
  }

  /** Labels are placed so that no label reaches the legend twice. */
  lemma LegendDistinct(events: seq<Cell>, ms: seq<Marker>)
    requires OneMarkerPerEvent(events, ms) && MarkersLabelled(events, ms)
    ensures forall k, l :: 0 <= k < l < |ms| && ms[k].inLegend && ms[l].inLegend ==> ms[k].event != ms[l].event
  {
    forall k, l | 0 <= k < l < |ms| && ms[k].inLegend && ms[l].inLegend
      ensures ms[k].event != ms[l].event
    {
      assert events[..ms[l].at][ms[k].at] == Text(ms[k].event);
    }
  }

  /**
   * Exactly the distinct non-null labels get a legend entry, and no label
   * gets two.
   */
  lemma LegendHasEachEventOnce(t: Table, events: seq<Cell>, y: seq<Cell>)
    requires |events| <= t.rows && |events| <= |y|
    requires Drawn(t, events, y).Success?
    ensures LegendEvents(Drawn(t, events, y).value.markers) == Seen(events)
    ensures var ms := Drawn(t, events, y).value.markers;
      forall k, l :: 0 <= k < l < |ms| && ms[k].inLegend && ms[l].inLegend ==> ms[k].event != ms[l].event
  {
    DrawnShape(t, events, y);
    LegendCoversSeen(events, Drawn(t, events, y).value.markers);
    LegendDistinct(events, Drawn(t, events, y).value.markers);
  }

  /** The first row holding `c`. */
  function FirstIndex(s: seq<Cell>, c: Cell): (i: nat)
    requires c in s
    ensures i < |s| && s[i] == c && c !in s[..i]
    decreases |s|
  {
    if s[0] == c then 0
    else
      assert c in s[1..];
      var j := FirstIndex(s[1..], c);
      assert s[..j + 1] == [s[0]] + s[1..][..j];
      1 + j
  }

  /** `dict(zip(labels, handles)).keys()`: each label once, at its first position. */
  function Dedup(labels: seq<string>): (r: seq<string>)
    ensures forall i, j :: 0 <= i < j < |r| ==> r[i] != r[j]
    ensures Elems(r) == Elems(labels)
    decreases |labels|
  {
    if labels == [] then []
    else
      var init := labels[..|labels| - 1];
      var x := Last(labels);
      assert labels == init + [x];
      assert Elems(labels) == Elems(init) + {x};
      var d := Dedup(init);
      if x in d then
        assert x in Elems(d);
        d
      else
        assert Elems(d + [x]) == Elems(d) + {x};
        d + [x]
  }

  /** A legend whose labels are already distinct is left as it is. */
  lemma {:induction false} DedupDistinct(labels: seq<string>)
    requires forall i, j :: 0 <= i < j < |labels| ==> labels[i] != labels[j]
    ensures Dedup(labels) == labels
    decreases |labels|
  {
    if labels != [] {
      var init := labels[..|labels| - 1];
      var x := Last(labels);
      assert labels == init + [x];
      assert forall i :: 0 <= i < |init| ==> init[i] == labels[i];
      DedupDistinct(init);
      assert x !in init by {
        forall i | 0 <= i < |init| ensures init[i] != x {
          assert init[i] == labels[i];
        }
      }
      assert x !in Dedup(init);
      assert Dedup(labels) == Dedup(init) + [x];
    }
  }

  /** The legend labels of the event markers, in row order. */
  function EventLegend(markers: seq<Marker>): (r: seq<string>)
    ensures forall x :: x in r <==> exists e :: e in LegendEvents(markers) && x == "Event: " + e
    decreases |markers|
  {
    if markers == [] then []
    else
      var init := markers[..|markers| - 1];
      var m := Last(markers);
      assert markers == init + [m];
      EventLegend(init) + (if m.inLegend then ["Event: " + m.event] else [])
  }

  /** A label `get_legend_handles_labels` skips: one starting with `_`. */
  predicate Hidden(lbl: string) {
    |lbl| > 0 && lbl[0] == '_'
  }

  /** The labels that are not hidden, in order. */
  function Shown(labels: seq<string>): (r: seq<string>)
    ensures |r| <= |labels|
    ensures forall x :: x in r <==> x in labels && !Hidden(x)
    decreases |labels|
  {
    if labels == [] then []
    else
      var init := labels[..|labels| - 1];
      assert labels == init + [Last(labels)];
      Shown(init) + (if Hidden(Last(labels)) then [] else [Last(labels)])
  }

  /** Labels none of which is hidden are all shown, in order. */
  lemma {:induction false} ShownAll(labels: seq<string>)
    requires forall k :: 0 <= k < |labels| ==> !Hidden(labels[k])
    ensures Shown(labels) == labels
    decreases |labels|
  {
    if labels != [] {
      var init := labels[..|labels| - 1];
      assert labels == init + [Last(labels)];
      ShownAll(init);
    }
  }

  /**
   * The legend of a panel whose lines labelled `plotted` were drawn before
   * the markers: `dict(zip(labels, handles)).keys()` over the labels
   * `get_legend_handles_labels` returns.
   */
  function Legend(plotted: seq<string>, d: Drawing): seq<string> {
    Dedup(Shown(plotted + EventLegend(d.markers)))
  }

  /**
   * The legend shows each plotted label that does not start with `_` and one
   * `Event:` entry per distinct event label, each exactly once.
   */
  lemma PanelLegendEntries(t: Table, events: seq<Cell>, y: seq<Cell>, plotted: seq<string>)
    requires |events| <= t.rows && |events| <= |y|
    requires Drawn(t, events, y).Success?
    ensures var legend := Legend(plotted, Drawn(t, events, y).value);
      && (forall i, j :: 0 <= i < j < |legend| ==> legend[i] != legend[j])
      && Elems(legend) == (set c | c in plotted && !Hidden(c)) + (set e | e in Seen(events) :: "Event: " + e)
  {
    var d := Drawn(t, events, y).value;
    LegendHasEachEventOnce(t, events, y);
    LegendOfMarkers(Seen(events), d, plotted);
  }

  /** `PanelLegendEntries` for a drawing whose legend labels are `seen`. */
  lemma LegendOfMarkers(seen: set<string>, d: Drawing, plotted: seq<string>)
    requires LegendEvents(d.markers) == seen
    ensures var legend := Legend(plotted, d);
      && (forall i, j :: 0 <= i < j < |legend| ==> legend[i] != legend[j])
      && Elems(legend) == (set c | c in plotted && !Hidden(c)) + (set e | e in seen :: "Event: " + e)
  {
    var entries := EventLegend(d.markers);
    EventLegendElems(d.markers);
    var shown := Shown(plotted + entries);
    forall x ensures x in shown <==> (x in plotted && !Hidden(x)) || x in entries {
      if x in entries {
        var e :| e in LegendEvents(d.markers) && x == "Event: " + e;
        assert x[0] == 'E';
      }
    }
    assert Elems(shown) == (set c | c in plotted && !Hidden(c)) + Elems(entries);
  }

  /** The `Event:` entries are those of the labels that reach the legend. */
  lemma EventLegendElems(markers: seq<Marker>)
    ensures Elems(EventLegend(markers)) == (set e | e in LegendEvents(markers) :: "Event: " + e)
  {
    var lhs, rhs := Elems(EventLegend(markers)), (set e | e in LegendEvents(markers) :: "Event: " + e);
    forall x | x in lhs ensures x in rhs {
      var e :| e in LegendEvents(markers) && x == "Event: " + e;
    }
  }
}
