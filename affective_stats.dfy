/**
 * The affective-task rating statistics: every `exp_` session directory
 * (except two excluded sessions) that has a `baseline_tasks/affective`
 * folder contributes the `final_submission` rows of its `individual_*.csv`
 * files, appended in visit order to one master table; the master table is
 * then summarised by the mean arousal and mean valence of each image.
 */
module AffectiveStats {
  import opened Wrappers
  import opened Strings
  import opened Paths
  import opened Frames

  const SESSION_PREFIX: string := "exp_"
  const EXCLUDED_SESSIONS: seq<string> := ["exp_2022_04_22_09", "exp_2022_04_01_13"]
  const FILE_PREFIX: string := "individual_"
  const FILE_SUFFIX: string := ".csv"
  const EVENT_COLUMN: string := "event_type"
  const FINAL_SUBMISSION: string := "final_submission"
  const IMAGE: string := "image_path"
  const AROUSAL: string := "arousal_score"
  const VALENCE: string := "valence_score"

  // ---------------------------------------------------------------------------
  // Which files are read

  /** A root entry that is visited. */
  predicate Visited(name: string) {
    StartsWith(name, SESSION_PREFIX) && name !in EXCLUDED_SESSIONS
  }

  /** `os.path.join(root_dir, dir_name, 'baseline_tasks', 'affective')` */
  function AffectiveDir(root: string, name: string): string {
    JoinAll([root, name, "baseline_tasks", "affective"])
  }

  /** A file that is read. */
  predicate IsRatingFile(name: string) {
    StartsWith(name, FILE_PREFIX) && EndsWith(name, FILE_SUFFIX)
  }

  /** The rating files of one affective folder, as paths, in listing order. */
  function DirFiles(dir: string, files: seq<string>): (r: seq<string>)
    ensures forall p :: p in r <==> exists f :: f in files && IsRatingFile(f) && p == Join(dir, f)
    decreases |files|
  {
    if files == [] then []
    else
      var init := files[..|files| - 1];
      assert files == init + [Last(files)];
      DirFiles(dir, init) + (if IsRatingFile(Last(files)) then [Join(dir, Last(files))] else [])
  }

  /**
   * Every file read, in visit order.  `folders` maps each existing directory
   * to its listing: a visited session without an affective folder is passed
   * over.
   */
  function RatingFiles(root: string, entries: seq<string>, folders: map<string, seq<string>>): (r: seq<string>)
    ensures forall p :: p in r <==>
      exists e :: e in entries && Visited(e) && AffectiveDir(root, e) in folders &&
        p in DirFiles(AffectiveDir(root, e), folders[AffectiveDir(root, e)])
    decreases |entries|
  {
    if entries == [] then []
    else
      var init := entries[..|entries| - 1];
      var e := Last(entries);
      assert entries == init + [e];
      RatingFiles(root, init, folders)
        + (if Visited(e) && AffectiveDir(root, e) in folders
           then DirFiles(AffectiveDir(root, e), folders[AffectiveDir(root, e)]) else [])
  }

  // ---------------------------------------------------------------------------
  // What each file contributes

  /** One kept row: the image and its two scores. */
  datatype Rating = Rating(image: Cell, arousal: Cell, valence: Cell)

  /** The `final_submission` rows among the first `n` rows, projected to the three rating columns. */
  function KeptRows(t: Table, n: nat): (r: seq<Rating>)
    requires n <= t.rows
    requires EVENT_COLUMN in t.data && IMAGE in t.data && AROUSAL in t.data && VALENCE in t.data
    ensures |r| <= n
    ensures forall x :: x in r <==>
      exists i :: (0 <= i < n && t.data[EVENT_COLUMN][i] == Text(FINAL_SUBMISSION) &&
                   x == Rating(t.data[IMAGE][i], t.data[AROUSAL][i], t.data[VALENCE][i]))
  {
    if n == 0 then []
    else
      var i := n - 1;
      KeptRows(t, i)
        + (if t.data[EVENT_COLUMN][i] == Text(FINAL_SUBMISSION)
           then [Rating(t.data[IMAGE][i], t.data[AROUSAL][i], t.data[VALENCE][i])] else [])
  }

  /**
   * `df[df['event_type'] == 'final_submission'][['image_path', 'arousal_score', 'valence_score']]`:
   * KeyError without the event column or any of the three projected columns.
   */
  function Kept(t: Table): (r: Result<seq<Rating>, Error>)
    ensures r.Success? <==> EVENT_COLUMN in t.header && IMAGE in t.header && AROUSAL in t.header && VALENCE in t.header
    ensures r.Success? ==> |r.value| <= t.rows
  {
    if EVENT_COLUMN !in t.data then Failure(MissingColumns([EVENT_COLUMN]))
    else
      var missing := Absent(t, [IMAGE, AROUSAL, VALENCE]);
      if missing != [] then
        assert missing[0] in missing;
        Failure(MissingColumns(missing))
      else
        assert IMAGE !in missing && AROUSAL !in missing && VALENCE !in missing;
        Success(KeptRows(t, t.rows))
  }

  // ---------------------------------------------------------------------------
  // The master table

  /** `master_df`: no columns until the first concatenation, then rows of ratings. */
  datatype Master = NoColumns | Rows(ratings: seq<Rating>)

  function RatingsOf(m: Master): seq<Rating> {
    if m.Rows? then m.ratings else []
  }

  /** `pd.concat([master_df, filtered_df], ignore_index=True)` */
  function Append(m: Master, rows: seq<Rating>): (r: Master)
    ensures r.Rows? && r.ratings == RatingsOf(m) + rows
  {
    match m
    case NoColumns => Rows(rows)
    case Rows(rs) => Rows(rs + rows)
  }

  /** One file: read it, filter it, append its rows; an earlier exception stays. */
  function Step(m: Result<Master, Error>, path: string, read: string -> Table): Result<Master, Error> {
    match m
    case Failure(e) => Failure(e)
    case Success(master) =>
      match Kept(read(path))
      case Failure(e) => Failure(e)
      case Success(rows) => Success(Append(master, rows))
  }

  /** The master table after reading `paths` in order, starting from `start`. */
  function Fold(start: Result<Master, Error>, paths: seq<string>, read: string -> Table): Result<Master, Error>
    decreases |paths|
  {
    if paths == [] then start
    else Step(Fold(start, paths[..|paths| - 1], read), Last(paths), read)
  }

  /** Reading `a` then `b` is reading `a + b`. */
  lemma {:induction false} FoldAppend(start: Result<Master, Error>, a: seq<string>, b: seq<string>, read: string -> Table)
    ensures Fold(start, a + b, read) == Fold(Fold(start, a, read), b, read)
    decreases |b|
  {
    if b == [] {
      assert a + b == a;
    } else {
      var b0 := b[..|b| - 1];
      assert (a + b)[..|a + b| - 1] == a + b0;
      FoldAppend(start, a, b0, read);
    }
  }

  /** An exception ends the reading: nothing after it is read. */
  lemma {:induction false} FoldFailure(e: Error, paths: seq<string>, read: string -> Table)
    ensures Fold(Failure(e), paths, read) == Failure(e)
    decreases |paths|
  {
    if paths != [] {
      FoldFailure(e, paths[..|paths| - 1], read);
    }
  }

  /** The number of rows the files in `paths` contribute. */
  function KeptTotal(paths: seq<string>, read: string -> Table): nat
    decreases |paths|
  {
    if paths == [] then 0
    else
      var k := Kept(read(Last(paths)));
      KeptTotal(paths[..|paths| - 1], read) + (if k.Success? then |k.value| else 0)
  }

  /**
   * Reading from an empty master: the result has columns exactly when some
   * file was read, holds as many rows as the files contributed, and each
   * file's rows follow those of the files before it.
   */
  lemma {:induction false} MasterIsConcatenation(paths: seq<string>, read: string -> Table)
    requires Fold(Success(NoColumns), paths, read).Success?
    ensures var m := Fold(Success(NoColumns), paths, read).value;
      && (m.NoColumns? <==> paths == [])
      && |RatingsOf(m)| == KeptTotal(paths, read)
      && (paths != [] ==>
            Kept(read(Last(paths))).Success? &&
            RatingsOf(m) == RatingsOf(Fold(Success(NoColumns), paths[..|paths| - 1], read).value) + Kept(read(Last(paths))).value)
    decreases |paths|
  {
    if paths != [] {
      var init := paths[..|paths| - 1];
      assert Fold(Success(NoColumns), init, read).Success?;
      MasterIsConcatenation(init, read);
    }
  }

  /** Rows already in the master table are never changed by later files. */
  lemma {:induction false} MasterPrefixStable(paths: seq<string>, k: nat, read: string -> Table)
    requires k <= |paths|
    requires Fold(Success(NoColumns), paths, read).Success?
    ensures Fold(Success(NoColumns), paths[..k], read).Success?
    ensures var early := RatingsOf(Fold(Success(NoColumns), paths[..k], read).value);
      var late := RatingsOf(Fold(Success(NoColumns), paths, read).value);
      |early| <= |late| && late[..|early|] == early
    decreases |paths| - k
  {
    if k == |paths| {
      assert paths[..k] == paths;
    } else {
      var init := paths[..|paths| - 1];
      assert init[..k] == paths[..k];
      var whole := Fold(Success(NoColumns), paths, read);
      var mid := Fold(Success(NoColumns), init, read);
      assert mid.Success? && Kept(read(Last(paths))).Success? &&
             RatingsOf(whole.value) == RatingsOf(mid.value) + Kept(read(Last(paths))).value by {
        MasterIsConcatenation(paths, read);
      }
      MasterPrefixStable(init, k, read);
      PrefixOfLonger(RatingsOf(Fold(Success(NoColumns), paths[..k], read).value),
                     RatingsOf(mid.value), Kept(read(Last(paths))).value);
    }
  }

  lemma PrefixOfLonger(early: seq<Rating>, mid: seq<Rating>, more: seq<Rating>)
    requires |early| <= |mid| && mid[..|early|] == early
    ensures |early| <= |mid + more| && (mid + more)[..|early|] == early
  {
    assert (mid + more)[..|early|] == mid[..|early|];
  }

  // ---------------------------------------------------------------------------
  // The loops

  /** Reading one more file is one more `Step`. */
  lemma FoldNext(start: Result<Master, Error>, paths: seq<string>, path: string, read: string -> Table)
    ensures Fold(start, paths + [path], read) == Step(Fold(start, paths, read), path, read)
  {
    assert (paths + [path])[..|paths|] == paths;
  }

  /** Once reading has raised, reading more files changes nothing. */
  lemma FoldStops(start: Result<Master, Error>, a: seq<string>, b: seq<string>, read: string -> Table)
    requires Fold(start, a, read).Failure?
    ensures Fold(start, a + b, read) == Fold(start, a, read)
  {
    FoldAppend(start, a, b, read);
    FoldFailure(Fold(start, a, read).error, b, read);
  }

  lemma DirFilesNext(dir: string, files: seq<string>, j: nat)
    requires j < |files|
    ensures DirFiles(dir, files[..j + 1]) ==
      DirFiles(dir, files[..j]) + (if IsRatingFile(files[j]) then [Join(dir, files[j])] else [])
  {
    assert files[..j + 1][..j] == files[..j];
  }

  lemma RatingFilesNext(root: string, entries: seq<string>, folders: map<string, seq<string>>, k: nat)
    requires k < |entries|
    ensures RatingFiles(root, entries[..k + 1], folders) ==
      RatingFiles(root, entries[..k], folders)
        + (if Visited(entries[k]) && AffectiveDir(root, entries[k]) in folders
           then DirFiles(AffectiveDir(root, entries[k]), folders[AffectiveDir(root, entries[k])]) else [])
  {
    assert entries[..k + 1][..k] == entries[..k];
  }

  lemma {:induction false} DirFilesSplit(dir: string, files: seq<string>, k: nat)
    requires k <= |files|
    ensures DirFiles(dir, files) == DirFiles(dir, files[..k]) + DirFiles(dir, files[k..])
    decreases |files| - k
  {
    if k == |files| {
      assert files[..k] == files && files[k..] == [];
    } else {
      var init, f := files[..|files| - 1], Last(files);
      var tail := files[k..];
      var last := if IsRatingFile(f) then [Join(dir, f)] else [];
      assert init[..k] == files[..k];
      assert tail[..|tail| - 1] == init[k..] && Last(tail) == f;
      calc {
        DirFiles(dir, files);
        DirFiles(dir, init) + last;
        { DirFilesSplit(dir, init, k); }
        DirFiles(dir, files[..k]) + DirFiles(dir, init[k..]) + last;
        DirFiles(dir, files[..k]) + (DirFiles(dir, init[k..]) + last);
        DirFiles(dir, files[..k]) + DirFiles(dir, tail);
      }
    }
  }

  lemma {:induction false} RatingFilesSplit(root: string, entries: seq<string>, folders: map<string, seq<string>>, k: nat)
    requires k <= |entries|
    ensures RatingFiles(root, entries, folders) ==
      RatingFiles(root, entries[..k], folders) + RatingFiles(root, entries[k..], folders)
    decreases |entries| - k
  {
    if k == |entries| {
      assert entries[..k] == entries && entries[k..] == [];
    } else {
      var init, e := entries[..|entries| - 1], Last(entries);
      var tail := entries[k..];
      var last := if Visited(e) && AffectiveDir(root, e) in folders
        then DirFiles(AffectiveDir(root, e), folders[AffectiveDir(root, e)]) else [];
      assert init[..k] == entries[..k];
      assert tail[..|tail| - 1] == init[k..] && Last(tail) == e;
      calc {
        RatingFiles(root, entries, folders);
        RatingFiles(root, init, folders) + last;
        { RatingFilesSplit(root, init, folders, k); }
        RatingFiles(root, entries[..k], folders) + RatingFiles(root, init[k..], folders) + last;
        RatingFiles(root, entries[..k], folders) + (RatingFiles(root, init[k..], folders) + last);
        RatingFiles(root, entries[..k], folders) + RatingFiles(root, tail, folders);
      }
    }
  }

  /** The inner loop: the rating files of one affective folder, read into the master table. */
  method ReadFolder(master: Master, dir: string, files: seq<string>, read: string -> Table) returns (r: Result<Master, Error>)
    ensures r == Fold(Success(master), DirFiles(dir, files), read)
  {
    var m := master;
    var j := 0;
    while j < |files|
      invariant 0 <= j <= |files|
      invariant Fold(Success(master), DirFiles(dir, files[..j]), read) == Success(m)
    {
      var name := files[j];
      DirFilesNext(dir, files, j);
      if IsRatingFile(name) {
        var filePath := Join(dir, name);
        FoldNext(Success(master), DirFiles(dir, files[..j]), filePath, read);
        var filtered := Kept(read(filePath));
        if filtered.Failure? {
          DirFilesSplit(dir, files, j + 1);
          FoldStops(Success(master), DirFiles(dir, files[..j + 1]), DirFiles(dir, files[j + 1..]), read);
          return Failure(filtered.error);
        }
        assert Step(Success(m), filePath, read) == Success(Append(m, filtered.value));
        m := Append(m, filtered.value);
        assert Fold(Success(master), DirFiles(dir, files[..j + 1]), read) == Success(m);
      } else {
        assert DirFiles(dir, files[..j + 1]) == DirFiles(dir, files[..j]);
      }
      j := j + 1;
    }
    assert files[..j] == files;
    r := Success(m);
  }

  /** The outer loop over the root listing, reassigning the master table. */
  method CollectRatings(root: string, entries: seq<string>, folders: map<string, seq<string>>, read: string -> Table)
    returns (r: Result<Master, Error>)
    ensures r == Fold(Success(NoColumns), RatingFiles(root, entries, folders), read)
  {
    var masterDf := NoColumns;
    var k := 0;
    while k < |entries|
      invariant 0 <= k <= |entries|
      invariant Fold(Success(NoColumns), RatingFiles(root, entries[..k], folders), read) == Success(masterDf)
    {
      var dirName := entries[k];
      RatingFilesNext(root, entries, folders, k);
      if Visited(dirName) {
        var affectiveDir := AffectiveDir(root, dirName);
        if affectiveDir in folders {
          var next := ReadFolder(masterDf, affectiveDir, folders[affectiveDir], read);
          FoldAppend(Success(NoColumns), RatingFiles(root, entries[..k], folders),
                     DirFiles(affectiveDir, folders[affectiveDir]), read);
          if next.Failure? {
            RatingFilesSplit(root, entries, folders, k + 1);
            FoldStops(Success(NoColumns), RatingFiles(root, entries[..k + 1], folders),
                      RatingFiles(root, entries[k + 1..], folders), read);
            return next;
          }
          masterDf := next.value;
          assert Fold(Success(NoColumns), RatingFiles(root, entries[..k + 1], folders), read) == Success(masterDf);
        } else {
          assert RatingFiles(root, entries[..k + 1], folders) == RatingFiles(root, entries[..k], folders);
        }
      } else {
        assert RatingFiles(root, entries[..k + 1], folders) == RatingFiles(root, entries[..k], folders);
      }
      k := k + 1;
    }
    assert entries[..k] == entries;
    r := Success(masterDf);
  }

  // ---------------------------------------------------------------------------
  // Per-image means

  /** Which score a summary averages. */
  datatype Scale = ArousalScale | ValenceScale

  function ScoreOf(x: Rating, s: Scale): Cell {
    if s == ArousalScale then x.arousal else x.valence
  }

  function ScaleColumn(s: Scale): string {
    if s == ArousalScale then AROUSAL else VALENCE
  }

  /** The scores of the rows showing `image`, in master order. */
  function ScoresFor(rs: seq<Rating>, image: Cell, s: Scale): (r: seq<Cell>)
    ensures forall x :: x in r <==> exists k :: 0 <= k < |rs| && rs[k].image == image && ScoreOf(rs[k], s) == x
    decreases |rs|
  {
    if rs == [] then []
    else
      var init := rs[..|rs| - 1];
      assert forall k :: 0 <= k < |init| ==> init[k] == rs[k];
      ScoresFor(init, image, s) + (if Last(rs).image == image then [ScoreOf(Last(rs), s)] else [])
  }

  /**
   * Every master row showing the image contributes its score once: the
   * scores number the rows showing it, and each value occurs as often as
   * the rows showing the image with that score.
   */
  lemma ScoresForCount(rs: seq<Rating>, image: Cell, s: Scale, x: Cell)
    ensures |ScoresFor(rs, image, s)| == |set k | 0 <= k < |rs| && rs[k].image == image|
    ensures multiset(ScoresFor(rs, image, s))[x] ==
      |set k | 0 <= k < |rs| && rs[k].image == image && ScoreOf(rs[k], s) == x|
  {
    ScoresForLength(rs, image, s);
    ScoresForOccurrences(rs, image, s, x);
    ShowingSet(rs, image);
    ScoredAsSet(rs, image, s, x);
  }

  lemma ShowingSet(rs: seq<Rating>, image: Cell)
    ensures Below(|rs|, Showing(rs, image)) == set k | 0 <= k < |rs| && rs[k].image == image
  {
  }

  lemma ScoredAsSet(rs: seq<Rating>, image: Cell, s: Scale, x: Cell)
    ensures Below(|rs|, ScoredAs(rs, image, s, x))
         == set k | 0 <= k < |rs| && rs[k].image == image && ScoreOf(rs[k], s) == x
  {
  }

  /** The row shows `image` with score `x`. */
  predicate HasScore(r: Rating, image: Cell, s: Scale, x: Cell) {
    r.image == image && ScoreOf(r, s) == x
  }

  /** The rows showing `image`. */
  ghost function Showing(rs: seq<Rating>, image: Cell): nat -> bool {
    (k: nat) => k < |rs| && rs[k].image == image
  }

  /** The rows showing `image` with score `x`. */
  ghost function ScoredAs(rs: seq<Rating>, image: Cell, s: Scale, x: Cell): nat -> bool {
    (k: nat) => k < |rs| && HasScore(rs[k], image, s, x)
  }

  /** The length half of `ScoresForCount`. */
  lemma {:induction false} ScoresForLength(rs: seq<Rating>, image: Cell, s: Scale)
    ensures |ScoresFor(rs, image, s)| == |Below(|rs|, Showing(rs, image))|
    decreases |rs|
  {
    if rs == [] {
      assert Below(0, Showing(rs, image)) == {};
    } else {
      ScoresForLength(rs[..|rs| - 1], image, s);
      ShowingStep(rs, image);
    }
  }

  /** The occurrence half of `ScoresForCount`. */
  lemma {:induction false} ScoresForOccurrences(rs: seq<Rating>, image: Cell, s: Scale, x: Cell)
    ensures multiset(ScoresFor(rs, image, s))[x] == |Below(|rs|, ScoredAs(rs, image, s, x))|
    decreases |rs|
  {
    if rs == [] {
      assert Below(0, ScoredAs(rs, image, s, x)) == {};
    } else {
      ScoresForOccurrences(rs[..|rs| - 1], image, s, x);
      ScoreOccurrencesStep(rs, image, s, x);
      ScoredAsStep(rs, image, s, x);
    }
  }

  /** The last row counts once more exactly when it shows the image. */
  lemma ShowingStep(rs: seq<Rating>, image: Cell)
    requires |rs| > 0
    ensures var init := rs[..|rs| - 1];
      |Below(|rs|, Showing(rs, image))|
        == |Below(|init|, Showing(init, image))| + (if Last(rs).image == image then 1 else 0)
  {
    var init := rs[..|rs| - 1];
    BelowAgree(|init|, Showing(init, image), Showing(rs, image));
    BelowStep(|rs|, Showing(rs, image));
  }

  /** The last row counts once more exactly when it shows the image with score `x`. */
  lemma ScoredAsStep(rs: seq<Rating>, image: Cell, s: Scale, x: Cell)
    requires |rs| > 0
    ensures var init := rs[..|rs| - 1];
      |Below(|rs|, ScoredAs(rs, image, s, x))|
        == |Below(|init|, ScoredAs(init, image, s, x))| + (if HasScore(Last(rs), image, s, x) then 1 else 0)
  {
    var init := rs[..|rs| - 1];
    BelowAgree(|init|, ScoredAs(init, image, s, x), ScoredAs(rs, image, s, x));
    BelowStep(|rs|, ScoredAs(rs, image, s, x));
  }

  /** The last row adds one occurrence of `x` exactly when it shows the image with score `x`. */
  lemma ScoreOccurrencesStep(rs: seq<Rating>, image: Cell, s: Scale, x: Cell)
    requires |rs| > 0
    ensures var init := rs[..|rs| - 1];
      multiset(ScoresFor(rs, image, s))[x]
        == multiset(ScoresFor(init, image, s))[x] + (if HasScore(Last(rs), image, s, x) then 1 else 0)
  {
    var init := rs[..|rs| - 1];
    var r := Last(rs);
    var tail := if r.image == image then [ScoreOf(r, s)] else [];
    CountAppend(ScoresFor(rs, image, s), ScoresFor(init, image, s), tail, x);
  }

  /** The groups of `groupby('image_path')`: every image except NaN. */
  function Images(rs: seq<Rating>): (r: set<Cell>)
    ensures forall c :: c in r <==> c != NaN && exists k :: 0 <= k < |rs| && rs[k].image == c
  {
    set k | 0 <= k < |rs| && rs[k].image != NaN :: rs[k].image
  }

  /** `master_df.groupby('image_path')[score].mean()` */
  function PerImageMean(rs: seq<Rating>, s: Scale): (r: map<Cell, Cell>)
    ensures r.Keys == Images(rs)
  {
    map image | image in Images(rs) :: Mean(ScoresFor(rs, image, s))
  }

  /** A score column the statistics can add to and average: no text in it. */
  predicate NumericScores(rs: seq<Rating>, s: Scale) {
    forall k :: 0 <= k < |rs| ==> !ScoreOf(rs[k], s).Text?
  }

  /**
   * The summary after the loops: KeyError when no file was read (the master
   * table has no `arousal_score` column), TypeError on a text score, and
   * otherwise the per-image mean arousal and mean valence.
   */
  function Summary(m: Master): (r: Result<(map<Cell, Cell>, map<Cell, Cell>), Error>)
    ensures r.Failure? <==> m.NoColumns? || !NumericScores(m.ratings, ArousalScale) || !NumericScores(m.ratings, ValenceScale)
    ensures r.Success? ==> r.value.0.Keys == Images(m.ratings) && r.value.1.Keys == Images(m.ratings)
  {
    match m
    case NoColumns => Failure(MissingColumns([AROUSAL]))
    case Rows(rs) =>
      if !NumericScores(rs, ArousalScale) then Failure(NonNumeric(AROUSAL))
      else if !NumericScores(rs, ValenceScale) then Failure(NonNumeric(VALENCE))
      else Success((PerImageMean(rs, ArousalScale), PerImageMean(rs, ValenceScale)))
  }

  /**
   * Each image's mean is taken over exactly the master rows showing that
   * image: NaN only when none of them has a score, and otherwise between the
   * least and greatest score given to it.
   */
  lemma PerImageMeanBounds(rs: seq<Rating>, s: Scale, image: Cell)
    requires image in Images(rs)
    ensures var m := PerImageMean(rs, s)[image];
      && m == Mean(ScoresFor(rs, image, s))
      && (m.NaN? <==> forall k :: 0 <= k < |rs| && rs[k].image == image ==> !ScoreOf(rs[k], s).Num?)
      && (m.Num? ==> Min(Present(ScoresFor(rs, image, s))) <= m.x <= Max(Present(ScoresFor(rs, image, s))))
  {
    var xs := ScoresFor(rs, image, s);
    assert PerImageMean(rs, s)[image] == Mean(xs);
    ScoresWithoutNumber(rs, image, s);
    if Mean(xs).Num? {
      MeanBetweenExtremes(xs);
    }
  }

  /** The scores of an image hold no number exactly when none of its rows does. */
  lemma ScoresWithoutNumber(rs: seq<Rating>, image: Cell, s: Scale)
    ensures var xs := ScoresFor(rs, image, s);
      (forall i :: 0 <= i < |xs| ==> !xs[i].Num?) <==>
      (forall k :: 0 <= k < |rs| && rs[k].image == image ==> !ScoreOf(rs[k], s).Num?)
  {
    var xs := ScoresFor(rs, image, s);
    forall k | 0 <= k < |rs| && rs[k].image == image
      ensures exists i :: 0 <= i < |xs| && xs[i] == ScoreOf(rs[k], s)
    {
      assert ScoreOf(rs[k], s) in xs;
    }
    forall i | 0 <= i < |xs|
      ensures exists k :: 0 <= k < |rs| && rs[k].image == image && xs[i] == ScoreOf(rs[k], s)
    {
      assert xs[i] in xs;
    }
  }

  /** An image every row of which gives the same score has that score as its mean. */
  lemma PerImageMeanAgreeing(rs: seq<Rating>, s: Scale, image: Cell, v: real)
    requires image in Images(rs)
    requires forall k :: 0 <= k < |rs| && rs[k].image == image ==> ScoreOf(rs[k], s) == Num(v)
    ensures PerImageMean(rs, s)[image] == Num(v)
  {
    var xs := ScoresFor(rs, image, s);
    var k :| 0 <= k < |rs| && rs[k].image == image;
    assert Num(v) in xs;
    forall i | 0 <= i < |xs| ensures xs[i] == Num(v) || xs[i] == NaN {
      assert xs[i] in xs;
    }
    MeanOfEqualValues(xs, v);
  }

  /** The whole script up to its plots: the loops, then the per-image summaries. */
  function Stats(root: string, entries: seq<string>, folders: map<string, seq<string>>, read: string -> Table)
    : Result<(map<Cell, Cell>, map<Cell, Cell>), Error>
  {
    match Fold(Success(NoColumns), RatingFiles(root, entries, folders), read)
    case Failure(e) => Failure(e)
    case Success(m) => Summary(m)
  }

  method RunStats(root: string, entries: seq<string>, folders: map<string, seq<string>>, read: string -> Table)
    returns (r: Result<(map<Cell, Cell>, map<Cell, Cell>), Error>)
    ensures r == Stats(root, entries, folders, read)
  {
    var master := CollectRatings(root, entries, folders, read);
    if master.Failure? {
      return Failure(master.error);
    }
    r := Summary(master.value);
  }
}
