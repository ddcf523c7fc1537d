/**
 * How both HRF plotters choose their input files: every sub-directory that
 * `os.walk` reports whose name starts with `exp_`, every file listed in it
 * whose name starts with `affective_individual_`, minus the files whose
 * (session, station) pair appears in the experimenter exclusion table.
 */
module Selection {
  import opened Strings
  import opened Paths

  /** One directory visited by `os.walk`: its path and the names of its sub-directories. */
  datatype WalkStep = WalkStep(root: string, dirs: seq<string>)

  /** A row of the exclusion table: the experimenter sat at `station` during `session`. */
  datatype Exclusion = Exclusion(session: string, station: string)

  /** A file the plotter goes on to read: its session folder, name, full path and station. */
  datatype Candidate = Candidate(folder: string, file: string, path: string, station: string)

  const SESSION_PREFIX: string := "exp_"
  const FILE_PREFIX: string := "affective_individual_"

  /** The station named by a file: the text after its last `_`, cut at the first `.`. */
  function Station(file: string): (r: string)
    ensures '.' !in r
  {
    Split(Last(Split(file, '_')), '.')[0]
  }

  /** `affective_individual_<...>_<station>.<ext>` names its station. */
  lemma StationOf(prefix: string, station: string, ext: string)
    requires '_' !in station && '.' !in station && '_' !in ext
    ensures Station(prefix + "_" + station + "." + ext) == station
  {
    var tail := station + "." + ext;
    assert prefix + "_" + station + "." + ext == prefix + ['_'] + tail;
    SplitAround(prefix, tail, '_');
    assert '_' !in tail;
    SplitWithoutSeparator(tail, '_');
    assert Last(Split(prefix + ['_'] + tail, '_')) == tail;
    assert tail == station + ['.'] + ext;
    SplitAround(station, ext, '.');
    SplitWithoutSeparator(station, '.');
  }

  /** A listed file is processed: the right prefix, and its pair is not excluded. */
  predicate Chosen(folder: string, file: string, ex: seq<Exclusion>) {
    StartsWith(file, FILE_PREFIX) && Exclusion(folder, Station(file)) !in ex
  }

  function CandidateOf(folderPath: string, folder: string, file: string): Candidate {
    Candidate(folder, file, Join(folderPath, file), Station(file))
  }

  /** The chosen files of one session folder, in listing order. */
  function FileCandidates(folderPath: string, folder: string, files: seq<string>, ex: seq<Exclusion>): (r: seq<Candidate>)
    ensures forall c :: c in r <==>
      exists f :: f in files && Chosen(folder, f, ex) && c == CandidateOf(folderPath, folder, f)
    ensures |r| <= |files|
    decreases |files|
  {
    if files == [] then []
    else
      var init := files[..|files| - 1];
      assert files == init + [Last(files)];
      FileCandidates(folderPath, folder, init, ex)
        + (if Chosen(folder, Last(files), ex) then [CandidateOf(folderPath, folder, Last(files))] else [])
  }

  /** The chosen files under the `exp_` folders among `folders`, which sit in `root`. */
  function FolderCandidates(root: string, folders: seq<string>, listing: string -> seq<string>, ex: seq<Exclusion>): (r: seq<Candidate>)
    ensures forall c :: c in r <==>
      exists d :: d in folders && StartsWith(d, SESSION_PREFIX) &&
        c in FileCandidates(Join(root, d), d, listing(Join(root, d)), ex)
    decreases |folders|
  {
    if folders == [] then []
    else
      var init := folders[..|folders| - 1];
      var d := Last(folders);
      assert folders == init + [d];
      FolderCandidates(root, init, listing, ex)
        + (if StartsWith(d, SESSION_PREFIX) then FileCandidates(Join(root, d), d, listing(Join(root, d)), ex) else [])
  }

  /** Every file the walk leads to, in the order the nested loops reach it. */
  function Selected(walk: seq<WalkStep>, listing: string -> seq<string>, ex: seq<Exclusion>): (r: seq<Candidate>)
    ensures forall c :: c in r <==>
      exists w :: w in walk && c in FolderCandidates(w.root, w.dirs, listing, ex)
    decreases |walk|
  {
    if walk == [] then []
    else
      var init := walk[..|walk| - 1];
      assert walk == init + [Last(walk)];
      Selected(init, listing, ex) + FolderCandidates(Last(walk).root, Last(walk).dirs, listing, ex)
  }

  /**
   * What every selected file satisfies: an `exp_` session folder reported by
   * the walk, a listed name with the right prefix, a station read off that
   * name, a path joined from the folder's, and a pair absent from the table;
   * and every such file is selected.
   */
  lemma SelectedExactly(walk: seq<WalkStep>, listing: string -> seq<string>, ex: seq<Exclusion>, c: Candidate)
    ensures c in Selected(walk, listing, ex) <==>
      exists w, f :: w in walk && c.folder in w.dirs && StartsWith(c.folder, SESSION_PREFIX) &&
        f in listing(Join(w.root, c.folder)) && StartsWith(f, FILE_PREFIX) &&
        Exclusion(c.folder, Station(f)) !in ex &&
        c == CandidateOf(Join(w.root, c.folder), c.folder, f)
  {
    if c in Selected(walk, listing, ex) {
      var w :| w in walk && c in FolderCandidates(w.root, w.dirs, listing, ex);
      var d :| d in w.dirs && StartsWith(d, SESSION_PREFIX) &&
        c in FileCandidates(Join(w.root, d), d, listing(Join(w.root, d)), ex);
      var f :| f in listing(Join(w.root, d)) && Chosen(d, f, ex) && c == CandidateOf(Join(w.root, d), d, f);
      assert c.folder == d;
    }
  }

  /** The innermost loop of `parse_files`: the listed files of one session folder, with its `continue`. */
  method SelectInFolder(folderPath: string, folder: string, files: seq<string>, ex: seq<Exclusion>) returns (r: seq<Candidate>)
    ensures r == FileCandidates(folderPath, folder, files, ex)
  {
    r := [];
    var k := 0;
    while k < |files|
      invariant 0 <= k <= |files|
      invariant r == FileCandidates(folderPath, folder, files[..k], ex)
    {
      var file := files[k];
      if StartsWith(file, FILE_PREFIX) {
        var station := Station(file);
        if Exclusion(folder, station) !in ex {
          r := r + [Candidate(folder, file, Join(folderPath, file), station)];
        }
      }
      assert files[..k + 1][..k] == files[..k];
      k := k + 1;
    }
    assert files[..k] == files;
  }

  /** The loop over the sub-directories of one walk step. */
  method SelectInDirs(root: string, dirs: seq<string>, listing: string -> seq<string>, ex: seq<Exclusion>) returns (r: seq<Candidate>)
    ensures r == FolderCandidates(root, dirs, listing, ex)
  {
    r := [];
    var d := 0;
    while d < |dirs|
      invariant 0 <= d <= |dirs|
      invariant r == FolderCandidates(root, dirs[..d], listing, ex)
    {
      var folder := dirs[d];
      if StartsWith(folder, SESSION_PREFIX) {
        var folderPath := Join(root, folder);
        var found := SelectInFolder(folderPath, folder, listing(folderPath), ex);
        r := r + found;
      }
      assert dirs[..d + 1][..d] == dirs[..d];
      d := d + 1;
    }
    assert dirs[..d] == dirs;
  }

  /** The outer `os.walk` loop of `parse_files`. */
  method SelectFiles(walk: seq<WalkStep>, listing: string -> seq<string>, ex: seq<Exclusion>) returns (r: seq<Candidate>)
    ensures r == Selected(walk, listing, ex)
  {
    r := [];
    var w := 0;
    while w < |walk|
      invariant 0 <= w <= |walk|
      invariant r == Selected(walk[..w], listing, ex)
    {
      var found := SelectInDirs(walk[w].root, walk[w].dirs, listing, ex);
      r := r + found;
      assert walk[..w + 1][..w] == walk[..w];
      w := w + 1;
    }
    assert walk[..w] == walk;
  }
}
