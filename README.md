# ToMCAT miscellaneous scripts: a Dafny model of their discrete logic

This project models the decision logic of four batch scripts from an
experiment-analysis repository. It leaves out the plotting and the
signal-processing glue around them.

- **Per-file HRF plotter** (`generate_HRF_plots.py`):
  - It picks the `affective_individual_*` files of every `exp_` session folder and skips the (session, station) pairs of the experimenter exclusion table.
  - It derives channel names from the `*_HbO`/`*_HbR` columns and adds the row-wise `Mean_HbO`/`Mean_HbR` columns.
  - It draws one panel per channel plus a final `Mean` panel. Each panel gets event markers coloured from a closed seven-label table; only the first occurrence of a label gets a legend entry, and `intermediate_selection` rows get an arousal-else-valence annotation. As in matplotlib, labels starting with `_` are left out of the legend.
  - It writes each figure to a PNG path derived from the CSV path.
  - A CSV without any `_HbO`/`_HbR` column gets a single Axes, and indexing it raises TypeError, which ends the run.
- **Averaging plotter** (`generate_HRF_AVG_60samples.py`):
  - It uses the same selection.
  - It admits only tables with exactly 45 columns once `station` is dropped, and keeps their first 60 rows.
  - It averages index-wise over the tables that have each row, then draws the same markers on the average.
- **Rating statistics** (`get_individual_affective_task_stats.py`):
  - It visits the `exp_` directories other than two excluded sessions, then reads the `individual_*.csv` files of their `baseline_tasks/affective` folder.
  - It keeps the `final_submission` rows, projected to image, arousal and valence, appended in visit order to one master table.
  - It summarises the master table by the mean arousal and mean valence of each image.
- **ECG quality summary** (`check_EKG.py`):
  - It writes one row per `exp_` directory, holding the directory name and each of the stations `lion`, `tiger`, `leopard`.
  - A station gets the quality of its `AUX_EKG` column. It gets `None` when loading raised FileNotFoundError, EmptyDataError or KeyError. Any other exception ends the run.

Tables are modelled by `Frames.Frame`:
- Each table has a header, a row count and a column map. Cells are numbers (`real`), text, or NaN.
- `Frames.Mean` is the pandas NaN-skipping mean.
- A failed lookup or a text cell in an averaged column is a `Result` failure. It stands for the exception that ends the script.

Directory listings, `os.walk` and CSV reading are given as parameters: sequences, maps and function values. The loops of the scripts are methods, each proved equal to a specification function. The properties are lemmas about those functions.

Modules:
- `Wrappers`, `Strings`, `Paths`, `Frames` and `Batch` hold the shared vocabulary. `Batch` is a loop that ends at the first uncaught exception.
- `Selection` and `EventMarkers` hold the logic the two HRF plotters share.
- `HrfPlots`, `HrfAverage`, `AffectiveStats` and `EkgQuality` model the four scripts.

## Model

| member | source | states |
|---|---|---|
| Strings.Split | Scripts/generate_HRF_plots/generate_HRF_plots.py:105 | `str.split`: at least one piece, no piece holds the separator, and joining the pieces gives back the string |
| Strings.SplitAround | Scripts/generate_HRF_plots/generate_HRF_plots.py:105 | splitting `a + sep + b` is splitting `a` followed by splitting `b` |
| Strings.SplitWithoutSeparator | Scripts/generate_HRF_plots/generate_HRF_plots.py:105 | a string without the separator splits into itself alone |
| Strings.JoinedEndsWithLast | Scripts/generate_HRF_plots/generate_HRF_plots.py:121 | a string rejoined from its pieces ends with the last piece, with a separator right before it when there are several pieces |
| Strings.Replace | Scripts/generate_HRF_plots/generate_HRF_plots.py:15 | `str.replace` of every occurrence: leaves a string without the pattern unchanged and introduces no character absent from the string and the replacement |
| Strings.ReplaceAtEnd | Scripts/generate_HRF_plots/generate_HRF_plots.py:121 | replacing a pattern that occurs only at the end rewrites just that end |
| Strings.NoNewOccurrence | Scripts/generate_HRF_plots/generate_HRF_plots.py:15 | concatenating two pattern-free strings that meet at the pattern's first character creates no occurrence |
| Strings.ContainsAppended | Scripts/generate_HRF_plots/generate_HRF_plots.py:15 | a string ending in the pattern contains it |
| Strings.Insert | Scripts/generate_HRF_plots/generate_HRF_plots.py:15 | inserting into a strictly sorted list keeps it strictly sorted and adds exactly the element |
| Strings.SortedSet | Scripts/generate_HRF_plots/generate_HRF_plots.py:15 | `sorted(set(xs))`: strictly sorted, with exactly the elements of `xs` |
| Strings.SortedUnique | Scripts/generate_HRF_plots/generate_HRF_plots.py:15 | two strictly sorted lists with the same elements are equal, so `sorted(set(...))` is determined by its elements |
| Strings.SortedDistinct | Scripts/generate_HRF_plots/generate_HRF_plots.py:15 | a strictly sorted list has no duplicates |
| Strings.LessTransitive | Scripts/generate_HRF_plots/generate_HRF_plots.py:15 | the string order used by `sorted` is transitive |
| Strings.LessTotal | Scripts/generate_HRF_plots/generate_HRF_plots.py:15 | any two different strings are ordered one way or the other |
| Paths.Basename | Scripts/generate_HRF_plots/generate_HRF_plots.py:121 | `os.path.basename`: an ending of the path that holds no `/` and is either the whole path or preceded by a `/`, that is the text after the last `/` |
| Paths.BasenameOfJoin | Scripts/check_EKG_quality/check_EKG.py:22 | the base name of `join(a, b)` is `b` when `b` has no `/` |
| Paths.JoinAssociative | Scripts/generate_HRF_plots/generate_HRF_plots.py:114-124 | `os.path.join` is associative, absolute components included |
| Paths.JoinAllPrepend | Scripts/generate_HRF_plots/generate_HRF_plots.py:114-117 | `join(a, *parts)` is `join(a, join(*parts))` |
| Frames.Absent | Scripts/generate_HRF_plots/generate_HRF_plots.py:23-24 | the names a column selection lacks: exactly the requested names missing from the header |
| Frames.Column | Scripts/generate_HRF_plots/generate_HRF_plots.py:43 | `df[name]` succeeds iff the column exists, with one cell per row; otherwise a KeyError naming it |
| Frames.Drop | Scripts/generate_HRF_plots/generate_HRF_AVG_60samples.py:89 | `drop(columns=name)` fails iff the column is absent; otherwise one column fewer, the same rows and the other columns unchanged |
| Frames.Without | Scripts/generate_HRF_plots/generate_HRF_AVG_60samples.py:89 | removing a name from a header keeps every other name and distinctness, and shortens a distinct header by one exactly when the name was present |
| Frames.Head | Scripts/generate_HRF_plots/generate_HRF_AVG_60samples.py:93 | `iloc[:n]`: `min(n, rows)` rows, the same header, and each column's prefix |
| Frames.WithColumn | Scripts/generate_HRF_plots/generate_HRF_plots.py:23-24 | assigning a column sets it and leaves every other column unchanged |
| Frames.Present | Scripts/generate_HRF_plots/generate_HRF_plots.py:23 | the numbers among the cells, skipping NaN and text |
| Frames.Mean | Scripts/generate_HRF_plots/generate_HRF_plots.py:23 | the NaN-skipping mean is never text, and is NaN iff no cell is a number |
| Frames.Min | Scripts/generate_HRF_plots/generate_HRF_AVG_60samples.py:99 | the least number, attained |
| Frames.Max | Scripts/generate_HRF_plots/generate_HRF_AVG_60samples.py:99 | the greatest number, attained |
| Frames.MeanBetweenExtremes | Scripts/generate_HRF_plots/generate_HRF_AVG_60samples.py:99 | a numeric mean lies between the least and the greatest number averaged |
| Frames.MeanOfEqualValues | Scripts/get_individual_affective_task_stats/get_individual_affective_task_stats.py:92 | cells that are all one number or NaN, with at least one number, average to that number |
| Selection.Station | Scripts/generate_HRF_plots/generate_HRF_plots.py:105 | the station is the text after the last `_` cut at the first `.`, so it holds no `.` |
| Selection.StationOf | Scripts/generate_HRF_plots/generate_HRF_plots.py:105 | `<prefix>_<station>.<ext>` yields `station` |
| Selection.FileCandidates | Scripts/generate_HRF_plots/generate_HRF_plots.py:100-109 | a listed file is kept iff it starts `affective_individual_` and its (folder, station) pair is not in the exclusion table |
| Selection.FolderCandidates | Scripts/generate_HRF_plots/generate_HRF_plots.py:96-109 | only sub-directories starting `exp_` are searched |
| Selection.Selected | Scripts/generate_HRF_plots/generate_HRF_plots.py:95-109 | the files kept over every step of the walk |
| Selection.SelectedExactly | Scripts/generate_HRF_plots/generate_HRF_plots.py:95-109 | a file is selected iff it is listed in an `exp_` folder reported by the walk, has the right prefix and a pair absent from the exclusion table; path and station are derived from folder and name |
| Selection.SelectInFolder | Scripts/generate_HRF_plots/generate_HRF_plots.py:100-109 | the loop over one folder's listing, with its `continue`, keeps exactly `FileCandidates` |
| Selection.SelectInDirs | Scripts/generate_HRF_plots/generate_HRF_plots.py:96-109 | the loop over one walk step's sub-directories keeps exactly `FolderCandidates` |
| Selection.SelectFiles | Scripts/generate_HRF_plots/generate_HRF_AVG_60samples.py:74-86 | the nested walk loops keep exactly `Selected` in visiting order |
| Batch.RunAllPrefix | Scripts/generate_HRF_plots/generate_HRF_plots.py:95-126 | a loop ended by the first exception handled a prefix of the items, one result per item in order, and the item after that prefix raised the exception |
| Batch.RunAllStopsAtAbort | Scripts/generate_HRF_plots/generate_HRF_plots.py:95-126 | after an exception, later items change nothing |
| Batch.RunAllNext | Scripts/generate_HRF_plots/generate_HRF_plots.py:95-126 | one more item either appends its result or ends the whole run with its exception |
| EventMarkers.Seen | Scripts/generate_HRF_plots/generate_HRF_plots.py:51-57 | `added_events` at the end holds exactly the non-null labels of the event column |
| EventMarkers.DrawEventMarkers | Scripts/generate_HRF_plots/generate_HRF_plots.py:50-73 | the event loop with its `added_events` set computes exactly `Drawn` |
| EventMarkers.DrawEvent | Scripts/generate_HRF_plots/generate_HRF_plots.py:53-72 | one turn of the event loop computes exactly `DrawRow` for the labels seen so far |
| EventMarkers.DrawnStopsAtFailure | Scripts/generate_HRF_plots/generate_HRF_plots.py:53-59 | once a row raised, later rows change nothing |
| EventMarkers.DrawnFailsAtFirstBadRow | Scripts/generate_HRF_plots/generate_HRF_plots.py:27-63 | drawing succeeds iff no row has a label outside the seven-entry colour table, or an `intermediate_selection` label without both score columns; on failure the exception is the first such row's |
| EventMarkers.DrawnShape | Scripts/generate_HRF_plots/generate_HRF_plots.py:53-73 | one marker per non-null event row, in row order, with its label's colour; a legend label exactly on the first occurrence of each label; one annotation per `intermediate_selection` row, `A(arousal)` when arousal is present and `V(valence)` otherwise, at the trace's height |
| EventMarkers.LegendEvents | Scripts/generate_HRF_plots/generate_HRF_plots.py:56 | the labels that carry a legend entry |
| EventMarkers.LegendCoversSeen | Scripts/generate_HRF_plots/generate_HRF_plots.py:55-57 | the labels with a legend entry are exactly the distinct non-null labels |
| EventMarkers.LegendDistinct | Scripts/generate_HRF_plots/generate_HRF_plots.py:55-57 | no label carries two legend entries |
| EventMarkers.LegendHasEachEventOnce | Scripts/generate_HRF_plots/generate_HRF_plots.py:51-59 | for a successful drawing: every distinct label has exactly one legend entry |
| EventMarkers.FirstIndex | Scripts/generate_HRF_plots/generate_HRF_plots.py:55 | the first row holding a label |
| EventMarkers.Dedup | Scripts/generate_HRF_plots/generate_HRF_plots.py:77-79 | `dict(zip(labels, handles))` keeps each label once and loses none |
| EventMarkers.DedupDistinct | Scripts/generate_HRF_plots/generate_HRF_plots.py:77-79 | labels that are already distinct are kept as they are, in order |
| EventMarkers.EventLegend | Scripts/generate_HRF_plots/generate_HRF_plots.py:56 | the `Event: <label>` legend entries are exactly those of the labelled markers |
| EventMarkers.PanelLegendEntries | Scripts/generate_HRF_plots/generate_HRF_plots.py:43-79 | a panel's legend (`dict(zip(labels, handles))` over the labels matplotlib reports) has no repeated entry. It holds exactly the plotted labels that do not start with `_`, plus `Event: e` for each distinct event label |
| EventMarkers.Shown | Scripts/generate_HRF_plots/generate_HRF_plots.py:77 | `get_legend_handles_labels` drops the labels starting with `_`: it keeps exactly the other labels, and no more of them than were plotted |
| EventMarkers.ShownAll | Scripts/generate_HRF_plots/generate_HRF_plots.py:77 | when no label starts with `_`, every label is reported, in order |
| HrfPlots.ChannelNames | Scripts/generate_HRF_plots/generate_HRF_plots.py:15 | every column containing `_HbO` or `_HbR` contributes its name with both removed; no other column contributes |
| HrfPlots.Channels | Scripts/generate_HRF_plots/generate_HRF_plots.py:15 | the channel list is strictly sorted, without duplicates, and holds exactly the stripped names |
| HrfPlots.StrippedPair | Scripts/generate_HRF_plots/generate_HRF_plots.py:15 | `<ch>_HbO` and `<ch>_HbR` both strip to `ch` |
| HrfPlots.ChannelsOfPairedHeader | Scripts/generate_HRF_plots/generate_HRF_plots.py:15 | a header of `<ch>_HbO`/`<ch>_HbR` pairs yields the sorted channel set |
| HrfPlots.Suffixed | Scripts/generate_HRF_plots/generate_HRF_plots.py:23-24 | `[f"{channel}_HbO" for channel in channels]`, in channel order |
| HrfPlots.RowCells | Scripts/generate_HRF_plots/generate_HRF_plots.py:23-24 | the cells of one row across the selected columns, in column order |
| HrfPlots.FirstNonNumeric | Scripts/generate_HRF_plots/generate_HRF_plots.py:23-24 | finds a selected column holding text exactly when there is one |
| HrfPlots.RowMeans | Scripts/generate_HRF_plots/generate_HRF_plots.py:23-24 | `df[cols].mean(axis=1)` succeeds iff every column exists and is numeric, with one mean per row; a missing column is a KeyError naming the missing ones |
| HrfPlots.RowMeanBounds | Scripts/generate_HRF_plots/generate_HRF_plots.py:23-24 | each row mean is the NaN-skipping mean of that row's cells: NaN iff none is a number, else between their least and greatest |
| HrfPlots.WithMeans | Scripts/generate_HRF_plots/generate_HRF_plots.py:23-24 | on success both mean columns exist, with one cell per row, and every other column is unchanged |
| HrfPlots.MeanHbOIsRowMean | Scripts/generate_HRF_plots/generate_HRF_plots.py:23 | `Mean_HbO` at each row is the mean of that row's `<channel>_HbO` values over all channels, between their extremes |
| HrfPlots.MeanHbOColumn | Scripts/generate_HRF_plots/generate_HRF_plots.py:23 | the whole `Mean_HbO` column is the row-mean column over the `_HbO` columns |
| HrfPlots.MeanHbRIsRowMean | Scripts/generate_HRF_plots/generate_HRF_plots.py:24 | `Mean_HbR` at each row is the mean of that row's `<channel>_HbR` values over all channels, between their extremes |
| HrfPlots.MeanHbRColumn | Scripts/generate_HRF_plots/generate_HRF_plots.py:24 | the whole `Mean_HbR` column is the row-mean column over the `_HbR` columns of the table as read, even though `Mean_HbO` was added first |
| HrfPlots.RowMeansOfSameColumns | Scripts/generate_HRF_plots/generate_HRF_plots.py:23-24 | row means over columns that an assignment left unchanged are the same before and after it |
| HrfPlots.HbRIsNotMeanHbO | Scripts/generate_HRF_plots/generate_HRF_plots.py:23-24 | no `_HbR` column is the `Mean_HbO` column, so the second assignment reads the first's inputs |
| HrfPlots.MissingChannelColumnFails | Scripts/generate_HRF_plots/generate_HRF_plots.py:23-24 | a channel lacking its `_HbO` column makes the mean step raise a KeyError naming that column. A channel lacking its `_HbR` column makes the step fail too. Once the `_HbO` means are taken, that failure is a KeyError naming the `_HbR` column |
| HrfPlots.RowMeansMissing | Scripts/generate_HRF_plots/generate_HRF_plots.py:23-24 | selecting columns one of which is missing raises a KeyError naming it |
| HrfPlots.PanelFor | Scripts/generate_HRF_plots/generate_HRF_plots.py:38-41 | a panel plots `Mean_HbO`/`Mean_HbR` for `Mean`, else `<channel>_HbO`/`<channel>_HbR` |
| HrfPlots.PanelLegendShape | Scripts/generate_HRF_plots/generate_HRF_plots.py:43-79 | a per-file panel's legend has no repeated entry. It holds exactly its two trace names (unless one starts with `_`), the two score placeholders and `Event: e` for each distinct event label |
| HrfPlots.PanelsExactly | Scripts/generate_HRF_plots/generate_HRF_plots.py:37-79 | the panels succeed iff each one does, one per name in order |
| HrfPlots.DrawPanel | Scripts/generate_HRF_plots/generate_HRF_plots.py:37-79 | drawing one panel computes exactly `PanelFor` |
| HrfPlots.DrawPanels | Scripts/generate_HRF_plots/generate_HRF_plots.py:37-79 | the panel loop computes exactly `Panels` |
| HrfPlots.PlotFigure | Scripts/generate_HRF_plots/generate_HRF_plots.py:8-90 | drawing a figure computes exactly `Figure`, including the TypeError for a table without channels |
| HrfPlots.FigureLayout | Scripts/generate_HRF_plots/generate_HRF_plots.py:15-41 | a figure that is drawn has at least one channel and `|channels| + 1` panels: the channels in sorted order with their own traces, then the `Mean` panel last |
| HrfPlots.NoChannelFailsFigure | Scripts/generate_HRF_plots/generate_HRF_plots.py:18-43 | with no `_HbO`/`_HbR` column the means are still taken, but `plt.subplots(1, 1)` returns a single Axes and indexing it as `axs[0]` raises TypeError |
| HrfPlots.UnknownEventFailsFigure | Scripts/generate_HRF_plots/generate_HRF_plots.py:27-59 | a non-null event label outside the colour table makes the figure fail rather than be skipped |
| HrfPlots.PngName | Scripts/generate_HRF_plots/generate_HRF_plots.py:121 | the output file name holds no `/` |
| HrfPlots.PngNameOf | Scripts/generate_HRF_plots/generate_HRF_plots.py:121 | `<dir>/<stem>.csv` becomes `<stem>.png` |
| HrfPlots.OutputPath | Scripts/generate_HRF_plots/generate_HRF_plots.py:114-124 | succeeds iff the path has at least six `/`-pieces (else `join()` of nothing raises), and ends in the PNG name |
| HrfPlots.OutputPathIsOneJoin | Scripts/generate_HRF_plots/generate_HRF_plots.py:114-124 | the output path is `output_dir / components[4:-1] / png name` |
| HrfPlots.OutputUnder | Scripts/generate_HRF_plots/generate_HRF_plots.py:114-124 | `new_dir` then the file name: succeeds iff there are at least six components, and its basename is the file name |
| HrfPlots.OutputUnderIsOneJoin | Scripts/generate_HRF_plots/generate_HRF_plots.py:114-124 | the two nested joins are one join of the output directory, the middle components and the name |
| HrfPlots.JoinUnderDir | Scripts/generate_HRF_plots/generate_HRF_plots.py:114-124 | joining the sub-path and then the name is one join of all parts |
| HrfPlots.PlotFile | Scripts/generate_HRF_plots/generate_HRF_plots.py:111-126 | reading, deriving the output path and drawing one selected file computes exactly `PlotOne` |
| HrfPlots.PlotAll | Scripts/generate_HRF_plots/generate_HRF_plots.py:95-126 | the loop over the selected files writes their figures in order until the first exception, a file without channels included |
| HrfPlots.ParseFiles | Scripts/generate_HRF_plots/generate_HRF_plots.py:92-126 | `parse_files` plots the selected files in order until the first exception, which may be the TypeError of a file without channels |
| HrfAverage.Admit | Scripts/generate_HRF_plots/generate_HRF_AVG_60samples.py:88-96 | dropping `station` fails iff it is absent; a table is admitted iff 45 columns remain, keeping its first `min(60, rows)` rows unchanged; otherwise it is dropped silently |
| HrfAverage.AdmittedExactly | Scripts/generate_HRF_plots/generate_HRF_AVG_60samples.py:74-96 | collection succeeds iff every selected table has `station`; the tables kept are exactly the admitted ones, each with 45 columns and at most 60 rows |
| HrfAverage.CollectTables | Scripts/generate_HRF_plots/generate_HRF_AVG_60samples.py:67-96 | the loop appending to `all_data` computes exactly `Admitted` |
| HrfAverage.AdmittedStopsAtFailure | Scripts/generate_HRF_plots/generate_HRF_AVG_60samples.py:89 | a table without `station` ends the collection |
| HrfAverage.MaxRows | Scripts/generate_HRF_plots/generate_HRF_AVG_60samples.py:99 | the longest table length: an upper bound, attained |
| HrfAverage.Contributions | Scripts/generate_HRF_plots/generate_HRF_AVG_60samples.py:99 | the cells of a column at a row, over exactly the tables that have that column and row |
| HrfAverage.ContributionsCount | Scripts/generate_HRF_plots/generate_HRF_AVG_60samples.py:99 | one contribution per table that has that column and row: their number is the number of such tables, and each value occurs exactly as many times as such tables hold it |
| HrfAverage.AddNew | Scripts/generate_HRF_plots/generate_HRF_AVG_60samples.py:99 | adding new column names keeps the union, distinct |
| HrfAverage.UnionHeader | Scripts/generate_HRF_plots/generate_HRF_AVG_60samples.py:99 | the concatenation's header: distinct, holding each column of any table |
| HrfAverage.NumericOnly | Scripts/generate_HRF_plots/generate_HRF_AVG_60samples.py:99 | keeps exactly the columns that are numeric in every table |
| HrfAverage.NumericOnlyDistinct | Scripts/generate_HRF_plots/generate_HRF_AVG_60samples.py:99 | the kept column names stay distinct |
| HrfAverage.NumericOnlyAll | Scripts/generate_HRF_plots/generate_HRF_AVG_60samples.py:99 | when every column is numeric, all are kept in their order |
| HrfAverage.Averaged | Scripts/generate_HRF_plots/generate_HRF_AVG_60samples.py:99 | `concat(...).groupby(level=0).mean()` fails iff no table was admitted; otherwise it has the longest admitted length and the numeric columns |
| HrfAverage.AverageFrame | Scripts/generate_HRF_plots/generate_HRF_AVG_60samples.py:99 | each averaged cell is the average of that column's contributions at that row |
| HrfAverage.AveragedLength | Scripts/generate_HRF_plots/generate_HRF_AVG_60samples.py:93-99 | the average has at most 60 rows, and its length is that of some admitted table |
| HrfAverage.AveragedValue | Scripts/generate_HRF_plots/generate_HRF_AVG_60samples.py:99 | the value at row i is the mean over exactly the tables having row i: NaN iff none has a number there, otherwise between the least and greatest contribution |
| HrfAverage.ContributionsMean | Scripts/generate_HRF_plots/generate_HRF_AVG_60samples.py:99 | the mean of a row's contributions is NaN iff no contributing table has a number there, else between their extremes |
| HrfAverage.AverageOfOne | Scripts/generate_HRF_plots/generate_HRF_AVG_60samples.py:99 | averaging a single all-numeric table gives that table back |
| HrfAverage.AveragePath | Scripts/generate_HRF_plots/generate_HRF_AVG_60samples.py:102 | the output is `average_plot.png` in the output directory |
| HrfAverage.ParseFiles | Scripts/generate_HRF_plots/generate_HRF_AVG_60samples.py:66-103 | `parse_files` computes selection, admission, average and output path exactly as `AverageRun` |
| HrfAverage.NothingAdmittedFails | Scripts/generate_HRF_plots/generate_HRF_AVG_60samples.py:67-99 | when no table is admitted the concatenation fails |
| HrfAverage.NoneAdmitted | Scripts/generate_HRF_plots/generate_HRF_AVG_60samples.py:88-96 | tables that are all dropped leave `all_data` empty |
| HrfAverage.AveragePanel | Scripts/generate_HRF_plots/generate_HRF_AVG_60samples.py:11-55 | the average panel needs both mean columns |
| HrfAverage.PlotAverage | Scripts/generate_HRF_plots/generate_HRF_AVG_60samples.py:27-49 | the marker loop of the average plot computes exactly `AveragePanel` |
| HrfAverage.AveragePanelRules | Scripts/generate_HRF_plots/generate_HRF_AVG_60samples.py:11-55 | the average panel follows the per-file rules: one marker per labelled row, the first occurrence labelled, and the arousal-else-valence annotation at `Mean_HbO`. Its legend has no repeated entry and holds exactly `Mean_HbO`, `Mean_HbR` and `Event: e` for each distinct label; this plot has no score placeholders |
| AffectiveStats.DirFiles | Scripts/get_individual_affective_task_stats/get_individual_affective_task_stats.py:43-46 | a file is read iff its name starts `individual_` and ends `.csv` |
| AffectiveStats.RatingFiles | Scripts/get_individual_affective_task_stats/get_individual_affective_task_stats.py:35-46 | only `<dir>/baseline_tasks/affective` of visited `exp_` directories (not the two excluded sessions) is searched; a missing folder is skipped |
| AffectiveStats.KeptRows | Scripts/get_individual_affective_task_stats/get_individual_affective_task_stats.py:52 | a rating is kept iff its row's `event_type` is `final_submission`, projected to image, arousal and valence |
| AffectiveStats.Kept | Scripts/get_individual_affective_task_stats/get_individual_affective_task_stats.py:52 | filtering succeeds iff `event_type` and the three projected columns exist, keeping at most the file's rows |
| AffectiveStats.Append | Scripts/get_individual_affective_task_stats/get_individual_affective_task_stats.py:55 | `concat` gives the master's rows followed by the new ones |
| AffectiveStats.FoldAppend | Scripts/get_individual_affective_task_stats/get_individual_affective_task_stats.py:35-55 | reading two runs of files in turn is reading them together |
| AffectiveStats.FoldFailure | Scripts/get_individual_affective_task_stats/get_individual_affective_task_stats.py:49-52 | after an exception no further file is read |
| AffectiveStats.MasterIsConcatenation | Scripts/get_individual_affective_task_stats/get_individual_affective_task_stats.py:32-55 | the master has columns iff some file was read, holds as many rows as the files kept in total, and each file's rows follow those before |
| AffectiveStats.MasterPrefixStable | Scripts/get_individual_affective_task_stats/get_individual_affective_task_stats.py:55 | rows already in the master are never changed by later files |
| AffectiveStats.ReadFolder | Scripts/get_individual_affective_task_stats/get_individual_affective_task_stats.py:43-55 | the inner loop over one folder's listing reassigns the master as specified |
| AffectiveStats.CollectRatings | Scripts/get_individual_affective_task_stats/get_individual_affective_task_stats.py:32-55 | the outer loop over the root listing builds exactly the in-order concatenation |
| AffectiveStats.ScoresFor | Scripts/get_individual_affective_task_stats/get_individual_affective_task_stats.py:92 | the scores of exactly the master rows showing an image |
| AffectiveStats.ScoresForCount | Scripts/get_individual_affective_task_stats/get_individual_affective_task_stats.py:92 | one score per master row showing the image: their number is the number of such rows, and each value occurs exactly as many times as such rows hold it |
| AffectiveStats.Images | Scripts/get_individual_affective_task_stats/get_individual_affective_task_stats.py:92 | the groups are the non-NaN image paths occurring in the master |
| AffectiveStats.PerImageMean | Scripts/get_individual_affective_task_stats/get_individual_affective_task_stats.py:92 | one mean per group |
| AffectiveStats.PerImageMeanBounds | Scripts/get_individual_affective_task_stats/get_individual_affective_task_stats.py:92 | an image's mean is the mean of its rows' scores: NaN iff none has a score, else between their least and greatest |
| AffectiveStats.PerImageMeanAgreeing | Scripts/get_individual_affective_task_stats/get_individual_affective_task_stats.py:103 | an image whose rows all give one score has that score as its mean |
| AffectiveStats.Summary | Scripts/get_individual_affective_task_stats/get_individual_affective_task_stats.py:61-103 | fails iff no file was read (KeyError on `arousal_score`) or a score column holds text; otherwise per-image arousal and valence means over the same images |
| AffectiveStats.RunStats | Scripts/get_individual_affective_task_stats/get_individual_affective_task_stats.py:32-103 | the script, with its jitter and plots left out, computes exactly `Stats` |
| EkgQuality.ExpNames | Scripts/check_EKG_quality/check_EKG.py:16 | exactly the listing's entries starting `exp_`, in listing order |
| EkgQuality.StationValueCases | Scripts/check_EKG_quality/check_EKG.py:26-43 | a station's value is `None` iff loading raised FileNotFoundError/EmptyDataError/KeyError, `AUX_EKG` is missing, or quality raised one of those; it is `q` iff quality returned `q`; any other exception propagates |
| EkgQuality.RowShape | Scripts/check_EKG_quality/check_EKG.py:23-43 | a row holds `exp_dir` and each station's own value, and no other key |
| EkgQuality.DirRowShape | Scripts/check_EKG_quality/check_EKG.py:22-43 | a directory's row has exactly the keys `exp_dir`, `lion`, `tiger`, `leopard`, the base name, and each station's value |
| EkgQuality.DirRowKeys | Scripts/check_EKG_quality/check_EKG.py:22-43 | a successful row's keys are `exp_dir` and the three stations, with the directory's base name under `exp_dir` |
| EkgQuality.DirRowValue | Scripts/check_EKG_quality/check_EKG.py:25-43 | each station's entry is the value its own `try` produced |
| EkgQuality.DirRowFails | Scripts/check_EKG_quality/check_EKG.py:41 | a row fails iff some station raised, and that exception is never a caught kind |
| EkgQuality.ReportFails | Scripts/check_EKG_quality/check_EKG.py:21-45 | the run fails iff some `exp_` directory's row failed |
| EkgQuality.ReportRows | Scripts/check_EKG_quality/check_EKG.py:16-45 | one row per `exp_` entry, in listing order, each that directory's row under its own name |
| EkgQuality.StationIsolated | Scripts/check_EKG_quality/check_EKG.py:25-43 | a station's value depends only on loading its own file, whatever the other stations do |
| EkgQuality.CheckDir | Scripts/check_EKG_quality/check_EKG.py:22-45 | the station loop writing `result_row` computes exactly `DirRow` |
| EkgQuality.CheckAll | Scripts/check_EKG_quality/check_EKG.py:16-45 | the directory loop appending to `results` computes exactly `Report` |
| EkgQuality.CheckEach | Scripts/check_EKG_quality/check_EKG.py:20-45 | the directory loop processes the directories in order until one raises, exactly as `RunAll` over `DirRow` |
| EkgQuality.TryStation | Scripts/check_EKG_quality/check_EKG.py:26-43 | one station's `try` and `except` compute exactly `StationValue` |

## Left out

- Rendering is not modelled: matplotlib and adjustText figure layout, line styles, the `* 0.1` time axis, titles (including `capitalize`), `tight_layout`, `savefig`, `show` and the hexbin and histogram plots. A saved figure is modelled only as its panels, markers, annotations and legend entries.
- `os.walk`, `os.listdir`, `os.path.exists` and `os.makedirs` are not executed. Walk steps, listings and the set of existing affective folders (a map from directory to listing) are parameters.
- `os.path.join` uses the POSIX `/` separator. `os.sep` is taken to be `/`.
- `pd.read_csv` is a total function parameter from path to table. Its own errors (missing or malformed file, delimiter handling) are not modelled in the three plotting and statistics scripts. In the ECG script, loading is a parameter that may raise any of the modelled exception kinds.
- The exclusion table is given as a sequence of (session, station) pairs. Reading `ignore_experimenter.csv` and its failure are not modelled.
- The neurokit2 cleaning, peak detection and quality scoring and the `* 1e-6` scaling are one function parameter returning a quality label or an exception.
- Random jitter (`np.random.rand`) is not modelled. Only its KeyError or TypeError on the master table is.
- Floats are exact `real` numbers. Rounding and the printed text of the `A(...)`/`V(...)` annotations (a score is kept as its cell) are not modelled.
- argparse, printed diagnostics and the output directory creation are not modelled.
- HrfAverage.Averaged: the average covers only the columns that are numeric in every admitted table. Whether pandas keeps, drops or rejects a text column such as `event_type` in `groupby(level=0).mean()` depends on its version, so it is not modelled.
- HrfAverage.AveragePanel: the event column the average plot reads is a caller-supplied parameter, for the same reason.
- AffectiveStats.PerImageMean: the groups are a map, so the sorted order of the bar-chart index is not modelled.
- AffectiveStats.Summary: the mean is taken over a column that holds no text. A text score fails earlier, at the jitter line.
- The selection of both HRF plotters is computed before any file is read. This agrees with the scripts' interleaving because reads have no modelled side effects.
- HrfPlots.ChannelNames: a CSV that already holds `Mean_HbO`/`Mean_HbR` columns yields a `Mean` channel, as in the script.
