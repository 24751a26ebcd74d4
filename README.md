# Yataco Academy dashboard: the data pipeline

This project is a Dafny model of the data pipeline in the Streamlit
dashboard `app.py`. The user uploads a sheet of courses and the script
turns it into the figures the dashboard shows:

1. Every column name is trimmed of surrounding whitespace.
2. Two columns are derived. The site is the part of `Período` before the
   first `" - "`, or `"Sin Sede"` when there is no such column. The shift
   is the last `" - "`-separated part of `Sede - turno`, or `"Sin Turno"`
   when there is no such column.
3. The capacity column is chosen: `Cupo máximo` first, then `Cupo`, or
   none.
4. The site options are the distinct sites in sorted order. The table is
   filtered to the selected sites.
5. Over the filtered rows the script computes total students, total
   capacity and the number of courses. It also sums students per site.

The model has four modules:

- `PyStr` (`pystr.dfy`) gives the Python string operations the script
  relies on.
  - `str.strip` uses the exact `str.isspace` character set.
  - `str.split` is the greedy, left-to-right, non-overlapping scan Python
    performs. Its first and last pieces are modelled too.
  - String order is lexicographic by code point.
  - `sorted(df['SEDE_EXTRAIDA'].unique())` is modelled as `SortedDistinct`
    over the text sites. `unique()` keeps NaN once, so an all-NaN site
    column gives the single option NaN.
- `Tables` (`tables.dfy`) gives the data frame.
  - Column names are in order, and rows hold cells by position.
  - A cell is text, an integer, or `Blank` (pandas NaN).
  - It covers column lookup, `df[name] = values` and the column sum.
- `Frames` (`frames.dfy`) holds the steps that change the frame in place.
  - The frame is a class `Frame` whose methods trim the names and assign
    the two derived columns.
  - Each method is tied to a function on table values.
  - `Prepare` runs the three steps on an uploaded table.
- `Dashboard` (`dashboard.dfy`) holds the read-only steps.
  - It covers the capacity alias, the site options, the site filter, the
    headline figures and the students-per-site breakdown.
  - It also holds the lemmas that relate these steps to one another.

The sentinels are the script's own literals `"Sin Sede"` and
`"Sin Turno"`. The shift is the last piece of the split, taken verbatim.

## Model

| member | source | states |
|---|---|---|
| PyStr.Strip | app.py:24 | the result has no whitespace at either end and is empty exactly when the name is all whitespace |
| PyStr.StripCutsOnlySpace | app.py:24 | the result is the piece of the name after its leading whitespace, with only whitespace before and after it |
| PyStr.StripIdempotent | app.py:24 | trimming a trimmed name changes nothing |
| Frames.Frame.StripColumnNames | app.py:24 | the frame's new value is the old one with every column name trimmed, rows untouched |
| Frames.StripColumnsSpec | app.py:24 | trimming keeps the number and order of columns; each new name is the trimmed old one and has no edge whitespace; rows are unchanged |
| Frames.StripColumnsIdempotent | app.py:24 | trimming all column names twice is the same as once |
| Tables.IndexOf | app.py:29 | a column is found at the first position holding its name |
| Tables.WithColumn | app.py:29-31 | `df[name] = values` overwrites an existing column in place or appends a new one at the end; the column then reads back as `values` and every other cell is kept |
| Frames.Frame.Assign | app.py:29-31 | the in-place assignment leaves the frame equal to `WithColumn` of its old value |
| Frames.Frame.DeriveSite | app.py:28-31 | the frame gains the site column as defined by `SiteValues` |
| Frames.Frame.DeriveShift | app.py:34-37 | the frame gains the shift column as defined by `ShiftValues` |
| Frames.Prepare | app.py:24-37 | running the three in-place steps yields `Prepared(raw)` |
| Frames.SiteOfRow | app.py:28-31 | each row's site is the first piece of its period cell when `Período` exists and `"Sin Sede"` otherwise |
| Frames.SiteOfText | app.py:29 | a text site is a prefix of the period with no separator starting in it, followed by `" - "` unless it is the whole period; it is the whole period exactly when there is no separator |
| PyStr.FirstPieceIsPrefixBeforeFirstSeparator | app.py:29 | `s.split(sep)[0]` is the text before the first occurrence of `sep`, and all of `s` exactly when `sep` does not occur |
| Frames.SiteSample | app.py:27-29 | the period `"VIRTUAL - I_25"` gives the site `"VIRTUAL"` |
| Frames.ShiftOfRow | app.py:34-37 | each row's shift is the last piece of its `Sede - turno` cell when that column exists and `"Sin Turno"` otherwise |
| Frames.ShiftOfText | app.py:35 | a text shift is the suffix after the separator where the split stopped, contains no separator, and is the whole value exactly when there is no separator |
| PyStr.LastPieceIsSuffixAfterSeparator | app.py:35 | `s.split(sep)[-1]` is a separator-free suffix of `s`, preceded by `sep` unless it is all of `s`, and all of `s` exactly when `sep` does not occur |
| Frames.ShiftSample | app.py:33-35 | the value `"YATACO PRINCIPAL - Noche"` gives the shift `"Noche"` |
| PyStr.SplitOnce | app.py:29 | with exactly one separator, the split gives the text before it and the text after it |
| PyStr.FindFromSpec | app.py:29 | the scan finds an occurrence of the separator with none before it, and finds nothing exactly when the separator does not occur from the start position on |
| PyStr.LastStartAtStart | app.py:35 | the last piece begins at the start exactly when no separator occurs |
| PyStr.LastStartAfterSeparator | app.py:35 | otherwise the last piece begins just after an occurrence of the separator |
| PyStr.LastStartNoneAfter | app.py:35 | no separator begins at or after the start of the last piece |
| PyStr.Split | app.py:29 | a split has at least one piece, no piece contains the separator, and joining the pieces with the separator gives back the original text |
| PyStr.FirstPiece | app.py:29 | `s.split(sep)[0]` is a prefix of `s` with no separator in it |
| PyStr.LastPiece | app.py:35 | `s.split(sep)[-1]` is a suffix of `s` with no separator in it |
| PyStr.JoinStartsWithFirst | app.py:29 | a joined text starts with its first piece |
| PyStr.JoinEndsWithLast | app.py:35 | a joined text ends with its last piece |
| PyStr.LastPieceAfterLastOccurrence | app.py:35 | when no two occurrences of the separator overlap, the last piece is the text after the last occurrence |
| Frames.OverlappingSeparatorsSample | app.py:29-35 | in `"a - - b"` the split is greedy: the site is `"a"` and the shift is `"- b"` |
| Frames.SiteOf | app.py:29 | a text cell gives a separator-free prefix of its text; every other cell gives NaN |
| Frames.ShiftOf | app.py:35 | a text cell gives a separator-free suffix of its text; every other cell gives NaN |
| Frames.SiteValues | app.py:28-31 | the site column has one cell per row, each text or NaN, and is all `"Sin Sede"` without a `Período` column |
| Frames.ShiftValues | app.py:34-37 | the shift column has one cell per row, each text or NaN, and is all `"Sin Turno"` without a `Sede - turno` column |
| Frames.StripColumns | app.py:24 | trimming keeps the number of columns and leaves the rows as they were |
| Frames.Prepared | app.py:24-37 | the prepared frame is well formed, keeps every row, and has both derived columns |
| Tables.Column | app.py:29 | `df[name]` has one cell per row, the row's cell at the first column called `name` |
| Tables.Sum | app.py:51-52 | a column without numbers sums to 0, and a column of non-negative numbers has a non-negative sum |
| PyStr.StrLess | app.py:44 | a proper prefix sorts before the longer string |
| Dashboard.SumFor | app.py:67 | a site that no row has gets a sum of 0 |
| Dashboard.SumUngrouped | app.py:67 | when every site is text, no students are left out of the groups |
| Dashboard.PreparedShape | app.py:24-37 | the prepared frame keeps every row, has both derived columns, and its site column holds only text or NaN |
| Dashboard.WithColumnKeepsOther | app.py:35 | assigning the shift column leaves the site column as it was |
| Dashboard.CapacityColumn | app.py:40 | `Cupo máximo` whenever present, `Cupo` exactly when it is present and `Cupo máximo` is not, none exactly when both are missing |
| PyStr.SortedDistinct | app.py:44 | the result is strictly increasing and holds exactly the input's strings |
| PyStr.Insert | app.py:44 | inserting into a strictly sorted list keeps it strictly sorted and adds just the new string |
| PyStr.StrictlySortedUnique | app.py:44 | two strictly sorted lists with the same elements are equal |
| PyStr.StrLessTransitive | app.py:44 | Python's string order is transitive |
| PyStr.StrLessTotal | app.py:44 | any two different strings are ordered one way or the other |
| Dashboard.SiteOptions | app.py:44 | the options are exactly the distinct sites, in strictly increasing order; `sorted` fails exactly when text and NaN sites are mixed |
| Dashboard.SiteOptionsDistinct | app.py:44 | no option is offered twice |
| Dashboard.SiteOptionsUnique | app.py:44 | the options are the only strictly sorted list of the distinct text sites |
| Dashboard.KeepRows | app.py:47 | a row is kept exactly when it is an input row whose site is selected; nothing is kept for an empty selection |
| Dashboard.KeepRowsAppend | app.py:47 | the filter distributes over concatenation of rows, so the original order is kept |
| Dashboard.FilterBySite | app.py:47 | the filtered frame has the same columns; a row is in it exactly when it is an input row with a selected site; an empty selection gives no rows |
| Dashboard.FilterIsStable | app.py:45-47 | filtering rows `a + b` gives the kept rows of `a` followed by the kept rows of `b` |
| Dashboard.FilterSelectingEverySite | app.py:45-47 | a selection holding every row's site keeps the whole frame |
| Dashboard.DefaultSelectionKeepsEverything | app.py:44-47 | with the default selection of all options, the prepared frame passes the filter unchanged and every course is counted |
| Tables.SumAppend | app.py:51-52 | a column sum is additive over concatenation |
| Dashboard.Metrics | app.py:51-53 | students is the `Estudiantes` sum, or 0 without that column; capacity is the resolved column's sum, or 0 when none resolved; courses is the row count |
| Dashboard.MetricsAdditive | app.py:51-53 | each figure for rows `a + b` is its figure for `a` plus its figure for `b` |
| Dashboard.StudentsBySite | app.py:66-67 | present exactly when there is an `Estudiantes` column; one entry per distinct text site, strictly increasing in site, each holding the students of that site's rows |
| Dashboard.GroupKeys | app.py:67 | the groups are the distinct text sites, strictly sorted |
| Dashboard.HitsOnce | app.py:67 | with distinct group keys, a row's students land in exactly one group when its site is text, in none otherwise |
| Dashboard.GroupsPartitionStudents | app.py:67 | group totals (line 67) plus the students of NaN-site rows equal the column sum of line 51 |
| Dashboard.PerSiteSumsAddUp | app.py:67 | per-site sums over every site, plus the students of rows whose site is NaN (which `groupby` drops), equal the total students of line 51 |
| Dashboard.PerSiteSumsEqualTotal | app.py:67 | when every site is text, the per-site sums add up exactly to the total students of line 51 |
| Dashboard.FilteredPerSiteSumsEqualTotal | app.py:67 | on the frame filtered at line 47 with only text sites selected, the per-site sums add up to the students total |

## Left out

- The Streamlit page setup, the sidebar, the uploader, the metric and table widgets, and the info and error messages (app.py:6-13, 50, 55-65, 71-81, 84-86) are UI. The multiselect's result (app.py:45) is an input set `sel`.
- File reading with `pd.read_csv` / `pd.read_excel` (app.py:18-21) is I/O. The model starts from the uploaded table.
- The plotly bar and pie charts (app.py:68-70, 75-77) are presentation. The per-shift pie chart adds no modelled computation beyond the derived shift column.
- The `try`/`except` catch-all (app.py:16, 83-84) shows an error message. `SiteOptions` instead returns `Err` for the one failure the model exhibits: `sorted` comparing text with NaN.
- Frames.SiteOf: a `.str` accessor on a column with no text at all raises in pandas. The model treats every non-text cell as giving NaN, as it does in a text column.
- Frames.ShiftOf: the same holds at app.py:35. When `Sede - turno` holds no text at all, `.str` raises `AttributeError`; the model gives NaN for each cell instead.
- Tables.Sum: cells are integers, text or NaN. Floats are not modelled, NaN is skipped as pandas skips it, and a text cell in a summed column counts 0, where pandas would raise or concatenate. `Cell.Num` holds an unbounded integer, so the int64 wrap-around of `Series.sum` and of the grouped sum (app.py:51-52, 67) is not modelled.
- Tables.IndexOf: with duplicate column names pandas returns several columns. The model uses the first.
- Column names are strings. Non-string column names, which would make `strip` raise, are outside the model.
- Period-month extraction, occupancy and the period filter do not exist in this script.
