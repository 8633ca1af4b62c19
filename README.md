# multidn2gnuplot in Dafny

`multidn2gnuplot.py` is a Python 2 script from network-bench. It collects the
results of several benchmark runs into data series for gnuplot:

- It selects the log files in the current directory whose names match a
  pattern, and sorts them case-insensitively.
- It reads an item number (an MTU, a buffer size, ...) from each file name,
  the text after `.output.`.
- It routes every `label : value` line of the file to one of seven series
  files (`<basename>.cumulated`, `<basename>.average_bp_host`, ...), as a row
  `<item> <value>`.
- It writes the gnuplot script `mymath`, eight `call 'math.gpm' ...` lines that
  plot those files.

The output basename comes from the pattern through a chain of `str.replace`
rewrites.

This project models that core:

| file | module | what it models |
|---|---|---|
| `text.dfy` | `Text` | the interpreter's string operations: `t in s`, `str.find`, `str.replace` (left to right, without overlaps), `str.lower`, string ordering, `'%d' % n` and base-10 `int(s)` |
| `basename.dfy` | `Basename` | the basename rewrite of `-p` (lines 162-174) |
| `options.dfy` | `Options` | the option loop of `main` (lines 146-183), both as written and corrected (see Findings) |
| `selection.dfy` | `Selection` | `find_file` and the empty check and sort in `main` (lines 29-38, 185-190) |
| `series.dfy` | `Series` | the seven series: label keys, test order, file suffixes, header and row formats (lines 48-62, 86-100) |
| `routing.dfy` | `Routing` | the split of a line by `(.*) : (.*)` and the `if`/`elif` chain that picks its series (lines 84-100) |
| `items.dfy` | `Items` | the item number: `re.search('(?<=.output.).*', file)` followed by `int()` (lines 66-70) |
| `script.dfy` | `GnuplotScript` | the `call` line format (lines 40-43) and the eight calls (lines 115-122) |
| `extract.dfy` | `Extraction` | `compute_math` (lines 45-122) as a class `Outputs` whose methods append to the series files and to `mymath` |
| `program.dfy` | `Program` | `main` (lines 146-199): options, selection, `compute_math`, and how the run ends |

State is modelled in the same shape as the source:

- A directory entry is `File(name, content)`.
- `readline` is `ReadLine` over the content: a line keeps its newline.
- Each open series file is the sequence of strings written to it, held in the
  map field `Outputs.series`.
- `mymath` is the field `Outputs.script`.
- The loops of `find_file`, of the option parser and of `compute_math` (the
  loop over files and the `while True` over `readline`) are `while` loops.
  Each of them is proved against a specification function: `Matching`,
  `Parse`, `Extracted` and `LineRows`.

The regular expressions are modelled as follows:

- **`(.*) : (.*)`** (`Routing.Split`). `.` does not match the line's final
  newline, and the first `.*` is greedy. So the label is everything before the
  last ` : ` of the line, and the value is everything after it.
- **`(?<=.output.).*`** (`Items.ItemOf`). The first position preceded by "any
  character but newline, `output`, any character but newline" starts the item
  text. The text runs to the end of the name or to a newline.

An item text that `int()` rejects raises ValueError in the source, which ends
the program. The model represents this as `NotANumber`. `ComputeMath` then
returns `false`: the series hold what was written before that file, and
`mymath` is unchanged.

## Model

| member | source | states |
|---|---|---|
| Text.FindIsFirst | multidn2gnuplot.py:168-171 | `Find` (the interpreter's `str.find`) fails exactly when the text does not occur, and otherwise returns the first occurrence |
| Text.FindLastIsLast | multidn2gnuplot.py:84 | `FindLast` fails exactly when the text does not occur, and otherwise returns the last occurrence. This is where a greedy `(.*) : ` ends |
| Text.ReplaceIsFindReplace | multidn2gnuplot.py:164-171 | the recursive `Replace` equals the interpreter's algorithm: find the first occurrence, copy what precedes it, emit the replacement, continue after the occurrence |
| Text.ReplaceNoLonger | multidn2gnuplot.py:164-171 | a replacement no longer than its pattern never lengthens the string |
| Text.ReplaceKeepsAbsent | multidn2gnuplot.py:164-171 | a character absent from the string and from the replacement is absent from the result |
| Text.ReplaceRemovesChar | multidn2gnuplot.py:164-169 | replacing one character by text without it removes every copy of it |
| Text.IntToStringRoundTrip | multidn2gnuplot.py:70 | `int('%d' % n) == n` for every integer `n` |
| Text.SpaceAfterSign | multidn2gnuplot.py:70 | `int('- 5') == -5`: white space between the sign and the digits is skipped, as the interpreter does |
| Text.ReplaceAbsent | multidn2gnuplot.py:164-171 | `str.replace` leaves a string without the pattern as it is |
| Text.LexLeTotal | multidn2gnuplot.py:190 | string order is total |
| Text.LexLeTrans | multidn2gnuplot.py:190 | string order is transitive |
| Basename.StripBackslashes | multidn2gnuplot.py:163-164 | the pattern `main` keeps has no backslash and is no longer than the argument |
| Basename.SimplifyNoWildcards | multidn2gnuplot.py:168-171 | the four rewrites leave no `*`, add no backslash, and do not lengthen the string |
| Basename.DeriveBasename | multidn2gnuplot.py:162-174 | the derived basename has no `*` and no backslash, and is no longer than the `-p` argument |
| Basename.AllWildcardsLeaveEmpty | multidn2gnuplot.py:162-174 | the pattern `*-*-*.output` derives the empty basename |
| Basename.PlainPatternIsItsOwnBasename | multidn2gnuplot.py:162-174 | a pattern without backslash, `*`, `--` or `.output`, which neither starts nor ends with a dash, is its own basename |
| Basename.WildcardSuffixBasename | multidn2gnuplot.py:162-174 | a pattern `<stem>.output*` whose stem has no backslash, `*`, `-` or `.` derives the basename `<stem>` |
| Basename.UsageExampleBasename | multidn2gnuplot.py:162-174 | the usage text's pattern `diag_network.output*` derives the basename `diag_network` |
| Options.ApplyOptions | multidn2gnuplot.py:161-183 | the corrected option loop returns `ShowHelp` when some `-h` is given, and otherwise the settings of `Parse` |
| Options.ApplyOptionsAsWritten | multidn2gnuplot.py:161-183 | the option loop as written returns `ShowHelp` when some `-h` is given, and otherwise the settings of `ParseAsWritten` |
| Options.LastIsLast | multidn2gnuplot.py:161-180 | `Last` finds the last option of the given kinds, and fails exactly when there is none |
| Options.FoldAsWrittenMeaning | multidn2gnuplot.py:148-180 | as written, pattern, title and unit come from the last `-p`, `-t` and `-u`, or keep their initial values. Rendering is on exactly when `-g` occurs. The basename is the rewrite of the last `-p`, or `result` when there is none. `-o` has no effect |
| Options.FoldMeaning | multidn2gnuplot.py:138-180 | with the corrected loop, the basename comes from whichever of the last `-p` and the last `-o` is later: the rewrite for `-p`, the argument itself for `-o`. Without either, it is `result`. The other settings are as above |
| Options.AsWrittenDiffersOnlyByOutputFile | multidn2gnuplot.py:161-180 | the loop as written and the corrected loop agree on everything but the basename, and agree on the basename too when no `-o` is given |
| Options.OutputFileIgnored | multidn2gnuplot.py:156-183 | `-o x` as written leaves the default settings; corrected, it sets the basename to `x` |
| Selection.MatchingCounts | multidn2gnuplot.py:29-38 | the kept entries are the matching entries, each as often as the listing has it |
| Selection.FindFile | multidn2gnuplot.py:29-38 | `find_file` returns the matching entries in listing order, and an entry is returned exactly when it is listed and its name matches |
| Selection.SortByNameSorts | multidn2gnuplot.py:190 | `sorted(..., key=str.lower)` is ordered by lower-cased name and is a permutation of its input |
| Selection.SelectMeaning | multidn2gnuplot.py:185-190 | selection fails exactly when no entry matches. Otherwise it returns every matching entry and nothing else, sorted by lower-cased name, with the same multiplicities |
| Routing.SplitIsLastSeparator | multidn2gnuplot.py:84 | the regular expression fails exactly when the line body has no ` : `. Otherwise the body is label, ` : `, value, and no ` : ` starts inside the separator's end or the value |
| Routing.SplitUnique | multidn2gnuplot.py:84 | conversely, every such decomposition of a line is the one the regular expression finds |
| Routing.ClassifyFirstMatch | multidn2gnuplot.py:85-100 | a line routed to series `m` has a non-empty label and value. Its label contains `m`'s key and no key tested earlier. For the host deviation series, the value contains `Mbps` |
| Routing.ClassifyComplete | multidn2gnuplot.py:85-100 | conversely, every line with those properties is routed to `m` with its value |
| Routing.UnsplittableIgnored | multidn2gnuplot.py:84-85 | a line without ` : `, or with an empty label or value, feeds no series |
| Routing.HostDeviationNeedsMbps | multidn2gnuplot.py:96-99 | a host deviation label whose value lacks `Mbps` writes nothing, and does not fall through to the streams test |
| Items.FirstMarkerFromIsFirst | multidn2gnuplot.py:66 | the search finds the first position where the look-behind holds, and fails when there is none |
| Items.NoMarkerIffNoMatch | multidn2gnuplot.py:66-68 | a file is skipped exactly when the look-behind holds nowhere in its name |
| Items.ItemIsRestAfterFirstMatch | multidn2gnuplot.py:66-70 | otherwise the item is `int()` of the rest of the name after the first match, up to a newline, or the text `int()` rejects |
| Items.ItemOfNumberedName | multidn2gnuplot.py:66-70 | a name `<stem>.output.<n>` whose stem neither contains `output` nor a newline yields the item `n` |
| Items.UsageExampleItem | multidn2gnuplot.py:66-70 | the name `diag_network.output.1500`, of the kind the usage text's pattern selects, yields the item 1500 |
| GnuplotScript.SplitJoin | multidn2gnuplot.py:42 | joining pieces without a quote by single quotes and splitting again gives the pieces back |
| GnuplotScript.DecodeRender | multidn2gnuplot.py:40-43 | a `call` line written for values without a single quote hands `math.gpm` those values: the title, the file twice around an empty argument, the axis label and the unit |
| GnuplotScript.SeriesFilesDistinct | multidn2gnuplot.py:48-54 | different series are written to different files |
| GnuplotScript.EverySeriesPlotted | multidn2gnuplot.py:115-122 | the script draws every series file: the host deviation file twice, each of the other six once |
| GnuplotScript.ScriptLinesDecode | multidn2gnuplot.py:115-122 | `mymath` has eight lines. Line `i` passes the plot's heading followed by the title, the plot's series file, its axis label and the unit |
| Extraction.LinesConcat | multidn2gnuplot.py:71-76 | reading a file line by line until `readline` returns the empty string loses and adds nothing: the lines concatenate to the content |
| Extraction.LinesShape | multidn2gnuplot.py:73 | every line is non-empty, has a newline only at its end, and every line but the last ends with one |
| Extraction.ConcatLines | multidn2gnuplot.py:71-76 | conversely, lines that each end with their only newline, written one after another, are read back one by one |
| Extraction.HeaderIsLine | multidn2gnuplot.py:56-62 | the header of every series, for a unit without a newline, is one line of its file |
| Extraction.RowIsLine | multidn2gnuplot.py:86-100 | a row `<item> <value>`, for a value without a newline, is one line of its file |
| Extraction.SeriesReadBack | multidn2gnuplot.py:56-100 | a series file read back line by line gives its header and then each row written after it |
| Extraction.LineRowMeaning | multidn2gnuplot.py:84-100 | a line adds at most one row to a series. It adds one exactly when it is routed there, and the row is the item and the value |
| Extraction.LineRowsFrom | multidn2gnuplot.py:71-100 | a row is in a file's contribution to series `m` exactly when some line of the file is routed to `m` with that row |
| Extraction.EachLineOnce | multidn2gnuplot.py:83-100 | the seven series together receive exactly one row per routed line of a file, so at most one row per line |
| Extraction.SkipMarkerless | multidn2gnuplot.py:66-68 | a file whose name the look-behind does not match adds nothing to any series and does not stop the run |
| Extraction.StopsAtBadItem | multidn2gnuplot.py:63-70 | nothing after a name whose item text `int()` rejects reaches the series |
| Extraction.ReachedIsFirstBad | multidn2gnuplot.py:63-70 | the files read are exactly those before the first name with a rejected item text |
| Extraction.CumulatedLine | multidn2gnuplot.py:84-87 | a line `Cumulated bandwidth : <value>` with a non-empty value free of `:` and of newlines is routed to the cumulated series with that value |
| Extraction.CumulatedFile | multidn2gnuplot.py:63-87 | a file `<stem>.output.<n>`, whose stem neither contains `output` nor a newline, holding that single line gives the row `<n> <value>` to the cumulated series and nothing to the others |
| Extraction.TwoFileRun | multidn2gnuplot.py:45-100 | two such files give the cumulated series its header and one row per file in reading order, and the other series only their headers |
| Extraction.Outputs.Write | multidn2gnuplot.py:87-100 | one `write` appends its text to one series file and leaves the other series, `mymath` and the basename as they were |
| Extraction.Outputs.OpenSeries | multidn2gnuplot.py:48-62 | opening the seven series files empties each of them and writes its header, and sets the basename they are named after |
| Extraction.Outputs.RouteLine | multidn2gnuplot.py:84-100 | one line appends its row to the series it is routed to, and nothing to the others |
| Extraction.Outputs.ReadFile | multidn2gnuplot.py:71-100 | the `readline` loop appends to each series the rows of all lines of the file, in line order |
| Extraction.Outputs.ReadLogFile | multidn2gnuplot.py:63-101 | one log file is skipped, read, or fails, exactly when its item is missing, a number, or rejected. When read, its rows are appended |
| Extraction.Outputs.ReadLogFiles | multidn2gnuplot.py:63-101 | the loop over the selected files leaves each series with its header and the rows of the files before the first rejected item text. It completes exactly when no name has a rejected item text |
| Extraction.Outputs.AppendCall | multidn2gnuplot.py:40-43 | `generate_gnuplot_math_script` appends exactly one rendered `call` line to `mymath` and changes no series |
| Extraction.Outputs.WriteScript | multidn2gnuplot.py:110-122 | `mymath` is emptied and then receives one rendered line per call, in order |
| Extraction.Outputs.GenerateScript | multidn2gnuplot.py:110-122 | `mymath` ends up holding the eight `call` lines of `ScriptLines` for the title, basename and unit, and no series changes |
| Extraction.Outputs.ComputeMath | multidn2gnuplot.py:45-122 | each series file holds its header and then the rows of the files read, file after file, line after line. The run completes exactly when no selected name has a rejected item text, and then `mymath` holds the eight calls. Otherwise `mymath` is unchanged |
| Program.ExitStatus | multidn2gnuplot.py:155-207 | the exit status is 0 exactly for a finished run and 2 exactly for a rejected command line |
| Program.ExpectedMeaning | multidn2gnuplot.py:155-197 | a run is a usage error exactly when getopt fails, and shows help exactly when `-h` is given. It finds no log file exactly when no entry matches the pattern. A finished run renders exactly when `-g` was given |
| Program.Continue | multidn2gnuplot.py:185-194 | after the option loop, the run finds no log file exactly when no entry matches. Otherwise the series and `mymath` are as `ComputeMath` states for the sorted selection. When no log file is found, nothing is written |
| Program.Run | multidn2gnuplot.py:146-197 | `main` with the corrected option loop ends as `Expected` says. When it reaches `compute_math`, the files are named after the basename `Parse` gives, and hold what `ComputeMath` states for the sorted selection. Otherwise nothing is written |
| Program.SameOutcome | multidn2gnuplot.py:161-194 | the option loop as written and the corrected one lead to the same outcome on every command line and directory: dropping `-o` changes only how the files are named |
| Program.RunAsWritten | multidn2gnuplot.py:146-197 | `main` as written ends as `Expected` says too. When it reaches `compute_math`, the files are named after the basename `ParseAsWritten` gives, so `-o` has no effect on them. They hold what `ComputeMath` states for the sorted selection. Otherwise nothing is written |

## Left out

- File system and I/O. `os.listdir` is the `dir` parameter and file contents are strings. `open`, `close`, `os.remove` and their failures are not modelled: a missing or unreadable log file, a failure to create a series file, the `try`/`except` around `os.remove('mymath')`, and the final `os.remove('gnuplot_temp_file.*')`.
- `fnmatch.fnmatch` is the `matches` parameter; its glob semantics are not modelled.
- `getopt` itself is not modelled. Its result is a parameter: `None` stands for GetoptError, and otherwise it is the list of short options. The option string `gho:t:p:u:` declares no long options, so `--pattern` and the other long forms the usage text lists are GetoptErrors in the source. Positional arguments are ignored, as in the source.
- `print_help`, the `print` statements and the text they print are not modelled. Exit codes are modelled only as `Program.ExitStatus` of the outcome.
- `render_gnuplot` (lines 124-130) runs an external process. `Program.Run` and `Program.RunAsWritten` only report whether `-g` asks for it.
- The `mode` argument of `compute_math` is passed in but never used by it. The model leaves it out. (The `mode` parameter of `generate_gnuplot_math_script` is the axis label, and is modelled.)
- Python exceptions are not modelled. The ValueError of `int()` appears as the outcome `Aborted`, and the series written so far are kept.
- A log file is skipped only when the look-behind finds no match in its name. A match whose text is not a number is not skipped: `int()` raises ValueError and the program stops. The model has this as the outcome `Aborted`.
- A line with more than one ` : ` is split at the last one, since the first `.*` of the regular expression is greedy.
- `Text.ParseInt` covers base-10 `int()` on a byte string: white space around the text, a sign, white space after the sign, and digits. It does not model how Python 2 accepts a trailing `L` for a number too large for `int`, or its locale-dependent white space.
- `Selection.SortByNameSorts` does not state that the sort is stable, which Python's `sorted` guarantees for names equal after `str.lower`. `SortByName` is stable, but no lemma states it.
- `str.lower` is modelled on ASCII only, as Python 2 byte strings in the C locale have it.
- Aliasing is not modelled. A series file or `mymath` may coincide with a selected log file, and the model keeps the two apart.

## Findings

| source | as written | input that shows it | evidently intended | confidence | as-written member | corrected member |
|---|---|---|---|---|---|---|
| multidn2gnuplot.py:156-183 | `-o` is declared in the getopt option string and documented as "The basename for gnuplot traces", but the option loop has no branch for it, so its argument is dropped | `multidn2gnuplot.py -o x`: the series files are still named `result.*` | `-o <file>` sets the basename. The usage text does not say which of `-o` and `-p` wins; the corrected loop lets the later one win, as it does for every other option | not executed | Options.ParseAsWritten, Options.ApplyOptionsAsWritten, Program.RunAsWritten (shown by Options.OutputFileIgnored) | Options.Parse, Options.ApplyOptions (proved by Options.FoldMeaning), used by Program.Run |
