/**
 * `compute_math` (multidn2gnuplot.py:45-122): it truncates the seven series
 * files and writes their headers, then reads every selected log file line by
 * line and appends each routed value, tagged with the file's item number, to
 * its series; at the end it rewrites the gnuplot script `mymath`.
 */
module Extraction {
  import opened Text
  import opened Series
  import opened Routing
  import opened Items
  import opened Selection
  import opened GnuplotScript

  // ---------------------------------------------------------------------------
  // Reading a log file

  /** What `f.readline()` returns on a file holding `s`: up to the first newline, inclusive, or everything. */
  function ReadLine(s: string): (r: string)
    ensures |r| <= |s| && r == s[..|r|]
    ensures s != [] ==> r != []
  {
    var body := RestOfLine(s);
    if |body| < |s| then s[..|body| + 1] else s
  }

  /** The successive lines `readline` returns until it returns the empty string. */
  function Lines(s: string): seq<string>
    decreases |s|
  {
    if s == [] then [] else var l := ReadLine(s); [l] + Lines(s[|l|..])
  }

  function Concat(ls: seq<string>): string {
    if ls == [] then "" else ls[0] + Concat(ls[1..])
  }

  /** Reading all lines loses nothing and adds nothing: their concatenation is the file. */
  lemma {:induction false} LinesConcat(s: string)
    ensures Concat(Lines(s)) == s
    decreases |s|
  {
    if s != [] {
      var l := ReadLine(s);
      LinesConcat(s[|l|..]);
      assert s == l + s[|l|..];
    }
  }

  /** Every line is non-empty, holds a newline only at its end, and every line but the last ends with one. */
  lemma {:induction false} LinesShape(s: string)
    ensures forall i :: 0 <= i < |Lines(s)| ==>
      Lines(s)[i] != [] && '\n' !in Lines(s)[i][..|Lines(s)[i]| - 1]
    ensures forall i :: 0 <= i < |Lines(s)| - 1 ==> Lines(s)[i][|Lines(s)[i]| - 1] == '\n'
    decreases |s|
  {
    if s != [] {
      var l := ReadLine(s);
      var rest := s[|l|..];
      ReadLineShape(s);
      LinesShape(rest);
      var ls, more := Lines(s), Lines(rest);
      assert ls == [l] + more;
      forall i | 0 <= i < |ls|
        ensures ls[i] != [] && '\n' !in ls[i][..|ls[i]| - 1]
      {
        if i > 0 {
          assert ls[i] == more[i - 1];
        }
      }
      forall i | 0 <= i < |ls| - 1
        ensures ls[i][|ls[i]| - 1] == '\n'
      {
        if i > 0 {
          assert ls[i] == more[i - 1];
        } else {
          assert rest != [];
        }
      }
    }
  }

  /** A line read is non-empty, holds a newline only at its end, and ends with one unless it is the rest of the file. */
  lemma ReadLineShape(s: string)
    requires s != []
    ensures var l := ReadLine(s);
      l != [] && '\n' !in l[..|l| - 1] && (|l| < |s| ==> l[|l| - 1] == '\n')
  {
    var l := ReadLine(s);
    var body := RestOfLine(s);
    if |body| < |s| {
      assert l[..|l| - 1] == body;
    } else {
      assert body == s;
    }
  }

  /** A text `readline` returns whole from the middle of a file: non-empty, ending with its only newline. */
  predicate IsLine(l: string) {
    l != [] && l[|l| - 1] == '\n' && '\n' !in l[..|l| - 1]
  }

  /** The converse of `LinesConcat`: lines written one after another are read back one by one. */
  lemma {:induction false} ConcatLines(ls: seq<string>)
    requires forall i :: 0 <= i < |ls| ==> IsLine(ls[i])
    ensures Lines(Concat(ls)) == ls
  {
    if ls != [] {
      var l, rest := ls[0], Concat(ls[1..]);
      var body := l[..|l| - 1];
      assert l == body + "\n";
      RestOfLineBeforeNewline(body, rest);
      assert ReadLine(l + rest) == l by {
        assert (l + rest)[..|body| + 1] == l;
      }
      assert (l + rest)[|l|..] == rest;
      ConcatLines(ls[1..]);
    }
  }

  /** A header written for a unit without a newline is one line of its series file. */
  lemma HeaderIsLine(m: Metric, unit: string)
    requires '\n' !in unit
    ensures IsLine(Header(m, unit))
  {
    var h := Header(m, unit);
    assert h[..|h| - 1] == unit + (if m == AverageCpuHost then " cpu_percent" else " bandwidth");
  }

  /** So is a row whose value holds no newline. */
  lemma RowIsLine(item: int, value: string)
    requires '\n' !in value
    ensures IsLine(Row(item, value))
  {
    var r := Row(item, value);
    IntToStringPlain(item);
    assert r[..|r| - 1] == IntToString(item) + " " + value;
  }

  /** The rows `'%d %s\n'` written for the pairs `rows` of item and value, in order. */
  function RowTexts(rows: seq<(int, string)>): (r: seq<string>)
    ensures |r| == |rows|
  {
    seq(|rows|, i requires 0 <= i < |rows| => Row(rows[i].0, rows[i].1))
  }

  lemma RowTextsAreLines(rows: seq<(int, string)>)
    requires forall i :: 0 <= i < |rows| ==> '\n' !in rows[i].1
    ensures forall i :: 0 <= i < |rows| ==> IsLine(RowTexts(rows)[i])
  {
    forall i | 0 <= i < |rows|
      ensures IsLine(RowTexts(rows)[i])
    {
      RowIsLine(rows[i].0, rows[i].1);
    }
  }

  /**
   * A series file read back with `readline` gives its header first and then
   * each row written after it, provided neither the unit nor a value holds a
   * newline.
   */
  lemma SeriesReadBack(m: Metric, unit: string, rows: seq<(int, string)>)
    requires '\n' !in unit && forall i :: 0 <= i < |rows| ==> '\n' !in rows[i].1
    ensures Lines(Concat([Header(m, unit)] + RowTexts(rows))) == [Header(m, unit)] + RowTexts(rows)
  {
    var body := RowTexts(rows);
    var written := [Header(m, unit)] + body;
    HeaderIsLine(m, unit);
    RowTextsAreLines(rows);
    forall i | 0 <= i < |written|
      ensures IsLine(written[i])
    {
      if i > 0 {
        assert written[i] == body[i - 1];
      }
    }
    ConcatLines(written);
  }

  // ---------------------------------------------------------------------------
  // What the series files receive

  /** The concatenation of `g(x)` over the elements `x` of `xs`, in order. */
  function Flat<T>(g: T -> seq<string>, xs: seq<T>): seq<string> {
    if xs == [] then [] else Flat(g, xs[..|xs| - 1]) + g(xs[|xs| - 1])
  }

  lemma {:induction false} FlatAppend<T>(g: T -> seq<string>, a: seq<T>, b: seq<T>)
    ensures Flat(g, a + b) == Flat(g, a) + Flat(g, b)
    decreases |b|
  {
    if b == [] {
      assert a + b == a;
    } else {
      var n := |b| - 1;
      FlatAppend(g, a, b[..n]);
      assert (a + b)[..|a + b| - 1] == a + b[..n];
      assert (a + b)[|a + b| - 1] == b[n];
    }
  }

  lemma FlatSingle<T>(g: T -> seq<string>, x: T)
    ensures Flat(g, [x]) == g(x)
  {
    assert [x][..0] == [];
  }

  /** The length of `Flat(g, xs)` grows by that of `g` of the last element. */
  lemma FlatLength<T>(g: T -> seq<string>, xs: seq<T>)
    requires xs != []
    ensures |Flat(g, xs)| == |Flat(g, xs[..|xs| - 1])| + |g(xs[|xs| - 1])|
  {
  }

  /** An element of `Flat(g, xs)` comes from `g` of some element of `xs`, and every such element is kept. */
  lemma {:induction false} FlatMember<T>(g: T -> seq<string>, xs: seq<T>, r: string)
    ensures r in Flat(g, xs) <==> exists j :: 0 <= j < |xs| && r in g(xs[j])
  {
    if xs != [] {
      var n := |xs| - 1;
      FlatMember(g, xs[..n], r);
      assert forall j :: 0 <= j < n ==> xs[..n][j] == xs[j];
    }
  }

  /** What series `m` receives from a line that `Classify` routes as `routed`. */
  function RowFor(m: Metric, item: int, routed: Option<(Metric, string)>): seq<string> {
    match routed
    case None => []
    case Some(p) => if p.0 == m then [Row(item, p.1)] else []
  }

  /** What one line adds to series `m` of a file with item number `item`. */
  function LineRow(m: Metric, item: int, line: string): seq<string> {
    RowFor(m, item, Classify(line))
  }

  /** `RowFor` of each line as `route` routes it. */
  function RowOf(m: Metric, item: int, route: string -> Option<(Metric, string)>): string -> seq<string> {
    line => RowFor(m, item, route(line))
  }

  function LineRowOf(m: Metric, item: int): string -> seq<string> {
    RowOf(m, item, Classify)
  }

  /** What the lines of one file add to series `m`, in line order. */
  function LineRows(m: Metric, item: int, lines: seq<string>): seq<string> {
    Flat(LineRowOf(m, item), lines)
  }

  /** What a file adds to series `m`: nothing when its name has no item number. */
  function FileRows(m: Metric, f: File): seq<string> {
    match ItemOf(f.name)
    case Index(n) => LineRows(m, n, Lines(f.content))
    case _ => []
  }

  function FileRowsOf(m: Metric): File -> seq<string> {
    f => FileRows(m, f)
  }

  /** What the files add to series `m`, in the order they are read. */
  function Rows(m: Metric, files: seq<File>): seq<string> {
    Flat(FileRowsOf(m), files)
  }

  /** How many files are read before the first name whose item `int()` rejects. */
  function Reached(files: seq<File>): (k: nat)
    ensures k <= |files|
  {
    if files == [] || ItemOf(files[0].name).NotANumber? then 0 else 1 + Reached(files[1..])
  }

  /** `compute_math` returns normally: no name has an item text `int()` rejects. */
  predicate Completes(files: seq<File>) {
    Reached(files) == |files|
  }

  /** The contents of series `m`'s file after `compute_math` has run, or has stopped at a bad item number. */
  function Extracted(m: Metric, unit: string, files: seq<File>): seq<string> {
    [Header(m, unit)] + Rows(m, files[..Reached(files)])
  }

  /** `Reached` stops at the first name with a rejected item text. */
  lemma {:induction false} ReachedIsFirstBad(files: seq<File>)
    ensures forall j :: 0 <= j < Reached(files) ==> !ItemOf(files[j].name).NotANumber?
    ensures Reached(files) < |files| ==> ItemOf(files[Reached(files)].name).NotANumber?
  {
    if files != [] && !ItemOf(files[0].name).NotANumber? {
      ReachedIsFirstBad(files[1..]);
      assert forall j :: 1 <= j < |files| ==> files[j] == files[1..][j - 1];
    }
  }

  /** Conversely, the files up to `i` are read and the file at `i`, if any, stops the run. */
  lemma ReachedAt(files: seq<File>, i: nat)
    requires i <= |files|
    requires forall j :: 0 <= j < i ==> !ItemOf(files[j].name).NotANumber?
    requires i < |files| ==> ItemOf(files[i].name).NotANumber?
    ensures Reached(files) == i
  {
    ReachedIsFirstBad(files);
  }

  // ---------------------------------------------------------------------------
  // Properties of the extraction

  /** A row ends up in series `m` exactly when some line of the file is routed there with that row's value. */
  lemma LineRowsFrom(m: Metric, item: int, lines: seq<string>, r: string)
    ensures r in LineRows(m, item, lines) <==>
      exists j :: 0 <= j < |lines| && LineRow(m, item, lines[j]) == [r]
  {
    FlatMember(LineRowOf(m, item), lines, r);
    forall j | 0 <= j < |lines|
      ensures r in LineRowOf(m, item)(lines[j]) <==> LineRow(m, item, lines[j]) == [r]
    {
      LineRowMeaning(m, item, lines[j]);
    }
  }

  /** A line's row for `m` is the item number and the value the line is routed to `m` with. */
  lemma LineRowMeaning(m: Metric, item: int, line: string)
    ensures |LineRow(m, item, line)| <= 1
    ensures LineRow(m, item, line) != [] <==> Classify(line).Some? && Classify(line).value.0 == m
    ensures LineRow(m, item, line) != [] ==> LineRow(m, item, line)[0] == Row(item, Classify(line).value.1)
  {
  }

  lemma LineRowsSnoc(item: int, done: seq<string>, s: string)
    ensures forall m :: LineRows(m, item, done + [s]) == LineRows(m, item, done) + LineRow(m, item, s)
  {
    assert (done + [s])[..|done|] == done;
  }

  /** Reading one more file appends its rows to every series. */
  lemma SeriesSnoc(files: seq<File>, i: nat, unit: string)
    requires i < |files|
    ensures forall m ::
      [Header(m, unit)] + Rows(m, files[..i + 1]) == [Header(m, unit)] + Rows(m, files[..i]) + FileRows(m, files[i])
  {
    assert files[..i + 1][..i] == files[..i];
  }

  /** Where the run stops, or ends, after `i` files, the series hold their header and those files' rows. */
  lemma ExtractedAt(files: seq<File>, i: nat, unit: string)
    requires i <= |files|
    requires forall j :: 0 <= j < i ==> !ItemOf(files[j].name).NotANumber?
    requires i < |files| ==> ItemOf(files[i].name).NotANumber?
    ensures Completes(files) <==> i == |files|
    ensures forall m :: Extracted(m, unit, files) == [Header(m, unit)] + Rows(m, files[..i])
  {
    ReachedAt(files, i);
  }

  /** How many lines `route` sends to some series. */
  function CountRouted(route: string -> Option<(Metric, string)>, lines: seq<string>): nat {
    if lines == [] then 0
    else CountRouted(route, lines[..|lines| - 1]) + (if route(lines[|lines| - 1]).Some? then 1 else 0)
  }

  /** How many lines are routed to some series. */
  function RoutedCount(lines: seq<string>): nat {
    CountRouted(Classify, lines)
  }

  /** Every routed line goes to exactly one series: the seven series together get one row per routed line. */
  lemma EachLineOnce(item: int, lines: seq<string>)
    ensures |LineRows(Cumulated, item, lines)| + |LineRows(AverageBpHost, item, lines)| +
            |LineRows(AverageBpStream, item, lines)| + |LineRows(AverageCpuHost, item, lines)| +
            |LineRows(AverageNetworkPerCpu, item, lines)| + |LineRows(StddevBetweenHosts, item, lines)| +
            |LineRows(StddevBetweenStreams, item, lines)| == RoutedCount(lines)
    ensures RoutedCount(lines) <= |lines|
  {
    EachRoutedOnce(item, Classify, lines);
  }

  /** The same for any routing function that names at most one series per line. */
  lemma {:induction false} EachRoutedOnce(item: int, route: string -> Option<(Metric, string)>, lines: seq<string>)
    ensures |Flat(RowOf(Cumulated, item, route), lines)| + |Flat(RowOf(AverageBpHost, item, route), lines)| +
            |Flat(RowOf(AverageBpStream, item, route), lines)| + |Flat(RowOf(AverageCpuHost, item, route), lines)| +
            |Flat(RowOf(AverageNetworkPerCpu, item, route), lines)| +
            |Flat(RowOf(StddevBetweenHosts, item, route), lines)| +
            |Flat(RowOf(StddevBetweenStreams, item, route), lines)| == CountRouted(route, lines)
    ensures CountRouted(route, lines) <= |lines|
  {
    if lines != [] {
      var n := |lines| - 1;
      EachRoutedOnce(item, route, lines[..n]);
      FlatLength(RowOf(Cumulated, item, route), lines);
      FlatLength(RowOf(AverageBpHost, item, route), lines);
      FlatLength(RowOf(AverageBpStream, item, route), lines);
      FlatLength(RowOf(AverageCpuHost, item, route), lines);
      FlatLength(RowOf(AverageNetworkPerCpu, item, route), lines);
      FlatLength(RowOf(StddevBetweenHosts, item, route), lines);
      FlatLength(RowOf(StddevBetweenStreams, item, route), lines);
      RowForOnce(item, route(lines[n]));
    }
  }

  /** A routed line gives a row to exactly one series, an unrouted one to none. */
  lemma RowForOnce(item: int, routed: Option<(Metric, string)>)
    ensures |RowFor(Cumulated, item, routed)| + |RowFor(AverageBpHost, item, routed)| +
            |RowFor(AverageBpStream, item, routed)| + |RowFor(AverageCpuHost, item, routed)| +
            |RowFor(AverageNetworkPerCpu, item, routed)| + |RowFor(StddevBetweenHosts, item, routed)| +
            |RowFor(StddevBetweenStreams, item, routed)| == if routed.Some? then 1 else 0
  {
  }

  /** A file whose name the look-behind does not match adds nothing and does not stop the run. */
  lemma {:induction false} SkipMarkerless(m: Metric, a: seq<File>, f: File, b: seq<File>)
    requires ItemOf(f.name) == NoMarker
    ensures Rows(m, a + [f] + b) == Rows(m, a + b)
    ensures Completes(a + [f] + b) <==> Completes(a + b)
  {
    assert FileRowsOf(m)(f) == [];
    FlatSkip(FileRowsOf(m), a, f, b);
    ReachedSkip(a, f, b);
    if Reached(a) < |a| {
      ReachedPrefix(a, b);
    }
  }

  lemma FlatSkip<T>(g: T -> seq<string>, a: seq<T>, x: T, b: seq<T>)
    requires g(x) == []
    ensures Flat(g, a + [x] + b) == Flat(g, a + b)
  {
    FlatAppend(g, a + [x], b);
    FlatAppend(g, a, [x]);
    FlatAppend(g, a, b);
    assert [x][..0] == [];
  }

  lemma {:induction false} ReachedSkip(a: seq<File>, f: File, b: seq<File>)
    requires ItemOf(f.name) == NoMarker
    ensures Reached(a + [f] + b) == Reached(a + b) + (if Reached(a) == |a| then 1 else 0)
  {
    if a == [] {
      assert a + [f] + b == [f] + b && a + b == b;
      assert ([f] + b)[1..] == b;
    } else {
      assert (a + [f] + b)[0] == a[0] && (a + b)[0] == a[0];
      if !ItemOf(a[0].name).NotANumber? {
        ReachedSkip(a[1..], f, b);
        assert (a + [f] + b)[1..] == a[1..] + [f] + b;
        assert (a + b)[1..] == a[1..] + b;
      }
    }
  }

  /** Nothing after a name with a rejected item text reaches the series. */
  lemma {:induction false} StopsAtBadItem(m: Metric, unit: string, files: seq<File>, more: seq<File>)
    requires !Completes(files)
    ensures Extracted(m, unit, files + more) == Extracted(m, unit, files)
    ensures !Completes(files + more)
  {
    ReachedPrefix(files, more);
    assert (files + more)[..Reached(files)] == files[..Reached(files)];
  }

  lemma {:induction false} ReachedPrefix(files: seq<File>, more: seq<File>)
    requires Reached(files) < |files|
    ensures Reached(files + more) == Reached(files)
  {
    assert (files + more)[0] == files[0];
    if !ItemOf(files[0].name).NotANumber? {
      ReachedPrefix(files[1..], more);
      assert (files + more)[1..] == files[1..] + more;
    }
  }

  /**
   * A line `<key> : <value>` with a non-empty value free of `:` and of
   * newlines is routed to the key's series, for the first key.
   */
  lemma CumulatedLine(value: string)
    requires value != [] && ':' !in value && '\n' !in value
    ensures Classify(Key(Cumulated) + " : " + value + "\n") == Some((Cumulated, value))
  {
    var line := Key(Cumulated) + " : " + value + "\n";
    assert Body(line) == Key(Cumulated) + " : " + value;
    assert (" " + value)[1..] == value;
    MissingCharNotContained(" " + value, " : ", 1);
    SplitUnique(line, Key(Cumulated), value);
    assert OccursAt(Key(Cumulated), Key(Cumulated), 0);
  }

  /** A text without a newline, followed by one, is read as a single line. */
  lemma OneLine(s: string)
    requires '\n' !in s
    ensures Lines(s + "\n") == [s + "\n"]
  {
    RestOfLineBeforeNewline(s, "");
    assert s + "\n" + "" == s + "\n";
    assert (s + "\n")[|s| + 1..] == [];
  }

  lemma {:induction false} RestOfLineBeforeNewline(s: string, t: string)
    requires '\n' !in s
    ensures RestOfLine(s + "\n" + t) == s
  {
    if s != [] {
      assert (s + "\n" + t)[1..] == s[1..] + "\n" + t;
      RestOfLineBeforeNewline(s[1..], t);
      assert s == [s[0]] + s[1..];
    }
  }

  /** A numbered file of one line gives each series that line's row. */
  lemma OneLineFile(m: Metric, f: File, n: int, line: string)
    requires ItemOf(f.name) == Index(n) && Lines(f.content) == [line]
    ensures FileRows(m, f) == LineRow(m, n, line)
  {
    FlatSingle(LineRowOf(m, n), line);
  }

  /**
   * A file named `<stem>.output.<n>` holding the single line
   * `Cumulated bandwidth : <value>` gives the row `<n> <value>` to the
   * cumulated series and nothing to the others.
   */
  lemma CumulatedFile(m: Metric, stem: string, n: int, value: string)
    requires !Contains(stem, "output") && '\n' !in stem
    requires value != [] && ':' !in value && '\n' !in value
    ensures var f := File(stem + ".output." + IntToString(n), Key(Cumulated) + " : " + value + "\n");
      ItemOf(f.name) == Index(n) &&
      FileRows(m, f) == if m == Cumulated then [Row(n, value)] else []
  {
    var body := Key(Cumulated) + " : " + value;
    var line := body + "\n";
    var f := File(stem + ".output." + IntToString(n), line);
    ItemOfNumberedName(stem, n);
    assert '\n' !in body by {
      assert '\n' !in Key(Cumulated);
      assert '\n' !in " : ";
    }
    OneLine(body);
    OneLineFile(m, f, n, line);
    CumulatedLine(value);
  }

  /**
   * Two such files, read in order, give the cumulated series its header and
   * one row per file in that order, and the other series only their headers.
   */
  lemma TwoFileRun(m: Metric, unit: string, stem: string, n1: int, n2: int, value: string)
    requires !Contains(stem, "output") && '\n' !in stem
    requires value != [] && ':' !in value && '\n' !in value
    ensures var line := Key(Cumulated) + " : " + value + "\n";
      var files := [File(stem + ".output." + IntToString(n1), line), File(stem + ".output." + IntToString(n2), line)];
      Completes(files) &&
      Extracted(m, unit, files) ==
        [Header(m, unit)] + (if m == Cumulated then [Row(n1, value), Row(n2, value)] else [])
  {
    var line := Key(Cumulated) + " : " + value + "\n";
    var f1 := File(stem + ".output." + IntToString(n1), line);
    var f2 := File(stem + ".output." + IntToString(n2), line);
    CumulatedFile(m, stem, n1, value);
    CumulatedFile(m, stem, n2, value);
    TwoNumberedFiles(m, unit, f1, f2);
  }

  /** Two files with numbered names are both read, in order. */
  lemma TwoNumberedFiles(m: Metric, unit: string, f1: File, f2: File)
    requires ItemOf(f1.name).Index? && ItemOf(f2.name).Index?
    ensures Completes([f1, f2])
    ensures Extracted(m, unit, [f1, f2]) == [Header(m, unit)] + FileRows(m, f1) + FileRows(m, f2)
  {
    var files := [f1, f2];
    ReachedAt(files, 2);
    assert files[..2] == files == [f1] + [f2];
    FlatAppend(FileRowsOf(m), [f1], [f2]);
    FlatSingle(FileRowsOf(m), f1);
    FlatSingle(FileRowsOf(m), f2);
  }

  // ---------------------------------------------------------------------------
  // The output files

  /** Every series. */
  const AllSeries: set<Metric> := {Cumulated, AverageBpHost, AverageBpStream, AverageCpuHost,
                                   AverageNetworkPerCpu, StddevBetweenHosts, StddevBetweenStreams}

  lemma AllSeriesComplete(m: Metric)
    ensures m in AllSeries
  {
    match m
    case Cumulated =>
    case AverageBpHost =>
    case AverageBpStream =>
    case AverageCpuHost =>
    case AverageNetworkPerCpu =>
    case StddevBetweenHosts =>
    case StddevBetweenStreams =>
  }

  /** Appending the eight rendered calls one by one to an empty script. */
  lemma EightAppended(calls: seq<Call>)
    requires |calls| == 8
    ensures [] + [Render(calls[0])] + [Render(calls[1])] + [Render(calls[2])] + [Render(calls[3])] +
      [Render(calls[4])] + [Render(calls[5])] + [Render(calls[6])] + [Render(calls[7])] ==
      seq(|calls|, i requires 0 <= i < |calls| => Render(calls[i]))
  {
  }

  /**
   * The files `compute_math` writes: the seven series files it keeps open,
   * each as the lines written to it, and the script `mymath`.
   */
  class Outputs {
    var series: map<Metric, seq<string>>
    var script: seq<string>
    /** The `gnuplot_output_filename` the series files are named after. */
    var basename: string

    /** Every series has a file. */
    predicate Valid()
      reads this
    {
      forall m :: m in series
    }

    /** The lines written to series `m`'s file. */
    function Series(m: Metric): seq<string>
      requires Valid()
      reads this
    {
      series[m]
    }

    /** The name of series `m`'s file. */
    function FileName(m: Metric): string
      reads this
    {
      SeriesFile(basename, m)
    }

    constructor ()
      ensures Valid() && forall m :: Series(m) == []
      ensures script == [] && basename == ""
    {
      series := map m | m in AllSeries :: [];
      script := [];
      basename := "";
      new;
      forall m ensures m in series {
        AllSeriesComplete(m);
      }
    }

    /** `<series>_file.write(text)` */
    method Write(m: Metric, text: string)
      requires Valid()
      modifies this
      ensures Valid()
      ensures Series(m) == old(Series(m)) + [text]
      ensures forall m' :: m' != m ==> Series(m') == old(Series(m'))
      ensures script == old(script) && basename == old(basename)
    {
      series := series[m := series[m] + [text]];
    }

    /** Lines 48-62: open every series file for writing, which empties it, and write its header. */
    method OpenSeries(name: string, unit: string)
      modifies this
      ensures Valid() && forall m :: Series(m) == [Header(m, unit)]
      ensures script == old(script) && basename == name
    {
      basename := name;
      series := map m | m in AllSeries :: [Header(m, unit)];
      forall m ensures m in series {
        AllSeriesComplete(m);
      }
    }

    /** Lines 84-100 for one line: append its value, if the line is routed, to its series. */
    method RouteLine(line: string, item: int)
      requires Valid()
      modifies this
      ensures Valid()
      ensures forall m :: Series(m) == old(Series(m)) + LineRow(m, item, line)
      ensures script == old(script) && basename == old(basename)
    {
      var routed := Classify(line);
      match routed {
        case None =>
        case Some(p) => Write(p.0, Row(item, p.1));
      }
    }

    /**
     * Lines 71-100: read the file line by line until `readline` returns the
     * empty string, and route each line. (The one-element list `current_line`
     * and the flag `shall_break` of the source change nothing and are not
     * modelled.)
     */
    method ReadFile(content: string, item: int)
      requires Valid()
      modifies this
      ensures Valid()
      ensures forall m :: Series(m) == old(Series(m)) + LineRows(m, item, Lines(content))
      ensures script == old(script) && basename == old(basename)
    {
      var rest := content;
      ghost var done: seq<string> := [];
      while true
        invariant Valid()
        invariant Lines(content) == done + Lines(rest)
        invariant forall m :: Series(m) == old(Series(m)) + LineRows(m, item, done)
        invariant script == old(script) && basename == old(basename)
        decreases |rest|
      {
        var s := ReadLine(rest);
        if s == [] {
          assert rest == [];
          assert done == Lines(content);
          break;
        }
        RouteLine(s, item);
        LineRowsSnoc(item, done, s);
        done := done + [s];
        rest := rest[|s|..];
      }
    }

    /** `generate_gnuplot_math_script`: append one `call` line to `mymath`. */
    method AppendCall(c: Call)
      modifies this
      ensures script == old(script) + [Render(c)]
      ensures series == old(series) && basename == old(basename)
    {
      script := script + [Render(c)];
    }

    /** Lines 110-122: remove `mymath`, then append the eight calls. */
    method WriteScript(calls: seq<Call>)
      requires |calls| == 8
      modifies this
      ensures script == seq(|calls|, i requires 0 <= i < |calls| => Render(calls[i]))
      ensures series == old(series) && basename == old(basename)
    {
      script := [];
      AppendCall(calls[0]);
      AppendCall(calls[1]);
      AppendCall(calls[2]);
      AppendCall(calls[3]);
      AppendCall(calls[4]);
      AppendCall(calls[5]);
      AppendCall(calls[6]);
      AppendCall(calls[7]);
      EightAppended(calls);
    }

    /** Lines 110-122 with the eight calls of `Plots`. */
    method GenerateScript(title: string, name: string, unit: string)
      modifies this
      ensures script == ScriptLines(title, name, unit)
      ensures series == old(series) && basename == old(basename)
    {
      var calls := Calls(title, name, unit);
      assert |calls| == |Plots| == 8;
      WriteScript(calls);
    }

    /**
     * Lines 64-101 for one log file: skip it when its name has no item
     * number, fail where `int()` rejects the item text, and otherwise read it.
     */
    method ReadLogFile(f: File) returns (ok: bool)
      requires Valid()
      modifies this
      ensures Valid()
      ensures ok <==> !ItemOf(f.name).NotANumber?
      ensures forall m :: Series(m) == old(Series(m)) + (if ok then FileRows(m, f) else [])
      ensures script == old(script) && basename == old(basename)
    {
      match ItemOf(f.name) {
        case NoMarker =>
          assert forall m :: FileRows(m, f) == [];
          return true;
        case NotANumber(_) =>
          return false;
        case Index(n) =>
          ReadFile(f.content, n);
          assert forall m :: FileRows(m, f) == LineRows(m, n, Lines(f.content));
          return true;
      }
    }

    /**
     * Lines 64-101: read the files in order until one has an item text `int()`
     * rejects. The series then hold their headers and the rows of the files
     * read before it.
     */
    method ReadLogFiles(files: seq<File>, unit: string) returns (completed: bool)
      requires Valid() && forall m :: Series(m) == [Header(m, unit)]
      modifies this
      ensures Valid() && forall m :: Series(m) == Extracted(m, unit, files)
      ensures completed == Completes(files)
      ensures script == old(script) && basename == old(basename)
    {
      var i := 0;
      while i < |files|
        invariant 0 <= i <= |files|
        invariant forall j :: 0 <= j < i ==> !ItemOf(files[j].name).NotANumber?
        invariant Valid() && forall m :: Series(m) == [Header(m, unit)] + Rows(m, files[..i])
        invariant script == old(script) && basename == old(basename)
      {
        SeriesSnoc(files, i, unit);
        var ok := ReadLogFile(files[i]);
        if !ok {
          ExtractedAt(files, i, unit);
          return false;
        }
        i := i + 1;
      }
      ExtractedAt(files, i, unit);
      assert files[..i] == files;
      return true;
    }

    /**
     * `compute_math(files, title, name, mode, unit)`. It returns `false` where
     * `int()` raises ValueError on an item text: the series then hold what was
     * written before it, and `mymath` is left as it was.
     */
    method ComputeMath(files: seq<File>, title: string, name: string, unit: string) returns (completed: bool)
      modifies this
      ensures Valid() && basename == name
      ensures forall m :: Series(m) == Extracted(m, unit, files)
      ensures completed == Completes(files)
      ensures completed ==> script == ScriptLines(title, name, unit)
      ensures !completed ==> script == old(script)
    {
      OpenSeries(name, unit);
      completed := ReadLogFiles(files, unit);
      if completed {
        GenerateScript(title, name, unit);
      }
    }
  }
}
