/**
 * The gnuplot script `mymath` that `compute_math` writes at its end
 * (multidn2gnuplot.py:40-43 and 110-122): one `call` of the macro file
 * `math.gpm` per plot, eight plots over the seven series files.
 */
module GnuplotScript {
  import opened Text
  import opened Series

  /** The four values `generate_gnuplot_math_script` formats into a line. */
  datatype Call = Call(title: string, file: string, axis: string, unit: string)

  /** The text outside the single quotes of a `call` line, and the four values between them. */
  function Pieces(c: Call): seq<string> {
    ["call ", "math.gpm", " ", c.title, " ", c.file, " ", "", " ", c.file, " ", c.axis, " ", c.unit, "\n"]
  }

  /**
   * `"call 'math.gpm' '%s' '%s' '' '%s' '%s' '%s'\n" % (title, file, file, mode, unit)`:
   * the pieces above joined by single quotes.
   */
  function Render(c: Call): string {
    JoinOn(Pieces(c), '\'')
  }

  /** The pieces of `s` between occurrences of `sep`: `s.split(sep)`. */
  function SplitOn(s: string, sep: char): (r: seq<string>)
    ensures |r| > 0
  {
    if sep !in s then [s]
    else
      var k := IndexOf(s, sep);
      [s[..k]] + SplitOn(s[k + 1..], sep)
  }

  /** The first index of `c` in `s`. */
  function IndexOf(s: string, c: char): (k: nat)
    requires c in s
    ensures k < |s| && s[k] == c && c !in s[..k]
  {
    if s[0] == c then 0
    else
      assert c in s[1..] by { assert s == [s[0]] + s[1..]; }
      var k := IndexOf(s[1..], c);
      assert s[..k + 1] == [s[0]] + s[1..][..k];
      k + 1
  }

  /** Splitting after a piece without the separator gives that piece first. */
  lemma SplitOnAppend(x: string, y: string, sep: char)
    requires sep !in x
    ensures SplitOn(x + [sep] + y, sep) == [x] + SplitOn(y, sep)
  {
    var s := x + [sep] + y;
    assert s[|x|] == sep;
    var k := IndexOf(s, sep);
    assert s[..k] == x;
    assert s[k + 1..] == y;
  }

  /** `sep.join(pieces)`: the inverse of `SplitOn`. */
  function JoinOn(pieces: seq<string>, sep: char): string
    requires |pieces| > 0
  {
    if |pieces| == 1 then pieces[0] else pieces[0] + [sep] + JoinOn(pieces[1..], sep)
  }

  /** Joining pieces that do not hold the separator and splitting again gives them back. */
  lemma {:induction false} SplitJoin(pieces: seq<string>, sep: char)
    requires |pieces| > 0 && forall i :: 0 <= i < |pieces| ==> sep !in pieces[i]
    ensures SplitOn(JoinOn(pieces, sep), sep) == pieces
  {
    if |pieces| > 1 {
      SplitJoin(pieces[1..], sep);
      SplitOnAppend(pieces[0], JoinOn(pieces[1..], sep), sep);
    }
  }

  /** The quoted fields of a line in the form `Render` writes, or `None`. */
  function Decode(line: string): Option<Call> {
    var p := SplitOn(line, '\'');
    if |p| == 15 && p[0] == "call " && p[1] == "math.gpm" && p[7] == "" && p[14] == "\n" &&
       p[2] == " " && p[4] == " " && p[6] == " " && p[8] == " " && p[10] == " " && p[12] == " " &&
       p[5] == p[9]
    then Some(Call(p[3], p[5], p[11], p[13]))
    else None
  }

  predicate QuoteFree(c: Call) {
    '\'' !in c.title && '\'' !in c.file && '\'' !in c.axis && '\'' !in c.unit
  }

  /**
   * A line written for values without a single quote hands `math.gpm` exactly
   * those values: the title, the data file twice around an empty argument,
   * the axis label and the unit.
   */
  lemma DecodeRender(c: Call)
    requires QuoteFree(c)
    ensures Decode(Render(c)) == Some(c)
  {
    PiecesQuoteFree(c);
    SplitJoin(Pieces(c), '\'');
    DecodePieces(Render(c), c);
  }

  /** A line whose quote-separated pieces are those of `c` decodes to `c`. */
  lemma DecodePieces(line: string, c: Call)
    requires SplitOn(line, '\'') == Pieces(c)
    ensures Decode(line) == Some(c)
  {
  }

  /** The fixed pieces hold no single quote, and neither do the values of a quote-free call. */
  lemma PiecesQuoteFree(c: Call)
    requires QuoteFree(c)
    ensures forall i :: 0 <= i < |Pieces(c)| ==> '\'' !in Pieces(c)[i]
  {
    assert '\'' !in "call " && '\'' !in "math.gpm";
  }

  /** One plot of the script: its heading, the series it draws and its axis label. */
  datatype Plot = Plot(heading: string, metric: Metric, axis: string)

  /** The eight plots of lines 115-122, in order; the host deviation file is drawn twice. */
  const Plots: seq<Plot> := [
    Plot("Cumulated Bandwidth", Cumulated, "Bandwidth in Mbits/sec"),
    Plot("Average Bandwidth per Host", AverageBpHost, "Bandwidth in Mbits/sec"),
    Plot("Average Bandwidth per Stream", AverageBpStream, "Bandwidth in Mbits/sec"),
    Plot("Average CPU per Host", AverageCpuHost, "CPU %"),
    Plot("Average Network Bandwidth per CPU %", AverageNetworkPerCpu, "Mbits/CPU %"),
    Plot("Standard Deviation of Bandwidth", StddevBetweenHosts, "Bandwidth in Mbits/sec"),
    Plot("Standard Deviation of Bandwidth Between Hosts", StddevBetweenHosts, "Bandwidth in Mbits/sec"),
    Plot("Standard Deviation of Bandwidth Between Streams", StddevBetweenStreams, "Bandwidth in Mbits/sec")
  ]

  /** The file `compute_math` writes series `m` to. */
  function SeriesFile(basename: string, m: Metric): string {
    basename + Suffix(m)
  }

  /** The eight calls for the `-t` title, the basename and the `-u` unit. */
  function Calls(title: string, basename: string, unit: string): seq<Call> {
    seq(|Plots|, i requires 0 <= i < |Plots| =>
      Call(Plots[i].heading + title, SeriesFile(basename, Plots[i].metric), Plots[i].axis, unit))
  }

  /** The lines of `mymath`, which is removed first and then appended to. */
  function ScriptLines(title: string, basename: string, unit: string): seq<string> {
    var calls := Calls(title, basename, unit);
    seq(|calls|, i requires 0 <= i < |calls| => Render(calls[i]))
  }

  /** How many of `calls` draw `file`. */
  function CountFile(calls: seq<Call>, file: string): nat {
    if calls == [] then 0
    else CountFile(calls[..|calls| - 1], file) + (if calls[|calls| - 1].file == file then 1 else 0)
  }

  /** Different series go to different files. */
  lemma SeriesFilesDistinct(basename: string, m: Metric, m': Metric)
    requires m != m'
    ensures SeriesFile(basename, m) != SeriesFile(basename, m')
  {
    // The seven suffixes have seven different lengths.
    assert |SeriesFile(basename, m)| != |SeriesFile(basename, m')|;
  }

  /** The series the eight plots draw, in order. */
  const PlottedSeries: seq<Metric> := [
    Cumulated, AverageBpHost, AverageBpStream, AverageCpuHost, AverageNetworkPerCpu,
    StddevBetweenHosts, StddevBetweenHosts, StddevBetweenStreams
  ]

  lemma PlotMetrics()
    ensures |Plots| == |PlottedSeries|
    ensures forall i :: 0 <= i < |Plots| ==> Plots[i].metric == PlottedSeries[i]
  {
  }

  /** How many entries of `ms` are `m`. */
  function Occurrences(ms: seq<Metric>, m: Metric): nat {
    if ms == [] then 0 else Occurrences(ms[..|ms| - 1], m) + if ms[|ms| - 1] == m then 1 else 0
  }

  /** One more entry counts once if it is `m`. */
  lemma OccurrencesSnoc(ms: seq<Metric>, x: Metric, m: Metric)
    ensures Occurrences(ms + [x], m) == Occurrences(ms, m) + if x == m then 1 else 0
  {
    assert (ms + [x])[..|ms|] == ms;
  }

  /** The host deviation series is plotted twice, every other series once. */
  lemma PlottedSeriesCount(m: Metric)
    ensures Occurrences(PlottedSeries, m) == if m == StddevBetweenHosts then 2 else 1
  {
    var p1 := [Cumulated];
    var p2 := p1 + [AverageBpHost];
    var p3 := p2 + [AverageBpStream];
    var p4 := p3 + [AverageCpuHost];
    var p5 := p4 + [AverageNetworkPerCpu];
    var p6 := p5 + [StddevBetweenHosts];
    var p7 := p6 + [StddevBetweenHosts];
    assert PlottedSeries == p7 + [StddevBetweenStreams];
    OccurrencesSnoc([], Cumulated, m);
    assert [] + [Cumulated] == p1;
    OccurrencesSnoc(p1, AverageBpHost, m);
    OccurrencesSnoc(p2, AverageBpStream, m);
    OccurrencesSnoc(p3, AverageCpuHost, m);
    OccurrencesSnoc(p4, AverageNetworkPerCpu, m);
    OccurrencesSnoc(p5, StddevBetweenHosts, m);
    OccurrencesSnoc(p6, StddevBetweenHosts, m);
    OccurrencesSnoc(p7, StddevBetweenStreams, m);
  }

  // The single-quote freedom of the script's fixed texts, a few literals at a time.
  lemma ShortHeadingsQuoteFree()
    ensures '\'' !in "Cumulated Bandwidth" && '\'' !in "Average Bandwidth per Host"
    ensures '\'' !in "Average Bandwidth per Stream" && '\'' !in "Average CPU per Host"
  {
  }

  lemma LongHeadingsQuoteFree()
    ensures '\'' !in "Average Network Bandwidth per CPU %" && '\'' !in "Standard Deviation of Bandwidth"
  {
  }

  lemma HostsHeadingQuoteFree()
    ensures '\'' !in "Standard Deviation of Bandwidth Between Hosts"
  {
    assert "Standard Deviation of Bandwidth Between Hosts" == "Standard Deviation of " + "Bandwidth Between Hosts";
  }

  lemma StreamsHeadingQuoteFree()
    ensures '\'' !in "Standard Deviation of Bandwidth Between Streams"
  {
    assert "Standard Deviation of Bandwidth Between Streams" == "Standard Deviation of " + "Bandwidth Between Streams";
  }

  lemma AxesQuoteFree()
    ensures '\'' !in "Bandwidth in Mbits/sec" && '\'' !in "CPU %" && '\'' !in "Mbits/CPU %"
  {
  }

  lemma ShortSuffixesQuoteFree()
    ensures '\'' !in ".cumulated" && '\'' !in ".average_bp_host" && '\'' !in ".average_bp_stream"
  {
  }

  lemma MiddleSuffixesQuoteFree()
    ensures '\'' !in ".average_cpu_host" && '\'' !in ".stddev_between_streams"
  {
  }

  lemma CpuSuffixQuoteFree()
    ensures '\'' !in ".average_network_per_cpu_percent"
  {
  }

  lemma HostsSuffixQuoteFree()
    ensures '\'' !in ".stddev_bp_between_hosts"
  {
  }

  lemma SuffixQuoteFree(m: Metric)
    ensures '\'' !in Suffix(m)
  {
    ShortSuffixesQuoteFree();
    MiddleSuffixesQuoteFree();
    CpuSuffixQuoteFree();
    HostsSuffixQuoteFree();
  }

  /** No heading, axis label or file suffix of the script holds a single quote. */
  lemma PlotsQuoteFree(i: nat)
    requires i < |Plots|
    ensures '\'' !in Plots[i].heading && '\'' !in Plots[i].axis && '\'' !in Suffix(Plots[i].metric)
  {
    ShortHeadingsQuoteFree();
    LongHeadingsQuoteFree();
    HostsHeadingQuoteFree();
    StreamsHeadingQuoteFree();
    AxesQuoteFree();
    SuffixQuoteFree(Plots[i].metric);
  }

  /**
   * When each call draws the file `fileOf` names for the matching entry of
   * `metrics`, and different series have different files, a series' file is
   * drawn once per entry.
   */
  lemma {:induction false} CountFileMetrics(calls: seq<Call>, fileOf: Metric -> string, metrics: seq<Metric>, m: Metric)
    requires |calls| == |metrics|
    requires forall i :: 0 <= i < |calls| ==> calls[i].file == fileOf(metrics[i])
    requires forall m1, m2 :: m1 != m2 ==> fileOf(m1) != fileOf(m2)
    ensures CountFile(calls, fileOf(m)) == Occurrences(metrics, m)
  {
    if calls != [] {
      var n := |calls| - 1;
      var front, rest := calls[..n], metrics[..n];
      forall i | 0 <= i < n
        ensures front[i].file == fileOf(rest[i])
      {
        assert front[i] == calls[i] && rest[i] == metrics[i];
      }
      CountFileMetrics(front, fileOf, rest, m);
      assert calls[n].file == fileOf(metrics[n]);
    }
  }

  /**
   * Every series file is drawn by the script: the host deviation file twice,
   * each of the other six once.
   */
  lemma EverySeriesPlotted(title: string, basename: string, unit: string, m: Metric)
    ensures CountFile(Calls(title, basename, unit), SeriesFile(basename, m)) ==
            if m == StddevBetweenHosts then 2 else 1
  {
    var calls := Calls(title, basename, unit);
    PlotMetrics();
    assert forall i :: 0 <= i < |calls| ==> calls[i].file == SeriesFile(basename, PlottedSeries[i]);
    forall m1, m2 | m1 != m2
      ensures SeriesFile(basename, m1) != SeriesFile(basename, m2)
    {
      SeriesFilesDistinct(basename, m1, m2);
    }
    CountFileMetrics(calls, m => SeriesFile(basename, m), PlottedSeries, m);
    PlottedSeriesCount(m);
  }

  /**
   * Each line of the script passes `math.gpm` the title as a heading prefix,
   * the series file and the unit, provided none of them holds a single quote.
   */
  lemma ScriptLinesDecode(title: string, basename: string, unit: string, i: nat)
    requires i < |Plots|
    requires '\'' !in title && '\'' !in basename && '\'' !in unit
    ensures |ScriptLines(title, basename, unit)| == |Plots|
    ensures Decode(ScriptLines(title, basename, unit)[i]) ==
            Some(Call(Plots[i].heading + title, SeriesFile(basename, Plots[i].metric), Plots[i].axis, unit))
  {
    var c := Calls(title, basename, unit)[i];
    PlotsQuoteFree(i);
    assert '\'' !in c.title;
    assert '\'' !in c.file;
    DecodeRender(c);
  }
}
