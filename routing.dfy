/**
 * What `compute_math` does with one line read from a log file
 * (multidn2gnuplot.py:84-100): split it with the regular expression
 * `(.*) : (.*)`, test the label against the seven series keys in order, and
 * pick the series that receives the value.
 */
module Routing {
  import opened Text
  import opened Series

  /** The part of a line `.` can match: everything before its end-of-line character. */
  function Body(line: string): string {
    if |line| > 0 && line[|line| - 1] == '\n' then line[..|line| - 1] else line
  }

  /**
   * The two groups of `re.search('(.*) : (.*)', line)`. The first `.*` is
   * greedy, so the label ends at the last ` : ` of the line and the value
   * runs to the end of the line.
   */
  function Split(line: string): Option<(string, string)> {
    var b := Body(line);
    match FindLast(b, " : ")
    case None => None
    case Some(k) => Some((b[..k], b[k + 3..]))
  }

  /**
   * The series a line feeds, with the value written, or `None` when the line
   * writes nothing. The label tests follow the `if`/`elif` chain; the value
   * of a host standard deviation must mention `Mbps`, and a line that fails
   * that test is dropped, not passed on to the next test.
   */
  function Classify(line: string): Option<(Metric, string)> {
    ClassifyBy(Key, line)
  }

  /** The same chain with the label substring of each series given by `key`. */
  function ClassifyBy(key: Metric -> string, line: string): Option<(Metric, string)> {
    match Split(line)
    case None => None
    case Some(parts) =>
      var (labelText, value) := parts;
      if labelText == "" || value == "" then None
      else if Contains(labelText, key(Cumulated)) then Some((Cumulated, value))
      else if Contains(labelText, key(AverageBpHost)) then Some((AverageBpHost, value))
      else if Contains(labelText, key(AverageBpStream)) then Some((AverageBpStream, value))
      else if Contains(labelText, key(AverageCpuHost)) then Some((AverageCpuHost, value))
      else if Contains(labelText, key(AverageNetworkPerCpu)) then Some((AverageNetworkPerCpu, value))
      else if Contains(labelText, key(StddevBetweenHosts)) then
        if Contains(value, "Mbps") then Some((StddevBetweenHosts, value)) else None
      else if Contains(labelText, key(StddevBetweenStreams)) then Some((StddevBetweenStreams, value))
      else None
  }

  /** No key of a series tested before `m` occurs in the labelText. */
  predicate NoEarlierKey(labelText: string, m: Metric) {
    forall m' :: Rank(m') < Rank(m) ==> !Contains(labelText, Key(m'))
  }

  /**
   * The split is at the last separator: the line body is label, separator,
   * value, and no separator starts inside the value or at its first character
   * of the separator's end.
   */
  lemma SplitIsLastSeparator(line: string)
    ensures Split(line).None? <==> !Contains(Body(line), " : ")
    ensures Split(line).Some? ==>
      var (labelText, value) := Split(line).value;
      Body(line) == labelText + " : " + value && !Contains(" " + value, " : ")
  {
    var b := Body(line);
    FindLastIsLast(b, " : ");
    match FindLast(b, " : ")
    case None =>
    case Some(k) =>
      SeparatorSplits(b, k);
      NoSeparatorAfter(b, k);
  }

  /** A string is what precedes an occurrence of the separator, the separator, and what follows it. */
  lemma SeparatorSplits(b: string, k: nat)
    requires OccursAt(b, " : ", k)
    ensures b == b[..k] + " : " + b[k + 3..]
  {
    assert b[k..k + 3] == " : ";
  }

  /** After the last separator, none starts inside the rest or at its first character. */
  lemma NoSeparatorAfter(b: string, k: nat)
    requires OccursAt(b, " : ", k) && forall j :: k < j ==> !OccursAt(b, " : ", j)
    ensures !Contains(" " + b[k + 3..], " : ")
  {
    var rest := " " + b[k + 3..];
    if Contains(rest, " : ") {
      var j :| 0 <= j <= |rest| - 3 && OccursAt(rest, " : ", j);
      assert b[k + 2] == ' ';
      assert b == b[..k + 2] + rest;
      OccursInSecond(b[..k + 2], rest, " : ", j);
    }
  }

  /** Conversely, such a decomposition of the line is the split the regular expression finds. */
  lemma SplitUnique(line: string, labelText: string, value: string)
    requires Body(line) == labelText + " : " + value && !Contains(" " + value, " : ")
    ensures Split(line) == Some((labelText, value))
  {
    var b := Body(line);
    LastSeparator(labelText, value);
    assert b[..|labelText|] == labelText;
    assert b[|labelText| + 3..] == value;
  }

  /** In `x : y`, where no separator starts inside ` y`, the last separator is the one after `x`. */
  lemma LastSeparator(x: string, y: string)
    requires !Contains(" " + y, " : ")
    ensures FindLast(x + " : " + y, " : ") == Some(|x|)
  {
    var t := " : ";
    assert [t[2]] + y == " " + y;
    LastOccurrence(x, y, t);
  }

  /**
   * A line that feeds series `m` splits into a non-empty label and a
   * non-empty value; the label holds `m`'s key and no key tested before it,
   * and a host standard deviation mentions `Mbps`.
   */
  lemma ClassifyFirstMatch(line: string, m: Metric, value: string)
    requires Classify(line) == Some((m, value))
    ensures Split(line).Some? && Split(line).value.1 == value
    ensures Split(line).value.0 != "" && value != ""
    ensures Contains(Split(line).value.0, Key(m)) && NoEarlierKey(Split(line).value.0, m)
    ensures m == StddevBetweenHosts ==> Contains(value, "Mbps")
  {
    ClassifyByFirstMatch(Key, line, m, value);
  }

  lemma ClassifyByFirstMatch(key: Metric -> string, line: string, m: Metric, value: string)
    requires ClassifyBy(key, line) == Some((m, value))
    ensures Split(line).Some? && Split(line).value.1 == value
    ensures Split(line).value.0 != "" && value != ""
    ensures Contains(Split(line).value.0, key(m))
    ensures forall m' :: Rank(m') < Rank(m) ==> !Contains(Split(line).value.0, key(m'))
    ensures m == StddevBetweenHosts ==> Contains(value, "Mbps")
  {
    var labelText := Split(line).value.0;
    forall m' | Rank(m') < Rank(m)
      ensures !Contains(labelText, key(m'))
    {
      match m'
      case Cumulated =>
      case AverageBpHost =>
      case AverageBpStream =>
      case AverageCpuHost =>
      case AverageNetworkPerCpu =>
      case StddevBetweenHosts =>
      case StddevBetweenStreams =>
    }
  }

  /** Every line with the properties of `ClassifyFirstMatch` feeds series `m`. */
  lemma ClassifyComplete(line: string, m: Metric, labelText: string, value: string)
    requires Split(line) == Some((labelText, value)) && labelText != "" && value != ""
    requires Contains(labelText, Key(m)) && NoEarlierKey(labelText, m)
    requires m == StddevBetweenHosts ==> Contains(value, "Mbps")
    ensures Classify(line) == Some((m, value))
  {
    ClassifyByComplete(Key, line, m, labelText, value);
  }

  lemma ClassifyByComplete(key: Metric -> string, line: string, m: Metric, labelText: string, value: string)
    requires Split(line) == Some((labelText, value)) && labelText != "" && value != ""
    requires Contains(labelText, key(m))
    requires forall m' :: Rank(m') < Rank(m) ==> !Contains(labelText, key(m'))
    requires m == StddevBetweenHosts ==> Contains(value, "Mbps")
    ensures ClassifyBy(key, line) == Some((m, value))
  {
  }

  /** A line without ` : `, or with an empty label or value, feeds no series. */
  lemma UnsplittableIgnored(line: string)
    requires Split(line).None? || Split(line).value.0 == "" || Split(line).value.1 == ""
    ensures Classify(line).None?
  {
  }

  /**
   * A host standard deviation without `Mbps` writes nothing, even when its
   * labelText also names the streams series tested after it.
   */
  lemma HostDeviationNeedsMbps(line: string, labelText: string, value: string)
    requires Split(line) == Some((labelText, value))
    requires Contains(labelText, Key(StddevBetweenHosts)) && !Contains(value, "Mbps")
    ensures Classify(line).None? || Rank(Classify(line).value.0) < Rank(StddevBetweenHosts)
  {
  }
}
