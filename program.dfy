/**
 * `main` (multidn2gnuplot.py:146-199): parse the options, select the log
 * files, run `compute_math`, and say whether gnuplot is to be run. What
 * `getopt` returns, the directory listing and `fnmatch` are parameters; the
 * files written are the fields of an `Outputs` object.
 */
module Program {
  import opened Text
  import opened Options
  import opened Selection
  import opened Extraction

  /** How a run of the program ends. */
  datatype Outcome =
    | UsageError           // getopt raised GetoptError: usage text, exit status 2
    | HelpShown            // `-h`: usage text, exit status 1
    | NoLogFile            // no entry matched the pattern: exit status 1
    | Aborted              // `int()` raised ValueError on an item text
    | Finished(render: bool)  // `compute_math` returned; `render` says whether `-g` runs gnuplot

  /** The status the interpreter exits with; an uncaught exception exits with 1, `main` returning None with 0. */
  function ExitStatus(o: Outcome): (s: int)
    ensures 0 <= s <= 2
    ensures s == 0 <==> o.Finished?
    ensures s == 2 <==> o.UsageError?
  {
    match o
    case UsageError => 2
    case Finished(_) => 0
    case _ => 1
  }

  /** The outcome of the part of `main` after the option loop, for the settings `c`. */
  function Continued(c: Config, dir: seq<File>, matches: (string, string) -> bool): Outcome {
    match Select(dir, c.pattern, matches)
    case None => NoLogFile
    case Some(files) => if Completes(files) then Finished(c.render) else Aborted
  }

  /** The outcome `main` reaches for the options `args` (`None` when getopt rejects the command line). */
  function Expected(args: Option<seq<Opt>>, dir: seq<File>, matches: (string, string) -> bool): Outcome {
    match args
    case None => UsageError
    case Some(opts) =>
      match Parse(opts)
      case ShowHelp => HelpShown
      case Proceed(c) => Continued(c, dir, matches)
  }

  /** The same for the option loop as written. */
  function ExpectedAsWritten(args: Option<seq<Opt>>, dir: seq<File>, matches: (string, string) -> bool): Outcome {
    match args
    case None => UsageError
    case Some(opts) =>
      match ParseAsWritten(opts)
      case ShowHelp => HelpShown
      case Proceed(c) => Continued(c, dir, matches)
  }

  /** Dropping `-o` changes how the files are named, never how the run ends. */
  lemma SameOutcome(args: Option<seq<Opt>>, dir: seq<File>, matches: (string, string) -> bool)
    ensures ExpectedAsWritten(args, dir, matches) == Expected(args, dir, matches)
  {
    if args.Some? && !HasHelp(args.value) {
      AsWrittenDiffersOnlyByOutputFile(args.value);
      assert FoldAsWritten(args.value).pattern == Fold(args.value).pattern;
      assert FoldAsWritten(args.value).render == Fold(args.value).render;
    }
  }

  /**
   * The program reaches `compute_math` exactly when the command line parses,
   * has no `-h`, and some entry matches the pattern; it finishes when in
   * addition no selected name has an item text `int()` rejects.
   */
  lemma ExpectedMeaning(args: Option<seq<Opt>>, dir: seq<File>, matches: (string, string) -> bool)
    ensures Expected(args, dir, matches) == UsageError <==> args.None?
    ensures Expected(args, dir, matches) == HelpShown <==> args.Some? && HasHelp(args.value)
    ensures Expected(args, dir, matches) == NoLogFile <==>
      args.Some? && !HasHelp(args.value) &&
      forall f :: f in dir ==> !matches(f.name, Fold(args.value).pattern)
    ensures Expected(args, dir, matches).Finished? ==>
      args.Some? && !HasHelp(args.value) &&
      Expected(args, dir, matches).render == Last(args.value, {Gnuplot}).Some?
  {
    if args.Some? && !HasHelp(args.value) {
      var c := Fold(args.value);
      SelectMeaning(dir, c.pattern, matches);
      FoldMeaning(args.value);
    }
  }

  /**
   * Lines 185-194 for the settings `c`: select the log files, stop when there
   * is none, and otherwise run `compute_math` on the sorted selection. Where
   * `compute_math` is reached, the series files hold what `Extracted`
   * describes for that selection; otherwise nothing is written.
   */
  method Continue(c: Config, dir: seq<File>, matches: (string, string) -> bool, out: Outputs)
    returns (r: Outcome)
    modifies out
    ensures r == Continued(c, dir, matches)
    ensures (r.Finished? || r.Aborted?) ==>
      var files := Select(dir, c.pattern, matches).value;
      out.Valid() && out.basename == c.basename &&
      (forall m :: out.Series(m) == Extracted(m, c.unit, files)) &&
      (r.Finished? ==> out.script == GnuplotScript.ScriptLines(c.title, c.basename, c.unit)) &&
      (r.Aborted? ==> out.script == old(out.script))
    ensures !(r.Finished? || r.Aborted?) ==>
      out.series == old(out.series) && out.script == old(out.script) && out.basename == old(out.basename)
  {
    var found := FindFile(dir, c.pattern, matches);
    if |found| == 0 {
      return NoLogFile;
    }
    var files := SortByName(found);
    var completed := out.ComputeMath(files, c.title, c.basename, c.unit);
    if completed {
      r := Finished(c.render);
    } else {
      r := Aborted;
    }
  }

  /**
   * A run of `main` with the `-o` branch the usage text promises: the series
   * files and `mymath` are named after the settings `Parse` gives.
   */
  method Run(args: Option<seq<Opt>>, dir: seq<File>, matches: (string, string) -> bool, out: Outputs)
    returns (r: Outcome)
    modifies out
    ensures r == Expected(args, dir, matches)
    ensures (r.Finished? || r.Aborted?) ==>
      var c := Parse(args.value).config;
      var files := Select(dir, c.pattern, matches).value;
      out.Valid() && out.basename == c.basename &&
      (forall m :: out.Series(m) == Extracted(m, c.unit, files)) &&
      (r.Finished? ==> out.script == GnuplotScript.ScriptLines(c.title, c.basename, c.unit)) &&
      (r.Aborted? ==> out.script == old(out.script))
    ensures !(r.Finished? || r.Aborted?) ==>
      out.series == old(out.series) && out.script == old(out.script) && out.basename == old(out.basename)
  {
    if args.None? {
      return UsageError;
    }
    var parsed := ApplyOptions(args.value);
    if parsed.ShowHelp? {
      return HelpShown;
    }
    r := Continue(parsed.config, dir, matches, out);
  }

  /**
   * A run of `main` as the source has it: `-o` is dropped, so the files are
   * named after the settings `ParseAsWritten` gives. It ends as `Expected`
   * says all the same (`SameOutcome`).
   */
  method RunAsWritten(args: Option<seq<Opt>>, dir: seq<File>, matches: (string, string) -> bool, out: Outputs)
    returns (r: Outcome)
    modifies out
    ensures r == ExpectedAsWritten(args, dir, matches) == Expected(args, dir, matches)
    ensures (r.Finished? || r.Aborted?) ==>
      var c := ParseAsWritten(args.value).config;
      var files := Select(dir, c.pattern, matches).value;
      out.Valid() && out.basename == c.basename &&
      (forall m :: out.Series(m) == Extracted(m, c.unit, files)) &&
      (r.Finished? ==> out.script == GnuplotScript.ScriptLines(c.title, c.basename, c.unit)) &&
      (r.Aborted? ==> out.script == old(out.script))
    ensures !(r.Finished? || r.Aborted?) ==>
      out.series == old(out.series) && out.script == old(out.script) && out.basename == old(out.basename)
  {
    if args.None? {
      return UsageError;
    }
    var parsed := ApplyOptionsAsWritten(args.value);
    if parsed.ShowHelp? {
      return HelpShown;
    }
    r := Continue(parsed.config, dir, matches, out);
    SameOutcome(args, dir, matches);
  }
}
