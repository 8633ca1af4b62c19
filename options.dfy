/**
 * How `main` turns the options `getopt` returns into its settings
 * (multidn2gnuplot.py:146-183). The loop visits the options in command-line
 * order; a later option of the same kind overrides an earlier one, and `-h`
 * ends the run with the usage text as soon as it is reached.
 */
module Options {
  import opened Text
  import opened Basename

  /** The six short options of the option string `gho:t:p:u:`. */
  datatype Flag = Gnuplot | Help | OutputFile | Title | Pattern | Unit

  /** One `(opt, arg)` pair; `arg` is empty for `-g` and `-h`. */
  datatype Opt = Opt(flag: Flag, arg: string)

  /** The variables `main` sets before it selects and reads the log files. */
  datatype Config = Config(pattern: string, title: string, basename: string, unit: string, render: bool)

  /** What the option loop leads to: go on with these settings, or print the usage text and exit with status 1. */
  datatype Parsed = Proceed(config: Config) | ShowHelp

  /** The initial values of lines 148-153. */
  const Default := Config("", "", "result", "", false)

  /**
   * One pass of the loop body as the source has it. The `if`/`elif` chain has
   * no branch for `-o`, so its argument is dropped.
   */
  function StepAsWritten(c: Config, o: Opt): Config
    requires o.flag != Help
  {
    match o.flag
    case Pattern => c.(pattern := StripBackslashes(o.arg), basename := DeriveBasename(o.arg))
    case Title => c.(title := o.arg)
    case Unit => c.(unit := o.arg)
    case Gnuplot => c.(render := true)
    case OutputFile => c
  }

  /** The loop body as the usage text describes it: `-o <file>` sets the basename. */
  function Step(c: Config, o: Opt): Config
    requires o.flag != Help
  {
    match o.flag
    case OutputFile => c.(basename := o.arg)
    case _ => StepAsWritten(c, o)
  }

  predicate HasHelp(opts: seq<Opt>) {
    exists i :: 0 <= i < |opts| && opts[i].flag == Help
  }

  /** The settings after the loop has visited every option of `opts`, as written. */
  function FoldAsWritten(opts: seq<Opt>): Config
    requires !HasHelp(opts)
  {
    if opts == [] then Default
    else StepAsWritten(FoldAsWritten(opts[..|opts| - 1]), opts[|opts| - 1])
  }

  /** The same with the corrected loop body. */
  function Fold(opts: seq<Opt>): Config
    requires !HasHelp(opts)
  {
    if opts == [] then Default
    else Step(Fold(opts[..|opts| - 1]), opts[|opts| - 1])
  }

  function ParseAsWritten(opts: seq<Opt>): Parsed {
    if HasHelp(opts) then ShowHelp else Proceed(FoldAsWritten(opts))
  }

  function Parse(opts: seq<Opt>): Parsed {
    if HasHelp(opts) then ShowHelp else Proceed(Fold(opts))
  }

  /**
   * The option loop of `main`, with the `-o` branch the usage text promises:
   * it stops at the first `-h` and otherwise returns the settings `Parse`
   * describes.
   */
  method ApplyOptions(opts: seq<Opt>) returns (r: Parsed)
    ensures r == Parse(opts)
  {
    var pattern, title, basename, unit, render := "", "", "result", "", false;
    var i := 0;
    while i < |opts|
      invariant 0 <= i <= |opts|
      invariant !HasHelp(opts[..i])
      invariant Fold(opts[..i]) == Config(pattern, title, basename, unit, render)
    {
      var o := opts[i];
      ghost var before := Config(pattern, title, basename, unit, render);
      match o.flag {
        case Pattern =>
          pattern := StripBackslashes(o.arg);
          basename := DeriveBasename(o.arg);
        case Title =>
          title := o.arg;
        case Unit =>
          unit := o.arg;
        case Gnuplot =>
          render := true;
        case OutputFile =>
          basename := o.arg;
        case Help =>
          return ShowHelp;
      }
      FoldNext(opts, i);
      assert Config(pattern, title, basename, unit, render) == Step(before, o);
      i := i + 1;
    }
    assert opts[..i] == opts;
    return Proceed(Config(pattern, title, basename, unit, render));
  }

  /**
   * The option loop of `main` as the source has it: it stops at the first
   * `-h`, drops every `-o`, and otherwise returns the settings
   * `ParseAsWritten` describes.
   */
  method ApplyOptionsAsWritten(opts: seq<Opt>) returns (r: Parsed)
    ensures r == ParseAsWritten(opts)
  {
    var pattern, title, basename, unit, render := "", "", "result", "", false;
    var i := 0;
    while i < |opts|
      invariant 0 <= i <= |opts|
      invariant !HasHelp(opts[..i])
      invariant FoldAsWritten(opts[..i]) == Config(pattern, title, basename, unit, render)
    {
      var o := opts[i];
      ghost var before := Config(pattern, title, basename, unit, render);
      match o.flag {
        case Pattern =>
          pattern := StripBackslashes(o.arg);
          basename := DeriveBasename(o.arg);
        case Title =>
          title := o.arg;
        case Unit =>
          unit := o.arg;
        case Gnuplot =>
          render := true;
        case OutputFile =>
        case Help =>
          return ShowHelp;
      }
      FoldAsWrittenNext(opts, i);
      assert Config(pattern, title, basename, unit, render) == StepAsWritten(before, o);
      i := i + 1;
    }
    assert opts[..i] == opts;
    return Proceed(Config(pattern, title, basename, unit, render));
  }

  /** One more option without `-h` is one more step of the loop as written. */
  lemma FoldAsWrittenNext(opts: seq<Opt>, i: nat)
    requires i < |opts| && !HasHelp(opts[..i]) && opts[i].flag != Help
    ensures !HasHelp(opts[..i + 1])
    ensures FoldAsWritten(opts[..i + 1]) == StepAsWritten(FoldAsWritten(opts[..i]), opts[i])
  {
    assert opts[..i + 1][..i] == opts[..i];
    assert forall j :: 0 <= j < i ==> opts[..i][j] == opts[j];
  }

  /** One more option without `-h` is one more step of the loop. */
  lemma FoldNext(opts: seq<Opt>, i: nat)
    requires i < |opts| && !HasHelp(opts[..i]) && opts[i].flag != Help
    ensures !HasHelp(opts[..i + 1])
    ensures Fold(opts[..i + 1]) == Step(Fold(opts[..i]), opts[i])
  {
    assert opts[..i + 1][..i] == opts[..i];
    assert forall j :: 0 <= j < i ==> opts[..i][j] == opts[j];
  }

  /** Without `-h`, neither has the options before the last one. */
  lemma FrontHasNoHelp(opts: seq<Opt>)
    requires opts != [] && !HasHelp(opts)
    ensures !HasHelp(opts[..|opts| - 1])
  {
    var front := opts[..|opts| - 1];
    forall i | 0 <= i < |front| ensures front[i].flag != Help {
      assert front[i] == opts[i];
    }
  }

  /** The last option of `opts` whose flag is in `flags`. */
  function Last(opts: seq<Opt>, flags: set<Flag>): (r: Option<Opt>)
    ensures r.Some? ==> r.value.flag in flags
  {
    if opts == [] then None
    else if opts[|opts| - 1].flag in flags then Some(opts[|opts| - 1])
    else Last(opts[..|opts| - 1], flags)
  }

  /** `Last` finds an option with such a flag after which none follows. */
  lemma {:induction false} LastIsLast(opts: seq<Opt>, flags: set<Flag>)
    ensures Last(opts, flags).None? <==> forall i :: 0 <= i < |opts| ==> opts[i].flag !in flags
    ensures Last(opts, flags).Some? ==>
      exists k :: 0 <= k < |opts| && opts[k] == Last(opts, flags).value &&
        forall j :: k < j < |opts| ==> opts[j].flag !in flags
  {
    if opts != [] {
      var front := opts[..|opts| - 1];
      LastIsLast(front, flags);
      if opts[|opts| - 1].flag !in flags {
        assert forall i :: 0 <= i < |front| ==> front[i] == opts[i];
        if Last(front, flags).Some? {
          var k :| 0 <= k < |front| && front[k] == Last(front, flags).value &&
            forall j :: k < j < |front| ==> front[j].flag !in flags;
          assert opts[k] == Last(opts, flags).value;
        }
      } else {
        assert opts[|opts| - 1] == Last(opts, flags).value;
      }
    }
  }

  /** The argument of an option, or `d` when there is none. */
  function ArgOr(o: Option<Opt>, d: string): string {
    match o
    case None => d
    case Some(x) => x.arg
  }

  /**
   * As written, each setting comes from the last option of its kind, or keeps
   * its initial value; `-o` has no effect at all.
   */
  lemma FoldAsWrittenMeaning(opts: seq<Opt>)
    requires !HasHelp(opts)
    ensures FoldAsWritten(opts).pattern ==
      (match Last(opts, {Pattern}) case None => "" case Some(o) => StripBackslashes(o.arg))
    ensures FoldAsWritten(opts).basename ==
      (match Last(opts, {Pattern}) case None => "result" case Some(o) => DeriveBasename(o.arg))
    ensures FoldAsWritten(opts).title == ArgOr(Last(opts, {Title}), "")
    ensures FoldAsWritten(opts).unit == ArgOr(Last(opts, {Unit}), "")
    ensures FoldAsWritten(opts).render <==> Last(opts, {Gnuplot}).Some?
  {
    FoldAsWrittenPatternMeaning(opts);
    FoldAsWrittenOtherMeaning(opts);
  }

  /** The pattern and the basename after the loop as written. */
  lemma {:induction false} FoldAsWrittenPatternMeaning(opts: seq<Opt>)
    requires !HasHelp(opts)
    ensures FoldAsWritten(opts).pattern ==
      (match Last(opts, {Pattern}) case None => "" case Some(o) => StripBackslashes(o.arg))
    ensures FoldAsWritten(opts).basename ==
      (match Last(opts, {Pattern}) case None => "result" case Some(o) => DeriveBasename(o.arg))
  {
    if opts != [] {
      FrontHasNoHelp(opts);
      FoldAsWrittenPatternMeaning(opts[..|opts| - 1]);
    }
  }

  /** The title, the unit and the gnuplot switch after the loop as written. */
  lemma {:induction false} FoldAsWrittenOtherMeaning(opts: seq<Opt>)
    requires !HasHelp(opts)
    ensures FoldAsWritten(opts).title == ArgOr(Last(opts, {Title}), "")
    ensures FoldAsWritten(opts).unit == ArgOr(Last(opts, {Unit}), "")
    ensures FoldAsWritten(opts).render <==> Last(opts, {Gnuplot}).Some?
  {
    if opts != [] {
      FrontHasNoHelp(opts);
      FoldAsWrittenOtherMeaning(opts[..|opts| - 1]);
    }
  }

  /**
   * With the corrected loop, the basename comes from the last `-p` or `-o`,
   * whichever is later: the pattern's rewrite for `-p`, the argument itself
   * for `-o`. The other settings are as before.
   */
  lemma FoldMeaning(opts: seq<Opt>)
    requires !HasHelp(opts)
    ensures Fold(opts).pattern ==
      (match Last(opts, {Pattern}) case None => "" case Some(o) => StripBackslashes(o.arg))
    ensures Fold(opts).basename ==
      (match Last(opts, {Pattern, OutputFile})
       case None => "result"
       case Some(o) => if o.flag == Pattern then DeriveBasename(o.arg) else o.arg)
    ensures Fold(opts).title == ArgOr(Last(opts, {Title}), "")
    ensures Fold(opts).unit == ArgOr(Last(opts, {Unit}), "")
    ensures Fold(opts).render <==> Last(opts, {Gnuplot}).Some?
  {
    FoldPatternMeaning(opts);
    FoldOtherMeaning(opts);
  }

  /** The pattern and the basename after the corrected loop. */
  lemma {:induction false} FoldPatternMeaning(opts: seq<Opt>)
    requires !HasHelp(opts)
    ensures Fold(opts).pattern ==
      (match Last(opts, {Pattern}) case None => "" case Some(o) => StripBackslashes(o.arg))
    ensures Fold(opts).basename ==
      (match Last(opts, {Pattern, OutputFile})
       case None => "result"
       case Some(o) => if o.flag == Pattern then DeriveBasename(o.arg) else o.arg)
  {
    if opts != [] {
      FrontHasNoHelp(opts);
      FoldPatternMeaning(opts[..|opts| - 1]);
    }
  }

  /** The title, the unit and the gnuplot switch after the corrected loop. */
  lemma {:induction false} FoldOtherMeaning(opts: seq<Opt>)
    requires !HasHelp(opts)
    ensures Fold(opts).title == ArgOr(Last(opts, {Title}), "")
    ensures Fold(opts).unit == ArgOr(Last(opts, {Unit}), "")
    ensures Fold(opts).render <==> Last(opts, {Gnuplot}).Some?
  {
    if opts != [] {
      FrontHasNoHelp(opts);
      FoldOtherMeaning(opts[..|opts| - 1]);
    }
  }

  /** The source and the corrected loop disagree only on the basename, and only once `-o` is given. */
  lemma AsWrittenDiffersOnlyByOutputFile(opts: seq<Opt>)
    requires !HasHelp(opts)
    ensures FoldAsWritten(opts).(basename := "") == Fold(opts).(basename := "")
    ensures Last(opts, {OutputFile}).None? ==> FoldAsWritten(opts) == Fold(opts)
  {
    FoldAsWrittenMeaning(opts);
    FoldMeaning(opts);
    LastIsLast(opts, {OutputFile});
    LastIsLast(opts, {Pattern});
    LastIsLast(opts, {Pattern, OutputFile});
    if Last(opts, {OutputFile}).None? {
      LastWithoutFlag(opts, {Pattern, OutputFile}, OutputFile);
    }
  }

  /** Removing from the searched flags one that does not occur changes nothing. */
  lemma {:induction false} LastWithoutFlag(opts: seq<Opt>, flags: set<Flag>, absent: Flag)
    requires forall i :: 0 <= i < |opts| ==> opts[i].flag != absent
    ensures Last(opts, flags) == Last(opts, flags - {absent})
  {
    if opts != [] {
      var front := opts[..|opts| - 1];
      assert forall i :: 0 <= i < |front| ==> front[i] == opts[i];
      LastWithoutFlag(front, flags, absent);
    }
  }

  /** `multidn2gnuplot.py -o x` writes its traces to `result.*`, not to `x.*`. */
  lemma OutputFileIgnored()
    ensures ParseAsWritten([Opt(OutputFile, "x")]) == Proceed(Default)
    ensures Parse([Opt(OutputFile, "x")]) == Proceed(Default.(basename := "x"))
  {
    var opts := [Opt(OutputFile, "x")];
    assert opts[..0] == [];
    assert !HasHelp(opts);
  }
}
