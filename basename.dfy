/**
 * The output basename that `main` derives from the `-p` pattern
 * (multidn2gnuplot.py:162-174): a fixed chain of `str.replace` rewrites
 * followed by the removal of one trailing and one leading dash.
 */
module Basename {
  import opened Text

  /** `pattern.replace('\\', '')`: the pattern as `main` keeps it, and the start of the basename. */
  function StripBackslashes(arg: string): (r: string)
    ensures '\\' !in r
    ensures |r| <= |arg|
  {
    ReplaceRemovesChar(arg, '\\', "");
    ReplaceNoLonger(arg, "\\", "");
    Replace(arg, "\\", "")
  }

  /** `s[:-1] if s.endswith('-') else s` */
  function DropTrailingDash(s: string): string {
    if |s| > 0 && s[|s| - 1] == '-' then s[..|s| - 1] else s
  }

  /** `s[1:] if s.startswith('-') else s` */
  function DropLeadingDash(s: string): string {
    if |s| > 0 && s[0] == '-' then s[1..] else s
  }

  /** The rewrites of lines 168-171, applied to the backslash-free pattern. */
  function Simplify(a: string): string {
    var b := Replace(a, "-*-", "-");
    var c := Replace(b, "*", "-");
    var d := Replace(c, "--", "-");
    Replace(d, ".output", "")
  }

  /** Every rewrite keeps out the characters already absent, and removes `*`. */
  lemma SimplifyNoWildcards(a: string)
    requires '\\' !in a
    ensures '*' !in Simplify(a) && '\\' !in Simplify(a)
    ensures |Simplify(a)| <= |a|
  {
    var b := Replace(a, "-*-", "-");
    var c := Replace(b, "*", "-");
    var d := Replace(c, "--", "-");
    ReplaceKeepsAbsent(a, "-*-", "-", '\\');
    ReplaceNoLonger(a, "-*-", "-");
    ReplaceRemovesChar(b, '*', "-");
    ReplaceKeepsAbsent(b, "*", "-", '\\');
    ReplaceNoLonger(b, "*", "-");
    ReplaceKeepsAbsent(c, "--", "-", '*');
    ReplaceKeepsAbsent(c, "--", "-", '\\');
    ReplaceNoLonger(c, "--", "-");
    ReplaceKeepsAbsent(d, ".output", "", '*');
    ReplaceKeepsAbsent(d, ".output", "", '\\');
    ReplaceNoLonger(d, ".output", "");
  }

  /**
   * The basename for the `-p` argument `arg`. It holds neither a wildcard `*`
   * nor a backslash, and it is never longer than the argument.
   */
  function DeriveBasename(arg: string): (r: string)
    ensures '*' !in r && '\\' !in r
    ensures |r| <= |arg|
  {
    var a := StripBackslashes(arg);
    SimplifyNoWildcards(a);
    var e := Simplify(a);
    var f := DropTrailingDash(e);
    assert '*' !in f && '\\' !in f by {
      if f != e {
        assert forall k :: 0 <= k < |f| ==> f[k] == e[k];
      }
    }
    var g := DropLeadingDash(f);
    assert '*' !in g && '\\' !in g by {
      if g != f {
        assert forall k :: 0 <= k < |g| ==> g[k] == f[k + 1];
      }
    }
    g
  }

  // The rewrites of `*-*-*.output`, each stated for any tail `x` without the
  // pattern's first character.
  lemma StarStep2(x: string)
    requires '-' !in x
    ensures Replace("*" + ("-*-" + x), "-*-", "-") == "*-" + x
  {
    ReplaceSkip("*", "-*-" + x, "-*-", "-");
    ReplaceHead("-*-", x, "-");
    ReplaceUnchanged(x, "-*-", "-");
  }

  lemma StarStep3(x: string)
    requires '*' !in x
    ensures Replace("*" + ("-" + ("*" + x)), "*", "-") == "---" + x
  {
    ReplaceHead("*", "-" + ("*" + x), "-");
    ReplaceSkip("-", "*" + x, "*", "-");
    ReplaceHead("*", x, "-");
    ReplaceUnchanged(x, "*", "-");
  }

  lemma StarStep4(x: string)
    requires '-' !in x
    ensures Replace("--" + ("-" + x), "--", "-") == "--" + x
  {
    ReplaceHead("--", "-" + x, "-");
    ReplaceCopy('-', x, "--", "-");
    ReplaceUnchanged(x, "--", "-");
  }

  lemma StarStep5(y: string)
    requires '.' !in y
    ensures Replace(y + ".output", ".output", "") == y
  {
    ReplaceSkip(y, ".output", ".output", "");
    ReplaceHead(".output", [], "");
    ReplaceEmpty(".output", "");
  }

  lemma StarExample1()
    ensures StripBackslashes("*-*-*.output") == "*-*-*.output"
  {
    ReplaceUnchanged("*-*-*.output", "\\", "");
  }

  lemma StarExample2()
    ensures Replace("*-*-*.output", "-*-", "-") == "*-*.output"
  {
    assert "*-*-*.output" == "*" + ("-*-" + "*.output");
    StarStep2("*.output");
  }

  lemma StarExample3()
    ensures Replace("*-*.output", "*", "-") == "---.output"
  {
    assert "*-*.output" == "*" + ("-" + ("*" + ".output"));
    StarStep3(".output");
  }

  lemma StarExample4()
    ensures Replace("---.output", "--", "-") == "--.output"
  {
    assert "---.output" == "--" + ("-" + ".output");
    StarStep4(".output");
  }

  lemma StarExample5()
    ensures Replace("--.output", ".output", "") == "--"
  {
    assert "--.output" == "--" + ".output";
    StarStep5("--");
  }

  lemma SimplifyStarExample()
    ensures Simplify("*-*-*.output") == "--"
  {
    StarExample2();
    StarExample3();
    StarExample4();
    StarExample5();
  }

  /** The pattern `*-*-*.output` leaves nothing: the basename is empty. */
  lemma AllWildcardsLeaveEmpty()
    ensures DeriveBasename("*-*-*.output") == ""
  {
    StarExample1();
    SimplifyStarExample();
  }

  /**
   * A pattern with no backslash, no wildcard, no `--` and no `.output`, which
   * neither starts nor ends with a dash, is its own basename: every rewrite
   * leaves it as it is.
   */
  lemma PlainPatternIsItsOwnBasename(arg: string)
    requires '\\' !in arg && '*' !in arg
    requires !Contains(arg, "--") && !Contains(arg, ".output")
    requires arg == [] || (arg[0] != '-' && arg[|arg| - 1] != '-')
    ensures DeriveBasename(arg) == arg
  {
    ReplaceUnchanged(arg, "\\", "");
    MissingCharNotContained(arg, "-*-", 1);
    ReplaceAbsent(arg, "-*-", "-");
    ReplaceUnchanged(arg, "*", "-");
    ReplaceAbsent(arg, "--", "-");
    ReplaceAbsent(arg, ".output", "");
  }

  /**
   * A pattern `<stem>.output*`, as in the usage text, gives the stem as the
   * basename when the stem holds none of the characters the rewrites act on.
   */
  lemma WildcardSuffixBasename(stem: string)
    requires '\\' !in stem && '*' !in stem && '-' !in stem && '.' !in stem
    ensures DeriveBasename(stem + ".output*") == stem
  {
    var arg := stem + ".output*";
    ReplaceUnchanged(arg, "\\", "");
    WildcardSuffixSimplify(stem);
    assert DropTrailingDash(stem + "-") == stem;
  }

  lemma WildcardSuffixSimplify(stem: string)
    requires '*' !in stem && '-' !in stem && '.' !in stem
    ensures Simplify(stem + ".output*") == stem + "-"
  {
    var tail := ".output";
    assert stem + ".output*" == stem + tail + "*";
    ReplaceUnchanged(stem + tail + "*", "-*-", "-");
    DashForWildcard(stem + tail);
    NoDoubleDash(stem + tail);
    assert stem + tail + "-" == stem + (tail + "-");
    ReplaceSkip(stem, tail + "-", ".output", "");
    ReplaceHead(".output", "-", "");
    ReplaceUnchanged("-", ".output", "");
  }

  /** The usage text's pattern `diag_network.output*` gives the basename `diag_network`. */
  lemma UsageExampleBasename()
    ensures DeriveBasename("diag_network.output*") == "diag_network"
  {
    var stem := "diag_network";
    assert stem + ".output*" == "diag_network.output*";
    WildcardSuffixBasename(stem);
  }

  // The steps of `WildcardSuffixSimplify`, for any text `x` without `*` or `-`.
  lemma DashForWildcard(x: string)
    requires '*' !in x
    ensures Replace(x + "*", "*", "-") == x + "-"
  {
    ReplaceSkip(x, "*", "*", "-");
    ReplaceHead("*", [], "-");
    ReplaceEmpty("*", "-");
  }

  lemma NoDoubleDash(x: string)
    requires '-' !in x
    ensures Replace(x + "-", "--", "-") == x + "-"
  {
    ReplaceSkip(x, "-", "--", "-");
    ReplaceCopy('-', [], "--", "-");
    ReplaceEmpty("--", "-");
  }
}
