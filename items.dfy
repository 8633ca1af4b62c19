/**
 * The item number `compute_math` reads from a log file's name
 * (multidn2gnuplot.py:66-70): `re.search('(?<=.output.).*', file)` and
 * `int()` of what it matches.
 */
module Items {
  import opened Text

  /**
   * The look-behind `(?<=.output.)` holds at index `p`: the eight characters
   * before it are any character, `output`, any character, where "any
   * character" (the regular expression's `.`) excludes the newline.
   */
  predicate MarkerEndsAt(name: string, p: int) {
    8 <= p <= |name| &&
    name[p - 8] != '\n' && name[p - 7..p - 1] == "output" && name[p - 1] != '\n'
  }

  /** The first index from `p` on where the look-behind holds. */
  function FirstMarkerFrom(name: string, p: nat): (r: Option<nat>)
    ensures r.Some? ==> p <= r.value <= |name|
    decreases |name| + 1 - p
  {
    if p > |name| then None
    else if MarkerEndsAt(name, p) then Some(p)
    else FirstMarkerFrom(name, p + 1)
  }

  /** `FirstMarkerFrom` finds the first index at or after `p` where the look-behind holds. */
  lemma {:induction false} FirstMarkerFromIsFirst(name: string, p: nat)
    ensures FirstMarkerFrom(name, p).None? ==> forall q :: p <= q ==> !MarkerEndsAt(name, q)
    ensures FirstMarkerFrom(name, p).Some? ==>
      var q := FirstMarkerFrom(name, p).value;
      MarkerEndsAt(name, q) && forall q' :: p <= q' < q ==> !MarkerEndsAt(name, q')
    decreases |name| + 1 - p
  {
    if p <= |name| && !MarkerEndsAt(name, p) {
      FirstMarkerFromIsFirst(name, p + 1);
    }
  }

  /** What `.*` matches from the start of `s`: everything before the first newline. */
  function RestOfLine(s: string): (r: string)
    ensures |r| <= |s| && r == s[..|r|] && '\n' !in r
    ensures |r| < |s| ==> s[|r|] == '\n'
  {
    if s == [] || s[0] == '\n' then [] else [s[0]] + RestOfLine(s[1..])
  }

  /**
   * The outcome for one file name: no match (the file is skipped), the item
   * number, or text `int()` rejects (the interpreter raises ValueError).
   */
  datatype Item = NoMarker | Index(n: int) | NotANumber(text: string)

  function ItemOf(name: string): Item {
    match FirstMarkerFrom(name, 0)
    case None => NoMarker
    case Some(p) =>
      var text := RestOfLine(name[p..]);
      match ParseInt(text)
      case Some(n) => Index(n)
      case None => NotANumber(text)
  }

  /** A name is skipped exactly when the look-behind holds nowhere in it. */
  lemma NoMarkerIffNoMatch(name: string)
    ensures ItemOf(name) == NoMarker <==> forall q :: !MarkerEndsAt(name, q)
  {
    FirstMarkerFromIsFirst(name, 0);
  }

  /** Otherwise the item is `int()` of the rest of the name after the first match, up to a newline. */
  lemma ItemIsRestAfterFirstMatch(name: string)
    requires ItemOf(name) != NoMarker
    ensures exists p ::
      MarkerEndsAt(name, p) && (forall q :: 0 <= q < p ==> !MarkerEndsAt(name, q)) &&
      ItemOf(name) == match ParseInt(RestOfLine(name[p..]))
                      case Some(n) => Index(n)
                      case None => NotANumber(RestOfLine(name[p..]))
  {
    FirstMarkerFromIsFirst(name, 0);
    var p := FirstMarkerFrom(name, 0).value;
    assert MarkerEndsAt(name, p);
  }

  /**
   * A name made of a stem that neither holds `output` nor a newline,
   * `.output.` and a number written with `%d` yields that number.
   */
  lemma ItemOfNumberedName(stem: string, n: int)
    requires !Contains(stem, "output") && '\n' !in stem
    ensures ItemOf(stem + ".output." + IntToString(n)) == Index(n)
  {
    var digits := IntToString(n);
    var name := stem + ".output." + digits;
    FirstMarkerOfNumberedName(stem, digits);
    assert name[|stem| + 8..] == digits;
    IntToStringPlain(n);
    RestOfLineWhole(digits);
    IntToStringRoundTrip(n);
  }

  /** In such a name the first match ends right after `.output.`. */
  lemma FirstMarkerOfNumberedName(stem: string, digits: string)
    requires !Contains(stem, "output") && '\n' !in stem
    ensures FirstMarkerFrom(stem + ".output." + digits, 0) == Some(|stem| + 8)
  {
    var name := stem + ".output." + digits;
    var p := |stem| + 8;
    assert name[p - 8..p] == ".output.";
    assert name[p - 7..p - 1] == "output";
    assert MarkerEndsAt(name, p);
    forall q | 0 <= q < p
      ensures !MarkerEndsAt(name, q)
    {
      if 8 <= q {
        NoEarlierMarker(stem, digits, q);
      }
    }
    FirstMarkerFromIsFirst(name, 0);
  }

  /**
   * Before the end of `.output.`, no window of six characters reads `output`:
   * inside the stem there is none, and any later window holds the `.` the
   * stem is followed by.
   */
  lemma NoEarlierMarker(stem: string, digits: string, q: int)
    requires !Contains(stem, "output")
    requires 8 <= q < |stem| + 8
    ensures (stem + ".output." + digits)[q - 7..q - 1] != "output"
  {
    var name := stem + ".output." + digits;
    var w := name[q - 7..q - 1];
    if q - 1 <= |stem| {
      assert stem[q - 7..q - 1] == w;
      assert !OccursAt(stem, "output", q - 7);
    } else {
      var k := |stem| - (q - 7);
      assert w[k] == name[|stem|] == '.';
    }
  }

  /** A string without a newline is matched whole by `.*`. */
  lemma {:induction false} RestOfLineWhole(s: string)
    requires '\n' !in s
    ensures RestOfLine(s) == s
  {
    if s != [] {
      RestOfLineWhole(s[1..]);
    }
  }

  /** The name of the usage text's example, `diag_network.output.1500`, yields the item 1500. */
  lemma UsageExampleItem(name: string)
    requires name == "diag_network.output.1500"
    ensures ItemOf(name) == Index(1500)
  {
    var stem := name[..12];
    assert stem == "diag_network";
    FifteenHundred();
    assert name == stem + ".output." + IntToString(1500);
    MissingCharNotContained(stem, "output", 1);
    ItemOfNumberedName(stem, 1500);
  }

  lemma FifteenHundred()
    ensures IntToString(1500) == "1500"
  {
    assert NatToString(1) == "1";
    assert NatToString(15) == "1" + "5";
    assert NatToString(150) == "15" + "0";
  }
}
