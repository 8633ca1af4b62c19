/**
 * String operations with the meaning the Python 2 interpreter gives them in
 * multidn2gnuplot.py: substring tests (`t in s`), `str.find`, `str.replace`,
 * `str.lower`, string ordering, `'%d' % n` and `int(s)`.
 */
module Text {

  datatype Option<T> = None | Some(value: T)

  // ---------------------------------------------------------------------------
  // Substrings

  /** `t` occurs in `s` starting at index `i`. */
  predicate OccursAt(s: string, t: string, i: int) {
    0 <= i && i + |t| <= |s| && s[i..i + |t|] == t
  }

  /** Python's `t in s` on strings. */
  predicate Contains(s: string, t: string) {
    exists i :: 0 <= i <= |s| - |t| && OccursAt(s, t, i)
  }

  /** Python's `s.find(t)`: the first index at which `t` occurs, if any. */
  function Find(s: string, t: string): (r: Option<nat>)
    ensures r.Some? ==> r.value + |t| <= |s|
    decreases |s|
  {
    if |s| < |t| then None
    else if s[..|t|] == t then Some(0)
    else
      match Find(s[1..], t)
      case None => None
      case Some(k) => Some(k + 1)
  }

  /** `Find` returns an occurrence, the first one, and fails only when there is none. */
  lemma {:induction false} FindIsFirst(s: string, t: string)
    ensures Find(s, t).None? <==> !Contains(s, t)
    ensures Find(s, t).Some? ==> OccursAt(s, t, Find(s, t).value)
    ensures Find(s, t).Some? ==> forall j :: 0 <= j < Find(s, t).value ==> !OccursAt(s, t, j)
    decreases |s|
  {
    if |s| < |t| {
    } else if s[..|t|] == t {
      assert OccursAt(s, t, 0);
    } else {
      var tail := s[1..];
      FindIsFirst(tail, t);
      assert !OccursAt(s, t, 0);
      match Find(tail, t)
      case None => NoneInTail(s, t);
      case Some(k) => FirstInTail(s, t, k);
    }
  }

  /** With no occurrence at 0 and none in the tail, there is none at all. */
  lemma NoneInTail(s: string, t: string)
    requires s != [] && !OccursAt(s, t, 0) && !Contains(s[1..], t)
    ensures !Contains(s, t)
  {
    forall i | 0 < i <= |s| - |t|
      ensures !OccursAt(s, t, i)
    {
      OccursShift(s, t, i - 1);
    }
  }

  /** With no occurrence at 0, the first occurrence in the tail is the first in `s`, one index later. */
  lemma FirstInTail(s: string, t: string, k: nat)
    requires s != [] && !OccursAt(s, t, 0)
    requires OccursAt(s[1..], t, k) && forall j :: 0 <= j < k ==> !OccursAt(s[1..], t, j)
    ensures OccursAt(s, t, k + 1) && forall j :: 0 <= j < k + 1 ==> !OccursAt(s, t, j)
  {
    OccursShift(s, t, k);
    forall j | 0 < j < k + 1
      ensures !OccursAt(s, t, j)
    {
      OccursShift(s, t, j - 1);
    }
  }

  /** An occurrence in `s[1..]` is an occurrence in `s`, one index later. */
  lemma OccursShift(s: string, t: string, j: nat)
    requires s != []
    ensures OccursAt(s[1..], t, j) <==> OccursAt(s, t, j + 1)
  {
    if j + |t| <= |s| - 1 {
      assert s[1..][j..j + |t|] == s[j + 1..j + 1 + |t|];
    }
  }

  /** The last index at which `t` occurs in `s`, if any. */
  function FindLast(s: string, t: string): (r: Option<nat>)
    ensures r.Some? ==> r.value + |t| <= |s|
    decreases |s|
  {
    if |s| < |t| then None
    else if s[|s| - |t|..] == t then Some(|s| - |t|)
    else FindLast(s[..|s| - 1], t)
  }

  /** `FindLast` returns an occurrence, the last one, and fails only when there is none. */
  lemma {:induction false} FindLastIsLast(s: string, t: string)
    ensures FindLast(s, t).None? <==> !Contains(s, t)
    ensures FindLast(s, t).Some? ==> OccursAt(s, t, FindLast(s, t).value)
    ensures FindLast(s, t).Some? ==> forall j :: FindLast(s, t).value < j ==> !OccursAt(s, t, j)
    decreases |s|
  {
    if |s| < |t| {
    } else if s[|s| - |t|..] == t {
      assert OccursAt(s, t, |s| - |t|);
    } else {
      var front := s[..|s| - 1];
      FindLastIsLast(front, t);
      assert !OccursAt(s, t, |s| - |t|);
      match FindLast(front, t)
      case None => NoneInFront(s, t);
      case Some(k) => LastInFront(s, front, t, k);
    }
  }

  /** With no occurrence at the end and none before the last character, there is none at all. */
  lemma NoneInFront(s: string, t: string)
    requires s != [] && !OccursAt(s, t, |s| - |t|) && !Contains(s[..|s| - 1], t)
    ensures !Contains(s, t)
  {
    forall i | 0 <= i < |s| - |t|
      ensures !OccursAt(s, t, i)
    {
      OccursDropLast(s, t, i);
    }
  }

  /** With no occurrence at the end, the last occurrence before the last character is the last in `s`. */
  lemma LastInFront(s: string, front: string, t: string, k: nat)
    requires s != [] && front == s[..|s| - 1] && !OccursAt(s, t, |s| - |t|)
    requires OccursAt(front, t, k) && forall j :: k < j ==> !OccursAt(front, t, j)
    ensures OccursAt(s, t, k) && forall j :: k < j ==> !OccursAt(s, t, j)
  {
    OccursDropLast(s, t, k);
    forall j | k < j
      ensures !OccursAt(s, t, j)
    {
      OccursDropLast(s, t, j);
    }
  }

  /** An occurrence in `s` minus its last character is an occurrence in `s` that ends before it. */
  lemma OccursDropLast(s: string, t: string, j: int)
    requires s != []
    ensures OccursAt(s[..|s| - 1], t, j) <==> (OccursAt(s, t, j) && j + |t| < |s|)
  {
    if 0 <= j && j + |t| < |s| {
      assert s[..|s| - 1][j..j + |t|] == s[j..j + |t|];
    }
  }

  /** A string lacking one of `t`'s characters does not contain `t`. */
  lemma MissingCharNotContained(s: string, t: string, k: nat)
    requires k < |t| && t[k] !in s
    ensures !Contains(s, t)
  {
  }

  /** An occurrence in the second part of a concatenation, shifted by the length of the first. */
  lemma OccursInSecond(x: string, y: string, t: string, j: nat)
    ensures OccursAt(x + y, t, |x| + j) <==> OccursAt(y, t, j)
  {
    if j + |t| <= |y| {
      assert (x + y)[|x| + j..|x| + j + |t|] == y[j..j + |t|];
    }
  }

  /**
   * For a three-character `t` whose first and last characters agree and
   * differ from the middle one: in `x + t + y`, where `t` occurs nowhere in
   * its last character followed by `y`, the last occurrence is the one after `x`.
   */
  lemma LastOccurrence(x: string, y: string, t: string)
    requires |t| == 3 && t[0] == t[2] && t[1] != t[0]
    requires !Contains([t[2]] + y, t)
    ensures FindLast(x + t + y, t) == Some(|x|)
  {
    var b := x + t + y;
    FindLastIsLast(b, t);
    assert b[|x|..|x| + 3] == t;
    assert OccursAt(b, t, |x|);
    forall k | k > |x|
      ensures !OccursAt(b, t, k)
    {
      NoLaterOccurrence(x, y, t, k);
    }
  }

  /** The occurrence of such a `t` after `x` in `x + t + y` is the last one. */
  lemma NoLaterOccurrence(x: string, y: string, t: string, k: int)
    requires |t| == 3 && t[0] == t[2] && t[1] != t[0]
    requires !Contains([t[2]] + y, t)
    requires k > |x|
    ensures !OccursAt(x + t + y, t, k)
  {
    var b := x + t + y;
    if OccursAt(b, t, k) {
      assert b[k..k + 3][0] == b[k];
      assert b[|x| + 1] == t[1];
      var z := [t[2]] + y;
      var j := k - |x| - 2;
      forall n | 0 <= n < 3
        ensures z[j..j + 3][n] == t[n]
      {
        assert z[j + n] == b[k + n];
      }
      assert OccursAt(z, t, j);
    }
  }

  // ---------------------------------------------------------------------------
  // str.replace

  /** `s.startswith(p)`, character by character. */
  predicate StartsWith(s: string, p: string) {
    p == [] || (s != [] && s[0] == p[0] && StartsWith(s[1..], p[1..]))
  }

  lemma {:induction false} StartsWithPrefix(s: string, p: string)
    ensures StartsWith(s, p) <==> |p| <= |s| && s[..|p|] == p
    decreases |p|
  {
    if p != [] && s != [] {
      StartsWithPrefix(s[1..], p[1..]);
      if |p| <= |s| {
        assert s[..|p|] == [s[0]] + s[1..][..|p| - 1];
        assert p == [p[0]] + p[1..];
      }
    }
  }

  /**
   * Python's `s.replace(pat, rep)` for a non-empty `pat`: occurrences are
   * found left to right and do not overlap.
   */
  function Replace(s: string, pat: string, rep: string): string
    requires pat != []
    decreases |s|
  {
    if s == [] then []
    else if StartsWith(s, pat) && |pat| <= |s| then rep + Replace(s[|pat|..], pat, rep)
    else [s[0]] + Replace(s[1..], pat, rep)
  }

  /**
   * The interpreter's own algorithm for `str.replace`: find the first
   * occurrence, copy what precedes it, emit the replacement and continue after
   * the occurrence.
   */
  function FindReplace(s: string, pat: string, rep: string): string
    requires pat != []
    decreases |s|
  {
    match Find(s, pat)
    case None => s
    case Some(i) => s[..i] + rep + FindReplace(s[i + |pat|..], pat, rep)
  }

  /** `Replace` agrees with the interpreter's algorithm on every input. */
  lemma {:induction false} ReplaceIsFindReplace(s: string, pat: string, rep: string)
    requires pat != []
    ensures Replace(s, pat, rep) == FindReplace(s, pat, rep)
    decreases |s|
  {
    FindIsFirst(s, pat);
    match Find(s, pat)
    case None =>
      ReplaceCopiesPrefix(s, pat, rep, |s|);
      assert s[..|s|] == s && s[|s|..] == [];
    case Some(i) =>
      var before, rest, after := s[..i], s[i..], s[i + |pat|..];
      assert rest[|pat|..] == after;
      assert OccursAt(rest, pat, 0) by {
        assert rest[..|pat|] == s[i..i + |pat|];
      }
      ReplaceCopiesPrefix(s, pat, rep, i);
      ReplaceAtOccurrence(rest, pat, rep, after);
      ReplaceIsFindReplace(after, pat, rep);
      calc {
        Replace(s, pat, rep);
        before + Replace(rest, pat, rep);
        before + (rep + FindReplace(after, pat, rep));
        before + rep + FindReplace(after, pat, rep);
      }
  }

  /** Before the first occurrence, `Replace` copies the text through. */
  lemma {:induction false} ReplaceCopiesPrefix(s: string, pat: string, rep: string, i: nat)
    requires pat != [] && i <= |s|
    requires forall j :: 0 <= j < i ==> !OccursAt(s, pat, j)
    ensures Replace(s, pat, rep) == s[..i] + Replace(s[i..], pat, rep)
  {
    if i > 0 {
      var tail := s[1..];
      ReplacePastMismatch(s, pat, rep);
      AbsentInTail(s, pat, i);
      ReplaceCopiesPrefix(tail, pat, rep, i - 1);
      ConsSplit(s, i);
    } else {
      assert s[..0] + Replace(s[0..], pat, rep) == Replace(s, pat, rep);
    }
  }

  /** No occurrence among the first `i` indices of `s` leaves none among the first `i - 1` of its tail. */
  lemma AbsentInTail(s: string, pat: string, i: nat)
    requires 0 < i <= |s|
    requires forall j :: 0 <= j < i ==> !OccursAt(s, pat, j)
    ensures forall j :: 0 <= j < i - 1 ==> !OccursAt(s[1..], pat, j)
  {
    forall j | 0 <= j < i - 1
      ensures !OccursAt(s[1..], pat, j)
    {
      OccursShift(s, pat, j);
    }
  }

  /** Splitting `s` at `i` after its first character. */
  lemma ConsSplit<T>(s: seq<T>, i: nat)
    requires 0 < i <= |s|
    ensures s[1..][i - 1..] == s[i..]
    ensures forall r: seq<T> :: [s[0]] + (s[1..][..i - 1] + r) == s[..i] + r
  {
    forall r: seq<T>
      ensures [s[0]] + (s[1..][..i - 1] + r) == s[..i] + r
    {
      assert s[..i] == [s[0]] + s[1..][..i - 1];
    }
  }

  /** Where the pattern does not occur, `Replace` copies one character and continues. */
  lemma ReplacePastMismatch(s: string, pat: string, rep: string)
    requires pat != [] && s != [] && !OccursAt(s, pat, 0)
    ensures Replace(s, pat, rep) == [s[0]] + Replace(s[1..], pat, rep)
  {
    StartsWithPrefix(s, pat);
  }

  /** At an occurrence, `Replace` emits the replacement and continues after it. */
  lemma ReplaceAtOccurrence(x: string, pat: string, rep: string, after: string)
    requires pat != [] && OccursAt(x, pat, 0) && x[|pat|..] == after
    ensures Replace(x, pat, rep) == rep + Replace(after, pat, rep)
  {
    StartsWithPrefix(x, pat);
  }

  /** Text without the pattern's first character is copied through unchanged. */
  lemma {:induction false} ReplaceSkip(x: string, y: string, pat: string, rep: string)
    requires pat != [] && pat[0] !in x
    ensures Replace(x + y, pat, rep) == x + Replace(y, pat, rep)
    decreases |x|
  {
    if x != [] {
      assert (x + y)[1..] == x[1..] + y;
      assert !StartsWith(x + y, pat);
      ReplaceSkip(x[1..], y, pat, rep);
      calc {
        Replace(x + y, pat, rep);
        [x[0]] + Replace(x[1..] + y, pat, rep);
        [x[0]] + (x[1..] + Replace(y, pat, rep));
        { assert [x[0]] + x[1..] == x; }
        x + Replace(y, pat, rep);
      }
    } else {
      assert x + y == y;
    }
  }

  /** An occurrence of the pattern at the start is replaced. */
  lemma ReplaceHead(pat: string, y: string, rep: string)
    requires pat != []
    ensures Replace(pat + y, pat, rep) == rep + Replace(y, pat, rep)
  {
    StartsWithPrefix(pat + y, pat);
    assert (pat + y)[..|pat|] == pat;
    assert (pat + y)[|pat|..] == y;
  }

  /** A character that does not start an occurrence is copied through. */
  lemma ReplaceCopy(c: char, y: string, pat: string, rep: string)
    requires pat != [] && !StartsWith([c] + y, pat)
    ensures Replace([c] + y, pat, rep) == [c] + Replace(y, pat, rep)
  {
    assert ([c] + y)[1..] == y;
  }

  lemma ReplaceEmpty(pat: string, rep: string)
    requires pat != []
    ensures Replace([], pat, rep) == []
  {
  }

  /** A string without the pattern's first character is left as it is. */
  lemma ReplaceUnchanged(s: string, pat: string, rep: string)
    requires pat != [] && pat[0] !in s
    ensures Replace(s, pat, rep) == s
  {
    ReplaceSkip(s, [], pat, rep);
    assert s + [] == s;
  }

  /** A text in which the pattern does not occur is left as it is. */
  lemma ReplaceAbsent(s: string, pat: string, rep: string)
    requires pat != [] && !Contains(s, pat)
    ensures Replace(s, pat, rep) == s
  {
    ReplaceCopiesPrefix(s, pat, rep, |s|);
    assert s[..|s|] == s && s[|s|..] == [];
  }

  /** A replacement no longer than the pattern never lengthens the string. */
  lemma {:induction false} ReplaceNoLonger(s: string, pat: string, rep: string)
    requires pat != [] && |rep| <= |pat|
    ensures |Replace(s, pat, rep)| <= |s|
    decreases |s|
  {
    if s == [] {
    } else if StartsWith(s, pat) && |pat| <= |s| {
      ReplaceNoLonger(s[|pat|..], pat, rep);
    } else {
      ReplaceNoLonger(s[1..], pat, rep);
    }
  }

  /** A character absent from the string and from the replacement stays absent. */
  lemma {:induction false} ReplaceKeepsAbsent(s: string, pat: string, rep: string, c: char)
    requires pat != [] && c !in s && c !in rep
    ensures c !in Replace(s, pat, rep)
    decreases |s|
  {
    if s == [] {
    } else if StartsWith(s, pat) && |pat| <= |s| {
      ReplaceKeepsAbsent(s[|pat|..], pat, rep, c);
    } else {
      ReplaceKeepsAbsent(s[1..], pat, rep, c);
    }
  }

  /** Replacing a single character by text without it removes every copy of it. */
  lemma {:induction false} ReplaceRemovesChar(s: string, c: char, rep: string)
    requires c !in rep
    ensures c !in Replace(s, [c], rep)
    decreases |s|
  {
    if s == [] {
    } else if StartsWith(s, [c]) {
      ReplaceRemovesChar(s[1..], c, rep);
    } else {
      assert s[0] != c by { StartsWithPrefix(s, [c]); }
      ReplaceRemovesChar(s[1..], c, rep);
    }
  }

  // ---------------------------------------------------------------------------
  // str.lower and string ordering

  /** `str.lower` on one byte of a string, in the C locale. */
  function LowerChar(c: char): char {
    if 'A' <= c <= 'Z' then (c as int + 32) as char else c
  }

  /** `str.lower` in the C locale: ASCII upper-case letters become lower-case. */
  function Lower(s: string): string {
    seq(|s|, i requires 0 <= i < |s| => LowerChar(s[i]))
  }

  /** Python's `a <= b` on strings: lexicographic, a proper prefix comes first. */
  predicate LexLe(a: string, b: string) {
    a == [] || (b != [] && (a[0] < b[0] || (a[0] == b[0] && LexLe(a[1..], b[1..]))))
  }

  lemma {:induction false} LexLeTotal(a: string, b: string)
    ensures LexLe(a, b) || LexLe(b, a)
    decreases |a|
  {
    if a != [] && b != [] && a[0] == b[0] {
      LexLeTotal(a[1..], b[1..]);
    }
  }

  lemma {:induction false} LexLeTrans(a: string, b: string, c: string)
    requires LexLe(a, b) && LexLe(b, c)
    ensures LexLe(a, c)
    decreases |a|
  {
    if a != [] && a[0] == b[0] && b[0] == c[0] {
      LexLeTrans(a[1..], b[1..], c[1..]);
    }
  }

  // ---------------------------------------------------------------------------
  // '%d' % n and int(s)

  predicate IsDigit(c: char) {
    '0' <= c <= '9'
  }

  predicate AllDigits(d: string) {
    forall i :: 0 <= i < |d| ==> IsDigit(d[i])
  }

  /** The characters `str.strip` and `int` treat as white space. */
  predicate IsSpace(c: char) {
    c == ' ' || c == '\t' || c == '\n' || c == '\r' || c == '\U{000B}' || c == '\U{000C}'
  }

  function DigitChar(d: nat): char
    requires d < 10
  {
    (d + '0' as int) as char
  }

  /** Decimal digits of `n`, most significant first, without leading zeros. */
  function NatToString(n: nat): string
    decreases n
  {
    if n < 10 then [DigitChar(n)] else NatToString(n / 10) + [DigitChar(n % 10)]
  }

  /** `'%d' % n`. */
  function IntToString(n: int): string {
    if n < 0 then "-" + NatToString(-n) else NatToString(n)
  }

  /** The number a run of decimal digits denotes. */
  function DigitsValue(d: string): nat
    requires AllDigits(d)
  {
    if d == [] then 0 else DigitsValue(d[..|d| - 1]) * 10 + (d[|d| - 1] as int - '0' as int)
  }

  function TrimLeft(s: string): string {
    if s != [] && IsSpace(s[0]) then TrimLeft(s[1..]) else s
  }

  function TrimRight(s: string): string {
    if s != [] && IsSpace(s[|s| - 1]) then TrimRight(s[..|s| - 1]) else s
  }

  function ParseDigits(d: string): Option<nat> {
    if d != [] && AllDigits(d) then Some(DigitsValue(d)) else None
  }

  /**
   * Python 2's `int(s)` on a string in base 10: surrounding white space, an
   * optional sign, which may itself be followed by white space (the
   * interpreter skips it again before the digits), and at least one decimal
   * digit. `None` where it raises ValueError.
   */
  function ParseInt(s: string): Option<int> {
    var t := TrimRight(TrimLeft(s));
    if t != [] && t[0] == '-' then
      match ParseDigits(TrimLeft(t[1..]))
      case Some(n) => Some(-(n as int))
      case None => None
    else if t != [] && t[0] == '+' then
      match ParseDigits(TrimLeft(t[1..]))
      case Some(n) => Some(n)
      case None => None
    else
      ParseDigits(t)
  }

  lemma {:induction false} NatToStringDigits(n: nat)
    ensures NatToString(n) != [] && AllDigits(NatToString(n))
    ensures DigitsValue(NatToString(n)) == n
    decreases n
  {
    if n >= 10 {
      NatToStringDigits(n / 10);
      var s := NatToString(n / 10);
      assert (s + [DigitChar(n % 10)])[..|s|] == s;
    }
  }

  /** `int('%d' % n) == n`. */
  lemma IntToStringRoundTrip(n: int)
    ensures ParseInt(IntToString(n)) == Some(n)
  {
    var d := NatToString(if n < 0 then -n else n);
    NatToStringDigits(if n < 0 then -n else n);
    var s := IntToString(n);
    assert !IsSpace(s[0]) && !IsSpace(s[|s| - 1]);
    assert TrimLeft(s) == s;
    assert TrimRight(s) == s;
    if n < 0 {
      assert s[1..] == d;
      assert TrimLeft(d) == d;
    } else {
      assert s[0] != '-' && s[0] != '+';
    }
  }

  /** `int('- 5') == -5`: white space may separate the sign from the digits. */
  lemma SpaceAfterSign()
    ensures ParseInt("- 5") == Some(-5)
  {
    assert TrimLeft("- 5") == "- 5";
    assert TrimRight("- 5") == "- 5";
    assert "- 5"[1..] == " 5";
    assert TrimLeft(" 5") == "5";
    assert DigitsValue("5") == 5;
  }

  /** `'%d' % n` is decimal digits after at most a leading minus sign. */
  lemma IntToStringPlain(n: int)
    ensures forall i :: 0 <= i < |IntToString(n)| ==>
      IsDigit(IntToString(n)[i]) || (i == 0 && IntToString(n)[i] == '-')
  {
    NatToStringDigits(if n < 0 then -n else n);
  }
}
