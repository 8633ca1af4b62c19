/**
 * Choosing the log files (multidn2gnuplot.py:29-38 and 185-190): `find_file`
 * keeps the directory entries whose names match the pattern, `main` stops
 * when there are none and otherwise sorts them by `str.lower` of the name.
 * The directory listing and `fnmatch.fnmatch` are parameters.
 */
module Selection {
  import opened Text

  /** A directory entry: its name and the text `open(file).read()` would give. */
  datatype File = File(name: string, content: string)

  /** The entries whose names `matches(name, pattern)` accepts, in listing order. */
  function Matching(dir: seq<File>, pattern: string, matches: (string, string) -> bool): seq<File> {
    if dir == [] then []
    else
      var last := dir[|dir| - 1];
      Matching(dir[..|dir| - 1], pattern, matches) + (if matches(last.name, pattern) then [last] else [])
  }

  /** `Matching` keeps every matching entry as often as the listing has it, and nothing else. */
  lemma {:induction false} MatchingCounts(dir: seq<File>, pattern: string, matches: (string, string) -> bool)
    ensures forall f :: multiset(Matching(dir, pattern, matches))[f] ==
                        if matches(f.name, pattern) then multiset(dir)[f] else 0
  {
    if dir != [] {
      var front, last := dir[..|dir| - 1], dir[|dir| - 1];
      MatchingCounts(front, pattern, matches);
      assert dir == front + [last];
      assert multiset(dir) == multiset(front) + multiset{last};
    }
  }

  /** An entry is kept exactly when it is listed and its name matches. */
  lemma MatchingKeepsMatches(dir: seq<File>, pattern: string, matches: (string, string) -> bool)
    ensures forall f :: f in Matching(dir, pattern, matches) <==> f in dir && matches(f.name, pattern)
  {
    MatchingCounts(dir, pattern, matches);
    forall f
      ensures f in Matching(dir, pattern, matches) <==> f in dir && matches(f.name, pattern)
    {
      assert f in Matching(dir, pattern, matches) <==> multiset(Matching(dir, pattern, matches))[f] > 0;
      assert f in dir <==> multiset(dir)[f] > 0;
    }
  }

  /** `find_file`: the `for` loop over the listing that appends every matching name. */
  method FindFile(dir: seq<File>, pattern: string, matches: (string, string) -> bool) returns (found: seq<File>)
    ensures found == Matching(dir, pattern, matches)
    ensures forall f :: f in found <==> f in dir && matches(f.name, pattern)
  {
    found := [];
    var i := 0;
    while i < |dir|
      invariant 0 <= i <= |dir|
      invariant found == Matching(dir[..i], pattern, matches)
    {
      assert dir[..i + 1][..i] == dir[..i];
      if matches(dir[i].name, pattern) {
        found := found + [dir[i]];
      }
      i := i + 1;
    }
    assert dir[..i] == dir;
    MatchingKeepsMatches(dir, pattern, matches);
  }

  /** The order of `sorted(..., key=str.lower)`. */
  predicate NameLe(a: File, b: File) {
    LexLe(Lower(a.name), Lower(b.name))
  }

  /** Each entry's lower-cased name is at most the next one's. */
  predicate SortedByName(s: seq<File>) {
    forall i :: 0 <= i < |s| - 1 ==> NameLe(s[i], s[i + 1])
  }

  /** Puts `f` before the first entry it does not follow. */
  function Insert(f: File, s: seq<File>): seq<File> {
    if s == [] then [f]
    else if NameLe(f, s[0]) then [f] + s
    else [s[0]] + Insert(f, s[1..])
  }

  /** Insertion sort by lower-cased name; equal keys keep their listing order. */
  function SortByName(s: seq<File>): seq<File> {
    if s == [] then [] else Insert(s[0], SortByName(s[1..]))
  }

  /** `Insert` adds `f` and keeps everything else. */
  lemma {:induction false} InsertPermutes(f: File, s: seq<File>)
    ensures multiset(Insert(f, s)) == multiset(s) + multiset{f}
  {
    if s != [] && !NameLe(f, s[0]) {
      InsertPermutes(f, s[1..]);
      assert s == [s[0]] + s[1..];
    }
  }

  /** The first entry after inserting is `f` or the old first entry. */
  lemma InsertFirst(f: File, s: seq<File>)
    ensures Insert(f, s) != [] && (Insert(f, s)[0] == f || (s != [] && Insert(f, s)[0] == s[0]))
  {
  }

  lemma {:induction false} InsertSorted(f: File, s: seq<File>)
    requires SortedByName(s)
    ensures SortedByName(Insert(f, s))
  {
    if s != [] && !NameLe(f, s[0]) {
      var tail := s[1..];
      assert SortedByName(tail) by {
        assert forall i :: 0 <= i < |tail| ==> tail[i] == s[i + 1];
      }
      InsertSorted(f, tail);
      InsertFirst(f, tail);
      LexLeTotal(Lower(f.name), Lower(s[0].name));
      var r := Insert(f, tail);
      assert NameLe(s[0], r[0]);
      assert Insert(f, s) == [s[0]] + r;
      assert forall i :: 1 <= i < |r| + 1 ==> ([s[0]] + r)[i] == r[i - 1];
    }
  }

  /** `SortByName` sorts by lower-cased name and is a permutation of its input. */
  lemma {:induction false} SortByNameSorts(s: seq<File>)
    ensures SortedByName(SortByName(s))
    ensures multiset(SortByName(s)) == multiset(s)
  {
    if s != [] {
      SortByNameSorts(s[1..]);
      InsertSorted(s[0], SortByName(s[1..]));
      InsertPermutes(s[0], SortByName(s[1..]));
      assert s == [s[0]] + s[1..];
    }
  }

  /**
   * The files `main` hands to `compute_math`, or `None` where it prints
   * "No log file found" and exits with status 1.
   */
  function Select(dir: seq<File>, pattern: string, matches: (string, string) -> bool): Option<seq<File>> {
    var found := Matching(dir, pattern, matches);
    if |found| == 0 then None else Some(SortByName(found))
  }

  /**
   * `Select` fails exactly when no entry matches; otherwise it returns every
   * matching entry, sorted by lower-cased name.
   */
  lemma SelectMeaning(dir: seq<File>, pattern: string, matches: (string, string) -> bool)
    ensures Select(dir, pattern, matches).None? <==> forall f :: f in dir ==> !matches(f.name, pattern)
    ensures Select(dir, pattern, matches).Some? ==>
      var chosen := Select(dir, pattern, matches).value;
      SortedByName(chosen) && chosen != [] &&
      multiset(chosen) == multiset(Matching(dir, pattern, matches)) &&
      forall f :: f in chosen <==> f in dir && matches(f.name, pattern)
  {
    var found := Matching(dir, pattern, matches);
    MatchingKeepsMatches(dir, pattern, matches);
    if |found| > 0 {
      assert found[0] in found;
      var chosen := SortByName(found);
      SortByNameSorts(found);
      assert multiset(chosen)[found[0]] > 0;
      forall f
        ensures f in chosen <==> f in found
      {
        assert f in chosen <==> multiset(chosen)[f] > 0;
        assert f in found <==> multiset(found)[f] > 0;
      }
    } else {
      assert found == [];
    }
  }
}
