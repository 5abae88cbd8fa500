/**
 * File-name helpers (`os.path.splitext`, postfixing, making a name unique against a
 * directory listing), matching geo images to image files, and small rectangle helpers.
 * The directory listing is a parameter: reading the file system is outside the model.
 */
module ImageUtils {
  import opened Wrappers
  import opened Text
  import opened Lists
  import opened GeoImages

  // ---------------------------------------------------------------- os.path.splitext

  /** No position of `s` holds `c`. */
  predicate Lacks(s: string, c: char) {
    forall k :: 0 <= k < |s| ==> s[k] != c
  }

  /** `s.rfind(c)`: the last position of `c`, or -1. */
  function RFind(s: string, c: char): (r: int)
    ensures -1 <= r < |s|
  {
    if s == [] then -1
    else if s[|s| - 1] == c then |s| - 1
    else RFind(s[..|s| - 1], c)
  }

  /** The position found holds `c`, and nothing after it does. */
  lemma {:induction false} RFindSpec(s: string, c: char)
    ensures RFind(s, c) >= 0 ==> s[RFind(s, c)] == c
    ensures forall k :: RFind(s, c) < k < |s| ==> s[k] != c
  {
    if s != [] && s[|s| - 1] != c {
      var t := s[..|s| - 1];
      RFindSpec(t, c);
      forall k | RFind(s, c) < k < |s| ensures s[k] != c {
        if k < |t| { assert s[k] == t[k]; }
      }
      if RFind(t, c) >= 0 {
        assert s[RFind(t, c)] == t[RFind(t, c)];
      }
    }
  }

  /** The last `c` of a string is where the description says it is. */
  lemma RFindAt(s: string, c: char, i: int)
    requires -1 <= i < |s|
    requires i >= 0 ==> s[i] == c
    requires forall k :: i < k < |s| ==> s[k] != c
    ensures RFind(s, c) == i
  {
    RFindSpec(s, c);
    var r := RFind(s, c);
    if r >= 0 {
      ghost var u := s[r];
    }
    if i >= 0 {
      ghost var v := s[i];
    }
  }

  /** Something appended without `c` does not move the last `c`. */
  lemma RFindAppend(a: string, b: string, c: char)
    requires Lacks(b, c)
    ensures RFind(a + b, c) == RFind(a, c)
  {
    RFindSpec(a, c);
    var i := RFind(a, c);
    forall k | i < k < |a + b| ensures (a + b)[k] != c {
      if k < |a| { assert (a + b)[k] == a[k]; } else { assert (a + b)[k] == b[k - |a|]; }
    }
    if i >= 0 {
      assert (a + b)[i] == a[i];
    }
    RFindAt(a + b, c, i);
  }

  /** Every character of `s` is a dot. */
  predicate AllDots(s: string) {
    s == [] || (s[0] == '.' && AllDots(s[1..]))
  }

  /** Some character of `s` is not a dot. */
  predicate HasNonDot(s: string) {
    !AllDots(s)
  }

  lemma {:induction false} NonDotAt(s: string, k: nat)
    requires k < |s| && s[k] != '.'
    ensures HasNonDot(s)
  {
    if k > 0 {
      assert s[1..][k - 1] == s[k];
      NonDotAt(s[1..], k - 1);
    }
  }

  lemma {:induction false} NonDotWitness(s: string) returns (k: nat)
    requires HasNonDot(s)
    ensures k < |s| && s[k] != '.'
  {
    if s[0] == '.' {
      k := NonDotWitness(s[1..]);
      assert s[k + 1] == s[1..][k];
      k := k + 1;
    } else {
      k := 0;
    }
  }

  /**
   * `os.path.splitext` (POSIX): the extension starts at the last dot of the last path
   * component, unless everything before that dot in the component is dots.
   */
  function SplitExt(p: string): (r: (string, string))
    ensures r.0 + r.1 == p
  {
    var sep, dot := RFind(p, '/'), RFind(p, '.');
    if dot > sep && HasNonDot(p[sep + 1..dot]) then
      TakeDrop(p, dot);
      (p[..dot], p[dot..])
    else (p, "")
  }

  /** An extension is empty, or a dot followed by neither dots nor slashes. */
  lemma SplitExtShape(p: string)
    ensures var ext := SplitExt(p).1;
            ext == [] || (ext[0] == '.' && Lacks(ext[1..], '.') && Lacks(ext, '/'))
  {
    var sep, dot := RFind(p, '/'), RFind(p, '.');
    RFindSpec(p, '/');
    RFindSpec(p, '.');
    if dot > sep && HasNonDot(p[sep + 1..dot]) {
      var ext := p[dot..];
      forall k | 0 <= k < |ext| ensures ext[k] != '/' {
        assert ext[k] == p[dot + k];
      }
      forall k | 0 <= k < |ext[1..]| ensures ext[1..][k] != '.' {
        assert ext[1..][k] == p[dot + 1 + k];
      }
    }
  }

  /** `postfix_filename`: the postfix goes between the name and its extension. */
  function PostfixFilename(filename: string, postfix: string): (r: string)
    ensures |r| == |filename| + |postfix|
    ensures postfix == [] ==> r == filename
  {
    var (root, ext) := SplitExt(filename);
    root + postfix + ext
  }

  /** Without an extension, a postfix without dots or slashes just extends the name. */
  lemma PostfixNoExtension(filename: string, postfix: string)
    requires Lacks(postfix, '.') && Lacks(postfix, '/')
    requires SplitExt(filename).1 == []
    ensures SplitExt(filename + postfix) == (filename + postfix, "")
  {
    var q := filename + postfix;
    var sep, dot := RFind(filename, '/'), RFind(filename, '.');
    RFindAppend(filename, postfix, '/');
    RFindAppend(filename, postfix, '.');
    if dot > sep {
      assert q[sep + 1..dot] == filename[sep + 1..dot];
    }
  }

  /** The extension starts at the last dot when that dot is in the last component and follows a non-dot. */
  lemma SplitExtAt(p: string, sep: int, dot: int)
    requires RFind(p, '/') == sep && RFind(p, '.') == dot
    requires dot > sep && HasNonDot(p[sep + 1..dot])
    ensures SplitExt(p) == (p[..dot], p[dot..])
  { }

  /** A non-dot in a window survives extending the window over a string with the same prefix. */
  lemma NonDotPrefix(s: string, t: string, lo: int, hi: int, hi2: int)
    requires 0 <= lo <= hi <= hi2 <= |t| && hi <= |s| && s[..hi] == t[..hi]
    requires HasNonDot(s[lo..hi])
    ensures HasNonDot(t[lo..hi2])
  {
    var k := NonDotWitness(s[lo..hi]);
    assert s[lo..hi][k] == s[..hi][lo + k] == t[..hi][lo + k] == t[lo..hi2][k];
    NonDotAt(t[lo..hi2], k);
  }

  lemma LacksAppend(a: string, b: string, c: char)
    requires Lacks(a, c) && Lacks(b, c)
    ensures Lacks(a + b, c)
  {
    forall k | 0 <= k < |a + b| ensures (a + b)[k] != c {
      if k < |a| { assert (a + b)[k] == a[k]; } else { assert (a + b)[k] == b[k - |a|]; }
    }
  }

  /** A tail that starts with the only `c` it holds puts the last `c` at its start. */
  lemma RFindOfTail(a: string, b: string, c: char)
    requires b != [] && b[0] == c && Lacks(b[1..], c)
    ensures RFind(a + b, c) == |a|
  {
    forall k | |a| < k < |a + b| ensures (a + b)[k] != c {
      assert (a + b)[k] == b[1..][k - |a| - 1];
    }
    assert (a + b)[|a|] == b[0];
    RFindAt(a + b, c, |a|);
  }

  lemma Halves(a: string, b: string)
    ensures (a + b)[..|a|] == a && (a + b)[|a|..] == b
  { }

  /** Inserting text without slashes after the last slash does not move it. */
  lemma SlashAfterInsert(root: string, postfix: string, ext: string)
    requires Lacks(postfix, '/') && Lacks(ext, '/')
    ensures RFind(root + postfix + ext, '/') == RFind(root, '/')
  {
    LacksAppend(postfix, ext, '/');
    AppendAssoc(root, postfix, ext);
    RFindAppend(root, postfix + ext, '/');
  }

  /** A non-dot in the last component of the name stays there after inserting. */
  lemma NonDotAfterInsert(root: string, postfix: string, ext: string)
    requires HasNonDot(root[RFind(root, '/') + 1..|root|])
    ensures HasNonDot((root + postfix + ext)[RFind(root, '/') + 1..|root + postfix|])
  {
    var q := root + postfix + ext;
    AppendAssoc(root, postfix, ext);
    Halves(root, postfix + ext);
    NonDotPrefix(root, q, RFind(root, '/') + 1, |root|, |root + postfix|);
  }

  /** What inserting text without slashes before an extension keeps: the last slash, the last dot, a non-dot before it. */
  lemma InsertFacts(root: string, postfix: string, ext: string, sep: int)
    requires Lacks(postfix, '/') && Lacks(ext, '/')
    requires ext != [] && ext[0] == '.' && Lacks(ext[1..], '.')
    requires RFind(root, '/') == sep && HasNonDot(root[sep + 1..|root|])
    ensures RFind(root + postfix + ext, '/') == sep
    ensures RFind(root + postfix + ext, '.') == |root + postfix|
    ensures sep < |root + postfix| && HasNonDot((root + postfix + ext)[sep + 1..|root + postfix|])
  {
    SlashAfterInsert(root, postfix, ext);
    RFindOfTail(root + postfix, ext, '.');
    NonDotAfterInsert(root, postfix, ext);
  }

  /** With those facts, the inserted text joins the name and the extension stays. */
  lemma InsertBeforeExtension(root: string, postfix: string, ext: string, sep: int)
    requires RFind(root + postfix + ext, '/') == sep && RFind(root + postfix + ext, '.') == |root + postfix|
    requires sep < |root + postfix| && HasNonDot((root + postfix + ext)[sep + 1..|root + postfix|])
    ensures SplitExt(root + postfix + ext) == (root + postfix, ext)
  {
    SplitExtAt(root + postfix + ext, sep, |root + postfix|);
    Halves(root + postfix, ext);
  }

  /** When there is an extension, the last component of the name holds a non-dot. */
  lemma ExtensionRoot(p: string)
    requires SplitExt(p).1 != []
    ensures var root := SplitExt(p).0; HasNonDot(root[RFind(root, '/') + 1..|root|])
  {
    var sep, dot := RFind(p, '/'), RFind(p, '.');
    var root, ext := p[..dot], p[dot..];
    SplitExtShape(p);
    Halves(root, ext);
    RFindAppend(root, ext, '/');
    assert root[sep + 1..|root|] == p[sep + 1..dot];
  }

  /** With an extension, a postfix without slashes lands just before it. */
  lemma PostfixWithExtension(filename: string, postfix: string)
    requires Lacks(postfix, '/')
    requires SplitExt(filename).1 != []
    ensures SplitExt(SplitExt(filename).0 + postfix + SplitExt(filename).1) ==
            (SplitExt(filename).0 + postfix, SplitExt(filename).1)
  {
    var (root, ext) := SplitExt(filename);
    SplitExtShape(filename);
    ExtensionRoot(filename);
    InsertFacts(root, postfix, ext, RFind(root, '/'));
    InsertBeforeExtension(root, postfix, ext, RFind(root, '/'));
  }

  /** A postfix without dots or slashes joins the name and leaves the extension as it was. */
  lemma PostfixFilenameSplits(filename: string, postfix: string)
    requires Lacks(postfix, '.') && Lacks(postfix, '/')
    ensures SplitExt(PostfixFilename(filename, postfix)) == (SplitExt(filename).0 + postfix, SplitExt(filename).1)
  {
    if SplitExt(filename).1 == [] {
      PostfixNoExtension(filename, postfix);
    } else {
      PostfixWithExtension(filename, postfix);
    }
  }

  // ---------------------------------------------------------------- make_filename_unique

  /** `s.split(sep)`: never empty, and no piece holds the separator. */
  function SplitOn(s: string, sep: char): (r: seq<string>)
    ensures |r| >= 1
    ensures forall k :: 0 <= k < |r| ==> sep !in r[k]
  {
    if s == [] then [""]
    else if s[0] == sep then [""] + SplitOn(s[1..], sep)
    else
      var t := SplitOn(s[1..], sep);
      assert forall k :: 1 <= k < |t| ==> t[1..][k - 1] == t[k];
      [[s[0]] + t[0]] + t[1..]
  }

  /** `sep.join(parts)`. */
  function JoinWith(parts: seq<string>, sep: char): string {
    if |parts| == 0 then ""
    else if |parts| == 1 then parts[0]
    else parts[0] + [sep] + JoinWith(parts[1..], sep)
  }

  /** Joining the pieces of a split gives the string back. */
  lemma {:induction false} JoinSplit(s: string, sep: char)
    ensures JoinWith(SplitOn(s, sep), sep) == s
  {
    if s != [] {
      var t := SplitOn(s[1..], sep);
      JoinSplit(s[1..], sep);
      if s[0] == sep {
        assert ([""] + t)[1..] == t;
      } else {
        var u := [[s[0]] + t[0]] + t[1..];
        assert u[1..] == t[1..];
        if |t| > 1 {
          assert JoinWith(t, sep) == t[0] + [sep] + JoinWith(t[1..], sep);
        }
      }
    }
  }

  /** A piece without the separator splits off in front. */
  lemma {:induction false} SplitPrefix(a: string, rest: string, sep: char)
    requires sep !in a
    ensures SplitOn(a + [sep] + rest, sep) == [a] + SplitOn(rest, sep)
    ensures SplitOn(a, sep) == [a]
  {
    if a != [] {
      assert (a + [sep] + rest)[1..] == a[1..] + [sep] + rest;
      SplitPrefix(a[1..], rest, sep);
      assert [a[0]] + a[1..] == a;
    }
  }

  /** Splitting a join of separator-free pieces gives the pieces back. */
  lemma {:induction false} SplitJoin(parts: seq<string>, sep: char)
    requires |parts| >= 1 && forall k :: 0 <= k < |parts| ==> sep !in parts[k]
    ensures SplitOn(JoinWith(parts, sep), sep) == parts
  {
    SplitPrefix(parts[0], "", sep);
    if |parts| > 1 {
      SplitJoin(parts[1..], sep);
      SplitPrefix(parts[0], JoinWith(parts[1..], sep), sep);
      assert [parts[0]] + parts[1..] == parts;
    }
  }

  /** Joining one more piece appends the separator and the piece. */
  lemma {:induction false} JoinAppend(parts: seq<string>, t: string, sep: char)
    requires |parts| >= 1
    ensures JoinWith(parts + [t], sep) == JoinWith(parts, sep) + [sep] + t
  {
    if |parts| > 1 {
      assert (parts + [t])[1..] == parts[1..] + [t];
      JoinAppend(parts[1..], t, sep);
    }
  }

  /** The name numbered `n` after the pieces `base`: `'_'.join(base + [str(n)])`. */
  function Candidate(base: seq<string>, n: int): string {
    JoinWith(base + [IntToString(n)], '_')
  }

  lemma NoUnderscoreInInt(n: int)
    ensures '_' !in IntToString(n)
  {
    forall k | 0 <= k < |IntToString(n)| ensures IntToString(n)[k] != '_' {
      IntToStringChars(n, k);
    }
  }

  /** A candidate splits into its base and its number. */
  lemma SplitCandidate(base: seq<string>, n: int)
    requires forall k :: 0 <= k < |base| ==> '_' !in base[k]
    ensures SplitOn(Candidate(base, n), '_') == base + [IntToString(n)]
  {
    NoUnderscoreInInt(n);
    var parts := base + [IntToString(n)];
    assert forall k :: 0 <= k < |parts| ==> '_' !in parts[k] by {
      forall k | 0 <= k < |parts| ensures '_' !in parts[k] {
        if k < |base| { assert parts[k] == base[k]; }
      }
    }
    SplitJoin(parts, '_');
  }

  /** Different numbers give different candidates. */
  lemma CandidateInjective(base: seq<string>, i: int, j: int)
    requires forall k :: 0 <= k < |base| ==> '_' !in base[k]
    requires i != j
    ensures Candidate(base, i) != Candidate(base, j)
  {
    SplitCandidate(base, i);
    SplitCandidate(base, j);
    ParseIntOfIntToString(i);
    ParseIntOfIntToString(j);
    assert (base + [IntToString(i)])[|base|] != (base + [IntToString(j)])[|base|];
  }

  /** `int(name.split('_')[-1])`, or None where Python raises ValueError. */
  function TrailingNumber(name: string): Option<int> {
    var v := SplitOn(name, '_');
    ParseInt(v[|v| - 1])
  }

  /** One pass of the loop body: bump a trailing integer, or fall back to the original name + '_1'. */
  function NextName(name: string, original: string): string {
    var v := SplitOn(name, '_');
    match TrailingNumber(name)
    case Some(i) => JoinWith(v[..|v| - 1] + [IntToString(i + 1)], '_')
    case None => original + "_1"
  }

  /** The pieces every later name shares. */
  function Base(original: string): (r: seq<string>)
    ensures forall k :: 0 <= k < |r| ==> '_' !in r[k]
  {
    var v := SplitOn(original, '_');
    if TrailingNumber(original).Some? then v[..|v| - 1] else v
  }

  /** The first number tried: one past the trailing number, or 1 without one. */
  function FirstNumber(original: string): int {
    match TrailingNumber(original)
    case Some(i) => i + 1
    case None => 1
  }

  lemma AppendUnderscoreOne(s: string)
    ensures IntToString(1) == "1"
    ensures s + "_1" == s + ['_'] + "1"
  { }

  /** The first pass turns the original name into the first candidate. */
  lemma NextOfOriginal(original: string)
    ensures NextName(original, original) == Candidate(Base(original), FirstNumber(original))
  {
    var v := SplitOn(original, '_');
    if TrailingNumber(original).None? {
      JoinSplit(original, '_');
      JoinAppend(v, "1", '_');
      AppendUnderscoreOne(original);
    }
  }

  /** The last piece of a candidate reads back as its number. */
  lemma CandidateLastPiece(base: seq<string>, n: int)
    requires forall k :: 0 <= k < |base| ==> '_' !in base[k]
    ensures TrailingNumber(Candidate(base, n)) == Some(n)
  {
    SplitCandidate(base, n);
    ParseIntOfIntToString(n);
  }

  /** The last piece of the original name does not read as any number tried. */
  lemma OriginalLastPiece(original: string, n: int)
    requires n >= FirstNumber(original)
    ensures TrailingNumber(original) != Some(n)
  { }

  /** No candidate from the first number on is the original name itself: their last pieces read differently. */
  lemma OriginalNotCandidate(original: string, n: int)
    requires n >= FirstNumber(original)
    ensures Candidate(Base(original), n) != original
  {
    CandidateLastPiece(Base(original), n);
    OriginalLastPiece(original, n);
  }

  /** Every later pass moves on to the next number. */
  lemma NextOfCandidate(base: seq<string>, n: int, original: string)
    requires forall k :: 0 <= k < |base| ==> '_' !in base[k]
    ensures NextName(Candidate(base, n), original) == Candidate(base, n + 1)
  {
    SplitCandidate(base, n);
    ParseIntOfIntToString(n);
    var v := base + [IntToString(n)];
    assert v[..|v| - 1] == base;
  }

  /** The candidates numbered `first` up to (not including) `n`. */
  ghost function Tried(base: seq<string>, first: int, n: int): (r: set<string>)
    decreases n - first
  {
    if n <= first then {} else Tried(base, first, n - 1) + {Candidate(base, n - 1)}
  }

  lemma {:induction false} TriedMeans(base: seq<string>, first: int, n: int, j: int)
    ensures Candidate(base, j) in Tried(base, first, n) <== first <= j < n
    decreases n - first
  {
    if first < n && j < n - 1 {
      TriedMeans(base, first, n - 1, j);
    }
  }

  lemma {:induction false} NotTried(base: seq<string>, first: int, n: int)
    requires forall k :: 0 <= k < |base| ==> '_' !in base[k]
    ensures Candidate(base, n) !in Tried(base, first, n)
    decreases n - first
  {
    if first < n {
      NotTriedBelow(base, first, n - 1, n);
    }
  }

  lemma {:induction false} NotTriedBelow(base: seq<string>, first: int, m: int, n: int)
    requires forall k :: 0 <= k < |base| ==> '_' !in base[k]
    requires m < n
    ensures Candidate(base, n) !in Tried(base, first, m + 1)
    decreases m - first
  {
    if first <= m {
      CandidateInjective(base, m, n);
      NotTriedBelow(base, first, m - 1, n);
    }
  }

  /** The stems (names without extension) of a directory listing. */
  function Stems(names: seq<string>): (r: seq<string>)
    ensures |r| == |names| && forall k :: 0 <= k < |names| ==> r[k] == SplitExt(names[k]).0
  {
    seq(|names|, k requires 0 <= k < |names| => SplitExt(names[k]).0)
  }

  lemma SmallerDifference(s: set<string>, v: set<string>, x: string)
    requires x in s && x !in v
    ensures |s - (v + {x})| < |s - v|
  {
    assert s - v == (s - (v + {x})) + {x};
  }

  /**
   * The state of the search for a free name: `visited` holds the names already found taken,
   * and `name` is the next one to try, the `n`-th candidate once the original is taken.
   */
  ghost predicate Searching(original: string, taken: set<string>, visited: set<string>, name: string, n: int) {
    visited <= taken && name !in visited &&
    (visited == {} ==> name == original && n == FirstNumber(original)) &&
    (visited != {} ==> original in taken && n >= FirstNumber(original) && name == Candidate(Base(original), n) &&
                       visited == {original} + Tried(Base(original), FirstNumber(original), n))
  }

  /** A taken original name moves the search on to the first candidate. */
  lemma SearchFirst(original: string, taken: set<string>)
    requires original in taken
    ensures Searching(original, taken, {original}, NextName(original, original), FirstNumber(original))
  {
    NextOfOriginal(original);
    OriginalNotCandidate(original, FirstNumber(original));
    SearchingFirst(original, taken, NextName(original, original));
  }

  lemma SearchingFirst(original: string, taken: set<string>, name: string)
    requires original in taken && name == Candidate(Base(original), FirstNumber(original)) && name != original
    ensures Searching(original, taken, {original}, name, FirstNumber(original))
  {
    TriedNothing(Base(original), FirstNumber(original));
    SingletonNonEmpty(original);
  }

  lemma TriedNothing(base: seq<string>, first: int)
    ensures Tried(base, first, first) == {}
  { }

  lemma SingletonNonEmpty(x: string)
    ensures {x} != {}
  {
    assert x in {x};
  }

  /** A taken candidate moves the search on to the next one. */
  lemma SearchNext(original: string, taken: set<string>, visited: set<string>, name: string, n: int)
    requires Searching(original, taken, visited, name, n) && name in taken && visited != {}
    ensures Searching(original, taken, visited + {name}, NextName(name, original), n + 1)
  {
    var base, first := Base(original), FirstNumber(original);
    NextOfCandidate(base, n, original);
    NotTried(base, first, n + 1);
    OriginalNotCandidate(original, n + 1);
    assert Tried(base, first, n + 1) == Tried(base, first, n) + {name};
  }

  /** A taken name moves the search on to a name not tried before. */
  lemma SearchStep(original: string, taken: set<string>, visited: set<string>, name: string, n: int) returns (n2: int)
    requires Searching(original, taken, visited, name, n) && name in taken
    ensures Searching(original, taken, visited + {name}, NextName(name, original), n2)
    ensures |taken - (visited + {name})| < |taken - visited|
  {
    SmallerDifference(taken, visited, name);
    if visited == {} {
      SearchFirst(original, taken);
      n2 := n;
    } else {
      SearchNext(original, taken, visited, name, n);
      n2 := n + 1;
    }
  }

  /** When the search stops at a free name, every candidate before it was taken. */
  lemma SearchDone(original: string, taken: set<string>, visited: set<string>, name: string, n: int)
    requires Searching(original, taken, visited, name, n)
    ensures original !in taken ==> name == original
    ensures original in taken && name !in taken ==>
              n >= FirstNumber(original) && name == Candidate(Base(original), n) &&
              forall j :: FirstNumber(original) <= j < n ==> Candidate(Base(original), j) in taken
  {
    if original in taken && name !in taken {
      forall j | FirstNumber(original) <= j < n ensures Candidate(Base(original), j) in taken {
        TriedMeans(Base(original), FirstNumber(original), n, j);
      }
    }
  }

  /**
   * `make_filename_unique`, given the directory listing. An unused name comes back as it is;
   * otherwise the result is the first unused candidate `base_N` for N counting up from the
   * original trailing number plus one (or from 1 when the name has no trailing number).
   */
  method MakeFilenameUnique(dirContents: seq<string>, fnameNoExt: string) returns (name: string, ghost n: int)
    ensures name !in Stems(dirContents)
    ensures fnameNoExt !in Stems(dirContents) ==> name == fnameNoExt
    ensures fnameNoExt in Stems(dirContents) ==>
              n >= FirstNumber(fnameNoExt) && name == Candidate(Base(fnameNoExt), n) &&
              forall j :: FirstNumber(fnameNoExt) <= j < n ==> Candidate(Base(fnameNoExt), j) in Stems(dirContents)
  {
    var original := fnameNoExt;
    var dirFnames := Stems(dirContents);
    ghost var taken := set x | x in dirFnames;
    ghost var visited: set<string> := {};
    name, n := fnameNoExt, FirstNumber(original);
    while name in dirFnames
      invariant Searching(original, taken, visited, name, n)
      decreases |taken - visited|
    {
      n := SearchStep(original, taken, visited, name, n);
      visited := visited + {name};
      name := NextName(name, original);
    }
    SearchDone(original, taken, visited, name, n);
  }

  // ---------------------------------------------------------------- verify_geo_images

  /** The geo image renamed after the first listed file with its stem: stem + '.' + extension without its dot. */
  function Renamed(g: GeoImage, imageFilenames: seq<string>): (r: GeoImage)
    requires g.fileName in Stems(imageFilenames)
    ensures r == g.(fileName := r.fileName)
  {
    var index := IndexOf(Stems(imageFilenames), g.fileName);
    var ext := SplitExt(imageFilenames[index]).1;
    g.(fileName := g.fileName + "." + Slice(ext, 1, |ext|))
  }

  /** The geo image renamed, if it has an image file. */
  function MatchOne(g: GeoImage, imageFilenames: seq<string>): (r: seq<GeoImage>)
    ensures |r| <= 1
  {
    if g.fileName in Stems(imageFilenames) then [Renamed(g, imageFilenames)] else []
  }

  /** What the loop body of `verify_geo_images` appends for one geo image, given where its stem is listed. */
  lemma MatchOneAt(g: GeoImage, imageFilenames: seq<string>, index: int)
    requires index == IndexOf(Stems(imageFilenames), g.fileName)
    ensures index >= 0 ==> 0 <= index < |imageFilenames|
    ensures index >= 0 ==> var ext := SplitExt(imageFilenames[index]).1;
              MatchOne(g, imageFilenames) == [g.(fileName := g.fileName + "." + Slice(ext, 1, |ext|))]
    ensures index < 0 ==> MatchOne(g, imageFilenames) == []
  { }

  /** The geo images that have an image file, in order and renamed. */
  function Matched(geoImages: seq<GeoImage>, imageFilenames: seq<string>): seq<GeoImage> {
    if geoImages == [] then []
    else MatchOne(geoImages[0], imageFilenames) + Matched(geoImages[1..], imageFilenames)
  }

  /** The number of geo images without an image file. */
  function Missing(geoImages: seq<GeoImage>, imageFilenames: seq<string>): nat {
    if geoImages == [] then 0
    else (1 - |MatchOne(geoImages[0], imageFilenames)|) + Missing(geoImages[1..], imageFilenames)
  }

  lemma {:induction false} MatchedAppend(a: seq<GeoImage>, g: GeoImage, imageFilenames: seq<string>)
    ensures Matched(a + [g], imageFilenames) == Matched(a, imageFilenames) + MatchOne(g, imageFilenames)
  {
    var b := a + [g];
    if a == [] {
      assert b[1..] == [];
    } else {
      assert b[0] == a[0] && b[1..] == a[1..] + [g];
      MatchedAppend(a[1..], g, imageFilenames);
      AppendAssoc(MatchOne(a[0], imageFilenames), Matched(a[1..], imageFilenames), MatchOne(g, imageFilenames));
    }
  }

  lemma {:induction false} MissingAppend(a: seq<GeoImage>, g: GeoImage, imageFilenames: seq<string>)
    ensures Missing(a + [g], imageFilenames) == Missing(a, imageFilenames) + (1 - |MatchOne(g, imageFilenames)|)
  {
    var b := a + [g];
    if a == [] {
      assert b[1..] == [];
    } else {
      assert b[0] == a[0] && b[1..] == a[1..] + [g];
      MissingAppend(a[1..], g, imageFilenames);
    }
  }

  /** Every geo image is matched or counted missing, exactly once. */
  lemma {:induction false} MatchedPlusMissing(geoImages: seq<GeoImage>, imageFilenames: seq<string>)
    ensures |Matched(geoImages, imageFilenames)| + Missing(geoImages, imageFilenames) == |geoImages|
  {
    if geoImages != [] {
      MatchedPlusMissing(geoImages[1..], imageFilenames);
    }
  }

  /** A matched geo image is an input image with a file, renamed, and nothing else about it changes. */
  lemma {:induction false} MatchedFromInput(geoImages: seq<GeoImage>, imageFilenames: seq<string>, k: nat) returns (i: nat)
    requires k < |Matched(geoImages, imageFilenames)|
    ensures i < |geoImages| && geoImages[i].fileName in Stems(imageFilenames)
    ensures Matched(geoImages, imageFilenames)[k] == Renamed(geoImages[i], imageFilenames)
  {
    var g := geoImages[0];
    var head := MatchOne(g, imageFilenames);
    assert Matched(geoImages, imageFilenames) == head + Matched(geoImages[1..], imageFilenames);
    if k < |head| {
      i := 0;
    } else {
      var tail := geoImages[1..];
      var j := MatchedFromInput(tail, imageFilenames, k - |head|);
      assert tail[j] == geoImages[j + 1];
      assert (head + Matched(tail, imageFilenames))[k] == Matched(tail, imageFilenames)[k - |head|];
      i := j + 1;
    }
  }

  /** `verify_geo_images`: the geo images that have a file (renamed with its extension) and how many have none. */
  method VerifyGeoImages(geoImages: seq<GeoImage>, imageFilenames: seq<string>)
    returns (matching: seq<GeoImage>, missing: nat)
    ensures matching == Matched(geoImages, imageFilenames)
    ensures missing == Missing(geoImages, imageFilenames)
    ensures |matching| + missing == |geoImages|
  {
    missing := 0;
    matching := [];
    var noExt := Stems(imageFilenames);
    var k := 0;
    while k < |geoImages|
      invariant k <= |geoImages|
      invariant matching == Matched(geoImages[..k], imageFilenames)
      invariant missing == Missing(geoImages[..k], imageFilenames)
    {
      var g := geoImages[k];
      TakeNext(geoImages, k);
      MatchedAppend(geoImages[..k], g, imageFilenames);
      MissingAppend(geoImages[..k], g, imageFilenames);
      var index := IndexOf(noExt, g.fileName);
      MatchOneAt(g, imageFilenames, index);
      if index >= 0 {
        var extension := SplitExt(imageFilenames[index]).1;
        matching := matching + [g.(fileName := g.fileName + "." + Slice(extension, 1, |extension|))];
      } else {
        missing := missing + 1;
      }
      k := k + 1;
    }
    assert geoImages[..k] == geoImages;
    MatchedPlusMissing(geoImages, imageFilenames);
  }

  // ---------------------------------------------------------------- index_containing_substring

  /** `index_containing_substring`: the first position whose string contains `substring`, or -1. */
  method IndexContainingSubstring(theList: seq<string>, substring: string) returns (r: int)
    ensures r == -1 <==> forall k :: 0 <= k < |theList| ==> !Contains(theList[k], substring)
    ensures r != -1 ==> 0 <= r < |theList| && Contains(theList[r], substring)
    ensures r != -1 ==> forall k :: 0 <= k < r ==> !Contains(theList[k], substring)
  {
    var i := 0;
    while i < |theList|
      invariant i <= |theList|
      invariant forall k :: 0 <= k < i ==> !Contains(theList[k], substring)
    {
      if Contains(theList[i], substring) {
        return i;
      }
      i := i + 1;
    }
    return -1;
  }

  // ---------------------------------------------------------------- rectangles

  /** A rectangle: OpenCV's rotated ((cx, cy), (w, h), angle), or an upright (x, y, w, h). */
  datatype Rectangle =
    | Rotated(center: (real, real), size: (real, real), angle: real)
    | Upright(x: real, y: real, w: real, h: real)

  /** `rectangle_center`: the stored centre of a rotated rectangle, the middle of an upright one. */
  function RectangleCenter(r: Rectangle): (c: (real, real))
    ensures r.Rotated? ==> c == r.center
  {
    match r
    case Rotated(center, _, _) => center
    case Upright(x, y, w, h) => (x + w / 2.0, y + h / 2.0)
  }

  /** `rectangle_corners` of an upright rectangle: top-left and bottom-right, as (x1, y1, x2, y2). */
  function RectangleCorners(x: real, y: real, w: real, h: real): (r: (real, real, real, real))
    ensures r.2 - r.0 == w && r.3 - r.1 == h
  {
    (x, y, x + w, y + h)
  }

  /** The centre of an upright rectangle is the midpoint of its two corners. */
  lemma CenterIsMidpoint(x: real, y: real, w: real, h: real)
    ensures var (x1, y1, x2, y2) := RectangleCorners(x, y, w, h);
            RectangleCenter(Upright(x, y, w, h)) == ((x1 + x2) / 2.0, (y1 + y2) / 2.0)
  { }
}
