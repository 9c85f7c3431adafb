/** The search engine: the binary-file classifier, the per-file line matcher and the tree walk
    that gathers matches under a global cap. The file system is a value (`Node`) handed to the
    walk; the walk itself follows filepath.Walk: depth-first, pre-order, entries in the order
    the directory lists them. */
module Search {
  import opened Text
  import opened FilePath

  newtype byte = x: int | 0 <= x < 256

  /** One match: the walk's path of the file, the 1-based line number and the line as read. */
  datatype Result = Result(file: string, line: int, content: string)

  datatype SearchOptions = SearchOptions(caseInsensitive: bool, maxResults: int)

  /** What the search can learn about a regular file: its lines as the line scanner splits them,
      its leading bytes, and whether opening it succeeds. */
  datatype FileData = FileData(lines: seq<string>, head: seq<byte>, readable: bool)

  /** A directory tree; `children` are listed in the (lexical) order in which the walk visits them,
      each under the name its directory lists. The root's own name plays no part: the walk names
      the root after the path it starts from. */
  datatype Node =
    | File(name: string, data: FileData)
    | Dir(name: string, children: seq<Node>)

  /** Most matches reported for one file. */
  const PerFileCap: int := 5
  /** The global cap used when the caller passes 0. */
  const DefaultMaxResults: int := 50
  /** Size of the single read that sniffs a file for NUL bytes. */
  const SniffSize: int := 256

  const BinaryExtensions: seq<string> := [
    ".exe", ".dll", ".so", ".dylib", ".a", ".o",
    ".jpg", ".jpeg", ".png", ".gif", ".bmp", ".ico",
    ".pdf", ".zip", ".tar", ".gz", ".7z",
    ".mp3", ".mp4", ".avi", ".mov"
  ]

  /** `x` is one of `xs`, written as a recursion over the list (from its end, as a scan from
      the front reaches it) so that the 21-entry table is unfolded only on demand. */
  predicate Listed(x: string, xs: seq<string>)
    decreases |xs|
  {
    xs != [] && (Listed(x, xs[..|xs| - 1]) || x == xs[|xs| - 1])
  }

  /** Listed is list membership. */
  lemma {:induction false} ListedIff(x: string, xs: seq<string>)
    ensures Listed(x, xs) <==> x in xs
    decreases |xs|
  {
    if xs != [] {
      var front := xs[..|xs| - 1];
      ListedIff(x, front);
      assert xs == front + [xs[|xs| - 1]];
    }
  }

  /** Directory names whose whole subtree the walk skips. */
  predicate Pruned(name: string)
  {
    name == ".git" || name == "node_modules" || name == ".vscode" ||
    name == "target" || name == "build" || name == "dist"
  }

  /** The cap the walk works with: 0 stands for the default of 50. */
  function EffectiveMax(options: SearchOptions): int
  {
    if options.maxResults == 0 then DefaultMaxResults else options.maxResults
  }

  /** The first `n` elements of `s`: all of them when there are at most `n`, none when `n` is not positive. */
  function Truncate<T>(s: seq<T>, n: int): seq<T>
  {
    if |s| <= n then s else if n <= 0 then [] else s[..n]
  }

  // ---------------------------------------------------------------------------------------------
  // Classifier

  /** The bytes that the single read of up to 256 bytes delivers. */
  function Sniffed(data: FileData): seq<byte>
  {
    if |data.head| <= SniffSize then data.head else data.head[..SniffSize]
  }

  /** A file is treated as binary when its lower-cased extension is listed, when it cannot be
      opened, when the read fails (an empty file reads end-of-file at once), or when a NUL byte is
      among the bytes read. */
  predicate IsBinary(path: string, data: FileData)
  {
    Listed(ToLower(Ext(path)), BinaryExtensions) ||
    !data.readable ||
    Sniffed(data) == [] ||
    0 in Sniffed(data)
  }

  /** A listed extension, in any letter case, makes a file binary whatever it holds. */
  lemma ListedExtensionIsBinary(path: string, data: FileData)
    requires ToLower(Ext(path)) in BinaryExtensions
    ensures IsBinary(path, data)
  {
    ListedIff(ToLower(Ext(path)), BinaryExtensions);
  }

  /** Any other file is binary exactly when it cannot be opened, is empty, or has a NUL byte
      among its first 256 bytes. */
  lemma SniffDecides(path: string, data: FileData)
    requires ToLower(Ext(path)) !in BinaryExtensions
    ensures IsBinary(path, data) <==>
      !data.readable || |data.head| == 0 ||
      exists i :: 0 <= i < |data.head| && i < SniffSize && data.head[i] == 0
  {
    ListedIff(ToLower(Ext(path)), BinaryExtensions);
    if exists i :: 0 <= i < |data.head| && i < SniffSize && data.head[i] == 0 {
      var i :| 0 <= i < |data.head| && i < SniffSize && data.head[i] == 0;
      assert Sniffed(data)[i] == 0;
    }
  }

  method IsBinaryFile(path: string, data: FileData) returns (binary: bool)
    ensures binary <==> IsBinary(path, data)
  {
    var ext := ToLower(Ext(path));
    for k := 0 to |BinaryExtensions|
      invariant !Listed(ext, BinaryExtensions[..k])
    {
      assert BinaryExtensions[..k + 1][..k] == BinaryExtensions[..k];
      if ext == BinaryExtensions[k] {
        ListedIff(ext, BinaryExtensions);
        return true;
      }
    }
    assert BinaryExtensions[..|BinaryExtensions|] == BinaryExtensions;
    if !data.readable {
      return true;
    }
    var n := if |data.head| < SniffSize then |data.head| else SniffSize;
    var buffer := data.head[..n];
    if n == 0 {
      return true;
    }
    for i := 0 to n
      invariant forall j :: 0 <= j < i ==> buffer[j] != 0
    {
      if buffer[i] == 0 {
        return true;
      }
    }
    return false;
  }

  // ---------------------------------------------------------------------------------------------
  // Line matcher

  /** The test applied to one line: plain substring containment, on lower-cased text in
      case-insensitive mode. */
  predicate LineMatches(line: string, pattern: string, caseInsensitive: bool)
  {
    if caseInsensitive then Contains(ToLower(line), ToLower(pattern)) else Contains(line, pattern)
  }

  /** Every matching line of `lines`, numbered from 1, in file order, without any cap. */
  function MatchingLines(pattern: string, caseInsensitive: bool, file: string, lines: seq<string>): seq<Result>
    decreases |lines|
  {
    if lines == [] then []
    else
      var last := lines[|lines| - 1];
      MatchingLines(pattern, caseInsensitive, file, lines[..|lines| - 1]) +
      (if LineMatches(last, pattern, caseInsensitive) then [Result(file, |lines|, last)] else [])
  }

  /** What the line matcher reports for one file: nothing when it cannot be opened, otherwise
      its first matching lines up to the per-file cap. */
  function FileMatches(pattern: string, file: string, data: FileData, options: SearchOptions): seq<Result>
  {
    if data.readable then Truncate(MatchingLines(pattern, options.caseInsensitive, file, data.lines), PerFileCap)
    else []
  }

  /** `r` names `file`, a 1-based line number within `lines`, the original (not lower-cased)
      text of that line, and that text matches. */
  predicate ReportsLine(r: Result, pattern: string, ci: bool, file: string, lines: seq<string>)
  {
    r.file == file && 1 <= r.line <= |lines| && r.content == lines[r.line - 1] &&
    LineMatches(r.content, pattern, ci)
  }

  predicate Increasing(rs: seq<Result>)
  {
    forall k, l :: 0 <= k < l < |rs| ==> rs[k].line < rs[l].line
  }

  /** Every match found reports a matching line faithfully, and line numbers strictly increase. */
  lemma {:induction false} MatchingLinesSound(pattern: string, ci: bool, file: string, lines: seq<string>)
    ensures forall r | r in MatchingLines(pattern, ci, file, lines) :: ReportsLine(r, pattern, ci, file, lines)
    ensures Increasing(MatchingLines(pattern, ci, file, lines))
    decreases |lines|
  {
    if lines != [] {
      var front := lines[..|lines| - 1];
      var last := lines[|lines| - 1];
      MatchingLinesSound(pattern, ci, file, front);
      var m := MatchingLines(pattern, ci, file, lines);
      var mf := MatchingLines(pattern, ci, file, front);
      var extra := if LineMatches(last, pattern, ci) then [Result(file, |lines|, last)] else [];
      assert m == mf + extra;
      forall r | r in m
        ensures ReportsLine(r, pattern, ci, file, lines)
      {
        if r in mf {
          assert ReportsLine(r, pattern, ci, file, front);
          assert front[r.line - 1] == lines[r.line - 1];
        }
      }
      forall k, l | 0 <= k < l < |m|
        ensures m[k].line < m[l].line
      {
        if l < |mf| {
          assert m[k] == mf[k] && m[l] == mf[l];
        } else {
          assert m[k] == mf[k] && m[k] in mf;
          assert ReportsLine(m[k], pattern, ci, file, front);
          assert m[l] == Result(file, |lines|, last);
        }
      }
    }
  }

  /** Every matching line is reported, under its 1-based number. */
  lemma {:induction false} MatchingLinesComplete(pattern: string, ci: bool, file: string, lines: seq<string>, n: int)
    requires 0 <= n < |lines| && LineMatches(lines[n], pattern, ci)
    ensures Result(file, n + 1, lines[n]) in MatchingLines(pattern, ci, file, lines)
    decreases |lines|
  {
    if n < |lines| - 1 {
      var front := lines[..|lines| - 1];
      MatchingLinesComplete(pattern, ci, file, front, n);
    }
  }

  /** Reading more lines only adds matches at the end. */
  lemma {:induction false} MatchingLinesPrefix(pattern: string, ci: bool, file: string, lines: seq<string>, n: int)
    requires 0 <= n <= |lines|
    ensures MatchingLines(pattern, ci, file, lines[..n]) <= MatchingLines(pattern, ci, file, lines)
    decreases |lines| - n
  {
    if n < |lines| {
      MatchingLinesPrefix(pattern, ci, file, lines, n + 1);
      assert lines[..n + 1][..n] == lines[..n];
    } else {
      assert lines[..n] == lines;
    }
  }

  /** An empty pattern matches every line, in both modes. */
  lemma {:induction false} EmptyPatternMatchesEveryLine(ci: bool, file: string, lines: seq<string>)
    ensures var m := MatchingLines("", ci, file, lines);
      |m| == |lines| && forall k :: 0 <= k < |lines| ==> m[k] == Result(file, k + 1, lines[k])
    decreases |lines|
  {
    if lines != [] {
      var front := lines[..|lines| - 1];
      EmptyPatternMatchesEveryLine(ci, file, front);
      assert LineMatches(lines[|lines| - 1], "", ci);
    }
  }

  /** The line matcher reports the first min(5, k) of the k matching lines: never more than
      five, each with the file name, its 1-based number and its original (not lower-cased) text,
      in strictly increasing line order. */
  lemma FirstMatchesReported(pattern: string, file: string, data: FileData, options: SearchOptions)
    requires data.readable
    ensures var all := MatchingLines(pattern, options.caseInsensitive, file, data.lines);
      var r := FileMatches(pattern, file, data, options);
      |r| == (if |all| < PerFileCap then |all| else PerFileCap) && r <= all
    ensures forall r | r in FileMatches(pattern, file, data, options) ::
      ReportsLine(r, pattern, options.caseInsensitive, file, data.lines)
    ensures Increasing(FileMatches(pattern, file, data, options))
  {
    var all := MatchingLines(pattern, options.caseInsensitive, file, data.lines);
    var r := FileMatches(pattern, file, data, options);
    MatchingLinesSound(pattern, options.caseInsensitive, file, data.lines);
    assert forall k :: 0 <= k < |r| ==> r[k] == all[k];
    forall x | x in r
      ensures x in all
    {
      TruncateKeeps(all, PerFileCap, x);
    }
  }

  /** No matching line that precedes the last reported one is skipped. */
  lemma NoMatchSkipped(pattern: string, file: string, data: FileData, options: SearchOptions, n: int)
    requires data.readable
    requires 0 <= n < |data.lines| && LineMatches(data.lines[n], pattern, options.caseInsensitive)
    requires var r := FileMatches(pattern, file, data, options); r != [] && n + 1 <= r[|r| - 1].line
    ensures Result(file, n + 1, data.lines[n]) in FileMatches(pattern, file, data, options)
  {
    var ci := options.caseInsensitive;
    var all := MatchingLines(pattern, ci, file, data.lines);
    var r := FileMatches(pattern, file, data, options);
    assert forall j :: 0 <= j < |r| ==> r[j] == all[j];
    MatchingLinesSound(pattern, ci, file, data.lines);
    MatchingLinesComplete(pattern, ci, file, data.lines, n);
    var k :| 0 <= k < |all| && all[k] == Result(file, n + 1, data.lines[n]);
    assert k < |r|;
    assert r[k] == all[k];
  }

  /** Reading one more line appends that line's match, if any. */
  lemma MatchingLinesStep(pattern: string, ci: bool, file: string, lines: seq<string>, k: int)
    requires 0 <= k < |lines|
    ensures MatchingLines(pattern, ci, file, lines[..k + 1]) ==
      MatchingLines(pattern, ci, file, lines[..k]) +
      (if LineMatches(lines[k], pattern, ci) then [Result(file, k + 1, lines[k])] else [])
  {
    assert lines[..k + 1][..k] == lines[..k];
  }

  /** Below the per-file cap, reading line `k` appends its match, if any. */
  lemma FileMatchesStep(pattern: string, ci: bool, file: string, lines: seq<string>, k: int)
    requires 0 <= k < |lines|
    requires |Truncate(MatchingLines(pattern, ci, file, lines[..k]), PerFileCap)| < PerFileCap
    ensures Truncate(MatchingLines(pattern, ci, file, lines[..k + 1]), PerFileCap) ==
      Truncate(MatchingLines(pattern, ci, file, lines[..k]), PerFileCap) +
      (if LineMatches(lines[k], pattern, ci) then [Result(file, k + 1, lines[k])] else [])
  {
    MatchingLinesStep(pattern, ci, file, lines, k);
  }

  /** Once the first `k` lines fill the per-file cap, the remaining lines change nothing. */
  lemma FileMatchesSaturated(pattern: string, ci: bool, file: string, lines: seq<string>, k: int)
    requires 0 <= k <= |lines|
    requires |Truncate(MatchingLines(pattern, ci, file, lines[..k]), PerFileCap)| >= PerFileCap
    ensures Truncate(MatchingLines(pattern, ci, file, lines), PerFileCap) ==
      Truncate(MatchingLines(pattern, ci, file, lines[..k]), PerFileCap)
  {
    var done := MatchingLines(pattern, ci, file, lines[..k]);
    var all := MatchingLines(pattern, ci, file, lines);
    MatchingLinesPrefix(pattern, ci, file, lines, k);
    assert all[..PerFileCap] == done[..PerFileCap];
  }

  method SearchFile(pattern: string, filename: string, data: FileData, options: SearchOptions) returns (results: seq<Result>)
    ensures results == FileMatches(pattern, filename, data, options)
    ensures !data.readable ==> results == []
    ensures |results| <= PerFileCap
  {
    results := [];
    if !data.readable {
      return;
    }
    var ci := options.caseInsensitive;
    var searchPattern := if ci then ToLower(pattern) else pattern;
    var lines := data.lines;
    var lineNumber := 1;
    assert lines[..0] == [];
    while lineNumber <= |lines|
      invariant 1 <= lineNumber <= |lines| + 1
      invariant results == Truncate(MatchingLines(pattern, ci, filename, lines[..lineNumber - 1]), PerFileCap)
    {
      if |results| >= PerFileCap {
        FileMatchesSaturated(pattern, ci, filename, lines, lineNumber - 1);
        return;
      }
      var line := lines[lineNumber - 1];
      var searchLine := if ci then ToLower(line) else line;
      FileMatchesStep(pattern, ci, filename, lines, lineNumber - 1);
      if Contains(searchLine, searchPattern) {
        results := results + [Result(filename, lineNumber, line)];
      }
      lineNumber := lineNumber + 1;
    }
    assert lines[..lineNumber - 1] == lines;
  }

  // ---------------------------------------------------------------------------------------------
  // Reference definition of the tree search

  /** A regular file of the tree: its walk path, the names the walk reported for the directories
      that enclose it (outermost first, the root included) and its contents. */
  datatype Entry = Entry(path: string, ancestors: seq<string>, data: FileData)

  /** Every regular file under `node`, reached as `path`, in walk order (depth-first, pre-order),
      none left out. A directory is known by the base of its path, as the walk reports it: for
      an entry that is the name its directory lists, and for the root the last element of the
      path the walk starts from. */
  function Files(path: string, ancestors: seq<string>, node: Node): seq<Entry>
    decreases node
  {
    match node
    case File(_, data) => [Entry(path, ancestors, data)]
    case Dir(_, children) => ChildFiles(path, ancestors + [Base(path)], children)
  }

  function ChildFiles(dir: string, ancestors: seq<string>, children: seq<Node>): seq<Entry>
    decreases children
  {
    if children == [] then []
    else Files(Join(dir, children[0].name), ancestors, children[0]) + ChildFiles(dir, ancestors, children[1..])
  }

  /** A file the search reads: no enclosing directory is pruned and the classifier accepts it. */
  predicate EligibleEntry(e: Entry)
  {
    (forall a | a in e.ancestors :: !Pruned(a)) && !IsBinary(e.path, e.data)
  }

  /** The elements of `s` that `keep` accepts, in order. */
  function Filter<T>(keep: T -> bool, s: seq<T>): seq<T>
  {
    if s == [] then [] else (if keep(s[0]) then [s[0]] else []) + Filter(keep, s[1..])
  }

  function Eligible(entries: seq<Entry>): seq<Entry>
  {
    Filter(EligibleEntry, entries)
  }

  /** The concatenation of the line matcher's output over `entries`, in order. */
  function Matches(pattern: string, options: SearchOptions, entries: seq<Entry>): seq<Result>
  {
    if entries == [] then []
    else FileMatches(pattern, entries[0].path, entries[0].data, options) + Matches(pattern, options, entries[1..])
  }

  /** The matches contributed by the eligible ones among `entries`. */
  function Gathered(pattern: string, options: SearchOptions, entries: seq<Entry>): seq<Result>
  {
    Matches(pattern, options, Eligible(entries))
  }

  /** What a search of the tree rooted at `root` (reached as `dir`) returns: the first
      max results of the matches of all eligible files, in walk order. */
  function Found(pattern: string, dir: string, root: Node, options: SearchOptions): seq<Result>
  {
    Truncate(Gathered(pattern, options, Files(dir, [], root)), EffectiveMax(options))
  }

  lemma {:induction false} ChildFilesAppend(dir: string, ancestors: seq<string>, a: seq<Node>, b: seq<Node>)
    ensures ChildFiles(dir, ancestors, a + b) == ChildFiles(dir, ancestors, a) + ChildFiles(dir, ancestors, b)
    decreases |a|
  {
    if a != [] {
      var c := a[0];
      var ab := a + b;
      assert ab[0] == c && ab[1..] == a[1..] + b;
      ChildFilesAppend(dir, ancestors, a[1..], b);
      assert ChildFiles(dir, ancestors, ab) == Files(Join(dir, c.name), ancestors, c) + ChildFiles(dir, ancestors, ab[1..]);
      assert ChildFiles(dir, ancestors, a) == Files(Join(dir, c.name), ancestors, c) + ChildFiles(dir, ancestors, a[1..]);
    } else {
      assert a + b == b;
    }
  }

  lemma {:induction false} FilterAppend<T>(keep: T -> bool, a: seq<T>, b: seq<T>)
    ensures Filter(keep, a + b) == Filter(keep, a) + Filter(keep, b)
    decreases |a|
  {
    if a != [] {
      FilterAppend(keep, a[1..], b);
      assert (a + b)[0] == a[0];
      assert (a + b)[1..] == a[1..] + b;
    } else {
      assert a + b == b;
    }
  }

  lemma EligibleAppend(a: seq<Entry>, b: seq<Entry>)
    ensures Eligible(a + b) == Eligible(a) + Eligible(b)
  {
    FilterAppend(EligibleEntry, a, b);
  }

  lemma {:induction false} MatchesAppend(pattern: string, options: SearchOptions, a: seq<Entry>, b: seq<Entry>)
    ensures Matches(pattern, options, a + b) == Matches(pattern, options, a) + Matches(pattern, options, b)
    decreases |a|
  {
    if a != [] {
      var e := a[0];
      var ab := a + b;
      assert ab[0] == e && ab[1..] == a[1..] + b;
      MatchesAppend(pattern, options, a[1..], b);
      assert Matches(pattern, options, ab) == FileMatches(pattern, e.path, e.data, options) + Matches(pattern, options, ab[1..]);
      assert Matches(pattern, options, a) == FileMatches(pattern, e.path, e.data, options) + Matches(pattern, options, a[1..]);
    } else {
      assert a + b == b;
    }
  }

  /** The walk records every enclosing directory: each file below `node` has `ancestors` as a prefix
      of its own list, and below a directory that directory's name too. */
  lemma {:induction false} FilesKeepAncestors(path: string, ancestors: seq<string>, node: Node)
    ensures forall e | e in Files(path, ancestors, node) :: ancestors <= e.ancestors
    ensures node.Dir? ==> forall e | e in Files(path, ancestors, node) :: Base(path) in e.ancestors
    decreases node
  {
    match node
    case File(_, _) =>
    case Dir(_, children) =>
      var name := Base(path);
      ChildFilesKeepAncestors(path, ancestors + [name], children);
      forall e | e in Files(path, ancestors, node)
        ensures ancestors <= e.ancestors && name in e.ancestors
      {
        assert (ancestors + [name])[|ancestors|] == name;
        assert e.ancestors[|ancestors|] == name;
      }
  }

  lemma {:induction false} ChildFilesKeepAncestors(dir: string, ancestors: seq<string>, children: seq<Node>)
    ensures forall e | e in ChildFiles(dir, ancestors, children) :: ancestors <= e.ancestors
    decreases children
  {
    if children != [] {
      FilesKeepAncestors(Join(dir, children[0].name), ancestors, children[0]);
      ChildFilesKeepAncestors(dir, ancestors, children[1..]);
    }
  }

  lemma {:induction false} FilterNone<T>(keep: T -> bool, s: seq<T>)
    requires forall x | x in s :: !keep(x)
    ensures Filter(keep, s) == []
    decreases |s|
  {
    if s != [] {
      FilterNone(keep, s[1..]);
    }
  }

  /** Nothing below a directory named .git, node_modules, .vscode, target, build or dist is searched. */
  lemma PrunedDirContributesNothing(path: string, ancestors: seq<string>, node: Node)
    requires node.Dir? && Pruned(Base(path))
    ensures Eligible(Files(path, ancestors, node)) == []
  {
    FilesKeepAncestors(path, ancestors, node);
    FilterNone(EligibleEntry, Files(path, ancestors, node));
  }

  lemma {:induction false} FilterSubset<T>(keep: T -> bool, s: seq<T>)
    ensures forall x | x in Filter(keep, s) :: x in s && keep(x)
    decreases |s|
  {
    if s != [] {
      FilterSubset(keep, s[1..]);
    }
  }

  lemma {:induction false} MatchesFrom(pattern: string, options: SearchOptions, entries: seq<Entry>, r: Result)
    requires r in Matches(pattern, options, entries)
    ensures exists e :: e in entries && r in FileMatches(pattern, e.path, e.data, options)
    decreases |entries|
  {
    if r !in FileMatches(pattern, entries[0].path, entries[0].data, options) {
      MatchesFrom(pattern, options, entries[1..], r);
    }
  }

  /** Every result of a search comes from a file of the tree that lies under no pruned directory
      and that the classifier accepts, and is one of that file's reported matches. */
  lemma ResultsComeFromEligibleFiles(pattern: string, dir: string, root: Node, options: SearchOptions, r: Result)
    requires r in Found(pattern, dir, root, options)
    ensures exists e :: (e in Files(dir, [], root) && e.path == r.file &&
      (forall a | a in e.ancestors :: !Pruned(a)) && !IsBinary(e.path, e.data) &&
      r in FileMatches(pattern, e.path, e.data, options))
  {
    var all := Files(dir, [], root);
    var m := Matches(pattern, options, Eligible(all));
    assert r in m;
    MatchesFrom(pattern, options, Eligible(all), r);
    var e :| e in Eligible(all) && r in FileMatches(pattern, e.path, e.data, options);
    FilterSubset(EligibleEntry, all);
    var ml := MatchingLines(pattern, options.caseInsensitive, e.path, e.data.lines);
    TruncateKeeps(ml, PerFileCap, r);
    MatchingLinesSound(pattern, options.caseInsensitive, e.path, e.data.lines);
    assert ReportsLine(r, pattern, options.caseInsensitive, e.path, e.data.lines);
  }

  lemma TruncateKeeps<T>(s: seq<T>, n: int, x: T)
    requires x in Truncate(s, n)
    ensures x in s
  {
    if n > 0 && |s| > n {
      var i :| 0 <= i < n && s[..n][i] == x;
      assert s[i] == x;
    }
  }

  lemma TruncateAppend<T>(a: seq<T>, b: seq<T>, n: int)
    ensures Truncate(Truncate(a, n) + b, n) == Truncate(a + b, n)
  {
    if |a| > n && n > 0 {
      assert (a + b)[..n] == a[..n];
      assert (a[..n] + b)[..n] == a[..n];
    }
  }

  /** Once `r` holds the cap, appending anything and truncating leaves it as it is. */
  lemma TruncateSaturated<T>(r: seq<T>, x: seq<T>, n: int)
    requires |r| >= n && (r == [] || |r| <= n)
    ensures Truncate(r + x, n) == r
  {
    if n > 0 {
      assert (r + x)[..n] == r;
    }
  }

  lemma GatheredAppend(pattern: string, options: SearchOptions, a: seq<Entry>, b: seq<Entry>)
    ensures Gathered(pattern, options, a + b) == Gathered(pattern, options, a) + Gathered(pattern, options, b)
  {
    EligibleAppend(a, b);
    MatchesAppend(pattern, options, Eligible(a), Eligible(b));
  }

  lemma ChildFilesSnoc(dir: string, ancestors: seq<string>, children: seq<Node>, i: int)
    requires 0 <= i < |children|
    ensures ChildFiles(dir, ancestors, children[..i + 1]) ==
      ChildFiles(dir, ancestors, children[..i]) + Files(Join(dir, children[i].name), ancestors, children[i])
  {
    var child := children[i];
    assert children[..i + 1] == children[..i] + [child];
    ChildFilesAppend(dir, ancestors, children[..i], [child]);
    assert [child][1..] == [];
  }

  lemma ChildFilesSplit(dir: string, ancestors: seq<string>, children: seq<Node>, i: int)
    requires 0 <= i <= |children|
    ensures ChildFiles(dir, ancestors, children) ==
      ChildFiles(dir, ancestors, children[..i]) + ChildFiles(dir, ancestors, children[i..])
  {
    assert children[..i] + children[i..] == children;
    ChildFilesAppend(dir, ancestors, children[..i], children[i..]);
  }

  lemma FilterSingle<T>(keep: T -> bool, x: T)
    ensures Filter(keep, [x]) == if keep(x) then [x] else []
  {
    assert [x][1..] == [];
  }

  lemma MatchesSingle(pattern: string, options: SearchOptions, e: Entry)
    ensures Matches(pattern, options, [e]) == FileMatches(pattern, e.path, e.data, options)
  {
    assert [e][1..] == [];
  }

  /** A file at the top of the walk contributes its matches unless the classifier rejects it. */
  lemma GatheredFile(pattern: string, options: SearchOptions, path: string, ancestors: seq<string>, data: FileData)
    requires forall a | a in ancestors :: !Pruned(a)
    ensures Gathered(pattern, options, [Entry(path, ancestors, data)]) ==
      if IsBinary(path, data) then [] else FileMatches(pattern, path, data, options)
  {
    var e := Entry(path, ancestors, data);
    FilterSingle(EligibleEntry, e);
    assert EligibleEntry(e) == !IsBinary(path, data);
    if !IsBinary(path, data) {
      MatchesSingle(pattern, options, e);
    }
  }

  /** Walking one more child of a directory appends that child's matches. */
  lemma WalkChildStep(acc: seq<Result>, done: seq<Result>, here: seq<Result>, all: seq<Result>, n: int)
    requires all == done + here
    ensures Truncate(Truncate(acc + done, n) + here, n) == Truncate(acc + all, n)
  {
    assert acc + (done + here) == (acc + done) + here;
    TruncateAppend(acc + done, here, n);
  }

  /** Once the cap is held after some children, the remaining children change nothing. */
  lemma WalkChildrenSaturated(acc: seq<Result>, done: seq<Result>, rest: seq<Result>, all: seq<Result>, n: int)
    requires all == done + rest
    requires var r := Truncate(acc + done, n); |r| >= n && (r == [] || |r| <= n)
    ensures Truncate(acc + all, n) == Truncate(acc + done, n)
  {
    assert acc + (done + rest) == (acc + done) + rest;
    TruncateAppend(acc + done, rest, n);
    TruncateSaturated(Truncate(acc + done, n), rest, n);
  }

  /** Before the first child nothing has been gathered. */
  lemma WalkChildrenStart(pattern: string, options: SearchOptions, dir: string, inner: seq<string>,
                          children: seq<Node>, acc: seq<Result>, n: int)
    requires acc == [] || |acc| <= n
    ensures acc == Truncate(acc + Gathered(pattern, options, ChildFiles(dir, inner, children[..0])), n)
  {
    assert children[..0] == [];
    assert acc + Gathered(pattern, options, ChildFiles(dir, inner, [])) == acc;
  }

  /** Walking child `i` after the first `i` appends child `i`'s matches. */
  lemma WalkChildrenNext(pattern: string, options: SearchOptions, dir: string, inner: seq<string>,
                         children: seq<Node>, i: int, acc: seq<Result>, n: int)
    requires 0 <= i < |children|
    ensures var child := children[i];
      Truncate(Truncate(acc + Gathered(pattern, options, ChildFiles(dir, inner, children[..i])), n) +
               Gathered(pattern, options, Files(Join(dir, child.name), inner, child)), n) ==
      Truncate(acc + Gathered(pattern, options, ChildFiles(dir, inner, children[..i + 1])), n)
  {
    var child := children[i];
    var doneFiles := ChildFiles(dir, inner, children[..i]);
    var childFiles := Files(Join(dir, child.name), inner, child);
    ChildFilesSnoc(dir, inner, children, i);
    GatheredAppend(pattern, options, doneFiles, childFiles);
    WalkChildStep(acc, Gathered(pattern, options, doneFiles), Gathered(pattern, options, childFiles),
      Gathered(pattern, options, ChildFiles(dir, inner, children[..i + 1])), n);
  }

  /** When the cap is held after the first `i` children, the whole directory gathers no more. */
  lemma WalkChildrenStop(pattern: string, options: SearchOptions, dir: string, inner: seq<string>,
                         children: seq<Node>, i: int, acc: seq<Result>, n: int)
    requires 0 <= i <= |children|
    requires var r := Truncate(acc + Gathered(pattern, options, ChildFiles(dir, inner, children[..i])), n);
      |r| >= n && (r == [] || |r| <= n)
    ensures Truncate(acc + Gathered(pattern, options, ChildFiles(dir, inner, children)), n) ==
      Truncate(acc + Gathered(pattern, options, ChildFiles(dir, inner, children[..i])), n)
  {
    var doneFiles := ChildFiles(dir, inner, children[..i]);
    var restFiles := ChildFiles(dir, inner, children[i..]);
    ChildFilesSplit(dir, inner, children, i);
    GatheredAppend(pattern, options, doneFiles, restFiles);
    WalkChildrenSaturated(acc, Gathered(pattern, options, doneFiles), Gathered(pattern, options, restFiles),
      Gathered(pattern, options, ChildFiles(dir, inner, children)), n);
  }

  // ---------------------------------------------------------------------------------------------
  // Tree walk

  /** The answer of the walk callback: go on, or skip (the rest of) a directory. */
  datatype Signal = Continue | SkipDir

  /** A file handed to the classifier, with the number of results held at that moment. */
  datatype Probe = Probe(path: string, held: int)

  /** The state that the walk callback of SearchFiles captures: the growing result list and
      the cap. `probes` records the files the callback classified and opened. */
  class Walker {
    const pattern: string
    const options: SearchOptions
    const maxResults: int
    var results: seq<Result>
    ghost var probes: seq<Probe>

    /** The list never exceeds the cap, and no file was classified while the cap was reached. */
    ghost predicate Valid()
      reads this
    {
      (results == [] || |results| <= maxResults) &&
      forall i :: 0 <= i < |probes| ==> probes[i].held < maxResults
    }

    constructor (pattern: string, options: SearchOptions, maxResults: int)
      ensures Valid()
      ensures this.pattern == pattern && this.options == options && this.maxResults == maxResults
      ensures results == [] && probes == []
    {
      this.pattern := pattern;
      this.options := options;
      this.maxResults := maxResults;
      results := [];
      probes := [];
    }

    /** The callback: prunes a directory whose reported name (the base of its path) is listed;
        for a file, stops its directory once the cap is reached, and otherwise classifies it and
        appends its matches, truncating to the cap. */
    method Visit(path: string, node: Node) returns (signal: Signal)
      requires Valid()
      modifies this
      ensures Valid()
      ensures node.Dir? ==>
        results == old(results) && probes == old(probes) && (signal == SkipDir <==> Pruned(Base(path)))
      ensures node.File? && |old(results)| >= maxResults ==>
        signal == SkipDir && results == old(results) && probes == old(probes)
      ensures node.File? && |old(results)| < maxResults ==>
        signal == Continue &&
        probes == old(probes) + [Probe(path, |old(results)|)] &&
        results == Truncate(old(results) +
          (if IsBinary(path, node.data) then [] else FileMatches(pattern, path, node.data, options)), maxResults)
    {
      match node
      case Dir(_, _) =>
        var name := Base(path);
        signal := if Pruned(name) then SkipDir else Continue;
      case File(_, data) =>
        if |results| >= maxResults {
          return SkipDir;
        }
        probes := probes + [Probe(path, |results|)];
        var binary := IsBinaryFile(path, data);
        if binary {
          return Continue;
        }
        var fileResults := SearchFile(pattern, path, data, options);
        results := results + fileResults;
        if |results| > maxResults {
          results := results[..maxResults];
        }
        signal := Continue;
    }

    /** filepath.Walk over `node`, calling Visit on every entry reached. The new result list is
        the old one followed by the matches of every eligible file below `node`, truncated to
        the cap; once the cap is reached nothing more is classified or opened. */
    method Walk(path: string, node: Node, ghost ancestors: seq<string>) returns (signal: Signal)
      requires Valid()
      requires forall a | a in ancestors :: !Pruned(a)
      modifies this
      ensures Valid()
      ensures results == Truncate(old(results) + Gathered(pattern, options, Files(path, ancestors, node)), maxResults)
      ensures |old(results)| >= maxResults ==> results == old(results) && probes == old(probes)
      ensures node.File? ==> (signal == SkipDir <==> |old(results)| >= maxResults)
      ensures signal == SkipDir ==> (node.Dir? && Pruned(Base(path))) || |results| >= maxResults
      decreases node, 1
    {
      signal := Visit(path, node);
      if node.File? {
        assert Files(path, ancestors, node) == [Entry(path, ancestors, node.data)];
        GatheredFile(pattern, options, path, ancestors, node.data);
        if |old(results)| >= maxResults {
          TruncateSaturated(old(results), Gathered(pattern, options, Files(path, ancestors, node)), maxResults);
        }
        return;
      }
      if signal == SkipDir {
        PrunedDirContributesNothing(path, ancestors, node);
        assert old(results) + [] == old(results);
        return;
      }
      signal := WalkChildren(path, node.children, ancestors + [Base(path)]);
    }

    /** The loop over a directory's entries in lexical order: a file that answers SkipDir ends
        the directory, which then answers SkipDir itself; a subdirectory's SkipDir is ignored. */
    method WalkChildren(path: string, children: seq<Node>, ghost inner: seq<string>) returns (signal: Signal)
      requires Valid()
      requires forall a | a in inner :: !Pruned(a)
      modifies this
      ensures Valid()
      ensures results == Truncate(old(results) + Gathered(pattern, options, ChildFiles(path, inner, children)), maxResults)
      ensures |old(results)| >= maxResults ==> results == old(results) && probes == old(probes)
      ensures signal == SkipDir ==> |results| >= maxResults && exists k :: 0 <= k < |children| && children[k].File?
      decreases children, 0
    {
      var i := 0;
      WalkChildrenStart(pattern, options, path, inner, children, old(results), maxResults);
      while i < |children|
        invariant 0 <= i <= |children|
        invariant Valid()
        invariant results == Truncate(old(results) + Gathered(pattern, options, ChildFiles(path, inner, children[..i])), maxResults)
        invariant |old(results)| >= maxResults ==> results == old(results) && probes == old(probes)
      {
        var child := children[i];
        var s := Walk(Join(path, child.name), child, inner);
        if s == SkipDir && child.File? {
          WalkChildrenStop(pattern, options, path, inner, children, i, old(results), maxResults);
          assert children[i].File?;
          return SkipDir;
        }
        WalkChildrenNext(pattern, options, path, inner, children, i, old(results), maxResults);
        i := i + 1;
      }
      assert children[..i] == children;
      signal := Continue;
    }
  }

  /** SearchFiles: at most the cap (50 when 0 is passed, none when the cap is negative), and
      exactly the first that many matches of the eligible files in walk order. */
  method SearchFiles(pattern: string, dir: string, root: Node, options: SearchOptions) returns (results: seq<Result>)
    ensures results == Found(pattern, dir, root, options)
    ensures options.maxResults == 0 ==> |results| <= DefaultMaxResults
    ensures options.maxResults > 0 ==> |results| <= options.maxResults
    ensures options.maxResults < 0 ==> results == []
  {
    var maxResults := options.maxResults;
    if maxResults == 0 {
      maxResults := DefaultMaxResults;
    }
    var walker := new Walker(pattern, options, maxResults);
    ghost var all := Gathered(pattern, options, Files(dir, [], root));
    assert [] + all == all;
    var _ := walker.Walk(dir, root, []);
    results := walker.results;
    assert results == Truncate(all, maxResults);
  }
}
