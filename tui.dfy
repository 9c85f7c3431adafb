/** The interactive session: the model the terminal front end keeps between key presses, its
    transitions, the scroll window, the preview of the selected match and the result list as
    rendered. The working directory is handed to each transition as a `Search.Node`. */
module Tui {
  import opened Text
  import opened FilePath
  import Search

  /** Rows of the result list visible at once. */
  const VisibleItems: int := 6
  /** Lines of context shown above and below the selected match. */
  const ContextRadius: int := 1
  /** The cap the session passes to every search. */
  const SessionMaxResults: int := 50
  /** Longest result label shown in full, and the length a longer one is cut to before "...". */
  const LabelLimit: int := 45
  const LabelKeep: int := 42

  /** The key intents the session distinguishes. `Edit` stands for every other key: the text
      input has already applied it, and `value` is the query it now holds. `NonKey` is any
      message that is not a key press. */
  datatype Key = CtrlC | CtrlI | Up | Down | Enter | Edit(value: string) | NonKey

  /** What the front end does after a transition. */
  datatype Outcome = Continue | Quit | OpenAndQuit(file: string, line: int)

  datatype Option<T> = None | Some(value: T)

  /** One line of the preview: its line number in the file, its text, and whether it is the
      matched line. */
  datatype NumberedLine = NumberedLine(number: int, text: string, isMatch: bool)

  /** The preview pane. `Placeholder` invites the user to type, `NoMatches` reports an empty
      result list; otherwise the selected match is shown with its context lines, or alone when
      its file can no longer be read, followed by "Result position of total". */
  datatype Preview =
    | Placeholder
    | NoMatches
    | Glimpse(file: string, line: int, context: seq<NumberedLine>, position: int, total: int)
    | MatchOnly(file: string, line: int, content: string, position: int, total: int)

  function Max(a: int, b: int): int { if a < b then b else a }
  function Min(a: int, b: int): int { if a < b then a else b }
  function Dist(a: int, b: int): int { if a < b then b - a else a - b }

  /** The scroll offset after re-windowing around `selected`, starting from `offset`. */
  function ScrollFor(selected: int, offset: int): (r: int)
    ensures selected >= 0 ==> 0 <= r <= selected < r + VisibleItems
    ensures 0 <= offset <= selected < offset + VisibleItems ==> r == offset
  {
    var o1 := if selected >= offset + VisibleItems then selected - VisibleItems + 1 else offset;
    var o2 := if selected < o1 then selected else o1;
    if o2 < 0 then 0 else o2
  }

  /** Among all offsets whose window shows the selection, `ScrollFor` picks one nearest to the
      old offset: the window moves no further than it must. */
  lemma ScrollForMinimal(selected: int, offset: int, o: int)
    requires 0 <= selected && 0 <= offset
    requires 0 <= o <= selected < o + VisibleItems
    ensures Dist(ScrollFor(selected, offset), offset) <= Dist(o, offset)
  {
  }

  /** The status line set by ctrl+i, naming the mode now in force. */
  function ModeMessage(caseInsensitive: bool): string
  {
    "🔧 Switched to " + (if caseInsensitive then "CASE-INSENSITIVE" else "CASE-SENSITIVE") + " mode"
  }

  function SessionOptions(caseInsensitive: bool): Search.SearchOptions
  {
    Search.SearchOptions(caseInsensitive, SessionMaxResults)
  }

  /** What searching the working directory for `query` yields. */
  function SessionSearch(query: string, caseInsensitive: bool, fs: Search.Node): seq<Search.Result>
  {
    Search.Found(query, ".", fs, SessionOptions(caseInsensitive))
  }

  /** The first file of `entries` with path `path`. */
  function FindFile(entries: seq<Search.Entry>, path: string): Option<Search.FileData>
  {
    if entries == [] then None
    else if entries[0].path == path then Some(entries[0].data)
    else FindFile(entries[1..], path)
  }

  /** Opening `path` relative to the working directory `fs`. */
  function Open(fs: Search.Node, path: string): Option<Search.FileData>
  {
    FindFile(Search.Files(".", [], fs), path)
  }

  /** What the session can learn from the working directory: the results of a search for a
      query in a mode, and what opening a path yields. */
  datatype Env = Env(search: (string, bool) -> seq<Search.Result>, open: string -> Option<Search.FileData>)

  /** The working directory `fs` as the session sees it. */
  function EnvOf(fs: Search.Node): Env
  {
    Env((query, caseInsensitive) => SessionSearch(query, caseInsensitive, fs), path => Open(fs, path))
  }

  /** Lines `first` through `last` of `lines`, numbering from 1; empty when `first > last`. */
  function Span(lines: seq<string>, first: int, last: int): (w: seq<string>)
    requires 1 <= first && last <= |lines|
    ensures |w| == Max(0, last - first + 1)
  {
    if first > last then [] else lines[first - 1..last]
  }

  /** Element `i` of a span is line `first + i` of the file. */
  lemma SpanAt(lines: seq<string>, first: int, last: int, i: int)
    requires 1 <= first && last <= |lines|
    requires 0 <= i < |Span(lines, first, last)|
    ensures Span(lines, first, last)[i] == lines[first + i - 1]
  {
  }

  /** Extending the span by the line after it appends that line. */
  lemma SpanSnoc(lines: seq<string>, first: int, last: int)
    requires 1 <= first <= last + 1 && last + 1 <= |lines|
    ensures Span(lines, first, last + 1) == Span(lines, first, last) + [lines[last]]
  {
  }

  /** Lines max(1, target - radius) through target + radius of `lines`, clipped at the end. */
  function Window(lines: seq<string>, target: int, radius: int): (w: seq<string>)
    ensures radius >= 0 ==> |w| <= 2 * radius + 1
    ensures 1 <= target <= |lines| && radius >= 0 ==> |w| >= 1
  {
    Span(lines, Max(1, target - radius), Min(target + radius, |lines|))
  }

  /** Numbering a window from its first line gives every line its true line number in the
      file, within `radius` of the target; when the target is a line of the file, exactly one
      numbered line is marked, and it is the target line. */
  lemma {:induction false} WindowNumbering(lines: seq<string>, target: int, radius: int, n: seq<NumberedLine>)
    requires radius >= 0
    requires n == Numbered(Window(lines, target, radius), Max(1, target - radius), target)
    ensures forall i :: 0 <= i < |n| ==>
      1 <= n[i].number <= |lines| && target - radius <= n[i].number <= target + radius &&
      n[i].text == lines[n[i].number - 1] && (n[i].isMatch <==> n[i].number == target)
    ensures 1 <= target <= |lines| ==>
      exists i :: 0 <= i < |n| && n[i].isMatch && n[i].number == target && n[i].text == lines[target - 1]
    ensures forall i, j :: 0 <= i < |n| && 0 <= j < |n| && n[i].isMatch && n[j].isMatch ==> i == j
  {
    var first := Max(1, target - radius);
    var w := Window(lines, target, radius);
    assert w == Span(lines, first, Min(target + radius, |lines|));
    forall i | 0 <= i < |n|
      ensures n[i] == NumberedLine(first + i, lines[first + i - 1], first + i == target)
    {
      NumberedAt(w, first, target, i);
      SpanAt(lines, first, Min(target + radius, |lines|), i);
    }
    if 1 <= target <= |lines| {
      var k := target - first;
      assert 0 <= k < |n|;
      assert n[k].number == target;
    }
  }

  /** The context getFileContext reads: nothing when the file cannot be opened. */
  function ContextLines(env: Env, path: string, target: int, radius: int): seq<string>
  {
    match env.open(path)
    case None => []
    case Some(data) => if data.readable then Window(data.lines, target, radius) else []
  }

  /** `ctx` numbered from `first`, marking the line numbered `target`. */
  function Numbered(ctx: seq<string>, first: int, target: int): (n: seq<NumberedLine>)
    ensures |n| == |ctx|
    decreases |ctx|
  {
    if ctx == [] then []
    else
      var last := |ctx| - 1;
      Numbered(ctx[..last], first, target) + [NumberedLine(first + last, ctx[last], first + last == target)]
  }

  /** Line `i` of a numbered context carries number `first + i` and the text of `ctx[i]`. */
  lemma {:induction false} NumberedAt(ctx: seq<string>, first: int, target: int, i: int)
    requires 0 <= i < |ctx|
    ensures Numbered(ctx, first, target)[i] == NumberedLine(first + i, ctx[i], first + i == target)
    decreases |ctx|
  {
    var last := |ctx| - 1;
    if i < last {
      NumberedAt(ctx[..last], first, target, i);
    }
  }

  /** Numbers the context lines from `startLine`, marking the matched line. */
  method NumberLines(contextLines: seq<string>, startLine: int, target: int) returns (numbered: seq<NumberedLine>)
    ensures numbered == Numbered(contextLines, startLine, target)
  {
    numbered := [];
    for i := 0 to |contextLines|
      invariant numbered == Numbered(contextLines[..i], startLine, target)
    {
      var lineNum := startLine + i;
      assert contextLines[..i + 1][..i] == contextLines[..i];
      numbered := numbered + [NumberedLine(lineNum, contextLines[i], lineNum == target)];
    }
    assert contextLines[..|contextLines|] == contextLines;
  }

  /** What the preview shows for the selection `sel` in `results`, with files read through `env`. */
  function PreviewOf(env: Env, results: seq<Search.Result>, sel: int): Preview
    requires results != [] ==> 0 <= sel < |results|
  {
    if results == [] then NoMatches
    else
      var r := results[sel];
      var ctx := ContextLines(env, r.file, r.line, ContextRadius);
      if ctx == [] then MatchOnly(r.file, r.line, r.content, sel + 1, |results|)
      else Glimpse(r.file, r.line, Numbered(ctx, Max(1, r.line - ContextRadius), r.line), sel + 1, |results|)
  }

  /** When the selected match's file opens and is readable, the preview is the window around
      the matched line, numbered from its first line. */
  lemma PreviewOfReadable(env: Env, results: seq<Search.Result>, sel: int, data: Search.FileData)
    requires 0 <= sel < |results|
    requires env.open(results[sel].file) == Some(data) && data.readable
    requires 1 <= results[sel].line <= |data.lines|
    ensures var r := results[sel];
      PreviewOf(env, results, sel) ==
      Glimpse(r.file, r.line, Numbered(Window(data.lines, r.line, ContextRadius), Max(1, r.line - ContextRadius), r.line),
              sel + 1, |results|)
  {
    var r := results[sel];
    var w := Window(data.lines, r.line, ContextRadius);
    assert ContextLines(env, r.file, r.line, ContextRadius) == w;
    assert w != [];
  }

  /** When the selected match's line is still in its file, the preview numbers every context
      line with its true line number and highlights exactly one line: the matched one. */
  lemma PreviewHighlightsMatch(p: Preview, env: Env, results: seq<Search.Result>, sel: int, data: Search.FileData)
    requires 0 <= sel < |results| && p == PreviewOf(env, results, sel)
    requires env.open(results[sel].file) == Some(data) && data.readable
    requires 1 <= results[sel].line <= |data.lines|
    ensures p.Glimpse? && p.position == sel + 1 && p.total == |results|
    ensures forall i :: 0 <= i < |p.context| ==>
      1 <= p.context[i].number <= |data.lines| && p.context[i].text == data.lines[p.context[i].number - 1]
    ensures exists i :: (0 <= i < |p.context| && p.context[i].isMatch &&
      p.context[i].number == results[sel].line && p.context[i].text == data.lines[results[sel].line - 1])
    ensures forall i, j ::
      (0 <= i < |p.context| && 0 <= j < |p.context| && p.context[i].isMatch && p.context[j].isMatch) ==> i == j
  {
    var r := results[sel];
    var n := Numbered(Window(data.lines, r.line, ContextRadius), Max(1, r.line - ContextRadius), r.line);
    PreviewOfReadable(env, results, sel, data);
    assert p == Glimpse(r.file, r.line, n, sel + 1, |results|);
    WindowNumbering(data.lines, r.line, ContextRadius, n);
  }

  /** The label of a result in the list: "file:line", cut to 42 characters and "..." when
      longer than 45. */
  function Shorten(text: string): (s: string)
    ensures |s| <= LabelLimit
    ensures |text| <= LabelLimit ==> s == text
    ensures |text| > LabelLimit ==> s == text[..LabelKeep] + "..."
  {
    if |text| > LabelLimit then text[..LabelKeep] + "..." else text
  }

  function Label(r: Search.Result): string
  {
    Shorten(r.file + ":" + FormatInt(r.line))
  }

  /** One line of the result list, before it is turned into text by `RowText`. */
  datatype Row =
    | Heading(first: int, last: int, total: int)
    | Blank
    | MoreAboveRow
    | EntryRow(result: Search.Result, selected: bool)
    | MoreBelowRow
    | Note(text: string)

  const SelectedMark: string := "▶ "
  const PlainMark: string := "  "

  /** What the list shows before any search has results. */
  const NoResultsRows: seq<Row> := [Note("💭 No results yet..."), Blank, Note("Start typing to search!")]

  /** The text of a row as the list displays it. */
  function RowText(row: Row): string
  {
    match row
    case Heading(first, last, total) =>
      "📊 Results " + FormatInt(first) + "-" + FormatInt(last) + " of " + FormatInt(total) + ":"
    case Blank => ""
    case MoreAboveRow => "  ↑ More above ↑"
    case EntryRow(r, selected) => (if selected then SelectedMark else PlainMark) + Label(r)
    case MoreBelowRow => "  ↓ More below ↓"
    case Note(text) => text
  }

  /** An entry row reads as its mark followed by the label: the selection mark exactly when
      the row is selected, and never more than the label limit plus the two-character mark. */
  lemma EntryRowText(r: Search.Result, selected: bool)
    ensures |RowText(EntryRow(r, selected))| <= |SelectedMark| + LabelLimit
    ensures RowText(EntryRow(r, selected))[..2] == (if selected then SelectedMark else PlainMark)
    ensures RowText(EntryRow(r, selected))[2..] == Label(r)
    ensures RowText(EntryRow(r, selected))[0] == '▶' <==> selected
  {
    var t := RowText(EntryRow(r, selected));
    assert t == (if selected then SelectedMark else PlainMark) + Label(r);
  }

  /** A label that fits reads back as the file, a ':' and the decimal digits of the line number. */
  lemma LabelReadsBack(r: Search.Result)
    ensures |r.file| + 1 + |FormatInt(r.line)| <= LabelLimit && r.line >= 0 ==>
      var l := Label(r);
      |l| > |r.file| && l[..|r.file|] == r.file && l[|r.file|] == ':' &&
      IsDigits(l[|r.file| + 1..]) && DigitsValue(l[|r.file| + 1..]) == r.line
  {
    if r.line >= 0 {
      var digits := FormatInt(r.line);
      var l := r.file + ":" + digits;
      FormatIntValue(r.line);
      if |l| <= LabelLimit {
        assert Label(r) == l;
        assert l[..|r.file|] == r.file;
        assert l[|r.file| + 1..] == digits;
      }
    }
  }

  /** The heading reads back as the digits of the first and last positions shown and of the
      number of results, in that order. */
  lemma HeadingReadsBack(first: int, last: int, total: int)
    ensures first >= 0 && last >= 0 && total >= 0 ==>
      exists a, b, c :: IsDigits(a) && IsDigits(b) && IsDigits(c) &&
        DigitsValue(a) == first && DigitsValue(b) == last && DigitsValue(c) == total &&
        RowText(Heading(first, last, total)) == "📊 Results " + a + "-" + b + " of " + c + ":"
  {
    if first >= 0 && last >= 0 && total >= 0 {
      FormatIntValue(first);
      FormatIntValue(last);
      FormatIntValue(total);
      var a, b, c := FormatInt(first), FormatInt(last), FormatInt(total);
      assert RowText(Heading(first, last, total)) == "📊 Results " + a + "-" + b + " of " + c + ":";
    }
  }

  /** The session's state as a value: the query the text input holds, the results of the last
      search, the selection, the scroll offset, the preview, the case mode and the status line. */
  datatype State = State(
    query: string,
    results: seq<Search.Result>,
    selectedIndex: int,
    scrollOffset: int,
    preview: Preview,
    caseInsensitive: bool,
    lastMessage: string)

  /** An empty query has no results; a non-empty result list has the selection in range and
      inside the visible window. */
  predicate Inv(s: State)
  {
    (s.query == "" ==> s.results == []) &&
    0 <= s.selectedIndex && 0 <= s.scrollOffset &&
    (s.results != [] ==>
      s.selectedIndex < |s.results| && s.scrollOffset <= s.selectedIndex < s.scrollOffset + VisibleItems)
  }

  /** The state the session starts in: nothing typed, case-insensitive, the placeholder shown. */
  const Initial: State := State("", [], 0, 0, Placeholder, true, "")

  /** A fresh search for the state's query: its results, the first one selected, the window at
      the top and the preview of the selection. */
  function Refreshed(s: State, env: Env): State
  {
    var rs := env.search(s.query, s.caseInsensitive);
    s.(results := rs, selectedIndex := 0, scrollOffset := 0, preview := PreviewOf(env, rs, 0))
  }

  /** The selection moved to `sel`, the window following it and the status line cleared. */
  function Moved(s: State, sel: int, env: Env): State
    requires 0 <= sel < |s.results|
  {
    s.(selectedIndex := sel, scrollOffset := ScrollFor(sel, s.scrollOffset),
       preview := PreviewOf(env, s.results, sel), lastMessage := "")
  }

  /** The state after `key`, with the working directory seen through `env`; every transition
      keeps the invariant. */
  function Next(s: State, key: Key, env: Env): (t: State)
    requires Inv(s)
    ensures Inv(t)
  {
    match key
    case CtrlC => s
    case CtrlI =>
      var ci := !s.caseInsensitive;
      var toggled := s.(caseInsensitive := ci, lastMessage := ModeMessage(ci));
      if s.query != "" then Refreshed(toggled, env) else toggled
    case Up =>
      if |s.results| > 0 && s.selectedIndex > 0 then Moved(s, s.selectedIndex - 1, env) else s
    case Down =>
      if |s.results| > 0 && s.selectedIndex < |s.results| - 1 then Moved(s, s.selectedIndex + 1, env) else s
    case Enter => s
    case Edit(value) =>
      if value != "" then Refreshed(s.(query := value, lastMessage := ""), env)
      else s.(query := value, results := [], scrollOffset := 0, preview := Placeholder, lastMessage := "")
    case NonKey => s
  }

  /** The arrow keys in isolation: a move when the guard holds, no change otherwise. */
  lemma NextOnArrow(s: State, env: Env)
    requires Inv(s)
    ensures Next(s, Up, env) ==
      if |s.results| > 0 && s.selectedIndex > 0 then Moved(s, s.selectedIndex - 1, env) else s
    ensures Next(s, Down, env) ==
      if |s.results| > 0 && s.selectedIndex < |s.results| - 1 then Moved(s, s.selectedIndex + 1, env) else s
  {
  }

  /** ctrl+i and text edits in isolation: a fresh search when a query remains. */
  lemma NextOnSearchKeys(s: State, value: string, env: Env)
    requires Inv(s)
    ensures var ci := !s.caseInsensitive;
      var toggled := s.(caseInsensitive := ci, lastMessage := ModeMessage(ci));
      Next(s, CtrlI, env) == if s.query != "" then Refreshed(toggled, env) else toggled
    ensures Next(s, Edit(value), env) ==
      if value != "" then Refreshed(s.(query := value, lastMessage := ""), env)
      else s.(query := value, results := [], scrollOffset := 0, preview := Placeholder, lastMessage := "")
  {
  }

  /** What the front end does after `key`: quit on ctrl+c, open the selected match and quit on
      enter when there is one, carry on otherwise. */
  function Response(s: State, key: Key): Outcome
    requires Inv(s)
  {
    match key
    case CtrlC => Quit
    case Enter =>
      if |s.results| > 0 then OpenAndQuit(s.results[s.selectedIndex].file, s.results[s.selectedIndex].line)
      else Continue
    case _ => Continue
  }

  /** The list on screen is what searching the working directory for the query yields in the
      current mode (nothing for an empty query), and a non-empty list is previewed at the
      selected match. */
  predicate Consistent(s: State, env: Env)
    requires Inv(s)
  {
    s.results == (if s.query == "" then [] else env.search(s.query, s.caseInsensitive)) &&
    (s.results != [] ==> s.preview == PreviewOf(env, s.results, s.selectedIndex))
  }

  /** A fresh search leaves the session consistent. */
  lemma RefreshedConsistent(s: State, env: Env)
    requires s.query != ""
    ensures Inv(Refreshed(s, env)) && Consistent(Refreshed(s, env), env)
  {
  }

  /** Moving the selection within a consistent session leaves it consistent. */
  lemma MovedConsistent(s: State, sel: int, env: Env)
    requires Inv(s) && Consistent(s, env) && 0 <= sel < |s.results|
    ensures Inv(Moved(s, sel, env)) && Consistent(Moved(s, sel, env), env)
  {
  }

  /** ctrl+i keeps a consistent session consistent: a fresh search in the new mode, or none
      while the query is empty. */
  lemma ToggleKeepsConsistent(s: State, env: Env)
    requires Inv(s) && Consistent(s, env)
    ensures Consistent(Next(s, CtrlI, env), env)
  {
    var ci := !s.caseInsensitive;
    var toggled := s.(caseInsensitive := ci, lastMessage := ModeMessage(ci));
    NextOnSearchKeys(s, "", env);
    if s.query != "" {
      RefreshedConsistent(toggled, env);
    } else {
      assert toggled.results == [];
    }
  }

  /** The up arrow keeps a consistent session consistent. */
  lemma UpKeepsConsistent(s: State, env: Env)
    requires Inv(s) && Consistent(s, env)
    ensures Consistent(Next(s, Up, env), env)
  {
    NextOnArrow(s, env);
    if |s.results| > 0 && s.selectedIndex > 0 {
      var t := Moved(s, s.selectedIndex - 1, env);
      MovedConsistent(s, s.selectedIndex - 1, env);
      assert Next(s, Up, env) == t;
    } else {
      assert Next(s, Up, env) == s;
    }
  }

  /** The down arrow keeps a consistent session consistent. */
  lemma DownKeepsConsistent(s: State, env: Env)
    requires Inv(s) && Consistent(s, env)
    ensures Consistent(Next(s, Down, env), env)
  {
    NextOnArrow(s, env);
    if |s.results| > 0 && s.selectedIndex < |s.results| - 1 {
      var t := Moved(s, s.selectedIndex + 1, env);
      MovedConsistent(s, s.selectedIndex + 1, env);
      assert Next(s, Down, env) == t;
    } else {
      assert Next(s, Down, env) == s;
    }
  }

  /** An edit of the query keeps a consistent session consistent. */
  lemma EditKeepsConsistent(s: State, value: string, env: Env)
    requires Inv(s) && Consistent(s, env)
    ensures Consistent(Next(s, Edit(value), env), env)
  {
    NextOnSearchKeys(s, value, env);
    if value != "" {
      RefreshedConsistent(s.(query := value, lastMessage := ""), env);
    }
  }

  /** The session starts consistent, and every key keeps it so while the files stay as they are. */
  lemma NextKeepsConsistent(s: State, key: Key, env: Env)
    requires Inv(s) && Consistent(s, env)
    ensures Consistent(Next(s, key, env), env)
    ensures Consistent(Initial, env)
  {
    match key
    case CtrlI => ToggleKeepsConsistent(s, env);
    case Up => UpKeepsConsistent(s, env);
    case Down => DownKeepsConsistent(s, env);
    case Edit(value) => EditKeepsConsistent(s, value, env);
    case _ => assert Next(s, key, env) == s;
  }

  /** The working directory is searched whatever it is called: the walk names it ".", which is
      not pruned, so even a session run inside a directory named "build" searches its files. */
  lemma WorkingDirectoryNeverPruned(query: string, caseInsensitive: bool, fs: Search.Node, name: string)
    ensures SessionSearch(query, caseInsensitive, fs) == SessionSearch(query, caseInsensitive, fs.(name := name))
    ensures fs.Dir? ==> forall e | e in Search.Files(".", [], fs) :: |e.ancestors| > 0 && e.ancestors[0] == "."
    ensures !Search.Pruned(Base("."))
  {
    assert Base(".") == ".";
    if fs.Dir? {
      assert [] + [Base(".")] == ["."];
      assert Search.Files(".", [], fs) == Search.ChildFiles(".", ["."], fs.children);
      Search.ChildFilesKeepAncestors(".", ["."], fs.children);
    }
  }

  /** In a consistent state, at most 50 results are listed, and each is a match reported by a
      file of the working directory that lies under no pruned directory and is not binary. */
  lemma ListedResultsAreMatches(s: State, fs: Search.Node, r: Search.Result)
    requires Inv(s) && Consistent(s, EnvOf(fs))
    ensures |s.results| <= SessionMaxResults
    ensures r in s.results ==> exists e :: (e in Search.Files(".", [], fs) && e.path == r.file &&
      (forall a | a in e.ancestors :: !Search.Pruned(a)) && !Search.IsBinary(e.path, e.data) &&
      r in Search.FileMatches(s.query, e.path, e.data, SessionOptions(s.caseInsensitive)))
  {
    if r in s.results {
      Search.ResultsComeFromEligibleFiles(s.query, ".", fs, SessionOptions(s.caseInsensitive), r);
    }
  }

  /** up and down move the selection by one when there is a result in that direction and leave
      the state alone otherwise; the window follows by at most one row, and the list, the query
      and the mode stay as they are. */
  lemma ArrowKeysMoveByOne(s: State, key: Key, env: Env)
    requires Inv(s) && (key == Up || key == Down)
    ensures var t := Next(s, key, env);
      var d := if key == Up then -1 else 1;
      var canMove := 0 <= s.selectedIndex + d < |s.results|;
      t.results == s.results && t.query == s.query && t.caseInsensitive == s.caseInsensitive &&
      (canMove ==>
        t.selectedIndex == s.selectedIndex + d && Dist(t.scrollOffset, s.scrollOffset) <= 1 && t.lastMessage == "") &&
      (!canMove ==> t == s)
  {
  }

  /** ctrl+i twice restores the mode, and the list is then again the search in the original mode. */
  lemma ToggleTwiceRestoresMode(s: State, env: Env)
    requires Inv(s) && Consistent(s, env)
    ensures var t := Next(Next(s, CtrlI, env), CtrlI, env);
      t.caseInsensitive == s.caseInsensitive && t.query == s.query && t.results == s.results &&
      t.lastMessage == ModeMessage(s.caseInsensitive)
  {
  }

  /** enter opens the selected match and quits exactly when the list is non-empty; the state is
      left as it is. */
  lemma EnterOpensSelection(s: State, env: Env)
    requires Inv(s)
    ensures Next(s, Enter, env) == s
    ensures Response(s, Enter).OpenAndQuit? <==> s.results != []
    ensures s.results != [] ==>
      Response(s, Enter) == OpenAndQuit(s.results[s.selectedIndex].file, s.results[s.selectedIndex].line)
    ensures s.results == [] ==> Response(s, Enter) == Continue
  {
  }

  /** The session model. */
  class Model {
    var query: string
    var results: seq<Search.Result>
    var selectedIndex: int
    var scrollOffset: int
    var preview: Preview
    var caseInsensitive: bool
    var lastMessage: string

    /** The fields as a `State`. */
    function Snapshot(): State
      reads this
    {
      State(query, results, selectedIndex, scrollOffset, preview, caseInsensitive, lastMessage)
    }

    ghost predicate Valid()
      reads this
    {
      Inv(Snapshot())
    }

    constructor InitialModel()
      ensures Snapshot() == Initial && Valid()
    {
      query := "";
      results := [];
      selectedIndex := 0;
      scrollOffset := 0;
      preview := Placeholder;
      caseInsensitive := true;
      lastMessage := "";
    }

    /** One key press: the new state is `Next` of the old one, and the outcome is `Response`. */
    method Update(key: Key, fs: Search.Node) returns (outcome: Outcome)
      requires Valid()
      modifies this
      ensures Valid()
      ensures Snapshot() == Next(old(Snapshot()), key, EnvOf(fs))
      ensures outcome == Response(old(Snapshot()), key)
    {
      outcome := Continue;
      match key
      case CtrlC =>
        outcome := Quit;
      case CtrlI =>
        ToggleCase(fs);
      case Up =>
        MoveUp(EnvOf(fs));
      case Down =>
        MoveDown(EnvOf(fs));
      case Enter =>
        if |results| > 0 {
          var selected := results[selectedIndex];
          outcome := OpenAndQuit(selected.file, selected.line);
        }
      case Edit(value) =>
        EditQuery(value, fs);
      case NonKey =>
    }

    /** ctrl+i: flips the case mode, announces it, and searches again when there is a query. */
    method ToggleCase(fs: Search.Node)
      requires Valid()
      modifies this
      ensures Snapshot() == Next(old(Snapshot()), CtrlI, EnvOf(fs))
    {
      NextOnSearchKeys(Snapshot(), "", EnvOf(fs));
      caseInsensitive := !caseInsensitive;
      lastMessage := ModeMessage(caseInsensitive);
      if query != "" {
        Refresh(fs);
      }
    }

    /** up / ctrl+k: selects the previous result when there is one. */
    method MoveUp(env: Env)
      requires Valid()
      modifies this
      ensures Snapshot() == Next(old(Snapshot()), Up, env)
    {
      ghost var before := Snapshot();
      NextOnArrow(before, env);
      if |results| > 0 && selectedIndex > 0 {
        selectedIndex := selectedIndex - 1;
        AdjustScroll();
        UpdatePreview(env);
        lastMessage := "";
        assert Snapshot() == Moved(before, before.selectedIndex - 1, env);
      }
    }

    /** down / ctrl+j: selects the next result when there is one. */
    method MoveDown(env: Env)
      requires Valid()
      modifies this
      ensures Snapshot() == Next(old(Snapshot()), Down, env)
    {
      ghost var before := Snapshot();
      NextOnArrow(before, env);
      if |results| > 0 && selectedIndex < |results| - 1 {
        selectedIndex := selectedIndex + 1;
        AdjustScroll();
        UpdatePreview(env);
        lastMessage := "";
        assert Snapshot() == Moved(before, before.selectedIndex + 1, env);
      }
    }

    /** Any other key: the text input now holds `value`; search for it, or clear the results
        when it is empty. */
    method EditQuery(value: string, fs: Search.Node)
      requires Valid()
      modifies this
      ensures Snapshot() == Next(old(Snapshot()), Edit(value), EnvOf(fs))
    {
      NextOnSearchKeys(Snapshot(), value, EnvOf(fs));
      query := value;
      if query != "" {
        Refresh(fs);
        lastMessage := "";
      } else {
        results := [];
        scrollOffset := 0;
        preview := Placeholder;
        lastMessage := "";
      }
    }

    /** Searches the working directory for the query in the current mode, selects the first
        result with the window at the top, and previews it. */
    method Refresh(fs: Search.Node)
      modifies this
      ensures Snapshot() == Refreshed(old(Snapshot()), EnvOf(fs))
    {
      results := Search.SearchFiles(query, ".", fs, SessionOptions(caseInsensitive));
      assert results == EnvOf(fs).search(query, caseInsensitive);
      selectedIndex := 0;
      scrollOffset := 0;
      UpdatePreview(EnvOf(fs));
    }

    /** Moves the window the least distance that brings the selection into view. */
    method AdjustScroll()
      modifies this`scrollOffset
      ensures scrollOffset == ScrollFor(selectedIndex, old(scrollOffset))
    {
      if selectedIndex >= scrollOffset + VisibleItems {
        scrollOffset := selectedIndex - VisibleItems + 1;
      }
      if selectedIndex < scrollOffset {
        scrollOffset := selectedIndex;
      }
      if scrollOffset < 0 {
        scrollOffset := 0;
      }
    }

    /** Rebuilds the preview of the selected match. */
    method UpdatePreview(env: Env)
      requires results != [] ==> 0 <= selectedIndex < |results|
      modifies this`preview
      ensures preview == PreviewOf(env, results, selectedIndex)
    {
      if |results| == 0 {
        preview := NoMatches;
        return;
      }
      var selected := results[selectedIndex];
      var contextLines := GetFileContext(env, selected.file, selected.line, ContextRadius);
      if |contextLines| > 0 {
        var startLine := selected.line - 1;
        if startLine < 1 {
          startLine := 1;
        }
        var numbered := NumberLines(contextLines, startLine, selected.line);
        assert startLine == Max(1, selected.line - ContextRadius);
        preview := Glimpse(selected.file, selected.line, numbered, selectedIndex + 1, |results|);
        assert preview == PreviewOf(env, results, selectedIndex) by {
          assert ContextLines(env, selected.file, selected.line, ContextRadius) == contextLines != [];
        }
      } else {
        preview := MatchOnly(selected.file, selected.line, selected.content, selectedIndex + 1, |results|);
        assert preview == PreviewOf(env, results, selectedIndex) by {
          assert ContextLines(env, selected.file, selected.line, ContextRadius) == contextLines == [];
        }
      }
    }

    /** Reads lines targetLine - contextSize through targetLine + contextSize of `filename`,
        starting no earlier than line 1 and stopping at the end of the file; nothing when the
        file cannot be opened. */
    method GetFileContext(env: Env, filename: string, targetLine: int, contextSize: int) returns (lines: seq<string>)
      ensures lines == ContextLines(env, filename, targetLine, contextSize)
      ensures contextSize >= 0 ==> |lines| <= 2 * contextSize + 1
    {
      lines := [];
      var file := env.open(filename);
      if file.None? || !file.value.readable {
        return;
      }
      var all := file.value.lines;
      var startLine := targetLine - contextSize;
      if startLine < 1 {
        startLine := 1;
      }
      var endLine := targetLine + contextSize;
      var lineNum := 1;
      while lineNum <= |all|
        invariant 1 <= lineNum <= |all| + 1
        invariant lines == Span(all, startLine, Min(lineNum - 1, endLine))
      {
        if lineNum >= startLine && lineNum <= endLine {
          SpanSnoc(all, startLine, lineNum - 1);
          lines := lines + [all[lineNum - 1]];
        }
        if lineNum > endLine {
          assert Min(lineNum - 1, endLine) == Min(endLine, |all|);
          break;
        }
        lineNum := lineNum + 1;
      }
      assert startLine == Max(1, targetLine - contextSize);
      assert lines == Window(all, targetLine, contextSize);
    }

    /** The result list as displayed: a heading with the range shown, the "more above" row in
        place of the blank line when scrolled, at most six entries from the scroll offset with
        exactly the selected one marked, and a "more below" row when entries follow. */
    method RenderResults() returns (rows: seq<Row>)
      requires Valid()
      ensures results == [] ==> rows == NoResultsRows
      ensures results != [] ==>
        var shown := Min(VisibleItems, |results| - scrollOffset);
        |rows| == 2 + shown + (if scrollOffset + VisibleItems < |results| then 1 else 0) &&
        rows[0] == Heading(scrollOffset + 1, Min(scrollOffset + VisibleItems, |results|), |results|) &&
        rows[1] == (if scrollOffset > 0 then MoreAboveRow else Blank) &&
        (forall k :: 2 <= k < 2 + shown ==>
          rows[k] == EntryRow(results[scrollOffset + k - 2], scrollOffset + k - 2 == selectedIndex)) &&
        (scrollOffset + VisibleItems < |results| ==> rows[|rows| - 1] == MoreBelowRow)
      ensures results != [] ==>
        rows[2 + selectedIndex - scrollOffset] == EntryRow(results[selectedIndex], true) &&
        forall k :: 0 <= k < |rows| && rows[k].EntryRow? && rows[k].selected ==> k == 2 + selectedIndex - scrollOffset
    {
      if |results| == 0 {
        return NoResultsRows;
      }
      var totalResults := |results|;
      var startIdx := scrollOffset + 1;
      var endIdx := scrollOffset + VisibleItems;
      if endIdx > totalResults {
        endIdx := totalResults;
      }
      rows := [Heading(startIdx, endIdx, totalResults), Blank];
      var i := 0;
      while i < VisibleItems && scrollOffset + i < |results|
        invariant 0 <= i <= Min(VisibleItems, |results| - scrollOffset)
        invariant |rows| == 2 + i
        invariant rows[0] == Heading(startIdx, endIdx, totalResults) && rows[1] == Blank
        invariant forall k :: 2 <= k < 2 + i ==>
          rows[k] == EntryRow(results[scrollOffset + k - 2], scrollOffset + k - 2 == selectedIndex)
      {
        var resultIdx := scrollOffset + i;
        var result := results[resultIdx];
        rows := rows + [EntryRow(result, resultIdx == selectedIndex)];
        i := i + 1;
      }
      if scrollOffset > 0 {
        rows := rows[1 := MoreAboveRow];
      }
      if scrollOffset + VisibleItems < |results| {
        rows := rows + [MoreBelowRow];
      }
      assert rows[2 + selectedIndex - scrollOffset].selected;
    }
  }
}
