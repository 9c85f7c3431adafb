# Glimpse: a verified model of the search engine and the interactive session

Glimpse is a terminal code-search tool. The user types a query. On every keystroke the
program walks the working directory and searches every text file for the query as a plain
substring. It lists up to 50 matches, six at a time, and previews the selected match with one
line of context above and below. Enter opens the match in an editor. This project models the
two parts of the program that carry its logic, and proves what they promise:

- **The search engine** (`search.dfy`, module `Search`):
  - the binary-file classifier: a fixed list of 21 extensions, then a NUL sniff of the first 256 bytes;
  - the per-file line matcher: substring containment, optionally on lower-cased text, at most five matches per file;
  - the tree walk: `filepath.Walk` order, six pruned directory names, a global cap of `maxResults` (0 means 50), and a walk that stops classifying files once the cap is reached.

  The file system is a value: a `Node` tree whose directories list their entries in walk order. As with `info.Name()`, the walk knows each directory by the base of its path, so the root is named after the path the walk starts from. In a session that is ".", and the working directory is never pruned, whatever it is called. Each file carries its lines, its leading bytes and whether it can be opened. The walk is a `Walker` class whose `results` field grows and is truncated as in the source. Its result is proved equal to a reference definition, `Found`: the first `maxResults` of the concatenated matches of all eligible files in walk order.
- **The interactive session** (`tui.dfy`, module `Tui`):
  - the `Model` class with its fields;
  - `Update` per key intent;
  - `adjustScroll`, `updatePreview` (line numbering and start-line clamp), `getFileContext` and `renderResults`.

  `Update` is proved against a pure transition function, `Next`, over a `State` value. `Next` reads the working directory through an `Env` value: the search it runs and the file reads of the preview. The class instantiates it with the model's own search and file tree, and the consistency lemmas hold for any `Env`. `Next` keeps the session invariant. A consistency predicate is preserved by every key: the list is the search of the query in the current mode, and the preview shows the selected match.
- **Support modules**:
  - `text.dfy` (`Text`): `strings.Contains`, ASCII `strings.ToLower` and `%d` formatting;
  - `filepath.dfy` (`FilePath`): `filepath.Ext`, `filepath.Base`, and `filepath.Join` onto the working directory.

Where the code and its design description disagree, the model follows the code:
- A text edit that empties the query clears the results, the scroll offset and the status line. It does **not** reset the selection index, although the design says the selection is reset to 0 (`internal/tui/model.go:150-155`). The invariant proved therefore bounds the selection only when results exist.
- When the up/down guard fails, the state is left entirely unchanged, including the status line. The design says the status line is cleared.
- ctrl+i names the new mode in the status line even when the query is empty.
- A cap of 0 means 50 (`internal/search/search.go:32-35`). The one-shot front end's comment reads 0 as "no limit"; the model follows the search code.

## Model

| member | source | states |
|---|---|---|
| Text.ContainsIffOccurs | internal/search/search.go:106 | the recursive substring test holds exactly when the pattern occurs at some index of the line |
| Text.ToLowerAt | internal/search/search.go:101-104 | lower-casing keeps the length and maps each character to its lower-case form in place |
| Text.FormatNatValue | internal/tui/model.go:308 | the digits %d prints for a non-negative number denote that number, with a leading zero only for 0 itself |
| Text.FormatIntValue | internal/tui/model.go:314 | %d prints a non-negative number as its digits and a negative one as '-' followed by the digits of its magnitude |
| FilePath.BaseOfName | internal/search/search.go:42 | the name the walk reports for an entry, the base of its path, is the name its directory lists it under |
| FilePath.ExtIsFinalSuffix | internal/search/search.go:120 | the extension is the suffix from the last '.' of the final path element, with no further '.' or '/', and is empty when no '.' lies in the final element |
| Search.ListedIff | internal/search/search.go:128-132 | the scan over the extension list succeeds exactly when the extension is one of the 21 listed |
| Search.ListedExtensionIsBinary | internal/search/search.go:120-132 | a listed extension, in any letter case, makes a file binary whatever its contents |
| Search.SniffDecides | internal/search/search.go:134-152 | any other file is binary exactly when it cannot be opened, is empty (the read fails with end-of-file), or has a NUL among its first 256 bytes |
| Search.IsBinaryFile | internal/search/search.go:119-153 | the extension loop and the NUL loop return true exactly when the file is binary in the above sense |
| Search.MatchingLinesSound | internal/search/search.go:92-113 | every match carries the file name, a 1-based line number within the file, the original (not lower-cased) text of that line, and that line matches; line numbers strictly increase |
| Search.MatchingLinesComplete | internal/search/search.go:94-113 | every matching line appears among the matches under its 1-based number |
| Search.MatchingLinesPrefix | internal/search/search.go:94-114 | scanning more lines only appends matches |
| Search.EmptyPatternMatchesEveryLine | internal/search/search.go:86-106 | an empty pattern matches every line, in both modes, numbered 1 to n |
| Search.FirstMatchesReported | internal/search/search.go:94-113 | a readable file yields exactly the first min(5, k) of its k matching lines, faithfully and in increasing line order |
| Search.NoMatchSkipped | internal/search/search.go:94-113 | no matching line before the last reported one is left out |
| Search.FileMatchesStep | internal/search/search.go:99-113 | below five matches, scanning one more line appends its match if it has one |
| Search.FileMatchesSaturated | internal/search/search.go:95-97 | once five matches are held, the remaining lines change nothing, so the early break is safe |
| Search.SearchFile | internal/search/search.go:77-117 | the loop returns the first five matches of the file, and nothing for a file that cannot be opened |
| Search.PrunedDirContributesNothing | internal/search/search.go:42-47 | nothing under a directory whose reported name (the base of its path) is .git, node_modules, .vscode, target, build or dist is eligible |
| Search.FilesKeepAncestors | internal/search/search.go:37 | every file below a directory records that directory's reported name among its ancestors |
| Search.GatheredFile | internal/search/search.go:58-68 | a file contributes its matches unless the classifier rejects it |
| Search.WalkChildrenNext | internal/search/search.go:64-68 | walking one more entry of a directory appends that entry's matches and truncates to the cap |
| Search.WalkChildrenStop | internal/search/search.go:51-55 | once the cap is held, skipping the rest of a directory loses no result |
| Search.ResultsComeFromEligibleFiles | internal/search/search.go:42-62 | every result of a search is a reported match of a file under no pruned directory that the classifier accepts |
| Search.Walker.constructor | internal/search/search.go:29-35 | the walk starts with an empty result list and the given cap |
| Search.Walker.Visit | internal/search/search.go:37-72 | the callback prunes a directory whose reported name, the base of its path, is one of the six, answers SkipDir for a file once the cap is reached without classifying it, and otherwise appends the file's matches, truncated to the cap |
| Search.Walker.Walk | internal/search/search.go:37-72 | walking a tree appends the matches of its eligible files in walk order, truncated to the cap; the list never exceeds the cap, no file is classified once the cap is reached, and SkipDir comes back only from a pruned directory or once the cap is held |
| Search.Walker.WalkChildren | internal/search/search.go:37-72 | the entries of a directory, walked in order, append their eligible matches truncated to the cap; the directory answers SkipDir only once the cap is held and only when it has a file entry, which is how a file's SkipDir ends its directory |
| Search.SearchFiles | internal/search/search.go:28-75 | the result is the first maxResults matches of the eligible files in walk order, with 0 meaning 50; never more than the cap, none for a negative cap |
| Tui.ScrollFor | internal/tui/model.go:163-175 | for a non-negative selection the new offset puts the selection inside the six-row window, and an offset already showing it is kept |
| Tui.ScrollForMinimal | internal/tui/model.go:163-175 | the window moves no further than any other offset that shows the selection |
| Tui.Model.AdjustScroll | internal/tui/model.go:163-175 | the three conditional assignments compute the offset ScrollFor describes |
| Tui.Window | internal/tui/model.go:231-245 | the context holds at most 2c+1 lines, and at least one when the target line exists |
| Tui.WindowNumbering | internal/tui/model.go:193-205 | numbering the context from the clamped start line gives each line its true line number within c of the target, and marks exactly the target line |
| Tui.NumberedAt | internal/tui/model.go:198-204 | the i-th numbered line has number start + i and the i-th context line's text |
| Tui.NumberLines | internal/tui/model.go:193-205 | the numbering loop builds the numbered context |
| Tui.Model.GetFileContext | internal/tui/model.go:220-248 | the scanning loop returns lines max(1, t-c) through t+c clipped at the end of the file, at most 2c+1 of them, and nothing when the file cannot be opened |
| Tui.PreviewOfReadable | internal/tui/model.go:183-205 | when the selected match's file can be read, the preview is its numbered context window |
| Tui.PreviewHighlightsMatch | internal/tui/model.go:183-215 | when the matched line is still in its file, the preview reports "Result k of n", numbers every context line truly, and highlights exactly one line: the matched one |
| Tui.Model.UpdatePreview | internal/tui/model.go:177-218 | the preview is "no matches" for an empty list, the numbered context of the selected match, or the match alone when no context can be read |
| Tui.Shorten | internal/tui/model.go:314-318 | a label is at most 45 characters, is unchanged when it fits, and is otherwise its first 42 characters followed by "..." |
| Tui.EntryRowText | internal/tui/model.go:314-324 | an entry row is the two-character mark followed by the label, begins with "▶" exactly when it is selected, and is at most 47 characters |
| Tui.LabelReadsBack | internal/tui/model.go:314-318 | a label that fits reads back as the file name, ':' and the digits of the line number |
| Tui.HeadingReadsBack | internal/tui/model.go:308 | the heading reads back as the digits of the first and last positions shown and of the total, in that order |
| Tui.Model.RenderResults | internal/tui/model.go:294-337 | the list shows a heading with scrollOffset+1 to min(scrollOffset+6, total) of total, "more above" in place of the blank line when scrolled, at most six entries from the scroll offset, "more below" when entries follow, and exactly one selected entry: the one at the selection index |
| Tui.Next | internal/tui/model.go:98-161 | every transition keeps the invariant: an empty query has no results, and a non-empty list has the selection in range and inside the window |
| Tui.RefreshedConsistent | internal/tui/model.go:142-149 | the state after a fresh search for a non-empty query keeps the invariant and is consistent: the list is the search of the query and the preview shows the selection |
| Tui.MovedConsistent | internal/tui/model.go:118-131 | moving the selection keeps the list and re-previews the new selection |
| Tui.ToggleKeepsConsistent | internal/tui/model.go:104-117 | after ctrl+i the list is the search in the new mode, or empty while there is no query, and the preview shows the selection |
| Tui.UpKeepsConsistent | internal/tui/model.go:118-124 | after up the list is unchanged and the preview shows the selection |
| Tui.DownKeepsConsistent | internal/tui/model.go:125-131 | after down the list is unchanged and the preview shows the selection |
| Tui.EditKeepsConsistent | internal/tui/model.go:138-157 | after an edit the list is the search of the new query, or empty when the query is empty, and the preview shows the selection |
| Tui.NextKeepsConsistent | internal/tui/model.go:98-161 | the session starts consistent, and after any key the list is the search of the query in the current mode and the preview shows the selected match |
| Tui.WorkingDirectoryNeverPruned | internal/search/search.go:37-47 | the session's search does not depend on the name of the working directory: the walk reports it as ".", which is not pruned, and every file found lies below it |
| Tui.ListedResultsAreMatches | internal/tui/model.go:142-149 | a consistent session lists at most 50 results, each a reported match of an eligible file of the working directory |
| Tui.ArrowKeysMoveByOne | internal/tui/model.go:118-131 | up/down move the selection by exactly one when the guard holds, move the window by at most one row, and clear the status line; otherwise nothing changes, the status line included |
| Tui.ToggleTwiceRestoresMode | internal/tui/model.go:104-117 | ctrl+i twice restores the mode and the list, and the status line names the mode in force |
| Tui.EnterOpensSelection | internal/tui/model.go:132-137 | enter opens the selected match and quits exactly when the list is non-empty, and leaves the state unchanged |
| Tui.Model.InitialModel | internal/tui/model.go:75-92 | the session starts with nothing typed, no results, case-insensitive mode and the placeholder preview |
| Tui.Model.Update | internal/tui/model.go:98-161 | one key press moves the fields to Next of the old state and answers Response: quit on ctrl+c, open and quit on enter with results, carry on otherwise |
| Tui.Model.ToggleCase | internal/tui/model.go:104-117 | ctrl+i flips the mode, names it in the status line, and searches again only when there is a query |
| Tui.Model.MoveUp | internal/tui/model.go:118-124 | up selects the previous result, re-windows, re-previews and clears the status line, only when the guard holds |
| Tui.Model.MoveDown | internal/tui/model.go:125-131 | down selects the next result under the symmetric guard |
| Tui.Model.Refresh | internal/tui/model.go:142-147 | a search for the query in the current mode with a cap of 50 replaces the list, selects the first result, puts the window at the top and previews the selection |
| Tui.Model.EditQuery | internal/tui/model.go:138-157 | an edit that leaves a query searches afresh; one that empties it clears results, scroll, preview and status line but keeps the selection index |

## Left out

- File-system errors during the walk (the error callback that returns nil) are not modelled: every directory of the tree can be listed.
- Symbolic links, `filepath.Clean` of the root path, and paths other than slash-separated ones are not modelled: `Join` only special-cases the working directory ".".
- Reading files is a parameter: each file is given as its lines, its leading bytes and whether it opens. `bufio.Scanner`'s splitting details are not modelled: `\r` stripping and the 64 KiB line limit that ends a scan early.
- The file system does not change between opening a file in the search and re-opening it for the preview: both read the same `Node` tree.
- `strings.ToLower` is modelled for ASCII letters only; other Unicode case mappings are not modelled.
- Strings are modelled as sequences of characters, not of bytes. `strings.Contains` compares bytes, and `strings.ToLower` replaces invalid UTF-8 bytes with U+FFFD. Neither difference is modelled, so a file that is not valid UTF-8 is matched as if each byte were a character.
- Tui.Shorten: measures the 45/42 limits in characters, whereas the source measures UTF-8 bytes and can cut a multi-byte character.
- The mutex in `SearchFiles` is left out, because `filepath.Walk` calls the callback sequentially.
- Rendering is left out: styles, `View`, the emoji and box-drawing preview text, the `textinput` and `viewport` widgets, the joining of rows into one string and bubbletea's command plumbing. The preview and the result list are modelled as structured values (`Preview`, `Row`).
- Key decoding is left out: each key press arrives as an intent, and `Edit(value)` carries the query the text input holds after the key.
- Opening the editor (`internal/tui/editor.go`) is not part of this model: enter yields an `OpenAndQuit` outcome naming the file and line.
- The one-shot command-line front end (`cmd/main.go`) is not part of this model.
- Integer widths are not modelled: line numbers, counts and offsets are unbounded integers, which only matters beyond 2^63 lines.
