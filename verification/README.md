# Notes workspace core, modelled in Dafny

This project models the logic core of a note-taking web app whose notes live
in Google Docs. The app keeps a session of open notes in tabs, and has a
command palette, a left sidebar (folder tree and search) and a right
sidebar (outline of headings). The model covers four parts:

- **Session state** (`AppContext`, `app_context.dfy`) is the application
  context provider: the note list, the tab list, the active-tab slot, the
  error message, the loading and authentication flags, and the panel
  flags. It is modelled as the class `AppState`, one method per operation.
  Every remote call (listing, reading, saving, creating a document) is a
  parameter holding its settled `Outcome`, so each asynchronous operation
  is one atomic transition.
  - The `map`/`find` computations of the operations are pure functions:
    `Open`, `SetActive`, `SaveIntoNotes` and `SaveIntoTabs`.
  - The session invariant `Coherent` says three things. Tabs are named
    after their notes. No note is open twice. A non-empty tab list has
    exactly one active tab and the slot names it; an empty list goes with
    an empty slot.
  - `closeTab` is imperative: it splices the list and sets one flag in
    place.
- **Command palette** (`CommandPalette`, `command_palette.dfy`):
  - the item list for a query: three fixed commands, then the notes;
  - the cursor the arrow keys move. JavaScript's `%` with a zero divisor
    gives NaN, so the cursor is `Index(i)` or `NaN`;
  - what choosing an item asks of the session.
- **Left sidebar** (`LeftSidebar`, `left_sidebar.dfy`):
  - grouping the notes into folder buckets, with `'root'` for notes
    without a folder. This is a loop with an invariant, proved equal to
    the dictionary `Group`;
  - the case-insensitive search over the buckets, again a loop proved
    equal to `FilterFolders`;
  - the expanded/collapsed map of each folder.
- **Right sidebar** (`RightSidebar`, `right_sidebar.dfy`) is the outline.
  The content is split on `'\n'`, and every line matching
  `^(#{1,6})\s+(.+)$` gives a heading: its level is the number of `'#'`,
  its text is the trimmed second group.
  - The regular expression is an explicit function, `MatchHeading`, proved
    equal to a reference predicate, `MatchesAt`. That predicate says the
    line splits into 1 to 6 `'#'`, at least one whitespace character, and
    at least one further character that is not a line terminator.
  - `.` does not match a line terminator. So a line ending in a carriage
    return is never a heading.

Shared helpers:

- `Wrappers`: `Option`, and `Outcome` (a remote call that settled with a
  value, or failed).
- `Lists`: `Filter`, `FindIndex` and the subsequence relation.
- `Text`: lower-casing, `includes`, the JavaScript whitespace class with
  `trim`, and `split` on one character.

## Behaviour kept as the code has it

Some of what the code does is easy to miss; the model keeps it:

- `setActiveTab` with an id that names no tab is not a no-op. Every tab
  becomes inactive and the active-tab slot is emptied.
  `AppContext.SetActiveUnknownLosesActiveTab` shows that this breaks the
  one-active-tab invariant of a non-empty session.
- `openNote` reads the document first, and only then looks the note up.
  So "Note not found" is reported after a read, not instead of one.
- Editing saves first, and changes local state only when the save
  succeeded. There is no debounce and no optimistic update. The
  active-tab slot is not refreshed and keeps its old copy of the note.
- `createNewNote` appends the note, then opens it against the note list
  as it was before the append. A note that is new to the session
  therefore gets no tab: the open reports "Note not found", or "Failed to
  open note" when the read failed.
- `authenticate` marks the session authenticated even when listing fails,
  because `refreshFiles` reports its own failure and does not throw. The
  message "Failed to authenticate with Google Drive" is never set.
- The code has no logout operation, no in-flight guard against two opens
  of one note, and no separate opening or saving flag.
- Error messages are the code's exact strings.

## Model

| member | source | states |
|---|---|---|
| Lists.Filter | src/components/CommandPalette.tsx:37-38 | `Array.prototype.filter`: every kept element is in the input and satisfies the predicate, every satisfying element is kept, never longer than the input |
| Lists.FilterIsSubsequence | src/components/LeftSidebar.tsx:42-45 | filtering keeps the relative order: the result is a subsequence of the input |
| Lists.FilterSnoc | src/components/LeftSidebar.tsx:18 | filtering a list with one more element at the end adds that element at the end exactly when it satisfies the predicate |
| Lists.FindIndex | src/context/AppContext.tsx:162 | `findIndex`: the first index satisfying the predicate, or -1 when no element does |
| Text.Lower | src/components/CommandPalette.tsx:34 | `toLowerCase` (ASCII letters): same length, each character lower-cased, no upper-case letter left |
| Text.Contains | src/components/CommandPalette.tsx:38 | `includes`: true exactly when the substring occurs at some position |
| Text.LowerKeepsContains | src/components/CommandPalette.tsx:38-46 | if the text contains the query exactly, it still does after both are lower-cased: the case-insensitive search finds everything the exact one finds |
| Text.LeadingRun | src/components/RightSidebar.tsx:13 | length of the longest prefix whose characters satisfy a predicate (what a greedy `#{..}` or `\s+` consumes) |
| Text.IsSpace | src/components/RightSidebar.tsx:13-17 | the `\s` class, which is also what `trim` removes: the ECMAScript white-space characters (tab, vertical tab, form feed, space, no-break space, the Unicode space separators, the byte-order mark) and the four line terminators |
| Text.TrimStart | src/components/RightSidebar.tsx:17 | removes a whitespace-only prefix and nothing else |
| Text.TrimEnd | src/components/RightSidebar.tsx:17 | removes a whitespace-only suffix and nothing else |
| Text.Trim | src/components/RightSidebar.tsx:17 | `trim`: the result is a slice of the input with only whitespace around it |
| Text.TrimStartStopsAtText | src/components/RightSidebar.tsx:17 | what `trimStart` leaves does not start with whitespace |
| Text.TrimEndStopsAtText | src/components/RightSidebar.tsx:17 | what `trimEnd` leaves does not end with whitespace |
| Text.TrimHasNoOuterSpace | src/components/RightSidebar.tsx:17 | what `trim` leaves neither starts nor ends with whitespace |
| Text.TrimStartSkipsSpace | src/components/RightSidebar.tsx:17 | whitespace in front of a string does not change what `trimStart` gives |
| Text.TrimSkipsLeadingSpace | src/components/RightSidebar.tsx:17 | whitespace in front of a string does not change what `trim` gives |
| Text.TrimAfterSpaces | src/components/RightSidebar.tsx:17 | trimming from after a run of whitespace gives the same as trimming from its start |
| Text.TrimAllSpace | src/components/RightSidebar.tsx:17 | a whitespace-only string trims to the empty string |
| Text.Split | src/components/RightSidebar.tsx:10 | `split` on one character: at least one part, and no part contains the separator |
| Text.JoinSplit | src/components/RightSidebar.tsx:10 | joining the parts with the separator gives back the input |
| Text.SplitJoin | src/components/RightSidebar.tsx:10 | splitting a join of separator-free parts gives back the parts |
| Text.SplitCount | src/components/RightSidebar.tsx:10 | the number of parts is the number of separators plus one |
| AppContext.TabIdInjective | src/context/AppContext.tsx:142 | tab ids `"tab-" + note id` are equal exactly when the note ids are |
| AppContext.TabIdFor | src/context/AppContext.tsx:142 | the tab of a note is named `"tab-"` followed by the note id |
| AppContext.FindNote | src/context/AppContext.tsx:134 | `notes.find` by id: none exactly when no note has the id, otherwise the first note of the list with that id |
| AppContext.TabOfNote | src/context/AppContext.tsx:122 | the first tab showing the note, or -1 when no tab does |
| AppContext.TabIndex | src/context/AppContext.tsx:162 | the first tab with the id, or -1 when no tab has it |
| AppContext.MarkActive | src/context/AppContext.tsx:180-183 | same tabs in the same order, with the same notes; a tab is active exactly when its id is the given one |
| AppContext.Deactivated | src/context/AppContext.tsx:147-150 | same tabs in the same order, with the same notes, none active |
| AppContext.Open | src/context/AppContext.tsx:119-159 | `openNote`. An existing tab: no read, the same tabs in order, exactly that tab active, and the slot holds it. A failed read: tabs and slot unchanged, error "Failed to open note". A read of a note missing from the list: unchanged, error "Note not found". Otherwise exactly one tab is appended (id `"tab-"+id`, the note's fields with the content read), it is the only active tab and fills the slot |
| AppContext.SetActive | src/context/AppContext.tsx:179-189 | `setActiveTab`: same tabs in order, with the same notes; active exactly when the id matches; the slot holds the matching tab, or is empty with every tab inactive when no tab matches |
| AppContext.SaveIntoNotes | src/context/AppContext.tsx:211-215 | same length. Notes with the id get the new content and timestamp, with every other field kept; all other notes are unchanged |
| AppContext.SaveIntoTabs | src/context/AppContext.tsx:218-224 | same length. Tabs showing the note get the new content and timestamp in their note, with their id, flag and other fields kept; all other tabs are unchanged |
| AppContext.OpenKeepsCoherent | src/context/AppContext.tsx:119-159 | opening a note keeps the session invariant: no note in two tabs, exactly one active tab named by the slot |
| AppContext.SetActiveKeepsCoherent | src/context/AppContext.tsx:179-189 | activating a tab that exists keeps the session invariant |
| AppContext.SetActiveUnknownLosesActiveTab | src/context/AppContext.tsx:180-188 | activating an unknown id in a non-empty session empties the slot and leaves no tab active |
| AppContext.SaveKeepsCoherent | src/context/AppContext.tsx:218-224 | a confirmed save keeps the session invariant |
| AppContext.ReopenReadsNothing | src/context/AppContext.tsx:122-131 | opening a note again after it got its tab reads nothing and adds no tab |
| AppContext.RemoveAt | src/context/AppContext.tsx:165-166 | `splice(i, 1)` on a copy: one element fewer; the others keep their relative order |
| AppContext.RemoveKeepsWellFormed | src/context/AppContext.tsx:165-166 | removing a tab keeps tabs named after their notes, with no note twice |
| AppContext.CloseActiveKeepsOneActive | src/context/AppContext.tsx:168-171 | closing the only active tab and flagging one remaining tab leaves that tab the only active one |
| AppContext.CloseInactiveKeepsOneActive | src/context/AppContext.tsx:168-176 | closing an inactive tab keeps the active tab the only active one, at its shifted index |
| AppContext.CloseKeepsCoherent | src/context/AppContext.tsx:161-177 | whichever way `closeTab` ends (successor flagged, list emptied, or flags kept), the tab list stays well formed with one active tab named by the slot |
| AppContext.AppState.constructor | src/context/AppContext.tsx:65-74 | the initial state: no notes, no tabs, empty slot, left sidebar open, others closed, loading, no error |
| AppContext.AppState.Initialize | src/context/AppContext.tsx:76-88 | the mount effect: loading ends, and a failed client start sets "Failed to initialize Google Drive" |
| AppContext.AppState.RefreshFiles | src/context/AppContext.tsx:90-102 | success replaces the notes wholesale and clears the error; failure keeps the notes and sets "Failed to refresh files"; not loading afterwards |
| AppContext.AppState.Authenticate | src/context/AppContext.tsx:104-117 | refreshes as above, then the session is authenticated and not loading, even when the listing failed |
| AppContext.AppState.OpenNote | src/context/AppContext.tsx:119-159 | the new tabs, slot and error are those of `Open` on the current notes; reports whether a read happened; keeps the session invariant |
| AppContext.AppState.CloseTab | src/context/AppContext.tsx:161-177 | An unknown id changes nothing. Otherwise the tab is spliced out. If it was active and tabs remain, the tab at `min(index, length-1)` is flagged active in place and fills the slot. If no tab remains the slot is emptied. Otherwise flags and slot are kept. The session invariant is preserved |
| AppContext.AppState.SetActiveTab | src/context/AppContext.tsx:179-189 | tabs and slot become those of `SetActive`; the invariant is kept when the id names a tab |
| AppContext.AppState.ToggleLeftSidebar | src/context/AppContext.tsx:191-193 | negates the left sidebar flag and nothing else |
| AppContext.AppState.ToggleRightSidebar | src/context/AppContext.tsx:195-197 | negates the right sidebar flag and nothing else |
| AppContext.AppState.ToggleCommandPalette | src/context/AppContext.tsx:199-201 | negates the palette flag and nothing else |
| AppContext.AppState.SetSearchQuery | src/context/AppContext.tsx:71 | sets the search query and nothing else |
| AppContext.AppState.UpdateNoteContent | src/context/AppContext.tsx:204-229 | a successful save applies `SaveIntoNotes` and `SaveIntoTabs`; a failed one changes neither and sets "Failed to save note"; the slot is never touched; the invariant is kept |
| AppContext.AppState.CreateNewNote | src/context/AppContext.tsx:231-241 | a failed create changes nothing but sets "Failed to create new note". Otherwise the note is appended, and tabs, slot and error are those of `Open` against the notes before the append. So a note new to the session gets no tab, and the error is "Note not found", or "Failed to open note" when the read failed |
| CommandPalette.NoteItems | src/components/CommandPalette.tsx:29 | one note item per note, in the order of the notes |
| CommandPalette.TitleMatches | src/components/CommandPalette.tsx:38-46 | the lower-cased title contains the lower-cased query; an empty query matches every title, and a title that contains the query exactly always matches |
| CommandPalette.ItemOf | src/components/CommandPalette.tsx:29-39 | the item of a note carries the note's id and title, with kind note |
| CommandPalette.MatchingCommands | src/components/CommandPalette.tsx:42-46 | a subsequence of the three commands: exactly the commands whose lower-cased title contains the lower-cased query |
| CommandPalette.NoteItemsKeepSubsequence | src/components/CommandPalette.tsx:37-39 | mapping notes to items keeps the subsequence relation |
| CommandPalette.MatchingNoteItems | src/components/CommandPalette.tsx:37-39 | a subsequence of the note items: exactly the items of the notes whose title matches, all of kind note |
| CommandPalette.FilteredItems | src/components/CommandPalette.tsx:23-50 | empty query: the three commands in fixed order, then one item per note in order. Otherwise: the matching commands followed by the matching notes. Commands always come before notes |
| CommandPalette.TruncRem | src/components/CommandPalette.tsx:55-58 | JavaScript `%` for a positive divisor: the dividend is a multiple of `n` (the quotient rounded toward zero) plus the result, and the result lies in `[0, n)` for a non-negative dividend and in `(-n, 0]` for a non-positive one, which fixes it |
| CommandPalette.Down | src/components/CommandPalette.tsx:55 | ArrowDown moves an in-range cursor to the next item, from the last back to the first; an empty list or a NaN cursor gives NaN |
| CommandPalette.Up | src/components/CommandPalette.tsx:58 | ArrowUp moves an in-range cursor to the previous item, from the first round to the last; an empty list or a NaN cursor gives NaN |
| CommandPalette.UpDownInverse | src/components/CommandPalette.tsx:55-58 | in a non-empty list, Up undoes Down and Down undoes Up |
| CommandPalette.Choose | src/components/CommandPalette.tsx:71-80 | a note item opens that note and closes the palette; a command only closes the palette |
| CommandPalette.ChoosingNoteItemOpensIt | src/components/CommandPalette.tsx:71-80 | choosing the item of a note opens that very note and closes the palette |
| CommandPalette.OnEnter | src/components/CommandPalette.tsx:59-63 | Enter acts exactly when the cursor names an item, and then chooses that item |
| CommandPalette.Palette.constructor | src/components/CommandPalette.tsx:12-14 | empty query, cursor 0, and the items of the empty query |
| CommandPalette.Palette.Refilter | src/components/CommandPalette.tsx:23-50 | the items become `FilteredItems`; a non-empty query resets the cursor to 0; an empty query leaves it |
| CommandPalette.Palette.SetQuery | src/components/CommandPalette.tsx:12 | typing sets the query, then refilters as above |
| CommandPalette.Palette.KeyDown | src/components/CommandPalette.tsx:52-68 | the arrows move the cursor by `Down`/`Up`; Enter gives `OnEnter`; Escape closes the palette; other keys do nothing; an in-range cursor stays in range |
| LeftSidebar.GroupSnoc | src/components/LeftSidebar.tsx:13-26 | grouping one more note changes only its bucket, by that note at the end |
| LeftSidebar.FolderKey | src/components/LeftSidebar.tsx:14-24 | the bucket of a note: its folder, or `'root'` when the folder is empty |
| LeftSidebar.Push | src/components/LeftSidebar.tsx:14-25 | one step of the `reduce`: the note goes to the end of its bucket, which is created empty first when missing; no other bucket changes |
| LeftSidebar.GroupFoldIsGroup | src/components/LeftSidebar.tsx:13-26 | pushing the notes one by one onto their buckets, creating each bucket when first needed, builds exactly the dictionary of buckets |
| LeftSidebar.GroupByFolder | src/components/LeftSidebar.tsx:13-26 | the `reduce` computes `Group`: each bucket name to the notes of that bucket, in order |
| LeftSidebar.GroupIsPartition | src/components/LeftSidebar.tsx:13-26 | every note is in the bucket of its folder (or `'root'`) and in no other; buckets are non-empty and keep the order of the notes |
| LeftSidebar.TotalSizeRemove | src/components/LeftSidebar.tsx:13-26 | any bucket can be taken out first when summing bucket sizes |
| LeftSidebar.TotalSizeGrow | src/components/LeftSidebar.tsx:18 | pushing one note onto one bucket adds one to the total size |
| LeftSidebar.GroupSizesSum | src/components/LeftSidebar.tsx:13-26 | the bucket sizes add up to the number of notes |
| LeftSidebar.ListedNotesAllInRoot | src/services/googleDrive.ts:120-127 | listed notes have an empty folder, so the grouping is the single bucket `'root'` holding all of them in order |
| LeftSidebar.FilterFolders | src/components/LeftSidebar.tsx:36-53 | An empty query keeps the grouping. Otherwise: every surviving note matches (title or content, ignoring case), and every matching note survives in its bucket. Each bucket is a subsequence of the original, and no bucket is empty |
| LeftSidebar.Matches | src/components/LeftSidebar.tsx:42-44 | the lower-cased title or content contains the lower-cased query; an empty query matches every note, and a note whose title or content contains the query exactly always matches |
| LeftSidebar.FilterNotes | src/components/LeftSidebar.tsx:36-53 | the `forEach` over the folders computes `FilterFolders` |
| LeftSidebar.SearchFindsMatchingNotes | src/components/LeftSidebar.tsx:13-53 | searching the grouped notes yields exactly the matching notes, each in the bucket of its folder |
| LeftSidebar.Toggled | src/components/LeftSidebar.tsx:28-33 | the folder's expanded state is negated (a missing entry counts as collapsed); every other entry is kept |
| LeftSidebar.ToggleTwice | src/components/LeftSidebar.tsx:28-33 | toggling a folder twice shows every folder as before |
| LeftSidebar.Sidebar.constructor | src/components/LeftSidebar.tsx:7-10 | "Projects" and "Daily Notes" start expanded |
| LeftSidebar.Sidebar.ToggleFolder | src/components/LeftSidebar.tsx:28-33 | the map becomes `Toggled` of the old one |
| RightSidebar.HashRun | src/components/RightSidebar.tsx:13 | the number of `'#'` the line starts with |
| RightSidebar.IsHeadingLine | src/components/RightSidebar.tsx:13 | the line starts with 1 to 6 `'#'`, then whitespace up to a non-empty second group with no line terminator in it |
| RightSidebar.TextStart | src/components/RightSidebar.tsx:13 | where the second group starts: only whitespace lies between the `'#'` run and it, and it is not itself whitespace unless it is the last character of the line (the greedy run gives its last character back to `.+`) |
| RightSidebar.MatchHeading | src/components/RightSidebar.tsx:13-17 | a heading exactly when the line matches; its level is in 1..6 and equals the length of the leading `'#'` run |
| RightSidebar.TrimFromTextStart | src/components/RightSidebar.tsx:13-17 | trimming from the start of the second group equals trimming the whole rest after the `'#'` run |
| RightSidebar.HeadingTextIsTrimmedRest | src/components/RightSidebar.tsx:14-17 | the heading text is the rest of the line after the `'#'` run, trimmed |
| RightSidebar.RegexSplitIsUnique | src/components/RightSidebar.tsx:13-17 | every way the regular expression can split the line gives the same level (the whole `'#'` run) and the same trimmed text |
| RightSidebar.MatchHeadingIsRegex | src/components/RightSidebar.tsx:13 | a line gives a heading exactly when the regular expression matches it, and then gives the heading of that match |
| RightSidebar.NoHeadingCases | src/components/RightSidebar.tsx:13 | no heading when: the line does not start with `'#'`; there are 7 or more `'#'`; the run is not followed by whitespace; nothing follows the single whitespace character; or the line ends in a line terminator such as `'\r'` |
| RightSidebar.SpacesOnlyGiveEmptyHeading | src/components/RightSidebar.tsx:13-17 | `'#'` run then two or more whitespace characters and nothing else: a heading with empty text |
| RightSidebar.Somes | src/components/RightSidebar.tsx:12-20 | the values present in a list of options, never more than the options |
| RightSidebar.SomesInOrder | src/components/RightSidebar.tsx:12-20 | the kept values correspond one to one with the present positions, in increasing order, and every present value is kept |
| RightSidebar.LineMatches | src/components/RightSidebar.tsx:12-13 | what each line gives, one entry per line |
| RightSidebar.HeadingsOf | src/components/RightSidebar.tsx:8-23 | the headings of the lines, in line order: never more than the lines, and every level in 1..6 |
| RightSidebar.HeadingsInLineOrder | src/components/RightSidebar.tsx:10-20 | the headings are those of the heading lines, one per line, in line order; every heading line gives one; there are at most as many as lines |
| RightSidebar.ExtractHeadings | src/components/RightSidebar.tsx:8-23 | the `forEach` loop computes the headings of the `'\n'`-separated lines |
| RightSidebar.OutlineOf | src/components/RightSidebar.tsx:25 | absent or empty content gives no headings; otherwise the headings of the lines, at most one more than the number of `'\n'` |

## Left out

- The Google Drive service (`src/services/googleDrive.ts`) is not modelled: script loading, OAuth tokens, `localStorage` and the HTTP calls. Its four calls (list, read, save, create) are `Outcome` parameters of the session methods. The one fact used is that listed notes have an empty folder (`LeftSidebar.ListedNotesAllInRoot`).
- Text.Lower: lower-cases ASCII letters only. Full Unicode `toLowerCase` (special casings and non-Latin scripts) is not modelled, so a query that differs from a title only in non-ASCII case is not counted as a match.
- AppContext.AppState.UpdateNoteContent: the note and the tab receive one timestamp `now`. The source calls `new Date()` once for each record, which may give different strings.
- React's batching and interleaving across `await` points are not modelled: each operation is one atomic transition on the current state. The one stale snapshot kept is the note list used by the open inside `createNewNote`.
- Console logging is left out, including the log of a chosen command.
- The item `type` of the palette is a string in the source, but only `'note'` and `'command'` are ever produced. It is a two-valued datatype here, so the source's branch for any other type (which does nothing) does not appear.
- LeftSidebar.GroupByFolder: the dictionary is a `map`, so the order in which folders are listed (the key insertion order of a JavaScript object) is not modelled. Folder names that clash with `Object.prototype` properties such as `"constructor"` are treated as ordinary keys, whereas in the source they would break the `reduce`.
- LeftSidebar.FilterNotes: the order of the folders in the result is not modelled, for the same reason.
- The right sidebar reads `noteContent` from the context, but the context never provides it (`src/context/AppContext.tsx:38-60`). On screen the outline is therefore always empty. `RightSidebar.OutlineOf` models the conditional on its own, with the content as a parameter.
- The rendering of the components is left out: the markdown preview (unused), the editors, the toolbar, the layout's keyboard shortcuts, the tab bar, the login and loading screens, and the start-up timer of the app.
- The unused sample notes constant at the top of the context is left out.
