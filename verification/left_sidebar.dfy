/**
 * The file tree of the left sidebar: notes grouped into folder buckets
 * (notes without a folder go to the bucket 'root'), the case-insensitive
 * search over those buckets, and the per-folder expanded/collapsed flags.
 * A dictionary keyed by folder name is a `map`; the order in which the
 * folders are listed on screen is not part of it.
 */
module LeftSidebar {
  import opened Lists
  import Text
  import AppContext

  type Note = AppContext.Note

  const Root := "root"

  /** The bucket a note goes to: its folder, or 'root' when the folder is empty. */
  function FolderKey(n: Note): string {
    if n.folder != [] then n.folder else Root
  }

  /** The notes of bucket `k`, in the order of `notes`. */
  function Bucket(notes: seq<Note>, k: string): seq<Note> {
    Filter(notes, (n: Note) => FolderKey(n) == k)
  }

  /** The buckets the notes fall into. */
  function FolderKeys(notes: seq<Note>): set<string> {
    set n | n in notes :: FolderKey(n)
  }

  /** The grouping as a dictionary: each bucket name to its notes. */
  function Group(notes: seq<Note>): map<string, seq<Note>> {
    map k | k in FolderKeys(notes) :: Bucket(notes, k)
  }

  /** Pushing `n` onto its bucket, creating the bucket when it is missing. */
  function Push(m: map<string, seq<Note>>, n: Note): map<string, seq<Note>> {
    var k := FolderKey(n);
    m[k := (if k in m then m[k] else []) + [n]]
  }

  /** Grouping one more note: only its bucket changes, by one note at the end. */
  lemma GroupSnoc(notes: seq<Note>, n: Note)
    ensures var g := Group(notes); var k := FolderKey(n);
      Group(notes + [n]) == g[k := (if k in g then g[k] else []) + [n]]
  {
    var g := Group(notes);
    var k := FolderKey(n);
    var g' := Group(notes + [n]);
    assert FolderKeys(notes + [n]) == FolderKeys(notes) + {k} by {
      forall x | x in notes + [n] ensures x in notes || x == n { }
    }
    forall key | key in g'.Keys
      ensures g'[key] == g[k := (if k in g then g[k] else []) + [n]][key]
    {
      FilterSnoc(notes, n, (x: Note) => FolderKey(x) == key);
      if key == k && k !in g {
        FilterNone(notes, (x: Note) => FolderKey(x) == key);
      }
    }
  }

  /** The grouping as the `reduce` builds it: one push per note, in order. */
  function GroupFold(notes: seq<Note>): map<string, seq<Note>>
    decreases |notes|
  {
    if notes == [] then map[] else Push(GroupFold(notes[..|notes| - 1]), notes[|notes| - 1])
  }

  /** The pushes build exactly the dictionary of buckets. */
  lemma {:induction false} GroupFoldIsGroup(notes: seq<Note>)
    ensures GroupFold(notes) == Group(notes)
    decreases |notes|
  {
    if notes == [] {
      assert FolderKeys(notes) == {};
    } else {
      var init := notes[..|notes| - 1];
      GroupFoldIsGroup(init);
      assert notes == init + [notes[|notes| - 1]];
      GroupSnoc(init, notes[|notes| - 1]);
    }
  }

  /**
   * The `reduce` that groups the notes: for each note in turn, create its
   * bucket if missing and push the note onto it.
   */
  method GroupByFolder(notes: seq<Note>) returns (folders: map<string, seq<Note>>)
    ensures folders == Group(notes)
  {
    folders := map[];
    var i := 0;
    while i < |notes|
      invariant 0 <= i <= |notes|
      invariant folders == GroupFold(notes[..i])
    {
      var note := notes[i];
      ghost var before := folders;
      if note.folder != [] {
        if note.folder !in folders {
          folders := folders[note.folder := []];
        }
        folders := folders[note.folder := folders[note.folder] + [note]];
      } else {
        if Root !in folders {
          folders := folders[Root := []];
        }
        folders := folders[Root := folders[Root] + [note]];
      }
      assert folders == Push(before, note);
      assert notes[..i + 1][..i] == notes[..i];
      assert GroupFold(notes[..i + 1]) == Push(GroupFold(notes[..i]), note);
      i := i + 1;
    }
    assert notes[..i] == notes;
    GroupFoldIsGroup(notes);
  }

  /**
   * Every note is in exactly one bucket, the one named by its folder key;
   * every bucket is non-empty and keeps the order of the notes.
   */
  lemma GroupIsPartition(notes: seq<Note>)
    ensures forall n :: n in notes ==> FolderKey(n) in Group(notes)
    ensures forall k, n :: k in Group(notes) && n in Group(notes)[k] <==> n in notes && FolderKey(n) == k && k in Group(notes)
    ensures forall k :: k in Group(notes) ==> Group(notes)[k] != [] && IsSubsequence(Group(notes)[k], notes)
  {
    var g := Group(notes);
    forall k | k in g ensures g[k] != [] && IsSubsequence(g[k], notes) {
      FilterIsSubsequence(notes, (n: Note) => FolderKey(n) == k);
      var n :| n in notes && FolderKey(n) == k;
      var i :| 0 <= i < |notes| && notes[i] == n;
      assert n in g[k];
    }
  }

  /** Sum of the bucket sizes of a grouping. */
  ghost function TotalSize(g: map<string, seq<Note>>): nat
    decreases |g|
  {
    if g == map[] then 0
    else
      var k :| k in g;
      |g[k]| + TotalSize(g - {k})
  }

  /** Any bucket can be taken out first when summing the sizes. */
  lemma {:induction false} TotalSizeRemove(g: map<string, seq<Note>>, k: string)
    requires k in g
    ensures TotalSize(g) == |g[k]| + TotalSize(g - {k})
    decreases |g|
  {
    var k' :| k' in g && TotalSize(g) == |g[k']| + TotalSize(g - {k'});
    if k' != k {
      assert |g - {k'}| < |g| by { assert g.Keys - {k'} < g.Keys; }
      TotalSizeRemove(g - {k'}, k);
      assert |g - {k}| < |g| by { assert g.Keys - {k} < g.Keys; }
      TotalSizeRemove(g - {k}, k');
      assert g - {k'} - {k} == g - {k} - {k'};
    }
  }

  /** Adding one note to one bucket adds one to the total. */
  lemma TotalSizeGrow(g: map<string, seq<Note>>, k: string, n: Note)
    ensures TotalSize(g[k := (if k in g then g[k] else []) + [n]]) == TotalSize(g) + 1
  {
    var g' := g[k := (if k in g then g[k] else []) + [n]];
    TotalSizeRemove(g', k);
    if k in g {
      TotalSizeRemove(g, k);
      assert g' - {k} == g - {k};
    } else {
      assert g' - {k} == g;
    }
  }

  /** The bucket sizes add up to the number of notes. */
  lemma {:induction false} GroupSizesSum(notes: seq<Note>)
    ensures TotalSize(Group(notes)) == |notes|
    decreases |notes|
  {
    if notes == [] {
      assert Group(notes) == map[];
    } else {
      var init := notes[..|notes| - 1];
      var last := notes[|notes| - 1];
      assert notes == init + [last];
      GroupSizesSum(init);
      GroupSnoc(init, last);
      TotalSizeGrow(Group(init), FolderKey(last), last);
    }
  }

  /** Notes listed from the store have an empty folder, so they all land in 'root', in order. */
  lemma ListedNotesAllInRoot(notes: seq<Note>)
    requires notes != []
    requires forall i :: 0 <= i < |notes| ==> notes[i].folder == []
    ensures Group(notes) == map[Root := notes]
  {
    assert FolderKeys(notes) == {Root} by {
      assert notes[0] in notes;
    }
    assert Filter(notes, (n: Note) => FolderKey(n) == Root) == notes by {
      FilterAllKept(notes);
    }
  }

  lemma {:induction false} FilterAllKept(notes: seq<Note>)
    requires forall i :: 0 <= i < |notes| ==> notes[i].folder == []
    ensures Filter(notes, (n: Note) => FolderKey(n) == Root) == notes
    decreases |notes|
  {
    if notes != [] {
      FilterAllKept(notes[1..]);
    }
  }

  // ---------------------------------------------------------------------------
  // Search

  /** A note matches the search when its title or its content contains the query, ignoring case. */
  predicate Matches(n: Note, query: string)
    ensures query == [] ==> Matches(n, query)
    ensures Text.Contains(n.title, query) || Text.Contains(n.content, query) ==> Matches(n, query)
  {
    Text.LowerKeepsContains(n.title, query);
    Text.LowerKeepsContains(n.content, query);
    || Text.Contains(Text.Lower(n.title), Text.Lower(query))
    || Text.Contains(Text.Lower(n.content), Text.Lower(query))
  }

  /** The notes of one bucket that match the query. */
  function MatchingNotes(bucket: seq<Note>, query: string): seq<Note> {
    Filter(bucket, (n: Note) => Matches(n, query))
  }

  /** The folders of `folders` already visited (`done`), each with its matching notes when there are any. */
  function FilteredPart(folders: map<string, seq<Note>>, query: string, done: set<string>): map<string, seq<Note>> {
    map k | k in folders && k in done && MatchingNotes(folders[k], query) != [] :: MatchingNotes(folders[k], query)
  }

  /**
   * What the search leaves of a grouping. An empty query keeps it as it
   * is. Otherwise every surviving note matches, every matching note
   * survives in its bucket, each bucket keeps the order of the original
   * one, and no bucket is empty.
   */
  function FilterFolders(folders: map<string, seq<Note>>, query: string): (r: map<string, seq<Note>>)
    ensures query == [] ==> r == folders
    ensures query != [] ==> r.Keys <= folders.Keys
    ensures query != [] ==> forall k :: k in r ==> r[k] != [] && IsSubsequence(r[k], folders[k])
    ensures query != [] ==> forall k, n :: k in r && n in r[k] ==> n in folders[k] && Matches(n, query)
    ensures query != [] ==> forall k, n :: k in folders && n in folders[k] && Matches(n, query) ==> k in r && n in r[k]
  {
    if query == [] then folders
    else
      FilteredPartKeepsOrder(folders, query);
      FilteredPartIsExact(folders, query);
      FilteredPart(folders, query, folders.Keys)
  }

  /** Each kept bucket is a non-empty subsequence of the bucket it came from. */
  lemma FilteredPartKeepsOrder(folders: map<string, seq<Note>>, query: string)
    ensures var r := FilteredPart(folders, query, folders.Keys);
      && r.Keys <= folders.Keys
      && forall k :: k in r ==> r[k] != [] && IsSubsequence(r[k], folders[k])
  {
    var r := FilteredPart(folders, query, folders.Keys);
    forall k | k in r ensures IsSubsequence(r[k], folders[k]) {
      FilterIsSubsequence(folders[k], (n: Note) => Matches(n, query));
    }
  }

  /** The kept notes are exactly the matching ones, each in its own bucket. */
  lemma FilteredPartIsExact(folders: map<string, seq<Note>>, query: string)
    ensures var r := FilteredPart(folders, query, folders.Keys);
      && (forall k, n :: k in r && n in r[k] ==> n in folders[k] && Matches(n, query))
      && (forall k, n :: k in folders && n in folders[k] && Matches(n, query) ==> k in r && n in r[k])
  {
    var r := FilteredPart(folders, query, folders.Keys);
    forall k, n | k in folders && n in folders[k] && Matches(n, query) ensures k in r && n in r[k] {
      assert n in MatchingNotes(folders[k], query);
    }
  }

  /**
   * `filterNotes`: with a query, visit the folders one by one and keep
   * each folder whose matching notes are not empty.
   */
  method FilterNotes(folders: map<string, seq<Note>>, searchQuery: string) returns (filtered: map<string, seq<Note>>)
    ensures filtered == FilterFolders(folders, searchQuery)
  {
    if searchQuery == [] {
      return folders;
    }
    filtered := map[];
    var pending := folders.Keys;
    while pending != {}
      invariant pending <= folders.Keys
      invariant filtered == FilteredPart(folders, searchQuery, folders.Keys - pending)
      decreases |pending|
    {
      var folder :| folder in pending;
      var matching := MatchingNotes(folders[folder], searchQuery);
      if |matching| > 0 {
        filtered := filtered[folder := matching];
      }
      pending := pending - {folder};
    }
  }

  /** Searching the grouped notes finds exactly the matching notes, each in its own bucket. */
  lemma SearchFindsMatchingNotes(notes: seq<Note>, query: string)
    requires query != []
    ensures forall n :: n in notes && Matches(n, query) ==>
      FolderKey(n) in FilterFolders(Group(notes), query) && n in FilterFolders(Group(notes), query)[FolderKey(n)]
    ensures forall k, n :: k in FilterFolders(Group(notes), query) && n in FilterFolders(Group(notes), query)[k] ==>
      n in notes && Matches(n, query) && FolderKey(n) == k
  {
    GroupIsPartition(notes);
  }

  // ---------------------------------------------------------------------------
  // Expanded folders

  /** A folder is shown expanded when its entry is present and true. */
  predicate IsExpanded(expanded: map<string, bool>, folder: string) {
    folder in expanded && expanded[folder]
  }

  /**
   * `toggleFolder(folder)`: the entry for `folder` becomes the negation of
   * its current value (a missing entry counts as false); every other entry
   * is kept.
   */
  function Toggled(expanded: map<string, bool>, folder: string): (r: map<string, bool>)
    ensures r.Keys == expanded.Keys + {folder}
    ensures IsExpanded(r, folder) == !IsExpanded(expanded, folder)
    ensures forall f :: f in expanded && f != folder ==> r[f] == expanded[f]
  {
    expanded[folder := !IsExpanded(expanded, folder)]
  }

  /** Toggling a folder twice shows every folder as before. */
  lemma ToggleTwice(expanded: map<string, bool>, folder: string)
    ensures forall f :: IsExpanded(Toggled(Toggled(expanded, folder), folder), f) == IsExpanded(expanded, f)
  {
  }

  /** The sidebar component's own state. */
  class Sidebar {
    var expandedFolders: map<string, bool>

    constructor ()
      ensures expandedFolders == map["Projects" := true, "Daily Notes" := true]
    {
      expandedFolders := map["Projects" := true, "Daily Notes" := true];
    }

    method ToggleFolder(folder: string)
      modifies this
      ensures expandedFolders == Toggled(old(expandedFolders), folder)
    {
      expandedFolders := Toggled(expandedFolders, folder);
    }
  }
}
