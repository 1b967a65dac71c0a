/**
 * The workspace session held by the application's context provider: the
 * list of notes, the open tabs, the active-tab slot, the error message, the
 * loading flag and the three panel flags.
 *
 * Every remote call (list, read, save, create) is a parameter holding its
 * settled Outcome, so that each asynchronous operation is one atomic
 * transition. Timestamps are opaque strings passed in.
 */
module AppContext {
  import opened Wrappers
  import opened Lists

  datatype Note = Note(id: string, title: string, content: string, path: string, folder: string, lastModified: string)

  datatype Tab = Tab(id: string, note: Note, active: bool)

  const InitFailed := "Failed to initialize Google Drive"
  const RefreshFailed := "Failed to refresh files"
  const OpenFailed := "Failed to open note"
  const NotFound := "Note not found"
  const SaveFailed := "Failed to save note"
  const CreateFailed := "Failed to create new note"

  /** The id given to the tab of a note. */
  function TabIdFor(noteId: string): string {
    "tab-" + noteId
  }

  /** Distinct notes get distinct tab ids. */
  lemma TabIdInjective(a: string, b: string)
    ensures TabIdFor(a) == TabIdFor(b) <==> a == b
  {
    if TabIdFor(a) == TabIdFor(b) {
      assert TabIdFor(a)[4..] == a;
      assert TabIdFor(b)[4..] == b;
    }
  }

  /** `notes.find(n => n.id === id)`. */
  function FindNote(notes: seq<Note>, id: string): (r: Option<Note>)
    ensures r.None? <==> forall k :: 0 <= k < |notes| ==> notes[k].id != id
    ensures r.Some? ==> r.value.id == id
    // the first note with that id
    ensures r.Some? ==> exists k :: 0 <= k < |notes| && notes[k] == r.value && forall j :: 0 <= j < k ==> notes[j].id != id
  {
    var k := FindIndex(notes, (n: Note) => n.id == id);
    if k == -1 then None else Some(notes[k])
  }

  /** Index of the first tab showing note `noteId` (`tabs.find(tab => tab.note.id === noteId)`), or -1. */
  function TabOfNote(tabs: seq<Tab>, noteId: string): (k: int)
    ensures -1 <= k < |tabs|
    ensures k >= 0 ==> tabs[k].note.id == noteId && forall j :: 0 <= j < k ==> tabs[j].note.id != noteId
    ensures k == -1 ==> forall j :: 0 <= j < |tabs| ==> tabs[j].note.id != noteId
  {
    FindIndex(tabs, (t: Tab) => t.note.id == noteId)
  }

  /** Index of the first tab with id `tabId` (`tabs.findIndex(tab => tab.id === tabId)`), or -1. */
  function TabIndex(tabs: seq<Tab>, tabId: string): (k: int)
    ensures -1 <= k < |tabs|
    ensures k >= 0 ==> tabs[k].id == tabId && forall j :: 0 <= j < k ==> tabs[j].id != tabId
    ensures k == -1 ==> forall j :: 0 <= j < |tabs| ==> tabs[j].id != tabId
  {
    FindIndex(tabs, (t: Tab) => t.id == tabId)
  }

  // ---------------------------------------------------------------------------
  // Session invariants

  /** Every tab is named after its note, and no note is open in two tabs. */
  ghost predicate TabsWellFormed(tabs: seq<Tab>) {
    && (forall i :: 0 <= i < |tabs| ==> tabs[i].id == TabIdFor(tabs[i].note.id))
    && (forall i, j :: 0 <= i < j < |tabs| ==> tabs[i].note.id != tabs[j].note.id)
  }

  /** The tab at index `k` is the one and only active tab. */
  ghost predicate OnlyActiveAt(tabs: seq<Tab>, k: int) {
    0 <= k < |tabs| && forall j :: 0 <= j < |tabs| ==> (tabs[j].active <==> j == k)
  }

  /**
   * The tab list is well formed; a non-empty list has exactly one active
   * tab and the active-tab slot names it; an empty list goes with an empty slot.
   */
  ghost predicate Coherent(tabs: seq<Tab>, activeTab: Option<Tab>) {
    && TabsWellFormed(tabs)
    && match activeTab
       case None => tabs == []
       case Some(t) => exists k :: OnlyActiveAt(tabs, k) && tabs[k].id == t.id
  }

  // ---------------------------------------------------------------------------
  // The pure parts of the transitions (the `map` / `find` computations)

  /** `tabs.map(tab => ({...tab, active: tab.id === tabId}))`. */
  function MarkActive(tabs: seq<Tab>, tabId: string): (r: seq<Tab>)
    ensures |r| == |tabs|
    ensures forall i :: 0 <= i < |r| ==> r[i].id == tabs[i].id && r[i].note == tabs[i].note
    ensures forall i :: 0 <= i < |r| ==> (r[i].active <==> tabs[i].id == tabId)
  {
    seq(|tabs|, i requires 0 <= i < |tabs| => tabs[i].(active := tabs[i].id == tabId))
  }

  /** `tabs.map(tab => ({...tab, active: false}))`. */
  function Deactivated(tabs: seq<Tab>): (r: seq<Tab>)
    ensures |r| == |tabs|
    ensures forall i :: 0 <= i < |r| ==> r[i].id == tabs[i].id && r[i].note == tabs[i].note && !r[i].active
  {
    seq(|tabs|, i requires 0 <= i < |tabs| => tabs[i].(active := false))
  }

  /** The new tab list, active-tab slot and error after `openNote`, and whether it read the note remotely. */
  datatype Opened = Opened(tabs: seq<Tab>, activeTab: Option<Tab>, error: Option<string>, didRead: bool)

  /**
   * `openNote(noteId)` against the note list `known` (the provider's notes
   * as the calling closure sees them). `read` is the settled result of
   * reading the note's content; it is consulted only when no tab shows the
   * note yet, and before the note is looked up in `known`.
   */
  function Open(tabs: seq<Tab>, activeTab: Option<Tab>, known: seq<Note>, noteId: string, read: Outcome<string>): (r: Opened)
    // A tab for the note exists: no read; the same tabs in the same order,
    // and exactly the tabs with that tab's id become active.
    ensures TabOfNote(tabs, noteId) >= 0 ==>
      var k := TabOfNote(tabs, noteId);
      && !r.didRead && r.error == None
      && |r.tabs| == |tabs|
      && (forall i :: 0 <= i < |tabs| ==> r.tabs[i].id == tabs[i].id && r.tabs[i].note == tabs[i].note)
      && (forall i :: 0 <= i < |tabs| ==> (r.tabs[i].active <==> tabs[i].id == tabs[k].id))
      && r.activeTab == Some(tabs[k])
    ensures TabOfNote(tabs, noteId) == -1 ==> r.didRead
    // The read failed: nothing but the error changes.
    ensures TabOfNote(tabs, noteId) == -1 && read.Err? ==>
      r.tabs == tabs && r.activeTab == activeTab && r.error == Some(OpenFailed)
    // The read succeeded for a note missing from `known`: nothing but the error changes.
    ensures TabOfNote(tabs, noteId) == -1 && read.Ok? && FindNote(known, noteId).None? ==>
      r.tabs == tabs && r.activeTab == activeTab && r.error == Some(NotFound)
    // The read succeeded for a known note: one tab is appended, holding the
    // note with the content read; it is the only active tab and fills the slot.
    ensures TabOfNote(tabs, noteId) == -1 && read.Ok? && FindNote(known, noteId).Some? ==>
      var n := FindNote(known, noteId).value;
      && |r.tabs| == |tabs| + 1
      && (forall i :: 0 <= i < |tabs| ==> r.tabs[i].id == tabs[i].id && r.tabs[i].note == tabs[i].note && !r.tabs[i].active)
      && r.tabs[|tabs|] == Tab(TabIdFor(noteId), n.(content := read.value), true)
      && r.activeTab == Some(r.tabs[|tabs|])
      && r.error == None
  {
    var k := TabOfNote(tabs, noteId);
    if k >= 0 then
      Opened(MarkActive(tabs, tabs[k].id), Some(tabs[k]), None, false)
    else
      match read
      case Err => Opened(tabs, activeTab, Some(OpenFailed), true)
      case Ok(content) =>
        match FindNote(known, noteId)
        case None => Opened(tabs, activeTab, Some(NotFound), true)
        case Some(note) =>
          var newTab := Tab(TabIdFor(note.id), note.(content := content), true);
          Opened(Deactivated(tabs) + [newTab], Some(newTab), None, true)
  }

  /**
   * `setActiveTab(tabId)`: the new tab list and active-tab slot. A tab is
   * active exactly when its id is `tabId`; the slot holds the first such
   * tab, or nothing when no tab has that id (then no tab is active).
   */
  function SetActive(tabs: seq<Tab>, tabId: string): (r: (seq<Tab>, Option<Tab>))
    ensures |r.0| == |tabs|
    ensures forall i :: 0 <= i < |tabs| ==> r.0[i].id == tabs[i].id && r.0[i].note == tabs[i].note
    ensures forall i :: 0 <= i < |tabs| ==> (r.0[i].active <==> tabs[i].id == tabId)
    ensures TabIndex(tabs, tabId) >= 0 ==> r.1 == Some(r.0[TabIndex(tabs, tabId)])
    ensures TabIndex(tabs, tabId) == -1 ==> r.1 == None && forall i :: 0 <= i < |tabs| ==> !r.0[i].active
  {
    var updated := MarkActive(tabs, tabId);
    var k := FindIndex(updated, (t: Tab) => t.active);
    (updated, if k == -1 then None else Some(updated[k]))
  }

  /** The notes after a confirmed save: notes with id `noteId` get the new content and timestamp, the rest are kept. */
  function SaveIntoNotes(notes: seq<Note>, noteId: string, content: string, now: string): (r: seq<Note>)
    ensures |r| == |notes|
    ensures forall i :: 0 <= i < |notes| && notes[i].id != noteId ==> r[i] == notes[i]
    ensures forall i :: 0 <= i < |notes| && notes[i].id == noteId ==>
      r[i].content == content && r[i].lastModified == now &&
      r[i].(content := notes[i].content, lastModified := notes[i].lastModified) == notes[i]
  {
    seq(|notes|, i requires 0 <= i < |notes| =>
      if notes[i].id == noteId then notes[i].(content := content, lastModified := now) else notes[i])
  }

  /** The tabs after a confirmed save: tabs showing note `noteId` get the new content and timestamp, the rest are kept. */
  function SaveIntoTabs(tabs: seq<Tab>, noteId: string, content: string, now: string): (r: seq<Tab>)
    ensures |r| == |tabs|
    ensures forall i :: 0 <= i < |tabs| && tabs[i].note.id != noteId ==> r[i] == tabs[i]
    ensures forall i :: 0 <= i < |tabs| && tabs[i].note.id == noteId ==>
      r[i].id == tabs[i].id && r[i].active == tabs[i].active &&
      r[i].note.content == content && r[i].note.lastModified == now &&
      r[i].note.(content := tabs[i].note.content, lastModified := tabs[i].note.lastModified) == tabs[i].note
  {
    seq(|tabs|, i requires 0 <= i < |tabs| =>
      if tabs[i].note.id == noteId
      then tabs[i].(note := tabs[i].note.(content := content, lastModified := now))
      else tabs[i])
  }

  // ---------------------------------------------------------------------------
  // What the transitions keep

  /** Opening a note keeps the session coherent. */
  lemma OpenKeepsCoherent(tabs: seq<Tab>, activeTab: Option<Tab>, known: seq<Note>, noteId: string, read: Outcome<string>)
    requires Coherent(tabs, activeTab)
    ensures var r := Open(tabs, activeTab, known, noteId, read); Coherent(r.tabs, r.activeTab)
  {
    var r := Open(tabs, activeTab, known, noteId, read);
    var k := TabOfNote(tabs, noteId);
    if k >= 0 {
      forall i | 0 <= i < |tabs| ensures r.tabs[i].active <==> i == k {
        if i != k {
          TabIdInjective(tabs[i].note.id, tabs[k].note.id);
        }
      }
      assert OnlyActiveAt(r.tabs, k);
    } else if read.Ok? && FindNote(known, noteId).Some? {
      assert OnlyActiveAt(r.tabs, |tabs|);
    }
  }

  /** Activating an existing tab keeps the session coherent. */
  lemma SetActiveKeepsCoherent(tabs: seq<Tab>, activeTab: Option<Tab>, tabId: string)
    requires Coherent(tabs, activeTab)
    requires TabIndex(tabs, tabId) >= 0
    ensures var r := SetActive(tabs, tabId); Coherent(r.0, r.1)
  {
    var r := SetActive(tabs, tabId);
    var k := TabIndex(tabs, tabId);
    forall i | 0 <= i < |tabs| ensures r.0[i].active <==> i == k {
      if i != k {
        TabIdInjective(tabs[i].note.id, tabs[k].note.id);
      }
    }
    assert OnlyActiveAt(r.0, k);
  }

  /** Activating an unknown tab id in a non-empty session leaves no active tab: the session is no longer coherent. */
  lemma SetActiveUnknownLosesActiveTab(tabs: seq<Tab>, tabId: string)
    requires tabs != [] && TabIndex(tabs, tabId) == -1
    ensures var r := SetActive(tabs, tabId); r.1 == None && !Coherent(r.0, r.1)
  {
  }

  /** A confirmed save keeps the session coherent (ids and active flags are untouched). */
  lemma SaveKeepsCoherent(tabs: seq<Tab>, activeTab: Option<Tab>, noteId: string, content: string, now: string)
    requires Coherent(tabs, activeTab)
    ensures Coherent(SaveIntoTabs(tabs, noteId, content, now), activeTab)
  {
    var r := SaveIntoTabs(tabs, noteId, content, now);
    assert forall i :: 0 <= i < |tabs| ==> r[i].id == tabs[i].id && r[i].active == tabs[i].active && r[i].note.id == tabs[i].note.id;
    if activeTab.Some? {
      var k :| OnlyActiveAt(tabs, k) && tabs[k].id == activeTab.value.id;
      assert OnlyActiveAt(r, k);
    }
  }

  /** Opening the same note again right after it got its tab reads nothing and adds no tab. */
  lemma ReopenReadsNothing(tabs: seq<Tab>, activeTab: Option<Tab>, known: seq<Note>, noteId: string,
                           read: Outcome<string>, read2: Outcome<string>)
    requires read.Ok? && FindNote(known, noteId).Some?
    ensures var r := Open(tabs, activeTab, known, noteId, read);
            var r2 := Open(r.tabs, r.activeTab, known, noteId, read2);
            !r2.didRead && |r2.tabs| == |r.tabs|
  {
    var r := Open(tabs, activeTab, known, noteId, read);
    if TabOfNote(tabs, noteId) == -1 {
      assert r.tabs[|tabs|].note.id == noteId;
      assert TabOfNote(r.tabs, noteId) >= 0;
    }
  }

  /** `s` with the element at index `i` spliced out. */
  function RemoveAt<T>(s: seq<T>, i: nat): (r: seq<T>)
    requires i < |s|
    ensures |r| == |s| - 1
    ensures forall k :: 0 <= k < |r| ==> r[k] == s[if k < i then k else k + 1]
  {
    s[..i] + s[i + 1..]
  }

  /** Removing a tab keeps the tab list well formed. */
  lemma RemoveKeepsWellFormed(tabs: seq<Tab>, i: nat)
    requires i < |tabs| && TabsWellFormed(tabs)
    ensures TabsWellFormed(RemoveAt(tabs, i))
  {
    var r := RemoveAt(tabs, i);
    forall a, b | 0 <= a < b < |r| ensures r[a].note.id != r[b].note.id {
      assert r[a] == tabs[if a < i then a else a + 1];
      assert r[b] == tabs[if b < i then b else b + 1];
    }
  }

  /**
   * Closing the only active tab and flagging the tab now at index `j`
   * leaves that tab the only active one.
   */
  lemma CloseActiveKeepsOneActive(tabs: seq<Tab>, i: nat, j: nat)
    requires OnlyActiveAt(tabs, i) && j < |tabs| - 1
    ensures var r := RemoveAt(tabs, i); OnlyActiveAt(r[j := r[j].(active := true)], j)
  {
    var r := RemoveAt(tabs, i);
    forall k | 0 <= k < |r| ensures !r[k].active {
      assert r[k] == tabs[if k < i then k else k + 1];
    }
  }

  /** Closing an inactive tab keeps the active tab the only active one, at its shifted index. */
  lemma CloseInactiveKeepsOneActive(tabs: seq<Tab>, i: nat, a: nat)
    requires OnlyActiveAt(tabs, a) && i < |tabs| && i != a
    ensures var r := RemoveAt(tabs, i); var a' := if a < i then a else a - 1;
      OnlyActiveAt(r, a') && r[a'] == tabs[a]
  {
    var r := RemoveAt(tabs, i);
    var a' := if a < i then a else a - 1;
    forall k | 0 <= k < |r| ensures r[k].active <==> k == a' {
      assert r[k] == tabs[if k < i then k else k + 1];
    }
  }

  /** Closing the tab at `i` keeps the session coherent, in each of the three outcomes of `closeTab`. */
  lemma CloseKeepsCoherent(tabs: seq<Tab>, activeTab: Option<Tab>, i: nat)
    requires Coherent(tabs, activeTab) && i < |tabs|
    ensures var rest := RemoveAt(tabs, i);
      && (tabs[i].active && rest != [] ==>
            var j := if i < |rest| - 1 then i else |rest| - 1;
            var flagged := rest[j := rest[j].(active := true)];
            Coherent(flagged, Some(flagged[j])))
      && (rest == [] ==> Coherent(rest, None))
      && (!tabs[i].active && rest != [] ==> Coherent(rest, activeTab))
  {
    var rest := RemoveAt(tabs, i);
    RemoveKeepsWellFormed(tabs, i);
    if rest != [] {
      var a :| OnlyActiveAt(tabs, a) && tabs[a].id == activeTab.value.id;
      if tabs[i].active {
        assert a == i;
        var j := if i < |rest| - 1 then i else |rest| - 1;
        CloseActiveKeepsOneActive(tabs, i, j);
        var flagged := rest[j := rest[j].(active := true)];
        assert forall k :: 0 <= k < |rest| ==> flagged[k].id == rest[k].id && flagged[k].note == rest[k].note;
        assert OnlyActiveAt(flagged, j);
      } else {
        CloseInactiveKeepsOneActive(tabs, i, a);
      }
    }
  }

  // ---------------------------------------------------------------------------
  // The provider's state

  class AppState {
    var notes: seq<Note>
    var tabs: seq<Tab>
    var activeTab: Option<Tab>
    var leftSidebarOpen: bool
    var rightSidebarOpen: bool
    var commandPaletteOpen: bool
    var searchQuery: string
    var isAuthenticated: bool
    var isLoading: bool
    var error: Option<string>

    ghost predicate Valid()
      reads this
    {
      Coherent(tabs, activeTab)
    }

    /** The initial `useState` values. */
    constructor ()
      ensures notes == [] && tabs == [] && activeTab == None
      ensures leftSidebarOpen && !rightSidebarOpen && !commandPaletteOpen
      ensures searchQuery == [] && !isAuthenticated && isLoading && error == None
      ensures Valid()
    {
      notes, tabs, activeTab := [], [], None;
      leftSidebarOpen, rightSidebarOpen, commandPaletteOpen := true, false, false;
      searchQuery := [];
      isAuthenticated, isLoading, error := false, true, None;
    }

    /** The mount effect: `ready` is the outcome of initialising the Drive client. */
    method Initialize(ready: Outcome<()>)
      modifies this`isLoading, this`error
      ensures !isLoading
      ensures error == if ready.Err? then Some(InitFailed) else old(error)
    {
      if ready.Err? {
        error := Some(InitFailed);
      }
      isLoading := false;
    }

    /** `refreshFiles`: `listed` is the outcome of listing the documents. */
    method RefreshFiles(listed: Outcome<seq<Note>>)
      modifies this`notes, this`isLoading, this`error
      ensures notes == if listed.Ok? then listed.value else old(notes)
      ensures error == if listed.Ok? then None else Some(RefreshFailed)
      ensures !isLoading
    {
      isLoading := true;
      error := None;
      match listed {
        case Ok(files) => notes := files;
        case Err => error := Some(RefreshFailed);
      }
      isLoading := false;
    }

    /**
     * `authenticate`: refreshes the files and then marks the session
     * authenticated. The refresh reports its own failure and does not
     * throw, so the session is authenticated even when listing failed.
     */
    method Authenticate(listed: Outcome<seq<Note>>)
      modifies this`notes, this`isLoading, this`error, this`isAuthenticated
      ensures isAuthenticated && !isLoading
      ensures notes == if listed.Ok? then listed.value else old(notes)
      ensures error == if listed.Ok? then None else Some(RefreshFailed)
    {
      isLoading := true;
      error := None;
      RefreshFiles(listed);
      isAuthenticated := true;
      isLoading := false;
    }

    /** `openNote(noteId)`; `read` is the outcome of fetching the note's content, used only if `didRead`. */
    method OpenNote(noteId: string, read: Outcome<string>) returns (didRead: bool)
      modifies this`tabs, this`activeTab, this`error
      ensures var r := Open(old(tabs), old(activeTab), notes, noteId, read);
        tabs == r.tabs && activeTab == r.activeTab && error == r.error && didRead == r.didRead
      ensures old(Valid()) ==> Valid()
    {
      if Valid() {
        OpenKeepsCoherent(tabs, activeTab, notes, noteId, read);
      }
      var r := Open(tabs, activeTab, notes, noteId, read);
      tabs, activeTab, error, didRead := r.tabs, r.activeTab, r.error, r.didRead;
    }

    /**
     * `closeTab(tabId)`: removes the first tab with that id. When it was
     * active and tabs remain, the tab now at `min(index, length - 1)` is
     * flagged active in place and fills the slot; when no tab remains the
     * slot is cleared; otherwise flags and slot are left as they were.
     */
    method CloseTab(tabId: string)
      modifies this`tabs, this`activeTab
      ensures TabIndex(old(tabs), tabId) == -1 ==> tabs == old(tabs) && activeTab == old(activeTab)
      // the surviving tabs, one fewer, in their original order; the only
      // change to one of them is the active flag of a closed active tab's successor
      ensures var i := TabIndex(old(tabs), tabId);
        i >= 0 && !(old(tabs)[i].active && |old(tabs)| > 1) ==>
          && tabs == RemoveAt(old(tabs), i)
          && activeTab == if tabs == [] then None else old(activeTab)
      ensures var i := TabIndex(old(tabs), tabId);
        i >= 0 && old(tabs)[i].active && |old(tabs)| > 1 ==>
          var rest := RemoveAt(old(tabs), i);
          var j := if i < |rest| - 1 then i else |rest| - 1;
          && tabs == rest[j := rest[j].(active := true)]
          && activeTab == Some(tabs[j])
      ensures old(Valid()) ==> Valid()
    {
      var tabIndex := TabIndex(tabs, tabId);
      if tabIndex == -1 {
        return;
      }
      if Valid() {
        CloseKeepsCoherent(tabs, activeTab, tabIndex);
      }
      var newTabs := RemoveAt(tabs, tabIndex);
      if tabs[tabIndex].active && |newTabs| > 0 {
        var newActiveIndex := if tabIndex < |newTabs| - 1 then tabIndex else |newTabs| - 1;
        newTabs := newTabs[newActiveIndex := newTabs[newActiveIndex].(active := true)];
        activeTab := Some(newTabs[newActiveIndex]);
      } else if |newTabs| == 0 {
        activeTab := None;
      }
      tabs := newTabs;
    }

    /** `setActiveTab(tabId)`. */
    method SetActiveTab(tabId: string)
      modifies this`tabs, this`activeTab
      ensures (tabs, activeTab) == SetActive(old(tabs), tabId)
      ensures old(Valid()) && TabIndex(old(tabs), tabId) >= 0 ==> Valid()
    {
      if Valid() && TabIndex(tabs, tabId) >= 0 {
        SetActiveKeepsCoherent(tabs, activeTab, tabId);
      }
      var r := SetActive(tabs, tabId);
      tabs, activeTab := r.0, r.1;
    }

    method ToggleLeftSidebar()
      modifies this`leftSidebarOpen
      ensures leftSidebarOpen == !old(leftSidebarOpen)
    {
      leftSidebarOpen := !leftSidebarOpen;
    }

    method ToggleRightSidebar()
      modifies this`rightSidebarOpen
      ensures rightSidebarOpen == !old(rightSidebarOpen)
    {
      rightSidebarOpen := !rightSidebarOpen;
    }

    method ToggleCommandPalette()
      modifies this`commandPaletteOpen
      ensures commandPaletteOpen == !old(commandPaletteOpen)
    {
      commandPaletteOpen := !commandPaletteOpen;
    }

    method SetSearchQuery(query: string)
      modifies this`searchQuery
      ensures searchQuery == query
    {
      searchQuery := query;
    }

    /**
     * `updateNoteContent(noteId, content)`: saves first (`saved` is the
     * outcome) and changes local state only when the save succeeded. The
     * active-tab slot is never refreshed and keeps its old copy of the note.
     */
    method UpdateNoteContent(noteId: string, content: string, saved: Outcome<()>, now: string)
      modifies this`notes, this`tabs, this`error
      ensures saved.Ok? ==> notes == SaveIntoNotes(old(notes), noteId, content, now)
      ensures saved.Ok? ==> tabs == SaveIntoTabs(old(tabs), noteId, content, now)
      ensures saved.Err? ==> notes == old(notes) && tabs == old(tabs)
      ensures error == if saved.Ok? then None else Some(SaveFailed)
      ensures old(Valid()) ==> Valid()
    {
      error := None;
      if saved.Err? {
        error := Some(SaveFailed);
        return;
      }
      if Valid() {
        SaveKeepsCoherent(tabs, activeTab, noteId, content, now);
      }
      notes := SaveIntoNotes(notes, noteId, content, now);
      tabs := SaveIntoTabs(tabs, noteId, content, now);
    }

    /**
     * `createNewNote(title, content)`: `created` is the outcome of creating
     * the document (the note the store returns), `read` the outcome of the
     * follow-up open's content fetch. The created note is appended, and the
     * follow-up open runs against the note list as it was before the append.
     */
    method CreateNewNote(title: string, content: string, created: Outcome<Note>, read: Outcome<string>)
      modifies this`notes, this`tabs, this`activeTab, this`error
      ensures created.Err? ==>
        notes == old(notes) && tabs == old(tabs) && activeTab == old(activeTab) && error == Some(CreateFailed)
      ensures created.Ok? ==> notes == old(notes) + [created.value]
      ensures created.Ok? ==>
        var r := Open(old(tabs), old(activeTab), old(notes), created.value.id, read);
        tabs == r.tabs && activeTab == r.activeTab && error == r.error
      // a note new to the session never gets a tab: the open reports an error instead
      ensures created.Ok? && TabOfNote(old(tabs), created.value.id) == -1 && FindNote(old(notes), created.value.id).None? ==>
        tabs == old(tabs) && activeTab == old(activeTab) &&
        error == Some(if read.Ok? then NotFound else OpenFailed)
      ensures old(Valid()) ==> Valid()
    {
      error := None;
      match created {
        case Err =>
          error := Some(CreateFailed);
        case Ok(newNote) =>
          var snapshot := notes;
          notes := notes + [newNote];
          if Valid() {
            OpenKeepsCoherent(tabs, activeTab, snapshot, newNote.id, read);
          }
          var r := Open(tabs, activeTab, snapshot, newNote.id, read);
          tabs, activeTab, error := r.tabs, r.activeTab, r.error;
      }
    }
  }
}
