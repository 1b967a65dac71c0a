/**
 * The command palette: the list of items shown for a query (three fixed
 * commands and the notes), the cursor moved by the arrow keys, and what
 * choosing an item asks of the session (open a note, close the palette).
 */
module CommandPalette {
  import opened Wrappers
  import opened Lists
  import Text
  import AppContext

  datatype ItemKind = Command | NoteItem

  datatype Item = Item(id: string, title: string, kind: ItemKind)

  /** The three fixed commands, in display order. */
  const Commands: seq<Item> := [
    Item("cmd-new-note", "New note", Command),
    Item("cmd-new-folder", "New folder", Command),
    Item("cmd-settings", "Open settings", Command)
  ]

  /** The item shown for a note. */
  function ItemOf(note: AppContext.Note): Item {
    Item(note.id, note.title, NoteItem)
  }

  /** One note item per note, in the order of the notes. */
  function NoteItems(notes: seq<AppContext.Note>): (r: seq<Item>)
    ensures |r| == |notes|
    ensures forall i :: 0 <= i < |notes| ==> r[i] == ItemOf(notes[i])
  {
    seq(|notes|, i requires 0 <= i < |notes| => ItemOf(notes[i]))
  }

  /** `title.toLowerCase().includes(query.toLowerCase())`. */
  predicate TitleMatches(title: string, query: string)
    ensures query == [] ==> TitleMatches(title, query)
    ensures Text.Contains(title, query) ==> TitleMatches(title, query)
  {
    Text.LowerKeepsContains(title, query);
    Text.Contains(Text.Lower(title), Text.Lower(query))
  }

  /** The commands whose title matches the query, in their fixed order. */
  function MatchingCommands(query: string): (r: seq<Item>)
    ensures IsSubsequence(r, Commands)
    ensures forall i :: 0 <= i < |r| ==> r[i].kind == Command && TitleMatches(r[i].title, query)
    ensures forall i :: 0 <= i < |Commands| && TitleMatches(Commands[i].title, query) ==> Commands[i] in r
  {
    FilterIsSubsequence(Commands, (c: Item) => TitleMatches(c.title, query));
    Filter(Commands, (c: Item) => TitleMatches(c.title, query))
  }

  /** Mapping notes to items keeps the subsequence relation. */
  lemma {:induction false} NoteItemsKeepSubsequence(a: seq<AppContext.Note>, b: seq<AppContext.Note>)
    requires IsSubsequence(a, b)
    ensures IsSubsequence(NoteItems(a), NoteItems(b))
    decreases |b|
  {
    if a != [] {
      assert NoteItems(b)[1..] == NoteItems(b[1..]);
      if a[0] == b[0] && IsSubsequence(a[1..], b[1..]) {
        NoteItemsKeepSubsequence(a[1..], b[1..]);
        assert NoteItems(a)[1..] == NoteItems(a[1..]);
      } else {
        NoteItemsKeepSubsequence(a, b[1..]);
      }
    }
  }

  /** The items of the notes whose title matches the query, in the order of the notes. */
  function MatchingNoteItems(query: string, notes: seq<AppContext.Note>): (r: seq<Item>)
    ensures IsSubsequence(r, NoteItems(notes))
    ensures forall i :: 0 <= i < |r| ==> r[i].kind == NoteItem
    ensures forall i :: 0 <= i < |r| ==> exists n :: n in notes && r[i] == ItemOf(n) && TitleMatches(n.title, query)
    ensures forall n :: n in notes && TitleMatches(n.title, query) ==> ItemOf(n) in r
  {
    var matching := Filter(notes, (n: AppContext.Note) => TitleMatches(n.title, query));
    FilterIsSubsequence(notes, (n: AppContext.Note) => TitleMatches(n.title, query));
    NoteItemsKeepSubsequence(matching, notes);
    var r := NoteItems(matching);
    assert forall n :: n in notes && TitleMatches(n.title, query) ==> ItemOf(n) in r by {
      forall n | n in notes && TitleMatches(n.title, query) ensures ItemOf(n) in r {
        var i :| 0 <= i < |notes| && notes[i] == n;
        var k :| 0 <= k < |matching| && matching[k] == n;
        assert r[k] == ItemOf(n);
      }
    }
    r
  }

  /** Commands followed by note items: no command comes after a note item. */
  lemma CommandsBeforeNotes(commands: seq<Item>, noteItems: seq<Item>)
    requires forall i :: 0 <= i < |commands| ==> commands[i].kind == Command
    requires forall i :: 0 <= i < |noteItems| ==> noteItems[i].kind == NoteItem
    ensures var r := commands + noteItems;
      forall i, j :: 0 <= i < j < |r| && r[j].kind == Command ==> r[i].kind == Command
  {
  }

  /**
   * The items the palette lists for a query. With an empty query: the
   * three commands, then one item per note in the order of the notes. With
   * a non-empty query: the matching commands, then the matching notes.
   */
  function FilteredItems(query: string, notes: seq<AppContext.Note>): (r: seq<Item>)
    ensures query == [] ==>
      && |r| == |Commands| + |notes|
      && r[..|Commands|] == Commands
      && forall i :: 0 <= i < |notes| ==> r[|Commands| + i] == ItemOf(notes[i])
    ensures query != [] ==>
      r == MatchingCommands(query) + MatchingNoteItems(query, notes)
    // commands always come before notes
    ensures forall i, j :: 0 <= i < j < |r| && r[j].kind == Command ==> r[i].kind == Command
  {
    if query == [] then
      var noteItems := NoteItems(notes);
      CommandsBeforeNotes(Commands, noteItems);
      assert forall i :: 0 <= i < |notes| ==> (Commands + noteItems)[|Commands| + i] == noteItems[i];
      Commands + noteItems
    else
      CommandsBeforeNotes(MatchingCommands(query), MatchingNoteItems(query, notes));
      MatchingCommands(query) + MatchingNoteItems(query, notes)
  }

  // ---------------------------------------------------------------------------
  // The cursor

  /**
   * The value of `selectedIndex`. JavaScript's `%` with a zero divisor
   * yields NaN, which is what the arrow keys store when the list is empty;
   * NaN stays NaN under further arithmetic.
   */
  datatype Cursor = Index(i: int) | NaN

  predicate InRange(c: Cursor, n: nat) {
    c.Index? && 0 <= c.i < n
  }

  /** The quotient of `a` by `n` rounded toward zero, the one that goes with JavaScript's `%`. */
  function TruncQuot(a: int, n: int): int
    requires n > 0
    decreases if a >= 0 then 2 * a else 1 - 2 * a
  {
    if a < 0 then -TruncQuot(-a, n)
    else if a < n then 0
    else 1 + TruncQuot(a - n, n)
  }

  /**
   * JavaScript's `%` on integers with a positive divisor: the remainder of
   * the magnitudes (taking `n` away while at least `n` is left), with the
   * sign of the dividend. The first three clauses determine it: `a` is a
   * multiple of `n` plus `r`, and `r` lies in `[0, n)` or `(-n, 0]` by the
   * sign of `a`.
   */
  function TruncRem(a: int, n: int): (r: int)
    requires n > 0
    ensures a == TruncQuot(a, n) * n + r
    ensures a >= 0 ==> 0 <= r < n
    ensures a <= 0 ==> -n < r <= 0
    ensures 0 <= a < n ==> r == a
    ensures n <= a < 2 * n ==> r == a - n
    decreases if a >= 0 then 2 * a else 1 - 2 * a
  {
    if a < 0 then -TruncRem(-a, n)
    else if a < n then a
    else TruncRem(a - n, n)
  }

  /** ArrowDown: `(prev + 1) % n`. */
  function Down(c: Cursor, n: nat): (r: Cursor)
    ensures InRange(c, n) ==> r == Index(if c.i + 1 < n then c.i + 1 else 0)
    ensures n == 0 || c == NaN ==> r == NaN
  {
    match c
    case NaN => NaN
    case Index(i) => if n == 0 then NaN else Index(TruncRem(i + 1, n))
  }

  /** ArrowUp: `(prev - 1 + n) % n`. */
  function Up(c: Cursor, n: nat): (r: Cursor)
    ensures InRange(c, n) ==> r == Index(if c.i > 0 then c.i - 1 else n - 1)
    ensures n == 0 || c == NaN ==> r == NaN
  {
    match c
    case NaN => NaN
    case Index(i) => if n == 0 then NaN else Index(TruncRem(i - 1 + n, n))
  }

  /** Inside a non-empty list, ArrowUp undoes ArrowDown and ArrowDown undoes ArrowUp. */
  lemma UpDownInverse(c: Cursor, n: nat)
    requires InRange(c, n)
    ensures Up(Down(c, n), n) == c
    ensures Down(Up(c, n), n) == c
  {
  }

  /** What choosing an item asks of the session. */
  datatype Effect = NoEffect | TogglePalette | OpenNoteAndToggle(noteId: string)

  /** `handleSelectItem`: a note item opens its note and closes the palette; a command only closes it. */
  function Choose(item: Item): (e: Effect)
    ensures e != NoEffect
    ensures e.OpenNoteAndToggle? <==> item.kind == NoteItem
    ensures e.OpenNoteAndToggle? ==> e.noteId == item.id
  {
    match item.kind
    case NoteItem => OpenNoteAndToggle(item.id)
    case Command => TogglePalette
  }

  /** Choosing the item of a note opens that very note and closes the palette. */
  lemma ChoosingNoteItemOpensIt(note: AppContext.Note)
    ensures Choose(ItemOf(note)) == OpenNoteAndToggle(note.id)
  {
  }

  /** Enter: acts only when `filteredItems[selectedIndex]` exists. */
  function OnEnter(items: seq<Item>, c: Cursor): (e: Effect)
    ensures e != NoEffect <==> InRange(c, |items|)
    ensures InRange(c, |items|) ==> e == Choose(items[c.i])
  {
    if InRange(c, |items|) then Choose(items[c.i]) else NoEffect
  }

  datatype Key = ArrowDown | ArrowUp | Enter | Escape | OtherKey

  /** The palette component's own state: the query, the listed items and the cursor. */
  class Palette {
    var query: string
    var filteredItems: seq<Item>
    var selectedIndex: Cursor

    /** Mounting: the query is empty, the cursor is 0, and the list effect has run once. */
    constructor (notes: seq<AppContext.Note>)
      ensures query == [] && filteredItems == FilteredItems([], notes) && selectedIndex == Index(0)
    {
      query := [];
      filteredItems := [];
      selectedIndex := Index(0);
      new;
      Refilter(notes);
    }

    /**
     * The effect that runs when the query or the notes change. A non-empty
     * query resets the cursor to 0; the empty-query branch returns before
     * that reset and leaves the cursor where it was.
     */
    method Refilter(notes: seq<AppContext.Note>)
      modifies this`filteredItems, this`selectedIndex
      ensures filteredItems == FilteredItems(query, notes)
      ensures selectedIndex == if query == [] then old(selectedIndex) else Index(0)
    {
      if query == [] {
        filteredItems := Commands + NoteItems(notes);
        return;
      }
      filteredItems := MatchingCommands(query) + MatchingNoteItems(query, notes);
      selectedIndex := Index(0);
    }

    /** Typing in the input: the query changes and the list effect runs. */
    method SetQuery(q: string, notes: seq<AppContext.Note>)
      modifies this
      ensures query == q
      ensures filteredItems == FilteredItems(q, notes)
      ensures selectedIndex == if q == [] then old(selectedIndex) else Index(0)
    {
      query := q;
      Refilter(notes);
    }

    /** `handleKeyDown`: moves the cursor or reports what the session is asked to do. */
    method KeyDown(key: Key) returns (effect: Effect)
      modifies this`selectedIndex
      ensures key == ArrowDown ==> selectedIndex == Down(old(selectedIndex), |filteredItems|) && effect == NoEffect
      ensures key == ArrowUp ==> selectedIndex == Up(old(selectedIndex), |filteredItems|) && effect == NoEffect
      ensures key == Enter ==> selectedIndex == old(selectedIndex) && effect == OnEnter(filteredItems, selectedIndex)
      ensures key == Escape ==> selectedIndex == old(selectedIndex) && effect == TogglePalette
      ensures key == OtherKey ==> selectedIndex == old(selectedIndex) && effect == NoEffect
      ensures InRange(old(selectedIndex), |filteredItems|) ==> InRange(selectedIndex, |filteredItems|)
    {
      effect := NoEffect;
      match key {
        case ArrowDown => selectedIndex := Down(selectedIndex, |filteredItems|);
        case ArrowUp => selectedIndex := Up(selectedIndex, |filteredItems|);
        case Enter =>
          if InRange(selectedIndex, |filteredItems|) {
            effect := Choose(filteredItems[selectedIndex.i]);
          }
        case Escape => effect := TogglePalette;
        case OtherKey =>
      }
    }
  }
}
