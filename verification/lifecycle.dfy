/** The whole-note operations: loading the board, creating a note from the
    filter band, duplicating and deleting one from its menu, and the date and
    title strings a new note carries. The clock is a parameter: `now` is the
    creation time in milliseconds and `today` the local calendar day. */
module Lifecycle {
  import opened Decimal
  import opened Notes
  import opened Store
  import opened Sorting
  import opened IdAllocator
  import opened Placement
  import opened ZOrder
  import opened ColorFilter
  import opened FlowLayout

  // ---------------------------------------------------------------------
  // Dates and titles

  /** A calendar day as `Date` reports it, with the month counted from 1
      (`getMonth() + 1`). */
  datatype Day = Day(year: nat, month: nat, day: nat)

  predicate ValidDay(d: Day) {
    1 <= d.month <= 12 && 1 <= d.day <= 31
  }

  lemma NatToStringShort(n: nat)
    requires n < 100
    ensures |NatToString(n)| <= 2
  {
    if n >= 10 {
      assert NatToString(n) == NatToString(n / 10) + [DigitChar(n % 10)];
    }
  }

  /** `formatDate`: `YYYY.MM.DD`, the month and day padded to two digits. */
  function FormatDate(d: Day): (s: string)
    requires ValidDay(d)
    ensures |s| >= 7 && s[|s| - 6] == '.' && s[|s| - 3] == '.'
    ensures d.year > 0 ==> s[0] != '0'
  {
    NatToStringShort(d.month);
    NatToStringShort(d.day);
    NatToString(d.year) + "." + PadTwo(NatToString(d.month)) + "." + PadTwo(NatToString(d.day))
  }

  /** Reads a `YYYY.MM.DD` string back: the last two dot-separated fields
      are two digits each, everything before the first of those dots is the
      year. */
  function ParseDate(s: string): (r: Option<Day>)
    ensures r.Some? ==> |s| >= 7 && s[|s| - 6] == '.' && s[|s| - 3] == '.'
  {
    if |s| >= 7 && s[|s| - 6] == '.' && s[|s| - 3] == '.'
       && AllDigits(s[..|s| - 6]) && AllDigits(s[|s| - 5..|s| - 3]) && AllDigits(s[|s| - 2..])
    then Some(Day(DigitsValue(s[..|s| - 6]), DigitsValue(s[|s| - 5..|s| - 3]), DigitsValue(s[|s| - 2..])))
    else None
  }

  /** Where the fields of `y.m.d` sit, for two-character `m` and `d`. */
  lemma DateFields(y: string, m: string, d: string)
    requires |y| >= 1 && |m| == 2 && |d| == 2
    ensures var s := y + "." + m + "." + d;
            && |s| >= 7 && s[|s| - 6] == '.' && s[|s| - 3] == '.'
            && s[..|s| - 6] == y && s[|s| - 5..|s| - 3] == m && s[|s| - 2..] == d
  {
  }

  /** A month or day field: two digits that read back as the number. */
  lemma TwoDigitField(n: nat)
    requires n < 100
    ensures var p := PadTwo(NatToString(n));
            |p| == 2 && AllDigits(p) && DigitsValue(p) == n
  {
    NatToStringShort(n);
    NatToStringRoundTrip(n);
    PadTwoValue(NatToString(n));
  }

  /** Parsing `y.m.d` for digit strings `y`, `m`, `d` (the last two of
      length 2) gives their values. */
  lemma ParseFields(y: string, m: string, d: string)
    requires |y| >= 1 && |m| == 2 && |d| == 2
    requires AllDigits(y) && AllDigits(m) && AllDigits(d)
    ensures ParseDate(y + "." + m + "." + d) == Some(Day(DigitsValue(y), DigitsValue(m), DigitsValue(d)))
  {
    DateFields(y, m, d);
  }

  /** The formatted date reads back as the same day. */
  lemma FormatDateRoundTrip(d: Day)
    requires ValidDay(d)
    ensures ParseDate(FormatDate(d)) == Some(d)
  {
    var y := NatToString(d.year);
    var m := PadTwo(NatToString(d.month));
    var dd := PadTwo(NatToString(d.day));
    TwoDigitField(d.month);
    TwoDigitField(d.day);
    NatToStringRoundTrip(d.year);
    assert FormatDate(d) == y + "." + m + "." + dd;
    ParseFields(y, m, dd);
  }

  const TitlePrefix := "메모 "
  const TitleSeparator := " - "

  /** The title of note number `n` made on `date`: `메모 <n> - <date>`. The
      digits between the prefix and the separator are the number, written
      without leading zeros. */
  function Title(n: nat, date: string): (t: string)
    ensures |t| > |TitlePrefix| + |TitleSeparator| + |date|
    ensures t[..|TitlePrefix|] == TitlePrefix && t[|t| - |date|..] == date
    ensures t[|t| - |date| - |TitleSeparator|..|t| - |date|] == TitleSeparator
    ensures var digits := t[|TitlePrefix|..|t| - |date| - |TitleSeparator|];
            && AllDigits(digits) && DigitsValue(digits) == n
            && (|digits| == 1 || digits[0] != '0')
  {
    var digits := NatToString(n);
    var t := TitlePrefix + digits + TitleSeparator + date;
    assert t[|TitlePrefix|..|t| - |date| - |TitleSeparator|] == digits;
    assert t[|t| - |date| - |TitleSeparator|..|t| - |date|] == TitleSeparator;
    NatToStringRoundTrip(n);
    t
  }

  // ---------------------------------------------------------------------
  // Loading the board

  function ZKey(n: Note): int {
    n.zIndex
  }

  /** What rendering one stored note produces: the note as stored, where it
      is drawn, its stacking order, whether it is displayed, and the record
      written back when it had no position yet. */
  datatype Rendered = Rendered(note: Note, pos: Pos, z: int, visible: bool, saved: Option<Note>)

  /** `renderPostit(postit, index)` for a stored note: a note without a
      position is put in grid cell `index` and written back with it; its
      stacking order is `zIndex || index + 100`; it is hidden when a filter
      of another color is active. Only a note without a position needs the
      grid, and so a container at least one cell wide. */
  function RenderAt(n: Note, index: nat, clientWidth: int, f: Filter): (v: Rendered)
    requires n.position.None? ==> ItemsPerRow(clientWidth) > 0
    ensures v.note == n && (v.visible <==> Shown(f, n))
    ensures n.position.Some? ==> v.pos == n.position.value && v.saved.None?
    ensures n.position.None? ==>
              && v.saved == Some(n.(position := Some(v.pos)))
              && v.pos == InitialPosition(index, clientWidth)
              && v.pos.x >= GridPadding + GridMargin && v.pos.y >= GridPadding + GridMargin
    ensures n.zIndex != 0 ==> v.z == n.zIndex
    ensures n.zIndex == 0 ==> v.z == index + 100
  {
    var pos := if n.position.Some? then n.position.value else InitialPosition(index, clientWidth);
    Rendered(n, pos, if n.zIndex != 0 then n.zIndex else index + 100, Shown(f, n),
             if n.position.Some? then None else Some(n.(position := Some(pos))))
  }

  function NotesOf(r: seq<Rendered>): (ns: seq<Note>)
    ensures |ns| == |r| && forall k :: 0 <= k < |r| ==> ns[k] == r[k].note
  {
    seq(|r|, k requires 0 <= k < |r| => r[k].note)
  }

  /** `renderPostitList`: every stored note is rendered exactly once, in
      ascending order of stored zIndex (a missing one counting as 0), notes
      with equal zIndex keeping their stored order, and rendering index `k`
      is the grid cell a positionless note gets. The grid needs room for at
      least one cell unless every note has a position. */
  function LoadBoard(stored: seq<Note>, clientWidth: int, f: Filter): (r: seq<Rendered>)
    requires ItemsPerRow(clientWidth) > 0 || forall k :: 0 <= k < |stored| ==> stored[k].position.Some?
    ensures |r| == |stored|
    ensures multiset(NotesOf(r)) == multiset(stored)
    ensures forall i, j :: 0 <= i < j < |r| ==> r[i].note.zIndex <= r[j].note.zIndex
    ensures forall k :: 0 <= k < |r| ==>
              (r[k].note.position.Some? || ItemsPerRow(clientWidth) > 0)
              && r[k] == RenderAt(r[k].note, k, clientWidth, f)
    ensures forall z :: KeyRun(NotesOf(r), ZKey, z) == KeyRun(stored, ZKey, z)
  {
    var sorted := SortBy(stored, ZKey);
    PermutationMembers(sorted, stored);
    forall z ensures KeyRun(sorted, ZKey, z) == KeyRun(stored, ZKey, z) {
      SortByStable(stored, ZKey, z);
    }
    var r := seq(|sorted|, k requires 0 <= k < |sorted| => RenderAt(sorted[k], k, clientWidth, f));
    assert NotesOf(r) == sorted;
    assert forall i, j :: 0 <= i < j < |r| ==> ZKey(sorted[i]) <= ZKey(sorted[j]);
    r
  }

  /** Notes loaded without a position land in different grid cells, a full
      note size plus margins apart. */
  lemma LoadBoardFillsDisjoint(stored: seq<Note>, clientWidth: int, f: Filter, i: nat, j: nat)
    requires ItemsPerRow(clientWidth) > 0 || forall k :: 0 <= k < |stored| ==> stored[k].position.Some?
    requires i < |stored| && j < |stored| && i != j
    ensures var r := LoadBoard(stored, clientWidth, f);
            r[i].note.position.None? && r[j].note.position.None? ==>
              var p := r[i].pos;
              var q := r[j].pos;
              p.x - q.x >= CellWidth || q.x - p.x >= CellWidth
              || p.y - q.y >= CellHeight || q.y - p.y >= CellHeight
  {
    var r := LoadBoard(stored, clientWidth, f);
    if r[i].note.position.None? && r[j].note.position.None? {
      assert r[i].pos == InitialPosition(i, clientWidth);
      assert r[j].pos == InitialPosition(j, clientWidth);
      InitialPositionsDisjoint(i, j, clientWidth);
    }
  }

  /** Stacking after a load follows the stored order among notes that all
      have a zIndex, and among notes that all lack one. */
  lemma LoadBoardStacking(stored: seq<Note>, clientWidth: int, f: Filter, i: nat, j: nat)
    requires ItemsPerRow(clientWidth) > 0 || forall k :: 0 <= k < |stored| ==> stored[k].position.Some?
    requires i < j < |stored|
    ensures var r := LoadBoard(stored, clientWidth, f);
            && (r[i].note.zIndex != 0 && r[j].note.zIndex != 0 ==> r[i].z <= r[j].z)
            && (r[i].note.zIndex == 0 && r[j].note.zIndex == 0 ==> r[i].z < r[j].z)
  {
  }

  /** A note that was never brought to the front is drawn at `index + 100`,
      which puts it above a note stored with zIndex 5 that is rendered after
      it. */
  lemma LoadBoardUnrankedAbove(a: Note, b: Note)
    requires a.zIndex == 0 && b.zIndex == 5 && a.position.Some? && b.position.Some?
    ensures var r := LoadBoard([b, a], 1000, None);
            r[0].note == a && r[1].note == b && r[0].z == 100 && r[1].z == 5
  {
    assert [a][1..] == [] && [b, a][1..] == [a];
    assert SortBy([a], ZKey) == [a];
    assert Insert(b, [a], ZKey) == [a] + Insert(b, [], ZKey) == [a, b];
    assert SortBy([b, a], ZKey) == [a, b];
  }

  /** Sort-by-creation rewrites the stored records from fresh copies, but
      each handler keeps the copy it got when the note was rendered. The
      next bring-to-front writes that older copy, putting the note back
      where it was before the sort; bringing the stored record to the front
      keeps the sorted place. */
  lemma StaleCopyUndoesSort()
    ensures var a := Note("postit-1", "t", "", Yellow, 0, 300, 400, Some(Pos(500, 500)), false, 1);
            var s1 := SortByCreation([a], None, 100, 1000);
            && Lookup(s1, a.id) == Some(a.(position := Some(Pos(20, 100))))
            && Lookup(BringToFront(s1, a), a.id).value.position == Some(Pos(500, 500))
            && Lookup(BringStoredToFront(s1, a.id), a.id).value.position == Some(Pos(20, 100))
  {
    var a := Note("postit-1", "t", "", Yellow, 0, 300, 400, Some(Pos(500, 500)), false, 1);
    var a' := a.(position := Some(Pos(20, 100)));
    assert [a][1..] == [];
    assert Select(None, [a]) == [a];
    assert CreationOrder([a], None) == [a];
    assert Flow([Box(300, 400)], StartCursor(100), 960) == [Pos(20, 100)];
    assert Rearrange([a], 100, 1000) == [a'];
    assert PutAll([a], [a']) == [a'];
  }

  // ---------------------------------------------------------------------
  // Creating, duplicating, deleting

  /** Store a new note and bring it to the front, as `renderPostit(postit,
      index, true)` does after the first write. */
  function AddOnTop(store: seq<Note>, n: Note): (r: seq<Note>)
    ensures Lookup(r, n.id) == Some(n.(zIndex := NextZ(store, n.id)))
    ensures forall id :: id != n.id ==> Lookup(r, id) == Lookup(store, id)
    ensures forall i :: 0 <= i < |r| && r[i].id != n.id ==> r[i].zIndex < NextZ(store, n.id)
    ensures |r| == if HasId(store, n.id) then |store| else |store| + 1
    ensures UniqueIds(store) ==> UniqueIds(r)
  {
    var s1 := Put(store, n);
    var n' := n.(zIndex := NextZ(s1, n.id));
    PutLookup(store, n, n.id);
    BringToFrontInSync(s1, n);
    var r := BringStoredToFront(s1, n.id);
    assert NextZ(s1, n.id) == NextZ(store, n.id) by { MaxOtherZAfterPut(store, n); }
    assert forall id :: id != n.id ==> Lookup(s1, id) == Lookup(store, id) by { PutLookupOthers(store, n); }
    assert HasId(s1, n.id) && |s1| == (if HasId(store, n.id) then |store| else |store| + 1) by {
      PutLookup(store, n, n.id);
      PutLength(store, n);
    }
    assert |r| == |s1| by { PutLength(s1, n'); }
    assert UniqueIds(store) ==> UniqueIds(r) by {
      PutContents(store, n);
      PutContents(s1, n');
    }
    r
  }

  /** A note that has just been stored: the store afterwards and the note as
      stored, zIndex included. */
  datatype Created = Created(store: seq<Note>, note: Note)

  /** Store `n`, which carries the least free number, and bring it to the
      front: its id is new, it ends up above every other note, and no other
      record changes. */
  function AddNew(store: seq<Note>, n: Note): (c: Created)
    requires n.id == FormatId(AllocateNumber(store))
    ensures c.note == n.(zIndex := NextZ(store, n.id))
    ensures !HasId(store, n.id) && IdNumber(n.id) == AllocateNumber(store)
    ensures Lookup(c.store, n.id) == Some(c.note)
    ensures forall i :: 0 <= i < |c.store| && c.store[i].id != n.id ==> c.store[i].zIndex < c.note.zIndex
    ensures forall id :: id != n.id ==> Lookup(c.store, id) == Lookup(store, id)
    ensures |c.store| == |store| + 1
    ensures UniqueIds(store) ==> UniqueIds(c.store)
  {
    AllocatedIdIsFresh(store);
    FormatIdRoundTrip(AllocateNumber(store));
    Created(AddOnTop(store, n), n.(zIndex := NextZ(store, n.id)))
  }

  /** `handleCreatePostit`: the least free number, today's title, empty
      content, yellow, 300 by 400, placed after the latest note, then brought
      to the front. */
  function CreateNote(store: seq<Note>, now: int, today: Day, filterHeight: int, viewportWidth: int, viewportHeight: int): (c: Created)
    requires ValidDay(today)
    ensures c.note.id == FormatId(AllocateNumber(store)) && !HasId(store, c.note.id)
    ensures IdNumber(c.note.id) == AllocateNumber(store)
    ensures c.note.zIndex == NextZ(store, c.note.id)
    ensures c.note.title == Title(AllocateNumber(store), FormatDate(today))
    ensures c.note.content == "" && c.note.color == Yellow && c.note.createdAt == now
    ensures c.note.width == DefaultWidth && c.note.height == DefaultHeight && !c.note.collapsed
    ensures c.note.position == Some(AppendPosition(store, filterHeight, viewportWidth, viewportHeight))
    ensures Lookup(c.store, c.note.id) == Some(c.note)
    ensures forall i :: 0 <= i < |c.store| && c.store[i].id != c.note.id ==> c.store[i].zIndex < c.note.zIndex
    ensures forall id :: id != c.note.id ==> Lookup(c.store, id) == Lookup(store, id)
    ensures |c.store| == |store| + 1
    ensures UniqueIds(store) ==> UniqueIds(c.store)
  {
    var number := AllocateNumber(store);
    var pos := AppendPosition(store, filterHeight, viewportWidth, viewportHeight);
    AddNew(store, Note(FormatId(number), Title(number, FormatDate(today)), "", Yellow, now,
                       DefaultWidth, DefaultHeight, Some(pos), false, 0))
  }

  /** A new note is placed below the filter band. */
  lemma CreateNoteBelowFilter(store: seq<Note>, now: int, today: Day, filterHeight: int, viewportWidth: int, viewportHeight: int)
    requires ValidDay(today)
    ensures CreateNote(store, now, today, filterHeight, viewportWidth, viewportHeight).note.position.value.y >= filterHeight
  {
  }

  /** The offset of a duplicate from its original, in each axis. */
  const DuplicateOffset := 20

  /** Duplicating `orig`, whose position is `at`: a note with the least
      free number, today's title, the original's content, color and size,
      expanded, 20 px right of and below the original, brought to the
      front; no other record changes. */
  function DuplicateAt(store: seq<Note>, orig: Note, at: Pos, now: int, today: Day): (c: Created)
    requires ValidDay(today)
    ensures c.note.id == FormatId(AllocateNumber(store)) && !HasId(store, c.note.id)
    ensures IdNumber(c.note.id) == AllocateNumber(store)
    ensures c.note.zIndex == NextZ(store, c.note.id)
    ensures c.note.title == Title(AllocateNumber(store), FormatDate(today))
    ensures c.note.content == orig.content && c.note.color == orig.color
    ensures c.note.width == orig.width && c.note.height == orig.height
    ensures !c.note.collapsed && c.note.createdAt == now
    ensures c.note.position == Some(Pos(at.x + DuplicateOffset, at.y + DuplicateOffset))
    ensures Lookup(c.store, c.note.id) == Some(c.note)
    ensures forall i :: 0 <= i < |c.store| && c.store[i].id != c.note.id ==> c.store[i].zIndex < c.note.zIndex
    ensures forall id :: id != c.note.id ==> Lookup(c.store, id) == Lookup(store, id)
    ensures |c.store| == |store| + 1
    ensures UniqueIds(store) ==> UniqueIds(c.store)
  {
    var number := AllocateNumber(store);
    AddNew(store, Note(FormatId(number), Title(number, FormatDate(today)), orig.content, orig.color, now,
                       orig.width, orig.height, Some(Pos(at.x + DuplicateOffset, at.y + DuplicateOffset)), false, 0))
  }

  /** The duplicate menu item on note `orig` (the object the page holds,
      which may differ from the stored record). An original without a
      position makes the handler throw before anything is written. */
  function DuplicateNote(store: seq<Note>, orig: Note, now: int, today: Day): (c: Option<Created>)
    requires ValidDay(today)
    ensures c.None? <==> orig.position.None?
    ensures c.Some? ==> c.value == DuplicateAt(store, orig, orig.position.value, now, today)
  {
    match orig.position
    case None => None
    case Some(at) => Some(DuplicateAt(store, orig, at, now, today))
  }

  /** A duplicate never shares an id with its original or any stored note,
      and leaves the original's record untouched. */
  lemma DuplicateKeepsOriginal(store: seq<Note>, orig: Note, now: int, today: Day)
    requires ValidDay(today) && HasId(store, orig.id) && orig.position.Some?
    ensures var c := DuplicateNote(store, orig, now, today).value;
            c.note.id != orig.id && Lookup(c.store, orig.id) == Lookup(store, orig.id)
  {
  }

  /** The delete menu item: a successful delete removes the note's record
      and leaves every other record as it was; a failed one changes
      nothing. */
  function DeleteNote(store: seq<Note>, id: string, deleteOk: bool): (r: seq<Note>)
    ensures deleteOk ==> Lookup(r, id) == None
    ensures forall other :: other != id ==> Lookup(r, other) == Lookup(store, other)
    ensures !deleteOk ==> r == store
    ensures UniqueIds(store) ==> UniqueIds(r)
  {
    if deleteOk then
      DeleteLookup(store, id, id);
      forall other | other != id ensures Lookup(Delete(store, id), other) == Lookup(store, other) {
        DeleteLookup(store, id, other);
      }
      Delete(store, id)
    else store
  }

  /** After a note is deleted, creating a note can hand its number out
      again: the next number is at most the deleted one when no other id
      parses to it. */
  lemma DeleteThenCreateReuses(store: seq<Note>, i: nat)
    requires UniqueIds(store) && i < |store| && IdNumber(store[i].id) >= 1
    requires forall j :: 0 <= j < |store| && j != i ==> IdNumber(store[j].id) != IdNumber(store[i].id)
    ensures AllocateNumber(DeleteNote(store, store[i].id, true)) <= IdNumber(store[i].id)
  {
    var id := store[i].id;
    var r := DeleteNote(store, id, true);
    DeleteLookup(store, id, id);
    forall k | 0 <= k < |r| ensures IdNumber(r[k].id) != IdNumber(id) {
      assert r[k] in store;
      var j :| 0 <= j < |store| && store[j] == r[k];
    }
    AllocateReusesFreedNumber(r, IdNumber(id));
  }
}
