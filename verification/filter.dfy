/** The filter band: the color filter (one active color or none), the
    visibility it implies, recoloring a note under an active filter, and
    sort-by-creation, which re-lays out the notes the filter selects. */
module ColorFilter {
  import opened Notes
  import opened Store
  import opened Sorting
  import opened FlowLayout

  /** The active color filter; `None` shows every note. */
  type Filter = Option<Color>

  /** A click on a swatch of the filter dropdown: the active color again
      clears the filter, any other color becomes the filter. */
  function ClickSwatch(f: Filter, c: Color): (g: Filter)
    ensures g.None? <==> f == Some(c)
    ensures g.Some? ==> g == Some(c)
  {
    if f == Some(c) then None else Some(c)
  }

  /** Whether a note is displayed under filter `f`: every note when no filter
      is active, otherwise exactly the notes of the filter color (the check
      when a note is rendered and the one applied to every note on a click
      agree on this). */
  predicate Shown(f: Filter, n: Note) {
    f.None? || f.value == n.color
  }

  /** After a swatch click, a note is displayed exactly when the click
      cleared the filter or the note has the clicked color. */
  lemma ClickSwatchShows(f: Filter, c: Color, n: Note)
    ensures Shown(ClickSwatch(f, c), n) <==> f == Some(c) || n.color == c
  {
  }

  /** Clicking the same swatch twice returns to where the filter was, unless
      it started on another color, in which case the filter is cleared and
      every note shows again. */
  lemma ClickSwatchTwice(f: Filter, c: Color, n: Note)
    ensures var g := ClickSwatch(ClickSwatch(f, c), c);
            && (f == Some(c) ==> g == f)
            && (f != Some(c) ==> g.None? && Shown(g, n))
  {
  }

  /** What choosing a color in a note's color modal leaves: the note object,
      what is written, and whether the note is displayed. */
  datatype Recolor = Recolor(note: Note, stored: Option<Note>, shown: bool)

  /** Choosing `newColor`: the note takes the color and is written; after a
      successful write it is hidden if a filter of another color is active;
      a failed write restores the old color. */
  function RecolorNote(n: Note, newColor: Color, saveOk: bool, f: Filter, shown: bool): (o: Recolor)
    ensures saveOk ==> o.note == n.(color := newColor) && o.stored == Some(o.note)
    ensures saveOk && f.Some? && f.value != newColor ==> !o.shown
    ensures saveOk && (f.None? || f.value == newColor) ==> o.shown == shown
    ensures !saveOk ==> o == Recolor(n, None, shown)
  {
    if saveOk then
      var n' := n.(color := newColor);
      Recolor(n', Some(n'), shown && !(f.Some? && f.value != newColor))
    else Recolor(n, None, shown)
  }

  /** A displayed note (only those can be clicked) stays displayed exactly
      when the filter admits its color after the change, whether or not the
      write succeeds. */
  lemma RecolorKeepsFilter(n: Note, newColor: Color, saveOk: bool, f: Filter)
    requires Shown(f, n)
    ensures var o := RecolorNote(n, newColor, saveOk, f, true);
            o.shown == Shown(f, o.note)
  {
  }

  /** `colorFilter ? allPostits.filter(p => p.color === colorFilter) : allPostits`. */
  function Select(f: Filter, notes: seq<Note>): (r: seq<Note>)
    ensures forall i :: 0 <= i < |r| ==> r[i] in notes && Shown(f, r[i])
    ensures forall i :: 0 <= i < |notes| && Shown(f, notes[i]) ==> notes[i] in r
    ensures f.None? ==> r == notes
    decreases |notes|
  {
    if |notes| == 0 then []
    else
      var rest := Select(f, notes[1..]);
      assert forall i :: 1 <= i < |notes| ==> notes[i] == notes[1..][i - 1];
      (if Shown(f, notes[0]) then [notes[0]] else []) + rest
  }

  /** Filtering a concatenation filters each part and keeps them in order. */
  lemma {:induction false} SelectConcat(f: Filter, a: seq<Note>, b: seq<Note>)
    ensures Select(f, a + b) == Select(f, a) + Select(f, b)
    decreases |a|
  {
    if |a| > 0 {
      var head := if Shown(f, a[0]) then [a[0]] else [];
      var t := a[1..];
      assert a == [a[0]] + t;
      assert a + b == [a[0]] + (t + b);
      SelectCons(f, a[0], t + b);
      SelectCons(f, a[0], t);
      SelectConcat(f, t, b);
      ConcatAssoc(head, Select(f, t), Select(f, b));
    } else {
      assert a + b == b;
    }
  }

  lemma ConcatAssoc<T>(x: seq<T>, y: seq<T>, z: seq<T>)
    ensures x + (y + z) == (x + y) + z
  {
  }

  lemma SelectCons(f: Filter, h: Note, t: seq<Note>)
    ensures Select(f, [h] + t) == (if Shown(f, h) then [h] else []) + Select(f, t)
  {
    assert ([h] + t)[1..] == t;
  }

  /** `filter` keeps order and multiplicity: nothing is selected from no
      notes, and one more note at the end adds itself exactly when the
      filter admits it. */
  lemma SelectAppend(f: Filter, notes: seq<Note>, n: Note)
    ensures Select(f, []) == []
    ensures Select(f, notes + [n]) == Select(f, notes) + (if Shown(f, n) then [n] else [])
  {
    SelectConcat(f, notes, [n]);
    assert [n][1..] == [];
  }

  function CreatedKey(n: Note): int {
    n.createdAt
  }

  /** The selected notes in creation order; notes created at the same
      instant keep their stored order. */
  function CreationOrder(store: seq<Note>, f: Filter): (r: seq<Note>)
    ensures multiset(r) == multiset(Select(f, store))
    ensures forall i, j :: 0 <= i < j < |r| ==> r[i].createdAt <= r[j].createdAt
    ensures forall c :: KeyRun(r, CreatedKey, c) == KeyRun(Select(f, store), CreatedKey, c)
  {
    var r := SortBy(Select(f, store), CreatedKey);
    forall c ensures KeyRun(r, CreatedKey, c) == KeyRun(Select(f, store), CreatedKey, c) {
      SortByStable(Select(f, store), CreatedKey, c);
    }
    assert forall i, j :: 0 <= i < j < |r| ==> CreatedKey(r[i]) <= CreatedKey(r[j]);
    r
  }

  /** `handleSortByCreation`: with nothing stored or nothing selected the
      store is left as is; otherwise the selected notes, sorted ascending by
      `createdAt`, are flowed from under the filter band and each is written
      back in that order. */
  function SortByCreation(store: seq<Note>, f: Filter, filterHeight: int, clientWidth: int): (r: seq<Note>)
    ensures |Select(f, store)| == 0 ==> r == store
  {
    if |store| == 0 || |Select(f, store)| == 0 then store
    else PutAll(store, Rearrange(CreationOrder(store, f), filterHeight, clientWidth))
  }

  /** Every note in creation order is a selected stored note. */
  lemma CreationOrderMember(store: seq<Note>, f: Filter, k: nat) returns (j: nat)
    requires k < |CreationOrder(store, f)|
    ensures j < |store| && store[j] == CreationOrder(store, f)[k] && Shown(f, store[j])
  {
    var sel := Select(f, store);
    var sorted := CreationOrder(store, f);
    PermutationMembers(sorted, sel);
    var t :| 0 <= t < |sel| && sel[t] == sorted[k];
    j :| 0 <= j < |store| && store[j] == sel[t];
  }

  /** Every selected stored note occurs in creation order. */
  lemma CreationOrderHas(store: seq<Note>, f: Filter, i: nat) returns (k: nat)
    requires i < |store| && Shown(f, store[i])
    ensures k < |CreationOrder(store, f)| && CreationOrder(store, f)[k] == store[i]
  {
    var sel := Select(f, store);
    var sorted := CreationOrder(store, f);
    PermutationMembers(sel, sorted);
    var t :| 0 <= t < |sel| && sel[t] == store[i];
    k :| 0 <= k < |sorted| && sorted[k] == store[i];
  }

  /** The index in creation order of the selected note `store[i]`, and the
      fact that sort-by-creation stores for it the flowed record at that
      index. */
  lemma SortedSlot(store: seq<Note>, f: Filter, filterHeight: int, clientWidth: int, i: nat) returns (k: nat)
    requires UniqueIds(store) && i < |store| && Shown(f, store[i])
    ensures var sorted := CreationOrder(store, f);
            var laid := Rearrange(sorted, filterHeight, clientWidth);
            && k < |sorted| && sorted[k] == store[i]
            && Lookup(SortByCreation(store, f, filterHeight, clientWidth), store[i].id) == Some(laid[k])
  {
    var sorted := CreationOrder(store, f);
    var laid := Rearrange(sorted, filterHeight, clientWidth);
    var id := store[i].id;
    var k0 := CreationOrderHas(store, f, i);
    assert |Select(f, store)| == |sorted| > 0;
    assert SortByCreation(store, f, filterHeight, clientWidth) == PutAll(store, laid);
    assert HasId(laid, id) by { assert laid[k0].id == id; }
    PutAllLookup(store, laid, id);
    var m := LastWritten(laid, id).value;
    k :| 0 <= k < |laid| && laid[k] == m;
    var j := CreationOrderMember(store, f, k);
    SameIdSameIndex(store, i, j);
  }

  /** Sort-by-creation changes only the positions of the selected notes,
      moving each below the filter band, and leaves every other note exactly
      as it was. */
  lemma SortByCreationEffect(store: seq<Note>, f: Filter, filterHeight: int, clientWidth: int, i: nat)
    requires UniqueIds(store) && i < |store|
    ensures var m := Lookup(SortByCreation(store, f, filterHeight, clientWidth), store[i].id);
            && m.Some?
            && (Shown(f, store[i]) ==>
                  && m.value == store[i].(position := m.value.position)
                  && m.value.position.Some? && m.value.position.value.y >= filterHeight)
            && (!Shown(f, store[i]) ==> m.value == store[i])
  {
    LookupUnique(store, i);
    if Shown(f, store[i]) {
      var k := SortedSlot(store, f, filterHeight, clientWidth, i);
    } else if |Select(f, store)| > 0 {
      var sorted := CreationOrder(store, f);
      var laid := Rearrange(sorted, filterHeight, clientWidth);
      forall k | 0 <= k < |laid| ensures laid[k].id != store[i].id {
        var j := CreationOrderMember(store, f, k);
      }
      PutAllLookup(store, laid, store[i].id);
    }
  }

  /** Sort-by-creation neither adds ids nor breaks their uniqueness. */
  lemma SortByCreationKeepsIds(store: seq<Note>, f: Filter, filterHeight: int, clientWidth: int, id: string)
    requires UniqueIds(store)
    ensures var r := SortByCreation(store, f, filterHeight, clientWidth);
            && UniqueIds(r)
            && (!HasId(store, id) ==> Lookup(r, id) == None)
  {
    var sel := Select(f, store);
    if |store| > 0 && |sel| > 0 {
      var sorted := CreationOrder(store, f);
      var laid := Rearrange(sorted, filterHeight, clientWidth);
      PutAllUnique(store, laid);
      PutAllLookup(store, laid, id);
      if !HasId(store, id) {
        forall k | 0 <= k < |laid| ensures laid[k].id != id {
          var j := CreationOrderMember(store, f, k);
        }
      }
    }
  }

  /** Of two selected notes, the one created earlier is never placed on a
      lower row than the one created later, and (for non-negative widths)
      the later one comes after it in reading order: further right on the
      same row, or on a row clear below it. */
  lemma SortByCreationOrder(store: seq<Note>, f: Filter, filterHeight: int, clientWidth: int, i: nat, j: nat)
    requires UniqueIds(store) && i < |store| && j < |store|
    requires Shown(f, store[i]) && Shown(f, store[j])
    requires store[i].createdAt < store[j].createdAt
    ensures var r := SortByCreation(store, f, filterHeight, clientWidth);
            var a := Lookup(r, store[i].id);
            var b := Lookup(r, store[j].id);
            && a.Some? && a.value.position.Some?
            && b.Some? && b.value.position.Some?
            && a.value.position.value.y <= b.value.position.value.y
            && ((forall k :: 0 <= k < |store| ==> WellSized(store[k])) ==>
                  Clear(a.value.position.value, BoxOf(store[i]), b.value.position.value))
  {
    var sorted := CreationOrder(store, f);
    var ki := SortedSlot(store, f, filterHeight, clientWidth, i);
    var kj := SortedSlot(store, f, filterHeight, clientWidth, j);
    SortedIndexOrder(sorted, CreatedKey, ki, kj);
    RearrangeRowsDescend(sorted, filterHeight, clientWidth, ki, kj);
    if forall k :: 0 <= k < |store| ==> WellSized(store[k]) {
      forall k | 0 <= k < |sorted| ensures WellSized(sorted[k]) {
        var u := CreationOrderMember(store, f, k);
      }
      RearrangeLayout(sorted, filterHeight, clientWidth);
    }
  }

  /** Two selected notes with non-negative widths do not overlap after
      sort-by-creation: the later one in creation order is clear of the
      earlier one. */
  lemma SortByCreationNoOverlap(store: seq<Note>, f: Filter, filterHeight: int, clientWidth: int, i: nat, j: nat)
    requires UniqueIds(store) && i < |store| && j < |store| && i != j
    requires Shown(f, store[i]) && Shown(f, store[j])
    requires forall k :: 0 <= k < |store| ==> WellSized(store[k])
    ensures var r := SortByCreation(store, f, filterHeight, clientWidth);
            var a := Lookup(r, store[i].id);
            var b := Lookup(r, store[j].id);
            && a.Some? && a.value.position.Some?
            && b.Some? && b.value.position.Some?
            && (Clear(a.value.position.value, BoxOf(store[i]), b.value.position.value)
                || Clear(b.value.position.value, BoxOf(store[j]), a.value.position.value))
  {
    var sorted := CreationOrder(store, f);
    var ki := SortedSlot(store, f, filterHeight, clientWidth, i);
    var kj := SortedSlot(store, f, filterHeight, clientWidth, j);
    forall k | 0 <= k < |sorted| ensures WellSized(sorted[k]) {
      var u := CreationOrderMember(store, f, k);
    }
    RearrangeLayout(sorted, filterHeight, clientWidth);
    assert ki != kj by {
      assert store[i].id != store[j].id by {
        if i < j { } else { }
      }
    }
  }
}
