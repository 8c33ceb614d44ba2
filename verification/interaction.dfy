/** The per-note interaction handlers: dragging by the header, resizing by
    the corner handle, editing the text, collapsing. Pointer coordinates,
    bounding-rectangle tests and the outcome of a store write are inputs. */
module Interaction {
  import opened Notes

  // ---------------------------------------------------------------------
  // Drag

  /** A pointer offset from where the drag started. */
  datatype Delta = Delta(dx: int, dy: int)

  /** One `mousemove` while dragging: the start offset plus the pointer
      delta, pushed right of 0 and below the filter band. */
  function DragMove(start: Pos, d: Delta, filterHeight: int): (p: Pos)
    ensures p.x >= 0 && p.y >= filterHeight
    ensures start.x + d.dx >= 0 ==> p.x == start.x + d.dx
    ensures start.y + d.dy >= filterHeight ==> p.y == start.y + d.dy
    ensures p.x == 0 || p.x == start.x + d.dx
    ensures p.y == filterHeight || p.y == start.y + d.dy
  {
    var left := start.x + d.dx;
    var top := start.y + d.dy;
    Pos(if left < 0 then 0 else left, if top < filterHeight then filterHeight else top)
  }

  function Abs(n: int): nat {
    if n < 0 then -n else n
  }

  /** The clamped position is the admissible position nearest to where the
      pointer would have put the note, in each axis. */
  lemma DragMoveNearest(start: Pos, d: Delta, filterHeight: int, q: Pos)
    requires q.x >= 0 && q.y >= filterHeight
    ensures var p := DragMove(start, d, filterHeight);
            && Abs(p.x - (start.x + d.dx)) <= Abs(q.x - (start.x + d.dx))
            && Abs(p.y - (start.y + d.dy)) <= Abs(q.y - (start.y + d.dy))
  {
  }

  /** What `mouseup` does with a drag. */
  datatype Release =
    | Reverted(shown: Pos)   // out of bounds: back to the start, nothing stored
    | Stayed(shown: Pos)     // in bounds but not moved: nothing stored
    | Moved(saved: Note)     // in bounds and moved: the note is stored with its new position

  /** `mouseup`: out of bounds (the note's rectangle leaves the app area or
      reaches into the filter band) restores the start position exactly;
      otherwise the note is stored only if its position changed. */
  function ReleaseDrag(n: Note, start: Pos, current: Pos, outOfBounds: bool): (o: Release)
    ensures o.Reverted? <==> outOfBounds
    ensures o.Reverted? ==> o.shown == start
    ensures o.Moved? <==> !outOfBounds && current != start
    ensures o.Moved? ==> o.saved == n.(position := Some(current))
    ensures o.Stayed? ==> o.shown == start && current == start
  {
    if outOfBounds then Reverted(start)
    else if current != start then Moved(n.(position := Some(current)))
    else Stayed(current)
  }

  /** A whole drag: the note's position when dragging started, the pointer
      deltas of the `mousemove` events in order (each is measured from the
      drag's start, so the last one decides), and the bounds test at release. */
  function DragGesture(n: Note, start: Pos, moves: seq<Delta>, filterHeight: int, outOfBounds: bool): Release {
    var current := if |moves| == 0 then start else DragMove(start, moves[|moves| - 1], filterHeight);
    ReleaseDrag(n, start, current, outOfBounds)
  }

  /** A drag either restores the exact start position or stores a position
      that is right of 0 and below the filter band, and it stores only when
      the note actually moved. */
  lemma DragGestureOutcome(n: Note, start: Pos, moves: seq<Delta>, filterHeight: int, outOfBounds: bool)
    ensures var o := DragGesture(n, start, moves, filterHeight, outOfBounds);
            && (outOfBounds ==> o == Reverted(start))
            && (o.Moved? ==>
                  && |moves| > 0 && o.saved.position.Some?
                  && o.saved.position.value.x >= 0 && o.saved.position.value.y >= filterHeight
                  && o.saved.position.value != start
                  && o.saved == n.(position := o.saved.position))
  {
  }

  // ---------------------------------------------------------------------
  // Resize

  const MinSize := 200

  /** A resize in progress: the note object, the displayed size when the
      handle was pressed, and the displayed size now. */
  datatype Resizing = Resizing(note: Note, startW: int, startH: int, w: int, h: int)

  /** `mousedown` on the handle, with the computed displayed size. */
  function BeginResize(n: Note, shownW: int, shownH: int): Resizing {
    Resizing(n, shownW, shownH, shownW, shownH)
  }

  /** One `mousemove`: each dimension takes start size plus pointer delta if
      that exceeds 200, and otherwise keeps its current value; the note
      object records exactly the accepted dimensions. */
  function ResizeMove(r: Resizing, d: Delta): (t: Resizing)
    ensures t.startW == r.startW && t.startH == r.startH
    ensures r.startW + d.dx > MinSize ==> t.w == r.startW + d.dx && t.note.width == t.w
    ensures r.startW + d.dx <= MinSize ==> t.w == r.w && t.note.width == r.note.width
    ensures r.startH + d.dy > MinSize ==> t.h == r.startH + d.dy && t.note.height == t.h
    ensures r.startH + d.dy <= MinSize ==> t.h == r.h && t.note.height == r.note.height
    ensures t.note == r.note.(width := t.note.width, height := t.note.height)
  {
    var width := r.startW + d.dx;
    var height := r.startH + d.dy;
    var n1 := if width > MinSize then r.note.(width := width) else r.note;
    var n2 := if height > MinSize then n1.(height := height) else n1;
    Resizing(n2, r.startW, r.startH,
             if width > MinSize then width else r.w,
             if height > MinSize then height else r.h)
  }

  function ResizeMoves(r: Resizing, moves: seq<Delta>): (t: Resizing)
    ensures t.startW == r.startW && t.startH == r.startH
    decreases |moves|
  {
    if |moves| == 0 then r else ResizeMoves(ResizeMove(r, moves[0]), moves[1..])
  }

  /** The last `start + d` over `ds` that exceeds 200, or `cur` if none
      does: what a dimension ends at after the moves `ds`. */
  function LastAccepted(start: int, ds: seq<int>, cur: int): int
    decreases |ds|
  {
    if |ds| == 0 then cur
    else if start + ds[|ds| - 1] > MinSize then start + ds[|ds| - 1]
    else LastAccepted(start, ds[..|ds| - 1], cur)
  }

  lemma {:induction false} LastAcceptedCons(start: int, d: int, ds: seq<int>, cur: int)
    ensures LastAccepted(start, [d] + ds, cur)
            == LastAccepted(start, ds, if start + d > MinSize then start + d else cur)
    decreases |ds|
  {
    var s := [d] + ds;
    if |ds| == 0 {
      assert s[..0] == [];
    } else {
      assert s[|s| - 1] == ds[|ds| - 1];
      assert s[..|s| - 1] == [d] + ds[..|ds| - 1];
      LastAcceptedCons(start, d, ds[..|ds| - 1], cur);
    }
  }

  function Dxs(moves: seq<Delta>): (ds: seq<int>)
    ensures |ds| == |moves| && forall i :: 0 <= i < |moves| ==> ds[i] == moves[i].dx
  {
    seq(|moves|, i requires 0 <= i < |moves| => moves[i].dx)
  }

  function Dys(moves: seq<Delta>): (ds: seq<int>)
    ensures |ds| == |moves| && forall i :: 0 <= i < |moves| ==> ds[i] == moves[i].dy
  {
    seq(|moves|, i requires 0 <= i < |moves| => moves[i].dy)
  }

  /** After a drag, the width, on screen and in the note object, is the
      last pointer position that gave more than 200, or what it was before
      the drag if none did. */
  lemma {:induction false} ResizeMovesWidth(r: Resizing, moves: seq<Delta>)
    ensures var t := ResizeMoves(r, moves);
            && t.w == LastAccepted(r.startW, Dxs(moves), r.w)
            && t.note.width == LastAccepted(r.startW, Dxs(moves), r.note.width)
    decreases |moves|
  {
    if |moves| > 0 {
      var r1 := ResizeMove(r, moves[0]);
      ResizeMovesWidth(r1, moves[1..]);
      assert Dxs(moves) == [moves[0].dx] + Dxs(moves[1..]);
      LastAcceptedCons(r.startW, moves[0].dx, Dxs(moves[1..]), r.w);
      LastAcceptedCons(r.startW, moves[0].dx, Dxs(moves[1..]), r.note.width);
    }
  }

  /** The same for the height. */
  lemma {:induction false} ResizeMovesHeight(r: Resizing, moves: seq<Delta>)
    ensures var t := ResizeMoves(r, moves);
            && t.h == LastAccepted(r.startH, Dys(moves), r.h)
            && t.note.height == LastAccepted(r.startH, Dys(moves), r.note.height)
    decreases |moves|
  {
    if |moves| > 0 {
      var r1 := ResizeMove(r, moves[0]);
      ResizeMovesHeight(r1, moves[1..]);
      assert Dys(moves) == [moves[0].dy] + Dys(moves[1..]);
      LastAcceptedCons(r.startH, moves[0].dy, Dys(moves[1..]), r.h);
      LastAcceptedCons(r.startH, moves[0].dy, Dys(moves[1..]), r.note.height);
    }
  }

  /** Each dimension, on screen and in the note object, is either what it
      was when the resize began or more than 200. */
  predicate Floored(r: Resizing, original: Note) {
    && (r.w == r.startW || r.w > MinSize)
    && (r.h == r.startH || r.h > MinSize)
    && (r.note.width == original.width || r.note.width > MinSize)
    && (r.note.height == original.height || r.note.height > MinSize)
    && r.note == original.(width := r.note.width, height := r.note.height)
  }

  /** No sequence of moves shrinks a note to 200 or below: a move that would
      is ignored, so each dimension stays at its earlier value. */
  lemma {:induction false} ResizeMovesFloored(r: Resizing, original: Note, moves: seq<Delta>)
    requires Floored(r, original)
    ensures Floored(ResizeMoves(r, moves), original)
    decreases |moves|
  {
    if |moves| > 0 {
      ResizeMovesFloored(ResizeMove(r, moves[0]), original, moves[1..]);
    }
  }

  /** What `mouseup` leaves: the note object, the displayed size, and the
      note written to the store (when the write happened and succeeded). */
  datatype ResizeEnd = ResizeEnd(note: Note, shownW: int, shownH: int, saved: Option<Note>)

  /** `mouseup`: the note is written only if the displayed size differs from
      the size at the start; a failed write restores the start size on
      screen and in the note object. */
  function EndResize(r: Resizing, saveOk: bool): (e: ResizeEnd)
    ensures e.saved.Some? <==> (r.w != r.startW || r.h != r.startH) && saveOk
    ensures e.saved.Some? ==> e.saved.value == r.note && e.note == r.note && e.shownW == r.w && e.shownH == r.h
    ensures (r.w != r.startW || r.h != r.startH) && !saveOk ==>
              e.note == r.note.(width := r.startW, height := r.startH)
              && e.shownW == r.startW && e.shownH == r.startH
    ensures r.w == r.startW && r.h == r.startH ==> e == ResizeEnd(r.note, r.w, r.h, None)
  {
    if r.w != r.startW || r.h != r.startH then
      if saveOk then ResizeEnd(r.note, r.w, r.h, Some(r.note))
      else ResizeEnd(r.note.(width := r.startW, height := r.startH), r.startW, r.startH, None)
    else ResizeEnd(r.note, r.w, r.h, None)
  }

  /** A whole resize gesture. */
  function ResizeGesture(n: Note, shownW: int, shownH: int, moves: seq<Delta>, saveOk: bool): ResizeEnd {
    EndResize(ResizeMoves(BeginResize(n, shownW, shownH), moves), saveOk)
  }

  /** A resize stores a note whose every field but width and height is as
      before, and whose width and height are each unchanged or above 200. */
  lemma ResizeGestureStores(n: Note, shownW: int, shownH: int, moves: seq<Delta>, saveOk: bool)
    ensures var e := ResizeGesture(n, shownW, shownH, moves, saveOk);
            e.saved.Some? ==>
              && (e.saved.value.width == n.width || e.saved.value.width > MinSize)
              && (e.saved.value.height == n.height || e.saved.value.height > MinSize)
              && e.saved.value == n.(width := e.saved.value.width, height := e.saved.value.height)
              && (e.shownW != shownW || e.shownH != shownH)
  {
    ResizeMovesFloored(BeginResize(n, shownW, shownH), n, moves);
  }

  /** Dragging the handle of a 300 by 400 note towards 50 by 50 changes
      nothing: the moves are ignored, and no write happens. */
  lemma ResizeTowardsFiftyIsIgnored(n: Note, saveOk: bool)
    ensures ResizeGesture(n, 300, 400, [Delta(-250, -350)], saveOk) == ResizeEnd(n, 300, 400, None)
  {
    var r := ResizeMoves(BeginResize(n, 300, 400), [Delta(-250, -350)]);
    assert r == ResizeMoves(ResizeMove(BeginResize(n, 300, 400), Delta(-250, -350)), []);
  }

  // ---------------------------------------------------------------------
  // Content

  const MaxContent := 1000

  /** The `input` handler's cap: text over 1000 characters is cut to its
      first 1000; shorter text is kept as is. */
  function CapContent(s: string): (r: string)
    ensures |r| <= MaxContent
    ensures |r| <= |s| && r == s[..|r|]
    ensures |s| <= MaxContent <==> r == s
    ensures |s| > MaxContent ==> |r| == MaxContent
  {
    if |s| > MaxContent then s[..MaxContent] else s
  }

  /** Capping twice is capping once. */
  lemma CapContentIdempotent(s: string)
    ensures CapContent(CapContent(s)) == CapContent(s)
  {
  }

  /** The text area's state: its text, the content last saved, and whether
      an `input` event happened since. */
  datatype Editor = Editor(text: string, original: string, changed: bool)

  function OpenEditor(n: Note): Editor {
    Editor(n.content, n.content, false)
  }

  /** An `input` event with the text area's raw new value. */
  function Input(e: Editor, raw: string): (f: Editor)
    ensures f.changed && f.original == e.original
    ensures |f.text| <= MaxContent && |f.text| <= |raw| && f.text == raw[..|f.text|]
    ensures f.text == CapContent(raw)
  {
    Editor(CapContent(raw), e.original, true)
  }

  /** What a save (on blur or Escape) leaves. */
  datatype Saved = Saved(editor: Editor, note: Note, stored: Option<Note>)

  /** `saveContent` as the source writes it: the note object takes the text
      before the write; a failed write puts the last saved text back in the
      text area but leaves the note object holding the unsaved text. */
  function SaveContentAsWritten(e: Editor, n: Note, saveOk: bool): (s: Saved)
    ensures !e.changed ==> s == Saved(e, n, None)
    ensures e.changed && saveOk ==> s.stored == Some(n.(content := e.text)) && s.editor == Editor(e.text, e.text, false)
                                    && s.note == n.(content := e.text)
    ensures e.changed && !saveOk ==> s.stored.None? && s.editor == Editor(e.original, e.original, true)
                                     && s.note == n.(content := e.text)
  {
    if !e.changed then Saved(e, n, None)
    else
      var n' := n.(content := e.text);
      if saveOk then Saved(Editor(e.text, e.text, false), n', Some(n'))
      else Saved(Editor(e.original, e.original, true), n', None)
  }

  /** The note object holds the content last written, which is also what the
      editor would restore. */
  predicate InSync(e: Editor, n: Note) {
    n.content == e.original
  }

  /** As written, a failed save leaves the note object holding text that is
      neither in the store nor on screen; the next unrelated write of the
      note (a bring-to-front, a drag) stores that text. */
  lemma SaveContentAsWrittenDesyncs()
    ensures var n := Note("postit-1", "", "A", Yellow, 0, 300, 400, None, false, 1);
            var s := SaveContentAsWritten(Input(OpenEditor(n), "B"), n, false);
            InSync(OpenEditor(n), n) && !InSync(s.editor, s.note)
            && s.editor.text == "A" && s.note.content == "B"
  {
  }

  /** `saveContent` with the failed write also restoring the note object, as
      the color and size handlers do for their fields. */
  function SaveContent(e: Editor, n: Note, saveOk: bool): (s: Saved)
    ensures !e.changed ==> s == Saved(e, n, None)
    ensures e.changed && saveOk ==> s.stored == Some(n.(content := e.text)) && s.editor == Editor(e.text, e.text, false)
                                    && s.note == n.(content := e.text)
    ensures e.changed && !saveOk ==> s.stored.None? && s.editor == Editor(e.original, e.original, true)
                                     && s.note == n.(content := e.original)
  {
    if !e.changed then Saved(e, n, None)
    else if saveOk then
      var n' := n.(content := e.text);
      Saved(Editor(e.text, e.text, false), n', Some(n'))
    else Saved(Editor(e.original, e.original, true), n.(content := e.original), None)
  }

  /** Events reaching a note's text area. */
  datatype EditEvent = Type(raw: string) | Blur(saveOk: bool)

  /** An editing session: the final editor, the final note object, and
      every note written to the store, in order. */
  function EditSession(e: Editor, n: Note, events: seq<EditEvent>): (s: (Editor, Note, seq<Note>))
    decreases |events|
  {
    if |events| == 0 then (e, n, [])
    else match events[0]
      case Type(raw) => EditSession(Input(e, raw), n, events[1..])
      case Blur(ok) =>
        var r := SaveContent(e, n, ok);
        var rest := EditSession(r.editor, r.note, events[1..]);
        (rest.0, rest.1, (if r.stored.Some? then [r.stored.value] else []) + rest.2)
  }

  /** Throughout an editing session that starts from content within the cap,
      every stored content is within 1000 characters, and the note object
      stays in sync with the editor. */
  lemma {:induction false} EditSessionInvariant(e: Editor, n: Note, events: seq<EditEvent>)
    requires InSync(e, n) && |e.text| <= MaxContent && |e.original| <= MaxContent
    ensures var s := EditSession(e, n, events);
            && InSync(s.0, s.1)
            && forall k :: 0 <= k < |s.2| ==> |s.2[k].content| <= MaxContent
    decreases |events|
  {
    if |events| > 0 {
      match events[0]
      case Type(raw) =>
        EditSessionInvariant(Input(e, raw), n, events[1..]);
      case Blur(ok) =>
        var r := SaveContent(e, n, ok);
        EditSessionInvariant(r.editor, r.note, events[1..]);
        var rest := EditSession(r.editor, r.note, events[1..]);
        var stored := if r.stored.Some? then [r.stored.value] else [];
        assert forall k :: 0 <= k < |stored| ==> |stored[k].content| <= MaxContent;
        assert forall k :: |stored| <= k < |stored + rest.2| ==> (stored + rest.2)[k] == rest.2[k - |stored|];
    }
  }

  // ---------------------------------------------------------------------
  // Collapse

  const CollapsedHeight := 40

  /** The toggle button: flips `collapsed` and nothing else. */
  function Toggle(n: Note): (r: Note)
    ensures r.collapsed != n.collapsed
    ensures r == n.(collapsed := r.collapsed)
  {
    n.(collapsed := !n.collapsed)
  }

  /** Height on screen: 40 when collapsed, `height || 400` otherwise. */
  function DisplayedHeight(n: Note): int {
    if n.collapsed then CollapsedHeight else ShownHeight(n)
  }

  /** Toggling twice restores the note and its displayed height. */
  lemma ToggleTwice(n: Note)
    ensures Toggle(Toggle(n)) == n
    ensures DisplayedHeight(Toggle(Toggle(n))) == DisplayedHeight(n)
  {
  }

  /** The edit menu item expands a collapsed note before focusing it. */
  function OpenForEdit(n: Note): (r: Note)
    ensures !r.collapsed
    ensures r == n.(collapsed := false)
  {
    if n.collapsed then Toggle(n) else n
  }
}
