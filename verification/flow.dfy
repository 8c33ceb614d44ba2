/** `rearrangePostits`: the flow re-layout used by sort-by-creation. Notes
    are packed left to right into rows no wider than the container; a note
    that would overflow starts a new row below the tallest note of the
    current one. */
module FlowLayout {
  import opened Notes

  const FlowMargin := 30
  const FlowPadding := 20

  /** Size a note occupies in the flow (`width || 300`, `height || 400`). */
  datatype Box = Box(w: int, h: int)

  /** The loop state: next x, y of the current row, tallest height in it. */
  datatype Cursor = Cursor(x: int, rowY: int, rowMaxH: int)

  /** The row-break test `currentX + width + padding > containerWidth`. */
  predicate Breaks(c: Cursor, b: Box, containerWidth: int) {
    c.x + b.w + FlowPadding > containerWidth
  }

  /** Where the loop puts a note of size `b` from cursor `c`. */
  function PlaceAt(c: Cursor, b: Box, containerWidth: int): Pos {
    if Breaks(c, b, containerWidth) then Pos(FlowPadding, c.rowY + c.rowMaxH + FlowMargin)
    else Pos(c.x, c.rowY)
  }

  /** The cursor after placing a note of size `b`. */
  function Advance(c: Cursor, b: Box, containerWidth: int): Cursor {
    var p := PlaceAt(c, b, containerWidth);
    var rowMax := if Breaks(c, b, containerWidth) then 0 else c.rowMaxH;
    Cursor(p.x + b.w + FlowMargin, p.y, if rowMax >= b.h then rowMax else b.h)
  }

  /** Positions the loop assigns to boxes placed in order from cursor `c`. */
  function Flow(boxes: seq<Box>, c: Cursor, containerWidth: int): (ps: seq<Pos>)
    requires c.rowMaxH >= 0
    ensures |ps| == |boxes|
    ensures forall i :: 0 <= i < |ps| ==> ps[i].y >= c.rowY
    decreases |boxes|
  {
    if |boxes| == 0 then []
    else [PlaceAt(c, boxes[0], containerWidth)] + Flow(boxes[1..], Advance(c, boxes[0], containerWidth), containerWidth)
  }

  /** `q` does not overlap a box of size `b` at `p` placed earlier: it is in
      the same row, at least the box's width plus the margin to the right, or
      at least the box's height plus the margin further down. */
  predicate Clear(p: Pos, b: Box, q: Pos) {
    || (q.y == p.y && q.x >= p.x + b.w + FlowMargin)
    || q.y >= p.y + b.h + FlowMargin
  }

  /** The cursor is past an already placed box: in its row and to its right
      with the row's maximum covering its height, or below it entirely. */
  predicate Past(c: Cursor, p: Pos, b: Box) {
    || (p.y == c.rowY && p.x + b.w + FlowMargin <= c.x && b.h <= c.rowMaxH)
    || p.y + b.h + FlowMargin <= c.rowY
  }

  /** Every later placement from a cursor that is past a box is clear of it. */
  lemma {:induction false} FlowClearOfPast(boxes: seq<Box>, c: Cursor, containerWidth: int, p: Pos, b: Box, j: nat)
    requires c.rowMaxH >= 0
    requires forall i :: 0 <= i < |boxes| ==> boxes[i].w >= 0
    requires Past(c, p, b)
    requires j < |boxes|
    ensures Clear(p, b, Flow(boxes, c, containerWidth)[j])
    decreases j
  {
    var c' := Advance(c, boxes[0], containerWidth);
    assert Past(c', p, b);
    if j > 0 {
      FlowClearOfPast(boxes[1..], c', containerWidth, p, b, j - 1);
      var ps := Flow(boxes, c, containerWidth);
      assert ps[1..] == Flow(boxes[1..], c', containerWidth);
      assert ps[j] == ps[1..][j - 1];
    }
  }

  /** The flow never overlaps two notes: each note is clear of every note
      placed before it (for non-negative widths). */
  lemma {:induction false} FlowNoOverlap(boxes: seq<Box>, c: Cursor, containerWidth: int, i: nat, j: nat)
    requires c.rowMaxH >= 0
    requires forall k :: 0 <= k < |boxes| ==> boxes[k].w >= 0
    requires i < j < |boxes|
    ensures var ps := Flow(boxes, c, containerWidth);
            Clear(ps[i], boxes[i], ps[j])
    decreases i
  {
    var ps := Flow(boxes, c, containerWidth);
    var c' := Advance(c, boxes[0], containerWidth);
    var rest := Flow(boxes[1..], c', containerWidth);
    assert ps[1..] == rest;
    assert ps[j] == rest[j - 1];
    if i > 0 {
      FlowNoOverlap(boxes[1..], c', containerWidth, i - 1, j - 1);
      assert ps[i] == rest[i - 1] && boxes[i] == boxes[1..][i - 1];
    } else {
      FlowClearOfPast(boxes[1..], c', containerWidth, ps[0], boxes[0], j - 1);
    }
  }

  /** Rows go down the board: y never decreases along the flow. */
  lemma {:induction false} FlowRowsDescend(boxes: seq<Box>, c: Cursor, containerWidth: int, i: nat, j: nat)
    requires c.rowMaxH >= 0
    requires i <= j < |boxes|
    ensures var ps := Flow(boxes, c, containerWidth);
            ps[i].y <= ps[j].y
    decreases i
  {
    var ps := Flow(boxes, c, containerWidth);
    var c' := Advance(c, boxes[0], containerWidth);
    var rest := Flow(boxes[1..], c', containerWidth);
    assert ps[1..] == rest;
    if i > 0 {
      FlowRowsDescend(boxes[1..], c', containerWidth, i - 1, j - 1);
      assert ps[i] == rest[i - 1] && ps[j] == rest[j - 1];
    } else if j > 0 {
      assert ps[j] == rest[j - 1];
    }
  }

  /** The cursor after the loop has placed the first `n` boxes. */
  function CursorAfter(boxes: seq<Box>, c: Cursor, containerWidth: int, n: nat): (r: Cursor)
    requires n <= |boxes|
    ensures c.rowMaxH >= 0 ==> r.rowMaxH >= 0
    decreases n
  {
    if n == 0 then c
    else CursorAfter(boxes[1..], Advance(c, boxes[0], containerWidth), containerWidth, n - 1)
  }

  /** The `n`-th placement is made from the cursor left by the first `n`. */
  lemma {:induction false} FlowAt(boxes: seq<Box>, c: Cursor, containerWidth: int, n: nat)
    requires c.rowMaxH >= 0 && n < |boxes|
    ensures Flow(boxes, c, containerWidth)[n] == PlaceAt(CursorAfter(boxes, c, containerWidth, n), boxes[n], containerWidth)
    decreases n
  {
    if n > 0 {
      var c' := Advance(c, boxes[0], containerWidth);
      FlowAt(boxes[1..], c', containerWidth, n - 1);
      assert Flow(boxes, c, containerWidth)[n] == Flow(boxes[1..], c', containerWidth)[n - 1];
    }
  }

  /** One more box advances the cursor by one loop iteration. */
  lemma {:induction false} CursorAfterStep(boxes: seq<Box>, c: Cursor, containerWidth: int, n: nat)
    requires n < |boxes|
    ensures CursorAfter(boxes, c, containerWidth, n + 1)
            == Advance(CursorAfter(boxes, c, containerWidth, n), boxes[n], containerWidth)
    decreases n
  {
    if n > 0 {
      CursorAfterStep(boxes[1..], Advance(c, boxes[0], containerWidth), containerWidth, n - 1);
    }
  }

  /** The tallest of the first `n` boxes placed at height `y`, or 0 if
      there is none (`Math.max` over the row, starting from 0). */
  function RowTallest(boxes: seq<Box>, ps: seq<Pos>, n: nat, y: int): (m: int)
    requires n <= |boxes| && n <= |ps|
    ensures m >= 0
    ensures forall k :: 0 <= k < n && ps[k].y == y ==> boxes[k].h <= m
    ensures m == 0 || exists k :: 0 <= k < n && ps[k].y == y && boxes[k].h == m
  {
    if n == 0 then 0
    else
      var m := RowTallest(boxes, ps, n - 1, y);
      if ps[n - 1].y == y && boxes[n - 1].h > m then boxes[n - 1].h else m
  }

  /** The loop state after `n >= 1` placements, read off the placements:
      the cursor is on the row of the last note, the width plus the margin
      to its right, with the tallest note of that row as its row height;
      no note lies below the current row. Holds when the loop starts with
      an empty row, as it does. */
  lemma {:induction false} CursorAfterInvariant(boxes: seq<Box>, c: Cursor, containerWidth: int, n: nat)
    requires c.rowMaxH == 0 && 1 <= n <= |boxes|
    ensures var ps := Flow(boxes, c, containerWidth);
            var cur := CursorAfter(boxes, c, containerWidth, n);
            && cur.rowY == ps[n - 1].y
            && cur.x == ps[n - 1].x + boxes[n - 1].w + FlowMargin
            && cur.rowMaxH == RowTallest(boxes, ps, n, cur.rowY)
            && forall k :: 0 <= k < n ==> ps[k].y <= cur.rowY
    decreases n
  {
    var ps := Flow(boxes, c, containerWidth);
    var prev := CursorAfter(boxes, c, containerWidth, n - 1);
    var cur := CursorAfter(boxes, c, containerWidth, n);
    CursorAfterStep(boxes, c, containerWidth, n - 1);
    FlowAt(boxes, c, containerWidth, n - 1);
    assert cur == Advance(prev, boxes[n - 1], containerWidth);
    assert ps[n - 1] == PlaceAt(prev, boxes[n - 1], containerWidth);
    if n > 1 {
      CursorAfterInvariant(boxes, c, containerWidth, n - 1);
      if Breaks(prev, boxes[n - 1], containerWidth) {
        assert cur.rowY > prev.rowY;
        RowTallestAbove(boxes, ps, n - 1, cur.rowY);
      }
    } else if Breaks(prev, boxes[0], containerWidth) {
      assert RowTallest(boxes, ps, 0, cur.rowY) == 0;
    }
  }

  /** A row that no earlier note reaches has nothing tall in it yet. */
  lemma RowTallestAbove(boxes: seq<Box>, ps: seq<Pos>, n: nat, y: int)
    requires n <= |boxes| && n <= |ps|
    requires forall k :: 0 <= k < n ==> ps[k].y < y
    ensures RowTallest(boxes, ps, n, y) == 0
  {
  }

  /** The row rule between consecutive notes: the next note starts a new row
      exactly when it would overflow the container after the previous one;
      then it goes to the left padding, below the previous note, and (when
      the loop starts with an empty row, as it does) exactly the tallest note
      of the previous row plus the margin below that row; otherwise it sits
      on the same row, the previous width plus the margin further right. */
  lemma FlowRowRule(boxes: seq<Box>, c: Cursor, containerWidth: int, i: nat)
    requires c.rowMaxH >= 0
    requires i + 1 < |boxes|
    ensures var ps := Flow(boxes, c, containerWidth);
            var nextX := ps[i].x + boxes[i].w + FlowMargin;
            if nextX + boxes[i + 1].w + FlowPadding > containerWidth then
              ps[i + 1].x == FlowPadding
              && ps[i + 1].y >= ps[i].y + boxes[i].h + FlowMargin
              && ps[i + 1].y >= ps[i].y + FlowMargin
              && (c.rowMaxH == 0 ==>
                    ps[i + 1].y == ps[i].y + RowTallest(boxes, ps, i + 1, ps[i].y) + FlowMargin)
            else
              ps[i + 1] == Pos(nextX, ps[i].y)
  {
    FlowStep(boxes, c, containerWidth, i);
    if c.rowMaxH == 0 {
      CursorAfterInvariant(boxes, c, containerWidth, i + 1);
      FlowAt(boxes, c, containerWidth, i + 1);
    }
  }

  /** The local part of the row rule, for any starting row height. */
  lemma {:induction false} FlowStep(boxes: seq<Box>, c: Cursor, containerWidth: int, i: nat)
    requires c.rowMaxH >= 0
    requires i + 1 < |boxes|
    ensures var ps := Flow(boxes, c, containerWidth);
            var nextX := ps[i].x + boxes[i].w + FlowMargin;
            if nextX + boxes[i + 1].w + FlowPadding > containerWidth then
              ps[i + 1].x == FlowPadding
              && ps[i + 1].y >= ps[i].y + boxes[i].h + FlowMargin
              && ps[i + 1].y >= ps[i].y + FlowMargin
            else
              ps[i + 1] == Pos(nextX, ps[i].y)
    decreases i
  {
    var ps := Flow(boxes, c, containerWidth);
    var c' := Advance(c, boxes[0], containerWidth);
    assert ps[1..] == Flow(boxes[1..], c', containerWidth);
    if i > 0 {
      FlowStep(boxes[1..], c', containerWidth, i - 1);
      assert ps[i] == ps[1..][i - 1] && ps[i + 1] == ps[1..][i];
    }
  }

  /** With the cursor starting at the padding and non-negative widths, no
      note is placed left of the padding. */
  lemma {:induction false} FlowLeftBound(boxes: seq<Box>, c: Cursor, containerWidth: int)
    requires c.rowMaxH >= 0 && c.x >= FlowPadding
    requires forall i :: 0 <= i < |boxes| ==> boxes[i].w >= 0
    ensures var ps := Flow(boxes, c, containerWidth);
            forall i :: 0 <= i < |ps| ==> ps[i].x >= FlowPadding
    decreases |boxes|
  {
    if |boxes| > 0 {
      var ps := Flow(boxes, c, containerWidth);
      var c' := Advance(c, boxes[0], containerWidth);
      assert ps[1..] == Flow(boxes[1..], c', containerWidth);
      FlowLeftBound(boxes[1..], c', containerWidth);
      assert forall i :: 1 <= i < |ps| ==> ps[i] == ps[1..][i - 1];
    }
  }

  function BoxOf(n: Note): Box {
    Box(ShownWidth(n), ShownHeight(n))
  }

  /** The sizes the loop uses: a width or height of 0 (absent) counts as
      300 or 400. */
  function Boxes(notes: seq<Note>): (bs: seq<Box>)
    ensures |bs| == |notes| && forall i :: 0 <= i < |notes| ==> bs[i] == BoxOf(notes[i])
    ensures forall i :: 0 <= i < |notes| ==>
              && bs[i].w == (if notes[i].width == 0 then 300 else notes[i].width)
              && bs[i].h == (if notes[i].height == 0 then 400 else notes[i].height)
  {
    seq(|notes|, i requires 0 <= i < |notes| => BoxOf(notes[i]))
  }

  /** The loop's start: left padding, first row at the filter band's bottom. */
  function StartCursor(filterHeight: int): Cursor {
    Cursor(FlowPadding, filterHeight, 0)
  }

  /** `rearrangePostits(postits)`: every note keeps all its fields except its
      position, which becomes its place in the flow; the container width is
      the app's client width less twice the padding. */
  function Rearrange(notes: seq<Note>, filterHeight: int, clientWidth: int): (r: seq<Note>)
    ensures |r| == |notes|
    ensures forall i :: 0 <= i < |r| ==>
              r[i].position.Some? && r[i] == notes[i].(position := r[i].position)
              && r[i].position.value.y >= filterHeight
  {
    var ps := Flow(Boxes(notes), StartCursor(filterHeight), clientWidth - 2 * FlowPadding);
    seq(|notes|, i requires 0 <= i < |notes| => notes[i].(position := Some(ps[i])))
  }

  /** A note's width is stored non-negative (the resize handle only ever
      stores widths above 200, creation stores 300). */
  predicate WellSized(n: Note) {
    n.width >= 0
  }

  /** Rearranged notes go down the board in the order given. */
  lemma RearrangeRowsDescend(notes: seq<Note>, filterHeight: int, clientWidth: int, i: nat, j: nat)
    requires i <= j < |notes|
    ensures var r := Rearrange(notes, filterHeight, clientWidth);
            r[i].position.value.y <= r[j].position.value.y
  {
    var bs := Boxes(notes);
    var cw := clientWidth - 2 * FlowPadding;
    var ps := Flow(bs, StartCursor(filterHeight), cw);
    FlowRowsDescend(bs, StartCursor(filterHeight), cw, i, j);
    var r := Rearrange(notes, filterHeight, clientWidth);
    assert r[i].position.value == ps[i] && r[j].position.value == ps[j];
  }

  /** Rearranged notes never overlap, rows descend, and no note is left of
      the padding. */
  lemma RearrangeLayout(notes: seq<Note>, filterHeight: int, clientWidth: int)
    requires forall i :: 0 <= i < |notes| ==> WellSized(notes[i])
    ensures var r := Rearrange(notes, filterHeight, clientWidth);
            && (forall i, j :: 0 <= i < j < |r| ==>
                  Clear(r[i].position.value, BoxOf(notes[i]), r[j].position.value))
            && (forall i, j :: 0 <= i <= j < |r| ==> r[i].position.value.y <= r[j].position.value.y)
            && (forall i :: 0 <= i < |r| ==> r[i].position.value.x >= FlowPadding)
  {
    var bs := Boxes(notes);
    var cw := clientWidth - 2 * FlowPadding;
    var ps := Flow(bs, StartCursor(filterHeight), cw);
    var r := Rearrange(notes, filterHeight, clientWidth);
    assert forall i :: 0 <= i < |r| ==> r[i].position.value == ps[i];
    FlowLeftBound(bs, StartCursor(filterHeight), cw);
    forall i, j | 0 <= i < j < |r|
      ensures Clear(r[i].position.value, BoxOf(notes[i]), r[j].position.value)
    {
      FlowNoOverlap(bs, StartCursor(filterHeight), cw, i, j);
    }
    forall i, j | 0 <= i <= j < |r|
      ensures r[i].position.value.y <= r[j].position.value.y
    {
      RearrangeRowsDescend(notes, filterHeight, clientWidth, i, j);
    }
    forall i | 0 <= i < |r| ensures r[i].position.value.x >= FlowPadding {
      assert ps[i].x >= FlowPadding;
    }
  }

  /** Five default-size notes in a container that fits two per row come out
      in rows of two, two and one. */
  lemma FiveNotesTwoPerRow()
    ensures var b := Box(300, 400);
            Flow([b, b, b, b, b], Cursor(20, 100, 0), 700)
            == [Pos(20, 100), Pos(350, 100), Pos(20, 530), Pos(350, 530), Pos(20, 960)]
  {
    var b := Box(300, 400);
    var c0 := Cursor(20, 100, 0);
    var c1 := Advance(c0, b, 700);
    var c2 := Advance(c1, b, 700);
    var c3 := Advance(c2, b, 700);
    var c4 := Advance(c3, b, 700);
    assert c1 == Cursor(350, 100, 400);
    assert c2 == Cursor(680, 100, 400);
    assert c3 == Cursor(350, 530, 400);
    assert c4 == Cursor(680, 530, 400);
    var bs := [b, b, b, b, b];
    assert bs[1..] == [b, b, b, b] && bs[1..][1..] == [b, b, b] && bs[1..][1..][1..] == [b, b];
    assert bs[1..][1..][1..][1..] == [b];
    assert Flow([b], c4, 700) == [Pos(20, 960)];
    assert Flow([b, b], c3, 700) == [Pos(350, 530), Pos(20, 960)];
    assert Flow([b, b, b], c2, 700) == [Pos(20, 530), Pos(350, 530), Pos(20, 960)];
    assert Flow([b, b, b, b], c1, 700) == [Pos(350, 100), Pos(20, 530), Pos(350, 530), Pos(20, 960)];
  }
}
