/** Where a note goes when it has no position yet: the initial grid used when
    a stored note is rendered without a position, and the append placement
    used when the create button makes a new note. Container and viewport
    sizes and the height of the filter band are parameters. */
module Placement {
  import opened Notes

  // Grid constants of the initial placement.
  const GridWidth := 300
  const GridHeight := 400
  const GridMargin := 15
  const GridPadding := 20
  const CellWidth := GridWidth + GridMargin * 2     // 330
  const CellHeight := GridHeight + GridMargin * 2   // 430

  /** `Math.floor((clientWidth - 2 * padding) / 330)`; the divisor is
      positive, so Dafny's division is the floor. */
  function ItemsPerRow(clientWidth: int): int {
    (clientWidth - GridPadding * 2) / CellWidth
  }

  /** Top-left corner of grid cell (`row`, `col`). */
  function CellOrigin(row: int, col: int): Pos {
    Pos(GridPadding + col * CellWidth + GridMargin, GridPadding + row * CellHeight + GridMargin)
  }

  /** `calculateInitialPosition(index)`: note `index` goes to the cell in row
      `index / itemsPerRow` and column `index % itemsPerRow`. The source does
      not guard a container narrower than one cell (it divides by zero, or
      by -1 for a container under 40 px), so that case is excluded here. */
  function InitialPosition(index: nat, clientWidth: int): (p: Pos)
    requires ItemsPerRow(clientWidth) > 0
    ensures var perRow := ItemsPerRow(clientWidth);
            exists row: nat, col: nat {:trigger CellOrigin(row, col)} ::
              col < perRow && row * perRow + col == index && p == CellOrigin(row, col)
    ensures p.x >= GridPadding + GridMargin && p.y >= GridPadding + GridMargin
    ensures p.x + GridWidth + GridMargin + GridPadding <= clientWidth
  {
    var perRow := ItemsPerRow(clientWidth);
    var row := index / perRow;
    var col := index % perRow;
    assert col * CellWidth <= (perRow - 1) * CellWidth;
    CellOrigin(row, col)
  }

  /** Two different grid cells are a full cell width or height apart. */
  lemma CellsApart(ri: int, ci: int, rj: int, cj: int)
    requires ri != rj || ci != cj
    ensures var p := CellOrigin(ri, ci);
            var q := CellOrigin(rj, cj);
            p.x - q.x >= CellWidth || q.x - p.x >= CellWidth
            || p.y - q.y >= CellHeight || q.y - p.y >= CellHeight
  {
    var p := CellOrigin(ri, ci);
    var q := CellOrigin(rj, cj);
    assert q.x - p.x == (cj - ci) * 330;
    assert q.y - p.y == (rj - ri) * 430;
  }

  /** Two different indices never share a grid cell, and cells are a full
      note size plus margins apart, so initially placed notes never overlap. */
  lemma InitialPositionsDisjoint(i: nat, j: nat, clientWidth: int)
    requires ItemsPerRow(clientWidth) > 0
    requires i != j
    ensures var p := InitialPosition(i, clientWidth);
            var q := InitialPosition(j, clientWidth);
            p.x - q.x >= CellWidth || q.x - p.x >= CellWidth
            || p.y - q.y >= CellHeight || q.y - p.y >= CellHeight
  {
    var perRow := ItemsPerRow(clientWidth);
    var p := InitialPosition(i, clientWidth);
    var q := InitialPosition(j, clientWidth);
    var ri, ci :| ci < perRow && ri * perRow + ci == i && p == CellOrigin(ri, ci);
    var rj, cj :| cj < perRow && rj * perRow + cj == j && q == CellOrigin(rj, cj);
    CellsApart(ri, ci, rj, cj);
  }

  // Constants of the append placement.
  const AppendWidth := 300
  const AppendHeight := 400
  const AppendMargin := 30
  const AppendPadding := 20

  /** Index of the most recently created note: the first note, in store
      order, whose `createdAt` is maximal (the head of a stable descending
      sort). */
  function LatestIndex(notes: seq<Note>): (k: nat)
    requires |notes| > 0
    ensures k < |notes|
    ensures forall j :: 0 <= j < |notes| ==> notes[j].createdAt <= notes[k].createdAt
    ensures forall j :: 0 <= j < k ==> notes[j].createdAt < notes[k].createdAt
    decreases |notes|
  {
    if |notes| == 1 then 0
    else
      var last := |notes| - 1;
      var k := LatestIndex(notes[..last]);
      assert forall j :: 0 <= j < last ==> notes[j] == notes[..last][j];
      if notes[last].createdAt > notes[k].createdAt then last else k
  }

  /** `calculateNewPosition`: right of the latest note; on horizontal
      overflow, at the left edge one row (430 px) below the latest note; on
      vertical overflow, back at the top-left anchor under the filter band;
      never above the filter band. */
  function AppendPosition(notes: seq<Note>, filterHeight: int, viewportWidth: int, viewportHeight: int): (p: Pos)
    ensures p.y >= filterHeight
    ensures (|notes| == 0 || notes[LatestIndex(notes)].position.None?) ==> p == Pos(AppendPadding, filterHeight)
    ensures |notes| > 0 && notes[LatestIndex(notes)].position.Some? ==>
              var last := notes[LatestIndex(notes)].position.value;
              || p == Pos(AppendPadding, filterHeight)
              || (p.x == last.x + AppendWidth + AppendMargin && p.x + AppendWidth + AppendPadding <= viewportWidth)
              || (p.x == AppendPadding && p.y >= last.y + AppendHeight + AppendMargin)
  {
    var anchor := Pos(AppendPadding, filterHeight);
    if |notes| == 0 then anchor
    else
      match notes[LatestIndex(notes)].position
      case None => anchor
      case Some(last) =>
        var x := last.x + AppendWidth + AppendMargin;
        var wraps := x + AppendWidth + AppendPadding > viewportWidth;
        var x' := if wraps then AppendPadding else x;
        var y := if wraps then last.y + AppendHeight + AppendMargin else last.y;
        if y + AppendHeight + AppendPadding > viewportHeight then anchor
        else Pos(x', if y < filterHeight then filterHeight else y)
  }

  /** The three outcomes of append placement when the latest note has a
      position, with the exact coordinates each produces. */
  lemma AppendPositionCases(notes: seq<Note>, filterHeight: int, viewportWidth: int, viewportHeight: int)
    requires |notes| > 0 && notes[LatestIndex(notes)].position.Some?
    ensures var last := notes[LatestIndex(notes)].position.value;
            var p := AppendPosition(notes, filterHeight, viewportWidth, viewportHeight);
            var sameRow := last.x + 2 * AppendWidth + AppendMargin + AppendPadding <= viewportWidth;
            var y := if sameRow then last.y else last.y + AppendHeight + AppendMargin;
            && (y + AppendHeight + AppendPadding > viewportHeight ==> p == Pos(AppendPadding, filterHeight))
            && (y + AppendHeight + AppendPadding <= viewportHeight && sameRow ==>
                  p == Pos(last.x + AppendWidth + AppendMargin, if last.y < filterHeight then filterHeight else last.y))
            && (y + AppendHeight + AppendPadding <= viewportHeight && !sameRow ==>
                  p == Pos(AppendPadding, if y < filterHeight then filterHeight else y))
  {
  }
}
