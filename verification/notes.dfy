/** The note record the board keeps per sticky note, and the `postit-N`
    identifier format. */
module Notes {
  import opened Decimal

  datatype Option<T> = None | Some(value: T)

  /** Pixel offset of a note inside the board. */
  datatype Pos = Pos(x: int, y: int)

  type Color = string

  /** One persisted note. `width`, `height` and `zIndex` use 0 for a value
      that is absent (all the code reads them through `||`, so absent and
      0 behave alike); a note without a stored position has `position == None`. */
  datatype Note = Note(
    id: string,
    title: string,
    content: string,
    color: Color,
    createdAt: int,
    width: int,
    height: int,
    position: Option<Pos>,
    collapsed: bool,
    zIndex: int)

  const Yellow: Color := "rgba(255, 235, 59, 0.8)"
  const Green: Color := "rgba(205, 220, 57, 0.8)"
  const Blue: Color := "rgba(144, 202, 249, 0.8)"
  const Pink: Color := "rgba(248, 187, 208, 0.8)"
  const Purple: Color := "rgba(206, 147, 216, 0.8)"

  /** The five swatches offered by the filter dropdown and the color modal. */
  const Palette: seq<Color> := [Yellow, Green, Blue, Pink, Purple]

  const DefaultWidth := 300
  const DefaultHeight := 400

  /** `postit.width || 300` */
  function ShownWidth(n: Note): int {
    if n.width == 0 then DefaultWidth else n.width
  }

  /** `postit.height || 400` */
  function ShownHeight(n: Note): int {
    if n.height == 0 then DefaultHeight else n.height
  }

  const IdPrefix := "postit-"

  /** The id given to the note numbered `n`. */
  function FormatId(n: nat): (id: string)
    ensures id == IdPrefix + NatToString(n)
    ensures |id| > |IdPrefix| && id[..|IdPrefix|] == IdPrefix
    ensures AllDigits(id[|IdPrefix|..]) && DigitsValue(id[|IdPrefix|..]) == n
  {
    NatToStringRoundTrip(n);
    assert (IdPrefix + NatToString(n))[|IdPrefix|..] == NatToString(n);
    IdPrefix + NatToString(n)
  }

  /** True when `/postit-(\d+)/` can match at offset `i`. */
  predicate MatchesAt(id: string, i: nat) {
    i + |IdPrefix| < |id| && id[i..i + |IdPrefix|] == IdPrefix && IsDigit(id[i + |IdPrefix|])
  }

  /** The number the greedy `\d+` reads right after a `postit-` at offset `j`. */
  function NumberAt(id: string, j: nat): nat
    requires j + |IdPrefix| <= |id|
  {
    var rest := id[j + |IdPrefix|..];
    DigitsValue(rest[..DigitRunLength(rest)])
  }

  /** The first match of the unanchored pattern `/postit-(\d+)/` searching
      from offset `i`, read as a number; 0 when there is none. */
  function IdNumberFrom(id: string, i: nat): (k: nat)
    requires i <= |id|
    ensures (forall j :: i <= j < |id| ==> !MatchesAt(id, j)) ==> k == 0
    ensures forall j :: i <= j < |id| && MatchesAt(id, j) && (forall l :: i <= l < j ==> !MatchesAt(id, l)) ==>
              k == NumberAt(id, j)
    decreases |id| - i
  {
    if i + |IdPrefix| >= |id| then 0
    else if MatchesAt(id, i) then NumberAt(id, i)
    else IdNumberFrom(id, i + 1)
  }

  /** The number an id contributes to allocation: the digits after the first
      `postit-` that is followed by a digit, or 0 for ids that do not match. */
  function IdNumber(id: string): nat {
    IdNumberFrom(id, 0)
  }

  /** Parsing the id written for number `n` gives `n` back. */
  lemma FormatIdRoundTrip(n: nat)
    ensures IdNumber(FormatId(n)) == n
  {
    var id := FormatId(n);
    var rest := id[|IdPrefix|..];
    assert MatchesAt(id, 0);
    DigitRunOfDigits(rest);
    assert rest[..DigitRunLength(rest)] == rest;
  }

  /** Ids of different numbers are different strings. */
  lemma FormatIdInjective(m: nat, n: nat)
    requires m != n
    ensures FormatId(m) != FormatId(n)
  {
    FormatIdRoundTrip(m);
    FormatIdRoundTrip(n);
  }
}
