/** Bring-to-front: creating, duplicating, clicking, starting a drag and
    starting a resize all give the acted-on note the largest zIndex among
    the other stored notes plus one. Each trigger is one atomic step here. */
module ZOrder {
  import opened Notes
  import opened Store

  /** The running maximum `if (p.id !== self && p.zIndex && p.zIndex > max)`
      over the stored notes, starting from 0. */
  function MaxOtherZ(notes: seq<Note>, self: string): (m: int)
    ensures m >= 0
    ensures forall i :: 0 <= i < |notes| && notes[i].id != self ==> notes[i].zIndex <= m
    ensures m == 0 || exists i :: 0 <= i < |notes| && notes[i].id != self && notes[i].zIndex == m
    decreases |notes|
  {
    if |notes| == 0 then 0
    else
      var rest := MaxOtherZ(notes[1..], self);
      assert forall i :: 1 <= i < |notes| ==> notes[i] == notes[1..][i - 1];
      var p := notes[0];
      if p.id != self && p.zIndex != 0 && p.zIndex > rest then p.zIndex else rest
  }

  /** The zIndex the note `self` is given: at least 1, above every other
      note's zIndex, and the least such value (one more than the largest
      other zIndex, or 1). The note's own current zIndex plays no part. */
  function NextZ(notes: seq<Note>, self: string): (z: int)
    ensures z >= 1
    ensures forall i :: 0 <= i < |notes| && notes[i].id != self ==> notes[i].zIndex < z
    ensures z == 1 || exists i :: 0 <= i < |notes| && notes[i].id != self && notes[i].zIndex == z - 1
  {
    MaxOtherZ(notes, self) + 1
  }

  /** Store `n` with its new zIndex. Afterwards `n` is stored on top of every
      other note, and nothing else in the store changed. */
  function BringToFront(s: seq<Note>, n: Note): (r: seq<Note>)
    ensures Lookup(r, n.id) == Some(n.(zIndex := NextZ(s, n.id)))
    ensures forall id :: id != n.id ==> Lookup(r, id) == Lookup(s, id)
    ensures forall i :: 0 <= i < |r| && r[i].id != n.id ==> r[i].zIndex < NextZ(s, n.id)
  {
    var n' := n.(zIndex := NextZ(s, n.id));
    PutLookup(s, n', n.id);
    PutLookupOthers(s, n');
    PutContents(s, n');
    OthersBelowNextZ(s, n.id);
    Put(s, n')
  }

  /** Bring-to-front as the handlers evidently intend it: the record stored
      under `id` is raised above every other note, and only its zIndex
      changes. (The handlers write their own copy of the note instead, which
      can be older than the record; see `BringToFront`.) */
  function BringStoredToFront(s: seq<Note>, id: string): (r: seq<Note>)
    ensures Lookup(s, id).None? ==> r == s
    ensures Lookup(s, id).Some? ==>
              Lookup(r, id) == Some(Lookup(s, id).value.(zIndex := NextZ(s, id)))
    ensures forall other :: other != id ==> Lookup(r, other) == Lookup(s, other)
    ensures forall i :: 0 <= i < |r| && r[i].id != id ==> r[i].zIndex < NextZ(s, id)
  {
    match Lookup(s, id)
    case None => s
    case Some(m) => BringToFront(s, m)
  }

  /** When the copy a handler holds is the stored record, writing that copy
      to the front is the intended bring-to-front. */
  lemma BringToFrontInSync(s: seq<Note>, n: Note)
    requires Lookup(s, n.id) == Some(n)
    ensures BringToFront(s, n) == BringStoredToFront(s, n.id)
  {
  }

  /** Every stored note other than `self`, whatever its position in the
      store, is below `NextZ`. */
  lemma OthersBelowNextZ(s: seq<Note>, self: string)
    ensures forall m :: m in s && m.id != self ==> m.zIndex < NextZ(s, self)
  {
    forall m | m in s && m.id != self ensures m.zIndex < NextZ(s, self) {
      var j :| 0 <= j < |s| && s[j] == m;
    }
  }

  /** `put` leaves every other id as it was (all ids at once). */
  lemma PutLookupOthers(s: seq<Note>, n: Note)
    ensures forall id :: id != n.id ==> Lookup(Put(s, n), id) == Lookup(s, id)
  {
    forall id | id != n.id ensures Lookup(Put(s, n), id) == Lookup(s, id) {
      PutLookup(s, n, id);
    }
  }

  /** The other notes' maximum is the same after `self` is rewritten. */
  lemma {:induction false} MaxOtherZAfterPut(s: seq<Note>, n: Note)
    ensures MaxOtherZ(Put(s, n), n.id) == MaxOtherZ(s, n.id)
    decreases |s|
  {
    if |s| > 0 {
      var r := Put(s, n);
      if s[0].id == n.id {
        assert r[1..] == s[1..];
      } else {
        MaxOtherZAfterPut(s[1..], n);
        assert r[1..] == Put(s[1..], n);
      }
    }
  }

  /** Bringing the same note to the front twice in a row gives it the same
      zIndex both times: its own value is excluded from the maximum. */
  lemma BringToFrontTwice(s: seq<Note>, n: Note, again: Note)
    requires again.id == n.id
    ensures NextZ(BringToFront(s, n), again.id) == NextZ(s, n.id)
  {
    MaxOtherZAfterPut(s, n.(zIndex := NextZ(s, n.id)));
  }

  /** Bringing a different note to the front afterwards puts it strictly
      above the first one. */
  lemma BringOtherToFront(s: seq<Note>, a: Note, b: Note)
    requires a.id != b.id
    ensures NextZ(BringToFront(s, a), b.id) > NextZ(s, a.id)
  {
    var s1 := BringToFront(s, a);
    var stored := Lookup(s1, a.id).value;
    var i :| 0 <= i < |s1| && s1[i] == stored;
  }

  /** A run of bring-to-front triggers: the store afterwards and the zIndex
      each trigger assigned, in trigger order. */
  datatype FrontRun = FrontRun(store: seq<Note>, zs: seq<int>)

  function Fronts(s: seq<Note>, targets: seq<Note>): (run: FrontRun)
    ensures |run.zs| == |targets|
    decreases |targets|
  {
    if |targets| == 0 then FrontRun(s, [])
    else
      var rest := Fronts(BringToFront(s, targets[0]), targets[1..]);
      FrontRun(rest.store, [NextZ(s, targets[0].id)] + rest.zs)
  }

  /** Along any run of triggers, the assigned zIndex rises strictly whenever
      the target changes and repeats when the same note is hit twice in a
      row; so it never falls. */
  lemma {:induction false} FrontsOrder(s: seq<Note>, targets: seq<Note>, k: nat)
    requires k + 1 < |targets|
    ensures var zs := Fronts(s, targets).zs;
            && (targets[k].id != targets[k + 1].id ==> zs[k] < zs[k + 1])
            && (targets[k].id == targets[k + 1].id ==> zs[k] == zs[k + 1])
    decreases k
  {
    var s1 := BringToFront(s, targets[0]);
    var zs := Fronts(s, targets).zs;
    var rest := Fronts(s1, targets[1..]).zs;
    assert zs[1..] == rest;
    if k == 0 {
      var t := targets[1..];
      assert rest[0] == NextZ(s1, t[0].id);
      if targets[0].id != targets[1].id {
        BringOtherToFront(s, targets[0], targets[1]);
      } else {
        BringToFrontTwice(s, targets[0], targets[1]);
      }
    } else {
      FrontsOrder(s1, targets[1..], k - 1);
      assert zs[k] == rest[k - 1] && zs[k + 1] == rest[k];
    }
  }
}
