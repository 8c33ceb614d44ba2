/** The record store the handlers read and write: one table of notes keyed
    by id, kept in the order ids were first written (`getAll` returns key
    order; see README). `put` inserts or replaces by key; `delete` removes by
    key. Initialisation, asynchrony and I/O failure are
    not modelled here: a handler whose write may fail takes a `saveOk` flag. */
module Store {
  import opened Notes

  /** The key-path invariant of the table: no id occurs twice. */
  predicate UniqueIds(s: seq<Note>) {
    forall i, j :: 0 <= i < j < |s| ==> s[i].id != s[j].id
  }

  predicate HasId(s: seq<Note>, id: string) {
    exists i :: 0 <= i < |s| && s[i].id == id
  }

  /** The record stored under `id`, if any. */
  function Lookup(s: seq<Note>, id: string): (r: Option<Note>)
    ensures r.Some? <==> HasId(s, id)
    ensures r.Some? ==> r.value in s && r.value.id == id
    decreases |s|
  {
    if |s| == 0 then None
    else if s[0].id == id then Some(s[0])
    else
      var r := Lookup(s[1..], id);
      assert forall i :: 1 <= i < |s| ==> s[i] == s[1..][i - 1];
      r
  }

  /** In a table with unique ids, one id is at one index. */
  lemma SameIdSameIndex(s: seq<Note>, i: nat, j: nat)
    requires UniqueIds(s) && i < |s| && j < |s| && s[i].id == s[j].id
    ensures i == j
  {
  }

  /** In a table with unique ids, the record found under an id is the one
      that carries it. */
  lemma LookupUnique(s: seq<Note>, i: nat)
    requires UniqueIds(s) && i < |s|
    ensures Lookup(s, s[i].id) == Some(s[i])
  {
    var r := Lookup(s, s[i].id);
    var j :| 0 <= j < |s| && s[j] == r.value;
  }

  /** `store.put(note)`: replaces the record with the same id, or appends. */
  function Put(s: seq<Note>, n: Note): seq<Note>
    decreases |s|
  {
    if |s| == 0 then [n]
    else if s[0].id == n.id then [n] + s[1..]
    else [s[0]] + Put(s[1..], n)
  }

  /** After `put`, the note is stored under its id and every other id reads
      as before. */
  lemma {:induction false} PutLookup(s: seq<Note>, n: Note, id: string)
    ensures Lookup(Put(s, n), id) == if id == n.id then Some(n) else Lookup(s, id)
    decreases |s|
  {
    if |s| > 0 {
      var r := Put(s, n);
      if s[0].id == n.id {
        assert r[1..] == s[1..];
      } else {
        PutLookup(s[1..], n, id);
        assert r[1..] == Put(s[1..], n);
      }
    }
  }

  /** `put` of an existing id keeps the table's size; a new id adds one. */
  lemma {:induction false} PutLength(s: seq<Note>, n: Note)
    ensures |Put(s, n)| == if HasId(s, n.id) then |s| else |s| + 1
    decreases |s|
  {
    if |s| > 0 && s[0].id != n.id {
      PutLength(s[1..], n);
      assert HasId(s, n.id) <==> HasId(s[1..], n.id) by {
        if HasId(s, n.id) {
          var i :| 0 <= i < |s| && s[i].id == n.id;
          assert s[1..][i - 1] == s[i];
        }
        if HasId(s[1..], n.id) {
          var i :| 0 <= i < |s[1..]| && s[1..][i].id == n.id;
          assert s[i + 1] == s[1..][i];
        }
      }
    }
  }

  /** `put` writes only the given note: every record afterwards is that note
      or one that was there before, and ids stay unique. */
  lemma {:induction false} PutContents(s: seq<Note>, n: Note)
    ensures forall m :: m in Put(s, n) ==> m == n || m in s
    ensures UniqueIds(s) ==> UniqueIds(Put(s, n))
    decreases |s|
  {
    if |s| > 0 {
      var r := Put(s, n);
      if s[0].id == n.id {
        assert forall m :: m in r ==> m == n || m in s[1..];
        if UniqueIds(s) {
          forall i, j | 0 <= i < j < |r| ensures r[i].id != r[j].id {
            assert r[j] == s[j];
            if i > 0 { assert r[i] == s[i]; }
          }
        }
      } else {
        PutContents(s[1..], n);
        ConsUnique(s, Put(s[1..], n), n);
      }
    }
  }

  /** Keeping the head of a unique table in front of a rewritten tail whose
      records come from the tail (or are `n`, whose id differs from the
      head's) stays unique. */
  lemma ConsUnique(s: seq<Note>, t: seq<Note>, n: Note)
    requires |s| > 0 && s[0].id != n.id
    requires forall m :: m in t ==> m == n || m in s[1..]
    requires UniqueIds(s) ==> UniqueIds(t)
    ensures UniqueIds(s) ==> UniqueIds([s[0]] + t)
  {
    if UniqueIds(s) {
      var r := [s[0]] + t;
      forall i, j | 0 <= i < j < |r| ensures r[i].id != r[j].id {
        if i == 0 {
          assert r[j] in t;
          if r[j] != n {
            var k :| 0 <= k < |s[1..]| && s[1..][k] == r[j];
            assert s[k + 1] == r[j];
          }
        } else {
          assert r[i] == t[i - 1] && r[j] == t[j - 1];
        }
      }
    }
  }

  /** `store.delete(id)`. */
  function Delete(s: seq<Note>, id: string): seq<Note>
    decreases |s|
  {
    if |s| == 0 then []
    else if s[0].id == id then Delete(s[1..], id)
    else [s[0]] + Delete(s[1..], id)
  }

  /** After `delete`, nothing is stored under the id and every other id
      reads as before; the remaining records were all there already. */
  lemma {:induction false} DeleteLookup(s: seq<Note>, id: string, other: string)
    ensures Lookup(Delete(s, id), id) == None
    ensures other != id ==> Lookup(Delete(s, id), other) == Lookup(s, other)
    ensures forall m :: m in Delete(s, id) ==> m in s
    ensures UniqueIds(s) ==> UniqueIds(Delete(s, id))
    decreases |s|
  {
    if |s| > 0 {
      var t := Delete(s[1..], id);
      DeleteLookup(s[1..], id, other);
      if s[0].id != id {
        var r := [s[0]] + t;
        assert r[1..] == t;
        ConsUnique(s, t, s[0].(id := id));
      }
    }
  }

  /** The record a run of `put`s leaves under `id`: the last one written. */
  function LastWritten(ns: seq<Note>, id: string): (r: Option<Note>)
    ensures r.Some? <==> HasId(ns, id)
    ensures r.Some? ==> r.value in ns && r.value.id == id
    decreases |ns|
  {
    if |ns| == 0 then None
    else
      var later := LastWritten(ns[1..], id);
      assert forall i :: 1 <= i < |ns| ==> ns[i] == ns[1..][i - 1];
      if later.Some? then later
      else if ns[0].id == id then Some(ns[0])
      else None
  }

  /** `put` of every note of `ns`, in order. */
  function PutAll(s: seq<Note>, ns: seq<Note>): seq<Note>
    decreases |ns|
  {
    if |ns| == 0 then s else PutAll(Put(s, ns[0]), ns[1..])
  }

  /** After a run of `put`s, each id holds the last record written under it,
      and ids that were not written keep what they had. */
  lemma {:induction false} PutAllLookup(s: seq<Note>, ns: seq<Note>, id: string)
    ensures Lookup(PutAll(s, ns), id) ==
      (if HasId(ns, id) then LastWritten(ns, id) else Lookup(s, id))
    decreases |ns|
  {
    if |ns| > 0 {
      PutAllLookup(Put(s, ns[0]), ns[1..], id);
      PutLookup(s, ns[0], id);
      assert forall i :: 1 <= i < |ns| ==> ns[i] == ns[1..][i - 1];
    }
  }

  /** A run of `put`s keeps the ids unique. */
  lemma {:induction false} PutAllUnique(s: seq<Note>, ns: seq<Note>)
    requires UniqueIds(s)
    ensures UniqueIds(PutAll(s, ns))
    decreases |ns|
  {
    if |ns| > 0 {
      PutContents(s, ns[0]);
      PutAllUnique(Put(s, ns[0]), ns[1..]);
    }
  }
}
