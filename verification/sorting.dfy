/** `Array.prototype.sort` with a numeric comparator `(a, b) => key(a) - key(b)`,
    as an insertion sort: ascending by key, and a permutation of the input. */
module Sorting {

  predicate SortedBy<T>(s: seq<T>, key: T -> int) {
    forall i, j :: 0 <= i < j < |s| ==> key(s[i]) <= key(s[j])
  }

  /** Inserts `x` in front of the first element whose key is not smaller. */
  function Insert<T>(x: T, s: seq<T>, key: T -> int): (r: seq<T>)
    requires SortedBy(s, key)
    ensures SortedBy(r, key)
    ensures multiset(r) == multiset(s) + multiset{x}
    ensures |r| == |s| + 1
    ensures r[0] == x || (|s| > 0 && r[0] == s[0])
    decreases |s|
  {
    if |s| == 0 then [x]
    else if key(x) <= key(s[0]) then [x] + s
    else
      var t := Insert(x, s[1..], key);
      assert s == [s[0]] + s[1..];
      assert multiset(s) == multiset{s[0]} + multiset(s[1..]);
      assert key(s[0]) <= key(t[0]);
      ConsSorted(s[0], t, key);
      var r := [s[0]] + t;
      assert multiset(r) == multiset{s[0]} + multiset(t);
      r
  }

  /** A head no larger than the first element of a sorted sequence keeps it
      sorted. */
  lemma ConsSorted<T>(h: T, t: seq<T>, key: T -> int)
    requires SortedBy(t, key) && (|t| > 0 ==> key(h) <= key(t[0]))
    ensures SortedBy([h] + t, key)
  {
    var r := [h] + t;
    forall i, j | 0 <= i < j < |r| ensures key(r[i]) <= key(r[j]) {
      assert r[j] == t[j - 1];
      if i > 0 {
        assert r[i] == t[i - 1];
      } else {
        assert key(t[0]) <= key(t[j - 1]) || j == 1;
      }
    }
  }

  function SortBy<T>(s: seq<T>, key: T -> int): (r: seq<T>)
    ensures SortedBy(r, key)
    ensures multiset(r) == multiset(s)
    ensures |r| == |s|
    decreases |s|
  {
    if |s| == 0 then []
    else
      var t := SortBy(s[1..], key);
      var r := Insert(s[0], t, key);
      assert s == [s[0]] + s[1..];
      assert multiset(s) == multiset(s[1..]) + multiset{s[0]};
      r
  }

  /** The elements of `s` whose key is `k`, in their order in `s`. */
  function KeyRun<T>(s: seq<T>, key: T -> int, k: int): seq<T>
    decreases |s|
  {
    if |s| == 0 then []
    else (if key(s[0]) == k then [s[0]] else []) + KeyRun(s[1..], key, k)
  }

  lemma KeyRunCons<T>(h: T, t: seq<T>, key: T -> int, k: int)
    ensures KeyRun([h] + t, key, k) == (if key(h) == k then [h] else []) + KeyRun(t, key, k)
  {
    assert ([h] + t)[1..] == t;
  }

  lemma TailSorted<T>(s: seq<T>, key: T -> int)
    requires |s| > 0 && SortedBy(s, key)
    ensures SortedBy(s[1..], key)
  {
    var t := s[1..];
    forall i, j | 0 <= i < j < |t| ensures key(t[i]) <= key(t[j]) {
      assert t[i] == s[i + 1] && t[j] == s[j + 1];
    }
  }

  /** Putting the same element `h` in front of `u` and of `t`, where `u`'s
      key run is `t`'s with `p` in front, keeps that relation as long as `h`
      and `p` do not both belong to the run. */
  lemma KeyRunPrepend<T>(h: T, u: seq<T>, t: seq<T>, p: seq<T>, key: T -> int, k: int)
    requires KeyRun(u, key, k) == p + KeyRun(t, key, k)
    requires key(h) != k || p == []
    ensures KeyRun([h] + u, key, k) == p + KeyRun([h] + t, key, k)
  {
    KeyRunCons(h, u, key, k);
    KeyRunCons(h, t, key, k);
    if key(h) == k {
      assert p == [];
      assert KeyRun([h] + u, key, k) == [h] + KeyRun(t, key, k);
    } else {
      assert KeyRun([h] + t, key, k) == KeyRun(t, key, k);
    }
  }

  /** Past an element with a smaller key, insertion continues in the tail. */
  lemma InsertStep<T>(x: T, s: seq<T>, key: T -> int)
    requires SortedBy(s, key) && |s| > 0 && key(x) > key(s[0])
    ensures SortedBy(s[1..], key)
    ensures Insert(x, s, key) == [s[0]] + Insert(x, s[1..], key)
  {
    TailSorted(s, key);
  }

  /** Inserting `x` puts it in front of every element with the same key. */
  lemma {:induction false} InsertKeyRun<T>(x: T, s: seq<T>, key: T -> int, k: int)
    requires SortedBy(s, key)
    ensures KeyRun(Insert(x, s, key), key, k) == (if key(x) == k then [x] else []) + KeyRun(s, key, k)
    decreases |s|
  {
    if |s| == 0 || key(x) <= key(s[0]) {
      InsertFrontKeyRun(x, s, key, k);
    } else {
      InsertKeyRun(x, s[1..], key, k);
      InsertPastKeyRun(x, s, key, k);
    }
  }

  lemma InsertFrontKeyRun<T>(x: T, s: seq<T>, key: T -> int, k: int)
    requires SortedBy(s, key) && (|s| == 0 || key(x) <= key(s[0]))
    ensures KeyRun(Insert(x, s, key), key, k) == (if key(x) == k then [x] else []) + KeyRun(s, key, k)
  {
    assert Insert(x, s, key) == [x] + s;
    KeyRunCons(x, s, key, k);
  }

  /** The inductive step of `InsertKeyRun`: `x` travels past `s[0]`, whose
      key differs from `x`'s, so the two cannot trade places in a key run. */
  lemma InsertPastKeyRun<T>(x: T, s: seq<T>, key: T -> int, k: int)
    requires SortedBy(s, key) && |s| > 0 && key(x) > key(s[0])
    requires SortedBy(s[1..], key)
    requires KeyRun(Insert(x, s[1..], key), key, k) == (if key(x) == k then [x] else []) + KeyRun(s[1..], key, k)
    ensures KeyRun(Insert(x, s, key), key, k) == (if key(x) == k then [x] else []) + KeyRun(s, key, k)
  {
    InsertStep(x, s, key);
    assert s == [s[0]] + s[1..];
    KeyRunPrepend(s[0], Insert(x, s[1..], key), s[1..], (if key(x) == k then [x] else []), key, k);
  }

  /** The sort is stable: the elements sharing any one key keep their
      relative order (and multiplicity). */
  lemma {:induction false} SortByStable<T>(s: seq<T>, key: T -> int, k: int)
    ensures KeyRun(SortBy(s, key), key, k) == KeyRun(s, key, k)
    decreases |s|
  {
    if |s| > 0 {
      SortByStable(s[1..], key, k);
      InsertKeyRun(s[0], SortBy(s[1..], key), key, k);
    }
  }

  /** In a sorted sequence, an element with a strictly smaller key comes
      strictly earlier. */
  lemma SortedIndexOrder<T>(s: seq<T>, key: T -> int, a: nat, b: nat)
    requires SortedBy(s, key) && a < |s| && b < |s|
    requires key(s[a]) < key(s[b])
    ensures a < b
  {
  }

  /** Two permutations of each other hold the same elements. */
  lemma PermutationMembers<T>(a: seq<T>, b: seq<T>)
    requires multiset(a) == multiset(b)
    ensures |a| == |b|
    ensures forall i :: 0 <= i < |a| ==> a[i] in b
  {
    assert |a| == |multiset(a)| == |multiset(b)| == |b|;
    forall i | 0 <= i < |a| ensures a[i] in b {
      assert a[i] in multiset(a);
    }
  }
}
