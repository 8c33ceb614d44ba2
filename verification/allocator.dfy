/** Id allocation for new and duplicated notes, and the advisory counter
    kept next to it. The allocator reads the numbers of every stored id,
    sorts them ascending, and returns the smallest positive number that no
    id uses, so numbers freed by deletion are handed out again. */
module IdAllocator {
  import opened Notes
  import opened Sorting
  import opened Store

  /** The number each stored id contributes (0 for ids that do not match). */
  function UsedNumbers(notes: seq<Note>): (r: seq<nat>)
    ensures |r| == |notes|
    ensures forall i :: 0 <= i < |r| ==> r[i] == IdNumber(notes[i].id)
  {
    seq(|notes|, i requires 0 <= i < |notes| => IdNumber(notes[i].id))
  }

  function NumberKey(n: nat): int {
    n
  }

  /** `n` is the least positive number missing from `used`. */
  ghost predicate IsLeastFree(n: nat, used: seq<nat>) {
    && n >= 1
    && n !in used
    && forall k :: 1 <= k < n ==> k in used
  }

  /** At most one number is the least free one. */
  lemma LeastFreeUnique(m: nat, n: nat, used: seq<nat>)
    requires IsLeastFree(m, used) && IsLeastFree(n, used)
    ensures m == n
  {
  }

  /** The scan `for (const num of usedNumbers) { if (num > newIndex) break;
      newIndex = num + 1; }` over an ascending list, continued from
      `candidate`. Every number not yet scanned is at least `candidate - 1`,
      which is what the scan over a sorted list maintains. */
  function FirstGap(used: seq<nat>, candidate: nat): (n: nat)
    requires SortedBy(used, NumberKey)
    requires forall i :: 0 <= i < |used| ==> used[i] + 1 >= candidate
    ensures n >= candidate
    ensures n !in used
    ensures forall k :: candidate <= k < n ==> k in used
    decreases |used|
  {
    if |used| == 0 then candidate
    else if used[0] > candidate then
      assert forall i :: 0 <= i < |used| ==> NumberKey(used[0]) <= NumberKey(used[i]);
      candidate
    else
      var rest := used[1..];
      assert forall i :: 0 <= i < |rest| ==> NumberKey(used[0]) <= NumberKey(rest[i]);
      var n := FirstGap(rest, used[0] + 1);
      assert used == [used[0]] + rest;
      n
  }

  /** The number the next created or duplicated note is given. */
  function AllocateNumber(notes: seq<Note>): (n: nat)
    ensures IsLeastFree(n, UsedNumbers(notes))
  {
    var used := UsedNumbers(notes);
    var sorted := SortBy(used, NumberKey);
    var n := FirstGap(sorted, 1);
    PermutationMembers(used, sorted);
    PermutationMembers(sorted, used);
    assert forall k :: 1 <= k < n ==> k in used by {
      forall k | 1 <= k < n ensures k in used {
        assert k in sorted;
        var i :| 0 <= i < |sorted| && sorted[i] == k;
      }
    }
    n
  }

  /** The allocated number depends only on which numbers are in use, not on
      the order of the notes or on how often a number repeats. */
  lemma AllocateDependsOnlyOnNumbers(a: seq<Note>, b: seq<Note>)
    requires forall k :: k in UsedNumbers(a) <==> k in UsedNumbers(b)
    ensures AllocateNumber(a) == AllocateNumber(b)
  {
    var m := AllocateNumber(a);
    var n := AllocateNumber(b);
    assert IsLeastFree(m, UsedNumbers(b));
    LeastFreeUnique(m, n, UsedNumbers(b));
  }

  /** No stored note already carries the allocated id. */
  lemma AllocatedIdIsFresh(notes: seq<Note>)
    ensures !HasId(notes, FormatId(AllocateNumber(notes)))
  {
    var n := AllocateNumber(notes);
    FormatIdRoundTrip(n);
    forall i | 0 <= i < |notes| ensures notes[i].id != FormatId(n) {
      assert UsedNumbers(notes)[i] == IdNumber(notes[i].id);
    }
  }

  /** Storing a note under the allocated id and allocating again yields a
      strictly larger number: the allocator never hands out a number twice
      while its note exists. */
  lemma AllocateAfterInsert(notes: seq<Note>, added: Note)
    requires added.id == FormatId(AllocateNumber(notes))
    ensures AllocateNumber(notes + [added]) > AllocateNumber(notes)
  {
    var n := AllocateNumber(notes);
    var used := UsedNumbers(notes);
    var used' := UsedNumbers(notes + [added]);
    FormatIdRoundTrip(n);
    assert used' == used + [n];
    assert forall k :: 1 <= k <= n ==> k in used' by {
      assert forall k :: k in used ==> k in used';
      assert n in used';
    }
    LeastFreeAbove(AllocateNumber(notes + [added]), used', n);
  }

  /** The least free number lies above any prefix 1..n that is fully used. */
  lemma LeastFreeAbove(m: nat, used: seq<nat>, n: nat)
    requires IsLeastFree(m, used)
    requires forall k :: 1 <= k <= n ==> k in used
    ensures m > n
  {
  }

  /** Deleting the note numbered `k` (when no other id parses to `k`) lets
      the next allocation reuse `k` or an even smaller free number. */
  lemma AllocateReusesFreedNumber(notes: seq<Note>, k: nat)
    requires k >= 1 && k !in UsedNumbers(notes)
    ensures AllocateNumber(notes) <= k
  {
  }

  /** The allocation is the least free number, whichever way it is found. */
  lemma AllocateIsLeastFree(notes: seq<Note>, n: nat)
    requires IsLeastFree(n, UsedNumbers(notes))
    ensures AllocateNumber(notes) == n
  {
    LeastFreeUnique(AllocateNumber(notes), n, UsedNumbers(notes));
  }

  /** With `postit-2`, `postit-3` and `postit-5` stored the hole at 1 is
      filled first; once `postit-1` exists too, the next hole is 4. */
  lemma AllocateFillsFirstGap(n1: Note, n2: Note, n3: Note, n5: Note)
    requires n1.id == FormatId(1) && n2.id == FormatId(2) && n3.id == FormatId(3) && n5.id == FormatId(5)
    ensures AllocateNumber([n2, n3, n5]) == 1
    ensures AllocateNumber([n2, n3, n5, n1]) == 4
  {
    FormatIdRoundTrip(1);
    FormatIdRoundTrip(2);
    FormatIdRoundTrip(3);
    FormatIdRoundTrip(5);
    var a := UsedNumbers([n2, n3, n5]);
    var b := UsedNumbers([n2, n3, n5, n1]);
    assert a == [2, 3, 5];
    assert b == [2, 3, 5, 1];
    assert IsLeastFree(1, a);
    assert IsLeastFree(4, b) by {
      assert b[3] == 1 && b[0] == 2 && b[1] == 3;
    }
    AllocateIsLeastFree([n2, n3, n5], 1);
    AllocateIsLeastFree([n2, n3, n5, n1], 4);
  }

  /** `Math.max(...numbers)` over parsed id numbers, 0 for none. */
  function MaxNumber(used: seq<nat>): (m: nat)
    ensures forall i :: 0 <= i < |used| ==> used[i] <= m
    ensures |used| > 0 ==> m in used
    ensures |used| == 0 ==> m == 0
    decreases |used|
  {
    if |used| == 0 then 0
    else
      var rest := MaxNumber(used[1..]);
      assert forall i :: 1 <= i < |used| ==> used[i] == used[1..][i - 1];
      if used[0] >= rest then used[0] else rest
  }

  /** `initCounter`: the largest number among the stored ids, or 0. */
  function InitCounter(notes: seq<Note>): nat {
    MaxNumber(UsedNumbers(notes))
  }

  /** The counter after creating note `n`: `Math.max(...usedNumbers, newIndex)`. */
  function CounterAfterCreate(notes: seq<Note>): nat {
    var n := AllocateNumber(notes);
    var c := InitCounter(notes);
    if n >= c then n else c
  }

  /** Gap filling never runs ahead of the counter: the allocated number is at
      most one past the largest number in use, so the counter after creation
      is either unchanged or that next number. */
  lemma AllocateWithinCounter(notes: seq<Note>)
    ensures AllocateNumber(notes) <= InitCounter(notes) + 1
    ensures CounterAfterCreate(notes) == InitCounter(notes)
         || CounterAfterCreate(notes) == InitCounter(notes) + 1
  {
    var n := AllocateNumber(notes);
    var used := UsedNumbers(notes);
    if n > 1 {
      assert n - 1 in used;
      var i :| 0 <= i < |used| && used[i] == n - 1;
    }
  }
}
