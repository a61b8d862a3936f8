/**
 * The stable sort that `Array.prototype.sort` performs with a numeric comparator
 * `(a, b) => a.f - b.f`: a functional insertion sort as the specification, and an
 * in-place insertion sort on an array proved to compute it.
 */
module StableSort {
  import opened Transactions

  predicate SortedBy(s: seq<Transaction>, f: SortField)
  {
    forall i, j :: 0 <= i < j < |s| ==> Key(s[i], f) <= Key(s[j], f)
  }

  /** The elements of `s` whose key is `k`, in their order in `s`. */
  function WithKey(s: seq<Transaction>, f: SortField, k: int): (r: seq<Transaction>)
    ensures |r| <= |s|
  {
    if s == [] then []
    else WithKey(s[..|s| - 1], f, k) + (if Key(s[|s| - 1], f) == k then [s[|s| - 1]] else [])
  }

  /** Puts `x` after every element whose key is at most its own. */
  function Insert(s: seq<Transaction>, x: Transaction, f: SortField): (r: seq<Transaction>)
    ensures |r| == |s| + 1
  {
    if s == [] || Key(s[|s| - 1], f) <= Key(x, f) then s + [x]
    else Insert(s[..|s| - 1], x, f) + [s[|s| - 1]]
  }

  /** Insertion sort, inserting the elements in input order. */
  function Sorted(s: seq<Transaction>, f: SortField): (r: seq<Transaction>)
    ensures |r| == |s|
  {
    if s == [] then [] else Insert(Sorted(s[..|s| - 1], f), s[|s| - 1], f)
  }

  lemma {:induction false} WithKeyAppend(a: seq<Transaction>, b: seq<Transaction>, f: SortField, k: int)
    ensures WithKey(a + b, f, k) == WithKey(a, f, k) + WithKey(b, f, k)
    decreases |b|
  {
    if b == [] {
      assert a + b == a;
    } else {
      assert (a + b)[..|a + b| - 1] == a + b[..|b| - 1];
      WithKeyAppend(a, b[..|b| - 1], f, k);
    }
  }

  lemma WithKeySingleton(x: Transaction, f: SortField, k: int)
    ensures WithKey([x], f, k) == if Key(x, f) == k then [x] else []
  {
    assert [x][..0] == [];
  }

  lemma {:induction false} InsertPermutation(s: seq<Transaction>, x: Transaction, f: SortField)
    ensures multiset(Insert(s, x, f)) == multiset(s) + multiset{x}
    decreases |s|
  {
    if !(s == [] || Key(s[|s| - 1], f) <= Key(x, f)) {
      var p := s[..|s| - 1];
      assert s == p + [s[|s| - 1]];
      InsertPermutation(p, x, f);
    }
  }

  lemma {:induction false} InsertSorted(s: seq<Transaction>, x: Transaction, f: SortField)
    requires SortedBy(s, f)
    ensures SortedBy(Insert(s, x, f), f)
    decreases |s|
  {
    if !(s == [] || Key(s[|s| - 1], f) <= Key(x, f)) {
      var p, last := s[..|s| - 1], s[|s| - 1];
      InsertSorted(p, x, f);
      InsertPermutation(p, x, f);
      var r := Insert(p, x, f);
      forall i | 0 <= i < |r| ensures Key(r[i], f) <= Key(last, f) {
        assert r[i] in multiset(r);
        assert r[i] in multiset(p) + multiset{x};
      }
    }
  }

  lemma {:induction false} InsertWithKey(s: seq<Transaction>, x: Transaction, f: SortField, k: int)
    ensures WithKey(Insert(s, x, f), f, k) == WithKey(s, f, k) + WithKey([x], f, k)
    decreases |s|
  {
    if s == [] || Key(s[|s| - 1], f) <= Key(x, f) {
      assert Insert(s, x, f) == s + [x];
      WithKeyAppend(s, [x], f, k);
    } else {
      var p, last := s[..|s| - 1], s[|s| - 1];
      assert Insert(s, x, f) == Insert(p, x, f) + [last];
      assert s == p + [last];
      InsertWithKey(p, x, f, k);
      InsertWithKeyPast(p, last, x, f, k);
    }
  }

  /** The step of `InsertWithKey` where `x` moves in front of `last`, a larger element. */
  lemma InsertWithKeyPast(p: seq<Transaction>, last: Transaction, x: Transaction, f: SortField, k: int)
    requires Key(x, f) < Key(last, f)
    requires WithKey(Insert(p, x, f), f, k) == WithKey(p, f, k) + WithKey([x], f, k)
    ensures WithKey(Insert(p, x, f) + [last], f, k) == WithKey(p + [last], f, k) + WithKey([x], f, k)
  {
    WithKeyAppend(Insert(p, x, f), [last], f, k);
    WithKeyAppend(p, [last], f, k);
    WithKeySingleton(last, f, k);
    WithKeySingleton(x, f, k);
    // At most one of `WithKey([x])` and `WithKey([last])` is non-empty: the keys differ.
    assert Key(x, f) == k ==> WithKey([last], f, k) == [];
  }

  /** Sorting yields a permutation of its input. */
  lemma {:induction false} SortedPermutation(s: seq<Transaction>, f: SortField)
    ensures multiset(Sorted(s, f)) == multiset(s)
  {
    if s != [] {
      var p := s[..|s| - 1];
      assert s == p + [s[|s| - 1]];
      SortedPermutation(p, f);
      InsertPermutation(Sorted(p, f), s[|s| - 1], f);
    }
  }

  /** Sorting yields a sequence non-decreasing in the key. */
  lemma {:induction false} SortedOrdered(s: seq<Transaction>, f: SortField)
    ensures SortedBy(Sorted(s, f), f)
  {
    if s != [] {
      SortedOrdered(s[..|s| - 1], f);
      InsertSorted(Sorted(s[..|s| - 1], f), s[|s| - 1], f);
    }
  }

  /** Sorting is stable: the elements sharing a key keep their input order. */
  lemma {:induction false} SortedStable(s: seq<Transaction>, f: SortField, k: int)
    ensures WithKey(Sorted(s, f), f, k) == WithKey(s, f, k)
  {
    if s != [] {
      var p, last := s[..|s| - 1], s[|s| - 1];
      assert s == p + [last];
      SortedStable(p, f, k);
      InsertWithKey(Sorted(p, f), last, f, k);
      WithKeyAppend(p, [last], f, k);
    }
  }

  /** All four facts about sorting at once. */
  lemma SortedSpec(s: seq<Transaction>, f: SortField)
    ensures |Sorted(s, f)| == |s|
    ensures multiset(Sorted(s, f)) == multiset(s)
    ensures SortedBy(Sorted(s, f), f)
    ensures forall k :: WithKey(Sorted(s, f), f, k) == WithKey(s, f, k)
  {
    SortedPermutation(s, f);
    SortedOrdered(s, f);
    forall k ensures WithKey(Sorted(s, f), f, k) == WithKey(s, f, k) {
      SortedStable(s, f, k);
    }
  }

  /**
   * `Insert` puts `x` right after the last element whose key is at most its own: when
   * every element from `j` on is larger and the one before `j` is not, `x` lands at `j`.
   */
  lemma {:induction false} InsertPosition(done: seq<Transaction>, x: Transaction, f: SortField, j: nat)
    requires j <= |done|
    requires j == 0 || Key(done[j - 1], f) <= Key(x, f)
    requires forall k :: j <= k < |done| ==> Key(done[k], f) > Key(x, f)
    ensures Insert(done, x, f) == done[..j] + [x] + done[j..]
    decreases |done|
  {
    if j == |done| {
      assert done[..j] == done;
    } else {
      var p := done[..|done| - 1];
      InsertPosition(p, x, f, j);
      assert p[..j] == done[..j];
      assert done[j..] == p[j..] + [done[|done| - 1]];
    }
  }

  /**
   * Inserts `a[i]` into the sorted prefix `a[..i]` by shifting the larger elements one
   * place to the right.
   */
  method InsertInto(a: array<Transaction>, i: nat, f: SortField)
    requires i < a.Length
    modifies a
    ensures a[..i + 1] == Insert(old(a[..i]), old(a[i]), f)
    ensures a[i + 1..] == old(a[i + 1..])
  {
    ghost var done := a[..i];
    var x := a[i];
    var j := i;
    while j > 0 && Key(a[j - 1], f) > Key(x, f)
      invariant 0 <= j <= i
      invariant forall k :: 0 <= k < j ==> a[k] == done[k]
      invariant forall k :: j < k <= i ==> a[k] == done[k - 1]
      invariant forall k :: i < k < a.Length ==> a[k] == old(a[k])
      invariant forall k :: j <= k < i ==> Key(done[k], f) > Key(x, f)
    {
      a[j] := a[j - 1];
      j := j - 1;
    }
    a[j] := x;
    InsertPosition(done, x, f, j);
    ShiftedIsInserted(a[..i + 1], done, x, j);
  }

  /** The array prefix left by `InsertInto`'s loop, with `x` stored at `j`, is `done` with `x` inserted at `j`. */
  lemma ShiftedIsInserted(b: seq<Transaction>, done: seq<Transaction>, x: Transaction, j: nat)
    requires j <= |done| && |b| == |done| + 1
    requires forall k :: 0 <= k < j ==> b[k] == done[k]
    requires b[j] == x
    requires forall k :: j < k < |b| ==> b[k] == done[k - 1]
    ensures b == done[..j] + [x] + done[j..]
  {
    var inserted := done[..j] + [x] + done[j..];
    forall k | 0 <= k < |b| ensures b[k] == inserted[k] {
      if k > j {
        assert inserted[k] == done[k - 1];
      }
    }
  }

  /** Sorting one more element of the input is inserting it into the sorted prefix. */
  lemma SortedExtend(s: seq<Transaction>, i: nat, f: SortField)
    requires i < |s|
    ensures Sorted(s[..i + 1], f) == Insert(Sorted(s[..i], f), s[i], f)
  {
    assert s[..i + 1][..i] == s[..i];
  }

  /** Sorts `a` in place, stably, by the field `f`. */
  method InsertionSort(a: array<Transaction>, f: SortField)
    modifies a
    ensures a[..] == Sorted(old(a[..]), f)
  {
    ghost var input := a[..];
    var i := 0;
    while i < a.Length
      invariant 0 <= i <= a.Length
      invariant a[..i] == Sorted(input[..i], f)
      invariant a[i..] == input[i..]
    {
      ghost var prefix, rest := a[..i], a[i + 1..];
      assert a[i] == input[i] && rest == input[i + 1..] by {
        assert a[i..] == [a[i]] + rest;
      }
      InsertInto(a, i, f);
      SortedExtend(input, i, f);
      i := i + 1;
    }
    assert input[..a.Length] == input;
  }
}
