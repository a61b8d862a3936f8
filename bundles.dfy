/**
 * `IotaHelper.extractBundles`: groups transaction objects by bundle hash, keeps the
 * earliest attachment of each bundle, orders it by `currentIndex` and turns it back
 * into one object per bundle.
 */
module Bundles {
  import opened Wrappers
  import opened Transactions
  import opened StableSort
  import EscapeCodec

  type Hash = string

  // ---------------------------------------------------------------------------
  // Grouping

  /** The transactions of `txs` whose bundle is `h`, in input order. */
  function Group(txs: seq<Transaction>, h: Hash): seq<Transaction>
  {
    if txs == [] then []
    else Group(txs[..|txs| - 1], h) + (if txs[|txs| - 1].bundle == h then [txs[|txs| - 1]] else [])
  }

  /**
   * The bundle hashes of `txs`, each once, in the order of their first occurrence: the
   * order in which the grouping dictionary receives its keys.
   */
  function BundleOrder(txs: seq<Transaction>): (keys: seq<Hash>)
    ensures forall h :: h in keys <==> Group(txs, h) != []
  {
    if txs == [] then []
    else
      var keys := BundleOrder(txs[..|txs| - 1]);
      var h := txs[|txs| - 1].bundle;
      if h in keys then keys else keys + [h]
  }

  /** Position of the first transaction of bundle `h`. */
  function FirstIndex(txs: seq<Transaction>, h: Hash): (n: nat)
    requires h in BundleOrder(txs)
    ensures n < |txs|
  {
    var p := txs[..|txs| - 1];
    if h in BundleOrder(p) then FirstIndex(p, h) else |txs| - 1
  }

  /**
   * The `forEach` loop that fills the dictionary `bundles` (`bundles[tx.bundle] ||
   * []`, then `push`). `keys` is the dictionary's insertion order, which
   * `Object.keys` reports.
   */
  method GroupByBundle(txs: seq<Transaction>) returns (bundles: map<Hash, seq<Transaction>>, keys: seq<Hash>)
    ensures keys == BundleOrder(txs)
    ensures forall h :: h in bundles <==> h in keys
    ensures forall h :: h in bundles ==> bundles[h] == Group(txs, h) && bundles[h] != []
  {
    bundles, keys := map[], [];
    for i := 0 to |txs|
      invariant keys == BundleOrder(txs[..i])
      invariant forall h :: h in bundles <==> h in keys
      invariant forall h :: h in bundles ==> bundles[h] == Group(txs[..i], h)
    {
      var tx := txs[i];
      assert txs[..i + 1][..i] == txs[..i] && txs[..i + 1][i] == tx;
      if tx.bundle !in bundles {
        bundles := bundles[tx.bundle := []];
        keys := keys + [tx.bundle];
      }
      bundles := bundles[tx.bundle := bundles[tx.bundle] + [tx]];
    }
    assert txs[..|txs|] == txs;
  }

  /** A group holds exactly the input transactions of its bundle. */
  lemma {:induction false} GroupMembers(txs: seq<Transaction>, h: Hash)
    ensures forall x :: x in Group(txs, h) ==> x in txs && x.bundle == h
    ensures forall i :: 0 <= i < |txs| && txs[i].bundle == h ==> txs[i] in Group(txs, h)
  {
    if txs != [] {
      var p := txs[..|txs| - 1];
      GroupMembers(p, h);
      forall i | 0 <= i < |txs| - 1 ensures txs[i] == p[i] { }
    }
  }

  /** Every bundle hash occurs once in `BundleOrder`. */
  lemma {:induction false} BundleOrderDistinct(txs: seq<Transaction>)
    ensures forall a, b :: 0 <= a < b < |BundleOrder(txs)| ==> BundleOrder(txs)[a] != BundleOrder(txs)[b]
  {
    if txs != [] {
      BundleOrderDistinct(txs[..|txs| - 1]);
    }
  }

  /** Every bundle hash of the input is a key of `BundleOrder`. */
  lemma BundleOrderCovers(txs: seq<Transaction>)
    ensures forall i :: 0 <= i < |txs| ==> txs[i].bundle in BundleOrder(txs)
  {
    forall i | 0 <= i < |txs| ensures txs[i].bundle in BundleOrder(txs) {
      GroupMembers(txs, txs[i].bundle);
      assert txs[i] in Group(txs, txs[i].bundle);
    }
  }

  /** Every key of `BundleOrder` is the bundle hash of some input transaction. */
  lemma BundleOrderMembers(txs: seq<Transaction>)
    ensures forall h :: h in BundleOrder(txs) ==> exists i :: 0 <= i < |txs| && txs[i].bundle == h
  {
    forall h | h in BundleOrder(txs) ensures exists i :: 0 <= i < |txs| && txs[i].bundle == h {
      var g := Group(txs, h);
      GroupMembers(txs, h);
      assert g[0] in g;
      var i :| 0 <= i < |txs| && txs[i] == g[0];
      assert txs[i].bundle == h;
    }
  }

  /** The hashes in `BundleOrder` are ordered by their first occurrence in the input. */
  lemma {:induction false} BundleOrderByFirstOccurrence(txs: seq<Transaction>)
    ensures forall a, b :: 0 <= a < b < |BundleOrder(txs)| ==>
      FirstIndex(txs, BundleOrder(txs)[a]) < FirstIndex(txs, BundleOrder(txs)[b])
  {
    if txs != [] {
      var p := txs[..|txs| - 1];
      BundleOrderByFirstOccurrence(p);
      var keys, old_keys := BundleOrder(txs), BundleOrder(p);
      forall a, b | 0 <= a < b < |keys| ensures FirstIndex(txs, keys[a]) < FirstIndex(txs, keys[b]) {
        assert keys[a] == old_keys[a] && keys[a] in old_keys;
        if b < |old_keys| {
          assert keys[b] == old_keys[b] && keys[b] in old_keys;
        }
      }
    }
  }

  /** The first transaction of a bundle is where its hash first occurs in the input. */
  lemma {:induction false} FirstIndexSpec(txs: seq<Transaction>, h: Hash)
    requires h in BundleOrder(txs)
    ensures txs[FirstIndex(txs, h)].bundle == h
    ensures forall i :: 0 <= i < FirstIndex(txs, h) ==> txs[i].bundle != h
  {
    var p := txs[..|txs| - 1];
    if h in BundleOrder(p) {
      FirstIndexSpec(p, h);
      assert forall i :: 0 <= i < |p| ==> txs[i] == p[i];
    } else {
      GroupMembers(p, h);
      assert forall i :: 0 <= i < |p| ==> txs[i] == p[i];
    }
  }

  // ---------------------------------------------------------------------------
  // Attempt selection and sequencing

  /**
   * The end index `Array.prototype.slice(0, end)` uses: a negative `end` counts from the
   * end of the array, and the index is clamped to the array.
   */
  function SliceEnd(length: nat, end: int): (n: nat)
    ensures n <= length
  {
    if end < 0 then (if length + end < 0 then 0 else length + end)
    else if end < length then end
    else length
  }

  /**
   * Given a bundle's transactions sorted by attachment timestamp, keeps the first
   * `lastIndex + 1` of them, reading `lastIndex` from the first.
   */
  function SelectAttempt(byTime: seq<Transaction>): (r: seq<Transaction>)
    requires byTime != []
    ensures |r| <= |byTime| && r == byTime[..|r|]
    ensures 0 <= byTime[0].lastIndex < |byTime| ==> |r| == byTime[0].lastIndex + 1
  {
    byTime[..SliceEnd(|byTime|, byTime[0].lastIndex + 1)]
  }

  /**
   * The transactions handed to `extractJson` for one bundle: the earliest attempt,
   * sorted by `currentIndex`. No gap, duplicate or count check is made.
   */
  function BundleEntries(group: seq<Transaction>): (entries: seq<Transaction>)
    requires group != []
    ensures var selected := SelectAttempt(Sorted(group, AttachmentTimestamp));
      && multiset(entries) == multiset(selected)
      && SortedBy(entries, CurrentIndex)
      && forall k :: WithKey(entries, CurrentIndex, k) == WithKey(selected, CurrentIndex, k)
  {
    var selected := SelectAttempt(Sorted(group, AttachmentTimestamp));
    SortedSpec(selected, CurrentIndex);
    Sorted(selected, CurrentIndex)
  }

  /** `lastIndex` is read from a transaction of the group with the earliest timestamp. */
  lemma FirstIsEarliest(group: seq<Transaction>)
    requires group != []
    ensures var first := Sorted(group, AttachmentTimestamp)[0];
      && first in group
      && forall x :: x in group ==> first.attachmentTimestamp <= x.attachmentTimestamp
  {
    SortedPermutation(group, AttachmentTimestamp);
    SortedOrdered(group, AttachmentTimestamp);
    var byTime := Sorted(group, AttachmentTimestamp);
    SortedHeadIsLeast(byTime, AttachmentTimestamp);
    assert forall x :: x in group <==> x in byTime by {
      assert forall x :: x in group <==> x in multiset(group);
      assert forall x :: x in byTime <==> x in multiset(byTime);
    }
  }

  /**
   * The slice holds `lastIndex + 1` transactions, clamped to the size of the group; a
   * `lastIndex` below -1 makes `slice` count from the end of the group.
   */
  lemma SelectionSize(group: seq<Transaction>)
    requires group != []
    ensures var byTime := Sorted(group, AttachmentTimestamp);
      var last := byTime[0].lastIndex;
      && (last >= -1 ==> |SelectAttempt(byTime)| == if last + 1 < |group| then last + 1 else |group|)
      && (last < -1 ==> |SelectAttempt(byTime)| == if |group| + last + 1 < 0 then 0 else |group| + last + 1)
  {
  }

  /**
   * The slice is drawn from the group, and no transaction it excludes has an earlier
   * timestamp than one it keeps: the earliest timestamps win.
   */
  lemma EarliestSelected(group: seq<Transaction>)
    requires group != []
    ensures var selected := SelectAttempt(Sorted(group, AttachmentTimestamp));
      && multiset(selected) <= multiset(group)
      && forall x, y :: x in selected && y in multiset(group) - multiset(selected) ==>
           x.attachmentTimestamp <= y.attachmentTimestamp
  {
    SortedPermutation(group, AttachmentTimestamp);
    SortedOrdered(group, AttachmentTimestamp);
    var byTime := Sorted(group, AttachmentTimestamp);
    SortedPrefixIsLeast(byTime, AttachmentTimestamp, SliceEnd(|byTime|, byTime[0].lastIndex + 1));
  }

  lemma SortedHeadIsLeast(s: seq<Transaction>, f: SortField)
    requires s != [] && SortedBy(s, f)
    ensures forall x :: x in s ==> Key(s[0], f) <= Key(x, f)
  {
  }

  /** A prefix of a sorted sequence has no key above a key of the remainder. */
  lemma SortedPrefixIsLeast(s: seq<Transaction>, f: SortField, n: nat)
    requires n <= |s| && SortedBy(s, f)
    ensures multiset(s[..n]) <= multiset(s)
    ensures forall x, y :: x in s[..n] && y in multiset(s) - multiset(s[..n]) ==> Key(x, f) <= Key(y, f)
  {
    var prefix, rest := s[..n], s[n..];
    assert s == prefix + rest;
    assert multiset(s) == multiset(prefix) + multiset(rest);
    forall x, y | x in prefix && y in multiset(s) - multiset(prefix) ensures Key(x, f) <= Key(y, f) {
      assert y in rest;
      var i :| 0 <= i < |prefix| && prefix[i] == x;
      var j :| 0 <= j < |rest| && rest[j] == y;
      assert s[i] == x && s[n + j] == y;
    }
  }

  lemma {:induction false} WithKeyMembers(s: seq<Transaction>, f: SortField, k: int)
    ensures forall x :: x in WithKey(s, f, k) <==> x in s && Key(x, f) == k
  {
    if s != [] {
      var p := s[..|s| - 1];
      WithKeyMembers(p, f, k);
      assert s == p + [s[|s| - 1]];
    }
  }

  lemma {:induction false} WithKeyAll(s: seq<Transaction>, f: SortField, k: int)
    requires forall i :: 0 <= i < |s| ==> Key(s[i], f) == k
    ensures WithKey(s, f, k) == s
  {
    if s != [] {
      WithKeyAll(s[..|s| - 1], f, k);
    }
  }

  /** In a sorted sequence, the elements with the smallest key form a prefix. */
  lemma {:induction false} MinKeyPrefix(s: seq<Transaction>, f: SortField, k: int)
    requires SortedBy(s, f)
    requires forall i :: 0 <= i < |s| ==> Key(s[i], f) >= k
    ensures |WithKey(s, f, k)| <= |s| && WithKey(s, f, k) == s[..|WithKey(s, f, k)|]
  {
    if s != [] {
      var p := s[..|s| - 1];
      if Key(s[|s| - 1], f) == k {
        WithKeyAll(s, f, k);
      } else {
        MinKeyPrefix(p, f, k);
        assert WithKey(s, f, k) == WithKey(p, f, k);
      }
    }
  }

  /**
   * When the records of the earliest attempt share its timestamp and its `lastIndex`,
   * and the attempt is complete, the selected slice is exactly that attempt in input
   * order: no record of a later reattachment is selected.
   */
  lemma EarliestCompleteAttempt(group: seq<Transaction>, x: Transaction)
    requires x in group
    requires forall y :: y in group ==> x.attachmentTimestamp <= y.attachmentTimestamp
    requires forall y :: y in group && y.attachmentTimestamp == x.attachmentTimestamp ==> y.lastIndex == x.lastIndex
    requires |WithKey(group, AttachmentTimestamp, x.attachmentTimestamp)| == x.lastIndex + 1
    ensures SelectAttempt(Sorted(group, AttachmentTimestamp)) == WithKey(group, AttachmentTimestamp, x.attachmentTimestamp)
  {
    var t0 := x.attachmentTimestamp;
    var byTime := Sorted(group, AttachmentTimestamp);
    var attempt := WithKey(group, AttachmentTimestamp, t0);
    EarliestAttemptIsPrefix(group, t0);
    WithKeyMembers(group, AttachmentTimestamp, t0);
    assert x in attempt;
    var head := attempt[0];
    assert head in attempt;
    assert byTime[0] == head;
  }

  /** Under the same conditions, every selected transaction carries the earliest timestamp. */
  lemma NoReattachmentSelected(group: seq<Transaction>, x: Transaction)
    requires x in group
    requires forall y :: y in group ==> x.attachmentTimestamp <= y.attachmentTimestamp
    requires forall y :: y in group && y.attachmentTimestamp == x.attachmentTimestamp ==> y.lastIndex == x.lastIndex
    requires |WithKey(group, AttachmentTimestamp, x.attachmentTimestamp)| == x.lastIndex + 1
    ensures forall y :: y in SelectAttempt(Sorted(group, AttachmentTimestamp)) ==> y.attachmentTimestamp == x.attachmentTimestamp
  {
    EarliestCompleteAttempt(group, x);
    WithKeyMembers(group, AttachmentTimestamp, x.attachmentTimestamp);
  }

  /** After the timestamp sort, the records with the earliest timestamp come first, in input order. */
  lemma EarliestAttemptIsPrefix(group: seq<Transaction>, t0: int)
    requires forall y :: y in group ==> t0 <= y.attachmentTimestamp
    ensures var attempt := WithKey(group, AttachmentTimestamp, t0);
      attempt == Sorted(group, AttachmentTimestamp)[..|attempt|]
  {
    var byTime := Sorted(group, AttachmentTimestamp);
    SortedPermutation(group, AttachmentTimestamp);
    SortedOrdered(group, AttachmentTimestamp);
    SortedStable(group, AttachmentTimestamp, t0);
    forall i | 0 <= i < |byTime| ensures Key(byTime[i], AttachmentTimestamp) >= t0 {
      assert byTime[i] in multiset(group);
    }
    MinKeyPrefix(byTime, AttachmentTimestamp, t0);
  }

  /**
   * A bundle of two transactions whose reattachment (timestamp 200) arrives after the
   * original (timestamp 100), the original's parts out of order: the entries handed to
   * `extractJson` are the original's two parts in index order.
   */
  lemma ReattachmentExample()
    ensures var a0 := Transaction("B", 0, 1, 100, "{\"");
      var a1 := Transaction("B", 1, 1, 100, "a\":1}");
      var r0 := Transaction("B", 0, 1, 200, "{\"");
      var r1 := Transaction("B", 1, 1, 200, "b\":2}");
      BundleEntries([a1, a0, r0, r1]) == [a0, a1]
  {
    var a0 := Transaction("B", 0, 1, 100, "{\"");
    var a1 := Transaction("B", 1, 1, 100, "a\":1}");
    var r0 := Transaction("B", 0, 1, 200, "{\"");
    var r1 := Transaction("B", 1, 1, 200, "b\":2}");
    var group := [a1, a0, r0, r1];
    assert group[..3] == [a1, a0, r0] && group[..3][..2] == [a1, a0] && group[..3][..2][..1] == [a1];
    assert [a1][..0] == [];
    assert WithKey([a1], AttachmentTimestamp, 100) == [a1];
    assert WithKey([a1, a0], AttachmentTimestamp, 100) == [a1, a0];
    assert WithKey([a1, a0, r0], AttachmentTimestamp, 100) == [a1, a0];
    assert WithKey(group, AttachmentTimestamp, 100) == [a1, a0];
    forall y | y in group && y.attachmentTimestamp == 100 ensures y.lastIndex == 1 { }
    EarliestCompleteAttempt(group, a1);
    assert [a1, a0][..1] == [a1];
    assert Sorted([a1], CurrentIndex) == [a1];
    assert Insert([a1], a0, CurrentIndex) == [a0, a1];
    assert Sorted([a1, a0], CurrentIndex) == [a0, a1];
  }

  // ---------------------------------------------------------------------------
  // Extraction

  /**
   * The object recovered from one bundle: `extractJson` on the ordered entries,
   * `decodeNonASCII`, then `JSON.parse`. `None` is an exception: `JSON.parse` rejected
   * the text, or was handed `undefined` because `extractJson` gave nothing.
   */
  function ExtractObject<T>(group: seq<Transaction>, extractJson: seq<Transaction> -> seq<EscapeCodec.CodeUnit>,
                            parse: seq<EscapeCodec.CodeUnit> -> Option<T>): (r: Option<T>)
    requires group != []
    ensures var json := extractJson(BundleEntries(group));
      && (json == [] ==> r.None?)
      && (json != [] ==> r == parse(EscapeCodec.DecodeUnits(json)))
  {
    match EscapeCodec.DecodeNonAscii(extractJson(BundleEntries(group)))
    case None => None
    case Some(data) => parse(data)
  }

  method ToArray(s: seq<Transaction>) returns (a: array<Transaction>)
    ensures fresh(a) && a[..] == s
  {
    a := new Transaction[|s|](i requires 0 <= i < |s| => s[i]);
  }

  /**
   * The per-bundle steps of `extractBundles` on arrays: the timestamp sort, the slice of
   * `lastIndex + 1` entries and the index sort.
   */
  method OrderEntries(group: seq<Transaction>) returns (entries: seq<Transaction>)
    requires group != []
    ensures entries == BundleEntries(group)
  {
    var byTime := ToArray(group);
    InsertionSort(byTime, AttachmentTimestamp);
    var numParts := byTime[0].lastIndex;
    var finalEntries := ToArray(byTime[..SliceEnd(byTime.Length, numParts + 1)]);
    InsertionSort(finalEntries, CurrentIndex);
    entries := finalEntries[..];
  }

  /** One iteration of the loop over the bundle hashes, for the group of one hash. */
  method ExtractOne<T>(group: seq<Transaction>, extractJson: seq<Transaction> -> seq<EscapeCodec.CodeUnit>,
                       parse: seq<EscapeCodec.CodeUnit> -> Option<T>) returns (obj: Option<T>)
    requires group != []
    ensures obj == ExtractObject(group, extractJson, parse)
  {
    var finalEntries := OrderEntries(group);
    var json := extractJson(finalEntries);
    var data := EscapeCodec.DecodeNonAscii(json);
    if data.None? {
      return None;
    }
    obj := parse(data.value);
  }

  /**
   * The loop of `extractBundles` over the dictionary's keys: one object per key, in key
   * order, or `None` as soon as one bundle fails to materialise.
   */
  method ExtractAll<T>(bundles: map<Hash, seq<Transaction>>, keys: seq<Hash>,
                       extractJson: seq<Transaction> -> seq<EscapeCodec.CodeUnit>,
                       parse: seq<EscapeCodec.CodeUnit> -> Option<T>) returns (objs: Option<seq<T>>)
    requires forall h :: h in keys ==> h in bundles && bundles[h] != []
    ensures objs.Some? <==> forall i :: 0 <= i < |keys| ==> ExtractObject(bundles[keys[i]], extractJson, parse).Some?
    ensures objs.Some? ==> |objs.value| == |keys|
    ensures objs.Some? ==> forall i :: 0 <= i < |keys| ==>
      ExtractObject(bundles[keys[i]], extractJson, parse) == Some(objs.value[i])
  {
    var out: seq<T> := [];
    for n := 0 to |keys|
      invariant |out| == n
      invariant forall i :: 0 <= i < n ==> ExtractObject(bundles[keys[i]], extractJson, parse) == Some(out[i])
    {
      var hash := keys[n];
      var obj := ExtractOne(bundles[hash], extractJson, parse);
      if obj.None? {
        return None;
      }
      out := out + [obj.value];
    }
    objs := Some(out);
  }

  /**
   * `extractBundles`: one object per distinct bundle, in first-occurrence order of the
   * bundle hash. The call fails (`None`) exactly when some bundle's object cannot be
   * materialised; malformed attempts are not otherwise rejected.
   */
  method ExtractBundles<T>(txs: seq<Transaction>, extractJson: seq<Transaction> -> seq<EscapeCodec.CodeUnit>,
                           parse: seq<EscapeCodec.CodeUnit> -> Option<T>) returns (objs: Option<seq<T>>)
    ensures objs.Some? <==> forall h :: h in BundleOrder(txs) ==> ExtractObject(Group(txs, h), extractJson, parse).Some?
    ensures objs.Some? ==> |objs.value| == |BundleOrder(txs)|
    ensures objs.Some? ==> forall i :: 0 <= i < |objs.value| ==>
      ExtractObject(Group(txs, BundleOrder(txs)[i]), extractJson, parse) == Some(objs.value[i])
  {
    var bundles, keys := GroupByBundle(txs);
    objs := ExtractAll(bundles, keys, extractJson, parse);
  }
}
