/** The Collection operations that rebuild the items from scratch: sorting,
    grouping, keying, de-duplicating and zipping. Each is given together with
    an independent description of its result. */
module CollectionTransforms {
  import opened Exceptions
  import opened PhpValues
  import opened PhpArrays
  import opened Ordering

  // ---------------------------------------------------------------- sortBy

  /** The entry order sortBy uses: by the computed sort value, ascending
      (asort) or descending (arsort). */
  function SortByOrder(f: (Value, Key) -> Value, descending: bool): (Entry, Entry) -> bool {
    if descending then (a: Entry, b: Entry) => ValueLe(f(b.value, b.key), f(a.value, a.key))
    else (a: Entry, b: Entry) => ValueLe(f(a.value, a.key), f(b.value, b.key))
  }

  lemma {:induction false} SortByOrderPreorder(f: (Value, Key) -> Value, descending: bool)
    ensures Total(SortByOrder(f, descending)) && Transitive(SortByOrder(f, descending))
  {
    var le := SortByOrder(f, descending);
    forall x: Entry, y: Entry
      ensures le(x, y) || le(y, x)
    {
      ValueLeTotal(f(x.value, x.key), f(y.value, y.key));
    }
    forall x: Entry, y: Entry, z: Entry | le(x, y) && le(y, z)
      ensures le(x, z)
    {
      if descending {
        ValueLeTrans(f(z.value, z.key), f(y.value, y.key), f(x.value, x.key));
      } else {
        ValueLeTrans(f(x.value, x.key), f(y.value, y.key), f(z.value, z.key));
      }
    }
  }

  /** sortBy(callback, descending): the sort values are computed under the
      original keys, sorted with their keys, and each key then gets its
      original value back. Because keys are distinct this is the same as
      sorting the original entries by their sort values. */
  function SortBy(items: PArray, f: (Value, Key) -> Value, descending: bool): (r: PArray)
    ensures multiset(r) == multiset(items) && |r| == |items|
    ensures !descending ==>
      forall i, j :: 0 <= i < j < |r| ==> ValueLe(f(r[i].value, r[i].key), f(r[j].value, r[j].key))
    ensures descending ==>
      forall i, j :: 0 <= i < j < |r| ==> ValueLe(f(r[j].value, r[j].key), f(r[i].value, r[i].key))
  {
    var le := SortByOrder(f, descending);
    var r := Sort(items, le);
    SortByOrderPreorder(f, descending);
    SortedIsPairwise(r, le);
    r
  }

  /** Sorting keeps every key with its own value. */
  lemma {:induction false} SortByKeepsPairs(items: PArray, f: (Value, Key) -> Value, descending: bool, k: Key)
    requires DistinctKeys(items)
    ensures DistinctKeys(SortBy(items, f, descending))
    ensures Lookup(SortBy(items, f, descending), k) == Lookup(items, k)
  {
    var r := SortBy(items, f, descending);
    PermutationKeepsPairs(items, r, k);
  }

  /** Two arrays holding the same entries (as a multiset) agree on every key,
      provided one of them has distinct keys. */
  lemma {:induction false} PermutationKeepsPairs(a: PArray, b: PArray, k: Key)
    requires DistinctKeys(a) && multiset(a) == multiset(b)
    ensures DistinctKeys(b)
    ensures Lookup(b, k) == Lookup(a, k)
  {
    forall i, j | 0 <= i < j < |b|
      ensures b[i].key != b[j].key
    {
      if b[i].key == b[j].key {
        assert b[i] in multiset(a) && b[j] in multiset(a);
        var p :| 0 <= p < |a| && a[p] == b[i];
        var q :| 0 <= q < |a| && a[q] == b[j];
        if p == q {
          assert multiset(b)[b[i]] >= 2 by {
            assert b == b[..i] + [b[i]] + b[i + 1..j] + [b[j]] + b[j + 1..];
          }
          assert multiset(a)[a[p]] >= 2;
          SingleOccurrence(a, p);
        }
      }
    }
    if HasKey(b, k) {
      var i :| 0 <= i < |b| && b[i].key == k;
      assert b[i] in multiset(a);
      var p :| 0 <= p < |a| && a[p] == b[i];
      LookupAt(a, p);
      LookupAt(b, i);
    } else {
      forall p | 0 <= p < |a|
        ensures a[p].key != k
      {
        assert a[p] in multiset(b);
      }
    }
  }

  /** In an array with distinct keys, an entry occurs once. */
  lemma {:induction false} SingleOccurrence(a: PArray, p: int)
    requires DistinctKeys(a) && 0 <= p < |a|
    ensures multiset(a)[a[p]] == 1
  {
    assert a == a[..p] + [a[p]] + a[p + 1..];
    assert a[p] !in a[..p] by {
      forall q | 0 <= q < p ensures a[..p][q] != a[p] {
        assert a[q].key != a[p].key;
      }
    }
    assert a[p] !in a[p + 1..] by {
      forall q | p < q < |a| ensures a[q] != a[p] {
        assert a[q].key != a[p].key;
      }
    }
  }

  // ------------------------------------------------------------------ sort

  /** A uasort comparator that orders every pair one way or the other,
      transitively (a negative or zero result means "not after"). */
  ghost predicate ConsistentComparator(c: (Value, Value) -> int) {
    (forall x: Value, y: Value :: c(x, y) <= 0 || c(y, x) <= 0) &&
    (forall x: Value, y: Value, z: Value :: c(x, y) <= 0 && c(y, z) <= 0 ==> c(x, z) <= 0)
  }

  /** The entry order a uasort comparator induces on values. */
  function ComparatorOrder(c: (Value, Value) -> int): (Entry, Entry) -> bool {
    (a: Entry, b: Entry) => c(a.value, b.value) <= 0
  }

  lemma {:induction false} ComparatorOrderPreorder(c: (Value, Value) -> int)
    requires ConsistentComparator(c)
    ensures Total(ComparatorOrder(c)) && Transitive(ComparatorOrder(c))
  {
    var le := ComparatorOrder(c);
    forall x: Entry, y: Entry
      ensures le(x, y) || le(y, x)
    {
      assert c(x.value, y.value) <= 0 || c(y.value, x.value) <= 0;
    }
    forall x: Entry, y: Entry, z: Entry | le(x, y) && le(y, z)
      ensures le(x, z)
    {
      assert c(x.value, y.value) <= 0 && c(y.value, z.value) <= 0;
    }
  }

  /** sort(callback): uasort on a copy, so keys stay with their values. Without
      a callback the values are compared by the value order. */
  function SortItems(items: PArray, callback: Option<(Value, Value) -> int>): (r: PArray)
    ensures multiset(r) == multiset(items) && |r| == |items|
    ensures callback.None? ==> SortedPairwise(Vals(r), ValueOrder)
    ensures callback.Some? && ConsistentComparator(callback.value) ==>
      forall i, j :: 0 <= i < j < |r| ==> callback.value(r[i].value, r[j].value) <= 0
  {
    match callback
    case None => SortEntries(items)
    case Some(c) =>
      var le := ComparatorOrder(c);
      var r := Sort(items, le);
      assert ConsistentComparator(c) ==> SortedPairwise(r, le) by {
        if ConsistentComparator(c) {
          ComparatorOrderPreorder(c);
          SortedIsPairwise(r, le);
        }
      }
      r
  }

  /** Whatever the comparator, sort keeps every key with its own value. */
  lemma {:induction false} SortItemsKeepsPairs(items: PArray, callback: Option<(Value, Value) -> int>, k: Key)
    requires DistinctKeys(items)
    ensures DistinctKeys(SortItems(items, callback))
    ensures Lookup(SortItems(items, callback), k) == Lookup(items, k)
  {
    PermutationKeepsPairs(items, SortItems(items, callback), k);
  }

  // --------------------------------------------------------------- groupBy

  /** The distinct elements of `ks` in order of first appearance. */
  function FirstAppearance(ks: seq<Key>): (r: seq<Key>)
    ensures forall k :: k in r <==> k in ks
    ensures forall i, j :: 0 <= i < j < |r| ==> r[i] != r[j]
  {
    if |ks| == 0 then []
    else
      var init := ks[..|ks| - 1];
      var p := FirstAppearance(init);
      assert ks == init + [ks[|ks| - 1]];
      if ks[|ks| - 1] in p then p else p + [ks[|ks| - 1]]
  }

  /** One group of groupBy's result: the group key and the group's items. */
  datatype Group = Group(key: Key, items: PArray)

  function GroupKeys(groups: seq<Group>): (ks: seq<Key>)
    ensures |ks| == |groups|
    ensures forall i :: 0 <= i < |groups| ==> ks[i] == groups[i].key
  {
    seq(|groups|, i requires 0 <= i < |groups| => groups[i].key)
  }

  /** The group key the callback gives each item, in order. */
  function GroupKeysOf(items: PArray, g: (Value, Key) -> Key): (ks: seq<Key>)
    ensures |ks| == |items|
    ensures forall i :: 0 <= i < |items| ==> ks[i] == g(items[i].value, items[i].key)
  {
    seq(|items|, i requires 0 <= i < |items| => g(items[i].value, items[i].key))
  }

  /** The items whose group key is `k`, in their original order. */
  function Matching(items: PArray, g: (Value, Key) -> Key, k: Key): (r: PArray)
    ensures forall e :: e in r ==> e in items && g(e.value, e.key) == k
    ensures k !in GroupKeysOf(items, g) ==> r == []
  {
    if |items| == 0 then []
    else
      var init, last := items[..|items| - 1], items[|items| - 1];
      var m := Matching(init, g, k);
      assert forall e :: e in init ==> e in items;
      assert GroupKeysOf(items, g) == GroupKeysOf(init, g) + [g(last.value, last.key)];
      if g(last.value, last.key) == k then m + [last] else m
  }

  /** What a group holds for its matching items: the entries under their own
      keys, or only their values, re-keyed 0..n-1. */
  function GroupItems(m: PArray, preserveKeys: bool): (r: PArray)
    ensures Vals(r) == Vals(m)
    ensures preserveKeys ==> r == m
    ensures !preserveKeys ==> IsList(r)
  {
    if preserveKeys then m else ListOf(Vals(m))
  }

  /** Position of the group with key `k`, or -1. */
  function GroupIndex(groups: seq<Group>, k: Key): (r: int)
    ensures -1 <= r < |groups|
    ensures r >= 0 ==> groups[r].key == k
    ensures r < 0 <==> k !in GroupKeys(groups)
  {
    if |groups| == 0 then -1
    else if groups[0].key == k then 0
    else
      var r := GroupIndex(groups[1..], k);
      assert GroupKeys(groups) == [groups[0].key] + GroupKeys(groups[1..]);
      if r < 0 then -1 else r + 1
  }

  /** One item joins its group: under its own key when keys are preserved,
      otherwise appended. */
  function AddToGroup(items: PArray, e: Entry, preserveKeys: bool): PArray {
    if preserveKeys then Assign(items, e.key, e.value) else Push(items, e.value)
  }

  /** One pass of groupBy's loop: create the group on first sight, then add the item. */
  function GroupStep(groups: seq<Group>, e: Entry, gk: Key, preserveKeys: bool): seq<Group> {
    var i := GroupIndex(groups, gk);
    if i < 0 then groups + [Group(gk, AddToGroup([], e, preserveKeys))]
    else groups[i := Group(gk, AddToGroup(groups[i].items, e, preserveKeys))]
  }

  /** The groups are those of `items`: one per distinct group key, in order of
      first appearance, each holding exactly the matching items in order. */
  ghost predicate Grouped(groups: seq<Group>, items: PArray, g: (Value, Key) -> Key, preserveKeys: bool) {
    GroupKeys(groups) == FirstAppearance(GroupKeysOf(items, g)) &&
    forall i :: 0 <= i < |groups| ==>
      groups[i].items == GroupItems(Matching(items, g, groups[i].key), preserveKeys)
  }

  /** groupBy(callback, preserveKeys). */
  function GroupBy(items: PArray, g: (Value, Key) -> Key, preserveKeys: bool): (r: seq<Group>)
    requires DistinctKeys(items)
    ensures GroupKeys(r) == FirstAppearance(GroupKeysOf(items, g))
    ensures forall i :: 0 <= i < |r| ==>
      r[i].items == GroupItems(Matching(items, g, r[i].key), preserveKeys)
  {
    if |items| == 0 then []
    else
      var init, last := items[..|items| - 1], items[|items| - 1];
      var r := GroupBy(init, g, preserveKeys);
      GroupStepGrouped(items, init, last, g, preserveKeys, r);
      GroupStep(r, last, g(last.value, last.key), preserveKeys)
  }

  /** Adding an item to a group holding the matching items so far gives the
      group of the matching items with that one appended. */
  lemma {:induction false} AddToGroupAppends(m: PArray, e: Entry, preserveKeys: bool)
    requires !HasKey(m, e.key)
    ensures AddToGroup(GroupItems(m, preserveKeys), e, preserveKeys) == GroupItems(m + [e], preserveKeys)
  {
    if !preserveKeys {
      PushList(ListOf(Vals(m)), e.value);
      assert Vals(m + [e]) == Vals(m) + [e.value];
    }
  }

  lemma {:induction false} FirstAppearanceSnoc(ks: seq<Key>, x: Key)
    ensures FirstAppearance(ks + [x]) ==
      if x in FirstAppearance(ks) then FirstAppearance(ks) else FirstAppearance(ks) + [x]
  {
    assert (ks + [x])[..|ks|] == ks;
  }

  lemma {:induction false} MatchingSnoc(init: PArray, last: Entry, g: (Value, Key) -> Key, k: Key)
    ensures Matching(init + [last], g, k) ==
      if g(last.value, last.key) == k then Matching(init, g, k) + [last] else Matching(init, g, k)
  {
    assert (init + [last])[..|init|] == init;
  }

  lemma {:induction false} GroupKeysOfSnoc(init: PArray, last: Entry, g: (Value, Key) -> Key)
    ensures GroupKeysOf(init + [last], g) == GroupKeysOf(init, g) + [g(last.value, last.key)]
  {
  }

  /** The new group key is appended; an existing one stays where it is. */
  lemma {:induction false} GroupStepKeys(r: seq<Group>, e: Entry, gk: Key, preserveKeys: bool)
    ensures GroupKeys(GroupStep(r, e, gk, preserveKeys)) ==
      if gk in GroupKeys(r) then GroupKeys(r) else GroupKeys(r) + [gk]
  {
  }

  /** The items of `m` all come from `init`, so none has the key of the entry after it. */
  lemma {:induction false} MatchingFresh(init: PArray, last: Entry, g: (Value, Key) -> Key, k: Key)
    requires DistinctKeys(init + [last])
    ensures !HasKey(Matching(init, g, k), last.key)
  {
    var items := init + [last];
    var m := Matching(init, g, k);
    forall j | 0 <= j < |m|
      ensures m[j].key != last.key
    {
      assert m[j] in init;
      var p :| 0 <= p < |init| && init[p] == m[j];
      assert items[p] == m[j] && items[|init|] == last;
    }
  }

  /** One group after a step: untouched unless it is the group of the new item. */
  lemma {:induction false} GroupStepAt(items: PArray, init: PArray, last: Entry, g: (Value, Key) -> Key, preserveKeys: bool, r: seq<Group>, j: int)
    requires items == init + [last] && DistinctKeys(items)
    requires Grouped(r, init, g, preserveKeys)
    requires 0 <= j < |GroupStep(r, last, g(last.value, last.key), preserveKeys)|
    ensures var r' := GroupStep(r, last, g(last.value, last.key), preserveKeys);
      r'[j].items == GroupItems(Matching(items, g, r'[j].key), preserveKeys)
  {
    var gk := g(last.value, last.key);
    var r' := GroupStep(r, last, gk, preserveKeys);
    var i := GroupIndex(r, gk);
    MatchingSnoc(init, last, g, r'[j].key);
    if r'[j].key != gk {
      assert r'[j] == r[j];
    } else {
      MatchingFresh(init, last, g, gk);
      AddToGroupAppends(Matching(init, g, gk), last, preserveKeys);
      if i < 0 {
        GroupKeysOfSnoc(init, last, g);
        assert gk !in FirstAppearance(GroupKeysOf(init, g));
        assert Matching(init, g, gk) == [];
        assert j == |r|;
      } else {
        assert r[i].key == gk;
        assert GroupKeys(r)[i] == gk && GroupKeys(r)[j] == gk;
        assert j == i;
      }
    }
  }

  lemma {:induction false} GroupStepGrouped(items: PArray, init: PArray, last: Entry, g: (Value, Key) -> Key, preserveKeys: bool, r: seq<Group>)
    requires items == init + [last] && DistinctKeys(items)
    requires Grouped(r, init, g, preserveKeys)
    ensures Grouped(GroupStep(r, last, g(last.value, last.key), preserveKeys), items, g, preserveKeys)
  {
    var gk := g(last.value, last.key);
    var r' := GroupStep(r, last, gk, preserveKeys);
    GroupKeysOfSnoc(init, last, g);
    FirstAppearanceSnoc(GroupKeysOf(init, g), gk);
    GroupStepKeys(r, last, gk, preserveKeys);
    forall j | 0 <= j < |r'|
      ensures r'[j].items == GroupItems(Matching(items, g, r'[j].key), preserveKeys)
    {
      GroupStepAt(items, init, last, g, preserveKeys, r, j);
    }
  }

  /** Every item lands in the group of its own group key. */
  lemma {:induction false} GroupByPartitions(items: PArray, g: (Value, Key) -> Key, preserveKeys: bool, p: int)
    requires DistinctKeys(items) && 0 <= p < |items|
    ensures g(items[p].value, items[p].key) in GroupKeys(GroupBy(items, g, preserveKeys))
    ensures items[p] in Matching(items, g, g(items[p].value, items[p].key))
  {
    assert g(items[p].value, items[p].key) == GroupKeysOf(items, g)[p];
    MatchingHas(items, g, p);
  }

  /** An item is among the matching items of its own group key. */
  lemma {:induction false} MatchingHas(items: PArray, g: (Value, Key) -> Key, p: int)
    requires 0 <= p < |items|
    ensures items[p] in Matching(items, g, g(items[p].value, items[p].key))
    decreases |items|
  {
    var init := items[..|items| - 1];
    if p < |items| - 1 {
      MatchingHas(init, g, p);
      assert init[p] == items[p];
    }
  }

  // ----------------------------------------------------------------- keyBy

  /** The key the callback gives each item, in order. */
  function KeysBy(items: PArray, f: Value -> Key): (ks: seq<Key>)
    ensures |ks| == |items|
    ensures forall i :: 0 <= i < |items| ==> ks[i] == f(items[i].value)
  {
    seq(|items|, i requires 0 <= i < |items| => f(items[i].value))
  }

  /** keyBy(callback): each item in turn is assigned under its computed key. */
  function KeyBy(items: PArray, f: Value -> Key): (r: PArray)
    ensures DistinctKeys(r)
    ensures Keys(r) == FirstAppearance(KeysBy(items, f))
    decreases |items|
  {
    if |items| == 0 then []
    else
      var init, last := items[..|items| - 1], items[|items| - 1];
      var r := KeyBy(init, f);
      var k := f(last.value);
      assert KeysBy(items, f) == KeysBy(init, f) + [k];
      FirstAppearanceSnoc(KeysBy(init, f), k);
      HasKeyInKeys(r, k);
      var n := Assign(r, k, last.value);
      assert !HasKey(r, k) ==> Keys(n) == Keys(r) + [k] by {
        if !HasKey(r, k) {
          KeysAppend(r, Entry(k, last.value));
        }
      }
      n
  }

  /** Position of the last item the callback sends to `k`, or -1 when none does. */
  function LastIndexWith(items: PArray, f: Value -> Key, k: Key): (p: int)
    ensures -1 <= p < |items|
    ensures p >= 0 ==> f(items[p].value) == k
    ensures forall q :: p < q < |items| ==> f(items[q].value) != k
    decreases |items|
  {
    if |items| == 0 then -1
    else if f(items[|items| - 1].value) == k then |items| - 1
    else
      var init := items[..|items| - 1];
      assert forall q :: 0 <= q < |init| ==> init[q] == items[q];
      LastIndexWith(init, f, k)
  }

  lemma {:induction false} LastIndexWithSnoc(items: PArray, f: Value -> Key, k: Key)
    requires |items| > 0
    ensures var n := |items| - 1;
      LastIndexWith(items, f, k) == if f(items[n].value) == k then n else LastIndexWith(items[..n], f, k)
  {
  }

  /** Under each key, keyBy holds the LAST item the callback sent there, and
      a key no item is sent to is absent. */
  lemma {:induction false} KeyByLastWins(items: PArray, f: Value -> Key, k: Key)
    ensures var p := LastIndexWith(items, f, k);
      Lookup(KeyBy(items, f), k) == if p < 0 then None else Some(items[p].value)
    decreases |items|
  {
    if |items| == 0 {
      assert KeyBy(items, f) == [];
    } else {
      var n := |items| - 1;
      var init := items[..n];
      var r := KeyBy(init, f);
      var v := items[n].value;
      assert KeyBy(items, f) == Assign(r, f(v), v);
      LastIndexWithSnoc(items, f, k);
      if f(v) == k {
        assert Lookup(KeyBy(items, f), k) == Some(v);
      } else {
        KeyByLastWins(init, f, k);
        assert Lookup(KeyBy(items, f), k) == Lookup(r, k);
        var p := LastIndexWith(init, f, k);
        if p >= 0 {
          assert init[p] == items[p];
        }
      }
    }
  }

  // ---------------------------------------------------------------- unique

  /** The item at position `p` is the first whose callback result is identical to its own. */
  predicate FirstWithId(items: PArray, f: Value -> Value, p: int)
    requires 0 <= p < |items|
  {
    forall q :: 0 <= q < p ==> f(items[q].value) != f(items[p].value)
  }

  /** What FirstById promises about `r` for the items `a`. */
  ghost predicate FirstByIdProperties(r: PArray, a: PArray, f: Value -> Value) {
    (forall e :: e in r ==> e in a) &&
    (forall i, j :: 0 <= i < j < |r| ==> f(r[i].value) != f(r[j].value)) &&
    (forall p :: 0 <= p < |a| ==> exists i :: 0 <= i < |r| && f(r[i].value) == f(a[p].value))
  }

  /** The items that are first with their callback result, in order, keys kept. */
  function FirstById(items: PArray, f: Value -> Value): (r: PArray)
    ensures |r| <= |items|
    decreases |items|
  {
    if |items| == 0 then []
    else
      var r := FirstById(items[..|items| - 1], f);
      if FirstWithId(items, f, |items| - 1) then r + [items[|items| - 1]] else r
  }

  /** FirstById keeps items of the input only, one per callback result, and
      one for every callback result that occurs. */
  lemma {:induction false} FirstByIdCorrect(items: PArray, f: Value -> Value)
    ensures FirstByIdProperties(FirstById(items, f), items, f)
    decreases |items|
  {
    if |items| > 0 {
      FirstByIdCorrect(items[..|items| - 1], f);
      FirstByIdStep(items, f, FirstById(items[..|items| - 1], f));
    }
  }

  lemma {:induction false} FirstByIdStep(items: PArray, f: Value -> Value, r: PArray)
    requires |items| > 0
    requires FirstByIdProperties(r, items[..|items| - 1], f)
    ensures FirstByIdProperties(
      if FirstWithId(items, f, |items| - 1) then r + [items[|items| - 1]] else r, items, f)
  {
    var n := |items| - 1;
    var init, last := items[..n], items[n];
    assert forall p :: 0 <= p < n ==> init[p] == items[p];
    var r' := if FirstWithId(items, f, n) then r + [last] else r;
    forall e | e in r'
      ensures e in items
    {
      if e in r {
        var p :| 0 <= p < n && init[p] == e;
        assert items[p] == e;
      }
    }
    if FirstWithId(items, f, n) {
      forall i | 0 <= i < |r|
        ensures f(r[i].value) != f(last.value)
      {
        assert r[i] in r;
        var q :| 0 <= q < n && init[q] == r[i];
        assert items[q] == r[i];
      }
      assert forall i :: 0 <= i < |r| ==> r'[i] == r[i];
    }
    forall p | 0 <= p < |items|
      ensures exists i :: 0 <= i < |r'| && f(r'[i].value) == f(items[p].value)
    {
      if p < n {
        var i :| 0 <= i < |r| && f(r[i].value) == f(init[p].value);
        assert r'[i] == r[i];
      } else if FirstWithId(items, f, n) {
        assert r'[|r|] == last;
      } else {
        var q :| 0 <= q < n && f(items[q].value) == f(items[n].value);
        var i :| 0 <= i < |r| && f(r[i].value) == f(init[q].value);
        assert r'[i] == r[i];
      }
    }
  }

  /** unique(callback): reject with a closure that remembers the callback
      results seen so far, so an item is dropped exactly when an earlier item
      gave the same (identical) result. */
  method UniqueBy(items: PArray, f: Value -> Value) returns (r: PArray)
    ensures r == FirstById(items, f)
  {
    var seen: seq<Value> := [];
    r := [];
    var i := 0;
    while i < |items|
      invariant 0 <= i <= |items|
      invariant r == FirstById(items[..i], f)
      invariant forall x :: x in seen <==> exists q :: 0 <= q < i && f(items[q].value) == x
    {
      var id := f(items[i].value);
      assert items[..i + 1][..i] == items[..i];
      assert FirstWithId(items[..i + 1], f, i) <==> id !in seen by {
        assert forall q :: 0 <= q <= i ==> items[..i + 1][q] == items[q];
      }
      if id !in seen {
        seen := seen + [id];
        r := r + [items[i]];
      }
      i := i + 1;
    }
    assert items[..i] == items;
  }

  /** A callback that gives every item a different result keeps everything. */
  lemma {:induction false} FirstByIdInjective(items: PArray, f: Value -> Value)
    requires forall p, q :: 0 <= p < q < |items| ==> f(items[p].value) != f(items[q].value)
    ensures FirstById(items, f) == items
    decreases |items|
  {
    if |items| > 0 {
      var n := |items| - 1;
      var init := items[..n];
      assert forall p :: 0 <= p < n ==> init[p] == items[p];
      FirstByIdInjective(init, f);
      assert FirstWithId(items, f, n);
      assert FirstById(items, f) == FirstById(init, f) + [items[n]];
      assert init + [items[n]] == items;
    }
  }

  // ------------------------------------------------------------------- zip

  /** The longest length among the arrays. */
  function MaxLength(arrays: seq<PArray>): (n: nat)
    ensures forall j :: 0 <= j < |arrays| ==> |arrays[j]| <= n
    ensures |arrays| > 0 ==> exists j :: 0 <= j < |arrays| && |arrays[j]| == n
  {
    if |arrays| == 0 then 0
    else
      var m := MaxLength(arrays[1..]);
      if |arrays[0]| >= m then |arrays[0]| else m
  }

  /** The value at position `i` of an array, or null past its end (array_map pads). */
  function ValueAtOrNull(a: PArray, i: nat): Value {
    if i < |a| then a[i].value else VNull
  }

  /** zip(arrays...): array_map with a callback that packs its arguments, so
      row `i` holds the i-th value of the collection and of every argument,
      and the shorter arrays are padded with null up to the longest. */
  function Zip(items: PArray, others: seq<PArray>): (r: seq<seq<Value>>)
    ensures |r| == MaxLength([items] + others)
    ensures forall i :: 0 <= i < |r| ==> |r[i]| == |others| + 1
  {
    var arrays := [items] + others;
    seq(MaxLength(arrays), i requires 0 <= i < MaxLength(arrays) =>
      seq(|arrays|, j requires 0 <= j < |arrays| => ValueAtOrNull(arrays[j], i)))
  }

  /** Column `j` of the zip is the j-th array's values followed by nulls. */
  lemma {:induction false} ZipColumns(items: PArray, others: seq<PArray>, j: int)
    requires 0 <= j <= |others|
    ensures var arrays := [items] + others;
      var r := Zip(items, others);
      var column := seq(|r|, i requires 0 <= i < |r| => r[i][j]);
      column == Vals(arrays[j]) + seq(|r| - |arrays[j]|, _ => VNull)
  {
  }

  /** new Collection([1, 2, 3])->zip([4, 5, 6]) is [[1, 4], [2, 5], [3, 6]]. */
  lemma {:induction false} ZipExample()
    ensures Zip(ListOf([VInt(1), VInt(2), VInt(3)]), [ListOf([VInt(4), VInt(5), VInt(6)])]) ==
      [[VInt(1), VInt(4)], [VInt(2), VInt(5)], [VInt(3), VInt(6)]]
  {
    var a, b := ListOf([VInt(1), VInt(2), VInt(3)]), ListOf([VInt(4), VInt(5), VInt(6)]);
    assert MaxLength([a] + [b]) == 3 by {
      assert ([a] + [b])[1..] == [b];
    }
    var r := Zip(a, [b]);
    assert r[0] == [VInt(1), VInt(4)];
    assert r[1] == [VInt(2), VInt(5)];
    assert r[2] == [VInt(3), VInt(6)];
  }
}
