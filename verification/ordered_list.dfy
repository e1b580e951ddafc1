/** OrderedList: an immutable list kept in ascending order by its mutators
    (sort with SORT_REGULAR re-keys 0..n-1). Duplicates are allowed. A
    freshly constructed list is not sorted. */
module OrderedLists {
  import opened Exceptions
  import opened PhpValues
  import opened PhpArrays
  import opened Ordering
  import opened Structures

  /** withValue: always a new instance holding the old values plus `v`,
      sorted; the one-element batch it validates is always a list. */
  function WithValue(items: PArray, v: Value): (r: Outcome)
    ensures r.Changed?
    ensures IsList(r.items) && |r.items| == |items| + 1
    ensures multiset(Vals(r.items)) == multiset(Vals(items)) + multiset{v}
    ensures SortedPairwise(Vals(r.items), ValueOrder)
  {
    SingletonListValid(OrderedListKind, v);
    var n := Push(items, v);
    assert Vals(n) == Vals(items) + [v];
    Changed(SortList(n))
  }

  /** withValues: the receiver when `values` is identical to its items;
      otherwise the validated batch, sorted. */
  function WithValues(items: PArray, values: PArray): (r: Result<Outcome>)
    ensures r == Ok(Same) <==> items == values
    ensures r.Throw? <==> items != values && !Valid(OrderedListKind, values)
    ensures r.Throw? ==> r.exception == ValidationException("List structures cannot have distinct keys")
    ensures r.Ok? && r.value.Changed? ==>
      IsList(r.value.items) && multiset(Vals(r.value.items)) == multiset(Vals(values)) &&
      SortedPairwise(Vals(r.value.items), ValueOrder)
  {
    if items == values then Ok(Same)
    else
      var _ :- AssertValid(OrderedListKind, values);
      Ok(Changed(SortList(values)))
  }

  /** withoutValue: the receiver when `v` is absent; otherwise one occurrence
      is removed and the rest re-sorted. */
  function WithoutValue(items: PArray, v: Value): (r: Outcome)
    ensures r.Same? <==> !HasValue(items, v)
    ensures r.Changed? ==>
      IsList(r.items) && |r.items| == |items| - 1 &&
      multiset(Vals(r.items)) == multiset(Vals(items)) - multiset{v} &&
      SortedPairwise(Vals(r.items), ValueOrder)
  {
    var i := ValueIndex(items, v);
    if i < 0 then Same
    else
      RemoveAtValues(items, i);
      Changed(SortList(RemoveAt(items, i)))
  }

  /** Adding a value and removing it again gives back the same values, in order. */
  lemma {:induction false} WithValueThenWithout(items: PArray, v: Value)
    ensures var added := WithValue(items, v).items;
      var removed := WithoutValue(added, v);
      removed.Changed? &&
      multiset(Vals(removed.items)) == multiset(Vals(items)) &&
      SortedPairwise(Vals(removed.items), ValueOrder)
  {
    var added := WithValue(items, v).items;
    HasValueInVals(added, v);
    var m, one := multiset(Vals(items)), multiset{v};
    assert (m + one) - one == m;
  }

  /** Each mutator result is accepted by the class's own validation. */
  lemma {:induction false} MutatorsKeepValid(items: PArray, v: Value, values: PArray)
    ensures Valid(OrderedListKind, WithValue(items, v).items)
    ensures WithoutValue(items, v).Changed? ==> Valid(OrderedListKind, WithoutValue(items, v).items)
    ensures WithValues(items, values).Ok? && WithValues(items, values).value.Changed? ==>
      Valid(OrderedListKind, WithValues(items, values).value.items)
  {
    ListValid(OrderedListKind, WithValue(items, v).items);
    var without := WithoutValue(items, v);
    if without.Changed? {
      ListValid(OrderedListKind, without.items);
    }
    var r := WithValues(items, values);
    if r.Ok? && r.value.Changed? {
      ListValid(OrderedListKind, r.value.items);
    }
  }
}
