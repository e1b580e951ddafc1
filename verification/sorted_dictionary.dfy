/** SortedDictionary: a Dictionary whose mutators sort the copy by value
    (asort, so each key stays with its value). The receiver returned by a
    short-circuit is never sorted, and neither is a freshly constructed one. */
module SortedDictionaries {
  import opened Exceptions
  import opened PhpValues
  import opened PhpArrays
  import opened Ordering
  import opened Structures
  import Dictionaries

  /** sortChanged: sort only a new instance; the receiver itself comes back as it is. */
  function SortChanged(o: Outcome): (r: Outcome)
    ensures o.Same? <==> r.Same?
    ensures r.Changed? ==>
      multiset(r.items) == multiset(o.items) && SortedPairwise(Vals(r.items), ValueOrder)
  {
    match o
    case Same => Same
    case Changed(items) => Changed(SortEntries(items))
  }

  /** Lift sortChanged over a result: an exception from the parent passes through. */
  function SortResult(r: Result<Outcome>): (s: Result<Outcome>)
    ensures r.Throw? <==> s.Throw?
    ensures r.Throw? ==> s == r
    ensures r.Ok? ==> s == Ok(SortChanged(r.value))
  {
    match r
    case Ok(o) => Ok(SortChanged(o))
    case Throw(e) => Throw(e)
  }

  /** withValue: Dictionary::withValue, then sortChanged. A new copy holds
      exactly the key/value pairs of the plain Dictionary result, ordered by
      value; a short-circuit returns the receiver unsorted; a validation
      failure propagates and no copy is made. */
  function WithValue(items: PArray, k: Key, v: Value): (r: Result<Outcome>)
    requires DistinctKeys(items)
    ensures var d := Dictionaries.WithValue(items, k, v);
      (d.Throw? ==> r == d) &&
      (d == Ok(Same) <==> r == Ok(Same)) &&
      (d.Ok? && d.value.Changed? ==>
        r.Ok? && r.value.Changed? &&
        multiset(r.value.items) == multiset(d.value.items) &&
        SortedPairwise(Vals(r.value.items), ValueOrder))
    ensures r.Ok? && r.value.Changed? ==> Entry(k, v) in r.value.items
  {
    var d := Dictionaries.WithValue(items, k, v);
    if d.Ok? && d.value.Changed? then
      var n := d.value.items;
      assert Lookup(n, k) == Some(v);
      var i :| 0 <= i < |n| && n[i] == Entry(k, v);
      assert n[i] in multiset(SortEntries(n));
      SortResult(d)
    else
      SortResult(d)
  }

  /** withValues: Dictionary::withValues, then sortChanged. */
  function WithValues(items: PArray, values: PArray): (r: Result<Outcome>)
    ensures r == Ok(Same) <==> items == values
    ensures r.Throw? <==> items != values && |values| > 0 && IsList(values)
    ensures r.Throw? ==> r.exception == ValidationException("Dictionary values must have distinct keys")
    ensures r.Ok? && r.value.Changed? ==>
      multiset(r.value.items) == multiset(values) && SortedPairwise(Vals(r.value.items), ValueOrder)
  {
    SortResult(Dictionaries.WithValues(items, values))
  }

  /** withoutValue: Dictionary::withoutValue, then sortChanged. */
  function WithoutValue(items: PArray, k: Key): (r: Outcome)
    requires DistinctKeys(items)
    ensures r.Same? <==> !HasKey(items, k)
    ensures r.Changed? ==>
      var i := KeyIndex(items, k);
      multiset(r.items) == multiset(items[..i] + items[i + 1..]) &&
      SortedPairwise(Vals(r.items), ValueOrder)
  {
    SortChanged(Dictionaries.WithoutValue(items, k))
  }

  /** The constructor does not sort: ["a" => 2, "b" => 1] is kept in that order. */
  lemma {:induction false} ConstructionDoesNotSort()
    ensures var items := [Entry(StrKey("a"), VInt(2)), Entry(StrKey("b"), VInt(1))];
      Construct(SortedDictionaryKind, items) == Ok(Structure(SortedDictionaryKind, items)) &&
      !SortedPairwise(Vals(items), ValueOrder)
  {
    var items := [Entry(StrKey("a"), VInt(2)), Entry(StrKey("b"), VInt(1))];
    assert items[0].key != IntKey(0);
    assert Vals(items)[0] == VInt(2) && Vals(items)[1] == VInt(1);
    assert !ValueOrder(Vals(items)[0], Vals(items)[1]);
  }
}
