/** UnorderedList: an immutable list in insertion order; duplicates are
    allowed. The `...AsWritten` member follows the class line by line; the
    corrected withoutValue keeps the items a list. */
module UnorderedLists {
  import opened Exceptions
  import opened PhpValues
  import opened PhpArrays
  import opened Structures
  import Sets

  /** withValue: always a new instance with `v` appended, one item longer. */
  function WithValue(items: PArray, v: Value): (r: Outcome)
    ensures r.Changed? && |r.items| == |items| + 1
    ensures Vals(r.items) == Vals(items) + [v]
    ensures IsList(items) ==> IsList(r.items)
  {
    SingletonListValid(UnorderedListKind, v);
    var n := Push(items, v);
    assert IsList(items) ==> IsList(n) by {
      if IsList(items) {
        PushList(items, v);
      }
    }
    Changed(n)
  }

  /** withValues: validate first; then the receiver when `values` is identical
      to its items, else a copy holding `values` verbatim. */
  function WithValues(items: PArray, values: PArray): (r: Result<Outcome>)
    ensures r.Throw? <==> !Valid(UnorderedListKind, values)
    ensures r.Throw? ==> r.exception == ValidationException("List structures cannot have distinct keys")
    ensures r == Ok(Same) <==> Valid(UnorderedListKind, values) && items == values
    ensures r.Ok? && r.value.Changed? ==> r.value.items == values
  {
    var _ :- AssertValid(UnorderedListKind, values);
    if items == values then Ok(Same) else Ok(Changed(values))
  }

  /** withoutValue as written: unset the first occurrence, leaving a key gap;
      the class body is the same as Set's. */
  function WithoutValueAsWritten(items: PArray, v: Value): (r: Outcome)
    ensures r.Same? <==> !HasValue(items, v)
    ensures r.Changed? ==> r.items == RemoveAt(items, ValueIndex(items, v))
  {
    Sets.WithoutValueAsWritten(items, v)
  }

  /** withoutValue as intended: drop the first occurrence only, keep the
      others in order, and re-key 0..n-1. */
  function WithoutValue(items: PArray, v: Value): (r: Outcome)
    ensures r.Same? <==> !HasValue(items, v)
    ensures r.Changed? ==>
      var i := ValueIndex(items, v);
      IsList(r.items) && Vals(r.items) == Vals(items)[..i] + Vals(items)[i + 1..] &&
      multiset(Vals(r.items)) == multiset(Vals(items)) - multiset{v}
  {
    var i := ValueIndex(items, v);
    if i < 0 then Same
    else
      RemoveAtValues(items, i);
      Changed(ArrayValues(RemoveAt(items, i)))
  }

  /** The corrected withoutValue is the code's result passed through array_values. */
  lemma {:induction false} WithoutValueIsValuesOfAsWritten(items: PArray, v: Value)
    ensures WithoutValueAsWritten(items, v).Same? <==> WithoutValue(items, v).Same?
    ensures WithoutValueAsWritten(items, v).Changed? ==>
      WithoutValue(items, v).items == ArrayValues(WithoutValueAsWritten(items, v).items)
  {
  }

  /** Appending a value and removing it again gives back the original list
      when the value was not there before. */
  lemma {:induction false} WithValueThenWithout(items: PArray, v: Value)
    requires IsList(items) && !HasValue(items, v)
    ensures WithoutValue(WithValue(items, v).items, v) == Changed(items)
  {
    var added := WithValue(items, v).items;
    var va := Vals(added);
    assert ValueIndex(added, v) == |items| by {
      ValueIndexAppend(items, Entry(IntKey(NextIndex(items)), v), v);
    }
    assert va[..|items|] == Vals(items);
    var r := WithoutValue(added, v).items;
    assert Vals(r) == Vals(items);
    IsListIffSelfValues(items);
  }

  /** As written, removing 1 from the list [1, 2] leaves [1 => 2]: the list
      can no longer be unserialized, because its own validation rejects it. */
  lemma {:induction false} WithoutValueCounterexample()
    ensures var items := [Entry(IntKey(0), VInt(1)), Entry(IntKey(1), VInt(2))];
      var r := WithoutValueAsWritten(items, VInt(1));
      Valid(UnorderedListKind, items) && r == Changed([Entry(IntKey(1), VInt(2))]) &&
      Unserialize(UnorderedListKind, Serialize(Structure(UnorderedListKind, r.items))).Throw?
  {
    var items := [Entry(IntKey(0), VInt(1)), Entry(IntKey(1), VInt(2))];
    assert ValueIndex(items, VInt(1)) == 0;
    assert RemoveAt(items, 0) == [Entry(IntKey(1), VInt(2))];
    assert !IsList([Entry(IntKey(1), VInt(2))]) by {
      assert [Entry(IntKey(1), VInt(2))][0].key != IntKey(0);
    }
  }

  /** The corrected withoutValue keeps the list valid, so the result always
      survives serialize/unserialize. */
  lemma {:induction false} WithoutValueKeepsValid(items: PArray, v: Value)
    requires WithoutValue(items, v).Changed?
    ensures Unserialize(UnorderedListKind, Serialize(Structure(UnorderedListKind, WithoutValue(items, v).items))).Ok?
  {
  }
}
