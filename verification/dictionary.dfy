/** Dictionary: an immutable key/value structure whose items must not form a
    plain list. Every mutator either returns the receiver itself or validates
    its input and returns a modified copy. */
module Dictionaries {
  import opened Exceptions
  import opened PhpValues
  import opened PhpArrays
  import opened Structures

  /** getValue: the stored value, or the default only when the key is absent. */
  function GetValue(items: PArray, k: Key, default: Value): (r: Value)
    requires DistinctKeys(items)
    ensures !HasKey(items, k) ==> r == default
    ensures forall i :: 0 <= i < |items| && items[i].key == k ==> r == items[i].value
  {
    if KeyExists(items, k) then
      var i := KeyIndex(items, k);
      assert forall j :: 0 <= j < |items| && items[j].key == k ==> j == i;
      items[i].value
    else default
  }

  /** withValue: the receiver when `k` already holds exactly `v`; otherwise the
      one-pair batch [k => v] is validated and a copy gets `v` assigned at `k`. */
  function WithValue(items: PArray, k: Key, v: Value): (r: Result<Outcome>)
    requires DistinctKeys(items)
    ensures r == Ok(Same) <==> Lookup(items, k) == Some(v)
    ensures r.Throw? <==> Lookup(items, k) != Some(v) && k == IntKey(0)
    ensures r.Throw? ==> r.exception == ValidationException("Dictionary values must have distinct keys")
    ensures r.Ok? && r.value.Changed? ==>
      var n := r.value.items;
      DistinctKeys(n) && GetValue(n, k, VNull) == v &&
      (forall k' :: k' != k ==> Lookup(n, k') == Lookup(items, k')) &&
      (forall k' :: HasKey(n, k') <==> HasKey(items, k') || k' == k)
  {
    if KeyExists(items, k) && Lookup(items, k) == Some(v) then Ok(Same)
    else
      var _ :- AssertValid(DictionaryKind, [Entry(k, v)]);
      var n := Assign(items, k, v);
      assert forall k' :: HasKey(n, k') <==> HasKey(items, k') || k' == k by {
        forall k' ensures HasKey(n, k') <==> HasKey(items, k') || k' == k {
          assert Lookup(n, k').Some? <==> HasKey(n, k');
        }
      }
      Ok(Changed(n))
  }

  /** withValues: the receiver when `values` is identical to its items,
      otherwise the validated batch becomes the copy's items verbatim. */
  function WithValues(items: PArray, values: PArray): (r: Result<Outcome>)
    ensures r == Ok(Same) <==> items == values
    ensures r.Throw? <==> items != values && |values| > 0 && IsList(values)
    ensures r.Ok? && r.value.Changed? ==> r.value.items == values
  {
    if items == values then Ok(Same)
    else
      var _ :- AssertValid(DictionaryKind, values);
      Ok(Changed(values))
  }

  /** withoutValue: the receiver when `k` is absent, otherwise a copy without
      `k` and with every other pair kept in order. */
  function WithoutValue(items: PArray, k: Key): (r: Outcome)
    requires DistinctKeys(items)
    ensures r.Same? <==> !HasKey(items, k)
    ensures r.Changed? ==>
      var i := KeyIndex(items, k);
      r.items == items[..i] + items[i + 1..] && !HasKey(r.items, k) && DistinctKeys(r.items)
  {
    if !KeyExists(items, k) then Same
    else Changed(Unset(items, k))
  }

  /** Adding a new key and removing it again gives back the original items. */
  lemma {:induction false} WithValueThenWithout(items: PArray, k: Key, v: Value)
    requires DistinctKeys(items) && !HasKey(items, k) && k != IntKey(0)
    ensures WithValue(items, k, v).Ok? && WithValue(items, k, v).value.Changed?
    ensures WithoutValue(WithValue(items, k, v).value.items, k) == Changed(items)
  {
    AppendThenUnset(items, Entry(k, v));
  }

  /** Unsetting the key an entry was just appended under removes that entry. */
  lemma {:induction false} AppendThenUnset(items: PArray, e: Entry)
    requires !HasKey(items, e.key)
    ensures var n := items + [e]; KeyIndex(n, e.key) == |items| && n[..|items|] + n[|items| + 1..] == items
  {
    HasKeyAppend(items, e, e.key);
    var n := items + [e];
    assert n[..|items|] == items && n[|items| + 1..] == [];
  }

  /** A mutator's result is a structure Dictionary accepts again, except that
      withoutValue can leave a list behind. */
  lemma {:induction false} WithValueKeepsValid(items: PArray, k: Key, v: Value)
    requires DistinctKeys(items) && Valid(DictionaryKind, items)
    requires WithValue(items, k, v).Ok? && WithValue(items, k, v).value.Changed?
    ensures Valid(DictionaryKind, WithValue(items, k, v).value.items)
  {
    var n := Assign(items, k, v);
    assert WithValue(items, k, v).value.items == n;
    assert !IsList(n) by {
      if |items| == 0 {
        assert k != IntKey(0);
        assert n[0] == Entry(k, v);
      } else {
        var i :| 0 <= i < |items| && items[i].key != IntKey(i);
        if HasKey(items, k) {
          assert n[i].key == Keys(n)[i] == Keys(items)[i];
        } else {
          assert n[i] == items[i];
        }
      }
    }
  }

  /** withValue(0, v) always fails unless key 0 already holds v. */
  lemma {:induction false} WithValueZeroThrows(items: PArray, v: Value)
    requires DistinctKeys(items) && Lookup(items, IntKey(0)) != Some(v)
    ensures WithValue(items, IntKey(0), v).Throw?
  {
  }

  /** The dictionary [1 => "a", 0 => "b"] is valid, but removing key 1 leaves
      the list [0 => "b"], which Dictionary itself rejects (so the result can
      no longer be unserialized). */
  lemma {:induction false} WithoutValueCanLeaveList()
    ensures var items := [Entry(IntKey(1), VStr("a")), Entry(IntKey(0), VStr("b"))];
      Valid(DictionaryKind, items) &&
      WithoutValue(items, IntKey(1)) == Changed([Entry(IntKey(0), VStr("b"))]) &&
      !Valid(DictionaryKind, [Entry(IntKey(0), VStr("b"))])
  {
    var items := [Entry(IntKey(1), VStr("a")), Entry(IntKey(0), VStr("b"))];
    assert items[0].key != IntKey(0);
    assert KeyIndex(items, IntKey(1)) == 0;
    assert items[1..] == [Entry(IntKey(0), VStr("b"))];
  }
}
