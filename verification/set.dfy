/** Set: an immutable list of values with no value twice. Its items must be
    a plain list (keys 0..n-1). The `...AsWritten` members follow the class
    line by line; the members without that suffix are the corrected ones the
    rest of the model relies on, which keep the items a list. */
module Sets {
  import opened Exceptions
  import opened PhpValues
  import opened PhpArrays
  import opened Structures

  /** withValue: the receiver when `v` is present; otherwise a copy with `v`
      appended. The one-element batch it validates is always a list. */
  function WithValue(items: PArray, v: Value): (r: Outcome)
    ensures r.Same? <==> HasValue(items, v)
    ensures r.Changed? ==> Vals(r.items) == Vals(items) + [v]
    ensures r.Changed? && DistinctValues(items) ==> DistinctValues(r.items)
    ensures r.Changed? && IsList(items) ==> IsList(r.items)
  {
    SingletonListValid(SetKind, v);
    if InArray(items, v) then Same
    else
      var n := Push(items, v);
      assert IsList(items) ==> IsList(n) by {
        if IsList(items) {
          PushList(items, v);
        }
      }
      Changed(n)
  }

  /** The cast to array, which array_splice applies to its replacement: null
      gives nothing, an array gives its values, an object gives its one
      property (a structure's `items` array), any other value gives itself. */
  function CastToArray(v: Value): (r: seq<Value>)
    ensures v.VArr? ==> r == Vals(v.entries)
    ensures !v.VArr? && !v.VNull? && !v.VStruct? ==> r == [v]
  {
    match v
    case VNull => []
    case VArr(entries) => Vals(entries)
    case VStruct(_, items) => [VArr(items)]
    case _ => [v]
  }

  /** Integer value of a key used in arithmetic: a non-numeric string counts
      as 0 (numeric strings never survive as keys). */
  function KeyNumber(k: Key): int {
    match k
    case IntKey(i) => i
    case StrKey(_) => 0
  }

  /** withValueAfter as written: array_search gives the KEY of `search`, which
      is then used as a splice position, and the value is spliced in
      after its cast to array. */
  function WithValueAfterAsWritten(items: PArray, v: Value, search: Value): (r: Outcome)
    ensures r.Same? <==> HasValue(items, v)
    ensures r.Changed? && !HasValue(items, search) ==> Vals(r.items) == Vals(items) + [v]
    ensures r.Changed? && HasValue(items, search) ==>
      var p := SpliceOffset(|items|, KeyNumber(items[ValueIndex(items, search)].key) + 1);
      Vals(r.items) == Vals(items)[..p] + CastToArray(v) + Vals(items)[p..]
  {
    if InArray(items, v) then Same
    else
      var i := ValueIndex(items, search);
      if i < 0 then Changed(Push(items, v))
      else
        Changed(SpliceInsert(items, KeyNumber(items[i].key) + 1, CastToArray(v)))
  }

  /** withValueBefore as written: prepend when `search` is absent, otherwise
      the same key-as-position splice of the value cast to array. */
  function WithValueBeforeAsWritten(items: PArray, v: Value, search: Value): (r: Outcome)
    ensures r.Same? <==> HasValue(items, v)
    ensures r.Changed? && !HasValue(items, search) ==> Vals(r.items) == [v] + Vals(items)
    ensures r.Changed? && HasValue(items, search) ==>
      var p := SpliceOffset(|items|, KeyNumber(items[ValueIndex(items, search)].key));
      Vals(r.items) == Vals(items)[..p] + CastToArray(v) + Vals(items)[p..]
  {
    if InArray(items, v) then Same
    else
      var i := ValueIndex(items, search);
      if i < 0 then Changed(Unshift(items, v))
      else
        Changed(SpliceInsert(items, KeyNumber(items[i].key), CastToArray(v)))
  }

  /** `vs` with `v` inserted at position `p`. */
  function InsertAt(vs: seq<Value>, p: nat, v: Value): (r: seq<Value>)
    requires p <= |vs|
    ensures |r| == |vs| + 1 && r[p] == v
    ensures forall j :: 0 <= j < p ==> r[j] == vs[j]
    ensures forall j :: p < j < |r| ==> r[j] == vs[j - 1]
  {
    vs[..p] + [v] + vs[p..]
  }

  /** withValueAfter as intended: `v` goes right after the first occurrence
      of `search`, or last when `search` is absent; the result is a list. */
  function WithValueAfter(items: PArray, v: Value, search: Value): (r: Outcome)
    ensures r.Same? <==> HasValue(items, v)
    ensures r.Changed? ==> IsList(r.items) && multiset(Vals(r.items)) == multiset(Vals(items)) + multiset{v}
    ensures r.Changed? && HasValue(items, search) ==>
      var p := ValueIndex(items, search);
      Vals(r.items)[p] == search && Vals(r.items)[p + 1] == v
    ensures r.Changed? && HasValue(items, search) ==>
      Vals(r.items) == InsertAt(Vals(items), ValueIndex(items, search) + 1, v)
    ensures r.Changed? && !HasValue(items, search) ==> Vals(r.items) == Vals(items) + [v]
  {
    if InArray(items, v) then Same
    else
      var vs := Vals(items);
      var i := ValueIndex(items, search);
      var p := if i < 0 then |vs| else i + 1;
      assert vs == vs[..p] + vs[p..];
      Changed(ListOf(InsertAt(vs, p, v)))
  }

  /** withValueBefore as intended: `v` goes right before the first occurrence
      of `search`, or first when `search` is absent; the result is a list. */
  function WithValueBefore(items: PArray, v: Value, search: Value): (r: Outcome)
    ensures r.Same? <==> HasValue(items, v)
    ensures r.Changed? ==> IsList(r.items) && multiset(Vals(r.items)) == multiset(Vals(items)) + multiset{v}
    ensures r.Changed? && HasValue(items, search) ==>
      var p := ValueIndex(items, search);
      Vals(r.items)[p] == v && Vals(r.items)[p + 1] == search
    ensures r.Changed? && HasValue(items, search) ==>
      Vals(r.items) == InsertAt(Vals(items), ValueIndex(items, search), v)
    ensures r.Changed? && !HasValue(items, search) ==> Vals(r.items) == [v] + Vals(items)
  {
    if InArray(items, v) then Same
    else
      var vs := Vals(items);
      var i := ValueIndex(items, search);
      var p := if i < 0 then 0 else i;
      assert vs == vs[..p] + vs[p..];
      Changed(ListOf(InsertAt(vs, p, v)))
  }

  /** On a list, with a value that is not null, an array or an object, the
      code as written does what was intended. */
  lemma {:induction false} WithValueAfterAgreesOnScalars(items: PArray, v: Value, search: Value)
    requires IsList(items)
    requires !v.VNull? && !v.VArr? && !v.VStruct?
    ensures WithValueAfterAsWritten(items, v, search) == WithValueAfter(items, v, search)
  {
    if !InArray(items, v) {
      if ValueIndex(items, search) < 0 {
        AfterAppendAgrees(items, v, search);
      } else {
        AfterSpliceAgrees(items, v, search);
      }
    }
  }

  lemma {:induction false} AfterAppendAgrees(items: PArray, v: Value, search: Value)
    requires IsList(items) && !InArray(items, v) && ValueIndex(items, search) < 0
    ensures WithValueAfterAsWritten(items, v, search) == Changed(Push(items, v))
    ensures WithValueAfter(items, v, search) == Changed(Push(items, v))
  {
    PushScalarIsInsert(items, v);
  }

  lemma {:induction false} AfterSpliceAgrees(items: PArray, v: Value, search: Value)
    requires IsList(items) && !InArray(items, v) && ValueIndex(items, search) >= 0
    requires !v.VNull? && !v.VArr? && !v.VStruct?
    ensures var l := ListOf(InsertAt(Vals(items), ValueIndex(items, search) + 1, v));
      WithValueAfterAsWritten(items, v, search) == Changed(l) && WithValueAfter(items, v, search) == Changed(l)
  {
    var i := ValueIndex(items, search);
    assert KeyNumber(items[i].key) == i by {
      assert items[i].key == IntKey(i);
    }
    ScalarSpliceIsInsert(items, i + 1, v);
  }

  /** Pushing onto a list is inserting at its end. */
  lemma {:induction false} PushScalarIsInsert(items: PArray, v: Value)
    requires IsList(items)
    ensures Push(items, v) == ListOf(InsertAt(Vals(items), |items|, v))
  {
    PushList(items, v);
    assert InsertAt(Vals(items), |items|, v) == Vals(items) + [v];
  }

  lemma {:induction false} WithValueBeforeAgreesOnScalars(items: PArray, v: Value, search: Value)
    requires IsList(items)
    requires !v.VNull? && !v.VArr? && !v.VStruct?
    ensures WithValueBeforeAsWritten(items, v, search) == WithValueBefore(items, v, search)
  {
    if !InArray(items, v) {
      if ValueIndex(items, search) < 0 {
        BeforeUnshiftAgrees(items, v, search);
      } else {
        BeforeSpliceAgrees(items, v, search);
      }
    }
  }

  lemma {:induction false} BeforeUnshiftAgrees(items: PArray, v: Value, search: Value)
    requires IsList(items) && !InArray(items, v) && ValueIndex(items, search) < 0
    ensures WithValueBeforeAsWritten(items, v, search) == Changed(Unshift(items, v))
    ensures WithValueBefore(items, v, search) == Changed(Unshift(items, v))
  {
    UnshiftList(items, v);
    assert InsertAt(Vals(items), 0, v) == [v] + Vals(items);
  }

  lemma {:induction false} BeforeSpliceAgrees(items: PArray, v: Value, search: Value)
    requires IsList(items) && !InArray(items, v) && ValueIndex(items, search) >= 0
    requires !v.VNull? && !v.VArr? && !v.VStruct?
    ensures var l := ListOf(InsertAt(Vals(items), ValueIndex(items, search), v));
      WithValueBeforeAsWritten(items, v, search) == Changed(l) && WithValueBefore(items, v, search) == Changed(l)
  {
    var i := ValueIndex(items, search);
    assert KeyNumber(items[i].key) == i by {
      assert items[i].key == IntKey(i);
    }
    ScalarSpliceIsInsert(items, i, v);
  }

  /** Splicing one scalar into a list at a position inside it is inserting it there. */
  lemma {:induction false} ScalarSpliceIsInsert(items: PArray, p: nat, v: Value)
    requires IsList(items) && p <= |items|
    requires !v.VNull? && !v.VArr? && !v.VStruct?
    ensures SpliceInsert(items, p, CastToArray(v)) == ListOf(InsertAt(Vals(items), p, v))
  {
    var n := SpliceInsert(items, p, CastToArray(v));
    assert SpliceOffset(|items|, p) == p;
    assert IntKeyed(items);
    assert Vals(n) == InsertAt(Vals(items), p, v);
    SameValuesSameList(n, ListOf(InsertAt(Vals(items), p, v)));
  }

  /** As written, withValueAfter on the set [1, 2] with the array [2] after 1
      splices the array's element in, so 2 occurs twice; and null after 1
      inserts nothing at all. */
  lemma {:induction false} SpliceCastCounterexample()
    ensures var items := [Entry(IntKey(0), VInt(1)), Entry(IntKey(1), VInt(2))];
      var arr := VArr([Entry(IntKey(0), VInt(2))]);
      WithValueAfterAsWritten(items, arr, VInt(1)).Changed? &&
      Vals(WithValueAfterAsWritten(items, arr, VInt(1)).items) == [VInt(1), VInt(2), VInt(2)] &&
      !DistinctValues(WithValueAfterAsWritten(items, arr, VInt(1)).items) &&
      WithValueAfterAsWritten(items, VNull, VInt(1)).Changed? &&
      Vals(WithValueAfterAsWritten(items, VNull, VInt(1)).items) == [VInt(1), VInt(2)]
  {
    var arr := VArr([Entry(IntKey(0), VInt(2))]);
    assert Vals(arr.entries) == [VInt(2)];
    AfterFirstDuplicates(VInt(1), VInt(2), arr);
    AfterFirstDrops(VInt(1), VInt(2), VNull);
  }

  /** As written, withValueAfter on the two-element set [x, y] with w after x
      inserts w's array cast between them. */
  lemma {:induction false} AfterFirstAsWritten(x: Value, y: Value, w: Value)
    requires x != y && w != x && w != y
    ensures var items := [Entry(IntKey(0), x), Entry(IntKey(1), y)];
      var r := WithValueAfterAsWritten(items, w, x);
      r.Changed? && Vals(r.items) == [x] + CastToArray(w) + [y]
  {
    var items := [Entry(IntKey(0), x), Entry(IntKey(1), y)];
    assert ValueIndex(items, x) == 0;
    assert !HasValue(items, w) by {
      assert items[0].value != w && items[1].value != w;
    }
    assert Vals(items) == [x, y];
    assert SpliceOffset(2, 1) == 1;
    assert [x, y][..1] == [x] && [x, y][1..] == [y];
  }

  /** When w casts to [y], the insertion repeats y. */
  lemma {:induction false} AfterFirstDuplicates(x: Value, y: Value, w: Value)
    requires x != y && w != x && w != y && CastToArray(w) == [y]
    ensures var r := WithValueAfterAsWritten([Entry(IntKey(0), x), Entry(IntKey(1), y)], w, x);
      r.Changed? && Vals(r.items) == [x, y, y] && !DistinctValues(r.items)
  {
    AfterFirstAsWritten(x, y, w);
    var r := WithValueAfterAsWritten([Entry(IntKey(0), x), Entry(IntKey(1), y)], w, x).items;
    assert Vals(r) == [x, y, y];
    assert r[1].value == Vals(r)[1] && r[2].value == Vals(r)[2];
  }

  /** When w casts to nothing, the insertion adds nothing. */
  lemma {:induction false} AfterFirstDrops(x: Value, y: Value, w: Value)
    requires x != y && w != x && w != y && CastToArray(w) == []
    ensures var r := WithValueAfterAsWritten([Entry(IntKey(0), x), Entry(IntKey(1), y)], w, x);
      r.Changed? && Vals(r.items) == [x, y]
  {
    AfterFirstAsWritten(x, y, w);
    assert [x] + [] + [y] == [x, y];
  }

  /** withValues as written: validate, then array_unique, which keeps the keys
      of the first occurrences and so can leave gaps. */
  function WithValuesAsWritten(items: PArray, values: PArray): (r: Result<Outcome>)
    ensures r.Throw? <==> !Valid(SetKind, values)
    ensures r.Throw? ==> r.exception == ValidationException("Set structures cannot have distinct keys")
    ensures r.Ok? ==> r.value.Changed? && r.value.items == ArrayUnique(values)
  {
    var _ :- AssertValid(SetKind, values);
    Ok(Changed(ArrayUnique(values)))
  }

  /** withValues as intended: validate, drop repeated values keeping the first
      of each, and re-key the survivors 0..n-1. */
  function WithValues(items: PArray, values: PArray): (r: Result<Outcome>)
    ensures r.Throw? <==> !Valid(SetKind, values)
    ensures r.Ok? ==> r.value.Changed? && IsList(r.value.items) && DistinctValues(r.value.items)
    ensures r.Ok? ==> forall v :: HasValue(r.value.items, v) <==> HasValue(values, v)
    ensures r.Ok? ==> Vals(r.value.items) == Vals(ArrayUnique(values))
  {
    var _ :- AssertValid(SetKind, values);
    var u := ArrayUnique(values);
    var n := ArrayValues(u);
    PhpValues.SameValsSameMembers(n, u);
    Ok(Changed(n))
  }

  /** array_unique drops a second entry holding the first one's value. */
  lemma {:induction false} UniquePair(e0: Entry, e1: Entry)
    requires e0.value == e1.value
    ensures ArrayUnique([e0, e1]) == [e0]
  {
    assert [e0] == [] + [e0];
    UniqueSnoc([], e0);
    assert [e0, e1] == [e0] + [e1];
    assert HasValue([e0], e1.value) by {
      assert [e0][0].value == e1.value;
    }
    UniqueSnoc([e0], e1);
  }

  /** array_unique on [1, 1, 2] keeps the entries 0 => 1 and 2 => 2. */
  lemma {:induction false} UniqueExample(e0: Entry, e1: Entry, e2: Entry)
    requires e0.value == e1.value && e2.value != e0.value
    ensures ArrayUnique([e0, e1, e2]) == [e0, e2]
  {
    UniquePair(e0, e1);
    PairMisses(e0, e1, e2.value);
    UniqueSnoc([e0, e1], e2);
    SnocPairs(e0, e1, e2);
  }

  lemma {:induction false} SnocPairs(e0: Entry, e1: Entry, e2: Entry)
    ensures [e0, e1] + [e2] == [e0, e1, e2] && [e0] + [e2] == [e0, e2]
  {
  }

  /** A value held by neither entry is not in the pair. */
  lemma {:induction false} PairMisses(e0: Entry, e1: Entry, v: Value)
    requires e0.value != v && e1.value != v
    ensures !HasValue([e0, e1], v)
  {
    assert [e0, e1][0] == e0 && [e0, e1][1] == e1;
  }

  /** As written, withValues([1, 1, 2]) stores [0 => 1, 2 => 2], which the
      Set's own validation rejects. */
  lemma {:induction false} WithValuesCounterexample()
    ensures var values := [Entry(IntKey(0), VInt(1)), Entry(IntKey(1), VInt(1)), Entry(IntKey(2), VInt(2))];
      var r := WithValuesAsWritten([], values);
      r == Ok(Changed([Entry(IntKey(0), VInt(1)), Entry(IntKey(2), VInt(2))])) &&
      !Valid(SetKind, r.value.items)
  {
    var e0, e1, e2 := Entry(IntKey(0), VInt(1)), Entry(IntKey(1), VInt(1)), Entry(IntKey(2), VInt(2));
    UniqueExample(e0, e1, e2);
    ThreeList(e0, e1, e2);
    GapNotList(e0, e2);
  }

  /** Entries keyed 0, 1, 2 in order form a list. */
  lemma {:induction false} ThreeList(e0: Entry, e1: Entry, e2: Entry)
    requires e0.key == IntKey(0) && e1.key == IntKey(1) && e2.key == IntKey(2)
    ensures Valid(SetKind, [e0, e1, e2])
  {
    assert IsList([e0, e1, e2]);
  }

  /** Entries keyed 0 and 2 leave a gap, so they are not a list. */
  lemma {:induction false} GapNotList(e0: Entry, e2: Entry)
    requires e2.key == IntKey(2)
    ensures !Valid(SetKind, [e0, e2])
  {
    assert [e0, e2][1].key != IntKey(1);
  }

  /** withoutValue as written: unset the entry, leaving its key as a gap. */
  function WithoutValueAsWritten(items: PArray, v: Value): (r: Outcome)
    ensures r.Same? <==> !HasValue(items, v)
    ensures r.Changed? ==> r.items == RemoveAt(items, ValueIndex(items, v))
  {
    var i := ValueIndex(items, v);
    if i < 0 then Same else Changed(RemoveAt(items, i))
  }

  /** withoutValue as intended: remove the occurrence and re-key the rest. */
  function WithoutValue(items: PArray, v: Value): (r: Outcome)
    ensures r.Same? <==> !HasValue(items, v)
    ensures r.Changed? ==>
      IsList(r.items) && Vals(r.items) == Vals(RemoveAt(items, ValueIndex(items, v)))
    ensures r.Changed? && DistinctValues(items) ==> !HasValue(r.items, v)
  {
    var i := ValueIndex(items, v);
    if i < 0 then Same
    else
      var n := ArrayValues(RemoveAt(items, i));
      assert DistinctValues(items) ==> !HasValue(n, v) by {
        if DistinctValues(items) {
          RemoveOnlyOccurrence(items, i);
        }
      }
      Changed(n)
  }

  /** In a duplicate-free array, removing the position of a value and
      renumbering leaves no occurrence of that value. */
  lemma {:induction false} RemoveOnlyOccurrence(items: PArray, i: nat)
    requires i < |items| && DistinctValues(items)
    ensures !HasValue(ArrayValues(RemoveAt(items, i)), items[i].value)
  {
    var m := RemoveAt(items, i);
    var n := ArrayValues(m);
    forall j | 0 <= j < |n|
      ensures n[j].value != items[i].value
    {
      assert n[j].value == Vals(m)[j] == m[j].value;
      if j < i {
        assert m[j] == items[j];
      } else {
        assert m[j] == items[j + 1];
      }
    }
  }

  /** The corrected withoutValue is the code's result passed through array_values. */
  lemma {:induction false} WithoutValueIsValuesOfAsWritten(items: PArray, v: Value)
    ensures WithoutValueAsWritten(items, v).Same? <==> WithoutValue(items, v).Same?
    ensures WithoutValueAsWritten(items, v).Changed? ==>
      WithoutValue(items, v).items == ArrayValues(WithoutValueAsWritten(items, v).items)
  {
  }

  /** As written, removing 1 from the set [1, 2] leaves [1 => 2]: the set can
      no longer be unserialized, because Set's validation rejects its items. */
  lemma {:induction false} WithoutValueCounterexample()
    ensures var items := [Entry(IntKey(0), VInt(1)), Entry(IntKey(1), VInt(2))];
      var r := WithoutValueAsWritten(items, VInt(1));
      Valid(SetKind, items) && r == Changed([Entry(IntKey(1), VInt(2))]) &&
      Unserialize(SetKind, Serialize(Structure(SetKind, r.items))).Throw?
  {
    var items := [Entry(IntKey(0), VInt(1)), Entry(IntKey(1), VInt(2))];
    assert ValueIndex(items, VInt(1)) == 0;
    assert RemoveAt(items, 0) == [Entry(IntKey(1), VInt(2))];
    assert !IsList([Entry(IntKey(1), VInt(2))]) by {
      assert [Entry(IntKey(1), VInt(2))][0].key != IntKey(0);
    }
  }

  /** Every corrected mutator keeps a valid, duplicate-free set valid and
      duplicate-free, so the result always survives serialize/unserialize. */
  lemma {:induction false} MutatorsKeepSetValid(items: PArray, v: Value, search: Value, values: PArray)
    requires IsList(items) && DistinctValues(items)
    ensures var r := WithValue(items, v);
      r.Changed? ==> IsList(r.items) && DistinctValues(r.items)
    ensures var r := WithValueAfter(items, v, search);
      r.Changed? ==> IsList(r.items) && DistinctValues(r.items)
    ensures var r := WithValueBefore(items, v, search);
      r.Changed? ==> IsList(r.items) && DistinctValues(r.items)
    ensures var r := WithoutValue(items, v);
      r.Changed? ==> IsList(r.items) && DistinctValues(r.items)
    ensures var r := WithValues(items, values);
      r.Ok? ==> IsList(r.value.items) && DistinctValues(r.value.items)
  {
    AfterKeepsSet(items, v, search);
    BeforeKeepsSet(items, v, search);
    WithoutKeepsSet(items, v);
  }

  lemma {:induction false} AfterKeepsSet(items: PArray, v: Value, search: Value)
    requires IsList(items) && DistinctValues(items)
    ensures var r := WithValueAfter(items, v, search);
      r.Changed? ==> IsList(r.items) && DistinctValues(r.items)
  {
    var after := WithValueAfter(items, v, search);
    if after.Changed? {
      InsertKeepsDistinct(items, v, after.items);
    }
  }

  lemma {:induction false} BeforeKeepsSet(items: PArray, v: Value, search: Value)
    requires IsList(items) && DistinctValues(items)
    ensures var r := WithValueBefore(items, v, search);
      r.Changed? ==> IsList(r.items) && DistinctValues(r.items)
  {
    var before := WithValueBefore(items, v, search);
    if before.Changed? {
      InsertKeepsDistinct(items, v, before.items);
    }
  }

  lemma {:induction false} WithoutKeepsSet(items: PArray, v: Value)
    requires IsList(items) && DistinctValues(items)
    ensures var r := WithoutValue(items, v);
      r.Changed? ==> IsList(r.items) && DistinctValues(r.items)
  {
    var without := WithoutValue(items, v);
    if without.Changed? {
      var i := ValueIndex(items, v);
      var n := without.items;
      forall p, q | 0 <= p < q < |n|
        ensures n[p].value != n[q].value
      {
        var p', q' := if p < i then p else p + 1, if q < i then q else q + 1;
        assert n[p].value == items[p'].value && n[q].value == items[q'].value;
      }
    }
  }

  /** Adding a value that is not yet present to a duplicate-free array gives a
      duplicate-free array. */
  lemma {:induction false} InsertKeepsDistinct(items: PArray, v: Value, n: PArray)
    requires DistinctValues(items) && !HasValue(items, v)
    requires multiset(Vals(n)) == multiset(Vals(items)) + multiset{v}
    ensures DistinctValues(n)
  {
    assert v !in Vals(items) by {
      forall j | 0 <= j < |items|
        ensures Vals(items)[j] != v
      {
      }
    }
    forall p, q | 0 <= p < q < |n|
      ensures n[p].value != n[q].value
    {
      var x := n[p].value;
      ValueCountTwice(items, x);
      TwiceInMultiset(Vals(n), p, q);
    }
  }

  /** A value occurring at two positions is counted at least twice. */
  lemma {:induction false} TwiceInMultiset(vs: seq<Value>, p: nat, q: nat)
    requires p < q < |vs|
    ensures vs[p] == vs[q] ==> multiset(vs)[vs[p]] >= 2
  {
    var x := vs[p];
    assert vs == vs[..q] + vs[q..];
    assert vs[..q] == vs[..p] + vs[p..q];
    assert vs[p..q][0] == x;
    assert multiset(vs[p..q])[x] >= 1;
    assert vs[q..][0] == vs[q];
  }

  /** A value counted twice in a duplicate-free array cannot exist. */
  lemma {:induction false} ValueCountTwice(items: PArray, x: Value)
    requires DistinctValues(items)
    ensures multiset(Vals(items))[x] <= 1
  {
    var vs := Vals(items);
    if |vs| > 0 {
      var rest := items[1..];
      assert DistinctValues(rest);
      ValueCountTwice(rest, x);
      assert vs == [vs[0]] + Vals(rest);
      if vs[0] == x {
        assert !(x in Vals(rest)) by {
          forall j | 0 <= j < |rest|
            ensures rest[j].value != x
          {
            assert rest[j] == items[j + 1];
          }
        }
      }
    }
  }
}
