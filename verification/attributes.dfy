/** Attributes: an immutable attribute bag. Its items start unpopulated
    (null) unless the constructor gets a truthy argument, can be populated
    once through setAttributes, and every write through WithImmutability is
    rejected. */
module AttributeBags {
  import opened Exceptions
  import opened PhpValues
  import opened PhpArrays
  import Structures
  import ItemArrayAccess

  /** The protected items property: None while it is still null. */
  datatype Attributes = Attributes(items: Option<PArray>)

  const ImmutableMessage: string := "Setting magic or other properties is not allowed in an immutable data object."
  const UnsetMessage: string := "Cannot remove an immutable item."
  const PopulatedMessage: string := "Cannot use setAttributes once the item array is populated."

  /** PHP 7 message for a method declared to return `typ` that ends up
      returning null. */
  function NullReturnedAs(name: string, typ: string): string {
    "Return value of Nine\\Collections\\Attributes::" + name + "() must be of the type " + typ + ", null returned"
  }

  /** The same message for a `: array` method. */
  function NullReturned(name: string): string {
    NullReturnedAs(name, "array")
  }

  /** The constructor: only a truthy argument populates the items. */
  function New(arg: Value): (r: Attributes)
    ensures r.items.Some? <==> Truthy(arg)
    ensures r.items.Some? ==> r.items.value == ItemArrayAccess.Arrayable(arg)
  {
    if Truthy(arg) then Attributes(Some(ItemArrayAccess.Arrayable(arg))) else Attributes(None)
  }

  /** The items, with unpopulated items read as the empty array. */
  function ItemsOrEmpty(a: Attributes): PArray {
    if a.items.Some? then a.items.value else []
  }

  /** __get: the attribute under `name`, or InvalidArgumentException. */
  function MagicGet(a: Attributes, name: string): (r: Result<Value>)
    ensures r.Ok? <==> a.items.Some? && HasKey(a.items.value, StrKey(name))
    ensures r.Ok? ==> Lookup(a.items.value, StrKey(name)) == Some(r.value)
    ensures r.Throw? ==> r.exception == InvalidArgumentException("Attribute '" + name + "' does not exist.")
  {
    match Lookup(ItemsOrEmpty(a), StrKey(name))
    case Some(v) => Ok(v)
    case None => Throw(InvalidArgumentException("Attribute '" + name + "' does not exist."))
  }

  /** get: the stored value, or the default when the key is missing or holds null. */
  function Get(a: Attributes, k: Key, default: Value): (r: Value)
    ensures a.items.None? ==> r == default
    ensures a.items.Some? ==>
      match Lookup(a.items.value, k)
      case None => r == default
      case Some(v) => r == if v == VNull then default else v
  {
    match Lookup(ItemsOrEmpty(a), k)
    case Some(v) => if v == VNull then default else v
    case None => default
  }

  /** has: array_key_exists, so a null value still counts as present; on
      unpopulated items PHP 7 warns and answers null, which is falsy. */
  function Has(a: Attributes, k: Key): (r: bool)
    ensures r <==> a.items.Some? && HasKey(a.items.value, k)
  {
    Lookup(ItemsOrEmpty(a), k).Some?
  }

  /** offsetExists: the same test as has, but declared `: bool`, so the null
      array_key_exists answers on unpopulated items is a TypeError. */
  function OffsetExists(a: Attributes, k: Key): (r: Result<bool>)
    ensures r.Throw? <==> a.items.None?
    ensures r.Throw? ==> r.exception == TypeError(NullReturnedAs("offsetExists", "bool"))
    ensures r.Ok? ==> (r.value <==> HasKey(a.items.value, k))
  {
    match a.items
    case None => Throw(TypeError(NullReturnedAs("offsetExists", "bool")))
    case Some(items) => Ok(Has(a, k))
  }

  /** On populated items offsetExists agrees with has. */
  lemma {:induction false} OffsetExistsAgreesWithHas(a: Attributes, k: Key)
    requires a.items.Some?
    ensures OffsetExists(a, k) == Ok(Has(a, k))
  {
  }

  /** offsetGet: a direct read of the key, null when the key is missing. */
  function OffsetGet(a: Attributes, k: Key): (r: Value)
    ensures a.items.Some? && HasKey(a.items.value, k) ==> Lookup(a.items.value, k) == Some(r)
    ensures a.items.None? || !HasKey(a.items.value, k) ==> r == VNull
  {
    match Lookup(ItemsOrEmpty(a), k)
    case Some(v) => v
    case None => VNull
  }

  /** A key holding null is present for has, yet get answers the default. */
  lemma {:induction false} NullValuedKey(a: Attributes, k: Key, default: Value)
    requires a.items.Some? && DistinctKeys(a.items.value)
    requires exists i :: 0 <= i < |a.items.value| && a.items.value[i] == Entry(k, VNull)
    ensures Has(a, k) && OffsetExists(a, k) == Ok(true)
    ensures Get(a, k, default) == default && OffsetGet(a, k) == VNull
  {
    var items := a.items.value;
    var i :| 0 <= i < |items| && items[i] == Entry(k, VNull);
    var j := KeyIndex(items, k);
    assert items[j].key == k;
  }

  /** copy: array_merge_recursive into an empty array; with unpopulated items
      it returns null, which the `: array` return type rejects. */
  function Copy(a: Attributes): (r: Result<PArray>)
    ensures r.Throw? <==> a.items.None?
    ensures r.Throw? ==> r.exception == TypeError(NullReturned("copy"))
    ensures r.Ok? ==> DistinctKeys(r.value)
    ensures r.Ok? && DistinctKeys(a.items.value) ==> r.value == Renumber(a.items.value)
  {
    match a.items
    case None => Throw(TypeError(NullReturned("copy")))
    case Some(items) => Ok(ItemArrayAccess.Copy(items))
  }

  /** With string keys only, the copy equals the items. */
  lemma {:induction false} CopyStringKeyed(a: Attributes)
    requires a.items.Some? && DistinctKeys(a.items.value)
    requires forall i :: 0 <= i < |a.items.value| ==> a.items.value[i].key.StrKey?
    ensures Copy(a) == Ok(a.items.value)
  {
    ItemArrayAccess.CopyStringKeyed(a.items.value);
  }

  /** WithImmutability::__set: rejected unless key and value are both null;
      the all-null call is a no-op. */
  function MagicSet(a: Attributes, k: Value, v: Value): (r: Result<Attributes>)
    ensures r.Throw? <==> k != VNull || v != VNull
    ensures r.Throw? ==> r.exception == ImmutableViolationException(ImmutableMessage)
    ensures r.Ok? ==> r.value == a
  {
    if k != VNull || v != VNull then Throw(ImmutableViolationException(ImmutableMessage)) else Ok(a)
  }

  /** WithImmutability::offsetSet: the same rule as __set. */
  function OffsetSet(a: Attributes, k: Value, v: Value): (r: Result<Attributes>)
    ensures r.Throw? <==> k != VNull || v != VNull
    ensures r.Throw? ==> r.exception == ImmutableViolationException(ImmutableMessage)
    ensures r.Ok? ==> r.value == a
  {
    MagicSet(a, k, v)
  }

  /** WithImmutability::offsetUnset: rejected for any non-null key. */
  function OffsetUnset(a: Attributes, k: Value): (r: Result<Attributes>)
    ensures r.Throw? <==> k != VNull
    ensures r.Throw? ==> r.exception == ImmutableViolationException(UnsetMessage)
    ensures r.Ok? ==> r.value == a
  {
    if k != VNull then Throw(ImmutableViolationException(UnsetMessage)) else Ok(a)
  }

  /** set(key, value): routed through offsetSet with a string key, so it
      always throws, even on unpopulated items and for a null value. */
  function Set(a: Attributes, key: string, v: Value): (r: Result<Attributes>)
    ensures r == Throw(ImmutableViolationException(ImmutableMessage))
  {
    OffsetSet(a, VStr(key), v)
  }

  /** setAttributes: allowed only while the items are unpopulated. */
  function SetAttributes(a: Attributes, arg: Value): (r: Result<Attributes>)
    ensures r.Throw? <==> a.items.Some?
    ensures r.Throw? ==> r.exception == ImmutableViolationException(PopulatedMessage)
    ensures r.Ok? ==> r.value.items == Some(ItemArrayAccess.Arrayable(arg))
  {
    if a.items.Some? then Throw(ImmutableViolationException(PopulatedMessage))
    else Ok(Attributes(Some(ItemArrayAccess.Arrayable(arg))))
  }

  /** setAttributes works once: after a call that succeeds, the next throws. */
  lemma {:induction false} SetAttributesOnce(a: Attributes, x: Value, y: Value)
    requires SetAttributes(a, x).Ok?
    ensures SetAttributes(SetAttributes(a, x).value, y).Throw?
  {
  }

  /** A falsy constructor argument leaves room for one setAttributes call. */
  lemma {:induction false} FalsyConstructionThenSetAttributes(arg: Value, x: Value)
    requires !Truthy(arg)
    ensures SetAttributes(New(arg), x) == Ok(Attributes(Some(ItemArrayAccess.Arrayable(x))))
  {
  }

  /** array_map over the values: structure objects become arrays, the rest
      stays as it is. */
  function ToArrayValues(items: PArray): (r: PArray)
    ensures |r| == |items| && Keys(r) == Keys(items)
    ensures forall i :: 0 <= i < |r| ==> r[i].value == Structures.ToArrayValue(items[i].value)
  {
    if items == [] then []
    else
      var e, rest := Entry(items[0].key, Structures.ToArrayValue(items[0].value)), ToArrayValues(items[1..]);
      ToArrayValuesCons(items, e, rest);
      [e] + rest
  }

  lemma {:induction false} ToArrayValuesCons(items: PArray, e: Entry, rest: PArray)
    requires |items| > 0 && e == Entry(items[0].key, Structures.ToArrayValue(items[0].value))
    requires |rest| == |items| - 1 && Keys(rest) == Keys(items[1..])
    requires forall i :: 0 <= i < |rest| ==> rest[i].value == Structures.ToArrayValue(items[1..][i].value)
    ensures Keys([e] + rest) == Keys(items)
    ensures forall i :: 0 <= i < |items| ==> ([e] + rest)[i].value == Structures.ToArrayValue(items[i].value)
  {
    var r := [e] + rest;
    forall i | 0 < i < |items|
      ensures r[i] == rest[i - 1] && items[i] == items[1..][i - 1]
    {
    }
    forall i | 0 < i < |items|
      ensures r[i].key == items[i].key
    {
      assert Keys(rest)[i - 1] == Keys(items[1..])[i - 1];
    }
    assert Keys(r) == Keys(items);
  }

  /** toArray: keys and order of the items; no structure object is left at
      the top level; unpopulated items give null, which the return type rejects. */
  function ToArray(a: Attributes): (r: Result<PArray>)
    ensures r.Throw? <==> a.items.None?
    ensures r.Throw? ==> r.exception == TypeError(NullReturned("toArray"))
    ensures r.Ok? ==> Keys(r.value) == Keys(a.items.value)
    ensures r.Ok? ==> forall i :: 0 <= i < |r.value| ==>
      !r.value[i].value.VStruct? &&
      (!a.items.value[i].value.VStruct? ==> r.value[i].value == a.items.value[i].value)
  {
    match a.items
    case None => Throw(TypeError(NullReturned("toArray")))
    case Some(items) => Ok(ToArrayValues(items))
  }

  /** toArray is idempotent: the array it returns, taken as fresh attributes,
      converts to itself. */
  lemma {:induction false} ToArrayValuesIdempotent(items: PArray)
    ensures ToArrayValues(ToArrayValues(items)) == ToArrayValues(items)
  {
    if items != [] {
      ToArrayValuesIdempotent(items[1..]);
      var t := ToArrayValues(items);
      assert t[1..] == ToArrayValues(items[1..]);
    }
  }
}
