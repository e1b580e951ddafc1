/** What every immutable structure class shares (the WithStructure trait and the
    traits it pulls in): the per-class validity rule, the validating
    constructor and unserialize, the recursive toArray, count, jsonSerialize,
    isSimilar, read-only array access and the iterator. */
module Structures {
  import opened Exceptions
  import opened PhpValues
  import opened PhpArrays

  /** An instance: its concrete class and its `items` array. */
  datatype Structure = Structure(kind: StructKind, items: PArray)

  /** What a `with*`/`without*` call returns: the receiver itself, or a new
      instance of the same class holding `items`. */
  datatype Outcome = Same | Changed(items: PArray)

  /** The instance the caller gets back from an outcome. */
  function Apply(s: Structure, o: Outcome): (r: Structure)
    ensures r.kind == s.kind
    ensures o.Same? ==> r == s
    ensures o.Changed? ==> r.items == o.items
  {
    match o
    case Same => s
    case Changed(items) => Structure(s.kind, items)
  }

  /** Dictionary and SortedDictionary share Dictionary::assertValid. */
  predicate IsDictionary(kind: StructKind) {
    kind == DictionaryKind || kind == SortedDictionaryKind
  }

  function ValidityMessage(kind: StructKind): string {
    match kind
    case DictionaryKind => "Dictionary values must have distinct keys"
    case SortedDictionaryKind => "Dictionary values must have distinct keys"
    case SetKind => "Set structures cannot have distinct keys"
    case OrderedListKind => "List structures cannot have distinct keys"
    case UnorderedListKind => "List structures cannot have distinct keys"
  }

  /** The class's assertValid, written the way the classes test it: a
      dictionary rejects a batch whose keys equal the keys of its own
      array_values; the list-like classes reject a batch that differs from its
      own array_values. The empty batch always passes. */
  function AssertValid(kind: StructKind, values: PArray): (r: Result<()>)
    ensures r.Ok? <==> |values| == 0 || (if IsDictionary(kind) then !IsList(values) else IsList(values))
    ensures r.Throw? ==> r.exception == ValidationException(ValidityMessage(kind))
  {
    IsListIffSelfValues(values);
    KeysOfValuesIffList(values);
    if |values| == 0 then Ok(())
    else if IsDictionary(kind) then
      if Keys(values) == Keys(ArrayValues(values))
      then Throw(ValidationException(ValidityMessage(kind)))
      else Ok(())
    else
      if values != ArrayValues(values)
      then Throw(ValidationException(ValidityMessage(kind)))
      else Ok(())
  }

  /** The keys of a batch equal the keys of its array_values exactly for lists. */
  lemma {:induction false} KeysOfValuesIffList(values: PArray)
    ensures Keys(values) == Keys(ArrayValues(values)) <==> IsList(values)
  {
    if !IsList(values) {
      var i :| 0 <= i < |values| && values[i].key != IntKey(i);
      assert Keys(values)[i] != Keys(ArrayValues(values))[i];
    }
  }

  /** A batch the class accepts. */
  predicate Valid(kind: StructKind, values: PArray) {
    AssertValid(kind, values).Ok?
  }

  /** For a non-empty batch the dictionary rule is the exact complement of the
      list rule. */
  lemma {:induction false} DictionaryRuleComplementsListRule(values: PArray, kind: StructKind)
    requires |values| > 0 && !IsDictionary(kind)
    ensures Valid(DictionaryKind, values) <==> !Valid(kind, values)
  {
  }

  /** Every list-like class accepts any list. */
  lemma {:induction false} ListValid(kind: StructKind, values: PArray)
    requires !IsDictionary(kind) && IsList(values)
    ensures Valid(kind, values)
  {
  }

  /** A one-element batch keyed 0 is a list: every list-like class accepts it. */
  lemma {:induction false} SingletonListValid(kind: StructKind, v: Value)
    requires !IsDictionary(kind)
    ensures Valid(kind, [Entry(IntKey(0), v)])
  {
  }

  /** WithStructure::__construct: validate, then store the items unchanged. */
  function Construct(kind: StructKind, items: PArray): (r: Result<Structure>)
    ensures r.Ok? <==> Valid(kind, items)
    ensures r.Ok? ==> r.value == Structure(kind, items)
    ensures r.Throw? ==> r.exception == ValidationException(ValidityMessage(kind))
  {
    var _ :- AssertValid(kind, items);
    Ok(Structure(kind, items))
  }

  /** The default construction is empty and valid for every class. */
  lemma {:induction false} ConstructEmpty(kind: StructKind)
    ensures Construct(kind, []) == Ok(Structure(kind, []))
  {
  }

  /** The serialized form: serialize() encodes the items array and nothing else. */
  datatype Payload = Payload(items: PArray)

  function Serialize(s: Structure): (p: Payload)
    ensures p.items == s.items
  {
    Payload(s.items)
  }

  /** unserialize(): decode, validate, and only then assign the items. */
  function Unserialize(kind: StructKind, p: Payload): (r: Result<Structure>)
    ensures r.Ok? <==> Valid(kind, p.items)
    ensures r.Ok? ==> r.value == Structure(kind, p.items)
    ensures r.Throw? ==> r.exception == ValidationException(ValidityMessage(kind))
  {
    var _ :- AssertValid(kind, p.items);
    Ok(Structure(kind, p.items))
  }

  /** A structure whose items its class accepts survives serialize/unserialize. */
  lemma {:induction false} SerializeRoundTrip(s: Structure)
    requires Valid(s.kind, s.items)
    ensures Unserialize(s.kind, Serialize(s)) == Ok(s)
  {
    var p := Serialize(s);
    assert p.items == s.items;
  }

  /** An instance whose items its class rejects cannot be restored. */
  lemma {:induction false} SerializeRejectsInvalid(s: Structure)
    requires !Valid(s.kind, s.items)
    ensures Unserialize(s.kind, Serialize(s)).Throw?
  {
    var p := Serialize(s);
    assert p.items == s.items;
  }

  /** toArray of one value: a structure becomes its own toArray (array_map over
      its items, so the keys stay), anything else is kept. Only the values
      directly inside the items are converted; an array holding a structure is
      returned as it is. */
  function ToArrayValue(v: Value): (r: Value)
    ensures !v.VStruct? ==> r == v
    ensures v.VStruct? ==> r.VArr? && |r.entries| == |v.items| && Keys(r.entries) == Keys(v.items)
    ensures !r.VStruct?
  {
    match v
    case VStruct(_, items) =>
      VArr(seq(|items|, i requires 0 <= i < |items| =>
        assert items[i] in items;
        Entry(items[i].key, ToArrayValue(items[i].value))))
    case _ => v
  }

  /** WithStructureToArray::toArray. */
  function ToArray(s: Structure): (r: PArray)
    ensures |r| == |s.items| && Keys(r) == Keys(s.items)
    ensures forall i :: 0 <= i < |r| ==> r[i].value == ToArrayValue(s.items[i].value)
    ensures forall i :: 0 <= i < |r| ==> !r[i].value.VStruct?
  {
    ToArrayValue(VStruct(s.kind, s.items)).entries
  }

  /** toArray is idempotent: converting its result again changes nothing. */
  lemma {:induction false} ToArrayIdempotent(s: Structure)
    ensures ToArray(Structure(s.kind, ToArray(s))) == ToArray(s)
  {
    var r := ToArray(s);
    var r2 := ToArray(Structure(s.kind, r));
    forall i | 0 <= i < |r|
      ensures r2[i] == r[i]
    {
      assert r2[i].key == r[i].key;
    }
  }

  /** withCountable::count. */
  function Count(s: Structure): (n: nat)
    ensures n == |ToArray(s)|
  {
    |s.items|
  }

  /** WithJsonSerializable::jsonSerialize returns toArray. */
  function JsonSerialize(s: Structure): (r: PArray)
    ensures Keys(r) == Keys(s.items)
    ensures forall i :: 0 <= i < |r| ==> !r[i].value.VStruct?
  {
    ToArray(s)
  }

  /** The class `self` names inside WithIsSimilar: the class that uses the trait.
      SortedDictionary inherits the method from Dictionary, so for it `self` is Dictionary. */
  function TraitOwner(kind: StructKind): StructKind {
    if IsDictionary(kind) then DictionaryKind else kind
  }

  /** The instanceof test of isSimilar. */
  predicate IsSimilar(s: Structure, target: Structure) {
    TraitOwner(target.kind) == TraitOwner(s.kind)
  }

  /** Similarity is an equivalence whose classes are {Dictionary, SortedDictionary}
      and each other class on its own. */
  lemma {:induction false} IsSimilarClasses(s: Structure, t: Structure)
    ensures IsSimilar(s, s)
    ensures IsSimilar(s, t) <==> IsSimilar(t, s)
    ensures IsSimilar(s, t) <==> (s.kind == t.kind || (IsDictionary(s.kind) && IsDictionary(t.kind)))
  {
  }

  /** offsetExists uses isset: the key must be present with a non-null value. */
  function OffsetExists(s: Structure, k: Key): (r: bool)
    requires DistinctKeys(s.items)
    ensures r <==> exists i :: 0 <= i < |s.items| && s.items[i].key == k && s.items[i].value != VNull
  {
    var i := KeyIndex(s.items, k);
    if i >= 0 then
      (assert s.items[i].key == k;
       s.items[i].value != VNull)
    else false
  }

  /** offsetGet reads items[k]; a missing key reads as null (PHP's undefined index notice). */
  function OffsetGet(s: Structure, k: Key): (r: Value)
    ensures forall i :: 0 <= i < |s.items| && s.items[i].key == k && DistinctKeys(s.items) ==> r == s.items[i].value
    ensures !HasKey(s.items, k) ==> r == VNull
  {
    match Lookup(s.items, k)
    case Some(v) => v
    case None => VNull
  }

  function ImmutableMessage(kind: StructKind): string {
    "Cannot modify immutable class `" + ClassName(kind) + "` using array methods"
  }

  /** offsetSet never writes: it always throws ImmutableException naming the class. */
  function OffsetSet(s: Structure, k: Option<Key>, v: Value): (r: Result<Structure>)
    ensures r == Throw(ImmutableException(ImmutableMessage(s.kind)))
  {
    Throw(ImmutableException(ImmutableMessage(s.kind)))
  }

  /** offsetUnset never writes either. */
  function OffsetUnset(s: Structure, k: Key): (r: Result<Structure>)
    ensures r == Throw(ImmutableException(ImmutableMessage(s.kind)))
  {
    Throw(ImmutableException(ImmutableMessage(s.kind)))
  }
}
