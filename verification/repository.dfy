/** Repository: a configuration store. Its dotted path access belongs to a
    library that is not part of this model, so keys are read and written at
    the top level of the items, as a plain map from key to value. */
module Repositories {
  import opened Exceptions
  import opened PhpValues
  import opened PhpArrays

  datatype Repository = Repository(items: PArray)

  /** The constructor stores the array verbatim. */
  function New(items: PArray): (r: Repository)
    ensures All(r) == items
  {
    Repository(items)
  }

  /** all: the stored items. */
  function All(r: Repository): (a: PArray)
    ensures |a| == |r.items|
  {
    r.items
  }

  /** get(key, default): the stored value, or the default when the key is absent. */
  function Get(r: Repository, k: Key, default: Value): (v: Value)
    ensures HasKey(r.items, k) ==> Lookup(r.items, k) == Some(v)
    ensures !HasKey(r.items, k) ==> v == default
  {
    match Lookup(r.items, k)
    case Some(x) => x
    case None => default
  }

  /** has / offsetExists: whether the key is stored, whatever its value. */
  function Has(r: Repository, k: Key): (b: bool)
    ensures b <==> exists i :: 0 <= i < |r.items| && r.items[i].key == k
  {
    Lookup(r.items, k).Some?
  }

  /** set(key, value) and offsetSet: store the value under the key. */
  function SetKey(r: Repository, k: Key, v: Value): (s: Repository)
    ensures Get(s, k, VNull) == v && Has(s, k)
    ensures forall k', d :: k' != k ==> Get(s, k', d) == Get(r, k', d)
    ensures DistinctKeys(r.items) ==> DistinctKeys(s.items)
  {
    Repository(Assign(r.items, k, v))
  }

  /** set(array): every pair of the array is set in turn. */
  method SetMany(r: Repository, pairs: PArray) returns (s: Repository)
    ensures forall k :: var i := LastKeyIndex(pairs, k);
      Lookup(s.items, k) == if i < 0 then Lookup(r.items, k) else Some(pairs[i].value)
    ensures DistinctKeys(r.items) ==> DistinctKeys(s.items)
  {
    s := r;
    var n := 0;
    while n < |pairs|
      invariant 0 <= n <= |pairs|
      invariant s.items == AssignAll(r.items, pairs[..n])
    {
      assert pairs[..n + 1][..n] == pairs[..n];
      s := SetKey(s, pairs[n].key, pairs[n].value);
      n := n + 1;
    }
    assert pairs[..n] == pairs;
    forall k
      ensures var i := LastKeyIndex(pairs, k);
        Lookup(s.items, k) == if i < 0 then Lookup(r.items, k) else Some(pairs[i].value)
    {
      AssignAllLookup(r.items, pairs, k);
    }
  }

  /** With the distinct keys of a PHP array as argument, set(array) leaves
      every key it names holding that key's value and every other key as it was. */
  lemma {:induction false} SetManyDistinct(items: PArray, pairs: PArray, k: Key)
    requires DistinctKeys(pairs)
    ensures Lookup(AssignAll(items, pairs), k) ==
      if HasKey(pairs, k) then Lookup(pairs, k) else Lookup(items, k)
  {
    AssignAllLookup(items, pairs, k);
    LastKeyIndexDistinct(pairs, k);
  }

  /** offsetUnset: the key is set to null rather than removed. */
  function OffsetUnset(r: Repository, k: Key): (s: Repository)
    ensures Has(s, k) && Get(s, k, VNull) == VNull
    ensures forall k', d :: k' != k ==> Get(s, k', d) == Get(r, k', d)
  {
    SetKey(r, k, VNull)
  }

  /** The message naming the type of a target that is not an array. */
  function AppendMessage(target: Value): string {
    "Append requires that the target be an array. " + TypeName(target) + " given."
  }

  function PrependMessage(target: Value): string {
    "Prepend requires that the target be an array. " + TypeName(target) + " given."
  }

  /** append(key, value): push onto the array stored at the key. */
  function Append(r: Repository, k: Key, v: Value): (s: Result<Repository>)
    ensures s.Ok? <==> Get(r, k, VNull).VArr?
    ensures s.Throw? ==> s.exception == RepositoryAppendNotPossibleException(AppendMessage(Get(r, k, VNull)))
    ensures s.Ok? ==>
      var before := Get(r, k, VNull).entries;
      var after := Get(s.value, k, VNull);
      after.VArr? && |after.entries| == |before| + 1 &&
      after.entries[..|before|] == before && after.entries[|before|].value == v
    ensures s.Ok? ==> forall k', d :: k' != k ==> Get(s.value, k', d) == Get(r, k', d)
  {
    match Get(r, k, VNull)
    case VArr(a) => Ok(SetKey(r, k, VArr(Push(a, v))))
    case target => Throw(RepositoryAppendNotPossibleException(AppendMessage(target)))
  }

  /** prepend(key, value): array_unshift onto the array stored at the key. */
  function Prepend(r: Repository, k: Key, v: Value): (s: Result<Repository>)
    ensures s.Ok? <==> Get(r, k, VNull).VArr?
    ensures s.Throw? ==> s.exception == RepositoryPrependNotPossibleException(PrependMessage(Get(r, k, VNull)))
    ensures s.Ok? ==>
      var before := Get(r, k, VNull).entries;
      var after := Get(s.value, k, VNull);
      after.VArr? && |after.entries| == |before| + 1 && after.entries[0] == Entry(IntKey(0), v) && Vals(after.entries) == [v] + Vals(before)
    ensures s.Ok? ==> forall k', d :: k' != k ==> Get(s.value, k', d) == Get(r, k', d)
  {
    match Get(r, k, VNull)
    case VArr(a) => Ok(SetKey(r, k, VArr(Unshift(a, v))))
    case target => Throw(RepositoryPrependNotPossibleException(PrependMessage(target)))
  }

  /** Append after prepend on the same list key: the value sits at both ends. */
  lemma {:induction false} PrependThenAppend(r: Repository, k: Key, x: Value, y: Value)
    requires Get(r, k, VNull).VArr?
    ensures Prepend(r, k, x).Ok?
    ensures var p := Prepend(r, k, x).value;
      Append(p, k, y).Ok? &&
      var a := Get(Append(p, k, y).value, k, VNull).entries;
      |a| == |Get(r, k, VNull).entries| + 2 && a[0].value == x && a[|a| - 1].value == y
  {
    var before := Get(r, k, VNull).entries;
    var p := Prepend(r, k, x).value;
    var mid := Get(p, k, VNull);
    assert mid.VArr? && |mid.entries| == |before| + 1 && mid.entries[0] == Entry(IntKey(0), x);
    var after := Get(Append(p, k, y).value, k, VNull);
    assert after.VArr? && |after.entries| == |mid.entries| + 1;
    assert after.entries[..|mid.entries|] == mid.entries;
    assert after.entries[|mid.entries|].value == y;
    assert after.entries[0] == after.entries[..|mid.entries|][0];
  }
}
