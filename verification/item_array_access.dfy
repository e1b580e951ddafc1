/** WithItemArrayAccess: top-level access to a container's items, shared by
    Scope. Writes through `put` go to a path writer the model takes as a
    parameter. */
module ItemArrayAccess {
  import opened Exceptions
  import opened PhpValues
  import opened PhpArrays
  import Structures

  /** getArrayableItems for the values the model knows: an array as it is, a
      structure object through its toArray, null as the empty array, and any
      other scalar cast to a one-element array. */
  function Arrayable(v: Value): (r: PArray)
    ensures v.VArr? ==> r == v.entries
    ensures v == VNull ==> r == []
    ensures !v.VArr? && !v.VStruct? && v != VNull ==> r == [Entry(IntKey(0), v)]
  {
    match v
    case VArr(a) => a
    case VStruct(kind, items) => Structures.ToArray(Structures.Structure(kind, items))
    case VNull => []
    case _ => [Entry(IntKey(0), v)]
  }

  /** __set: a direct top-level assignment, with no path expansion. */
  function MagicSet(items: PArray, k: Key, v: Value): (r: PArray)
    ensures Lookup(r, k) == Some(v)
    ensures forall k' :: k' != k ==> Lookup(r, k') == Lookup(items, k')
    ensures DistinctKeys(items) ==> DistinctKeys(r)
  {
    Assign(items, k, v)
  }

  /** put: only a string key is written, through the path writer; any other
      key leaves the items as they are. */
  function Put(items: PArray, k: Key, v: Value, writer: (string, Value, PArray) -> PArray): (r: PArray)
    ensures k.IntKey? ==> r == items
    ensures k.StrKey? ==> r == writer(k.s, v, items)
  {
    match k
    case StrKey(s) => writer(s, v, items)
    case IntKey(_) => items
  }

  /** The key as PHP interpolates it into a message. */
  function KeyText(k: Key): string {
    match k
    case StrKey(s) => s
    case IntKey(i) => IntToString(i)
  }

  /** append(key, value): refuse a key that already exists; otherwise put the
      value and hand it back. */
  function Append(items: PArray, k: Key, v: Value, writer: (string, Value, PArray) -> PArray): (r: Result<(PArray, Value)>)
    ensures r.Throw? <==> KeyExists(items, k)
    ensures r.Throw? ==> r.exception == InvalidArgumentException("Cannot append an already existing key: '" + KeyText(k) + "'")
    ensures r.Ok? ==> r.value.1 == v && r.value.0 == Put(items, k, v, writer)
  {
    if !KeyExists(items, k) then Ok((Put(items, k, v, writer), v))
    else Throw(InvalidArgumentException("Cannot append an already existing key: '" + KeyText(k) + "'"))
  }

  /** Appending the same key twice fails the second time, as long as the
      writer stores the key at the top level. */
  lemma {:induction false} AppendTwice(items: PArray, s: string, v: Value, w: Value, writer: (string, Value, PArray) -> PArray)
    requires !KeyExists(items, StrKey(s))
    requires KeyExists(writer(s, v, items), StrKey(s))
    ensures Append(items, StrKey(s), v, writer).Ok?
    ensures Append(Append(items, StrKey(s), v, writer).value.0, StrKey(s), w, writer).Throw?
  {
  }

  /** copy(): array_merge_recursive into an empty array, which renumbers the
      integer keys and keeps the string keys. */
  function Copy(items: PArray): (r: PArray)
    ensures DistinctKeys(r)
    ensures DistinctKeys(items) ==> r == Renumber(items)
  {
    if DistinctKeys(items) then
      MergeIntoEmpty(items);
      MergeInto([], items)
    else
      MergeInto([], items)
  }

  /** The copy of string-keyed items is the items themselves. */
  lemma {:induction false} CopyStringKeyed(items: PArray)
    requires DistinctKeys(items)
    requires forall i :: 0 <= i < |items| ==> items[i].key.StrKey?
    ensures Copy(items) == items
  {
    RenumberStringKeyed(items, 0);
  }

  /** The copy of a list is the list itself. */
  lemma {:induction false} CopyList(items: PArray)
    requires IsList(items)
    ensures Copy(items) == items
  {
    ListDistinct(items);
    RenumberIntKeyedIsValues(items);
    IsListIffSelfValues(items);
  }
}
