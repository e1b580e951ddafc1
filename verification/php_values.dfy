/** PHP values as the library sees them: scalars, ordered arrays and the
    immutable structure objects, which can nest inside arrays. */
module PhpValues {

  datatype Option<+T> = None | Some(value: T)

  /** An array key: PHP keys are integers or strings. */
  datatype Key = IntKey(i: int) | StrKey(s: string)

  /** The concrete class of an immutable structure object. */
  datatype StructKind =
    | DictionaryKind
    | SortedDictionaryKind
    | SetKind
    | OrderedListKind
    | UnorderedListKind

  /** A PHP value. An array is an ordered sequence of entries; a structure
      object holds the same kind of sequence as its `items`. */
  datatype Value =
    | VNull
    | VBool(b: bool)
    | VInt(i: int)
    | VStr(s: string)
    | VArr(entries: seq<Entry>)
    | VStruct(kind: StructKind, items: seq<Entry>)

  datatype Entry = Entry(key: Key, value: Value)

  /** A PHP array: an ordered association list. Arrays built by PHP have
      distinct keys (see `DistinctKeys`). */
  type PArray = seq<Entry>

  /** The keys of `a`, in order (array_keys). */
  function Keys(a: PArray): (ks: seq<Key>)
    ensures |ks| == |a|
    ensures forall i :: 0 <= i < |a| ==> ks[i] == a[i].key
  {
    seq(|a|, i requires 0 <= i < |a| => a[i].key)
  }

  /** The values of `a`, in order. */
  function Vals(a: PArray): (vs: seq<Value>)
    ensures |vs| == |a|
    ensures forall i :: 0 <= i < |a| ==> vs[i] == a[i].value
  {
    seq(|a|, i requires 0 <= i < |a| => a[i].value)
  }

  /** No key occurs twice: every array PHP builds satisfies this. */
  predicate DistinctKeys(a: PArray) {
    forall i, j :: 0 <= i < j < |a| ==> a[i].key != a[j].key
  }

  /** array_key_exists: the key is present, whatever its value (null included). */
  predicate HasKey(a: PArray, k: Key) {
    exists i :: 0 <= i < |a| && a[i].key == k
  }

  lemma {:induction false} KeysAppend(a: PArray, e: Entry)
    ensures Keys(a + [e]) == Keys(a) + [e.key]
  {
    assert forall i :: 0 <= i < |a| ==> (a + [e])[i] == a[i];
  }

  /** A key occurs in an array exactly when it is among its keys. */
  lemma {:induction false} HasKeyInKeys(a: PArray, k: Key)
    ensures HasKey(a, k) <==> k in Keys(a)
  {
    if k in Keys(a) {
      var i :| 0 <= i < |a| && Keys(a)[i] == k;
      assert a[i].key == k;
    }
  }

  /** in_array with strict comparison: some entry's value is identical to `v`. */
  predicate HasValue(a: PArray, v: Value) {
    exists i :: 0 <= i < |a| && a[i].value == v
  }

  /** A value occurs in an array exactly when it is among its values. */
  lemma {:induction false} HasValueInVals(a: PArray, v: Value)
    ensures HasValue(a, v) <==> v in multiset(Vals(a))
  {
    if v in multiset(Vals(a)) {
      var j :| 0 <= j < |Vals(a)| && Vals(a)[j] == v;
      assert a[j].value == v;
    }
  }

  /** The values of an array are those of all but its last entry, then the last. */
  lemma {:induction false} ValsSnoc(a: PArray)
    requires |a| > 0
    ensures Vals(a) == Vals(a[..|a| - 1]) + [a[|a| - 1].value]
  {
    var init := a[..|a| - 1];
    assert forall i :: 0 <= i < |init| ==> Vals(a)[i] == Vals(init)[i];
  }

  /** Arrays holding the same values in the same order hold the same members. */
  lemma {:induction false} SameValsSameMembers(a: PArray, b: PArray)
    requires Vals(a) == Vals(b)
    ensures forall v :: HasValue(a, v) <==> HasValue(b, v)
  {
    forall v ensures HasValue(a, v) <==> HasValue(b, v) {
      HasValueInVals(a, v);
      HasValueInVals(b, v);
    }
  }

  /** The PHP truthiness of a value: null, false, 0, "", "0" and the empty
      array are falsy; objects are always truthy. */
  predicate Truthy(v: Value) {
    match v
    case VNull => false
    case VBool(b) => b
    case VInt(i) => i != 0
    case VStr(s) => s != "" && s != "0"
    case VArr(a) => |a| > 0
    case VStruct(_, _) => true
  }

  /** The name gettype() reports for a value. */
  function TypeName(v: Value): string {
    match v
    case VNull => "NULL"
    case VBool(_) => "boolean"
    case VInt(_) => "integer"
    case VStr(_) => "string"
    case VArr(_) => "array"
    case VStruct(_, _) => "object"
  }

  /** The fully qualified PHP class name of a structure kind, as get_class reports it. */
  function ClassName(k: StructKind): string {
    match k
    case DictionaryKind => "Nine\\Structure\\Dictionary"
    case SortedDictionaryKind => "Nine\\Structure\\SortedDictionary"
    case SetKind => "Nine\\Structure\\Set"
    case OrderedListKind => "Nine\\Structure\\OrderedList"
    case UnorderedListKind => "Nine\\Structure\\UnorderedList"
  }

  /** Decimal rendering of a natural number, as PHP interpolates integers into strings. */
  function NatToString(n: nat): string
    decreases n
  {
    if n < 10 then [DigitChar(n)] else NatToString(n / 10) + [DigitChar(n % 10)]
  }

  function DigitChar(d: nat): char
    requires d < 10
  {
    ['0', '1', '2', '3', '4', '5', '6', '7', '8', '9'][d]
  }

  /** Decimal rendering of an integer, with a leading '-' when negative. */
  function IntToString(i: int): string {
    if i < 0 then "-" + NatToString(-i) else NatToString(i)
  }
}
