/** The value order the sorting operations use, and a sort that is proved to
    permute its input into that order.

    PHP's SORT_REGULAR comparison between values of different types is not
    modelled; instead values are ranked by type (null < bool < int < string <
    array < structure) and compared within a type: ints numerically, strings
    byte-wise lexicographically, arrays and structures by their element count.
    For a batch of ints only this is PHP's own order; so it is for strings
    only when at most one of them is numeric, because SORT_REGULAR compares
    two numeric strings as numbers ("9" before "10") where the model compares
    them byte-wise. */
module Ordering {
  import opened PhpValues
  import opened PhpArrays

  /** Byte-wise lexicographic order on strings (strcmp(s, t) <= 0). */
  predicate StrLe(s: string, t: string)
    decreases |s|
  {
    |s| == 0 || (|t| > 0 && (s[0] < t[0] || (s[0] == t[0] && StrLe(s[1..], t[1..]))))
  }

  lemma {:induction false} StrLeTotal(s: string, t: string)
    ensures StrLe(s, t) || StrLe(t, s)
    decreases |s|
  {
    if |s| > 0 && |t| > 0 && s[0] == t[0] {
      StrLeTotal(s[1..], t[1..]);
    }
  }

  lemma {:induction false} StrLeTrans(s: string, t: string, u: string)
    requires StrLe(s, t) && StrLe(t, u)
    ensures StrLe(s, u)
    decreases |s|
  {
    if |s| > 0 && s[0] == t[0] && t[0] == u[0] {
      StrLeTrans(s[1..], t[1..], u[1..]);
    }
  }

  /** Position of a value's type in the cross-type order. */
  function TypeRank(v: Value): nat {
    match v
    case VNull => 0
    case VBool(_) => 1
    case VInt(_) => 2
    case VStr(_) => 3
    case VArr(_) => 4
    case VStruct(_, _) => 5
  }

  /** `a` sorts no later than `b`. */
  predicate ValueLe(a: Value, b: Value) {
    if TypeRank(a) != TypeRank(b) then TypeRank(a) < TypeRank(b)
    else match (a, b)
      case (VBool(x), VBool(y)) => !x || y
      case (VInt(x), VInt(y)) => x <= y
      case (VStr(x), VStr(y)) => StrLe(x, y)
      case (VArr(x), VArr(y)) => |x| <= |y|
      case (VStruct(_, x), VStruct(_, y)) => |x| <= |y|
      case _ => true
  }

  lemma {:induction false} ValueLeTotal(a: Value, b: Value)
    ensures ValueLe(a, b) || ValueLe(b, a)
  {
    if a.VStr? && b.VStr? {
      StrLeTotal(a.s, b.s);
    }
  }

  lemma {:induction false} ValueLeTrans(a: Value, b: Value, c: Value)
    requires ValueLe(a, b) && ValueLe(b, c)
    ensures ValueLe(a, c)
  {
    if a.VStr? && b.VStr? && c.VStr? {
      StrLeTrans(a.s, b.s, c.s);
    }
  }

  /** `le` relates every pair one way or the other. */
  ghost predicate Total<T(!new)>(le: (T, T) -> bool) {
    forall x: T, y: T :: le(x, y) || le(y, x)
  }

  ghost predicate Transitive<T(!new)>(le: (T, T) -> bool) {
    forall x: T, y: T, z: T :: le(x, y) && le(y, z) ==> le(x, z)
  }

  /** Each element is related to its successor. */
  predicate Sorted<T>(xs: seq<T>, le: (T, T) -> bool) {
    forall i :: 0 < i < |xs| ==> le(xs[i - 1], xs[i])
  }

  /** Every element is related to every later one. */
  predicate SortedPairwise<T>(xs: seq<T>, le: (T, T) -> bool) {
    forall i, j :: 0 <= i < j < |xs| ==> le(xs[i], xs[j])
  }

  /** Insert `x` before the first element it is related to. */
  function Insert<T(!new)>(x: T, xs: seq<T>, le: (T, T) -> bool): (r: seq<T>)
    ensures multiset(r) == multiset(xs) + multiset{x}
    ensures |r| == |xs| + 1
    ensures |r| > 0 && (r[0] == x || (|xs| > 0 && r[0] == xs[0]))
    ensures Total(le) && Sorted(xs, le) ==> Sorted(r, le)
  {
    if |xs| == 0 || le(x, xs[0]) then
      [x] + xs
    else
      assert xs == [xs[0]] + xs[1..];
      [xs[0]] + Insert(x, xs[1..], le)
  }

  /** Insertion sort: a permutation of `xs` ordered by `le` whenever `le` is total. */
  function Sort<T(!new)>(xs: seq<T>, le: (T, T) -> bool): (r: seq<T>)
    ensures multiset(r) == multiset(xs)
    ensures |r| == |xs|
    ensures Total(le) ==> Sorted(r, le)
  {
    if |xs| == 0 then []
    else
      assert xs == [xs[0]] + xs[1..];
      Insert(xs[0], Sort(xs[1..], le), le)
  }

  /** Under a transitive relation, sorted neighbours make a pairwise-sorted sequence. */
  lemma {:induction false} SortedIsPairwise<T(!new)>(xs: seq<T>, le: (T, T) -> bool)
    requires Transitive(le) && Sorted(xs, le)
    ensures SortedPairwise(xs, le)
  {
    forall i, j | 0 <= i < j < |xs|
      ensures le(xs[i], xs[j])
    {
      var k := i + 1;
      while k < j
        invariant i < k <= j
        invariant le(xs[i], xs[k])
      {
        assert le(xs[k], xs[k + 1]);
        k := k + 1;
      }
    }
  }

  /** The value order as a function value, for `Sort`. */
  const ValueOrder: (Value, Value) -> bool := (a: Value, b: Value) => ValueLe(a, b)

  /** Entries ordered by their values (the comparison asort uses). */
  const EntryOrder: (Entry, Entry) -> bool := (a: Entry, b: Entry) => ValueLe(a.value, b.value)

  lemma {:induction false} ValueOrderTotal()
    ensures Total(ValueOrder)
  {
    forall x: Value, y: Value
      ensures ValueOrder(x, y) || ValueOrder(y, x)
    {
      ValueLeTotal(x, y);
    }
  }

  lemma {:induction false} ValueOrderTransitive()
    ensures Transitive(ValueOrder)
  {
    forall x: Value, y: Value, z: Value | ValueOrder(x, y) && ValueOrder(y, z)
      ensures ValueOrder(x, z)
    {
      ValueLeTrans(x, y, z);
    }
  }

  lemma {:induction false} EntryOrderTotal()
    ensures Total(EntryOrder)
  {
    forall x: Entry, y: Entry
      ensures EntryOrder(x, y) || EntryOrder(y, x)
    {
      ValueLeTotal(x.value, y.value);
    }
  }

  lemma {:induction false} EntryOrderTransitive()
    ensures Transitive(EntryOrder)
  {
    forall x: Entry, y: Entry, z: Entry | EntryOrder(x, y) && EntryOrder(y, z)
      ensures EntryOrder(x, z)
    {
      ValueLeTrans(x.value, y.value, z.value);
    }
  }

  /** sort with SORT_REGULAR: the values in ascending order, re-keyed 0..n-1. */
  function SortList(a: PArray): (r: PArray)
    ensures IsList(r) && |r| == |a|
    ensures multiset(Vals(r)) == multiset(Vals(a))
    ensures SortedPairwise(Vals(r), ValueOrder)
  {
    var vs := Sort(Vals(a), ValueOrder);
    ValueOrderTotal();
    ValueOrderTransitive();
    SortedIsPairwise(vs, ValueOrder);
    ListOf(vs)
  }

  /** asort: the entries in ascending order of value, each key kept with its value. */
  function SortEntries(a: PArray): (r: PArray)
    ensures multiset(r) == multiset(a) && |r| == |a|
    ensures SortedPairwise(Vals(r), ValueOrder)
  {
    var es := Sort(a, EntryOrder);
    EntryOrderTotal();
    EntryOrderTransitive();
    SortedIsPairwise(es, EntryOrder);
    es
  }
}
