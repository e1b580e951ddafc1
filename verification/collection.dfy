/** Collection: a mutable wrapper around one PHP array. Each operation is a
    function of the items: the transforms return the items of the new
    collection, the in-place operations return the receiver's new items
    (and, for pop and shift, the value they hand back). Callbacks are
    function values. */
module Collections {
  import opened Exceptions
  import opened PhpValues
  import opened PhpArrays
  import opened Ordering

  /** count(). */
  function Count(items: PArray): (n: nat)
    ensures n == |Keys(items)|
  {
    |items|
  }

  /** get: the stored value when the key exists, else the default. */
  function Get(items: PArray, k: Key, default: Value): (r: Value)
    requires DistinctKeys(items)
    ensures !HasKey(items, k) ==> r == default
    ensures forall i :: 0 <= i < |items| && items[i].key == k ==> r == items[i].value
  {
    match Lookup(items, k)
    case Some(v) =>
      assert forall i :: 0 <= i < |items| && items[i].key == k ==> i == KeyIndex(items, k);
      v
    case None => default
  }

  /** first() without a callback: the first value, or null when empty; the
      default is never consulted. */
  function First(items: PArray, default: Value): (r: Value)
    ensures |items| > 0 ==> r == items[0].value
    ensures |items| == 0 ==> r == VNull
  {
    if |items| > 0 then items[0].value else VNull
  }

  /** last() without a callback: the last value, or the default when empty. */
  function Last(items: PArray, default: Value): (r: Value)
    ensures |items| > 0 ==> r == items[|items| - 1].value
    ensures |items| == 0 ==> r == default
  {
    if |items| > 0 then items[|items| - 1].value else default
  }

  /** On an empty collection first() and last() disagree as soon as a non-null
      default is given. */
  lemma {:induction false} FirstLastEmpty(default: Value)
    requires default != VNull
    ensures First([], default) != Last([], default)
  {
  }

  /** map(f): array_map over the values and keys, recombined with the keys. */
  function Map(items: PArray, f: (Value, Key) -> Value): (r: PArray)
    ensures |r| == |items| && Keys(r) == Keys(items)
    ensures forall i :: 0 <= i < |items| ==> r[i].value == f(items[i].value, items[i].key)
  {
    seq(|items|, i requires 0 <= i < |items| => Entry(items[i].key, f(items[i].value, items[i].key)))
  }

  /** Mapping twice is mapping once with the composed callback. */
  lemma {:induction false} MapFusion(items: PArray, f: (Value, Key) -> Value, g: (Value, Key) -> Value)
    ensures Map(Map(items, f), g) == Map(items, (v, k) => g(f(v, k), k))
  {
  }

  /** Mapping with a callback that returns its value argument changes nothing. */
  lemma {:induction false} MapIdentity(items: PArray)
    ensures Map(items, (v, k) => v) == items
  {
  }

  /** offsetSet: a null key appends under the next free index; any other key
      is assigned (overwritten in place when present). */
  function OffsetSet(items: PArray, k: Option<Key>, v: Value): (r: PArray)
    ensures k.None? ==> |r| == |items| + 1 && r[|items|].value == v && r[..|items|] == items
    ensures k.Some? ==> Lookup(r, k.value) == Some(v)
    ensures k.Some? && HasKey(items, k.value) ==> |r| == |items| && Keys(r) == Keys(items)
    ensures k.Some? ==> forall k' :: k' != k.value ==> Lookup(r, k') == Lookup(items, k')
    ensures DistinctKeys(items) ==> DistinctKeys(r)
  {
    match k
    case None =>
      var r := Push(items, v);
      assert r[..|items|] == items;
      r
    case Some(key) => Assign(items, key, v)
  }

  /** push(v) is offsetSet(null, v). */
  function PushValue(items: PArray, v: Value): (r: PArray)
    ensures |r| == Count(items) + 1 && Last(r, VNull) == v
    ensures Vals(r) == Vals(items) + [v]
  {
    OffsetSet(items, None, v)
  }

  /** set(k, v) is offsetSet(k, v). */
  function Set(items: PArray, k: Key, v: Value): (r: PArray)
    requires DistinctKeys(items)
    ensures DistinctKeys(r) && Get(r, k, VNull) == v
    ensures HasKey(items, k) ==> Count(r) == Count(items)
    ensures !HasKey(items, k) ==> Count(r) == Count(items) + 1
  {
    var r := OffsetSet(items, Some(k), v);
    assert Lookup(r, k) == Some(v);
    r
  }

  /** offsetUnset / forget: drop the key when present. */
  function OffsetUnset(items: PArray, k: Key): (r: PArray)
    requires DistinctKeys(items)
    ensures !HasKey(r, k) && DistinctKeys(r)
    ensures forall k' :: k' != k ==> Lookup(r, k') == Lookup(items, k')
  {
    Unset(items, k)
  }

  /** pop(): array_pop hands back the last value (null when empty) and drops it. */
  function Pop(items: PArray): (r: (Value, PArray))
    ensures |items| == 0 ==> r == (VNull, [])
    ensures |items| > 0 ==> r.0 == Last(items, VNull) && r.1 + [items[|items| - 1]] == items
  {
    if |items| == 0 then (VNull, [])
    else (items[|items| - 1].value, items[..|items| - 1])
  }

  /** push and pop are inverse: pushing a value and popping returns it and the
      original items. */
  lemma {:induction false} PushThenPop(items: PArray, v: Value)
    ensures Pop(PushValue(items, v)) == (v, items)
  {
    var r := PushValue(items, v);
    assert r[..|items|] == items;
  }

  /** shift(): array_shift hands back the first value (null when empty); the
      rest is renumbered. */
  function Shift(items: PArray): (r: (Value, PArray))
    ensures |items| == 0 ==> r == (VNull, [])
    ensures |items| > 0 ==> r.0 == First(items, VNull) && Vals(r.1) == Vals(items)[1..]
  {
    if |items| == 0 then (VNull, [])
    else (items[0].value, Renumber(items[1..]))
  }

  /** prepend(v): array_unshift, so `v` becomes the first value. */
  function Prepend(items: PArray, v: Value): (r: PArray)
    ensures First(r, VNull) == v && Vals(r) == [v] + Vals(items)
    ensures DistinctKeys(items) ==> DistinctKeys(r)
  {
    Unshift(items, v)
  }

  /** prepend and shift are inverse on the values. */
  lemma {:induction false} PrependThenShift(items: PArray, v: Value)
    ensures Shift(Prepend(items, v)).0 == v
    ensures Vals(Shift(Prepend(items, v)).1) == Vals(items)
  {
  }

  /** The exception random(amount) raises before choosing anything. */
  function RandomGuard(items: PArray, amount: int): (r: Result<()>)
    ensures r.Throw? <==> amount > Count(items)
    ensures r.Throw? ==> r.exception == InvalidArgumentException(
      "You requested " + IntToString(amount) + " items, but there are only " +
      IntToString(|items|) + " items in the collection")
  {
    if amount > |items| then
      Throw(InvalidArgumentException(
        "You requested " + IntToString(amount) + " items, but there are only " +
        IntToString(|items|) + " items in the collection"))
    else Ok(())
  }

  /** The [start, end) window array_slice with an offset and a length selects from an
      array of `n` entries (PHP 7 rules; a null length means "to the end"). */
  function SliceBounds(n: nat, offset: int, length: Option<int>): (b: (nat, nat))
    ensures b.0 <= b.1 <= n
  {
    if offset > n then (n, n)
    else
      var start: nat := if offset < 0 then (if n + offset < 0 then 0 else n + offset) else offset;
      var len := match length
        case None => n - start
        case Some(l) => if l < 0 then n - start + l else if start + l > n then n - start else l;
      if len <= 0 then (start, start) else (start, start + len)
  }

  /** slice(offset, length): the window, keys preserved. */
  function Slice(items: PArray, offset: int, length: Option<int>): (r: PArray)
    ensures var b := SliceBounds(|items|, offset, length); r == items[b.0..b.1]
    ensures DistinctKeys(items) ==> DistinctKeys(r)
  {
    var b := SliceBounds(|items|, offset, length);
    items[b.0..b.1]
  }

  /** take(limit): the first `limit` items, or for a negative limit the last |limit|. */
  function Take(items: PArray, limit: int): (r: PArray)
    ensures limit >= 0 ==> r == items[..if limit < |items| then limit else |items|]
    ensures limit < 0 ==> r == items[if -limit < |items| then |items| + limit else 0..]
  {
    if limit < 0 then Slice(items, limit, Some(-limit)) else Slice(items, 0, Some(limit))
  }

  /** A window with a non-negative offset and length: the entries from the
      offset on, at most `length` of them. */
  lemma {:induction false} SliceNonNegative(items: PArray, s: int, l: int)
    requires s >= 0 && l >= 0
    ensures Slice(items, s, Some(l)) ==
      if s >= |items| then [] else items[s..if s + l < |items| then s + l else |items|]
  {
  }

  /** forPage(page, perPage): the page-th window of perPage items. */
  function ForPage(items: PArray, page: int, perPage: int): (r: PArray)
    ensures page >= 1 && perPage >= 0 ==>
      var s := (page - 1) * perPage;
      r == if s >= |items| then [] else items[s..if s + perPage < |items| then s + perPage else |items|]
    ensures page < 1 || perPage < 0 ==> r == Slice(items, (page - 1) * perPage, Some(perPage))
  {
    var s := (page - 1) * perPage;
    if page >= 1 && perPage >= 0 then
      MulNonneg(page - 1, perPage);
      SliceNonNegative(items, s, perPage);
      Slice(items, s, Some(perPage))
    else
      Slice(items, s, Some(perPage))
  }

  /** A window with a non-negative offset and no length: everything from the offset on. */
  lemma {:induction false} SliceToEnd(items: PArray, s: int)
    requires s >= 0
    ensures Slice(items, s, None) == if s >= |items| then [] else items[s..]
  {
  }

  /** The first entry of page `page` sits after (page - 1) full pages. */
  lemma {:induction false} PageOffset(page: int, perPage: int)
    requires page >= 1 && perPage >= 0
    ensures (page - 1) * perPage >= 0
    ensures page * perPage == (page - 1) * perPage + perPage
  {
  }

  /** Consecutive pages tile the items: page p followed by everything after it
      is everything from page p on. */
  lemma {:induction false} PagesTile(items: PArray, page: int, perPage: int)
    requires page >= 1 && perPage >= 0
    ensures ForPage(items, page, perPage) + Slice(items, page * perPage, None) ==
      Slice(items, (page - 1) * perPage, None)
  {
    var s := (page - 1) * perPage;
    PageOffset(page, perPage);
    var t := page * perPage;
    SliceToEnd(items, s);
    SliceToEnd(items, t);
    if s < |items| {
      var e := if s + perPage < |items| then s + perPage else |items|;
      assert ForPage(items, page, perPage) == items[s..e];
      if t < |items| {
        assert items[s..e] + items[t..] == items[s..];
      } else {
        assert items[s..e] + [] == items[s..];
      }
    }
  }

  /** reverse(): array_reverse with keys preserved. */
  function Reverse(items: PArray): (r: PArray)
    ensures |r| == |items|
    ensures forall i :: 0 <= i < |items| ==> r[i] == items[|items| - 1 - i]
  {
    seq(|items|, i requires 0 <= i < |items| => items[|items| - 1 - i])
  }

  lemma {:induction false} ReverseInvolution(items: PArray)
    ensures Reverse(Reverse(items)) == items
    ensures multiset(Reverse(items)) == multiset(items)
  {
    var r := Reverse(items);
    if |items| > 0 {
      assert items == items[..|items| - 1] + [items[|items| - 1]];
      assert r == [items[|items| - 1]] + Reverse(items[..|items| - 1]);
      ReverseInvolution(items[..|items| - 1]);
    }
  }

  /** filter(f): the entries whose callback result is truthy, keys kept. */
  function Filter(items: PArray, f: Value -> Value): (r: PArray)
    ensures |r| <= |items|
    ensures forall i :: 0 <= i < |r| ==> Truthy(f(r[i].value)) && r[i] in items
    ensures forall e :: e in items && Truthy(f(e.value)) ==> e in r
  {
    if |items| == 0 then []
    else
      var rest := Filter(items[1..], f);
      assert forall e :: e in items ==> e == items[0] || e in items[1..];
      if Truthy(f(items[0].value)) then [items[0]] + rest else rest
  }

  /** filter keeps the source order: filtering a concatenation filters each
      part in place, and a single entry is kept exactly when its callback
      result is truthy. Together these determine the result entry by entry. */
  lemma {:induction false} FilterAppend(a: PArray, b: PArray, f: Value -> Value)
    ensures Filter(a + b, f) == Filter(a, f) + Filter(b, f)
    ensures |a| == 1 ==> Filter(a, f) == if Truthy(f(a[0].value)) then a else []
    decreases |a|
  {
    if |a| == 0 {
      assert a + b == b;
    } else {
      FilterAppend(a[1..], b, f);
      FilterAppendStep(a, b, f);
      if |a| == 1 {
        FilterCons(a, f);
        assert a[1..] == [];
      }
    }
  }

  /** The inductive step of FilterAppend: peeling the head of `a` off `a + b`. */
  lemma {:induction false} FilterAppendStep(a: PArray, b: PArray, f: Value -> Value)
    requires |a| > 0 && Filter(a[1..] + b, f) == Filter(a[1..], f) + Filter(b, f)
    ensures Filter(a + b, f) == Filter(a, f) + Filter(b, f)
  {
    var ab, t := a + b, a[1..];
    assert ab[1..] == t + b && ab[0] == a[0];
    FilterCons(ab, f);
    FilterCons(a, f);
    var head := if Truthy(f(a[0].value)) then [a[0]] else [];
    var ft, fb := Filter(t, f), Filter(b, f);
    ArrayAssoc(head, ft, fb);
  }

  /** One step of filter: the head is kept or not, then the tail is filtered. */
  lemma {:induction false} FilterCons(items: PArray, f: Value -> Value)
    requires |items| > 0
    ensures Filter(items, f) ==
      (if Truthy(f(items[0].value)) then [items[0]] else []) + Filter(items[1..], f)
  {
  }

  /** The callback of filter() without one: the value itself. */
  function Identity(v: Value): Value {
    v
  }

  /** filter() without a callback drops the falsy values. */
  function FilterTruthy(items: PArray): (r: PArray)
    ensures forall i :: 0 <= i < |r| ==> Truthy(r[i].value) && r[i] in items
    ensures forall e :: e in items && Truthy(e.value) ==> e in r
  {
    Filter(items, Identity)
  }

  /** filter() without a callback keeps the source order of the truthy entries. */
  lemma {:induction false} FilterTruthyAppend(a: PArray, b: PArray)
    ensures FilterTruthy(a + b) == FilterTruthy(a) + FilterTruthy(b)
    ensures |a| == 1 ==> FilterTruthy(a) == if Truthy(a[0].value) then a else []
  {
    FilterAppend(a, b, Identity);
  }

  /** On all-truthy items, filter() is the identity. */
  lemma {:induction false} FilterTruthyIdentity(items: PArray)
    requires forall i :: 0 <= i < |items| ==> Truthy(items[i].value)
    ensures FilterTruthy(items) == items
  {
    if |items| > 0 {
      FilterTruthyIdentity(items[1..]);
      assert Filter(items[1..], Identity) == items[1..];
      assert items == [items[0]] + items[1..];
    }
  }

  /** reject's callback: truthy exactly where `f` is falsy. */
  function Negated(f: Value -> Value): Value -> Value {
    v => VBool(!Truthy(f(v)))
  }

  /** reject(callback): the entries whose callback result is falsy. */
  function Reject(items: PArray, f: Value -> Value): (r: PArray)
    ensures forall i :: 0 <= i < |r| ==> !Truthy(f(r[i].value)) && r[i] in items
    ensures forall e :: e in items && !Truthy(f(e.value)) ==> e in r
  {
    Filter(items, Negated(f))
  }

  /** reject keeps the source order of the entries it keeps. */
  lemma {:induction false} RejectAppend(a: PArray, b: PArray, f: Value -> Value)
    ensures Reject(a + b, f) == Reject(a, f) + Reject(b, f)
    ensures |a| == 1 ==> Reject(a, f) == if Truthy(f(a[0].value)) then [] else a
  {
    FilterAppend(a, b, Negated(f));
  }

  /** reject(value)'s callback: truthy exactly on values not identical to `x`. */
  function DiffersFrom(x: Value): Value -> Value {
    v => VBool(v != x)
  }

  /** reject(value) with a non-callable: the entries not identical to it. */
  function RejectValue(items: PArray, x: Value): (r: PArray)
    ensures forall i :: 0 <= i < |r| ==> r[i].value != x && r[i] in items
    ensures forall e :: e in items && e.value != x ==> e in r
  {
    Filter(items, DiffersFrom(x))
  }

  /** reject(value) keeps the source order of the entries it keeps. */
  lemma {:induction false} RejectValueAppend(a: PArray, b: PArray, x: Value)
    ensures RejectValue(a + b, x) == RejectValue(a, x) + RejectValue(b, x)
    ensures |a| == 1 ==> RejectValue(a, x) == if a[0].value == x then [] else a
  {
    FilterAppend(a, b, DiffersFrom(x));
  }

  /** filter and reject split the items: every entry goes to exactly one side,
      and the sizes add up. */
  lemma {:induction false} FilterRejectPartition(items: PArray, f: Value -> Value)
    ensures |Filter(items, f)| + |Reject(items, f)| == |items|
    ensures multiset(Filter(items, f)) + multiset(Reject(items, f)) == multiset(items)
  {
    if |items| > 0 {
      FilterRejectPartition(items[1..], f);
      assert items == [items[0]] + items[1..];
    }
  }
}
