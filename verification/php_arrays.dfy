/** The PHP array primitives the library is built from: key lookup,
    assignment, unset, append with the next free index, list re-indexing,
    array_unshift / array_shift / array_pop, array_search and array_merge. */
module PhpArrays {
  import opened PhpValues

  /** Position of the first entry with key `k`, or -1 when there is none. */
  function KeyIndex(a: PArray, k: Key): (r: int)
    ensures -1 <= r < |a|
    ensures r >= 0 ==> a[r].key == k && forall j :: 0 <= j < r ==> a[j].key != k
    ensures r == -1 <==> !HasKey(a, k)
  {
    if |a| == 0 then -1
    else if a[0].key == k then 0
    else
      var r := KeyIndex(a[1..], k);
      if r < 0 then -1 else r + 1
  }

  /** Position of the first entry whose value is identical to `v`, or -1
      (array_search with strict comparison, as a position). */
  function ValueIndex(a: PArray, v: Value): (r: int)
    ensures -1 <= r < |a|
    ensures r >= 0 ==> a[r].value == v && forall j :: 0 <= j < r ==> a[j].value != v
    ensures r == -1 <==> !HasValue(a, v)
  {
    if |a| == 0 then -1
    else if a[0].value == v then 0
    else
      var r := ValueIndex(a[1..], v);
      if r < 0 then -1 else r + 1
  }

  /** array_key_exists: some entry has key `k`, even one holding null. */
  function KeyExists(a: PArray, k: Key): (r: bool)
    ensures r <==> exists i :: 0 <= i < |a| && a[i].key == k
  {
    KeyIndex(a, k) >= 0
  }

  /** in_array with strict comparison: some value is identical to `v`. */
  function InArray(a: PArray, v: Value): (r: bool)
    ensures r <==> exists i :: 0 <= i < |a| && a[i].value == v
  {
    ValueIndex(a, v) >= 0
  }

  /** A read of key `k`, or None when the key is absent. */
  function Lookup(a: PArray, k: Key): (r: Option<Value>)
    ensures r.Some? <==> HasKey(a, k)
    ensures r.Some? ==> exists i :: 0 <= i < |a| && a[i] == Entry(k, r.value)
  {
    var i := KeyIndex(a, k);
    if i < 0 then None else Some(a[i].value)
  }

  /** With distinct keys, the value at a present key is the one Lookup finds. */
  lemma {:induction false} LookupAt(a: PArray, i: int)
    requires DistinctKeys(a)
    requires 0 <= i < |a|
    ensures Lookup(a, a[i].key) == Some(a[i].value)
  {
    assert HasKey(a, a[i].key);
    var j := KeyIndex(a, a[i].key);
    assert a[j].key == a[i].key;
  }

  /** Appending one entry: keys already present keep their position; the new
      key is found at the end. */
  lemma {:induction false} HasKeyAppend(a: PArray, e: Entry, k: Key)
    ensures HasKey(a + [e], k) <==> HasKey(a, k) || e.key == k
    ensures KeyIndex(a + [e], k) ==
            if HasKey(a, k) then KeyIndex(a, k) else if e.key == k then |a| else -1
  {
    var r := a + [e];
    assert forall j :: 0 <= j < |a| ==> r[j] == a[j];
    assert r[|a|] == e;
    var ia := KeyIndex(a, k);
    if ia >= 0 {
      assert r[ia].key == k;
    } else if e.key == k {
      assert r[|a|].key == k;
    } else {
      forall j | 0 <= j < |r|
        ensures r[j].key != k
      {
      }
    }
  }

  /** Assignment to a key: overwrite in place when the key exists, else append the entry. */
  function Assign(a: PArray, k: Key, v: Value): (r: PArray)
    ensures Lookup(r, k) == Some(v)
    ensures forall k' :: k' != k ==> Lookup(r, k') == Lookup(a, k')
    ensures HasKey(a, k) ==> |r| == |a| && Keys(r) == Keys(a)
    ensures !HasKey(a, k) ==> r == a + [Entry(k, v)]
    ensures DistinctKeys(a) ==> DistinctKeys(r)
  {
    var i := KeyIndex(a, k);
    if i >= 0 then
      var r := a[i := Entry(k, v)];
      assert forall k' :: KeyIndex(r, k') == KeyIndex(a, k') by {
        forall k'
          ensures KeyIndex(r, k') == KeyIndex(a, k')
        {
          SameKeysSameIndex(a, r, k');
        }
      }
      r
    else
      var r := a + [Entry(k, v)];
      assert forall k' :: KeyIndex(r, k') == (if HasKey(a, k') then KeyIndex(a, k') else if k == k' then |a| else -1) by {
        forall k'
          ensures KeyIndex(r, k') ==
            if HasKey(a, k') then KeyIndex(a, k') else if k == k' then |a| else -1
        {
          HasKeyAppend(a, Entry(k, v), k');
        }
      }
      r
  }

  /** Two arrays with the same key at every position agree on KeyIndex. */
  lemma {:induction false} SameKeysSameIndex(a: PArray, b: PArray, k: Key)
    requires |a| == |b|
    requires forall j :: 0 <= j < |a| ==> a[j].key == b[j].key
    ensures KeyIndex(a, k) == KeyIndex(b, k)
  {
    var ia, ib := KeyIndex(a, k), KeyIndex(b, k);
    if ia >= 0 {
      assert b[ia].key == k;
    }
    if ib >= 0 {
      assert a[ib].key == k;
    }
  }

  /** The array without position `i`. */
  function RemoveAt(a: PArray, i: nat): (r: PArray)
    requires i < |a|
    ensures |r| == |a| - 1
    ensures forall j :: 0 <= j < i ==> r[j] == a[j]
    ensures forall j :: i <= j < |r| ==> r[j] == a[j + 1]
  {
    a[..i] + a[i + 1..]
  }

  /** Removing one position keeps the keys distinct, and the removed key is
      gone when it was the only one. */
  lemma {:induction false} RemoveAtDistinct(a: PArray, i: nat)
    requires DistinctKeys(a)
    requires i < |a|
    ensures DistinctKeys(RemoveAt(a, i))
    ensures !HasKey(RemoveAt(a, i), a[i].key)
    ensures forall k :: k != a[i].key ==> (HasKey(RemoveAt(a, i), k) <==> HasKey(a, k))
  {
    var r := RemoveAt(a, i);
    forall p, q | 0 <= p < q < |r|
      ensures r[p].key != r[q].key
    {
      var p', q' := if p < i then p else p + 1, if q < i then q else q + 1;
      assert r[p] == a[p'] && r[q] == a[q'];
    }
    forall j | 0 <= j < |r|
      ensures r[j].key != a[i].key
    {
      var j' := if j < i then j else j + 1;
      assert r[j] == a[j'];
    }
    forall k | k != a[i].key && HasKey(a, k)
      ensures HasKey(r, k)
    {
      var j :| 0 <= j < |a| && a[j].key == k;
      var j' := if j < i then j else j - 1;
      assert r[j'] == a[j];
    }
    forall k | HasKey(r, k)
      ensures HasKey(a, k)
    {
      var j :| 0 <= j < |r| && r[j].key == k;
      var j' := if j < i then j else j + 1;
      assert r[j] == a[j'];
    }
  }

  /** unset of a key: drop the entry with key `k`, keeping the others in order. */
  function Unset(a: PArray, k: Key): (r: PArray)
    ensures !HasKey(a, k) ==> r == a
    ensures HasKey(a, k) ==> |r| == |a| - 1 && r == RemoveAt(a, KeyIndex(a, k))
    ensures DistinctKeys(a) ==> DistinctKeys(r) && !HasKey(r, k)
    ensures DistinctKeys(a) ==> forall k' :: k' != k ==> Lookup(r, k') == Lookup(a, k')
  {
    var i := KeyIndex(a, k);
    if i < 0 then a
    else
      var r := RemoveAt(a, i);
      assert DistinctKeys(a) ==> (DistinctKeys(r) && !HasKey(r, k) &&
          forall k' :: k' != k ==> Lookup(r, k') == Lookup(a, k')) by {
        if DistinctKeys(a) {
          RemoveAtDistinct(a, i);
          forall k' | k' != k
            ensures Lookup(r, k') == Lookup(a, k')
          {
            UnsetLookup(a, i, k');
          }
        }
      }
      r
  }

  lemma {:induction false} UnsetLookup(a: PArray, i: nat, k': Key)
    requires DistinctKeys(a)
    requires i < |a|
    requires a[i].key != k'
    ensures Lookup(RemoveAt(a, i), k') == Lookup(a, k')
  {
    var r := RemoveAt(a, i);
    RemoveAtDistinct(a, i);
    if HasKey(a, k') {
      var j :| 0 <= j < |a| && a[j].key == k';
      var j' := if j < i then j else j - 1;
      assert r[j'] == a[j];
      LookupAt(a, j);
      LookupAt(r, j');
    }
  }

  /** The int key the next append without a key uses: one past the largest integer
      key, and never below 0 (the PHP 7 rule). */
  function NextIndex(a: PArray): (n: nat)
    ensures forall i :: 0 <= i < |a| && a[i].key.IntKey? ==> a[i].key.i < n
    ensures n == 0 || exists i :: 0 <= i < |a| && a[i].key == IntKey(n - 1)
  {
    if |a| == 0 then 0
    else
      var rest := NextIndex(a[..|a| - 1]);
      var last := a[|a| - 1].key;
      if last.IntKey? && last.i + 1 > rest then
        last.i + 1
      else
        assert forall i :: 0 <= i < |a| - 1 ==> a[..|a| - 1][i] == a[i];
        rest
  }

  /** Append without a key: the value goes under the next free integer key. */
  function Push(a: PArray, v: Value): (r: PArray)
    ensures r == a + [Entry(IntKey(NextIndex(a)), v)]
    ensures !HasKey(a, IntKey(NextIndex(a)))
    ensures DistinctKeys(a) ==> DistinctKeys(r)
    ensures Vals(r) == Vals(a) + [v]
  {
    var r := a + [Entry(IntKey(NextIndex(a)), v)];
    assert forall i :: 0 <= i < |a| ==> r[i] == a[i];
    assert Vals(r) == Vals(a) + [v];
    r
  }

  /** The keys are exactly 0, 1, ..., n-1 in order: a plain PHP list. */
  predicate IsList(a: PArray) {
    forall i :: 0 <= i < |a| ==> a[i].key == IntKey(i)
  }

  /** The list holding `vs` under keys 0..n-1. */
  function ListOf(vs: seq<Value>): (r: PArray)
    ensures IsList(r) && Vals(r) == vs
  {
    seq(|vs|, i requires 0 <= i < |vs| => Entry(IntKey(i), vs[i]))
  }

  /** array_values: the same values re-keyed 0..n-1. */
  function ArrayValues(a: PArray): (r: PArray)
    ensures IsList(r) && Vals(r) == Vals(a)
  {
    ListOf(Vals(a))
  }

  /** A list's keys are distinct. */
  lemma {:induction false} ListDistinct(a: PArray)
    requires IsList(a)
    ensures DistinctKeys(a)
  {
  }

  /** An array is a list exactly when it is identical to its own array_values. */
  /** A list is determined by its values. */
  lemma {:induction false} SameValuesSameList(a: PArray, b: PArray)
    requires IsList(a) && IsList(b) && Vals(a) == Vals(b)
    ensures a == b
  {
    assert |a| == |Vals(a)|;
    forall i | 0 <= i < |a|
      ensures a[i] == b[i]
    {
      assert a[i].value == Vals(a)[i] && b[i].value == Vals(b)[i];
    }
  }

  lemma {:induction false} IsListIffSelfValues(a: PArray)
    ensures IsList(a) <==> a == ArrayValues(a)
  {
    if IsList(a) {
      assert forall i :: 0 <= i < |a| ==> a[i] == ArrayValues(a)[i];
    } else {
      var i :| 0 <= i < |a| && a[i].key != IntKey(i);
      assert ArrayValues(a)[i].key == IntKey(i);
    }
  }

  /** Appending to a list keeps it a list. */
  lemma {:induction false} PushList(a: PArray, v: Value)
    requires IsList(a)
    ensures NextIndex(a) == |a|
    ensures Push(a, v) == ListOf(Vals(a) + [v])
  {
    var n := NextIndex(a);
    if |a| > 0 {
      assert a[|a| - 1].key == IntKey(|a| - 1);
      var j :| 0 <= j < |a| && a[j].key == IntKey(n - 1);
      assert a[j].key == IntKey(j);
    }
    var r, l := Push(a, v), ListOf(Vals(a) + [v]);
    forall i | 0 <= i < |r|
      ensures r[i] == l[i]
    {
      if i < |a| {
        assert r[i] == a[i];
      }
    }
  }

  /** `r` is `a` with its integer keys replaced by keys from `n` upwards:
      same values, string keys in the same places and unchanged. */
  predicate RenumberedFrom(r: PArray, a: PArray, n: int) {
    |r| == |a| && Vals(r) == Vals(a) &&
    (forall i :: 0 <= i < |a| ==> (a[i].key.StrKey? <==> r[i].key.StrKey?)) &&
    (forall i :: 0 <= i < |a| && a[i].key.StrKey? ==> r[i].key == a[i].key) &&
    (forall i :: 0 <= i < |r| && r[i].key.IntKey? ==> r[i].key.i >= n)
  }

  /** Re-key the integer-keyed entries n, n+1, ... in order; string keys stay. */
  function RenumberFrom(a: PArray, n: int): (r: PArray)
    ensures RenumberedFrom(r, a, n)
  {
    if |a| == 0 then []
    else
      var e := if a[0].key.StrKey? then a[0] else Entry(IntKey(n), a[0].value);
      var rest := RenumberFrom(a[1..], if a[0].key.StrKey? then n else n + 1);
      RenumberedCons(a, n, e, rest);
      [e] + rest
  }

  lemma {:induction false} RenumberedCons(a: PArray, n: int, e: Entry, rest: PArray)
    requires |a| > 0 && e == if a[0].key.StrKey? then a[0] else Entry(IntKey(n), a[0].value)
    requires RenumberedFrom(rest, a[1..], if a[0].key.StrKey? then n else n + 1)
    ensures RenumberedFrom([e] + rest, a, n)
  {
    var r := [e] + rest;
    var m := if a[0].key.StrKey? then n else n + 1;
    forall i | 0 <= i < |a|
      ensures r[i].value == a[i].value
      ensures a[i].key.StrKey? <==> r[i].key.StrKey?
      ensures a[i].key.StrKey? ==> r[i].key == a[i].key
      ensures r[i].key.IntKey? ==> r[i].key.i >= n
    {
      if i > 0 {
        assert r[i] == rest[i - 1] && a[i] == a[1..][i - 1];
        assert rest[i - 1].value == Vals(rest)[i - 1] == Vals(a[1..])[i - 1];
      }
    }
    assert Vals(r) == Vals(a);
  }

  /** The renumbering PHP applies after array_shift, array_unshift, array_splice
      and array_merge: integer keys become 0, 1, ... in order. */
  function Renumber(a: PArray): PArray {
    RenumberFrom(a, 0)
  }

  lemma {:induction false} RenumberDistinct(a: PArray, n: int)
    requires DistinctKeys(a)
    ensures DistinctKeys(RenumberFrom(a, n))
    decreases |a|
  {
    if |a| > 0 {
      var m := if a[0].key.StrKey? then n else n + 1;
      var rest := RenumberFrom(a[1..], m);
      TailDistinct(a);
      RenumberDistinct(a[1..], m);
      RenumberCons(a, n);
      RenumberHeadFresh(a, n, Renumbered(a[0], n), rest);
      ConsDistinct(Renumbered(a[0], n), rest);
    }
  }

  /** Dropping the first entry keeps the keys distinct. */
  lemma {:induction false} TailDistinct(a: PArray)
    requires |a| > 0 && DistinctKeys(a)
    ensures DistinctKeys(a[1..])
  {
    forall i, j | 0 <= i < j < |a[1..]|
      ensures a[1..][i].key != a[1..][j].key
    {
      assert a[1..][i] == a[i + 1] && a[1..][j] == a[j + 1];
    }
  }

  /** The renumbered head's key does not occur among the renumbered rest. */
  lemma {:induction false} RenumberHeadFresh(a: PArray, n: int, e: Entry, rest: PArray)
    requires |a| > 0 && DistinctKeys(a)
    requires e == Renumbered(a[0], n)
    requires RenumberedFrom(rest, a[1..], if a[0].key.StrKey? then n else n + 1)
    ensures !HasKey(rest, e.key)
  {
    forall q | 0 <= q < |rest|
      ensures rest[q].key != e.key
    {
      if a[0].key.StrKey? && rest[q].key.StrKey? {
        assert rest[q].key == a[1..][q].key == a[q + 1].key;
      }
    }
  }

  /** An array with only string keys is unchanged by renumbering. */
  lemma {:induction false} RenumberStringKeyed(a: PArray, n: int)
    requires forall i :: 0 <= i < |a| ==> a[i].key.StrKey?
    ensures RenumberFrom(a, n) == a
    decreases |a|
  {
    if |a| > 0 {
      RenumberStringKeyed(a[1..], n);
      assert [a[0]] + a[1..] == a;
    }
  }

  /** A list renumbered from n holds the same values under keys n, n+1, ... */
  lemma {:induction false} RenumberIntKeyed(a: PArray, n: int)
    requires forall i :: 0 <= i < |a| ==> a[i].key.IntKey?
    ensures forall i :: 0 <= i < |a| ==> RenumberFrom(a, n)[i] == Entry(IntKey(n + i), a[i].value)
    decreases |a|
  {
    if |a| > 0 {
      RenumberIntKeyed(a[1..], n + 1);
    }
  }

  /** array_unshift: `v` becomes the first element; integer keys are renumbered. */
  function Unshift(a: PArray, v: Value): (r: PArray)
    ensures |r| == |a| + 1
    ensures r[0] == Entry(IntKey(0), v)
    ensures Vals(r) == [v] + Vals(a)
    ensures DistinctKeys(a) ==> DistinctKeys(r)
  {
    var b := [Entry(IntKey(0), v)] + a;
    assert Vals(b) == [v] + Vals(a);
    assert DistinctKeys(a) ==> DistinctKeys(Renumber(b)) by {
      if DistinctKeys(a) {
        UnshiftDistinct(a, v);
      }
    }
    Renumber(b)
  }

  lemma {:induction false} UnshiftDistinct(a: PArray, v: Value)
    requires DistinctKeys(a)
    ensures DistinctKeys(Renumber([Entry(IntKey(0), v)] + a))
  {
    var b := [Entry(IntKey(0), v)] + a;
    var t := RenumberFrom(a, 1);
    assert b[1..] == a;
    RenumberDistinct(a, 1);
    assert Renumber(b) == [Entry(IntKey(0), v)] + t;
    assert !HasKey(t, IntKey(0));
    ConsDistinct(Entry(IntKey(0), v), t);
  }

  /** Unshifting onto a list gives the list with the value in front. */
  lemma {:induction false} UnshiftList(a: PArray, v: Value)
    requires IsList(a)
    ensures Unshift(a, v) == ListOf([v] + Vals(a))
  {
    var b := [Entry(IntKey(0), v)] + a;
    assert IntKeyed(b) by {
      forall i | 0 <= i < |b| ensures b[i].key.IntKey? {
        if i > 0 { assert b[i] == a[i - 1]; }
      }
    }
    RenumberIntKeyedIsValues(b);
    SameValuesSameList(Unshift(a, v), ListOf([v] + Vals(a)));
  }

  /** An entry whose key is fresh can go in front of a key-distinct array. */
  lemma {:induction false} ConsDistinct(e: Entry, t: PArray)
    requires DistinctKeys(t) && !HasKey(t, e.key)
    ensures DistinctKeys([e] + t)
  {
    var r := [e] + t;
    forall p, q | 0 <= p < q < |r|
      ensures r[p].key != r[q].key
    {
      assert r[q] == t[q - 1];
      if p > 0 {
        assert r[p] == t[p - 1];
      }
    }
  }

  /** One step of array_merge: string keys overwrite, integer keys append. */
  function MergeStep(acc: PArray, e: Entry): PArray {
    if e.key.StrKey? then Assign(acc, e.key, e.value) else Push(acc, e.value)
  }

  /** Fold the entries of `xs` into `acc` the way array_merge does. */
  function MergeInto(acc: PArray, xs: PArray): (r: PArray)
    ensures DistinctKeys(acc) ==> DistinctKeys(r)
    decreases |xs|
  {
    if |xs| == 0 then acc else MergeInto(MergeStep(acc, xs[0]), xs[1..])
  }

  /** array_merge of two arrays. */
  function ArrayMerge(a: PArray, b: PArray): (r: PArray)
    ensures DistinctKeys(r)
  {
    MergeInto(MergeInto([], a), b)
  }

  /** A key is in a non-empty array when it is the first key or in the rest. */
  lemma {:induction false} HasKeyCons(xs: PArray, k: Key)
    requires |xs| > 0
    ensures HasKey(xs, k) <==> xs[0].key == k || HasKey(xs[1..], k)
  {
    assert KeyIndex(xs, k) >= 0 <==> xs[0].key == k || KeyIndex(xs[1..], k) >= 0;
  }

  /** The value a string key has after merging `xs` into `acc`: the one from
      `xs` when `xs` has that key, otherwise the one `acc` had. */
  lemma {:induction false} MergeIntoStringLookup(acc: PArray, xs: PArray, s: string)
    requires DistinctKeys(xs)
    ensures Lookup(MergeInto(acc, xs), StrKey(s)) ==
            if HasKey(xs, StrKey(s)) then Lookup(xs, StrKey(s)) else Lookup(acc, StrKey(s))
    decreases |xs|
  {
    if |xs| > 0 {
      var k := StrKey(s);
      var acc' := MergeStep(acc, xs[0]);
      TailDistinct(xs);
      MergeIntoStringLookup(acc', xs[1..], s);
      HasKeyCons(xs, k);
      if xs[0].key == k {
        HeadKeyOnly(xs);
      } else {
        TailLookup(xs, k);
        if !xs[0].key.StrKey? {
          LookupPushString(acc, xs[0].value, s);
        }
      }
    }
  }

  /** In an array with distinct keys the first key does not recur, and holds
      the first value. */
  lemma {:induction false} HeadKeyOnly(xs: PArray)
    requires |xs| > 0 && DistinctKeys(xs)
    ensures !HasKey(xs[1..], xs[0].key) && Lookup(xs, xs[0].key) == Some(xs[0].value)
  {
    forall j | 0 <= j < |xs[1..]|
      ensures xs[1..][j].key != xs[0].key
    {
      assert xs[1..][j] == xs[j + 1];
    }
    LookupAt(xs, 0);
  }

  /** A key other than the first is looked up in the rest. */
  lemma {:induction false} TailLookup(xs: PArray, k: Key)
    requires |xs| > 0 && DistinctKeys(xs) && xs[0].key != k
    ensures HasKey(xs[1..], k) ==> Lookup(xs, k) == Lookup(xs[1..], k)
  {
    if HasKey(xs[1..], k) {
      var j :| 0 <= j < |xs[1..]| && xs[1..][j].key == k;
      assert xs[1..][j] == xs[j + 1];
      assert DistinctKeys(xs[1..]);
      LookupAt(xs, j + 1);
      LookupAt(xs[1..], j);
    }
  }

  /** Pushing never changes what a string key holds. */
  lemma {:induction false} LookupPushString(a: PArray, v: Value, s: string)
    ensures Lookup(Push(a, v), StrKey(s)) == Lookup(a, StrKey(s))
  {
    var e := Entry(IntKey(NextIndex(a)), v);
    HasKeyAppend(a, e, StrKey(s));
    var r := Push(a, v);
    assert forall j :: 0 <= j < |a| ==> r[j] == a[j];
  }

  /** The entry a merge step appends when no string key collides. */
  function Renumbered(e: Entry, m: int): Entry {
    if e.key.StrKey? then e else Entry(IntKey(m), e.value)
  }

  lemma {:induction false} MergeStepAppends(acc: PArray, e: Entry, m: nat)
    requires NextIndex(acc) == m
    requires e.key.StrKey? ==> !HasKey(acc, e.key)
    ensures MergeStep(acc, e) == acc + [Renumbered(e, m)]
    ensures NextIndex(MergeStep(acc, e)) == if e.key.StrKey? then m else m + 1
  {
    NextIndexAppend(acc, Renumbered(e, m));
  }

  /** Merging into an accumulator whose next index is m appends the entries,
      renumbered from m, as long as no string key collides. */
  lemma {:induction false} MergeIntoAppends(acc: PArray, xs: PArray, m: nat)
    requires NextIndex(acc) == m
    requires DistinctKeys(xs)
    requires forall i :: 0 <= i < |xs| && xs[i].key.StrKey? ==> !HasKey(acc, xs[i].key)
    ensures MergeInto(acc, xs) == acc + RenumberFrom(xs, m)
    decreases |xs|
  {
    if |xs| > 0 {
      var e := xs[0];
      var m' := if e.key.StrKey? then m else m + 1;
      MergeStepAppends(acc, e, m);
      var acc' := acc + [Renumbered(e, m)];
      var rest := xs[1..];
      MergeFreshTail(acc, xs, m);
      MergeIntoAppends(acc', rest, m');
      RenumberCons(xs, m);
      ConcatAssoc(acc, Renumbered(e, m), RenumberFrom(rest, m'));
    }
  }

  lemma {:induction false} MergeFreshTail(acc: PArray, xs: PArray, m: nat)
    requires |xs| > 0
    requires DistinctKeys(xs)
    requires forall i :: 0 <= i < |xs| && xs[i].key.StrKey? ==> !HasKey(acc, xs[i].key)
    ensures DistinctKeys(xs[1..])
    ensures forall i :: 0 <= i < |xs[1..]| && xs[1..][i].key.StrKey? ==>
      !HasKey(acc + [Renumbered(xs[0], m)], xs[1..][i].key)
  {
    var rest := xs[1..];
    forall i | 0 <= i < |rest| && rest[i].key.StrKey?
      ensures !HasKey(acc + [Renumbered(xs[0], m)], rest[i].key)
    {
      assert rest[i] == xs[i + 1];
      HasKeyAppend(acc, Renumbered(xs[0], m), rest[i].key);
    }
  }

  lemma {:induction false} RenumberCons(xs: PArray, m: int)
    requires |xs| > 0
    ensures RenumberFrom(xs, m) ==
            [Renumbered(xs[0], m)] + RenumberFrom(xs[1..], if xs[0].key.StrKey? then m else m + 1)
  {
  }

  lemma {:induction false} ConcatAssoc(a: PArray, e: Entry, b: PArray)
    ensures (a + [e]) + b == a + ([e] + b)
  {
  }

  /** A product of non-negative integers is non-negative. */
  lemma MulNonneg(a: int, b: int)
    requires a >= 0 && b >= 0
    ensures a * b >= 0
  {
  }

  lemma {:induction false} ArrayAssoc(a: PArray, b: PArray, c: PArray)
    ensures (a + b) + c == a + (b + c)
  {
  }

  lemma {:induction false} NextIndexAppend(a: PArray, e: Entry)
    ensures NextIndex(a + [e]) ==
            if e.key.IntKey? && e.key.i + 1 > NextIndex(a) then e.key.i + 1 else NextIndex(a)
  {
    assert (a + [e])[..|a|] == a;
  }

  /** Merging a distinct-keyed array into the empty array only renumbers it. */
  lemma {:induction false} MergeIntoEmpty(a: PArray)
    requires DistinctKeys(a)
    ensures MergeInto([], a) == Renumber(a)
  {
    MergeIntoAppends([], a, 0);
  }

  /** A list renumbered from n holds its values under keys n, n+1, ... */
  lemma {:induction false} RenumberList(a: PArray, n: int)
    requires IsList(a)
    ensures forall i :: 0 <= i < |a| ==> RenumberFrom(a, n)[i] == Entry(IntKey(n + i), a[i].value)
  {
    RenumberIntKeyed(a, n);
  }

  /** A list followed by entries keyed |a|, |a|+1, ... is again a list. */
  lemma {:induction false} ListThenShifted(a: PArray, c: PArray, b: PArray)
    requires IsList(a)
    requires |c| == |b|
    requires forall i :: 0 <= i < |b| ==> c[i] == Entry(IntKey(|a| + i), b[i].value)
    ensures a + c == ListOf(Vals(a) + Vals(b))
  {
    var r := a + c;
    var l := ListOf(Vals(a) + Vals(b));
    assert |r| == |l|;
    forall i | 0 <= i < |r|
      ensures r[i] == l[i]
    {
      if i < |a| {
        assert r[i] == a[i];
      } else {
        assert r[i] == c[i - |a|];
      }
    }
  }

  /** Merging a list into the empty array gives the list back. */
  lemma {:induction false} MergeIntoEmptyList(a: PArray)
    requires IsList(a)
    ensures MergeInto([], a) == a
  {
    ListDistinct(a);
    MergeIntoEmpty(a);
    RenumberList(a, 0);
    assert Renumber(a) == a;
  }

  /** Merging a list into a list appends its values under the next keys. */
  lemma {:induction false} MergeIntoList(a: PArray, b: PArray)
    requires IsList(a) && IsList(b)
    ensures MergeInto(a, b) == ListOf(Vals(a) + Vals(b))
  {
    MergeListAppends(a, b);
    ListThenRenumbered(a, b);
  }

  /** Merging a list into a list appends the renumbered entries. */
  lemma {:induction false} MergeListAppends(a: PArray, b: PArray)
    requires IsList(a) && IsList(b)
    ensures MergeInto(a, b) == a + RenumberFrom(b, |a|)
  {
    ListDistinct(b);
    PushList(a, VNull);
    assert forall i :: 0 <= i < |b| ==> b[i].key == IntKey(i);
    MergeIntoAppends(a, b, |a|);
  }

  /** A list followed by another list renumbered from its length is the list
      of both value sequences. */
  lemma {:induction false} ListThenRenumbered(a: PArray, b: PArray)
    requires IsList(a) && IsList(b)
    ensures a + RenumberFrom(b, |a|) == ListOf(Vals(a) + Vals(b))
  {
    RenumberList(b, |a|);
    ListThenShifted(a, RenumberFrom(b, |a|), b);
  }

  /** array_merge of two lists is the list of their concatenated values. */
  lemma {:induction false} MergeLists(a: PArray, b: PArray)
    requires IsList(a) && IsList(b)
    ensures ArrayMerge(a, b) == ListOf(Vals(a) + Vals(b))
  {
    MergeIntoEmptyList(a);
    MergeIntoList(a, b);
  }

  /** No value occurs twice (the invariant a Set keeps). */
  predicate DistinctValues(a: PArray) {
    forall i, j :: 0 <= i < j < |a| ==> a[i].value != a[j].value
  }

  /** Every key is an integer key. */
  predicate IntKeyed(a: PArray) {
    forall i :: 0 <= i < |a| ==> a[i].key.IntKey?
  }

  /** Appending one entry: values already present keep their first position;
      a new value is found at the end. */
  lemma {:induction false} ValueIndexAppend(a: PArray, e: Entry, v: Value)
    ensures HasValue(a + [e], v) <==> HasValue(a, v) || e.value == v
    ensures ValueIndex(a + [e], v) ==
            if HasValue(a, v) then ValueIndex(a, v) else if e.value == v then |a| else -1
  {
    var r := a + [e];
    assert forall j :: 0 <= j < |a| ==> r[j] == a[j];
    assert r[|a|] == e;
    var ia := ValueIndex(a, v);
    if ia >= 0 {
      assert r[ia].value == v;
    } else if e.value == v {
      assert r[|a|].value == v;
    } else {
      forall j | 0 <= j < |r|
        ensures r[j].value != v
      {
      }
    }
  }

  /** `r` holds, in their original order, exactly the first entry of `a` for
      each value occurring in `a`. */
  ghost predicate FirstOccurrences(r: PArray, a: PArray) {
    DistinctValues(r) &&
    (forall v :: HasValue(r, v) <==> HasValue(a, v)) &&
    (forall i :: 0 <= i < |r| ==> 0 <= ValueIndex(a, r[i].value) && a[ValueIndex(a, r[i].value)] == r[i]) &&
    (forall i, j :: 0 <= i < j < |r| ==> ValueIndex(a, r[i].value) < ValueIndex(a, r[j].value))
  }

  /** array_unique: the first entry holding each value, keys kept, in the
      original order. Values are compared by identity. */
  function ArrayUnique(a: PArray): (r: PArray)
    ensures |r| <= |a|
    ensures FirstOccurrences(r, a)
    decreases |a|
  {
    if |a| == 0 then []
    else
      var init, last := a[..|a| - 1], a[|a| - 1];
      var r := ArrayUnique(init);
      UniqueStep(a, init, last, r);
      if HasValue(init, last.value) then r else r + [last]
  }

  lemma {:induction false} UniqueStep(a: PArray, init: PArray, last: Entry, r: PArray)
    requires a == init + [last]
    requires FirstOccurrences(r, init)
    ensures HasValue(init, last.value) ==> FirstOccurrences(r, a)
    ensures !HasValue(init, last.value) ==> FirstOccurrences(r + [last], a)
  {
    if HasValue(init, last.value) {
      UniqueStepSeen(a, init, last, r);
    } else {
      UniqueStepNew(a, init, last, r);
    }
  }

  /** A value seen before: the entries kept so far are still the first ones. */
  lemma {:induction false} UniqueStepSeen(a: PArray, init: PArray, last: Entry, r: PArray)
    requires a == init + [last] && HasValue(init, last.value)
    requires FirstOccurrences(r, init)
    ensures FirstOccurrences(r, a)
  {
    forall v
      ensures HasValue(a, v) <==> HasValue(init, v)
      ensures HasValue(init, v) ==> ValueIndex(a, v) == ValueIndex(init, v)
    {
      ValueIndexAppend(init, last, v);
    }
    forall i | 0 <= i < |r|
      ensures 0 <= ValueIndex(a, r[i].value) && a[ValueIndex(a, r[i].value)] == r[i]
    {
      assert HasValue(r, r[i].value);
      assert a[ValueIndex(init, r[i].value)] == init[ValueIndex(init, r[i].value)];
    }
    forall i, j | 0 <= i < j < |r|
      ensures ValueIndex(a, r[i].value) < ValueIndex(a, r[j].value)
    {
      assert HasValue(r, r[i].value) && HasValue(r, r[j].value);
    }
  }

  /** A new value: the last entry is its first occurrence and is kept. */
  lemma {:induction false} UniqueStepNew(a: PArray, init: PArray, last: Entry, r: PArray)
    requires a == init + [last] && !HasValue(init, last.value)
    requires FirstOccurrences(r, init)
    ensures FirstOccurrences(r + [last], a)
  {
    var r' := r + [last];
    KeptStayFirst(a, init, last, r);
    assert ValueIndex(a, last.value) == |init| by {
      ValueIndexAppend(init, last, last.value);
    }
    assert forall v :: HasValue(r', v) <==> HasValue(a, v) by {
      forall v
        ensures HasValue(r', v) <==> HasValue(a, v)
      {
        ValueIndexAppend(init, last, v);
        ValueIndexAppend(r, last, v);
      }
    }
    assert forall i :: 0 <= i < |r| ==> r'[i] == r[i];
    assert r'[|r|] == last;
    forall i, j | 0 <= i < j < |r'|
      ensures r'[i].value != r'[j].value && ValueIndex(a, r'[i].value) < ValueIndex(a, r'[j].value)
    {
      if j == |r| {
        assert r'[i].value != last.value;
      }
    }
  }

  /** Entries kept from a prefix keep their first positions once one more
      entry is appended. */
  lemma {:induction false} KeptStayFirst(a: PArray, init: PArray, last: Entry, r: PArray)
    requires a == init + [last]
    requires FirstOccurrences(r, init)
    ensures forall i :: 0 <= i < |r| ==>
      HasValue(init, r[i].value) && ValueIndex(a, r[i].value) == ValueIndex(init, r[i].value) < |init| &&
      a[ValueIndex(a, r[i].value)] == r[i]
  {
    forall i | 0 <= i < |r|
      ensures HasValue(init, r[i].value) && ValueIndex(a, r[i].value) == ValueIndex(init, r[i].value) < |init|
      ensures a[ValueIndex(a, r[i].value)] == r[i]
    {
      assert HasValue(r, r[i].value);
      ValueIndexAppend(init, last, r[i].value);
    }
  }

  /** One unfolding of array_unique: the last entry survives exactly when its
      value does not occur earlier. */
  lemma {:induction false} ArrayUniqueStep(a: PArray)
    requires |a| > 0
    ensures ArrayUnique(a) ==
      if HasValue(a[..|a| - 1], a[|a| - 1].value) then ArrayUnique(a[..|a| - 1])
      else ArrayUnique(a[..|a| - 1]) + [a[|a| - 1]]
  {
  }

  /** array_unique on an array extended by one entry: the entry survives
      exactly when its value is new. */
  lemma {:induction false} UniqueSnoc(init: PArray, last: Entry)
    ensures ArrayUnique(init + [last]) ==
      if HasValue(init, last.value) then ArrayUnique(init) else ArrayUnique(init) + [last]
  {
    var a := init + [last];
    assert a[..|a| - 1] == init;
    ArrayUniqueStep(a);
  }

  /** The position array_splice starts at for `offset` in an array of `n`
      entries: negative offsets count from the end, both ends are clamped. */
  function SpliceOffset(n: nat, offset: int): (p: nat)
    ensures p <= n
  {
    if offset < 0 then (if n + offset < 0 then 0 else n + offset)
    else if offset > n then n
    else offset
  }

  /** array_splice that removes nothing: insert the values at the offset's
      position; the integer keys of the result are renumbered. */
  function SpliceInsert(a: PArray, offset: int, values: seq<Value>): (r: PArray)
    ensures |r| == |a| + |values|
    ensures var p := SpliceOffset(|a|, offset);
      Vals(r) == Vals(a)[..p] + values + Vals(a)[p..]
    ensures IntKeyed(a) ==> IsList(r)
  {
    var p := SpliceOffset(|a|, offset);
    SpliceParts(a, p, values);
    Renumber(a[..p] + ListOf(values) + a[p..])
  }

  /** The array array_splice builds before renumbering: its values, and its
      keys when the original has only integer keys. */
  lemma {:induction false} SpliceParts(a: PArray, p: nat, values: seq<Value>)
    requires p <= |a|
    ensures Vals(a[..p] + ListOf(values) + a[p..]) == Vals(a)[..p] + values + Vals(a)[p..]
    ensures IntKeyed(a) ==> IsList(Renumber(a[..p] + ListOf(values) + a[p..]))
  {
    var b := a[..p] + ListOf(values) + a[p..];
    var vs := Vals(a)[..p] + values + Vals(a)[p..];
    assert |Vals(b)| == |vs|;
    forall i | 0 <= i < |b|
      ensures Vals(b)[i] == vs[i]
      ensures IntKeyed(a) ==> b[i].key.IntKey?
    {
      if i < p {
        assert b[i] == a[i];
      } else if i < p + |values| {
        assert b[i] == ListOf(values)[i - p];
      } else {
        assert b[i] == a[i - |values|];
      }
    }
    if IntKeyed(a) {
      RenumberIntKeyed(b, 0);
    }
  }

  /** Renumbering an integer-keyed array is array_values. */
  lemma {:induction false} RenumberIntKeyedIsValues(a: PArray)
    requires IntKeyed(a)
    ensures Renumber(a) == ArrayValues(a)
  {
    RenumberIntKeyed(a, 0);
    var r, v := Renumber(a), ArrayValues(a);
    forall i | 0 <= i < |a|
      ensures r[i] == v[i]
    {
      assert v[i].key == IntKey(i) && v[i].value == Vals(a)[i];
    }
  }

  /** Removing position `i` removes one copy of its value from the multiset of values. */
  lemma {:induction false} RemoveAtValues(a: PArray, i: nat)
    requires i < |a|
    ensures Vals(RemoveAt(a, i)) == Vals(a)[..i] + Vals(a)[i + 1..]
    ensures multiset(Vals(RemoveAt(a, i))) == multiset(Vals(a)) - multiset{a[i].value}
  {
    var vs := Vals(a);
    assert vs == vs[..i] + [vs[i]] + vs[i + 1..];
  }

  /** Position of the last entry with key `k`, or -1 when there is none. */
  function LastKeyIndex(a: PArray, k: Key): (r: int)
    ensures -1 <= r < |a|
    ensures r >= 0 ==> a[r].key == k
    ensures forall j :: r < j < |a| ==> a[j].key != k
    decreases |a|
  {
    if |a| == 0 then -1
    else if a[|a| - 1].key == k then |a| - 1
    else
      var init := a[..|a| - 1];
      assert forall j :: 0 <= j < |init| ==> init[j] == a[j];
      LastKeyIndex(init, k)
  }

  /** Assign each pair to the accumulator in turn. */
  function AssignAll(acc: PArray, pairs: PArray): (r: PArray)
    ensures DistinctKeys(acc) ==> DistinctKeys(r)
    decreases |pairs|
  {
    if |pairs| == 0 then acc
    else
      var last := pairs[|pairs| - 1];
      Assign(AssignAll(acc, pairs[..|pairs| - 1]), last.key, last.value)
  }

  /** After assigning all pairs, a key holds the value of the last pair with
      that key, and a key no pair has keeps its old value. */
  lemma {:induction false} AssignAllLookup(acc: PArray, pairs: PArray, k: Key)
    ensures var i := LastKeyIndex(pairs, k);
      Lookup(AssignAll(acc, pairs), k) == if i < 0 then Lookup(acc, k) else Some(pairs[i].value)
    decreases |pairs|
  {
    if |pairs| > 0 {
      var n := |pairs| - 1;
      var init := pairs[..n];
      AssignAllLookup(acc, init, k);
      if pairs[n].key != k {
        var i := LastKeyIndex(init, k);
        assert LastKeyIndex(pairs, k) == i;
        if i >= 0 {
          assert init[i] == pairs[i];
        }
      }
    }
  }

  /** With distinct keys the last entry with a key is the only one. */
  lemma {:induction false} LastKeyIndexDistinct(a: PArray, k: Key)
    requires DistinctKeys(a)
    ensures LastKeyIndex(a, k) == KeyIndex(a, k)
  {
  }
}
