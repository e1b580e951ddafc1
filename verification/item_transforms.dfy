/** WithItemTransforms: the transforms a Collection (and a Scope) shares over
    its items. Filter lives with the Collection operations; forget is
    offsetUnset. */
module ItemTransforms {
  import opened Exceptions
  import opened PhpValues
  import opened PhpArrays
  import Collections

  // ----------------------------------------------------------------- chunk

  /** The chunks laid end to end. */
  function Flatten(chunks: seq<PArray>): (r: PArray)
    decreases |chunks|
  {
    if |chunks| == 0 then [] else chunks[0] + Flatten(chunks[1..])
  }

  /** chunk(size): array_chunk with keys preserved. A size below 1 makes
      array_chunk return null, which iterates as no chunk at all. */
  function Chunk(items: PArray, size: int): (r: seq<PArray>)
    ensures size < 1 ==> r == []
    ensures size >= 1 ==> Flatten(r) == items
    ensures forall i :: 0 <= i < |r| ==> 0 < |r[i]| <= size
    ensures forall i :: 0 <= i < |r| - 1 ==> |r[i]| == size
    decreases |items|
  {
    if size < 1 || |items| == 0 then []
    else if |items| <= size then
      assert Flatten([items]) == items + Flatten([]);
      [items]
    else
      var rest := Chunk(items[size..], size);
      assert Flatten([items[..size]] + rest) == items[..size] + Flatten(rest) by {
        assert ([items[..size]] + rest)[1..] == rest;
      }
      assert items[..size] + items[size..] == items;
      [items[..size]] + rest
  }

  /** The example of the collection tests: five items in chunks of two. */
  lemma {:induction false} ChunkExample()
    ensures var items := ListOf([VInt(1), VInt(2), VInt(3), VInt(4), VInt(5)]);
      Chunk(items, 2) == [items[..2], items[2..4], items[4..]]
  {
    var items := ListOf([VInt(1), VInt(2), VInt(3), VInt(4), VInt(5)]);
    assert items[2..][..2] == items[2..4];
    assert items[2..][2..] == items[4..];
  }

  // ------------------------------------------------------------------ each

  /** each(callback): call the callback on (key, item) in order and stop after
      the first call that returns false. The collection itself comes back
      unchanged; the result here is the number of calls made. */
  method Each(items: PArray, f: (Key, Value) -> Value) returns (calls: nat)
    ensures calls <= |items|
    ensures forall i :: 0 <= i < calls - 1 ==> f(items[i].key, items[i].value) != VBool(false)
    ensures calls < |items| ==> calls > 0 && f(items[calls - 1].key, items[calls - 1].value) == VBool(false)
    ensures |items| > 0 ==> calls > 0
  {
    calls := 0;
    while calls < |items|
      invariant calls <= |items|
      invariant forall i :: 0 <= i < calls ==> f(items[i].key, items[i].value) != VBool(false)
    {
      var result := f(items[calls].key, items[calls].value);
      calls := calls + 1;
      if result == VBool(false) {
        return;
      }
    }
  }

  // ----------------------------------------------------------------- every

  /** PHP's `%` truncates toward zero, so for a non-negative position the
      sign of the step does not matter. */
  function PhpMod(position: nat, step: int): (r: nat)
    requires step != 0
    ensures r < if step < 0 then -step else step
  {
    position % (if step < 0 then -step else step)
  }

  /** The values at the positions `p` of `items` with p % step == offset, in order. */
  function Kept(items: PArray, step: int, offset: int): (r: seq<Value>)
    requires step != 0
    ensures |r| <= |items|
    ensures multiset(r) <= multiset(Vals(items))
    decreases |items|
  {
    if |items| == 0 then []
    else
      var n := |items| - 1;
      var rest := Kept(items[..n], step, offset);
      assert Vals(items) == Vals(items[..n]) + [items[n].value];
      if PhpMod(n, step) == offset then rest + [items[n].value] else rest
  }

  /** every(step, offset): walk the items counting positions from 0 and append
      the item at every position whose remainder is `offset`. A step of 0 is
      a modulo by zero at the first item; with no items nothing is divided. */
  method Every(items: PArray, step: int, offset: int) returns (r: Result<PArray>)
    ensures r.Throw? <==> step == 0 && |items| > 0
    ensures r.Throw? ==> r.exception == DivisionByZeroError("Modulo by zero")
    ensures step == 0 && |items| == 0 ==> r == Ok([])
    ensures step != 0 ==> r == Ok(ListOf(Kept(items, step, offset)))
  {
    if step == 0 {
      if |items| > 0 {
        return Throw(DivisionByZeroError("Modulo by zero"));
      }
      return Ok([]);
    }
    var picked: PArray := [];
    var position := 0;
    while position < |items|
      invariant position <= |items|
      invariant picked == ListOf(Kept(items[..position], step, offset))
    {
      assert items[..position + 1][..position] == items[..position];
      if PhpMod(position, step) == offset {
        PushList(picked, items[position].value);
        picked := Push(picked, items[position].value);
      }
      position := position + 1;
    }
    assert items[..position] == items;
    return Ok(picked);
  }

  /** The values at positions o, o + s, o + 2s, ... of `vs`: an independent
      forward description of what every() picks. */
  function Strided(vs: seq<Value>, s: nat, o: nat): (r: seq<Value>)
    requires s > 0
    ensures |r| <= if o < |vs| then |vs| - o else 0
    decreases |vs| - o
  {
    if o >= |vs| then [] else [vs[o]] + Strided(vs, s, o + s)
  }

  /** Appending a value extends the strided picks exactly when the new
      position lies on the stride. */
  lemma {:induction false} StridedSnoc(vs: seq<Value>, x: Value, s: nat, o: nat)
    requires s > 0
    ensures Strided(vs + [x], s, o) ==
      Strided(vs, s, o) + (if o <= |vs| && (|vs| - o) % s == 0 then [x] else [])
    decreases |vs| - o
  {
    var ws := vs + [x];
    if o < |vs| {
      StridedSnoc(vs, x, s, o + s);
      assert ws[o] == vs[o];
      if o + s <= |vs| {
        assert (|vs| - o) % s == (|vs| - (o + s)) % s by { ModMinusStep(|vs| - o, s); }
      } else {
        assert 0 < |vs| - o < s;
      }
    }
  }

  /** Euclidean division is unique. */
  lemma ModUnique(n: int, s: int, q: int, r: int)
    requires s > 0 && 0 <= r < s && n == q * s + r
    ensures n % s == r && n / s == q
  {
    var q0, r0 := n / s, n % s;
    assert n == q0 * s + r0;
    assert (q - q0) * s == r0 - r;
    if q > q0 {
      MulNonneg(q - q0 - 1, s);
    } else if q < q0 {
      MulNonneg(q0 - q - 1, s);
    }
  }

  lemma ModMinusStep(n: nat, s: nat)
    requires s > 0 && n >= s
    ensures n % s == (n - s) % s
  {
    var q, r := (n - s) / s, (n - s) % s;
    assert n - s == q * s + r;
    assert n == (q + 1) * s + r;
    ModUnique(n, s, q + 1, r);
  }

  /** For an offset below the step, lying on the stride from the offset is
      having remainder `offset`. */
  lemma ModOffset(n: nat, s: nat, o: nat)
    requires 0 <= o < s
    ensures (o <= n && (n - o) % s == 0) <==> n % s == o
  {
    if o <= n && (n - o) % s == 0 {
      var k := (n - o) / s;
      assert n - o == k * s + 0;
      ModUnique(n, s, k, o);
    }
    if n % s == o {
      var q := n / s;
      assert n == q * s + o;
      assert o <= n by { MulNonneg(q, s); }
      ModUnique(n - o, s, q, 0);
    }
  }

  /** every(step, offset) with 0 <= offset < |step| picks the values at
      positions offset, offset + |step|, offset + 2|step|, ... */
  lemma {:induction false} KeptIsStrided(items: PArray, step: int, offset: int)
    requires step != 0 && 0 <= offset < (if step < 0 then -step else step)
    ensures Kept(items, step, offset) == Strided(Vals(items), if step < 0 then -step else step, offset)
    decreases |items|
  {
    var s := if step < 0 then -step else step;
    if |items| > 0 {
      var n := |items| - 1;
      var init, x := items[..n], items[n].value;
      KeptIsStrided(init, step, offset);
      ValsSnoc(items);
      StridedSnocAt(Vals(init), x, s, offset);
      KeptLast(items, step, offset);
    }
  }

  /** StridedSnoc with the stride test written as a remainder. */
  lemma {:induction false} StridedSnocAt(vs: seq<Value>, x: Value, s: nat, o: nat)
    requires 0 <= o < s
    ensures Strided(vs + [x], s, o) == Strided(vs, s, o) + (if |vs| % s == o then [x] else [])
  {
    StridedSnoc(vs, x, s, o);
    ModOffset(|vs|, s, o);
  }

  lemma {:induction false} KeptLast(items: PArray, step: int, offset: int)
    requires step != 0 && |items| > 0
    ensures var n := |items| - 1;
      Kept(items, step, offset) ==
      Kept(items[..n], step, offset) + (if PhpMod(n, step) == offset then [items[n].value] else [])
  {
  }

  /** every(1) keeps every value, re-keyed 0..n-1. */
  lemma {:induction false} KeptStepOne(items: PArray)
    ensures Kept(items, 1, 0) == Vals(items)
    decreases |items|
  {
    if |items| > 0 {
      KeptStepOne(items[..|items| - 1]);
      assert Vals(items) == Vals(items[..|items| - 1]) + [items[|items| - 1].value];
    }
  }

  /** An offset that no remainder can equal keeps nothing. */
  lemma {:induction false} KeptOffsetOutOfRange(items: PArray, step: int, offset: int)
    requires step != 0
    requires offset < 0 || offset >= (if step < 0 then -step else step)
    ensures Kept(items, step, offset) == []
    decreases |items|
  {
    if |items| > 0 {
      KeptOffsetOutOfRange(items[..|items| - 1], step, offset);
    }
  }

  /** every(2) of ["a" => 1, "b" => 2, "c" => 3] is [1, 3]. */
  lemma {:induction false} EveryExample()
    ensures Kept([Entry(StrKey("a"), VInt(1)), Entry(StrKey("b"), VInt(2)), Entry(StrKey("c"), VInt(3))], 2, 0)
      == [VInt(1), VInt(3)]
  {
    var items := [Entry(StrKey("a"), VInt(1)), Entry(StrKey("b"), VInt(2)), Entry(StrKey("c"), VInt(3))];
    assert items[..2][..1] == [items[0]];
    assert Kept(items[..1], 2, 0) == [VInt(1)] by {
      assert items[..1][..0] == [];
    }
  }

  // ------------------------------------------------------------------ flip

  /** The key a value becomes under array_flip, when it can be one. */
  function ValueAsKey(v: Value): (r: Option<Key>)
    ensures r.Some? <==> v.VInt? || v.VStr?
  {
    match v
    case VInt(i) => Some(IntKey(i))
    case VStr(s) => Some(StrKey(s))
    case _ => None
  }

  /** The value a key becomes under array_flip. */
  function KeyAsValue(k: Key): (v: Value)
    ensures ValueAsKey(v) == Some(k)
  {
    match k
    case IntKey(i) => VInt(i)
    case StrKey(s) => VStr(s)
  }

  /** flip(): array_flip. Each integer or string value becomes a key holding
      the original key; a later equal value overwrites an earlier one; other
      values are skipped (PHP warns "Can only flip STRING and INTEGER values!"). */
  function Flip(items: PArray): (r: PArray)
    ensures DistinctKeys(r) && |r| <= |items|
    decreases |items|
  {
    if |items| == 0 then []
    else
      var n := |items| - 1;
      var rest := Flip(items[..n]);
      match ValueAsKey(items[n].value)
      case Some(k) =>
        assert HasKey(rest, k) ==> |Assign(rest, k, KeyAsValue(items[n].key))| == |rest|;
        Assign(rest, k, KeyAsValue(items[n].key))
      case None => rest
  }

  /** Every value is an integer or a string. */
  predicate Flippable(items: PArray) {
    forall i :: 0 <= i < |items| ==> ValueAsKey(items[i].value).Some?
  }

  /** The entries with key and value swapped. */
  function Swapped(items: PArray): (r: PArray)
    requires Flippable(items)
    ensures |r| == |items|
    ensures forall i :: 0 <= i < |items| ==>
      r[i] == Entry(ValueAsKey(items[i].value).value, KeyAsValue(items[i].key))
  {
    seq(|items|, i requires 0 <= i < |items| =>
      Entry(ValueAsKey(items[i].value).value, KeyAsValue(items[i].key)))
  }

  /** With distinct integer and string values, array_flip swaps each pair in place. */
  lemma {:induction false} FlipSwaps(items: PArray)
    requires Flippable(items) && DistinctValues(items)
    ensures Flip(items) == Swapped(items)
    decreases |items|
  {
    if |items| > 0 {
      var n := |items| - 1;
      var init := items[..n];
      var e := Entry(ValueAsKey(items[n].value).value, KeyAsValue(items[n].key));
      SwappedSnoc(items);
      FlipSwaps(init);
      assert Flip(items) == Assign(Swapped(init), e.key, e.value);
    }
  }

  /** Swapping the entries of a non-empty array swaps its prefix and appends
      the swapped last entry, whose key is new when the values are distinct. */
  lemma {:induction false} SwappedSnoc(items: PArray)
    requires Flippable(items) && DistinctValues(items) && |items| > 0
    ensures var n := |items| - 1;
      Flippable(items[..n]) && DistinctValues(items[..n]) &&
      var k := ValueAsKey(items[n].value).value;
      !HasKey(Swapped(items[..n]), k) &&
      Swapped(items) == Swapped(items[..n]) + [Entry(k, KeyAsValue(items[n].key))]
  {
    var n := |items| - 1;
    var init := items[..n];
    assert forall i :: 0 <= i < n ==> init[i] == items[i];
    var k := ValueAsKey(items[n].value).value;
    forall i | 0 <= i < n
      ensures Swapped(init)[i].key != k
    {
      assert items[i].value != items[n].value;
    }
    assert Swapped(items) == Swapped(init) + [Entry(k, KeyAsValue(items[n].key))];
  }

  /** flip is an involution on arrays of distinct integer and string values. */
  lemma {:induction false} FlipInvolution(items: PArray)
    requires DistinctKeys(items) && Flippable(items) && DistinctValues(items)
    ensures Flip(Flip(items)) == items
  {
    FlipSwaps(items);
    SwapTwice(items);
    FlipSwaps(Swapped(items));
  }

  /** Swapping is its own inverse, and distinct keys become distinct values. */
  lemma {:induction false} SwapTwice(items: PArray)
    requires DistinctKeys(items) && Flippable(items)
    ensures Flippable(Swapped(items)) && DistinctValues(Swapped(items))
    ensures Swapped(Swapped(items)) == items
  {
    var s := Swapped(items);
    assert Flippable(s);
    forall i, j | 0 <= i < j < |s|
      ensures s[i].value != s[j].value
    {
      assert ValueAsKey(s[i].value) == Some(items[i].key);
      assert ValueAsKey(s[j].value) == Some(items[j].key);
    }
    forall i | 0 <= i < |items|
      ensures Swapped(s)[i] == items[i]
    {
      var v := items[i].value;
      assert KeyAsValue(ValueAsKey(v).value) == v;
    }
  }

  /** flip() of ["a" => 1, "b" => 2, "c" => 3] is [1 => "a", 2 => "b", 3 => "c"]. */
  lemma {:induction false} FlipExample()
    ensures Flip([Entry(StrKey("a"), VInt(1)), Entry(StrKey("b"), VInt(2)), Entry(StrKey("c"), VInt(3))]) ==
      [Entry(IntKey(1), VStr("a")), Entry(IntKey(2), VStr("b")), Entry(IntKey(3), VStr("c"))]
  {
    var items := [Entry(StrKey("a"), VInt(1)), Entry(StrKey("b"), VInt(2)), Entry(StrKey("c"), VInt(3))];
    FlipSwaps(items);
  }

  // ---------------------------------------------------------------- forget

  /** forget(key): offsetUnset, so the key is gone and everything else stays. */
  function Forget(items: PArray, k: Key): (r: PArray)
    requires DistinctKeys(items)
    ensures !HasKey(r, k) && DistinctKeys(r)
    ensures forall k' :: k' != k ==> Lookup(r, k') == Lookup(items, k')
  {
    Collections.OffsetUnset(items, k)
  }

  // -------------------------------------------------------------- collapse

  /** array_collapse: array_merge each element into the result in turn.
      array_merge returns null for a non-array argument, and null stays null. */
  function ArrayCollapse(nested: PArray): (r: Option<PArray>)
    ensures r.None? <==> exists i :: 0 <= i < |nested| && !nested[i].value.VArr?
  {
    CollapseInto([], nested)
  }

  function CollapseInto(acc: PArray, xs: PArray): (r: Option<PArray>)
    ensures r.None? <==> exists i :: 0 <= i < |xs| && !xs[i].value.VArr?
    decreases |xs|
  {
    if |xs| == 0 then Some(acc)
    else
      assert forall i :: 0 < i < |xs| ==> xs[i] == xs[1..][i - 1];
      match xs[0].value
      case VArr(vs) => CollapseInto(ArrayMerge(acc, vs), xs[1..])
      case _ => None
  }

  /** collapse(): a new collection of the collapsed array; null converts to
      the empty array. */
  function Collapse(items: PArray): (r: PArray)
    ensures ArrayCollapse(items).Some? ==> r == ArrayCollapse(items).value
    ensures ArrayCollapse(items).None? ==> r == []
  {
    match ArrayCollapse(items)
    case Some(a) => a
    case None => []
  }

  /** The lists inside `xs`, laid end to end. */
  function ConcatValues(xs: PArray): seq<Value>
    requires forall i :: 0 <= i < |xs| ==> xs[i].value.VArr?
    decreases |xs|
  {
    if |xs| == 0 then [] else Vals(xs[0].value.entries) + ConcatValues(xs[1..])
  }

  /** Collapsing lists concatenates their values into one list. */
  lemma {:induction false} CollapseLists(acc: PArray, xs: PArray)
    requires IsList(acc)
    requires forall i :: 0 <= i < |xs| ==> xs[i].value.VArr? && IsList(xs[i].value.entries)
    ensures CollapseInto(acc, xs) == Some(ListOf(Vals(acc) + ConcatValues(xs)))
    decreases |xs|
  {
    if |xs| == 0 {
      assert Vals(acc) + ConcatValues(xs) == Vals(acc);
      IsListIffSelfValues(acc);
    } else {
      var vs, rest := xs[0].value.entries, xs[1..];
      var merged := ArrayMerge(acc, vs);
      var a, b, c := Vals(acc), Vals(vs), ConcatValues(rest);
      CollapseStep(acc, xs);
      MergeLists(acc, vs);
      assert Vals(merged) == a + b;
      CollapseLists(merged, rest);
      assert ConcatValues(xs) == b + c;
      ValuesAssoc(a, b, c);
    }
  }

  lemma {:induction false} ValuesAssoc(a: seq<Value>, b: seq<Value>, c: seq<Value>)
    ensures (a + b) + c == a + (b + c)
  {
  }

  /** One step of collapsing a sequence of lists. */
  lemma {:induction false} CollapseStep(acc: PArray, xs: PArray)
    requires |xs| > 0
    requires forall i :: 0 <= i < |xs| ==> xs[i].value.VArr? && IsList(xs[i].value.entries)
    ensures CollapseInto(acc, xs) == CollapseInto(ArrayMerge(acc, xs[0].value.entries), xs[1..])
    ensures forall i :: 0 <= i < |xs[1..]| ==> xs[1..][i].value.VArr? && IsList(xs[1..][i].value.entries)
    ensures ConcatValues(xs) == Vals(xs[0].value.entries) + ConcatValues(xs[1..])
  {
  }

  /** array_collapse([[1, 2, 3], [4, 5, 6], [7, 8, 9]]) is [1, ..., 9]. */
  lemma {:induction false} CollapseExample()
    ensures var xs := ListOf([
      VArr(ListOf([VInt(1), VInt(2), VInt(3)])),
      VArr(ListOf([VInt(4), VInt(5), VInt(6)])),
      VArr(ListOf([VInt(7), VInt(8), VInt(9)]))]);
      Collapse(xs) ==
      ListOf([VInt(1), VInt(2), VInt(3), VInt(4), VInt(5), VInt(6), VInt(7), VInt(8), VInt(9)])
  {
    CollapseThree([VInt(1), VInt(2), VInt(3)], [VInt(4), VInt(5), VInt(6)], [VInt(7), VInt(8), VInt(9)]);
    OneToNine();
  }

  /** Collapsing three lists gives the list of their values one after another. */
  lemma {:induction false} CollapseThree(a: seq<Value>, b: seq<Value>, c: seq<Value>)
    ensures Collapse(ListOf([VArr(ListOf(a)), VArr(ListOf(b)), VArr(ListOf(c))])) == ListOf(a + b + c)
  {
    var xs := ListOf([VArr(ListOf(a)), VArr(ListOf(b)), VArr(ListOf(c))]);
    CollapseLists([], xs);
    ConcatThree(a, b, c);
    assert Vals([]) + (a + b + c) == a + b + c;
  }

  /** Three lists, collapsed, give their values one after another. */
  lemma {:induction false} ConcatThree(a: seq<Value>, b: seq<Value>, c: seq<Value>)
    ensures ConcatValues(ListOf([VArr(ListOf(a)), VArr(ListOf(b)), VArr(ListOf(c))])) == a + b + c
  {
    var xs := ListOf([VArr(ListOf(a)), VArr(ListOf(b)), VArr(ListOf(c))]);
    assert ConcatValues(xs[2..]) == c by {
      assert xs[2..][1..] == [];
    }
    assert ConcatValues(xs[1..]) == b + c by {
      assert xs[1..][1..] == xs[2..];
    }
    assert ConcatValues(xs) == a + (b + c);
  }

  lemma {:induction false} OneToNine()
    ensures [VInt(1), VInt(2), VInt(3)] + [VInt(4), VInt(5), VInt(6)] + [VInt(7), VInt(8), VInt(9)] ==
      [VInt(1), VInt(2), VInt(3), VInt(4), VInt(5), VInt(6), VInt(7), VInt(8), VInt(9)]
  {
  }
}
