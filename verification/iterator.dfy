/** WithIterator: foreach over a structure walks the internal pointer of its
    items array. The pointer is modelled as a position; past the end,
    key() is null and current() is false. */
module Iterators {
  import opened PhpValues
  import opened PhpArrays

  datatype Cursor = Cursor(items: PArray, pos: nat)

  /** reset(): back to the first entry. */
  function Rewind(c: Cursor): (r: Cursor)
    ensures r.items == c.items && r.pos == 0
  {
    Cursor(c.items, 0)
  }

  /** next(): one entry on; a pointer already past the end stays there. */
  function Next(c: Cursor): (r: Cursor)
    ensures r.items == c.items
    ensures c.pos < |c.items| ==> r.pos == c.pos + 1
    ensures c.pos >= |c.items| ==> r.pos == c.pos
  {
    if c.pos < |c.items| then Cursor(c.items, c.pos + 1) else c
  }

  /** key(): the key under the pointer, or null (None) past the end. */
  function Key(c: Cursor): (r: Option<Key>)
    ensures r.Some? <==> c.pos < |c.items|
    ensures r.Some? ==> r.value == c.items[c.pos].key
  {
    if c.pos < |c.items| then Some(c.items[c.pos].key) else None
  }

  /** current(): the value under the pointer, or false past the end. */
  function Current(c: Cursor): (r: Value)
    ensures c.pos < |c.items| ==> r == c.items[c.pos].value
    ensures c.pos >= |c.items| ==> r == VBool(false)
  {
    if c.pos < |c.items| then c.items[c.pos].value else VBool(false)
  }

  /** isset on an entry: the key is present and holds a non-null value.
      A null key indexes the array with "" (PHP converts null to the empty string). */
  predicate IssetAt(items: PArray, k: Option<Key>) {
    var key := match k case Some(x) => x case None => StrKey("");
    Lookup(items, key).Some? && Lookup(items, key).value != VNull
  }

  /** valid() as written: isset on the entry under the current key. */
  predicate ValidAsWritten(c: Cursor) {
    IssetAt(c.items, Key(c))
  }

  /** valid() as the iterator protocol means it: the pointer is on an entry. */
  predicate Valid(c: Cursor) {
    c.pos < |c.items|
  }

  /** The cursor after `n` calls to next() from a rewind. */
  function Advance(c: Cursor, n: nat): (r: Cursor)
    ensures r.items == c.items
    ensures r.pos == if c.pos + n <= |c.items| then c.pos + n else if c.pos <= |c.items| then |c.items| else c.pos
  {
    if n == 0 then c else Next(Advance(c, n - 1))
  }

  /** With the corrected valid(), a foreach from rewind visits every entry in
      order and stops exactly after the last one. */
  lemma {:induction false} ForeachVisitsAll(items: PArray, n: nat)
    ensures var c := Advance(Rewind(Cursor(items, 0)), n);
      (Valid(c) <==> n < |items|) &&
      (n < |items| ==> Key(c) == Some(items[n].key) && Current(c) == items[n].value)
  {
    var c := Advance(Rewind(Cursor(items, 0)), n);
    assert c.items == items && c.pos == if n <= |items| then n else |items|;
  }

  /** On an entry whose value is non-null, valid() as written agrees with the
      protocol. */
  lemma {:induction false} ValidAsWrittenOnNonNull(c: Cursor)
    requires DistinctKeys(c.items)
    requires c.pos < |c.items| && c.items[c.pos].value != VNull
    ensures ValidAsWritten(c) && Valid(c)
  {
    LookupAt(c.items, c.pos);
  }

  /** valid() as written stops early at an entry holding null. */
  lemma {:induction false} ValidAsWrittenStopsAtNull(c: Cursor)
    requires DistinctKeys(c.items)
    requires c.pos < |c.items| && c.items[c.pos].value == VNull
    ensures !ValidAsWritten(c) && Valid(c)
  {
    LookupAt(c.items, c.pos);
  }

  /** The list [1, null, 3]: foreach as written visits one entry of three. */
  lemma {:induction false} NullStopsForeach()
    ensures var items := [Entry(IntKey(0), VInt(1)), Entry(IntKey(1), VNull), Entry(IntKey(2), VInt(3))];
      var c := Next(Rewind(Cursor(items, 0)));
      !ValidAsWritten(c) && Valid(c)
  {
    var items := [Entry(IntKey(0), VInt(1)), Entry(IntKey(1), VNull), Entry(IntKey(2), VInt(3))];
    ValidAsWrittenStopsAtNull(Cursor(items, 1));
  }

  /** Past the end, valid() as written tests the key "": when the structure
      holds a non-null value under "", it stays true however often next() is
      called, so the iteration does not stop at the end. */
  lemma {:induction false} EmptyStringKeyPastEnd(items: PArray, n: nat)
    requires Lookup(items, StrKey("")).Some? && Lookup(items, StrKey("")).value != VNull
    requires n >= |items|
    ensures ValidAsWritten(Advance(Rewind(Cursor(items, 0)), n))
    ensures !Valid(Advance(Rewind(Cursor(items, 0)), n))
  {
  }

  /** The dictionary ["" => 1]: foreach as written never ends. */
  lemma {:induction false} EmptyStringKeyNeverEnds(n: nat)
    ensures ValidAsWritten(Advance(Rewind(Cursor([Entry(StrKey(""), VInt(1))], 0)), n))
  {
    var items := [Entry(StrKey(""), VInt(1))];
    LookupAt(items, 0);
    if n >= 1 {
      EmptyStringKeyPastEnd(items, n);
    }
  }
}
