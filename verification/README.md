# NineCollections in Dafny

A model of the pure core of the PHP library NineCollections. The library offers:

- five immutable value structures: `Dictionary`, `SortedDictionary`, `Set`, `OrderedList` and `UnorderedList`, with their shared traits;
- the `Collection` class and its item transforms;
- the small containers `Attributes`, `Scope` and `Repository`, with the item array-access trait;
- the string helpers `w`, `tuples`, `throw_if` and `throw_if_not`.

A PHP array is an ordered sequence of key/value entries (`PhpValues.Entry`). A key is an integer or a string. A value is null, a bool, an int, a string, a nested array or a structure object. Array built-ins are pure functions in `PhpArrays`:

- assignment, `unset`, `array_push`, `array_unshift`, `array_merge`, `array_values`, `array_unique` and `array_splice`;
- the next free integer index, which is `1 + max int key`, or 0 when there is none.

Exceptions are the error side of `Exceptions.Result`. Each exception carries the exact class and message the source raises.

A structure mutator returns `Structures.Outcome`:

- `Same` means the receiver itself came back;
- `Changed(items)` means a new validated copy.

This keeps the source's short-circuits observable: a mutator that finds nothing to change hands back the receiver. Values, structure objects included, are compared by content (see Left out). Callbacks are Dafny function values. PHP 7 semantics are used where versions differ. For example, an `: array` return of null raises a `TypeError`.

Modules follow the source layout:

| module | source |
|---|---|
| `Exceptions`, `PhpValues`, `PhpArrays`, `Ordering` | PHP semantics the code relies on |
| `Structures` | the structure traits |
| `Dictionaries`, `SortedDictionaries`, `Sets`, `OrderedLists`, `UnorderedLists` | the structure classes |
| `Iterators` | `WithIterator` |
| `Collections`, `CollectionTransforms` | `Collection.php` |
| `ItemTransforms` | `WithItemTransforms` |
| `ItemArrayAccess` | `WithItemArrayAccess` |
| `AttributeBags` | `Attributes` with `WithImmutability` |
| `Scopes` | `Scope` |
| `Repositories` | `Repository` |
| `Helpers` | `helpers.php` |

## Model

| member | source | states |
|---|---|---|
| Structures.AssertValid | src/Structure/src/Dictionary.php:65-79 | a batch passes iff it is empty, or it is a list (keys 0..n-1 in order) for the list kinds and not a list for the dictionary kinds; a failure is a ValidationException with the kind's message |
| Structures.DictionaryRuleComplementsListRule | src/Structure/src/Set.php:96-107 | for a non-empty batch the dictionary rule accepts exactly what the list rule (Set, OrderedList, UnorderedList) rejects |
| Structures.KeysOfValuesIffList | src/Structure/src/OrderedList.php:57-68 | comparing a batch's keys with those of its array_values, as the list check does, holds exactly when the batch is a list |
| Structures.SingletonListValid | src/Structure/src/UnorderedList.php:54-65 | a one-element batch keyed 0 passes every list kind's validation |
| Structures.Construct | src/Structure/src/Traits/WithStructure.php:19-23 | construction succeeds iff the input is valid for the kind; it then stores exactly the input, unsorted and not deduplicated; otherwise ValidationException and no instance |
| Structures.ConstructEmpty | src/Structure/src/Traits/WithStructure.php:17-23 | the default empty construction always succeeds, for every kind |
| Structures.Apply | src/Structure/src/Dictionary.php:25-37 | a short-circuit gives back the receiver itself; a change gives a same-kind instance holding the new items |
| Structures.Serialize | src/Structure/src/Traits/WithSerializable.php:7-10 | only the items are encoded |
| Structures.Unserialize | src/Structure/src/Traits/WithSerializable.php:12-17 | decoding re-validates: it succeeds iff the items are valid, and on failure raises ValidationException and assigns nothing |
| Structures.SerializeRoundTrip | src/Structure/src/Traits/WithSerializable.php:7-17 | unserialize(serialize(s)) restores s whenever s's items are valid |
| Structures.SerializeRejectsInvalid | src/Structure/src/Traits/WithSerializable.php:14-16 | a structure whose items are not valid for its kind cannot survive the round trip |
| Structures.ToArrayValue | src/Structure/src/Traits/WithStructureToArray.php:7-19 | a non-structure value is unchanged; a nested structure becomes an array with the same keys and length; the result itself is never a structure |
| Structures.ToArray | src/Structure/src/Traits/WithStructureToArray.php:7-19 | toArray keeps the keys in order and the length; each value is converted recursively |
| Structures.ToArrayIdempotent | src/Structure/src/Traits/WithStructureToArray.php:9-18 | converting an already converted array again changes nothing |
| Structures.Count | src/Structure/src/Traits/withCountable.php:5-8 | count is the length of toArray |
| Structures.JsonSerialize | src/Structure/src/Traits/WithJsonSerializable.php:5-8 | jsonSerialize keeps the keys, and no top-level value is a structure |
| Structures.IsSimilarClasses | src/Structure/src/Traits/WithIsSimilar.php:7-10 | isSimilar is reflexive and symmetric; it holds for the same class, and Dictionary and SortedDictionary count as similar to each other |
| Structures.OffsetExists | src/Structure/src/Traits/WithArrayAccess.php:7-10 | isset: true iff the key is present with a non-null value |
| Structures.OffsetGet | src/Structure/src/Traits/WithArrayAccess.php:12-15 | a present key yields its value; a missing key yields null |
| Structures.OffsetSet | src/Structure/src/Traits/WithArrayAccess.php:17-22 | any write raises ImmutableException with the class's message, whatever the arguments |
| Structures.OffsetUnset | src/Structure/src/Traits/WithArrayAccess.php:24-29 | any unset raises ImmutableException |
| Dictionaries.GetValue | src/Structure/src/Dictionary.php:11-18 | the stored value for a present key, the default only when the key is absent |
| Dictionaries.WithValue | src/Structure/src/Dictionary.php:25-37 | the receiver iff the key already holds an identical value; else ValidationException iff the key is 0; else a copy where the key maps to v and every other key is unchanged |
| Dictionaries.WithValues | src/Structure/src/Dictionary.php:39-51 | the receiver iff the batch is identical to the items; else the batch is validated and becomes the items of the copy |
| Dictionaries.WithoutValue | src/Structure/src/Dictionary.php:53-63 | the receiver iff the key is absent; else a copy lacking the key with the other pairs in order |
| Dictionaries.WithValueThenWithout | src/Structure/src/Dictionary.php:25-63 | adding a fresh non-zero key and removing it again gives back the original items |
| Dictionaries.WithValueKeepsValid | src/Structure/src/Dictionary.php:31-36 | a copy made by withValue passes the dictionary validation again |
| Dictionaries.WithValueZeroThrows | src/Structure/src/Dictionary.php:27-32 | withValue(0, v) raises unless key 0 already holds v |
| Dictionaries.WithoutValueCanLeaveList | src/Structure/src/Dictionary.php:53-63 | removing a key is not re-validated: a valid dictionary can become a list |
| SortedDictionaries.SortChanged | src/Structure/src/SortedDictionary.php:46-53 | a short-circuit is passed through unsorted; a new copy is a permutation of its entries ordered by value |
| SortedDictionaries.SortResult | src/Structure/src/SortedDictionary.php:5-27 | an exception from the parent propagates unchanged, and no copy is made |
| Ordering.SortEntries | src/Structure/src/SortedDictionary.php:34-37 | asort: a permutation of the key/value pairs, ascending by value |
| SortedDictionaries.WithValue | src/Structure/src/SortedDictionary.php:5-11 | the Dictionary result, with a new copy holding exactly the same pairs ordered by value, including the written pair; receiver and exceptions pass through |
| SortedDictionaries.WithValues | src/Structure/src/SortedDictionary.php:13-19 | the receiver iff the batch is identical; else the validated batch, sorted by value with keys attached |
| SortedDictionaries.WithoutValue | src/Structure/src/SortedDictionary.php:21-27 | the receiver iff the key is absent; else the remaining pairs, sorted by value |
| SortedDictionaries.ConstructionDoesNotSort | src/Structure/src/Traits/WithStructure.php:19-23 | a valid unsorted dictionary is stored unsorted by the constructor |
| PhpArrays.InArray | src/Structure/src/Set.php:11-14 | hasValue of Set, and likewise of OrderedList and UnorderedList: true iff some value is identical to v |
| Sets.WithValue | src/Structure/src/Set.php:16-28 | the receiver iff v is present; else v becomes the last value, and a duplicate-free list stays a duplicate-free list |
| Sets.WithValueAfterAsWritten | src/Structure/src/Set.php:30-49 | as written: the receiver iff v is present; else `(array) v` is spliced in at the search value's key plus one, taken as a position, or v is appended when the search value is absent |
| Sets.WithValueBeforeAsWritten | src/Structure/src/Set.php:51-70 | as written: the receiver iff v is present; else `(array) v` is spliced in at the search value's key taken as a position, or v is put first when the search value is absent |
| Sets.WithValueAfter | src/Structure/src/Set.php:30-49 | intended (see ## Findings): the receiver iff v is present; else a list whose values are the old values, in order, with v inserted right after the first occurrence of the search value, or appended when it is absent; nothing else moves |
| Sets.WithValueBefore | src/Structure/src/Set.php:51-70 | intended (see ## Findings): the receiver iff v is present; else a list whose values are the old values, in order, with v inserted right before the first occurrence of the search value, or first when it is absent; nothing else moves |
| Sets.WithValueAfterAgreesOnScalars | src/Structure/src/Set.php:44-47 | for a scalar v the code's splice and the intended insertion give the same result |
| Sets.WithValueBeforeAgreesOnScalars | src/Structure/src/Set.php:62-67 | the same agreement for withValueBefore |
| Sets.WithValuesAsWritten | src/Structure/src/Set.php:72-80 | as written: validation failure iff the batch is not a list; else the array_unique of the batch, original keys kept |
| Sets.WithValues | src/Structure/src/Set.php:72-80 | intended (see ## Findings): validation failure iff the batch is not a list; else a duplicate-free list with the first occurrence of each value in order, holding exactly the batch's values |
| Sets.WithoutValueAsWritten | src/Structure/src/Set.php:82-94 | as written: the receiver iff v is absent; else the items with the first occurrence unset and the other keys left as they were |
| Sets.WithoutValue | src/Structure/src/Set.php:82-94 | intended (see ## Findings): the receiver iff v is absent; else the values without that occurrence, in order and renumbered, after which v is gone from a duplicate-free set |
| Sets.MutatorsKeepSetValid | src/Structure/src/Set.php:16-107 | on a valid duplicate-free set every corrected mutator gives a valid duplicate-free set |
| Sets.InsertKeepsDistinct | src/Structure/src/Set.php:18-53 | inserting a value that is absent keeps the values distinct |
| OrderedLists.WithValue | src/Structure/src/OrderedList.php:16-25 | always a new list one longer, its multiset is the old one plus v, sorted ascending, duplicates allowed |
| OrderedLists.WithValues | src/Structure/src/OrderedList.php:27-40 | the receiver iff the batch is identical; else ValidationException iff the batch is not a list; else the batch's values sorted as a list |
| OrderedLists.WithoutValue | src/Structure/src/OrderedList.php:42-55 | the receiver iff v is absent; else the multiset minus one v, sorted as a list |
| OrderedLists.WithValueThenWithout | src/Structure/src/OrderedList.php:16-55 | adding a value then removing it gives the sorted original values |
| OrderedLists.MutatorsKeepValid | src/Structure/src/OrderedList.php:70-73 | every new instance from a mutator is a sorted list that passes validation |
| Ordering.SortList | src/Structure/src/OrderedList.php:70-73 | sort: the same multiset of values, ascending, keyed 0..n-1 |
| UnorderedLists.WithValue | src/Structure/src/UnorderedList.php:16-24 | always a new instance with v appended and one more item; a list stays a list |
| UnorderedLists.WithValues | src/Structure/src/UnorderedList.php:26-38 | validation comes first and fails iff the batch is not a list; then the receiver iff identical, else the batch |
| UnorderedLists.WithoutValueAsWritten | src/Structure/src/UnorderedList.php:40-52 | as written: the receiver iff v is absent; else the first occurrence unset and the other keys left as they were |
| UnorderedLists.WithoutValue | src/Structure/src/UnorderedList.php:40-52 | intended (see ## Findings): the receiver iff v is absent; else only the first occurrence is removed, the rest keep their order as a list |
| UnorderedLists.WithValueThenWithout | src/Structure/src/UnorderedList.php:16-52 | appending a fresh value and removing it gives back the original list |
| UnorderedLists.WithoutValueKeepsValid | src/Structure/src/Traits/WithSerializable.php:12-17 | a result of the corrected withoutValue always survives serialisation |
| Iterators.Rewind | src/Structure/src/Traits/WithIterator.php:20-23 | rewind moves to the first entry |
| Iterators.Next | src/Structure/src/Traits/WithIterator.php:15-18 | next advances exactly one entry, and not past the end |
| Iterators.Key | src/Structure/src/Traits/WithIterator.php:10-13 | key is the current entry's key, and null past the end |
| Iterators.Current | src/Structure/src/Traits/WithIterator.php:5-8 | current is the current entry's value, and false past the end |
| Iterators.ValidAsWrittenOnNonNull | src/Structure/src/Traits/WithIterator.php:25-30 | at an entry holding a non-null value the code's valid() is true |
| Iterators.ValidAsWrittenStopsAtNull | src/Structure/src/Traits/WithIterator.php:27-29 | at an entry holding null the code's valid() is false although the entry exists |
| Iterators.ForeachVisitsAll | src/Structure/src/Traits/WithIterator.php:15-30 | under the intended validity a foreach reaches every entry and ends exactly past the last |
| Collections.Count | src/Collection.php:96-99 | the number of distinct keys |
| PhpArrays.KeyExists | src/Collection.php:216-219 | array_key_exists, behind Collection::has, Dictionary::hasValue and the item-access has: true iff some entry has the key, a null-valued one included |
| Collections.Get | src/Collection.php:151-158 | the stored value for a present key, else the default |
| Collections.First | src/Collection.php:121-128 | the first value, or null when empty, ignoring the default |
| Collections.Last | src/Collection.php:310-317 | the last value, or the default when empty |
| Collections.FirstLastEmpty | src/Collection.php:121-128 | with a non-null default, first() and last() disagree on the empty collection |
| Collections.Map | src/Collection.php:339-346 | the same keys in order, with value f(v, k) at each position |
| Collections.MapFusion | src/Collection.php:339-346 | mapping twice equals mapping once with the composed callback |
| Collections.MapIdentity | src/Collection.php:339-346 | mapping with the value-returning callback changes nothing |
| Collections.OffsetSet | src/Collection.php:424-432 | a null key appends v last; an existing key keeps the keys and count and replaces the value; no other key changes |
| Collections.PushValue | src/Collection.php:503-508 | v becomes the last value and the count grows by one |
| Collections.Set | src/Collection.php:518-523 | get(k) returns v afterwards; the count grows by one iff the key was new |
| Collections.OffsetUnset | src/Collection.php:441-444 | the key is gone and every other key keeps its value |
| Collections.Pop | src/Collection.php:464-467 | the last value is returned and removed; null when empty |
| Collections.PushThenPop | src/Collection.php:464-508 | popping right after a push returns the pushed value and the original items |
| Collections.Shift | src/Collection.php:621-624 | the first value is returned and the remaining values keep their order; null when empty |
| Collections.Prepend | src/Collection.php:476-481 | v becomes the first value, and the other values follow in order |
| Collections.PrependThenShift | src/Collection.php:476-481 | shifting after a prepend returns the prepended value and the original values |
| Collections.RandomGuard | src/Collection.php:534-538 | InvalidArgumentException iff more items are requested than the collection holds |
| Collections.Slice | src/Collection.php:648-651 | the array_slice window with keys preserved, negative offsets and lengths counted from the end |
| Collections.Take | src/Collection.php:769-776 | the first n items for n >= 0, the last abs(n) for n < 0 |
| Collections.ForPage | src/Collection.php:138-141 | for p >= 1 and n >= 0, page p of n items is the window from (p - 1) * n of up to n items, clipped to the items; any other page and size go to array_slice as they are, so page 0 takes from the end |
| Collections.PagesTile | src/Collection.php:138-141 | a page followed by everything after it is everything after the previous pages |
| Collections.Reverse | src/Collection.php:587-590 | the entries in reverse order, keys kept |
| Collections.ReverseInvolution | src/Collection.php:587-590 | reversing twice is the identity, and reversing is a permutation |
| Collections.Filter | src/Traits/WithItemTransforms.php:82-89 | exactly the entries whose callback result is truthy, with their original keys |
| Collections.FilterAppend | src/Traits/WithItemTransforms.php:82-89 | array_filter keeps the source order: filtering a concatenation is the concatenation of the filtered parts, and a single entry is kept iff the callback is truthy on it |
| Collections.FilterTruthy | src/Traits/WithItemTransforms.php:88 | with no callback, exactly the entries with a truthy value |
| Collections.FilterTruthyAppend | src/Traits/WithItemTransforms.php:88 | filter() without a callback keeps the source order: it distributes over concatenation, and a single entry is kept iff its value is truthy |
| Collections.FilterTruthyIdentity | src/Traits/WithItemTransforms.php:88 | filter() is the identity on all-truthy items |
| Collections.Reject | src/Collection.php:569-580 | exactly the entries whose callback result is falsy |
| Collections.RejectAppend | src/Collection.php:569-580 | reject keeps the source order: it distributes over concatenation, and a single entry is dropped iff the callback is truthy on it |
| Collections.RejectValue | src/Collection.php:569-580 | reject with a non-callable drops exactly the entries strictly equal to it |
| Collections.RejectValueAppend | src/Collection.php:569-580 | reject(value) keeps the source order: it distributes over concatenation, and a single entry is dropped iff its value is identical to the argument |
| Collections.FilterRejectPartition | src/Collection.php:569-580 | filter and reject with one callback split the entries: their multisets add up to the items |
| CollectionTransforms.SortBy | src/Collection.php:687-706 | a key-preserving permutation ordered by the computed sort key, ascending or descending by the flag |
| CollectionTransforms.SortByKeepsPairs | src/Collection.php:700-703 | every key keeps its value after sortBy |
| CollectionTransforms.SortItems | src/Collection.php:660-676 | a permutation; without a callback ascending by value, with a consistent comparator ordered by it |
| CollectionTransforms.SortItemsKeepsPairs | src/Collection.php:660-676 | uasort/asort keep each key attached to its value |
| CollectionTransforms.GroupBy | src/Collection.php:190-207 | one group per distinct group key, in first-appearance order, each holding exactly the matching items in order, with keys kept only under preserveKeys |
| CollectionTransforms.GroupByPartitions | src/Collection.php:190-207 | every item lands in the group named by its own group key |
| CollectionTransforms.KeyBy | src/Collection.php:279-290 | distinct keys, in first-appearance order of the computed keys |
| CollectionTransforms.KeyByLastWins | src/Collection.php:279-290 | each computed key holds the last item that produced it |
| CollectionTransforms.FirstByIdCorrect | src/Collection.php:826-848 | unique keeps exactly the first entry for each distinct identifier, in order and with keys |
| CollectionTransforms.UniqueBy | src/Collection.php:826-848 | the loop computes exactly the first-by-identifier selection |
| CollectionTransforms.FirstByIdInjective | src/Collection.php:826-848 | when the identifiers are all distinct, unique changes nothing |
| CollectionTransforms.Zip | src/Collection.php:902-916 | as many rows as the longest input, each with one column per input |
| CollectionTransforms.ZipColumns | src/Collection.php:902-916 | row j holds the j-th value of every input, or null where an input is shorter |
| CollectionTransforms.ZipExample | src/Collection.php:902-916 | zip([1, 2, 3], [4, 5, 6]) is [[1, 4], [2, 5], [3, 6]] |
| ItemTransforms.Chunk | src/Traits/WithItemTransforms.php:21-30 | chunks concatenate back to the items with keys; each is non-empty, at most size long, and all but the last exactly size; no chunks for size < 1 |
| ItemTransforms.ChunkExample | tests/src/CollectionTest.php:43-56 | chunking five items by two gives three chunks |
| ItemTransforms.Each | src/Traits/WithItemTransforms.php:39-48 | the callback is called in order and the loop stops right after the first false |
| ItemTransforms.Every | src/Traits/WithItemTransforms.php:58-73 | DivisionByZeroError iff the step is 0 and there is at least one item (no items give an empty result); else the items at positions p with p % step == offset, as a list |
| ItemTransforms.KeptIsStrided | src/Traits/WithItemTransforms.php:58-73 | for an offset in 0 .. abs(step) - 1, every keeps exactly the values at positions offset, offset + abs(step), offset + 2 abs(step), ... in order |
| ItemTransforms.StridedSnoc | src/Traits/WithItemTransforms.php:63-70 | one more item joins the stride exactly when its position is offset plus a multiple of the step |
| ItemTransforms.KeptStepOne | src/Traits/WithItemTransforms.php:58-73 | every(1) keeps all the values |
| ItemTransforms.KeptOffsetOutOfRange | src/Traits/WithItemTransforms.php:58-73 | an offset outside 0 .. abs(step) - 1 keeps nothing |
| ItemTransforms.EveryExample | tests/src/ScopeTest.php:65-68 | every(2) of a:1, b:2, c:3 is [1, 3] |
| ItemTransforms.Flip | src/Traits/WithItemTransforms.php:96-99 | array_flip gives distinct keys and never more entries |
| ItemTransforms.FlipSwaps | src/Traits/WithItemTransforms.php:96-99 | on distinct int/string values, flip swaps each key with its value |
| ItemTransforms.FlipInvolution | src/Traits/WithItemTransforms.php:96-99 | flipping twice gives back such items |
| ItemTransforms.FlipExample | tests/src/ScopeTest.php:83-84 | a:1, b:2, c:3 flips to 1 => a, 2 => b, 3 => c |
| ItemTransforms.Forget | src/Traits/WithItemTransforms.php:108-113 | after forget(k) the key is absent and other keys keep their values |
| ItemTransforms.ArrayCollapse | src/Traits/WithItemTransforms.php:127-137 | fails iff some element is not an array |
| ItemTransforms.Collapse | src/Collection.php:62-65 | the collapsed array, or empty when an element is not an array |
| ItemTransforms.CollapseLists | src/Traits/WithItemTransforms.php:127-137 | collapsing lists concatenates their values in order |
| ItemTransforms.CollapseExample | src/Traits/WithItemTransforms.php:118-137 | collapsing [[1, 2, 3], [4, 5, 6], [7, 8, 9]] gives [1 .. 9] |
| ItemArrayAccess.Arrayable | src/Traits/WithItemArrayAccess.php:187-202 | an array as is, a structure via toArray, null as empty, a scalar wrapped as [0 => v] |
| ItemArrayAccess.MagicSet | src/Traits/WithItemArrayAccess.php:46-49 | __set writes the top-level key directly and leaves the others |
| ItemArrayAccess.Put | src/Traits/WithItemArrayAccess.php:171-178 | a non-string key changes nothing; a string key goes to the path writer |
| ItemArrayAccess.Append | src/Traits/WithItemArrayAccess.php:62-72 | InvalidArgumentException iff the key exists; else the value is written and returned |
| ItemArrayAccess.AppendTwice | src/Traits/WithItemArrayAccess.php:62-72 | appending a fresh string key succeeds, and appending it again raises |
| ItemArrayAccess.Copy | src/Traits/WithItemArrayAccess.php:79-84 | copy is array_merge_recursive into an empty array, which there agrees with array_merge: distinct keys, int keys renumbered, string keys kept |
| ItemArrayAccess.CopyStringKeyed | src/Traits/WithItemArrayAccess.php:79-84 | string-keyed items are copied unchanged |
| ItemArrayAccess.CopyList | src/Traits/WithItemArrayAccess.php:79-84 | a list is copied unchanged |
| AttributeBags.New | src/Attributes.php:28-35 | a truthy argument populates the items through getArrayableItems; a falsy one leaves them unpopulated |
| AttributeBags.MagicGet | src/Attributes.php:43-50 | the value of a present name, else InvalidArgumentException "Attribute 'name' does not exist." |
| AttributeBags.Get | src/Attributes.php:74-77 | the value, or the default when missing, null, or unpopulated |
| AttributeBags.Has | src/Attributes.php:96-99 | key existence, a null value included; falsy on unpopulated items |
| AttributeBags.OffsetExists | src/Attributes.php:106-109 | TypeError iff the items are unpopulated, because the null answer breaks the `: bool` return type; else key existence |
| AttributeBags.OffsetExistsAgreesWithHas | src/Attributes.php:96-109 | on populated items offsetExists agrees with has |
| AttributeBags.OffsetGet | src/Attributes.php:116-119 | the stored value, or null |
| AttributeBags.NullValuedKey | src/Attributes.php:74-119 | on populated items a null-valued key is present for has and offsetExists answers true, yet get returns the default and offsetGet null |
| AttributeBags.Copy | src/Attributes.php:57-62 | TypeError on unpopulated items; else array_merge_recursive of the items into an empty array, which there agrees with array_merge |
| AttributeBags.CopyStringKeyed | src/Attributes.php:57-62 | for string-keyed items copy equals the items |
| AttributeBags.MagicSet | src/Traits/WithImmutability.php:23-29 | ImmutableViolationException unless key and value are both null, which is a no-op |
| AttributeBags.OffsetSet | src/Traits/WithImmutability.php:37-43 | ImmutableViolationException unless key and value are both null, which is a no-op |
| AttributeBags.OffsetUnset | src/Traits/WithImmutability.php:50-56 | ImmutableViolationException "Cannot remove an immutable item." for any non-null key |
| AttributeBags.Set | src/Attributes.php:129-132 | set with a string key always raises, because it routes through offsetSet |
| AttributeBags.SetAttributes | src/Attributes.php:143-152 | succeeds iff the items are unpopulated, storing the arrayable argument; else ImmutableViolationException |
| AttributeBags.SetAttributesOnce | src/Attributes.php:143-152 | a second setAttributes always raises |
| AttributeBags.FalsyConstructionThenSetAttributes | tests/src/AttributesTest.php:131-138 | after a falsy construction, setAttributes populates the items |
| AttributeBags.ToArray | src/Attributes.php:159-167 | TypeError on unpopulated items; else the keys kept and nested structures converted |
| AttributeBags.ToArrayValuesIdempotent | src/Attributes.php:159-167 | converting twice equals converting once |
| Scopes.New | src/Scope.php:37-40 | the items are getArrayableItems of the argument for every argument: an array as it is, null as empty, a scalar as [0 => v], a structure through toArray; no plugins |
| Scopes.Count | src/Scope.php:74-77 | the number of top-level items |
| Scopes.SetItem | src/Scope.php:150-153 | the key holds v afterwards, every other key and the plugins unchanged |
| Scopes.Merge | src/Scope.php:122-125 | array_merge of the items and the arrayable argument |
| Scopes.MergeStringKeys | tests/src/ScopeTest.php:119-123 | a string key takes the argument's value when it has one, and otherwise keeps its own |
| Scopes.MergeListsAppends | src/Scope.php:122-125 | merging a list into a list appends its values |
| Scopes.Plugin | src/Scope.php:137-140 | the name is registered to the plugin, and other plugins and items are unchanged |
| Scopes.HasPlugin | src/Scope.php:100-103 | true iff the name is registered |
| Scopes.ForgetPlugin | src/Scope.php:84-91 | the name is unregistered, and the other plugins are kept |
| Scopes.Call | src/Scope.php:51-67 | the registered plugin, else BadMethodCallException "Plug-in name does not exist." |
| Scopes.PluginLifeCycle | tests/src/ScopeTest.php:103-110 | a fresh scope has no plugin; after plugin it has it; after forgetPlugin it does not |
| Scopes.PluginsAndItemsIndependent | src/Scope.php:84-153 | plugin registration and item writes commute |
| Repositories.New | src/Repository.php:25-29 | the constructor stores the items verbatim, and all returns them |
| Repositories.All | src/Repository.php:36-39 | all returns every stored item |
| Repositories.Get | src/Repository.php:72-75 | the stored value, else the default |
| Repositories.Has | src/Repository.php:84-87 | key existence |
| Repositories.SetKey | src/Repository.php:170-180 | the key holds v afterwards, every other key unchanged |
| Repositories.SetMany | src/Repository.php:172-176 | each key holds the value of its last occurrence in the batch, or keeps its old value |
| Repositories.SetManyDistinct | src/Repository.php:172-176 | with distinct batch keys every pair is written |
| Repositories.OffsetUnset | src/Repository.php:133-136 | unset stores null instead of removing the key |
| Repositories.Append | src/Repository.php:49-62 | RepositoryAppendNotPossibleException iff the target is not an array; else v is the last element and the length grows by one |
| Repositories.Prepend | src/Repository.php:147-160 | RepositoryPrependNotPossibleException iff the target is not an array; else v is element 0 and the others follow |
| Repositories.PrependThenAppend | tests/src/RepositoryTest.php:68-73 | prepend then append on an array target leaves both values at its two ends |
| Helpers.ThrowIf | src/helpers.php:86-91 | raises the given exception iff the condition is truthy |
| Helpers.ThrowIfNot | src/helpers.php:100-105 | raises iff the condition is falsy |
| Helpers.ThrowIfComplements | src/helpers.php:86-105 | exactly one of throw_if and throw_if_not raises |
| Helpers.ExplodePiecesFree | src/helpers.php:126 | no piece explode returns contains the delimiter |
| Helpers.JoinExplode | src/helpers.php:126 | implode after explode is the identity |
| Helpers.CollapseWhitespace | src/helpers.php:126 | a result starting with whitespace starts with one space, and only when the input starts with whitespace |
| Helpers.CollapseRun | src/helpers.php:126 | a maximal whitespace run, with a visible character or an end of the string on each side, becomes exactly one space, and the text on either side collapses on its own |
| Helpers.CollapseAppend | src/helpers.php:126 | no run crosses a point right after a visible character, so the collapse splits there |
| Helpers.DropWhitespaceRun | src/helpers.php:126 | a whitespace run before a visible character is dropped whole |
| Helpers.CollapseWhitespaceCorrect | src/helpers.php:126 | collapsing keeps the visible characters and leaves no run of two blanks |
| Helpers.CollapseIdempotent | src/helpers.php:126 | collapsing twice equals collapsing once |
| Helpers.W | src/helpers.php:124-127 | TypeError iff the delimiter is empty; else the pieces joined give the collapsed string and no piece contains the delimiter |
| Helpers.WDefaultHasNoWhitespace | src/helpers.php:126 | with the default delimiter no piece holds whitespace |
| Helpers.WExample | src/helpers.php:115-116 | w('one two three') is ['one', 'two', 'three'] |
| Helpers.Trim | src/helpers.php:150-151 | the input is the result with only trimmable characters before and after it, and the result neither starts nor ends with one |
| Helpers.TrimIs | src/helpers.php:150-151 | trim is determined by its cut points: when only trimmable characters lie outside s[i..j] and that slice neither starts nor ends with one (or is the empty tail), the trim is exactly s[i..j] |
| Helpers.TrimIdempotent | src/helpers.php:150-151 | trimming twice equals trimming once |
| Helpers.ParseInt | src/helpers.php:153 | the sign of the parsed integer follows the sign character |
| Helpers.IntToStringParses | src/helpers.php:153 | every integer's decimal text is numeric and parses back to it |
| Helpers.KeyOf | src/helpers.php:153 | a canonical integer string becomes an int key, anything else a string key |
| Helpers.KeyOfIntToString | src/helpers.php:153 | an integer's text becomes that int key |
| Helpers.Tuples | src/helpers.php:142-157 | the pieces of w(encoded, ',') assigned in order: distinct keys |
| Helpers.TuplesLastWins | src/helpers.php:153 | a repeated key holds its last value |
| Helpers.TuplesTrimmed | src/helpers.php:150-153 | every key and string value is trimmed, and numeric values are ints |
| Helpers.TuplesExample | src/helpers.php:136 | tuples('one:1, two:2, three:3') is ['one' => 1, 'two' => 2, 'three' => 3] |
| PhpArrays.Assign | src/Collection.php:424-432 | $a[k] = v: the key holds v, others unchanged, a new key goes last |
| PhpArrays.Push | src/Collection.php:503-508 | the value goes last under the next free integer index |
| PhpArrays.Unshift | src/Repository.php:147-160 | the value becomes element 0 and the int keys are renumbered |
| PhpArrays.ArrayMerge | src/Scope.php:122-125 | array_merge gives distinct keys |
| PhpArrays.MergeIntoStringLookup | src/Scope.php:122-125 | under array_merge a later string key wins |
| PhpArrays.MergeLists | src/Scope.php:122-125 | array_merge of two lists is the list of their values |
| PhpArrays.ArrayUnique | src/Structure/src/Set.php:77 | array_unique keeps exactly the first occurrence of each value, with its key, values compared by identity |
| PhpArrays.AssignAllLookup | src/Repository.php:172-176 | assigning pairs in order leaves each key with its last value |
| Ordering.ValueLeTotal | src/Collection.php:660-676 | the value order used for sorting is total |
| Ordering.ValueLeTrans | src/Collection.php:660-676 | and transitive |
| Ordering.Sort | src/Collection.php:660-676 | sorting yields a permutation ordered by a total order |

## Left out

- Configuration, paths, environment, global scope, and item import/export: they are file, process and codec I/O.
- The path library the core calls, `Nine\Library\Lib`, is not part of this model. That rules out dot-path `get`/`set`/`has`/`forget` and `searchAndReplace`, and also `where`, `pluck`, `max`/`min`, `pull` and two-argument `contains`.
- Repositories.Get: repository paths are a flat top-level map; a dot-path resolver is not modelled.
- ItemArrayAccess.Put: `put` hands string keys to a caller-supplied path writer, because that writer is in the library above.
- `first`/`last` with a callback: they use that library.
- Randomness: `random` and `shuffle` choose at random. Only the count guard of `random` is modelled.
- `json_encode`, `toJson` and `__toString`: they are JSON text encoding.
- The serialisation byte format: a payload is its items.
- Scopes.Call: the plugin is returned rather than invoked. Closure `bindTo` and argument passing are not modelled.
- Scopes.ForgetPlugin: the registry's `ksort` leaves no trace, because plugins are a map.
- Ordering.ValueLeTotal: values of different types are ordered by a fixed type rank. Arrays and structures are compared by count only. This stands in for `SORT_REGULAR`, PHP's loose-comparison sort order. Strings compare byte-wise even when both are numeric, where PHP compares them as numbers, so `"10"` sorts before `"9"`.
- Ordering.Sort: PHP 7 sorting is not stable. The model sorts stably, which is one of the orders PHP may produce.
- Numeric-string key coercion of PHP arrays is not modelled, except in `tuples`, where the cast is explicit.
- Helpers.ParseInt: integers are unbounded. The 64-bit overflow to float is not modelled.
- Helpers.KeyOf: the same 64-bit limit applies.
- `is_numeric` is modelled as optionally signed decimal digits. Floats, exponents and surrounding whitespace are not modelled.
- PhpArrays.Push: the next free index is `1 + max int key`. PHP's hidden counter, which survives `unset`, is not modelled.
- AttributeBags.New: `getArrayableItems` has an `instanceof self` branch and an object branch. These are treated as the structure conversion and are otherwise not modelled.
- `getAttributes` returns a clone, which is the value itself here.
- `AttributesTest.php` expects the first `offsetSet`/`set` to succeed. `WithImmutability` always throws for a non-null key, and the model follows that code.
- AttributeBags.Has: on unpopulated items PHP 7's `array_key_exists` warns and answers null, which is modelled as false. The warning is not modelled. PHP 8 would raise a `TypeError` instead.
- Collections.FilterTruthy: its own contract states membership only; the order is stated by Collections.FilterTruthyAppend.
- Collections.Reject: its own contract states membership only; the order is stated by Collections.RejectAppend.
- Collections.RejectValue: its own contract states membership only; the order is stated by Collections.RejectValueAppend.
- PhpArrays.ArrayUnique: values are compared by identity, while `array_unique(..., SORT_REGULAR)` compares with loose `==`, so `1` and `"1"` count as duplicates in PHP but not here. Sets.WithValues inherits this.
- Structure objects are values compared by content. PHP's `===` and strict `in_array` compare objects by identity, so two equal but distinct structure objects differ there. This affects the short-circuit of Dictionaries.WithValue and the hasValue and withoutValue of Set, OrderedList and UnorderedList.
- `Collection::toArray`, `diff`, `intersect` and the other members outside the listed operations are not modelled.

## Findings

| source | as written | input that shows it | evidently intended | confidence | as-written member | corrected member |
|---|---|---|---|---|---|---|
| src/Structure/src/Set.php:91 | `unset` removes the value but leaves a key gap, so the set no longer passes its own list validation | removing 1 from [1, 2] gives [1 => 2] | the remaining values renumbered 0..n-1 | not executed | Sets.WithoutValueCounterexample | Sets.WithoutValue |
| src/Structure/src/UnorderedList.php:49 | the same `unset` leaves the list non-list, and serialise/unserialise then throws | removing 1 from [1, 2] gives [1 => 2] | the first occurrence removed and the rest kept as a list | not executed | UnorderedLists.WithoutValueCounterexample | UnorderedLists.WithoutValue |
| src/Structure/src/Set.php:77 | `array_unique` keeps the original keys, so the stored set is not a list | withValues([1, 1, 2]) stores [0 => 1, 2 => 2] | the distinct values as a list | not executed | Sets.WithValuesCounterexample | Sets.WithValues |
| src/Structure/src/Set.php:46 | `array_splice` casts the inserted value to an array, so an array value is spliced element by element and null inserts nothing | withValueAfter([2], 1) on [1, 2] gives [1, 2, 2], a duplicate; withValueAfter(null, 1) inserts nothing | exactly one new element v | not executed | Sets.SpliceCastCounterexample | Sets.WithValueAfter |
| src/Structure/src/Traits/WithIterator.php:27-29 | `valid` uses `isset`, so a foreach stops at the first null value | foreach over [1, null, 3] visits only 1 | iteration over every entry | not executed | Iterators.NullStopsForeach | Iterators.ForeachVisitsAll |
| src/Structure/src/Traits/WithIterator.php:27-29 | past the end `key()` is null, and `isset($items[null])` looks up key "", so iteration never ends when "" holds a non-null value | ["" => 1] is valid after any number of next() calls | valid is false past the last entry | not executed | Iterators.EmptyStringKeyNeverEnds | Iterators.ForeachVisitsAll |
