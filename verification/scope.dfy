/** Scope: a context container of top-level items plus a registry of named
    plug-ins. The plug-in type is a parameter: the model only stores and
    hands back what was registered. */
module Scopes {
  import opened Exceptions
  import opened PhpValues
  import opened PhpArrays
  import ItemArrayAccess

  datatype Scope<P> = Scope(items: PArray, plugins: map<string, P>)

  /** The constructor: an array as it is, anything else through getArrayableItems;
      no plug-in is registered yet. */
  function New<P>(arg: Value): (r: Scope<P>)
    ensures r.items == ItemArrayAccess.Arrayable(arg)
    ensures arg.VArr? ==> r.items == arg.entries
    ensures arg == VNull ==> r.items == []
    ensures !arg.VArr? && !arg.VStruct? && arg != VNull ==> r.items == [Entry(IntKey(0), arg)]
    ensures r.plugins == map[]
  {
    Scope(ItemArrayAccess.Arrayable(arg), map[])
  }

  /** count: the number of top-level items. */
  function Count<P>(s: Scope<P>): (r: nat)
    ensures r == |Keys(s.items)|
  {
    |s.items|
  }

  /** set(key, value): a direct top-level write of a string key. */
  function SetItem<P>(s: Scope<P>, key: string, v: Value): (r: Scope<P>)
    ensures Lookup(r.items, StrKey(key)) == Some(v)
    ensures forall k :: k != StrKey(key) ==> Lookup(r.items, k) == Lookup(s.items, k)
    ensures r.plugins == s.plugins
    ensures DistinctKeys(s.items) ==> DistinctKeys(r.items)
    ensures DistinctKeys(s.items) ==>
      Count(r) == if HasKey(s.items, StrKey(key)) then Count(s) else Count(s) + 1
  {
    Scope(Assign(s.items, StrKey(key), v), s.plugins)
  }

  /** merge: array_merge of the items with the arrayable argument. */
  function Merge<P>(s: Scope<P>, other: Value): (r: Scope<P>)
    ensures r.items == ArrayMerge(s.items, ItemArrayAccess.Arrayable(other))
    ensures DistinctKeys(r.items)
    ensures r.plugins == s.plugins
  {
    Scope(ArrayMerge(s.items, ItemArrayAccess.Arrayable(other)), s.plugins)
  }

  /** After a merge, a string key takes the merged-in value when the
      argument has it and keeps its old value otherwise. */
  lemma {:induction false} MergeStringKeys<P>(s: Scope<P>, other: Value, key: string)
    requires DistinctKeys(s.items) && DistinctKeys(ItemArrayAccess.Arrayable(other))
    ensures var m := ItemArrayAccess.Arrayable(other);
      Lookup(Merge(s, other).items, StrKey(key)) ==
        if HasKey(m, StrKey(key)) then Lookup(m, StrKey(key)) else Lookup(s.items, StrKey(key))
  {
    var m := ItemArrayAccess.Arrayable(other);
    MergeIntoStringLookup([], s.items, key);
    MergeIntoStringLookup(MergeInto([], s.items), m, key);
  }

  /** Merging two lists appends the values and numbers them afresh. */
  lemma {:induction false} MergeListsAppends<P>(s: Scope<P>, other: PArray)
    requires IsList(s.items) && IsList(other)
    ensures Merge(s, VArr(other)).items == ListOf(Vals(s.items) + Vals(other))
    ensures Count(Merge(s, VArr(other))) == Count(s) + |other|
  {
    MergeLists(s.items, other);
  }

  /** plugin(name, callable): register, replacing any earlier one of that name. */
  function Plugin<P>(s: Scope<P>, name: string, p: P): (r: Scope<P>)
    ensures name in r.plugins && r.plugins[name] == p
    ensures forall n :: n != name ==> (n in r.plugins <==> n in s.plugins)
    ensures forall n :: n != name && n in s.plugins ==> r.plugins[n] == s.plugins[n]
    ensures r.items == s.items
  {
    Scope(s.items, s.plugins[name := p])
  }

  /** hasPlugin: whether a plug-in of that name is registered. */
  function HasPlugin<P>(s: Scope<P>, name: string): (r: bool)
    ensures r <==> name in s.plugins
  {
    name in s.plugins
  }

  /** forgetPlugin: unregister `name` if present; the others stay. The ksort
      that follows only reorders the registry, which a map does not record. */
  function ForgetPlugin<P>(s: Scope<P>, name: string): (r: Scope<P>)
    ensures name !in r.plugins
    ensures forall n :: n != name ==> (n in r.plugins <==> n in s.plugins)
    ensures forall n :: n != name && n in s.plugins ==> r.plugins[n] == s.plugins[n]
    ensures r.items == s.items
  {
    Scope(s.items, s.plugins - {name})
  }

  /** __call: the registered plug-in to invoke, or BadMethodCallException. */
  function Call<P>(s: Scope<P>, name: string): (r: Result<P>)
    ensures r.Ok? <==> HasPlugin(s, name)
    ensures r.Ok? ==> r.value == s.plugins[name]
    ensures r.Throw? ==> r.exception == BadMethodCallException("Plug-in " + name + " does not exist.")
  {
    if name in s.plugins then Ok(s.plugins[name])
    else Throw(BadMethodCallException("Plug-in " + name + " does not exist."))
  }

  /** The plug-in life cycle: absent on a fresh scope, callable once
      registered, absent again once forgotten. */
  lemma {:induction false} PluginLifeCycle<P>(arg: Value, name: string, p: P)
    ensures var s: Scope<P> := New(arg);
      !HasPlugin(s, name) &&
      Call(Plugin(s, name, p), name) == Ok(p) &&
      Call(ForgetPlugin(Plugin(s, name, p), name), name).Throw?
  {
  }

  /** Registering or forgetting a plug-in never touches the items, and a set
      never touches the registry. */
  lemma {:induction false} PluginsAndItemsIndependent<P>(s: Scope<P>, name: string, p: P, key: string, v: Value)
    ensures Plugin(SetItem(s, key, v), name, p) == SetItem(Plugin(s, name, p), key, v)
    ensures ForgetPlugin(SetItem(s, key, v), name) == SetItem(ForgetPlugin(s, name), key, v)
  {
  }
}
