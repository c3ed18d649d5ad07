/**
 The cache facade: a context (namespace) string, a default lifetime and a
 backend, and the get / getAll / set / delete / clean operations that name
 keys with CacheKeys and forward to the backend.

 Every operation touches the backend directly: there is no index of written
 keys and no lock. `clean` works off the backend's own key enumeration.
 */
module CacheFacade {
  import opened Wrappers
  import opened CacheKeys
  import opened ItemPool

  /** What `get` returns for a backend key: the stored value, or None on a miss. */
  function Fetch<V>(items: map<string, Entry<V>>, key: string): (r: Option<V>)
    ensures r.Some? <==> key in items
  {
    if key in items then Some(items[key].value) else None
  }

  /** The backend after a `clean` that deleted every selected key. */
  function Swept<V>(items: map<string, Entry<V>>, context: string, group: string, mode: Option<string>): (r: map<string, Entry<V>>)
    ensures r.Keys <= items.Keys
    ensures forall k | k in r :: r[k] == items[k]
  {
    map k | k in items && !Selected(k, context, group, mode) :: items[k]
  }

  /** No stored key matches the filter of `clean`. */
  predicate NothingSelected<V>(items: map<string, Entry<V>>, context: string, group: string, mode: Option<string>)
  {
    forall k | k in items :: !Selected(k, context, group, mode)
  }

  /** Removing a set of keys that is exactly the selected stored keys
      leaves the backend Swept; the set is empty exactly when nothing is
      selected. */
  lemma SweptIsRemoval<V>(items: map<string, Entry<V>>, context: string, group: string, mode: Option<string>, doomed: set<string>)
    requires forall k :: k in doomed <==> k in items && Selected(k, context, group, mode)
    ensures items - doomed == Swept(items, context, group, mode)
    ensures doomed == {} <==> NothingSelected(items, context, group, mode)
  {
    assert (items - doomed).Keys == Swept(items, context, group, mode).Keys;
  }

  class Cache<V> {
    /** The namespace shared by every key this facade writes. */
    var context: string
    /** The lifetime, in seconds, that `set` saves items with. */
    var ttl: int
    /** The backend. */
    const adapter: Pool<V>

    /** The state the constructor leaves behind once the backend has been
        chosen: the default context, and the configured lifetime when the
        options give one (900 seconds otherwise). */
    constructor (adapter: Pool<V>, ttlOption: Option<int>)
      ensures this.adapter == adapter
      ensures context == DefaultContext
      ensures ttl == if ttlOption.Some? then ttlOption.value else DefaultTtl
    {
      this.adapter := adapter;
      context := DefaultContext;
      ttl := if ttlOption.Some? then ttlOption.value else DefaultTtl;
    }

    method GetContext() returns (c: string)
      ensures c == context
    {
      c := context;
    }

    /** Sets the context and returns the facade itself, for chaining. */
    method SetContext(c: string) returns (self: Cache<V>)
      modifies this
      ensures self == this
      ensures context == c && ttl == old(ttl)
    {
      context := c;
      self := this;
    }

    /** The value stored for id in group (the default group when none is
        given), or None on a miss. */
    method Get(id: string, group: Option<string>) returns (r: Option<V>)
      ensures r == Fetch(adapter.items, CacheId(context, ResolveGroup(group), id))
    {
      var item := adapter.GetItem(CacheId(context, ResolveGroup(group), id));
      r := if item.Some? then Some(item.value.value) else None;
    }

    /** Every stored value, by backend key, whatever context wrote it. */
    method GetAll() returns (all: map<string, V>)
      ensures all.Keys == adapter.items.Keys
      ensures forall k | k in all :: Some(all[k]) == Fetch(adapter.items, k)
    {
      var data := adapter.GetItems();
      all := map[];
      var rest := data.Keys;
      while rest != {}
        invariant rest <= data.Keys
        invariant all.Keys == data.Keys - rest
        invariant forall k | k in all :: all[k] == data[k].value
        decreases rest
      {
        var k :| k in rest;
        all := all[k := data[k].value];
        rest := rest - {k};
      }
    }

    /** Saves data for id in group (the default group when none is given)
        with the facade's lifetime; only that one backend key changes. */
    method Set(data: V, id: string, group: Option<string>) returns (ok: bool)
      modifies adapter
      ensures adapter.writable == old(adapter.writable) && ok == adapter.writable
      ensures adapter.items == if ok then old(adapter.items)[CacheId(context, ResolveGroup(group), id) := Entry(data, ttl)]
                               else old(adapter.items)
    {
      ok := adapter.Save(CacheId(context, ResolveGroup(group), id), Entry(data, ttl));
    }

    /** Deletes id from group (the default group when none is given); only
        that one backend key changes. */
    method Delete(id: string, group: Option<string>) returns (ok: bool)
      modifies adapter
      ensures adapter.writable == old(adapter.writable) && ok == adapter.writable
      ensures adapter.items == if ok then old(adapter.items) - {CacheId(context, ResolveGroup(group), id)}
                               else old(adapter.items)
    {
      ok := adapter.DeleteItem(CacheId(context, ResolveGroup(group), id));
    }

    /** The `$todelete` loop of `clean`: the enumerated keys that the
        filter selects, in enumeration order. */
    method Collect(keys: seq<string>, group: string, mode: Option<string>) returns (todelete: seq<string>)
      ensures todelete == ToDelete(keys, context, group, mode)
    {
      todelete := [];
      for i := 0 to |keys|
        invariant todelete == ToDelete(keys[..i], context, group, mode)
      {
        assert keys[..i + 1][..i] == keys[..i];
        if Selected(keys[i], context, group, mode) {
          todelete := todelete + [keys[i]];
        }
      }
      assert keys[..|keys|] == keys;
    }

    /** Deletes, in one bulk call, the keys of group (mode "group") or the
        keys outside it (any other mode). Succeeds without touching the
        backend when nothing is selected, and fails only when the bulk
        delete fails. */
    method Clean(group: string, mode: Option<string>) returns (ok: bool)
      modifies adapter
      ensures adapter.writable == old(adapter.writable)
      ensures ok <==> old(adapter.writable) || NothingSelected(old(adapter.items), context, group, mode)
      ensures adapter.items == if ok then Swept(old(adapter.items), context, group, mode) else old(adapter.items)
    {
      var keys := adapter.GetKeys();
      var todelete := Collect(keys, group, mode);
      ghost var items := adapter.items;
      SweptIsRemoval(items, context, group, mode, set k | k in todelete);
      if |todelete| > 0 {
        assert todelete[0] in todelete;
        var deleted := adapter.DeleteItems(todelete);
        if !deleted {
          return false;
        }
      }
      return true;
    }
  }

  /** A missing group means the default group, for get, set and delete alike. */
  lemma NullGroupIsDefault(context: string, id: string)
    ensures CacheId(context, ResolveGroup(None), id) == CacheId(context, ResolveGroup(Some(DefaultGroup)), id)
    ensures ResolveGroup(None) == "default"
  {
  }

  /** After set(data, id, g), get(id, g) returns data; with groups free of
      '-', every other (group, id) of the context reads what it read before. */
  lemma SetThenGet<V>(items: map<string, Entry<V>>, context: string, g: string, id: string, data: V, ttl: int, g2: string, id2: string)
    ensures Fetch(items[CacheId(context, g, id) := Entry(data, ttl)], CacheId(context, g, id)) == Some(data)
    ensures '-' !in g && '-' !in g2 && (g2 != g || id2 != id) ==>
      Fetch(items[CacheId(context, g, id) := Entry(data, ttl)], CacheId(context, g2, id2)) == Fetch(items, CacheId(context, g2, id2))
  {
    if '-' !in g && '-' !in g2 && CacheId(context, g, id) == CacheId(context, g2, id2) {
      CacheIdInjective(context, g, id, g2, id2);
    }
  }

  /** Without that restriction a set can overwrite another item: setting
      "h-id" in group g changes what get("id", "g-h") returns. */
  lemma SetOverwritesCollidingItem<V>(items: map<string, Entry<V>>, context: string, g: string, h: string, id: string, data: V, ttl: int)
    ensures Fetch(items[CacheId(context, g, h + "-" + id) := Entry(data, ttl)], CacheId(context, g + "-" + h, id)) == Some(data)
  {
    CacheIdCollision(context, g, h, id);
  }

  /** After delete(id, g), get(id, g) misses; with groups free of '-',
      every other (group, id) of the context reads what it read before. */
  lemma DeleteThenGet<V>(items: map<string, Entry<V>>, context: string, g: string, id: string, g2: string, id2: string)
    ensures Fetch(items - {CacheId(context, g, id)}, CacheId(context, g, id)) == None
    ensures '-' !in g && '-' !in g2 && (g2 != g || id2 != id) ==>
      Fetch(items - {CacheId(context, g, id)}, CacheId(context, g2, id2)) == Fetch(items, CacheId(context, g2, id2))
  {
    if '-' !in g && '-' !in g2 && CacheId(context, g, id) == CacheId(context, g2, id2) {
      CacheIdInjective(context, g, id, g2, id2);
    }
  }

  /** Deleting twice leaves the backend as deleting once. */
  lemma DeleteIdempotent<V>(items: map<string, Entry<V>>, key: string)
    ensures (items - {key}) - {key} == items - {key}
  {
  }

  /** clean(g, "group") and clean(g, m) for any other mode m split the
      backend in two: no key survives both and every key survives one. */
  lemma CleanModesPartition<V>(items: map<string, Entry<V>>, context: string, g: string, mode: Option<string>)
    requires mode != Some(GroupMode)
    ensures Swept(items, context, g, Some(GroupMode)).Keys !! Swept(items, context, g, mode).Keys
    ensures Swept(items, context, g, Some(GroupMode)) + Swept(items, context, g, mode) == items
  {
  }

  /** clean(g, "group") removes exactly the keys starting with
      `context-cache-g-` and keeps every other key with its value. */
  lemma CleanGroupRemovesExactlyGroup<V>(items: map<string, Entry<V>>, context: string, g: string)
    ensures forall k :: k in Swept(items, context, g, Some(GroupMode)) <==> k in items && !InGroup(k, context, g)
  {
  }

  /** clean(g, m) for any mode m other than "group", null included, removes
      exactly the keys not starting with `context-cache-g-`, whatever
      context wrote them, and keeps the others with their values. */
  lemma CleanOtherModeRemovesExactlyOutside<V>(items: map<string, Entry<V>>, context: string, g: string, mode: Option<string>)
    requires mode != Some(GroupMode)
    ensures forall k :: k in Swept(items, context, g, mode) <==> k in items && InGroup(k, context, g)
  {
  }

  /** With groups free of '-', after clean(g, "group") the items of g
      miss and every item of another group reads what it read before. */
  lemma CleanGroupThenGet<V>(items: map<string, Entry<V>>, context: string, g: string, g2: string, id: string)
    requires '-' !in g && '-' !in g2
    ensures Fetch(Swept(items, context, g, Some(GroupMode)), CacheId(context, g2, id))
            == if g2 == g then None else Fetch(items, CacheId(context, g2, id))
  {
    GroupMembershipExact(context, g, g2, id);
  }

  /** With groups free of '-', after clean(g, m) with m not "group" the
      items of g read what they read before and those of every other group
      miss. */
  lemma CleanOtherModeThenGet<V>(items: map<string, Entry<V>>, context: string, g: string, g2: string, id: string, mode: Option<string>)
    requires '-' !in g && '-' !in g2
    requires mode != Some(GroupMode)
    ensures Fetch(Swept(items, context, g, mode), CacheId(context, g2, id))
            == if g2 == g then Fetch(items, CacheId(context, g2, id)) else None
  {
    GroupMembershipExact(context, g, g2, id);
  }

  /** clean(g, "group") also wipes group "g-h", whose keys share the prefix. */
  lemma CleanGroupTakesSubGroups<V>(items: map<string, Entry<V>>, context: string, g: string, h: string, id: string)
    ensures Fetch(Swept(items, context, g, Some(GroupMode)), CacheId(context, g + "-" + h, id)) == None
  {
    SubGroupInGroup(context, g, h, id);
  }

  /** clean in any mode other than "group" also wipes the items of other
      contexts (shown for contexts of the same length): namespacing does
      not protect one application from another's clean. */
  lemma CleanOtherModeCrossesContexts<V>(items: map<string, Entry<V>>, context: string, other: string, g: string, g2: string, id: string, mode: Option<string>)
    requires |other| == |context| && other != context
    requires mode != Some(GroupMode)
    ensures Fetch(Swept(items, context, g, mode), CacheId(other, g2, id)) == None
  {
    OtherContextOutsideGroup(context, other, g, g2, id, mode);
  }

  /** After a successful clean nothing is selected any more, so a second
      identical clean succeeds without touching the backend. */
  lemma CleanIdempotent<V>(items: map<string, Entry<V>>, context: string, g: string, mode: Option<string>)
    ensures NothingSelected(Swept(items, context, g, mode), context, g, mode)
    ensures Swept(Swept(items, context, g, mode), context, g, mode) == Swept(items, context, g, mode)
  {
  }

  /** The concrete run: set "x" as item "a" of group "g1", set "y" as item
      "b" of group "g2", clean group "g1"; then "a" misses and "b" is "y". */
  method GroupCleanScenario() returns (a: Option<string>, b: Option<string>)
    ensures a == None && b == Some("y")
  {
    var pool := new Pool<string>(true);
    var cache := new Cache<string>(pool, None);
    var ok := cache.Set("x", "a", Some("g1"));
    ok := cache.Set("y", "b", Some("g2"));
    ok := cache.Clean("g1", Some(GroupMode));
    GroupMembershipExact(DefaultContext, "g1", "g1", "a");
    GroupMembershipExact(DefaultContext, "g1", "g2", "b");
    a := cache.Get("a", Some("g1"));
    b := cache.Get("b", Some("g2"));
  }

  /** The context is "__default" until it is set; setting it returns the
      same facade and leaves the backend alone. */
  method ContextScenario() returns (before: string, after: string)
    ensures before == DefaultContext && after == "app"
  {
    var pool := new Pool<string>(true);
    var cache := new Cache<string>(pool, Some(60));
    before := cache.GetContext();
    var same := cache.SetContext("app");
    after := same.GetContext();
  }
}
