/**
 The storage backend behind the facade (the adapter), seen only through the
 calls the facade makes on it. Whatever the real backend is (runtime array,
 files, Memcached, Redis, ...), its observable state is a finite map from
 backend key to stored item. Whether the backend accepts changes is the
 `writable` flag: a backend that cannot be written reports failure from
 save and delete and changes nothing. Expiry is not modelled: an item stays
 until it is deleted or overwritten.
 */
module ItemPool {
  import opened Wrappers

  /** One cached item: the stored value and the lifetime it was saved with. */
  datatype Entry<V> = Entry(value: V, ttl: int)

  class Pool<V> {
    /** The items the backend holds, by backend key. */
    var items: map<string, Entry<V>>
    /** Whether saves and deletes succeed. */
    var writable: bool

    constructor (writable: bool)
      ensures items == map[] && this.writable == writable
    {
      items := map[];
      this.writable := writable;
    }

    /** `getItem(key)`: the item stored under key, or None on a miss. */
    method GetItem(key: string) returns (r: Option<Entry<V>>)
      ensures r.Some? <==> key in items
      ensures r.Some? ==> r.value == items[key]
    {
      r := if key in items then Some(items[key]) else None;
    }

    /** `getItems()`: every stored item, by key. */
    method GetItems() returns (all: map<string, Entry<V>>)
      ensures all.Keys == items.Keys
      ensures forall k | k in all :: all[k] == items[k]
    {
      all := items;
    }

    /** `getKeys()`: an enumeration of the stored keys, each exactly once. */
    method GetKeys() returns (keys: seq<string>)
      ensures forall k :: k in keys <==> k in items
      ensures forall i, j | 0 <= i < j < |keys| :: keys[i] != keys[j]
    {
      keys := [];
      var rest := items.Keys;
      while rest != {}
        invariant rest <= items.Keys
        invariant forall k :: k in keys <==> k in items && k !in rest
        invariant forall i, j | 0 <= i < j < |keys| :: keys[i] != keys[j]
        decreases rest
      {
        var k :| k in rest;
        keys := keys + [k];
        rest := rest - {k};
      }
    }

    /** `save(item)`: stores e under key, replacing what was there. */
    method Save(key: string, e: Entry<V>) returns (ok: bool)
      modifies this
      ensures writable == old(writable) && ok == writable
      ensures items == if ok then old(items)[key := e] else old(items)
    {
      ok := writable;
      if ok {
        items := items[key := e];
      }
    }

    /** `deleteItem(key)`: removes key; deleting a missing key succeeds. */
    method DeleteItem(key: string) returns (ok: bool)
      modifies this
      ensures writable == old(writable) && ok == writable
      ensures items == if ok then old(items) - {key} else old(items)
    {
      ok := writable;
      if ok {
        items := items - {key};
      }
    }

    /** `deleteItems(keys)`: removes every listed key. */
    method DeleteItems(keys: seq<string>) returns (ok: bool)
      modifies this
      ensures writable == old(writable) && ok == writable
      ensures items == if ok then old(items) - (set k | k in keys) else old(items)
    {
      ok := writable;
      if ok {
        items := items - (set k | k in keys);
      }
    }
  }
}
