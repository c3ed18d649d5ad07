# ETD Framework cache facade, in Dafny

This project models the `Cache` facade of the ETD Framework cache package.
The facade sits in front of a storage backend (the adapter) and adds two
things to it:

- **Namespacing.** Every key is named `context-cache-group-id`, so several
  applications can share one backend. The context defaults to `__default`.
- **Group cleaning.** `clean(group, mode)` deletes the keys of a group, or
  the keys outside it.

The model has four modules:

- `Wrappers` holds `Option`. It stands for PHP's `null` when a group or mode
  is omitted, and for a cache miss.
- `CacheKeys` holds the pure part:
  - key naming (`CacheId`) and the group prefix;
  - the fallback to the default group `'default'`;
  - the filter of `clean` (`Selected`), which is (key has the group prefix)
    xor (mode is not `"group"`), because PHP's `===` and `!=` bind tighter
    than `xor`;
  - the list `clean` builds before deleting (`ToDelete`);
  - the lemmas about when key naming is injective and when it collides.
- `ItemPool` holds the backend, as the facade sees it: a class `Pool` whose
  state is a finite map from backend key to stored `Entry` (value and
  lifetime). A `writable` flag says whether saves and deletes succeed. A
  backend that is not writable reports failure and changes nothing.
- `CacheFacade` holds the `Cache` class: a `context`, a `ttl` and the
  backend. Its methods are proved against the specification functions
  `Fetch` (what `get` returns for a key) and `Swept` (the backend after a
  successful `clean`). The lemmas in this module relate the operations to
  one another.

The facade keeps no index of written keys and takes no lock. `set` and
`delete` change at most one backend key: the one they name. `clean` works off the backend's own
key enumeration (src/Cache.php:244): it collects the selected keys and
bulk-deletes them.

Key naming does no escaping. The lemmas state the consequences:

- With group names free of `-`, key naming is injective within a context.
  Among this context's keys of such groups, `clean(g, "group")` removes
  exactly the items of group `g`.
- Without that restriction, item `h-id` of group `g` and item `id` of group
  `g-h` share one backend key.
- `clean(g, "group")` also removes the items of group `g-h`.
- `clean` in any other mode (null included) also removes the items of
  other contexts whose name has the same length as this context's.

## Model

| member | source | states |
|---|---|---|
| `CacheKeys.ResolveGroup` | src/Cache.php:164 | a given group is used as it is; the default group "default" results exactly when the group is missing or is "default" itself |
| `CacheKeys.CacheId` | src/Cache.php:268-271 | every key starts with the prefix clean tests for its group, and what follows that prefix is exactly the id |
| `CacheKeys.StrPos` | src/Cache.php:248 | PHP's `strpos`: the result, when there is one, is a position at or after the start offset where the needle occurs, and no occurrence from the offset on lies before it; no result means no occurrence from the offset on |
| `CacheKeys.InGroup` | src/Cache.php:248 | the test `strpos(key, context-cache-group-) === 0` holds exactly when the key starts with that prefix |
| `CacheKeys.Selected` | src/Cache.php:248 | the xor filter selects the keys in the group when mode is "group", and the keys outside it for any other mode, null included |
| `CacheKeys.ToDelete` | src/Cache.php:245-251 | the list clean builds holds exactly the enumerated keys that the filter selects, and is no longer than the enumeration |
| `CacheKeys.GroupMembershipExact` | src/Cache.php:248 | with groups free of '-', a key of group g2 passes clean's prefix test for group g1 if and only if g1 == g2 |
| `CacheKeys.CacheIdInjective` | src/Cache.php:268-271 | with groups free of '-', equal keys in one context come from equal (group, id) pairs |
| `CacheKeys.CacheIdCollision` | src/Cache.php:268-271 | without that restriction, (g, "h-id") and ("g-h", id) are distinct pairs that get the same key |
| `CacheKeys.SubGroupInGroup` | src/Cache.php:248 | every key of group "g-h" passes clean's prefix test for group g |
| `CacheKeys.OtherContextOutsideGroup` | src/Cache.php:248 | a key of another context of the same length never has the group prefix, so clean selects it exactly when mode is not "group" |
| `ItemPool.Pool.GetItem` | src/Cache.php:167 | the lookup hits exactly when the key is stored, and then returns the stored entry |
| `ItemPool.Pool.GetItems` | src/Cache.php:181 | returns every stored entry under its key |
| `ItemPool.Pool.GetKeys` | src/Adapter/Memcached.php:16-20 | enumerates exactly the stored keys, each once |
| `ItemPool.Pool.Save` | src/Cache.php:211 | on success the entry is stored under its key and nothing else changes; on failure nothing changes |
| `ItemPool.Pool.DeleteItem` | src/Cache.php:227 | on success the key is gone and nothing else changes; on failure nothing changes |
| `ItemPool.Pool.DeleteItems` | src/Cache.php:253 | on success every listed key is gone and nothing else changes; on failure nothing changes |
| `CacheFacade.Fetch` | src/Cache.php:167-170 | get hits exactly when the key is stored |
| `CacheFacade.Swept` | src/Cache.php:253-254 | a successful clean only removes keys and keeps the value of every key it keeps |
| `CacheFacade.SweptIsRemoval` | src/Cache.php:253-257 | bulk-deleting exactly the selected stored keys leaves the backend Swept, and that list is empty exactly when nothing is selected, which is when clean skips the bulk delete |
| `CacheFacade.Cache.constructor` | src/Cache.php:122-125 | a new facade is in context "__default" and saves with the configured lifetime when one is given, 900 seconds otherwise |
| `CacheFacade.Cache.GetContext` | src/Cache.php:134-137 | returns the current context |
| `CacheFacade.Cache.SetContext` | src/Cache.php:146-151 | sets the context, returns the same facade for chaining, and leaves the lifetime and the backend alone |
| `CacheFacade.Cache.Get` | src/Cache.php:161-171 | returns the value stored under the key of (id, group or the default group) in the current context, or a miss |
| `CacheFacade.Cache.GetAll` | src/Cache.php:178-191 | returns a map with exactly the backend's keys, each to the value get would read for it |
| `CacheFacade.Cache.Set` | src/Cache.php:202-212 | on success stores (data, ttl) under the key of (id, group or the default group) and changes no other key; fails exactly when the backend does, then changing nothing |
| `CacheFacade.Cache.Delete` | src/Cache.php:222-228 | on success removes the key of (id, group or the default group) and changes no other key; fails exactly when the backend does, then changing nothing |
| `CacheFacade.Cache.Collect` | src/Cache.php:245-251 | the loop builds exactly the list of selected keys, in enumeration order |
| `CacheFacade.Cache.Clean` | src/Cache.php:242-257 | succeeds exactly when the backend accepts deletes or nothing is selected; on success the backend is Swept, so every selected key is gone and every other key keeps its value; on failure nothing changes |
| `CacheFacade.NullGroupIsDefault` | src/Cache.php:164 | a missing group names the same key as the group "default" |
| `CacheFacade.SetThenGet` | src/Cache.php:202-212 | after set(data, id, g), get(id, g) returns data; with groups free of '-', every other (group, id) reads what it read before |
| `CacheFacade.SetOverwritesCollidingItem` | src/Cache.php:268-271 | setting item "h-id" of group g changes what get(id, "g-h") returns |
| `CacheFacade.DeleteThenGet` | src/Cache.php:222-228 | after delete(id, g), get(id, g) misses; with groups free of '-', every other (group, id) reads what it read before |
| `CacheFacade.DeleteIdempotent` | src/Cache.php:222-228 | deleting the same key twice leaves the backend as deleting it once |
| `CacheFacade.CleanModesPartition` | src/Cache.php:248 | clean(g, "group") and clean(g, any other mode) keep disjoint sets of keys, and together they keep every key with its value |
| `CacheFacade.CleanGroupRemovesExactlyGroup` | src/Cache.php:242-257 | clean(g, "group") keeps exactly the keys without the prefix `context-cache-g-` |
| `CacheFacade.CleanOtherModeRemovesExactlyOutside` | src/Cache.php:242-257 | clean(g, m) with m not "group", null included, keeps exactly the keys with the prefix `context-cache-g-` |
| `CacheFacade.CleanGroupThenGet` | src/Cache.php:242-257 | with groups free of '-', after clean(g, "group") the items of g miss and the items of every other group read what they read before |
| `CacheFacade.CleanOtherModeThenGet` | src/Cache.php:242-257 | with groups free of '-', after clean(g, m) with m not "group" the items of g read what they read before and those of every other group miss |
| `CacheFacade.CleanGroupTakesSubGroups` | src/Cache.php:248 | clean(g, "group") also removes the items of group "g-h" |
| `CacheFacade.CleanOtherModeCrossesContexts` | src/Cache.php:248 | clean in a mode other than "group" also removes the items of another context of the same length |
| `CacheFacade.CleanIdempotent` | src/Cache.php:253-257 | after a successful clean nothing is selected, so the same clean again succeeds without a bulk delete and changes nothing |
| `CacheFacade.GroupCleanScenario` | src/Cache.php:202-257 | set "x" as (a, g1), set "y" as (b, g2), clean(g1, "group"): get(a, g1) misses and get(b, g2) returns "y" |
| `CacheFacade.ContextScenario` | src/Cache.php:134-151 | the context reads "__default" until set, and reads the new context through the facade that setContext returns |

## Left out

- Backend selection in the constructor (src/Cache.php:51-120) is left out: the switch over adapter names, the `class_exists` and `isSupported` checks and their exceptions, the Memcached server setup, and the DI container. The model's constructor receives the backend.
- `CacheFacade.Cache.constructor`: the `(int)` cast of a non-integer `ttl` option is not modelled. The option comes in as an optional integer.
- The `rawname` and `options` fields play no part in the operations and are not modelled.
- Expiry is not modelled. The lifetime is stored with each entry, but items never expire or get evicted.
- Wall-clock time is not modelled.
- `ItemPool.Pool.DeleteItems`: backend failure is all-or-nothing in the model. A real bulk delete that fails part-way, leaving some keys deleted, is not modelled.
- `ItemPool.Pool.DeleteItem`: deleting a missing key succeeds on a writable backend. Real backends differ on this.
- `ItemPool.Pool.GetItems`: the model takes `getItems()` called with no keys (src/Cache.php:181) to return every stored item. The pool library's own `getItems` is not part of this model.
- `ItemPool.Pool.Save`: failure depends only on the `writable` flag, never on the key or the value. Per-key rejections, such as Memcached refusing keys longer than 250 bytes, are not modelled. The same holds for `ItemPool.Pool.DeleteItem` and `ItemPool.Pool.DeleteItems`.
- `ItemPool.Pool.GetKeys`: the enumeration is exact and includes every stored key. The Memcached `getAllKeys` behind it (src/Adapter/Memcached.php:16-20) is best-effort, and the other backends' enumerations are not part of this model.
- `CacheFacade.Cache.Get`: in PHP a stored `null` and a miss both come back as `null`. The model keeps them apart, because stored values are not nullable.
- `CacheKeys.Selected`: `mode` is null or a string. PHP's loose `!=` on a non-string mode (an integer `0` or `true` compares equal to `"group"` in PHP 7) is not modelled.
- Strings are sequences of characters, not bytes.
- Concurrent access to one backend from several processes is not modelled. Neither is last-writer-wins between them.
- The service provider (src/Service/CacheProvider.php) only registers the facade with the DI container. It has no logic to model.
