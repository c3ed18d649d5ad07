/**
 The pure part of the cache facade: how a (context, group, id) triple is
 turned into one backend key, how a missing group falls back to the default
 group, and which backend keys `clean` selects for deletion.

 Keys are plain strings joined with '-', with no escaping, so the naming is
 only injective when groups contain no '-'; the lemmas at the end of this
 module say exactly when it is and show the collisions when it is not.
 */
module CacheKeys {
  import opened Wrappers

  /** The context a new facade starts in. */
  const DefaultContext: string := "__default"

  /** The group used by get, set and delete when none is given. */
  const DefaultGroup: string := "default"

  /** The item lifetime, in seconds, when the configuration gives none. */
  const DefaultTtl: int := 900

  /** The mode under which `clean` deletes the group itself. */
  const GroupMode: string := "group"

  /** `isset($group) ? $group : $this->default_group`: a given group is
      used as it is, even the empty one; only a missing group falls back,
      so the default group is reached by null or by naming it. */
  function ResolveGroup(group: Option<string>): (r: string)
    ensures group.Some? ==> r == group.value
    ensures r == DefaultGroup <==> group == None || group == Some(DefaultGroup)
  {
    if group.Some? then group.value else DefaultGroup
  }

  /** Everything a key of `group` in `context` starts with:
      `context-cache-group-`. */
  function GroupPrefix(context: string, group: string): string
  {
    context + "-cache-" + group + "-"
  }

  /** The backend key of item `id` of `group` in `context`. */
  function CacheId(context: string, group: string, id: string): (key: string)
    ensures GroupPrefix(context, group) <= key
    ensures key[|GroupPrefix(context, group)|..] == id
    ensures |key| == |GroupPrefix(context, group)| + |id|
  {
    GroupPrefix(context, group) + id
  }

  /** needle occurs in hay starting at position i. */
  predicate OccursAt(hay: string, needle: string, i: nat)
  {
    i + |needle| <= |hay| && hay[i..i + |needle|] == needle
  }

  /** PHP's `strpos($hay, $needle, $from)`: the first position at or after
      `from` where needle occurs in hay, or None (PHP's `false`). */
  function StrPos(hay: string, needle: string, from: nat := 0): (r: Option<nat>)
    ensures r.Some? ==> from <= r.value && OccursAt(hay, needle, r.value)
    ensures forall i: nat | from <= i && OccursAt(hay, needle, i) :: r.Some? && r.value <= i
    decreases |hay| - from
  {
    if from + |needle| > |hay| then None
    else if OccursAt(hay, needle, from) then Some(from)
    else StrPos(hay, needle, from + 1)
  }

  /** `strpos($key, prefix) === 0`, the membership test of `clean`. Since
      the prefix is never empty, the first occurrence is at position 0
      exactly when the key starts with the prefix. */
  predicate InGroup(key: string, context: string, group: string)
    ensures InGroup(key, context, group) <==> GroupPrefix(context, group) <= key
  {
    StrPos(key, GroupPrefix(context, group)) == Some(0)
  }

  /** The filter of `clean`. In PHP `===` and `!=` bind tighter than `xor`,
      so this is (key in group) xor (mode is not "group"): mode "group"
      selects the keys in the group, and any other mode, null included,
      selects the keys outside it. */
  predicate Selected(key: string, context: string, group: string, mode: Option<string>)
    ensures mode == Some(GroupMode) ==> (Selected(key, context, group, mode) <==> InGroup(key, context, group))
    ensures mode != Some(GroupMode) ==> (Selected(key, context, group, mode) <==> !InGroup(key, context, group))
  {
    InGroup(key, context, group) != (mode != Some(GroupMode))
  }

  /** The `$todelete` array built by `clean` from an enumeration of keys:
      the selected keys, in enumeration order. */
  function ToDelete(keys: seq<string>, context: string, group: string, mode: Option<string>): (r: seq<string>)
    ensures |r| <= |keys|
    ensures forall k :: k in r <==> k in keys && Selected(k, context, group, mode)
  {
    if |keys| == 0 then []
    else
      var last := keys[|keys| - 1];
      ToDelete(keys[..|keys| - 1], context, group, mode) + (if Selected(last, context, group, mode) then [last] else [])
  }

  /** With groups free of '-', a key of group g2 starts with the prefix of
      group g1 exactly when the groups are equal: clean then selects
      precisely the keys written to its group. */
  lemma {:induction false} GroupMembershipExact(context: string, g1: string, g2: string, id: string)
    requires '-' !in g1 && '-' !in g2
    ensures InGroup(CacheId(context, g2, id), context, g1) <==> g1 == g2
  {
    var key := CacheId(context, g2, id);
    var p1 := GroupPrefix(context, g1);
    var n := |context| + 7;
    assert key == context + "-cache-" + g2 + "-" + id;
    assert p1 == context + "-cache-" + g1 + "-";
    if p1 <= key {
      // Both strings continue after `context-cache-` with a group and a
      // '-'; the first '-' after that point fixes the group's length.
      var j := if |g1| < |g2| then |g1| else |g2|;
      assert p1[n + j] == key[n + j];
      assert p1[n + j] == '-' <==> j == |g1|;
      assert key[n + j] == '-' <==> j == |g2|;
      assert g1 == p1[n..n + |g1|];
      assert g2 == key[n..n + |g2|];
      assert p1[n..n + |g1|] == key[n..n + |g1|];
    }
  }

  /** With groups free of '-', distinct (group, id) pairs of one context get
      distinct keys. */
  lemma CacheIdInjective(context: string, g1: string, id1: string, g2: string, id2: string)
    requires '-' !in g1 && '-' !in g2
    requires CacheId(context, g1, id1) == CacheId(context, g2, id2)
    ensures g1 == g2 && id1 == id2
  {
    GroupMembershipExact(context, g1, g2, id2);
  }

  /** Without that restriction keys collide: item "h-id" of group g and
      item "id" of group "g-h" share one backend key. */
  lemma CacheIdCollision(context: string, g: string, h: string, id: string)
    ensures CacheId(context, g, h + "-" + id) == CacheId(context, g + "-" + h, id)
    ensures h + "-" + id != id
  {
    assert |h + "-" + id| > |id|;
    assert CacheId(context, g, h + "-" + id) == context + "-cache-" + g + "-" + h + "-" + id;
  }

  /** The prefix test also catches sub-groups: every key of group "g-h" is
      in group g as far as clean is concerned. */
  lemma SubGroupInGroup(context: string, g: string, h: string, id: string)
    ensures InGroup(CacheId(context, g + "-" + h, id), context, g)
  {
    CacheIdCollision(context, g, h, id);
  }

  /** Keys of another context of the same length never start with this
      context's prefix: clean(g, "group") leaves them alone and clean in
      any other mode deletes them. */
  lemma {:induction false} OtherContextOutsideGroup(context: string, other: string, g1: string, g2: string, id: string, mode: Option<string>)
    requires |other| == |context| && other != context
    ensures !InGroup(CacheId(other, g2, id), context, g1)
    ensures Selected(CacheId(other, g2, id), context, g1, mode) <==> mode != Some(GroupMode)
  {
    var i :| 0 <= i < |context| && context[i] != other[i];
    var key := CacheId(other, g2, id);
    assert key == other + ("-cache-" + g2 + "-" + id);
    assert key[i] == other[i];
    assert GroupPrefix(context, g1) == context + ("-cache-" + g1 + "-");
    assert GroupPrefix(context, g1)[i] == context[i];
  }
}
