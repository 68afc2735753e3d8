/** What the LED- and tag-equipped entities share: a vector of instances,
    each a device attached to an anchor of the robot's body, and the
    enabling and disabling of those anchors for all instances at once. */
module Equipped {
  import opened EmbodiedEntity

  /** One device: its entity id, the one value the container changes on it
      (a colour, a payload), the id of the body anchor it is attached to,
      and the enabled flag of the device's own entity. Offsets, sizes and
      observation angles are not modelled. */
  datatype Instance<V> = Instance(id: string, value: V, anchor: string, enabled: bool)

  /** The anchor ids of the instances, in order. */
  function AnchorIds<V>(s: seq<Instance<V>>): (ids: seq<string>)
    ensures |ids| == |s| && forall k :: 0 <= k < |s| ==> ids[k] == s[k].anchor
  {
    if |s| == 0 then [] else AnchorIds(s[..|s| - 1]) + [s[|s| - 1].anchor]
  }

  /** The entity ids of the instances, in order. */
  function Ids<V>(s: seq<Instance<V>>): (ids: seq<string>)
    ensures |ids| == |s| && forall k :: 0 <= k < |s| ==> ids[k] == s[k].id
  {
    if |s| == 0 then [] else Ids(s[..|s| - 1]) + [s[|s| - 1].id]
  }

  /** Every id is an anchor of the body. */
  ghost predicate Known<Id>(a: Anchors<Id>, ids: seq<Id>) {
    forall k :: 0 <= k < |ids| ==> ids[k] in a.byId
  }

  /** Ids known to anchors stay known to anchors with the same ids. */
  lemma KnownKept<Id>(a: Anchors<Id>, b: Anchors<Id>, ids: seq<Id>)
    requires Known(a, ids) && a.byId.Keys == b.byId.Keys
    ensures Known(b, ids)
  {
    forall k | 0 <= k < |ids|
      ensures ids[k] in b.byId
    {
      assert ids[k] in a.byId.Keys;
    }
  }

  /** The anchor ids of the instances with one more instance appended. */
  lemma AnchorIdsAppend<V>(s: seq<Instance<V>>, x: Instance<V>)
    ensures AnchorIds(s + [x]) == AnchorIds(s) + [x.anchor]
    ensures Ids(s + [x]) == Ids(s) + [x.id]
  {
  }

  /** The anchors after each id, in order, is enabled once more. */
  function EnableAll<Id>(a: Anchors<Id>, origin: Id, ids: seq<Id>): (r: Anchors<Id>)
    requires a.Valid(origin) && Known(a, ids)
    ensures r.Valid(origin) && r.byId.Keys == a.byId.Keys
    decreases |ids|
  {
    if |ids| == 0 then a
    else
      var p := EnableAll(a, origin, ids[..|ids| - 1]);
      Enable(p, origin, ids[|ids| - 1])
  }

  /** The anchors after each id, in order, is disabled once. */
  function DisableAll<Id>(a: Anchors<Id>, origin: Id, ids: seq<Id>): (r: Anchors<Id>)
    requires a.Valid(origin)
    ensures r.Valid(origin) && r.byId.Keys == a.byId.Keys
    decreases |ids|
  {
    if |ids| == 0 then a
    else Disable(DisableAll(a, origin, ids[..|ids| - 1]), origin, ids[|ids| - 1])
  }

  /** Enabling the first i + 1 ids is enabling the first i, then id i. */
  lemma EnableAllStep<Id>(a: Anchors<Id>, origin: Id, ids: seq<Id>, i: nat)
    requires a.Valid(origin) && Known(a, ids) && i < |ids|
    ensures Known(a, ids[..i]) && Known(a, ids[..i + 1]) && ids[i] in a.byId
    ensures EnableAll(a, origin, ids[..i + 1]) == Enable(EnableAll(a, origin, ids[..i]), origin, ids[i])
  {
    assert ids[..i + 1][..i] == ids[..i];
  }

  /** Disabling the first i + 1 ids is disabling the first i, then id i. */
  lemma DisableAllStep<Id>(a: Anchors<Id>, origin: Id, ids: seq<Id>, i: nat)
    requires a.Valid(origin) && i < |ids|
    ensures DisableAll(a, origin, ids[..i + 1]) == Disable(DisableAll(a, origin, ids[..i]), origin, ids[i])
  {
    assert ids[..i + 1][..i] == ids[..i];
  }

  /** The prefix of all the ids is the ids. */
  lemma WholePrefix<Id>(ids: seq<Id>)
    ensures ids[..|ids|] == ids
  {
  }

  /** After enabling, every anchor that was enabled still is. */
  lemma {:induction false} EnableAllKeepsEnabled<Id>(a: Anchors<Id>, origin: Id, ids: seq<Id>)
    requires a.Valid(origin) && Known(a, ids)
    ensures forall x :: x in a.enabled ==> x in EnableAll(a, origin, ids).enabled
    decreases |ids|
  {
    if |ids| > 0 {
      var q := ids[..|ids| - 1];
      assert Known(a, q);
      EnableAllKeepsEnabled(a, origin, q);
    }
  }

  /** After enabling, every id is enabled. */
  lemma {:induction false} EnableAllEnables<Id>(a: Anchors<Id>, origin: Id, ids: seq<Id>)
    requires a.Valid(origin) && Known(a, ids)
    ensures forall x :: x in ids ==> x in EnableAll(a, origin, ids).enabled
    decreases |ids|
  {
    if |ids| > 0 {
      var q := ids[..|ids| - 1];
      var last := ids[|ids| - 1];
      assert Known(a, q);
      EnableAllEnables(a, origin, q);
      var p := EnableAll(a, origin, q);
      EnableAllKeepsEnabled(p, origin, [last]);
      assert [last][..0] == [];
      forall x | x in ids
        ensures x in EnableAll(a, origin, ids).enabled
      {
        if x != last {
          assert x in q;
        }
      }
    }
  }

  /** Enabling leaves every anchor that is not among the ids as it was. */
  lemma {:induction false} EnableLeavesOthers<Id>(a: Anchors<Id>, origin: Id, ids: seq<Id>, x: Id)
    requires a.Valid(origin) && Known(a, ids)
    requires x in a.byId && x !in ids
    ensures EnableAll(a, origin, ids).byId[x] == a.byId[x]
    decreases |ids|
  {
    if |ids| > 0 {
      var q := ids[..|ids| - 1];
      assert Known(a, q);
      EnableLeavesOthers(a, origin, q, x);
    }
  }

  /** Disabling leaves every anchor that is not among the ids as it was. */
  lemma {:induction false} DisableLeavesOthers<Id>(a: Anchors<Id>, origin: Id, ids: seq<Id>, x: Id)
    requires a.Valid(origin)
    requires x in a.byId && x !in ids
    ensures DisableAll(a, origin, ids).byId[x] == a.byId[x]
    decreases |ids|
  {
    if |ids| > 0 {
      DisableLeavesOthers(a, origin, ids[..|ids| - 1], x);
    }
  }

  /** One instance whose anchor is not the origin: disabling right after
      enabling restores the anchors. */
  lemma EnableThenDisableOne<Id>(a: Anchors<Id>, origin: Id, id: Id)
    requires a.Valid(origin) && id in a.byId && id != origin
    ensures Known(a, [id])
    ensures DisableAll(EnableAll(a, origin, [id]), origin, [id]) == a
  {
    assert [id][..0] == [];
    DisableUndoesEnable(a, origin, id);
  }

  /** The origin is never disabled, so an instance attached to it leaves
      one more use of the origin after Enable then Disable. */
  lemma OriginUseRemains<Id>(a: Anchors<Id>, origin: Id)
    requires a.Valid(origin)
    ensures Known(a, [origin])
    ensures DisableAll(EnableAll(a, origin, [origin]), origin, [origin]).byId[origin].inUseCount == a.byId[origin].inUseCount + 1
  {
    assert [origin][..0] == [];
  }

  /** Enables each id's anchor of the body in turn. */
  method EnableAnchors(body: EmbodiedEntity, ids: seq<string>)
    requires body.Valid() && Known(body.anchors, ids)
    modifies body
    ensures body.Valid() && Known(body.anchors, ids)
    ensures body.anchors == EnableAll(old(body.anchors), ORIGIN, ids)
    ensures forall x :: x in ids ==> x in body.anchors.enabled
    ensures body.models == old(body.models) && body.modelVector == old(body.modelVector)
  {
    ghost var a0 := body.anchors;
    for i := 0 to |ids|
      invariant body.Valid()
      invariant body.anchors == EnableAll(a0, ORIGIN, ids[..i])
      invariant body.models == old(body.models) && body.modelVector == old(body.modelVector)
    {
      EnableAllStep(a0, ORIGIN, ids, i);
      var s := body.EnableAnchor(ids[i]);
    }
    WholePrefix(ids);
    EnableAllEnables(a0, ORIGIN, ids);
    KnownKept(a0, body.anchors, ids);
  }

  /** Disables each id's anchor of the body in turn. */
  method DisableAnchors(body: EmbodiedEntity, ids: seq<string>)
    requires body.Valid() && Known(body.anchors, ids)
    modifies body
    ensures body.Valid() && Known(body.anchors, ids)
    ensures body.anchors == DisableAll(old(body.anchors), ORIGIN, ids)
    ensures body.models == old(body.models) && body.modelVector == old(body.modelVector)
  {
    ghost var a0 := body.anchors;
    for i := 0 to |ids|
      invariant body.Valid()
      invariant body.anchors == DisableAll(a0, ORIGIN, ids[..i])
      invariant body.models == old(body.models) && body.modelVector == old(body.modelVector)
    {
      DisableAllStep(a0, ORIGIN, ids, i);
      body.DisableAnchor(ids[i]);
    }
    WholePrefix(ids);
    KnownKept(a0, body.anchors, ids);
  }

  /** r is s with the enabled flag of every instance set to b, and nothing
      else changed. */
  ghost predicate Switched<V>(s: seq<Instance<V>>, r: seq<Instance<V>>, b: bool) {
    |r| == |s| && forall k :: 0 <= k < |s| ==> r[k] == s[k].(enabled := b)
  }

  /** CComposableEntity::SetEnabled on the container's components: the
      flag of each component in turn. */
  method SetEnabledAll<V>(s: seq<Instance<V>>, b: bool) returns (r: seq<Instance<V>>)
    ensures |r| == |s|
    ensures forall k :: 0 <= k < |s| ==> r[k].enabled == b
    ensures forall k :: 0 <= k < |s| ==> r[k].id == s[k].id && r[k].value == s[k].value && r[k].anchor == s[k].anchor
  {
    r := s;
    for i := 0 to |s|
      invariant |r| == |s|
      invariant forall k :: 0 <= k < i ==> r[k] == s[k].(enabled := b)
      invariant forall k :: i <= k < |s| ==> r[k] == s[k]
    {
      r := r[i := r[i].(enabled := b)];
    }
  }

  /** Switching the flags keeps the ids and the anchors. */
  lemma SwitchedKeepsIds<V>(s: seq<Instance<V>>, r: seq<Instance<V>>, b: bool)
    requires Switched(s, r, b)
    ensures Ids(r) == Ids(s) && AnchorIds(r) == AnchorIds(s)
  {
    SameIdsAndAnchors(s, r);
  }

  /** Enabling then disabling every instance, or the reverse, leaves only the
      flags changed: every instance ends with the last flag set. */
  lemma {:induction false} SwitchedTwice<V>(s: seq<Instance<V>>, r: seq<Instance<V>>, t: seq<Instance<V>>, b: bool, c: bool)
    requires Switched(s, r, b) && Switched(r, t, c)
    ensures Switched(s, t, c)
  {
    forall k | 0 <= k < |s|
      ensures t[k] == s[k].(enabled := c)
    {
      assert r[k] == s[k].(enabled := b);
    }
  }

  /** Instance i with value v. */
  function WithValue<V>(s: seq<Instance<V>>, i: nat, v: V): (r: seq<Instance<V>>)
    requires i < |s|
    ensures |r| == |s| && r[i].value == v && r[i].id == s[i].id && r[i].anchor == s[i].anchor
    ensures r[i].enabled == s[i].enabled
    ensures forall k :: 0 <= k < |s| && k != i ==> r[k] == s[k]
  {
    s[i := s[i].(value := v)]
  }

  /** Every instance with value v. */
  function WithAll<V>(s: seq<Instance<V>>, v: V): (r: seq<Instance<V>>)
    ensures |r| == |s|
    ensures forall k :: 0 <= k < |s| ==> r[k] == s[k].(value := v)
  {
    seq(|s|, k requires 0 <= k < |s| => s[k].(value := v))
  }

  /** Instance k with value vs[k], for every k. */
  function WithEach<V>(s: seq<Instance<V>>, vs: seq<V>): (r: seq<Instance<V>>)
    requires |vs| == |s|
    ensures |r| == |s|
    ensures forall k :: 0 <= k < |s| ==> r[k] == s[k].(value := vs[k])
  {
    seq(|s|, k requires 0 <= k < |s| => s[k].(value := vs[k]))
  }

  /** Setting every value to v is setting each to the k-th of n copies of
      v. */
  lemma AllIsEach<V>(s: seq<Instance<V>>, v: V)
    ensures WithAll(s, v) == WithEach(s, seq(|s|, _ => v))
  {
  }

  /** Two instance vectors that agree on every id and anchor have the same
      ids and anchor ids. */
  lemma SameIdsAndAnchors<V>(s: seq<Instance<V>>, t: seq<Instance<V>>)
    requires |s| == |t|
    requires forall k :: 0 <= k < |s| ==> s[k].id == t[k].id && s[k].anchor == t[k].anchor
    ensures Ids(s) == Ids(t) && AnchorIds(s) == AnchorIds(t)
  {
  }
}
