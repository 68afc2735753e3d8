/** An embodied entity: its named anchors, each with an in-use count, the
    vector of anchors currently enabled, and the physics models the engines
    created for it.  Positions and orientations are not modelled. */
module EmbodiedEntity {
  import opened Errors
  import opened Sequences

  /** The anchor every embodied entity has and can never disable. */
  const ORIGIN: string := "origin"

  /** An anchor, under an id of any type with equality (the entity uses
      strings). */
  datatype Anchor<Id> = Anchor(id: Id, index: nat, inUseCount: nat)

  /** Each anchor is filed under its id, with its own index below the
      number of anchors. */
  ghost predicate IdsAgree<Id>(byId: map<Id, Anchor<Id>>) {
    && (forall id :: id in byId ==> byId[id].id == id && byId[id].index < |byId|)
    && (forall a, b :: a in byId && b in byId && a != b ==> byId[a].index != byId[b].index)
  }

  /** The enabled vector holds, once each, exactly the anchors in use. */
  ghost predicate EnabledAgree<Id>(byId: map<Id, Anchor<Id>>, enabled: seq<Id>) {
    && NoDuplicates(enabled)
    && (forall k :: 0 <= k < |enabled| ==> enabled[k] in byId && byId[enabled[k]].inUseCount > 0)
    && (forall id :: id in byId && byId[id].inUseCount > 0 ==> id in enabled)
  }

  /** The anchor map and the vector of enabled anchors, by id. */
  datatype Anchors<Id> = Anchors(byId: map<Id, Anchor<Id>>, enabled: seq<Id>)
  {
    /** The origin anchor is, besides, always enabled. */
    ghost predicate Valid(origin: Id) {
      IdsAgree(byId) && EnabledAgree(byId, enabled)
      && origin in byId && byId[origin].inUseCount > 0
    }
  }

  /** Changing an anchor's count keeps ids and indices. */
  lemma CountKeepsIds<Id>(byId: map<Id, Anchor<Id>>, id: Id, c: nat)
    requires IdsAgree(byId) && id in byId
    ensures IdsAgree(byId[id := byId[id].(inUseCount := c)])
  {
    var m := byId[id := byId[id].(inUseCount := c)];
    assert m.Keys == byId.Keys;
    assert |m| == |byId|;
  }

  /** Counting one more user of an unused anchor appends it to the enabled
      vector; of a used one, leaves the vector. */
  lemma EnableKeepsEnabled<Id>(byId: map<Id, Anchor<Id>>, enabled: seq<Id>, id: Id)
    requires EnabledAgree(byId, enabled) && id in byId
    ensures var x := byId[id]; var c := x.inUseCount + 1;
            EnabledAgree(byId[id := x.(inUseCount := c)], if c == 1 then enabled + [id] else enabled)
  {
    var x := byId[id];
    var c := x.inUseCount + 1;
    var m := byId[id := x.(inUseCount := c)];
    var e := if c == 1 then enabled + [id] else enabled;
    forall k | 0 <= k < |e|
      ensures e[k] in m && m[e[k]].inUseCount > 0
    {
      if k < |enabled| {
        assert e[k] == enabled[k];
      }
    }
    forall other | other in m && m[other].inUseCount > 0
      ensures other in e
    {
      if other != id {
        assert byId[other] == m[other];
      }
    }
  }

  /** Counting one user less of an enabled anchor erases it from the
      vector when the count reaches zero. */
  lemma DisableKeepsEnabled<Id>(byId: map<Id, Anchor<Id>>, enabled: seq<Id>, id: Id)
    requires EnabledAgree(byId, enabled) && id in enabled
    ensures id in byId && byId[id].inUseCount > 0
    ensures var x := byId[id]; var c := x.inUseCount - 1;
            EnabledAgree(byId[id := x.(inUseCount := c)], if c == 0 then EraseFirst(enabled, id) else enabled)
  {
    var j :| 0 <= j < |enabled| && enabled[j] == id;
    if byId[id].inUseCount == 1 {
      LastUserErased(byId, enabled, id);
    } else {
      OtherUsersKept(byId, enabled, id);
    }
  }

  lemma LastUserErased<Id>(byId: map<Id, Anchor<Id>>, enabled: seq<Id>, id: Id)
    requires EnabledAgree(byId, enabled) && id in byId && byId[id].inUseCount == 1
    ensures EnabledAgree(byId[id := byId[id].(inUseCount := 0)], EraseFirst(enabled, id))
  {
    var m := byId[id := byId[id].(inUseCount := 0)];
    var e := EraseFirst(enabled, id);
    EraseFirstMembers(enabled, id);
    forall k | 0 <= k < |e|
      ensures e[k] in m && m[e[k]].inUseCount > 0
    {
      assert e[k] in enabled;
      var j :| 0 <= j < |enabled| && enabled[j] == e[k];
    }
    forall other | other in m && m[other].inUseCount > 0
      ensures other in e
    {
      assert byId[other] == m[other];
    }
  }

  lemma OtherUsersKept<Id>(byId: map<Id, Anchor<Id>>, enabled: seq<Id>, id: Id)
    requires EnabledAgree(byId, enabled) && id in byId && byId[id].inUseCount > 1
    ensures EnabledAgree(byId[id := byId[id].(inUseCount := byId[id].inUseCount - 1)], enabled)
  {
    var m := byId[id := byId[id].(inUseCount := byId[id].inUseCount - 1)];
    forall other | other in m && m[other].inUseCount > 0
      ensures other in enabled
    {
      if other != id {
        assert byId[other] == m[other];
      }
    }
  }

  /** The anchors after a new anchor id is added: its index is the number
      of anchors before, and it starts disabled. */
  function WithAnchor<Id>(a: Anchors<Id>, origin: Id, id: Id): (r: Anchors<Id>)
    requires a.Valid(origin) && id !in a.byId
    ensures r.Valid(origin)
    ensures id in r.byId && r.byId[id].index == |a.byId| && r.byId[id].inUseCount == 0
    ensures r.enabled == a.enabled
    ensures r.byId.Keys == a.byId.Keys + {id}
    ensures forall other :: other in a.byId ==> r.byId[other] == a.byId[other]
  {
    var r := Anchors(a.byId[id := Anchor(id, |a.byId|, 0)], a.enabled);
    assert |r.byId| == |a.byId| + 1;
    assert forall k :: 0 <= k < |r.enabled| ==> r.enabled[k] in a.byId;
    r
  }

  /** The anchors with anchor id's count set to c and the given enabled
      vector. */
  function Recount<Id>(a: Anchors<Id>, id: Id, c: nat, enabled: seq<Id>): Anchors<Id>
    requires id in a.byId
  {
    Anchors(a.byId[id := a.byId[id].(inUseCount := c)], enabled)
  }

  /** One more user of anchor id, appended to the enabled vector when it
      is its first. */
  function Incremented<Id>(a: Anchors<Id>, id: Id): Anchors<Id>
    requires id in a.byId
  {
    var c := a.byId[id].inUseCount + 1;
    Recount(a, id, c, if c == 1 then a.enabled + [id] else a.enabled)
  }

  /** One user less of anchor id, erased from the enabled vector when it
      was its last. */
  function Decremented<Id>(a: Anchors<Id>, id: Id): Anchors<Id>
    requires id in a.byId && a.byId[id].inUseCount > 0
  {
    var c := a.byId[id].inUseCount - 1;
    Recount(a, id, c, if c == 0 then EraseFirst(a.enabled, id) else a.enabled)
  }

  /** The anchors after one more user enables anchor id. */
  function Enable<Id>(a: Anchors<Id>, origin: Id, id: Id): (r: Anchors<Id>)
    requires a.Valid(origin) && id in a.byId
    ensures r.Valid(origin)
    ensures r.byId.Keys == a.byId.Keys
    ensures r.byId[id].inUseCount == a.byId[id].inUseCount + 1
    ensures id in r.enabled
    ensures r.enabled == if id in a.enabled then a.enabled else a.enabled + [id]
  {
    EnableFacts(a, origin, id);
    Incremented(a, id)
  }

  lemma EnableFacts<Id>(a: Anchors<Id>, origin: Id, id: Id)
    requires a.Valid(origin) && id in a.byId
    ensures var r := Incremented(a, id);
            && r.Valid(origin)
            && r.byId.Keys == a.byId.Keys
            && r.byId[id].inUseCount == a.byId[id].inUseCount + 1
            && id in r.enabled
            && r.enabled == if id in a.enabled then a.enabled else a.enabled + [id]
  {
    var x := a.byId[id];
    var c := x.inUseCount + 1;
    var r := Incremented(a, id);
    CountKeepsIds(a.byId, id, c);
    EnableKeepsEnabled(a.byId, a.enabled, id);
    assert r.byId[origin].inUseCount > 0 by {
      if origin != id {
        assert r.byId[origin] == a.byId[origin];
      }
    }
    assert id in a.enabled <==> x.inUseCount > 0;
  }

  /** The anchors after one user disables anchor id: the origin and
      anchors not enabled are left as they are. */
  function Disable<Id>(a: Anchors<Id>, origin: Id, id: Id): (r: Anchors<Id>)
    requires a.Valid(origin)
    ensures r.Valid(origin)
    ensures r.byId.Keys == a.byId.Keys
    ensures id == origin || id !in a.enabled ==> r == a
    ensures id != origin && id in a.enabled ==>
              r.byId[id].inUseCount == a.byId[id].inUseCount - 1
              && (id in r.enabled <==> a.byId[id].inUseCount > 1)
  {
    if id == origin || id !in a.enabled then a
    else
      DisableFacts(a, origin, id);
      Decremented(a, id)
  }

  lemma DisableFacts<Id>(a: Anchors<Id>, origin: Id, id: Id)
    requires a.Valid(origin) && id != origin && id in a.enabled
    ensures id in a.byId && a.byId[id].inUseCount > 0
    ensures var r := Decremented(a, id);
            && r.Valid(origin)
            && r.byId.Keys == a.byId.Keys
            && r.byId[id].inUseCount == a.byId[id].inUseCount - 1
            && (id in r.enabled <==> a.byId[id].inUseCount > 1)
  {
    DisableKeepsEnabled(a.byId, a.enabled, id);
    var x := a.byId[id];
    var c := x.inUseCount - 1;
    var r := Decremented(a, id);
    CountKeepsIds(a.byId, id, c);
    assert r.byId[origin] == a.byId[origin];
    if c == 0 {
      EraseFirstMembers(a.enabled, id);
    }
  }

  /** Disabling an anchor right after enabling it gives back the anchors as
      they were, enabled vector included. */
  lemma DisableUndoesEnable<Id>(a: Anchors<Id>, origin: Id, id: Id)
    requires a.Valid(origin) && id in a.byId && id != origin
    ensures Disable(Enable(a, origin, id), origin, id) == a
  {
    var d := Disable(Enable(a, origin, id), origin, id);
    RestoresMap(a, origin, id);
    RestoresVector(a, origin, id);
    assert d == Anchors(d.byId, d.enabled);
  }

  lemma RestoresMap<Id>(a: Anchors<Id>, origin: Id, id: Id)
    requires a.Valid(origin) && id in a.byId && id != origin
    ensures Disable(Enable(a, origin, id), origin, id).byId == a.byId
  {
    EnableIs(a, origin, id);
    DisableIs(Enable(a, origin, id), origin, id);
    CountRestored(a, id);
  }

  lemma EnableIs<Id>(a: Anchors<Id>, origin: Id, id: Id)
    requires a.Valid(origin) && id in a.byId
    ensures Enable(a, origin, id) == Incremented(a, id)
  {
  }

  lemma DisableIs<Id>(a: Anchors<Id>, origin: Id, id: Id)
    requires a.Valid(origin) && id in a.enabled && id != origin
    ensures id in a.byId && a.byId[id].inUseCount > 0
    ensures Disable(a, origin, id) == Decremented(a, id)
  {
  }

  lemma RestoresVector<Id>(a: Anchors<Id>, origin: Id, id: Id)
    requires a.Valid(origin) && id in a.byId && id != origin
    ensures Disable(Enable(a, origin, id), origin, id).enabled == a.enabled
  {
    if a.byId[id].inUseCount == 0 {
      EraseAppended(a.enabled, id);
    }
  }

  /** Counting one more user and then one less gives back the map. */
  lemma CountRestored<Id>(a: Anchors<Id>, id: Id)
    requires id in a.byId
    ensures Decremented(Incremented(a, id), id).byId == a.byId
  {
    var x := a.byId[id];
    var b := Incremented(a, id);
    assert b.byId == a.byId[id := x.(inUseCount := x.inUseCount + 1)];
    assert Decremented(b, id).byId == b.byId[id := x];
  }

  /** Enabling an anchor twice and disabling it once leaves it enabled. */
  lemma StillEnabledAfterOneDisable<Id>(a: Anchors<Id>, origin: Id, id: Id)
    requires a.Valid(origin) && id in a.byId
    ensures id in Disable(Enable(Enable(a, origin, id), origin, id), origin, id).enabled
  {
  }

  /** A physics model, by the handle of the object its engine created. */
  type Model = nat

  /** The vector holds each model once and every model of the map, no two
      engines share a model, and a movable entity has at most one model. */
  ghost predicate ModelsAgree(movable: bool, models: map<string, Model>, modelVector: seq<Model>) {
    && NoDuplicates(modelVector)
    && (forall e :: e in models ==> models[e] in modelVector)
    && (forall e, f :: e in models && f in models && e != f ==> models[e] != models[f])
    && (movable ==> |modelVector| <= 1)
  }

  /** Dropping an engine's model from the map and the vector keeps them
      consistent, and leaves the vector one shorter without that model. */
  lemma ModelRemoved(movable: bool, models: map<string, Model>, modelVector: seq<Model>, engineId: string)
    requires ModelsAgree(movable, models, modelVector) && engineId in models
    ensures var v := EraseFirst(modelVector, models[engineId]);
            && ModelsAgree(movable, models - {engineId}, v)
            && models[engineId] !in v
            && |v| == |modelVector| - 1
  {
    var model := models[engineId];
    var v := EraseFirst(modelVector, model);
    EraseFirstMembers(modelVector, model);
    forall e | e in models - {engineId}
      ensures (models - {engineId})[e] in v
    {
      assert models[e] != model;
    }
  }

  class EmbodiedEntity {
    const movable: bool
    var anchors: Anchors<string>
    /** Physics models by engine id, and in the order they were added. */
    var models: map<string, Model>
    var modelVector: seq<Model>

    /** The anchors and the models are consistent. */
    ghost predicate Valid()
      reads this
    {
      anchors.Valid(ORIGIN) && ModelsAgree(movable, models, modelVector)
    }

    /** An entity with only its origin anchor, enabled once, and no
        physics model. */
    constructor(movable: bool)
      ensures Valid() && this.movable == movable
      ensures anchors.byId == map[ORIGIN := Anchor(ORIGIN, 0, 1)]
      ensures anchors.enabled == [ORIGIN]
      ensures models == map[] && modelVector == []
    {
      this.movable := movable;
      anchors := Anchors(map[ORIGIN := Anchor(ORIGIN, 0, 1)], [ORIGIN]);
      models := map[];
      modelVector := [];
    }

    /** Adds a disabled anchor and returns its index; an id already in
        use is refused. */
    method AddAnchor(id: string) returns (r: Result<nat>)
      requires Valid()
      modifies this
      ensures Valid()
      ensures r.Fail? <==> id in old(anchors.byId)
      ensures r.Fail? ==> anchors == old(anchors)
      ensures r.Ok? ==> r.value == |old(anchors.byId)| && anchors == WithAnchor(old(anchors), ORIGIN, id)
      ensures models == old(models) && modelVector == old(modelVector)
    {
      if id in anchors.byId {
        return Fail("the entity already has an anchor with id " + id);
      }
      r := Ok(|anchors.byId|);
      anchors := WithAnchor(anchors, ORIGIN, id);
    }

    method EnableAnchor(id: string) returns (s: Status)
      requires Valid()
      modifies this
      ensures Valid()
      ensures s.Thrown? <==> id !in old(anchors.byId)
      ensures s.Thrown? ==> anchors == old(anchors)
      ensures s.Done? ==> anchors == Enable(old(anchors), ORIGIN, id)
      ensures models == old(models) && modelVector == old(modelVector)
    {
      if id !in anchors.byId {
        return Thrown("the entity has no anchor with id " + id);
      }
      anchors := Enable(anchors, ORIGIN, id);
      s := Done;
    }

    /** Looks id up in the enabled vector, and decreases its count,
        erasing it from the vector when the count reaches zero. */
    method DisableAnchor(id: string)
      requires Valid()
      modifies this
      ensures Valid()
      ensures anchors == Disable(old(anchors), ORIGIN, id)
      ensures models == old(models) && modelVector == old(modelVector)
    {
      var a := anchors;
      var r := a;
      if id != ORIGIN {
        var i := Find(a.enabled, id);
        if i < |a.enabled| {
          DisableFacts(a, ORIGIN, id);
          var c := a.byId[id].inUseCount - 1;
          var enabled := a.enabled;
          if c == 0 {
            enabled := enabled[..i] + enabled[i + 1..];
            EraseFirstAt(a.enabled, id, i);
          }
          r := Recount(a, id, c, enabled);
        }
      }
      assert r == Disable(a, ORIGIN, id);
      anchors := r;
    }

    function GetAnchor(id: string): (r: Result<Anchor<string>>)
      requires Valid()
      reads this
      ensures r.Fail? <==> id !in anchors.byId
      ensures r.Ok? ==> r.value.id == id && r.value.index < |anchors.byId|
    {
      if id in anchors.byId then Ok(anchors.byId[id]) else Fail("the entity has no anchor with id " + id)
    }

    /** Whether anchor id is in use, which is whether it is in the enabled
        vector; an unknown id is an error. */
    function IsAnchorEnabled(id: string): (r: Result<bool>)
      requires Valid()
      reads this
      ensures r.Fail? <==> id !in anchors.byId
      ensures r.Ok? ==> (r.value <==> id in anchors.enabled)
      ensures id == ORIGIN ==> r == Ok(true)
    {
      if id in anchors.byId then Ok(anchors.byId[id].inUseCount > 0)
      else Fail("the entity has no anchor with id " + id)
    }

    function GetPhysicsModelsNum(): nat
      reads this
    {
      |modelVector|
    }

    /** Associates the model an engine created for this entity; a movable
        entity that already has a model refuses a second one. */
    method AddPhysicsModel(engineId: string, model: Model) returns (s: Status)
      requires Valid() && model !in modelVector
      modifies this
      ensures Valid()
      ensures s.Thrown? <==> movable && |old(modelVector)| > 0
      ensures s.Thrown? ==> models == old(models) && modelVector == old(modelVector)
      ensures s.Done? ==> models == old(models)[engineId := model]
                          && modelVector == old(modelVector) + [model]
      ensures anchors == old(anchors)
    {
      if movable && |modelVector| > 0 {
        return Thrown("a movable embodied entity can't have more than 1 physics engine entity associated");
      }
      models := models[engineId := model];
      modelVector := modelVector + [model];
      s := Done;
    }

    /** Dissociates the model of engine engineId, from the map and from the
        vector; an engine without a model for this entity is an error. */
    method RemovePhysicsModel(engineId: string) returns (s: Status)
      requires Valid()
      modifies this
      ensures Valid()
      ensures s.Thrown? <==> engineId !in old(models)
      ensures s.Thrown? ==> models == old(models) && modelVector == old(modelVector)
      ensures s.Done? ==> models == old(models) - {engineId}
                          && modelVector == EraseFirst(old(modelVector), old(models)[engineId])
                          && old(models)[engineId] !in modelVector
                          && |modelVector| == |old(modelVector)| - 1
      ensures anchors == old(anchors)
    {
      if engineId !in models {
        return Thrown("the entity has no associated entity in physics engine " + engineId);
      }
      var model := models[engineId];
      var i := Find(modelVector, model);
      ModelRemoved(movable, models, modelVector, engineId);
      EraseFirstAt(modelVector, model, i);
      models := models - {engineId};
      modelVector := modelVector[..i] + modelVector[i + 1..];
      s := Done;
    }

    /** The index guard as written: only indices above the size are
        refused, and the slot read is the index itself. */
    function GetPhysicsModelAsWritten(idx: nat): (r: Result<nat>)
      reads this
      ensures r.Fail? <==> idx > |modelVector|
      ensures r.Ok? ==> r.value == idx
    {
      if idx > |modelVector| then Fail("index out of bounds") else Ok(idx)
    }

    /** The model at index idx, refusing every index the vector does not
        hold. */
    function GetPhysicsModel(idx: nat): (r: Result<Model>)
      reads this
      ensures r.Ok? <==> idx < |modelVector|
      ensures r.Ok? ==> r.value in modelVector
    {
      if idx >= |modelVector| then Fail("index out of bounds") else Ok(modelVector[idx])
    }

    function GetPhysicsModelOf(engineId: string): (r: Result<Model>)
      requires Valid()
      reads this
      ensures r.Fail? <==> engineId !in models
      ensures r.Ok? ==> r.value in modelVector
    {
      if engineId in models then Ok(models[engineId])
      else Fail("the entity has no associated entity in physics engine " + engineId)
    }
  }

  /** The guard as written lets the index equal to the size through, and
      that slot is past the end of the vector. */
  lemma GetPhysicsModelReadsPastEnd(e: EmbodiedEntity)
    ensures e.GetPhysicsModelAsWritten(|e.modelVector|).Ok?
    ensures e.GetPhysicsModelAsWritten(|e.modelVector|).value >= |e.modelVector|
  {
  }

  /** The corrected guard accepts exactly the indices the as-written guard
      accepts whose slot is inside the vector, and returns what is there. */
  lemma GetPhysicsModelCorrected(e: EmbodiedEntity, idx: nat)
    ensures e.GetPhysicsModel(idx).Ok? <==>
              e.GetPhysicsModelAsWritten(idx).Ok? && e.GetPhysicsModelAsWritten(idx).value < |e.modelVector|
    ensures e.GetPhysicsModel(idx).Ok? ==> e.GetPhysicsModel(idx).value == e.modelVector[idx]
  {
  }
}
