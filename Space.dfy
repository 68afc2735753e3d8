/** CSpace: the registry of every entity in the arena.  An entity is known
    by its qualified name (context followed by id); the space keeps the
    vector of all entities, the vector of root (parentless) entities, the map
    from qualified name to entity and the per-type map of those, together with
    the simulation clock and the vector of controllable entities. */
module Space {
  import opened Errors
  import opened Sequences

  const WORD: int := 0x1_0000_0000

  /** UInt32 */
  type UInt32 = n: int | 0 <= n < WORD

  /** The parts of a CEntity that the registry looks at. */
  datatype Entity = Entity(context: string, id: string, typeDescription: string, hasParent: bool)

  /** The qualified name an entity is indexed under. */
  function Name(e: Entity): string {
    e.context + e.id
  }

  /** The entities of s carry strictly increasing indices. */
  ghost predicate Ascending(s: seq<Entity>, index: map<Entity, nat>) {
    (forall e :: e in s ==> e in index)
    && forall m, n :: 0 <= m < n < |s| ==> index[s[m]] < index[s[n]]
  }

  /** Erasing one position keeps the indices strictly increasing, and the
      erased entity occurs nowhere else. */
  lemma AscendingErase(s: seq<Entity>, i: nat, index: map<Entity, nat>)
    requires Ascending(s, index) && i < |s|
    ensures Ascending(s[..i] + s[i + 1..], index)
    ensures forall x :: x in s[..i] + s[i + 1..] <==> x in s && x != s[i]
  {
    var r := s[..i] + s[i + 1..];
    forall m, n | 0 <= m < n < |r|
      ensures index[r[m]] < index[r[n]]
    {
      var m' := if m < i then m else m + 1;
      var n' := if n < i then n else n + 1;
      assert r[m] == s[m'] && r[n] == s[n'];
    }
    forall m | 0 <= m < |r|
      ensures r[m] != s[i]
    {
      var m' := if m < i then m else m + 1;
      assert r[m] == s[m'];
    }
    assert s == s[..i] + [s[i]] + s[i + 1..];
  }

  /** Each registered entity is in the vector and under its own name in the
      id map, and nothing else is. */
  ghost predicate IdsAgree(entities: seq<Entity>, byId: map<string, Entity>) {
    (forall e {:trigger e in entities} :: e in entities ==> Name(e) in byId && byId[Name(e)] == e)
    && forall n {:trigger n in byId} :: n in byId ==> byId[n] in entities && Name(byId[n]) == n
  }

  /** The per-type map holds every registered entity under its type and
      name, and nothing else. */
  ghost predicate TypesAgree(byId: map<string, Entity>, byType: map<string, map<string, Entity>>) {
    (forall n {:trigger n in byId} :: n in byId ==>
       byId[n].typeDescription in byType && n in byType[byId[n].typeDescription])
    && forall t, n {:trigger n in byType[t]} :: t in byType && n in byType[t] ==>
         n in byId && byId[n] == byType[t][n] && byType[t][n].typeDescription == t
  }

  /** The root vector holds exactly the parentless entities, in index order. */
  ghost predicate RootsAgree(entities: seq<Entity>, roots: seq<Entity>, index: map<Entity, nat>) {
    Ascending(roots, index)
    && (forall e {:trigger e in roots} :: e in roots ==> e in entities && !e.hasParent)
    && forall e {:trigger e in entities} :: e in entities && !e.hasParent ==> e in roots
  }

  /** The indexes of CSpace: m_vecEntities, m_vecRootEntities,
      m_mapEntitiesPerId, m_mapEntitiesPerTypePerId, and the index each
      entity was given with CEntity::SetIndex. */
  datatype Indexes = Indexes(entities: seq<Entity>, roots: seq<Entity>, byId: map<string, Entity>,
                             byType: map<string, map<string, Entity>>, index: map<Entity, nat>)
  {
    /** The four indexes describe the same entities: the vector holds each
        registered entity once, ordered by index; the id map and the per-type
        map agree with it; the root vector holds exactly the parentless
        ones, also in index order. */
    ghost predicate Consistent() {
      Ascending(entities, index) && IdsAgree(entities, byId) && TypesAgree(byId, byType)
      && RootsAgree(entities, roots, index)
    }

    /** GetEntity: the entity registered under a qualified name; an unknown
        name is an error. */
    function GetEntity(name: string): (r: Result<Entity>)
      ensures r.Ok? <==> name in byId
      ensures r.Ok? && Consistent() ==> Name(r.value) == name && r.value in entities
    {
      if name in byId then Ok(byId[name]) else Fail("Unknown entity id")
    }
  }

  /** The index AddEntity gives: one more than the last entity's, or 0. */
  function NextIndex(entities: seq<Entity>, index: map<Entity, nat>): (idx: nat)
    requires Ascending(entities, index)
    ensures forall e :: e in entities ==> index[e] < idx
  {
    if entities == [] then 0
    else
      assert forall m :: 0 <= m < |entities| - 1 ==> index[entities[m]] < index[entities[|entities| - 1]];
      index[entities[|entities| - 1]] + 1
  }

  /** The per-type map of a type, empty for a type not seen yet. */
  function PerType(byType: map<string, map<string, Entity>>, t: string): map<string, Entity> {
    if t in byType then byType[t] else map[]
  }

  /** The indexes after AddEntity has accepted e. */
  function Register(x: Indexes, e: Entity): (r: Indexes)
    requires x.Consistent() && Name(e) !in x.byId
    ensures r.Consistent()
  {
    AddKeepsRegistry(x, e);
    Indexes(x.entities + [e], if e.hasParent then x.roots else x.roots + [e],
            x.byId[Name(e) := e],
            x.byType[e.typeDescription := PerType(x.byType, e.typeDescription)[Name(e) := e]],
            x.index[e := NextIndex(x.entities, x.index)])
  }

  /** The indexes after RemoveEntity has removed the registered entity e. */
  function Unregister(x: Indexes, e: Entity): (r: Indexes)
    requires x.Consistent() && e in x.entities
    ensures r.Consistent()
  {
    RemoveKeepsRegistry(x, e);
    var t := e.typeDescription;
    Indexes(EraseFirst(x.entities, e), if e.hasParent then x.roots else EraseFirst(x.roots, e),
            x.byId - {Name(e)}, x.byType[t := x.byType[t] - {Name(e)}], x.index)
  }

  lemma AddAscending(s: seq<Entity>, index: map<Entity, nat>, e: Entity, idx: nat)
    requires Ascending(s, index) && e !in s
    requires forall x :: x in s ==> index[x] < idx
    ensures Ascending(s + [e], index[e := idx])
  {
    var s' := s + [e];
    assert forall m :: 0 <= m < |s| ==> s'[m] == s[m] && s[m] in s;
  }

  lemma AddIds(entities: seq<Entity>, byId: map<string, Entity>, e: Entity)
    requires IdsAgree(entities, byId) && Name(e) !in byId
    ensures IdsAgree(entities + [e], byId[Name(e) := e])
  {
  }

  lemma AddTypes(byId: map<string, Entity>, byType: map<string, map<string, Entity>>, e: Entity)
    requires TypesAgree(byId, byType) && Name(e) !in byId
    ensures TypesAgree(byId[Name(e) := e], byType[e.typeDescription := PerType(byType, e.typeDescription)[Name(e) := e]])
  {
  }

  lemma AddRoots(entities: seq<Entity>, roots: seq<Entity>, index: map<Entity, nat>, e: Entity, idx: nat)
    requires RootsAgree(entities, roots, index) && e !in entities
    requires forall x :: x in entities ==> x in index && index[x] < idx
    ensures RootsAgree(entities + [e], if e.hasParent then roots else roots + [e], index[e := idx])
  {
    if e.hasParent {
      assert forall m :: 0 <= m < |roots| ==> roots[m] != e;
    } else {
      AddAscending(roots, index, e, idx);
    }
  }

  /** Appending an entity whose name is free, with the next index, keeps the
      indexes consistent. */
  lemma AddKeepsRegistry(x: Indexes, e: Entity)
    requires x.Consistent() && Name(e) !in x.byId
    ensures
      var idx := NextIndex(x.entities, x.index);
      Indexes(x.entities + [e], if e.hasParent then x.roots else x.roots + [e],
              x.byId[Name(e) := e],
              x.byType[e.typeDescription := PerType(x.byType, e.typeDescription)[Name(e) := e]],
              x.index[e := idx]).Consistent()
  {
    var idx := NextIndex(x.entities, x.index);
    AddAscending(x.entities, x.index, e, idx);
    AddIds(x.entities, x.byId, e);
    AddTypes(x.byId, x.byType, e);
    AddRoots(x.entities, x.roots, x.index, e, idx);
  }

  lemma RemoveTypes(byId: map<string, Entity>, byType: map<string, map<string, Entity>>, e: Entity)
    requires TypesAgree(byId, byType) && Name(e) in byId && byId[Name(e)] == e
    ensures e.typeDescription in byType
    ensures
      var t := e.typeDescription;
      TypesAgree(byId - {Name(e)}, byType[t := byType[t] - {Name(e)}])
  {
    var t := e.typeDescription;
    var byId' := byId - {Name(e)};
    var byType' := byType[t := byType[t] - {Name(e)}];
    forall n | n in byId'
      ensures byId'[n].typeDescription in byType' && n in byType'[byId'[n].typeDescription]
    {
      assert n != Name(e) && byId'[n] == byId[n];
    }
    forall u, n | u in byType' && n in byType'[u]
      ensures n in byId' && byId'[n] == byType'[u][n]
    {
      assert n in byType[u] && byType'[u][n] == byType[u][n];
      if u == t {
        assert n != Name(e);
      } else {
        assert n in byId && byId[n].typeDescription == u && n != Name(e);
      }
    }
  }

  /** Erasing an entity that occurs once keeps the order and removes only
      that entity. */
  lemma EraseFirstMembers(s: seq<Entity>, index: map<Entity, nat>, e: Entity)
    requires Ascending(s, index) && e in s
    ensures Ascending(EraseFirst(s, e), index)
    ensures forall x :: x in EraseFirst(s, e) <==> x in s && x != e
  {
    AscendingErase(s, IndexOf(s, e), index);
  }

  lemma RemoveIds(entities: seq<Entity>, byId: map<string, Entity>, index: map<Entity, nat>, e: Entity)
    requires IdsAgree(entities, byId) && Ascending(entities, index) && e in entities
    ensures IdsAgree(EraseFirst(entities, e), byId - {Name(e)})
  {
    EraseFirstMembers(entities, index, e);
  }

  lemma RemoveRoots(entities: seq<Entity>, roots: seq<Entity>, index: map<Entity, nat>, e: Entity)
    requires RootsAgree(entities, roots, index) && Ascending(entities, index) && e in entities
    ensures RootsAgree(EraseFirst(entities, e), if e.hasParent then roots else EraseFirst(roots, e), index)
  {
    if e.hasParent {
      RemoveChildKeepsRoots(entities, roots, index, e);
    } else {
      RemoveRootErases(entities, roots, index, e);
    }
  }

  lemma RemoveChildKeepsRoots(entities: seq<Entity>, roots: seq<Entity>, index: map<Entity, nat>, e: Entity)
    requires RootsAgree(entities, roots, index) && Ascending(entities, index) && e in entities && e.hasParent
    ensures RootsAgree(EraseFirst(entities, e), roots, index)
  {
    var s := EraseFirst(entities, e);
    EraseFirstMembers(entities, index, e);
    forall y | y in roots
      ensures y in s && !y.hasParent
    {
      assert y in entities && y != e;
    }
  }

  lemma RemoveRootErases(entities: seq<Entity>, roots: seq<Entity>, index: map<Entity, nat>, e: Entity)
    requires RootsAgree(entities, roots, index) && Ascending(entities, index) && e in entities && !e.hasParent
    ensures RootsAgree(EraseFirst(entities, e), EraseFirst(roots, e), index)
  {
    var s := EraseFirst(entities, e);
    var r := EraseFirst(roots, e);
    EraseFirstMembers(entities, index, e);
    assert e in roots;
    EraseFirstMembers(roots, index, e);
    forall y | y in r
      ensures y in s && !y.hasParent
    {
      assert y in roots && y != e;
    }
    forall y | y in s && !y.hasParent
      ensures y in r
    {
      assert y in entities && y != e;
    }
  }

  /** Erasing a registered entity from the vector, both maps and, when it has
      no parent, the root vector keeps the indexes consistent. */
  lemma RemoveKeepsRegistry(x: Indexes, e: Entity)
    requires x.Consistent() && e in x.entities
    ensures e.typeDescription in x.byType
    ensures
      var t := e.typeDescription;
      Indexes(EraseFirst(x.entities, e), if e.hasParent then x.roots else EraseFirst(x.roots, e),
              x.byId - {Name(e)}, x.byType[t := x.byType[t] - {Name(e)}], x.index).Consistent()
  {
    EraseFirstMembers(x.entities, x.index, e);
    RemoveIds(x.entities, x.byId, x.index, e);
    RemoveTypes(x.byId, x.byType, e);
    RemoveRoots(x.entities, x.roots, x.index, e);
  }

  /** An entity that is the one registered under its name whenever its
      type's map holds that name is in the per-type map exactly when it is
      in the vector. */
  lemma TypedIffRegistered(x: Indexes, e: Entity)
    requires x.Consistent() && ((e.typeDescription in x.byType && Name(e) in x.byType[e.typeDescription]) ==> x.byId[Name(e)] == e)
    ensures (e.typeDescription in x.byType && Name(e) in x.byType[e.typeDescription]) <==> e in x.entities
  {
    if e in x.entities {
      assert Name(e) in x.byId;
    }
  }

  /** RemoveEntity on the indexes: an entity that is not in the per-type
      map is refused and nothing changes; otherwise it is unregistered. */
  function Remove(x: Indexes, e: Entity): (r: (Status, Indexes))
    requires x.Consistent() && ((e.typeDescription in x.byType && Name(e) in x.byType[e.typeDescription]) ==> x.byId[Name(e)] == e)
    ensures r.1.Consistent()
    ensures r.0.Thrown? <==> e !in x.entities
    ensures r.0.Thrown? ==> r.1 == x
    ensures r.0.Done? ==> r.1 == Unregister(x, e)
  {
    TypedIffRegistered(x, e);
    var t := e.typeDescription;
    if t in x.byType && Name(e) in x.byType[t] then (Done, Unregister(x, e))
    else (Thrown("Entity has not been found in the indexes"), x)
  }

  /** An entity whose name is taken by an entity of another type is not in
      its type's map, so RemoveEntity refuses it and changes nothing. */
  lemma RemoveOtherTypeThrows(x: Indexes, e: Entity)
    requires x.Consistent() && Name(e) in x.byId && x.byId[Name(e)].typeDescription != e.typeDescription
    ensures !(e.typeDescription in x.byType && Name(e) in x.byType[e.typeDescription])
    ensures Remove(x, e) == (Thrown("Entity has not been found in the indexes"), x)
  {
  }

  /** After AddEntity the new entity is found under its name and every
      other name finds what it found before. */
  lemma RegisterFinds(x: Indexes, e: Entity)
    requires x.Consistent() && Name(e) !in x.byId
    ensures Register(x, e).GetEntity(Name(e)) == Ok(e)
    ensures forall n :: n != Name(e) ==> Register(x, e).GetEntity(n) == x.GetEntity(n)
  {
  }

  /** After AddEntity the new entity is last in the vector, after the
      unchanged earlier entities; it is a root exactly when it has no parent;
      and its index is above every earlier entity's, whose indices are
      kept. */
  lemma RegisterOrder(x: Indexes, e: Entity)
    requires x.Consistent() && Name(e) !in x.byId
    ensures e in Register(x, e).roots <==> !e.hasParent
    ensures forall y :: y in x.entities ==> Register(x, e).index[y] == x.index[y] < Register(x, e).index[e]
    ensures Register(x, e).entities[..|x.entities|] == x.entities
    ensures Register(x, e).entities[|x.entities|] == e
  {
    var r := Register(x, e);
    assert e !in x.entities;
    assert r.entities[..|x.entities|] == x.entities;
  }

  /** After RemoveEntity the name finds nothing, every other name finds what
      it found before, and the entity has left the vector and the root
      vector while every other entity stays. */
  lemma UnregisterSpec(x: Indexes, e: Entity)
    requires x.Consistent() && e in x.entities
    ensures Unregister(x, e).GetEntity(Name(e)).Fail?
    ensures forall n :: n != Name(e) ==> Unregister(x, e).GetEntity(n) == x.GetEntity(n)
    ensures forall y :: y in Unregister(x, e).entities <==> y in x.entities && y != e
    ensures forall y :: y in Unregister(x, e).roots <==> y in x.roots && y != e
  {
    var r := Unregister(x, e);
    assert forall y :: y in r.entities <==> y in x.entities && y != e;
  }

  /** Removing a key just added gives back the map before. */
  lemma MapRestore(m: map<string, Entity>, k: string, v: Entity)
    requires k !in m
    ensures m[k := v] - {k} == m
  {
  }

  /** Adding a name to a type's map and then removing it gives back every
      per-type map that existed before. */
  lemma TypesRestore(byType: map<string, map<string, Entity>>, t: string, name: string, e: Entity)
    requires name !in PerType(byType, t)
    ensures
      var added := byType[t := PerType(byType, t)[name := e]];
      var removed := added[t := added[t] - {name}];
      forall u :: u in byType ==> u in removed && removed[u] == byType[u]
  {
    MapRestore(PerType(byType, t), name, e);
  }

  /** RemoveEntity undoes AddEntity: the vectors and the id map come back
      as they were, and so does every per-type map that existed before. */
  lemma {:induction false} UnregisterUndoesRegister(x: Indexes, e: Entity)
    requires x.Consistent() && Name(e) !in x.byId
    ensures e in Register(x, e).entities
    ensures
      var r := Unregister(Register(x, e), e);
      r.entities == x.entities && r.roots == x.roots && r.byId == x.byId
      && forall t :: t in x.byType ==> t in r.byType && r.byType[t] == x.byType[t]
  {
    assert e !in x.entities;
    EraseAppended(x.entities, e);
    if !e.hasParent {
      assert e !in x.roots;
      EraseAppended(x.roots, e);
    }
    MapRestore(x.byId, Name(e), e);
    TypesRestore(x.byType, e.typeDescription, Name(e), e);
  }

  class Space {
    /** The entity vectors and maps. */
    var indexes: Indexes
    /** m_unSimulationClock */
    var clock: UInt32
    /** m_vecControllableEntities */
    var controllables: seq<Entity>
    /** The entities on which CEntity::Reset was called, in call order. */
    var resetCalls: seq<Entity>

    ghost predicate Valid()
      reads this
    {
      indexes.Consistent()
    }

    constructor()
      ensures Valid()
      ensures indexes == Indexes([], [], map[], map[], map[])
      ensures clock == 0 && controllables == [] && resetCalls == []
    {
      indexes := Indexes([], [], map[], map[], map[]);
      clock, controllables, resetCalls := 0, [], [];
    }

    /** AddEntity: an entity whose qualified name is taken is refused;
        otherwise it joins the root vector when it has no parent, gets the
        index after the last entity's (0 for the first), and joins the
        vector, the id map and the per-type map. */
    method AddEntity(e: Entity) returns (s: Status)
      requires Valid()
      modifies this
      ensures Valid()
      ensures s.Thrown? <==> Name(e) in old(indexes.byId)
      ensures s.Thrown? ==> indexes == old(indexes)
      ensures s.Done? ==> indexes == Register(old(indexes), e)
      ensures clock == old(clock) && controllables == old(controllables) && resetCalls == old(resetCalls)
    {
      var name := Name(e);
      if name in indexes.byId {
        return Thrown("An entity with that id already exists");
      }
      indexes := Register(indexes, e);
      return Done;
    }

    /** RemoveEntity: an entity that is not in the per-type map is refused;
        otherwise it is erased from the vector, both maps and, when it has no
        parent, the root vector.  When its type's map holds its name, the
        entity handed in is the one registered under that name. */
    method RemoveEntity(e: Entity) returns (s: Status)
      requires Valid()
      requires (e.typeDescription in indexes.byType && Name(e) in indexes.byType[e.typeDescription])
                 ==> indexes.byId[Name(e)] == e
      modifies this
      ensures Valid()
      ensures s.Thrown? <==> e !in old(indexes.entities)
      ensures s.Thrown? ==> indexes == old(indexes)
      ensures s.Done? ==> e in old(indexes.entities) && indexes == Unregister(old(indexes), e)
      ensures clock == old(clock) && controllables == old(controllables) && resetCalls == old(resetCalls)
    {
      var r := Remove(indexes, e);
      s, indexes := r.0, r.1;
    }

    /** GetSimulationClock */
    function SimulationClock(): UInt32
      reads this
    {
      clock
    }

    /** SetSimulationClock */
    method SetSimulationClock(c: UInt32)
      modifies this
      ensures clock == c
      ensures indexes == old(indexes) && controllables == old(controllables) && resetCalls == old(resetCalls)
    {
      clock := c;
    }

    /** IncreaseSimulationClock: the clock advances by the increase (1 by
        default), wrapping around as an unsigned 32-bit counter. */
    method IncreaseSimulationClock(increase: UInt32)
      modifies this
      ensures clock == (old(clock) + increase) % WORD
      ensures old(clock) + increase < WORD ==> clock == old(clock) + increase
      ensures indexes == old(indexes) && controllables == old(controllables) && resetCalls == old(resetCalls)
    {
      clock := (clock + increase) % WORD;
    }

    /** Reset: the clock goes back to 0 and every entity is reset, in the
        order of the entity vector. */
    method Reset()
      modifies this
      ensures clock == 0
      ensures resetCalls == old(resetCalls) + old(indexes.entities)
      ensures indexes == old(indexes) && controllables == old(controllables)
    {
      clock := 0;
      var entities := indexes.entities;
      var i := 0;
      while i < |entities|
        invariant 0 <= i <= |entities|
        invariant resetCalls == old(resetCalls) + entities[..i]
        invariant clock == 0 && indexes == old(indexes) && controllables == old(controllables)
      {
        resetCalls := resetCalls + [entities[i]];
        i := i + 1;
      }
      assert entities[..i] == entities;
    }

    /** AddControllableEntity appends to the controllable vector. */
    method AddControllableEntity(e: Entity)
      modifies this
      ensures controllables == old(controllables) + [e]
      ensures indexes == old(indexes) && clock == old(clock) && resetCalls == old(resetCalls)
    {
      controllables := controllables + [e];
    }

    /** RemoveControllableEntity erases the first occurrence of the entity;
        an entity that is not there changes nothing. */
    method RemoveControllableEntity(e: Entity)
      modifies this
      ensures controllables == EraseFirst(old(controllables), e)
      ensures indexes == old(indexes) && clock == old(clock) && resetCalls == old(resetCalls)
    {
      var i := Find(controllables, e);
      if i < |controllables| {
        controllables := controllables[..i] + controllables[i + 1..];
      }
    }
  }

  /** The indices of the engines whose volume contains the entity's origin,
      in engine order. */
  function Matching(contains: seq<bool>): (r: seq<nat>)
    ensures forall m :: 0 <= m < |r| ==> r[m] < |contains|
  {
    if |contains| == 0 then []
    else Matching(contains[..|contains| - 1]) + (if contains[|contains| - 1] then [|contains| - 1] else [])
  }

  /** Matching holds exactly the containing engines, each once, ascending. */
  lemma {:induction false} MatchingSpec(contains: seq<bool>)
    ensures forall i :: 0 <= i < |contains| ==> (i in Matching(contains) <==> contains[i])
    ensures forall m, n :: 0 <= m < n < |Matching(contains)| ==> Matching(contains)[m] < Matching(contains)[n]
  {
    if |contains| > 0 {
      var init := contains[..|contains| - 1];
      MatchingSpec(init);
      assert forall i :: 0 <= i < |init| ==> init[i] == contains[i];
      assert |contains| - 1 !in Matching(init);
    }
  }

  /** The engines a movable entity is offered to: the matching engines up to
      and including the first that accepts it. */
  function UntilAccepted(candidates: seq<nat>, accepts: seq<bool>): (r: seq<nat>)
    requires forall m :: 0 <= m < |candidates| ==> candidates[m] < |accepts|
  {
    if |candidates| == 0 then []
    else if accepts[candidates[0]] then [candidates[0]]
    else [candidates[0]] + UntilAccepted(candidates[1..], accepts)
  }

  /** UntilAccepted is a prefix of the candidates in which only the last can
      have accepted, and it ends on an accepting engine whenever one exists. */
  lemma {:induction false} UntilAcceptedSpec(candidates: seq<nat>, accepts: seq<bool>)
    requires forall m :: 0 <= m < |candidates| ==> candidates[m] < |accepts|
    ensures UntilAccepted(candidates, accepts) <= candidates
    ensures forall m :: 0 <= m < |UntilAccepted(candidates, accepts)| - 1 ==>
      !accepts[UntilAccepted(candidates, accepts)[m]]
    ensures (exists m :: 0 <= m < |candidates| && accepts[candidates[m]]) <==>
      (|UntilAccepted(candidates, accepts)| > 0 && accepts[UntilAccepted(candidates, accepts)[|UntilAccepted(candidates, accepts)| - 1]])
  {
    if |candidates| > 0 && !accepts[candidates[0]] {
      UntilAcceptedSpec(candidates[1..], accepts);
      var rest := candidates[1..];
      assert forall m :: 0 < m < |candidates| ==> candidates[m] == rest[m - 1];
      assert forall m :: 0 <= m < |rest| ==> rest[m] == candidates[m + 1];
    }
  }

  /** The first loop of AddEntityToPhysicsEngine: collect the engines whose
      volume contains the entity's origin. */
  method CollectMatching(contains: seq<bool>) returns (potential: seq<nat>)
    ensures potential == Matching(contains)
  {
    potential := [];
    var i := 0;
    while i < |contains|
      invariant i <= |contains|
      invariant potential == Matching(contains[..i])
    {
      assert contains[..i + 1][..i] == contains[..i];
      if contains[i] {
        potential := potential + [i];
      }
      i := i + 1;
    }
    assert contains[..i] == contains;
  }

  /** Offer the entity to every candidate; report whether any accepted. */
  method OfferAll(candidates: seq<nat>, accepts: seq<bool>) returns (added: bool)
    requires forall m :: 0 <= m < |candidates| ==> candidates[m] < |accepts|
    ensures added <==> exists m :: 0 <= m < |candidates| && accepts[candidates[m]]
  {
    added := false;
    var n := 0;
    while n < |candidates|
      invariant n <= |candidates|
      invariant added <==> exists m :: 0 <= m < n && accepts[candidates[m]]
    {
      added := added || accepts[candidates[n]];
      n := n + 1;
    }
  }

  /** Offer the entity to the candidates in order until one accepts it. */
  method OfferUntilAccepted(candidates: seq<nat>, accepts: seq<bool>) returns (offered: seq<nat>, added: bool)
    requires forall m :: 0 <= m < |candidates| ==> candidates[m] < |accepts|
    ensures offered == UntilAccepted(candidates, accepts)
    ensures added <==> exists m :: 0 <= m < |candidates| && accepts[candidates[m]]
  {
    UntilAcceptedSpec(candidates, accepts);
    offered := [];
    var n := 0;
    while n < |candidates|
      invariant n <= |candidates|
      invariant offered == candidates[..n]
      invariant forall m :: 0 <= m < n ==> !accepts[candidates[m]]
      invariant |UntilAccepted(candidates, accepts)| >= n
      invariant UntilAccepted(candidates[n..], accepts) == UntilAccepted(candidates, accepts)[n..]
    {
      offered := offered + [candidates[n]];
      if accepts[candidates[n]] {
        return offered, true;
      }
      assert candidates[n..][1..] == candidates[n + 1..];
      n := n + 1;
    }
    assert candidates[..n] == candidates;
    return offered, false;
  }

  /** AddEntityToPhysicsEngine.  contains[i] is whether engine i's volume
      holds the entity's origin, accepts[i] what engine i's AddEntity answers.
      No matching engine is an error; a non-movable entity is offered to every
      matching engine and fails only if none accepted it; a movable entity is
      offered to the matching engines in order until one accepts it, and fails
      if none does.  offered lists the engines whose AddEntity was called. */
  method AddEntityToPhysicsEngine(contains: seq<bool>, accepts: seq<bool>, movable: bool)
    returns (offered: seq<nat>, s: Status)
    requires |contains| == |accepts|
    ensures Matching(contains) == [] ==> s.Thrown? && offered == []
    ensures Matching(contains) != [] && !movable ==> offered == Matching(contains)
    ensures Matching(contains) != [] && movable ==> offered == UntilAccepted(Matching(contains), accepts)
    ensures s.Done? <==> exists m :: 0 <= m < |Matching(contains)| && accepts[Matching(contains)[m]]
  {
    var potential := CollectMatching(contains);
    if potential == [] {
      return [], Thrown("No physics engines available to house entity");
    }
    var added: bool;
    if !movable {
      added := OfferAll(potential, accepts);
      offered := potential;
    } else {
      offered, added := OfferUntilAccepted(potential, accepts);
    }
    if !added {
      return offered, Thrown("None of the matching physics engines can house the entity");
    }
    return offered, Done;
  }

  datatype Vector3 = Vector3(x: real, y: real, z: real)

  /** The product of the layout computed on UInt32 words, as the generator
      does. */
  function Capacity(l0: UInt32, l1: UInt32, l2: UInt32): (c: UInt32)
  {
    ((l0 * l1) % WORD) * l2 % WORD
  }

  /** The grid slot of the n-th placed entity: along x first, then y, then z. */
  function Slot(n: nat, l0: UInt32, l1: UInt32): (r: (nat, nat, nat))
    requires l0 > 0 && (l0 * l1) % WORD > 0
  {
    (n % l0, (n / l0) % l1, n / ((l0 * l1) % WORD))
  }

  /** Every entity placed before the capacity is reached gets a slot inside
      the layout. */
  lemma SlotInLayout(n: nat, l0: UInt32, l1: UInt32, l2: UInt32)
    requires l0 > 0 && l1 > 0 && l2 > 0 && n < Capacity(l0, l1, l2)
    ensures (l0 * l1) % WORD > 0
    ensures Slot(n, l0, l1).0 < l0 && Slot(n, l0, l1).1 < l1 && Slot(n, l0, l1).2 < l2
  {
    var p := (l0 * l1) % WORD;
    assert Capacity(l0, l1, l2) == (p * l2) % WORD;
    assert p * l2 >= 0;
    assert p > 0;
    DivBelow(n, p, l2);
  }

  /** n < p * l implies n / p < l. */
  lemma DivBelow(n: nat, p: nat, l: nat)
    requires p > 0 && n < p * l
    ensures n / p < l
  {
    MulMono(p, l, n / p);
    assert p * (n / p) <= n;
  }

  lemma MulMono(a: nat, b: nat, c: nat)
    ensures b <= c ==> a * b <= a * c
  {
  }

  /** Without wrap-around, the slot reads back the count it came from, so no
      two placed entities share a slot. */
  lemma SlotRoundTrip(n: nat, l0: UInt32, l1: UInt32)
    requires l0 > 0 && l1 > 0 && 0 < l0 * l1 < WORD
    ensures n == Slot(n, l0, l1).0 + l0 * Slot(n, l0, l1).1 + l0 * l1 * Slot(n, l0, l1).2
  {
    var q := n / l0;
    assert n == n % l0 + l0 * q;
    assert q == q % l1 + l1 * (q / l1);
    assert (l0 * l1) % WORD == l0 * l1;
    assert n / (l0 * l1) == q / l1 by {
      DivOfDiv(n, l0, l1);
    }
    assert l0 * q == l0 * (q % l1) + l0 * l1 * (q / l1);
  }

  lemma DivOfDiv(n: nat, a: nat, b: nat)
    requires a > 0 && b > 0
    ensures n / (a * b) == n / a / b
  {
    var m := n / a;
    assert n == n % a + a * m;
    assert m == m % b + b * (m / b);
    DivOfParts(n, a, b, n % a, m % b, m / b);
  }

  lemma DivOfParts(n: nat, a: nat, b: nat, s: nat, r: nat, q: nat)
    requires a > 0 && b > 0 && s < a && r < b && n == s + a * (r + b * q)
    ensures n / (a * b) == q
  {
    Regroup(a, r, b, q);
    RemainderBelow(a, r, b);
    DivFromParts(n, a * b, q, s + a * r);
  }

  lemma Regroup(a: nat, r: nat, b: nat, q: nat)
    ensures a * (r + b * q) == a * r + (a * b) * q
  {
    assert a * (b * q) == (a * b) * q;
  }

  lemma RemainderBelow(a: nat, r: nat, b: nat)
    requires r < b
    ensures a * r + a <= a * b
  {
    MulMono(a, r + 1, b);
  }

  lemma DivFromParts(n: nat, d: nat, q: nat, r: nat)
    requires d > 0 && r < d && n == r + d * q
    ensures n / d == q
  {
    var q' := n / d;
    var r' := n % d;
    assert n == r' + d * q';
    MulMono(d, q' + 1, q);
    MulMono(d, q + 1, q');
  }

  /** The position of the entity in a slot: the layout is centred on the
      centre, and slot 0 is its corner with the largest coordinates. */
  function Position(center: Vector3, distances: Vector3, l0: UInt32, l1: UInt32, l2: UInt32,
                    slot: (nat, nat, nat)): Vector3
  {
    Vector3(center.x + (l0 - 1) as real * distances.x * 0.5 - slot.0 as real * distances.x,
            center.y + (l1 - 1) as real * distances.y * 0.5 - slot.1 as real * distances.y,
            center.z + (l2 - 1) as real * distances.z * 0.5 - slot.2 as real * distances.z)
  }

  /** GridGenerator: places entities on a layout[0] x layout[1] x layout[2]
      grid, one slot per call. */
  class GridGenerator {
    const center: Vector3
    const l0: UInt32
    const l1: UInt32
    const l2: UInt32
    const distances: Vector3
    /** m_unNumEntityPlaced */
    var placed: UInt32

    ghost predicate Valid()
      reads this
    {
      l0 > 0 && l1 > 0 && l2 > 0 && placed <= Capacity(l0, l1, l2)
    }

    constructor(c: Vector3, a: UInt32, b: UInt32, d: UInt32, dist: Vector3)
      requires a > 0 && b > 0 && d > 0
      ensures Valid()
      ensures center == c && l0 == a && l1 == b && l2 == d && distances == dist && placed == 0
    {
      center, l0, l1, l2, distances, placed := c, a, b, d, dist, 0;
    }

    /** operator(): a retry is an error; once the capacity is reached every
        call is an error; otherwise the next slot's position is returned and
        the count advances. */
    method Next(isRetry: bool) returns (r: Result<Vector3>)
      requires Valid()
      modifies this
      ensures Valid()
      ensures r.Fail? <==> isRetry || old(placed) == Capacity(l0, l1, l2)
      ensures r.Fail? ==> placed == old(placed)
      ensures r.Ok? ==> placed == old(placed) + 1
      ensures r.Ok? ==> (l0 * l1) % WORD > 0
      ensures r.Ok? ==> r.value == Position(center, distances, l0, l1, l2, Slot(old(placed), l0, l1))
    {
      if isRetry {
        return Fail("Impossible to place entity in grid");
      }
      if placed < Capacity(l0, l1, l2) {
        SlotInLayout(placed, l0, l1, l2);
        var p := Position(center, distances, l0, l1, l2, Slot(placed, l0, l1));
        placed := placed + 1;
        return Ok(p);
      }
      return Fail("Trying to place more entities than allowed by the layout");
    }
  }

  /** The GridGenerator constructor: a zero in the layout is an error. */
  method NewGridGenerator(c: Vector3, a: UInt32, b: UInt32, d: UInt32, dist: Vector3)
    returns (r: Result<GridGenerator>)
    ensures r.Fail? <==> a == 0 || b == 0 || d == 0
    ensures r.Ok? ==> fresh(r.value) && r.value.Valid() && r.value.placed == 0
    ensures r.Ok? ==> r.value.l0 == a && r.value.l1 == b && r.value.l2 == d
  {
    if a == 0 || b == 0 || d == 0 {
      return Fail("'layout' values must all be different than 0");
    }
    var g := new GridGenerator(c, a, b, d, dist);
    return Ok(g);
  }
}
