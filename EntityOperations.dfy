/** The per-entity-type operation table: a holder that stores one operation
    per entity type tag, the dispatch that falls back to a default value
    when an entity type has no operation, the comparator that orders
    entities by index, and the parent test. */
module EntityOperations {
  import opened Errors

  /** An entity as the table and the comparator see it: its creation
      index, the tag of its type, and its parent, if any. */
  datatype Entity = Entity(index: nat, tag: nat, parent: Option<nat>)

  predicate HasParent(e: Entity) {
    e.parent.Some?
  }

  /** The comparator ordering entities in sorted containers. */
  predicate Less(a: Entity, b: Entity) {
    a.index < b.index
  }

  /** The comparator is a strict weak order whose equivalence classes are
      the entities with one index: a sorted container keeps at most one
      entity per index. */
  lemma LessIsStrictWeakOrder(a: Entity, b: Entity, c: Entity)
    ensures !Less(a, a)
    ensures Less(a, b) && Less(b, c) ==> Less(a, c)
    ensures Less(a, b) ==> !Less(b, a)
    ensures !Less(a, b) && !Less(b, a) <==> a.index == b.index
  {
  }

  /** The slot of tag in the holder's vector, or None past its end. */
  function Lookup<Op>(slots: seq<Option<Op>>, tag: nat): (r: Option<Op>)
    ensures tag >= |slots| ==> r.None?
    ensures tag < |slots| ==> r == slots[tag]
  {
    if tag >= |slots| then None else slots[tag]
  }

  /** The slots after an operation is stored for tag, growing the vector
      with empty slots up to tag when it is too short. */
  function Stored<Op>(slots: seq<Option<Op>>, tag: nat, op: Op): (r: seq<Option<Op>>)
    ensures |r| == if tag < |slots| then |slots| else tag + 1
  {
    var grown := if tag >= |slots| then slots + Empty(tag + 1 - |slots|) else slots;
    grown[tag := Some(op)]
  }

  function Empty<Op>(n: nat): (r: seq<Option<Op>>)
    ensures |r| == n && forall k :: 0 <= k < n ==> r[k].None?
  {
    if n == 0 then [] else Empty(n - 1) + [None]
  }

  /** The operations the holder has, by tag. */
  function Table<Op>(slots: seq<Option<Op>>): (r: map<nat, Op>)
    ensures forall tag :: tag in r <==> Lookup(slots, tag).Some?
    ensures forall tag :: tag in r ==> Some(r[tag]) == Lookup(slots, tag)
  {
    map tag | 0 <= tag < |slots| && slots[tag].Some? :: slots[tag].value
  }

  /** Storing an operation for a tag sets that tag's entry in the table and
      changes no other: the vector growth is invisible to lookups. */
  lemma StoredTable<Op>(slots: seq<Option<Op>>, tag: nat, op: Op)
    ensures Table(Stored(slots, tag, op)) == Table(slots)[tag := op]
  {
    var r := Stored(slots, tag, op);
    forall t: nat
      ensures Lookup(r, t) == if t == tag then Some(op) else Lookup(slots, t)
    {
      if t != tag && t < |r| && t >= |slots| {
        assert r[t] == Empty<Op>(tag + 1 - |slots|)[t - |slots|];
      }
    }
    assert Table(r).Keys == Table(slots)[tag := op].Keys;
  }

  /** The holder of one operation per entity type tag. */
  class OperationHolder<Op> {
    var slots: seq<Option<Op>>

    constructor()
      ensures slots == []
    {
      slots := [];
    }

    /** Stores op for tag, creating empty slots up to tag if needed. */
    method Add(tag: nat, op: Op)
      modifies this
      ensures slots == Stored(old(slots), tag, op)
    {
      if tag >= |slots| {
        slots := slots + Empty(tag + 1 - |slots|);
      }
      slots := slots[tag := Some(op)];
    }

    /** The operation for tag, or None when the tag is past the vector. */
    function Get(tag: nat): (r: Option<Op>)
      reads this
      ensures r.Some? <==> tag in Table(slots)
      ensures r.Some? ==> r.value == Table(slots)[tag]
    {
      Lookup(slots, tag)
    }
  }

  /** Dispatches an operation on entity e: the operation registered for
      its type tag applied to it when both the dispatch table and the
      holder have one, and the default value otherwise. */
  function CallEntityOperation<Op, R>(hasFunction: bool, slots: seq<Option<Op>>, e: Entity,
                                      apply: (Op, Entity) -> R, default: R): (r: R)
    ensures !hasFunction || e.tag !in Table(slots) ==> r == default
    ensures hasFunction && e.tag in Table(slots) ==> r == apply(Table(slots)[e.tag], e)
  {
    if hasFunction then
      match Lookup(slots, e.tag)
      case Some(op) => apply(op, e)
      case None => default
    else default
  }
}
