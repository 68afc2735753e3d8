/** CSpaceHashNative: a space hash whose buckets are singly linked lists
    of (entity, cell) items.  Each bucket carries the store timestamp of the
    update that last wrote it; a bucket whose timestamp differs from the
    current one holds stale data.  The list of each bucket is modelled as the
    sequence of its items from the head. */
module SpaceHashNative {
  import opened Errors
  import opened SortedSets
  import opened SpaceHash

  type Entity = int

  datatype Cell = Cell(i: int, j: int, k: int)

  /** SBucketData: an entity and the cell it was stored for. */
  datatype Item = Item(elem: Entity, cell: Cell)

  /** SBucket: its store timestamp and its items, head first. */
  datatype Bucket = Bucket(timestamp: nat, items: seq<Item>)

  /** SBucket::Add: the new item becomes the head of the list. */
  function Add(b: Bucket, item: Item): (r: Bucket)
    ensures |r.items| == |b.items| + 1
    ensures r.timestamp == b.timestamp && r.items[0] == item && r.items[1..] == b.items
  {
    b.(items := [item] + b.items)
  }

  /** SBucket::Clear: every item is dropped; the timestamp stays. */
  function Clear(b: Bucket): (r: Bucket)
    ensures r.timestamp == b.timestamp && |r.items| == 0
  {
    b.(items := [])
  }

  /** SBucket::Exists: walk the list looking for the same entity and cell. */
  method Exists(b: Bucket, item: Item) returns (r: bool)
    ensures r <==> item in b.items
  {
    var n := 0;
    while n < |b.items|
      invariant 0 <= n <= |b.items|
      invariant item !in b.items[..n]
    {
      if b.items[n] == item {
        return true;
      }
      n := n + 1;
    }
    assert b.items[..n] == b.items;
    return false;
  }

  predicate NoDuplicates(s: seq<Item>) {
    forall m, n :: 0 <= m < n < |s| ==> s[m] != s[n]
  }

  class SpaceHashNative {
    /** m_unSize: the number of buckets. */
    const size: nat
    /** m_psBuckets */
    const buckets: array<Bucket>
    /** m_unCurrentStoreTimestamp */
    var storeTimestamp: nat
    /** m_tEntities: a CSet, kept ascending. */
    var entities: seq<Entity>
    /** The cells the updater hands to UpdateCell for each entity. */
    const cellsOf: Entity -> seq<Cell>

    ghost predicate Valid()
      reads this, buckets
    {
      size > 0 && buckets.Length == size && StrictlyAscending(entities)
      && forall h :: 0 <= h < size ==> buckets[h].timestamp <= storeTimestamp
    }

    /** SetSize followed by the construction of the buckets, all empty with
        timestamp 0. */
    constructor(n: nat, updater: Entity -> seq<Cell>)
      requires n > 0
      ensures Valid() && size == n && storeTimestamp == 0 && entities == [] && cellsOf == updater
      ensures fresh(buckets) && forall h :: 0 <= h < size ==> buckets[h] == Bucket(0, [])
    {
      size := n;
      buckets := new Bucket[n](_ => Bucket(0, []));
      storeTimestamp := 0;
      entities := [];
      cellsOf := updater;
    }

    function Hash(c: Cell): (h: nat)
      reads this
      requires size > 0
      ensures h < size
    {
      CoordinateHash(c.i, c.j, c.k, size)
    }

    /** The items of bucket h that count: none when it is stale. */
    function Live(h: nat): seq<Item>
      reads this, buckets
      requires h < buckets.Length
    {
      LiveOf(buckets[h], storeTimestamp)
    }

    /** The entities CheckCell reports for cell c. */
    function Query(c: Cell): set<Entity>
      reads this, buckets
      requires size > 0 && buckets.Length == size
    {
      set it | it in Live(Hash(c)) && it.cell == c :: it.elem
    }

    /** AddEntity: the entity joins the set. */
    method AddEntity(e: Entity)
      requires Valid()
      modifies this
      ensures Valid() && entities == Inserted(old(entities), e)
      ensures forall x :: x in entities <==> x in old(entities) || x == e
      ensures storeTimestamp == old(storeTimestamp)
    {
      InsertSpec(entities, e);
      entities := Inserted(entities, e);
    }

    /** RemoveEntity: a held entity leaves the set; an absent one throws. */
    method RemoveEntity(e: Entity) returns (r: Status)
      requires Valid()
      modifies this
      ensures Valid() && storeTimestamp == old(storeTimestamp)
      ensures r.Thrown? <==> e !in old(entities)
      ensures r.Thrown? ==> entities == old(entities)
      ensures r.Done? ==> entities == Removed(old(entities), e)
      ensures forall x :: x in entities <==> x in old(entities) && x != e
    {
      if e !in entities {
        return Thrown("Entity not found when removing it from space hash.");
      }
      RemoveSpec(entities, e);
      entities := Removed(entities, e);
      r := Done;
    }

    /** UpdateCell: a current bucket gains the item unless it already holds
        it; a stale bucket is cleared, stamped and holds the item alone. */
    method UpdateCell(c: Cell, e: Entity)
      requires Valid()
      modifies buckets
      ensures Valid()
      ensures forall h :: 0 <= h < size && h != Hash(c) ==> buckets[h] == old(buckets[h])
      ensures old(buckets[Hash(c)]).timestamp == storeTimestamp ==>
                buckets[Hash(c)] == if Item(e, c) in old(buckets[Hash(c)]).items
                                    then old(buckets[Hash(c)])
                                    else Add(old(buckets[Hash(c)]), Item(e, c))
      ensures old(buckets[Hash(c)]).timestamp != storeTimestamp ==>
                buckets[Hash(c)] == Bucket(storeTimestamp, [Item(e, c)])
    {
      var h := Hash(c);
      var b := buckets[h];
      if b.timestamp == storeTimestamp {
        var present := Exists(b, Item(e, c));
        if !present {
          buckets[h] := Add(b, Item(e, c));
        }
      } else {
        b := Clear(b);
        b := b.(timestamp := storeTimestamp);
        buckets[h] := Add(b, Item(e, c));
      }
    }

    /** Which (entity, cell) items the update has stored so far: those of
        the first n entities, and the first m cells of entity n. */
    ghost predicate Stored(it: Item, n: nat, m: nat)
      reads this
      requires n <= |entities|
    {
      (it.elem in entities[..n] && it.cell in cellsOf(it.elem))
      || (n < |entities| && it.elem == entities[n] && m <= |cellsOf(it.elem)| && it.cell in cellsOf(it.elem)[..m])
    }

    /** The live part of every bucket in `bs` is duplicate-free and holds
        exactly the stored items that hash to it. */
    ghost predicate Holds(bs: seq<Bucket>, n: nat, m: nat)
      reads this
      requires n <= |entities| && size > 0
    {
      |bs| == size
      && forall h :: 0 <= h < size ==>
           NoDuplicates(LiveOf(bs[h], storeTimestamp))
           && forall it :: it in LiveOf(bs[h], storeTimestamp) <==> Stored(it, n, m) && Hash(it.cell) == h
    }

    /** Update: advance the store timestamp, then hand every cell of every
        entity, entity by entity, to UpdateCell.  Afterwards each live bucket
        is duplicate-free and a cell reports exactly the entities whose
        cells include it. */
    method Update()
      requires Valid()
      modifies this, buckets
      ensures Valid() && storeTimestamp == old(storeTimestamp) + 1 && entities == old(entities)
      ensures forall h :: 0 <= h < size ==> NoDuplicates(Live(h))
      ensures forall c :: Query(c) == set e | e in entities && c in cellsOf(e)
    {
      storeTimestamp := storeTimestamp + 1;
      var n := 0;
      while n < |entities|
        invariant n <= |entities| && storeTimestamp == old(storeTimestamp) + 1 && entities == old(entities)
        invariant Valid() && Holds(buckets[..], n, 0)
      {
        var e := entities[n];
        var cells := cellsOf(e);
        var m := 0;
        while m < |cells|
          invariant m <= |cells| && storeTimestamp == old(storeTimestamp) + 1 && entities == old(entities)
          invariant Valid() && Holds(buckets[..], n, m)
        {
          ghost var before := buckets[..];
          UpdateCell(cells[m], e);
          StoreStep(before, buckets[..], n, m);
          m := m + 1;
        }
        NextEntity(buckets[..], n);
        n := n + 1;
      }
      assert entities[..n] == entities;
      forall c
        ensures Query(c) == set e | e in entities && c in cellsOf(e)
      {
        assert forall it :: it in Live(Hash(c)) <==> Stored(it, n, 0) && Hash(it.cell) == Hash(c);
        forall e | e in entities && c in cellsOf(e)
          ensures e in Query(c)
        {
          assert Item(e, c) in Live(Hash(c));
        }
      }
    }

    /** One UpdateCell of the update stores item (entities[n], cell m) and
        keeps the bucket invariant. */
    lemma StoreStep(before: seq<Bucket>, after: seq<Bucket>, n: nat, m: nat)
      requires n < |entities| && m < |cellsOf(entities[n])| && size > 0 && StrictlyAscending(entities)
      requires Holds(before, n, m) && |after| == size
      requires forall h :: 0 <= h < size && h != Hash(cellsOf(entities[n])[m]) ==> after[h] == before[h]
      requires var h, it := Hash(cellsOf(entities[n])[m]), Item(entities[n], cellsOf(entities[n])[m]);
               before[h].timestamp == storeTimestamp ==>
                 after[h] == if it in before[h].items then before[h] else Add(before[h], it)
      requires var h, it := Hash(cellsOf(entities[n])[m]), Item(entities[n], cellsOf(entities[n])[m]);
               before[h].timestamp != storeTimestamp ==> after[h] == Bucket(storeTimestamp, [it])
      ensures Holds(after, n, m + 1)
    {
      var e := entities[n];
      var c := cellsOf(e)[m];
      assert cellsOf(e)[..m + 1] == cellsOf(e)[..m] + [c];
      forall it
        ensures Stored(it, n, m + 1) <==> Stored(it, n, m) || it == Item(e, c)
      {
        if it.elem == e {
          assert forall x :: x in entities[..n] ==> x < e;
        }
      }
      forall h | 0 <= h < size
        ensures NoDuplicates(LiveOf(after[h], storeTimestamp))
        ensures forall it :: it in LiveOf(after[h], storeTimestamp) <==> Stored(it, n, m + 1) && Hash(it.cell) == h
      {
      }
    }

    /** Moving on to the next entity stores nothing new. */
    lemma NextEntity(bs: seq<Bucket>, n: nat)
      requires n < |entities| && size > 0 && StrictlyAscending(entities)
      requires Holds(bs, n, |cellsOf(entities[n])|)
      ensures Holds(bs, n + 1, 0)
    {
      forall it
        ensures Stored(it, n, |cellsOf(entities[n])|) <==> Stored(it, n + 1, 0)
      {
        assert entities[..n + 1] == entities[..n] + [entities[n]];
        assert cellsOf(entities[n])[..|cellsOf(entities[n])|] == cellsOf(entities[n]);
        if it.elem == entities[n] {
          assert forall x :: x in entities[..n] ==> x < entities[n];
        }
      }
    }

    /** CheckCell: from a current, non-empty bucket, every item stored for
        this very cell is added to `found`; the result says whether any
        was. */
    method CheckCell(c: Cell, found: set<Entity>) returns (found': set<Entity>, added: bool)
      requires Valid()
      ensures found' == found + Query(c)
      ensures added <==> exists it :: it in Live(Hash(c)) && it.cell == c
    {
      found', added := found, false;
      var b := buckets[Hash(c)];
      if b.timestamp == storeTimestamp && b.items != [] {
        var n := 0;
        while n < |b.items|
          invariant 0 <= n <= |b.items|
          invariant found' == found + set it | it in b.items[..n] && it.cell == c :: it.elem
          invariant added <==> exists it :: it in b.items[..n] && it.cell == c
        {
          if b.items[n].cell == c {
            added := true;
            found' := found' + {b.items[n].elem};
          }
          assert b.items[..n + 1] == b.items[..n] + [b.items[n]];
          n := n + 1;
        }
        assert b.items[..n] == b.items;
      }
    }
  }

  /** A bucket's items if its timestamp is `now`, and none otherwise. */
  function LiveOf(b: Bucket, now: nat): seq<Item> {
    if b.timestamp == now then b.items else []
  }
}
