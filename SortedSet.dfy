/** CSet: a duplicate-free container kept in ascending order.  The source
    links its elements in a doubly linked list; here the list is the
    sequence of its elements from first to last, and the scans of the source
    walk it by index. */
module SortedSets {

  predicate StrictlyAscending(s: seq<int>) {
    forall i, j :: 0 <= i < j < |s| ==> s[i] < s[j]
  }

  /** The list after inserting t: in place, or unchanged if t is there. */
  function Inserted(s: seq<int>, t: int): seq<int>
  {
    if s == [] then [t]
    else if s[0] < t then [s[0]] + Inserted(s[1..], t)
    else if s[0] == t then s
    else [t] + s
  }

  /** The list after erasing t: every other element, in order. */
  function Removed(s: seq<int>, t: int): seq<int>
  {
    if s == [] then []
    else if s[0] == t then Removed(s[1..], t)
    else [s[0]] + Removed(s[1..], t)
  }

  /** Insert keeps the list strictly ascending and its elements become the
      old ones plus t; the size grows by one exactly when t was absent. */
  lemma InsertSpec(s: seq<int>, t: int)
    requires StrictlyAscending(s)
    ensures StrictlyAscending(Inserted(s, t))
    ensures forall x :: x in Inserted(s, t) <==> x in s || x == t
    ensures t in s ==> Inserted(s, t) == s
    ensures t !in s ==> |Inserted(s, t)| == |s| + 1
  {
    InsertMembers(s, t);
    InsertAscending(s, t);
    InsertLength(s, t);
  }

  lemma {:induction false} InsertMembers(s: seq<int>, t: int)
    ensures forall x :: x in Inserted(s, t) <==> x in s || x == t
  {
    if s != [] && s[0] < t {
      InsertMembers(s[1..], t);
      assert s == [s[0]] + s[1..];
    }
  }

  lemma {:induction false} InsertAscending(s: seq<int>, t: int)
    requires StrictlyAscending(s)
    ensures StrictlyAscending(Inserted(s, t))
  {
    if s != [] && s[0] < t {
      InsertAscending(s[1..], t);
      InsertMembers(s[1..], t);
      ConsAscending(s[0], Inserted(s[1..], t));
    } else if s != [] && s[0] > t {
      ConsAscending(t, s);
    }
  }

  lemma {:induction false} InsertLength(s: seq<int>, t: int)
    requires StrictlyAscending(s)
    ensures t in s ==> Inserted(s, t) == s
    ensures t !in s ==> |Inserted(s, t)| == |s| + 1
  {
    if s != [] && s[0] < t {
      InsertLength(s[1..], t);
      assert s == [s[0]] + s[1..];
    } else if s != [] && s[0] > t {
      assert forall k :: 0 <= k < |s| ==> s[k] >= s[0];
    }
  }

  lemma ConsAscending(h: int, r: seq<int>)
    requires StrictlyAscending(r) && forall x :: x in r ==> h < x
    ensures StrictlyAscending([h] + r)
  {
    forall i, j | 0 <= i < j < |[h] + r|
      ensures ([h] + r)[i] < ([h] + r)[j]
    {
      assert r[j - 1] in r;
    }
  }

  /** Remove keeps the list strictly ascending, drops exactly t, and changes
      nothing when t is absent; the size shrinks by one when t was present. */
  lemma RemoveSpec(s: seq<int>, t: int)
    requires StrictlyAscending(s)
    ensures StrictlyAscending(Removed(s, t))
    ensures forall x :: x in Removed(s, t) <==> x in s && x != t
    ensures t !in s ==> Removed(s, t) == s
    ensures t in s ==> |Removed(s, t)| == |s| - 1
  {
    RemoveMembers(s, t);
    RemoveAscending(s, t);
    RemoveLength(s, t);
    if t !in s {
      RemoveAbsent(s, t);
    }
  }

  lemma {:induction false} RemoveMembers(s: seq<int>, t: int)
    ensures forall x :: x in Removed(s, t) <==> x in s && x != t
  {
    if s != [] {
      RemoveMembers(s[1..], t);
      assert s == [s[0]] + s[1..];
    }
  }

  lemma {:induction false} RemoveAscending(s: seq<int>, t: int)
    requires StrictlyAscending(s)
    ensures StrictlyAscending(Removed(s, t))
  {
    if s != [] {
      RemoveAscending(s[1..], t);
      if s[0] != t {
        RemoveMembers(s[1..], t);
        ConsAscending(s[0], Removed(s[1..], t));
      }
    }
  }

  lemma {:induction false} RemoveLength(s: seq<int>, t: int)
    requires StrictlyAscending(s)
    ensures t in s ==> |Removed(s, t)| == |s| - 1
  {
    if s != [] {
      RemoveLength(s[1..], t);
      if s[0] == t {
        assert t !in s[1..];
        RemoveAbsent(s[1..], t);
      } else {
        assert s == [s[0]] + s[1..];
      }
    }
  }

  /** Where the scan of insert and find_impl stops: the first element not
      smaller than t.  Insert splices t in there. */
  lemma {:induction false} InsertAt(s: seq<int>, t: int, i: nat)
    requires i <= |s| && (forall k :: 0 <= k < i ==> s[k] < t) && (i < |s| ==> s[i] >= t)
    ensures Inserted(s, t) == if i == |s| then s + [t] else if s[i] == t then s else s[..i] + [t] + s[i..]
  {
    if i > 0 {
      InsertAt(s[1..], t, i - 1);
      assert s == [s[0]] + s[1..];
    }
  }

  lemma {:induction false} RemoveAt(s: seq<int>, t: int, i: nat)
    requires StrictlyAscending(s) && i <= |s| && (forall k :: 0 <= k < i ==> s[k] < t)
    requires i < |s| ==> s[i] >= t
    ensures Removed(s, t) == if i < |s| && s[i] == t then s[..i] + s[i + 1..] else s
  {
    if i > 0 {
      RemoveAt(s[1..], t, i - 1);
      assert s == [s[0]] + s[1..];
    } else if i < |s| && s[0] == t {
      RemoveSpec(s, t);
      assert t !in s[1..];
      RemoveAbsent(s[1..], t);
    } else {
      RemoveAbsent(s, t);
    }
  }

  lemma {:induction false} RemoveAbsent(s: seq<int>, t: int)
    requires t !in s
    ensures Removed(s, t) == s
  {
    if s != [] {
      RemoveAbsent(s[1..], t);
    }
  }

  class Set {
    /** The elements from m_psFirst to m_psLast. */
    var elems: seq<int>
    /** m_unSize */
    var size: nat

    ghost predicate Valid()
      reads this
    {
      size == |elems| && StrictlyAscending(elems)
    }

    constructor()
      ensures Valid() && elems == []
    {
      elems := [];
      size := 0;
    }

    /** Scan from the first element while it is smaller than t. */
    method Scan(t: int) returns (i: nat)
      requires Valid()
      ensures i <= |elems|
      ensures forall k :: 0 <= k < i ==> elems[k] < t
      ensures i < |elems| ==> elems[i] >= t
    {
      i := 0;
      while i < |elems| && elems[i] < t
        invariant i <= |elems|
        invariant forall k :: 0 <= k < i ==> elems[k] < t
      {
        i := i + 1;
      }
    }

    /** insert: a first node in an empty list; otherwise append at the end,
        do nothing on an equal element, prepend at the front, or link in the
        middle. */
    method Insert(t: int)
      requires Valid()
      modifies this
      ensures Valid()
      ensures elems == Inserted(old(elems), t)
      ensures t in elems
      ensures size == if t in old(elems) then old(size) else old(size) + 1
    {
      InsertSpec(elems, t);
      if size == 0 {
        elems := [t];
        size := 1;
        return;
      }
      var i := Scan(t);
      InsertAt(elems, t, i);
      if i == |elems| {
        elems := elems + [t];
      } else if elems[i] == t {
        return;
      } else if i == 0 {
        elems := [t] + elems;
      } else {
        elems := elems[..i] + [t] + elems[i..];
      }
      size := size + 1;
    }

    /** find_impl followed by a test for equality: does t occur in the set? */
    method Exists(t: int) returns (r: bool)
      requires Valid()
      ensures r <==> t in elems
    {
      var i := Scan(t);
      r := i < |elems| && elems[i] == t;
    }

    /** erase: removes the node equal to t, if any, relinking its
        neighbours; an absent element changes nothing. */
    method Erase(t: int)
      requires Valid()
      modifies this
      ensures Valid()
      ensures elems == Removed(old(elems), t)
      ensures t !in elems
      ensures size == if t in old(elems) then old(size) - 1 else old(size)
    {
      RemoveSpec(elems, t);
      if size == 0 {
        return;
      }
      if size == 1 {
        if elems[0] == t {
          elems := [];
          size := 0;
        } else {
          RemoveAbsent(elems, t);
        }
        return;
      }
      var i := Scan(t);
      RemoveAt(elems, t, i);
      if i < |elems| && elems[i] == t {
        elems := elems[..i] + elems[i + 1..];
        size := size - 1;
      }
    }

    method Clear()
      modifies this
      ensures Valid() && elems == [] && size == 0
    {
      elems := [];
      size := 0;
    }

    /** operator=: unless `other` is this set, clear and append the other
        set's elements one by one, in order. */
    method Assign(other: Set)
      requires other.Valid()
      modifies this
      ensures Valid() && elems == old(other.elems)
    {
      if this != other {
        elems := [];
        size := 0;
        var i := 0;
        while i < |other.elems|
          invariant 0 <= i <= |other.elems| && other.elems == old(other.elems)
          invariant elems == other.elems[..i] && size == i
        {
          elems := elems + [other.elems[i]];
          size := size + 1;
          i := i + 1;
        }
      }
    }
  }
}
