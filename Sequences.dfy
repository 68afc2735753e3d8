/** The vector idioms the registries share: std::find over a vector and
    erasing the element it found. */
module Sequences {

  /** The position std::find stops at: the first x, or |s| when there is
      none. */
  function IndexOf<T(==)>(s: seq<T>, x: T): (i: nat)
    ensures i <= |s| && x !in s[..i]
    ensures i < |s| <==> x in s
    ensures i < |s| ==> s[i] == x
  {
    if |s| == 0 then 0
    else if s[0] == x then 0
    else
      var i := 1 + IndexOf(s[1..], x);
      assert s[..i] == [s[0]] + s[1..][..i - 1];
      i
  }

  /** vector::erase at the position std::find returned, when it found x. */
  function EraseFirst<T(==)>(s: seq<T>, x: T): (r: seq<T>)
    ensures x !in s ==> r == s
    ensures x in s ==> |r| == |s| - 1
  {
    var i := IndexOf(s, x);
    if i < |s| then s[..i] + s[i + 1..] else s
  }

  /** Erasing x is erasing the position std::find returns for it. */
  lemma EraseFirstAt<T>(s: seq<T>, x: T, i: nat)
    requires i == IndexOf(s, x) && i < |s|
    ensures EraseFirst(s, x) == s[..i] + s[i + 1..]
  {
  }

  /** std::find as a loop. */
  method Find<T(==)>(s: seq<T>, x: T) returns (i: nat)
    ensures i == IndexOf(s, x)
  {
    i := 0;
    while i < |s| && s[i] != x
      invariant i <= IndexOf(s, x)
    {
      i := i + 1;
    }
    if i < |s| {
      assert s[i] == x;
      assert s[i] !in s[..IndexOf(s, x)];
    }
  }

  predicate NoDuplicates<T(==)>(s: seq<T>) {
    forall m, n :: 0 <= m < n < |s| ==> s[m] != s[n]
  }

  /** Erasing one position of a duplicate-free vector removes exactly that
      element and keeps it duplicate-free. */
  lemma EraseAt<T>(s: seq<T>, i: nat)
    requires NoDuplicates(s) && i < |s|
    ensures NoDuplicates(s[..i] + s[i + 1..])
    ensures forall x :: x in s[..i] + s[i + 1..] <==> x in s && x != s[i]
  {
    var r := s[..i] + s[i + 1..];
    forall m, n | 0 <= m < n < |r|
      ensures r[m] != r[n]
    {
      var m' := if m < i then m else m + 1;
      var n' := if n < i then n else n + 1;
      assert r[m] == s[m'] && r[n] == s[n'];
    }
    forall m | 0 <= m < |r|
      ensures r[m] != s[i]
    {
      var m' := if m < i then m else m + 1;
      assert r[m] == s[m'];
    }
    assert s == s[..i] + [s[i]] + s[i + 1..];
  }

  /** Erasing x from a duplicate-free vector removes x and nothing else. */
  lemma EraseFirstMembers<T>(s: seq<T>, x: T)
    requires NoDuplicates(s)
    ensures NoDuplicates(EraseFirst(s, x))
    ensures forall y :: y in EraseFirst(s, x) <==> y in s && y != x
  {
    if x in s {
      EraseAt(s, IndexOf(s, x));
    }
  }

  /** Erasing the element just appended gives back the vector before. */
  lemma EraseAppended<T>(s: seq<T>, x: T)
    requires x !in s
    ensures EraseFirst(s + [x], x) == s
  {
    var t := s + [x];
    assert forall j :: 0 <= j < |s| ==> t[j] == s[j] && s[j] != x;
    assert t[..|s|] == s && t[|s|] == x;
    assert IndexOf(t, x) == |s|;
  }

  /** The position std::string::rfind stops at: the last x, or |s| when
      there is none. */
  function LastIndexOf<T(==)>(s: seq<T>, x: T): (i: nat)
    ensures i <= |s|
    ensures i < |s| <==> x in s
    ensures i < |s| ==> s[i] == x && x !in s[i + 1..]
  {
    if |s| == 0 then 0
    else if s[|s| - 1] == x then |s| - 1
    else
      var i := LastIndexOf(s[..|s| - 1], x);
      assert s[..|s| - 1] + [s[|s| - 1]] == s;
      if i < |s| - 1 then
        assert s[i + 1..] == s[..|s| - 1][i + 1..] + [s[|s| - 1]];
        i
      else |s|
  }

  /** Erasing from a vector with a head: the head itself, or x from the
      rest. */
  lemma EraseFirstCons<T>(h: T, s: seq<T>, x: T)
    ensures EraseFirst([h] + s, x) == if h == x then s else [h] + EraseFirst(s, x)
  {
    var t := [h] + s;
    assert t[1..] == s;
    if h != x {
      var i := IndexOf(s, x);
      assert x !in t[..i + 1] by {
        assert t[..i + 1] == [h] + s[..i];
      }
      assert IndexOf(t, x) == i + 1;
      if i < |s| {
        assert t[..i + 1] + t[i + 2..] == [h] + (s[..i] + s[i + 1..]);
      }
    }
  }
}
