/** A composable entity: the components it is made of, kept both in a
    multimap keyed by type description and in a vector in the order they
    were added, and the lookup of a component by a dotted path whose
    segments are either a type description or "type[id]". */
module ComposableEntity {
  import opened Errors
  import opened Sequences

  /** A component as a value: its type description, id, enabled flag, and,
      when it is itself composable, its own components in the order they
      were added. */
  datatype Component<K> = Component(
    typeDescription: K,
    id: K,
    enabled: bool,
    children: Option<seq<Component<K>>>)

  /** One path segment: a type description, and the id asked for when the
      segment reads "type[id]". */
  datatype Query<K> = Query(base: K, id: Option<K>)

  /** Splits a segment at its first '[' and its last ']'; a '[' with no
      ']' after it is a syntax error. */
  function ParseName(name: string): (r: Result<Query<string>>)
    ensures '[' !in name ==> r == Ok(Query(name, None))
    ensures r.Ok? && r.value.id.Some? ==>
              '[' !in r.value.base && r.value.base + "[" + r.value.id.value + "]" <= name
  {
    var open := IndexOf(name, '[');
    if open == |name| then Ok(Query(name, None))
    else
      var close := LastIndexOf(name, ']');
      if close < |name| && close > open then
        assert name[..close + 1] == name[..open] + "[" + name[open + 1..close] + "]";
        Ok(Query(name[..open], Some(name[open + 1..close])))
      else Fail("syntax error in entity id " + name)
  }

  /** A segment whose base has no '[' and whose id is closed by ']' reads
      back as that base and that id. */
  lemma {:induction false} ParseNameRoundTrip(base: string, id: string)
    requires '[' !in base
    ensures ParseName(base + "[" + id + "]") == Ok(Query(base, Some(id)))
  {
    var name := base + "[" + id + "]";
    assert name[..|base|] == base && name[|base|] == '[';
    assert IndexOf(name, '[') == |base|;
    assert name[|name| - 1] == ']' && name[|name|..] == [];
    assert LastIndexOf(name, ']') == |name| - 1;
    assert name[|base| + 1..|name| - 1] == id;
  }

  /** A segment with a '[' and no ']' after it is refused. */
  lemma {:induction false} UnclosedBracketRefused(name: string)
    requires '[' in name && ']' !in name[IndexOf(name, '[')..]
    ensures ParseName(name).Fail?
  {
    var open := IndexOf(name, '[');
    var close := LastIndexOf(name, ']');
    forall k | open <= k < |name|
      ensures name[k] != ']'
    {
      assert name[k] == name[open..][k - open];
    }
  }

  /** Whether component c is what a segment for type t, and id when given,
      asks for. */
  predicate Matches<K(==)>(c: Component<K>, t: K, id: Option<K>) {
    c.typeDescription == t && (id.None? || c.id == id.value)
  }

  /** Where the first match of a segment is, |s| when there is none. */
  function FirstMatch<K(==)>(s: seq<Component<K>>, t: K, id: Option<K>): (i: nat)
    ensures i <= |s|
    ensures i < |s| ==> Matches(s[i], t, id)
    ensures forall j :: 0 <= j < i ==> !Matches(s[j], t, id)
  {
    if |s| == 0 then 0
    else if Matches(s[0], t, id) then 0
    else 1 + FirstMatch(s[1..], t, id)
  }

  /** The components of type t, in the order they were added: the equal
      range of t in the multimap. */
  function OfType<K(==)>(s: seq<Component<K>>, t: K): (r: seq<Component<K>>)
    ensures |r| <= |s|
  {
    if |s| == 0 then []
    else (if s[0].typeDescription == t then [s[0]] else []) + OfType(s[1..], t)
  }

  /** The range of type t holds the components of s of that type. */
  lemma {:induction false} OfTypeMembers<K>(s: seq<Component<K>>, t: K)
    ensures forall c :: c in OfType(s, t) <==> c in s && c.typeDescription == t
  {
    if |s| > 0 {
      OfTypeMembers(s[1..], t);
      assert s == [s[0]] + s[1..];
    }
  }

  /** The component a segment names among s, or None; a malformed segment
      is an error. */
  function FindIn(s: seq<Component<string>>, name: string): (r: Result<Option<Component<string>>>)
    ensures r.Fail? <==> ParseName(name).Fail?
    ensures r.Ok? && r.value.Some? ==>
              r.value.value in s && Matches(r.value.value, ParseName(name).value.base, ParseName(name).value.id)
    ensures r.Ok? && r.value.None? ==>
              forall k :: 0 <= k < |s| ==> !Matches(s[k], ParseName(name).value.base, ParseName(name).value.id)
  {
    match ParseName(name)
    case Fail(m) => Fail(m)
    case Ok(q) =>
      var i := FirstMatch(s, q.base, q.id);
      if i < |s| then Ok(Some(s[i])) else Ok(None)
  }

  /** The outcome of a path lookup: the component, a lookup failure (no
      such component, or a path through a component that is not
      composable), or a malformed segment. */
  datatype Lookup = Got(component: Component<string>) | Missing(message: string) | Malformed(message: string)

  /** The component a dotted path names, looking the first segment up
      among s and the rest inside the composable component it names. */
  function GetPath(s: seq<Component<string>>, path: string): (r: Lookup)
    decreases |path|
  {
    var dot := IndexOf(path, '.');
    match FindIn(s, path[..dot])
    case Fail(m) => Malformed(m)
    case Ok(None) => Missing("component " + path[..dot] + " does not exist")
    case Ok(Some(c)) =>
      if dot == |path| then Got(c)
      else if c.children.None? then Missing("component " + path[..dot] + " is not a composable entity")
      else GetPath(c.children.value, path[dot + 1..])
  }

  /** Whether a dotted path names a component; a malformed segment is an
      error. */
  function HasPath(s: seq<Component<string>>, path: string): (r: Result<bool>)
    decreases |path|
  {
    var dot := IndexOf(path, '.');
    match FindIn(s, path[..dot])
    case Fail(m) => Fail(m)
    case Ok(None) => Ok(false)
    case Ok(Some(c)) =>
      if dot == |path| then Ok(true)
      else if c.children.None? then Ok(false)
      else HasPath(c.children.value, path[dot + 1..])
  }

  /** HasPath answers false exactly where GetPath fails to find, true
      exactly where it finds, and fails exactly where it meets a malformed
      segment. */
  lemma {:induction false} HasPathAgreesWithGetPath(s: seq<Component<string>>, path: string)
    ensures HasPath(s, path) == Ok(true) <==> GetPath(s, path).Got?
    ensures HasPath(s, path) == Ok(false) <==> GetPath(s, path).Missing?
    ensures HasPath(s, path).Fail? <==> GetPath(s, path).Malformed?
    decreases |path|
  {
    var dot := IndexOf(path, '.');
    var found := FindIn(s, path[..dot]);
    if found.Ok? && found.value.Some? && dot < |path| && found.value.value.children.Some? {
      var c := found.value.value;
      HasPathAgreesWithGetPath(c.children.value, path[dot + 1..]);
      assert GetPath(s, path) == GetPath(c.children.value, path[dot + 1..]);
      assert HasPath(s, path) == HasPath(c.children.value, path[dot + 1..]);
    }
  }

  /** A path "a.b" is looked up as b inside the composable component a
      names. */
  lemma PathStep(s: seq<Component<string>>, front: string, rest: string)
    requires '.' !in front
    ensures FindIn(s, front).Ok? && FindIn(s, front).value.Some? ==>
              var c := FindIn(s, front).value.value;
              GetPath(s, front + "." + rest) ==
                if c.children.None? then Missing("component " + front + " is not a composable entity")
                else GetPath(c.children.value, rest)
  {
    var path := front + "." + rest;
    assert path[..|front|] == front && path[|front|] == '.';
    assert IndexOf(path, '.') == |front|;
    assert path[|front| + 1..] == rest;
  }

  /** A path without '.' finds the component its one segment names. */
  lemma SingleSegment(s: seq<Component<string>>, name: string)
    requires '.' !in name
    ensures GetPath(s, name).Got? <==> FindIn(s, name).Ok? && FindIn(s, name).value.Some?
    ensures GetPath(s, name).Got? ==> GetPath(s, name).component == FindIn(s, name).value.value
  {
    assert name[..|name|] == name;
  }

  /** The first match of a segment among the components of its type is the
      first match among all components. */
  lemma {:induction false} FirstMatchOfType<K>(s: seq<Component<K>>, t: K, id: Option<K>)
    ensures var r := OfType(s, t); var i := FirstMatch(r, t, id); var j := FirstMatch(s, t, id);
            (i < |r| <==> j < |s|) && (i < |r| ==> r[i] == s[j])
  {
    if |s| > 0 {
      var r := OfType(s, t);
      var r' := OfType(s[1..], t);
      FirstMatchOfType(s[1..], t, id);
      if s[0].typeDescription == t {
        assert r == [s[0]] + r';
        assert r[0] == s[0] && r[1..] == r';
      } else {
        assert r == r';
      }
    }
  }

  /** Adding a component extends the range of its type only. */
  lemma {:induction false} OfTypeAppend<K>(s: seq<Component<K>>, c: Component<K>, t: K)
    ensures OfType(s + [c], t) == OfType(s, t) + if c.typeDescription == t then [c] else []
  {
    if |s| == 0 {
      assert s + [c] == [c];
      assert [c][1..] == [];
    } else {
      var h := if s[0].typeDescription == t then [s[0]] else [];
      var tail := if c.typeDescription == t then [c] else [];
      assert (s + [c])[0] == s[0];
      assert (s + [c])[1..] == s[1..] + [c];
      assert OfType(s + [c], t) == h + OfType(s[1..] + [c], t);
      OfTypeAppend(s[1..], c, t);
      assert h + (OfType(s[1..], t) + tail) == (h + OfType(s[1..], t)) + tail;
    }
  }

  /** Erasing a component from the vector erases it from the range of its
      type and leaves the other ranges. */
  lemma OfTypeErase<K>(s: seq<Component<K>>, c: Component<K>, t: K)
    ensures OfType(EraseFirst(s, c), t) ==
              if c.typeDescription == t then EraseFirst(OfType(s, t), c) else OfType(s, t)
  {
    if c.typeDescription == t {
      OfTypeEraseOwn(s, c);
    } else {
      OfTypeEraseOther(s, c, t);
    }
  }

  lemma {:induction false} OfTypeEraseOwn<K>(s: seq<Component<K>>, c: Component<K>)
    ensures OfType(EraseFirst(s, c), c.typeDescription) == EraseFirst(OfType(s, c.typeDescription), c)
  {
    var t := c.typeDescription;
    if |s| == 0 {
      assert EraseFirst(s, c) == s;
    } else {
      var h := s[0];
      var rest := s[1..];
      assert s == [h] + rest;
      EraseFirstCons(h, rest, c);
      var r' := OfType(rest, t);
      assert OfType(s, t) == (if h.typeDescription == t then [h] else []) + r';
      if h == c {
        EraseFirstCons(c, r', c);
        assert OfType(s, t) == [c] + r';
        assert EraseFirst(s, c) == rest;
      } else {
        OfTypeEraseOwn(rest, c);
        var e := [h] + EraseFirst(rest, c);
        assert EraseFirst(s, c) == e;
        assert e[0] == h && e[1..] == EraseFirst(rest, c);
        var tail := OfType(EraseFirst(rest, c), t);
        assert tail == EraseFirst(r', c);
        if h.typeDescription == t {
          assert OfType(e, t) == [h] + tail;
          EraseFirstCons(h, r', c);
          assert OfType(s, t) == [h] + r';
        } else {
          assert OfType(e, t) == tail;
          assert OfType(s, t) == r';
        }
      }
    }
  }

  lemma {:induction false} OfTypeEraseOther<K>(s: seq<Component<K>>, c: Component<K>, t: K)
    requires c.typeDescription != t
    ensures OfType(EraseFirst(s, c), t) == OfType(s, t)
  {
    if |s| == 0 {
      assert EraseFirst(s, c) == s;
    } else {
      var h := s[0];
      var rest := s[1..];
      assert s == [h] + rest;
      EraseFirstCons(h, rest, c);
      OfTypeEraseOther(rest, c, t);
      if h != c {
        var e := [h] + EraseFirst(rest, c);
        assert e[0] == h && e[1..] == EraseFirst(rest, c);
      }
    }
  }

  /** The enabled components of s, in order. */
  function Enabled<K>(s: seq<Component<K>>): (r: seq<Component<K>>)
    ensures |r| <= |s|
  {
    if |s| == 0 then [] else (if s[0].enabled then [s[0]] else []) + Enabled(s[1..])
  }

  /** The enabled components of s whose type is in types, in order. */
  function EnabledOfTypes<K(==)>(s: seq<Component<K>>, types: set<K>): (r: seq<Component<K>>)
    ensures |r| <= |s|
  {
    if |s| == 0 then []
    else (if s[0].enabled && s[0].typeDescription in types then [s[0]] else []) + EnabledOfTypes(s[1..], types)
  }

  lemma {:induction false} EnabledAppend<K>(a: seq<Component<K>>, b: seq<Component<K>>)
    ensures Enabled(a + b) == Enabled(a) + Enabled(b)
  {
    if |a| == 0 {
      assert a + b == b;
    } else {
      assert (a + b)[0] == a[0];
      assert (a + b)[1..] == a[1..] + b;
      EnabledAppend(a[1..], b);
    }
  }

  /** Taking one more type adds the enabled components of that type. */
  lemma {:induction false} EnabledOneMoreType<K>(s: seq<Component<K>>, types: set<K>, t: K)
    requires t !in types
    ensures multiset(EnabledOfTypes(s, types + {t})) ==
              multiset(EnabledOfTypes(s, types)) + multiset(Enabled(OfType(s, t)))
  {
    if |s| > 0 {
      EnabledOneMoreType(s[1..], types, t);
      if s[0].typeDescription == t {
        OneMoreTypeOwnHead(s, types, t);
      } else {
        OneMoreTypeOtherHead(s, types, t);
      }
    }
  }

  /** The step of EnabledOneMoreType when the first component has type t. */
  lemma OneMoreTypeOwnHead<K>(s: seq<Component<K>>, types: set<K>, t: K)
    requires t !in types && |s| > 0 && s[0].typeDescription == t
    requires multiset(EnabledOfTypes(s[1..], types + {t})) ==
               multiset(EnabledOfTypes(s[1..], types)) + multiset(Enabled(OfType(s[1..], t)))
    ensures multiset(EnabledOfTypes(s, types + {t})) ==
              multiset(EnabledOfTypes(s, types)) + multiset(Enabled(OfType(s, t)))
  {
    var h, rest := s[0], s[1..];
    var own := if h.enabled then [h] else [];
    assert EnabledOfTypes(s, types + {t}) == own + EnabledOfTypes(rest, types + {t});
    assert EnabledOfTypes(s, types) == EnabledOfTypes(rest, types);
    assert OfType(s, t) == [h] + OfType(rest, t);
    EnabledAppend([h], OfType(rest, t));
    assert [h][1..] == [];
    assert Enabled([h]) == own;
  }

  /** The step of EnabledOneMoreType when the first component has another
      type. */
  lemma OneMoreTypeOtherHead<K>(s: seq<Component<K>>, types: set<K>, t: K)
    requires t !in types && |s| > 0 && s[0].typeDescription != t
    requires multiset(EnabledOfTypes(s[1..], types + {t})) ==
               multiset(EnabledOfTypes(s[1..], types)) + multiset(Enabled(OfType(s[1..], t)))
    ensures multiset(EnabledOfTypes(s, types + {t})) ==
              multiset(EnabledOfTypes(s, types)) + multiset(Enabled(OfType(s, t)))
  {
    var h, rest := s[0], s[1..];
    var kept := if h.enabled && h.typeDescription in types then [h] else [];
    assert EnabledOfTypes(s, types + {t}) == kept + EnabledOfTypes(rest, types + {t});
    assert EnabledOfTypes(s, types) == kept + EnabledOfTypes(rest, types);
    assert OfType(s, t) == OfType(rest, t);
  }

  /** With every type taken, the enabled components are all of them. */
  lemma {:induction false} EnabledAllTypes<K>(s: seq<Component<K>>, types: set<K>)
    requires forall k :: 0 <= k < |s| ==> s[k].typeDescription in types
    ensures EnabledOfTypes(s, types) == Enabled(s)
  {
    if |s| > 0 {
      assert forall k :: 0 <= k < |s[1..]| ==> s[1..][k] == s[k + 1];
      EnabledAllTypes(s[1..], types);
    }
  }

  /** The range of key t in a multimap held as type -> components. */
  function Range<K(==)>(m: map<K, seq<Component<K>>>, t: K): seq<Component<K>> {
    if t in m then m[t] else []
  }

  /** The key order of the multimap: std::string's operator<, which is
      lexicographic with a proper prefix first. */
  predicate Below(a: string, b: string)
    decreases |a|
  {
    if |a| == 0 then |b| > 0
    else if |b| == 0 then false
    else if a[0] != b[0] then a[0] < b[0]
    else Below(a[1..], b[1..])
  }

  /** Below is a strict total order: irreflexive, transitive, and any two
      different strings are comparable. */
  lemma {:induction false} BelowIsStrictTotalOrder(a: string, b: string, c: string)
    ensures !Below(a, a)
    ensures Below(a, b) && Below(b, c) ==> Below(a, c)
    ensures a != b ==> Below(a, b) || Below(b, a)
  {
    BelowIrreflexive(a);
    BelowTransitive(a, b, c);
    BelowTotal(a, b);
  }

  lemma {:induction false} BelowIrreflexive(a: string)
    ensures !Below(a, a)
    decreases |a|
  {
    if |a| > 0 {
      BelowIrreflexive(a[1..]);
    }
  }

  lemma {:induction false} BelowTransitive(a: string, b: string, c: string)
    ensures Below(a, b) && Below(b, c) ==> Below(a, c)
    decreases |a|
  {
    if |a| > 0 && |b| > 0 && |c| > 0 && a[0] == b[0] && b[0] == c[0] {
      BelowTransitive(a[1..], b[1..], c[1..]);
    }
  }

  lemma {:induction false} BelowTotal(a: string, b: string)
    ensures a != b ==> Below(a, b) || Below(b, a)
    decreases |a|
  {
    if |a| > 0 && |b| > 0 && a[0] == b[0] {
      BelowTotal(a[1..], b[1..]);
      if a[1..] == b[1..] {
        assert a == [a[0]] + a[1..] && b == [b[0]] + b[1..];
      }
    }
  }

  /** m comes before every other key of ks. */
  predicate IsLeast(m: string, ks: set<string>) {
    forall u :: u in ks && u != m ==> Below(m, u)
  }

  /** Every finite non-empty set of keys has a least one. */
  lemma {:induction false} LeastExists(ks: set<string>)
    requires ks != {}
    ensures exists m :: m in ks && IsLeast(m, ks)
    decreases |ks|
  {
    var x :| x in ks;
    if ks != {x} {
      LeastExists(ks - {x});
      var m :| m in ks - {x} && IsLeast(m, ks - {x});
      BelowTotal(m, x);
      if Below(x, m) {
        forall u | u in ks && u != x
          ensures Below(x, u)
        {
          BelowTransitive(x, m, u);
        }
        assert IsLeast(x, ks);
      } else {
        assert IsLeast(m, ks);
      }
    } else {
      assert IsLeast(x, ks);
    }
  }

  /** The least key is unique. */
  lemma LeastUnique(m: string, n: string, ks: set<string>)
    requires m in ks && IsLeast(m, ks) && n in ks && IsLeast(n, ks)
    ensures m == n
  {
    if m != n {
      BelowTransitive(m, n, m);
      BelowIrreflexive(m);
    }
  }

  /** The least key of a non-empty set. */
  ghost function Least(ks: set<string>): (m: string)
    requires ks != {}
    ensures m in ks && IsLeast(m, ks)
  {
    LeastExists(ks);
    var m :| m in ks && IsLeast(m, ks); m
  }

  /** The keys of ks in the order a std::multimap walks them. */
  ghost function SortedKeys(ks: set<string>): seq<string>
    decreases ks
  {
    if ks == {} then [] else [Least(ks)] + SortedKeys(ks - {Least(ks)})
  }

  /** The multimap walk meets every key once, in strictly ascending order. */
  lemma {:induction false} SortedKeysAscending(ks: set<string>)
    ensures |SortedKeys(ks)| == |ks|
    ensures forall k :: k in ks <==> k in SortedKeys(ks)
    ensures forall i, j :: 0 <= i < j < |SortedKeys(ks)| ==> Below(SortedKeys(ks)[i], SortedKeys(ks)[j])
    decreases ks
  {
    if ks != {} {
      var m := Least(ks);
      var rest := SortedKeys(ks - {m});
      SortedKeysAscending(ks - {m});
      assert SortedKeys(ks) == [m] + rest;
      forall i, j | 0 <= i < j < |SortedKeys(ks)|
        ensures Below(SortedKeys(ks)[i], SortedKeys(ks)[j])
      {
        if i > 0 {
          assert SortedKeys(ks)[i] == rest[i - 1] && SortedKeys(ks)[j] == rest[j - 1];
        } else {
          assert SortedKeys(ks)[j] == rest[j - 1];
          assert rest[j - 1] in ks - {m};
        }
      }
    }
  }

  /** The enabled components of each type of ts in turn: what walking a
      multimap over the keys ts updates. */
  function ByTypes<K(==)>(s: seq<Component<K>>, ts: seq<K>): (r: seq<Component<K>>)
    decreases |ts|
  {
    if |ts| == 0 then [] else Enabled(OfType(s, ts[0])) + ByTypes(s, ts[1..])
  }

  /** Where a component sits in the multimap: its type key and its
      position in that key's range. */
  datatype Slot = Slot(key: string, index: nat)

  class ComposableEntity {
    /** The multimap, by type, each range in the order of insertion. */
    var componentMap: map<string, seq<Component<string>>>
    /** The components in the order they were added. */
    var components: seq<Component<string>>

    /** The multimap holds the components of the vector, each under its
        type, each range in vector order. */
    ghost predicate Valid()
      reads this
    {
      forall t :: Range(componentMap, t) == OfType(components, t)
    }

    constructor()
      ensures Valid() && components == []
    {
      componentMap := map[];
      components := [];
    }

    /** Where the component a segment names sits in the multimap: the
        first of its type, or the first of its type with the given id; a
        malformed segment is an error. */
    function FindComponent(name: string): (r: Result<Option<Slot>>)
      reads this
      ensures r.Ok? && r.value.Some? ==>
                r.value.value.key in componentMap && r.value.value.index < |componentMap[r.value.value.key]|
    {
      match ParseName(name)
      case Fail(m) => Fail(m)
      case Ok(q) =>
        var range := Range(componentMap, q.base);
        if |range| == 0 then Ok(None)
        else if q.id.None? then Ok(Some(Slot(q.base, 0)))
        else
          var i := FirstMatch(range, q.base, q.id);
          if i < |range| then Ok(Some(Slot(q.base, i))) else Ok(None)
    }

    function At(slot: Slot): Component<string>
      requires slot.key in componentMap && slot.index < |componentMap[slot.key]|
      reads this
    {
      componentMap[slot.key][slot.index]
    }

    /** The search through the multimap finds what a search through the
        vector finds. */
    lemma FindComponentAgrees(name: string)
      requires Valid()
      ensures FindComponent(name).Fail? <==> FindIn(components, name).Fail?
      ensures FindComponent(name).Ok? ==>
                (FindComponent(name).value.Some? <==> FindIn(components, name).value.Some?)
      ensures FindComponent(name).Ok? && FindComponent(name).value.Some? ==>
                At(FindComponent(name).value.value) == FindIn(components, name).value.value
    {
      if ParseName(name).Ok? {
        var q := ParseName(name).value;
        var range := Range(componentMap, q.base);
        assert range == OfType(components, q.base);
        FirstMatchOfType(components, q.base, q.id);
        if |range| > 0 && q.id.None? {
          OfTypeMembers(components, q.base);
          assert range[0] in range;
          assert Matches(range[0], q.base, q.id);
          assert FirstMatch(range, q.base, q.id) == 0;
        }
      }
    }

    /** The component a dotted path names; the first segment is looked up
        in the multimap. */
    function GetComponent(path: string): (r: Lookup)
      requires Valid()
      reads this
      ensures r == GetPath(components, path)
    {
      var dot := IndexOf(path, '.');
      FindComponentAgrees(path[..dot]);
      match FindComponent(path[..dot])
      case Fail(m) => Malformed(m)
      case Ok(None) => Missing("component " + path[..dot] + " does not exist")
      case Ok(Some(slot)) =>
        var c := At(slot);
        if dot == |path| then Got(c)
        else if c.children.None? then Missing("component " + path[..dot] + " is not a composable entity")
        else GetPath(c.children.value, path[dot + 1..])
    }

    /** Whether a dotted path names a component. */
    function HasComponent(path: string): (r: Result<bool>)
      requires Valid()
      reads this
      ensures r == HasPath(components, path)
    {
      var dot := IndexOf(path, '.');
      FindComponentAgrees(path[..dot]);
      match FindComponent(path[..dot])
      case Fail(m) => Fail(m)
      case Ok(None) => Ok(false)
      case Ok(Some(slot)) =>
        var c := At(slot);
        if dot == |path| then Ok(true)
        else if c.children.None? then Ok(false)
        else HasPath(c.children.value, path[dot + 1..])
    }

    /** Inserts the component under its type, after those already there,
        and appends it to the vector. */
    method AddComponent(c: Component<string>)
      requires Valid()
      modifies this
      ensures Valid()
      ensures components == old(components) + [c]
      ensures Range(componentMap, c.typeDescription) == Range(old(componentMap), c.typeDescription) + [c]
    {
      var t := c.typeDescription;
      componentMap := componentMap[t := Range(componentMap, t) + [c]];
      components := components + [c];
      forall u
        ensures Range(componentMap, u) == OfType(components, u)
      {
        OfTypeAppend(old(components), c, u);
      }
    }

    /** Removes the component a segment names from the multimap and from
        the vector and returns it; a segment naming nothing, or malformed,
        is an error and changes nothing. */
    method RemoveComponent(name: string) returns (r: Result<Component<string>>)
      requires Valid()
      modifies this
      ensures Valid()
      ensures r.Fail? <==> FindIn(old(components), name).Fail? || FindIn(old(components), name).value.None?
      ensures r.Fail? ==> components == old(components)
      ensures r.Ok? ==> Some(r.value) == FindIn(old(components), name).value
                        && components == EraseFirst(old(components), r.value)
    {
      FindComponentAgrees(name);
      var found := FindComponent(name);
      if found.Fail? {
        return Fail(found.message);
      }
      if found.value.None? {
        return Fail("element " + name + " not found in the component map");
      }
      var slot := found.value.value;
      var c := At(slot);
      EraseSlot(slot, ParseName(name).value);
      r := Ok(c);
    }

    /** Erases the component at a slot the query found, from its range and
        from the vector. */
    method EraseSlot(slot: Slot, ghost q: Query<string>)
      requires Valid()
      requires slot.key == q.base && q.base in componentMap && slot.index < |componentMap[q.base]|
      requires (q.id.None? && slot.index == 0)
               || (q.id.Some? && slot.index == FirstMatch(componentMap[q.base], q.base, q.id))
      modifies this
      ensures Valid()
      ensures components == EraseFirst(old(components), old(At(slot)))
    {
      var m, v := componentMap, components;
      var range := m[slot.key];
      var i := Find(v, range[slot.index]);
      EraseFound(m, v, q, slot.index, i);
      componentMap, components := m[slot.key := range[..slot.index] + range[slot.index + 1..]], v[..i] + v[i + 1..];
    }

    /** Calls Update on every enabled component, walking the multimap type
        by type; returns the components updated. */
    method UpdateComponents() returns (updated: seq<Component<string>>)
      requires Valid()
      ensures updated == ByTypes(components, SortedKeys(componentMap.Keys))
      ensures multiset(updated) == multiset(Enabled(components))
    {
      updated := [];
      var keys := componentMap.Keys;
      while keys != {}
        invariant keys <= componentMap.Keys
        invariant updated + ByTypes(components, SortedKeys(keys)) == ByTypes(components, SortedKeys(componentMap.Keys))
        decreases keys
      {
        LeastExists(keys);
        var t :| t in keys && IsLeast(t, keys);
        LeastUnique(t, Least(keys), keys);
        assert SortedKeys(keys) == [t] + SortedKeys(keys - {t});
        var range := componentMap[t];
        assert range == OfType(components, t) by {
          assert Range(componentMap, t) == OfType(components, t);
        }
        var more := UpdateRange(range);
        ByTypesFirst(components, t, SortedKeys(keys - {t}));
        updated := updated + more;
        keys := keys - {t};
      }
      ByTypesCounts(components, componentMap.Keys);
      TypesAllKeys();
      EnabledAllTypes(components, componentMap.Keys);
    }

    /** Every component's type is a key of the multimap. */
    lemma TypesAllKeys()
      requires Valid()
      ensures forall k :: 0 <= k < |components| ==> components[k].typeDescription in componentMap.Keys
    {
      forall k | 0 <= k < |components|
        ensures components[k].typeDescription in componentMap.Keys
      {
        var t := components[k].typeDescription;
        OfTypeMembers(components, t);
        assert components[k] in OfType(components, t);
        assert Range(componentMap, t) == OfType(components, t);
      }
    }
  }

  /** Calls Update on the enabled components of one range, in order. */
  method UpdateRange<K>(range: seq<Component<K>>) returns (updated: seq<Component<K>>)
    ensures updated == Enabled(range)
  {
    updated := [];
    var j := 0;
    while j < |range|
      invariant j <= |range|
      invariant updated == Enabled(range[..j])
    {
      EnabledAppend(range[..j], [range[j]]);
      assert range[..j + 1] == range[..j] + [range[j]];
      if range[j].enabled {
        updated := updated + [range[j]];
      }
      j := j + 1;
    }
    assert range[..j] == range;
  }

  /** Erasing the found position of a range erases the first occurrence
      of the component found there. */
  lemma FoundIsFirst<K>(m: map<K, seq<Component<K>>>, v: seq<Component<K>>, q: Query<K>, index: nat)
    requires forall t :: Range(m, t) == OfType(v, t)
    requires q.base in m && index < |m[q.base]|
    requires (q.id.None? && index == 0) || (q.id.Some? && index == FirstMatch(m[q.base], q.base, q.id))
    ensures m[q.base][..index] + m[q.base][index + 1..] == EraseFirst(m[q.base], m[q.base][index])
  {
    var range := m[q.base];
    assert Range(m, q.base) == OfType(v, q.base);
    OfTypeMembers(v, q.base);
    assert range[index] in range;
    assert Matches(range[index], q.base, q.id);
    var k := IndexOf(range, range[index]);
    if q.id.Some? {
      assert k >= index;
    }
  }

  /** Erasing the component a query found, at its position in its range
      and at the position std::find gives in the vector, keeps every range
      equal to the components of its type. */
  lemma EraseFound<K>(m: map<K, seq<Component<K>>>, v: seq<Component<K>>, q: Query<K>, index: nat, i: nat)
    requires forall t :: Range(m, t) == OfType(v, t)
    requires q.base in m && index < |m[q.base]|
    requires (q.id.None? && index == 0) || (q.id.Some? && index == FirstMatch(m[q.base], q.base, q.id))
    requires i == IndexOf(v, m[q.base][index])
    ensures i < |v| && v[..i] + v[i + 1..] == EraseFirst(v, m[q.base][index])
    ensures forall t :: Range(m[q.base := m[q.base][..index] + m[q.base][index + 1..]], t) ==
                          OfType(EraseFirst(v, m[q.base][index]), t)
  {
    FoundIsFirst(m, v, q, index);
    EraseKeepsRanges(m, v, q.base, index);
    EraseFirstAt(v, m[q.base][index], i);
  }

  /** Erasing a component at its position in its range, and from the
      vector, keeps every range equal to the components of its type. */
  lemma EraseKeepsRanges<K>(m: map<K, seq<Component<K>>>, v: seq<Component<K>>, key: K, index: nat)
    requires forall t :: Range(m, t) == OfType(v, t)
    requires key in m && index < |m[key]|
    requires m[key][..index] + m[key][index + 1..] == EraseFirst(m[key], m[key][index])
    ensures m[key][index] in v
    ensures forall t :: Range(m[key := m[key][..index] + m[key][index + 1..]], t) ==
                          OfType(EraseFirst(v, m[key][index]), t)
  {
    var c := m[key][index];
    var m' := m[key := m[key][..index] + m[key][index + 1..]];
    assert Range(m, key) == OfType(v, key);
    OfTypeMembers(v, key);
    assert c in m[key];
    forall t
      ensures Range(m', t) == OfType(EraseFirst(v, c), t)
    {
      OfTypeErase(v, c, t);
      assert Range(m, t) == OfType(v, t);
    }
  }

  /** Walking one more key first adds that key's enabled components first. */
  lemma ByTypesFirst<K>(s: seq<Component<K>>, t: K, ts: seq<K>)
    ensures ByTypes(s, [t] + ts) == Enabled(OfType(s, t)) + ByTypes(s, ts)
  {
    assert ([t] + ts)[1..] == ts;
  }

  /** Walking the keys of ks in order updates, counted with multiplicity,
      the enabled components whose type is in ks. */
  lemma {:induction false} ByTypesCounts(s: seq<Component<string>>, ks: set<string>)
    ensures multiset(ByTypes(s, SortedKeys(ks))) == multiset(EnabledOfTypes(s, ks))
    decreases ks
  {
    if ks == {} {
      EnabledOfNoTypes(s);
    } else {
      var m := Least(ks);
      ByTypesCounts(s, ks - {m});
      ByTypesFirst(s, m, SortedKeys(ks - {m}));
      EnabledOneMoreType(s, ks - {m}, m);
      assert ks - {m} + {m} == ks;
    }
  }

  /** With no type taken, no component is. */
  lemma {:induction false} EnabledOfNoTypes<K>(s: seq<Component<K>>)
    ensures EnabledOfTypes(s, {}) == []
  {
    if |s| > 0 {
      EnabledOfNoTypes(s[1..]);
    }
  }
}
