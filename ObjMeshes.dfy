/** The meshes of an OBJ model: its triangles grouped, in order, into runs
    of one material, the runs then ordered from opaque to transparent;
    and the flat coordinate arrays handed to OpenGL. */
module ObjMeshes {
  import opened ObjMaterials
  import opened ObjGeometry

  /** A mesh: a material and the vertex indices of its triangles. */
  datatype Mesh = Mesh(material: string, indices: seq<nat>)

  /** The triangles grouped in order: a triangle whose material differs
      from the one before starts a new mesh, and every triangle adds its
      indices to the last mesh. */
  function Group(ts: seq<Triangle>): (ms: seq<Mesh>)
    ensures |ms| <= |ts|
    ensures |ts| > 0 ==> |ms| > 0 && ms[|ms| - 1].material == ts[|ts| - 1].material
    decreases |ts|
  {
    if |ts| == 0 then []
    else
      var p := Group(ts[..|ts| - 1]);
      var t := ts[|ts| - 1];
      if |p| > 0 && p[|p| - 1].material == t.material then
        p[..|p| - 1] + [Mesh(t.material, p[|p| - 1].indices + t.indices)]
      else
        p + [Mesh(t.material, t.indices)]
  }

  /** The indices of the triangles, in order. */
  function TriangleIndices(ts: seq<Triangle>): (ix: seq<nat>)
    decreases |ts|
  {
    if |ts| == 0 then [] else TriangleIndices(ts[..|ts| - 1]) + ts[|ts| - 1].indices
  }

  /** The indices of the meshes, in order. */
  function MeshIndices(ms: seq<Mesh>): (ix: seq<nat>)
    decreases |ms|
  {
    if |ms| == 0 then [] else MeshIndices(ms[..|ms| - 1]) + ms[|ms| - 1].indices
  }

  /** No two neighbouring meshes share a material. */
  ghost predicate Runs(ms: seq<Mesh>) {
    forall k :: 0 < k < |ms| ==> ms[k - 1].material != ms[k].material
  }

  /** Grouping loses, adds and reorders no index. */
  lemma {:induction false} GroupKeepsIndices(ts: seq<Triangle>)
    ensures MeshIndices(Group(ts)) == TriangleIndices(ts)
    decreases |ts|
  {
    if |ts| > 0 {
      var q := ts[..|ts| - 1];
      var p := Group(q);
      var t := ts[|ts| - 1];
      GroupKeepsIndices(q);
      var ms := Group(ts);
      if |p| > 0 && p[|p| - 1].material == t.material {
        var init := p[..|p| - 1];
        assert MeshIndices(p) == MeshIndices(init) + p[|p| - 1].indices;
        assert ms[..|ms| - 1] == init;
      } else {
        assert ms[..|ms| - 1] == p;
      }
    }
  }

  /** Grouping leaves no two neighbouring meshes of one material. */
  lemma {:induction false} GroupRuns(ts: seq<Triangle>)
    ensures Runs(Group(ts))
    decreases |ts|
  {
    if |ts| > 0 {
      var q := ts[..|ts| - 1];
      var p := Group(q);
      var t := ts[|ts| - 1];
      GroupRuns(q);
      var ms := Group(ts);
      if |p| > 0 && p[|p| - 1].material == t.material {
        assert forall k :: 0 <= k < |p| - 1 ==> ms[k] == p[k];
      } else {
        assert forall k :: 0 <= k < |p| ==> ms[k] == p[k];
      }
    }
  }

  /** Every mesh's material is the material of one of the triangles: when
      every triangle's material is one of ms, so is every mesh's. */
  lemma {:induction false} GroupMaterials(ts: seq<Triangle>, known: set<string>)
    requires forall t :: 0 <= t < |ts| ==> ts[t].material in known
    ensures forall k :: 0 <= k < |Group(ts)| ==> Group(ts)[k].material in known
    decreases |ts|
  {
    if |ts| > 0 {
      var q := ts[..|ts| - 1];
      assert forall t :: 0 <= t < |q| ==> q[t] == ts[t];
      GroupMaterials(q, known);
    }
  }

  /** Every index of every mesh is below n. */
  ghost predicate IndicesBelow(ms: seq<Mesh>, n: nat) {
    forall m, j :: m in ms && 0 <= j < |m.indices| ==> m.indices[j] < n
  }

  /** The meshes of triangles whose indices name vertices hold only
      indices that name vertices. */
  lemma {:induction false} GroupWithin(ts: seq<Triangle>, n: nat)
    requires TrianglesWithin(ts, n)
    ensures IndicesBelow(Group(ts), n)
    decreases |ts|
  {
    if |ts| > 0 {
      var q := ts[..|ts| - 1];
      var t := ts[|ts| - 1];
      assert forall k :: 0 <= k < |q| ==> q[k] == ts[k];
      GroupWithin(q, n);
      var p := Group(q);
      var ms := Group(ts);
      forall m, j | m in ms && 0 <= j < |m.indices|
        ensures m.indices[j] < n
      {
        if m in p {
        } else if |p| > 0 && p[|p| - 1].material == t.material {
          var last := p[|p| - 1];
          assert m !in p[..|p| - 1] by {
            assert forall x :: x in p[..|p| - 1] ==> x in p;
          }
          assert m == Mesh(t.material, last.indices + t.indices);
          assert last in p;
          if j >= |last.indices| {
            assert m.indices[j] == t.indices[j - |last.indices|];
          }
        } else {
          assert m == Mesh(t.material, t.indices);
        }
      }
    }
  }

  /** Reordering meshes keeps their indices below n. */
  lemma PermutedBelow(a: seq<Mesh>, b: seq<Mesh>, n: nat)
    requires multiset(a) == multiset(b) && IndicesBelow(b, n)
    ensures IndicesBelow(a, n)
  {
    forall m | m in a
      ensures m in b
    {
      assert m in multiset(a);
    }
  }

  /** The meshes ordered by key from the greatest down. */
  ghost predicate Descending<T>(s: seq<T>, key: T -> real) {
    forall i, j :: 0 <= i < j < |s| ==> key(s[i]) >= key(s[j])
  }

  /** s in descending order of key: each element is inserted after the
      ones whose key is at least its own. */
  method SortDescending<T>(s: seq<T>, key: T -> real) returns (r: seq<T>)
    ensures multiset(r) == multiset(s)
    ensures Descending(r, key)
  {
    r := [];
    for i := 0 to |s|
      invariant multiset(r) == multiset(s[..i])
      invariant Descending(r, key)
    {
      var x := s[i];
      var p := InsertionPoint(r, x, key);
      InsertKeepsOrder(r, p, x, key);
      InsertCounts(r, p, x);
      assert s[..i + 1] == s[..i] + [x];
      r := r[..p] + [x] + r[p..];
    }
    assert s[..|s|] == s;
  }

  /** The first position in r whose key is below that of x, or |r| when
      there is none. */
  method InsertionPoint<T>(r: seq<T>, x: T, key: T -> real) returns (p: nat)
    ensures p <= |r|
    ensures forall k :: 0 <= k < p ==> key(r[k]) >= key(x)
    ensures p < |r| ==> key(r[p]) < key(x)
  {
    p := 0;
    while p < |r| && key(r[p]) >= key(x)
      invariant 0 <= p <= |r|
      invariant forall k :: 0 <= k < p ==> key(r[k]) >= key(x)
    {
      p := p + 1;
    }
  }

  /** Inserting x after the elements whose key is at least its own, and
      before the first one whose key is smaller, keeps the order. */
  lemma InsertKeepsOrder<T>(r: seq<T>, p: nat, x: T, key: T -> real)
    requires p <= |r| && Descending(r, key)
    requires forall k :: 0 <= k < p ==> key(r[k]) >= key(x)
    requires p < |r| ==> key(r[p]) < key(x)
    ensures Descending(r[..p] + [x] + r[p..], key)
  {
    var t := r[..p] + [x] + r[p..];
    assert forall i :: 0 <= i < p ==> t[i] == r[i];
    assert t[p] == x;
    assert forall i :: p < i < |t| ==> t[i] == r[i - 1];
  }

  /** Inserting x anywhere adds one x. */
  lemma InsertCounts<T>(r: seq<T>, p: nat, x: T)
    requires p <= |r|
    ensures multiset(r[..p] + [x] + r[p..]) == multiset(r) + multiset{x}
  {
    assert r == r[..p] + r[p..];
  }

  /** The part of a vertex an OpenGL array holds. */
  datatype Part = PositionPart | NormalPart

  function Pick(v: Vertex, part: Part): Vec3 {
    match part
    case PositionPart => v.position
    case NormalPart => v.normal
  }

  /** The OpenGL array of one part of the vertices: its x, y and z,
      vertex after vertex. */
  function GlArray(vs: seq<Vertex>, part: Part): (r: seq<real>)
    ensures |r| == 3 * |vs|
    ensures forall i :: 0 <= i < |vs| ==>
              r[3 * i] == Pick(vs[i], part).x && r[3 * i + 1] == Pick(vs[i], part).y && r[3 * i + 2] == Pick(vs[i], part).z
    decreases |vs|
  {
    if |vs| == 0 then []
    else
      var n := |vs| - 1;
      var p := GlArray(vs[..n], part);
      assert forall i :: 0 <= i < n ==> vs[..n][i] == vs[i];
      var c := Pick(vs[n], part);
      p + [c.x, c.y, c.z]
  }
}
