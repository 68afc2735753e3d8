/** The OBJ model of the Qt-OpenGL visualization as an object: its
    materials, coordinates, vertices with their cache, triangles, meshes
    and OpenGL arrays are fields its methods fill in place. Each method is
    proved to leave the fields as the functions of ObjMaterials,
    ObjGeometry, ObjImport and ObjMeshes say. */
module ObjModel {
  import opened Errors
  import opened ObjMaterials
  import opened ObjGeometry
  import opened ObjImport
  import opened ObjMeshes

  /** The alpha of a mesh's material, 0 for a material not in ms. */
  function Alpha(ms: map<string, Material>, m: Mesh): (a: real)
    ensures m.material in ms ==> a == ms[m.material].alpha
  {
    if m.material in ms then ms[m.material].alpha else 0.0
  }

  /** The sort key of meshes: their material's alpha in ms. */
  function AlphaKey(ms: map<string, Material>): (key: Mesh -> real)
    ensures forall m :: key(m) == Alpha(ms, m)
  {
    m => Alpha(ms, m)
  }

  /** The fan of the first k + 1 corners is that of the first k followed
      by corners 0, k - 1 and k. */
  lemma FanCornersStep<T>(cs: seq<T>, k: nat)
    requires 2 <= k < |cs|
    ensures FanCorners(cs[..k + 1]) == FanCorners(cs[..k]) + [cs[0], cs[k - 1], cs[k]]
  {
    assert cs[..k + 1][..k] == cs[..k];
  }

  /** The corners of the fan of the first k corners all resolve when all
      the corners do. */
  lemma FanResolves(g: Geometry, f: Format, cs: seq<Corner>, k: nat)
    requires k <= |cs| && AllResolve(g, f, cs)
    ensures AllResolve(g, f, FanCorners(cs[..k]))
  {
    var fc := FanCorners(cs[..k]);
    forall i | 0 <= i < |fc|
      ensures Resolve(g, f, fc[i]).Some?
    {
      assert fc[i] == cs[..k][FanSource(i)] == cs[FanSource(i)];
    }
  }

  /** Adding the vertices of one more corner adds its vertex to the cache
      and its index after the others. */
  lemma AddCornersSnoc(g: Geometry, f: Format, xs: seq<Corner>, c: Corner)
    requires g.store.Valid() && AddCorners(g, f, xs).Some? && Resolve(g, f, c).Some?
    ensures AddCorners(g, f, xs + [c]).Some?
    ensures var p := AddCorners(g, f, xs).value;
            var rc := Resolve(g, f, c).value;
            var a := ObjGeometry.AddVertex(p.cache, rc.key, rc.vertex);
            AddCorners(g, f, xs + [c]).value == Indexed(a.cache, p.indices + [a.index])
  {
    assert (xs + [c])[..|xs|] == xs;
  }

  /** Appending three elements is appending them one at a time. */
  lemma SnocThree<T>(s: seq<T>, a: T, b: T, c: T)
    ensures s + [a, b, c] == s + [a] + [b] + [c]
  {
  }

  /** Three more indices make one more triangle. */
  lemma ChunksSnoc(mat: string, ix: seq<nat>, m: nat, a: nat, b: nat, c: nat)
    requires |ix| == 3 * m
    ensures Chunks(mat, ix + [a, b, c]) == Chunks(mat, ix) + [Triangle(mat, [a, b, c])]
  {
    var l := ix + [a, b, c];
    assert (3 * m) / 3 == m && (3 * m + 3) / 3 == m + 1;
    var left := Chunks(mat, l);
    var right := Chunks(mat, ix) + [Triangle(mat, [a, b, c])];
    forall t | 0 <= t < m + 1
      ensures left[t] == right[t]
    {
      if t < m {
        assert l[3 * t] == ix[3 * t] && l[3 * t + 1] == ix[3 * t + 1] && l[3 * t + 2] == ix[3 * t + 2];
      } else {
        assert l[3 * t] == a && l[3 * t + 1] == b && l[3 * t + 2] == c;
      }
    }
  }

  /** The cache after adding the vertices of three corners in order, and
      their indices. */
  datatype Three = Three(cache: Cache<Vertex>, a: nat, b: nat, c: nat)

  /** The vertices of r0, r1 and r2 added in order to the cache. */
  function AddThree(cache: Cache<Vertex>, r0: Resolved, r1: Resolved, r2: Resolved): (t: Three)
    requires cache.Valid()
    ensures t.cache.Valid()
  {
    var a := ObjGeometry.AddVertex(cache, r0.key, r0.vertex);
    var b := ObjGeometry.AddVertex(a.cache, r1.key, r1.vertex);
    var c := ObjGeometry.AddVertex(b.cache, r2.key, r2.vertex);
    Three(c.cache, a.index, b.index, c.index)
  }

  /** x holds the vertices and indices of the fan of the first k corners
      of face cs in format f. */
  ghost predicate FanBuilt(g: Geometry, f: Format, cs: seq<Corner>, k: nat, x: Indexed)
    requires g.store.Valid()
  {
    && 2 <= k <= |cs| && AddCorners(g, f, FanCorners(cs[..k])) == Some(x)
    && x.cache.Valid() && |x.indices| == 3 * (k - 2)
  }

  /** The fan of the first two corners adds nothing. */
  lemma FanStart(g: Geometry, f: Format, cs: seq<Corner>)
    requires g.store.Valid() && |cs| >= 2
    ensures FanBuilt(g, f, cs, 2, Indexed(g.store, []))
  {
  }

  /** The fan of all the corners is the fan of the first |cs|. */
  lemma FanEnd(g: Geometry, f: Format, cs: seq<Corner>, x: Indexed)
    requires g.store.Valid() && FanBuilt(g, f, cs, |cs|, x)
    ensures AddCorners(g, f, FanCorners(cs)) == Some(x)
  {
    assert cs[..|cs|] == cs;
  }

  /** One step of the fan: the fan of the first k + 1 corners adds, after
      that of the first k, the vertices of corners 0, k - 1 and k, and
      their indices. */
  lemma FaceStep(g: Geometry, f: Format, cs: seq<Corner>, k: nat, x: Indexed)
    requires g.store.Valid() && k < |cs| && AllResolve(g, f, cs) && FanBuilt(g, f, cs, k, x)
    ensures var t := AddThree(x.cache, Resolve(g, f, cs[0]).value, Resolve(g, f, cs[k - 1]).value, Resolve(g, f, cs[k]).value);
            FanBuilt(g, f, cs, k + 1, Indexed(t.cache, x.indices + [t.a, t.b, t.c]))
  {
    var xs := FanCorners(cs[..k]);
    FanResolves(g, f, cs, k);
    FanCornersStep(cs, k);
    AddCornersSnoc(g, f, xs, cs[0]);
    AddCornersSnoc(g, f, xs + [cs[0]], cs[k - 1]);
    AddCornersSnoc(g, f, xs + [cs[0]] + [cs[k - 1]], cs[k]);
    SnocThree(xs, cs[0], cs[k - 1], cs[k]);
    var t := AddThree(x.cache, Resolve(g, f, cs[0]).value, Resolve(g, f, cs[k - 1]).value, Resolve(g, f, cs[k]).value);
    SnocThree(x.indices, t.a, t.b, t.c);
  }

  /** The triangle of the indices of three more corners follows those
      of the indices before. */
  lemma TrianglesStep(ts: seq<Triangle>, mat: string, ix: seq<nat>, m: nat, t: Three)
    requires |ix| == 3 * m
    ensures ts + Chunks(mat, ix) + [Triangle(mat, [t.a, t.b, t.c])] == ts + Chunks(mat, ix + [t.a, t.b, t.c])
  {
    ChunksSnoc(mat, ix, m, t.a, t.b, t.c);
  }

  /** The first of the entries whose vertex is x, or their number when
      there is none. */
  method FindVertex(vs: seq<Vertex>, entries: seq<nat>, x: Vertex) returns (j: nat)
    requires forall k :: 0 <= k < |entries| ==> entries[k] < |vs|
    ensures j == FirstMatch(vs, entries, x)
  {
    j := 0;
    while j < |entries| && vs[entries[j]] != x
      invariant 0 <= j <= |entries|
      invariant forall k :: 0 <= k < j ==> vs[entries[k]] != x
    {
      j := j + 1;
    }
    FirstMatchUnique(vs, entries, x, j);
  }

  /** The first match is the one position that matches, if below the
      number of entries, and that no position before matches. */
  lemma FirstMatchUnique<V>(vs: seq<V>, entries: seq<nat>, x: V, j: nat)
    requires forall k :: 0 <= k < |entries| ==> entries[k] < |vs|
    requires j <= |entries| && (j < |entries| ==> vs[entries[j]] == x)
    requires forall k :: 0 <= k < j ==> vs[entries[k]] != x
    ensures j == FirstMatch(vs, entries, x)
  {
  }

  /** The meshes of the first i + 1 triangles: triangle i joins the last
      mesh of the first i when it has that mesh's material, and starts a
      new mesh otherwise. */
  lemma GroupPrefix(ts: seq<Triangle>, i: nat)
    requires i < |ts|
    ensures var p := Group(ts[..i]);
            var t := ts[i];
            Group(ts[..i + 1]) ==
              if |p| > 0 && p[|p| - 1].material == t.material then p[..|p| - 1] + [Mesh(t.material, p[|p| - 1].indices + t.indices)]
              else p + [Mesh(t.material, t.indices)]
  {
    assert ts[..i + 1][..i] == ts[..i];
  }

  /** A sequence of three is the display of its elements. */
  lemma Triple<T>(s: seq<T>)
    requires |s| == 3
    ensures [s[0], s[1], s[2]] == s
  {
  }

  /** The meshes with indices ix appended to the last one. */
  function PushIndices(ms: seq<Mesh>, ix: seq<nat>): (r: seq<Mesh>)
    requires |ms| > 0
    ensures |r| == |ms| && r[..|ms| - 1] == ms[..|ms| - 1]
    ensures r[|ms| - 1] == Mesh(ms[|ms| - 1].material, ms[|ms| - 1].indices + ix)
  {
    ms[..|ms| - 1] + [Mesh(ms[|ms| - 1].material, ms[|ms| - 1].indices + ix)]
  }

  /** A new empty mesh that then receives ix is a mesh of ix. */
  lemma PushNew(p: seq<Mesh>, mat: string, ix: seq<nat>)
    ensures PushIndices(p + [Mesh(mat, [])], ix) == p + [Mesh(mat, ix)]
  {
    assert [] + ix == ix;
  }

  /** The meshes base followed by the triangles of ts grouped: the first
      triangle, and each one whose material differs from that of the one
      before, starts a new mesh, and each triangle's indices go to the
      last mesh. */
  method GroupAfter(base: seq<Mesh>, ts: seq<Triangle>) returns (ms: seq<Mesh>)
    requires forall t :: 0 <= t < |ts| ==> |ts[t].indices| == 3
    ensures ms == base + Group(ts)
  {
    var built: seq<Mesh> := [];
    var current: Option<string> := None;
    for i := 0 to |ts|
      invariant built == Group(ts[..i])
      invariant i == 0 ==> current == None
      invariant i > 0 ==> current == Some(ts[i - 1].material)
    {
      var t := ts[i];
      GroupPrefix(ts, i);
      Triple(t.indices);
      if current != Some(t.material) {
        current := Some(t.material);
        PushNew(built, t.material, t.indices);
        built := built + [Mesh(t.material, [])];
      }
      built := PushIndices(built, [t.indices[0], t.indices[1], t.indices[2]]);
    }
    assert ts[..|ts|] == ts;
    ms := base + built;
  }

  class ObjModel {
    var materials: map<string, Material>
    var coords: seq<Vec3>
    var normals: seq<Vec3>
    var textures: seq<Vec2>
    var vertices: seq<Vertex>
    /** For each position index, the indices of the vertices built from
        it, oldest first. */
    var vertexCache: map<int, seq<nat>>
    var triangles: seq<Triangle>
    var meshes: seq<Mesh>
    var glPositions: seq<real>
    var glNormals: seq<real>
    /** A default-constructed material. */
    const blank: Material

    /** The geometry the fields hold. */
    function State(): (g: Geometry)
      reads this
    {
      Geometry(coords, normals, textures, Store(), triangles)
    }

    /** The vertices and their cache. */
    function Store(): (c: Cache<Vertex>)
      reads this
    {
      Cache(vertices, vertexCache)
    }

    /** A model with only its default material. */
    constructor(blank: Material)
      ensures this.blank == blank && materials == map[DEFAULT_MATERIAL := blank] && State() == EMPTY
      ensures meshes == [] && glPositions == [] && glNormals == []
    {
      this.blank := blank;
      materials := map[DEFAULT_MATERIAL := blank];
      coords, normals, textures := [], [], [];
      vertices, vertexCache, triangles := [], map[], [];
      meshes, glPositions, glNormals := [], [], [];
    }

    /** The material of a name; an error naming it when it is undefined. */
    function GetMaterial(name: string): (r: Result<Material>)
      reads this
      ensures r.Fail? <==> name !in materials
      ensures r.Ok? ==> r.value == materials[name]
      ensures r.Fail? ==> r.message == "Material \"" + name + "\" is undefined"
    {
      if name in materials then Ok(materials[name]) else Fail("Material \"" + name + "\" is undefined")
    }

    /** The index of vertex x: the first vertex equal to it cached under
        key, or a new vertex appended and cached under key. */
    method AddVertex(key: int, x: Vertex) returns (index: nat)
      requires Store().Valid()
      modifies this
      ensures Store() == ObjGeometry.AddVertex(old(Store()), key, x).cache
      ensures index == ObjGeometry.AddVertex(old(Store()), key, x).index
      ensures coords == old(coords) && normals == old(normals) && textures == old(textures) && triangles == old(triangles)
      ensures materials == old(materials) && meshes == old(meshes) && glPositions == old(glPositions) && glNormals == old(glNormals)
    {
      var entries := Entries(Store(), key);
      var j := FindVertex(vertices, entries, x);
      if j < |entries| {
        index := entries[j];
      } else {
        index := |vertices|;
        vertices := vertices + [x];
        vertexCache := vertexCache[key := entries + [index]];
      }
    }

    /** The materials after reading MTL lines from the default material
        on, and whether reading stopped on a material defined twice. */
    method ImportMaterials(lines: seq<MtlLine>) returns (status: Status)
      requires DEFAULT_MATERIAL in materials
      modifies this
      ensures var o := ReadMtl(MtlState(old(materials), DEFAULT_MATERIAL), lines, blank);
              materials == o.state.materials && status == o.status
      ensures State() == old(State()) && meshes == old(meshes) && glPositions == old(glPositions) && glNormals == old(glNormals)
    {
      ghost var start := MtlState(materials, DEFAULT_MATERIAL);
      var ms := materials;
      var current := DEFAULT_MATERIAL;
      status := Done;
      var i := 0;
      while i < |lines| && status.Done?
        decreases |lines| - i
        invariant 0 <= i <= |lines| && ValidState(MtlState(ms, current))
        invariant status.Done? ==> ReadMtl(start, lines, blank) == ReadMtl(MtlState(ms, current), lines[i..], blank)
        invariant status.Thrown? ==> ReadMtl(start, lines, blank) == MtlOutcome(MtlState(ms, current), status)
      {
        assert lines[i..][0] == lines[i] && lines[i..][1..] == lines[i + 1..];
        var m := ms[current];
        match lines[i] {
          case NewMtl(name) =>
            if name in ms {
              status := Thrown("Material \"" + name + "\" already defined");
            } else {
              ms := ms[name := blank];
              current := name;
            }
          case Ka(r, g, b) => ms := ms[current := m.(ambient := WithRgb(m.ambient, r, g, b))];
          case Kd(r, g, b) => ms := ms[current := m.(diffuse := WithRgb(m.diffuse, r, g, b))];
          case Ks(r, g, b) => ms := ms[current := m.(specular := WithRgb(m.specular, r, g, b))];
          case Tr(v) => ms := ms[current := WithAlpha(m, 1.0 - v)];
          case D(v) => ms := ms[current := WithAlpha(m, v)];
          case I(arg) =>
            if arg == "1" {
              ms := ms[current := m.(specular := Rgba(0.0, 0.0, 0.0, 1.0))];
            }
          case _ =>
        }
        i := i + 1;
      }
      if status.Done? {
        assert lines[i..] == [];
      }
      materials := ms;
    }

    /** Appends triangle (r0, r1, r2) of material mat, adding the vertices
        of its corners in order. */
    method AddTriangle(mat: string, r0: Resolved, r1: Resolved, r2: Resolved)
      requires Store().Valid()
      modifies this
      ensures var t := AddThree(old(Store()), r0, r1, r2);
              Store() == t.cache && triangles == old(triangles) + [Triangle(mat, [t.a, t.b, t.c])]
      ensures coords == old(coords) && normals == old(normals) && textures == old(textures)
      ensures materials == old(materials) && meshes == old(meshes) && glPositions == old(glPositions) && glNormals == old(glNormals)
    {
      var a := AddVertex(r0.key, r0.vertex);
      var b := AddVertex(r1.key, r1.vertex);
      var c := AddVertex(r2.key, r2.vertex);
      triangles := triangles + [Triangle(mat, [a, b, c])];
    }

    /** Adds face cs of material mat: nothing when the format of its
        first corner is unknown, otherwise its fan of triangles. */
    method AddFace(mat: string, cs: seq<Corner>)
      requires State().Valid() && Face(State(), mat, cs).Some?
      modifies this
      ensures State() == Face(old(State()), mat, cs).value
      ensures materials == old(materials) && meshes == old(meshes) && glPositions == old(glPositions) && glNormals == old(glNormals)
    {
      var format := FormatOf(First(cs));
      if format.None? {
        return;
      }
      if |cs| < 3 {
        assert Chunks(mat, []) == [] && triangles + [] == triangles;
        return;
      }
      FanCornersCover(State(), format.value, cs);
      AddFan(mat, format.value, cs);
    }

    /** The fields hold geometry g with the fan's vertices x added and
        their triangles of material mat appended. */
    ghost predicate Fanned(g: Geometry, mat: string, x: Indexed)
      reads this
    {
      && coords == g.coords && normals == g.normals && textures == g.textures
      && Store() == x.cache && triangles == g.triangles + Chunks(mat, x.indices)
    }

    /** Adds the fan of face cs in format f: for each corner k from 2 on,
        the triangle of corners 0, k - 1 and k. */
    method AddFan(mat: string, f: Format, cs: seq<Corner>)
      requires State().Valid() && |cs| >= 3 && AllResolve(State(), f, cs)
      modifies this
      ensures var g := old(State());
              var x := AddCorners(g, f, FanCorners(cs));
              && x.Some?
              && State() == Geometry(g.coords, g.normals, g.textures, x.value.cache, g.triangles + Chunks(mat, x.value.indices))
      ensures materials == old(materials) && meshes == old(meshes) && glPositions == old(glPositions) && glNormals == old(glNormals)
    {
      var g0 := State();
      var r0 := Resolve(g0, f, cs[0]).value;
      var k := 2;
      ghost var x := Indexed(g0.store, []);
      FanStart(g0, f, cs);
      assert Chunks(mat, []) == [] && triangles + [] == triangles;
      while k < |cs|
        invariant FanBuilt(g0, f, cs, k, x) && Fanned(g0, mat, x)
        invariant materials == old(materials) && meshes == old(meshes) && glPositions == old(glPositions) && glNormals == old(glNormals)
      {
        var r1 := Resolve(g0, f, cs[k - 1]).value;
        var r2 := Resolve(g0, f, cs[k]).value;
        FaceStep(g0, f, cs, k, x);
        ghost var t := AddThree(x.cache, r0, r1, r2);
        AddTriangle(mat, r0, r1, r2);
        TrianglesStep(g0.triangles, mat, x.indices, k - 2, t);
        x := Indexed(t.cache, x.indices + [t.a, t.b, t.c]);
        k := k + 1;
      }
      FanEnd(g0, f, cs, x);
    }

    /** One line of an OBJ file read into the model, with material
        selected for the faces. */
    method ImportLine(line: ObjLine, selected: string) returns (selected': string, status: Status)
      requires Scan(State(), materials, selected).Valid()
      requires ObjStep(Scan(State(), materials, selected), line, blank).Imported?
      modifies this
      ensures ObjStep(Scan(old(State()), old(materials), selected), line, blank) == Imported(Scan(State(), materials, selected'), status)
      ensures meshes == old(meshes) && glPositions == old(glPositions) && glNormals == old(glNormals)
    {
      selected', status := selected, Done;
      match line
      case MtlLib(mtl) => status := ImportMaterials(mtl);
      case F(cs) => AddFace(selected, cs);
      case UseMtl(name) => selected' := if name in materials then name else DEFAULT_MATERIAL;
      case V(p) => coords := coords + [p];
      case Vn(n) => normals := normals + [n];
      case Vt(t) => textures := textures + [t];
      case _ =>
    }

    /** The model after reading OBJ lines with the default material
        selected, and whether reading stopped on an error. */
    method ImportGeometry(lines: seq<ObjLine>) returns (status: Status)
      requires Scan(State(), materials, DEFAULT_MATERIAL).Valid()
      requires Import(Scan(State(), materials, DEFAULT_MATERIAL), lines, blank).Imported?
      modifies this
      ensures var r := Import(Scan(old(State()), old(materials), DEFAULT_MATERIAL), lines, blank);
              State() == r.scan.geometry && materials == r.scan.materials && status == r.status
      ensures meshes == old(meshes) && glPositions == old(glPositions) && glNormals == old(glNormals)
    {
      ghost var start := Scan(State(), materials, DEFAULT_MATERIAL);
      var selected := DEFAULT_MATERIAL;
      status := Done;
      var i := 0;
      while i < |lines| && status.Done?
        decreases |lines| - i
        invariant 0 <= i <= |lines| && Scan(State(), materials, selected).Valid()
        invariant status.Done? ==> Import(start, lines, blank) == Import(Scan(State(), materials, selected), lines[i..], blank)
        invariant status.Thrown? ==> Import(start, lines, blank) == Imported(Scan(State(), materials, selected), status)
        invariant meshes == old(meshes) && glPositions == old(glPositions) && glNormals == old(glNormals)
      {
        assert lines[i..][0] == lines[i] && lines[i..][1..] == lines[i + 1..];
        selected, status := ImportLine(lines[i], selected);
        i := i + 1;
      }
      if status.Done? {
        assert lines[i..] == [];
      }
    }

    /** Groups the triangles into meshes after the existing ones and
        orders all of them from the greatest alpha of their material
        down. */
    method BuildMeshes()
      requires forall t :: 0 <= t < |triangles| ==> |triangles[t].indices| == 3
      modifies this
      ensures multiset(meshes) == multiset(old(meshes) + Group(triangles))
      ensures Descending(meshes, AlphaKey(materials))
      ensures State() == old(State()) && materials == old(materials) && glPositions == old(glPositions) && glNormals == old(glNormals)
    {
      var ms := GroupAfter(meshes, triangles);
      meshes := SortDescending(ms, AlphaKey(materials));
    }

    /** Appends the x, y and z of every vertex's position and normal to
        the OpenGL arrays. */
    method GenerateOpenGLVectors()
      modifies this
      ensures glPositions == old(glPositions) + GlArray(vertices, PositionPart)
      ensures glNormals == old(glNormals) + GlArray(vertices, NormalPart)
      ensures State() == old(State()) && materials == old(materials) && meshes == old(meshes)
    {
      var ps := glPositions;
      var ns := glNormals;
      for i := 0 to |vertices|
        invariant ps == glPositions + GlArray(vertices[..i], PositionPart)
        invariant ns == glNormals + GlArray(vertices[..i], NormalPart)
      {
        var v := vertices[i];
        assert vertices[..i + 1][..i] == vertices[..i];
        ps := ps + [v.position.x, v.position.y, v.position.z];
        ns := ns + [v.normal.x, v.normal.y, v.normal.z];
      }
      assert vertices[..|vertices|] == vertices;
      glPositions, glNormals := ps, ns;
    }

    /** Loads a model from the lines of its OBJ file into a model with
        only its default material: reads the lines, builds the meshes,
        rejects a model without normals and fills the OpenGL arrays. */
    method Load(lines: seq<ObjLine>) returns (status: Status)
      requires materials == map[DEFAULT_MATERIAL := blank] && State() == EMPTY
      requires meshes == [] && glPositions == [] && glNormals == []
      requires Import(Start(blank), lines, blank).Imported?
      modifies this
      ensures var r := Import(Start(blank), lines, blank);
              State() == r.scan.geometry && materials == r.scan.materials
      ensures var r := Import(Start(blank), lines, blank);
              r.status.Thrown? ==> status == r.status && meshes == [] && glPositions == [] && glNormals == []
      ensures var r := Import(Start(blank), lines, blank);
              r.status.Done? ==> && multiset(meshes) == multiset(Group(triangles))
                                 && Descending(meshes, AlphaKey(materials))
                                 && IndicesBelow(meshes, |vertices|)
      ensures var r := Import(Start(blank), lines, blank);
              r.status.Done? && normals == [] ==> status == Thrown("model does not specify normals.") && glPositions == [] && glNormals == []
      ensures status.Done? <==> Import(Start(blank), lines, blank).status.Done? && normals != []
      ensures status.Done? ==> glPositions == GlArray(vertices, PositionPart) && glNormals == GlArray(vertices, NormalPart)
    {
      status := ImportGeometry(lines);
      if status.Thrown? {
        return;
      }
      assert State().Valid();
      BuildMeshes();
      GroupWithin(triangles, |vertices|);
      PermutedBelow(meshes, Group(triangles), |vertices|);
      if |normals| == 0 {
        status := Thrown("model does not specify normals.");
        return;
      }
      GenerateOpenGLVectors();
    }
  }
}
