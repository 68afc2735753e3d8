/** The geometry of an OBJ model, as read from its lines: vertex
    positions, normals and texture coordinates are collected as they come,
    and each face is cut into a fan of triangles whose corners become
    vertices, each vertex stored once per position index. The reading and
    tokenising of the file is not modelled: a line arrives already split
    into its keyword and values. */
module ObjGeometry {
  import opened Errors
  import opened ObjMaterials

  datatype Vec3 = Vec3(x: real, y: real, z: real)
  datatype Vec2 = Vec2(u: real, v: real)

  const ZERO3 := Vec3(0.0, 0.0, 0.0)
  const ZERO2 := Vec2(0.0, 0.0)

  /** One corner of a face, its text split on '/': each field is an
      integer, or None for an empty field. Splitting always yields at
      least one field, even for the empty text of a missing corner. */
  type Corner = c: seq<Option<int>> | |c| >= 1 witness [None]

  /** One OBJ line, already split into its keyword and values; an
      "mtllib" line carries the lines of the material file it names. */
  datatype ObjLine =
    | ObjBlank
    | MtlLib(mtl: seq<MtlLine>)
    | F(corners: seq<Corner>)
    | UseMtl(name: string)
    | V(position: Vec3)
    | Vn(normal: Vec3)
    | Vt(texture: Vec2)
    | ObjOther

  /** The corner formats a face may use: v, v/vt, v//vn and v/vt/vn. */
  datatype Format = Plain | Textured | Normal | TexturedNormal

  datatype Vertex = Vertex(position: Vec3, normal: Vec3, texture: Vec2)

  /** A triangle: the name of its material and its three vertex
      indices. */
  datatype Triangle = Triangle(material: string, indices: seq<nat>)

  /** The vertices built so far and the vertex cache: for each key (a
      position index) the indices of the vertices built from it, oldest
      first. */
  datatype Cache<V> = Cache(vertices: seq<V>, entries: map<int, seq<nat>>)
  {
    /** Every cached index names a vertex. */
    ghost predicate Valid() {
      forall k, j :: k in entries && 0 <= j < |entries[k]| ==> entries[k][j] < |vertices|
    }

    /** No two vertices cached under the same key are equal. */
    ghost predicate Unique()
      requires Valid()
    {
      forall k, i, j :: k in entries && 0 <= i < j < |entries[k]| ==> vertices[entries[k][i]] != vertices[entries[k][j]]
    }
  }

  /** The model's geometry: the coordinates read, the vertices built with
      their cache, and the triangles. */
  datatype Geometry = Geometry(
    coords: seq<Vec3>, normals: seq<Vec3>, textures: seq<Vec2>,
    store: Cache<Vertex>, triangles: seq<Triangle>)
  {
    /** The cache is valid and every triangle has three indices, each
        naming a vertex. */
    ghost predicate Valid() {
      store.Valid() && TrianglesWithin(triangles, |store.vertices|)
    }
  }

  /** Every triangle has three indices, each below n. */
  ghost predicate TrianglesWithin(ts: seq<Triangle>, n: nat) {
    && (forall t :: 0 <= t < |ts| ==> |ts[t].indices| == 3)
    && (forall t, j :: 0 <= t < |ts| && 0 <= j < |ts[t].indices| ==> ts[t].indices[j] < n)
  }

  const EMPTY := Geometry([], [], [], Cache([], map[]), [])

  /** An index as written in the file, made zero-based against the count
      of the items it refers to: positive indices count from 1 at the
      front, negative ones from -1 at the back. */
  function AdjustIndex(n: int, count: nat): (r: int)
    ensures n < 0 ==> r - count == n
    ensures n >= 0 ==> r + 1 == n
  {
    if n < 0 then n + count else n - 1
  }

  /** An adjusted index names one of the count items exactly when the
      written index is between 1 and count or between -count and -1; a
      written 0 never does. */
  lemma AdjustIndexInRange(n: int, count: nat)
    ensures 0 <= AdjustIndex(n, count) < count <==> 1 <= n <= count || (n <= -1 && 0 <= n + count)
    ensures AdjustIndex(0, count) == -1
  {
  }

  /** The integer value of field k of a corner: a missing or empty field
      reads as 0. */
  function Field(c: Corner, k: nat): (r: int)
    ensures k < |c| && c[k].Some? ==> r == c[k].value
    ensures k >= |c| || c[k].None? ==> r == 0
  {
    if k < |c| && c[k].Some? then c[k].value else 0
  }

  /** The format of a face, decided by its first corner alone; a first
      corner of four or more fields makes the face ignored. */
  function FormatOf(c: Corner): (r: Option<Format>)
    ensures r.None? <==> |c| > 3
    ensures r == Some(Plain) <==> |c| == 1
    ensures r == Some(Textured) <==> |c| == 2
    ensures r == Some(Normal) <==> |c| == 3 && c[1].None?
  {
    if |c| == 1 then Some(Plain)
    else if |c| == 2 then Some(Textured)
    else if |c| == 3 && c[1].None? then Some(Normal)
    else if |c| == 3 then Some(TexturedNormal)
    else None
  }

  predicate HasTexture(f: Format) { f == Textured || f == TexturedNormal }
  predicate HasNormal(f: Format) { f == Normal || f == TexturedNormal }

  /** The position index of a corner in format f: plain faces read each
      corner's whole text as one integer, so a corner with more than one
      field reads as 0 there; the other formats read the first field. */
  function PositionField(f: Format, c: Corner): (r: int)
    ensures f == Plain && |c| > 1 ==> r == 0
    ensures f != Plain || |c| == 1 ==> r == Field(c, 0)
  {
    if f == Plain && |c| > 1 then 0 else Field(c, 0)
  }

  /** A corner's cache key (its adjusted position index) and vertex. */
  datatype Resolved = Resolved(key: int, vertex: Vertex)

  /** The vertex a corner names in format f: its position, its normal or
      zero, its texture coordinates or zero. None when an index it uses
      names nothing. */
  function Resolve(g: Geometry, f: Format, c: Corner): (r: Option<Resolved>)
    ensures r.Some? <==>
              && 0 <= AdjustIndex(PositionField(f, c), |g.coords|) < |g.coords|
              && (HasTexture(f) ==> 0 <= AdjustIndex(Field(c, 1), |g.textures|) < |g.textures|)
              && (HasNormal(f) ==> 0 <= AdjustIndex(Field(c, 2), |g.normals|) < |g.normals|)
    ensures r.Some? ==> r.value.key == AdjustIndex(PositionField(f, c), |g.coords|)
                        && r.value.vertex.position == g.coords[r.value.key]
    ensures r.Some? && !HasNormal(f) ==> r.value.vertex.normal == ZERO3
    ensures r.Some? && !HasTexture(f) ==> r.value.vertex.texture == ZERO2
  {
    var v := AdjustIndex(PositionField(f, c), |g.coords|);
    var t := AdjustIndex(Field(c, 1), |g.textures|);
    var n := AdjustIndex(Field(c, 2), |g.normals|);
    if !(0 <= v < |g.coords|) then None
    else if HasTexture(f) && !(0 <= t < |g.textures|) then None
    else if HasNormal(f) && !(0 <= n < |g.normals|) then None
    else
      Some(Resolved(v, Vertex(g.coords[v],
                              if HasNormal(f) then g.normals[n] else ZERO3,
                              if HasTexture(f) then g.textures[t] else ZERO2)))
  }

  /** The first position among the entries whose vertex is x, or the
      number of entries when there is none. */
  function FirstMatch<V(==)>(vs: seq<V>, entries: seq<nat>, x: V): (j: nat)
    requires forall k :: 0 <= k < |entries| ==> entries[k] < |vs|
    ensures j <= |entries|
    ensures j < |entries| ==> vs[entries[j]] == x
    ensures forall k :: 0 <= k < j ==> vs[entries[k]] != x
    decreases |entries|
  {
    if |entries| == 0 then 0
    else if vs[entries[|entries| - 1]] != x && FirstMatch(vs, entries[..|entries| - 1], x) == |entries| - 1 then |entries|
    else FirstMatch(vs, entries[..|entries| - 1], x)
  }

  /** The entries cached under a key. */
  function Entries<V>(c: Cache<V>, key: int): (r: seq<nat>)
    ensures key in c.entries ==> r == c.entries[key]
    ensures key !in c.entries ==> r == []
  {
    if key in c.entries then c.entries[key] else []
  }

  /** The cache after adding a vertex and the index of that vertex. */
  datatype Added<V> = Added(cache: Cache<V>, index: nat)

  /** Adding vertex x under key: when a vertex equal to x is cached under
      the key its index is returned and nothing changes; otherwise x is
      appended to the vertices and its index to the key's entries. */
  function AddVertex<V(==)>(c: Cache<V>, key: int, x: V): (r: Added<V>)
    requires c.Valid()
    ensures r.cache.Valid()
    ensures r.index < |r.cache.vertices| && r.cache.vertices[r.index] == x
    ensures |c.vertices| <= |r.cache.vertices| && r.cache.vertices[..|c.vertices|] == c.vertices
  {
    var entries := Entries(c, key);
    var j := FirstMatch(c.vertices, entries, x);
    if j < |entries| then Added(c, entries[j])
    else
      AppendKeepsValid(c, key, x);
      Added(Cache(c.vertices + [x], c.entries[key := entries + [|c.vertices|]]), |c.vertices|)
  }

  /** A vertex is reused, and the cache left as it is, exactly when a
      vertex equal to it is cached under its key; otherwise it is appended
      and its index cached last under the key. Either way no two vertices
      cached under one key are equal. */
  lemma AddVertexReuses<V>(c: Cache<V>, key: int, x: V)
    requires c.Valid()
    ensures var r := AddVertex(c, key, x);
            r.cache == c <==> exists j :: 0 <= j < |Entries(c, key)| && c.vertices[Entries(c, key)[j]] == x
    ensures var r := AddVertex(c, key, x);
            r.cache != c ==> && r.cache.vertices == c.vertices + [x] && r.index == |c.vertices|
                             && r.cache.entries == c.entries[key := Entries(c, key) + [r.index]]
  {
    var entries := Entries(c, key);
    var j := FirstMatch(c.vertices, entries, x);
    if j < |entries| {
      assert c.vertices[entries[j]] == x;
    } else {
      assert AddVertex(c, key, x).cache.vertices != c.vertices;
    }
  }

  /** Appending a vertex keeps the cache valid. */
  lemma AppendKeepsValid<V>(c: Cache<V>, key: int, x: V)
    requires c.Valid()
    ensures Cache(c.vertices + [x], c.entries[key := Entries(c, key) + [|c.vertices|]]).Valid()
  {
  }

  /** Adding a vertex never caches two equal vertices under one key. */
  lemma AddVertexKeepsUnique<V>(c: Cache<V>, key: int, x: V)
    requires c.Valid() && c.Unique()
    ensures AddVertex(c, key, x).cache.Unique()
  {
    var entries := Entries(c, key);
    if FirstMatch(c.vertices, entries, x) == |entries| {
      AppendUnique(c, key, x);
    }
  }

  /** Appending a vertex no entry of its key holds keeps the cache free
      of duplicates. */
  lemma AppendUnique<V>(c: Cache<V>, key: int, x: V)
    requires c.Valid() && c.Unique()
    requires forall k :: 0 <= k < |Entries(c, key)| ==> c.vertices[Entries(c, key)[k]] != x
    ensures Cache(c.vertices + [x], c.entries[key := Entries(c, key) + [|c.vertices|]]).Valid()
    ensures Cache(c.vertices + [x], c.entries[key := Entries(c, key) + [|c.vertices|]]).Unique()
  {
    var c' := Cache(c.vertices + [x], c.entries[key := Entries(c, key) + [|c.vertices|]]);
    forall k, i, j | k in c'.entries && 0 <= i < j < |c'.entries[k]|
      ensures c'.vertices[c'.entries[k][i]] != c'.vertices[c'.entries[k][j]]
    {
      if k != key || j < |Entries(c, key)| {
        assert c'.entries[k][i] == Entries(c, k)[i] && c'.entries[k][j] == Entries(c, k)[j];
      }
    }
  }

  /** The vertices of a geometry. */
  function Vertices(g: Geometry): (vs: seq<Vertex>)
    ensures vs == g.store.vertices
  {
    g.store.vertices
  }

  /** Triangle t of geometry r has material mat and the vertices a, b and
      c, in order. */
  ghost predicate MadeOf(r: Geometry, t: Triangle, mat: string, a: Vertex, b: Vertex, c: Vertex) {
    && t.material == mat && |t.indices| == 3
    && t.indices[0] < |Vertices(r)| && t.indices[1] < |Vertices(r)| && t.indices[2] < |Vertices(r)|
    && Vertices(r)[t.indices[0]] == a && Vertices(r)[t.indices[1]] == b && Vertices(r)[t.indices[2]] == c
  }

  /** The cache after the vertices of some corners are added, and their
      indices, in order. */
  datatype Indexed = Indexed(cache: Cache<Vertex>, indices: seq<nat>)

  /** Every corner of cs names existing coordinates. */
  ghost predicate AllResolve(g: Geometry, f: Format, cs: seq<Corner>) {
    forall k :: 0 <= k < |cs| ==> Resolve(g, f, cs[k]).Some?
  }

  /** The corners of cs all resolve exactly when all but the last do and
      the last does too. */
  lemma AllResolveSnoc(g: Geometry, f: Format, cs: seq<Corner>)
    requires |cs| > 0
    ensures AllResolve(g, f, cs) <==> AllResolve(g, f, cs[..|cs| - 1]) && Resolve(g, f, cs[|cs| - 1]).Some?
  {
    var n := |cs| - 1;
    assert forall k :: 0 <= k < n ==> cs[..n][k] == cs[k];
  }

  /** Index k of x names, among the vertices of x, the vertex corner k
      of cs resolves to, for every corner of cs. */
  ghost predicate Names(g: Geometry, f: Format, cs: seq<Corner>, x: Indexed) {
    && |x.indices| == |cs|
    && forall k :: 0 <= k < |cs| ==>
         && Resolve(g, f, cs[k]).Some? && x.indices[k] < |x.cache.vertices|
         && x.cache.vertices[x.indices[k]] == Resolve(g, f, cs[k]).value.vertex
  }

  /** Appending the index of the last corner's vertex to those naming the
      other corners, over vertices that only grew, names all corners. */
  lemma NamesSnoc(g: Geometry, f: Format, cs: seq<Corner>, p: Indexed, a: Added<Vertex>)
    requires |cs| > 0 && Names(g, f, cs[..|cs| - 1], p)
    requires |p.cache.vertices| <= |a.cache.vertices| && a.cache.vertices[..|p.cache.vertices|] == p.cache.vertices
    requires Resolve(g, f, cs[|cs| - 1]).Some?
    requires a.index < |a.cache.vertices| && a.cache.vertices[a.index] == Resolve(g, f, cs[|cs| - 1]).value.vertex
    ensures Names(g, f, cs, Indexed(a.cache, p.indices + [a.index]))
  {
    var n := |cs| - 1;
    var x := Indexed(a.cache, p.indices + [a.index]);
    forall k | 0 <= k < |cs|
      ensures && Resolve(g, f, cs[k]).Some? && x.indices[k] < |x.cache.vertices|
              && x.cache.vertices[x.indices[k]] == Resolve(g, f, cs[k]).value.vertex
    {
      if k < n {
        assert cs[..n][k] == cs[k];
        assert x.indices[k] == p.indices[k];
        assert a.cache.vertices[..|p.cache.vertices|][p.indices[k]] == a.cache.vertices[p.indices[k]];
      }
    }
  }

  /** The vertices of corners cs added in order. None when a corner names
      a missing coordinate. */
  function AddCorners(g: Geometry, f: Format, cs: seq<Corner>): (r: Option<Indexed>)
    requires g.store.Valid()
    ensures r.Some? <==> AllResolve(g, f, cs)
    ensures r.Some? ==> && r.value.cache.Valid()
                        && |Vertices(g)| <= |r.value.cache.vertices|
                        && r.value.cache.vertices[..|Vertices(g)|] == Vertices(g)
    ensures r.Some? ==> Names(g, f, cs, r.value)
    decreases |cs|
  {
    if |cs| == 0 then Some(Indexed(g.store, []))
    else
      var n := |cs| - 1;
      var p := AddCorners(g, f, cs[..n]);
      var rc := Resolve(g, f, cs[n]);
      AllResolveSnoc(g, f, cs);
      if p.None? || rc.None? then None
      else
        var c := p.value.cache;
        var a := AddVertex(c, rc.value.key, rc.value.vertex);
        PrefixOfPrefix(Vertices(g), c.vertices, a.cache.vertices);
        NamesSnoc(g, f, cs, p.value, a);
        Some(Indexed(a.cache, p.value.indices + [a.index]))
  }

  /** Adding the vertices of corners never caches two equal vertices
      under one key. */
  lemma {:induction false} AddCornersKeepsUnique(g: Geometry, f: Format, cs: seq<Corner>)
    requires g.store.Valid() && g.store.Unique()
    requires AddCorners(g, f, cs).Some?
    ensures AddCorners(g, f, cs).value.cache.Unique()
    decreases |cs|
  {
    if |cs| > 0 {
      var n := |cs| - 1;
      AddCornersKeepsUnique(g, f, cs[..n]);
      var c := AddCorners(g, f, cs[..n]).value.cache;
      var rc := Resolve(g, f, cs[n]).value;
      AddVertexKeepsUnique(c, rc.key, rc.vertex);
    }
  }

  /** The number of triangles in the fan of a face of n corners. */
  function FanSize(n: nat): (m: nat)
    ensures n >= 3 ==> m + 2 == n
    ensures n < 3 ==> m == 0
  {
    if n >= 3 then n - 2 else 0
  }

  /** The face corner at position i of the fan's corner list: the fan's
      triangle i / 3 is made of corners 0, i / 3 + 1 and i / 3 + 2. */
  function FanSource(i: nat): nat {
    if i % 3 == 0 then 0 else i / 3 + i % 3
  }

  /** Position e of the fan's triangle t comes from corner 0 for e = 0,
      and from corner t + e otherwise. */
  lemma FanPosition(t: nat, e: nat)
    requires e < 3
    ensures FanSource(3 * t + e) == if e == 0 then 0 else t + e
  {
    assert (3 * t + e) / 3 == t && (3 * t + e) % 3 == e;
  }

  /** The corners of a face's triangles, in the order their vertices are
      added: for each corner k from 2 on, corners 0, k - 1 and k. */
  function FanCorners<T>(cs: seq<T>): (r: seq<T>)
    ensures |r| == 3 * FanSize(|cs|)
    ensures forall i :: 0 <= i < |r| ==> FanSource(i) < |cs| && r[i] == cs[FanSource(i)]
    decreases |cs|
  {
    if |cs| < 3 then []
    else
      var n := |cs| - 1;
      var p := FanCorners(cs[..n]);
      FanPosition(n - 2, 0);
      FanPosition(n - 2, 1);
      FanPosition(n - 2, 2);
      p + [cs[0], cs[n - 1], cs[n]]
  }

  /** Every corner of a face of at least three corners is in its fan's
      corner list. */
  lemma FanCornerPlaced<T>(cs: seq<T>, k: nat)
    requires 3 <= |cs| && k < |cs|
    ensures exists i :: 0 <= i < |FanCorners(cs)| && FanCorners(cs)[i] == cs[k]
  {
    var fc := FanCorners(cs);
    if k < 2 {
      FanPosition(0, k);
      assert fc[k] == cs[k];
    } else {
      FanPosition(k - 2, 2);
      assert fc[3 * (k - 2) + 2] == cs[k];
    }
  }

  /** The corners of a face of at least three corners all resolve exactly
      when its fan's corners all do. */
  lemma FanCornersCover(g: Geometry, f: Format, cs: seq<Corner>)
    requires |cs| >= 3
    ensures AllResolve(g, f, FanCorners(cs)) <==> AllResolve(g, f, cs)
  {
    var fc := FanCorners(cs);
    if AllResolve(g, f, fc) {
      forall k | 0 <= k < |cs|
        ensures Resolve(g, f, cs[k]).Some?
      {
        FanCornerPlaced(cs, k);
      }
    }
  }

  /** The triangles of material mat whose indices are taken three at a
      time from ix. */
  function Chunks(mat: string, ix: seq<nat>): (r: seq<Triangle>)
    ensures |r| == |ix| / 3
    ensures forall t :: 0 <= t < |r| ==> r[t] == Triangle(mat, [ix[3 * t], ix[3 * t + 1], ix[3 * t + 2]])
  {
    seq(|ix| / 3, t requires 0 <= t < |ix| / 3 => Triangle(mat, [ix[3 * t], ix[3 * t + 1], ix[3 * t + 2]]))
  }

  /** The first corner of a face: the empty text, a single empty field,
      when the face has none. */
  function First(cs: seq<Corner>): (c: Corner)
    ensures |cs| > 0 ==> c == cs[0]
    ensures |cs| == 0 ==> c == [None]
  {
    if |cs| > 0 then cs[0] else [None]
  }

  /** The geometry after face cs with material mat: when its format is
      known, the vertices of its fan's corners are added in order and its
      fan's triangles appended. A face whose first corner has four or more
      fields changes nothing; None when a corner names a missing
      coordinate. */
  function Face(g: Geometry, mat: string, cs: seq<Corner>): (r: Option<Geometry>)
    requires g.Valid()
    ensures r.Some? ==> r.value.Valid()
    ensures r.Some? ==> r.value.coords == g.coords && r.value.normals == g.normals && r.value.textures == g.textures
    ensures r.Some? ==> |Vertices(g)| <= |Vertices(r.value)| && Vertices(r.value)[..|Vertices(g)|] == Vertices(g)
    ensures r.Some? ==> |g.triangles| <= |r.value.triangles| && r.value.triangles[..|g.triangles|] == g.triangles
    ensures r.Some? ==> forall t :: |g.triangles| <= t < |r.value.triangles| ==> r.value.triangles[t].material == mat
  {
    match FormatOf(First(cs))
    case None => Some(g)
    case Some(f) =>
      match AddCorners(g, f, FanCorners(cs))
      case None => None
      case Some(x) =>
        var ts := Chunks(mat, x.indices);
        assert forall k :: 0 <= k < |x.indices| ==> x.indices[k] < |x.cache.vertices|;
        ChunksWithin(g.triangles, |Vertices(g)|, |x.cache.vertices|, mat, x.indices);
        var r := Geometry(g.coords, g.normals, g.textures, x.cache, g.triangles + ts);
        assert r.triangles[..|g.triangles|] == g.triangles;
        assert forall t :: |g.triangles| <= t < |r.triangles| ==> r.triangles[t] == ts[t - |g.triangles|];
        Some(r)
  }

  /** Triangles cut from indices below n join triangles within a smaller
      bound to make triangles within n. */
  lemma ChunksWithin(ts: seq<Triangle>, m: nat, n: nat, mat: string, ix: seq<nat>)
    requires TrianglesWithin(ts, m) && m <= n
    requires forall k :: 0 <= k < |ix| ==> ix[k] < n
    ensures TrianglesWithin(ts + Chunks(mat, ix), n)
  {
    var cut := Chunks(mat, ix);
    var all := ts + cut;
    forall t | 0 <= t < |all|
      ensures |all[t].indices| == 3 && forall j :: 0 <= j < 3 ==> all[t].indices[j] < n
    {
      if t >= |ts| {
        var u := t - |ts|;
        assert all[t] == cut[u];
        assert ix[3 * u] < n && ix[3 * u + 1] < n && ix[3 * u + 2] < n;
      } else {
        assert all[t] == ts[t];
      }
    }
  }

  /** The fan's triangle t is made of corners 0, t + 1 and t + 2. */
  lemma FanTriangleCorners<T>(cs: seq<T>, t: nat)
    requires t < FanSize(|cs|)
    ensures 3 * t + 2 < |FanCorners(cs)|
    ensures FanCorners(cs)[3 * t] == cs[0] && FanCorners(cs)[3 * t + 1] == cs[t + 1] && FanCorners(cs)[3 * t + 2] == cs[t + 2]
  {
    FanPosition(t, 0);
    FanPosition(t, 1);
    FanPosition(t, 2);
  }

  /** Triangle t of the fan of face cs, in geometry r grown from g, has
      material mat and the vertices of corners 0, t + 1 and t + 2. */
  ghost predicate FanTriangle(g: Geometry, r: Geometry, mat: string, f: Format, cs: seq<Corner>, t: nat) {
    && t + 2 < |cs| && |g.triangles| + t < |r.triangles|
    && Resolve(g, f, cs[0]).Some? && Resolve(g, f, cs[t + 1]).Some? && Resolve(g, f, cs[t + 2]).Some?
    && MadeOf(r, r.triangles[|g.triangles| + t], mat, Resolve(g, f, cs[0]).value.vertex,
              Resolve(g, f, cs[t + 1]).value.vertex, Resolve(g, f, cs[t + 2]).value.vertex)
  }

  /** A face whose format is known and which has at least three corners
      fails exactly when one of its corners names a missing coordinate;
      one with fewer corners adds nothing. On success it adds one triangle
      per corner beyond the second, the t-th of material mat and made of
      the vertices of corners 0, t + 1 and t + 2, in order. */
  lemma FaceTriangles(g: Geometry, mat: string, cs: seq<Corner>, f: Format)
    requires g.Valid() && FormatOf(First(cs)) == Some(f)
    ensures |cs| < 3 ==> Face(g, mat, cs) == Some(g)
    ensures |cs| >= 3 ==> (Face(g, mat, cs).Some? <==> AllResolve(g, f, cs))
    ensures Face(g, mat, cs).Some? ==>
              var r := Face(g, mat, cs).value;
              && |r.triangles| == |g.triangles| + FanSize(|cs|)
              && forall t :: 0 <= t < FanSize(|cs|) ==> FanTriangle(g, r, mat, f, cs, t)
  {
    var fc := FanCorners(cs);
    if |cs| >= 3 {
      FanCornersCover(g, f, cs);
    } else {
      assert g.triangles + [] == g.triangles;
    }
    if AddCorners(g, f, fc).Some? {
      var x := AddCorners(g, f, fc).value;
      var r := Face(g, mat, cs).value;
      var ts := Chunks(mat, x.indices);
      forall t | 0 <= t < FanSize(|cs|)
        ensures FanTriangle(g, r, mat, f, cs, t)
      {
        assert r.triangles[|g.triangles| + t] == ts[t];
        FanTriangleCorners(cs, t);
      }
    }
  }

  /** A prefix of a prefix is a prefix. */
  lemma PrefixOfPrefix<T>(a: seq<T>, b: seq<T>, c: seq<T>)
    requires |a| <= |b| <= |c|
    requires b[..|a|] == a && c[..|b|] == b
    ensures c[..|a|] == a
  {
    assert c[..|a|] == c[..|b|][..|a|];
  }
}
