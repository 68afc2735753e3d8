/** Reading the lines of an OBJ file in order: coordinates are collected,
    "usemtl" selects the material of the faces that follow, "mtllib" reads
    a material file into the model's materials, and each face adds its
    fan of triangles. */
module ObjImport {
  import opened Errors
  import opened ObjMaterials
  import opened ObjGeometry

  /** Every triangle's material is one of the materials. */
  ghost predicate MaterialsKnown(ts: seq<Triangle>, ms: map<string, Material>) {
    forall t :: 0 <= t < |ts| ==> ts[t].material in ms
  }

  /** The model while its lines are read: the geometry, the materials and
      the material selected for the next faces. */
  datatype Scan = Scan(geometry: Geometry, materials: map<string, Material>, selected: string)
  {
    ghost predicate Valid() {
      && geometry.Valid() && DEFAULT_MATERIAL in materials && selected in materials
      && MaterialsKnown(geometry.triangles, materials)
    }
  }

  /** The model after some lines, with whether reading stopped on an
      error; Undefined when a face names a missing coordinate, which the
      source reads out of bounds. */
  datatype Imported = Imported(scan: Scan, status: Status) | Undefined

  /** The material "usemtl name" selects: the name when it is defined,
      the default material otherwise. */
  function Select(ms: map<string, Material>, name: string): (r: string)
    ensures name in ms ==> r == name
    ensures name !in ms ==> r == DEFAULT_MATERIAL
  {
    if name in ms then name else DEFAULT_MATERIAL
  }

  /** One OBJ line read into s; blank is a default-constructed material. */
  function ObjStep(s: Scan, line: ObjLine, blank: Material): (r: Imported)
    requires s.Valid()
    ensures r.Imported? ==> r.scan.Valid() && s.materials.Keys <= r.scan.materials.Keys
    ensures r.Undefined? ==> line.F?
    ensures r.Imported? && r.status.Thrown? ==> line.MtlLib?
  {
    var g := s.geometry;
    match line
    case MtlLib(mtl) =>
      var o := ReadMtl(MtlState(s.materials, DEFAULT_MATERIAL), mtl, blank);
      ReadMtlKeepsMaterials(MtlState(s.materials, DEFAULT_MATERIAL), mtl, blank);
      Imported(s.(materials := o.state.materials), o.status)
    case F(cs) =>
      (match Face(g, s.selected, cs)
       case None => Undefined
       case Some(g') => Imported(s.(geometry := g'), Done))
    case UseMtl(name) => Imported(s.(selected := Select(s.materials, name)), Done)
    case V(p) => Imported(s.(geometry := g.(coords := g.coords + [p])), Done)
    case Vn(n) => Imported(s.(geometry := g.(normals := g.normals + [n])), Done)
    case Vt(t) => Imported(s.(geometry := g.(textures := g.textures + [t])), Done)
    case _ => Imported(s, Done)
  }

  /** The lines read in order into s, stopping at the first error. */
  function Import(s: Scan, lines: seq<ObjLine>, blank: Material): (r: Imported)
    requires s.Valid()
    ensures r.Imported? ==> r.scan.Valid() && s.materials.Keys <= r.scan.materials.Keys
    decreases |lines|
  {
    if |lines| == 0 then Imported(s, Done)
    else
      match ObjStep(s, lines[0], blank)
      case Undefined => Undefined
      case Imported(s', status) => if status.Thrown? then Imported(s', status) else Import(s', lines[1..], blank)
  }

  /** The scan of a model with only its default material and no
      geometry. */
  function Start(blank: Material): (s: Scan)
    ensures s.Valid()
  {
    Scan(EMPTY, map[DEFAULT_MATERIAL := blank], DEFAULT_MATERIAL)
  }

  /** "usemtl" with a defined name selects it; with an undefined one it
      selects the default material. Nothing else changes. */
  lemma UseMtlSelects(s: Scan, name: string, blank: Material)
    requires s.Valid()
    ensures ObjStep(s, UseMtl(name), blank) == Imported(s.(selected := if name in s.materials then name else DEFAULT_MATERIAL), Done)
  {
  }

  /** The positions, normals and texture coordinates the lines carry, in
      order. */
  function Positions(lines: seq<ObjLine>): (ps: seq<Vec3>)
    decreases |lines|
  {
    if |lines| == 0 then []
    else Position(lines[0]) + Positions(lines[1..])
  }

  function Normals(lines: seq<ObjLine>): (ns: seq<Vec3>)
    decreases |lines|
  {
    if |lines| == 0 then []
    else Normal(lines[0]) + Normals(lines[1..])
  }

  function Textures(lines: seq<ObjLine>): (ts: seq<Vec2>)
    decreases |lines|
  {
    if |lines| == 0 then []
    else Texture(lines[0]) + Textures(lines[1..])
  }

  /** The position, normal or texture coordinate one line carries, as a
      sequence of at most one. */
  function Position(line: ObjLine): seq<Vec3> { if line.V? then [line.position] else [] }
  function Normal(line: ObjLine): seq<Vec3> { if line.Vn? then [line.normal] else [] }
  function Texture(line: ObjLine): seq<Vec2> { if line.Vt? then [line.texture] else [] }

  /** Geometry g' is g with positions ps, normals ns and texture
      coordinates ts appended. */
  ghost predicate Collects(g: Geometry, g': Geometry, ps: seq<Vec3>, ns: seq<Vec3>, ts: seq<Vec2>) {
    g'.coords == g.coords + ps && g'.normals == g.normals + ns && g'.textures == g.textures + ts
  }

  /** Appending twice is appending the concatenations. */
  lemma CollectsTwice(g: Geometry, g1: Geometry, g2: Geometry, ps1: seq<Vec3>, ns1: seq<Vec3>, ts1: seq<Vec2>,
                      ps2: seq<Vec3>, ns2: seq<Vec3>, ts2: seq<Vec2>)
    requires Collects(g, g1, ps1, ns1, ts1) && Collects(g1, g2, ps2, ns2, ts2)
    ensures Collects(g, g2, ps1 + ps2, ns1 + ns2, ts1 + ts2)
  {
    assert g.coords + ps1 + ps2 == g.coords + (ps1 + ps2);
    assert g.normals + ns1 + ns2 == g.normals + (ns1 + ns2);
    assert g.textures + ts1 + ts2 == g.textures + (ts1 + ts2);
  }

  /** A line read without error appends what it carries to the
      coordinates and leaves the others as they were. */
  lemma StepCollects(s: Scan, line: ObjLine, blank: Material)
    requires s.Valid() && ObjStep(s, line, blank).Imported?
    ensures Collects(s.geometry, ObjStep(s, line, blank).scan.geometry, Position(line), Normal(line), Texture(line))
  {
    if line.F? {
      assert s.geometry.coords + [] == s.geometry.coords;
      assert s.geometry.normals + [] == s.geometry.normals;
      assert s.geometry.textures + [] == s.geometry.textures;
    }
  }

  /** Lines read to the end without error append every position, normal
      and texture coordinate they carry, in order. */
  lemma {:induction false} ImportCollects(s: Scan, lines: seq<ObjLine>, blank: Material)
    requires s.Valid()
    requires Import(s, lines, blank).Imported? && Import(s, lines, blank).status.Done?
    ensures Collects(s.geometry, Import(s, lines, blank).scan.geometry, Positions(lines), Normals(lines), Textures(lines))
    decreases |lines|
  {
    if |lines| == 0 {
      var g := s.geometry;
      assert g.coords + [] == g.coords && g.normals + [] == g.normals && g.textures + [] == g.textures;
    } else {
      var line := lines[0];
      var s' := ObjStep(s, line, blank).scan;
      StepCollects(s, line, blank);
      ImportCollects(s', lines[1..], blank);
      CollectsTwice(s.geometry, s'.geometry, Import(s', lines[1..], blank).scan.geometry,
                    Position(line), Normal(line), Texture(line),
                    Positions(lines[1..]), Normals(lines[1..]), Textures(lines[1..]));
    }
  }

  /** Reading lines never caches two equal vertices under one key. */
  lemma {:induction false} ImportKeepsUnique(s: Scan, lines: seq<ObjLine>, blank: Material)
    requires s.Valid() && s.geometry.store.Unique()
    requires Import(s, lines, blank).Imported?
    ensures Import(s, lines, blank).scan.geometry.store.Unique()
    decreases |lines|
  {
    if |lines| > 0 {
      var r := ObjStep(s, lines[0], blank);
      if lines[0].F? {
        var cs := lines[0].corners;
        match FormatOf(First(cs))
        case None =>
        case Some(f) =>
          AddCornersKeepsUnique(s.geometry, f, FanCorners(cs));
      }
      if r.status.Done? {
        ImportKeepsUnique(r.scan, lines[1..], blank);
      }
    }
  }
}
