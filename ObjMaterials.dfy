/** The materials of an OBJ model, as read from MTL lines: each "newmtl"
    line starts a new material, and the colour and transparency lines
    after it change the current one. Lines before the first "newmtl"
    change the default material. Floating-point values are modelled as
    reals; the reading and tokenising of the file is not modelled. */
module ObjMaterials {
  import opened Errors

  datatype Rgba = Rgba(r: real, g: real, b: real, a: real)

  /** The parts of a material the MTL reader sets; the emission and
      shininess it never touches are not modelled. */
  datatype Material = Material(ambient: Rgba, diffuse: Rgba, specular: Rgba, alpha: real, transparent: bool)

  /** The name under which the model keeps its default material. */
  const DEFAULT_MATERIAL: string := "__default_material"

  /** One MTL line, already split into its keyword and values. */
  datatype MtlLine =
    | MtlBlank
    | NewMtl(name: string)
    | Ka(r: real, g: real, b: real)
    | Kd(r: real, g: real, b: real)
    | Ks(r: real, g: real, b: real)
    | Tr(value: real)
    | D(value: real)
    | I(arg: string)
    | MtlOther

  /** The materials read so far and the name of the one being defined. */
  datatype MtlState = MtlState(materials: map<string, Material>, current: string)

  /** The state after the lines read so far, and whether reading stopped
      on an error. */
  datatype MtlOutcome = MtlOutcome(state: MtlState, status: Status)

  ghost predicate ValidState(st: MtlState) {
    DEFAULT_MATERIAL in st.materials && st.current in st.materials
  }

  /** A colour with its red, green and blue replaced and its alpha kept. */
  function WithRgb(c: Rgba, r: real, g: real, b: real): Rgba {
    Rgba(r, g, b, c.a)
  }

  /** The material after an alpha value: a value below 1 makes the
      material transparent and becomes the alpha of its ambient, diffuse
      and specular colours; the alpha is set whatever the value. */
  function WithAlpha(m: Material, alpha: real): (r: Material)
    ensures r.alpha == alpha
    ensures r.transparent <==> m.transparent || alpha < 1.0
    ensures alpha < 1.0 ==> r.ambient.a == alpha && r.diffuse.a == alpha && r.specular.a == alpha
    ensures alpha >= 1.0 ==> r.ambient == m.ambient && r.diffuse == m.diffuse && r.specular == m.specular
  {
    if alpha < 1.0 then
      Material(m.ambient.(a := alpha), m.diffuse.(a := alpha), m.specular.(a := alpha), alpha, true)
    else
      m.(alpha := alpha)
  }

  /** One MTL line read in state st; blank is a default-constructed
      material. */
  function MtlStep(st: MtlState, line: MtlLine, blank: Material): (r: MtlOutcome)
    requires ValidState(st)
    ensures ValidState(r.state)
    ensures r.status.Thrown? <==> line.NewMtl? && line.name in st.materials
    ensures r.status.Thrown? ==> r.state == st
  {
    var ms := st.materials;
    var m := ms[st.current];
    match line
    case NewMtl(name) =>
      if name in ms then MtlOutcome(st, Thrown("Material \"" + name + "\" already defined"))
      else MtlOutcome(MtlState(ms[name := blank], name), Done)
    case Ka(r, g, b) => MtlOutcome(st.(materials := ms[st.current := m.(ambient := WithRgb(m.ambient, r, g, b))]), Done)
    case Kd(r, g, b) => MtlOutcome(st.(materials := ms[st.current := m.(diffuse := WithRgb(m.diffuse, r, g, b))]), Done)
    case Ks(r, g, b) => MtlOutcome(st.(materials := ms[st.current := m.(specular := WithRgb(m.specular, r, g, b))]), Done)
    case Tr(v) => MtlOutcome(st.(materials := ms[st.current := WithAlpha(m, 1.0 - v)]), Done)
    case D(v) => MtlOutcome(st.(materials := ms[st.current := WithAlpha(m, v)]), Done)
    case I(arg) =>
      if arg == "1" then MtlOutcome(st.(materials := ms[st.current := m.(specular := Rgba(0.0, 0.0, 0.0, 1.0))]), Done)
      else MtlOutcome(st, Done)
    case _ => MtlOutcome(st, Done)
  }

  /** The lines read in order from state st, stopping at the first
      error. */
  function ReadMtl(st: MtlState, lines: seq<MtlLine>, blank: Material): (r: MtlOutcome)
    requires ValidState(st)
    ensures ValidState(r.state)
    decreases |lines|
  {
    if |lines| == 0 then MtlOutcome(st, Done)
    else
      var o := MtlStep(st, lines[0], blank);
      if o.status.Thrown? then o else ReadMtl(o.state, lines[1..], blank)
  }

  /** Reading never loses a material: every name defined before is still
      defined after, whether or not reading stopped on an error. */
  lemma {:induction false} ReadMtlKeepsMaterials(st: MtlState, lines: seq<MtlLine>, blank: Material)
    requires ValidState(st)
    ensures st.materials.Keys <= ReadMtl(st, lines, blank).state.materials.Keys
    decreases |lines|
  {
    if |lines| > 0 {
      var o := MtlStep(st, lines[0], blank);
      if o.status.Done? {
        ReadMtlKeepsMaterials(o.state, lines[1..], blank);
      }
    }
  }

  /** A "newmtl" line with a fresh name adds a default-constructed
      material under that name and makes it current; one with a name
      already defined throws and changes nothing. */
  lemma NewMaterial(st: MtlState, name: string, blank: Material)
    requires ValidState(st)
    ensures name !in st.materials ==>
              MtlStep(st, NewMtl(name), blank) == MtlOutcome(MtlState(st.materials[name := blank], name), Done)
    ensures name in st.materials ==> MtlStep(st, NewMtl(name), blank).status.Thrown?
  {
  }

  /** "Tr v" sets alpha to 1 - v and "d v" sets it to v, on the current
      material only. */
  lemma AlphaLines(st: MtlState, v: real, blank: Material)
    requires ValidState(st)
    ensures MtlStep(st, Tr(v), blank).state.materials == st.materials[st.current := WithAlpha(st.materials[st.current], 1.0 - v)]
    ensures MtlStep(st, D(v), blank).state.materials == st.materials[st.current := WithAlpha(st.materials[st.current], v)]
    ensures MtlStep(st, Tr(v), blank).state.materials[st.current].alpha == 1.0 - v
    ensures MtlStep(st, D(v), blank).state.materials[st.current].transparent <==> st.materials[st.current].transparent || v < 1.0
  {
  }
}
