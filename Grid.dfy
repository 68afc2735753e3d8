/** CGrid: a positional index that divides the arena into sizeI x sizeJ x
    sizeK cells.  Each cell remembers the entities put in it and the
    timestamp of the update that put them there; a cell whose timestamp is
    older than the grid's current one counts as empty.  Positions are turned
    into cell coordinates by floating-point arithmetic outside this model:
    here every operation takes integer cell coordinates. */
module Grid {
  import opened Errors

  type Entity = nat

  datatype Cell3 = Cell3(i: int, j: int, k: int)

  /** SCell: the timestamp of its last update and the entities it holds. */
  datatype CellState = CellState(timestamp: nat, entities: set<Entity>)

  function Abs(x: int): nat {
    if x < 0 then -x else x
  }

  /** One coordinate of ClampCoordinates(int&, int&, int&). */
  function Clamp(n: int, size: int): (r: int)
    requires size > 0
    ensures 0 <= r < size
    ensures 0 <= n < size ==> r == n
    ensures n < 0 ==> r == 0
    ensures n >= size ==> r == size - 1
  {
    if n < 0 then 0 else if n >= size then size - 1 else n
  }

  predicate InGrid(c: Cell3, sizeI: int, sizeJ: int, sizeK: int) {
    0 <= c.i < sizeI && 0 <= c.j < sizeJ && 0 <= c.k < sizeK
  }

  /** The position of cell (i, j, k) in the cell array (GetCellAt). */
  function CellIndex(c: Cell3, sizeI: int, sizeJ: int): int {
    sizeI * sizeJ * c.k + sizeI * c.j + c.i
  }

  /** A cell inside the grid maps into the cell array. */
  lemma CellIndexInRange(c: Cell3, sizeI: int, sizeJ: int, sizeK: int)
    requires InGrid(c, sizeI, sizeJ, sizeK)
    ensures 0 <= CellIndex(c, sizeI, sizeJ) < sizeI * sizeJ * sizeK
  {
    var plane := sizeI * sizeJ;
    assert 0 <= sizeI * c.j <= sizeI * (sizeJ - 1) by {
      MulMonotone(sizeI, c.j, sizeJ - 1);
    }
    assert sizeI * c.j + c.i < plane;
    assert 0 <= plane * c.k <= plane * (sizeK - 1) by {
      MulMonotone(plane, c.k, sizeK - 1);
    }
    assert plane * (sizeK - 1) + plane == plane * sizeK;
  }

  /** Distinct cells of the grid never share a slot of the cell array. */
  lemma CellIndexInjective(a: Cell3, b: Cell3, sizeI: int, sizeJ: int, sizeK: int)
    requires InGrid(a, sizeI, sizeJ, sizeK) && InGrid(b, sizeI, sizeJ, sizeK)
    requires CellIndex(a, sizeI, sizeJ) == CellIndex(b, sizeI, sizeJ)
    ensures a == b
  {
    var plane := sizeI * sizeJ;
    var ra := sizeI * a.j + a.i;
    var rb := sizeI * b.j + b.i;
    assert 0 <= ra < plane && 0 <= rb < plane by {
      MulMonotone(sizeI, a.j, sizeJ - 1);
      MulMonotone(sizeI, b.j, sizeJ - 1);
    }
    DivisionUnique(plane, a.k, ra, b.k, rb);
    DivisionUnique(sizeI, a.j, a.i, b.j, b.i);
  }

  lemma MulMonotone(a: int, x: int, y: int)
    requires a >= 0 && x <= y
    ensures a * x <= a * y
  {
  }

  /** q * d + r with 0 <= r < d determines q and r. */
  lemma DivisionUnique(d: int, q1: int, r1: int, q2: int, r2: int)
    requires d > 0 && 0 <= r1 < d && 0 <= r2 < d && d * q1 + r1 == d * q2 + r2
    ensures q1 == q2 && r1 == r2
  {
    if q1 < q2 {
      assert d * (q2 - q1) == r1 - r2;
      MulMonotone(d, 1, q2 - q1);
    } else if q2 < q1 {
      assert d * (q1 - q2) == r2 - r1;
      MulMonotone(d, 1, q1 - q2);
    }
  }

  /** ---------- Visiting order of ForAllCells and ForCellsInBoxRange ---------- */

  /** The cells (lo..hi, j, k), i ascending. */
  function Row(lo: int, hi: int, j: int, k: int): seq<Cell3>
    decreases hi - lo + 1
  {
    if hi < lo then [] else Row(lo, hi - 1, j, k) + [Cell3(hi, j, k)]
  }

  /** The rows j = lo.j .. jHi of plane k, j ascending. */
  function Plane(lo: Cell3, hi: Cell3, jHi: int, k: int): seq<Cell3>
    decreases jHi - lo.j + 1
  {
    if jHi < lo.j then [] else Plane(lo, hi, jHi - 1, k) + Row(lo.i, hi.i, jHi, k)
  }

  /** The planes k = lo.k .. kHi of the box lo..hi, k ascending: the order of
      the k, j, i loops. */
  function BoxOrder(lo: Cell3, hi: Cell3, kHi: int): seq<Cell3>
    decreases kHi - lo.k + 1
  {
    if kHi < lo.k then [] else BoxOrder(lo, hi, kHi - 1) + Plane(lo, hi, hi.j, kHi)
  }

  predicate InBox(c: Cell3, lo: Cell3, hi: Cell3) {
    lo.i <= c.i <= hi.i && lo.j <= c.j <= hi.j && lo.k <= c.k <= hi.k
  }

  /** Lexicographic order on (k, j, i), the order of the nested loops. */
  predicate Before(a: Cell3, b: Cell3) {
    a.k < b.k || (a.k == b.k && (a.j < b.j || (a.j == b.j && a.i < b.i)))
  }

  predicate Ordered(s: seq<Cell3>) {
    forall m, n :: 0 <= m < n < |s| ==> Before(s[m], s[n])
  }

  lemma OrderedConcat(a: seq<Cell3>, b: seq<Cell3>)
    requires Ordered(a) && Ordered(b)
    requires forall x, y :: x in a && y in b ==> Before(x, y)
    ensures Ordered(a + b)
  {
    forall m, n | 0 <= m < n < |a + b|
      ensures Before((a + b)[m], (a + b)[n])
    {
      if m < |a| && n >= |a| {
        assert (a + b)[m] in a && (a + b)[n] in b;
      }
    }
  }

  lemma {:induction false} RowShape(lo: int, hi: int, j: int, k: int)
    ensures forall c :: c in Row(lo, hi, j, k) <==> lo <= c.i <= hi && c.j == j && c.k == k
    ensures Ordered(Row(lo, hi, j, k))
    ensures |Row(lo, hi, j, k)| == if hi < lo then 0 else hi - lo + 1
    decreases hi - lo + 1
  {
    if hi >= lo {
      RowShape(lo, hi - 1, j, k);
      OrderedConcat(Row(lo, hi - 1, j, k), [Cell3(hi, j, k)]);
    }
  }

  lemma {:induction false} PlaneShape(lo: Cell3, hi: Cell3, jHi: int, k: int)
    ensures forall c :: c in Plane(lo, hi, jHi, k) <==> lo.i <= c.i <= hi.i && lo.j <= c.j <= jHi && c.k == k
    ensures Ordered(Plane(lo, hi, jHi, k))
    decreases jHi - lo.j + 1
  {
    if jHi >= lo.j {
      PlaneShape(lo, hi, jHi - 1, k);
      RowShape(lo.i, hi.i, jHi, k);
      OrderedConcat(Plane(lo, hi, jHi - 1, k), Row(lo.i, hi.i, jHi, k));
    }
  }

  /** ForAllCells and ForCellsInBoxRange visit every cell of the box, each
      once, in k, j, i order. */
  lemma {:induction false} BoxOrderShape(lo: Cell3, hi: Cell3, kHi: int)
    ensures forall c :: c in BoxOrder(lo, hi, kHi) <==> InBox(c, lo, Cell3(hi.i, hi.j, kHi))
    ensures Ordered(BoxOrder(lo, hi, kHi))
    ensures forall m, n :: 0 <= m < n < |BoxOrder(lo, hi, kHi)| ==> BoxOrder(lo, hi, kHi)[m] != BoxOrder(lo, hi, kHi)[n]
    decreases kHi - lo.k + 1
  {
    if kHi >= lo.k {
      BoxOrderShape(lo, hi, kHi - 1);
      PlaneShape(lo, hi, hi.j, kHi);
      OrderedConcat(BoxOrder(lo, hi, kHi - 1), Plane(lo, hi, hi.j, kHi));
    }
  }

  /** A cell operation is applied to the cells of `order` one by one until
      it returns false (APPLY_CELL_OPERATION_TO_CELL returns at once). */
  predicate AppliedUntilRefused(visited: seq<Cell3>, order: seq<Cell3>, op: Cell3 -> bool) {
    visited <= order
    && (forall n :: 0 <= n < |visited| - 1 ==> op(visited[n]))
    && (|visited| < |order| ==> |visited| > 0 && !op(visited[|visited| - 1]))
  }

  lemma {:induction false} RowPrefix(lo: int, i: int, hi: int, j: int, k: int)
    requires lo <= i <= hi
    ensures Row(lo, i, j, k) <= Row(lo, hi, j, k)
    decreases hi - i
  {
    if i < hi {
      RowPrefix(lo, i, hi - 1, j, k);
    }
  }

  lemma {:induction false} PlanePrefix(lo: Cell3, hi: Cell3, j: int, jHi: int, k: int)
    requires lo.j - 1 <= j <= jHi
    ensures Plane(lo, hi, j, k) <= Plane(lo, hi, jHi, k)
    decreases jHi - j
  {
    if j < jHi {
      PlanePrefix(lo, hi, j, jHi - 1, k);
    }
  }

  lemma {:induction false} BoxPrefix(lo: Cell3, hi: Cell3, k: int, kHi: int)
    requires lo.k - 1 <= k <= kHi
    ensures BoxOrder(lo, hi, k) <= BoxOrder(lo, hi, kHi)
    decreases kHi - k
  {
    if k < kHi {
      BoxPrefix(lo, hi, k, kHi - 1);
    }
  }

  /** The visit that stops at cell (i, j, k) has walked a prefix of the box. */
  lemma StopPrefix(lo: Cell3, hi: Cell3, i: int, j: int, k: int)
    requires lo.i <= i <= hi.i && lo.j <= j <= hi.j && lo.k <= k <= hi.k
    ensures BoxOrder(lo, hi, k - 1) + Plane(lo, hi, j - 1, k) + Row(lo.i, i, j, k)
            <= BoxOrder(lo, hi, hi.k)
  {
    var a := BoxOrder(lo, hi, k - 1);
    var p := Plane(lo, hi, j - 1, k);
    RowPrefix(lo.i, i, hi.i, j, k);
    assert p + Row(lo.i, i, j, k) <= Plane(lo, hi, j, k);
    PlanePrefix(lo, hi, j, hi.j, k);
    assert p + Row(lo.i, i, j, k) <= Plane(lo, hi, hi.j, k);
    assert a + (p + Row(lo.i, i, j, k)) <= BoxOrder(lo, hi, k);
    BoxPrefix(lo, hi, k, hi.k);
  }

  /** ---------- ForCellsAlongRay ---------- */

  /** The driving axis of the 3D Bresenham walk. */
  datatype Axis = I | J | K

  function Get(c: Cell3, a: Axis): int {
    match a
    case I => c.i
    case J => c.j
    case K => c.k
  }

  function Move(c: Cell3, a: Axis, delta: int): (r: Cell3)
    ensures Get(r, a) == Get(c, a) + delta
    ensures forall b :: b != a ==> Get(r, b) == Get(c, b)
  {
    match a
    case I => c.(i := c.i + delta)
    case J => c.(j := c.j + delta)
    case K => c.(k := c.k + delta)
  }

  /** The two other axes, in the order the source names them. */
  function Secondary(a: Axis): (p: (Axis, Axis))
    ensures p.0 != a && p.1 != a && p.0 != p.1
  {
    match a
    case I => (J, K)
    case J => (I, K)
    case K => (I, J)
  }

  /** The axis with the largest displacement; ties go to I, then J. */
  function DrivingAxis(s: Cell3, e: Cell3): (a: Axis)
    ensures forall b :: Abs(Get(e, b) - Get(s, b)) <= Abs(Get(e, a) - Get(s, a))
  {
    var dI, dJ, dK := Abs(e.i - s.i), Abs(e.j - s.j), Abs(e.k - s.k);
    if dI >= dJ && dI >= dK then I
    else if dJ >= dI && dJ >= dK then J
    else K
  }

  /** Two cells differ by one on exactly one axis. */
  predicate Adjacent(x: Cell3, y: Cell3) {
    Abs(x.i - y.i) + Abs(x.j - y.j) + Abs(x.k - y.k) == 1
  }

  function Manhattan(x: Cell3, y: Cell3): nat {
    Abs(x.i - y.i) + Abs(x.j - y.j) + Abs(x.k - y.k)
  }

  function Sign(from: int, to: int): int {
    if to >= from then 1 else -1
  }

  predicate Between(x: int, a: int, b: int) {
    (a <= x <= b) || (b <= x <= a)
  }

  /** A secondary axis advanced `n` times in `step` drive steps: the error
      term, its bounds and the step count, as the walk keeps them. */
  predicate ErrorInvariant(e: int, d: int, drive: int, step: nat, n: nat) {
    drive > 0 ==>
      (e == 3 * d - drive + 2 * d * step - 2 * drive * n
       && 2 * d - 2 * drive < e <= 2 * d
       && n <= d)
  }

  /** The error term of a secondary axis after one iteration: it moves when
      the error is positive. */
  function NextError(e: int, d: int, drive: int): int {
    if e > 0 then e + 2 * (d - drive) else e + 2 * d
  }

  function NextCount(e: int, n: nat): nat {
    if e > 0 then n + 1 else n
  }

  lemma ErrorStep(e: int, d: int, drive: int, step: nat, n: nat)
    requires 0 <= d <= drive && 0 < drive && step < drive
    requires ErrorInvariant(e, d, drive, step, n)
    ensures e > 0 ==> n < d
    ensures ErrorInvariant(NextError(e, d, drive), d, drive, step + 1, NextCount(e, n))
  {
    var a, b, p := 2 * d * step, 2 * drive * n, 2 * drive * d;
    MulSucc(2 * d, step);
    MulSucc(2 * drive, n);
    MulSucc(2 * d, drive - 1);
    MulSwap(d, drive);
    MulMonotone(2 * d, step, drive - 1);
    if n >= d {
      MulMonotone(2 * drive, d, n);
    }
    ErrorStepLinear(e, d, drive, n, a, b, p);
    if e > 0 {
      assert NextCount(e, n) == n + 1;
    } else {
      assert NextCount(e, n) == n;
    }
  }

  lemma MulSucc(x: int, y: int)
    ensures x * (y + 1) == x * y + x
  {
  }

  lemma MulSwap(x: int, y: int)
    ensures 2 * x * y == 2 * y * x
  {
  }

  /** ErrorStep with the products 2d * step, 2drive * n and 2drive * d
      named a, b and p: a positive error means n < d, since otherwise
      e <= 3d - drive + (p - 2d) - p = d - drive <= 0. */
  lemma ErrorStepLinear(e: int, d: int, drive: int, n: int, a: int, b: int, p: int)
    requires 0 <= d <= drive && 0 < drive && 0 <= n <= d
    requires a + 2 * d <= p && (n >= d ==> b >= p)
    requires e == 3 * d - drive + a - b && 2 * d - 2 * drive < e <= 2 * d
    ensures e > 0 ==> n < d
    ensures var b' := if e > 0 then b + 2 * drive else b;
            && NextError(e, d, drive) == 3 * d - drive + (a + 2 * d) - b'
            && 2 * d - 2 * drive < NextError(e, d, drive) <= 2 * d
            && NextCount(e, n) <= d
  {
  }

  /** After `drive` steps the secondary axis has advanced exactly d times. */
  lemma ErrorFinal(e: int, d: int, drive: int, n: nat)
    requires 0 <= d <= drive && 0 < drive
    requires ErrorInvariant(e, d, drive, drive, n)
    ensures n == d
  {
    var x := d - n;
    assert 2 * d * drive - 2 * drive * n == 2 * drive * x;
    if x >= 1 {
      MulMonotone(2 * drive, 1, x);
    } else if x <= -1 {
      MulMonotone(2 * drive, x, -1);
    }
  }

  /** ---------- The grid ---------- */

  /** A cell after UpdateCell put e in it at timestamp `now`: a stale cell
      holds e alone, a current one gains e. */
  function Stamped(cell: CellState, now: nat, e: Entity): (r: CellState)
    ensures r.timestamp == if cell.timestamp < now then now else cell.timestamp
    ensures cell.timestamp < now ==> r.entities == {e}
    ensures cell.timestamp >= now ==> r.entities == cell.entities + {e}
  {
    if cell.timestamp < now then CellState(now, {e}) else cell.(entities := cell.entities + {e})
  }

  class Grid {
    const sizeI: int
    const sizeJ: int
    const sizeK: int
    /** m_psCells, indexed by CellIndex. */
    const cells: array<CellState>
    /** m_unCurTimestamp */
    var curTimestamp: nat

    /** The sizes are positive, the array holds one slot per cell, and no
        cell is stamped later than the current timestamp. */
    ghost predicate Valid()
      reads this, cells
    {
      sizeI > 0 && sizeJ > 0 && sizeK > 0 && cells.Length == sizeI * sizeJ * sizeK
      && forall n :: 0 <= n < cells.Length ==> cells[n].timestamp <= curTimestamp
    }

    constructor(sI: int, sJ: int, sK: int)
      requires sI > 0 && sJ > 0 && sK > 0
      ensures Valid() && sizeI == sI && sizeJ == sJ && sizeK == sK
      ensures fresh(cells) && curTimestamp == 0
      ensures forall n :: 0 <= n < cells.Length ==> cells[n] == CellState(0, {})
    {
      sizeI, sizeJ, sizeK := sI, sJ, sK;
      cells := new CellState[sI * sJ * sK](_ => CellState(0, {}));
      curTimestamp := 0;
    }

    function Contains(c: Cell3): bool
      reads this
    {
      InGrid(c, sizeI, sizeJ, sizeK)
    }

    /** ClampCoordinates(int&, int&, int&). */
    function ClampCell(c: Cell3): (r: Cell3)
      reads this, cells
      requires Valid()
      ensures Contains(r)
      ensures Contains(c) ==> r == c
    {
      Cell3(Clamp(c.i, sizeI), Clamp(c.j, sizeJ), Clamp(c.k, sizeK))
    }

    /** GetCellAt: the slot of an in-grid cell. */
    function Slot(c: Cell3): (n: nat)
      reads this, cells
      requires Valid() && Contains(c)
      ensures n < cells.Length
      ensures n == sizeI * sizeJ * c.k + sizeI * c.j + c.i
    {
      CellIndexInRange(c, sizeI, sizeJ, sizeK);
      CellIndex(c, sizeI, sizeJ)
    }

    /** The entities a cell reports: none when it is stale. */
    function View(c: Cell3): set<Entity>
      reads this, cells
      requires Valid() && Contains(c)
    {
      if cells[Slot(c)].timestamp < curTimestamp then {} else cells[Slot(c)].entities
    }

    /** GetEntitiesAt, for the cell the position falls in: an out-of-grid
        position throws; a stale cell gives the empty set. */
    function GetEntitiesAt(c: Cell3): (r: Result<set<Entity>>)
      reads this, cells
      requires Valid()
      ensures r.Fail? <==> !Contains(c)
      ensures r.Ok? && cells[Slot(c)].timestamp < curTimestamp ==> r.value == {}
      ensures r.Ok? && cells[Slot(c)].timestamp >= curTimestamp ==> r.value == cells[Slot(c)].entities
    {
      if !Contains(c) then Fail("position out of bounds") else Ok(View(c))
    }

    /** UpdateCell: an out-of-grid index throws; a stale cell is emptied and
        stamped with the current timestamp before the entity is added. */
    method UpdateCell(c: Cell3, e: Entity) returns (r: Status)
      requires Valid()
      modifies cells
      ensures Valid()
      ensures r.Thrown? <==> !Contains(c)
      ensures r.Thrown? ==> cells[..] == old(cells[..])
      ensures r.Done? ==> cells[..] == old(cells[..])[Slot(c) := Stamped(old(cells[Slot(c)]), curTimestamp, e)]
    {
      if !Contains(c) {
        return Thrown("index out of bounds");
      }
      var n := Slot(c);
      var cell := cells[n];
      if cell.timestamp < curTimestamp {
        cell := CellState(curTimestamp, {});
      }
      cells[n] := cell.(entities := cell.entities + {e});
      r := Done;
      assert cells[n] == Stamped(old(cells[n]), curTimestamp, e);
    }

    /** Update: advance the timestamp, then let the update operation place
        each entity; `placements` lists the (cell, entity) pairs it hands to
        UpdateCell, in order.  Afterwards a cell reports exactly the
        entities placed in it. */
    method Update(placements: seq<(Cell3, Entity)>) returns (r: Status)
      requires Valid()
      modifies this, cells
      ensures Valid()
      ensures curTimestamp == old(curTimestamp) + 1
      ensures r.Thrown? <==> exists p :: p in placements && !Contains(p.0)
      ensures r.Done? ==> forall c :: Contains(c) ==>
                View(c) == set p | p in placements && p.0 == c :: p.1
    {
      curTimestamp := curTimestamp + 1;
      var m := 0;
      while m < |placements|
        invariant 0 <= m <= |placements| && curTimestamp == old(curTimestamp) + 1
        invariant forall n :: 0 <= n < cells.Length ==> cells[n].timestamp <= curTimestamp
        invariant forall p :: p in placements[..m] ==> Contains(p.0)
        invariant forall c :: Contains(c) ==> View(c) == set p | p in placements[..m] && p.0 == c :: p.1
      {
        var (c, e) := placements[m];
        if !Contains(c) {
          r := Thrown("index out of bounds");
          return;
        }
        ghost var before := cells[..];
        r := UpdateCell(c, e);
        forall c' | Contains(c')
          ensures View(c') == set p | p in placements[..m + 1] && p.0 == c' :: p.1
        {
          assert placements[..m + 1] == placements[..m] + [(c, e)];
          if c' != c {
            if Slot(c') == Slot(c) {
              CellIndexInjective(c', c, sizeI, sizeJ, sizeK);
            }
            assert cells[Slot(c')] == before[Slot(c')];
          }
        }
        m := m + 1;
      }
      assert placements[..m] == placements;
      r := Done;
    }

    /** Reset: timestamp 0, every cell emptied with timestamp 0, then an
        Update with the given placements. */
    method Reset(placements: seq<(Cell3, Entity)>) returns (r: Status)
      requires Valid()
      modifies this, cells
      ensures Valid()
      ensures curTimestamp == 1
      ensures r.Thrown? <==> exists p :: p in placements && !Contains(p.0)
      ensures r.Done? ==> forall c :: Contains(c) ==>
                View(c) == set p | p in placements && p.0 == c :: p.1
    {
      curTimestamp := 0;
      var n := 0;
      while n < cells.Length
        invariant 0 <= n <= cells.Length && curTimestamp == 0
        invariant forall m :: 0 <= m < n ==> cells[m] == CellState(0, {})
      {
        cells[n] := CellState(0, {});
        n := n + 1;
      }
      r := Update(placements);
    }

    /** ForCellsInBoxRange, from the unclamped cells of the box's two
        corners: the corners are clamped, then the cells between them are
        handed to `op` in k, j, i order until it returns false. */
    method ForCellsInBoxRange(corner1: Cell3, corner2: Cell3, op: Cell3 -> bool)
      returns (visited: seq<Cell3>)
      requires Valid()
      ensures AppliedUntilRefused(visited, BoxOrder(ClampCell(corner1), ClampCell(corner2), ClampCell(corner2).k), op)
      ensures forall n :: 0 <= n < |visited| ==> Contains(visited[n])
    {
      var lo, hi := ClampCell(corner1), ClampCell(corner2);
      visited := VisitBox(lo, hi, op);
      BoxOrderShape(lo, hi, hi.k);
      forall n | 0 <= n < |visited|
        ensures Contains(visited[n])
      {
        assert visited[n] in BoxOrder(lo, hi, hi.k);
      }
    }

    /** ForAllCells: the whole grid in k, j, i order until `op` returns false. */
    method ForAllCells(op: Cell3 -> bool) returns (visited: seq<Cell3>)
      requires Valid()
      ensures AppliedUntilRefused(visited, BoxOrder(Cell3(0, 0, 0), Cell3(sizeI - 1, sizeJ - 1, sizeK - 1), sizeK - 1), op)
    {
      visited := VisitBox(Cell3(0, 0, 0), Cell3(sizeI - 1, sizeJ - 1, sizeK - 1), op);
    }

    /** ForCellsAlongRay, from the unclamped cells of the ray's two ends:
        both ends are clamped, and the walk visits the start cell, then moves
        one cell at a time along one axis, toward the end cell, until `op`
        returns false or the end cell is reached. */
    method ForCellsAlongRay(rayStart: Cell3, rayEnd: Cell3, op: Cell3 -> bool)
      returns (visited: seq<Cell3>)
      requires Valid()
      ensures |visited| >= 1 && visited[0] == ClampCell(rayStart)
      ensures forall n :: 0 <= n < |visited| - 1 ==> Adjacent(visited[n], visited[n + 1])
      ensures forall n :: 0 <= n < |visited| - 1 ==> op(visited[n])
      ensures forall n :: 0 <= n < |visited| ==> Contains(visited[n])
      ensures op(visited[|visited| - 1]) ==>
                visited[|visited| - 1] == ClampCell(rayEnd)
                && |visited| == 1 + Manhattan(ClampCell(rayStart), ClampCell(rayEnd))
    {
      var s, e := ClampCell(rayStart), ClampCell(rayEnd);
      visited := Walk(s, e, DrivingAxis(s, e), op);
      forall n | 0 <= n < |visited|
        ensures Contains(visited[n])
      {
        assert InWalkBox(visited[n], s, e);
      }
    }
  }

  /** Every cell handed to `op` so far was accepted. */
  predicate Accepted(v: seq<Cell3>, op: Cell3 -> bool) {
    forall n :: 0 <= n < |v| ==> op(v[n])
  }

  /** The i loop over the cells (lo..hi, j, k), after the cells `visited`;
      `go` is false when `op` refused cell (stop, j, k). */
  method VisitRow(visited: seq<Cell3>, lo: int, hi: int, j: int, k: int, op: Cell3 -> bool)
    returns (v: seq<Cell3>, go: bool, ghost stop: int)
    requires Accepted(visited, op)
    ensures go ==> v == visited + Row(lo, hi, j, k) && Accepted(v, op)
    ensures !go ==> lo <= stop <= hi && v == visited + Row(lo, stop, j, k)
    ensures !go ==> !op(Cell3(stop, j, k)) && forall n :: 0 <= n < |v| - 1 ==> op(v[n])
  {
    v, stop := visited, lo;
    var i := lo;
    while i <= hi
      invariant i == lo || lo <= i <= hi + 1
      invariant v == visited + Row(lo, i - 1, j, k) && Accepted(v, op)
      decreases hi - i
    {
      v := v + [Cell3(i, j, k)];
      if !op(Cell3(i, j, k)) {
        stop, go := i, false;
        return;
      }
      i := i + 1;
    }
    go := true;
  }

  /** The j and i loops over plane k of the box lo..hi, after the cells
      `visited`; `go` is false when `op` refused cell (stopI, stopJ, k). */
  method VisitPlane(visited: seq<Cell3>, lo: Cell3, hi: Cell3, k: int, op: Cell3 -> bool)
    returns (v: seq<Cell3>, go: bool, ghost stopI: int, ghost stopJ: int)
    requires Accepted(visited, op)
    ensures go ==> v == visited + Plane(lo, hi, hi.j, k) && Accepted(v, op)
    ensures !go ==> lo.i <= stopI <= hi.i && lo.j <= stopJ <= hi.j
    ensures !go ==> v == visited + (Plane(lo, hi, stopJ - 1, k) + Row(lo.i, stopI, stopJ, k))
    ensures !go ==> !op(v[|v| - 1]) && forall n :: 0 <= n < |v| - 1 ==> op(v[n])
  {
    v, go, stopI, stopJ := visited, true, lo.i, lo.j;
    var j := lo.j;
    while j <= hi.j
      invariant j == lo.j || lo.j <= j <= hi.j + 1
      invariant v == visited + Plane(lo, hi, j - 1, k) && Accepted(v, op)
      decreases hi.j - j
    {
      var row;
      row, go, stopI := VisitRow(v, lo.i, hi.i, j, k, op);
      if !go {
        stopJ := j;
        v := row;
        return;
      }
      v := row;
      j := j + 1;
    }
  }

  /** The k, j, i loops over the cells lo..hi. */
  method VisitBox(lo: Cell3, hi: Cell3, op: Cell3 -> bool) returns (visited: seq<Cell3>)
    ensures AppliedUntilRefused(visited, BoxOrder(lo, hi, hi.k), op)
  {
    visited := [];
    var k := lo.k;
    while k <= hi.k
      invariant k == lo.k || lo.k <= k <= hi.k + 1
      invariant visited == BoxOrder(lo, hi, k - 1) && Accepted(visited, op)
      decreases hi.k - k
    {
      var go;
      ghost var stopI, stopJ;
      visited, go, stopI, stopJ := VisitPlane(visited, lo, hi, k, op);
      if !go {
        StopPrefix(lo, hi, stopI, stopJ, k);
        return;
      }
      k := k + 1;
    }
  }

  /** `n` steps from `from` toward `to`. */
  function Toward(from: int, to: int, n: int): int {
    if to >= from then from + n else from - n
  }

  predicate InWalkBox(x: Cell3, s: Cell3, e: Cell3) {
    Between(x.i, s.i, e.i) && Between(x.j, s.j, e.j) && Between(x.k, s.k, e.k)
  }

  /** The cells of a walk from s so far: a chain of neighbours inside the box
      spanned by s and e. */
  predicate Progress(v: seq<Cell3>, s: Cell3, e: Cell3) {
    |v| >= 1 && v[0] == s
    && (forall n :: 0 <= n < |v| - 1 ==> Adjacent(v[n], v[n + 1]))
    && (forall n :: 0 <= n < |v| ==> InWalkBox(v[n], s, e))
  }

  /** One step on axis x toward e followed by the cell operation; `n` is the
      number of earlier steps on x. */
  method Advance(visited: seq<Cell3>, x: Axis, s: Cell3, e: Cell3, ghost n: nat, op: Cell3 -> bool)
    returns (v: seq<Cell3>, cur: Cell3, go: bool)
    requires Progress(visited, s, e) && Accepted(visited, op)
    requires n < Abs(Get(e, x) - Get(s, x))
    requires Get(visited[|visited| - 1], x) == Toward(Get(s, x), Get(e, x), n)
    ensures Get(cur, x) == Toward(Get(s, x), Get(e, x), n + 1)
    ensures forall y :: y != x ==> Get(cur, y) == Get(visited[|visited| - 1], y)
    ensures v == visited + [cur] && Progress(v, s, e) && go == op(cur)
    ensures forall m :: 0 <= m < |v| - 1 ==> op(v[m])
    ensures go ==> Accepted(v, op)
  {
    var last := visited[|visited| - 1];
    cur := Move(last, x, Sign(Get(s, x), Get(e, x)));
    assert Adjacent(last, cur) by {
      match x
      case I =>
      case J =>
      case K =>
    }
    assert InWalkBox(last, s, e);
    assert InWalkBox(cur, s, e) by {
      match x
      case I =>
      case J =>
      case K =>
    }
    v := visited + [cur];
    go := op(cur);
  }

  /** Agreement on the driving axis and both secondaries is equality. */
  lemma AllAxes(x: Cell3, y: Cell3, a: Axis)
    requires Get(x, a) == Get(y, a)
    requires Get(x, Secondary(a).0) == Get(y, Secondary(a).0)
    requires Get(x, Secondary(a).1) == Get(y, Secondary(a).1)
    ensures x == y
  {
  }

  /** The displacement of the walk from s to e along axis x. */
  function Span(s: Cell3, e: Cell3, x: Axis): nat {
    Abs(Get(e, x) - Get(s, x))
  }

  lemma ManhattanAxes(s: Cell3, e: Cell3, a: Axis)
    ensures Manhattan(s, e) == Span(s, e, a) + Span(s, e, Secondary(a).0) + Span(s, e, Secondary(a).1)
  {
    match a
    case I =>
    case J =>
    case K =>
  }

  /** The secondary moves of one iteration of the walk, after the drive
      step: each secondary axis moves when its error term is positive; when
      both move, the one whose error is larger relative to its displacement
      goes first.  The error terms are then updated for the next iteration. */
  method SecondarySteps(visited: seq<Cell3>, s: Cell3, e: Cell3, a: Axis, eB: int, eC: int,
                        ghost nB: nat, ghost nC: nat, op: Cell3 -> bool)
    returns (v: seq<Cell3>, eB': int, eC': int, go: bool)
    requires Progress(visited, s, e) && Accepted(visited, op)
    requires eB > 0 ==> nB < Span(s, e, Secondary(a).0)
    requires eC > 0 ==> nC < Span(s, e, Secondary(a).1)
    requires Get(visited[|visited| - 1], Secondary(a).0) == Toward(Get(s, Secondary(a).0), Get(e, Secondary(a).0), nB)
    requires Get(visited[|visited| - 1], Secondary(a).1) == Toward(Get(s, Secondary(a).1), Get(e, Secondary(a).1), nC)
    ensures Progress(v, s, e) && forall m :: 0 <= m < |v| - 1 ==> op(v[m])
    ensures !go ==> !op(v[|v| - 1])
    ensures go ==> Accepted(v, op) && |v| == |visited| + (NextCount(eB, nB) - nB) + (NextCount(eC, nC) - nC)
    ensures go ==> Get(v[|v| - 1], a) == Get(visited[|visited| - 1], a)
    ensures go ==> Get(v[|v| - 1], Secondary(a).0) == Toward(Get(s, Secondary(a).0), Get(e, Secondary(a).0), NextCount(eB, nB))
    ensures go ==> Get(v[|v| - 1], Secondary(a).1) == Toward(Get(s, Secondary(a).1), Get(e, Secondary(a).1), NextCount(eC, nC))
    ensures go ==> eB' == NextError(eB, Span(s, e, Secondary(a).0), Span(s, e, a))
    ensures go ==> eC' == NextError(eC, Span(s, e, Secondary(a).1), Span(s, e, a))
  {
    var (b, c) := Secondary(a);
    var dA: int, dB: int, dC: int := Span(s, e, a), Span(s, e, b), Span(s, e, c);
    var cur;
    v, go, eB', eC' := visited, true, eB, eC;
    if eB > 0 && eC > 0 {
      if eB * dC > eC * dB {
        v, cur, go := Advance(v, b, s, e, nB, op);
        if !go {
          return;
        }
        v, cur, go := Advance(v, c, s, e, nC, op);
        if !go {
          return;
        }
      } else {
        v, cur, go := Advance(v, c, s, e, nC, op);
        if !go {
          return;
        }
        v, cur, go := Advance(v, b, s, e, nB, op);
        if !go {
          return;
        }
      }
      eB', eC' := eB + 2 * (dB - dA), eC + 2 * (dC - dA);
    } else if eB > 0 {
      v, cur, go := Advance(v, b, s, e, nB, op);
      if !go {
        return;
      }
      eB', eC' := eB + 2 * (dB - dA), eC + 2 * dC;
    } else {
      eB' := eB + 2 * dB;
      if eC > 0 {
        v, cur, go := Advance(v, c, s, e, nC, op);
        if !go {
          return;
        }
        eC' := eC + 2 * (dC - dA);
      } else {
        eC' := eC + 2 * dC;
      }
    }
  }

  /** What the walk driven by `a` keeps after nA drive steps, nB and nC
      moves on the secondaries, with error terms eB and eC: the cells so far
      are an accepted chain ending nA, nB and nC steps from s toward e. */
  predicate WalkState(v: seq<Cell3>, s: Cell3, e: Cell3, a: Axis, eB: int, eC: int,
                      nA: nat, nB: nat, nC: nat, op: Cell3 -> bool)
  {
    var b, c := Secondary(a).0, Secondary(a).1;
    Progress(v, s, e) && Accepted(v, op)
    && nA <= Span(s, e, a) && nB <= Span(s, e, b) && nC <= Span(s, e, c)
    && ErrorInvariant(eB, Span(s, e, b), Span(s, e, a), nA, nB)
    && ErrorInvariant(eC, Span(s, e, c), Span(s, e, a), nA, nC)
    && Get(v[|v| - 1], a) == Toward(Get(s, a), Get(e, a), nA)
    && Get(v[|v| - 1], b) == Toward(Get(s, b), Get(e, b), nB)
    && Get(v[|v| - 1], c) == Toward(Get(s, c), Get(e, c), nC)
    && |v| == 1 + nA + nB + nC
  }

  /** One iteration of the walk's loop: the drive step, then the secondary
      moves. */
  method Iterate(visited: seq<Cell3>, s: Cell3, e: Cell3, a: Axis, eB: int, eC: int,
                 ghost nA: nat, ghost nB: nat, ghost nC: nat, op: Cell3 -> bool)
    returns (v: seq<Cell3>, eB': int, eC': int, ghost nB': nat, ghost nC': nat, go: bool)
    requires forall x :: Span(s, e, x) <= Span(s, e, a)
    requires nA < Span(s, e, a) && WalkState(visited, s, e, a, eB, eC, nA, nB, nC, op)
    ensures Progress(v, s, e) && forall m :: 0 <= m < |v| - 1 ==> op(v[m])
    ensures !go ==> !op(v[|v| - 1])
    ensures go ==> WalkState(v, s, e, a, eB', eC', nA + 1, nB', nC', op)
  {
    var (b, c) := Secondary(a);
    var dA: int, dB: int, dC: int := Span(s, e, a), Span(s, e, b), Span(s, e, c);
    var cur;
    eB', eC', nB', nC' := eB, eC, nB, nC;
    v, cur, go := Advance(visited, a, s, e, nA, op);
    if !go {
      return;
    }
    ErrorStep(eB, dB, dA, nA, nB);
    ErrorStep(eC, dC, dA, nA, nC);
    v, eB', eC', go := SecondarySteps(v, s, e, a, eB, eC, nB, nC, op);
    nB', nC' := NextCount(eB, nB), NextCount(eC, nC);
  }

  /** The Bresenham walk of ForCellsAlongRay driven by `a`: the start cell,
      then for each of the Span(s, e, a) drive steps a move on `a` and the
      secondary moves.  Every single-axis move is visited. */
  method Walk(s: Cell3, e: Cell3, a: Axis, op: Cell3 -> bool) returns (visited: seq<Cell3>)
    requires forall x :: Span(s, e, x) <= Span(s, e, a)
    ensures Progress(visited, s, e)
    ensures forall n :: 0 <= n < |visited| - 1 ==> op(visited[n])
    ensures op(visited[|visited| - 1]) ==> visited[|visited| - 1] == e && |visited| == 1 + Manhattan(s, e)
  {
    var dA := Span(s, e, a);
    var eB, eC := 3 * Span(s, e, Secondary(a).0) - dA, 3 * Span(s, e, Secondary(a).1) - dA;
    ghost var nA: nat, nB: nat, nC: nat := 0, 0, 0;
    visited := [s];
    var go := op(s);
    if go {
      WalkStart(s, e, a, op);
    }
    var cell := dA;
    while cell > 0 && go
      invariant 0 <= cell <= dA && nA == dA - cell
      invariant go ==> WalkState(visited, s, e, a, eB, eC, nA, nB, nC, op)
      invariant Progress(visited, s, e) && forall m :: 0 <= m < |visited| - 1 ==> op(visited[m])
      invariant !go ==> !op(visited[|visited| - 1])
    {
      visited, eB, eC, nB, nC, go := Iterate(visited, s, e, a, eB, eC, nA, nB, nC, op);
      nA := nA + 1;
      cell := cell - 1;
    }
    if go {
      WalkEnd(visited, s, e, a, eB, eC, nB, nC, op);
    }
  }

  lemma WalkStart(s: Cell3, e: Cell3, a: Axis, op: Cell3 -> bool)
    requires forall x :: Span(s, e, x) <= Span(s, e, a)
    requires op(s)
    ensures WalkState([s], s, e, a, 3 * Span(s, e, Secondary(a).0) - Span(s, e, a),
                      3 * Span(s, e, Secondary(a).1) - Span(s, e, a), 0, 0, 0, op)
  {
  }

  /** After all drive steps the walk stands on e, having made one move per
      unit of Manhattan distance. */
  lemma WalkEnd(v: seq<Cell3>, s: Cell3, e: Cell3, a: Axis, eB: int, eC: int, nB: nat, nC: nat, op: Cell3 -> bool)
    requires forall x :: Span(s, e, x) <= Span(s, e, a)
    requires WalkState(v, s, e, a, eB, eC, Span(s, e, a), nB, nC, op)
    ensures v[|v| - 1] == e && |v| == 1 + Manhattan(s, e)
  {
    var (b, c) := Secondary(a);
    if Span(s, e, a) > 0 {
      ErrorFinal(eB, Span(s, e, b), Span(s, e, a), nB);
      ErrorFinal(eC, Span(s, e, c), Span(s, e, a), nC);
    }
    AllAxes(v[|v| - 1], e, a);
    ManhattanAxes(s, e, a);
  }
}
