/** Value-level view of a blueprint: a 3-D grid of sub-design ids (0 means
    empty) with its bookkeeping. The class in Blueprint.dfy is proved
    against the functions of this module. */
module Voxels {

  /** A cell coordinate (Discrete3DCoord), compared by value. */
  datatype Coord = Coord(x: int, y: int, z: int) {
    function Plus(o: Coord): Coord { Coord(x + o.x, y + o.y, z + o.z) }
    function Minus(o: Coord): Coord { Coord(x - o.x, y - o.y, z - o.z) }
    function Above(): Coord { Coord(x, y + 1, z) }
    function Below(): Coord { Coord(x, y - 1, z) }
  }

  datatype Axis = XAxis | YAxis | ZAxis

  /** Cells indexed as cells[x][y][z], like the source's int[,,]. */
  type Cells = seq<seq<seq<int>>>

  predicate NonNegative(d: Coord) { d.x >= 0 && d.y >= 0 && d.z >= 0 }

  predicate InBox(p: Coord, d: Coord) {
    0 <= p.x < d.x && 0 <= p.y < d.y && 0 <= p.z < d.z
  }

  /** cells has extents d along x, y and z. */
  predicate Shaped(c: Cells, d: Coord) {
    NonNegative(d) && |c| == d.x &&
    forall x :: 0 <= x < d.x ==>
      |c[x]| == d.y && forall y :: 0 <= y < d.y ==> |c[x][y]| == d.z
  }

  predicate Indexes(c: Cells, p: Coord) {
    0 <= p.x < |c| && 0 <= p.y < |c[p.x]| && 0 <= p.z < |c[p.x][p.y]|
  }

  function At(c: Cells, p: Coord): int
    requires Indexes(c, p)
  {
    c[p.x][p.y][p.z]
  }

  /** The column of cells (x, y, 0..d.z) of the grid built from f. */
  function BuildRow(d: Coord, f: Coord --> int, x: int, y: int): (r: seq<int>)
    requires NonNegative(d) && 0 <= x < d.x && 0 <= y < d.y
    requires forall p {:trigger f.requires(p)} :: InBox(p, d) ==> f.requires(p)
    ensures |r| == d.z
    ensures forall z {:trigger r[z]} :: 0 <= z < d.z && InBox(Coord(x, y, z), d) ==> r[z] == f(Coord(x, y, z))
  {
    seq(d.z, z requires 0 <= z < d.z => assert InBox(Coord(x, y, z), d); f(Coord(x, y, z)))
  }

  /** The layer of cells (x, 0..d.y, 0..d.z) of the grid built from f. */
  function BuildPlane(d: Coord, f: Coord --> int, x: int): (r: seq<seq<int>>)
    requires NonNegative(d) && 0 <= x < d.x
    requires forall p {:trigger f.requires(p)} :: InBox(p, d) ==> f.requires(p)
    ensures |r| == d.y
    ensures forall y :: 0 <= y < d.y ==> r[y] == BuildRow(d, f, x, y)
  {
    seq(d.y, y requires 0 <= y < d.y => BuildRow(d, f, x, y))
  }

  /** The grid of extents d whose cell at p is f(p). */
  function Build(d: Coord, f: Coord --> int): (c: Cells)
    requires NonNegative(d)
    requires forall p {:trigger f.requires(p)} :: InBox(p, d) ==> f.requires(p)
    ensures Shaped(c, d)
    ensures forall p {:trigger At(c, p)} :: InBox(p, d) ==> Indexes(c, p) && At(c, p) == f(p)
  {
    var c := seq(d.x, x requires 0 <= x < d.x => BuildPlane(d, f, x));
    forall p | InBox(p, d) ensures Indexes(c, p) && At(c, p) == f(p) {
      assert c[p.x][p.y] == BuildRow(d, f, p.x, p.y);
      assert p == Coord(p.x, p.y, p.z);
    }
    c
  }

  /** Two grids of one shape are equal when they agree cell by cell. */
  lemma CellsExt(a: Cells, b: Cells, d: Coord)
    requires Shaped(a, d) && Shaped(b, d)
    requires forall p {:trigger At(a, p)} {:trigger At(b, p)} :: InBox(p, d) ==> Indexes(a, p) && Indexes(b, p) && At(a, p) == At(b, p)
    ensures a == b
  {
    forall x | 0 <= x < d.x ensures a[x] == b[x] {
      forall y | 0 <= y < d.y ensures a[x][y] == b[x][y] {
        forall z | 0 <= z < d.z ensures a[x][y][z] == b[x][y][z] {
          assert InBox(Coord(x, y, z), d) && At(a, Coord(x, y, z)) == At(b, Coord(x, y, z));
        }
      }
    }
  }

  /** Every coordinate inside extents d. */
  function Box(d: Coord): set<Coord> {
    set x, y, z | 0 <= x < d.x && 0 <= y < d.y && 0 <= z < d.z :: Coord(x, y, z)
  }

  lemma BoxMembers(d: Coord)
    ensures forall p :: p in Box(d) <==> InBox(p, d)
  {
    forall p | InBox(p, d) ensures p in Box(d) {
      assert p == Coord(p.x, p.y, p.z);
    }
  }

  /** The floor layer {(x, 0, z)}: the attachment points of a fresh grid. */
  function FloorLayer(d: Coord): set<Coord> {
    set x, z | 0 <= x < d.x && 0 <= z < d.z :: Coord(x, 0, z)
  }

  lemma FloorMembers(d: Coord)
    ensures forall p: Coord {:trigger p in FloorLayer(d)} :: p in FloorLayer(d) <==> p.y == 0 && 0 <= p.x < d.x && 0 <= p.z < d.z
  {
    forall p: Coord | p.y == 0 && 0 <= p.x < d.x && 0 <= p.z < d.z ensures p in FloorLayer(d) {
      assert p == Coord(p.x, 0, p.z);
    }
  }

  // ---------------------------------------------------------------- grids

  /** The whole state of a blueprint: extents, cells, the next sub-design
      id, the registered ids and the attachment points. */
  datatype Grid = Grid(dims: Coord, cells: Cells, nextId: int,
                       validIds: set<int>, attachmentPoints: set<Coord>)

  predicate WellFormed(g: Grid) { Shaped(g.cells, g.dims) }

  function Cell(g: Grid, p: Coord): int
    requires WellFormed(g) && InBox(p, g.dims)
  {
    At(g.cells, p)
  }

  /** A freshly constructed blueprint. */
  function EmptyGrid(d: Coord): (g: Grid)
    requires NonNegative(d)
    ensures WellFormed(g) && g.dims == d
    ensures forall p {:trigger Cell(g, p)} :: InBox(p, d) ==> Cell(g, p) == 0
    ensures g.nextId == 0 && g.validIds == {}
    ensures forall p {:trigger p in g.attachmentPoints} :: p in g.attachmentPoints <==> p.y == 0 && 0 <= p.x < d.x && 0 <= p.z < d.z
  {
    FloorMembers(d);
    Grid(d, Build(d, p => 0), 0, {}, FloorLayer(d))
  }

  /** Every attachment point lies inside the grid. */
  ghost predicate AttachmentsInBox(g: Grid) {
    forall p {:trigger p in g.attachmentPoints} :: p in g.attachmentPoints ==> InBox(p, g.dims)
  }

  /** Every attachment point is an empty cell inside the grid. */
  ghost predicate AttachmentsEmpty(g: Grid)
    requires WellFormed(g)
  {
    forall p {:trigger p in g.attachmentPoints} :: p in g.attachmentPoints ==> InBox(p, g.dims) && Cell(g, p) == 0
  }

  /** Every occupied cell holds an id below nextId. */
  ghost predicate IdsBelowNext(g: Grid)
    requires WellFormed(g)
  {
    forall p {:trigger Cell(g, p)} :: InBox(p, g.dims) && Cell(g, p) != 0 ==> Cell(g, p) < g.nextId
  }

  /** AddBlock: cell p becomes id, id is registered and nextId passes it. */
  function WithBlock(g: Grid, p: Coord, id: int): (r: Grid)
    requires WellFormed(g) && InBox(p, g.dims)
    ensures WellFormed(r) && r.dims == g.dims
    ensures Cell(r, p) == id
    ensures forall q {:trigger Cell(r, q)} :: InBox(q, g.dims) && q != p ==> Cell(r, q) == Cell(g, q)
    ensures r.validIds == g.validIds + {id}
    ensures r.nextId > id && r.nextId >= g.nextId
    ensures r.nextId == g.nextId || r.nextId == id + 1
    ensures r.attachmentPoints == g.attachmentPoints
  {
    Grid(g.dims,
         Build(g.dims, q requires InBox(q, g.dims) => if q == p then id else Cell(g, q)),
         if g.nextId <= id then id + 1 else g.nextId,
         g.validIds + {id},
         g.attachmentPoints)
  }

  lemma {:induction false} WithBlockKeepsIdsBelowNext(g: Grid, p: Coord, id: int)
    requires WellFormed(g) && InBox(p, g.dims) && IdsBelowNext(g)
    ensures IdsBelowNext(WithBlock(g, p, id))
  {
    var r := WithBlock(g, p, id);
    forall q | InBox(q, r.dims) && Cell(r, q) != 0 ensures Cell(r, q) < r.nextId {
      if q != p {
        assert Cell(r, q) == Cell(g, q) < g.nextId;
      }
    }
  }

  // ------------------------------------------------------------ rotation

  /** The extents after one quarter-turn: the two non-axis extents swap. */
  function RotatedDims(d: Coord, a: Axis): Coord {
    match a
    case XAxis => Coord(d.x, d.z, d.y)
    case YAxis => Coord(d.z, d.y, d.x)
    case ZAxis => Coord(d.y, d.x, d.z)
  }

  /** Where the cell at p of a grid with extents d lands after one
      counter-clockwise quarter-turn about a. */
  function RotatedCoord(p: Coord, d: Coord, a: Axis): (q: Coord)
    ensures InBox(p, d) ==> InBox(q, RotatedDims(d, a))
  {
    match a
    case XAxis => Coord(p.x, p.z, d.y - p.y - 1)
    case YAxis => Coord(d.z - p.z - 1, p.y, p.x)
    case ZAxis => Coord(d.y - p.y - 1, p.x, p.z)
  }

  /** The cell of the unrotated grid that lands at q. */
  function SourceCoord(q: Coord, d: Coord, a: Axis): (p: Coord)
    ensures InBox(q, RotatedDims(d, a)) ==> InBox(p, d)
  {
    match a
    case XAxis => Coord(q.x, d.y - 1 - q.z, q.y)
    case YAxis => Coord(q.z, q.y, d.z - 1 - q.x)
    case ZAxis => Coord(q.y, d.y - 1 - q.x, q.z)
  }

  /** One quarter-turn is a bijection between the two boxes. */
  lemma RotationBijective(d: Coord, a: Axis)
    ensures forall p {:trigger RotatedCoord(p, d, a)} :: InBox(p, d) ==> SourceCoord(RotatedCoord(p, d, a), d, a) == p
    ensures forall q {:trigger SourceCoord(q, d, a)} :: InBox(q, RotatedDims(d, a)) ==> RotatedCoord(SourceCoord(q, d, a), d, a) == q
  {
  }

  /** _Rotate: one quarter-turn of the cells; ids and attachment points
      are carried over unchanged. */
  function RotateOnce(g: Grid, a: Axis): (r: Grid)
    requires WellFormed(g)
    ensures WellFormed(r) && r.dims == RotatedDims(g.dims, a)
    ensures r.nextId == g.nextId && r.validIds == g.validIds
    ensures r.attachmentPoints == g.attachmentPoints
  {
    var nd := RotatedDims(g.dims, a);
    RotationBijective(g.dims, a);
    Grid(nd,
         Build(nd, q requires InBox(q, nd) => Cell(g, SourceCoord(q, g.dims, a))),
         g.nextId, g.validIds, g.attachmentPoints)
  }

  /** After one quarter-turn the cell at p has moved to RotatedCoord(p). */
  lemma RotateOnceMoves(g: Grid, a: Axis)
    requires WellFormed(g)
    ensures forall p {:trigger RotatedCoord(p, g.dims, a)} :: InBox(p, g.dims) ==>
      InBox(RotatedCoord(p, g.dims, a), RotateOnce(g, a).dims) &&
      Cell(RotateOnce(g, a), RotatedCoord(p, g.dims, a)) == Cell(g, p)
  {
    RotationBijective(g.dims, a);
  }

  /** The cell at q after one quarter-turn comes from SourceCoord(q). */
  lemma RotateOnceCell(g: Grid, a: Axis, q: Coord)
    requires WellFormed(g) && InBox(q, RotatedDims(g.dims, a))
    ensures InBox(SourceCoord(q, g.dims, a), g.dims)
    ensures Cell(RotateOnce(g, a), q) == Cell(g, SourceCoord(q, g.dims, a))
  {
  }

  /** n successive quarter-turns about a. */
  function RotateTurns(g: Grid, a: Axis, n: nat): (r: Grid)
    requires WellFormed(g)
    ensures WellFormed(r)
    ensures r.nextId == g.nextId && r.validIds == g.validIds && r.attachmentPoints == g.attachmentPoints
    decreases n
  {
    if n == 0 then g else RotateTurns(RotateOnce(g, a), a, n - 1)
  }

  /** C#'s % on int: the remainder takes the sign of the dividend. */
  function CsRemainder(a: int, b: int): (r: int)
    requires b > 0
    ensures -b < r < b && (a >= 0 ==> r >= 0) && (a <= 0 ==> r <= 0)
  {
    if a >= 0 then a % b else -((-a) % b)
  }

  /** How many quarter-turns Rotate(axis, magnitude) performs: the loop
      runs while i < magnitude % 4, so a negative magnitude does nothing. */
  function TurnCount(magnitude: int): (n: nat)
    ensures n < 4
    ensures magnitude <= 0 ==> n == 0
    ensures magnitude >= 0 ==> n == magnitude % 4
  {
    var r := CsRemainder(magnitude, 4);
    if r > 0 then r else 0
  }

  function Rotated(g: Grid, a: Axis, magnitude: int): (r: Grid)
    requires WellFormed(g)
    ensures WellFormed(r)
  {
    RotateTurns(g, a, TurnCount(magnitude))
  }

  lemma {:induction false} RotateTurnsAdd(g: Grid, a: Axis, m: nat, n: nat)
    requires WellFormed(g)
    ensures RotateTurns(RotateTurns(g, a, m), a, n) == RotateTurns(g, a, m + n)
    decreases m
  {
    if m > 0 {
      RotateTurnsAdd(RotateOnce(g, a), a, m - 1, n);
    }
  }

  /** One more turn after n turns is n + 1 turns. */
  lemma RotateTurnsStep(g: Grid, a: Axis, n: nat)
    requires WellFormed(g)
    ensures RotateTurns(g, a, n + 1) == RotateOnce(RotateTurns(g, a, n), a)
  {
    RotateTurnsAdd(g, a, n, 1);
    var h := RotateTurns(g, a, n);
    assert RotateTurns(h, a, 1) == RotateTurns(RotateOnce(h, a), a, 0);
  }

  /** The grids met along n successive quarter-turns about a, starting
      from g. */
  function TurnSeq(g: Grid, a: Axis, n: nat): (ts: seq<Grid>)
    requires WellFormed(g)
    ensures |ts| == n + 1 && ts[0] == g
    ensures forall k :: 0 <= k <= n ==> WellFormed(ts[k])
    ensures forall k :: 0 <= k < n ==> ts[k + 1] == RotateOnce(ts[k], a)
    decreases n
  {
    if n == 0 then [g] else
      var prev := TurnSeq(g, a, n - 1);
      prev + [RotateOnce(prev[n - 1], a)]
  }

  /** The last grid met is RotateTurns(g, a, n). */
  lemma {:induction false} TurnSeqLast(g: Grid, a: Axis, n: nat)
    requires WellFormed(g)
    ensures TurnSeq(g, a, n)[n] == RotateTurns(g, a, n)
    decreases n
  {
    if n > 0 {
      TurnSeqLast(g, a, n - 1);
      RotateTurnsStep(g, a, n - 1);
    }
  }

  /** The cell that lands at q after four quarter-turns is q itself. */
  lemma FourTurnsSource(q: Coord, d: Coord, a: Axis)
    ensures var d1 := RotatedDims(d, a);
            var d2 := RotatedDims(d1, a);
            var d3 := RotatedDims(d2, a);
            RotatedDims(d3, a) == d &&
            SourceCoord(SourceCoord(SourceCoord(SourceCoord(q, d3, a), d2, a), d1, a), d, a) == q
  {
  }

  /** Four quarter-turns about one axis are the identity. */
  lemma {:induction false} FourTurnsIdentity(g: Grid, a: Axis)
    requires WellFormed(g)
    ensures RotateTurns(g, a, 4) == g
  {
    var g1 := RotateOnce(g, a);
    var g2 := RotateOnce(g1, a);
    var g3 := RotateOnce(g2, a);
    var g4 := RotateOnce(g3, a);
    assert RotateTurns(g, a, 4) == g4 by {
      assert RotateTurns(g3, a, 1) == g4;
    }
    FourTurnsSource(g.dims, g.dims, a);
    assert g4.dims == g.dims;
    forall q | InBox(q, g.dims)
      ensures Indexes(g4.cells, q) && Indexes(g.cells, q) && At(g4.cells, q) == At(g.cells, q)
    {
      FourTurnsSource(q, g.dims, a);
      var q3 := SourceCoord(q, g3.dims, a);
      var q2 := SourceCoord(q3, g2.dims, a);
      var q1 := SourceCoord(q2, g1.dims, a);
      RotateOnceCell(g3, a, q);
      RotateOnceCell(g2, a, q3);
      RotateOnceCell(g1, a, q2);
      RotateOnceCell(g, a, q1);
    }
    CellsExt(g4.cells, g.cells, g.dims);
  }

  /** Rotate(a, 1) followed by Rotate(a, 3) restores the grid. */
  lemma OneThenThreeRestores(g: Grid, a: Axis)
    requires WellFormed(g)
    ensures Rotated(Rotated(g, a, 1), a, 3) == g
  {
    RotateTurnsAdd(g, a, 1, 3);
    FourTurnsIdentity(g, a);
  }

  /** A negative rotation magnitude performs no turn at all. */
  lemma NegativeMagnitudeIsIdentity(g: Grid, a: Axis, magnitude: int)
    requires WellFormed(g) && magnitude < 0
    ensures Rotated(g, a, magnitude) == g
  {
  }

  // ------------------------------------------------------------ counting

  /** Which cells to count: those holding one id, or the occupied ones. */
  datatype Filter = HoldsId(v: int) | Occupied

  predicate Accepts(f: Filter, id: int) {
    match f
    case HoldsId(v) => id == v
    case Occupied => id != 0
  }

  /** The coordinates of the cells whose id the filter accepts. */
  ghost function Where(g: Grid, keep: Filter): set<Coord>
    requires WellFormed(g)
  {
    set p | p in Box(g.dims) && InBox(p, g.dims) && Accepts(keep, Cell(g, p))
  }

  /** How many cells of g the filter accepts. */
  ghost function Count(g: Grid, keep: Filter): nat
    requires WellFormed(g)
  {
    |Where(g, keep)|
  }

  /** An injective map does not change the size of a set. */
  lemma {:induction false} InjectiveImageSize(s: set<Coord>, f: Coord -> Coord)
    requires forall p, q :: p in s && q in s && f(p) == f(q) ==> p == q
    ensures |(set p | p in s :: f(p))| == |s|
    decreases |s|
  {
    if s != {} {
      var x :| x in s;
      var s' := s - {x};
      InjectiveImageSize(s', f);
      assert (set p | p in s :: f(p)) == (set p | p in s' :: f(p)) + {f(x)};
    }
  }

  /** One quarter-turn moves the cells satisfying keep one-to-one. */
  lemma RotateOnceKeepsCount(g: Grid, a: Axis, keep: Filter)
    requires WellFormed(g)
    ensures Count(RotateOnce(g, a), keep) == Count(g, keep)
  {
    var r := RotateOnce(g, a);
    var f := p => RotatedCoord(p, g.dims, a);
    var s := Where(g, keep);
    RotationBijective(g.dims, a);
    RotateOnceMoves(g, a);
    BoxMembers(g.dims);
    BoxMembers(r.dims);
    forall q | q in Where(r, keep) ensures q in (set p | p in s :: f(p)) {
      RotateOnceCell(g, a, q);
      assert f(SourceCoord(q, g.dims, a)) == q;
    }
    assert Where(r, keep) == (set p | p in s :: f(p));
    InjectiveImageSize(s, f);
  }

  /** A measure of grids that one quarter-turn keeps is kept by any
      number of them. */
  lemma {:induction false} TurnsKeepMeasure(g: Grid, a: Axis, n: nat, f: Grid -> int)
    requires WellFormed(g)
    requires forall h {:trigger RotateOnce(h, a)} :: WellFormed(h) ==> f(RotateOnce(h, a)) == f(h)
    ensures f(RotateTurns(g, a, n)) == f(g)
    decreases n
  {
    if n > 0 {
      TurnsKeepMeasure(RotateOnce(g, a), a, n - 1, f);
    }
  }

  /** Any number of quarter-turns keeps how many cells the filter accepts. */
  lemma RotateTurnsKeepsCount(g: Grid, a: Axis, n: nat, keep: Filter)
    requires WellFormed(g)
    ensures Count(RotateTurns(g, a, n), keep) == Count(g, keep)
  {
    var f := h => if WellFormed(h) then Count(h, keep) else 0;
    forall h | WellFormed(h) ensures f(RotateOnce(h, a)) == f(h) {
      RotateOnceKeepsCount(h, a, keep);
    }
    TurnsKeepMeasure(g, a, n, f);
  }

  /** Rotate preserves, for every id v, how many cells hold v (the
      multiset of cell values), and how many cells are occupied. */
  lemma RotatedKeepsValueCounts(g: Grid, a: Axis, magnitude: int, v: int)
    requires WellFormed(g)
    ensures Count(Rotated(g, a, magnitude), HoldsId(v)) == Count(g, HoldsId(v))
    ensures Count(Rotated(g, a, magnitude), Occupied) == Count(g, Occupied)
  {
    RotateTurnsKeepsCount(g, a, TurnCount(magnitude), HoldsId(v));
    RotateTurnsKeepsCount(g, a, TurnCount(magnitude), Occupied);
  }

  lemma RotateOnceKeepsIdsBelowNext(g: Grid, a: Axis)
    requires WellFormed(g) && IdsBelowNext(g)
    ensures IdsBelowNext(RotateOnce(g, a))
  {
    var r := RotateOnce(g, a);
    forall q | InBox(q, r.dims) && Cell(r, q) != 0 ensures Cell(r, q) < r.nextId {
      RotateOnceCell(g, a, q);
    }
  }

  lemma {:induction false} RotateTurnsKeepsIdsBelowNext(g: Grid, a: Axis, n: nat)
    requires WellFormed(g) && IdsBelowNext(g)
    ensures IdsBelowNext(RotateTurns(g, a, n))
    decreases n
  {
    if n > 0 {
      RotateOnceKeepsIdsBelowNext(g, a);
      RotateTurnsKeepsIdsBelowNext(RotateOnce(g, a), a, n - 1);
    }
  }

  // ------------------------------------------------------------ stamping

  function Min(a: int, b: int): int { if a < b then a else b }

  /** copy_dims of ApplyDesign and DesignCollides: the part of a design of
      extents e placed at s that fits inside extents d. */
  function Clip(d: Coord, s: Coord, e: Coord): Coord {
    Coord(Min(d.x - s.x, e.x), Min(d.y - s.y, e.y), Min(d.z - s.z, e.z))
  }

  /** Cell p of g receives a block when design is stamped at s. */
  predicate Stamps(g: Grid, design: Grid, s: Coord, p: Coord)
    requires WellFormed(g) && WellFormed(design)
  {
    InBox(p, g.dims) && InBox(p.Minus(s), Clip(g.dims, s, design.dims)) &&
    Cell(design, p.Minus(s)) > 0
  }

  /** p becomes an attachment point: it is the empty in-bounds cell above a
      stamped one. */
  predicate Raises(g: Grid, design: Grid, s: Coord, p: Coord)
    requires WellFormed(g) && WellFormed(design)
  {
    1 <= p.y < g.dims.y && Stamps(g, design, s, p.Below()) && Cell(g, p) == 0
  }

  /** ApplyDesign: every positive cell of design inside the overlap is
      written as nextId + its value, nextId advances by design.nextId,
      stamped cells stop being attachment points and the empty cells above
      them become attachment points; validIds is left alone. */
  function WithDesign(g: Grid, design: Grid, s: Coord): (r: Grid)
    requires WellFormed(g) && WellFormed(design)
    ensures WellFormed(r) && r.dims == g.dims
    ensures forall p {:trigger Cell(r, p)} :: InBox(p, g.dims) ==>
      Cell(r, p) == if Stamps(g, design, s, p) then g.nextId + Cell(design, p.Minus(s)) else Cell(g, p)
    ensures r.nextId == g.nextId + design.nextId && r.validIds == g.validIds
    ensures forall p {:trigger p in r.attachmentPoints} :: p in r.attachmentPoints <==>
      (p in g.attachmentPoints || Raises(g, design, s, p)) && !Stamps(g, design, s, p)
  {
    BoxMembers(g.dims);
    Grid(g.dims,
         Build(g.dims, p requires InBox(p, g.dims) =>
           if Stamps(g, design, s, p) then g.nextId + Cell(design, p.Minus(s)) else Cell(g, p)),
         g.nextId + design.nextId,
         g.validIds,
         set p | p in g.attachmentPoints + Box(g.dims) &&
                 (p in g.attachmentPoints || Raises(g, design, s, p)) && !Stamps(g, design, s, p))
  }

  /** Design coordinate q lies in the overlap and is positive in both the
      design and the grid cell it would cover. */
  predicate Overlaps(g: Grid, design: Grid, s: Coord, q: Coord)
    requires WellFormed(g) && WellFormed(design) && NonNegative(s)
  {
    InBox(q, Clip(g.dims, s, design.dims)) && Cell(design, q) > 0 && Cell(g, s.Plus(q)) > 0
  }

  /** DesignCollides: some positive cell of design, inside the overlap,
      meets a positive cell of g. */
  ghost predicate Collides(g: Grid, design: Grid, s: Coord)
    requires WellFormed(g) && WellFormed(design) && NonNegative(s)
  {
    exists q :: Overlaps(g, design, s, q)
  }

  /** Stamping where the design does not collide keeps every block already
      placed. */
  lemma NoCollisionKeepsBlocks(g: Grid, design: Grid, s: Coord)
    requires WellFormed(g) && WellFormed(design) && NonNegative(s)
    requires !Collides(g, design, s)
    ensures forall p {:trigger Cell(WithDesign(g, design, s), p)} :: InBox(p, g.dims) && Cell(g, p) > 0 ==> Cell(WithDesign(g, design, s), p) == Cell(g, p)
  {
    forall p | InBox(p, g.dims) && Cell(g, p) > 0
      ensures Cell(WithDesign(g, design, s), p) == Cell(g, p)
    {
      if Stamps(g, design, s, p) {
        assert Overlaps(g, design, s, p.Minus(s));
        assert false;
      }
    }
  }

  /** The ids written by a stamp exceed every id present before it, and
      nextId stays above every id in the grid. */
  lemma StampIdsAreFresh(g: Grid, design: Grid, s: Coord)
    requires WellFormed(g) && WellFormed(design) && IdsBelowNext(g)
    ensures forall p, q :: Stamps(g, design, s, p) && InBox(q, g.dims) && Cell(g, q) != 0 ==>
      Cell(WithDesign(g, design, s), p) > Cell(g, q)
    ensures IdsBelowNext(design) && design.nextId >= 0 ==> IdsBelowNext(WithDesign(g, design, s))
  {
    var r := WithDesign(g, design, s);
    if IdsBelowNext(design) && design.nextId >= 0 {
      forall p | InBox(p, r.dims) && Cell(r, p) != 0 ensures Cell(r, p) < r.nextId {
        if Stamps(g, design, s, p) {
          assert Cell(design, p.Minus(s)) < design.nextId;
        }
      }
    }
  }

  lemma StampKeepsAttachmentsInBox(g: Grid, design: Grid, s: Coord)
    requires WellFormed(g) && WellFormed(design) && AttachmentsInBox(g)
    ensures AttachmentsInBox(WithDesign(g, design, s))
  {
  }

  /** Stamping keeps every attachment point an empty cell: stamped cells
      stop being attachment points and the raised ones were empty. */
  lemma StampKeepsAttachmentsEmpty(g: Grid, design: Grid, s: Coord)
    requires WellFormed(g) && WellFormed(design) && AttachmentsEmpty(g)
    ensures AttachmentsEmpty(WithDesign(g, design, s))
  {
    var r := WithDesign(g, design, s);
    forall p | p in r.attachmentPoints ensures InBox(p, r.dims) && Cell(r, p) == 0 {
      if p !in g.attachmentPoints {
        assert Raises(g, design, s, p);
      }
    }
  }

  // ------------------------------------------------------------ deletion

  /** A cell cleared by DeleteID(id) becomes an attachment point when it is
      on the floor or rests on a block of another id. */
  predicate Reopens(g: Grid, id: int, p: Coord)
    requires WellFormed(g) && InBox(p, g.dims)
  {
    Cell(g, p) == id &&
    (p.y == 0 || (Cell(g, p.Below()) != 0 && Cell(g, p.Below()) != id))
  }

  /** DeleteID: every cell holding id is cleared, reopened cells become
      attachment points, id is unregistered and nextId is kept. */
  function WithoutId(g: Grid, id: int): (r: Grid)
    requires WellFormed(g)
    ensures WellFormed(r) && r.dims == g.dims
    ensures forall p {:trigger Cell(r, p)} :: InBox(p, g.dims) ==>
      Cell(r, p) == if Cell(g, p) == id then 0 else Cell(g, p)
    ensures r.nextId == g.nextId && r.validIds == g.validIds - {id}
    ensures forall p {:trigger p in r.attachmentPoints} :: p in r.attachmentPoints <==>
      p in g.attachmentPoints || (InBox(p, g.dims) && Reopens(g, id, p))
  {
    BoxMembers(g.dims);
    Grid(g.dims,
         Build(g.dims, p requires InBox(p, g.dims) => if Cell(g, p) == id then 0 else Cell(g, p)),
         g.nextId,
         g.validIds - {id},
         g.attachmentPoints + set p | p in Box(g.dims) && InBox(p, g.dims) && Reopens(g, id, p))
  }

  /** Deleting the only id present leaves every cell empty. */
  lemma DeleteOnlyIdClears(g: Grid, id: int)
    requires WellFormed(g)
    requires forall p {:trigger Cell(g, p)} :: InBox(p, g.dims) ==> Cell(g, p) == 0 || Cell(g, p) == id
    ensures WithoutId(g, id).cells == EmptyGrid(g.dims).cells
  {
    var r := WithoutId(g, id);
    var e := EmptyGrid(g.dims);
    forall p | InBox(p, g.dims) ensures Indexes(r.cells, p) && Indexes(e.cells, p) && At(r.cells, p) == At(e.cells, p) {
      assert Cell(r, p) == Cell(e, p);
    }
    CellsExt(r.cells, e.cells, g.dims);
  }

  lemma DeleteKeepsInvariants(g: Grid, id: int)
    requires WellFormed(g)
    ensures AttachmentsInBox(g) ==> AttachmentsInBox(WithoutId(g, id))
    ensures IdsBelowNext(g) ==> IdsBelowNext(WithoutId(g, id))
    ensures id != 0 ==> forall p {:trigger Cell(WithoutId(g, id), p)} :: InBox(p, g.dims) ==> Cell(WithoutId(g, id), p) != id
  {
  }

  /** Deletion keeps every attachment point an empty cell: the reopened
      cells are the ones it clears. */
  lemma DeleteKeepsAttachmentsEmpty(g: Grid, id: int)
    requires WellFormed(g) && AttachmentsEmpty(g)
    ensures AttachmentsEmpty(WithoutId(g, id))
  {
    var r := WithoutId(g, id);
    forall p | p in r.attachmentPoints ensures InBox(p, r.dims) && Cell(r, p) == 0 {
      if p !in g.attachmentPoints {
        assert Reopens(g, id, p);
      }
    }
  }

  // ------------------------------------------------------------ mutation

  const MaxMutationAttempts := 3
  const NumInitMutations := 10
  const MaxPlacementAttempts := 3

  /** The three draws of one placement try: a notebook index, an axis and a
      magnitude. */
  datatype Try = Try(design: nat, axis: Axis, magnitude: int)

  /** What one call of _UnstableMutate did: placed a rotated notebook design
      after some failed tries, gave up after MaxPlacementAttempts tries, or
      deleted an id. */
  datatype Outcome =
    | Placed(failed: seq<Try>, chosen: Try, offset: Coord)
    | NoPlacement(failed: seq<Try>)
    | Deleted(id: int)

  predicate Drawable(designs: seq<Grid>, t: Try) {
    t.design < |designs| && 0 <= t.magnitude < 3 && WellFormed(designs[t.design])
  }

  /** The rotated design a try stamps. */
  function Stamp(designs: seq<Grid>, t: Try): (r: Grid)
    requires Drawable(designs, t)
    ensures WellFormed(r) && r.nextId == designs[t.design].nextId
  {
    Rotated(designs[t.design], t.axis, t.magnitude)
  }

  /** Every attachment point of g is non-negative and the rotated design
      collides at each of them: FindValidOffsetFor finds nothing. */
  ghost predicate NoRoom(g: Grid, designs: seq<Grid>, t: Try)
    requires WellFormed(g)
  {
    Drawable(designs, t) &&
    forall p {:trigger p in g.attachmentPoints} :: p in g.attachmentPoints ==> NonNegative(p) && Collides(g, Stamp(designs, t), p)
  }

  /** The outcomes _UnstableMutate can produce on g. */
  ghost predicate Admissible(g: Grid, designs: seq<Grid>, o: Outcome)
    requires WellFormed(g)
  {
    match o
    case Placed(failed, t, s) =>
      |failed| < MaxPlacementAttempts && (forall k :: 0 <= k < |failed| ==> NoRoom(g, designs, failed[k])) &&
      Drawable(designs, t) && s in g.attachmentPoints && NonNegative(s) && !Collides(g, Stamp(designs, t), s)
    case NoPlacement(failed) =>
      |failed| == MaxPlacementAttempts && forall k :: 0 <= k < |failed| ==> NoRoom(g, designs, failed[k])
    case Deleted(id) => id in g.validIds
  }

  /** The grid an admissible outcome leaves behind. */
  function Mutated(g: Grid, designs: seq<Grid>, o: Outcome): (r: Grid)
    requires WellFormed(g) && Admissible(g, designs, o)
    ensures WellFormed(r) && r.dims == g.dims
  {
    match o
    case Placed(_, t, s) => WithDesign(g, Stamp(designs, t), s)
    case NoPlacement(_) => g
    case Deleted(id) => WithoutId(g, id)
  }

  /** Mutate: up to MaxMutationAttempts outcomes, each applied to a fresh copy
      of g; the result is the first one the oracle calls stable, or g itself
      when all of them are unstable. */
  ghost predicate MutateOutcomes(g: Grid, designs: seq<Grid>, stable: Grid -> bool, outcomes: seq<Outcome>, r: Grid)
    requires WellFormed(g)
  {
    1 <= |outcomes| <= MaxMutationAttempts &&
    (forall k :: 0 <= k < |outcomes| ==> Admissible(g, designs, outcomes[k])) &&
    (forall k :: 0 <= k < |outcomes| - 1 ==> !stable(Mutated(g, designs, outcomes[k]))) &&
    var last := Mutated(g, designs, outcomes[|outcomes| - 1]);
    if stable(last) then r == last else |outcomes| == MaxMutationAttempts && r == g
  }

  ghost predicate MutantOf(g: Grid, designs: seq<Grid>, stable: Grid -> bool, r: Grid)
    requires WellFormed(g)
  {
    exists outcomes :: MutateOutcomes(g, designs, stable, outcomes, r)
  }

  /** The designs the notebook may hold: ids below their own nextId. */
  ghost predicate GoodDesigns(designs: seq<Grid>) {
    forall i :: 0 <= i < |designs| ==> WellFormed(designs[i]) && IdsBelowNext(designs[i]) && designs[i].nextId >= 0
  }

  /** A grid without registered ids can only be stamped, never deleted from,
      and stays without registered ids. */
  lemma NoIdsNoDeletion(g: Grid, designs: seq<Grid>, o: Outcome)
    requires WellFormed(g) && Admissible(g, designs, o) && g.validIds == {}
    ensures !o.Deleted? && Mutated(g, designs, o).validIds == {}
  {
  }

  lemma MutantKeepsNoIds(g: Grid, designs: seq<Grid>, stable: Grid -> bool, r: Grid)
    requires WellFormed(g) && MutantOf(g, designs, stable, r) && g.validIds == {}
    ensures r.validIds == {}
  {
    var outcomes :| MutateOutcomes(g, designs, stable, outcomes, r);
    NoIdsNoDeletion(g, designs, outcomes[|outcomes| - 1]);
  }

  /** Every admissible outcome keeps the grid invariants and never lowers
      nextId. */
  lemma MutatedKeepsInvariants(g: Grid, designs: seq<Grid>, o: Outcome)
    requires WellFormed(g) && Admissible(g, designs, o) && GoodDesigns(designs)
    requires AttachmentsInBox(g) && AttachmentsEmpty(g) && IdsBelowNext(g)
    ensures var r := Mutated(g, designs, o);
      AttachmentsInBox(r) && AttachmentsEmpty(r) && IdsBelowNext(r) && r.nextId >= g.nextId
  {
    match o
    case Placed(_, t, s) =>
      var d := designs[t.design];
      RotateTurnsKeepsIdsBelowNext(d, t.axis, TurnCount(t.magnitude));
      StampIdsAreFresh(g, Stamp(designs, t), s);
      StampKeepsAttachmentsInBox(g, Stamp(designs, t), s);
      StampKeepsAttachmentsEmpty(g, Stamp(designs, t), s);
    case NoPlacement(_) =>
    case Deleted(id) =>
      DeleteKeepsInvariants(g, id);
      DeleteKeepsAttachmentsEmpty(g, id);
  }

  lemma MutantKeepsInvariants(g: Grid, designs: seq<Grid>, stable: Grid -> bool, r: Grid)
    requires WellFormed(g) && MutantOf(g, designs, stable, r) && GoodDesigns(designs)
    requires AttachmentsInBox(g) && AttachmentsEmpty(g) && IdsBelowNext(g)
    ensures WellFormed(r) && r.dims == g.dims && AttachmentsInBox(r) && AttachmentsEmpty(r) && IdsBelowNext(r)
    ensures r.nextId >= g.nextId
  {
    var outcomes :| MutateOutcomes(g, designs, stable, outcomes, r);
    MutatedKeepsInvariants(g, designs, outcomes[|outcomes| - 1]);
  }

  /** Outcomes that Mutate has tried and the oracle has rejected. */
  ghost predicate AllUnstable(g: Grid, designs: seq<Grid>, stable: Grid -> bool, outcomes: seq<Outcome>)
    requires WellFormed(g)
  {
    forall k :: 0 <= k < |outcomes| ==> Admissible(g, designs, outcomes[k]) && !stable(Mutated(g, designs, outcomes[k]))
  }

  lemma RejectOutcome(g: Grid, designs: seq<Grid>, stable: Grid -> bool, outcomes: seq<Outcome>, o: Outcome)
    requires WellFormed(g) && AllUnstable(g, designs, stable, outcomes)
    requires Admissible(g, designs, o) && !stable(Mutated(g, designs, o))
    ensures AllUnstable(g, designs, stable, outcomes + [o])
  {
    var s := outcomes + [o];
    assert forall k :: 0 <= k < |outcomes| ==> s[k] == outcomes[k];
  }

  /** Mutate's loop ending on a stable outcome o after the rejected ones. */
  lemma StableMutant(g: Grid, designs: seq<Grid>, stable: Grid -> bool, outcomes: seq<Outcome>, o: Outcome)
    requires WellFormed(g) && |outcomes| < MaxMutationAttempts && AllUnstable(g, designs, stable, outcomes)
    requires Admissible(g, designs, o) && stable(Mutated(g, designs, o))
    ensures MutantOf(g, designs, stable, Mutated(g, designs, o))
  {
    assert MutateOutcomes(g, designs, stable, outcomes + [o], Mutated(g, designs, o));
  }

  /** Mutate's loop giving up after MaxMutationAttempts rejected outcomes. */
  lemma NoStableMutant(g: Grid, designs: seq<Grid>, stable: Grid -> bool, outcomes: seq<Outcome>)
    requires WellFormed(g) && |outcomes| == MaxMutationAttempts && AllUnstable(g, designs, stable, outcomes)
    ensures MutantOf(g, designs, stable, g)
  {
    assert MutateOutcomes(g, designs, stable, outcomes, g);
  }

  /** Randomize: NumInitMutations mutants in a row, starting from an empty
      grid of dimensions d. */
  ghost predicate ChainPrefix(d: Coord, designs: seq<Grid>, stable: Grid -> bool, chain: seq<Grid>) {
    NonNegative(d) && 1 <= |chain| && chain[0] == EmptyGrid(d) &&
    (forall k :: 0 <= k < |chain| ==> WellFormed(chain[k])) &&
    forall k {:trigger chain[k + 1]} :: 0 <= k < |chain| - 1 ==> MutantOf(chain[k], designs, stable, chain[k + 1])
  }

  ghost predicate RandomChain(d: Coord, designs: seq<Grid>, stable: Grid -> bool, chain: seq<Grid>) {
    ChainPrefix(d, designs, stable, chain) && |chain| == NumInitMutations + 1
  }

  lemma ExtendChain(d: Coord, designs: seq<Grid>, stable: Grid -> bool, chain: seq<Grid>, r: Grid)
    requires ChainPrefix(d, designs, stable, chain) && WellFormed(r)
    requires MutantOf(chain[|chain| - 1], designs, stable, r)
    ensures ChainPrefix(d, designs, stable, chain + [r])
  {
    var c := chain + [r];
    assert forall k :: 0 <= k < |chain| ==> c[k] == chain[k];
    forall k | 0 <= k < |c| - 1 ensures MutantOf(c[k], designs, stable, c[k + 1]) {
      if k == |chain| - 1 {
        assert c[k + 1] == r;
      } else {
        assert MutantOf(chain[k], designs, stable, chain[k + 1]);
      }
    }
  }

  ghost predicate RandomOf(d: Coord, designs: seq<Grid>, stable: Grid -> bool, r: Grid) {
    exists chain :: RandomChain(d, designs, stable, chain) && chain[NumInitMutations] == r
  }

  lemma {:induction false} ChainKeepsInvariants(d: Coord, designs: seq<Grid>, stable: Grid -> bool, chain: seq<Grid>, n: nat)
    requires RandomChain(d, designs, stable, chain) && GoodDesigns(designs) && d.y >= 1 && n <= NumInitMutations
    ensures chain[n].dims == d && chain[n].validIds == {} && AttachmentsInBox(chain[n]) && IdsBelowNext(chain[n])
    ensures AttachmentsEmpty(chain[n])
  {
    if n > 0 {
      ChainKeepsInvariants(d, designs, stable, chain, n - 1);
      var k := n - 1;
      assert MutantOf(chain[k], designs, stable, chain[k + 1]);
      MutantKeepsNoIds(chain[n - 1], designs, stable, chain[n]);
      MutantKeepsInvariants(chain[n - 1], designs, stable, chain[n]);
    }
  }

  /** A randomized blueprint has the requested dimensions, no registered id,
      attachment points inside the grid and ids below nextId. */
  lemma RandomKeepsInvariants(d: Coord, designs: seq<Grid>, stable: Grid -> bool, r: Grid)
    requires RandomOf(d, designs, stable, r) && GoodDesigns(designs) && d.y >= 1
    ensures WellFormed(r) && r.dims == d && r.validIds == {} && AttachmentsInBox(r) && IdsBelowNext(r)
    ensures AttachmentsEmpty(r)
  {
    var chain :| RandomChain(d, designs, stable, chain) && chain[NumInitMutations] == r;
    ChainKeepsInvariants(d, designs, stable, chain, NumInitMutations);
  }

  // ------------------------------------------------------------ notebook

  /** InitDesignNotebook: beams of one, two and three blocks along x, each
      built from an empty grid by AddBlock(., 1). */
  function Notebook(): (r: seq<Grid>)
    ensures |r| == 3
  {
    var o := Coord(0, 0, 0);
    [ WithBlock(EmptyGrid(Coord(1, 1, 1)), o, 1),
      WithBlock(WithBlock(EmptyGrid(Coord(2, 1, 1)), o, 1), Coord(1, 0, 0), 1),
      WithBlock(WithBlock(WithBlock(EmptyGrid(Coord(3, 1, 1)), o, 1), Coord(1, 0, 0), 1), Coord(2, 0, 0), 1) ]
  }

  /** Notebook entry i is a full beam of length i + 1 made of id 1. */
  lemma NotebookBeams()
    ensures GoodDesigns(Notebook())
    ensures forall i :: 0 <= i < 3 ==>
      var d := Notebook()[i];
      d.dims == Coord(i + 1, 1, 1) && d.nextId == 2 && d.validIds == {1} &&
      forall p {:trigger Cell(d, p)} :: InBox(p, d.dims) ==> Cell(d, p) == 1
  {
    var nb := Notebook();
    forall i | 0 <= i < 3 ensures forall p {:trigger Cell(nb[i], p)} :: InBox(p, nb[i].dims) ==> Cell(nb[i], p) == 1 {
      forall p | InBox(p, nb[i].dims) ensures Cell(nb[i], p) == 1 {
        assert p.x == 0 || p.x == 1 || p.x == 2;
        assert p == Coord(p.x, 0, 0);
      }
    }
  }
}
