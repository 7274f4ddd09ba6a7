/** The Blueprint class: a voxel grid of sub-design ids stored in a 3-D
    array, with the next free sub-design id, the registered ids and the
    attachment points where new pieces may be placed. Every operation is
    proved against the value-level functions of module Voxels through
    Model(). */
module Blueprints {
  import opened Voxels

  datatype Option<T> = None | Some(value: T)

  const DeleteChance: real := 0.1

  /** p comes before (x, y, z) in the order of the x, then y, then z loops. */
  predicate Before(p: Coord, x: int, y: int, z: int) {
    p.x < x || (p.x == x && (p.y < y || (p.y == y && p.z < z)))
  }

  /** The cell at p once ApplyDesign has visited every design coordinate
      before (x, y, z). */
  function StampedSoFar(g: Grid, d: Grid, s: Coord, p: Coord, x: int, y: int, z: int): int
    requires WellFormed(g) && WellFormed(d) && InBox(p, g.dims)
  {
    if Stamps(g, d, s, p) && Before(p.Minus(s), x, y, z) then g.nextId + Cell(d, p.Minus(s)) else Cell(g, p)
  }

  /** p is an attachment point once ApplyDesign has visited every design
      coordinate before (x, y, z). */
  predicate AttachedSoFar(g: Grid, d: Grid, s: Coord, p: Coord, x: int, y: int, z: int)
    requires WellFormed(g) && WellFormed(d)
  {
    (p in g.attachmentPoints || (Raises(g, d, s, p) && Before(p.Below().Minus(s), x, y, z))) &&
    !(Stamps(g, d, s, p) && Before(p.Minus(s), x, y, z))
  }

  /** How visiting design coordinate (x, y, z) changes the stamped cells. */
  lemma StampedStep(g: Grid, d: Grid, s: Coord, x: int, y: int, z: int, p: Coord)
    requires WellFormed(g) && WellFormed(d) && InBox(p, g.dims)
    ensures StampedSoFar(g, d, s, p, x, y, z + 1) ==
      if p == s.Plus(Coord(x, y, z)) && Stamps(g, d, s, p) then g.nextId + Cell(d, Coord(x, y, z))
      else StampedSoFar(g, d, s, p, x, y, z)
  {
    if p != s.Plus(Coord(x, y, z)) {
      assert p.Minus(s) != Coord(x, y, z);
    }
  }

  /** How visiting design coordinate (x, y, z) changes the attachment
      points. */
  lemma AttachedStep(g: Grid, d: Grid, s: Coord, x: int, y: int, z: int, p: Coord)
    requires WellFormed(g) && WellFormed(d)
    ensures var here := s.Plus(Coord(x, y, z));
      AttachedSoFar(g, d, s, p, x, y, z + 1) <==>
      if Stamps(g, d, s, here) then
        p != here &&
        (AttachedSoFar(g, d, s, p, x, y, z) ||
         (p == here.Above() && p.y < g.dims.y && Cell(g, p) == 0))
      else AttachedSoFar(g, d, s, p, x, y, z)
  {
    var q := Coord(x, y, z);
    var here := s.Plus(q);
    if p != here {
      assert p.Minus(s) != q;
    }
    if p != here.Above() {
      assert p.Below().Minus(s) != q;
    }
  }

  /** One step of ApplyDesign's attachment bookkeeping: when the design
      cell at (x, y, z) is a block, the free cell above the stamped cell
      becomes an attachment point and the stamped cell stops being one. */
  method AttachCell(ghost g: Grid, ghost dg: Grid, s: Coord, x: int, y: int, z: int, v: int, aboveFree: bool, ap: set<Coord>)
    returns (ap': set<Coord>)
    requires WellFormed(g) && WellFormed(dg) && NonNegative(s)
    requires InBox(Coord(x, y, z), Clip(g.dims, s, dg.dims))
    requires v == Cell(dg, Coord(x, y, z))
    requires var above := s.Plus(Coord(x, y, z)).Above();
      aboveFree <==> above.y < g.dims.y && Cell(g, above) == 0
    requires forall p :: p in ap <==> AttachedSoFar(g, dg, s, p, x, y, z)
    ensures forall p :: p in ap' <==> AttachedSoFar(g, dg, s, p, x, y, z + 1)
  {
    var q := Coord(x, y, z);
    var here := s.Plus(q);
    ap' := ap;
    if v > 0 {
      assert Stamps(g, dg, s, here) by { assert here.Minus(s) == q; }
      if aboveFree {
        ap' := ap' + {here.Above()};
      }
      if here in ap' {
        ap' := ap' - {here};
      }
    }
    forall p ensures p in ap' <==> AttachedSoFar(g, dg, s, p, x, y, z + 1) {
      AttachedStep(g, dg, s, x, y, z, p);
    }
  }

  /** One step of ApplyDesign's stamping: a positive design cell v at
      (x, y, z) is written, offset by base, at s + (x, y, z) of a. Also
      reports whether the cell above the stamped one is inside the grid and
      empty. */
  method StampCell(a: array3<int>, ghost g: Grid, ghost dg: Grid, s: Coord, base: int, x: int, y: int, z: int, v: int)
    returns (aboveFree: bool)
    requires WellFormed(g) && WellFormed(dg) && NonNegative(s) && base == g.nextId
    requires a.Length0 == g.dims.x && a.Length1 == g.dims.y && a.Length2 == g.dims.z
    requires InBox(Coord(x, y, z), Clip(g.dims, s, dg.dims))
    requires v == Cell(dg, Coord(x, y, z))
    requires forall p {:trigger a[p.x, p.y, p.z]} {:trigger StampedSoFar(g, dg, s, p, x, y, z)} :: InBox(p, g.dims) ==> a[p.x, p.y, p.z] == StampedSoFar(g, dg, s, p, x, y, z)
    modifies a
    ensures forall p {:trigger a[p.x, p.y, p.z]} {:trigger StampedSoFar(g, dg, s, p, x, y, z + 1)} :: InBox(p, g.dims) ==> a[p.x, p.y, p.z] == StampedSoFar(g, dg, s, p, x, y, z + 1)
    ensures var above := s.Plus(Coord(x, y, z)).Above();
      aboveFree <==> above.y < g.dims.y && Cell(g, above) == 0
  {
    var q := Coord(x, y, z);
    var here := s.Plus(q);
    var above := here.Above();
    if above.y < g.dims.y {
      assert a[above.x, above.y, above.z] == Cell(g, above);
    }
    if v > 0 {
      assert Stamps(g, dg, s, here) by { assert here.Minus(s) == q; }
      a[here.x, here.y, here.z] := base + v;
    }
    aboveFree := above.y < a.Length1 && a[above.x, above.y, above.z] == 0;
    forall p | InBox(p, g.dims) ensures a[p.x, p.y, p.z] == StampedSoFar(g, dg, s, p, x, y, z + 1) {
      StampedStep(g, dg, s, x, y, z, p);
    }
  }

  /** The fixed inputs of ApplyDesign's loops: a holds the cells of g, e
      the cells of design dg, and base is g's next free id. */
  ghost predicate StampInputs(a: array3<int>, e: array3<int>, g: Grid, dg: Grid, s: Coord, base: int)
    reads e
  {
    WellFormed(g) && WellFormed(dg) && NonNegative(s) && base == g.nextId && a != e &&
    a.Length0 == g.dims.x && a.Length1 == g.dims.y && a.Length2 == g.dims.z &&
    e.Length0 == dg.dims.x && e.Length1 == dg.dims.y && e.Length2 == dg.dims.z &&
    forall q {:trigger e[q.x, q.y, q.z]} {:trigger Cell(dg, q)} :: InBox(q, dg.dims) ==> e[q.x, q.y, q.z] == Cell(dg, q)
  }

  /** Two loop positions that have visited the same design coordinates
      leave the same cells and attachment points. */
  lemma SameProgress(g: Grid, d: Grid, s: Coord, x: int, y: int, z: int, x': int, y': int, z': int)
    requires WellFormed(g) && WellFormed(d)
    requires forall q :: InBox(q, Clip(g.dims, s, d.dims)) ==> (Before(q, x, y, z) <==> Before(q, x', y', z'))
    ensures forall p {:trigger StampedSoFar(g, d, s, p, x, y, z)} {:trigger StampedSoFar(g, d, s, p, x', y', z')} :: InBox(p, g.dims) ==> StampedSoFar(g, d, s, p, x, y, z) == StampedSoFar(g, d, s, p, x', y', z')
    ensures forall p :: AttachedSoFar(g, d, s, p, x, y, z) <==> AttachedSoFar(g, d, s, p, x', y', z')
  {
  }

  /** Once every design coordinate is visited, the loops have produced
      WithDesign. */
  lemma FullProgress(g: Grid, d: Grid, s: Coord, x: int)
    requires WellFormed(g) && WellFormed(d)
    requires forall q :: InBox(q, Clip(g.dims, s, d.dims)) ==> Before(q, x, 0, 0)
    ensures forall p {:trigger StampedSoFar(g, d, s, p, x, 0, 0)} {:trigger Cell(WithDesign(g, d, s), p)} :: InBox(p, g.dims) ==> StampedSoFar(g, d, s, p, x, 0, 0) == Cell(WithDesign(g, d, s), p)
    ensures forall p :: AttachedSoFar(g, d, s, p, x, 0, 0) <==> p in WithDesign(g, d, s).attachmentPoints
  {
  }

  /** ApplyDesign's innermost loop: stamps the design row (x, y, _). */
  method StampRow(a: array3<int>, e: array3<int>, ghost g: Grid, ghost dg: Grid, s: Coord, base: int,
                  clip: Coord, x: int, y: int, ap: set<Coord>)
    returns (ap': set<Coord>)
    requires StampInputs(a, e, g, dg, s, base) && clip == Clip(g.dims, s, dg.dims)
    requires 0 <= x < clip.x && 0 <= y < clip.y
    requires forall p {:trigger a[p.x, p.y, p.z]} {:trigger StampedSoFar(g, dg, s, p, x, y, 0)} :: InBox(p, g.dims) ==> a[p.x, p.y, p.z] == StampedSoFar(g, dg, s, p, x, y, 0)
    requires forall p :: p in ap <==> AttachedSoFar(g, dg, s, p, x, y, 0)
    modifies a
    ensures forall p {:trigger a[p.x, p.y, p.z]} {:trigger StampedSoFar(g, dg, s, p, x, y + 1, 0)} :: InBox(p, g.dims) ==> a[p.x, p.y, p.z] == StampedSoFar(g, dg, s, p, x, y + 1, 0)
    ensures forall p :: p in ap' <==> AttachedSoFar(g, dg, s, p, x, y + 1, 0)
  {
    ap' := ap;
    var z := 0;
    while z < clip.z
      invariant 0 <= z && (z == 0 || z <= clip.z)
      invariant forall p {:trigger a[p.x, p.y, p.z]} {:trigger StampedSoFar(g, dg, s, p, x, y, z)} :: InBox(p, g.dims) ==> a[p.x, p.y, p.z] == StampedSoFar(g, dg, s, p, x, y, z)
      invariant forall p :: p in ap' <==> AttachedSoFar(g, dg, s, p, x, y, z)
    {
      var v := e[x, y, z];
      var aboveFree := StampCell(a, g, dg, s, base, x, y, z, v);
      ap' := AttachCell(g, dg, s, x, y, z, v, aboveFree, ap');
      z := z + 1;
    }
    SameProgress(g, dg, s, x, y, z, x, y + 1, 0);
  }

  /** ApplyDesign's middle loop: stamps the design plane (x, _, _). */
  method StampPlane(a: array3<int>, e: array3<int>, ghost g: Grid, ghost dg: Grid, s: Coord, base: int,
                    clip: Coord, x: int, ap: set<Coord>)
    returns (ap': set<Coord>)
    requires StampInputs(a, e, g, dg, s, base) && clip == Clip(g.dims, s, dg.dims)
    requires 0 <= x < clip.x
    requires forall p {:trigger a[p.x, p.y, p.z]} {:trigger StampedSoFar(g, dg, s, p, x, 0, 0)} :: InBox(p, g.dims) ==> a[p.x, p.y, p.z] == StampedSoFar(g, dg, s, p, x, 0, 0)
    requires forall p :: p in ap <==> AttachedSoFar(g, dg, s, p, x, 0, 0)
    modifies a
    ensures forall p {:trigger a[p.x, p.y, p.z]} {:trigger StampedSoFar(g, dg, s, p, x + 1, 0, 0)} :: InBox(p, g.dims) ==> a[p.x, p.y, p.z] == StampedSoFar(g, dg, s, p, x + 1, 0, 0)
    ensures forall p :: p in ap' <==> AttachedSoFar(g, dg, s, p, x + 1, 0, 0)
  {
    ap' := ap;
    var y := 0;
    while y < clip.y
      invariant 0 <= y && (y == 0 || y <= clip.y)
      invariant forall p {:trigger a[p.x, p.y, p.z]} {:trigger StampedSoFar(g, dg, s, p, x, y, 0)} :: InBox(p, g.dims) ==> a[p.x, p.y, p.z] == StampedSoFar(g, dg, s, p, x, y, 0)
      invariant forall p :: p in ap' <==> AttachedSoFar(g, dg, s, p, x, y, 0)
    {
      ap' := StampRow(a, e, g, dg, s, base, clip, x, y, ap');
      y := y + 1;
    }
    SameProgress(g, dg, s, x, y, 0, x + 1, 0, 0);
  }

  /** ApplyDesign's outer loop: stamps the whole overlap of the design and
      the grid, ending with WithDesign's cells and attachment points. */
  method StampAll(a: array3<int>, e: array3<int>, ghost g: Grid, ghost dg: Grid, s: Coord, base: int,
                  ap: set<Coord>)
    returns (ap': set<Coord>)
    requires StampInputs(a, e, g, dg, s, base) && ap == g.attachmentPoints
    requires forall p {:trigger a[p.x, p.y, p.z]} {:trigger Cell(g, p)} :: InBox(p, g.dims) ==> a[p.x, p.y, p.z] == Cell(g, p)
    modifies a
    ensures forall p {:trigger a[p.x, p.y, p.z]} {:trigger Cell(WithDesign(g, dg, s), p)} :: InBox(p, g.dims) ==> a[p.x, p.y, p.z] == Cell(WithDesign(g, dg, s), p)
    ensures ap' == WithDesign(g, dg, s).attachmentPoints
  {
    var clip := Clip(Coord(a.Length0, a.Length1, a.Length2), s, Coord(e.Length0, e.Length1, e.Length2));
    ap' := ap;
    var x := 0;
    while x < clip.x
      invariant 0 <= x && (x == 0 || x <= clip.x)
      invariant forall p {:trigger a[p.x, p.y, p.z]} {:trigger StampedSoFar(g, dg, s, p, x, 0, 0)} :: InBox(p, g.dims) ==> a[p.x, p.y, p.z] == StampedSoFar(g, dg, s, p, x, 0, 0)
      invariant forall p :: p in ap' <==> AttachedSoFar(g, dg, s, p, x, 0, 0)
    {
      ap' := StampPlane(a, e, g, dg, s, base, clip, x, ap');
      x := x + 1;
    }
    FullProgress(g, dg, s, x);
    ghost var r := WithDesign(g, dg, s);
    assert ap' == r.attachmentPoints;
  }

  /** The cell at p once DeleteID has visited every cell before (x, y, z). */
  function ClearedSoFar(g: Grid, id: int, p: Coord, x: int, y: int, z: int): int
    requires WellFormed(g) && InBox(p, g.dims)
  {
    if Before(p, x, y, z) && Cell(g, p) == id then 0 else Cell(g, p)
  }

  /** p is an attachment point once DeleteID has visited every cell before
      (x, y, z). */
  predicate ReopenedSoFar(g: Grid, id: int, p: Coord, x: int, y: int, z: int)
    requires WellFormed(g)
  {
    p in g.attachmentPoints || (InBox(p, g.dims) && Before(p, x, y, z) && Reopens(g, id, p))
  }

  /** a holds the cells of g with id cleared from every cell before
      (x, y, z). */
  ghost predicate ClearedUpTo(a: array3<int>, g: Grid, id: int, x: int, y: int, z: int)
    reads a
    requires WellFormed(g)
  {
    a.Length0 == g.dims.x && a.Length1 == g.dims.y && a.Length2 == g.dims.z &&
    forall p {:trigger a[p.x, p.y, p.z]} {:trigger ClearedSoFar(g, id, p, x, y, z)} ::
      InBox(p, g.dims) ==> a[p.x, p.y, p.z] == ClearedSoFar(g, id, p, x, y, z)
  }

  /** One step of DeleteID: the cell (x, y, z) is cleared when it holds id,
      and becomes an attachment point when it is on the floor or rests on a
      block of another id. */
  method ClearCell(a: array3<int>, ghost g: Grid, id: int, x: int, y: int, z: int, ap: set<Coord>)
    returns (ap': set<Coord>)
    requires WellFormed(g) && InBox(Coord(x, y, z), g.dims)
    requires ClearedUpTo(a, g, id, x, y, z)
    requires forall p :: p in ap <==> ReopenedSoFar(g, id, p, x, y, z)
    modifies a
    ensures ClearedUpTo(a, g, id, x, y, z + 1)
    ensures forall p :: p in ap' <==> ReopenedSoFar(g, id, p, x, y, z + 1)
  {
    var here := Coord(x, y, z);
    if y > 0 {
      assert a[x, y - 1, z] == ClearedSoFar(g, id, here.Below(), x, y, z);
    }
    ap' := ap;
    if a[x, y, z] == id {
      a[x, y, z] := 0;
      if y == 0 || (a[x, y - 1, z] != 0 && a[x, y - 1, z] != id) {
        ap' := ap' + {here};
      }
    }
    forall p | InBox(p, g.dims) ensures a[p.x, p.y, p.z] == ClearedSoFar(g, id, p, x, y, z + 1) {
      if p != here {
        assert a[p.x, p.y, p.z] == ClearedSoFar(g, id, p, x, y, z);
      }
    }
    forall p ensures p in ap' <==> ReopenedSoFar(g, id, p, x, y, z + 1) {
      if p != here {
        assert Before(p, x, y, z + 1) == Before(p, x, y, z);
      }
    }
  }

  /** Two loop positions that have visited the same cells leave the same
      cells and attachment points. */
  lemma SameClearing(g: Grid, id: int, x: int, y: int, z: int, x': int, y': int, z': int)
    requires WellFormed(g)
    requires forall q :: InBox(q, g.dims) ==> (Before(q, x, y, z) <==> Before(q, x', y', z'))
    ensures forall p {:trigger ClearedSoFar(g, id, p, x, y, z)} {:trigger ClearedSoFar(g, id, p, x', y', z')} ::
      InBox(p, g.dims) ==> ClearedSoFar(g, id, p, x, y, z) == ClearedSoFar(g, id, p, x', y', z')
    ensures forall p :: ReopenedSoFar(g, id, p, x, y, z) <==> ReopenedSoFar(g, id, p, x', y', z')
  {
  }

  /** DeleteID's innermost loop: the row (x, y, _). */
  method ClearRow(a: array3<int>, ghost g: Grid, id: int, x: int, y: int, ap: set<Coord>)
    returns (ap': set<Coord>)
    requires WellFormed(g) && 0 <= x < g.dims.x && 0 <= y < g.dims.y
    requires ClearedUpTo(a, g, id, x, y, 0)
    requires forall p :: p in ap <==> ReopenedSoFar(g, id, p, x, y, 0)
    modifies a
    ensures ClearedUpTo(a, g, id, x, y + 1, 0)
    ensures forall p :: p in ap' <==> ReopenedSoFar(g, id, p, x, y + 1, 0)
  {
    ap' := ap;
    var z := 0;
    while z < a.Length2
      invariant 0 <= z <= a.Length2
      invariant ClearedUpTo(a, g, id, x, y, z)
      invariant forall p :: p in ap' <==> ReopenedSoFar(g, id, p, x, y, z)
    {
      ap' := ClearCell(a, g, id, x, y, z, ap');
      z := z + 1;
    }
    SameClearing(g, id, x, y, z, x, y + 1, 0);
  }

  /** DeleteID's middle loop: the plane (x, _, _). */
  method ClearPlane(a: array3<int>, ghost g: Grid, id: int, x: int, ap: set<Coord>)
    returns (ap': set<Coord>)
    requires WellFormed(g) && 0 <= x < g.dims.x
    requires ClearedUpTo(a, g, id, x, 0, 0)
    requires forall p :: p in ap <==> ReopenedSoFar(g, id, p, x, 0, 0)
    modifies a
    ensures ClearedUpTo(a, g, id, x + 1, 0, 0)
    ensures forall p :: p in ap' <==> ReopenedSoFar(g, id, p, x + 1, 0, 0)
  {
    ap' := ap;
    var y := 0;
    while y < a.Length1
      invariant 0 <= y <= a.Length1
      invariant ClearedUpTo(a, g, id, x, y, 0)
      invariant forall p :: p in ap' <==> ReopenedSoFar(g, id, p, x, y, 0)
    {
      ap' := ClearRow(a, g, id, x, y, ap');
      y := y + 1;
    }
    SameClearing(g, id, x, y, 0, x + 1, 0, 0);
  }

  /** DeleteID's outer loop over the whole grid, ending with WithoutId's
      cells and attachment points. */
  method ClearAll(a: array3<int>, ghost g: Grid, id: int, ap: set<Coord>)
    returns (ap': set<Coord>)
    requires WellFormed(g) && ap == g.attachmentPoints
    requires ClearedUpTo(a, g, id, 0, 0, 0)
    modifies a
    ensures forall p {:trigger a[p.x, p.y, p.z]} {:trigger Cell(WithoutId(g, id), p)} ::
      InBox(p, g.dims) ==> a[p.x, p.y, p.z] == Cell(WithoutId(g, id), p)
    ensures ap' == WithoutId(g, id).attachmentPoints
  {
    ap' := ap;
    var x := 0;
    while x < a.Length0
      invariant 0 <= x <= a.Length0
      invariant ClearedUpTo(a, g, id, x, 0, 0)
      invariant forall p :: p in ap' <==> ReopenedSoFar(g, id, p, x, 0, 0)
    {
      ap' := ClearPlane(a, g, id, x, ap');
      x := x + 1;
    }
    ghost var r := WithoutId(g, id);
    forall p | InBox(p, g.dims) ensures a[p.x, p.y, p.z] == Cell(r, p) {
      assert a[p.x, p.y, p.z] == ClearedSoFar(g, id, p, x, 0, 0);
    }
    assert ap' == r.attachmentPoints;
  }

  /** The cells (x, y, 0..n) of a. */
  function Row(a: array3<int>, x: int, y: int, n: int): (r: seq<int>)
    reads a
    requires 0 <= x < a.Length0 && 0 <= y < a.Length1 && 0 <= n <= a.Length2
    ensures |r| == n && forall z :: 0 <= z < n ==> r[z] == a[x, y, z]
    decreases n
  {
    if n == 0 then [] else Row(a, x, y, n - 1) + [a[x, y, n - 1]]
  }

  /** The rows (x, 0..n) of a. */
  function Plane(a: array3<int>, x: int, n: int): (r: seq<seq<int>>)
    reads a
    requires 0 <= x < a.Length0 && 0 <= n <= a.Length1
    ensures |r| == n && forall y :: 0 <= y < n ==> r[y] == Row(a, x, y, a.Length2)
    decreases n
  {
    if n == 0 then [] else Plane(a, x, n - 1) + [Row(a, x, n - 1, a.Length2)]
  }

  /** The planes 0..n of a. */
  function Planes(a: array3<int>, n: int): (r: Cells)
    reads a
    requires 0 <= n <= a.Length0
    ensures |r| == n && forall x :: 0 <= x < n ==> r[x] == Plane(a, x, a.Length1)
    decreases n
  {
    if n == 0 then [] else Planes(a, n - 1) + [Plane(a, n - 1, a.Length1)]
  }

  /** The loop state of FindValidOffsetFor: the points left to try are
      among the attachment points, every point collected so far is a valid
      one, and every point already tried either collides or was collected. */
  ghost predicate Scanned(g: Grid, bg: Grid, points: set<Coord>, todo: set<Coord>, found: seq<Coord>)
  {
    WellFormed(g) && WellFormed(bg) && (forall p {:trigger p in points} :: p in points ==> NonNegative(p)) &&
    todo <= points &&
    (forall k {:trigger found[k]} :: 0 <= k < |found| ==> found[k] in points && !Collides(g, bg, found[k])) &&
    (forall p {:trigger p in todo} :: p in points && p !in todo ==> Collides(g, bg, p) || p in found)
  }

  /** Once every point is tried, none was collected exactly when all collide. */
  lemma ScanDone(g: Grid, bg: Grid, points: set<Coord>, found: seq<Coord>)
    requires Scanned(g, bg, points, {}, found)
    ensures |found| == 0 <==> forall p :: p in points ==> Collides(g, bg, p)
  {
    if |found| > 0 {
      assert found[0] in points && !Collides(g, bg, found[0]);
    } else {
      forall p | p in points ensures Collides(g, bg, p) {
        var none: set<Coord> := {};
        assert p !in none;
      }
    }
  }

  /** Trying one more point keeps Scanned. */
  lemma ScanStep(g: Grid, bg: Grid, points: set<Coord>, todo: set<Coord>, found: seq<Coord>, c: Coord, hit: bool)
    requires Scanned(g, bg, points, todo, found) && c in todo && (hit <==> Collides(g, bg, c))
    ensures Scanned(g, bg, points, todo - {c}, if hit then found else found + [c])
  {
    var found' := if hit then found else found + [c];
    forall k | 0 <= k < |found'| ensures found'[k] in points && !Collides(g, bg, found'[k]) {
      if k < |found| { assert found'[k] == found[k]; }
    }
    forall p | p in points && p !in todo - {c} ensures Collides(g, bg, p) || p in found' {
      if p != c { assert p !in todo; }
    }
  }

  class Blueprint {
    var blocks: array3<int>
    var nextSubdesignId: int
    var dims: Coord
    var validIds: set<int>
    var attachmentPoints: set<Coord>

    /** The array has the recorded extents and attachment points are never
        negative. */
    ghost predicate Valid()
      reads this, blocks
    {
      blocks.Length0 == dims.x && blocks.Length1 == dims.y && blocks.Length2 == dims.z &&
      forall p {:trigger p in attachmentPoints} :: p in attachmentPoints ==> NonNegative(p)
    }

    function Cells(): (c: Cells)
      reads this, blocks
      requires Valid()
      ensures Shaped(c, dims)
      ensures forall p {:trigger At(c, p)} {:trigger blocks[p.x, p.y, p.z]} :: InBox(p, dims) ==> Indexes(c, p) && At(c, p) == blocks[p.x, p.y, p.z]
    {
      var c := Planes(blocks, blocks.Length0);
      assert forall x :: 0 <= x < dims.x ==> c[x] == Plane(blocks, x, blocks.Length1);
      assert forall p :: InBox(p, dims) ==> Indexes(c, p) && c[p.x][p.y][p.z] == blocks[p.x, p.y, p.z];
      c
    }

    /** The whole state of the blueprint as a value. */
    function Model(): (g: Grid)
      reads this, blocks
      requires Valid()
      ensures WellFormed(g) && g.dims == dims
      ensures forall p {:trigger Cell(g, p)} {:trigger blocks[p.x, p.y, p.z]} :: InBox(p, dims) ==> Cell(g, p) == blocks[p.x, p.y, p.z]
      ensures g.nextId == nextSubdesignId && g.validIds == validIds
      ensures g.attachmentPoints == attachmentPoints
    {
      Grid(dims, Cells(), nextSubdesignId, validIds, attachmentPoints)
    }

    /** The cells are those of r once the array agrees with r everywhere. */
    lemma CellsAre(r: Grid)
      requires Valid() && WellFormed(r) && r.dims == dims
      requires forall p {:trigger Cell(r, p)} {:trigger blocks[p.x, p.y, p.z]} :: InBox(p, dims) ==> blocks[p.x, p.y, p.z] == Cell(r, p)
      ensures Cells() == r.cells
    {
      var c := Cells();
      forall p | InBox(p, dims) ensures Indexes(c, p) && Indexes(r.cells, p) && At(c, p) == At(r.cells, p) {
        assert blocks[p.x, p.y, p.z] == Cell(r, p);
      }
      CellsExt(c, r.cells, dims);
    }

    /** A grid of the given extents: all cells empty, no ids, and the floor
        layer as attachment points. */
    constructor (dimX: int, dimY: int, dimZ: int)
      requires 0 <= dimX && 0 <= dimY && 0 <= dimZ
      ensures Valid() && fresh(blocks)
      ensures Model() == EmptyGrid(Coord(dimX, dimY, dimZ))
    {
      blocks := new int[dimX, dimY, dimZ]((x, y, z) => 0);
      nextSubdesignId := 0;
      dims := Coord(dimX, dimY, dimZ);
      validIds := {};
      var floor: set<Coord> := {};
      for x := 0 to dimX
        invariant forall p: Coord {:trigger p in floor} :: p in floor <==> p.y == 0 && 0 <= p.x < x && 0 <= p.z < dimZ
      {
        for z := 0 to dimZ
          invariant forall p: Coord {:trigger p in floor} :: p in floor <==>
            p.y == 0 && 0 <= p.z < dimZ && (0 <= p.x < x || (p.x == x && p.z < z))
        {
          floor := floor + {Coord(x, 0, z)};
        }
      }
      attachmentPoints := floor;
      new;
      var e := EmptyGrid(dims);
      CellsAre(e);
      assert attachmentPoints == e.attachmentPoints;
    }

    /** A fresh copy of the cell array. */
    method GetBlocks() returns (r: array3<int>)
      requires Valid()
      ensures fresh(r)
      ensures r.Length0 == dims.x && r.Length1 == dims.y && r.Length2 == dims.z
      ensures forall p {:trigger r[p.x, p.y, p.z]} {:trigger Cell(Model(), p)} :: InBox(p, dims) ==> r[p.x, p.y, p.z] == Cell(Model(), p)
    {
      r := new int[blocks.Length0, blocks.Length1, blocks.Length2];
      forall x, y, z | 0 <= x < r.Length0 && 0 <= y < r.Length1 && 0 <= z < r.Length2 {
        r[x, y, z] := blocks[x, y, z];
      }
    }

    method GetDims() returns (d: Coord)
      requires Valid()
      ensures d == Model().dims
    {
      d := dims;
    }

    /** Cell coord becomes id; id is registered and nextSubdesignId moves past
        it. A coordinate outside the array is an error in the source. */
    method AddBlock(coord: Coord, id: int)
      requires Valid() && InBox(coord, dims)
      modifies this, blocks
      ensures Valid() && blocks == old(blocks)
      ensures Model() == WithBlock(old(Model()), coord, id)
    {
      ghost var g := Model();
      blocks[coord.x, coord.y, coord.z] := id;
      if id !in validIds {
        validIds := validIds + {id};
      }
      if nextSubdesignId <= id {
        nextSubdesignId := id + 1;
      }
      CellsAre(WithBlock(g, coord, id));
    }

    /** Copies the whole state into target, whose array must have the same
        extents (mismatched extents only log in the source, and the array
        copy then goes wrong). */
    method CopyInto(target: Blueprint)
      requires Valid() && target.Valid() && target.dims == dims
      modifies target, target.blocks
      ensures target.Valid() && target.blocks == old(target.blocks)
      ensures target.Model() == old(Model())
      ensures Valid() && Model() == old(Model())
    {
      ghost var g := Model();
      var src := blocks;
      var dst := target.blocks;
      forall x, y, z | 0 <= x < dst.Length0 && 0 <= y < dst.Length1 && 0 <= z < dst.Length2 {
        dst[x, y, z] := src[x, y, z];
      }
      target.nextSubdesignId := nextSubdesignId;
      target.dims := dims;
      target.validIds := validIds;
      target.attachmentPoints := attachmentPoints;
      target.CellsAre(g);
      CellsAre(g);
    }

    /** _ApplyTransformation: moves the cell at p to f(p) in a fresh array
        of extents newDims. f must be a bijection between the two boxes with
        inverse inv (the source only uses it with quarter-turns). */
    method ApplyTransformation(f: Coord -> Coord, inv: Coord -> Coord, newDims: Coord)
      requires Valid() && NonNegative(newDims)
      requires forall p {:trigger f(p)} :: InBox(p, dims) ==> InBox(f(p), newDims) && inv(f(p)) == p
      requires forall q {:trigger inv(q)} :: InBox(q, newDims) ==> InBox(inv(q), dims) && f(inv(q)) == q
      modifies this
      ensures Valid() && fresh(blocks) && dims == newDims
      ensures forall q {:trigger blocks[q.x, q.y, q.z]} :: InBox(q, newDims) ==> blocks[q.x, q.y, q.z] == Cell(old(Model()), inv(q))
      ensures nextSubdesignId == old(nextSubdesignId) && validIds == old(validIds)
      ensures attachmentPoints == old(attachmentPoints)
    {
      var nb := new int[newDims.x, newDims.y, newDims.z]((x, y, z) => 0);
      var src := blocks;
      var d := dims;
      var x := 0;
      while x < d.x
        modifies nb
        invariant 0 <= x <= d.x
        invariant forall q {:trigger nb[q.x, q.y, q.z]} :: InBox(q, newDims) ==>
          nb[q.x, q.y, q.z] == if Before(inv(q), x, 0, 0) then src[inv(q).x, inv(q).y, inv(q).z] else 0
      {
        var y := 0;
        while y < d.y
          modifies nb
          invariant 0 <= y <= d.y
          invariant forall q {:trigger nb[q.x, q.y, q.z]} :: InBox(q, newDims) ==>
            nb[q.x, q.y, q.z] == if Before(inv(q), x, y, 0) then src[inv(q).x, inv(q).y, inv(q).z] else 0
        {
          var z := 0;
          while z < d.z
            modifies nb
            invariant 0 <= z <= d.z
            invariant forall q {:trigger nb[q.x, q.y, q.z]} :: InBox(q, newDims) ==>
              nb[q.x, q.y, q.z] == if Before(inv(q), x, y, z) then src[inv(q).x, inv(q).y, inv(q).z] else 0
          {
            var c := f(Coord(x, y, z));
            nb[c.x, c.y, c.z] := src[x, y, z];
            z := z + 1;
          }
          y := y + 1;
        }
        x := x + 1;
      }
      blocks := nb;
      dims := newDims;
    }

    /** _Rotate: one counter-clockwise quarter-turn about axis. */
    method TurnOnce(axis: Axis)
      requires Valid()
      modifies this
      ensures Valid() && fresh(blocks)
      ensures Model() == RotateOnce(old(Model()), axis)
    {
      ghost var g := Model();
      var d := dims;
      RotationBijective(d, axis);
      ApplyTransformation(p => RotatedCoord(p, d, axis), q => SourceCoord(q, d, axis), RotatedDims(d, axis));
      ghost var r := RotateOnce(g, axis);
      forall q | InBox(q, dims) ensures blocks[q.x, q.y, q.z] == Cell(r, q) {
        RotateOnceCell(g, axis, q);
      }
      CellsAre(r);
    }

    /** The quarter-turn loop of Rotate, applied to this blueprint: n
        turns, none when n <= 0. */
    method TurnTimes(axis: Axis, n: int)
      requires Valid()
      modifies this
      ensures Valid() && (fresh(blocks) || blocks == old(blocks))
      ensures Model() == RotateTurns(old(Model()), axis, if n > 0 then n else 0)
    {
      ghost var g := Model();
      ghost var ts := TurnSeq(g, axis, if n > 0 then n else 0);
      var i := 0;
      while i < n
        invariant 0 <= i && (i == 0 || i <= n)
        invariant Valid() && (fresh(blocks) || blocks == old(blocks))
        invariant Model() == ts[i]
      {
        TurnOnce(axis);
        i := i + 1;
      }
      TurnSeqLast(g, axis, i);
    }

    /** A rotated copy: the loop runs while i < magnitude % 4 with C#'s
        truncating %, so a negative magnitude gives an unrotated copy. The
        receiver is left unchanged. */
    method Rotate(axis: Axis, magnitude: int) returns (rotated: Blueprint)
      requires Valid()
      ensures fresh(rotated) && fresh(rotated.blocks) && rotated.Valid()
      ensures rotated.Model() == Rotated(Model(), axis, magnitude)
    {
      rotated := new Blueprint(dims.x, dims.y, dims.z);
      CopyInto(rotated);
      rotated.TurnTimes(axis, CsRemainder(magnitude, 4));
    }

    /** Design coordinate q is inside the overlap and positive in both
        arrays. */
    predicate ArrayOverlap(design: Blueprint, s: Coord, q: Coord)
      reads this, blocks, design, design.blocks
      requires Valid() && design.Valid() && NonNegative(s)
    {
      InBox(q, Clip(dims, s, design.dims)) &&
      design.blocks[q.x, q.y, q.z] > 0 && blocks[q.x + s.x, q.y + s.y, q.z + s.z] > 0
    }

    lemma OverlapsOnArrays(design: Blueprint, s: Coord)
      requires Valid() && design.Valid() && NonNegative(s)
      ensures forall q :: Overlaps(Model(), design.Model(), s, q) <==> ArrayOverlap(design, s, q)
    {
      var m, dm := Model(), design.Model();
      forall q ensures Overlaps(m, dm, s, q) <==> ArrayOverlap(design, s, q) {
        if InBox(q, Clip(dims, s, design.dims)) {
          var p := s.Plus(q);
          assert p == Coord(q.x + s.x, q.y + s.y, q.z + s.z) && InBox(p, dims) && InBox(q, design.dims);
          assert Cell(dm, q) == design.blocks[q.x, q.y, q.z] && Cell(m, p) == blocks[p.x, p.y, p.z];
        }
      }
    }

    /** Whether design, placed at s, puts a positive cell on a positive cell
        of this grid inside the overlap. */
    method DesignCollides(design: Blueprint, s: Coord) returns (b: bool)
      requires Valid() && design.Valid() && NonNegative(s)
      ensures b <==> Collides(Model(), design.Model(), s)
    {
      var clip := Clip(dims, s, design.dims);
      var x := 0;
      while x < clip.x
        invariant x == 0 || x <= clip.x
        invariant forall q :: ArrayOverlap(design, s, q) ==> !Before(q, x, 0, 0)
      {
        var y := 0;
        while y < clip.y
          invariant y == 0 || y <= clip.y
          invariant forall q :: ArrayOverlap(design, s, q) ==> !Before(q, x, y, 0)
        {
          var z := 0;
          while z < clip.z
            invariant z == 0 || z <= clip.z
            invariant forall q :: ArrayOverlap(design, s, q) ==> !Before(q, x, y, z)
          {
            if design.blocks[x, y, z] > 0 && blocks[x + s.x, y + s.y, z + s.z] > 0 {
              assert ArrayOverlap(design, s, Coord(x, y, z));
              OverlapsOnArrays(design, s);
              return true;
            }
            z := z + 1;
          }
          y := y + 1;
        }
        x := x + 1;
      }
      OverlapsOnArrays(design, s);
      return false;
    }

    /** Stamps design at s: positive design cells inside the overlap get
        nextSubdesignId + their value, nextSubdesignId advances by the
        design's, and attachment points follow the new blocks. validIds is
        not touched. */
    method ApplyDesign(design: Blueprint, s: Coord)
      requires Valid() && design.Valid() && NonNegative(s)
      requires design != this && design.blocks != blocks
      modifies this, blocks
      ensures Valid() && blocks == old(blocks)
      ensures Model() == WithDesign(old(Model()), design.Model(), s)
    {
      ghost var g := Model();
      ghost var dg := design.Model();
      var base := nextSubdesignId;
      nextSubdesignId := nextSubdesignId + design.nextSubdesignId;
      var ap := StampAll(blocks, design.blocks, g, dg, s, base, attachmentPoints);
      attachmentPoints := ap;
      ghost var r := WithDesign(g, dg, s);
      CellsAre(r);
      assert attachmentPoints == r.attachmentPoints;
    }

    /** Clears every cell holding id, reopens the cleared cells that are on
        the floor or rest on a block of another id, and unregisters id. */
    method DeleteID(id: int)
      requires Valid()
      modifies this, blocks
      ensures Valid() && blocks == old(blocks)
      ensures Model() == WithoutId(old(Model()), id)
    {
      ghost var g := Model();
      attachmentPoints := ClearAll(blocks, g, id, attachmentPoints);
      validIds := validIds - {id};
      ghost var r := WithoutId(g, id);
      CellsAre(r);
      assert attachmentPoints == r.attachmentPoints;
    }

    /** Some attachment point where b does not collide, or None exactly when
        b collides at every attachment point. Which valid point is returned
        is a random draw. */
    method FindValidOffsetFor(b: Blueprint) returns (r: Option<Coord>)
      requires Valid() && b.Valid()
      ensures r.None? <==> forall p :: p in attachmentPoints ==> Collides(Model(), b.Model(), p)
      ensures r.Some? ==> r.value in attachmentPoints && !Collides(Model(), b.Model(), r.value)
    {
      ghost var g := Model();
      ghost var bg := b.Model();
      var points := attachmentPoints;
      var todo := points;
      var validCoords: seq<Coord> := [];
      while todo != {}
        invariant Scanned(g, bg, points, todo, validCoords)
        decreases |todo|
      {
        var c :| c in todo;
        var hit := DesignCollides(b, c);
        assert hit <==> Collides(g, bg, c);
        ScanStep(g, bg, points, todo, validCoords, c, hit);
        if !hit {
          validCoords := validCoords + [c];
        }
        todo := todo - {c};
      }
      ScanDone(g, bg, points, validCoords);
      if |validCoords| > 0 {
        var k :| 0 <= k < |validCoords|;
        r := Some(validCoords[k]);
      } else {
        r := None;
      }
    }

    /** Mutate: on a fresh blueprint of the same dimensions, up to
        MaxMutationAttempts times copy this blueprint into it and apply
        _UnstableMutate, stopping at the first result the stability oracle
        accepts; after MaxMutationAttempts unstable results the fresh
        blueprint is left as a plain copy. */
    method Mutate(notebook: seq<Blueprint>, ghost designs: seq<Grid>, stable: Grid -> bool) returns (mutant: Blueprint)
      requires Valid() && |notebook| > 0 && |designs| == |notebook|
      requires forall k {:trigger notebook[k]} :: 0 <= k < |notebook| ==> notebook[k].Valid() && notebook[k].Model() == designs[k]
      ensures fresh(mutant) && fresh(mutant.blocks) && mutant.Valid() && mutant.dims == dims
      ensures MutantOf(Model(), designs, stable, mutant.Model())
    {
      ghost var g := Model();
      mutant := new Blueprint(dims.x, dims.y, dims.z);
      ghost var outcomes: seq<Outcome> := [];
      var i := 0;
      while true
        invariant 0 <= i <= MaxMutationAttempts && |outcomes| == i
        invariant fresh(mutant) && fresh(mutant.blocks) && mutant.Valid() && mutant.dims == dims
        invariant AllUnstable(g, designs, stable, outcomes)
        decreases MaxMutationAttempts - i
      {
        if i >= MaxMutationAttempts {
          CopyInto(mutant);
          NoStableMutant(g, designs, stable, outcomes);
          return;
        }
        var o := MutateOnce(mutant, notebook, designs);
        if stable(mutant.Model()) {
          StableMutant(g, designs, stable, outcomes, o);
          return;
        }
        RejectOutcome(g, designs, stable, outcomes, o);
        outcomes := outcomes + [o];
        i := i + 1;
      }
    }

    /** One pass of Mutate's loop: copy this blueprint into mutant and apply
        _UnstableMutate to the copy. */
    method MutateOnce(mutant: Blueprint, notebook: seq<Blueprint>, ghost designs: seq<Grid>) returns (o: Outcome)
      requires Valid() && mutant.Valid() && mutant.dims == dims && mutant != this && mutant.blocks != blocks
      requires |notebook| > 0 && |designs| == |notebook|
      requires forall k {:trigger notebook[k]} :: 0 <= k < |notebook| ==>
        notebook[k] != mutant && notebook[k].blocks != mutant.blocks && notebook[k].Valid() && notebook[k].Model() == designs[k]
      modifies mutant, mutant.blocks
      ensures mutant.Valid() && mutant.blocks == old(mutant.blocks) && mutant.dims == dims
      ensures Admissible(Model(), designs, o) && mutant.Model() == Mutated(Model(), designs, o)
    {
      CopyInto(mutant);
      o := mutant.UnstableMutate(notebook, designs);
    }

    /** MutateInto: the mutant is copied into target. */
    method MutateInto(target: Blueprint, notebook: seq<Blueprint>, ghost designs: seq<Grid>, stable: Grid -> bool)
      requires Valid() && target.Valid() && target.dims == dims && |notebook| > 0 && |designs| == |notebook|
      requires forall k {:trigger notebook[k]} :: 0 <= k < |notebook| ==> notebook[k].Valid() && notebook[k].Model() == designs[k]
      modifies target, target.blocks
      ensures target.Valid() && target.blocks == old(target.blocks)
      ensures MutantOf(old(Model()), designs, stable, target.Model())
    {
      var mutant := Mutate(notebook, designs, stable);
      mutant.CopyInto(target);
    }

    /** Randomize: NumInitMutations mutations in a row, starting from an
        empty blueprint of the same dimensions. No step registers an id, so
        the result has none and the deleting branch is never taken. */
    method Randomize(notebook: seq<Blueprint>, ghost designs: seq<Grid>, stable: Grid -> bool) returns (randomized: Blueprint)
      requires Valid() && |notebook| > 0 && |designs| == |notebook|
      requires forall k {:trigger notebook[k]} :: 0 <= k < |notebook| ==> notebook[k].Valid() && notebook[k].Model() == designs[k]
      ensures fresh(randomized) && fresh(randomized.blocks) && randomized.Valid() && randomized.dims == dims
      ensures RandomOf(dims, designs, stable, randomized.Model())
      ensures randomized.validIds == {}
    {
      randomized := new Blueprint(dims.x, dims.y, dims.z);
      ghost var chain := [randomized.Model()];
      var i := 0;
      while i < NumInitMutations
        invariant 0 <= i <= NumInitMutations && |chain| == i + 1
        invariant fresh(randomized) && fresh(randomized.blocks) && randomized.Valid() && randomized.dims == dims
        invariant randomized.Model() == chain[i] && randomized.validIds == {}
        invariant ChainPrefix(dims, designs, stable, chain)
      {
        var next := randomized.Mutate(notebook, designs, stable);
        MutantKeepsNoIds(chain[i], designs, stable, next.Model());
        ExtendChain(dims, designs, stable, chain, next.Model());
        chain := chain + [next.Model()];
        randomized := next;
        i := i + 1;
      }
      assert RandomChain(dims, designs, stable, chain);
    }

    /** RandomizeInto: the randomized blueprint is copied into target. */
    method RandomizeInto(target: Blueprint, notebook: seq<Blueprint>, ghost designs: seq<Grid>, stable: Grid -> bool)
      requires Valid() && target.Valid() && target.dims == dims && |notebook| > 0 && |designs| == |notebook|
      requires forall k {:trigger notebook[k]} :: 0 <= k < |notebook| ==> notebook[k].Valid() && notebook[k].Model() == designs[k]
      modifies target, target.blocks
      ensures target.Valid() && target.blocks == old(target.blocks)
      ensures RandomOf(old(dims), designs, stable, target.Model()) && target.validIds == {}
    {
      var randomized := Randomize(notebook, designs, stable);
      randomized.CopyInto(target);
    }

    /** The notebook's single block. */
    static method SingleBlock() returns (b: Blueprint)
      ensures fresh(b) && fresh(b.blocks) && b.Valid() && b.Model() == Notebook()[0]
    {
      b := new Blueprint(1, 1, 1);
      b.AddBlock(Coord(0, 0, 0), 1);
    }

    /** The notebook's 2x1 brick. */
    static method Brick2() returns (b: Blueprint)
      ensures fresh(b) && fresh(b.blocks) && b.Valid() && b.Model() == Notebook()[1]
    {
      b := new Blueprint(2, 1, 1);
      b.AddBlock(Coord(0, 0, 0), 1);
      b.AddBlock(Coord(1, 0, 0), 1);
    }

    /** The notebook's 3x1 brick. */
    static method Brick3() returns (b: Blueprint)
      ensures fresh(b) && fresh(b.blocks) && b.Valid() && b.Model() == Notebook()[2]
    {
      b := new Blueprint(3, 1, 1);
      b.AddBlock(Coord(0, 0, 0), 1);
      b.AddBlock(Coord(1, 0, 0), 1);
      b.AddBlock(Coord(2, 0, 0), 1);
    }

    /** InitDesignNotebook: three fresh beams along x of one, two and three
        blocks, every block set with id 1. */
    static method InitDesignNotebook() returns (notebook: seq<Blueprint>)
      ensures |notebook| == 3
      ensures fresh(notebook[0]) && fresh(notebook[0].blocks) && notebook[0].Valid() && notebook[0].Model() == Notebook()[0]
      ensures fresh(notebook[1]) && fresh(notebook[1].blocks) && notebook[1].Valid() && notebook[1].Model() == Notebook()[1]
      ensures fresh(notebook[2]) && fresh(notebook[2].blocks) && notebook[2].Valid() && notebook[2].Model() == Notebook()[2]
    {
      var single := SingleBlock();
      var brick2 := Brick2();
      var brick3 := Brick3();
      notebook := [single, brick2, brick3];
    }

    /** _UnstableMutate: with no registered id, or when the roll exceeds
        DeleteChance, up to MaxPlacementAttempts tries each draw a notebook
        design, an axis and a magnitude in [0, 3), rotate the design and
        stamp it at a collision-free attachment point; otherwise a drawn
        registered id is deleted. The draws are arbitrary choices here. */
    method UnstableMutate(notebook: seq<Blueprint>, ghost designs: seq<Grid>) returns (o: Outcome)
      requires Valid() && |notebook| > 0 && |designs| == |notebook|
      requires forall k {:trigger notebook[k]} :: 0 <= k < |notebook| ==>
        notebook[k] != this && notebook[k].blocks != blocks && notebook[k].Valid() && notebook[k].Model() == designs[k]
      modifies this, blocks
      ensures Valid() && blocks == old(blocks)
      ensures Admissible(old(Model()), designs, o)
      ensures Model() == Mutated(old(Model()), designs, o)
    {
      var roll: real :| 0.0 <= roll < 1.0;
      if validIds == {} || roll > DeleteChance {
        o := PlaceDesign(notebook, designs);
      } else {
        assert (forall i :: i !in validIds) ==> validIds == {};
        var id :| id in validIds;
        DeleteID(id);
        o := Deleted(id);
      }
    }

    /** One try of the adding branch: rotate the drawn design, look for a
        collision-free attachment point and stamp the design there. */
    method TryPlace(design: Blueprint, axis: Axis, magnitude: int) returns (r: Option<Coord>)
      requires Valid() && design.Valid() && design != this && design.blocks != blocks
      modifies this, blocks
      ensures Valid() && blocks == old(blocks)
      ensures r.None? ==> Model() == old(Model())
      ensures r.None? ==>
        forall p {:trigger p in old(Model()).attachmentPoints} :: p in old(Model()).attachmentPoints ==>
          Collides(old(Model()), Rotated(design.Model(), axis, magnitude), p)
      ensures r.Some? ==> r.value in old(Model()).attachmentPoints
      ensures r.Some? ==> !Collides(old(Model()), Rotated(design.Model(), axis, magnitude), r.value)
      ensures r.Some? ==> Model() == WithDesign(old(Model()), Rotated(design.Model(), axis, magnitude), r.value)
    {
      ghost var g, dg := Model(), Rotated(design.Model(), axis, magnitude);
      var rotated := design.Rotate(axis, magnitude);
      assert rotated.Model() == dg && Model() == g;
      r := FindValidOffsetFor(rotated);
      if r.Some? {
        assert NonNegative(r.value);
        ApplyDesign(rotated, r.value);
        assert Model() == WithDesign(g, dg, r.value);
      }
    }

    /** The adding branch of _UnstableMutate. */
    method PlaceDesign(notebook: seq<Blueprint>, ghost designs: seq<Grid>) returns (o: Outcome)
      requires Valid() && |notebook| > 0 && |designs| == |notebook|
      requires forall k {:trigger notebook[k]} :: 0 <= k < |notebook| ==>
        notebook[k] != this && notebook[k].blocks != blocks && notebook[k].Valid() && notebook[k].Model() == designs[k]
      modifies this, blocks
      ensures Valid() && blocks == old(blocks)
      ensures !o.Deleted? && Admissible(old(Model()), designs, o)
      ensures Model() == Mutated(old(Model()), designs, o)
    {
      ghost var g := Model();
      var failed: seq<Try> := [];
      while |failed| < MaxPlacementAttempts
        invariant |failed| <= MaxPlacementAttempts
        invariant Valid() && blocks == old(blocks) && Model() == g
        invariant forall k :: 0 <= k < |failed| ==> NoRoom(g, designs, failed[k])
      {
        var i :| 0 <= i < |notebook|;
        var axis: Axis :| true;
        var mag :| 0 <= mag < 3;
        var t := Try(i, axis, mag);
        assert notebook[i].Model() == designs[i] && Drawable(designs, t);
        ghost var stamp := Stamp(designs, t);
        assert stamp == Rotated(notebook[i].Model(), axis, mag);
        var placement := TryPlace(notebook[i], axis, mag);
        if placement.Some? {
          o := Placed(failed, t, placement.value);
          assert Model() == WithDesign(g, stamp, placement.value);
          return;
        }
        assert NoRoom(g, designs, t);
        failed := failed + [t];
      }
      o := NoPlacement(failed);
    }
  }
}
