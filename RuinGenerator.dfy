/** The evolutionary search for ruins: blueprints are scored by the volume
    that has a roof over it, and each round ranks the population by score,
    keeps the elite, samples survivors through the score cdf and fills the
    rest with mutants of sampled individuals. */
module Ruins {
  import opened Voxels
  import opened Blueprints
  import Utils

  // ------------------------------------------------------------ covered volume

  /** Some cell strictly above height y in column (x, z) holds a positive id. */
  ghost predicate CoverAbove(g: Grid, x: int, y: int, z: int)
    requires WellFormed(g) && 0 <= x < g.dims.x && 0 <= z < g.dims.z && -1 <= y
  {
    exists h {:trigger Cell(g, Coord(x, h, z))} :: y < h < g.dims.y && Cell(g, Coord(x, h, z)) > 0
  }

  /** A non-positive cell with a positive cell somewhere above it. */
  ghost predicate Covered(g: Grid, p: Coord)
    requires WellFormed(g) && InBox(p, g.dims)
  {
    Cell(g, p) <= 0 && CoverAbove(g, p.x, p.y, p.z)
  }

  /** The covered cells of column (x, z) at heights y and above. */
  ghost function CoveredFrom(g: Grid, x: int, z: int, y: int): nat
    requires WellFormed(g) && 0 <= x < g.dims.x && 0 <= z < g.dims.z && 0 <= y <= g.dims.y
    decreases g.dims.y - y
  {
    if y == g.dims.y then 0
    else (if Covered(g, Coord(x, y, z)) then 1 else 0) + CoveredFrom(g, x, z, y + 1)
  }

  /** The covered cells of the columns (x, z') with z' < n. */
  ghost function CoveredInSlice(g: Grid, x: int, n: int): nat
    requires WellFormed(g) && 0 <= x < g.dims.x && 0 <= n <= g.dims.z
  {
    if n == 0 then 0 else CoveredInSlice(g, x, n - 1) + CoveredFrom(g, x, n - 1, 0)
  }

  /** The covered cells of the slices x' < n. */
  ghost function CoveredUpTo(g: Grid, n: int): nat
    requires WellFormed(g) && 0 <= n <= g.dims.x
  {
    if n == 0 then 0 else CoveredUpTo(g, n - 1) + CoveredInSlice(g, n - 1, g.dims.z)
  }

  /** The number of covered cells of the grid. */
  ghost function CoveredVolume(g: Grid): nat
    requires WellFormed(g)
  {
    CoveredUpTo(g, g.dims.x)
  }

  /** Walking a column downwards, the cover above y - 1 is the cover above y
      or the cell at y itself. */
  lemma CoverAboveStep(g: Grid, x: int, y: int, z: int)
    requires WellFormed(g) && 0 <= x < g.dims.x && 0 <= z < g.dims.z && 0 <= y < g.dims.y
    ensures CoverAbove(g, x, y - 1, z) <==> CoverAbove(g, x, y, z) || Cell(g, Coord(x, y, z)) > 0
  {
    if CoverAbove(g, x, y - 1, z) {
      var h :| y - 1 < h < g.dims.y && Cell(g, Coord(x, h, z)) > 0;
      assert h == y || CoverAbove(g, x, y, z);
    }
  }

  /** The top cell of a column is never covered, so a column holds at most
      dims.y - 1 covered cells. */
  lemma {:induction false} CoveredFromBound(g: Grid, x: int, z: int, y: int)
    requires WellFormed(g) && 0 <= x < g.dims.x && 0 <= z < g.dims.z && 0 <= y < g.dims.y
    ensures CoveredFrom(g, x, z, y) <= g.dims.y - 1 - y
    decreases g.dims.y - y
  {
    if y == g.dims.y - 1 {
      assert !CoverAbove(g, x, y, z);
      assert CoveredFrom(g, x, z, y + 1) == 0;
    } else {
      CoveredFromBound(g, x, z, y + 1);
    }
  }

  lemma MulStep(n: int, c: int)
    ensures n * c == (n - 1) * c + c
  {
  }

  lemma {:induction false} CoveredInSliceBound(g: Grid, x: int, n: int)
    requires WellFormed(g) && 0 <= x < g.dims.x && 0 <= n <= g.dims.z && g.dims.y >= 1
    ensures CoveredInSlice(g, x, n) <= n * (g.dims.y - 1)
  {
    if n > 0 {
      CoveredInSliceBound(g, x, n - 1);
      CoveredFromBound(g, x, n - 1, 0);
      MulStep(n, g.dims.y - 1);
    }
  }

  lemma {:induction false} CoveredUpToBound(g: Grid, n: int)
    requires WellFormed(g) && 0 <= n <= g.dims.x && g.dims.y >= 1
    ensures CoveredUpTo(g, n) <= n * (g.dims.z * (g.dims.y - 1))
  {
    if n > 0 {
      CoveredUpToBound(g, n - 1);
      CoveredInSliceBound(g, n - 1, g.dims.z);
      MulStep(n, g.dims.z * (g.dims.y - 1));
    }
  }

  /** The covered volume lies within 0 .. dims.x * (dims.y - 1) * dims.z. */
  lemma CoveredVolumeBound(g: Grid)
    requires WellFormed(g) && g.dims.y >= 1
    ensures CoveredVolume(g) <= g.dims.x * (g.dims.y - 1) * g.dims.z
  {
    CoveredUpToBound(g, g.dims.x);
    MulRegroup(g.dims.x, g.dims.y - 1, g.dims.z);
  }

  lemma MulRegroup(a: int, b: int, c: int)
    ensures a * (c * b) == a * b * c
  {
    calc {
      a * (c * b);
      a * (b * c);
      a * b * c;
    }
  }

  /** An empty grid covers nothing. */
  lemma {:induction false} EmptyCoversNothing(d: Coord, n: int)
    requires NonNegative(d) && 0 <= n <= d.x
    ensures CoveredUpTo(EmptyGrid(d), n) == 0
  {
    var g := EmptyGrid(d);
    if n > 0 {
      EmptyCoversNothing(d, n - 1);
      EmptySliceCoversNothing(d, n - 1, d.z);
    }
  }

  lemma {:induction false} EmptySliceCoversNothing(d: Coord, x: int, n: int)
    requires NonNegative(d) && 0 <= x < d.x && 0 <= n <= d.z
    ensures CoveredInSlice(EmptyGrid(d), x, n) == 0
  {
    if n > 0 {
      EmptySliceCoversNothing(d, x, n - 1);
      EmptyColumnCoversNothing(d, x, n - 1, 0);
    }
  }

  lemma {:induction false} EmptyColumnCoversNothing(d: Coord, x: int, z: int, y: int)
    requires NonNegative(d) && 0 <= x < d.x && 0 <= z < d.z && 0 <= y <= d.y
    ensures CoveredFrom(EmptyGrid(d), x, z, y) == 0
    decreases d.y - y
  {
    var g := EmptyGrid(d);
    if y < d.y {
      EmptyColumnCoversNothing(d, x, z, y + 1);
    }
  }

  lemma EmptyGridScoresZero(d: Coord)
    requires NonNegative(d)
    ensures CoveredVolume(EmptyGrid(d)) == 0
  {
    EmptyCoversNothing(d, d.x);
  }

  /** Grids with the same dimensions and cells have the same covered volume:
      the score ignores ids, nextId and attachment points. */
  ghost predicate SameCells(g: Grid, h: Grid)
    requires WellFormed(g) && WellFormed(h)
  {
    g.dims == h.dims && forall p {:trigger Cell(g, p)} {:trigger Cell(h, p)} :: InBox(p, g.dims) ==> Cell(g, p) == Cell(h, p)
  }

  lemma {:induction false} SameCellsSameColumn(g: Grid, h: Grid, x: int, z: int, y: int)
    requires WellFormed(g) && WellFormed(h) && SameCells(g, h)
    requires 0 <= x < g.dims.x && 0 <= z < g.dims.z && 0 <= y <= g.dims.y
    ensures CoveredFrom(g, x, z, y) == CoveredFrom(h, x, z, y)
    decreases g.dims.y - y
  {
    if y < g.dims.y {
      SameCellsSameColumn(g, h, x, z, y + 1);
      assert Cell(g, Coord(x, y, z)) == Cell(h, Coord(x, y, z));
      if CoverAbove(g, x, y, z) {
        var k :| y < k < g.dims.y && Cell(g, Coord(x, k, z)) > 0;
        assert Cell(h, Coord(x, k, z)) > 0;
      }
      if CoverAbove(h, x, y, z) {
        var k :| y < k < h.dims.y && Cell(h, Coord(x, k, z)) > 0;
        assert Cell(g, Coord(x, k, z)) > 0;
      }
    }
  }

  lemma {:induction false} SameCellsSameSlice(g: Grid, h: Grid, x: int, n: int)
    requires WellFormed(g) && WellFormed(h) && SameCells(g, h) && 0 <= x < g.dims.x && 0 <= n <= g.dims.z
    ensures CoveredInSlice(g, x, n) == CoveredInSlice(h, x, n)
  {
    if n > 0 {
      SameCellsSameSlice(g, h, x, n - 1);
      SameCellsSameColumn(g, h, x, n - 1, 0);
    }
  }

  lemma {:induction false} SameCellsSameUpTo(g: Grid, h: Grid, n: int)
    requires WellFormed(g) && WellFormed(h) && SameCells(g, h) && 0 <= n <= g.dims.x
    ensures CoveredUpTo(g, n) == CoveredUpTo(h, n)
  {
    if n > 0 {
      SameCellsSameUpTo(g, h, n - 1);
      SameCellsSameSlice(g, h, n - 1, g.dims.z);
    }
  }

  lemma SameCellsSameScore(g: Grid, h: Grid)
    requires WellFormed(g) && WellFormed(h) && SameCells(g, h)
    ensures CoveredVolume(g) == CoveredVolume(h)
  {
    SameCellsSameUpTo(g, h, g.dims.x);
  }

  // ------------------------------------------------------------ scanning

  /** The innermost loop of CalcCoveredVolume: column (x, z) from the top
      down, with has_cover set by the first positive cell; total grows by
      one for every non-positive cell below it. */
  method ScanColumn(blocks: array3<int>, ghost g: Grid, x: int, z: int, total: int) returns (total': int)
    requires WellFormed(g) && 0 <= x < g.dims.x && 0 <= z < g.dims.z
    requires blocks.Length0 == g.dims.x && blocks.Length1 == g.dims.y && blocks.Length2 == g.dims.z
    requires forall p {:trigger blocks[p.x, p.y, p.z]} {:trigger Cell(g, p)} :: InBox(p, g.dims) ==> blocks[p.x, p.y, p.z] == Cell(g, p)
    ensures total' == total + CoveredFrom(g, x, z, 0)
  {
    total' := total;
    var hasCover := false;
    var y := blocks.Length1 - 1;
    while y >= 0
      invariant -1 <= y < g.dims.y
      invariant hasCover <==> CoverAbove(g, x, y, z)
      invariant total' == total + CoveredFrom(g, x, z, y + 1)
    {
      var here := Coord(x, y, z);
      assert blocks[here.x, here.y, here.z] == Cell(g, here);
      CoverAboveStep(g, x, y, z);
      if blocks[x, y, z] > 0 {
        hasCover := true;
      } else if hasCover {
        total' := total' + 1;
      }
      y := y - 1;
    }
  }

  method ScanSlice(blocks: array3<int>, ghost g: Grid, x: int, total: int) returns (total': int)
    requires WellFormed(g) && 0 <= x < g.dims.x
    requires blocks.Length0 == g.dims.x && blocks.Length1 == g.dims.y && blocks.Length2 == g.dims.z
    requires forall p {:trigger blocks[p.x, p.y, p.z]} {:trigger Cell(g, p)} :: InBox(p, g.dims) ==> blocks[p.x, p.y, p.z] == Cell(g, p)
    ensures total' == total + CoveredInSlice(g, x, g.dims.z)
  {
    total' := total;
    var z := 0;
    while z < blocks.Length2
      invariant 0 <= z <= g.dims.z
      invariant total' == total + CoveredInSlice(g, x, z)
    {
      total' := ScanColumn(blocks, g, x, z, total');
      z := z + 1;
    }
  }

  method ScanGrid(blocks: array3<int>, ghost g: Grid) returns (total: int)
    requires WellFormed(g)
    requires blocks.Length0 == g.dims.x && blocks.Length1 == g.dims.y && blocks.Length2 == g.dims.z
    requires forall p {:trigger blocks[p.x, p.y, p.z]} {:trigger Cell(g, p)} :: InBox(p, g.dims) ==> blocks[p.x, p.y, p.z] == Cell(g, p)
    ensures total == CoveredVolume(g)
  {
    total := 0;
    var x := 0;
    while x < blocks.Length0
      invariant 0 <= x <= g.dims.x
      invariant total == CoveredUpTo(g, x)
    {
      total := ScanSlice(blocks, g, x, total);
      x := x + 1;
    }
  }

  /** CalcCoveredVolume: the number of non-positive cells with a positive
      cell somewhere above them in their column. */
  method CalcCoveredVolume(blueprint: Blueprint) returns (total: int)
    requires blueprint.Valid()
    ensures total == CoveredVolume(blueprint.Model())
  {
    var blocks := blueprint.GetBlocks();
    total := ScanGrid(blocks, blueprint.Model());
  }

  /** CalculateScore: the covered volume, the only heuristic in use. */
  method CalculateScore(blueprint: Blueprint) returns (score: int)
    requires blueprint.Valid()
    ensures score == CoveredVolume(blueprint.Model())
    ensures blueprint.Model().dims.y >= 1 ==>
      0 <= score <= blueprint.Model().dims.x * (blueprint.Model().dims.y - 1) * blueprint.Model().dims.z
  {
    var runningTotal := 0;
    var covered := CalcCoveredVolume(blueprint);
    runningTotal := runningTotal + covered;
    score := runningTotal;
    if blueprint.Model().dims.y >= 1 {
      CoveredVolumeBound(blueprint.Model());
    }
  }

  /** CompareBlueprints: Int32.CompareTo on the two scores. */
  method CompareBlueprints(a: Blueprint, b: Blueprint) returns (c: int)
    requires a.Valid() && b.Valid()
    ensures c < 0 <==> CoveredVolume(a.Model()) < CoveredVolume(b.Model())
    ensures c == 0 <==> CoveredVolume(a.Model()) == CoveredVolume(b.Model())
    ensures c > 0 <==> CoveredVolume(a.Model()) > CoveredVolume(b.Model())
  {
    var sa := CalculateScore(a);
    var sb := CalculateScore(b);
    c := if sa < sb then -1 else if sa == sb then 0 else 1;
  }

  // ------------------------------------------------------------ ranking

  function Range(n: nat): (r: seq<int>)
    ensures |r| == n && forall i :: 0 <= i < n ==> r[i] == i
  {
    seq(n, i requires 0 <= i < n => i)
  }

  /** order lists every index below n exactly once. */
  ghost predicate IsOrder(order: seq<int>, n: nat) {
    multiset(order) == multiset(Range(n))
  }

  /** order lists indexes of keys from the highest key down. */
  predicate RanksDown(keys: seq<int>, order: seq<int>) {
    (forall i :: 0 <= i < |order| ==> 0 <= order[i] < |keys|) &&
    forall i, j :: 0 <= i < j < |order| ==> keys[order[i]] >= keys[order[j]]
  }

  function InsertDown(keys: seq<int>, k: int, s: seq<int>): (r: seq<int>)
    requires 0 <= k < |keys| && RanksDown(keys, s)
    ensures RanksDown(keys, r) && multiset(r) == multiset(s) + multiset{k} && |r| == |s| + 1
    ensures r[0] == k || (|s| > 0 && r[0] == s[0])
  {
    if |s| == 0 || keys[s[0]] <= keys[k] then
      ConsRanksDown(keys, k, s);
      [k] + s
    else
      RanksDownTail(keys, s);
      var t := InsertDown(keys, k, s[1..]);
      InsertBehind(keys, k, s, t);
      [s[0]] + t
  }

  /** Dropping the first index keeps an order ranked. */
  lemma RanksDownTail(keys: seq<int>, s: seq<int>)
    requires RanksDown(keys, s) && |s| > 0
    ensures RanksDown(keys, s[1..])
  {
    var t := s[1..];
    forall i, j | 0 <= i < j < |t| ensures keys[t[i]] >= keys[t[j]] {
      assert t[i] == s[i + 1] && t[j] == s[j + 1];
    }
  }

  /** A key below the first of a ranked order, inserted into the rest, lands
      behind that first index. */
  lemma InsertBehind(keys: seq<int>, k: int, s: seq<int>, t: seq<int>)
    requires 0 <= k < |keys| && RanksDown(keys, s) && |s| > 0 && keys[k] < keys[s[0]]
    requires RanksDown(keys, t) && multiset(t) == multiset(s[1..]) + multiset{k} && |t| == |s|
    requires t[0] == k || (|s| > 1 && t[0] == s[1])
    ensures RanksDown(keys, [s[0]] + t) && multiset([s[0]] + t) == multiset(s) + multiset{k}
  {
    assert s == [s[0]] + s[1..];
    ConsRanksDown(keys, s[0], t);
  }

  /** A key at least as high as the first of a ranked order can go in front. */
  lemma ConsRanksDown(keys: seq<int>, a: int, t: seq<int>)
    requires 0 <= a < |keys| && RanksDown(keys, t) && (|t| > 0 ==> keys[t[0]] <= keys[a])
    ensures RanksDown(keys, [a] + t)
  {
    var r := [a] + t;
    forall i, j | 0 <= i < j < |r| ensures keys[r[i]] >= keys[r[j]] {
      if i == 0 {
        assert r[j] == t[j - 1] && keys[t[j - 1]] <= keys[t[0]];
      } else {
        assert r[i] == t[i - 1] && r[j] == t[j - 1];
      }
    }
  }

  /** The order the system's array sort leaves the population in: by score
      from the highest down. Ties may come out in any order there; here they
      come out in one particular order. */
  function SortDown(keys: seq<int>, n: nat): (order: seq<int>)
    requires n <= |keys|
    ensures RanksDown(keys, order) && IsOrder(order, n) && |order| == n
  {
    if n == 0 then []
    else
      var order := InsertDown(keys, n - 1, SortDown(keys, n - 1));
      RangeGrows(n);
      order
  }

  /** The indexes below n are those below n - 1 and n - 1 itself. */
  lemma RangeGrows(n: nat)
    requires n > 0
    ensures multiset(Range(n)) == multiset(Range(n - 1)) + multiset{n - 1}
  {
    assert Range(n) == Range(n - 1) + [n - 1];
  }

  /** Every index below n has a place in an order of n. */
  lemma PlaceOf(order: seq<int>, n: nat, k: int) returns (i: int)
    requires IsOrder(order, n) && 0 <= k < n
    ensures 0 <= i < |order| && order[i] == k
  {
    assert Range(n)[k] == k;
    assert k in multiset(Range(n));
    assert k in multiset(order);
    i :| 0 <= i < |order| && order[i] == k;
  }

  /** The scores loop of GenerateRuin. */
  method ScoreAll(pop: seq<Blueprint>, ghost models: seq<Grid>, ghost arrs: seq<array3<int>>) returns (scores: array<int>)
    requires Holds(pop, models, arrs)
    ensures fresh(scores) && scores.Length == |pop|
    ensures forall k {:trigger models[k]} :: 0 <= k < |pop| ==> WellFormed(models[k]) && scores[k] == CoveredVolume(models[k])
  {
    scores := new int[|pop|];
    var i := 0;
    while i < |pop|
      invariant 0 <= i <= |pop|
      invariant forall k {:trigger models[k]} :: 0 <= k < i ==> WellFormed(models[k]) && scores[k] == CoveredVolume(models[k])
    {
      assert pop[i].Valid() && pop[i].Model() == models[i];
      var score := CalculateScore(pop[i]);
      scores[i] := score;
      i := i + 1;
    }
  }

  /** The array sort of GenerateRuin, comparing by CompareBlueprints(b, a):
      the population reordered by score from the highest down. */
  method SortByScore(pop: seq<Blueprint>, ghost models: seq<Grid>, ghost arrs: seq<array3<int>>)
    returns (ranked: seq<Blueprint>, order: seq<int>, ghost rarrs: seq<array3<int>>)
    requires Holds(pop, models, arrs)
    ensures IsOrder(order, |pop|) && |order| == |pop|
    ensures forall i {:trigger order[i]} :: 0 <= i < |order| ==> 0 <= order[i] < |pop|
    ensures |ranked| == |rarrs| == |pop|
    ensures forall i {:trigger ranked[i]} :: 0 <= i < |ranked| ==> ranked[i] == pop[order[i]] && rarrs[i] == arrs[order[i]]
    ensures Holds(ranked, Reordered(models, order), rarrs) && ByScore(Reordered(models, order))
  {
    var scores := ScoreAll(pop, models, arrs);
    var keys := scores[..];
    order := SortDown(keys, |keys|);
    ranked := seq(|pop|, i requires 0 <= i < |pop| && 0 <= order[i] < |pop| => pop[order[i]]);
    rarrs := seq(|pop|, i requires 0 <= i < |pop| && 0 <= order[i] < |pop| => arrs[order[i]]);
    ghost var ranks := Reordered(models, order);
    forall i | 0 <= i < |ranked|
      ensures ranked[i].blocks == rarrs[i] && ranked[i].Valid() && ranked[i].Model() == ranks[i]
      ensures WellFormed(ranks[i]) && keys[order[i]] == CoveredVolume(ranks[i])
    {
      assert ranked[i] == pop[order[i]];
    }
  }


  /** The grids of models in the order order lists them. */
  function Reordered(models: seq<Grid>, order: seq<int>): (r: seq<Grid>)
    requires forall i {:trigger order[i]} :: 0 <= i < |order| ==> 0 <= order[i] < |models|
    ensures |r| == |order| && forall i {:trigger r[i]} :: 0 <= i < |order| ==> r[i] == models[order[i]]
  {
    seq(|order|, i requires 0 <= i < |order| => models[order[i]])
  }

  /** Grids ranked by covered volume from the highest down. */
  ghost predicate ByScore(ranks: seq<Grid>)
  {
    (forall i {:trigger ranks[i]} :: 0 <= i < |ranks| ==> WellFormed(ranks[i])) &&
    forall i, j {:trigger ranks[i], ranks[j]} :: 0 <= i < j < |ranks| ==> CoveredVolume(ranks[i]) >= CoveredVolume(ranks[j])
  }

  /** The first of a ranking scores at least as much as every grid it ranks. */
  lemma FirstIsBest(models: seq<Grid>, order: seq<int>, j: int)
    requires IsOrder(order, |models|) && |order| == |models|
    requires forall i {:trigger order[i]} :: 0 <= i < |order| ==> 0 <= order[i] < |models|
    requires ByScore(Reordered(models, order)) && 0 <= j < |models|
    ensures WellFormed(models[j]) && CoveredVolume(models[j]) <= CoveredVolume(Reordered(models, order)[0])
  {
    var ranks := Reordered(models, order);
    var i := PlaceOf(order, |models|, j);
    assert ranks[i] == models[j];
    assert ranks[0] == models[order[0]];
  }


  // ------------------------------------------------------------ generations

  /** pop[k] is a valid blueprint over the voxel array arrays[k] holding
      the grid models[k]. */
  ghost predicate Holds(pop: seq<Blueprint>, models: seq<Grid>, arrays: seq<array3<int>>)
    reads pop, arrays
  {
    |models| == |pop| && |arrays| == |pop| &&
    forall k {:trigger pop[k]} :: 0 <= k < |pop| ==>
      pop[k].blocks == arrays[k] && pop[k].Valid() && pop[k].Model() == models[k]
  }

  /** The grids a population holds are well formed. */
  lemma HoldsWellFormed(pop: seq<Blueprint>, models: seq<Grid>, arrays: seq<array3<int>>)
    requires Holds(pop, models, arrays)
    ensures forall k {:trigger models[k]} :: 0 <= k < |models| ==> WellFormed(models[k])
  {
    forall k | 0 <= k < |models| ensures WellFormed(models[k]) {
      assert pop[k].Model() == models[k];
    }
  }

  /** A fresh blueprint appended to a population whose entries it shares
      nothing with. */
  lemma HoldsAppend(pop: seq<Blueprint>, models: seq<Grid>, arrays: seq<array3<int>>, b: Blueprint)
    requires Holds(pop, models, arrays) && Distinct(pop) && Distinct(arrays) && b.Valid()
    requires forall k {:trigger pop[k]} :: 0 <= k < |pop| ==> pop[k] != b
    requires forall k {:trigger arrays[k]} :: 0 <= k < |arrays| ==> arrays[k] != b.blocks
    ensures Holds(pop + [b], models + [b.Model()], arrays + [b.blocks])
    ensures Distinct(pop + [b]) && Distinct(arrays + [b.blocks])
  {
    var pop', arrays' := pop + [b], arrays + [b.blocks];
    assert forall k {:trigger pop'[k]} :: 0 <= k < |pop| ==> pop'[k] == pop[k];
    assert forall k {:trigger arrays'[k]} :: 0 <= k < |arrays| ==> arrays'[k] == arrays[k];
  }

  /** No two entries of s are the same. */
  predicate Distinct<T(==)>(s: seq<T>) {
    forall j, k {:trigger s[j], s[k]} :: 0 <= j < k < |s| ==> s[j] != s[k]
  }

  /** No entry of a is an entry of b. */
  predicate Apart<T(==)>(a: seq<T>, b: seq<T>) {
    forall j, k {:trigger a[j], b[k]} :: 0 <= j < |a| && 0 <= k < |b| ==> a[j] != b[k]
  }

  /** Entry i of a distinct sequence differs from every other entry. */
  lemma DistinctAt<T>(a: seq<T>, i: int)
    requires Distinct(a) && 0 <= i < |a|
    ensures forall k {:trigger a[k]} :: 0 <= k < |a| && k != i ==> a[k] != a[i]
  {
    forall k | 0 <= k < |a| && k != i ensures a[k] != a[i] {
      if k > i {
        assert a[i] != a[k];
      }
    }
  }

  /** Entry i of a differs from every entry of a sequence apart from a. */
  lemma ApartAt<T>(a: seq<T>, i: int, b: seq<T>)
    requires Apart(a, b) && 0 <= i < |a|
    ensures forall k {:trigger b[k]} :: 0 <= k < |b| ==> b[k] != a[i]
  {
  }

  /** One step of the initialisation loop of GenerateRuin: individual i
      becomes a random blueprint of its own dimensions, in place; nothing
      else in pop or in the notebook changes. */
  method RandomizeAt(pop: seq<Blueprint>, i: int, ghost models: seq<Grid>, ghost arrs: seq<array3<int>>,
                     notebook: seq<Blueprint>, ghost designs: seq<Grid>, ghost narrs: seq<array3<int>>,
                     stable: Grid -> bool)
    returns (ghost r: Grid)
    requires Holds(pop, models, arrs) && Distinct(pop) && Distinct(arrs) && 0 <= i < |pop|
    requires Holds(notebook, designs, narrs) && |notebook| > 0 && Apart(pop, notebook) && Apart(arrs, narrs)
    modifies pop[i], arrs[i]
    ensures RandomOf(models[i].dims, designs, stable, r) && r.validIds == {} && r.dims == models[i].dims
    ensures Holds(pop, models[i := r], arrs) && Holds(notebook, designs, narrs)
  {
    assert pop[i].blocks == arrs[i];
    assert forall k {:trigger notebook[k]} :: 0 <= k < |notebook| ==> notebook[k].Valid() && notebook[k].Model() == designs[k];
    pop[i].RandomizeInto(pop[i], notebook, designs, stable);
    r := pop[i].Model();
    DistinctAt(pop, i);
    DistinctAt(arrs, i);
    ApartAt(pop, i, notebook);
    ApartAt(arrs, i, narrs);
  }

  /** The initialisation loop of GenerateRuin: every individual becomes a
      random blueprint of dimensions d, in place. */
  method RandomizePopulation(pop: seq<Blueprint>, d: Coord, ghost models: seq<Grid>, ghost arrs: seq<array3<int>>,
                             notebook: seq<Blueprint>, ghost designs: seq<Grid>, ghost narrs: seq<array3<int>>,
                             stable: Grid -> bool)
    returns (ghost randoms: seq<Grid>)
    requires Holds(pop, models, arrs) && Distinct(pop) && Distinct(arrs)
    requires Holds(notebook, designs, narrs) && |notebook| > 0 && Apart(pop, notebook) && Apart(arrs, narrs)
    requires forall k {:trigger models[k]} :: 0 <= k < |models| ==> models[k].dims == d
    modifies pop, arrs
    ensures |randoms| == |pop| && Holds(pop, randoms, arrs) && Holds(notebook, designs, narrs)
    ensures forall k {:trigger randoms[k]} :: 0 <= k < |randoms| ==>
      RandomOf(d, designs, stable, randoms[k]) && randoms[k].validIds == {} && randoms[k].dims == d
  {
    var i := 0;
    randoms := models;
    while i < |pop|
      invariant 0 <= i <= |pop| && |randoms| == |pop|
      invariant Holds(pop, randoms, arrs) && Holds(notebook, designs, narrs)
      invariant forall k {:trigger randoms[k]} :: 0 <= k < i ==>
        RandomOf(d, designs, stable, randoms[k]) && randoms[k].validIds == {} && randoms[k].dims == d
      invariant forall k {:trigger randoms[k]} :: i <= k < |randoms| ==> randoms[k] == models[k]
    {
      ghost var r := RandomizeAt(pop, i, randoms, arrs, notebook, designs, narrs, stable);
      randoms := randoms[i := r];
      i := i + 1;
    }
  }

  /** One slot of the next generation becomes a copy of src; nothing else
      in next, in ranked or in the notebook changes. */
  method CopyAt(src: Blueprint, next: seq<Blueprint>, i: int,
                ghost nexts: seq<Grid>, ghost arrs: seq<array3<int>>,
                ghost ranked: seq<Blueprint>, ghost ranks: seq<Grid>, ghost rarrs: seq<array3<int>>,
                ghost notebook: seq<Blueprint>, ghost designs: seq<Grid>, ghost narrs: seq<array3<int>>)
    requires Holds(next, nexts, arrs) && Distinct(next) && Distinct(arrs) && 0 <= i < |next|
    requires Holds(ranked, ranks, rarrs) && Holds(notebook, designs, narrs)
    requires Apart(next, ranked) && Apart(arrs, rarrs) && Apart(next, notebook) && Apart(arrs, narrs)
    requires src.Valid() && src.dims == nexts[i].dims
    modifies next[i], arrs[i]
    ensures Holds(next, nexts[i := old(src.Model())], arrs)
    ensures Holds(ranked, ranks, rarrs) && Holds(notebook, designs, narrs)
  {
    assert next[i].blocks == arrs[i];
    src.CopyInto(next[i]);
    DistinctAt(next, i);
    DistinctAt(arrs, i);
    ApartAt(next, i, ranked);
    ApartAt(arrs, i, rarrs);
    ApartAt(next, i, notebook);
    ApartAt(arrs, i, narrs);
  }

  /** One slot of the next generation becomes a mutant of src; nothing else
      in next, in ranked or in the notebook changes. */
  method MutateAt(src: Blueprint, next: seq<Blueprint>, i: int,
                  ghost nexts: seq<Grid>, ghost arrs: seq<array3<int>>,
                  ghost ranked: seq<Blueprint>, ghost ranks: seq<Grid>, ghost rarrs: seq<array3<int>>,
                  notebook: seq<Blueprint>, ghost designs: seq<Grid>, ghost narrs: seq<array3<int>>,
                  stable: Grid -> bool)
    returns (ghost m: Grid)
    requires Holds(next, nexts, arrs) && Distinct(next) && Distinct(arrs) && 0 <= i < |next|
    requires Holds(ranked, ranks, rarrs) && Holds(notebook, designs, narrs) && |notebook| > 0
    requires Apart(next, ranked) && Apart(arrs, rarrs) && Apart(next, notebook) && Apart(arrs, narrs)
    requires src.Valid() && src.dims == nexts[i].dims
    modifies next[i], arrs[i]
    ensures MutantOf(old(src.Model()), designs, stable, m)
    ensures Holds(next, nexts[i := m], arrs)
    ensures Holds(ranked, ranks, rarrs) && Holds(notebook, designs, narrs)
  {
    assert next[i].blocks == arrs[i];
    assert forall k {:trigger notebook[k]} :: 0 <= k < |notebook| ==> notebook[k].Valid() && notebook[k].Model() == designs[k];
    src.MutateInto(next[i], notebook, designs, stable);
    m := next[i].Model();
    DistinctAt(next, i);
    DistinctAt(arrs, i);
    ApartAt(next, i, ranked);
    ApartAt(arrs, i, rarrs);
    ApartAt(next, i, notebook);
    ApartAt(arrs, i, narrs);
  }

  /** The elite loop of GenerateRuin: the first e slots of next become
      copies of the e best-ranked individuals. */
  method CopyElites(ranked: seq<Blueprint>, next: seq<Blueprint>, e: int,
                    ghost nexts: seq<Grid>, ghost arrs: seq<array3<int>>,
                    ghost ranks: seq<Grid>, ghost rarrs: seq<array3<int>>,
                    ghost notebook: seq<Blueprint>, ghost designs: seq<Grid>, ghost narrs: seq<array3<int>>)
    requires Holds(next, nexts, arrs) && Distinct(next) && Distinct(arrs) && 0 <= e <= |next| && e <= |ranked|
    requires Holds(ranked, ranks, rarrs) && Holds(notebook, designs, narrs)
    requires Apart(next, ranked) && Apart(arrs, rarrs) && Apart(next, notebook) && Apart(arrs, narrs)
    requires forall k {:trigger ranks[k]} :: 0 <= k < e ==> ranks[k].dims == nexts[k].dims
    modifies next, arrs
    ensures Holds(next, ranks[..e] + nexts[e..], arrs)
    ensures Holds(ranked, ranks, rarrs) && Holds(notebook, designs, narrs)
  {
    var i := 0;
    ghost var now := nexts;
    while i < e
      invariant Copied(nexts, now, i, ranks) && i <= e
      invariant Holds(next, now, arrs) && Holds(ranked, ranks, rarrs) && Holds(notebook, designs, narrs)
    {
      assert now[i] == nexts[i] && ranked[i].Model() == ranks[i];
      CopyAt(ranked[i], next, i, now, arrs, ranked, ranks, rarrs, notebook, designs, narrs);
      ExtendCopied(nexts, now, i, ranks);
      now := now[i := ranks[i]];
      i := i + 1;
    }
    CopiedAll(nexts, now, e, ranks);
  }

  /** The first i slots of now are the best-ranked individuals, the rest
      are still nexts. */
  ghost predicate Copied(nexts: seq<Grid>, now: seq<Grid>, i: int, ranks: seq<Grid>) {
    0 <= i <= |nexts| == |now| && i <= |ranks| &&
    (forall j {:trigger now[j]} :: 0 <= j < i ==> now[j] == ranks[j]) &&
    forall k {:trigger now[k]} :: i <= k < |now| ==> now[k] == nexts[k]
  }

  lemma CopiedAll(nexts: seq<Grid>, now: seq<Grid>, e: int, ranks: seq<Grid>)
    requires Copied(nexts, now, e, ranks)
    ensures now == ranks[..e] + nexts[e..]
  {
    Spliced(now, nexts, 0, e, ranks[..e]);
    assert nexts[..0] + ranks[..e] == ranks[..e];
  }

  lemma ExtendCopied(nexts: seq<Grid>, now: seq<Grid>, i: int, ranks: seq<Grid>)
    requires Copied(nexts, now, i, ranks) && i < |nexts| && i < |ranks|
    ensures Copied(nexts, now[i := ranks[i]], i + 1, ranks)
  {
  }

  /** An index drawn by the population's score cdf: the parent of a slot. */
  predicate Parent(picks: seq<int>, n: int) {
    forall j {:trigger picks[j]} :: 0 <= j < |picks| ==> 0 <= picks[j] < n && (n >= 3 ==> 1 <= picks[j])
  }

  /** A sequence that agrees with s outside lo up to hi and with mid
      inside is s with that stretch replaced by mid. */
  lemma Spliced(now: seq<Grid>, s: seq<Grid>, lo: int, hi: int, mid: seq<Grid>)
    requires 0 <= lo <= hi <= |s| == |now| && |mid| == hi - lo
    requires forall j {:trigger mid[j]} :: 0 <= j < |mid| ==> now[lo + j] == mid[j]
    requires forall k {:trigger now[k]} :: 0 <= k < |now| && !(lo <= k < hi) ==> now[k] == s[k]
    ensures now == s[..lo] + mid + s[hi..]
  {
    var r := s[..lo] + mid + s[hi..];
    forall k | 0 <= k < |now| ensures now[k] == r[k] {
      if lo <= k < hi {
        assert now[lo + (k - lo)] == mid[k - lo];
      }
    }
  }

  /** A draw of WeightedRandomIndex over the population's cdf, with the
      uniform number in [0, 1) it rolls. */
  method DrawParent(cdf: array<real>) returns (k: int)
    requires cdf.Length >= 1
    ensures 0 <= k < cdf.Length && (cdf.Length >= 3 ==> 1 <= k)
  {
    var val: real :| 0.0 <= val < 1.0;
    k := Utils.WeightedRandomIndex(cdf, val);
  }

  /** The survivor loop of GenerateRuin: slots lo up to hi of next become
      copies of individuals drawn through the cdf. */
  method CopySurvivors(ranked: seq<Blueprint>, cdf: array<real>, next: seq<Blueprint>, lo: int, hi: int, d: Coord,
                       ghost nexts: seq<Grid>, ghost arrs: seq<array3<int>>,
                       ghost ranks: seq<Grid>, ghost rarrs: seq<array3<int>>,
                       ghost notebook: seq<Blueprint>, ghost designs: seq<Grid>, ghost narrs: seq<array3<int>>)
    returns (ghost picks: seq<int>, ghost copies: seq<Grid>)
    requires Holds(next, nexts, arrs) && Distinct(next) && Distinct(arrs) && 0 <= lo <= hi <= |next|
    requires Holds(ranked, ranks, rarrs) && Holds(notebook, designs, narrs) && cdf.Length == |ranked| >= 1
    requires Apart(next, ranked) && Apart(arrs, rarrs) && Apart(next, notebook) && Apart(arrs, narrs)
    requires forall k {:trigger ranks[k]} :: 0 <= k < |ranks| ==> ranks[k].dims == d
    requires forall k {:trigger nexts[k]} :: 0 <= k < |nexts| ==> nexts[k].dims == d
    modifies next, arrs
    ensures |picks| == |copies| == hi - lo && Parent(picks, |ranked|)
    ensures forall j {:trigger copies[j]} :: 0 <= j < |copies| ==> copies[j] == ranks[picks[j]]
    ensures Holds(next, nexts[..lo] + copies + nexts[hi..], arrs)
    ensures Holds(ranked, ranks, rarrs) && Holds(notebook, designs, narrs)
  {
    var i := lo;
    picks, copies := [], [];
    ghost var now := nexts;
    while i < hi
      invariant Drawn(nexts, now, lo, i, ranks, picks, copies) && i <= hi
      invariant Holds(next, now, arrs) && Holds(ranked, ranks, rarrs) && Holds(notebook, designs, narrs)
    {
      var k := DrawParent(cdf);
      assert now[i] == nexts[i] && ranked[k].Model() == ranks[k];
      CopyAt(ranked[k], next, i, now, arrs, ranked, ranks, rarrs, notebook, designs, narrs);
      ExtendDrawn(nexts, now, lo, i, ranks, picks, copies, k);
      now := now[i := ranks[k]];
      picks, copies := picks + [k], copies + [ranks[k]];
      i := i + 1;
    }
    Spliced(now, nexts, lo, hi, copies);
  }

  /** Slots lo up to i of now hold copies of the ranked grids that picks
      names, and every other slot still holds what nexts held. */
  ghost predicate Drawn(nexts: seq<Grid>, now: seq<Grid>, lo: int, i: int, ranks: seq<Grid>, picks: seq<int>,
                        copies: seq<Grid>)
  {
    0 <= lo <= i <= |nexts| == |now| && |picks| == |copies| == i - lo && Parent(picks, |ranks|) &&
    (forall j {:trigger copies[j]} :: 0 <= j < |copies| ==> copies[j] == ranks[picks[j]] && now[lo + j] == copies[j]) &&
    forall k {:trigger now[k]} :: 0 <= k < |now| && !(lo <= k < i) ==> now[k] == nexts[k]
  }

  lemma ExtendDrawn(nexts: seq<Grid>, now: seq<Grid>, lo: int, i: int, ranks: seq<Grid>, picks: seq<int>,
                    copies: seq<Grid>, k: int)
    requires Drawn(nexts, now, lo, i, ranks, picks, copies) && i < |nexts|
    requires 0 <= k < |ranks| && (|ranks| >= 3 ==> 1 <= k)
    ensures Drawn(nexts, now[i := ranks[k]], lo, i + 1, ranks, picks + [k], copies + [ranks[k]])
  {
    var picks', copies' := picks + [k], copies + [ranks[k]];
    assert picks'[|picks|] == k && copies'[|copies|] == ranks[k];
  }

  /** Slots lo up to i of now hold mutants of the ranked grids that picks
      names, and every other slot still holds what nexts held. */
  ghost predicate Bred(nexts: seq<Grid>, now: seq<Grid>, lo: int, i: int, ranks: seq<Grid>, picks: seq<int>,
                       mutants: seq<Grid>, designs: seq<Grid>, stable: Grid -> bool)
  {
    0 <= lo <= i <= |nexts| == |now| && |picks| == |mutants| == i - lo && Parent(picks, |ranks|) &&
    (forall k {:trigger ranks[k]} :: 0 <= k < |ranks| ==> WellFormed(ranks[k])) &&
    (forall j {:trigger mutants[j]} :: 0 <= j < |mutants| ==>
      MutantOf(ranks[picks[j]], designs, stable, mutants[j]) && now[lo + j] == mutants[j]) &&
    forall k {:trigger now[k]} :: 0 <= k < |now| && !(lo <= k < i) ==> now[k] == nexts[k]
  }

  lemma ExtendBred(nexts: seq<Grid>, now: seq<Grid>, lo: int, i: int, ranks: seq<Grid>, picks: seq<int>,
                   mutants: seq<Grid>, designs: seq<Grid>, stable: Grid -> bool, k: int, m: Grid)
    requires Bred(nexts, now, lo, i, ranks, picks, mutants, designs, stable) && i < |nexts|
    requires 0 <= k < |ranks| && (|ranks| >= 3 ==> 1 <= k) && MutantOf(ranks[k], designs, stable, m)
    ensures Bred(nexts, now[i := m], lo, i + 1, ranks, picks + [k], mutants + [m], designs, stable)
  {
    var picks', mutants' := picks + [k], mutants + [m];
    assert picks'[|picks|] == k && mutants'[|mutants|] == m;
  }

  /** One step of the mutation loop. */
  method MutateStep(ranked: seq<Blueprint>, cdf: array<real>, next: seq<Blueprint>, lo: int, i: int, d: Coord,
                    ghost nexts: seq<Grid>, ghost arrs: seq<array3<int>>,
                    ghost ranks: seq<Grid>, ghost rarrs: seq<array3<int>>,
                    notebook: seq<Blueprint>, ghost designs: seq<Grid>, ghost narrs: seq<array3<int>>,
                    stable: Grid -> bool, ghost now: seq<Grid>, ghost picks: seq<int>, ghost mutants: seq<Grid>)
    returns (ghost now': seq<Grid>, ghost picks': seq<int>, ghost mutants': seq<Grid>)
    requires Bred(nexts, now, lo, i, ranks, picks, mutants, designs, stable) && i < |next|
    requires Holds(next, now, arrs) && Distinct(next) && Distinct(arrs)
    requires Holds(ranked, ranks, rarrs) && Holds(notebook, designs, narrs) && cdf.Length == |ranked| >= 1
    requires Apart(next, ranked) && Apart(arrs, rarrs) && Apart(next, notebook) && Apart(arrs, narrs) && |notebook| > 0
    requires forall k {:trigger ranks[k]} :: 0 <= k < |ranks| ==> ranks[k].dims == d
    requires forall k {:trigger nexts[k]} :: 0 <= k < |nexts| ==> nexts[k].dims == d
    modifies next, arrs
    ensures Bred(nexts, now', lo, i + 1, ranks, picks', mutants', designs, stable)
    ensures Holds(next, now', arrs) && Holds(ranked, ranks, rarrs) && Holds(notebook, designs, narrs)
  {
    var k := DrawParent(cdf);
    assert now[i] == nexts[i] && ranked[k].Model() == ranks[k];
    ghost var m := MutateAt(ranked[k], next, i, now, arrs, ranked, ranks, rarrs, notebook, designs, narrs, stable);
    ExtendBred(nexts, now, lo, i, ranks, picks, mutants, designs, stable, k, m);
    now', picks', mutants' := now[i := m], picks + [k], mutants + [m];
  }

  /** The mutation loop of GenerateRuin: every slot from lo on becomes a
      mutant of an individual drawn through the cdf. */
  method MutateRest(ranked: seq<Blueprint>, cdf: array<real>, next: seq<Blueprint>, lo: int, d: Coord,
                    ghost nexts: seq<Grid>, ghost arrs: seq<array3<int>>,
                    ghost ranks: seq<Grid>, ghost rarrs: seq<array3<int>>,
                    notebook: seq<Blueprint>, ghost designs: seq<Grid>, ghost narrs: seq<array3<int>>,
                    stable: Grid -> bool)
    returns (ghost picks: seq<int>, ghost mutants: seq<Grid>)
    requires Holds(next, nexts, arrs) && Distinct(next) && Distinct(arrs) && 0 <= lo <= |next|
    requires Holds(ranked, ranks, rarrs) && Holds(notebook, designs, narrs) && cdf.Length == |ranked| >= 1
    requires Apart(next, ranked) && Apart(arrs, rarrs) && Apart(next, notebook) && Apart(arrs, narrs) && |notebook| > 0
    requires forall k {:trigger ranks[k]} :: 0 <= k < |ranks| ==> ranks[k].dims == d && WellFormed(ranks[k])
    requires forall k {:trigger nexts[k]} :: 0 <= k < |nexts| ==> nexts[k].dims == d
    modifies next, arrs
    ensures |picks| == |mutants| == |next| - lo && Parent(picks, |ranked|)
    ensures forall j {:trigger mutants[j]} :: 0 <= j < |mutants| ==> MutantOf(ranks[picks[j]], designs, stable, mutants[j])
    ensures Holds(next, nexts[..lo] + mutants + nexts[|next|..], arrs)
    ensures Holds(ranked, ranks, rarrs) && Holds(notebook, designs, narrs)
  {
    var i := lo;
    picks, mutants := [], [];
    ghost var now := nexts;
    while i < |next|
      invariant Bred(nexts, now, lo, i, ranks, picks, mutants, designs, stable)
      invariant Holds(next, now, arrs) && Holds(ranked, ranks, rarrs) && Holds(notebook, designs, narrs)
    {
      now, picks, mutants := MutateStep(ranked, cdf, next, lo, i, d, nexts, arrs, ranks, rarrs, notebook, designs, narrs,
                                        stable, now, picks, mutants);
      i := i + 1;
    }
    Spliced(now, nexts, lo, |next|, mutants);
  }


  // ------------------------------------------------------------ rounds

  /** A population of n empty blueprints of dimensions d. */
  function Empties(n: nat, d: Coord): (r: seq<Grid>)
    requires NonNegative(d)
    ensures |r| == n && forall k {:trigger r[k]} :: 0 <= k < n ==> r[k] == EmptyGrid(d)
  {
    seq(n, k requires 0 <= k < n => EmptyGrid(d))
  }

  /** One round's next generation as GenerateRuin builds it from the ranked
      grids: the first e slots copy the elite in rank order, the next s
      slots copy parents drawn through the cdf, and every later slot is a
      mutant of a drawn parent. A drawn parent is never the best-ranked
      grid once there are three or more. */
  ghost predicate NextGeneration(ranks: seq<Grid>, parents: seq<int>, next: seq<Grid>, e: int, s: int,
                                 designs: seq<Grid>, stable: Grid -> bool)
  {
    |parents| == |next| == |ranks| && 0 <= e && 0 <= s && e + s <= |ranks| &&
    (forall k {:trigger ranks[k]} :: 0 <= k < |ranks| ==> WellFormed(ranks[k])) &&
    Elites(ranks, parents, next, e) && Survivors(ranks, parents, next, e, e + s) &&
    Mutants(ranks, parents, next, e + s, designs, stable)
  }

  /** Slots below e copy the grid of the same rank. */
  predicate Elites(ranks: seq<Grid>, parents: seq<int>, next: seq<Grid>, e: int)
    requires |parents| == |next| == |ranks| && e <= |ranks|
  {
    forall i {:trigger next[i]} :: 0 <= i < e ==> parents[i] == i && next[i] == ranks[i]
  }

  /** Slots lo up to hi copy a drawn parent. */
  predicate Survivors(ranks: seq<Grid>, parents: seq<int>, next: seq<Grid>, lo: int, hi: int)
    requires |parents| == |next| == |ranks| && 0 <= lo && hi <= |ranks|
  {
    forall i {:trigger next[i]} :: lo <= i < hi ==>
      0 <= parents[i] < |ranks| && (|ranks| >= 3 ==> 1 <= parents[i]) && next[i] == ranks[parents[i]]
  }

  /** Slots from lo on are mutants of a drawn parent. */
  ghost predicate Mutants(ranks: seq<Grid>, parents: seq<int>, next: seq<Grid>, lo: int,
                          designs: seq<Grid>, stable: Grid -> bool)
    requires |parents| == |next| == |ranks| && 0 <= lo
    requires forall k {:trigger ranks[k]} :: 0 <= k < |ranks| ==> WellFormed(ranks[k])
  {
    forall i {:trigger next[i]} :: lo <= i < |next| ==>
      0 <= parents[i] < |ranks| && (|ranks| >= 3 ==> 1 <= parents[i]) &&
      MutantOf(ranks[parents[i]], designs, stable, next[i])
  }

  /** Splicing the copies and the mutants into the elites' sequence lays
      the three parts end to end. */
  lemma Layout(ranks: seq<Grid>, empt: seq<Grid>, e: int, s: int, copies: seq<Grid>, mutants: seq<Grid>)
    requires |empt| == |ranks| && 0 <= e && 0 <= s && e + s <= |ranks|
    requires |copies| == s && |mutants| == |ranks| - e - s
    ensures var s1 := ranks[..e] + empt[e..];
            var s2 := s1[..e] + copies + s1[e + s..];
            s2[..e + s] + mutants + s2[|ranks|..] == ranks[..e] + copies + mutants
  {
    var s1 := ranks[..e] + empt[e..];
    var s2 := s1[..e] + copies + s1[e + s..];
    assert s1[..e] == ranks[..e];
    assert s2[..e + s] == ranks[..e] + copies;
  }

  /** The three loops of a round, put together, build the next generation. */
  lemma Assemble(ranks: seq<Grid>, empt: seq<Grid>, e: int, s: int, picksS: seq<int>, copies: seq<Grid>,
                 picksM: seq<int>, mutants: seq<Grid>, designs: seq<Grid>, stable: Grid -> bool)
    requires |empt| == |ranks| && 0 <= e && 0 <= s && e + s <= |ranks|
    requires forall k {:trigger ranks[k]} :: 0 <= k < |ranks| ==> WellFormed(ranks[k])
    requires |picksS| == |copies| == s && Parent(picksS, |ranks|)
    requires forall j {:trigger copies[j]} :: 0 <= j < |copies| ==> copies[j] == ranks[picksS[j]]
    requires |picksM| == |mutants| == |ranks| - e - s && Parent(picksM, |ranks|)
    requires forall j {:trigger mutants[j]} :: 0 <= j < |mutants| ==> MutantOf(ranks[picksM[j]], designs, stable, mutants[j])
    ensures NextGeneration(ranks, Range(e) + picksS + picksM, ranks[..e] + copies + mutants, e, s, designs, stable)
  {
    var parents, next := Range(e) + picksS + picksM, ranks[..e] + copies + mutants;
    ElitesLaid(ranks, e, picksS, copies, picksM, mutants);
    SurvivorsLaid(ranks, e, picksS, copies, picksM, mutants);
    MutantsLaid(ranks, e, picksS, copies, picksM, mutants, designs, stable);
  }

  lemma ElitesLaid(ranks: seq<Grid>, e: int, picksS: seq<int>, copies: seq<Grid>, picksM: seq<int>, mutants: seq<Grid>)
    requires 0 <= e <= |ranks| && |picksS| == |copies| && |picksM| == |mutants| == |ranks| - e - |copies|
    ensures Elites(ranks, Range(e) + picksS + picksM, ranks[..e] + copies + mutants, e)
  {
    forall i | 0 <= i < e
      ensures (Range(e) + picksS + picksM)[i] == i && (ranks[..e] + copies + mutants)[i] == ranks[i]
    {
      PartAt(Range(e), picksS, picksM, i);
      PartAt(ranks[..e], copies, mutants, i);
      assert Range(e)[i] == i;
    }
  }

  lemma SurvivorsLaid(ranks: seq<Grid>, e: int, picksS: seq<int>, copies: seq<Grid>, picksM: seq<int>, mutants: seq<Grid>)
    requires 0 <= e && |picksS| == |copies| && |picksM| == |mutants| == |ranks| - e - |copies| && Parent(picksS, |ranks|)
    requires forall j {:trigger copies[j]} :: 0 <= j < |copies| ==> copies[j] == ranks[picksS[j]]
    ensures Survivors(ranks, Range(e) + picksS + picksM, ranks[..e] + copies + mutants, e, e + |copies|)
  {
    var parents, next := Range(e) + picksS + picksM, ranks[..e] + copies + mutants;
    forall i | e <= i < e + |copies|
      ensures 0 <= parents[i] < |ranks| && (|ranks| >= 3 ==> 1 <= parents[i]) && next[i] == ranks[parents[i]]
    {
      PartAt(Range(e), picksS, picksM, i);
      PartAt(ranks[..e], copies, mutants, i);
      var j := i - e;
      assert parents[i] == picksS[j] && next[i] == copies[j];
    }
  }

  lemma MutantsLaid(ranks: seq<Grid>, e: int, picksS: seq<int>, copies: seq<Grid>, picksM: seq<int>, mutants: seq<Grid>,
                    designs: seq<Grid>, stable: Grid -> bool)
    requires 0 <= e && |picksS| == |copies| && |picksM| == |mutants| == |ranks| - e - |copies| && Parent(picksM, |ranks|)
    requires forall k {:trigger ranks[k]} :: 0 <= k < |ranks| ==> WellFormed(ranks[k])
    requires forall j {:trigger mutants[j]} :: 0 <= j < |mutants| ==> MutantOf(ranks[picksM[j]], designs, stable, mutants[j])
    ensures Mutants(ranks, Range(e) + picksS + picksM, ranks[..e] + copies + mutants, e + |copies|, designs, stable)
  {
    var rel := (a, b) => WellFormed(a) && MutantOf(a, designs, stable, b);
    forall j | 0 <= j < |mutants| ensures rel(ranks[picksM[j]], mutants[j]) {
      assert WellFormed(ranks[picksM[j]]);
    }
    TailLaid(ranks, e, picksS, copies, picksM, mutants, rel);
  }

  /** The third part of a generation laid after the elites and the copies:
      each of its entries stands in rel to the ranked grid it was drawn from. */
  lemma TailLaid(ranks: seq<Grid>, e: int, picksS: seq<int>, copies: seq<Grid>, picksM: seq<int>, mutants: seq<Grid>,
                 rel: (Grid, Grid) -> bool)
    requires 0 <= e && |picksS| == |copies| && |picksM| == |mutants| == |ranks| - e - |copies| && Parent(picksM, |ranks|)
    requires forall j {:trigger mutants[j]} :: 0 <= j < |mutants| ==> rel(ranks[picksM[j]], mutants[j])
    ensures var parents, next := Range(e) + picksS + picksM, ranks[..e] + copies + mutants;
      forall i {:trigger next[i]} :: e + |copies| <= i < |next| ==>
        0 <= parents[i] < |ranks| && (|ranks| >= 3 ==> 1 <= parents[i]) && rel(ranks[parents[i]], next[i])
  {
    var parents, next := Range(e) + picksS + picksM, ranks[..e] + copies + mutants;
    forall i | e + |copies| <= i < |next|
      ensures 0 <= parents[i] < |ranks| && (|ranks| >= 3 ==> 1 <= parents[i]) && rel(ranks[parents[i]], next[i])
    {
      PartAt(Range(e), picksS, picksM, i);
      PartAt(ranks[..e], copies, mutants, i);
      var j := i - (e + |copies|);
      assert parents[i] == picksM[j] && next[i] == mutants[j];
    }
  }

  /** Entry i of three sequences laid end to end. */
  lemma PartAt<T>(a: seq<T>, b: seq<T>, c: seq<T>, i: int)
    requires 0 <= i < |a| + |b| + |c|
    ensures i < |a| ==> (a + b + c)[i] == a[i]
    ensures |a| <= i < |a| + |b| ==> (a + b + c)[i] == b[i - |a|]
    ensures |a| + |b| <= i ==> (a + b + c)[i] == c[i - (|a| + |b|)]
  {
  }

  /** The elite, survivor and mutation loops of a round, filling the fresh
      next generation from the ranked population. */
  method Breed(ranked: seq<Blueprint>, cdf: array<real>, next: seq<Blueprint>, e: int, s: int, d: Coord,
               ghost empt: seq<Grid>, ghost arrs: seq<array3<int>>,
               ghost ranks: seq<Grid>, ghost rarrs: seq<array3<int>>,
               notebook: seq<Blueprint>, ghost designs: seq<Grid>, ghost narrs: seq<array3<int>>,
               stable: Grid -> bool)
    returns (ghost parents: seq<int>, ghost models: seq<Grid>)
    requires Holds(next, empt, arrs) && Distinct(next) && Distinct(arrs) && |next| == |ranked|
    requires 0 <= e && 0 <= s && e + s <= |next|
    requires Holds(ranked, ranks, rarrs) && Holds(notebook, designs, narrs) && cdf.Length == |ranked| >= 1
    requires Apart(next, ranked) && Apart(arrs, rarrs) && Apart(next, notebook) && Apart(arrs, narrs) && |notebook| > 0
    requires forall k {:trigger ranks[k]} :: 0 <= k < |ranks| ==> ranks[k].dims == d && WellFormed(ranks[k])
    requires forall k {:trigger empt[k]} :: 0 <= k < |empt| ==> empt[k].dims == d
    modifies next, arrs
    ensures Holds(next, models, arrs) && Holds(notebook, designs, narrs)
    ensures forall k {:trigger models[k]} :: 0 <= k < |models| ==> models[k].dims == d
    ensures NextGeneration(ranks, parents, models, e, s, designs, stable)
  {
    CopyElites(ranked, next, e, empt, arrs, ranks, rarrs, notebook, designs, narrs);
    ghost var s1 := ranks[..e] + empt[e..];
    ghost var picksS: seq<int>, copies: seq<Grid>;
    picksS, copies := CopySurvivors(ranked, cdf, next, e, e + s, d, s1, arrs, ranks, rarrs, notebook, designs, narrs);
    ghost var s2 := s1[..e] + copies + s1[e + s..];
    SplicedDims(ranks, empt, e, s, picksS, copies, d);
    ghost var picksM: seq<int>, mutants: seq<Grid>;
    picksM, mutants := MutateRest(ranked, cdf, next, e + s, d, s2, arrs, ranks, rarrs, notebook, designs, narrs, stable);
    Layout(ranks, empt, e, s, copies, mutants);
    Assemble(ranks, empt, e, s, picksS, copies, picksM, mutants, designs, stable);
    parents, models := Range(e) + picksS + picksM, ranks[..e] + copies + mutants;
  }

  /** After the survivor loop every grid of the next generation still has
      the population's dimensions. */
  lemma SplicedDims(ranks: seq<Grid>, empt: seq<Grid>, e: int, s: int, picks: seq<int>, copies: seq<Grid>, d: Coord)
    requires |empt| == |ranks| && 0 <= e && 0 <= s && e + s <= |ranks|
    requires |picks| == |copies| == s && Parent(picks, |ranks|)
    requires forall k {:trigger ranks[k]} :: 0 <= k < |ranks| ==> ranks[k].dims == d
    requires forall k {:trigger empt[k]} :: 0 <= k < |empt| ==> empt[k].dims == d
    requires forall j {:trigger copies[j]} :: 0 <= j < |copies| ==> copies[j] == ranks[picks[j]]
    ensures var s1 := ranks[..e] + empt[e..];
            var s2 := s1[..e] + copies + s1[e + s..];
            forall k {:trigger s2[k]} :: 0 <= k < |s2| ==> s2[k].dims == d
  {
    var s1 := ranks[..e] + empt[e..];
    var s2 := s1[..e] + copies + s1[e + s..];
    forall k | 0 <= k < |s2| ensures s2[k].dims == d {
      PartAt(s1[..e], copies, s1[e + s..], k);
      if k < e {
        assert s2[k] == ranks[k];
      } else if k < e + s {
        assert s2[k] == ranks[picks[k - e]];
      } else {
        assert s2[k] == empt[k];
      }
    }
  }

  /** With at least one elite, the first individual of the next generation
      scores at least as much as every individual of the current one. */
  lemma EliteKeepsBest(models: seq<Grid>, order: seq<int>, parents: seq<int>, next: seq<Grid>, e: int, s: int,
                       designs: seq<Grid>, stable: Grid -> bool)
    requires IsOrder(order, |models|) && |order| == |models|
    requires forall i {:trigger order[i]} :: 0 <= i < |order| ==> 0 <= order[i] < |models|
    requires ByScore(Reordered(models, order))
    requires NextGeneration(Reordered(models, order), parents, next, e, s, designs, stable) && e >= 1
    ensures forall j {:trigger models[j]} :: 0 <= j < |models| ==>
      WellFormed(models[j]) && WellFormed(next[0]) && CoveredVolume(models[j]) <= CoveredVolume(next[0])
  {
    var ranks := Reordered(models, order);
    assert next[0] == ranks[0];
    forall j | 0 <= j < |models|
      ensures WellFormed(models[j]) && CoveredVolume(models[j]) <= CoveredVolume(next[0])
    {
      FirstIsBest(models, order, j);
    }
  }

  /** Some index holds the highest key. */
  lemma HighestKey(keys: seq<int>) returns (top: int)
    requires |keys| > 0
    ensures 0 <= top < |keys| && forall k {:trigger keys[k]} :: 0 <= k < |keys| ==> keys[k] <= keys[top]
  {
    var order := SortDown(keys, |keys|);
    top := order[0];
    forall k | 0 <= k < |keys| ensures keys[k] <= keys[top] {
      var i := PlaceOf(order, |keys|, k);
      if i > 0 {
        assert keys[order[0]] >= keys[order[i]];
      }
    }
  }

  /** CreateEmptyPopulation: n fresh empty blueprints of dimensions d. */
  method CreateEmptyPopulation(n: int, d: Coord) returns (pop: seq<Blueprint>, ghost arrs: seq<array3<int>>)
    requires 0 <= n && NonNegative(d)
    ensures |pop| == n && Holds(pop, Empties(n, d), arrs) && Distinct(pop) && Distinct(arrs)
    ensures forall k {:trigger pop[k]} :: 0 <= k < |pop| ==> fresh(pop[k])
    ensures forall k {:trigger arrs[k]} :: 0 <= k < |arrs| ==> fresh(arrs[k])
  {
    pop, arrs := [], [];
    ghost var models: seq<Grid> := [];
    while |pop| < n
      invariant |pop| <= n && Holds(pop, models, arrs) && Distinct(pop) && Distinct(arrs)
      invariant forall k {:trigger models[k]} :: 0 <= k < |models| ==> models[k] == EmptyGrid(d)
      invariant forall k {:trigger pop[k]} :: 0 <= k < |pop| ==> fresh(pop[k])
      invariant forall k {:trigger arrs[k]} :: 0 <= k < |arrs| ==> fresh(arrs[k])
    {
      var b := AppendEmpty(pop, models, arrs, d);
      pop, arrs, models := pop + [b], arrs + [b.blocks], models + [EmptyGrid(d)];
    }
    assert models == Empties(n, d);
  }

  /** One step of CreateEmptyPopulation: a fresh empty blueprint of
      dimensions d that can be appended to the population. */
  method AppendEmpty(pop: seq<Blueprint>, ghost models: seq<Grid>, ghost arrs: seq<array3<int>>, d: Coord)
    returns (b: Blueprint)
    requires Holds(pop, models, arrs) && Distinct(pop) && Distinct(arrs) && NonNegative(d)
    ensures fresh(b) && fresh(b.blocks)
    ensures Holds(pop + [b], models + [EmptyGrid(d)], arrs + [b.blocks])
    ensures Distinct(pop + [b]) && Distinct(arrs + [b.blocks])
  {
    b := new Blueprint(d.x, d.y, d.z);
    HoldsAppend(pop, models, arrs, b);
  }

  /** One round of evolution, the body of the rounds loop of GenerateRuin,
      on a population of valid blueprints of dimensions d: sort it by score,
      compute its cdf, and breed a fresh next generation with e elites and
      s survivors. */
  method Round(pop: seq<Blueprint>, d: Coord, e: int, s: int,
               notebook: seq<Blueprint>, ghost designs: seq<Grid>, ghost narrs: seq<array3<int>>,
               stable: Grid -> bool, ghost models: seq<Grid>, ghost arrs: seq<array3<int>>)
    returns (next: seq<Blueprint>, ghost order: seq<int>, ghost parents: seq<int>, ghost models': seq<Grid>,
             ghost arrs': seq<array3<int>>)
    requires Holds(pop, models, arrs) && 0 <= e && 0 <= s && e + s <= |pop| && 1 <= |pop| && NonNegative(d)
    requires forall k {:trigger models[k]} :: 0 <= k < |models| ==> models[k].dims == d
    requires Holds(notebook, designs, narrs) && |notebook| > 0
    ensures |next| == |pop| && Holds(next, models', arrs') && Holds(notebook, designs, narrs)
    ensures forall k {:trigger models'[k]} :: 0 <= k < |models'| ==> models'[k].dims == d
    ensures IsOrder(order, |pop|) && |order| == |pop|
    ensures forall i {:trigger order[i]} :: 0 <= i < |order| ==> 0 <= order[i] < |pop|
    ensures ByScore(Reordered(models, order))
    ensures NextGeneration(Reordered(models, order), parents, models', e, s, designs, stable)
  {
    var ranked, ord, rarrs := SortByScore(pop, models, arrs);
    order := ord;
    ghost var ranks := Reordered(models, order);
    var scores := ScoreAll(ranked, ranks, rarrs);
    var cdf := Utils.CalcCDF(scores);
    ghost var narr;
    next, narr := CreateEmptyPopulation(|pop|, d);
    ghost var empt := Empties(|pop|, d);
    assert Apart(next, ranked) && Apart(narr, rarrs) && Apart(next, notebook) && Apart(narr, narrs);
    assert forall k {:trigger ranks[k]} :: 0 <= k < |ranks| ==> ranks[k].dims == d && WellFormed(ranks[k]);
    parents, models' := Breed(ranked, cdf, next, e, s, d, empt, narr, ranks, rarrs, notebook, designs, narrs, stable);
    arrs' := narr;
  }

  /** The final sort of GenerateRuin: the population ranked by score, its
      first individual scoring at least as much as every other. */
  method SortForBest(pop: seq<Blueprint>, d: Coord, ghost models: seq<Grid>, ghost arrs: seq<array3<int>>)
    returns (ranked: seq<Blueprint>, ghost order: seq<int>)
    requires Holds(pop, models, arrs) && |pop| >= 1
    requires forall k {:trigger models[k]} :: 0 <= k < |models| ==> models[k].dims == d
    ensures |ranked| == |pop| && ranked[0].Valid()
    ensures IsOrder(order, |pop|) && |order| == |pop|
    ensures forall i {:trigger order[i]} :: 0 <= i < |order| ==> 0 <= order[i] < |pop|
    ensures forall k {:trigger ranked[k]} :: 0 <= k < |ranked| ==>
      ranked[k].Valid() && ranked[k].dims == d && ranked[k].Model() == models[order[k]] &&
      CoveredVolume(ranked[k].Model()) <= CoveredVolume(ranked[0].Model())
    ensures forall j {:trigger models[j]} :: 0 <= j < |models| ==>
      WellFormed(models[j]) && CoveredVolume(models[j]) <= CoveredVolume(ranked[0].Model())
  {
    ghost var rarrs;
    ranked, order, rarrs := SortByScore(pop, models, arrs);
    ghost var ranks := Reordered(models, order);
    forall k | 0 <= k < |ranked|
      ensures ranked[k].Valid() && ranked[k].dims == d && ranked[k].Model() == models[order[k]] &&
        CoveredVolume(ranked[k].Model()) <= CoveredVolume(ranked[0].Model())
    {
      assert ranked[k].Model() == ranks[k] && ranked[0].Model() == ranks[0];
    }
    forall j | 0 <= j < |models|
      ensures WellFormed(models[j]) && CoveredVolume(models[j]) <= CoveredVolume(ranked[0].Model())
    {
      FirstIsBest(models, order, j);
      assert ranked[0].Model() == ranks[0];
    }
  }

  /** The start of GenerateRuin: CreateEmptyPopulation, then every
      individual randomized in place. top names a best-scoring one. */
  method InitialPopulation(n: int, d: Coord, notebook: seq<Blueprint>, ghost designs: seq<Grid>,
                           ghost narrs: seq<array3<int>>, stable: Grid -> bool)
    returns (pop: seq<Blueprint>, ghost arrs: seq<array3<int>>, ghost initial: seq<Grid>, ghost top: int)
    requires 1 <= n && NonNegative(d) && Holds(notebook, designs, narrs) && |notebook| > 0
    ensures |pop| == n && Holds(pop, initial, arrs) && Holds(notebook, designs, narrs)
    ensures forall k {:trigger initial[k]} :: 0 <= k < |initial| ==>
      RandomOf(d, designs, stable, initial[k]) && WellFormed(initial[k]) && initial[k].dims == d
    ensures 0 <= top < n && forall k {:trigger initial[k]} :: 0 <= k < n ==> CoveredVolume(initial[k]) <= CoveredVolume(initial[top])
  {
    pop, arrs := CreateEmptyPopulation(n, d);
    assert Apart(pop, notebook) && Apart(arrs, narrs);
    initial := RandomizePopulation(pop, d, Empties(n, d), arrs, notebook, designs, narrs, stable);
    HoldsWellFormed(pop, initial, arrs);
    ghost var keys := seq(n, k requires 0 <= k < n => CoveredVolume(initial[k]));
    top := HighestKey(keys);
    assert forall k {:trigger initial[k]} :: 0 <= k < n ==> CoveredVolume(initial[k]) == keys[k];
  }

  /** One round as a relation between generations: order ranks cur by
      non-increasing score and next is a next generation of that ranking
      drawing the parents listed in parents. */
  ghost predicate RoundOf(cur: seq<Grid>, order: seq<int>, parents: seq<int>, next: seq<Grid>, e: int, s: int,
                          designs: seq<Grid>, stable: Grid -> bool)
  {
    IsOrder(order, |cur|) && |order| == |cur| &&
    (forall i {:trigger order[i]} :: 0 <= i < |order| ==> 0 <= order[i] < |cur|) &&
    ByScore(Reordered(cur, order)) &&
    NextGeneration(Reordered(cur, order), parents, next, e, s, designs, stable)
  }

  /** gens[r + 1] is the generation that round r breeds from gens[r]. */
  ghost predicate Lineage(gens: seq<seq<Grid>>, orders: seq<seq<int>>, parents: seq<seq<int>>, e: int, s: int,
                          designs: seq<Grid>, stable: Grid -> bool)
  {
    |gens| == |orders| + 1 && |parents| == |orders| &&
    forall r {:trigger orders[r]} :: 0 <= r < |orders| ==>
      RoundOf(gens[r], orders[r], parents[r], gens[r + 1], e, s, designs, stable)
  }

  /** One more round extends a lineage. */
  lemma LineageExtend(gens: seq<seq<Grid>>, orders: seq<seq<int>>, parents: seq<seq<int>>, e: int, s: int,
                      designs: seq<Grid>, stable: Grid -> bool, order: seq<int>, ps: seq<int>, next: seq<Grid>)
    requires Lineage(gens, orders, parents, e, s, designs, stable)
    requires RoundOf(gens[|gens| - 1], order, ps, next, e, s, designs, stable)
    ensures Lineage(gens + [next], orders + [order], parents + [ps], e, s, designs, stable)
  {
    var gens', orders', parents' := gens + [next], orders + [order], parents + [ps];
    forall r | 0 <= r < |orders'|
      ensures RoundOf(gens'[r], orders'[r], parents'[r], gens'[r + 1], e, s, designs, stable)
    {
      if r < |orders| {
        assert orders'[r] == orders[r] && parents'[r] == parents[r];
        assert gens'[r] == gens[r] && gens'[r + 1] == gens[r + 1];
      } else {
        assert orders'[r] == order && parents'[r] == ps;
        assert gens'[r] == gens[|gens| - 1] && gens'[r + 1] == next;
      }
    }
  }

  /** With at least one elite, no grid of any generation of a lineage
      scores above the first grid of its last generation. */
  lemma {:induction false} ElitistLineage(gens: seq<seq<Grid>>, orders: seq<seq<int>>, parents: seq<seq<int>>, e: int,
                                          s: int, designs: seq<Grid>, stable: Grid -> bool, r: int, j: int)
    requires Lineage(gens, orders, parents, e, s, designs, stable) && e >= 1
    requires 0 <= r < |orders| && 0 <= j < |gens[r]|
    ensures |gens[|gens| - 1]| > 0 && WellFormed(gens[r][j]) && WellFormed(gens[|gens| - 1][0])
    ensures CoveredVolume(gens[r][j]) <= CoveredVolume(gens[|gens| - 1][0])
    decreases |orders| - r
  {
    assert RoundOf(gens[r], orders[r], parents[r], gens[r + 1], e, s, designs, stable);
    EliteKeepsBest(gens[r], orders[r], parents[r], gens[r + 1], e, s, designs, stable);
    if r + 1 < |orders| {
      ElitistLineage(gens, orders, parents, e, s, designs, stable, r + 1, 0);
    }
  }

  /** The rounds loop of GenerateRuin: the generations it passes through
      form a lineage of max(rounds, 0) rounds from models to models'. With
      at least one elite (or no round at all), the best score never drops
      below the best initial one. */
  method Evolve(pop: seq<Blueprint>, rounds: int, d: Coord, e: int, s: int,
                notebook: seq<Blueprint>, ghost designs: seq<Grid>, ghost narrs: seq<array3<int>>,
                stable: Grid -> bool, ghost models: seq<Grid>, ghost arrs: seq<array3<int>>,
                ghost initial: seq<Grid>, ghost top: int)
    returns (last: seq<Blueprint>, ghost models': seq<Grid>, ghost arrs': seq<array3<int>>, ghost top': int,
             ghost gens: seq<seq<Grid>>, ghost orders: seq<seq<int>>, ghost parents: seq<seq<int>>)
    requires Holds(pop, models, arrs) && 1 <= |pop| && 0 <= e && 0 <= s && e + s <= |pop| && NonNegative(d)
    requires forall k {:trigger models[k]} :: 0 <= k < |models| ==> models[k].dims == d && WellFormed(models[k])
    requires Holds(notebook, designs, narrs) && |notebook| > 0
    requires |initial| == |pop| && 0 <= top < |pop|
    requires forall k {:trigger initial[k]} :: 0 <= k < |initial| ==>
      WellFormed(initial[k]) && CoveredVolume(initial[k]) <= CoveredVolume(models[top])
    ensures |last| == |pop| && Holds(last, models', arrs') && 0 <= top' < |pop|
    ensures forall k {:trigger models'[k]} :: 0 <= k < |models'| ==> models'[k].dims == d && WellFormed(models'[k])
    ensures |orders| == (if rounds > 0 then rounds else 0) && Lineage(gens, orders, parents, e, s, designs, stable)
    ensures gens[0] == models && gens[|gens| - 1] == models'
    ensures e >= 1 || rounds <= 0 ==>
      forall k {:trigger initial[k]} :: 0 <= k < |initial| ==> CoveredVolume(initial[k]) <= CoveredVolume(models'[top'])
  {
    var round := 0;
    last, models', arrs', top' := pop, models, arrs, top;
    gens, orders, parents := [models], [], [];
    while round < rounds
      invariant |last| == |pop| && Holds(last, models', arrs') && Holds(notebook, designs, narrs)
      invariant forall k {:trigger models'[k]} :: 0 <= k < |models'| ==> models'[k].dims == d && WellFormed(models'[k])
      invariant 0 <= top' < |pop| && (round == 0 || round <= rounds)
      invariant |orders| == round && Lineage(gens, orders, parents, e, s, designs, stable)
      invariant gens[0] == models && gens[round] == models'
      invariant e >= 1 || round == 0 ==>
        forall k {:trigger initial[k]} :: 0 <= k < |initial| ==> CoveredVolume(initial[k]) <= CoveredVolume(models'[top'])
    {
      var next;
      ghost var order: seq<int>, ps: seq<int>, nextModels: seq<Grid>, nextArrs: seq<array3<int>>;
      next, order, ps, nextModels, nextArrs := Round(last, d, e, s, notebook, designs, narrs, stable, models', arrs');
      if e >= 1 {
        EliteKeepsBest(models', order, ps, nextModels, e, s, designs, stable);
        top' := 0;
      }
      LineageExtend(gens, orders, parents, e, s, designs, stable, order, ps, nextModels);
      gens, orders, parents := gens + [nextModels], orders + [order], parents + [ps];
      HoldsWellFormed(next, nextModels, nextArrs);
      last, models', arrs' := next, nextModels, nextArrs;
      round := round + 1;
    }
  }

  /** The generator's settings and its current population. */
  class RuinGenerator {
    var numRounds: int
    var numElite: int
    var popSize: int
    var numSurvivors: int
    var dimX: int
    var dimY: int
    var dimZ: int
    var population: seq<Blueprint>

    /** The defaults of RuinGenerator.cs. */
    constructor ()
      ensures numRounds == 100 && numElite == 0 && popSize == 100 && numSurvivors == 0
      ensures dimX == 10 && dimY == 10 && dimZ == 10 && population == []
    {
      numRounds, numElite, popSize, numSurvivors := 100, 0, 100, 0;
      dimX, dimY, dimZ := 10, 10, 10;
      population := [];
    }

    function Dims(): Coord
      reads this`dimX, this`dimY, this`dimZ
    {
      Coord(dimX, dimY, dimZ)
    }

    /** The settings under which every index GenerateRuin uses is in range
        and every blueprint it creates has non-negative dimensions. */
    predicate Settings()
      reads this`popSize, this`numElite, this`numSurvivors, this`dimX, this`dimY, this`dimZ
    {
      1 <= popSize && 0 <= numElite && 0 <= numSurvivors && numElite + numSurvivors <= popSize && NonNegative(Dims())
    }

    /** GenerateRuin: a random initial population, numRounds rounds of
        evolution, and the best-scoring individual of the final population,
        which is left sorted by score. The ghost results name the initial
        grids, the generations the rounds pass through (with each round's
        ranking and drawn parents) and the final ranking. */
    method GenerateRuin(notebook: seq<Blueprint>, ghost designs: seq<Grid>, ghost narrs: seq<array3<int>>,
                        stable: Grid -> bool)
      returns (best: Blueprint, ghost initial: seq<Grid>, ghost gens: seq<seq<Grid>>, ghost orders: seq<seq<int>>,
               ghost parents: seq<seq<int>>, ghost ranking: seq<int>)
      requires Settings() && Holds(notebook, designs, narrs) && |notebook| > 0
      modifies this`population
      ensures |population| == popSize && best == population[0] && best.Valid()
      ensures forall k {:trigger population[k]} :: 0 <= k < |population| ==>
        population[k].Valid() && population[k].dims == Dims() &&
        CoveredVolume(population[k].Model()) <= CoveredVolume(best.Model())
      ensures |initial| == popSize
      ensures forall k {:trigger initial[k]} :: 0 <= k < popSize ==>
        RandomOf(Dims(), designs, stable, initial[k]) && WellFormed(initial[k])
      ensures numElite >= 1 || numRounds <= 0 ==>
        forall k {:trigger initial[k]} :: 0 <= k < popSize ==> CoveredVolume(initial[k]) <= CoveredVolume(best.Model())
      ensures Lineage(gens, orders, parents, numElite, numSurvivors, designs, stable)
      ensures |orders| == (if numRounds > 0 then numRounds else 0) && gens[0] == initial
      ensures IsOrder(ranking, popSize) && |ranking| == popSize && |gens[|gens| - 1]| == popSize
      ensures forall i {:trigger ranking[i]} :: 0 <= i < popSize ==> 0 <= ranking[i] < popSize
      ensures forall k {:trigger population[k]} :: 0 <= k < popSize ==>
        population[k].Model() == gens[|gens| - 1][ranking[k]]
    {
      var n, d, e, s, rounds := popSize, Dims(), numElite, numSurvivors, numRounds;
      var pop;
      ghost var arrs, top, models;
      pop, arrs, initial, top := InitialPopulation(n, d, notebook, designs, narrs, stable);
      population := pop;
      pop, models, arrs, top, gens, orders, parents :=
        Evolve(pop, rounds, d, e, s, notebook, designs, narrs, stable, initial, arrs, initial, top);
      var ranked;
      ranked, ranking := SortForBest(pop, d, models, arrs);
      population := ranked;
      best := population[0];
    }
  }
}
