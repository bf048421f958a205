/**
 * Conway Cubes: a three-dimensional Game of Life. The pocket dimension is
 * symmetric in z, so a cube stores only the active cells with z >= 0 (the
 * "mirror-folded" half) and looks a neighbour at negative z up at |z|.
 */
module ConwayCubes {

  datatype Coordinate = Coordinate(x: int, y: int, z: int)

  /** `q` comes before (x, y, z) in the scan order: by z, then y, then x. */
  predicate ScannedBefore(q: Coordinate, z: int, y: int, x: int)
  {
    q.z < z || (q.z == z && q.y < y) || (q.z == z && q.y == y && q.x < x)
  }

  function Abs(n: int): (r: nat)
    ensures r == n || r == -n
  {
    if n < 0 then -n else n
  }

  /** Cells active in the initial slice z = 0: `#` at column x of row y. */
  function InitialCells(input: seq<string>): set<Coordinate>
  {
    set y, x | 0 <= y < |input| && 0 <= x < |input[y]| && input[y][x] == '#' :: Coordinate(x, y, 0)
  }

  /**
   * `ConwayCube`: the active cells and the bounds of the region that has been
   * simulated so far (x in minX..maxX, y in minY..maxY, z in -maxZ..maxZ).
   * The struct's fields are constants, so a cube is a value and `RunCycle`
   * builds a new one.
   */
  datatype Cube = Cube(activeCells: set<Coordinate>, minX: int, maxX: int, minY: int, maxY: int, maxZ: int)
  {
    predicate CellIsActive(x: int, y: int, z: int)
    {
      Coordinate(x, y, z) in activeCells
    }

    /** Every active cell lies in the folded half (z >= 0) of the bounds. */
    ghost predicate Valid()
    {
      forall p :: p in activeCells ==>
        minX <= p.x <= maxX && minY <= p.y <= maxY && 0 <= p.z <= maxZ
    }

    /**
     * The positions around (x, y, z), the centre excluded, whose folded
     * counterpart (z replaced by |z|) is active.
     */
    function ActiveNeighbors(x: int, y: int, z: int): (r: set<Coordinate>)
      ensures forall q :: q in r <==>
        (z - 1 <= q.z <= z + 1 && y - 1 <= q.y <= y + 1 && x - 1 <= q.x <= x + 1 &&
         q != Coordinate(x, y, z) && CellIsActive(q.x, q.y, Abs(q.z)))
    {
      var r := set nz, ny, nx | z - 1 <= nz <= z + 1 && y - 1 <= ny <= y + 1 && x - 1 <= nx <= x + 1 &&
        Coordinate(nx, ny, nz) != Coordinate(x, y, z) && CellIsActive(nx, ny, Abs(nz)) :: Coordinate(nx, ny, nz);
      assert forall q: Coordinate :: (z - 1 <= q.z <= z + 1 && y - 1 <= q.y <= y + 1 && x - 1 <= q.x <= x + 1 &&
        q != Coordinate(x, y, z) && CellIsActive(q.x, q.y, Abs(q.z))) ==> q in r by {
        forall q: Coordinate | z - 1 <= q.z <= z + 1 && y - 1 <= q.y <= y + 1 && x - 1 <= q.x <= x + 1 &&
          q != Coordinate(x, y, z) && CellIsActive(q.x, q.y, Abs(q.z))
          ensures q in r
        {
          assert q == Coordinate(q.x, q.y, q.z);
        }
      }
      r
    }

    /** The life rule: survive on 2 or 3 active neighbours, be born on exactly 3. */
    predicate Lives(x: int, y: int, z: int)
    {
      var n := |ActiveNeighbors(x, y, z)|;
      if CellIsActive(x, y, z) then n == 2 || n == 3 else n == 3
    }

    /** The region one cycle scans: two cells beyond the bounds in x and y, z from 0 to maxZ + 2. */
    predicate InScan(p: Coordinate)
    {
      0 <= p.z <= maxZ + 2 && minY - 2 <= p.y <= maxY + 2 && minX - 2 <= p.x <= maxX + 2
    }

    /** The cube one cycle produces: the scanned cells that live, the bounds grown by one. */
    function Next(): (r: Cube)
      ensures forall p :: p in r.activeCells <==> InScan(p) && Lives(p.x, p.y, p.z)
      ensures r.minX == minX - 1 && r.maxX == maxX + 1 && r.minY == minY - 1 && r.maxY == maxY + 1
      ensures r.maxZ == maxZ + 1
    {
      var cells := set z, y, x | 0 <= z <= maxZ + 2 && minY - 2 <= y <= maxY + 2 && minX - 2 <= x <= maxX + 2 &&
        Lives(x, y, z) :: Coordinate(x, y, z);
      assert forall p: Coordinate :: InScan(p) && Lives(p.x, p.y, p.z) ==> p in cells by {
        forall p: Coordinate | InScan(p) && Lives(p.x, p.y, p.z) ensures p in cells {
          assert p == Coordinate(p.x, p.y, p.z);
        }
      }
      Cube(cells, minX - 1, maxX + 1, minY - 1, maxY + 1, maxZ + 1)
    }

    /** The neighbours of (x, y, z) that the scan of the box has counted before reaching (nx, ny, nz). */
    ghost predicate CountedBefore(counted: set<Coordinate>, x: int, y: int, z: int, nz: int, ny: int, nx: int)
    {
      forall q :: q in counted <==> q in ActiveNeighbors(x, y, z) && ScannedBefore(q, nz, ny, nx)
    }

    /** Visiting (nx, ny, nz) counts it exactly when it is an active neighbour. */
    lemma {:induction false} CountStep(counted: set<Coordinate>, x: int, y: int, z: int, nz: int, ny: int, nx: int)
      requires z - 1 <= nz <= z + 1 && y - 1 <= ny <= y + 1 && x - 1 <= nx <= x + 1
      requires CountedBefore(counted, x, y, z, nz, ny, nx)
      ensures var p := Coordinate(nx, ny, nz);
        p != Coordinate(x, y, z) && CellIsActive(nx, ny, Abs(nz)) ==>
          p !in counted && CountedBefore(counted + {p}, x, y, z, nz, ny, nx + 1)
      ensures var p := Coordinate(nx, ny, nz);
        p == Coordinate(x, y, z) || !CellIsActive(nx, ny, Abs(nz)) ==>
          CountedBefore(counted, x, y, z, nz, ny, nx + 1)
    {
    }

    /** After the last position of a row, the scan continues at the start of the next row. */
    lemma {:induction false} RowDone(counted: set<Coordinate>, x: int, y: int, z: int, nz: int, ny: int)
      requires CountedBefore(counted, x, y, z, nz, ny, x + 2)
      ensures CountedBefore(counted, x, y, z, nz, ny + 1, x - 1)
    {
    }

    /** After the last row of a plane, the scan continues at the start of the next plane. */
    lemma {:induction false} PlaneDone(counted: set<Coordinate>, x: int, y: int, z: int, nz: int)
      requires CountedBefore(counted, x, y, z, nz, y + 2, x - 1)
      ensures CountedBefore(counted, x, y, z, nz + 1, y - 1, x - 1)
    {
    }

    /**
     * `activeNeighborCount`: visits the 3x3x3 box around the cell, skips the
     * centre, and counts the positions whose folded counterpart is active.
     */
    method ActiveNeighborCount(x: int, y: int, z: int) returns (count: int)
      ensures count == |ActiveNeighbors(x, y, z)|
      ensures 0 <= count <= 26
    {
      count := 0;
      ghost var counted: set<Coordinate> := {};
      ghost var visited := 0;
      for nz := z - 1 to z + 2
        invariant count == |counted| && count <= visited
        invariant visited == 9 * (nz - (z - 1)) - (if nz > z then 1 else 0)
        invariant CountedBefore(counted, x, y, z, nz, y - 1, x - 1)
      {
        for ny := y - 1 to y + 2
          invariant count == |counted| && count <= visited
          invariant visited == 9 * (nz - (z - 1)) + 3 * (ny - (y - 1)) - (if nz > z || (nz == z && ny > y) then 1 else 0)
          invariant CountedBefore(counted, x, y, z, nz, ny, x - 1)
        {
          for nx := x - 1 to x + 2
            invariant count == |counted| && count <= visited
            invariant visited == 9 * (nz - (z - 1)) + 3 * (ny - (y - 1)) + (nx - (x - 1)) -
              (if nz > z || (nz == z && ny > y) || (nz == z && ny == y && nx > x) then 1 else 0)
            invariant CountedBefore(counted, x, y, z, nz, ny, nx)
          {
            CountStep(counted, x, y, z, nz, ny, nx);
            if Coordinate(x, y, z) != Coordinate(nx, ny, nz) {
              visited := visited + 1;
              if CellIsActive(nx, ny, Abs(nz)) {
                counted := counted + {Coordinate(nx, ny, nz)};
                count := count + 1;
              }
            }
          }
          RowDone(counted, x, y, z, nz, ny);
        }
        PlaneDone(counted, x, y, z, nz);
      }
      assert counted == ActiveNeighbors(x, y, z);
    }

    /**
     * `runCycle`: scans z from 0 to maxZ + 2 and x, y two cells beyond the
     * bounds, applies the life rule to every scanned cell, and returns a new
     * cube whose bounds are one wider on each side. The scan ranges must not
     * be empty (a reversed closed range traps).
     */
    method RunCycle() returns (r: Cube)
      requires maxZ >= -2 && minY - 4 <= maxY && minX - 4 <= maxX
      ensures r == Next()
    {
      var cells: set<Coordinate> := {};
      for z := 0 to maxZ + 3
        invariant forall p :: p in cells <==> InScan(p) && Lives(p.x, p.y, p.z) && p.z < z
      {
        for y := minY - 2 to maxY + 3
          invariant forall p :: p in cells <==> InScan(p) && Lives(p.x, p.y, p.z) && (p.z < z || (p.z == z && p.y < y))
        {
          for x := minX - 2 to maxX + 3
            invariant forall p :: p in cells <==> (InScan(p) && Lives(p.x, p.y, p.z) &&
              (p.z < z || (p.z == z && p.y < y) || (p.z == z && p.y == y && p.x < x)))
          {
            if CellIsActive(x, y, z) {
              var neighbors := ActiveNeighborCount(x, y, z);
              if neighbors == 2 || neighbors == 3 {
                cells := cells + {Coordinate(x, y, z)};
              }
            } else {
              var neighbors := ActiveNeighborCount(x, y, z);
              if neighbors == 3 {
                cells := cells + {Coordinate(x, y, z)};
              }
            }
          }
        }
      }
      r := Cube(cells, minX - 1, maxX + 1, minY - 1, maxY + 1, maxZ + 1);
      assert r.activeCells == Next().activeCells;
    }

    /** `count`: a cell at z = 0 counts once, any other cell twice (it stands for its mirror image too). */
    method Count() returns (n: int)
      ensures n == |set p | p in activeCells && p.z == 0| + 2 * |set p | p in activeCells && p.z != 0|
    {
      n := 0;
      var remaining := activeCells;
      while remaining != {}
        invariant remaining <= activeCells
        invariant n + |set p | p in remaining && p.z == 0| + 2 * |set p | p in remaining && p.z != 0| ==
          |set p | p in activeCells && p.z == 0| + 2 * |set p | p in activeCells && p.z != 0|
        decreases |remaining|
      {
        var c :| c in remaining;
        var rest := remaining - {c};
        if c.z == 0 {
          assert (set p | p in remaining && p.z == 0) == (set p | p in rest && p.z == 0) + {c};
          assert (set p | p in remaining && p.z != 0) == (set p | p in rest && p.z != 0);
          n := n + 1;
        } else {
          assert (set p | p in remaining && p.z == 0) == (set p | p in rest && p.z == 0);
          assert (set p | p in remaining && p.z != 0) == (set p | p in rest && p.z != 0) + {c};
          n := n + 2;
        }
        remaining := rest;
      }
      assert (set p | p in remaining && p.z == 0) == {};
      assert (set p | p in remaining && p.z != 0) == {};
    }
  }

  /** `init(input:)`: `#` at column x of row y is the active cell (x, y, 0). */
  method FromInput(input: seq<string>) returns (cube: Cube)
    ensures cube.activeCells == InitialCells(input)
    ensures cube.minX == 0 && cube.maxX == (if |input| == 0 then 0 else |input[0]|) - 1
    ensures cube.minY == 0 && cube.maxY == |input| - 1 && cube.maxZ == 0
  {
    var cells: set<Coordinate> := {};
    for y := 0 to |input|
      invariant forall p :: p in cells <==> p in InitialCells(input) && p.y < y
    {
      for x := 0 to |input[y]|
        invariant forall p :: p in cells <==> p in InitialCells(input) && (p.y < y || (p.y == y && p.x < x))
      {
        if input[y][x] == '#' {
          cells := cells + {Coordinate(x, y, 0)};
        }
      }
    }
    assert cells == InitialCells(input);
    cube := Cube(cells, 0, (if |input| == 0 then 0 else |input[0]|) - 1, 0, |input| - 1, 0);
  }

  /** The initial cube is valid when no row is wider than the first one. */
  lemma {:induction false} FromInputValid(input: seq<string>)
    requires forall y :: 0 <= y < |input| ==> |input[y]| <= |input[0]|
    ensures Cube(InitialCells(input), 0, (if |input| == 0 then 0 else |input[0]|) - 1, 0, |input| - 1, 0).Valid()
  {
  }

  /**
   * The scan is wide enough: in a valid cube no cell beyond one step outside
   * the bounds has an active neighbour, so none of them lives.
   */
  lemma {:induction false} NothingLivesFarOut(c: Cube, p: Coordinate)
    requires c.Valid() && p.z >= 0
    requires !(c.minX - 1 <= p.x <= c.maxX + 1 && c.minY - 1 <= p.y <= c.maxY + 1 && p.z <= c.maxZ + 1)
    ensures c.ActiveNeighbors(p.x, p.y, p.z) == {}
    ensures !c.Lives(p.x, p.y, p.z)
  {
    forall q | q in c.ActiveNeighbors(p.x, p.y, p.z) ensures false {
    }
  }

  /** A cycle keeps a valid cube valid: every new cell lies in the grown bounds. */
  lemma {:induction false} NextValid(c: Cube)
    requires c.Valid()
    ensures c.Next().Valid()
  {
    forall p | p in c.Next().activeCells
      ensures c.minX - 1 <= p.x <= c.maxX + 1 && c.minY - 1 <= p.y <= c.maxY + 1 && 0 <= p.z <= c.maxZ + 1
    {
      if !(c.minX - 1 <= p.x <= c.maxX + 1 && c.minY - 1 <= p.y <= c.maxY + 1 && p.z <= c.maxZ + 1) {
        NothingLivesFarOut(c, p);
      }
    }
  }

  /**
   * A valid cube's cells that the scan misses would not live anyway, so the
   * next cube holds exactly the living cells of the whole folded half.
   */
  lemma {:induction false} NextIsComplete(c: Cube, p: Coordinate)
    requires c.Valid() && p.z >= 0
    ensures p in c.Next().activeCells <==> c.Lives(p.x, p.y, p.z)
  {
    if !c.InScan(p) {
      NothingLivesFarOut(c, p);
    }
  }

  /** The mirror image of a position in the plane z = 0. */
  function Mirror(p: Coordinate): Coordinate
  {
    Coordinate(p.x, p.y, -p.z)
  }

  function Mirrored(cells: set<Coordinate>): set<Coordinate>
  {
    set p | p in cells :: Mirror(p)
  }

  /** The unfolded pocket dimension: the stored cells and their mirror images at -z. */
  function Unfold(cells: set<Coordinate>): (r: set<Coordinate>)
    ensures forall p :: p in cells ==> p in r
  {
    cells + set p | p in cells && p.z != 0 :: Mirror(p)
  }

  /** Looking a position up at |z| is looking it up in the unfolded dimension. */
  lemma {:induction false} UnfoldLookup(c: Cube, q: Coordinate)
    requires c.Valid()
    ensures q in Unfold(c.activeCells) <==> c.CellIsActive(q.x, q.y, Abs(q.z))
  {
    if q.z < 0 && c.CellIsActive(q.x, q.y, Abs(q.z)) {
      var p := Coordinate(q.x, q.y, -q.z);
      assert p in c.activeCells && p.z != 0;
    }
  }

  /** Reflecting cells is injective, so it keeps their number. */
  lemma {:induction false} ReflectionSize(s: set<Coordinate>)
    ensures |Mirrored(s)| == |s|
    decreases |s|
  {
    if s != {} {
      var c :| c in s;
      var rest := s - {c};
      ReflectionSize(rest);
      forall q | q in Mirrored(s) ensures q in Mirrored(rest) + {Mirror(c)} {
        var p :| p in s && q == Mirror(p);
        if p != c { assert p in rest; }
      }
      forall q | q in Mirrored(rest) ensures q in Mirrored(s) {
        var p :| p in rest && q == Mirror(p);
        assert p in s;
      }
      assert Mirror(c) in Mirrored(s);
      assert Mirrored(s) == Mirrored(rest) + {Mirror(c)};
      forall p | p in rest ensures Mirror(p) != Mirror(c) {
        assert p != c;
      }
    }
  }

  /** `count` is the number of active cells of the whole, unfolded, pocket dimension. */
  lemma {:induction false} CountIsUnfoldedSize(c: Cube)
    requires c.Valid()
    ensures |Unfold(c.activeCells)| ==
      |set p | p in c.activeCells && p.z == 0| + 2 * |set p | p in c.activeCells && p.z != 0|
  {
    var flat := set p | p in c.activeCells && p.z == 0;
    var raised := set p | p in c.activeCells && p.z != 0;
    var mirror := Mirrored(raised);
    ReflectionSize(raised);
    assert c.activeCells == flat + raised;
    assert flat * raised == {};
    assert (set p | p in c.activeCells && p.z != 0 :: Mirror(p)) == mirror;
    assert c.activeCells * mirror == {};
  }
}
