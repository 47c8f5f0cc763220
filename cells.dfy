/** The Cell class of gol.py: a grid position with an alive flag, the distance
    between two cells and the neighbour count of one cell against a list of cells. */
module Cells {

  /** A cell of the grid. Its position never changes after creation; the grid
      rewrites `alive` from one generation to the next. */
  datatype Cell = Cell(x: int, y: int, alive: bool)

  /** The position of a cell, the pair `[x, y]` that the grid compares seeds against. */
  function Pos(c: Cell): (int, int)
  {
    (c.x, c.y)
  }

  /** The square of the Euclidean distance that `compute_distance` takes the root of.
      It is zero exactly when the two points coincide. */
  function SquaredDistance(x1: int, y1: int, x2: int, y2: int): (d2: nat)
    ensures d2 == 0 <==> x1 == x2 && y1 == y2
  {
    SquareNonNegative(x1 - x2);
    SquareNonNegative(y1 - y2);
    SquarePositive(x1 - x2);
    SquarePositive(y1 - y2);
    (x1 - x2) * (x1 - x2) + (y1 - y2) * (y1 - y2)
  }

  lemma SquareNonNegative(a: int)
    ensures a * a >= 0
  {
    if a < 0 {
      assert a * a == (-a) * (-a);
    }
  }

  lemma SquarePositive(a: int)
    ensures a != 0 ==> a * a >= 1
  {
    if a < 0 {
      assert a * a == (-a) * (-a);
    }
  }

  /** The integer square root of n: the unique r with r*r <= n < (r+1)*(r+1).
      It stands in for `int(sqrt(n))`, which can differ from it for very large
      n under float rounding; the test `int(sqrt(d2)) == 1` agrees with
      `FloorSqrt(d2) == 1` on every d2. */
  function FloorSqrt(n: nat): (r: nat)
    ensures r * r <= n < (r + 1) * (r + 1)
  {
    if n == 0 then 0
    else
      var s := FloorSqrt(n - 1);
      if (s + 1) * (s + 1) <= n then
        assert (s + 1) * (s + 1) == n;
        assert (s + 2) * (s + 2) == n + 2 * s + 3;
        s + 1
      else
        s
  }

  /** The adjacency test of `get_neighbours` on the squared distance d2:
      `int(distance) == 1 or distance == sqrt(2)`. */
  predicate IsNeighbourDistance(d2: nat)
  {
    FloorSqrt(d2) == 1 || d2 == 2
  }

  /** The float test is the integer interval 1 <= d2 < 4. */
  lemma NeighbourDistanceIff(d2: nat)
    ensures IsNeighbourDistance(d2) <==> 1 <= d2 < 4
  {
  }

  /** On a squared distance of integer coordinates the test accepts exactly the
      eight offsets {-1,0,1}^2 without (0,0); the squared distance is then 1 or 2. */
  lemma NeighbourOffsets(x1: int, y1: int, x2: int, y2: int)
    ensures IsNeighbourDistance(SquaredDistance(x1, y1, x2, y2))
        <==> -1 <= x1 - x2 <= 1 && -1 <= y1 - y2 <= 1 && (x1, y1) != (x2, y2)
    ensures IsNeighbourDistance(SquaredDistance(x1, y1, x2, y2))
        <==> SquaredDistance(x1, y1, x2, y2) in {1, 2}
  {
    var dx, dy := x1 - x2, y1 - y2;
    var d2 := SquaredDistance(x1, y1, x2, y2);
    NeighbourDistanceIff(d2);
    SquareNonNegative(dx);
    SquareNonNegative(dy);
    SquareAtLeastFour(dx);
    SquareAtLeastFour(dy);
    if -1 <= dx <= 1 && -1 <= dy <= 1 {
      assert dx * dx == (if dx == 0 then 0 else 1);
      assert dy * dy == (if dy == 0 then 0 else 1);
    }
  }

  lemma SquareAtLeastFour(a: int)
    ensures (a < -1 || 1 < a) ==> a * a >= 4
  {
    if a > 1 {
      assert a * a >= 2 * a;
    } else if a < -1 {
      assert a * a == (-a) * (-a);
      assert (-a) * (-a) >= 2 * (-a);
    }
  }

  /** Whether `self.get_neighbours` counts `other`: `other` is alive and at
      distance 1 or sqrt(2) from `self`. */
  predicate Counts(self: Cell, other: Cell)
  {
    IsNeighbourDistance(SquaredDistance(self.x, self.y, other.x, other.y)) && other.alive
  }

  /** A cell never counts itself, whatever its state. */
  lemma SelfNeverCounts(c: Cell)
    ensures !Counts(c, c)
  {
    NeighbourOffsets(c.x, c.y, c.x, c.y);
  }

  /** The number of cells of `cells` that `self` counts, taken in list order. */
  function NeighbourCount(self: Cell, cells: seq<Cell>): nat
  {
    if cells == [] then 0
    else NeighbourCount(self, cells[..|cells| - 1]) + (if Counts(self, cells[|cells| - 1]) then 1 else 0)
  }

  /** `Cell.get_neighbours`: scan every cell of the list and count those at
      neighbour distance that are alive. Reads the list only. */
  method GetNeighbours(self: Cell, cells: seq<Cell>) returns (neighbours: nat)
    ensures neighbours == NeighbourCount(self, cells)
  {
    neighbours := 0;
    for k := 0 to |cells|
      invariant neighbours == NeighbourCount(self, cells[..k])
    {
      var cell := cells[k];
      var distance := SquaredDistance(self.x, self.y, cell.x, cell.y);
      assert cells[..k + 1][..k] == cells[..k];
      if IsNeighbourDistance(distance) && cell.alive {
        neighbours := neighbours + 1;
      }
    }
    assert cells[..|cells|] == cells;
  }

  /** The reference notion of neighbour: alive and at one of the eight offsets
      around `self`. */
  predicate IsAdjacentAlive(self: Cell, other: Cell)
  {
    other.alive && Pos(other) != Pos(self)
    && -1 <= other.x - self.x <= 1 && -1 <= other.y - self.y <= 1
  }

  /** The number of cells of `cells` that are alive at one of the eight offsets. */
  function AdjacentAliveCount(self: Cell, cells: seq<Cell>): nat
  {
    if cells == [] then 0
    else AdjacentAliveCount(self, cells[..|cells| - 1]) + (if IsAdjacentAlive(self, cells[|cells| - 1]) then 1 else 0)
  }

  /** Counting by distance is counting by the eight offsets. */
  lemma {:induction false} NeighbourCountIsAdjacentCount(self: Cell, cells: seq<Cell>)
    ensures NeighbourCount(self, cells) == AdjacentAliveCount(self, cells)
  {
    if cells != [] {
      var last := cells[|cells| - 1];
      NeighbourCountIsAdjacentCount(self, cells[..|cells| - 1]);
      NeighbourOffsets(self.x, self.y, last.x, last.y);
    }
  }

  /** The count never exceeds the number of cells scanned. */
  lemma {:induction false} NeighbourCountAtMostLength(self: Cell, cells: seq<Cell>)
    ensures NeighbourCount(self, cells) <= |cells|
  {
    if cells != [] {
      NeighbourCountAtMostLength(self, cells[..|cells| - 1]);
    }
  }

  /** With no alive cell in the list, every count is zero. */
  lemma {:induction false} NoAliveNoNeighbours(self: Cell, cells: seq<Cell>)
    requires forall i :: 0 <= i < |cells| ==> !cells[i].alive
    ensures NeighbourCount(self, cells) == 0
  {
    if cells != [] {
      NoAliveNoNeighbours(self, cells[..|cells| - 1]);
    }
  }

  /** No two cells of the list share a position. */
  predicate DistinctPositions(cells: seq<Cell>)
  {
    forall i, j :: 0 <= i < j < |cells| ==> Pos(cells[i]) != Pos(cells[j])
  }

  /** The eight positions around a cell. */
  function Ring(c: Cell): set<(int, int)>
  {
    {(c.x - 1, c.y - 1), (c.x, c.y - 1), (c.x + 1, c.y - 1),
     (c.x - 1, c.y),                     (c.x + 1, c.y),
     (c.x - 1, c.y + 1), (c.x, c.y + 1), (c.x + 1, c.y + 1)}
  }

  /** When the cells have distinct positions and every counted one lies in S,
      the count is at most |S|. */
  lemma {:induction false} CountWithin(self: Cell, cells: seq<Cell>, s: set<(int, int)>)
    requires DistinctPositions(cells)
    requires forall j :: 0 <= j < |cells| && Counts(self, cells[j]) ==> Pos(cells[j]) in s
    ensures NeighbourCount(self, cells) <= |s|
  {
    if cells != [] {
      var n := |cells| - 1;
      var prefix := cells[..n];
      assert forall j :: 0 <= j < |prefix| ==> prefix[j] == cells[j];
      if Counts(self, cells[n]) {
        var p := Pos(cells[n]);
        CountWithin(self, prefix, s - {p});
      } else {
        CountWithin(self, prefix, s);
      }
    }
  }

  /** On a list of cells with distinct positions (a grid built by
      `initialize_cells`) a cell has at most eight neighbours. */
  lemma NeighbourCountAtMostEight(self: Cell, cells: seq<Cell>)
    requires DistinctPositions(cells)
    ensures NeighbourCount(self, cells) <= 8
  {
    forall j | 0 <= j < |cells| && Counts(self, cells[j])
      ensures Pos(cells[j]) in Ring(self)
    {
      NeighbourOffsets(self.x, self.y, cells[j].x, cells[j].y);
    }
    CountWithin(self, cells, Ring(self));
    assert |Ring(self)| <= 8;
  }
}
