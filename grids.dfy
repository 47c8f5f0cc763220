/** The Grid class of gol.py: construction of the cells from a seed list, the
    list of alive cells, and the generation update that rewrites the alive
    flags in place, cell after cell. */
module Grids {
  import opened Cells

  /** The number of iterations of Python's `range(n)`: n when positive, else 0. */
  function Dim(n: int): nat
  {
    if n > 0 then n else 0
  }

  // ---------------------------------------------------------------------------
  // Layout of the cells

  /** The positions of row r, column ascending. */
  function RowPositions(w: nat, r: int): seq<(int, int)>
  {
    seq(w, c => (c, r))
  }

  /** The positions of a w by h grid in the order `initialize_cells` creates
      them: row 0 first, column ascending within each row. */
  function Positions(w: nat, h: nat): seq<(int, int)>
  {
    if h == 0 then [] else Positions(w, h - 1) + RowPositions(w, h - 1)
  }

  /** The positions of a list of cells, in list order. */
  function Coords(cells: seq<Cell>): seq<(int, int)>
  {
    seq(|cells|, i requires 0 <= i < |cells| => Pos(cells[i]))
  }

  lemma CoordsAppend(cells: seq<Cell>, c: Cell)
    ensures Coords(cells + [c]) == Coords(cells) + [Pos(c)]
  {
  }

  /** There are exactly w*h positions. */
  lemma {:induction false} PositionsLength(w: nat, h: nat)
    ensures |Positions(w, h)| == w * h
  {
    if h > 0 {
      PositionsLength(w, h - 1);
      assert w * h == w * (h - 1) + w;
    }
  }

  /** The position at index r*w + c is column c of row r. */
  lemma {:induction false} PositionsAt(w: nat, h: nat, r: int, c: int)
    requires 0 <= r < h && 0 <= c < w
    ensures r * w + c < |Positions(w, h)| && Positions(w, h)[r * w + c] == (c, r)
  {
    var k := r * w + c;
    var prefix := Positions(w, h - 1);
    PositionsLength(w, h - 1);
    PositionsLength(w, h);
    RowMajorBound(r, c, w, h);
    assert Positions(w, h) == prefix + RowPositions(w, h - 1);
    if r < h - 1 {
      PositionsAt(w, h - 1, r, c);
      assert Positions(w, h)[k] == prefix[k];
    } else {
      assert k == |prefix| + c;
      assert Positions(w, h)[k] == RowPositions(w, h - 1)[c];
    }
  }

  /** Index r*w + c of a w by h grid is below w*h. */
  lemma RowMajorBound(r: nat, c: nat, w: nat, h: nat)
    requires r < h && c < w
    ensures r * w + c < h * w
  {
    assert r * w + c < r * w + w == (r + 1) * w;
    assert (r + 1) * w <= h * w;
  }

  /** Every position lies inside the grid. */
  lemma {:induction false} PositionsInRange(w: nat, h: nat)
    ensures forall i :: 0 <= i < |Positions(w, h)| ==>
      0 <= Positions(w, h)[i].0 < w && 0 <= Positions(w, h)[i].1 < h
  {
    if h > 0 {
      PositionsInRange(w, h - 1);
    }
  }

  /** No position occurs twice. */
  lemma {:induction false} PositionsDistinct(w: nat, h: nat)
    ensures forall i, j :: 0 <= i < j < |Positions(w, h)| ==> Positions(w, h)[i] != Positions(w, h)[j]
  {
    if h > 0 {
      PositionsDistinct(w, h - 1);
      PositionsInRange(w, h - 1);
      var p := Positions(w, h - 1);
      var q := Positions(w, h);
      forall i, j | 0 <= i < j < |q| ensures q[i] != q[j] {
        if j < |p| {
          assert q[i] == p[i] && q[j] == p[j];
        } else if i < |p| {
          assert q[i] == p[i] && q[i].1 < h - 1;
        }
      }
    }
  }

  /** The cells are laid out as a w by h grid in row-major order. */
  ghost predicate Layout(cells: seq<Cell>, w: nat, h: nat)
  {
    Coords(cells) == Positions(w, h)
  }

  /** A laid-out grid has w*h cells. */
  lemma LayoutLength(cells: seq<Cell>, w: nat, h: nat)
    requires Layout(cells, w, h)
    ensures |cells| == w * h
  {
    PositionsLength(w, h);
    assert |cells| == |Coords(cells)|;
  }

  /** A laid-out grid has w*h cells with distinct positions, all inside the grid. */
  lemma LayoutFacts(cells: seq<Cell>, w: nat, h: nat)
    requires Layout(cells, w, h)
    ensures |cells| == w * h
    ensures DistinctPositions(cells)
    ensures forall i :: 0 <= i < |cells| ==> 0 <= cells[i].x < w && 0 <= cells[i].y < h
  {
    PositionsLength(w, h);
    PositionsDistinct(w, h);
    PositionsInRange(w, h);
    assert forall i :: 0 <= i < |cells| ==> Pos(cells[i]) == Positions(w, h)[i];
  }

  /** The cells as `initialize_cells` leaves them: laid out as a w by h grid,
      each alive exactly when its position occurs in the seed list. */
  ghost predicate Seeded(cells: seq<Cell>, w: nat, h: nat, seeds: seq<(int, int)>)
  {
    Layout(cells, w, h) && forall i :: 0 <= i < |cells| ==> (cells[i].alive <==> Pos(cells[i]) in seeds)
  }

  /** The seeded grid depends only on which in-range positions occur among the
      seeds: duplicate seeds and seeds outside the grid change nothing. */
  lemma SeedingIgnoresDuplicatesAndOutOfRange(
    c1: seq<Cell>, c2: seq<Cell>, w: nat, h: nat, s1: seq<(int, int)>, s2: seq<(int, int)>)
    requires Seeded(c1, w, h, s1) && Seeded(c2, w, h, s2)
    requires forall x, y :: 0 <= x < w && 0 <= y < h ==> ((x, y) in s1 <==> (x, y) in s2)
    ensures c1 == c2
  {
    LayoutFacts(c1, w, h);
    LayoutFacts(c2, w, h);
    forall i | 0 <= i < |c1| ensures c1[i] == c2[i] {
      assert Pos(c1[i]) == Coords(c1)[i] == Coords(c2)[i] == Pos(c2[i]);
    }
  }

  /** In a seeded grid the cell at index row*w + column is at (column, row), and
      it is alive exactly when `[column, row]` is one of the seeds. */
  lemma SeededCellAt(cells: seq<Cell>, w: nat, h: nat, seeds: seq<(int, int)>, row: int, column: int)
    requires Seeded(cells, w, h, seeds)
    requires 0 <= row < h && 0 <= column < w
    ensures row * w + column < |cells|
    ensures cells[row * w + column].x == column && cells[row * w + column].y == row
    ensures cells[row * w + column].alive <==> (column, row) in seeds
  {
    PositionsAt(w, h, row, column);
    assert Pos(cells[row * w + column]) == Coords(cells)[row * w + column];
  }

  // ---------------------------------------------------------------------------
  // Alive cells

  /** The alive cells of the list, in list order. */
  function AliveCells(cells: seq<Cell>): seq<Cell>
  {
    if cells == [] then []
    else AliveCells(cells[..|cells| - 1]) + (if cells[|cells| - 1].alive then [cells[|cells| - 1]] else [])
  }

  /** The indices of the alive cells, ascending. */
  function AliveIndices(cells: seq<Cell>): seq<nat>
  {
    if cells == [] then []
    else AliveIndices(cells[..|cells| - 1]) + (if cells[|cells| - 1].alive then [|cells| - 1] else [])
  }

  /** There are as many alive cells as alive indices, and no more than cells. */
  lemma {:induction false} AliveCellsLength(cells: seq<Cell>)
    ensures |AliveCells(cells)| == |AliveIndices(cells)| <= |cells|
  {
    if cells != [] {
      AliveCellsLength(cells[..|cells| - 1]);
    }
  }

  /** The k-th alive cell is the cell at the k-th alive index. */
  lemma {:induction false} AliveCellsAtIndices(cells: seq<Cell>)
    ensures |AliveCells(cells)| == |AliveIndices(cells)|
    ensures forall k :: 0 <= k < |AliveIndices(cells)| ==>
      AliveIndices(cells)[k] < |cells| && AliveCells(cells)[k] == cells[AliveIndices(cells)[k]]
  {
    AliveCellsLength(cells);
    if cells != [] {
      var n := |cells| - 1;
      var prefix := cells[..n];
      AliveCellsAtIndices(prefix);
      AliveCellsLength(prefix);
      var r, idx := AliveCells(cells), AliveIndices(cells);
      forall k | 0 <= k < |idx| ensures idx[k] < |cells| && r[k] == cells[idx[k]] {
        if k < |AliveIndices(prefix)| {
          assert idx[k] == AliveIndices(prefix)[k] && r[k] == AliveCells(prefix)[k];
          assert prefix[idx[k]] == cells[idx[k]];
        } else {
          assert idx[k] == n && r[k] == cells[n];
        }
      }
    }
  }

  /** The alive indices increase and are all below the length. */
  lemma {:induction false} AliveIndicesAscending(cells: seq<Cell>)
    ensures forall k :: 0 <= k < |AliveIndices(cells)| ==> AliveIndices(cells)[k] < |cells|
    ensures forall k, l :: 0 <= k < l < |AliveIndices(cells)| ==> AliveIndices(cells)[k] < AliveIndices(cells)[l]
  {
    if cells != [] {
      AliveIndicesAscending(cells[..|cells| - 1]);
    }
  }

  /** An index is an alive index exactly when its cell is alive. */
  lemma {:induction false} AliveIndicesExact(cells: seq<Cell>)
    ensures forall i :: 0 <= i < |cells| ==> (i in AliveIndices(cells) <==> cells[i].alive)
  {
    if cells != [] {
      var n := |cells| - 1;
      var prefix := cells[..n];
      AliveIndicesExact(prefix);
      AliveIndicesAscending(prefix);
      assert forall i :: 0 <= i < n ==> prefix[i] == cells[i];
      assert n !in AliveIndices(prefix);
    }
  }

  /** `AliveCells` picks, in ascending index order, exactly the cells that are
      alive: the k-th alive cell is the cell at the k-th alive index, those
      indices increase, and an index is among them exactly when its cell is alive. */
  lemma AliveCellsSelection(cells: seq<Cell>)
    ensures |AliveCells(cells)| == |AliveIndices(cells)| <= |cells|
    ensures forall k :: 0 <= k < |AliveIndices(cells)| ==>
      AliveIndices(cells)[k] < |cells| && AliveCells(cells)[k] == cells[AliveIndices(cells)[k]]
    ensures forall k, l :: 0 <= k < l < |AliveIndices(cells)| ==> AliveIndices(cells)[k] < AliveIndices(cells)[l]
    ensures forall i :: 0 <= i < |cells| ==> (i in AliveIndices(cells) <==> cells[i].alive)
  {
    AliveCellsLength(cells);
    AliveCellsAtIndices(cells);
    AliveIndicesAscending(cells);
    AliveIndicesExact(cells);
  }

  /** Every cell returned is alive, and no alive cell is left out. */
  lemma AliveCellsMembers(cells: seq<Cell>)
    ensures forall c :: c in AliveCells(cells) ==> c.alive && c in cells
    ensures forall i :: 0 <= i < |cells| && cells[i].alive ==> cells[i] in AliveCells(cells)
  {
    AliveCellsSelection(cells);
    var r, idx := AliveCells(cells), AliveIndices(cells);
    forall c | c in r ensures c.alive && c in cells {
      var k :| 0 <= k < |r| && r[k] == c;
      assert idx[k] in idx;
    }
    forall i | 0 <= i < |cells| && cells[i].alive ensures cells[i] in r {
      var k :| 0 <= k < |idx| && idx[k] == i;
      assert r[k] == cells[i];
    }
  }

  /** On any grid at least 2 by 2 the seeds [0,0], [0,0], [1,1] give exactly
      two alive cells: the repeated seed marks one cell. */
  lemma DuplicateSeedCollapses(cells: seq<Cell>, w: nat, h: nat)
    requires w >= 2 && h >= 2 && Seeded(cells, w, h, [(0, 0), (0, 0), (1, 1)])
    ensures |AliveCells(cells)| == 2
  {
    var seeds := [(0, 0), (0, 0), (1, 1)];
    LayoutFacts(cells, w, h);
    SeededCellAt(cells, w, h, seeds, 0, 0);
    SeededCellAt(cells, w, h, seeds, 1, 1);
    assert Pos(cells[0]) == (0, 0) && Pos(cells[w + 1]) == (1, 1);
    AliveCellsSelection(cells);
    var idx := AliveIndices(cells);
    forall k | 0 <= k < |idx| ensures idx[k] == 0 || idx[k] == w + 1 {
      assert idx[k] < |cells| && cells[idx[k]].alive;
      assert Pos(cells[idx[k]]) == (0, 0) || Pos(cells[idx[k]]) == (1, 1);
    }
    assert 0 in idx && w + 1 in idx;
    TwoValuedAscending(idx, 0, w + 1);
  }

  /** A strictly ascending sequence that takes both of the values a < b and no
      other value has exactly two elements. */
  lemma TwoValuedAscending(s: seq<nat>, a: nat, b: nat)
    requires forall k, l :: 0 <= k < l < |s| ==> s[k] < s[l]
    requires forall k :: 0 <= k < |s| ==> s[k] == a || s[k] == b
    requires a in s && b in s && a < b
    ensures |s| == 2
  {
    var i :| 0 <= i < |s| && s[i] == a;
    var j :| 0 <= j < |s| && s[j] == b;
    assert i < j;
    assert s[0] in {a, b};
    assert i == 0;
    assert s[1] in {a, b};
    assert j == 1;
    assert s[|s| - 1] in {a, b};
    assert j == |s| - 1;
  }

  // ---------------------------------------------------------------------------
  // The generation update

  /** The B3/S23 decision `update_cells` takes for one cell, branch by branch. */
  function Rule(alive: bool, neighbours: int): (next: bool)
    ensures next <==> neighbours == 3 || (alive && neighbours == 2)
  {
    if alive then
      if neighbours < 2 then false
      else if neighbours > 3 then false
      else alive
    else
      if neighbours == 3 then true
      else alive
  }

  /** Visiting index i: count the neighbours of cell i against the list as it
      is now, and set its alive flag by the rule. */
  function Visit(cells: seq<Cell>, i: nat): (next: seq<Cell>)
    requires i < |cells|
    ensures |next| == |cells| && Coords(next) == Coords(cells)
  {
    cells[i := cells[i].(alive := Rule(cells[i].alive, NeighbourCount(cells[i], cells)))]
  }

  /** The list after the first k visits of `update_cells`, in index order. */
  function Stage(cells: seq<Cell>, k: nat): (s: seq<Cell>)
    requires k <= |cells|
    ensures |s| == |cells| && Coords(s) == Coords(cells)
  {
    if k == 0 then cells else Visit(Stage(cells, k - 1), k - 1)
  }

  /** One full pass of `update_cells`. */
  function Step(cells: seq<Cell>): (s: seq<Cell>)
    ensures |s| == |cells| && Coords(s) == Coords(cells)
  {
    Stage(cells, |cells|)
  }

  /** Before visit k, the cells from k on are still as they were. */
  lemma {:induction false} StageUnvisited(cells: seq<Cell>, k: nat, j: nat)
    requires k <= j < |cells|
    ensures Stage(cells, k)[j] == cells[j]
  {
    if k > 0 {
      StageUnvisited(cells, k - 1, j);
    }
  }

  /** Once visited, a cell is not written again. */
  lemma {:induction false} StageVisited(cells: seq<Cell>, j: nat, k: nat, m: nat)
    requires j < k <= m <= |cells|
    ensures Stage(cells, m)[j] == Stage(cells, k)[j]
  {
    if m > k {
      StageVisited(cells, j, k, m - 1);
    }
  }

  /** The update is sequential: cell k's new state is the rule applied to its
      old state and to the count taken at visit k, against a list whose cells
      below k already hold their new states and whose cells from k on still
      hold their old ones. Its position does not change. */
  lemma SequentialUpdate(cells: seq<Cell>, k: nat)
    requires k < |cells|
    ensures forall j :: 0 <= j < k ==> Stage(cells, k)[j] == Step(cells)[j]
    ensures forall j :: k <= j < |cells| ==> Stage(cells, k)[j] == cells[j]
    ensures Pos(Step(cells)[k]) == Pos(cells[k])
    ensures Step(cells)[k].alive == Rule(cells[k].alive, NeighbourCount(cells[k], Stage(cells, k)))
  {
    forall j | 0 <= j < k ensures Stage(cells, k)[j] == Step(cells)[j] {
      StageVisited(cells, j, k, |cells|);
    }
    forall j | k <= j < |cells| ensures Stage(cells, k)[j] == cells[j] {
      StageUnvisited(cells, k, j);
    }
    StageVisited(cells, k, k + 1, |cells|);
  }

  /** With the cells' rule as B3/S23: an alive cell with fewer than two or more
      than three neighbours at its visit dies, with two or three it stays alive;
      a dead cell with exactly three is born, otherwise stays dead. */
  lemma UpdateRuleCases(cells: seq<Cell>, k: nat)
    requires k < |cells|
    ensures var n := NeighbourCount(cells[k], Stage(cells, k));
      && (cells[k].alive && n < 2 ==> !Step(cells)[k].alive)
      && (cells[k].alive && n > 3 ==> !Step(cells)[k].alive)
      && (cells[k].alive && 2 <= n <= 3 ==> Step(cells)[k].alive)
      && (!cells[k].alive && n == 3 ==> Step(cells)[k].alive)
      && (!cells[k].alive && n != 3 ==> !Step(cells)[k].alive)
  {
    SequentialUpdate(cells, k);
  }

  /** On a laid-out grid the count taken at each visit is at most eight. */
  lemma VisitCountAtMostEight(cells: seq<Cell>, w: nat, h: nat, k: nat)
    requires Layout(cells, w, h) && k < |cells|
    ensures NeighbourCount(cells[k], Stage(cells, k)) <= 8
  {
    assert Layout(Stage(cells, k), w, h);
    LayoutFacts(Stage(cells, k), w, h);
    StageUnvisited(cells, k, k);
    NeighbourCountAtMostEight(Stage(cells, k)[k], Stage(cells, k));
  }

  /** A grid without alive cells stays without alive cells at every stage. */
  lemma {:induction false} AllDeadStages(cells: seq<Cell>, k: nat)
    requires k <= |cells|
    requires forall i :: 0 <= i < |cells| ==> !cells[i].alive
    ensures Stage(cells, k) == cells
  {
    if k > 0 {
      AllDeadStages(cells, k - 1);
      NoAliveNoNeighbours(cells[k - 1], cells);
      assert cells[k - 1 := cells[k - 1]] == cells;
    }
  }

  /** A grid without alive cells is left unchanged by a generation update. */
  lemma AllDeadIsFixed(cells: seq<Cell>)
    requires forall i :: 0 <= i < |cells| ==> !cells[i].alive
    ensures Step(cells) == cells
  {
    AllDeadStages(cells, |cells|);
  }

  // ---------------------------------------------------------------------------
  // The grid object

  class Grid {
    const xSize: int
    const ySize: int
    const initialState: seq<(int, int)>
    var cells: seq<Cell>

    /** The cells cover the grid in row-major order. */
    ghost predicate Valid()
      reads this
    {
      Layout(cells, Dim(xSize), Dim(ySize))
    }

    /** `Grid.__init__`: store the dimensions and the seeds, then build the cells. */
    constructor (xSize: int, ySize: int, initialState: seq<(int, int)>)
      ensures this.xSize == xSize && this.ySize == ySize && this.initialState == initialState
      ensures Valid() && |cells| == Dim(xSize) * Dim(ySize)
      ensures Seeded(cells, Dim(xSize), Dim(ySize), initialState)
    {
      this.xSize := xSize;
      this.ySize := ySize;
      this.initialState := initialState;
      cells := [];
      new;
      InitializeCells();
      assert cells[0..] == cells;
      PositionsLength(Dim(xSize), Dim(ySize));
    }

    /** `Grid.initialize_cells`: for each row and each column within it, append
        a cell that is alive when some seed equals `[column, row]`. */
    method InitializeCells()
      modifies this
      ensures |cells| >= |old(cells)| && cells[..|old(cells)|] == old(cells)
      ensures Coords(cells[|old(cells)|..]) == Positions(Dim(xSize), Dim(ySize))
      ensures forall i :: |old(cells)| <= i < |cells| ==> (cells[i].alive <==> Pos(cells[i]) in initialState)
    {
      var start := |cells|;
      var w := Dim(xSize);
      var row := 0;
      while row < ySize
        invariant 0 <= row <= Dim(ySize)
        invariant |cells| >= start && cells[..start] == old(cells)
        invariant Coords(cells[start..]) == Positions(w, row)
        invariant forall i :: start <= i < |cells| ==> (cells[i].alive <==> Pos(cells[i]) in initialState)
      {
        var column := 0;
        while column < xSize
          invariant 0 <= column <= w
          invariant |cells| >= start && cells[..start] == old(cells)
          invariant Coords(cells[start..]) == Positions(w, row) + RowPositions(w, row)[..column]
          invariant forall i :: start <= i < |cells| ==> (cells[i].alive <==> Pos(cells[i]) in initialState)
        {
          var newCellState := false;
          var locationArray := (column, row);
          for k := 0 to |initialState|
            invariant newCellState <==> locationArray in initialState[..k]
          {
            assert initialState[..k + 1] == initialState[..k] + [initialState[k]];
            if initialState[k] == locationArray {
              newCellState := true;
            }
          }
          assert initialState[..|initialState|] == initialState;
          var newCell := Cell(column, row, newCellState);
          ghost var before := cells;
          AddCell(newCell);
          assert cells[start..] == before[start..] + [newCell];
          CoordsAppend(before[start..], newCell);
          assert RowPositions(w, row)[..column + 1] == RowPositions(w, row)[..column] + [(column, row)];
          column := column + 1;
        }
        assert RowPositions(w, row)[..w] == RowPositions(w, row);
        row := row + 1;
      }
    }

    /** `Grid.add_cell`: append one cell. */
    method AddCell(cell: Cell)
      modifies this
      ensures cells == old(cells) + [cell]
    {
      cells := cells + [cell];
    }

    /** `Grid.get_alive_cells`: the alive cells in storage order. Changes nothing. */
    method GetAliveCells() returns (aliveCells: seq<Cell>)
      ensures aliveCells == AliveCells(cells)
    {
      aliveCells := [];
      for i := 0 to |cells|
        invariant aliveCells == AliveCells(cells[..i])
      {
        assert cells[..i + 1][..i] == cells[..i];
        if cells[i].alive {
          aliveCells := aliveCells + [cells[i]];
        }
      }
      assert cells[..|cells|] == cells;
    }

    /** `Grid.update_cells`: visit the cells in index order; at each, count its
        neighbours against the current list and overwrite its alive flag by the
        rule, so later cells see the flags already written. Only alive flags
        change; the number of cells and every position stay. */
    method UpdateCells()
      requires Valid()
      modifies this
      ensures Valid()
      ensures |cells| == |old(cells)| && Coords(cells) == Coords(old(cells))
      ensures cells == Step(old(cells))
    {
      var i := 0;
      while i < |cells|
        invariant |cells| == |old(cells)| && 0 <= i <= |cells|
        invariant cells == Stage(old(cells), i)
      {
        var cell := cells[i];
        var neighbours := GetNeighbours(cell, cells);
        if cell.alive {
          if neighbours < 2 {
            cells := cells[i := cells[i].(alive := false)];
          } else if neighbours > 3 {
            cells := cells[i := cells[i].(alive := false)];
          }
        } else {
          if neighbours == 3 {
            cells := cells[i := cells[i].(alive := true)];
          }
        }
        assert cells == Visit(Stage(old(cells), i), i);
        i := i + 1;
      }
    }
  }
}
