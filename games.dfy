/** The Game class of gol.py: the seed list drawn at random, the grid built
    from it, and the 0/1 snapshot that the console and animation drivers show. */
module Games {
  import opened Cells
  import opened Grids

  /** `np.random.randint(high)` raises a ValueError when high <= 0. */
  datatype DrawError = NonPositiveHigh

  datatype Result<T> = Ok(value: T) | Err(error: DrawError)

  /** The random source: the pairs `[randint(x_size), randint(y_size)]` would
      return, in order. Each pair is in range. */
  ghost predicate DrawsInRange(draws: seq<(int, int)>, xSize: int, ySize: int)
  {
    forall k :: 0 <= k < |draws| ==> 0 <= draws[k].0 < xSize && 0 <= draws[k].1 < ySize
  }

  /** `Game.generate_initial_states`: draw `num` positions, one per iteration.
      The first draw fails when either size is not positive; with `num <= 0`
      nothing is drawn and the list is empty. */
  method GenerateInitialStates(xSize: int, ySize: int, num: int, draws: seq<(int, int)>)
    returns (r: Result<seq<(int, int)>>)
    requires DrawsInRange(draws, xSize, ySize)
    requires xSize > 0 && ySize > 0 ==> |draws| >= num
    ensures r.Err? <==> num > 0 && (xSize <= 0 || ySize <= 0)
    ensures r.Ok? ==> r.value == draws[..Dim(num)]
    ensures r.Ok? ==> forall k :: 0 <= k < |r.value| ==>
      0 <= r.value[k].0 < xSize && 0 <= r.value[k].1 < ySize
  {
    var states := [];
    var i := 0;
    while i < num
      invariant 0 <= i <= Dim(num)
      invariant i > 0 ==> xSize > 0 && ySize > 0
      invariant i <= |draws| && states == draws[..i]
    {
      if xSize <= 0 || ySize <= 0 {
        return Err(NonPositiveHigh);
      }
      var randomState := draws[i];
      states := states + [randomState];
      assert draws[..i + 1] == draws[..i] + [draws[i]];
      i := i + 1;
    }
    return Ok(states);
  }

  /** `Game.to_bits`: 1 for an alive flag, 0 otherwise. */
  function ToBits(n: bool): (b: int)
    ensures b == 0 || b == 1
    ensures b == 1 <==> n
  {
    if n == true then 1 else 0
  }

  /** The alive flags of the cells mapped through `to_bits`, in storage order. */
  function Bits(cells: seq<Cell>): (b: seq<int>)
    ensures |b| == |cells|
    ensures forall k :: 0 <= k < |cells| ==> b[k] == ToBits(cells[k].alive)
  {
    seq(|cells|, i requires 0 <= i < |cells| => ToBits(cells[i].alive))
  }

  /** numpy's `reshape((rows, cols))` of a flat list of rows*cols entries:
      rows lists of cols entries each, taken from the front. */
  function Reshape(flat: seq<int>, rows: nat, cols: nat): (m: seq<seq<int>>)
    requires |flat| == rows * cols
    ensures |m| == rows
    ensures forall i :: 0 <= i < rows ==> |m[i]| == cols
  {
    if rows == 0 then []
    else
      MulPred(rows, cols);
      [flat[..cols]] + Reshape(flat[cols..], rows - 1, cols)
  }

  lemma MulPred(i: nat, cols: nat)
    requires i > 0
    ensures (i - 1) * cols + cols == i * cols
  {
  }

  /** Entry [i][j] of the reshaped list is entry k == i*cols + j of the flat one. */
  lemma {:induction false} ReshapeAt(flat: seq<int>, rows: nat, cols: nat, i: nat, j: nat, k: nat)
    requires |flat| == rows * cols && i < rows && j < cols && k == i * cols + j
    ensures k < |flat| && Reshape(flat, rows, cols)[i][j] == flat[k]
  {
    MulPred(rows, cols);
    var rest := flat[cols..];
    assert Reshape(flat, rows, cols) == [flat[..cols]] + Reshape(rest, rows - 1, cols);
    if i > 0 {
      MulPred(i, cols);
      ReshapeAt(rest, rows - 1, cols, i - 1, j, k - cols);
      assert Reshape(flat, rows, cols)[i] == Reshape(rest, rows - 1, cols)[i - 1];
      assert rest[k - cols] == flat[k];
    } else {
      assert Reshape(flat, rows, cols)[i] == flat[..cols];
    }
  }

  /** The snapshot `get_grid` computes from a list of cells: the alive flags
      mapped through `to_bits` and reshaped to rows lists of cols entries. */
  function Snapshot(cells: seq<Cell>, rows: nat, cols: nat): (g: seq<seq<int>>)
    requires |cells| == rows * cols
    ensures |g| == rows
    ensures forall r :: 0 <= r < rows ==> |g[r]| == cols
  {
    Reshape(Bits(cells), rows, cols)
  }

  /** Entry [r][c] of the snapshot is the bit of the cell stored at index
      r*cols + c: 1 when that cell is alive, 0 when it is dead. */
  lemma {:induction false} SnapshotAt(cells: seq<Cell>, rows: nat, cols: nat, r: nat, c: nat)
    requires |cells| == rows * cols && r < rows && c < cols
    ensures r * cols + c < |cells|
    ensures Snapshot(cells, rows, cols)[r][c] == ToBits(cells[r * cols + c].alive)
    ensures Snapshot(cells, rows, cols)[r][c] == 1 <==> cells[r * cols + c].alive
    ensures Snapshot(cells, rows, cols)[r][c] == 0 <==> !cells[r * cols + c].alive
  {
    ReshapeAt(Bits(cells), rows, cols, r, c, r * cols + c);
  }

  /** The index of row r, column c in a row-major list with rows of cols entries. */
  function RowMajor(r: nat, c: nat, cols: nat): nat
  {
    r * cols + c
  }

  /** Every entry [r][c] of the snapshot is the bit of the cell stored at
      index r*cols + c. */
  lemma SnapshotEntries(cells: seq<Cell>, rows: nat, cols: nat)
    requires |cells| == rows * cols
    ensures forall r, c :: 0 <= r < rows && 0 <= c < cols ==>
      RowMajor(r, c, cols) < |cells| && Snapshot(cells, rows, cols)[r][c] == ToBits(cells[RowMajor(r, c, cols)].alive)
  {
    forall r, c | 0 <= r < rows && 0 <= c < cols
      ensures RowMajor(r, c, cols) < |cells| && Snapshot(cells, rows, cols)[r][c] == ToBits(cells[RowMajor(r, c, cols)].alive)
    {
      SnapshotAt(cells, rows, cols, r, c);
    }
  }

  /** Reshaped to (height, width), a laid-out grid shows each cell at [y][x]. */
  lemma SnapshotByRowsAt(cells: seq<Cell>, w: nat, h: nat, i: nat)
    requires Layout(cells, w, h) && i < |cells|
    ensures |cells| == h * w
    ensures 0 <= cells[i].y < h && 0 <= cells[i].x < w
    ensures Snapshot(cells, h, w)[cells[i].y][cells[i].x] == ToBits(cells[i].alive)
  {
    LayoutFacts(cells, w, h);
    assert w * h == h * w;
    var c := cells[i];
    PositionsAt(w, h, c.y, c.x);
    PositionsDistinct(w, h);
    assert Positions(w, h)[i] == Coords(cells)[i] == Pos(c) == Positions(w, h)[c.y * w + c.x];
    SnapshotAt(cells, h, w, c.y, c.x);
  }

  /** Reshaped to (height, width), the snapshot of a laid-out grid holds the
      bit of every cell at [y][x]. */
  lemma SnapshotByRows(cells: seq<Cell>, w: nat, h: nat)
    requires Layout(cells, w, h)
    ensures |cells| == h * w
    ensures forall i :: 0 <= i < |cells| ==>
      0 <= cells[i].y < h && 0 <= cells[i].x < w
      && Snapshot(cells, h, w)[cells[i].y][cells[i].x] == ToBits(cells[i].alive)
  {
    LayoutFacts(cells, w, h);
    assert w * h == h * w;
    forall i | 0 <= i < |cells|
      ensures 0 <= cells[i].y < h && 0 <= cells[i].x < w
      ensures Snapshot(cells, h, w)[cells[i].y][cells[i].x] == ToBits(cells[i].alive)
    {
      SnapshotByRowsAt(cells, w, h, i);
    }
  }

  class Game {
    const initialStates: seq<(int, int)>
    const grid: Grid

    ghost predicate Valid()
      reads this, grid
    {
      grid.Valid()
    }

    /** `Game.__init__`: draw the seeds, then build the grid from them. The
        random source is the parameter `draws`. */
    constructor (xSize: int, ySize: int, liveCells: int, draws: seq<(int, int)>)
      requires DrawsInRange(draws, xSize, ySize)
      requires liveCells <= 0 || (xSize > 0 && ySize > 0 && |draws| >= liveCells)
      ensures fresh(grid) && Valid()
      ensures initialStates == draws[..Dim(liveCells)]
      ensures grid.xSize == xSize && grid.ySize == ySize && grid.initialState == initialStates
      ensures Seeded(grid.cells, Dim(xSize), Dim(ySize), initialStates)
    {
      var states := GenerateInitialStates(xSize, ySize, liveCells, draws);
      initialStates := states.value;
      grid := new Grid(xSize, ySize, states.value);
    }

    /** `Game.get_grid`: the snapshot of `self.grid`, reshaped to
        `(x_size, y_size)`: x_size rows of y_size entries, entry [r][c] being
        the bit of the cell stored at index r*y_size + c. The source ignores
        its `grid` argument. Reads only. */
    function GetGrid(): (g: seq<seq<int>>)
      reads this, grid
      requires Valid() && grid.xSize >= 0 && grid.ySize >= 0
      ensures |grid.cells| == grid.xSize * grid.ySize
      ensures g == Snapshot(grid.cells, grid.xSize, grid.ySize)
      ensures |g| == grid.xSize
      ensures forall r, c :: 0 <= r < grid.xSize && 0 <= c < grid.ySize ==>
        RowMajor(r, c, grid.ySize) < |grid.cells| && |g[r]| == grid.ySize
        && g[r][c] == ToBits(grid.cells[RowMajor(r, c, grid.ySize)].alive)
    {
      LayoutLength(grid.cells, grid.xSize, grid.ySize);
      SnapshotEntries(grid.cells, grid.xSize, grid.ySize);
      Snapshot(grid.cells, grid.xSize, grid.ySize)
    }

    /** The snapshot reshaped to `(y_size, x_size)` instead: y_size rows of
        x_size entries, entry [y][x] being the bit of the cell at (x, y). */
    function GetGridByRows(): (g: seq<seq<int>>)
      reads this, grid
      requires Valid() && grid.xSize >= 0 && grid.ySize >= 0
      ensures |grid.cells| == grid.ySize * grid.xSize
      ensures g == Snapshot(grid.cells, grid.ySize, grid.xSize)
      ensures forall i :: 0 <= i < |grid.cells| ==>
        0 <= grid.cells[i].y < |g| && 0 <= grid.cells[i].x < |g[grid.cells[i].y]|
        && g[grid.cells[i].y][grid.cells[i].x] == ToBits(grid.cells[i].alive)
    {
      SnapshotByRows(grid.cells, grid.xSize, grid.ySize);
      Snapshot(grid.cells, grid.ySize, grid.xSize)
    }
  }

  /** On a 3-wide, 2-high grid `get_grid` returns three rows, and its entry
      [1][0] is the bit of the cell at (2, 0) of the first grid row, not of
      the cell at (0, 1) that row 1, column 0 of the grid holds. */
  lemma GetGridMisplacesNonSquare(game: Game)
    requires game.Valid() && game.grid.xSize == 3 && game.grid.ySize == 2
    ensures |game.GetGrid()| == 3
    ensures Pos(game.grid.cells[2]) == (2, 0) && Pos(game.grid.cells[3]) == (0, 1)
    ensures game.GetGrid()[1][0] == ToBits(game.grid.cells[2].alive)
    ensures game.GetGridByRows()[1][0] == ToBits(game.grid.cells[3].alive)
  {
    var cells := game.grid.cells;
    LayoutFacts(cells, 3, 2);
    PositionsAt(3, 2, 0, 2);
    PositionsAt(3, 2, 1, 0);
    SnapshotAt(cells, 3, 2, 1, 0);
    SnapshotAt(cells, 2, 3, 1, 0);
    assert Pos(cells[2]) == Coords(cells)[2];
    assert Pos(cells[3]) == Coords(cells)[3];
  }
}
