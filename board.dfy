/**
 * The 4x4 grid of the tile game as a value, and the rules main.c applies to
 * it: the four moves, the game-over test, the spawn of a new tile, the
 * score, the evaluation heuristic and the greedy choice of a move.
 *
 * A grid is a sequence of Size rows of Size cells; cell (r, c) is g[r][c],
 * row r counted from the top and column c from the left, as in
 * `int grid[GRID_SIZE][GRID_SIZE]`.
 */
module Board {
  import opened Line

  type Grid = seq<seq<int>>

  predicate IsGrid(g: Grid)
  {
    |g| == Size && forall r :: 0 <= r < Size ==> |g[r]| == Size
  }

  /** Every cell is empty or holds a power of two. */
  predicate AllTilesGrid(g: Grid)
    requires IsGrid(g)
  {
    forall r :: 0 <= r < Size ==> AllTiles(g[r])
  }

  /** The grid with every cell empty. */
  function ZeroGrid(): (g: Grid)
    ensures IsGrid(g)
    ensures forall r, c :: 0 <= r < Size && 0 <= c < Size ==> g[r][c] == Empty
  {
    seq(Size, _ => Zeros(Size))
  }

  lemma GridsEqual(a: Grid, b: Grid)
    requires IsGrid(a) && IsGrid(b)
    requires forall r, c :: 0 <= r < Size && 0 <= c < Size ==> a[r][c] == b[r][c]
    ensures a == b
  {
    forall r | 0 <= r < Size
      ensures a[r] == b[r]
    {
      assert forall c :: 0 <= c < Size ==> a[r][c] == b[r][c];
    }
  }

  // ---------------------------------------------------------------------
  // Directions and lines

  datatype Direction = Up | Left | Down | Right

  /** The order in which ai_make_move tries the directions. */
  const Order: seq<Direction> := [Up, Left, Down, Right]

  /** The position of d in Order. */
  function Rank(d: Direction): (i: nat)
    ensures i < |Order| && Order[i] == d
  {
    match d
    case Up => 0
    case Left => 1
    case Down => 2
    case Right => 3
  }

  /**
   * The row of the cell that is position i of line k when moving in
   * direction d: line k is row k for Left and Right and column k for Up and
   * Down, read from the side the tiles slide towards.
   */
  function CellRow(d: Direction, k: int, i: int): int
  {
    match d
    case Left => k
    case Right => k
    case Up => i
    case Down => Size - 1 - i
  }

  /** The column of the cell that is position i of line k in direction d. */
  function CellCol(d: Direction, k: int, i: int): int
  {
    match d
    case Left => i
    case Right => Size - 1 - i
    case Up => k
    case Down => k
  }

  /** The line of direction d that cell (r, c) belongs to. */
  function LineIndex(d: Direction, r: int, c: int): int
  {
    match d
    case Left => r
    case Right => r
    case Up => c
    case Down => c
  }

  /** The position of cell (r, c) within its line of direction d. */
  function LinePos(d: Direction, r: int, c: int): int
  {
    match d
    case Left => c
    case Right => Size - 1 - c
    case Up => r
    case Down => Size - 1 - r
  }

  /**
   * Line k of g for direction d, as main.c copies it into its temporary
   * buffer: move_right reads a row backwards, move_up a column downwards,
   * move_down a column upwards.
   */
  function LineAt(g: Grid, d: Direction, k: int): (s: seq<int>)
    requires IsGrid(g) && 0 <= k < Size
    ensures |s| == Size
    ensures forall i {:trigger s[i]} :: 0 <= i < Size ==> s[i] == g[CellRow(d, k, i)][CellCol(d, k, i)]
  {
    seq(Size, i requires 0 <= i < Size => g[CellRow(d, k, i)][CellCol(d, k, i)])
  }

  /**
   * The grid after moving in direction d: every line is merged on its own
   * and written back to the cells it was read from.
   */
  function Move(g: Grid, d: Direction): (m: Grid)
    requires IsGrid(g)
    ensures IsGrid(m)
  {
    MovedRows(g, d, Size)
  }

  /** Row r of the moved grid: each cell taken from the merged line it lies on. */
  function MovedRow(g: Grid, d: Direction, r: int): (row: seq<int>)
    requires IsGrid(g) && 0 <= r < Size
    ensures |row| == Size
  {
    seq(Size, c requires 0 <= c < Size => SlideRow(LineAt(g, d, LineIndex(d, r, c)))[LinePos(d, r, c)])
  }

  /** The first n rows of the moved grid. */
  function MovedRows(g: Grid, d: Direction, n: nat): (rows: seq<seq<int>>)
    requires IsGrid(g) && n <= Size
    ensures |rows| == n && forall r :: 0 <= r < n ==> |rows[r]| == Size
  {
    if n == 0 then [] else MovedRows(g, d, n - 1) + [MovedRow(g, d, n - 1)]
  }

  lemma {:induction false} MovedRowsAt(g: Grid, d: Direction, n: nat)
    requires IsGrid(g) && n <= Size
    ensures forall r :: 0 <= r < n ==> MovedRows(g, d, n)[r] == MovedRow(g, d, r)
  {
    if n > 0 {
      MovedRowsAt(g, d, n - 1);
    }
  }

  /** Cell (r, c) after a move is its position in its merged line. */
  lemma MoveCell(g: Grid, d: Direction, r: int, c: int)
    requires IsGrid(g) && 0 <= r < Size && 0 <= c < Size
    ensures Move(g, d)[r][c] == SlideRow(LineAt(g, d, LineIndex(d, r, c)))[LinePos(d, r, c)]
  {
    MovedRowsAt(g, d, Size);
  }

  /** A grid whose every cell is its position in its merged line is the moved grid. */
  lemma MoveFromCells(g: Grid, h: Grid, d: Direction)
    requires IsGrid(g) && IsGrid(h)
    requires forall r, c :: 0 <= r < Size && 0 <= c < Size ==>
      h[r][c] == SlideRow(LineAt(g, d, LineIndex(d, r, c)))[LinePos(d, r, c)]
    ensures h == Move(g, d)
  {
    forall r, c | 0 <= r < Size && 0 <= c < Size
      ensures h[r][c] == Move(g, d)[r][c]
    {
      MoveCell(g, d, r, c);
    }
    GridsEqual(h, Move(g, d));
  }

  /** After a move, line k of the grid is line k of the old grid, merged. */
  lemma LineAtMove(g: Grid, d: Direction, k: int)
    requires IsGrid(g) && 0 <= k < Size
    ensures LineAt(Move(g, d), d, k) == SlideRow(LineAt(g, d, k))
  {
    forall i | 0 <= i < Size
      ensures LineAt(Move(g, d), d, k)[i] == SlideRow(LineAt(g, d, k))[i]
    {
      MoveCell(g, d, CellRow(d, k, i), CellCol(d, k, i));
    }
  }

  /** Two grids whose lines of one direction agree are equal. */
  lemma LinesDetermineGrid(a: Grid, b: Grid, d: Direction)
    requires IsGrid(a) && IsGrid(b)
    requires forall k :: 0 <= k < Size ==> LineAt(a, d, k) == LineAt(b, d, k)
    ensures a == b
  {
    forall r, c | 0 <= r < Size && 0 <= c < Size
      ensures a[r][c] == b[r][c]
    {
      var k, i := LineIndex(d, r, c), LinePos(d, r, c);
      assert LineAt(a, d, k)[i] == LineAt(b, d, k)[i];
    }
    GridsEqual(a, b);
  }

  /** A move changes the grid exactly when it changes one of its lines. */
  lemma MoveChanges(g: Grid, d: Direction)
    requires IsGrid(g)
    ensures Move(g, d) != g <==>
      exists k :: 0 <= k < Size && SlideRow(LineAt(g, d, k)) != LineAt(g, d, k)
  {
    if forall k :: 0 <= k < Size ==> SlideRow(LineAt(g, d, k)) == LineAt(g, d, k) {
      forall k | 0 <= k < Size
        ensures LineAt(Move(g, d), d, k) == LineAt(g, d, k)
      {
        LineAtMove(g, d, k);
      }
      LinesDetermineGrid(Move(g, d), g, d);
    } else {
      var k :| 0 <= k < Size && SlideRow(LineAt(g, d, k)) != LineAt(g, d, k);
      LineAtMove(g, d, k);
    }
  }

  /** Some line among the first k of direction d is changed by the merge. */
  predicate SomeLineChanges(g: Grid, d: Direction, k: nat)
    requires IsGrid(g) && k <= Size
  {
    k > 0 && (SomeLineChanges(g, d, k - 1) || SlideRow(LineAt(g, d, k - 1)) != LineAt(g, d, k - 1))
  }

  lemma {:induction false} SomeLineChangesExists(g: Grid, d: Direction, k: nat)
    requires IsGrid(g) && k <= Size
    ensures SomeLineChanges(g, d, k) <==> exists j :: 0 <= j < k && SlideRow(LineAt(g, d, j)) != LineAt(g, d, j)
  {
    if k > 0 {
      SomeLineChangesExists(g, d, k - 1);
    }
  }

  /** A move changes the grid exactly when the merge changes some line. */
  lemma MoveChangesSomeLine(g: Grid, d: Direction)
    requires IsGrid(g)
    ensures Move(g, d) != g <==> SomeLineChanges(g, d, Size)
  {
    MoveChanges(g, d);
    SomeLineChangesExists(g, d, Size);
  }

  /** Moving keeps every cell empty or a power of two. */
  lemma MoveTiles(g: Grid, d: Direction)
    requires IsGrid(g) && AllTilesGrid(g)
    ensures AllTilesGrid(Move(g, d))
  {
    forall r | 0 <= r < Size
      ensures AllTiles(Move(g, d)[r])
    {
      forall c | 0 <= c < Size
        ensures Move(g, d)[r][c] == Empty || IsTile(Move(g, d)[r][c])
      {
        var k := LineIndex(d, r, c);
        var line := LineAt(g, d, k);
        assert AllTiles(line);
        SlideRowTiles(line);
        MoveCell(g, d, r, c);
      }
    }
  }

  // ---------------------------------------------------------------------
  // Score: the sum of all cells (calculate_score)

  /** Sum of the first n rows. */
  function RowsSum(g: Grid, n: nat): int
    requires n <= |g|
  {
    if n == 0 then 0 else RowsSum(g, n - 1) + Sum(g[n - 1])
  }

  function Score(g: Grid): int
    requires IsGrid(g)
  {
    RowsSum(g, Size)
  }

  lemma SumOfFour(s: seq<int>)
    requires |s| == 4
    ensures Sum(s) == s[0] + s[1] + s[2] + s[3]
  {
    assert s[..3][..2] == s[..2] && s[..2][..1] == s[..1] && s[..1][..0] == [];
    assert Sum(s[..1]) == s[0];
    assert Sum(s[..2]) == Sum(s[..1]) + s[1];
    assert Sum(s[..3]) == Sum(s[..2]) + s[2];
  }

  /** The score is the sum of the sixteen cells. */
  lemma ScoreCells(g: Grid)
    requires IsGrid(g)
    ensures Score(g) ==
      g[0][0] + g[0][1] + g[0][2] + g[0][3] +
      g[1][0] + g[1][1] + g[1][2] + g[1][3] +
      g[2][0] + g[2][1] + g[2][2] + g[2][3] +
      g[3][0] + g[3][1] + g[3][2] + g[3][3]
  {
    assert RowsSum(g, 1) == Sum(g[0]);
    assert RowsSum(g, 2) == RowsSum(g, 1) + Sum(g[1]);
    assert RowsSum(g, 3) == RowsSum(g, 2) + Sum(g[2]);
    SumOfFour(g[0]);
    SumOfFour(g[1]);
    SumOfFour(g[2]);
    SumOfFour(g[3]);
  }

  /** The score is also the sum of the lines of any direction. */
  lemma ScoreByLines(g: Grid, d: Direction)
    requires IsGrid(g)
    ensures Score(g) ==
      Sum(LineAt(g, d, 0)) + Sum(LineAt(g, d, 1)) + Sum(LineAt(g, d, 2)) + Sum(LineAt(g, d, 3))
  {
    ScoreCells(g);
    SumOfFour(LineAt(g, d, 0));
    SumOfFour(LineAt(g, d, 1));
    SumOfFour(LineAt(g, d, 2));
    SumOfFour(LineAt(g, d, 3));
  }

  /** No move changes the score: merging adds two tiles into one. */
  lemma MoveScore(g: Grid, d: Direction)
    requires IsGrid(g)
    ensures Score(Move(g, d)) == Score(g)
  {
    var m := Move(g, d);
    ScoreByLines(g, d);
    ScoreByLines(m, d);
    forall k | 0 <= k < Size
      ensures Sum(LineAt(m, d, k)) == Sum(LineAt(g, d, k))
    {
      LineAtMove(g, d, k);
      SlideRowSum(LineAt(g, d, k));
    }
  }

  // ---------------------------------------------------------------------
  // Game over (can_move)

  /** Cell (r, c) is empty or equals its right or lower neighbour. */
  predicate MoveAt(g: Grid, r: int, c: int)
    requires IsGrid(g) && 0 <= r < Size && 0 <= c < Size
  {
    || g[r][c] == Empty
    || (c < Size - 1 && g[r][c] == g[r][c + 1])
    || (r < Size - 1 && g[r][c] == g[r + 1][c])
  }

  /** A cell is empty, or two horizontally or vertically adjacent cells are equal. */
  predicate HasMove(g: Grid)
    requires IsGrid(g)
  {
    exists r, c :: 0 <= r < Size && 0 <= c < Size && MoveAt(g, r, c)
  }

  /** When no move is possible, every line of every direction is stuck. */
  lemma StuckLines(g: Grid, d: Direction, k: int)
    requires IsGrid(g) && !HasMove(g) && 0 <= k < Size
    ensures Stuck(LineAt(g, d, k))
  {
    var s := LineAt(g, d, k);
    forall i | 0 <= i < Size
      ensures s[i] != Empty
    {
      assert !MoveAt(g, CellRow(d, k, i), CellCol(d, k, i));
    }
    forall i | 0 <= i < Size - 1
      ensures s[i] != s[i + 1]
    {
      match d
      case Left =>
        assert !MoveAt(g, k, i);
      case Right =>
        assert !MoveAt(g, k, Size - 2 - i);
      case Up =>
        assert !MoveAt(g, i, k);
      case Down =>
        assert !MoveAt(g, Size - 2 - i, k);
    }
  }

  /** On a grid without an empty cell or an equal neighbour pair, no move changes anything. */
  lemma NoMoveIsFinal(g: Grid, d: Direction)
    requires IsGrid(g) && !HasMove(g)
    ensures Move(g, d) == g
  {
    forall k | 0 <= k < Size
      ensures SlideRow(LineAt(g, d, k)) == LineAt(g, d, k)
    {
      StuckLines(g, d, k);
      SlideRowStuck(LineAt(g, d, k));
    }
    MoveChanges(g, d);
  }

  // ---------------------------------------------------------------------
  // Empty cells, in the row-major order add_new_tile collects them

  datatype Pos = Pos(row: int, col: int)

  predicate InGrid(p: Pos)
  {
    0 <= p.row < Size && 0 <= p.col < Size
  }

  /** p comes before q in row-major order. */
  predicate Precedes(p: Pos, q: Pos)
  {
    p.row < q.row || (p.row == q.row && p.col < q.col)
  }

  predicate RowMajor(ps: seq<Pos>)
  {
    forall i, j :: 0 <= i < j < |ps| ==> Precedes(ps[i], ps[j])
  }

  /** The empty cells among the first c cells of row r, left to right. */
  function EmptyInRow(g: Grid, r: int, c: nat): (ps: seq<Pos>)
    requires IsGrid(g) && 0 <= r < Size && c <= Size
    ensures |ps| <= c
  {
    if c == 0 then []
    else EmptyInRow(g, r, c - 1) + (if g[r][c - 1] == Empty then [Pos(r, c - 1)] else [])
  }

  /** The empty cells of the first n rows, in row-major order. */
  function EmptyRows(g: Grid, n: nat): (ps: seq<Pos>)
    requires IsGrid(g) && n <= Size
    ensures |ps| <= n * Size
  {
    if n == 0 then [] else EmptyRows(g, n - 1) + EmptyInRow(g, n - 1, Size)
  }

  /**
   * Every empty cell of g in row-major order: the list add_new_tile builds.
   * EmptyCellsExact shows that it holds each empty cell exactly once.
   */
  function EmptyCells(g: Grid): (ps: seq<Pos>)
    requires IsGrid(g)
    ensures |ps| <= Size * Size
  {
    EmptyRows(g, Size)
  }

  lemma {:induction false} EmptyInRowExact(g: Grid, r: int, c: nat)
    requires IsGrid(g) && 0 <= r < Size && c <= Size
    ensures RowMajor(EmptyInRow(g, r, c))
    ensures forall p :: p in EmptyInRow(g, r, c) <==> p.row == r && 0 <= p.col < c && g[r][p.col] == Empty
  {
    if c > 0 {
      EmptyInRowExact(g, r, c - 1);
    }
  }

  lemma {:induction false} EmptyRowsExact(g: Grid, n: nat)
    requires IsGrid(g) && n <= Size
    ensures RowMajor(EmptyRows(g, n))
    ensures forall p :: p in EmptyRows(g, n) <==> 0 <= p.row < n && 0 <= p.col < Size && g[p.row][p.col] == Empty
  {
    if n > 0 {
      var front, last := EmptyRows(g, n - 1), EmptyInRow(g, n - 1, Size);
      EmptyRowsExact(g, n - 1);
      EmptyInRowExact(g, n - 1, Size);
      assert forall i :: 0 <= i < |front| ==> front[i] in front;
      assert forall j :: 0 <= j < |last| ==> last[j] in last;
      assert EmptyRows(g, n) == front + last;
    }
  }

  /** The list of empty cells holds exactly the empty cells, each once, in row-major order. */
  lemma EmptyCellsExact(g: Grid)
    requires IsGrid(g)
    ensures RowMajor(EmptyCells(g))
    ensures forall p :: p in EmptyCells(g) <==> InGrid(p) && g[p.row][p.col] == Empty
  {
    EmptyRowsExact(g, Size);
  }

  // ---------------------------------------------------------------------
  // Spawn (add_new_tile)

  /**
   * The outcome of the two random draws of add_new_tile: `pick` stands for
   * the rand() whose remainder selects the empty cell, `four` for the draw
   * that gives a 4 (probability 0.1) instead of a 2.
   */
  datatype Draw = Draw(pick: nat, four: bool)

  function TileValue(four: bool): int
  {
    if four then 4 else 2
  }

  /** The empty cell the draw selects: rand() % empty_count in the list. */
  function Chosen(g: Grid, draw: Draw): (p: Pos)
    requires IsGrid(g) && |EmptyCells(g)| > 0
    ensures InGrid(p) && g[p.row][p.col] == Empty
  {
    var cells := EmptyCells(g);
    EmptyCellsExact(g);
    assert cells[draw.pick % |cells|] in cells;
    cells[draw.pick % |cells|]
  }

  /** The grid with cell p set to v. */
  function SetCell(g: Grid, p: Pos, v: int): (h: Grid)
    requires IsGrid(g) && InGrid(p)
    ensures IsGrid(h)
    ensures forall r, c {:trigger h[r][c]} :: 0 <= r < Size && 0 <= c < Size ==>
      h[r][c] == if Pos(r, c) == p then v else g[r][c]
  {
    g[p.row := g[p.row][p.col := v]]
  }

  /** The grid after add_new_tile: unchanged when it has no empty cell. */
  function Spawn(g: Grid, draw: Draw): (h: Grid)
    requires IsGrid(g)
    ensures IsGrid(h)
  {
    if |EmptyCells(g)| == 0 then g else SetCell(g, Chosen(g, draw), TileValue(draw.four))
  }

  /**
   * A spawn on a grid with an empty cell turns exactly one empty cell into a
   * 2 or a 4 and changes nothing else; on a full grid it changes nothing.
   */
  lemma SpawnChangesOneCell(g: Grid, draw: Draw)
    requires IsGrid(g)
    ensures |EmptyCells(g)| == 0 ==> Spawn(g, draw) == g
    ensures |EmptyCells(g)| > 0 ==>
      var p := Chosen(g, draw);
      var h := Spawn(g, draw);
      && g[p.row][p.col] == Empty
      && (h[p.row][p.col] == 2 || h[p.row][p.col] == 4)
      && forall r, c :: 0 <= r < Size && 0 <= c < Size ==> (h[r][c] != g[r][c] <==> Pos(r, c) == p)
  {
  }

  /** Every empty cell can receive the new tile, with either value. */
  lemma SpawnReachesEveryEmptyCell(g: Grid, p: Pos, four: bool)
    requires IsGrid(g) && InGrid(p) && g[p.row][p.col] == Empty
    ensures |EmptyCells(g)| > 0
    ensures exists pick: nat :: Chosen(g, Draw(pick, four)) == p
  {
    var cells := EmptyCells(g);
    EmptyCellsExact(g);
    assert p in cells;
    var i :| 0 <= i < |cells| && cells[i] == p;
    SmallRemainder(i, |cells|);
    assert Chosen(g, Draw(i, four)) == p;
  }

  lemma SmallRemainder(i: int, n: int)
    requires 0 <= i < n
    ensures i % n == i
  {
  }

  /** A spawn keeps every cell empty or a power of two. */
  lemma SpawnTiles(g: Grid, draw: Draw)
    requires IsGrid(g) && AllTilesGrid(g)
    ensures AllTilesGrid(Spawn(g, draw))
  {
    var h := Spawn(g, draw);
    forall r | 0 <= r < Size
      ensures AllTiles(h[r])
    {
      forall c | 0 <= c < Size
        ensures h[r][c] == Empty || IsTile(h[r][c])
      {
        assert AllTiles(g[r]);
        assert IsPowerOfTwo(2) && IsPowerOfTwo(4) by {
          assert IsPowerOfTwo(1);
        }
      }
    }
  }

  /** Setting cell p to v changes the score by v minus the old value. */
  lemma SetCellScore(g: Grid, p: Pos, v: int)
    requires IsGrid(g) && InGrid(p)
    ensures Score(SetCell(g, p, v)) == Score(g) - g[p.row][p.col] + v
  {
    ScoreCells(g);
    ScoreCells(SetCell(g, p, v));
  }

  /** A spawn adds the value of the new tile to the score, if there was room for it. */
  lemma SpawnScore(g: Grid, draw: Draw)
    requires IsGrid(g)
    ensures Score(Spawn(g, draw)) == Score(g) + (if |EmptyCells(g)| > 0 then TileValue(draw.four) else 0)
  {
    if |EmptyCells(g)| > 0 {
      SetCellScore(g, Chosen(g, draw), TileValue(draw.four));
    }
  }

  /** A move that changes the grid leaves at least one empty cell. */
  lemma ChangedMoveLeavesEmptyCell(g: Grid, d: Direction)
    requires IsGrid(g)
    ensures Move(g, d) != g ==> |EmptyCells(Move(g, d))| > 0
  {
    MoveChanges(g, d);
    var m := Move(g, d);
    if m != g {
      var k :| 0 <= k < Size && SlideRow(LineAt(g, d, k)) != LineAt(g, d, k);
      SlideRowLeavesEmpty(LineAt(g, d, k));
      LineAtMove(g, d, k);
      var p := Pos(CellRow(d, k, Size - 1), CellCol(d, k, Size - 1));
      assert m[p.row][p.col] == LineAt(m, d, k)[Size - 1];
      EmptyCellsExact(m);
      assert p in EmptyCells(m);
    }
  }

  // ---------------------------------------------------------------------
  // The starting grid (initialize_grid)

  /**
   * The grid initialize_grid produces once its rejection sampling has
   * settled on two distinct cells: empty except for those two tiles.
   */
  function StartGrid(first: Pos, firstFour: bool, second: Pos, secondFour: bool): (g: Grid)
    requires InGrid(first) && InGrid(second)
    ensures IsGrid(g)
  {
    SetCell(SetCell(ZeroGrid(), first, TileValue(firstFour)), second, TileValue(secondFour))
  }

  /** The starting grid holds exactly two tiles, each a 2 or a 4. */
  lemma StartGridTwoTiles(first: Pos, firstFour: bool, second: Pos, secondFour: bool)
    requires InGrid(first) && InGrid(second) && first != second
    ensures var g := StartGrid(first, firstFour, second, secondFour);
      && (forall r, c :: 0 <= r < Size && 0 <= c < Size ==>
            (g[r][c] != Empty <==> Pos(r, c) == first || Pos(r, c) == second))
      && (g[first.row][first.col] == 2 || g[first.row][first.col] == 4)
      && (g[second.row][second.col] == 2 || g[second.row][second.col] == 4)
  {
  }

  // ---------------------------------------------------------------------
  // The evaluation heuristic (evaluate_grid)

  /** WEIGHT_EMPTY_CELLS and WEIGHT_MAX_TILE; the clustering weight is never used. */
  const WeightEmpty: int := 5
  const WeightMaxTile: int := 2

  /**
   * The running maximum after cells (r, 0) .. (r, c - 1), starting from m:
   * a cell replaces it only when strictly greater.
   */
  function MaxInRow(g: Grid, r: int, c: nat, m: int): (x: int)
    requires IsGrid(g) && 0 <= r < Size && c <= Size
    ensures x >= m
  {
    if c == 0 then m
    else
      var x := MaxInRow(g, r, c - 1, m);
      if g[r][c - 1] > x then g[r][c - 1] else x
  }

  lemma {:induction false} MaxInRowBounds(g: Grid, r: int, c: nat, m: int)
    requires IsGrid(g) && 0 <= r < Size && c <= Size
    ensures forall j :: 0 <= j < c ==> g[r][j] <= MaxInRow(g, r, c, m)
    ensures MaxInRow(g, r, c, m) == m || exists j :: 0 <= j < c && g[r][j] == MaxInRow(g, r, c, m)
  {
    if c > 0 {
      MaxInRowBounds(g, r, c - 1, m);
    }
  }

  /** The running maximum after the first n rows, starting from 0. */
  function MaxRows(g: Grid, n: nat): (x: int)
    requires IsGrid(g) && n <= Size
    ensures x >= 0
  {
    if n == 0 then 0 else MaxInRow(g, n - 1, Size, MaxRows(g, n - 1))
  }

  lemma {:induction false} MaxRowsBounds(g: Grid, n: nat)
    requires IsGrid(g) && n <= Size
    ensures forall i, j :: 0 <= i < n && 0 <= j < Size ==> g[i][j] <= MaxRows(g, n)
    ensures MaxRows(g, n) == 0 || exists i, j :: 0 <= i < n && 0 <= j < Size && g[i][j] == MaxRows(g, n)
  {
    if n > 0 {
      MaxRowsBounds(g, n - 1);
      MaxInRowBounds(g, n - 1, Size, MaxRows(g, n - 1));
    }
  }

  /** The largest tile, or 0 when every cell is empty or negative. */
  function MaxTile(g: Grid): (x: int)
    requires IsGrid(g)
    ensures x >= 0
  {
    MaxRows(g, Size)
  }

  /**
   * MaxTile is no smaller than any cell, and it is either 0 (the starting
   * value of the running maximum) or the value of some cell.
   */
  lemma MaxTileIsMax(g: Grid)
    requires IsGrid(g)
    ensures forall r, c :: 0 <= r < Size && 0 <= c < Size ==> g[r][c] <= MaxTile(g)
    ensures MaxTile(g) == 0 || exists r, c :: 0 <= r < Size && 0 <= c < Size && g[r][c] == MaxTile(g)
  {
    MaxRowsBounds(g, Size);
  }

  /** evaluate_grid: 5 per empty cell plus twice the largest tile; never negative. */
  function Evaluate(g: Grid): (e: int)
    requires IsGrid(g)
    ensures e >= 0
  {
    WeightEmpty * |EmptyCells(g)| + WeightMaxTile * MaxTile(g)
  }

  // ---------------------------------------------------------------------
  // The greedy move choice (ai_make_move)

  datatype Option<T> = None | Some(value: T)

  /**
   * What ai_make_move learns from trying one direction on a copy of the
   * grid: whether the move changed it, and the evaluation of the result.
   */
  datatype Trial = Trial(changed: bool, score: int)

  /** The trial of d: `moved` is set when some line changed, as the moves compute it. */
  function TrialOf(g: Grid, d: Direction): Trial
    requires IsGrid(g)
  {
    Trial(SomeLineChanges(g, d, Size), Evaluate(Move(g, d)))
  }

  /** A trial reports a change exactly when the move changes the grid. */
  lemma TrialChanged(g: Grid, d: Direction)
    requires IsGrid(g)
    ensures TrialOf(g, d).changed <==> Move(g, d) != g
  {
    MoveChangesSomeLine(g, d);
  }

  /** The trials of the four directions, in Order. */
  function Trials(g: Grid): (ts: seq<Trial>)
    requires IsGrid(g)
    ensures |ts| == |Order|
    ensures forall i :: 0 <= i < |Order| ==> ts[i] == TrialOf(g, Order[i])
  {
    seq(|Order|, i requires 0 <= i < |Order| => TrialOf(g, Order[i]))
  }

  /**
   * The loop of ai_make_move from step i on: a direction replaces the best
   * so far when its move changed the grid and its evaluation is strictly
   * higher. Returns the final best score and direction.
   */
  function Scan(ts: seq<Trial>, i: nat, best: int, choice: Option<Direction>): (int, Option<Direction>)
    requires i <= |ts| == |Order|
    decreases |ts| - i
  {
    if i == |ts| then (best, choice)
    else if ts[i].changed && ts[i].score > best then Scan(ts, i + 1, ts[i].score, Some(Order[i]))
    else Scan(ts, i + 1, best, choice)
  }

  /** The direction ai_make_move applies, None when no move changes the grid. */
  function BestMove(g: Grid): Option<Direction>
    requires IsGrid(g)
  {
    Scan(Trials(g), 0, -1, None).1
  }

  /** What the loop has established after trying the first i directions. */
  ghost predicate Scanned(ts: seq<Trial>, i: nat, best: int, choice: Option<Direction>)
    requires i <= |ts| == |Order|
  {
    match choice
    case None =>
      best == -1 && forall j :: 0 <= j < i ==> !ts[j].changed
    case Some(d) =>
      && Rank(d) < i
      && ts[Rank(d)].changed
      && best == ts[Rank(d)].score
      && forall j :: 0 <= j < i && ts[j].changed ==>
           ts[j].score <= best && (j < Rank(d) ==> ts[j].score < best)
  }

  lemma {:induction false} ScanKeepsScanned(ts: seq<Trial>, i: nat, best: int, choice: Option<Direction>)
    requires i <= |ts| == |Order|
    requires forall j :: 0 <= j < |ts| ==> ts[j].score >= 0
    requires Scanned(ts, i, best, choice)
    ensures Scanned(ts, |ts|, Scan(ts, i, best, choice).0, Scan(ts, i, best, choice).1)
    decreases |ts| - i
  {
    if i < |ts| {
      if ts[i].changed && ts[i].score > best {
        assert Rank(Order[i]) == i;
        ScanKeepsScanned(ts, i + 1, ts[i].score, Some(Order[i]));
      } else {
        ScanKeepsScanned(ts, i + 1, best, choice);
      }
    }
  }

  /**
   * The applied direction is, among the directions that change the grid,
   * one with the highest evaluation, and the earliest of UP, LEFT, DOWN,
   * RIGHT among those tied; there is none exactly when no direction changes
   * the grid.
   */
  lemma BestMoveIsFirstHighest(g: Grid)
    requires IsGrid(g)
    ensures BestMove(g).None? <==> forall d :: Move(g, d) == g
    ensures BestMove(g).Some? ==>
      var d := BestMove(g).value;
      && Move(g, d) != g
      && forall e :: Move(g, e) != g ==>
           && Evaluate(Move(g, e)) <= Evaluate(Move(g, d))
           && (Rank(e) < Rank(d) ==> Evaluate(Move(g, e)) < Evaluate(Move(g, d)))
  {
    var ts := Trials(g);
    ScanKeepsScanned(ts, 0, -1, None);
    var (best, choice) := Scan(ts, 0, -1, None);
    forall e
      ensures ts[Rank(e)] == TrialOf(g, e)
      ensures ts[Rank(e)].changed <==> Move(g, e) != g
    {
      TrialChanged(g, e);
    }
    if choice.None? {
      forall e
        ensures Move(g, e) == g
      {
        assert !ts[Rank(e)].changed;
      }
    } else {
      var d := choice.value;
      assert ts[Rank(d)] == TrialOf(g, d);
      forall e | Move(g, e) != g
        ensures Evaluate(Move(g, e)) <= Evaluate(Move(g, d))
        ensures Rank(e) < Rank(d) ==> Evaluate(Move(g, e)) < Evaluate(Move(g, d))
      {
        assert ts[Rank(e)].changed;
      }
    }
  }

  /** The grid after the chosen move (unchanged when there is none). */
  function AfterBestMove(g: Grid): (h: Grid)
    requires IsGrid(g)
    ensures IsGrid(h)
  {
    match BestMove(g)
    case None => g
    case Some(d) => Move(g, d)
  }

  /** One step of ai_make_move: the best move, then a spawn in any case. */
  function AiStep(g: Grid, draw: Draw): (h: Grid)
    requires IsGrid(g)
    ensures IsGrid(h)
  {
    Spawn(AfterBestMove(g), draw)
  }

  /**
   * ai_play: one AI step per draw while a move is possible; stops at the
   * first grid without a move.
   */
  function AiPlayFrom(g: Grid, draws: seq<Draw>): (h: Grid)
    requires IsGrid(g)
    ensures IsGrid(h)
    decreases |draws|
  {
    if draws == [] || !HasMove(g) then g else AiPlayFrom(AiStep(g, draws[0]), draws[1..])
  }

  /** Once no move is possible, ai_play leaves the grid alone. */
  lemma AiPlayStops(g: Grid, draws: seq<Draw>)
    requires IsGrid(g) && !HasMove(g)
    ensures AiPlayFrom(g, draws) == g
  {
  }

  /** While a move is possible and draws remain, ai_play takes one AI step. */
  lemma AiPlayGoesOn(g: Grid, draws: seq<Draw>)
    requires IsGrid(g) && HasMove(g) && draws != []
    ensures AiPlayFrom(g, draws) == AiPlayFrom(AiStep(g, draws[0]), draws[1..])
  {
  }

  /** ai_play keeps every cell empty or a tile, whatever the draws. */
  lemma {:induction false} AiPlayTiles(g: Grid, draws: seq<Draw>)
    requires IsGrid(g) && AllTilesGrid(g)
    ensures AllTilesGrid(AiPlayFrom(g, draws))
    decreases |draws|
  {
    if draws != [] && HasMove(g) {
      AiStepTiles(g, draws[0]);
      AiPlayTiles(AiStep(g, draws[0]), draws[1..]);
    }
  }

  /**
   * ai_play never lowers the score, and each step raises it by at most the
   * largest new tile, a 4.
   */
  lemma {:induction false} AiPlayScore(g: Grid, draws: seq<Draw>)
    requires IsGrid(g)
    ensures Score(g) <= Score(AiPlayFrom(g, draws)) <= Score(g) + 4 * |draws|
    decreases |draws|
  {
    if draws != [] && HasMove(g) {
      var h := AiStep(g, draws[0]);
      AiStepScore(g, draws[0]);
      SpawnScore(g, draws[0]);
      assert Score(g) <= Score(h) <= Score(g) + 4;
      AiPlayScore(h, draws[1..]);
    }
  }

  /** One turn of the interactive loop: a spawn follows only a move that changed the grid. */
  function Turn(g: Grid, d: Direction, draw: Draw): (h: Grid)
    requires IsGrid(g)
    ensures IsGrid(h)
  {
    var m := Move(g, d);
    if m != g then Spawn(m, draw) else g
  }

  /**
   * A turn that changes the grid always finds room for the new tile, so the
   * score rises by exactly its value; a turn that changes nothing leaves the
   * grid as it was.
   */
  lemma TurnScore(g: Grid, d: Direction, draw: Draw)
    requires IsGrid(g)
    ensures Move(g, d) == g ==> Turn(g, d, draw) == g
    ensures Score(Turn(g, d, draw)) == Score(g) + (if Move(g, d) != g then TileValue(draw.four) else 0)
  {
    MoveScore(g, d);
    ChangedMoveLeavesEmptyCell(g, d);
    SpawnScore(Move(g, d), draw);
  }

  /** A turn keeps every cell empty or a power of two. */
  lemma TurnTiles(g: Grid, d: Direction, draw: Draw)
    requires IsGrid(g) && AllTilesGrid(g)
    ensures AllTilesGrid(Turn(g, d, draw))
  {
    MoveTiles(g, d);
    SpawnTiles(Move(g, d), draw);
  }

  /**
   * An AI step that applies a move always spawns, raising the score by the
   * new tile; without a move it only spawns on the unchanged grid.
   */
  lemma AiStepScore(g: Grid, draw: Draw)
    requires IsGrid(g)
    ensures BestMove(g).None? ==> AiStep(g, draw) == Spawn(g, draw)
    ensures BestMove(g).Some? ==> Score(AiStep(g, draw)) == Score(g) + TileValue(draw.four)
  {
    BestMoveIsFirstHighest(g);
    if BestMove(g).Some? {
      var d := BestMove(g).value;
      MoveScore(g, d);
      ChangedMoveLeavesEmptyCell(g, d);
      SpawnScore(Move(g, d), draw);
    }
  }

  /** An AI step keeps every cell empty or a power of two. */
  lemma AiStepTiles(g: Grid, draw: Draw)
    requires IsGrid(g) && AllTilesGrid(g)
    ensures AllTilesGrid(AiStep(g, draw))
  {
    if BestMove(g).Some? {
      MoveTiles(g, BestMove(g).value);
    }
    SpawnTiles(AfterBestMove(g), draw);
  }

}
