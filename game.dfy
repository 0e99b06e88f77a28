/**
 * The game state of main.c: the global `int grid[GRID_SIZE][GRID_SIZE]`
 * as a 4x4 array updated in place, and the functions that read and change
 * it. Every method is proved against the grid-level definitions of module
 * Board, whose properties are proved there.
 *
 * The random draws of rand() are parameters (a Draw per call of
 * add_new_tile); the keyboard and the screen are left out.
 */
module Engine {
  import opened Line
  import opened Board

  /** STEPS: how many AI moves one call of ai_play makes at most. */
  const Steps: nat := 1

  /** The contents of a 4x4 array as a grid value. */
  ghost function Contents(a: array2<int>): (g: Grid)
    reads a
    requires a.Length0 == Size && a.Length1 == Size
    ensures IsGrid(g)
    ensures forall r, c {:trigger g[r][c]} :: 0 <= r < Size && 0 <= c < Size ==> g[r][c] == a[r, c]
  {
    seq(Size, r requires 0 <= r < Size reads a =>
      seq(Size, c requires 0 <= c < Size reads a => a[r, c]))
  }

  /** memcpy of one grid over another. */
  method CopyCells(src: array2<int>, dst: array2<int>)
    requires src.Length0 == Size && src.Length1 == Size
    requires dst.Length0 == Size && dst.Length1 == Size
    requires src != dst
    modifies dst
    ensures Contents(dst) == Contents(src)
  {
    for r := 0 to Size
      invariant forall i, j :: 0 <= i < r && 0 <= j < Size ==> dst[i, j] == src[i, j]
    {
      for c := 0 to Size
        invariant forall i, j :: 0 <= i < r && 0 <= j < Size ==> dst[i, j] == src[i, j]
        invariant forall j :: 0 <= j < c ==> dst[r, j] == src[r, j]
      {
        dst[r, c] := src[r, c];
      }
    }
    GridsEqual(Contents(dst), Contents(src));
  }

  class Game {
    var grid: array2<int>

    ghost predicate Valid()
      reads this
    {
      grid.Length0 == Size && grid.Length1 == Size
    }

    /** The current grid as a value. */
    ghost function Cells(): (g: Grid)
      reads this, grid
      requires Valid()
      ensures IsGrid(g)
    {
      Contents(grid)
    }

    /** The grid starts zeroed, as a global array does. */
    constructor ()
      ensures Valid() && fresh(grid)
      ensures Cells() == ZeroGrid()
    {
      grid := new int[Size, Size]((r, c) => Empty);
      new;
      GridsEqual(Contents(grid), ZeroGrid());
    }

    /**
     * initialize_grid: clear the grid, then place the two starting tiles
     * on the distinct empty cells the rejection loop settles on.
     */
    method InitializeGrid(first: Pos, firstFour: bool, second: Pos, secondFour: bool)
      requires Valid() && InGrid(first) && InGrid(second) && first != second
      modifies grid
      ensures Cells() == StartGrid(first, firstFour, second, secondFour)
    {
      for r := 0 to Size
        invariant forall i, j :: 0 <= i < r && 0 <= j < Size ==> grid[i, j] == Empty
      {
        for c := 0 to Size
          invariant forall i, j :: 0 <= i < r && 0 <= j < Size ==> grid[i, j] == Empty
          invariant forall j :: 0 <= j < c ==> grid[r, j] == Empty
        {
          grid[r, c] := Empty;
        }
      }
      grid[first.row, first.col] := TileValue(firstFour);
      grid[second.row, second.col] := TileValue(secondFour);
      GridsEqual(Cells(), StartGrid(first, firstFour, second, secondFour));
    }

    /** Copy line k of direction d into a fresh buffer, as the moves fill `temp`. */
    method LoadLine(d: Direction, k: int) returns (line: array<int>)
      requires Valid() && 0 <= k < Size
      ensures fresh(line) && line.Length == Size
      ensures line[..] == LineAt(Cells(), d, k)
    {
      line := new int[Size];
      for i := 0 to Size
        invariant forall j :: 0 <= j < i ==> line[j] == grid[CellRow(d, k, j), CellCol(d, k, j)]
      {
        line[i] := grid[CellRow(d, k, i), CellCol(d, k, i)];
      }
    }

    /** Write a buffer back over line k of direction d; no other cell changes. */
    method StoreLine(d: Direction, k: int, line: array<int>)
      requires Valid() && 0 <= k < Size && line.Length == Size
      modifies grid
      ensures forall r, c {:trigger grid[r, c]} :: 0 <= r < Size && 0 <= c < Size ==>
        grid[r, c] == if LineIndex(d, r, c) == k then line[LinePos(d, r, c)] else old(grid[r, c])
    {
      for i := 0 to Size
        invariant forall r, c {:trigger grid[r, c]} :: 0 <= r < Size && 0 <= c < Size ==>
          grid[r, c] == if LineIndex(d, r, c) == k && LinePos(d, r, c) < i then line[LinePos(d, r, c)] else old(grid[r, c])
      {
        grid[CellRow(d, k, i), CellCol(d, k, i)] := line[i];
      }
    }

    /**
     * The body of the loop of every move: copy line k into `temp`, merge it
     * with slide_and_merge_row and write it back over the same cells.
     */
    method SlideLine(d: Direction, k: int) returns (lineMoved: bool)
      requires Valid() && 0 <= k < Size
      modifies grid
      ensures forall r, c {:trigger grid[r, c]} :: 0 <= r < Size && 0 <= c < Size ==>
        grid[r, c] == if LineIndex(d, r, c) == k then SlideRow(LineAt(old(Cells()), d, k))[LinePos(d, r, c)] else old(grid[r, c])
      ensures lineMoved == (SlideRow(LineAt(old(Cells()), d, k)) != LineAt(old(Cells()), d, k))
    {
      var line := LoadLine(d, k);
      lineMoved := SlideAndMergeRow(line);
      StoreLine(d, k, line);
    }

    /**
     * The loop shared by move_up, move_left, move_down and move_right: each
     * line of the direction is merged and written back in turn; the result
     * says whether any line changed.
     */
    method SlideLines(d: Direction) returns (moved: bool)
      requires Valid()
      modifies grid
      ensures forall r, c {:trigger grid[r, c]} :: 0 <= r < Size && 0 <= c < Size ==>
        grid[r, c] == SlideRow(LineAt(old(Cells()), d, LineIndex(d, r, c)))[LinePos(d, r, c)]
      ensures moved == SomeLineChanges(old(Cells()), d, Size)
    {
      ghost var g0 := Cells();
      moved := false;
      for k := 0 to Size
        invariant forall r, c {:trigger grid[r, c]} :: 0 <= r < Size && 0 <= c < Size ==>
          grid[r, c] == if LineIndex(d, r, c) < k then SlideRow(LineAt(g0, d, LineIndex(d, r, c)))[LinePos(d, r, c)] else g0[r][c]
        invariant moved == SomeLineChanges(g0, d, k)
      {
        assert LineAt(Cells(), d, k) == LineAt(g0, d, k);
        var lineMoved := SlideLine(d, k);
        if lineMoved {
          moved := true;
        }
      }
    }

    /**
     * move_up, move_left, move_down and move_right: the grid becomes the
     * moved grid, and the result says whether it changed.
     */
    method Slide(d: Direction) returns (moved: bool)
      requires Valid()
      modifies grid
      ensures Cells() == Move(old(Cells()), d)
      ensures moved == SomeLineChanges(old(Cells()), d, Size)
      ensures moved == (Cells() != old(Cells()))
    {
      ghost var g0 := Cells();
      moved := SlideLines(d);
      MoveFromCells(g0, Cells(), d);
      MoveChangesSomeLine(g0, d);
    }

    /**
     * The first half of add_new_tile: the coordinates of the empty cells,
     * collected row by row into a buffer of Size * Size entries.
     */
    method CollectEmptyCells() returns (emptyCells: array<Pos>, emptyCount: nat)
      requires Valid()
      ensures emptyCells.Length == Size * Size && emptyCount <= emptyCells.Length
      ensures emptyCells[..emptyCount] == EmptyCells(Cells())
    {
      ghost var g := Cells();
      emptyCells := new Pos[Size * Size](_ => Pos(0, 0));
      emptyCount := 0;
      for r := 0 to Size
        invariant emptyCount <= r * Size
        invariant emptyCells[..emptyCount] == EmptyRows(g, r)
      {
        for c := 0 to Size
          invariant emptyCount <= r * Size + c
          invariant emptyCells[..emptyCount] == EmptyRows(g, r) + EmptyInRow(g, r, c)
        {
          if grid[r, c] == Empty {
            ghost var found := emptyCells[..emptyCount];
            emptyCells[emptyCount] := Pos(r, c);
            assert emptyCells[..emptyCount + 1] == found + [Pos(r, c)];
            emptyCount := emptyCount + 1;
          }
        }
      }
    }

    /**
     * add_new_tile: put the drawn value on the drawn one of the empty
     * cells; a full grid is left alone.
     */
    method AddNewTile(draw: Draw)
      requires Valid()
      modifies grid
      ensures Cells() == Spawn(old(Cells()), draw)
    {
      ghost var g := Cells();
      var emptyCells, emptyCount := CollectEmptyCells();
      if emptyCount > 0 {
        var idx := draw.pick % emptyCount;
        var p := emptyCells[idx];
        assert p == Chosen(g, draw);
        grid[p.row, p.col] := TileValue(draw.four);
        assert Cells() == SetCell(g, p, TileValue(draw.four)) by {
          GridsEqual(Cells(), SetCell(g, p, TileValue(draw.four)));
        }
      }
    }

    /** can_move: scan the cells in row-major order for an empty cell or an equal right or lower neighbour. */
    method CanMove() returns (b: bool)
      requires Valid()
      ensures b == HasMove(Cells())
    {
      ghost var g := Cells();
      for r := 0 to Size
        invariant forall i, j :: 0 <= i < r && 0 <= j < Size ==> !MoveAt(g, i, j)
      {
        for c := 0 to Size
          invariant forall i, j :: 0 <= i < r && 0 <= j < Size ==> !MoveAt(g, i, j)
          invariant forall j :: 0 <= j < c ==> !MoveAt(g, r, j)
        {
          if grid[r, c] == Empty {
            assert MoveAt(g, r, c);
            return true;
          }
          if c < Size - 1 && grid[r, c] == grid[r, c + 1] {
            assert MoveAt(g, r, c);
            return true;
          }
          if r < Size - 1 && grid[r, c] == grid[r + 1, c] {
            assert MoveAt(g, r, c);
            return true;
          }
        }
      }
      return false;
    }

    /** evaluate_grid: count the empty cells and track the largest tile in one pass. */
    method EvaluateGrid() returns (score: int)
      requires Valid()
      ensures score == Evaluate(Cells())
    {
      ghost var g := Cells();
      var emptyCount := 0;
      var maxTile := 0;
      for r := 0 to Size
        invariant emptyCount == |EmptyRows(g, r)|
        invariant maxTile == MaxRows(g, r)
      {
        for c := 0 to Size
          invariant emptyCount == |EmptyRows(g, r)| + |EmptyInRow(g, r, c)|
          invariant maxTile == MaxInRow(g, r, c, MaxRows(g, r))
        {
          if grid[r, c] == Empty {
            emptyCount := emptyCount + 1;
          }
          if grid[r, c] > maxTile {
            maxTile := grid[r, c];
          }
        }
      }
      score := WeightEmpty * emptyCount + WeightMaxTile * maxTile;
    }

    /** calculate_score: the sum of all cells. */
    method CalculateScore() returns (score: int)
      requires Valid()
      ensures score == Score(Cells())
    {
      ghost var g := Cells();
      score := 0;
      for r := 0 to Size
        invariant score == RowsSum(g, r)
      {
        for c := 0 to Size
          invariant score == RowsSum(g, r) + Sum(g[r][..c])
        {
          assert g[r][..c + 1][..c] == g[r][..c];
          score := score + grid[r, c];
        }
        assert g[r][..Size] == g[r];
      }
    }

    /**
     * One trial of ai_make_move's loop: move in direction d, evaluate the
     * result if the grid changed, and copy the backup back over the grid.
     */
    method TryMove(d: Direction, backup: array2<int>) returns (moved: bool, score: int)
      requires Valid() && backup.Length0 == Size && backup.Length1 == Size && backup != grid
      requires Contents(backup) == Cells()
      modifies grid
      ensures Cells() == old(Cells())
      ensures moved == TrialOf(old(Cells()), d).changed
      ensures moved ==> score == TrialOf(old(Cells()), d).score
    {
      moved := Slide(d);
      score := 0;
      if moved {
        score := EvaluateGrid();
      }
      CopyCells(backup, grid);
    }

    /**
     * ai_make_move: try the four directions on the grid, restoring it
     * after each; apply the best one found, if any; then spawn a tile.
     */
    method AiMakeMove(draw: Draw)
      requires Valid()
      modifies grid
      ensures Cells() == AiStep(old(Cells()), draw)
    {
      ghost var g0 := Cells();
      ghost var ts := Trials(g0);
      var bestScore := -1;
      var bestMove: Option<Direction> := None;
      var backup := new int[Size, Size];
      CopyCells(grid, backup);
      for i := 0 to |Order|
        invariant Cells() == g0 && Contents(backup) == g0
        invariant Scan(ts, i, bestScore, bestMove) == Scan(ts, 0, -1, None)
      {
        var moved, score := TryMove(Order[i], backup);
        assert ts[i] == TrialOf(g0, Order[i]);
        if moved && score > bestScore {
          bestScore := score;
          bestMove := Some(Order[i]);
        }
      }
      assert bestMove == BestMove(g0);
      match bestMove {
        case Some(d) =>
          var _ := Slide(d);
        case None =>
      }
      AddNewTile(draw);
    }

    /** ai_play: up to Steps AI moves, stopping once no move is possible. */
    method AiPlay(draws: seq<Draw>)
      requires Valid() && |draws| == Steps
      modifies grid
      ensures Cells() == AiPlayFrom(old(Cells()), draws)
    {
      ghost var target := AiPlayFrom(Cells(), draws);
      for i := 0 to Steps
        invariant target == AiPlayFrom(Cells(), draws[i..])
      {
        var possible := CanMove();
        if !possible {
          AiPlayStops(Cells(), draws[i..]);
          break;
        }
        AiPlayGoesOn(Cells(), draws[i..]);
        assert draws[i..][1..] == draws[i + 1..];
        AiMakeMove(draws[i]);
      }
    }

    /**
     * One turn of the interactive loop after a key press: a valid key moves
     * in its direction and spawns a tile only if the grid changed; an
     * invalid key (None) changes nothing.
     */
    method PlayTurn(key: Option<Direction>, draw: Draw) returns (moved: bool)
      requires Valid()
      modifies grid
      ensures key.None? ==> !moved && Cells() == old(Cells())
      ensures key.Some? ==>
        && Cells() == Turn(old(Cells()), key.value, draw)
        && moved == (Move(old(Cells()), key.value) != old(Cells()))
    {
      moved := false;
      match key {
        case Some(d) =>
          moved := Slide(d);
        case None =>
      }
      if moved {
        AddNewTile(draw);
      }
    }
  }
}
