# A verified model of a 4x4 sliding-tile game

The game is a single C file, `main.c`. It keeps one global 4x4 grid of ints. The four moves slide every line towards one side and merge equal tiles. After each move that changes the grid, a 2 (or, one time in ten, a 4) appears on a random empty cell. The built-in player adds that tile after its turn even when no direction changed the grid. The game ends when no cell is empty and no two neighbouring cells are equal. A greedy player is built in: it tries each direction on the grid, scores each result with a heuristic (five per empty cell plus twice the largest tile), and plays the best one.

The model has three modules, one per level of the program:

- `Line` (`line.dfy`): the merge of one line of four cells.
  - A pure specification, `SlideRow`, on `seq<int>`.
  - The C routine itself, `SlideAndMergeRow`, working in place on an `array<int>`.
  - The properties of the merge, as lemmas.
- `Board` (`board.dfy`): the grid as a value (`seq<seq<int>>`) and the rules applied to it: moves, game over, spawn, score, evaluation and the greedy choice, each with its lemmas.
- `Engine` (`game.dfy`): the class `Game`, whose field `grid` is an `array2<int>` updated in place as the C global is.
  - There is one method per routine of the core, each proved against the `Board` definition of what it computes. The four moves share one method, `Slide`; `slide_and_merge_row` is in `Line`; `PlayTurn` is the move-and-spawn branch of `main`.
  - Every random draw is a parameter: a `Draw` per call of `add_new_tile`, and the two chosen cells for `initialize_grid`.

A line is merged as the C code does it. Each incoming tile is compared with the last tile written, even when that tile has just been produced by a merge. So `[2, 2, 4, 0]` becomes `[8, 0, 0, 0]` in one move, not `[4, 4, 0, 0]` as in the usual rules of the game, where a tile merges at most once per move. The model follows the code here, and `Line.CascadingMerges` proves both outcomes.

## Model

| member | source | states |
|---|---|---|
| Line.MergeIntoBuffer | main.c:55-69 | The first loop writes the tiles of the line, merged, to the front of a zeroed buffer (`SlideRow`), and its flag is raised exactly when a merge happened. |
| Line.SlideAndMergeRow | main.c:54-79 | The row becomes its merged form, and the result is true exactly when the row changed. |
| Line.SlideRowSum | main.c:59-69 | Merging keeps the sum of the line. |
| Line.SlideRowPacked | main.c:56-76 | The merged line is packed, with no empty cell before a tile. It never has more tiles than before, and it has fewer exactly when a merge happened. |
| Line.MergeChangesLine | main.c:61-64 | A merge always changes the line, so the flag it raises agrees with the result. |
| Line.SlideRowStuck | main.c:59-76 | A full line without equal neighbours is left unchanged. |
| Line.SlideRowLeavesEmpty | main.c:56-76 | A merge that changes the line leaves its last cell empty. |
| Line.SlideRowTiles | main.c:61-66 | A line of empty cells and tiles (powers of two, at least 2) stays one. |
| Line.CascadingMerges | main.c:61-66 | A freshly merged tile can merge again: `[2,2,4,0]` gives `[8,0,0,0]` and `[4,2,2,0]` gives `[4,4,0,0]`, which a second merge changes again. |
| Board.ZeroGrid | main.c:32 | The cleared grid has every cell empty. |
| Board.Rank | main.c:210 | Each direction has a position in the order UP, LEFT, DOWN, RIGHT. |
| Board.LineAtMove | main.c:81-140 | After a move, every line of that direction is the old line merged. |
| Board.MoveChanges | main.c:81-140 | A move changes the grid exactly when the merge changes one of its lines. |
| Board.MoveChangesSomeLine | main.c:81-140 | The flag a move returns (some line's merge reported a change) is true exactly when the grid changed. |
| Board.MoveTiles | main.c:81-140 | A move keeps every cell empty or a tile (a power of two, at least 2). |
| Board.MoveScore | main.c:81-140 | A move does not change the sum of the cells. |
| Board.StuckLines | main.c:164-179 | With no empty cell and no equal neighbours, every line of every direction is full and has no equal neighbours. |
| Board.NoMoveIsFinal | main.c:164-179 | When `can_move` would answer false, every move leaves the grid unchanged. |
| Board.EmptyCellsExact | main.c:143-154 | The list of empty cells holds every empty cell and nothing else, in row-major order. |
| Board.Chosen | main.c:157-159 | The cell `rand() % empty_count` selects is in the grid and empty. |
| Board.SpawnChangesOneCell | main.c:156-161 | With an empty cell, exactly the chosen empty cell changes, and it becomes a 2 or a 4. On a full grid, nothing changes. |
| Board.SpawnReachesEveryEmptyCell | main.c:156-160 | Every empty cell can receive the new tile, with either value. |
| Board.SpawnTiles | main.c:156-161 | A spawn keeps every cell empty or a tile (a power of two, at least 2). |
| Board.SpawnScore | main.c:156-161 | A spawn raises the sum of the cells by the new tile's value, if there was an empty cell. |
| Board.ChangedMoveLeavesEmptyCell | main.c:81-140 | A move that changes the grid leaves at least one empty cell, so the spawn after it (main.c:321-323) always places a tile. |
| Board.StartGridTwoTiles | main.c:31-42 | The starting grid holds exactly two tiles, on the two chosen cells, each a 2 or a 4. |
| Board.MaxTileIsMax | main.c:184-195 | The tracked maximum is at least every cell, and it is 0 or the value of some cell. |
| Board.Evaluate | main.c:181-201 | The evaluation is never negative. |
| Board.TrialChanged | main.c:212-228 | A trial reports a move exactly when that move changes the grid. |
| Board.ScanKeepsScanned | main.c:211-237 | After the loop, the best move so far is the first direction whose evaluation is strictly highest among the changing moves. With no changing move, there is no best move and the best score stays -1. |
| Board.BestMoveIsFirstHighest | main.c:203-254 | The applied direction changes the grid and has the highest evaluation among the changing directions. It is the earliest of UP, LEFT, DOWN, RIGHT among those tied. There is none exactly when no direction changes the grid. |
| Board.AiPlayTiles | main.c:259-268 | Over any number of AI steps, every cell stays empty or a tile. |
| Board.AiPlayScore | main.c:259-268 | `ai_play` never lowers the sum of the cells, and raises it by at most 4 per step. |
| Board.TurnScore | main.c:302-323 | A key that does not change the grid leaves it as it was. A key that changes it raises the sum of the cells by exactly the new tile. |
| Board.TurnTiles | main.c:302-323 | A turn keeps every cell empty or a tile (a power of two, at least 2). |
| Board.AiStepScore | main.c:203-257 | Without a changing move, `ai_make_move` only spawns on the unchanged grid. With one, the sum of the cells rises by exactly the new tile. |
| Board.AiStepTiles | main.c:203-257 | An AI move keeps every cell empty or a tile (a power of two, at least 2). |
| Engine.CopyCells | main.c:208 | The destination grid becomes a copy of the source grid. |
| Engine.Game.constructor | main.c:29 | The global grid starts with every cell empty. |
| Engine.Game.InitializeGrid | main.c:31-42 | The grid is cleared, then the two chosen cells get their tiles (see `StartGridTwoTiles`). |
| Engine.Game.LoadLine | main.c:81-140 | The buffer holds line k of the direction, read from the side the tiles slide towards. |
| Engine.Game.StoreLine | main.c:81-140 | The buffer is written back over line k, and no other cell changes. |
| Engine.Game.SlideLine | main.c:81-140 | Line k is replaced by its merged form, all other cells keep their values, and the flag says whether the line changed. |
| Engine.Game.SlideLines | main.c:81-140 | After the loop, every cell holds its position in its merged line, and the flag says whether some line changed. |
| Engine.Game.Slide | main.c:81-140 | The grid becomes the moved grid, and the result is true exactly when the grid changed. |
| Engine.Game.CollectEmptyCells | main.c:143-154 | The buffer's first `empty_count` entries are exactly the empty cells, in row-major order. |
| Engine.Game.AddNewTile | main.c:142-162 | The grid becomes the spawned grid: the drawn tile on the drawn empty cell, or unchanged when full. |
| Engine.Game.CanMove | main.c:164-179 | True exactly when some cell is empty or equals its right or lower neighbour. |
| Engine.Game.EvaluateGrid | main.c:181-201 | The result is 5 times the number of empty cells plus 2 times the largest tile. |
| Engine.Game.CalculateScore | main.c:270-278 | The result is the sum of the cells. |
| Engine.Game.TryMove | main.c:212-236 | The trial leaves the grid as it found it. It reports whether the move changed the grid, and if so, the evaluation of the moved grid. |
| Engine.Game.AiMakeMove | main.c:203-257 | The grid becomes the result of the best move (see `BestMoveIsFirstHighest`), or stays as it was without one, and then gets a new tile. |
| Engine.Game.AiPlay | main.c:259-268 | The grid becomes the result of up to `Steps` AI moves, stopping at the first grid where `can_move` is false. |
| Engine.Game.PlayTurn | main.c:302-323 | An invalid key changes nothing. A valid key applies its move, and a tile is added only when the grid changed. |

## Left out

- Input and output are not modelled: `print_grid`, the prompt and `scanf`, and the messages. The key pressed is an `Option<Direction>` parameter of `PlayTurn`, where `None` is an invalid key. The `main` loop around the turns is not modelled either.
- `srand(time(NULL))` and `rand()` are not modelled. Each spawn gets a `Draw`: `pick` stands for the `rand()` whose remainder selects the empty cell, and `four` for the draw that decides between 4 and 2. The 0.1 probability of a 4 is therefore not modelled, only that both values can occur.
- Engine.Game.InitializeGrid: the rejection loop that redraws until it hits an empty cell is replaced by its outcome. The caller supplies two distinct cells in the grid and their values. The loop's termination, which depends on `rand()`, is not modelled.
- `move_left` merges `grid[r]` in place. Dafny cannot pass one row of an `array2` as an `array`, so the model copies each line into a buffer and back, as the other three moves do.
- The four `move_*` functions are one method, `Slide`, parameterised by the direction. The mapping from line positions to cells (`CellRow`, `CellCol`) covers the four loops.
- `evaluate_grid` returns a `double`. The model uses exact integers: both weights are whole numbers and the cells are ints, so the value is the same.
- `WEIGHT_CLUSTERING` is declared but never used, so it is left out.
- The keyboard layouts (`AZERTY`) and the choice between human and AI play (`AI_PLAY`) are compile-time switches, and both branches are modelled without the switches.
- The model's integers are unbounded. The C `int` cells and sums could overflow only far beyond any reachable tile, so wrap-around is not modelled.
- Engine.Game.AiPlay: the draws are given as a sequence of exactly `Steps` draws (`STEPS` is 1). The AI makes at most one move per draw.
