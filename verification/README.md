# FAV2048 rules engine in Dafny

This project models the rules engine of FAV2048, a 2048-style sliding-tile puzzle. The puzzle is played on a 4×4 grid in a browser favicon. The model covers:

- the **grid store**: an N×N matrix indexed `cells[x][y]`, with bounds checks, occupancy queries, tile insertion and removal, and the enumeration of empty cells;
- the **move resolver**:
  - a direction becomes a unit vector;
  - each axis gets a traversal order;
  - the per-turn merge markers are cleared;
  - every cell is visited, x outer and y inner. A tile on it either merges with the equal, unmerged tile that stopped its farthest-position search, or slides to the farthest empty cell;
- the **game manager**:
  - setup, with the start tiles;
  - random spawns;
  - the turn of a move: score, `won`, the spawn after a move that moved something, and `over`;
  - the terminal predicates `movesAvailable`, `tileMatchesAvailable` and `isGameTerminated`.

Everything is an immutable value, and every operation is a pure function.

- A grid is `Grid(size, cells)`, where `cells[x][y]` holds a tile's value and 0 stands for an empty cell (`null` in JavaScript).
- The per-turn "produced by a merge" markers (`mergedFrom` in JavaScript) live in a parallel boolean matrix of the resolver state `Sweep`. That matrix exists only during one move, because `prepareTiles` clears every marker before the resolver reads any. The renderer also reads `mergedFrom` after a move (fav2048.js:98-101), but rendering is not modelled.
- Randomness is an oracle. A `Spawn(draw, four)` value stands for the two `Math.random()` draws of one spawn:
  - `draw` picks the empty cell (reduced modulo the number of empty cells);
  - `four` picks a 4 over a 2.

Files:

- `grid.dfy` (module `Grids`): positions, tiles, the grid and its queries, the enumeration of empty cells, and the random choice of an empty cell.
- `tally.dfy` (module `Tally`): weighted sums over the grid and the markers. These are the sum of tile values, the number of tiles, and the value, number and 2048-count of merged tiles. It also has the point-update lemma they all rest on.
- `traversal.dfy` (module `Moves`): directions, vectors, the traversal orders and the farthest-position search.
- `resolver.dfy` (module `Resolver`): `prepareTiles`, `moveTile`, the merge step, the cell visit and the whole slide-and-merge sweep. It also holds the sweep invariant behind the single-merge rule and the exact score accounting, and the packing invariant showing that no tile can slide further after a move.
- `game.dfy` (module `Games`): the game state, the spawns, setup, `keepPlaying`, terminal detection and the turn of a move.

The single-merge rule is proved through a key ordering on cells:

- Cell `(xs[i], ys[j])` of the traversal has key `(i, j)`.
- Stepping along the move's vector always reaches a cell with a smaller key, which has already been visited.
- Markers only ever sit on visited cells, so the tile being visited never carries one.
- A merge therefore always consumes two tiles that no merge produced this turn.
- As a consequence, the number of tiles lost in a move equals the number of tiles that carry a merge marker afterwards.
- A marked tile cannot change again within the move. So "some marked tile has value 2048 after the sweep" is the same condition as the JavaScript game's test when the merge happens, which sets `won`.

The same key ordering shows that a move leaves every tile packed against the edge it travels to:

- A visited tile stops on a cell whose next cell along the vector is outside the grid or holds a tile. It either slides to the farthest empty cell of its path or merges into the tile that stopped it.
- That next cell has a smaller key, so no later visit empties it. A later visit only empties the cell being visited.
- So once the sweep is over, no tile has an empty in-bounds cell ahead of it.

## Model

| member | source | states |
|---|---|---|
| Grids.EmptyGrid | fav2048.js:187-204 | a new grid has the requested size and every cell is empty |
| Grids.CellContent | fav2048.js:247-253 | a position outside the grid reads as empty; inside, the stored value is returned |
| Grids.CellQueriesAgree | fav2048.js:239-266 | `withinBounds`, `cellOccupied` and `cellAvailable` agree: every position is either occupied or available, a position outside the grid reads as available, an occupied cell is in bounds and holds a tile value, and an in-bounds cell is available exactly when `availableCells` lists it |
| Grids.InsertTile | fav2048.js:255-257 | the tile's cell now holds its value and every other position reads as before |
| Grids.RemoveTile | fav2048.js:259-261 | the tile's cell is empty afterwards and every other position reads as before |
| Grids.RemoveUndoesInsert | fav2048.js:255-261 | inserting a tile on an empty cell and then removing it gives back the original grid |
| Grids.AvailableCells | fav2048.js:214-233 | the list holds exactly the empty in-bounds cells, each once, strictly in x-outer, y-inner order |
| Grids.FillingUsesOneCell | fav2048.js:214-224 | putting a tile on one empty cell, and changing nothing else, shortens the list of empty cells by exactly one |
| Grids.CellsAvailable | fav2048.js:235-237 | true exactly when some in-bounds cell is empty |
| Grids.RandomAvailableCell | fav2048.js:206-212 | returns nothing exactly when no cell is empty; any cell it returns is an empty in-bounds cell |
| Grids.EveryEmptyCellCanBeDrawn | fav2048.js:206-212 | every empty cell is the outcome of some draw |
| Tally.EmptyGridHasNoTiles | fav2048.js:192-204 | a new grid holds no tile and its values sum to 0 |
| Moves.GetVector | fav2048.js:403-412 | every direction maps to one of the four orthogonal unit vectors |
| Moves.VectorsAreDirections | fav2048.js:403-412 | the direction-to-vector map is a bijection onto the four unit vectors |
| Moves.BuildTraversals | fav2048.js:414-426 | each axis order is a permutation of [0, size): ascending, and reversed exactly when that axis's vector component is +1 |
| Moves.FindFarthestPosition | fav2048.js:428-441 | the search terminates; next = farthest + v; farthest is the start cell or an empty in-bounds cell; next is out of bounds or occupied; next lies at least one step away, and every cell strictly between the start and next is in bounds and empty |
| Resolver.PrepareTiles | fav2048.js:332-339 | the grid, score and won are kept, nothing has moved yet, and no cell carries a merge marker |
| Resolver.MoveTile | fav2048.js:341-345 | the target receives the moving tile and its marker; the cell it came from is cleared when it differs from the target; every other cell is kept; score, won and moved are untouched; a move onto itself changes nothing |
| Resolver.MergeTiles | fav2048.js:369-380 | the target gets a marked tile of twice the value; the visited cell is cleared; every other cell is kept; the score rises by the merged value; won is set exactly when the merged value is 2048 |
| Resolver.ProcessCell | fav2048.js:360-388 | the visit of an empty cell is skipped; a visit that moves nothing leaves the state unchanged; once set, moved stays set |
| Resolver.ProcessCellEmptiesVisitedCell | fav2048.js:366-388 | a visit that changes anything takes the tile away from the visited cell and leaves that cell empty |
| Resolver.ProcessCellOutcome | fav2048.js:366-388 | a visited tile merges into the tile that stopped its farthest-position search when that tile is equal and unmarked: a marked tile of twice the value sits there, the visited cell is empty and the score rises by the merged value; otherwise the tile lands on the farthest empty cell of its path and the score is kept; every other cell is kept |
| Resolver.ProcessCellKeepsPacked | fav2048.js:366-388 | after the visit of the cell with traversal key (i, j), every tile on a cell visited so far has its next cell along the vector outside the grid or occupied |
| Resolver.ResolvePacksTiles | fav2048.js:347-391 | after the slide-and-merge phase no tile can slide further: the next cell of every tile in the move's direction is outside the grid or holds a tile |
| Resolver.ProcessCellMovesIff | fav2048.js:365-388 | a visited tile leaves its cell exactly when its neighbour along the vector is in bounds and either empty or an equal tile without a merge marker; a merge thus always sets moved |
| Resolver.Resolve | fav2048.js:347-391 | when no tile left its cell, the grid, score and won are unchanged and no marker is set |
| Resolver.ResolveLeavesFreeCell | fav2048.js:382-397 | when some tile left its cell, the swept grid has an empty cell for the spawn |
| Resolver.ResolveAccounting | fav2048.js:369-383 | after the slide-and-merge phase: tile values stay powers of two and their sum is kept; tiles lost equal marked tiles; marked cells hold tiles; the score rises by exactly the marked values and never falls; won is set exactly when it was set before or some marked tile is 2048 |
| Resolver.ProcessCellKeepsInvariant | fav2048.js:365-383 | the visited tile never carries a merge marker, so no merged tile merges again, and the sweep's accounting invariant is kept |
| Games.SpawnValue | fav2048.js:314 | a spawn is a 2 or a 4, a legal tile value, and a 4 exactly when the value draw falls in the 4 band |
| Games.IsGameTerminated | fav2048.js:291-293 | play stops only on a loss or a win; a loss always stops it; a win stops play until the player chooses to continue; after that only a loss stops it |
| Games.AddRandomTile | fav2048.js:312-319 | on a grid with an empty cell, the drawn empty cell gets the spawn value, everything else is kept, the tile count rises by one and the number of empty cells falls by one; a full grid is unchanged |
| Games.AddStartTiles | fav2048.js:306-310 | tiles already on the grid stay, every new tile lands on a cell that was empty and is a 2 or a 4, and each spawn adds exactly one tile until the grid is full: the tile count rises by the smaller of the number of spawns and the number of empty cells |
| Games.Setup | fav2048.js:295-310 | a new game is a 4×4 grid with exactly two tiles on distinct cells, each a 2 or a 4, score 0 and over, won and keepPlaying cleared |
| Games.SetupSpawnsInOrder | fav2048.js:306-310 | the start grid is the empty grid after the first spawn and then the second, in that order |
| Games.StartTilesCanLandAnywhere | fav2048.js:306-319 | for any two distinct cells and any value outcomes, some cell draws put the first start tile on the one and the second on the other |
| Games.KeepPlaying | fav2048.js:286-293 | only keepPlaying is set; the game is then terminated exactly when it is over |
| Games.TileMatchesFromFindsPairs | fav2048.js:447-472 | the scan from cell (x, y) on returns true exactly when some tile at or after (x, y), in x-outer, y-inner order, has an orthogonal neighbour of the same value |
| Games.TileMatchesAvailable | fav2048.js:447-472 | the whole-grid scan returns true exactly when some tile has an orthogonal neighbour of the same value |
| Games.MovesAvailable | fav2048.js:443-445 | true exactly when some in-bounds cell is empty or some tile has an equal orthogonal neighbour |
| Games.MovesAvailableCharacterization | fav2048.js:443-472 | no move is available exactly when every cell holds a tile and no two orthogonally adjacent tiles are equal |
| Games.MovesAvailableIffSomeDirectionMoves | fav2048.js:443-472 | on a grid with a tile, moves are available exactly when some direction moves a tile |
| Games.TileThatCanMoveMoves | fav2048.js:360-392 | a tile with an empty or equal neighbour in direction d makes the move in direction d report moved |
| Games.TileNextToEmptyCell | fav2048.js:443-445 | a grid with a tile and an empty cell has a tile whose neighbour in some direction is an empty in-bounds cell, so that tile can move |
| Games.NoMoveAvailableMeansNothingMoves | fav2048.js:347-401 | when no move is available, no direction moves a tile, and a move request leaves the game unchanged |
| Games.Move | fav2048.js:347-401 | a terminated game is unchanged; a move in which no tile moved changes nothing, spawns nothing and leaves over unchanged; keepPlaying is never changed by a move |
| Games.MoveAccounting | fav2048.js:392-397 | after a move that moved: the swept grid has a free cell and the result is the swept grid plus one spawn; the score rises by the merged values; won is set exactly when a merge made 2048 or it was set; over is set exactly when no move remains; the tile count drops by the merges and rises by exactly one |
| Games.MoveIsMonotonic | fav2048.js:378-380 | a move never lowers the score and never clears won or over |

## Left out

- The favicon canvas rendering and the animation bootstrap (fav2048.js:21-112) are browser output and are not modelled. `actuate` and `fillGrid` are left out too; this is why `Setup` and `Move` do not render.
- `KeyboardInputManager` (fav2048.js:114-167) is DOM event wiring. A move request is the `Direction` argument of `Games.Move`.
- The `actuator.continueGame()` calls in `restart` and `keepPlaying` (fav2048.js:282, 288) call an object that is never defined. As written, they throw a TypeError:
  - `restart` throws before its `setup` runs;
  - `keepPlaying` throws after it has set its flag.
  `Games.Setup` models the `setup` a restart means to run, with the failing call dropped. `Games.KeepPlaying` models the flag update, which happens before the throw.
- The `keepPlaying` method is shadowed by a field of the same name once `setup` runs (fav2048.js:276, 286-287, 300). The model has a plain boolean flag and the `Games.KeepPlaying` operation.
- `Math.random` (fav2048.js:210, 314) is replaced by the `Spawn` oracle, and the 90%/10% odds of a 2 or a 4 are not modelled. `Math.floor(Math.random() * n)` is modelled as any natural number reduced modulo n. Every empty cell is reachable, as `Grids.EveryEmptyCellCanBeDrawn` shows.
- Tile object identity, `previousPosition`, `savePosition`, `updatePosition` and the `mergedFrom` references (fav2048.js:169-185) exist only for rendering and move detection. Move detection is modelled by comparing the visited cell with the tile's final cell, which is what `positionsEqual` (fav2048.js:474-476) computes. The markers are a boolean matrix local to one move.
- The `value || 2` default of the `Tile` constructor (fav2048.js:172) is not modelled. Every caller passes a non-zero value.
- `getVector` returns `undefined` for a direction outside 0 to 3 (fav2048.js:403-412). The model makes such directions impossible with the four-constructor `Direction` type.
- Games.Move: the contract of the turn function itself states only the no-op cases. The score, `won`, `over` and spawn accounting of a moving turn are stated in `Games.MoveAccounting`.
- `Grids.AvailableCells` lists empty cells x outer, y inner over `cells[x][y]`. That is the loop order of `eachCell` (fav2048.js:227-233).
- No concrete move on a concrete grid is stated as a lemma, for example `[2, 2, 2, 2]` moved Left giving `[4, 4, _, _]` and 8 points. Such instances follow from the general contracts, but unfolding the sweep on literal grids is too expensive for the verifier. The outcome of a move is stated for all grids:
  - `Resolver.ProcessCellOutcome`: where each visited tile goes;
  - `Resolver.ResolvePacksTiles`: no tile can slide further afterwards;
  - `Resolver.ResolveAccounting`: sums, counts, score and `won`.
- On a full grid with no move left, a move request changes nothing, and `over` in particular stays as it is (`Games.NoMoveAvailableMeansNothingMoves`). As in the JavaScript game (fav2048.js:392-397), `over` is only set by the turn that moved and left no move. A game reaches a stuck grid only through such a turn, so it is already over.
