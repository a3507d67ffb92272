/** The game manager: setup, random spawns, the turn of a move, and the
    detection of the terminal state. Randomness is an explicit oracle: every
    spawn receives the outcome of its random draws as a `Spawn` value. */
module Games {
  import opened Grids
  import opened Tally
  import opened Moves
  import opened Resolver

  /** The side of the grid. */
  const Size: nat := 4

  /** The number of tiles a new game starts with. */
  const StartTiles: nat := 2

  /** The state of a game. `keepPlaying` records that the player chose to
      continue after a win. */
  datatype Game = Game(grid: Grid, score: int, over: bool, won: bool, keepPlaying: bool) {
    predicate Valid() {
      grid.Valid() && TilesWellFormed(grid)
    }
  }

  /** The outcome of the random draws of one spawn: `draw` selects the empty
      cell, and `four` is true when the value draw falls in the 10% band that
      yields a 4 instead of a 2. */
  datatype Spawn = Spawn(draw: nat, four: bool)

  function SpawnValue(sp: Spawn): (v: int)
    ensures v == 2 || v == 4
    ensures v == 4 <==> sp.four
    ensures IsTileValue(v)
  {
    if sp.four then 4 else 2
  }

  /** A won game the player did not choose to continue, or a lost one, takes
      no more moves. */
  predicate IsGameTerminated(game: Game)
    // play stops only on a loss or a win
    ensures IsGameTerminated(game) ==> game.over || game.won
    // after the player chose to continue, only a loss stops play
    ensures game.keepPlaying ==> (IsGameTerminated(game) <==> game.over)
    // a win stops play until the player chooses to continue
    ensures game.won && !game.keepPlaying ==> IsGameTerminated(game)
    // a loss always stops play
    ensures game.over ==> IsGameTerminated(game)
  {
    game.over || (game.won && !game.keepPlaying)
  }

  /** Places a 2 or a 4 on the empty cell the oracle picks; a full grid is
      left as it is. */
  function AddRandomTile(g: Grid, sp: Spawn): (r: Grid)
    requires g.Valid()
    ensures r.Valid() && r.size == g.size
    ensures !CellsAvailable(g) ==> r == g
    ensures CellsAvailable(g) ==>
      var p := RandomAvailableCell(g, sp.draw).value;
      && CellAvailable(g, p)
      && CellContent(r, p) == SpawnValue(sp)
      && forall q :: q != p ==> CellContent(r, q) == CellContent(g, q)
    ensures TileCount(r) == TileCount(g) + (if CellsAvailable(g) then 1 else 0)
    ensures |AvailableCells(r)| == |AvailableCells(g)| - (if CellsAvailable(g) then 1 else 0)
    ensures TilesWellFormed(g) ==> TilesWellFormed(r)
  {
    match RandomAvailableCell(g, sp.draw)
    case None => g
    case Some(p) =>
      var r := InsertTile(g, Tile(p, SpawnValue(sp)));
      var ms := NoMarks(g.size);
      UpdateSame(ms, p);
      GridSumUpdate(g.cells, ms, p, SpawnValue(sp), false, Count);
      FillingUsesOneCell(g, r, p);
      r
  }

  function Min(a: int, b: int): int {
    if a <= b then a else b
  }

  /** Spawns one tile per oracle outcome, in order. */
  function AddStartTiles(g: Grid, spawns: seq<Spawn>): (r: Grid)
    requires g.Valid()
    ensures r.Valid() && r.size == g.size
    ensures TilesWellFormed(g) ==> TilesWellFormed(r)
    // tiles already placed stay, and each spawn adds at most one tile, a 2 or a 4
    ensures forall p :: CellOccupied(g, p) ==> CellContent(r, p) == CellContent(g, p)
    ensures forall p :: CellAvailable(g, p) && CellOccupied(r, p) ==>
      CellContent(r, p) == 2 || CellContent(r, p) == 4
    ensures TileCount(g) <= TileCount(r) <= TileCount(g) + |spawns|
    // one tile per spawn until the grid is full
    ensures TileCount(r) == TileCount(g) + Min(|spawns|, |AvailableCells(g)|)
    decreases |spawns|
  {
    if |spawns| == 0 then g else AddStartTiles(AddRandomTile(g, spawns[0]), spawns[1..])
  }

  /** A new game: an empty grid seeded with
      the start tiles, score 0, and every flag cleared. */
  function Setup(spawns: seq<Spawn>): (r: Game)
    requires |spawns| == StartTiles
    ensures r.Valid() && r.grid.size == Size
    ensures r.score == 0 && !r.over && !r.won && !r.keepPlaying
    ensures TileCount(r.grid) == StartTiles
    ensures forall p :: CellOccupied(r.grid, p) ==> CellContent(r.grid, p) == 2 || CellContent(r.grid, p) == 4
  {
    StartTilesAreDistinct(spawns);
    StartTilesAreSpawnValues(spawns);
    Game(AddStartTiles(EmptyGrid(Size), spawns), 0, false, false, false)
  }

  /** Every tile of a new game is a 2 or a 4: all of them are spawned. */
  lemma StartTilesAreSpawnValues(spawns: seq<Spawn>)
    ensures var g := AddStartTiles(EmptyGrid(Size), spawns);
      forall p :: CellOccupied(g, p) ==> CellContent(g, p) == 2 || CellContent(g, p) == 4
  {
    var g0 := EmptyGrid(Size);
    forall p | CellOccupied(AddStartTiles(g0, spawns), p)
      ensures CellAvailable(g0, p)
    {
      if WithinBounds(g0, p) {
        assert g0.cells[p.x][p.y] == 0;
      }
    }
  }

  /** A grid with a single tile still has an empty cell. */
  lemma OneTileLeavesRoom(sp: Spawn)
    ensures CellsAvailable(AddRandomTile(EmptyGrid(Size), sp))
  {
    var g0 := EmptyGrid(Size);
    assert CellAvailable(g0, Pos(0, 0));
    var p := RandomAvailableCell(g0, sp.draw).value;
    var q := if p == Pos(0, 0) then Pos(0, 1) else Pos(0, 0);
    assert CellAvailable(AddRandomTile(g0, sp), q);
  }

  /** Both start tiles land on the empty grid, on distinct cells. */
  lemma StartTilesAreDistinct(spawns: seq<Spawn>)
    requires |spawns| == StartTiles
    ensures TileCount(AddStartTiles(EmptyGrid(Size), spawns)) == StartTiles
  {
    var g0 := EmptyGrid(Size);
    EmptyGridHasNoTiles(Size);
    assert CellAvailable(g0, Pos(0, 0));
    var g1 := AddRandomTile(g0, spawns[0]);
    assert TileCount(g1) == 1;
    OneTileLeavesRoom(spawns[0]);
    var g2 := AddRandomTile(g1, spawns[1]);
    assert TileCount(g2) == 2;
    assert spawns[1..][1..] == [];
    assert AddStartTiles(g1, spawns[1..]) == AddStartTiles(g2, spawns[1..][1..]);
  }

  /** Any two distinct cells can receive the two start tiles: for every
      value outcome there are cell draws that put the first tile on `p`
      and the second on `q`. */
  lemma StartTilesCanLandAnywhere(p: Pos, q: Pos, first: bool, second: bool)
    requires 0 <= p.x < Size && 0 <= p.y < Size && 0 <= q.x < Size && 0 <= q.y < Size
    requires p != q
    ensures exists d1: nat, d2: nat ::
      var g := Setup([Spawn(d1, first), Spawn(d2, second)]).grid;
      CellContent(g, p) == SpawnValue(Spawn(d1, first))
      && CellContent(g, q) == SpawnValue(Spawn(d2, second))
  {
    var g0 := EmptyGrid(Size);
    assert g0.cells[p.x][p.y] == 0;
    EveryEmptyCellCanBeDrawn(g0, p);
    var d1: nat :| RandomAvailableCell(g0, d1) == Some(p);
    var g1 := AddRandomTile(g0, Spawn(d1, first));
    assert g0.cells[q.x][q.y] == 0;
    assert CellAvailable(g1, q);
    EveryEmptyCellCanBeDrawn(g1, q);
    var d2: nat :| RandomAvailableCell(g1, d2) == Some(q);
    SetupSpawnsInOrder([Spawn(d1, first), Spawn(d2, second)]);
  }

  /** The start grid is the empty grid after the two spawns, in order. */
  lemma SetupSpawnsInOrder(spawns: seq<Spawn>)
    requires |spawns| == StartTiles
    ensures Setup(spawns).grid == AddRandomTile(AddRandomTile(EmptyGrid(Size), spawns[0]), spawns[1])
  {
    var g1 := AddRandomTile(EmptyGrid(Size), spawns[0]);
    assert spawns[1..][1..] == [];
    assert AddStartTiles(g1, spawns[1..]) == AddStartTiles(AddRandomTile(g1, spawns[1]), spawns[1..][1..]);
  }

  /** Lets play continue after a win; nothing else changes. */
  function KeepPlaying(game: Game): (r: Game)
    ensures r.keepPlaying
    ensures r.grid == game.grid && r.score == game.score
    ensures r.over == game.over && r.won == game.won
    ensures IsGameTerminated(r) <==> game.over
  {
    game.(keepPlaying := true)
  }

  // ---------------------------------------------------------------------------
  // Terminal detection

  /** The neighbour of `p` in direction `d` holds a tile equal to the one at `p`. */
  predicate NeighbourMatches(g: Grid, p: Pos, d: Direction)
    requires g.Valid()
  {
    var q := Add(p, GetVector(d));
    CellOccupied(g, q) && CellContent(g, q) == CellContent(g, p)
  }

  /** The tile at `p` can merge with one of its four neighbours; the
      directions are tried in the order Up, Right, Down, Left. */
  predicate CellHasMatch(g: Grid, p: Pos)
    requires g.Valid()
  {
    CellOccupied(g, p)
    && (NeighbourMatches(g, p, Up) || NeighbourMatches(g, p, Right)
        || NeighbourMatches(g, p, Down) || NeighbourMatches(g, p, Left))
  }

  /** The scan for a matching pair from cell (x, y) on, x outer and y inner,
      stopping at the first match. */
  function TileMatchesFrom(g: Grid, x: nat, y: nat): bool
    requires g.Valid() && x <= g.size && y <= g.size
    decreases g.size - x, g.size - y
  {
    if x == g.size then false
    else if y == g.size then TileMatchesFrom(g, x + 1, 0)
    else CellHasMatch(g, Pos(x, y)) || TileMatchesFrom(g, x, y + 1)
  }

  /** Some tile has an orthogonal neighbour of the same value. */
  ghost predicate HasEqualNeighbours(g: Grid)
    requires g.Valid()
  {
    exists p, d :: CellOccupied(g, p) && NeighbourMatches(g, p, d)
  }

  ghost predicate HasEqualNeighboursFrom(g: Grid, x: int, y: int)
    requires g.Valid()
  {
    exists p, d :: AtOrAfter(p, x, y) && CellOccupied(g, p) && NeighbourMatches(g, p, d)
  }

  lemma {:induction false} TileMatchesFromFindsPairs(g: Grid, x: nat, y: nat)
    requires g.Valid() && x <= g.size && y <= g.size
    ensures TileMatchesFrom(g, x, y) <==> HasEqualNeighboursFrom(g, x, y)
    decreases g.size - x, g.size - y
  {
    if x == g.size {
      assert forall p :: WithinBounds(g, p) ==> !AtOrAfter(p, x, y);
    } else if y == g.size {
      TileMatchesFromFindsPairs(g, x + 1, 0);
      if HasEqualNeighboursFrom(g, x, y) {
        var p, d :| WithinBounds(g, p) && AtOrAfter(p, x, y) && CellOccupied(g, p) && NeighbourMatches(g, p, d);
        assert AtOrAfter(p, x + 1, 0);
      }
    } else {
      TileMatchesFromFindsPairs(g, x, y + 1);
      var c := Pos(x, y);
      if CellHasMatch(g, c) {
        if NeighbourMatches(g, c, Up) {
          assert AtOrAfter(c, x, y);
        } else if NeighbourMatches(g, c, Right) {
          assert AtOrAfter(c, x, y);
        } else if NeighbourMatches(g, c, Down) {
          assert AtOrAfter(c, x, y);
        } else {
          assert NeighbourMatches(g, c, Left);
        }
      }
      if HasEqualNeighboursFrom(g, x, y) {
        var p, d :| WithinBounds(g, p) && AtOrAfter(p, x, y) && CellOccupied(g, p) && NeighbourMatches(g, p, d);
        if p == c {
          assert CellHasMatch(g, c) by {
            match d
            case Up =>
            case Right =>
            case Down =>
            case Left =>
          }
        } else {
          assert AtOrAfter(p, x, y + 1);
        }
      }
    }
  }

  /** The scan finds a pair exactly when some tile has an equal orthogonal
      neighbour. */
  function TileMatchesAvailable(g: Grid): (r: bool)
    requires g.Valid()
    ensures r <==> HasEqualNeighbours(g)
  {
    TileMatchesFromFindsPairs(g, 0, 0);
    assert HasEqualNeighbours(g) ==> HasEqualNeighboursFrom(g, 0, 0) by {
      if HasEqualNeighbours(g) {
        var p, d :| WithinBounds(g, p) && CellOccupied(g, p) && NeighbourMatches(g, p, d);
        assert AtOrAfter(p, 0, 0);
      }
    }
    TileMatchesFrom(g, 0, 0)
  }

  /** Some move can still change the grid: an empty cell or an equal pair. */
  function MovesAvailable(g: Grid): (r: bool)
    requires g.Valid()
    ensures r <==> (exists p :: WithinBounds(g, p) && CellAvailable(g, p)) || HasEqualNeighbours(g)
  {
    CellsAvailable(g) || TileMatchesAvailable(g)
  }

  /** No move is available exactly when every cell holds a tile and no two
      orthogonally adjacent tiles are equal. */
  lemma MovesAvailableCharacterization(g: Grid)
    requires g.Valid()
    ensures !MovesAvailable(g) <==>
      && (forall p :: WithinBounds(g, p) ==> CellOccupied(g, p))
      && (forall p, d :: WithinBounds(g, p) && WithinBounds(g, Add(p, GetVector(d))) ==>
            CellContent(g, Add(p, GetVector(d))) != CellContent(g, p))
  {
    var full := forall p :: WithinBounds(g, p) ==> CellOccupied(g, p);
    var distinct := forall p, d :: WithinBounds(g, p) && WithinBounds(g, Add(p, GetVector(d))) ==>
      CellContent(g, Add(p, GetVector(d))) != CellContent(g, p);
    if !MovesAvailable(g) {
      assert full;
      forall p, d | WithinBounds(g, p) && WithinBounds(g, Add(p, GetVector(d)))
        ensures CellContent(g, Add(p, GetVector(d))) != CellContent(g, p)
      {
        assert !NeighbourMatches(g, p, d);
      }
    }
    if full && distinct {
      assert !CellsAvailable(g);
      forall p, d | WithinBounds(g, p) && CellOccupied(g, p)
        ensures !NeighbourMatches(g, p, d)
      {
        if CellOccupied(g, Add(p, GetVector(d))) {
          assert WithinBounds(g, Add(p, GetVector(d)));
        }
      }
    }
  }

  // ---------------------------------------------------------------------------
  // A turn

  /** One move in direction `d`. A terminated game is left as it is.
      Otherwise the tiles slide and merge; when some tile moved, a tile is
      spawned from the oracle outcome and the game is over if no move
      remains available. */
  function Move(game: Game, d: Direction, sp: Spawn): (r: Game)
    requires game.Valid()
    ensures r.Valid() && r.grid.size == game.grid.size
    ensures r.keepPlaying == game.keepPlaying
    ensures IsGameTerminated(game) ==> r == game
    ensures !IsGameTerminated(game) && !Resolve(game.grid, d, game.score, game.won).moved ==> r == game
  {
    if IsGameTerminated(game) then game
    else
      var s := Resolve(game.grid, d, game.score, game.won);
      ResolveAccounting(game.grid, d, game.score, game.won);
      var after := game.(grid := s.grid, score := s.score, won := s.won);
      if !s.moved then after
      else
        var g := AddRandomTile(s.grid, sp);
        after.(grid := g, over := game.over || !MovesAvailable(g))
  }

  /** When something moved: a cell is free, so exactly one tile is spawned;
      the score rises by exactly the values the merges produced, won is set
      exactly when a merge produced the winning value, and the game is over
      exactly when the resulting grid has no available move. */
  lemma MoveAccounting(game: Game, d: Direction, sp: Spawn)
    requires game.Valid() && !IsGameTerminated(game)
    ensures var s := Resolve(game.grid, d, game.score, game.won);
      var r := Move(game, d, sp);
      s.moved ==>
      && CellsAvailable(s.grid)
      && r.grid == AddRandomTile(s.grid, sp)
      && r.score == game.score + SumOf(s, MergedValue)
      && (r.won <==> game.won || SumOf(s, MergedWins) > 0)
      && (r.over <==> !MovesAvailable(r.grid))
      && TileCount(r.grid) == TileCount(game.grid) - SumOf(s, MergedCount) + 1
  {
    ResolveAccounting(game.grid, d, game.score, game.won);
    ResolveLeavesFreeCell(game.grid, d, game.score, game.won);
  }

  /** A move never lowers the score and never clears won. */
  lemma MoveIsMonotonic(game: Game, d: Direction, sp: Spawn)
    requires game.Valid()
    ensures Move(game, d, sp).score >= game.score
    ensures game.won ==> Move(game, d, sp).won
    ensures game.over ==> Move(game, d, sp).over
  {
    ResolveAccounting(game.grid, d, game.score, game.won);
  }

  /** On a full grid without equal neighbours nothing can slide or merge: the
      visit of any tile leaves the sweep state as it is. */
  lemma StuckCellStaysPut(s: Sweep, d: Direction, cell: Pos)
    requires s.Valid() && !s.moved
    requires forall p :: WithinBounds(s.grid, p) ==> CellOccupied(s.grid, p)
    requires !HasEqualNeighbours(s.grid)
    ensures ProcessCell(s, cell, GetVector(d)) == s
  {
    var v := GetVector(d);
    if CellOccupied(s.grid, cell) {
      var ps := FindFarthestPosition(s.grid, cell, v);
      assert ps.farthest == cell by {
        assert !(WithinBounds(s.grid, Add(cell, v)) && CellAvailable(s.grid, Add(cell, v)));
      }
      assert !NeighbourMatches(s.grid, cell, d);
    }
  }

  lemma {:induction false} StuckColumn(s: Sweep, d: Direction, x: int, ys: seq<int>, j: nat)
    requires s.Valid() && !s.moved
    requires forall p :: WithinBounds(s.grid, p) ==> CellOccupied(s.grid, p)
    requires !HasEqualNeighbours(s.grid)
    ensures SweepColumn(s, x, ys, j, GetVector(d)) == s
    decreases |ys| - j
  {
    if j < |ys| {
      StuckCellStaysPut(s, d, Pos(x, ys[j]));
      StuckColumn(s, d, x, ys, j + 1);
    }
  }

  lemma {:induction false} StuckColumns(s: Sweep, d: Direction, xs: seq<int>, ys: seq<int>, i: nat)
    requires s.Valid() && !s.moved
    requires forall p :: WithinBounds(s.grid, p) ==> CellOccupied(s.grid, p)
    requires !HasEqualNeighbours(s.grid)
    ensures SweepColumns(s, xs, ys, i, GetVector(d)) == s
    decreases |xs| - i
  {
    if i < |xs| {
      StuckColumn(s, d, xs[i], ys, 0);
      StuckColumns(s, d, xs, ys, i + 1);
    }
  }

  /** When no move is available, no direction moves any tile, so a move
      request changes nothing and spawns nothing. */
  lemma NoMoveAvailableMeansNothingMoves(game: Game, d: Direction, sp: Spawn)
    requires game.Valid() && !MovesAvailable(game.grid)
    ensures !Resolve(game.grid, d, game.score, game.won).moved
    ensures Move(game, d, sp) == game
  {
    var g := game.grid;
    MovesAvailableCharacterization(g);
    var t := BuildTraversals(g.size, GetVector(d));
    StuckColumns(PrepareTiles(g, game.score, game.won), d, t.xs, t.ys, 0);
  }

  /** The tile at `p` has, in direction `d`, a neighbour inside the grid that
      is empty or holds an equal tile. */
  predicate TileCanMove(g: Grid, p: Pos, d: Direction)
    requires g.Valid()
  {
    var q := Add(p, GetVector(d));
    CellOccupied(g, p) && WithinBounds(g, q) && (CellAvailable(g, q) || CellContent(g, q) == CellContent(g, p))
  }

  lemma {:induction false} ColumnMovesWhen(s: Sweep, d: Direction, x: int, ys: seq<int>, j: nat, k: nat)
    requires s.Valid() && !s.moved && forall p :: !Marked(s, p)
    requires j <= k < |ys| && WithinBounds(s.grid, Pos(x, ys[k])) && TileCanMove(s.grid, Pos(x, ys[k]), d)
    ensures SweepColumn(s, x, ys, j, GetVector(d)).moved
    decreases |ys| - j
  {
    var v := GetVector(d);
    var cell := Pos(x, ys[j]);
    var s1 := ProcessCell(s, cell, v);
    assert SweepColumn(s, x, ys, j, v) == SweepColumn(s1, x, ys, j + 1, v);
    if j == k {
      ProcessCellMovesIff(s, cell, v);
    } else if !s1.moved {
      ColumnMovesWhen(s, d, x, ys, j + 1, k);
    }
  }

  lemma {:induction false} ColumnsMoveWhen(s: Sweep, d: Direction, xs: seq<int>, ys: seq<int>, i: nat, k: nat, m: nat)
    requires s.Valid() && !s.moved && forall p :: !Marked(s, p)
    requires i <= k < |xs| && m < |ys|
    requires WithinBounds(s.grid, Pos(xs[k], ys[m])) && TileCanMove(s.grid, Pos(xs[k], ys[m]), d)
    ensures SweepColumns(s, xs, ys, i, GetVector(d)).moved
    decreases |xs| - i
  {
    var v := GetVector(d);
    var s1 := SweepColumn(s, xs[i], ys, 0, v);
    assert SweepColumns(s, xs, ys, i, v) == SweepColumns(s1, xs, ys, i + 1, v);
    if i == k {
      ColumnMovesWhen(s, d, xs[i], ys, 0, m);
    } else if !s1.moved {
      ColumnsMoveWhen(s, d, xs, ys, i + 1, k, m);
    }
  }

  /** A tile with an empty or equal neighbour in direction `d` makes the move
      in direction `d` move something: either an earlier visit already moved a
      tile, or nothing has changed when this tile is visited and it moves. */
  lemma TileThatCanMoveMoves(g: Grid, d: Direction, score: int, won: bool, p: Pos)
    requires g.Valid() && WithinBounds(g, p) && TileCanMove(g, p, d)
    ensures Resolve(g, d, score, won).moved
  {
    var v := GetVector(d);
    var n := g.size;
    var t := BuildTraversals(n, v);
    var kx := AxisOrder(n, v.x, p.x);
    var ky := AxisOrder(n, v.y, p.y);
    assert t.xs[kx] == p.x && t.ys[ky] == p.y;
    ColumnsMoveWhen(PrepareTiles(g, score, won), d, t.xs, t.ys, 0, kx, ky);
  }

  /** Manhattan distance between two cells. */
  function Distance(p: Pos, q: Pos): nat {
    (if p.x < q.x then q.x - p.x else p.x - q.x) + (if p.y < q.y then q.y - p.y else p.y - q.y)
  }

  /** A grid holding both a tile and an empty cell has a tile next to an
      empty cell: walk from the tile towards the empty cell until the next
      step is empty. */
  lemma {:induction false} TileNextToEmptyCell(g: Grid, p: Pos, e: Pos)
    requires g.Valid() && WithinBounds(g, p) && WithinBounds(g, e)
    requires CellOccupied(g, p) && CellAvailable(g, e)
    ensures exists c, d :: WithinBounds(g, c) && TileCanMove(g, c, d) && CellAvailable(g, Add(c, GetVector(d)))
    decreases Distance(p, e)
  {
    var d := if p.x < e.x then Right else if p.x > e.x then Left else if p.y < e.y then Down else Up;
    var q := Add(p, GetVector(d));
    assert WithinBounds(g, q) && Distance(q, e) < Distance(p, e);
    if CellAvailable(g, q) {
      assert TileCanMove(g, p, d);
    } else {
      TileNextToEmptyCell(g, q, e);
    }
  }

  /** On a grid holding at least one tile, `movesAvailable` holds exactly when
      some direction moves a tile. */
  lemma MovesAvailableIffSomeDirectionMoves(g: Grid, score: int, won: bool)
    requires g.Valid() && TilesWellFormed(g)
    requires exists p :: WithinBounds(g, p) && CellOccupied(g, p)
    ensures MovesAvailable(g) <==> exists d :: Resolve(g, d, score, won).moved
  {
    if MovesAvailable(g) {
      var c, d: Direction;
      if TileMatchesAvailable(g) {
        c, d :| WithinBounds(g, c) && CellOccupied(g, c) && NeighbourMatches(g, c, d);
        assert TileCanMove(g, c, d);
      } else {
        var p :| WithinBounds(g, p) && CellOccupied(g, p);
        var e :| WithinBounds(g, e) && CellAvailable(g, e);
        TileNextToEmptyCell(g, p, e);
        c, d :| WithinBounds(g, c) && TileCanMove(g, c, d);
      }
      TileThatCanMoveMoves(g, d, score, won, c);
    } else {
      forall d ensures !Resolve(g, d, score, won).moved {
        NoMoveAvailableMeansNothingMoves(Game(g, score, false, won, false), d, Spawn(0, false));
      }
    }
  }
}
