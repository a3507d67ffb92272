/** The move resolver: one pass over the grid in traversal order that slides
    every tile as far as it can go in the move's direction and merges it with
    an equal neighbour that no merge produced this turn. */
module Resolver {
  import opened Grids
  import opened Tally
  import opened Moves

  /** The state one move works on: the grid, the turn's merge markers (a
      marker is set on a tile a merge produced during this move), the score,
      the won flag, and whether any tile ended somewhere other than the cell
      it was visited at. */
  datatype Sweep = Sweep(grid: Grid, merged: seq<seq<bool>>, score: int, won: bool, moved: bool) {
    predicate Valid() {
      grid.Valid() && Square(merged, grid.size)
    }
  }

  /** A weighted sum over the grid and the markers of a sweep. */
  function SumOf(s: Sweep, m: Measure): int
    requires s.Valid()
  {
    GridSum(s.grid.cells, s.merged, m)
  }

  /** The tile at `p` was produced by a merge during this move. */
  predicate Marked(s: Sweep, p: Pos)
    requires s.Valid()
  {
    WithinBounds(s.grid, p) && s.merged[p.x][p.y]
  }

  /** The state before the first tile is visited: every merge marker is
      cleared and no tile has moved yet. */
  function PrepareTiles(g: Grid, score: int, won: bool): (s: Sweep)
    requires g.Valid()
    ensures s.Valid() && s.grid == g && s.score == score && s.won == won && !s.moved
    ensures forall p :: !Marked(s, p)
  {
    Sweep(g, NoMarks(g.size), score, won, false)
  }

  /** Moves the tile at `from` to `to`, marker included: `from` is cleared
      first, then `to` receives the tile, so that `from == to` changes nothing. */
  function MoveTile(s: Sweep, from: Pos, to: Pos): (r: Sweep)
    requires s.Valid() && WithinBounds(s.grid, from) && WithinBounds(s.grid, to)
    ensures r.Valid() && r.grid.size == s.grid.size
    ensures CellContent(r.grid, to) == CellContent(s.grid, from)
    ensures Marked(r, to) == Marked(s, from)
    ensures from != to ==> CellAvailable(r.grid, from) && !Marked(r, from)
    ensures forall p :: p != from && p != to ==>
      CellContent(r.grid, p) == CellContent(s.grid, p) && Marked(r, p) == Marked(s, p)
    ensures TilesWellFormed(s.grid) ==> TilesWellFormed(r.grid)
    ensures r.score == s.score && r.won == s.won && r.moved == s.moved
    ensures from == to ==> r == s
  {
    var t := CellContent(s.grid, from);
    var mark := s.merged[from.x][from.y];
    var g := InsertTile(RemoveTile(s.grid, Tile(from, t)), Tile(to, t));
    var ms := Update(Update(s.merged, from, false), to, mark);
    if from == to then
      UpdateRestores(s.grid.cells, from, 0);
      UpdateRestores(s.merged, from, false);
      s
    else
      s.(grid := g, merged := ms)
  }

  /** The merge of the tile at `cell` into the equal tile at `target`: a tile
      of twice the value, carrying a marker, replaces the target, the visited
      cell is cleared, the merged value is added to the score, and the game is
      won when the merged value is the winning value. */
  function MergeTiles(s: Sweep, cell: Pos, target: Pos): (r: Sweep)
    requires s.Valid() && WithinBounds(s.grid, cell) && WithinBounds(s.grid, target)
    requires cell != target
    ensures r.Valid() && r.grid.size == s.grid.size
    ensures CellContent(r.grid, target) == 2 * CellContent(s.grid, cell) && Marked(r, target)
    ensures CellAvailable(r.grid, cell) && !Marked(r, cell)
    ensures forall p :: p != cell && p != target ==>
      CellContent(r.grid, p) == CellContent(s.grid, p) && Marked(r, p) == Marked(s, p)
    ensures r.score == s.score + 2 * CellContent(s.grid, cell)
    ensures r.won == (s.won || 2 * CellContent(s.grid, cell) == WinningValue)
    ensures r.moved == s.moved
    ensures TilesWellFormed(s.grid) ==> TilesWellFormed(r.grid)
  {
    var t := CellContent(s.grid, cell);
    var merged := Tile(target, t * 2);
    var g := RemoveTile(InsertTile(s.grid, merged), Tile(cell, t));
    var ms := Update(Update(s.merged, target, true), cell, false);
    assert TilesWellFormed(s.grid) && t != 0 ==> IsTileValue(2 * t) by {
      if TilesWellFormed(s.grid) && t != 0 {
        DoubleIsTileValue(t);
      }
    }
    Sweep(g, ms, s.score + merged.value, s.won || merged.value == WinningValue, s.moved)
  }

  /** Visits one cell: a tile there either merges with the tile that stopped
      its search (same value, no marker) or slides to the farthest empty cell.
      A merge puts a marked tile of twice the value on the stopping cell,
      clears the visited cell, adds the merged value to the score and wins
      the game when it makes the winning value. */
  function ProcessCell(s: Sweep, cell: Pos, v: Pos): (r: Sweep)
    requires s.Valid() && IsUnit(v)
    ensures r.Valid() && r.grid.size == s.grid.size
    ensures !r.moved ==> r == s
    ensures s.moved ==> r.moved
    // the visit of an empty cell is skipped
    ensures CellAvailable(s.grid, cell) ==> r == s
  {
    var t := CellContent(s.grid, cell);
    if t == 0 then s
    else
      var ps := FindFarthestPosition(s.grid, cell, v);
      var next := CellContent(s.grid, ps.next);
      if next != 0 && next == t && !Marked(s, ps.next) then
        OffsetLeavesCell(cell, v, Steps(cell, ps.next, v));
        var r := MergeTiles(s, cell, ps.next);
        r.(moved := s.moved || cell != ps.next)
      else
        var r := MoveTile(s, cell, ps.farthest);
        r.(moved := s.moved || cell != ps.farthest)
  }

  /** A visit that changes anything takes the tile away from the visited cell,
      leaving that cell empty. */
  lemma ProcessCellEmptiesVisitedCell(s: Sweep, cell: Pos, v: Pos)
    requires s.Valid() && IsUnit(v)
    ensures var r := ProcessCell(s, cell, v);
      r != s ==> WithinBounds(s.grid, cell) && CellAvailable(r.grid, cell)
  {
    if CellOccupied(s.grid, cell) {
      var ps := FindFarthestPosition(s.grid, cell, v);
      OffsetLeavesCell(cell, v, Steps(cell, ps.next, v));
    }
  }

  /** The visited tile leaves its cell exactly when the neighbouring cell in
      the move's direction is inside the grid and either empty or holding an
      equal tile no merge produced this turn. */
  lemma ProcessCellMovesIff(s: Sweep, cell: Pos, v: Pos)
    requires s.Valid() && IsUnit(v) && WithinBounds(s.grid, cell) && !s.moved
    ensures var q := Add(cell, v);
      ProcessCell(s, cell, v).moved <==>
        && CellOccupied(s.grid, cell)
        && WithinBounds(s.grid, q)
        && (CellAvailable(s.grid, q) || (CellContent(s.grid, q) == CellContent(s.grid, cell) && !Marked(s, q)))
  {
    var q := Add(cell, v);
    if CellOccupied(s.grid, cell) {
      var ps := FindFarthestPosition(s.grid, cell, v);
      OffsetLeavesCell(cell, v, Steps(cell, ps.next, v));
      if WithinBounds(s.grid, q) && CellAvailable(s.grid, q) {
        assert ps.farthest != cell;
      } else {
        assert ps == Positions(cell, q);
      }
    }
  }

  /** The inner loop of a move: cells (x, ys[j]), (x, ys[j + 1]), ... */
  function SweepColumn(s: Sweep, x: int, ys: seq<int>, j: nat, v: Pos): (r: Sweep)
    requires s.Valid() && IsUnit(v)
    decreases |ys| - j
    ensures r.Valid() && r.grid.size == s.grid.size
    ensures !r.moved ==> r == s
    ensures s.moved ==> r.moved
  {
    if j >= |ys| then s
    else SweepColumn(ProcessCell(s, Pos(x, ys[j]), v), x, ys, j + 1, v)
  }

  /** The outer loop of a move: columns xs[i], xs[i + 1], ... */
  function SweepColumns(s: Sweep, xs: seq<int>, ys: seq<int>, i: nat, v: Pos): (r: Sweep)
    requires s.Valid() && IsUnit(v)
    decreases |xs| - i
    ensures r.Valid() && r.grid.size == s.grid.size
    ensures !r.moved ==> r == s
    ensures s.moved ==> r.moved
  {
    if i >= |xs| then s
    else SweepColumns(SweepColumn(s, xs[i], ys, 0, v), xs, ys, i + 1, v)
  }

  /** The slide-and-merge phase of a move in direction `d`, before any tile
      is spawned: markers cleared, then every cell visited, x outer and y
      inner, in the traversal orders of the move's vector. */
  function Resolve(g: Grid, d: Direction, score: int, won: bool): (r: Sweep)
    requires g.Valid()
    ensures r.Valid() && r.grid.size == g.size
    // a move in which no tile left its cell changes nothing
    ensures !r.moved ==> r.grid == g && r.score == score && r.won == won
    ensures !r.moved ==> forall p :: !Marked(r, p)
  {
    var v := GetVector(d);
    var t := BuildTraversals(g.size, v);
    SweepColumns(PrepareTiles(g, score, won), t.xs, t.ys, 0, v)
  }

  /** Once some tile has left its cell, a free cell remains after the rest of
      a column is visited: every visit that changes anything leaves its own
      cell empty. */
  lemma {:induction false} SweepColumnLeavesFreeCell(s: Sweep, x: int, ys: seq<int>, j: nat, v: Pos)
    requires s.Valid() && IsUnit(v)
    requires s.moved ==> CellsAvailable(s.grid)
    ensures var r := SweepColumn(s, x, ys, j, v);
      r.moved ==> CellsAvailable(r.grid)
    decreases |ys| - j
  {
    if j < |ys| {
      var cell := Pos(x, ys[j]);
      var s1 := ProcessCell(s, cell, v);
      assert SweepColumn(s, x, ys, j, v) == SweepColumn(s1, x, ys, j + 1, v);
      ProcessCellEmptiesVisitedCell(s, cell, v);
      if s1 != s {
        assert WithinBounds(s1.grid, cell) && CellAvailable(s1.grid, cell);
      }
      SweepColumnLeavesFreeCell(s1, x, ys, j + 1, v);
    }
  }

  lemma {:induction false} SweepColumnsLeaveFreeCell(s: Sweep, xs: seq<int>, ys: seq<int>, i: nat, v: Pos)
    requires s.Valid() && IsUnit(v)
    requires s.moved ==> CellsAvailable(s.grid)
    ensures var r := SweepColumns(s, xs, ys, i, v);
      r.moved ==> CellsAvailable(r.grid)
    decreases |xs| - i
  {
    if i < |xs| {
      var s1 := SweepColumn(s, xs[i], ys, 0, v);
      assert SweepColumns(s, xs, ys, i, v) == SweepColumns(s1, xs, ys, i + 1, v);
      SweepColumnLeavesFreeCell(s, xs[i], ys, 0, v);
      SweepColumnsLeaveFreeCell(s1, xs, ys, i + 1, v);
    }
  }

  /** A move in which some tile left its cell leaves a cell free for the
      spawn that follows it. */
  lemma ResolveLeavesFreeCell(g: Grid, d: Direction, score: int, won: bool)
    requires g.Valid()
    ensures var r := Resolve(g, d, score, won);
      r.moved ==> CellsAvailable(r.grid)
  {
    var v := GetVector(d);
    var t := BuildTraversals(g.size, v);
    SweepColumnsLeaveFreeCell(PrepareTiles(g, score, won), t.xs, t.ys, 0, v);
  }

  /** What the slide-and-merge phase accounts for: tile values are kept,
      every merge consumes two tiles no merge produced this turn and leaves
      one marked tile, the score rises by exactly the values the merges
      produced, and won is set exactly when a merge produced the winning
      value. */
  lemma ResolveAccounting(g: Grid, d: Direction, score: int, won: bool)
    requires g.Valid() && TilesWellFormed(g)
    ensures var r := Resolve(g, d, score, won);
      && TilesWellFormed(r.grid)
      && Total(r.grid) == Total(g)
      && TileCount(g) - TileCount(r.grid) == SumOf(r, MergedCount)
      && (forall p :: Marked(r, p) ==> CellOccupied(r.grid, p))
      && r.score == score + SumOf(r, MergedValue)
      && r.score >= score
      && (r.won <==> won || SumOf(r, MergedWins) > 0)
  {
    var v := GetVector(d);
    var s0 := PrepareTiles(g, score, won);
    var r := Resolve(g, d, score, won);
    var t := BuildTraversals(g.size, v);
    assert r == SweepColumns(s0, t.xs, t.ys, 0, v);
    ResolveKeepsInvariant(s0, v);
    assert SweepInvariant(s0, r, v, g.size, 0);
    assert TilesWellFormed(r.grid);
    assert SumOf(r, Value) == SumOf(s0, Value);
    assert s0.merged == NoMarks(g.size);
    MarksIrrelevant(r.grid.cells, r.merged, NoMarks(g.size), Value);
    MarksIrrelevant(r.grid.cells, r.merged, NoMarks(g.size), Count);
    SumsNonNegative(r, MergedValue);
  }

  // ---------------------------------------------------------------------------
  // The sweep invariant. Cell (xs[i], ys[j]) of the traversal has key (i, j);
  // keys grow strictly along the traversal, and every cell reached from a cell
  // by stepping along the move's vector has a smaller key.

  function XKey(n: nat, v: Pos, p: Pos): int {
    AxisOrder(n, v.x, p.x)
  }

  function YKey(n: nat, v: Pos, p: Pos): int {
    AxisOrder(n, v.y, p.y)
  }

  /** `p` is visited before the cell whose key is (i, j). */
  predicate KeyBefore(n: nat, v: Pos, p: Pos, i: int, j: int) {
    XKey(n, v, p) < i || (XKey(n, v, p) == i && YKey(n, v, p) < j)
  }

  /** Everything the sweep keeps true from one visited cell to the next:
      markers sit on tiles already visited, and the sums account exactly
      for the merges done so far. */
  ghost predicate SweepInvariant(s0: Sweep, s: Sweep, v: Pos, i: int, j: int) {
    && s0.Valid() && s.Valid() && s.grid.size == s0.grid.size
    && TilesWellFormed(s.grid)
    && (forall p :: Marked(s, p) ==> CellOccupied(s.grid, p) && KeyBefore(s.grid.size, v, p, i, j))
    && SumOf(s, Value) == SumOf(s0, Value)
    && SumOf(s0, Count) - SumOf(s, Count) == SumOf(s, MergedCount)
    && s.score == s0.score + SumOf(s, MergedValue)
    && (s.won <==> s0.won || SumOf(s, MergedWins) > 0)
  }

  /** Stepping along the vector from a cell lowers its key. */
  lemma AheadIsVisitedEarlier(n: nat, v: Pos, p: Pos, k: int, i: int, j: int)
    requires IsUnit(v) && k >= 1
    requires 0 <= p.x < n && 0 <= p.y < n
    requires XKey(n, v, p) == i && YKey(n, v, p) == j
    ensures KeyBefore(n, v, Offset(p, v, k), i, j)
  {
  }

  lemma SumsNonNegative(s: Sweep, m: Measure)
    requires s.Valid() && TilesWellFormed(s.grid)
    ensures SumOf(s, m) >= 0
  {
    GridSumNonNegative(s.grid.cells, s.merged, m);
  }

  /** Sliding a tile to an empty unmarked cell (or leaving it where it is)
      changes no weighted sum. */
  lemma MoveTileSums(s: Sweep, from: Pos, to: Pos, m: Measure)
    requires s.Valid() && WithinBounds(s.grid, from) && WithinBounds(s.grid, to)
    requires !Marked(s, from)
    requires from != to ==> CellAvailable(s.grid, to) && !Marked(s, to)
    ensures SumOf(MoveTile(s, from, to), m) == SumOf(s, m)
  {
    if from != to {
      var t := CellContent(s.grid, from);
      var c1 := Update(s.grid.cells, from, 0);
      var m1 := Update(s.merged, from, false);
      GridSumUpdate(s.grid.cells, s.merged, from, 0, false, m);
      GridSumUpdate(c1, m1, to, t, false, m);
    }
  }

  /** A merge of two unmarked tiles of value t changes each weighted sum by
      the weight of one marked tile of value 2t less two unmarked tiles of
      value t. */
  lemma MergeTilesSums(s: Sweep, cell: Pos, target: Pos, m: Measure)
    requires s.Valid() && WithinBounds(s.grid, cell) && WithinBounds(s.grid, target)
    requires cell != target && !Marked(s, cell) && !Marked(s, target)
    requires CellContent(s.grid, target) == CellContent(s.grid, cell)
    ensures var t := CellContent(s.grid, cell);
      SumOf(MergeTiles(s, cell, target), m)
        == SumOf(s, m) - 2 * Weight(m, t, false) + Weight(m, 2 * t, true) + Weight(m, 0, false)
  {
    var t := CellContent(s.grid, cell);
    var c1 := Update(s.grid.cells, target, 2 * t);
    var m1 := Update(s.merged, target, true);
    GridSumUpdate(s.grid.cells, s.merged, target, 2 * t, true, m);
    GridSumUpdate(c1, m1, cell, 0, false, m);
  }

  /** A merge into a cell visited earlier keeps the invariant. */
  lemma MergeKeepsInvariant(s0: Sweep, s: Sweep, v: Pos, cell: Pos, target: Pos, i: int, j: int, moved: bool)
    requires SweepInvariant(s0, s, v, i, j)
    requires WithinBounds(s.grid, cell) && WithinBounds(s.grid, target) && cell != target
    requires !Marked(s, cell) && !Marked(s, target) && KeyBefore(s.grid.size, v, target, i, j)
    requires CellContent(s.grid, cell) != 0 && CellContent(s.grid, target) == CellContent(s.grid, cell)
    ensures SweepInvariant(s0, MergeTiles(s, cell, target).(moved := moved), v, i, j + 1)
  {
    var r := MergeTiles(s, cell, target).(moved := moved);
    SumsNonNegative(s, MergedWins);
    MergeTilesSums(s, cell, target, Value);
    MergeTilesSums(s, cell, target, Count);
    MergeTilesSums(s, cell, target, MergedCount);
    MergeTilesSums(s, cell, target, MergedValue);
    MergeTilesSums(s, cell, target, MergedWins);
    forall p | Marked(r, p)
      ensures CellOccupied(r.grid, p) && KeyBefore(s.grid.size, v, p, i, j + 1)
    {
      if p != target {
        assert Marked(s, p);
      }
    }
  }

  /** A slide of an unmarked tile to an empty cell (or to where it is) keeps
      the invariant. */
  lemma SlideKeepsInvariant(s0: Sweep, s: Sweep, v: Pos, cell: Pos, to: Pos, i: int, j: int, moved: bool)
    requires SweepInvariant(s0, s, v, i, j)
    requires WithinBounds(s.grid, cell) && WithinBounds(s.grid, to) && !Marked(s, cell)
    requires cell != to ==> CellAvailable(s.grid, to)
    ensures SweepInvariant(s0, MoveTile(s, cell, to).(moved := moved), v, i, j + 1)
  {
    var r := MoveTile(s, cell, to).(moved := moved);
    assert cell != to ==> !Marked(s, to);
    MoveTileSums(s, cell, to, Value);
    MoveTileSums(s, cell, to, Count);
    MoveTileSums(s, cell, to, MergedCount);
    MoveTileSums(s, cell, to, MergedValue);
    MoveTileSums(s, cell, to, MergedWins);
    forall p | Marked(r, p)
      ensures CellOccupied(r.grid, p) && KeyBefore(s.grid.size, v, p, i, j + 1)
    {
      assert Marked(s, p);
    }
  }

  /** Visiting the cell with key (i, j) keeps the invariant, moving its key
      bound to (i, j + 1). In particular the visited tile is never marked, so
      a merge always consumes two tiles no merge produced. */
  lemma {:induction false} ProcessCellKeepsInvariant(s0: Sweep, s: Sweep, v: Pos, cell: Pos, i: int, j: int)
    requires IsUnit(v) && SweepInvariant(s0, s, v, i, j)
    requires WithinBounds(s.grid, cell)
    requires XKey(s.grid.size, v, cell) == i && YKey(s.grid.size, v, cell) == j
    ensures !Marked(s, cell)
    ensures SweepInvariant(s0, ProcessCell(s, cell, v), v, i, j + 1)
  {
    var n := s.grid.size;
    var t := CellContent(s.grid, cell);
    assert !KeyBefore(n, v, cell, i, j);
    if t == 0 {
      forall p | Marked(s, p)
        ensures KeyBefore(n, v, p, i, j + 1)
      {
        assert KeyBefore(n, v, p, i, j);
      }
    } else {
      var ps := FindFarthestPosition(s.grid, cell, v);
      var next := CellContent(s.grid, ps.next);
      if next != 0 && next == t && !Marked(s, ps.next) {
        AheadIsVisitedEarlier(n, v, cell, Steps(cell, ps.next, v), i, j);
        OffsetLeavesCell(cell, v, Steps(cell, ps.next, v));
        MergeKeepsInvariant(s0, s, v, cell, ps.next, i, j, s.moved || cell != ps.next);
      } else {
        SlideKeepsInvariant(s0, s, v, cell, ps.farthest, i, j, s.moved || cell != ps.farthest);
      }
    }
  }

  /** Finishing column i keeps the invariant with the key bound moved to (i + 1, 0). */
  lemma NextColumnKeepsInvariant(s0: Sweep, s: Sweep, v: Pos, i: int, j: int)
    requires SweepInvariant(s0, s, v, i, j) && j >= s.grid.size
    ensures SweepInvariant(s0, s, v, i + 1, 0)
  {
    forall p | Marked(s, p)
      ensures KeyBefore(s.grid.size, v, p, i + 1, 0)
    {
      assert KeyBefore(s.grid.size, v, p, i, j);
    }
  }

  /** Column x is the i-th in traversal order and ys lists its rows in
      traversal order. */
  predicate ColumnOrder(n: nat, v: Pos, x: int, ys: seq<int>, i: int) {
    && 0 <= i < n && x == AxisOrder(n, v.x, i) && |ys| == n
    && forall k :: 0 <= k < |ys| ==> ys[k] == AxisOrder(n, v.y, k)
  }

  /** The cell at row j of column x = xs[i] has traversal key (i, j). */
  lemma ColumnCellKeys(n: nat, v: Pos, x: int, ys: seq<int>, i: int, j: nat)
    requires ColumnOrder(n, v, x, ys, i) && j < n
    ensures XKey(n, v, Pos(x, ys[j])) == i && YKey(n, v, Pos(x, ys[j])) == j
  {
  }

  lemma {:induction false} SweepColumnKeepsInvariant(s0: Sweep, s: Sweep, v: Pos, x: int, ys: seq<int>, i: int, j: nat)
    requires IsUnit(v) && SweepInvariant(s0, s, v, i, j)
    requires ColumnOrder(s.grid.size, v, x, ys, i) && j <= s.grid.size
    ensures SweepInvariant(s0, SweepColumn(s, x, ys, j, v), v, i, s.grid.size)
    decreases |ys| - j
  {
    if j < |ys| {
      var cell := Pos(x, ys[j]);
      var s1 := ProcessCell(s, cell, v);
      ColumnCellKeys(s.grid.size, v, x, ys, i, j);
      ProcessCellKeepsInvariant(s0, s, v, cell, i, j);
      SweepColumnKeepsInvariant(s0, s1, v, x, ys, i, j + 1);
      assert SweepColumn(s, x, ys, j, v) == SweepColumn(s1, x, ys, j + 1, v);
    }
  }

  lemma {:induction false} SweepColumnsKeepsInvariant(s0: Sweep, s: Sweep, v: Pos, xs: seq<int>, ys: seq<int>, i: nat)
    requires IsUnit(v) && SweepInvariant(s0, s, v, i, 0)
    requires i <= s.grid.size
    requires |xs| == s.grid.size && |ys| == s.grid.size
    requires forall k :: 0 <= k < |xs| ==> xs[k] == AxisOrder(s.grid.size, v.x, k)
    requires forall k :: 0 <= k < |ys| ==> ys[k] == AxisOrder(s.grid.size, v.y, k)
    ensures SweepInvariant(s0, SweepColumns(s, xs, ys, i, v), v, s.grid.size, 0)
    decreases |xs| - i
  {
    if i < |xs| {
      var s1 := SweepColumn(s, xs[i], ys, 0, v);
      SweepColumnKeepsInvariant(s0, s, v, xs[i], ys, i, 0);
      NextColumnKeepsInvariant(s0, s1, v, i, s.grid.size);
      SweepColumnsKeepsInvariant(s0, s1, v, xs, ys, i + 1);
    }
  }

  /** Before the first visit the invariant holds trivially: no merge has happened. */
  lemma InitialInvariant(s0: Sweep, v: Pos)
    requires s0.Valid() && TilesWellFormed(s0.grid)
    requires forall p :: !Marked(s0, p)
    ensures SweepInvariant(s0, s0, v, 0, 0)
  {
    var n := s0.grid.size;
    assert forall x, y :: 0 <= x < n && 0 <= y < n ==> !s0.merged[x][y] by {
      forall x, y | 0 <= x < n && 0 <= y < n
        ensures !s0.merged[x][y]
      {
        assert !Marked(s0, Pos(x, y));
      }
    }
    GridSumUnmarked(s0.grid.cells, s0.merged, MergedCount);
    GridSumUnmarked(s0.grid.cells, s0.merged, MergedValue);
    GridSumUnmarked(s0.grid.cells, s0.merged, MergedWins);
  }

  /** The whole sweep, started from a grid with no marker, keeps the invariant. */
  lemma ResolveKeepsInvariant(s0: Sweep, v: Pos)
    requires IsUnit(v) && s0.Valid() && TilesWellFormed(s0.grid)
    requires forall p :: !Marked(s0, p)
    ensures var t := BuildTraversals(s0.grid.size, v);
      SweepInvariant(s0, SweepColumns(s0, t.xs, t.ys, 0, v), v, s0.grid.size, 0)
  {
    var t := BuildTraversals(s0.grid.size, v);
    InitialInvariant(s0, v);
    SweepColumnsKeepsInvariant(s0, s0, v, t.xs, t.ys, 0);
  }

  // ---------------------------------------------------------------------------
  // Where the tiles end. A visited tile stops on a cell whose next cell along
  // the vector is outside the grid or holds a tile, and nothing visited later
  // empties such a next cell: it was visited earlier still.

  /** What a visit of a tile does: it merges into the tile that stopped its
      search when that tile is equal and carries no marker, and otherwise it
      lands on the farthest empty cell of its path. */
  lemma ProcessCellOutcome(s: Sweep, cell: Pos, v: Pos)
    requires s.Valid() && IsUnit(v) && CellOccupied(s.grid, cell)
    ensures var ps := FindFarthestPosition(s.grid, cell, v);
      var t := CellContent(s.grid, cell);
      var r := ProcessCell(s, cell, v);
      if CellContent(s.grid, ps.next) == t && !Marked(s, ps.next) then
        && CellContent(r.grid, ps.next) == 2 * t && Marked(r, ps.next)
        && CellAvailable(r.grid, cell) && r.moved
        && r.score == s.score + 2 * t
        && (forall p :: p != cell && p != ps.next ==> CellContent(r.grid, p) == CellContent(s.grid, p))
      else
        && CellContent(r.grid, ps.farthest) == t
        && (r.moved <==> s.moved || ps.farthest != cell)
        && (ps.farthest != cell ==> CellAvailable(r.grid, cell))
        && r.score == s.score && r.won == s.won
        && (forall p :: p != cell && p != ps.farthest ==> CellContent(r.grid, p) == CellContent(s.grid, p))
  {
    var ps := FindFarthestPosition(s.grid, cell, v);
    OffsetLeavesCell(cell, v, Steps(cell, ps.next, v));
  }

  /** Every tile on a cell visited before key (i, j) has nowhere left to slide. */
  ghost predicate Packed(s: Sweep, v: Pos, i: int, j: int)
    requires s.Valid()
  {
    forall p {:trigger KeyBefore(s.grid.size, v, p, i, j)} ::
      CellOccupied(s.grid, p) && KeyBefore(s.grid.size, v, p, i, j) ==> Blocked(s.grid, Add(p, v))
  }

  /** The only cell with key (i, j) is the cell visited at (i, j). */
  lemma KeyIdentifiesCell(n: nat, v: Pos, p: Pos, cell: Pos, i: int, j: int)
    requires XKey(n, v, cell) == i && YKey(n, v, cell) == j
    requires KeyBefore(n, v, p, i, j + 1) && !KeyBefore(n, v, p, i, j)
    ensures p == cell
  {
  }

  /** The next cell of a cell visited earlier is not the cell being visited. */
  lemma NeighbourOfEarlierCell(n: nat, v: Pos, p: Pos, cell: Pos, i: int, j: int)
    requires IsUnit(v) && 0 <= p.x < n && 0 <= p.y < n
    requires KeyBefore(n, v, p, i, j)
    requires XKey(n, v, cell) == i && YKey(n, v, cell) == j
    ensures Add(p, v) != cell
  {
    AheadIsVisitedEarlier(n, v, p, 1, XKey(n, v, p), YKey(n, v, p));
    assert Offset(p, v, 1) == Add(p, v);
  }

  /** A slide of the visited tile onto a cell whose next cell is blocked keeps
      every visited tile packed. */
  lemma SlideKeepsPacked(s: Sweep, v: Pos, cell: Pos, to: Pos, i: int, j: int, moved: bool)
    requires s.Valid() && IsUnit(v) && Packed(s, v, i, j)
    requires WithinBounds(s.grid, cell) && WithinBounds(s.grid, to) && CellOccupied(s.grid, cell)
    requires XKey(s.grid.size, v, cell) == i && YKey(s.grid.size, v, cell) == j
    requires cell != to ==> CellAvailable(s.grid, to)
    requires Blocked(s.grid, Add(to, v)) && Add(to, v) != cell
    ensures Packed(MoveTile(s, cell, to).(moved := moved), v, i, j + 1)
  {
    var n := s.grid.size;
    var r := MoveTile(s, cell, to).(moved := moved);
    forall p | CellOccupied(r.grid, p) && KeyBefore(n, v, p, i, j + 1)
      ensures Blocked(r.grid, Add(p, v))
    {
      if p == to {
        assert Add(to, v) != to;
      } else {
        assert p != cell;
        assert CellOccupied(s.grid, p);
        if !KeyBefore(n, v, p, i, j) {
          KeyIdentifiesCell(n, v, p, cell, i, j);
        }
        NeighbourOfEarlierCell(n, v, p, cell, i, j);
      }
    }
  }

  /** A merge of the visited tile into a tile visited earlier keeps every
      visited tile packed. */
  lemma MergeKeepsPacked(s: Sweep, v: Pos, cell: Pos, target: Pos, i: int, j: int, moved: bool)
    requires s.Valid() && IsUnit(v) && Packed(s, v, i, j)
    requires WithinBounds(s.grid, cell) && WithinBounds(s.grid, target) && cell != target
    requires CellOccupied(s.grid, cell) && CellOccupied(s.grid, target)
    requires XKey(s.grid.size, v, cell) == i && YKey(s.grid.size, v, cell) == j
    requires KeyBefore(s.grid.size, v, target, i, j)
    ensures Packed(MergeTiles(s, cell, target).(moved := moved), v, i, j + 1)
  {
    var n := s.grid.size;
    var r := MergeTiles(s, cell, target).(moved := moved);
    forall p | CellOccupied(r.grid, p) && KeyBefore(n, v, p, i, j + 1)
      ensures Blocked(r.grid, Add(p, v))
    {
      assert p != cell;
      if !KeyBefore(n, v, p, i, j) {
        KeyIdentifiesCell(n, v, p, cell, i, j);
      }
      NeighbourOfEarlierCell(n, v, p, cell, i, j);
      if p == target {
        assert Add(target, v) != target;
      } else {
        assert CellOccupied(s.grid, p);
      }
    }
  }

  /** Visiting the cell with key (i, j) extends the packed region to (i, j + 1). */
  lemma ProcessCellKeepsPacked(s: Sweep, v: Pos, cell: Pos, i: int, j: int)
    requires s.Valid() && IsUnit(v) && Packed(s, v, i, j)
    requires WithinBounds(s.grid, cell)
    requires XKey(s.grid.size, v, cell) == i && YKey(s.grid.size, v, cell) == j
    ensures Packed(ProcessCell(s, cell, v), v, i, j + 1)
  {
    var n := s.grid.size;
    var t := CellContent(s.grid, cell);
    if t == 0 {
      forall p | CellOccupied(s.grid, p) && KeyBefore(n, v, p, i, j + 1)
        ensures Blocked(s.grid, Add(p, v))
      {
        if !KeyBefore(n, v, p, i, j) {
          KeyIdentifiesCell(n, v, p, cell, i, j);
        }
      }
    } else {
      var ps := FindFarthestPosition(s.grid, cell, v);
      var next := CellContent(s.grid, ps.next);
      OffsetLeavesCell(cell, v, Steps(cell, ps.next, v));
      if next != 0 && next == t && !Marked(s, ps.next) {
        AheadIsVisitedEarlier(n, v, cell, Steps(cell, ps.next, v), i, j);
        MergeKeepsPacked(s, v, cell, ps.next, i, j, s.moved || cell != ps.next);
      } else {
        SlideKeepsPacked(s, v, cell, ps.farthest, i, j, s.moved || cell != ps.farthest);
      }
    }
  }

  /** Finishing column i extends the packed region to (i + 1, 0). */
  lemma NextColumnKeepsPacked(s: Sweep, v: Pos, i: int)
    requires s.Valid() && Packed(s, v, i, s.grid.size)
    ensures Packed(s, v, i + 1, 0)
  {
    forall p | CellOccupied(s.grid, p) && KeyBefore(s.grid.size, v, p, i + 1, 0)
      ensures Blocked(s.grid, Add(p, v))
    {
      assert KeyBefore(s.grid.size, v, p, i, s.grid.size);
    }
  }

  lemma {:induction false} SweepColumnKeepsPacked(s: Sweep, v: Pos, x: int, ys: seq<int>, i: int, j: nat)
    requires s.Valid() && IsUnit(v) && Packed(s, v, i, j)
    requires ColumnOrder(s.grid.size, v, x, ys, i) && j <= s.grid.size
    ensures Packed(SweepColumn(s, x, ys, j, v), v, i, s.grid.size)
    decreases |ys| - j
  {
    if j < |ys| {
      var cell := Pos(x, ys[j]);
      var s1 := ProcessCell(s, cell, v);
      ColumnCellKeys(s.grid.size, v, x, ys, i, j);
      ProcessCellKeepsPacked(s, v, cell, i, j);
      SweepColumnKeepsPacked(s1, v, x, ys, i, j + 1);
      assert SweepColumn(s, x, ys, j, v) == SweepColumn(s1, x, ys, j + 1, v);
    }
  }

  lemma {:induction false} SweepColumnsKeepPacked(s: Sweep, v: Pos, xs: seq<int>, ys: seq<int>, i: nat)
    requires s.Valid() && IsUnit(v) && Packed(s, v, i, 0)
    requires i <= s.grid.size
    requires |xs| == s.grid.size && |ys| == s.grid.size
    requires forall k :: 0 <= k < |xs| ==> xs[k] == AxisOrder(s.grid.size, v.x, k)
    requires forall k :: 0 <= k < |ys| ==> ys[k] == AxisOrder(s.grid.size, v.y, k)
    ensures Packed(SweepColumns(s, xs, ys, i, v), v, s.grid.size, 0)
    decreases |xs| - i
  {
    if i < |xs| {
      var s1 := SweepColumn(s, xs[i], ys, 0, v);
      SweepColumnKeepsPacked(s, v, xs[i], ys, i, 0);
      NextColumnKeepsPacked(s1, v, i);
      SweepColumnsKeepPacked(s1, v, xs, ys, i + 1);
    }
  }

  /** After the slide-and-merge phase no tile can slide any further: the next
      cell of every tile in the move's direction is outside the grid or holds
      a tile. */
  lemma ResolvePacksTiles(g: Grid, d: Direction, score: int, won: bool)
    requires g.Valid()
    ensures var r := Resolve(g, d, score, won);
      var v := GetVector(d);
      forall p :: CellOccupied(r.grid, p) ==> Blocked(r.grid, Add(p, v))
  {
    var v := GetVector(d);
    var n := g.size;
    var t := BuildTraversals(n, v);
    var s0 := PrepareTiles(g, score, won);
    assert Packed(s0, v, 0, 0);
    SweepColumnsKeepPacked(s0, v, t.xs, t.ys, 0);
    var r := Resolve(g, d, score, won);
    forall p | CellOccupied(r.grid, p)
      ensures Blocked(r.grid, Add(p, v))
    {
      assert KeyBefore(n, v, p, n, 0);
    }
  }
}
