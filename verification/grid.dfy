/** The grid store of the puzzle: an N×N matrix of cells indexed `cells[x][y]`.
    A cell holds the value of the tile on it, and 0 stands for an empty cell
    (`null` in the JavaScript game); no tile ever has value 0. */
module Grids {

  /** A cell coordinate, or a displacement when used as a direction vector. */
  datatype Pos = Pos(x: int, y: int)

  function Add(p: Pos, v: Pos): Pos {
    Pos(p.x + v.x, p.y + v.y)
  }

  datatype Option<+T> = None | Some(value: T)

  /** A numbered piece together with the cell it is placed on (or removed from). */
  datatype Tile = Tile(pos: Pos, value: int)

  /** `m` is an n×n matrix. */
  predicate Square<T>(m: seq<seq<T>>, n: nat) {
    |m| == n && forall x :: 0 <= x < n ==> |m[x]| == n
  }

  predicate PowerOfTwo(v: int)
    decreases if v < 0 then 0 else v
  {
    v == 1 || (v > 1 && v % 2 == 0 && PowerOfTwo(v / 2))
  }

  /** Tile values are powers of two, at least 2. */
  predicate IsTileValue(v: int) {
    v >= 2 && PowerOfTwo(v)
  }

  lemma DoubleIsTileValue(v: int)
    requires IsTileValue(v)
    ensures IsTileValue(2 * v)
  {
    assert (2 * v) / 2 == v;
  }

  datatype Grid = Grid(size: nat, cells: seq<seq<int>>) {
    /** The matrix has the size fixed at construction. */
    predicate Valid() {
      Square(cells, size)
    }
  }

  /** Every non-empty cell holds a tile value. */
  predicate TilesWellFormed(g: Grid)
    requires g.Valid()
  {
    forall x, y :: 0 <= x < g.size && 0 <= y < g.size ==>
      g.cells[x][y] == 0 || IsTileValue(g.cells[x][y])
  }

  /** Point update of a matrix: everything but cell `p` is kept. */
  function Update<T>(m: seq<seq<T>>, p: Pos, v: T): (r: seq<seq<T>>)
    requires 0 <= p.x < |m| && 0 <= p.y < |m[p.x]|
    ensures |r| == |m|
    ensures forall x :: 0 <= x < |m| ==> |r[x]| == |m[x]|
    ensures forall x, y :: 0 <= x < |m| && 0 <= y < |m[x]| ==>
      r[x][y] == (if x == p.x && y == p.y then v else m[x][y])
  {
    m[p.x := m[p.x][p.y := v]]
  }

  /** Writing a cell's own content back changes nothing. */
  lemma UpdateSame<T>(m: seq<seq<T>>, p: Pos)
    requires 0 <= p.x < |m| && 0 <= p.y < |m[p.x]|
    ensures Update(m, p, m[p.x][p.y]) == m
  {
    assert m[p.x][p.y := m[p.x][p.y]] == m[p.x];
  }

  /** Overwriting a cell and then writing its old content back restores the matrix. */
  lemma UpdateRestores<T>(m: seq<seq<T>>, p: Pos, a: T)
    requires 0 <= p.x < |m| && 0 <= p.y < |m[p.x]|
    ensures Update(Update(m, p, a), p, m[p.x][p.y]) == m
  {
    assert m[p.x][p.y := a][p.y := m[p.x][p.y]] == m[p.x];
  }

  /** A fresh grid of the given size with every cell empty. */
  function EmptyGrid(size: nat): (g: Grid)
    ensures g.Valid() && g.size == size
    ensures forall x, y :: 0 <= x < size && 0 <= y < size ==> g.cells[x][y] == 0
  {
    Grid(size, seq(size, _ => seq(size, _ => 0)))
  }

  predicate WithinBounds(g: Grid, p: Pos) {
    0 <= p.x < g.size && 0 <= p.y < g.size
  }

  /** The value stored at `p`; 0 (empty) for every position outside the grid. */
  function CellContent(g: Grid, p: Pos): (r: int)
    requires g.Valid()
    ensures !WithinBounds(g, p) ==> r == 0
    ensures WithinBounds(g, p) ==> r == g.cells[p.x][p.y]
  {
    if WithinBounds(g, p) then g.cells[p.x][p.y] else 0
  }

  predicate CellOccupied(g: Grid, p: Pos)
    requires g.Valid()
  {
    CellContent(g, p) != 0
  }

  predicate CellAvailable(g: Grid, p: Pos)
    requires g.Valid()
  {
    !CellOccupied(g, p)
  }

  /** The cell `q` stops a slide: it lies outside the grid or holds a tile. */
  predicate Blocked(g: Grid, q: Pos)
    requires g.Valid()
  {
    !WithinBounds(g, q) || CellOccupied(g, q)
  }

  /** The cell queries agree with each other and with the list of empty
      cells: a position is either occupied or available, a position outside
      the grid reads as available, and an in-bounds position is available
      exactly when it is listed among the empty cells. */
  lemma CellQueriesAgree(g: Grid, p: Pos)
    requires g.Valid()
    ensures CellAvailable(g, p) != CellOccupied(g, p)
    ensures !WithinBounds(g, p) ==> CellAvailable(g, p)
    ensures CellOccupied(g, p) ==> WithinBounds(g, p) && g.cells[p.x][p.y] != 0
    ensures TilesWellFormed(g) && CellOccupied(g, p) ==> IsTileValue(CellContent(g, p))
    ensures WithinBounds(g, p) ==> (CellAvailable(g, p) <==> p in AvailableCells(g))
  {
  }

  /** Places the tile's value at the tile's own position, overwriting silently. */
  function InsertTile(g: Grid, t: Tile): (r: Grid)
    requires g.Valid() && WithinBounds(g, t.pos)
    ensures r.Valid() && r.size == g.size
    ensures CellContent(r, t.pos) == t.value
    ensures forall p :: p != t.pos ==> CellContent(r, p) == CellContent(g, p)
    ensures TilesWellFormed(g) && (t.value == 0 || IsTileValue(t.value)) ==> TilesWellFormed(r)
  {
    Grid(g.size, Update(g.cells, t.pos, t.value))
  }

  /** Clears the cell at the tile's position. */
  function RemoveTile(g: Grid, t: Tile): (r: Grid)
    requires g.Valid() && WithinBounds(g, t.pos)
    ensures r.Valid() && r.size == g.size
    ensures CellAvailable(r, t.pos)
    ensures forall p :: p != t.pos ==> CellContent(r, p) == CellContent(g, p)
    ensures TilesWellFormed(g) ==> TilesWellFormed(r)
  {
    Grid(g.size, Update(g.cells, t.pos, 0))
  }

  /** Inserting a tile on an empty cell and removing it again gives back the grid. */
  lemma RemoveUndoesInsert(g: Grid, t: Tile)
    requires g.Valid() && WithinBounds(g, t.pos) && CellAvailable(g, t.pos)
    ensures RemoveTile(InsertTile(g, t), t) == g
  {
    UpdateRestores(g.cells, t.pos, t.value);
  }

  /** `p` comes at or after cell (x, y) in the x-outer, y-inner enumeration. */
  predicate AtOrAfter(p: Pos, x: int, y: int) {
    p.x > x || (p.x == x && p.y >= y)
  }

  /** `p` strictly precedes `q` in the x-outer, y-inner enumeration. */
  predicate EnumeratedBefore(p: Pos, q: Pos) {
    p.x < q.x || (p.x == q.x && p.y < q.y)
  }

  /** The empty cells from (x, y) onwards, in enumeration order. */
  function AvailableFrom(g: Grid, x: nat, y: nat): (r: seq<Pos>)
    requires g.Valid() && x <= g.size && y <= g.size
    decreases g.size - x, g.size - y
    ensures forall i :: 0 <= i < |r| ==>
      WithinBounds(g, r[i]) && CellAvailable(g, r[i]) && AtOrAfter(r[i], x, y)
    ensures forall p :: WithinBounds(g, p) && CellAvailable(g, p) && AtOrAfter(p, x, y) ==> p in r
    ensures forall i, j :: 0 <= i < j < |r| ==> EnumeratedBefore(r[i], r[j])
  {
    if x == g.size then []
    else if y == g.size then AvailableFrom(g, x + 1, 0)
    else (if g.cells[x][y] == 0 then [Pos(x, y)] else []) + AvailableFrom(g, x, y + 1)
  }

  /** All empty cells of the grid, each exactly once, x outer and y inner. */
  function AvailableCells(g: Grid): (r: seq<Pos>)
    requires g.Valid()
    ensures forall i :: 0 <= i < |r| ==> WithinBounds(g, r[i]) && CellAvailable(g, r[i])
    ensures forall p :: WithinBounds(g, p) && CellAvailable(g, p) ==> p in r
    ensures forall i, j :: 0 <= i < j < |r| ==> EnumeratedBefore(r[i], r[j])
    ensures forall i, j :: 0 <= i < j < |r| ==> r[i] != r[j]
  {
    AvailableFrom(g, 0, 0)
  }

  /** Some cell of the grid is empty. */
  function CellsAvailable(g: Grid): (r: bool)
    requires g.Valid()
    ensures r <==> exists p :: WithinBounds(g, p) && CellAvailable(g, p)
  {
    var cells := AvailableCells(g);
    if |cells| > 0 then
      assert WithinBounds(g, cells[0]) && CellAvailable(g, cells[0]);
      true
    else
      false
  }

  /** `h` is `g` with a tile on the cell `p`, which is empty in `g`. */
  ghost predicate FilledAt(g: Grid, h: Grid, p: Pos) {
    && g.Valid() && h.Valid() && h.size == g.size
    && WithinBounds(g, p) && CellAvailable(g, p) && CellOccupied(h, p)
    && forall q :: q != p ==> CellContent(h, q) == CellContent(g, q)
  }

  /** Filling one empty cell, and changing nothing else, removes exactly
      that cell from the empty cells listed from (x, y) onwards. */
  lemma {:induction false} FillingRemovesOneCell(g: Grid, h: Grid, p: Pos, x: nat, y: nat)
    requires FilledAt(g, h, p) && x <= g.size && y <= g.size
    ensures |AvailableFrom(g, x, y)| == |AvailableFrom(h, x, y)| + (if AtOrAfter(p, x, y) then 1 else 0)
    decreases g.size - x, g.size - y
  {
    if x == g.size {
    } else if y == g.size {
      FillingRemovesOneCell(g, h, p, x + 1, 0);
    } else {
      FillingRemovesOneCell(g, h, p, x, y + 1);
      AvailableFromStep(g, x, y);
      AvailableFromStep(h, x, y);
      FilledCellStep(g, h, p, Pos(x, y));
    }
  }

  /** One step of the enumeration: the cell (x, y) is listed when empty. */
  lemma AvailableFromStep(g: Grid, x: nat, y: nat)
    requires g.Valid() && x < g.size && y < g.size
    ensures |AvailableFrom(g, x, y)| == (if CellAvailable(g, Pos(x, y)) then 1 else 0) + |AvailableFrom(g, x, y + 1)|
  {
    assert CellContent(g, Pos(x, y)) == g.cells[x][y];
  }

  /** Filling `p` changes the emptiness of `p` alone. */
  lemma FilledCellStep(g: Grid, h: Grid, p: Pos, q: Pos)
    requires FilledAt(g, h, p)
    ensures (if CellAvailable(g, q) then 1 else 0) == (if CellAvailable(h, q) then 1 else 0) + (if q == p then 1 else 0)
  {
  }

  /** A grid with one more tile than `g` on a cell that was empty has
      exactly one empty cell fewer. */
  lemma FillingUsesOneCell(g: Grid, h: Grid, p: Pos)
    requires FilledAt(g, h, p)
    ensures |AvailableCells(h)| == |AvailableCells(g)| - 1
  {
    FillingRemovesOneCell(g, h, p, 0, 0);
  }

  /** The empty cell chosen by a random draw, or None on a full grid. The draw
      stands for `Math.floor(Math.random() * n)`: any natural number, reduced
      modulo the number n of empty cells. */
  function RandomAvailableCell(g: Grid, draw: nat): (r: Option<Pos>)
    requires g.Valid()
    ensures r.None? <==> !CellsAvailable(g)
    ensures r.Some? ==> WithinBounds(g, r.value) && CellAvailable(g, r.value)
  {
    var cells := AvailableCells(g);
    if |cells| > 0 then Some(cells[draw % |cells|]) else None
  }

  lemma SmallRemainder(i: nat, n: nat)
    requires i < n
    ensures i % n == i
  {
  }

  /** Every empty cell is the outcome of some draw. */
  lemma EveryEmptyCellCanBeDrawn(g: Grid, p: Pos)
    requires g.Valid() && WithinBounds(g, p) && CellAvailable(g, p)
    ensures exists draw: nat :: RandomAvailableCell(g, draw) == Some(p)
  {
    var cells := AvailableCells(g);
    assert p in cells;
    var i :| 0 <= i < |cells| && cells[i] == p;
    SmallRemainder(i, |cells|);
    assert RandomAvailableCell(g, i) == Some(cells[i]);
  }
}
