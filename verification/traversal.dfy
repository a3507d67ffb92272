/** The geometry of a move: direction vectors, the per-axis traversal orders,
    and the farthest-position search along a direction. */
module Moves {
  import opened Grids

  /** The four directions; the JavaScript game numbers them 0 to 3 in this order. */
  datatype Direction = Up | Right | Down | Left

  /** One of the four orthogonal unit vectors. */
  predicate IsUnit(v: Pos) {
    v == Pos(0, -1) || v == Pos(1, 0) || v == Pos(0, 1) || v == Pos(-1, 0)
  }

  /** The unit vector of a direction; y grows downwards. */
  function GetVector(d: Direction): (v: Pos)
    ensures IsUnit(v)
  {
    match d
    case Up => Pos(0, -1)
    case Right => Pos(1, 0)
    case Down => Pos(0, 1)
    case Left => Pos(-1, 0)
  }

  /** Distinct directions have distinct vectors, and every unit vector is one. */
  lemma VectorsAreDirections()
    ensures forall d, e :: GetVector(d) == GetVector(e) ==> d == e
    ensures forall v :: IsUnit(v) ==> exists d :: GetVector(d) == v
  {
    forall v | IsUnit(v)
      ensures exists d :: GetVector(d) == v
    {
      if v == Pos(0, -1) {
        assert GetVector(Up) == v;
      } else if v == Pos(1, 0) {
        assert GetVector(Right) == v;
      } else if v == Pos(0, 1) {
        assert GetVector(Down) == v;
      } else {
        assert GetVector(Left) == v;
      }
    }
  }

  /** The positions an axis is visited in, for the x and the y axis. */
  datatype Traversals = Traversals(xs: seq<int>, ys: seq<int>)

  /** [0, n) in ascending order. */
  function Range(n: nat): (r: seq<int>)
    ensures |r| == n
    ensures forall i :: 0 <= i < n ==> r[i] == i
  {
    if n == 0 then [] else Range(n - 1) + [n - 1]
  }

  function Reverse(s: seq<int>): (r: seq<int>)
    ensures |r| == |s|
    ensures forall i :: 0 <= i < |s| ==> r[i] == s[|s| - 1 - i]
  {
    if |s| == 0 then [] else [s[|s| - 1]] + Reverse(s[..|s| - 1])
  }

  /** `s` lists every element of [0, n) exactly once. */
  predicate IsPermutationOfRange(s: seq<int>, n: nat) {
    && |s| == n
    && (forall k :: k in s ==> 0 <= k < n)
    && (forall k :: 0 <= k < n ==> k in s)
    && (forall i, j :: 0 <= i < j < |s| ==> s[i] != s[j])
  }

  /** Position i of an axis order: ascending, or descending when the vector's
      component on that axis is +1. */
  function AxisOrder(size: nat, component: int, i: int): int {
    if component == 1 then size - 1 - i else i
  }

  lemma AxisOrderIsPermutation(s: seq<int>, size: nat, component: int)
    requires |s| == size
    requires forall i :: 0 <= i < size ==> s[i] == AxisOrder(size, component, i)
    ensures IsPermutationOfRange(s, size)
  {
    forall k | 0 <= k < size
      ensures k in s
    {
      var i := if component == 1 then size - 1 - k else k;
      assert s[i] == k;
    }
  }

  /** The traversal orders of a move: each axis is ascending, and reversed
      exactly when the vector's component on that axis is +1, so that the
      cells nearest the edge the tiles travel to are visited first. */
  function BuildTraversals(size: nat, v: Pos): (t: Traversals)
    ensures IsPermutationOfRange(t.xs, size) && IsPermutationOfRange(t.ys, size)
    ensures forall i :: 0 <= i < size ==> t.xs[i] == AxisOrder(size, v.x, i)
    ensures forall i :: 0 <= i < size ==> t.ys[i] == AxisOrder(size, v.y, i)
  {
    var ascending := Range(size);
    var t := Traversals(if v.x == 1 then Reverse(ascending) else ascending,
                        if v.y == 1 then Reverse(ascending) else ascending);
    AxisOrderIsPermutation(t.xs, size, v.x);
    AxisOrderIsPermutation(t.ys, size, v.y);
    t
  }

  /** `k` multiples of a unit-vector component. */
  function Scale(k: int, c: int): int {
    if c == 1 then k else if c == -1 then -k else 0
  }

  /** The cell `k` steps from `p` along `v`. */
  function Offset(p: Pos, v: Pos, k: int): Pos {
    Pos(p.x + Scale(k, v.x), p.y + Scale(k, v.y))
  }

  /** The number of steps along unit vector `v` from `p` to `q`. */
  function Steps(p: Pos, q: Pos, v: Pos): int {
    Scale(q.x - p.x, v.x) + Scale(q.y - p.y, v.y)
  }

  /** Starting one step further along `v` takes one step fewer, and every
      cell on the way keeps its place. */
  lemma ShiftAlong(p: Pos, q: Pos, v: Pos)
    requires IsUnit(v)
    ensures Steps(p, q, v) == Steps(Add(p, v), q, v) + 1
    ensures Offset(p, v, 1) == Add(p, v)
    ensures forall j :: Offset(p, v, j) == Offset(Add(p, v), v, j - 1)
  {
  }

  /** A positive number of steps along a unit vector leaves the cell. */
  lemma OffsetLeavesCell(p: Pos, v: Pos, k: int)
    requires IsUnit(v) && k >= 1
    ensures Offset(p, v, k) != p
  {
  }

  /** The cells that remain between `p` and the edge in direction `v`, `p` included. */
  function Room(size: nat, p: Pos, v: Pos): int {
    if v.x == 1 then size - p.x
    else if v.x == -1 then p.x + 1
    else if v.y == 1 then size - p.y
    else p.y + 1
  }

  /** The result of the farthest-position search. */
  datatype Positions = Positions(farthest: Pos, next: Pos)

  /** Steps from `cell` along `v` while the next cell is inside the grid and
      empty. `farthest` is the last cell reached and `next` the first cell
      that stopped the search: outside the grid or occupied. */
  function FindFarthestPosition(g: Grid, cell: Pos, v: Pos): (r: Positions)
    requires g.Valid() && IsUnit(v)
    decreases Room(g.size, cell, v)
    ensures r.next == Add(r.farthest, v)
    ensures r.farthest == cell || (WithinBounds(g, r.farthest) && CellAvailable(g, r.farthest))
    ensures Blocked(g, r.next)
    ensures Steps(cell, r.next, v) >= 1
    ensures r.next == Offset(cell, v, Steps(cell, r.next, v))
    ensures forall j :: 0 < j < Steps(cell, r.next, v) ==>
      WithinBounds(g, Offset(cell, v, j)) && CellAvailable(g, Offset(cell, v, j))
  {
    var next := Add(cell, v);
    if WithinBounds(g, next) && CellAvailable(g, next) then
      var r := FindFarthestPosition(g, next, v);
      ShiftAlong(cell, r.next, v);
      r
    else
      Positions(cell, next)
  }
}
