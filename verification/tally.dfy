/** Weighted sums over the cells of a grid and of the per-turn merge markers
    that lie over it: the sum of tile values, the number of tiles, and the
    value, number and winning count of the tiles a merge produced. One
    point-update lemma serves every measure. */
module Tally {
  import opened Grids

  /** The value a merge must produce for the game to be won. */
  const WinningValue := 2048

  /** What a weighted sum over the cells adds up. */
  datatype Measure = Value | Count | MergedValue | MergedCount | MergedWins

  /** The contribution of one cell holding `v` (0 when empty), with marker `marked`. */
  function Weight(m: Measure, v: int, marked: bool): int {
    match m
    case Value => v
    case Count => if v != 0 then 1 else 0
    case MergedValue => if marked then v else 0
    case MergedCount => if marked then 1 else 0
    case MergedWins => if marked && v == WinningValue then 1 else 0
  }

  /** Measures that only look at the cell values, not at the markers. */
  predicate Unmarked(m: Measure) {
    m == Value || m == Count
  }

  predicate SameShape(a: seq<seq<int>>, b: seq<seq<bool>>) {
    |a| == |b| && forall x :: 0 <= x < |a| ==> |a[x]| == |b[x]|
  }

  function RowSum(vs: seq<int>, ms: seq<bool>, m: Measure): int
    requires |vs| == |ms|
    decreases |vs|
  {
    if |vs| == 0 then 0 else Weight(m, vs[0], ms[0]) + RowSum(vs[1..], ms[1..], m)
  }

  function GridSum(cells: seq<seq<int>>, marks: seq<seq<bool>>, m: Measure): int
    requires SameShape(cells, marks)
    decreases |cells|
  {
    if |cells| == 0 then 0
    else RowSum(cells[0], marks[0], m) + GridSum(cells[1..], marks[1..], m)
  }

  /** A marker matrix with no marker set: the state `prepareTiles` leaves. */
  function NoMarks(size: nat): (ms: seq<seq<bool>>)
    ensures Square(ms, size)
    ensures forall x, y :: 0 <= x < size && 0 <= y < size ==> !ms[x][y]
  {
    seq(size, _ => seq(size, _ => false))
  }

  /** The sum of the tile values on the grid. */
  function Total(g: Grid): int
    requires g.Valid()
  {
    GridSum(g.cells, NoMarks(g.size), Value)
  }

  /** The number of tiles on the grid. */
  function TileCount(g: Grid): int
    requires g.Valid()
  {
    GridSum(g.cells, NoMarks(g.size), Count)
  }

  lemma {:induction false} RowSumUpdate(vs: seq<int>, ms: seq<bool>, k: int, v: int, b: bool, m: Measure)
    requires |vs| == |ms| && 0 <= k < |vs|
    ensures RowSum(vs[k := v], ms[k := b], m)
         == RowSum(vs, ms, m) - Weight(m, vs[k], ms[k]) + Weight(m, v, b)
    decreases |vs|
  {
    if k == 0 {
      assert vs[k := v][1..] == vs[1..];
      assert ms[k := b][1..] == ms[1..];
    } else {
      RowSumUpdate(vs[1..], ms[1..], k - 1, v, b, m);
      assert vs[k := v][1..] == vs[1..][k - 1 := v];
      assert ms[k := b][1..] == ms[1..][k - 1 := b];
    }
  }

  /** Changing one cell (value and marker together) changes every weighted sum
      by exactly the difference of that cell's weights. */
  lemma {:induction false} GridSumUpdate(cells: seq<seq<int>>, marks: seq<seq<bool>>, p: Pos, v: int, b: bool, m: Measure)
    requires SameShape(cells, marks) && 0 <= p.x < |cells| && 0 <= p.y < |cells[p.x]|
    ensures SameShape(Update(cells, p, v), Update(marks, p, b))
    ensures GridSum(Update(cells, p, v), Update(marks, p, b), m)
         == GridSum(cells, marks, m) - Weight(m, cells[p.x][p.y], marks[p.x][p.y]) + Weight(m, v, b)
    decreases |cells|
  {
    var c' := Update(cells, p, v);
    var m' := Update(marks, p, b);
    if p.x == 0 {
      assert c'[1..] == cells[1..];
      assert m'[1..] == marks[1..];
      assert c'[0] == cells[0][p.y := v];
      assert m'[0] == marks[0][p.y := b];
      RowSumUpdate(cells[0], marks[0], p.y, v, b, m);
    } else {
      var q := Pos(p.x - 1, p.y);
      GridSumUpdate(cells[1..], marks[1..], q, v, b, m);
      assert c'[1..] == Update(cells[1..], q, v);
      assert m'[1..] == Update(marks[1..], q, b);
    }
  }

  lemma {:induction false} RowSumMarksIrrelevant(vs: seq<int>, ms: seq<bool>, ns: seq<bool>, m: Measure)
    requires |vs| == |ms| == |ns| && Unmarked(m)
    ensures RowSum(vs, ms, m) == RowSum(vs, ns, m)
    decreases |vs|
  {
    if |vs| > 0 {
      RowSumMarksIrrelevant(vs[1..], ms[1..], ns[1..], m);
    }
  }

  /** Sums of values and of tiles do not depend on the markers. */
  lemma {:induction false} MarksIrrelevant(cells: seq<seq<int>>, marks: seq<seq<bool>>, others: seq<seq<bool>>, m: Measure)
    requires SameShape(cells, marks) && SameShape(cells, others) && Unmarked(m)
    ensures GridSum(cells, marks, m) == GridSum(cells, others, m)
    decreases |cells|
  {
    if |cells| > 0 {
      RowSumMarksIrrelevant(cells[0], marks[0], others[0], m);
      MarksIrrelevant(cells[1..], marks[1..], others[1..], m);
    }
  }

  lemma {:induction false} RowSumUnmarked(vs: seq<int>, ms: seq<bool>, m: Measure)
    requires |vs| == |ms| && !Unmarked(m)
    requires forall y :: 0 <= y < |ms| ==> !ms[y]
    ensures RowSum(vs, ms, m) == 0
    decreases |vs|
  {
    if |vs| > 0 {
      RowSumUnmarked(vs[1..], ms[1..], m);
    }
  }

  /** With no marker set, every measure of merged tiles is zero. */
  lemma {:induction false} GridSumUnmarked(cells: seq<seq<int>>, marks: seq<seq<bool>>, m: Measure)
    requires SameShape(cells, marks) && !Unmarked(m)
    requires forall x, y :: 0 <= x < |marks| && 0 <= y < |marks[x]| ==> !marks[x][y]
    ensures GridSum(cells, marks, m) == 0
    decreases |cells|
  {
    if |cells| > 0 {
      RowSumUnmarked(cells[0], marks[0], m);
      GridSumUnmarked(cells[1..], marks[1..], m);
    }
  }

  lemma {:induction false} RowSumEmpty(vs: seq<int>, ms: seq<bool>, m: Measure)
    requires |vs| == |ms|
    requires forall y :: 0 <= y < |vs| ==> vs[y] == 0
    ensures m != MergedCount ==> RowSum(vs, ms, m) == 0
    decreases |vs|
  {
    if |vs| > 0 {
      RowSumEmpty(vs[1..], ms[1..], m);
    }
  }

  /** An empty grid holds no tile. */
  lemma {:induction false} EmptyGridHasNoTiles(size: nat)
    ensures TileCount(EmptyGrid(size)) == 0 && Total(EmptyGrid(size)) == 0
  {
    var g := EmptyGrid(size);
    EmptySum(g.cells, NoMarks(size), Count);
    EmptySum(g.cells, NoMarks(size), Value);
  }

  lemma {:induction false} EmptySum(cells: seq<seq<int>>, marks: seq<seq<bool>>, m: Measure)
    requires SameShape(cells, marks) && m != MergedCount
    requires forall x, y :: 0 <= x < |cells| && 0 <= y < |cells[x]| ==> cells[x][y] == 0
    ensures GridSum(cells, marks, m) == 0
    decreases |cells|
  {
    if |cells| > 0 {
      RowSumEmpty(cells[0], marks[0], m);
      EmptySum(cells[1..], marks[1..], m);
    }
  }

  lemma {:induction false} RowSumNonNegative(vs: seq<int>, ms: seq<bool>, m: Measure)
    requires |vs| == |ms|
    requires forall y :: 0 <= y < |vs| ==> vs[y] >= 0
    ensures RowSum(vs, ms, m) >= 0
    decreases |vs|
  {
    if |vs| > 0 {
      RowSumNonNegative(vs[1..], ms[1..], m);
    }
  }

  /** Over non-negative cell values every measure is non-negative. */
  lemma {:induction false} GridSumNonNegative(cells: seq<seq<int>>, marks: seq<seq<bool>>, m: Measure)
    requires SameShape(cells, marks)
    requires forall x, y :: 0 <= x < |cells| && 0 <= y < |cells[x]| ==> cells[x][y] >= 0
    ensures GridSum(cells, marks, m) >= 0
    decreases |cells|
  {
    if |cells| > 0 {
      RowSumNonNegative(cells[0], marks[0], m);
      GridSumNonNegative(cells[1..], marks[1..], m);
    }
  }
}
