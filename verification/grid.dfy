/**
  The game board: a square grid of kind indices in which EMPTY marks a
  cleared cell, the points that address it, and the two board-wide
  queries the game makes (how many tiles remain, whether all are gone).
 */
module Grid {

  /** Tile value of a cleared cell. Kind indices are 0, 1, 2, ... */
  const EMPTY: int := -1

  /** A cell address; `x` is the column and `y` the row. */
  datatype Point = Point(x: int, y: int)

  /** `Point.is_useful`: both coordinates are non-negative. */
  predicate IsUseful(p: Point) {
    p.x >= 0 && p.y >= 0
  }

  /** `Point.__eq__`: coordinate-wise comparison. */
  predicate SamePoint(p: Point, q: Point) {
    p.x == q.x && p.y == q.y
  }

  /** Coordinate-wise comparison is exactly value equality of points. */
  lemma SamePointIsEquality(p: Point, q: Point)
    ensures SamePoint(p, q) <==> p == q
  {
  }

  /** Rows are indexed by y, columns by x: `board[y][x]`. */
  type Board = seq<seq<int>>

  /** Every row is as long as the board is high. */
  predicate IsSquare(m: Board) {
    forall y :: 0 <= y < |m| ==> |m[y]| == |m|
  }

  predicate InBoard(m: Board, p: Point) {
    0 <= p.x < |m| && 0 <= p.y < |m|
  }

  /** The board together with its virtual border: coordinates -1 .. |m|. */
  predicate InFrame(m: Board, p: Point) {
    -1 <= p.x <= |m| && -1 <= p.y <= |m|
  }

  function At(m: Board, p: Point): int
    requires IsSquare(m) && InBoard(m, p)
  {
    m[p.y][p.x]
  }

  /** `not_in_map`: the cell holds no tile. */
  predicate IsEmptyCell(m: Board, p: Point)
    requires IsSquare(m) && InBoard(m, p)
  {
    At(m, p) == EMPTY
  }

  /** Every cell of the board is EMPTY. */
  predicate AllEmpty(m: Board) {
    forall y, x :: 0 <= y < |m| && 0 <= x < |m[y]| ==> m[y][x] == EMPTY
  }

  /** Writes `v` into one cell. */
  function SetCell(m: Board, p: Point, v: int): (r: Board)
    requires IsSquare(m) && InBoard(m, p)
    ensures IsSquare(r) && |r| == |m|
    ensures At(r, p) == v
    ensures forall q :: InBoard(m, q) && q != p ==> At(r, q) == At(m, q)
  {
    m[p.y := m[p.y][p.x := v]]
  }

  /** The map writes of `clear_linked_blocks`: both cells become EMPTY. */
  function ClearLinkedBlocks(m: Board, p1: Point, p2: Point): (r: Board)
    requires IsSquare(m) && InBoard(m, p1) && InBoard(m, p2)
    ensures IsSquare(r) && |r| == |m|
    ensures At(r, p1) == EMPTY && At(r, p2) == EMPTY
    ensures forall q :: InBoard(m, q) && q != p1 && q != p2 ==> At(r, q) == At(m, q)
  {
    SetCell(SetCell(m, p1, EMPTY), p2, EMPTY)
  }

  /** The cells of the board, row after row. */
  function Flatten(m: Board): seq<int> {
    if |m| == 0 then [] else m[0] + Flatten(m[1..])
  }

  /** The tiles on the board, counted with multiplicity (EMPTY included). */
  function Tiles(m: Board): multiset<int> {
    multiset(Flatten(m))
  }

  /** Number of cells that still hold a tile. */
  function Remaining(m: Board): nat {
    |Tiles(m)[EMPTY := 0]|
  }

  lemma CellInTiles(m: Board, y: int, x: int)
    requires 0 <= y < |m| && 0 <= x < |m[y]|
    ensures m[y][x] in Tiles(m)
  {
    if y > 0 {
      CellInTiles(m[1..], y - 1, x);
    }
  }

  /** Replacing one row swaps that row's tiles for the new row's tiles. */
  lemma {:induction false} TilesOfRowUpdate(m: Board, y: int, row: seq<int>)
    requires 0 <= y < |m|
    ensures Tiles(m[y := row]) + multiset(m[y]) == Tiles(m) + multiset(row)
  {
    if y == 0 {
      assert m[y := row][1..] == m[1..];
    } else {
      var rest := m[1..][y - 1 := row];
      assert m[y := row][1..] == rest;
      assert m[y := row][0] == m[0];
      assert Flatten(m[y := row]) == m[0] + Flatten(rest);
      assert m[1..][y - 1] == m[y];
      TilesOfRowUpdate(m[1..], y - 1, row);
      var head, old_tail, new_tail := multiset(m[0]), Tiles(m[1..]), Tiles(rest);
      assert Tiles(m[y := row]) == head + new_tail;
      assert Tiles(m) == head + old_tail;
      forall k
        ensures (head + new_tail + multiset(m[y]))[k] == (head + old_tail + multiset(row))[k]
      {
        assert (new_tail + multiset(m[y]))[k] == (old_tail + multiset(row))[k];
      }
    }
  }

  /** Writing `v` at index `i` swaps one copy of the old element for `v`. */
  lemma RowUpdateTiles(row: seq<int>, i: int, v: int)
    requires 0 <= i < |row|
    ensures multiset(row[i := v]) + multiset{row[i]} == multiset(row) + multiset{v}
  {
    var left, right := row[..i], row[i + 1..];
    assert row == left + [row[i]] + right;
    assert row[i := v] == left + [v] + right;
  }

  /** Writing `v` into a cell swaps one copy of the old tile for `v`. */
  lemma TilesOfSetCell(m: Board, p: Point, v: int)
    requires IsSquare(m) && InBoard(m, p)
    ensures Tiles(SetCell(m, p, v)) + multiset{At(m, p)} == Tiles(m) + multiset{v}
  {
    var row := m[p.y];
    var newRow := row[p.x := v];
    RowUpdateTiles(row, p.x, v);
    TilesOfRowUpdate(m, p.y, newRow);
    var others := Tiles(m);
    var updated := Tiles(m[p.y := newRow]);
    assert updated + multiset(row) == others + multiset(newRow);
    forall k
      ensures (updated + multiset{row[p.x]})[k] == (others + multiset{v})[k]
    {
      assert (updated + multiset(row))[k] == (others + multiset(newRow))[k];
      assert (multiset(newRow) + multiset{row[p.x]})[k] == (multiset(row) + multiset{v})[k];
    }
  }

  /** Clearing a cell that holds a tile leaves one tile fewer. */
  lemma ClearCellRemaining(m: Board, p: Point)
    requires IsSquare(m) && InBoard(m, p) && !IsEmptyCell(m, p)
    ensures Remaining(SetCell(m, p, EMPTY)) + 1 == Remaining(m)
    ensures forall k :: k != EMPTY && k != At(m, p) ==> Tiles(SetCell(m, p, EMPTY))[k] == Tiles(m)[k]
    ensures Tiles(SetCell(m, p, EMPTY))[At(m, p)] + 1 == Tiles(m)[At(m, p)]
  {
    var a := At(m, p);
    var before := Tiles(m);
    var after := Tiles(SetCell(m, p, EMPTY));
    TilesOfSetCell(m, p, EMPTY);
    assert after + multiset{a} == before + multiset{EMPTY};
    var lhs := after[EMPTY := 0] + multiset{a};
    var rhs := before[EMPTY := 0];
    forall k
      ensures lhs[k] == rhs[k]
    {
      assert (after + multiset{a})[k] == (before + multiset{EMPTY})[k];
    }
    assert lhs == rhs;
    forall k | k != EMPTY && k != a
      ensures after[k] == before[k]
    {
      assert (after + multiset{a})[k] == (before + multiset{EMPTY})[k];
    }
    assert (after + multiset{a})[a] == (before + multiset{EMPTY})[a];
  }

  /**
    Clearing two distinct cells of the same kind removes exactly two tiles of
    that kind and leaves every other kind's count alone.
   */
  lemma ClearLinkedBlocksRemaining(m: Board, p1: Point, p2: Point)
    requires IsSquare(m) && InBoard(m, p1) && InBoard(m, p2) && p1 != p2
    requires !IsEmptyCell(m, p1) && !IsEmptyCell(m, p2)
    ensures Remaining(ClearLinkedBlocks(m, p1, p2)) + 2 == Remaining(m)
    ensures At(m, p1) == At(m, p2) ==>
      Tiles(ClearLinkedBlocks(m, p1, p2))[At(m, p1)] + 2 == Tiles(m)[At(m, p1)]
    ensures At(m, p1) == At(m, p2) ==>
      forall k :: k != EMPTY && k != At(m, p1) ==> Tiles(ClearLinkedBlocks(m, p1, p2))[k] == Tiles(m)[k]
  {
    var m1 := SetCell(m, p1, EMPTY);
    ClearCellRemaining(m, p1);
    assert At(m1, p2) == At(m, p2);
    ClearCellRemaining(m1, p2);
  }

  /** Every cell of the row is EMPTY. */
  predicate RowEmpty(row: seq<int>) {
    forall x :: 0 <= x < |row| ==> row[x] == EMPTY
  }

  /** A row holds no tile exactly when its multiset holds nothing but EMPTY. */
  lemma RowEmptyIffTiles(row: seq<int>)
    ensures (forall v :: v in multiset(row) ==> v == EMPTY) <==> RowEmpty(row)
  {
    if RowEmpty(row) {
      forall v | v in multiset(row)
        ensures v == EMPTY
      {
        assert v in row;
      }
    }
    if forall v :: v in multiset(row) ==> v == EMPTY {
      forall x | 0 <= x < |row|
        ensures row[x] == EMPTY
      {
        assert row[x] in multiset(row);
      }
    }
  }

  /** The multiset view and the cell view of "no tile left" agree. */
  lemma {:induction false} TilesAllEmpty(m: Board)
    ensures (forall v :: v in Tiles(m) ==> v == EMPTY) <==> AllEmpty(m)
  {
    if |m| > 0 {
      TilesAllEmpty(m[1..]);
      assert Tiles(m) == multiset(m[0]) + Tiles(m[1..]);
      var head := multiset(m[0]);
      var tail := Tiles(m[1..]);
      RowEmptyIffTiles(m[0]);
      forall v
        ensures v in Tiles(m) <==> v in head || v in tail
      {
        assert Tiles(m)[v] == head[v] + tail[v];
      }
      assert AllEmpty(m) <==> RowEmpty(m[0]) && AllEmpty(m[1..]) by {
        forall y | 1 <= y < |m|
          ensures m[1..][y - 1] == m[y]
        {
        }
        if RowEmpty(m[0]) && AllEmpty(m[1..]) {
          forall y, x | 0 <= y < |m| && 0 <= x < |m[y]|
            ensures m[y][x] == EMPTY
          {
            if y > 0 {
              assert m[1..][y - 1][x] == m[y][x];
            }
          }
        }
      }
    }
  }

  /** No tile remains exactly when every cell is EMPTY. */
  lemma NoneRemainingIffAllEmpty(m: Board)
    ensures Remaining(m) == 0 <==> AllEmpty(m)
  {
    TilesAllEmpty(m);
    var rest := Tiles(m)[EMPTY := 0];
    forall v
      ensures rest[v] == (if v == EMPTY then 0 else Tiles(m)[v])
    {
    }
    assert (forall v :: v in Tiles(m) ==> v == EMPTY) <==> rest == multiset{} by {
      if rest == multiset{} {
        forall v | v in Tiles(m)
          ensures v == EMPTY
        {
          assert rest[v] == (if v == EMPTY then 0 else Tiles(m)[v]);
        }
      }
      if forall v :: v in Tiles(m) ==> v == EMPTY {
        forall v
          ensures rest[v] == 0
        {
          assert rest[v] == (if v == EMPTY then 0 else Tiles(m)[v]);
        }
      }
    }
  }

  /** `is_game_end`: scans the board row by row, stopping at the first tile. */
  method IsGameEnd(m: Board) returns (ended: bool)
    requires IsSquare(m)
    ensures ended <==> AllEmpty(m)
    ensures ended <==> Remaining(m) == 0
  {
    NoneRemainingIffAllEmpty(m);
    var y := 0;
    while y < |m|
      invariant 0 <= y <= |m|
      invariant forall y', x :: 0 <= y' < y && 0 <= x < |m| ==> m[y'][x] == EMPTY
    {
      var x := 0;
      while x < |m|
        invariant 0 <= x <= |m|
        invariant forall x' :: 0 <= x' < x ==> m[y][x'] == EMPTY
      {
        if m[y][x] != EMPTY {
          return false;
        }
        x := x + 1;
      }
      y := y + 1;
    }
    return true;
  }
}
