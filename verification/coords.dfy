/**
  Conversion between canvas pixels and board cells. Cell (x, y) occupies the
  square whose top-left pixel is (x * IconWidth + Delta, y * IconHeight + Delta).
 */
module Coords {
  import opened Grid

  /** Margin between the canvas edge and the first cell, in pixels. */
  const Delta: int := 25
  const IconWidth: int := 40
  const IconHeight: int := 40

  /** `get_x`: left pixel column of board column `x`. */
  function GetX(x: int): int {
    x * IconWidth + Delta
  }

  /** `get_y`: top pixel row of board row `y`. */
  function GetY(y: int): int {
    y * IconHeight + Delta
  }

  /** `get_outer_left_top_point`: top-left pixel of a cell. */
  function GetOuterLeftTopPoint(p: Point): Point {
    Point(GetX(p.x), GetY(p.y))
  }

  /** The two axes that `get_inner_point` scans independently. */
  datatype Axis = Horizontal | Vertical

  /** First pixel of cell index `i` along an axis. */
  function Origin(a: Axis, i: int): int {
    match a
    case Horizontal => GetX(i)
    case Vertical => GetY(i)
  }

  /** Pixel `v` lies in the span of cell index `i`. */
  predicate Hit(a: Axis, v: int, i: int) {
    Origin(a, i) <= v < Origin(a, i + 1)
  }

  /**
    The loop of `get_inner_point` for one axis, from index `i` on: `found`
    is overwritten by every index whose span contains `v`.
   */
  function Scan(a: Axis, v: int, n: nat, i: nat, found: int): int
    requires i <= n
    decreases n - i
  {
    if i == n then found
    else Scan(a, v, n, i + 1, if Hit(a, v, i) then i else found)
  }

  lemma {:induction false} ScanFindsHit(a: Axis, v: int, n: nat, i: nat, found: int)
    requires i <= n
    requires found == -1 || (0 <= found < i && Hit(a, v, found))
    requires found == -1 ==> forall k :: 0 <= k < i ==> !Hit(a, v, k)
    ensures var r := Scan(a, v, n, i, found);
      && (r == -1 ==> forall k :: 0 <= k < n ==> !Hit(a, v, k))
      && (r != -1 ==> 0 <= r < n && Hit(a, v, r))
    decreases n - i
  {
    if i < n {
      ScanFindsHit(a, v, n, i + 1, if Hit(a, v, i) then i else found);
    }
  }

  /** Some cell span contains `v` exactly when `v` is inside the grid's pixels. */
  lemma SomeHitIffInside(a: Axis, v: int, n: nat)
    ensures (exists k :: 0 <= k < n && Hit(a, v, k)) <==> Origin(a, 0) <= v < Origin(a, n)
  {
    if Origin(a, 0) <= v < Origin(a, n) {
      var k := match a
        case Horizontal => (v - Delta) / IconWidth
        case Vertical => (v - Delta) / IconHeight;
      assert Hit(a, v, k);
    }
  }

  /**
    One axis of `get_inner_point`: the index of the cell whose pixel span
    contains `v`, or -1 when `v` is outside the grid.
   */
  function InnerCoord(a: Axis, v: int, n: nat): (r: int)
    ensures -1 <= r < n
    ensures r >= 0 ==> Origin(a, r) <= v < Origin(a, r + 1)
    ensures r == -1 <==> v < Origin(a, 0) || Origin(a, n) <= v
  {
    ScanFindsHit(a, v, n, 0, -1);
    SomeHitIffInside(a, v, n);
    Scan(a, v, n, 0, -1)
  }

  /** `get_inner_point` on an `n` by `n` board. */
  function GetInnerPoint(p: Point, n: nat): (r: Point)
    ensures -1 <= r.x < n && -1 <= r.y < n
    ensures r.x == -1 <==> p.x < Delta || Delta + n * IconWidth <= p.x
    ensures r.y == -1 <==> p.y < Delta || Delta + n * IconHeight <= p.y
    ensures r.x >= 0 ==> GetX(r.x) <= p.x < GetX(r.x + 1)
    ensures r.y >= 0 ==> GetY(r.y) <= p.y < GetY(r.y + 1)
  {
    Point(InnerCoord(Horizontal, p.x, n), InnerCoord(Vertical, p.y, n))
  }

  /** Every cell's top-left pixel maps back to that cell. */
  lemma InnerOfOuter(p: Point, n: nat)
    requires 0 <= p.x < n && 0 <= p.y < n
    ensures GetInnerPoint(GetOuterLeftTopPoint(p), n) == p
  {
  }

  /** Every pixel of a cell's square maps back to that cell. */
  lemma InnerOfCellPixels(p: Point, n: nat, dx: int, dy: int)
    requires 0 <= p.x < n && 0 <= p.y < n
    requires 0 <= dx < IconWidth && 0 <= dy < IconHeight
    ensures GetInnerPoint(Point(GetX(p.x) + dx, GetY(p.y) + dy), n) == p
  {
  }

  /**
    A click maps to a usable point exactly when it lands inside the grid, and
    a usable point is then a cell of the board: `is_useful` is the only bounds
    check `click_canvas` needs.
   */
  lemma UsefulInnerPointIsOnBoard(m: Board, ev: Point)
    ensures IsUseful(GetInnerPoint(ev, |m|)) <==>
      Delta <= ev.x < Delta + |m| * IconWidth && Delta <= ev.y < Delta + |m| * IconHeight
    ensures IsUseful(GetInnerPoint(ev, |m|)) ==> InBoard(m, GetInnerPoint(ev, |m|))
  {
  }
}
