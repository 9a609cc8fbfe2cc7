/**
  Classification of the link between two cells: a straight line, a path with
  one bend, or a path with two bends whose bends may lie on the virtual border
  one step outside the board.
 */
module Links {
  import opened Options
  import opened Grid

  /** The result of `get_link_type`, with the bends of corner links attached. */
  datatype LinkType =
    | NoLink
    | Straight
    | OneCorner(corner: Point)
    | TwoCorner(corner1: Point, corner2: Point)

  /**
    One end of a segment is on the board and the other within the frame; this
    keeps every cell strictly between them on the board.
   */
  predicate Ends(m: Board, p: Point, q: Point) {
    || (InBoard(m, p) && InFrame(m, q))
    || (InFrame(m, p) && InBoard(m, q))
  }

  /** `c` lies strictly between `a` and `b`, whichever is larger. */
  predicate Between(a: int, c: int, b: int) {
    a < c < b || b < c < a
  }

  /**
    Reference meaning of a straight link: the two points share a row or a
    column and every cell strictly between them is EMPTY.
   */
  ghost predicate Unobstructed(m: Board, p: Point, q: Point)
    requires IsSquare(m) && Ends(m, p, q)
  {
    || (p.y == q.y && forall x :: Between(p.x, x, q.x) ==> m[p.y][x] == EMPTY)
    || (p.x == q.x && forall y :: Between(p.y, y, q.y) ==> m[y][p.x] == EMPTY)
  }

  /** The horizontal loop of `is_straight`: columns `from` .. `to - 1` of row `y`. */
  predicate RowClear(m: Board, y: int, from: nat, to: nat)
    requires IsSquare(m) && 0 <= y < |m| && to <= |m|
    decreases (to as int) - from
  {
    from >= to || (m[y][from] == EMPTY && RowClear(m, y, from + 1, to))
  }

  /** The vertical loop of `is_straight`: rows `from` .. `to - 1` of column `x`. */
  predicate ColClear(m: Board, x: int, from: nat, to: nat)
    requires IsSquare(m) && 0 <= x < |m| && to <= |m|
    decreases (to as int) - from
  {
    from >= to || (m[from][x] == EMPTY && ColClear(m, x, from + 1, to))
  }

  /** `is_straight`: a same-row test first, then a same-column test. */
  predicate IsStraight(m: Board, p1: Point, p2: Point)
    requires IsSquare(m) && Ends(m, p1, p2)
  {
    if p1.y == p2.y then
      var start := if p2.x < p1.x then p2.x else p1.x;
      var end := if p2.x < p1.x then p1.x else p2.x;
      RowClear(m, p1.y, start + 1, end)
    else if p1.x == p2.x then
      var start := if p1.y > p2.y then p2.y else p1.y;
      var end := if p1.y > p2.y then p1.y else p2.y;
      ColClear(m, p1.x, start + 1, end)
    else
      false
  }

  lemma {:induction false} RowClearIff(m: Board, y: int, from: nat, to: nat)
    requires IsSquare(m) && 0 <= y < |m| && to <= |m|
    ensures RowClear(m, y, from, to) <==> (forall x :: from <= x < to ==> m[y][x] == EMPTY)
    decreases (to as int) - from
  {
    if from < to {
      RowClearIff(m, y, from + 1, to);
    }
  }

  lemma {:induction false} ColClearIff(m: Board, x: int, from: nat, to: nat)
    requires IsSquare(m) && 0 <= x < |m| && to <= |m|
    ensures ColClear(m, x, from, to) <==> (forall y :: from <= y < to ==> m[y][x] == EMPTY)
    decreases (to as int) - from
  {
    if from < to {
      ColClearIff(m, x, from + 1, to);
    }
  }

  /**
    `is_straight` holds exactly when the points share a row or column and
    nothing stands strictly between them; it fails when they share neither.
   */
  lemma StraightIff(m: Board, p1: Point, p2: Point)
    requires IsSquare(m) && Ends(m, p1, p2)
    ensures IsStraight(m, p1, p2) <==> Unobstructed(m, p1, p2)
    ensures p1.x != p2.x && p1.y != p2.y ==> !IsStraight(m, p1, p2)
  {
    if p1.y == p2.y {
      var start := if p2.x < p1.x then p2.x else p1.x;
      var end := if p2.x < p1.x then p1.x else p2.x;
      RowClearIff(m, p1.y, start + 1, end);
    } else if p1.x == p2.x {
      var start := if p1.y > p2.y then p2.y else p1.y;
      var end := if p1.y > p2.y then p1.y else p2.y;
      ColClearIff(m, p1.x, start + 1, end);
    }
  }

  /** A straight link does not depend on which end is named first. */
  lemma StraightSymmetric(m: Board, p1: Point, p2: Point)
    requires IsSquare(m) && Ends(m, p1, p2)
    ensures IsStraight(m, p1, p2) <==> IsStraight(m, p2, p1)
  {
    StraightIff(m, p1, p2);
    StraightIff(m, p2, p1);
  }

  // ----- one bend -----

  /** The corner `is_one_corner_link` tries first. */
  function FirstCorner(p1: Point, p2: Point): Point {
    Point(p1.x, p2.y)
  }

  /** The corner `is_one_corner_link` tries second. */
  function SecondCorner(p1: Point, p2: Point): Point {
    Point(p2.x, p1.y)
  }

  /** Reference meaning of a one-bend link through `c`. */
  ghost predicate CornerLinks(m: Board, p1: Point, p2: Point, c: Point)
    requires IsSquare(m) && InBoard(m, p1) && InBoard(m, p2) && InBoard(m, c)
  {
    IsEmptyCell(m, c) && Unobstructed(m, p1, c) && Unobstructed(m, c, p2)
  }

  /** Some one-bend link joins the two cells. */
  ghost predicate SomeOneBend(m: Board, p1: Point, p2: Point)
    requires IsSquare(m) && InBoard(m, p1) && InBoard(m, p2)
  {
    CornerLinks(m, p1, p2, FirstCorner(p1, p2)) || CornerLinks(m, p1, p2, SecondCorner(p1, p2))
  }

  /** `is_one_corner_link`: the first candidate corner that works, if any. */
  function OneCornerLink(m: Board, p1: Point, p2: Point): (r: Option<Point>)
    requires IsSquare(m) && InBoard(m, p1) && InBoard(m, p2)
    ensures CornerLinks(m, p1, p2, FirstCorner(p1, p2)) ==> r == Some(FirstCorner(p1, p2))
    ensures !CornerLinks(m, p1, p2, FirstCorner(p1, p2)) && CornerLinks(m, p1, p2, SecondCorner(p1, p2)) ==>
      r == Some(SecondCorner(p1, p2))
    ensures r.None? <==> !SomeOneBend(m, p1, p2)
  {
    var c := FirstCorner(p1, p2);
    var d := SecondCorner(p1, p2);
    StraightIff(m, p1, c);
    StraightIff(m, c, p2);
    StraightIff(m, p1, d);
    StraightIff(m, d, p2);
    if IsStraight(m, p1, c) && IsStraight(m, c, p2) && IsEmptyCell(m, c) then
      Some(c)
    else if IsStraight(m, p1, d) && IsStraight(m, d, p2) && IsEmptyCell(m, d) then
      Some(d)
    else
      None
  }

  // ----- two bends -----

  /**
    A cell a path may bend at: a virtual border cell, or an EMPTY cell of the
    board.
   */
  ghost predicate Open(m: Board, c: Point)
    requires IsSquare(m) && InFrame(m, c)
  {
    !InBoard(m, c) || IsEmptyCell(m, c)
  }

  /**
    Reference meaning of a two-bend link `p1 -> c1 -> c2 -> p2`: both bends are
    open and every leg is unobstructed; a middle leg that runs along the
    border is always free.
   */
  ghost predicate BendPath(m: Board, p1: Point, p2: Point, c1: Point, c2: Point)
    requires IsSquare(m) && InBoard(m, p1) && InBoard(m, p2) && InFrame(m, c1) && InFrame(m, c2)
  {
    && Open(m, c1)
    && Open(m, c2)
    && Unobstructed(m, p1, c1)
    && Unobstructed(m, c2, p2)
    && (!InBoard(m, c1) || !InBoard(m, c2) || Unobstructed(m, c1, c2))
  }

  /** The bends on row `t`, straight above or below each end. */
  function VerticalBends(p1: Point, p2: Point, t: int): (Point, Point) {
    (Point(p1.x, t), Point(p2.x, t))
  }

  /** The bends on column `t`, straight left or right of each end. */
  function HorizontalBends(p1: Point, p2: Point, t: int): (Point, Point) {
    (Point(t, p1.y), Point(t, p2.y))
  }

  /** Row `t` is accepted by the vertical sweep: not a row of either end, and a path. */
  ghost predicate VerticalFits(m: Board, p1: Point, p2: Point, t: int)
    requires IsSquare(m) && InBoard(m, p1) && InBoard(m, p2) && -1 <= t <= |m|
  {
    t != p1.y && t != p2.y && BendPath(m, p1, p2, Point(p1.x, t), Point(p2.x, t))
  }

  /**
    Column `t` is accepted by the horizontal sweep. As in `main.py`, the skip
    test compares the column `t` with the ROWS of the two ends.
   */
  ghost predicate HorizontalFits(m: Board, p1: Point, p2: Point, t: int)
    requires IsSquare(m) && InBoard(m, p1) && InBoard(m, p2) && -1 <= t <= |m|
  {
    t != p1.y && t != p2.y && BendPath(m, p1, p2, Point(t, p1.y), Point(t, p2.y))
  }

  /** Some row or column of the two sweeps is accepted. */
  ghost predicate SomeTwoBend(m: Board, p1: Point, p2: Point)
    requires IsSquare(m) && InBoard(m, p1) && InBoard(m, p2)
  {
    exists t :: -1 <= t <= |m| && (VerticalFits(m, p1, p2, t) || HorizontalFits(m, p1, p2, t))
  }

  /** The nested `check` of `is_two_corner_link`, with `idx` the swept row or column. */
  predicate Check(m: Board, p1: Point, p2: Point, idx: int, c1: Point, c2: Point)
    requires IsSquare(m) && InBoard(m, p1) && InBoard(m, p2)
    requires -1 <= idx <= |m| && InFrame(m, c1) && InFrame(m, c2)
    requires 0 <= idx < |m| ==> InBoard(m, c1) && InBoard(m, c2)
  {
    if idx == p1.y || idx == p2.y then
      false
    else if idx == -1 || idx == |m| then
      IsStraight(m, p1, c1) && IsStraight(m, c2, p2)
    else
      && IsEmptyCell(m, c1) && IsEmptyCell(m, c2)
      && IsStraight(m, p1, c1) && IsStraight(m, c2, c1) && IsStraight(m, c2, p2)
  }

  /** `check` on a row of the vertical sweep accepts exactly the fitting rows. */
  lemma CheckVertical(m: Board, p1: Point, p2: Point, t: int)
    requires IsSquare(m) && InBoard(m, p1) && InBoard(m, p2) && -1 <= t <= |m|
    ensures Check(m, p1, p2, t, Point(p1.x, t), Point(p2.x, t)) <==> VerticalFits(m, p1, p2, t)
  {
    var c1, c2 := Point(p1.x, t), Point(p2.x, t);
    StraightIff(m, p1, c1);
    StraightIff(m, c2, p2);
    if 0 <= t < |m| {
      StraightIff(m, c2, c1);
      StraightIff(m, c1, c2);
    }
  }

  /** `check` on a column of the horizontal sweep accepts exactly the fitting columns. */
  lemma CheckHorizontal(m: Board, p1: Point, p2: Point, t: int)
    requires IsSquare(m) && InBoard(m, p1) && InBoard(m, p2) && -1 <= t <= |m|
    ensures Check(m, p1, p2, t, Point(t, p1.y), Point(t, p2.y)) <==> HorizontalFits(m, p1, p2, t)
  {
    var c1, c2 := Point(t, p1.y), Point(t, p2.y);
    StraightIff(m, p1, c1);
    StraightIff(m, c2, p2);
    if 0 <= t < |m| {
      StraightIff(m, c2, c1);
      StraightIff(m, c1, c2);
    }
  }

  /** The first loop of `is_two_corner_link`, from row `t` down to `|m|`. */
  function VerticalSweep(m: Board, p1: Point, p2: Point, t: int): (r: Option<(Point, Point)>)
    requires IsSquare(m) && InBoard(m, p1) && InBoard(m, p2) && -1 <= t <= |m| + 1
    ensures r.Some? ==>
      var row := r.value.0.y;
      && t <= row <= |m|
      && r.value == VerticalBends(p1, p2, row)
      && VerticalFits(m, p1, p2, row)
      && forall t' :: t <= t' < row ==> !VerticalFits(m, p1, p2, t')
    ensures r.None? ==> forall t' :: t <= t' <= |m| ==> !VerticalFits(m, p1, p2, t')
    decreases |m| + 1 - t
  {
    if t > |m| then
      None
    else
      CheckVertical(m, p1, p2, t);
      if Check(m, p1, p2, t, Point(p1.x, t), Point(p2.x, t)) then
        Some(VerticalBends(p1, p2, t))
      else
        VerticalSweep(m, p1, p2, t + 1)
  }

  /** The second loop of `is_two_corner_link`, from column `t` right to `|m|`. */
  function HorizontalSweep(m: Board, p1: Point, p2: Point, t: int): (r: Option<(Point, Point)>)
    requires IsSquare(m) && InBoard(m, p1) && InBoard(m, p2) && -1 <= t <= |m| + 1
    ensures r.Some? ==>
      var col := r.value.0.x;
      && t <= col <= |m|
      && r.value == HorizontalBends(p1, p2, col)
      && HorizontalFits(m, p1, p2, col)
      && forall t' :: t <= t' < col ==> !HorizontalFits(m, p1, p2, t')
    ensures r.None? ==> forall t' :: t <= t' <= |m| ==> !HorizontalFits(m, p1, p2, t')
    decreases |m| + 1 - t
  {
    if t > |m| then
      None
    else
      CheckHorizontal(m, p1, p2, t);
      if Check(m, p1, p2, t, Point(t, p1.y), Point(t, p2.y)) then
        Some(HorizontalBends(p1, p2, t))
      else
        HorizontalSweep(m, p1, p2, t + 1)
  }

  /**
    `is_two_corner_link`: the first accepted row of the vertical sweep, else
    the first accepted column of the horizontal sweep, else nothing.
   */
  function TwoCornerLink(m: Board, p1: Point, p2: Point): (r: Option<(Point, Point)>)
    requires IsSquare(m) && InBoard(m, p1) && InBoard(m, p2)
    ensures r.None? <==> !SomeTwoBend(m, p1, p2)
    ensures r.Some? ==>
      && InFrame(m, r.value.0) && InFrame(m, r.value.1)
      && BendPath(m, p1, p2, r.value.0, r.value.1)
    ensures r.Some? ==>
      || (var row := r.value.0.y;
          && -1 <= row <= |m| && r.value == VerticalBends(p1, p2, row)
          && VerticalFits(m, p1, p2, row)
          && forall t :: -1 <= t < row ==> !VerticalFits(m, p1, p2, t))
      || (var col := r.value.0.x;
          && -1 <= col <= |m| && r.value == HorizontalBends(p1, p2, col)
          && HorizontalFits(m, p1, p2, col)
          && (forall t :: -1 <= t <= |m| ==> !VerticalFits(m, p1, p2, t))
          && forall t :: -1 <= t < col ==> !HorizontalFits(m, p1, p2, t))
  {
    match VerticalSweep(m, p1, p2, -1)
    case Some(bends) => Some(bends)
    case None => HorizontalSweep(m, p1, p2, -1)
  }

  // ----- classification -----

  /** `get_link_type`: same kind first, then straight, one bend, two bends. */
  function GetLinkType(m: Board, p1: Point, p2: Point): (r: LinkType)
    requires IsSquare(m) && InBoard(m, p1) && InBoard(m, p2)
    ensures At(m, p1) != At(m, p2) ==> r == NoLink
    ensures r == Straight <==> At(m, p1) == At(m, p2) && Unobstructed(m, p1, p2)
    ensures r.OneCorner? <==>
      At(m, p1) == At(m, p2) && !Unobstructed(m, p1, p2) && SomeOneBend(m, p1, p2)
    ensures r.OneCorner? ==>
      && (r.corner == FirstCorner(p1, p2) || r.corner == SecondCorner(p1, p2))
      && CornerLinks(m, p1, p2, r.corner)
      && (CornerLinks(m, p1, p2, FirstCorner(p1, p2)) ==> r.corner == FirstCorner(p1, p2))
    ensures r.TwoCorner? <==>
      && At(m, p1) == At(m, p2) && !Unobstructed(m, p1, p2)
      && !SomeOneBend(m, p1, p2) && SomeTwoBend(m, p1, p2)
    ensures r.TwoCorner? ==>
      InFrame(m, r.corner1) && InFrame(m, r.corner2) && BendPath(m, p1, p2, r.corner1, r.corner2)
    ensures r == NoLink <==>
      || At(m, p1) != At(m, p2)
      || (!Unobstructed(m, p1, p2) && !SomeOneBend(m, p1, p2) && !SomeTwoBend(m, p1, p2))
  {
    StraightIff(m, p1, p2);
    if At(m, p1) != At(m, p2) then
      NoLink
    else if IsStraight(m, p1, p2) then
      Straight
    else
      match OneCornerLink(m, p1, p2)
      case Some(c) => OneCorner(c)
      case None =>
        match TwoCornerLink(m, p1, p2)
        case Some(bends) => TwoCorner(bends.0, bends.1)
        case None => NoLink
  }

  // ----- symmetry -----

  /** Unobstructedness does not depend on which end is named first. */
  lemma UnobstructedSymmetric(m: Board, p: Point, q: Point)
    requires IsSquare(m) && Ends(m, p, q)
    ensures Unobstructed(m, p, q) <==> Unobstructed(m, q, p)
  {
  }

  /** `check` accepts a bend pair exactly when it accepts the swapped pair for swapped ends. */
  lemma CheckSymmetric(m: Board, p1: Point, p2: Point, idx: int, c1: Point, c2: Point)
    requires IsSquare(m) && InBoard(m, p1) && InBoard(m, p2)
    requires -1 <= idx <= |m| && InFrame(m, c1) && InFrame(m, c2)
    requires 0 <= idx < |m| ==> InBoard(m, c1) && InBoard(m, c2)
    ensures Check(m, p1, p2, idx, c1, c2) <==> Check(m, p2, p1, idx, c2, c1)
  {
    StraightSymmetric(m, p1, c1);
    StraightSymmetric(m, c2, p2);
    if 0 <= idx < |m| {
      StraightSymmetric(m, c2, c1);
    }
  }

  /** Exchanges the two bends of a sweep result. */
  function Swap(bends: Option<(Point, Point)>): Option<(Point, Point)> {
    match bends
    case None => None
    case Some(b) => Some((b.1, b.0))
  }

  lemma {:induction false} VerticalSweepSymmetric(m: Board, p1: Point, p2: Point, t: int)
    requires IsSquare(m) && InBoard(m, p1) && InBoard(m, p2) && -1 <= t <= |m| + 1
    ensures VerticalSweep(m, p2, p1, t) == Swap(VerticalSweep(m, p1, p2, t))
    decreases |m| + 1 - t
  {
    if t <= |m| {
      CheckSymmetric(m, p1, p2, t, Point(p1.x, t), Point(p2.x, t));
      VerticalSweepSymmetric(m, p1, p2, t + 1);
    }
  }

  lemma {:induction false} HorizontalSweepSymmetric(m: Board, p1: Point, p2: Point, t: int)
    requires IsSquare(m) && InBoard(m, p1) && InBoard(m, p2) && -1 <= t <= |m| + 1
    ensures HorizontalSweep(m, p2, p1, t) == Swap(HorizontalSweep(m, p1, p2, t))
    decreases |m| + 1 - t
  {
    if t <= |m| {
      CheckSymmetric(m, p1, p2, t, Point(t, p1.y), Point(t, p2.y));
      HorizontalSweepSymmetric(m, p1, p2, t + 1);
    }
  }

  /**
    Swapping the two cells never changes whether they link or by which kind
    of link; a two-bend link comes back with its bends swapped. A one-bend
    link may come back with the other corner, because each order tries its
    own `(first.x, second.y)` corner first.
   */
  lemma LinkTypeSymmetric(m: Board, p1: Point, p2: Point)
    requires IsSquare(m) && InBoard(m, p1) && InBoard(m, p2)
    ensures GetLinkType(m, p1, p2) == NoLink <==> GetLinkType(m, p2, p1) == NoLink
    ensures GetLinkType(m, p1, p2) == Straight <==> GetLinkType(m, p2, p1) == Straight
    ensures GetLinkType(m, p1, p2).OneCorner? <==> GetLinkType(m, p2, p1).OneCorner?
    ensures GetLinkType(m, p1, p2).TwoCorner? ==>
      GetLinkType(m, p2, p1) == TwoCorner(GetLinkType(m, p1, p2).corner2, GetLinkType(m, p1, p2).corner1)
  {
    StraightSymmetric(m, p1, p2);
    var c, d := FirstCorner(p1, p2), SecondCorner(p1, p2);
    UnobstructedSymmetric(m, p1, c);
    UnobstructedSymmetric(m, c, p2);
    UnobstructedSymmetric(m, p1, d);
    UnobstructedSymmetric(m, d, p2);
    assert SomeOneBend(m, p1, p2) <==> SomeOneBend(m, p2, p1);
    VerticalSweepSymmetric(m, p1, p2, -1);
    HorizontalSweepSymmetric(m, p1, p2, -1);
  }

  // ----- the skipped columns of the horizontal sweep -----

  /**
    Because the horizontal sweep skips the columns numbered like the ends'
    rows, a two-bend path through such a column is never found. Here
    the two kind-0 tiles at (0, 1) and (2, 0) are joined by the path
    (0, 1) -> (1, 1) -> (1, 0) -> (2, 0), yet column 1 equals the row of
    (0, 1), every other candidate is blocked, and the cells do not link.
   */
  lemma HorizontalSweepMissesColumn()
    ensures var m := [[1, EMPTY, 0], [0, EMPTY, 1], [2, 2, EMPTY]];
      && IsSquare(m)
      && At(m, Point(0, 1)) == At(m, Point(2, 0)) != EMPTY
      && BendPath(m, Point(0, 1), Point(2, 0), Point(1, 1), Point(1, 0))
      && GetLinkType(m, Point(0, 1), Point(2, 0)) == NoLink
  {
    var m := [[1, EMPTY, 0], [0, EMPTY, 1], [2, 2, EMPTY]];
    var p1, p2 := Point(0, 1), Point(2, 0);
    assert IsSquare(m);
    assert !IsStraight(m, p1, p2);
    assert OneCornerLink(m, p1, p2) == None;
    assert VerticalSweep(m, p1, p2, -1) == None;
    assert HorizontalSweep(m, p1, p2, -1) == None;
  }
}
