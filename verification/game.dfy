/**
  The click-driven state machine of the main window: starting a game, picking
  a first tile, deselecting it, replacing it after a failed pair, clearing a
  linked pair, and ending the game once the board is empty.
 */
module Game {
  import opened Options
  import opened Grid
  import opened Coords
  import opened Links
  import opened Dealer

  /** `game_size`: the board is GameSize by GameSize cells. */
  const GameSize: nat := 10

  /** The window fields the game logic reads and writes. */
  datatype State = State(board: Board, isGameStart: bool, isFirst: bool, formerPoint: Option<Point>)

  /** The class-level defaults: no game yet, an empty map, waiting for a first pick. */
  function Initial(): State {
    State([], false, true, None)
  }

  /** What `click_canvas` needs of a state to run without error. */
  predicate WellFormed(s: State) {
    && IsSquare(s.board)
    && (s.isGameStart ==> |s.board| == GameSize)
    && (!s.isFirst ==> s.formerPoint.Some? && InBoard(s.board, s.formerPoint.value))
  }

  /**
    Facts every reachable state keeps: a pending pick is a tile of a running
    game, a running game has tiles left, and every kind is on the board an
    even number of times, so every remaining tile still has a partner.
   */
  ghost predicate Inv(s: State) {
    && WellFormed(s)
    && (!s.isFirst ==> s.isGameStart && !IsEmptyCell(s.board, s.formerPoint.value))
    && (s.isGameStart ==> Remaining(s.board) > 0)
    && Remaining(s.board) % 2 == 0
    && forall k :: k != EMPTY ==> Tiles(s.board)[k] % 2 == 0
  }

  lemma InitialInv()
    ensures Inv(Initial())
  {
    assert Tiles([]) == multiset{};
  }

  /**
    `new_game`: deals a fresh board and marks the game started. The pending
    selection is left as it was. Also returned: the drawn sequence the board
    was laid out from and the pool position of each drawn tile.
   */
  method NewGame(s: State, draws: seq<int>) returns (r: State, records: seq<int>, perm: seq<int>)
    requires |draws| == GameSize * GameSize && ValidDraws(draws)
    ensures r.isGameStart && r.isFirst == s.isFirst && r.formerPoint == s.formerPoint
    ensures var pool := Pool(KindCount(GameSize));
      && FitsDraws(|pool|, draws) && perm == Positions(Iota(|pool|), draws)
      && |records| == |perm| == |pool|
      && (forall x :: 0 <= x < |perm| ==> 0 <= perm[x] < |pool| && records[x] == pool[perm[x]])
    ensures Flatten(r.board) == records && RowMajor(r.board, records, GameSize)
    ensures IsDealt(r.board, GameSize)
    ensures Inv(s) ==> Inv(r)
  {
    var board;
    board, records, perm := InitMap(GameSize, draws);
    r := s.(isGameStart := true, board := board.value);
    if Inv(s) {
      DealtInv(s, r.board);
    }
  }

  /** A running game on a freshly dealt board keeps the invariant. */
  lemma DealtInv(s: State, m: Board)
    requires Inv(s) && IsDealt(m, GameSize)
    ensures Inv(s.(isGameStart := true, board := m))
  {
    var r := s.(isGameStart := true, board := m);
    assert Remaining(m) == GameSize * GameSize;
    forall k | k != EMPTY
      ensures Tiles(m)[k] % 2 == 0
    {
      assert Tiles(m)[k] == if 0 <= k < KindCount(GameSize) then Copies else 0;
    }
    if !s.isFirst {
      var c := s.formerPoint.value;
      assert 0 <= m[c.y][c.x];
    }
  }

  /** The cell under a click, as `get_inner_point` computes it. */
  function CellAt(ev: Point): Point {
    GetInnerPoint(ev, GameSize)
  }

  /** `c` is a cell of a running game that holds a tile: a click on it is not ignored. */
  predicate Pickable(s: State, c: Point) {
    && s.isGameStart
    && IsSquare(s.board)
    && IsUseful(c)
    && InBoard(s.board, c)
    && !IsEmptyCell(s.board, c)
  }

  /**
    The match branch of `click_canvas`: both cells are cleared, the next
    click is a first pick again, and the game stops once the board is empty.
   */
  function ClearPair(s: State, q: Point, p: Point): (r: State)
    requires WellFormed(s) && InBoard(s.board, q) && InBoard(s.board, p)
    ensures WellFormed(r)
  {
    var next := s.(board := ClearLinkedBlocks(s.board, q, p), isFirst := true);
    if AllEmpty(next.board) then next.(isGameStart := false) else next
  }

  /**
    Clearing two distinct tiles of one kind removes exactly those two tiles;
    the game stops exactly when none is left.
   */
  lemma ClearPairEffect(s: State, q: Point, p: Point)
    requires WellFormed(s) && InBoard(s.board, q) && InBoard(s.board, p) && q != p
    requires !IsEmptyCell(s.board, q) && !IsEmptyCell(s.board, p) && At(s.board, q) == At(s.board, p)
    ensures var r := ClearPair(s, q, p);
      && IsSquare(r.board) && |r.board| == |s.board|
      && At(r.board, q) == EMPTY && At(r.board, p) == EMPTY
      && (forall c :: InBoard(s.board, c) && c != q && c != p ==> At(r.board, c) == At(s.board, c))
      && Remaining(r.board) + 2 == Remaining(s.board)
      && Tiles(r.board)[At(s.board, p)] + 2 == Tiles(s.board)[At(s.board, p)]
      && (forall k :: k != EMPTY && k != At(s.board, p) ==> Tiles(r.board)[k] == Tiles(s.board)[k])
      && r.isFirst
      && (r.isGameStart <==> s.isGameStart && Remaining(r.board) != 0)
  {
    ClearLinkedBlocksRemaining(s.board, q, p);
    NoneRemainingIffAllEmpty(ClearLinkedBlocks(s.board, q, p));
  }

  /** Clearing two distinct tiles of one kind keeps the invariant. */
  lemma ClearPairInv(s: State, q: Point, p: Point)
    requires Inv(s) && InBoard(s.board, q) && InBoard(s.board, p) && q != p
    requires !IsEmptyCell(s.board, q) && !IsEmptyCell(s.board, p) && At(s.board, q) == At(s.board, p)
    ensures Inv(ClearPair(s, q, p))
  {
    var r := ClearPair(s, q, p);
    var a := At(s.board, p);
    assert r.isFirst && (r.isGameStart ==> Remaining(r.board) > 0) by {
      ClearPairEffect(s, q, p);
    }
    assert Remaining(r.board) + 2 == Remaining(s.board) by {
      ClearPairEffect(s, q, p);
    }
    EvenLess2(Remaining(r.board), Remaining(s.board));
    assert forall k :: k != EMPTY ==> Tiles(r.board)[k] % 2 == 0 by {
      ClearPairEffect(s, q, p);
      EvenKindsAfterPair(s.board, r.board, a);
    }
    SettledInv(r);
  }

  lemma EvenLess2(a: int, b: int)
    requires a + 2 == b && b % 2 == 0
    ensures a % 2 == 0
  {
  }

  /** With no pick pending, the invariant is only about the tiles left. */
  lemma SettledInv(r: State)
    requires WellFormed(r) && r.isFirst && (r.isGameStart ==> Remaining(r.board) > 0)
    requires Remaining(r.board) % 2 == 0
    requires forall k :: k != EMPTY ==> Tiles(r.board)[k] % 2 == 0
    ensures Inv(r)
  {
  }

  /** Removing two tiles of one kind keeps every kind's count even. */
  lemma EvenKindsAfterPair(before: Board, after: Board, a: int)
    requires forall k :: k != EMPTY ==> Tiles(before)[k] % 2 == 0
    requires Tiles(after)[a] + 2 == Tiles(before)[a]
    requires forall k :: k != EMPTY && k != a ==> Tiles(after)[k] == Tiles(before)[k]
    ensures forall k :: k != EMPTY ==> Tiles(after)[k] % 2 == 0
  {
  }

  /** `click_canvas`, without the drawing of the red selection square. */
  function Click(s: State, ev: Point): (r: State)
    requires WellFormed(s)
    ensures WellFormed(r)
  {
    if !s.isGameStart then
      s
    else
      var p := CellAt(ev);
      UsefulInnerPointIsOnBoard(s.board, ev);
      if !(IsUseful(p) && !IsEmptyCell(s.board, p)) then
        s
      else if s.isFirst then
        s.(isFirst := false, formerPoint := Some(p))
      else if s.formerPoint.value == p then
        s.(isFirst := true)
      else
        var q := s.formerPoint.value;
        if GetLinkType(s.board, q, p) != NoLink then
          ClearPair(s, q, p)
        else
          s.(formerPoint := Some(p))
  }

  /** A click is ignored while no game runs, off the board, and on an EMPTY cell. */
  lemma ClickIgnored(s: State, ev: Point)
    requires WellFormed(s) && !Pickable(s, CellAt(ev))
    ensures Click(s, ev) == s
  {
    UsefulInnerPointIsOnBoard(s.board, ev);
  }

  /** In particular every click outside the grid's pixels is ignored. */
  lemma ClickOutsideIgnored(s: State, ev: Point)
    requires WellFormed(s)
    requires || ev.x < Delta || Delta + GameSize * IconWidth <= ev.x
             || ev.y < Delta || Delta + GameSize * IconHeight <= ev.y
    ensures Click(s, ev) == s
  {
    ClickIgnored(s, ev);
  }

  /** A first pick records the cell and waits for a second one. */
  lemma ClickFirstPick(s: State, ev: Point)
    requires WellFormed(s) && Pickable(s, CellAt(ev)) && s.isFirst
    ensures var r := Click(s, ev);
      r.board == s.board && r.isGameStart && !r.isFirst && r.formerPoint == Some(CellAt(ev))
  {
  }

  /** Clicking the pending cell again returns to first-pick mode; the board is untouched. */
  lemma ClickDeselect(s: State, ev: Point)
    requires WellFormed(s) && Pickable(s, CellAt(ev)) && !s.isFirst && s.formerPoint == Some(CellAt(ev))
    ensures var r := Click(s, ev);
      r.board == s.board && r.isGameStart && r.isFirst
  {
  }

  /** Picking a tile and clicking it again changes nothing but the stored pick. */
  lemma ClickTwiceDeselects(s: State, ev: Point)
    requires WellFormed(s) && Pickable(s, CellAt(ev)) && s.isFirst
    ensures Click(Click(s, ev), ev) == s.(formerPoint := Some(CellAt(ev)))
  {
  }

  /** A second pick that does not link replaces the pending pick. */
  lemma ClickMismatch(s: State, ev: Point)
    requires WellFormed(s) && Pickable(s, CellAt(ev)) && !s.isFirst && s.formerPoint != Some(CellAt(ev))
    requires GetLinkType(s.board, s.formerPoint.value, CellAt(ev)) == NoLink
    ensures var r := Click(s, ev);
      r.board == s.board && r.isGameStart && !r.isFirst && r.formerPoint == Some(CellAt(ev))
  {
  }

  /**
    A second pick that links clears exactly the two picked cells, which held
    the same kind, removes two tiles of that kind, and ends the game exactly
    when no tile is left.
   */
  lemma ClickMatch(s: State, ev: Point)
    requires Inv(s) && Pickable(s, CellAt(ev)) && !s.isFirst && s.formerPoint != Some(CellAt(ev))
    requires GetLinkType(s.board, s.formerPoint.value, CellAt(ev)) != NoLink
    ensures var r := Click(s, ev);
      var q, p := s.formerPoint.value, CellAt(ev);
      && IsSquare(r.board) && |r.board| == |s.board|
      && At(s.board, q) == At(s.board, p)
      && At(r.board, q) == EMPTY && At(r.board, p) == EMPTY
      && (forall c :: InBoard(s.board, c) && c != q && c != p ==> At(r.board, c) == At(s.board, c))
      && Remaining(r.board) + 2 == Remaining(s.board)
      && Tiles(r.board)[At(s.board, p)] + 2 == Tiles(s.board)[At(s.board, p)]
      && (forall k :: k != EMPTY && k != At(s.board, p) ==> Tiles(r.board)[k] == Tiles(s.board)[k])
      && r.isFirst
      && (r.isGameStart <==> Remaining(r.board) != 0)
  {
    var q, p := s.formerPoint.value, CellAt(ev);
    assert Click(s, ev) == ClearPair(s, q, p);
    ClearPairEffect(s, q, p);
  }

  /** A click that does not clear a pair leaves the board alone and keeps the invariant. */
  lemma NonMatchPreservesInv(s: State, ev: Point)
    requires Inv(s)
    requires !(Pickable(s, CellAt(ev)) && !s.isFirst && s.formerPoint != Some(CellAt(ev))
      && GetLinkType(s.board, s.formerPoint.value, CellAt(ev)) != NoLink)
    ensures Click(s, ev).board == s.board && Click(s, ev).isGameStart == s.isGameStart
    ensures Inv(Click(s, ev))
  {
    UsefulInnerPointIsOnBoard(s.board, ev);
  }

  /** Clearing a linked pair keeps the invariant. */
  lemma MatchPreservesInv(s: State, ev: Point)
    requires Inv(s) && Pickable(s, CellAt(ev)) && !s.isFirst && s.formerPoint != Some(CellAt(ev))
    requires GetLinkType(s.board, s.formerPoint.value, CellAt(ev)) != NoLink
    ensures Inv(Click(s, ev))
  {
    var q, p := s.formerPoint.value, CellAt(ev);
    assert Click(s, ev) == ClearPair(s, q, p);
    ClearPairInv(s, q, p);
  }

  /** Every click keeps the invariant. */
  lemma ClickPreservesInv(s: State, ev: Point)
    requires Inv(s)
    ensures Inv(Click(s, ev))
  {
    if Pickable(s, CellAt(ev)) && !s.isFirst && s.formerPoint != Some(CellAt(ev))
      && GetLinkType(s.board, s.formerPoint.value, CellAt(ev)) != NoLink
    {
      MatchPreservesInv(s, ev);
    } else {
      NonMatchPreservesInv(s, ev);
    }
  }

  /**
    While a game runs, a click ends it exactly when it leaves the board
    without tiles; only a matching pair can do that.
   */
  lemma ClickEndsGameIffCleared(s: State, ev: Point)
    requires Inv(s) && s.isGameStart
    ensures !Click(s, ev).isGameStart <==> Remaining(Click(s, ev).board) == 0
  {
    if Pickable(s, CellAt(ev)) && !s.isFirst && s.formerPoint != Some(CellAt(ev))
      && GetLinkType(s.board, s.formerPoint.value, CellAt(ev)) != NoLink
    {
      ClickMatch(s, ev);
    } else {
      NonMatchPreservesInv(s, ev);
    }
  }
}
