# Plant link-up game: board and link engine

A Dafny model of the game logic in `main.py`, a Tkinter tile-matching game
("连连看"). The board is a `game_size × game_size` grid of kind indices, with
`EMPTY = -1` marking a cleared cell. The player clicks two cells that hold the
same kind. If a path with at most two bends joins them, both cells are cleared.
Bends may lie on a virtual border one step outside the board. The game ends
when every cell is empty.

The model is split by concern:

- `options.dfy`: the `Option` type used for "no result" and for the
  `IndexError` of `init_map`.
- `grid.dfy` (`Grid`):
  - `Point` with `is_useful` and `__eq__`.
  - The board as `seq<seq<int>>`, with `not_in_map` and the two writes of
    `clear_linked_blocks`.
  - The tile count `Remaining` (a multiset view of the board).
  - `is_game_end`.
- `coords.dfy` (`Coords`): pixel/cell conversion (`get_x`, `get_y`,
  `get_outer_left_top_point`, `get_inner_point`).
- `links.dfy` (`Links`):
  - `is_straight`, `is_one_corner_link`, `is_two_corner_link` and `get_link_type`.
  - Each check is paired with a declarative reference predicate
    (`Unobstructed`, `CornerLinks`, `BendPath`), with lemmas tying the two
    together.
- `dealer.dfy` (`Dealer`): `init_map`. The pool holds four copies of each
  kind. It is drawn without replacement and laid out row-major.
  - Alongside the drawn tiles, the draw loop reports the pool position each
    one came from (`perm`).
  - `Positions` is a reference definition of which positions a list of draws
    selects. The loop is proved to select exactly those positions.
- `game.dfy` (`Game`): the click state machine of `click_canvas` and the state
  that `new_game` sets. `Inv` is the invariant every reachable state keeps:
  - A pending pick is a tile of a running game.
  - A running game has tiles left.
  - Every kind is on the board an even number of times.

The link engine is generic in the board side `n = |m|`. The game module fixes
`GameSize = 10`, like `game_size` in `main.py`. Randomness enters only through
`init_map`. There, the caller passes the sequence of indices that
`random.randint(0, total - x - 1)` returned, each required to lie in that range.
The positions the draws select are a permutation of the pool's positions, and
different draw lists of the same length select different permutations, so no
two draw lists produce the same shuffle.

Three behaviours of the code are kept as written:

- **Horizontal sweep.** The nested `check` of `is_two_corner_link` skips a
  swept index equal to `p1.y` or `p2.y`. That is right for the row sweep, but
  the column sweep passes a column and the same test still compares it with
  the two ROWS (main.py:332, used from main.py:348-351). The model keeps this
  in `HorizontalFits`. `Links.HorizontalSweepMissesColumn` gives a 3 × 3 board
  on which two tiles of one kind are joined by a two-bend path through such a
  column, yet `get_link_type` reports no link.
- **Odd board side.** The code has no configuration error of its own. For an
  odd side, `int(icon_kind) * 4` is less than `game_size²`, so the draw loop
  eventually indexes past the shrunken pool and raises `IndexError`.
  `Dealer.Draw` and `Dealer.InitMap` return `None` in exactly that case, and
  `InitMap` proves this happens exactly when the side is odd.
- **new_game keeps the selection.** `new_game` resets neither `is_first` nor
  `former_point`. A pick pending when a new game starts stays pending on the
  new board, and `Game.NewGame` models that.

`get_link_type` returns one-element tuples for the corner links
(main.py:281, 284) and `is_two_corner_link` returns a dict (main.py:346).
The model uses one datatype, `NoLink | Straight | OneCorner(c) |
TwoCorner(c1, c2)`, since the caller only compares the result with
`NONE_LINK`.

Python's negative indexing is never reached. Each leg that `is_straight` is
asked about has one end on the board and the other within the border, and the
cells it reads lie strictly between them (`Links.Ends`).

## Model

| member | source | states |
|---|---|---|
| `Grid.SamePointIsEquality` | main.py:28-34 | `__eq__` holds exactly when the two points are the same point |
| `Grid.ClearLinkedBlocks` | main.py:251-252 | both given cells become EMPTY and every other cell keeps its tile |
| `Grid.ClearLinkedBlocksRemaining` | main.py:251-252 | clearing two distinct occupied cells removes exactly two tiles; for a same-kind pair, two of that kind and none of any other kind |
| `Grid.NoneRemainingIffAllEmpty` | main.py:172-180 | the tile count is zero exactly when every cell is EMPTY |
| `Grid.IsGameEnd` | main.py:172-180 | the early-exit scan answers true exactly when every cell is EMPTY, i.e. when no tile remains |
| `Coords.InnerCoord` | main.py:214-231 | on one axis the result is -1 or a cell index below n; a cell index is the cell whose pixel span holds the coordinate; -1 exactly when the coordinate is outside the grid |
| `Coords.GetInnerPoint` | main.py:214-231 | each axis of the result is -1 exactly when that pixel coordinate is outside `[delta, delta + n*40)`, and otherwise names the cell whose span holds it |
| `Coords.InnerOfOuter` | main.py:195-231 | the top-left pixel of cell (i, j) maps back to (i, j) for every cell of the board |
| `Coords.InnerOfCellPixels` | main.py:208-231 | every pixel of a cell's 40 × 40 square maps back to that cell |
| `Coords.UsefulInnerPointIsOnBoard` | main.py:144-146 | a click yields a useful point exactly when it lands inside the grid's pixels, and a useful point is then a cell of the board |
| `Links.StraightIff` | main.py:288-310 | `is_straight` holds exactly when the points share a row or a column and every cell strictly between them is EMPTY; it is false when they share neither |
| `Links.StraightSymmetric` | main.py:292-309 | `is_straight` gives the same answer with its arguments swapped |
| `Links.OneCornerLink` | main.py:312-324 | the corner (p1.x, p2.y) is returned whenever it works; otherwise (p2.x, p1.y) if it works; nothing exactly when neither corner is an EMPTY cell joined straight to both ends |
| `Links.CheckVertical` | main.py:331-346 | `check` accepts row t of the first sweep exactly when t is not a row of either end and the bends above or below the ends form an open path, legs on the border row needing no middle leg |
| `Links.CheckHorizontal` | main.py:331-351 | `check` accepts column t of the second sweep exactly when t differs from both ends' row numbers and the bends beside the ends form an open path |
| `Links.VerticalSweep` | main.py:343-346 | the row sweep returns the bends on the first accepted row from its start on, and nothing only when no such row is accepted |
| `Links.HorizontalSweep` | main.py:348-351 | the column sweep returns the bends on the first accepted column from its start on, and nothing only when no such column is accepted |
| `Links.TwoCornerLink` | main.py:326-351 | nothing exactly when no row or column in -1..n is accepted; otherwise a two-bend path whose bends align with the ends, from the first accepted row, or failing every row, the first accepted column |
| `Links.GetLinkType` | main.py:269-286 | no link for different kinds; otherwise straight, one bend, two bends, in that order of precedence, each exactly when its own path exists and no earlier kind does; no link exactly when all three fail |
| `Links.LinkTypeSymmetric` | main.py:269-351 | swapping the two cells keeps whether they link and whether the link is straight, one-bend or two-bend; a two-bend link comes back with its bends swapped |
| `Links.HorizontalSweepMissesColumn` | main.py:332-351 | on a concrete 3 × 3 board, two same-kind tiles joined by a two-bend path through a column equal to an end's row are reported as not linked |
| `Dealer.Pool` | main.py:99-104 | the pool holds four copies of each kind index below the kind count and nothing else |
| `Dealer.PoolFillsBoard` | main.py:102-108 | the pool has exactly `game_size²` entries for an even side and fewer for an odd side |
| `Dealer.Draw` | main.py:106-110 | drawing succeeds exactly when the pool is at least as long as the draw list; record x is the pool entry at position perm[x]; the first position is the first draw itself; the positions are the ones `Positions` selects for the draws, never repeat, and are every pool position when the lengths agree; the records are then a sub-multiset of the pool, and all of it when the lengths agree |
| `Dealer.PositionsFromLeft` | main.py:106-110 | the positions the draws select all come from the remaining list, and are all of it when there is one draw per element |
| `Dealer.PositionsDistinct` | main.py:106-110 | drawing from a list without repeats never selects a position twice |
| `Dealer.PositionsInjective` | main.py:106-110 | two draw lists of the same length that select the same positions are equal, so different draws give different shuffles |
| `Dealer.LayoutFlatten` | main.py:112-116 | reading the laid-out board row by row gives back the drawn records |
| `Dealer.LayoutIndex` | main.py:112-116 | the cell in row y, column x holds `records[x + y * width]` |
| `Dealer.LayoutIsDealt` | main.py:99-116 | laying out a permutation of the pool gives a square board with every kind on exactly four cells and no EMPTY cell |
| `Dealer.InitMap` | main.py:95-116 | a board is produced exactly when the side is even; the drawn records are the pool entries at the positions the draws select, those positions are a permutation of the pool's, the board is the records laid out row-major, the records are a permutation of the pool, and every kind is on exactly four cells |
| `Game.InitialInv` | main.py:52-55 | the window's initial fields satisfy the game invariant |
| `Game.NewGame` | main.py:82-93 | a new game is running on the board `init_map` deals from the draws: read row by row it is the pool entries at the positions the draws select, every kind is on exactly four cells, the pending selection is untouched, and the invariant is kept |
| `Game.Click` | main.py:139-170 | every click leaves the state well formed: the board stays square and a pending pick stays on it |
| `Game.ClickIgnored` | main.py:143-146 | a click while no game runs, outside the grid, or on an EMPTY cell leaves the state unchanged |
| `Game.ClickOutsideIgnored` | main.py:143-146 | a click outside the grid's pixel range leaves the state unchanged |
| `Game.ClickFirstPick` | main.py:147-150 | a first pick on a tile records it and waits for a second pick, without changing the board |
| `Game.ClickDeselect` | main.py:152-154 | clicking the pending cell again returns to first-pick mode with the board unchanged |
| `Game.ClickTwiceDeselects` | main.py:147-154 | picking a tile and clicking it again restores the state apart from the remembered point |
| `Game.ClickMismatch` | main.py:167-169 | a second pick that does not link replaces the pending pick and stays in second-pick mode |
| `Game.ClearPairEffect` | main.py:157-163 | clearing a same-kind pair empties exactly those two cells, removes two tiles of that kind and none of any other, and stops the game exactly when no tile is left |
| `Game.ClickMatch` | main.py:156-163 | a second pick that links clears exactly the two picked cells of one kind and ends the game exactly when the board is empty |
| `Game.ClickPreservesInv` | main.py:139-170 | every click keeps the invariant: a pending pick is a tile of a running game, a running game has tiles, every kind's count is even |
| `Game.ClickEndsGameIffCleared` | main.py:157-163 | during a game a click ends it exactly when it leaves no tile on the board |

## Left out

- The Tkinter window, menu, canvas and label (`__init__`, the UI lines of
  `new_game`, `draw_map`, `draw_selected_area`, `center_window`; main.py:64-93,
  118-137, 233-240, 354-356). These are rendering; only the flags `new_game`
  sets are modelled.
- The red selection rectangle drawn and deleted in `click_canvas`
  (main.py:148, 154, 169-170), and the "You Win!" message box, canvas hiding
  and label display at the end of a game (main.py:162, 165-166). These are
  rendering only.
- `extract_small_icon_list` (main.py:182-193): directory listing and image
  loading. In the model a kind is just its index.
- The `plant_info` file read and the message box in `clear_linked_blocks`
  (main.py:246-250, 253-258): I/O. Only the two map writes are modelled, so an
  `IndexError` from `self.plants[idx]` when fewer images than kinds were found
  is not modelled either.
- `random.randint`: replaced by a caller-supplied list of drawn indices.
- The float `icon_kind` (main.py:47): treated as the integer
  `int(icon_kind)` that main.py:102 uses.
- `get_outer_center_point` (main.py:201-206): nothing in the program calls it.
- `Point.img_name` (main.py:17, 128): written by `draw_map` for display only.
