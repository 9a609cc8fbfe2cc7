/**
  Board generation: a pool holding every kind index four times is drawn from
  without replacement and the drawn sequence is laid out row by row. The
  random choices are supplied by the caller as the sequence of indices the
  random number generator returned.
 */
module Dealer {
  import opened Options
  import opened Grid

  /** How often each kind is dealt. */
  const Copies: nat := 4

  /** `int(icon_kind)`: the number of kinds that fit on a `gameSize` board. */
  function KindCount(gameSize: nat): nat {
    gameSize * gameSize / Copies
  }

  /** `tmp_records`: kind 0 four times, then kind 1 four times, and so on. */
  function Pool(kinds: nat): (r: seq<int>)
    ensures |r| == Copies * kinds
    ensures forall k :: multiset(r)[k] == if 0 <= k < kinds then Copies else 0
  {
    if kinds == 0 then []
    else Pool(kinds - 1) + [kinds - 1, kinds - 1, kinds - 1, kinds - 1]
  }

  /**
    What `random.randint(0, total - x - 1)` can return at step `x`, where
    `total` is the number of draws.
   */
  predicate ValidDraws(draws: seq<int>) {
    forall x :: 0 <= x < |draws| ==> 0 <= draws[x] <= |draws| - x - 1
  }

  /** Step `x` picks an index of a list that has lost `x` elements of its `len`. */
  predicate FitsDraws(len: nat, draws: seq<int>) {
    forall x :: 0 <= x < |draws| ==> 0 <= draws[x] < len - x
  }

  /** Valid draws fit any pool at least as long as the draw list. */
  lemma ValidDrawsFit(draws: seq<int>, len: nat)
    requires ValidDraws(draws) && |draws| <= len
    ensures FitsDraws(len, draws)
  {
  }

  /** `del s[i]`. */
  function Remove(s: seq<int>, i: nat): (r: seq<int>)
    requires i < |s|
    ensures |r| == |s| - 1
  {
    s[..i] + s[i + 1..]
  }

  /** Removing index `i` shifts every later element one place left. */
  lemma RemoveAt(s: seq<int>, i: nat)
    requires i < |s|
    ensures forall k :: 0 <= k < |s| - 1 ==> Remove(s, i)[k] == if k < i then s[k] else s[k + 1]
  {
    var r := Remove(s, i);
    forall k | 0 <= k < |r|
      ensures r[k] == if k < i then s[k] else s[k + 1]
    {
      if k >= i {
        assert r[k] == s[i + 1..][k - i];
      }
    }
  }

  /** Removing index `i` takes exactly one copy of `s[i]` out of the multiset. */
  lemma RemoveMultiset(s: seq<int>, i: nat)
    requires i < |s|
    ensures multiset(Remove(s, i)) + multiset{s[i]} == multiset(s)
  {
    assert s == s[..i] + [s[i]] + s[i + 1..];
  }

  /** No element occurs twice. */
  predicate Distinct(s: seq<int>) {
    forall i, j :: 0 <= i < j < |s| ==> s[i] != s[j]
  }

  /** The positions 0 .. n - 1 of a list of length `n`, in order. */
  function Iota(n: nat): (r: seq<int>)
    ensures |r| == n && forall i :: 0 <= i < n ==> r[i] == i
  {
    seq(n, i => i)
  }

  /**
    Reference definition of the draw loop on positions: `left` lists the
    original pool positions still in the pool, in order, and each draw moves
    the one it indexes to the result.
   */
  function Positions(left: seq<int>, draws: seq<int>): (r: seq<int>)
    requires FitsDraws(|left|, draws)
    ensures |r| == |draws|
    decreases |draws|
  {
    if |draws| == 0 then []
    else
      assert FitsDraws(|left| - 1, draws[1..]) by {
        forall x | 0 <= x < |draws| - 1
          ensures 0 <= draws[1..][x] < |left| - 1 - x
        {
          assert draws[1..][x] == draws[x + 1];
        }
      }
      [left[draws[0]]] + Positions(Remove(left, draws[0]), draws[1..])
  }

  lemma DistinctRemove(s: seq<int>, i: nat)
    requires i < |s| && Distinct(s)
    ensures Distinct(Remove(s, i)) && s[i] !in Remove(s, i)
  {
    var r := Remove(s, i);
    RemoveAt(s, i);
    forall k | 0 <= k < |r|
      ensures r[k] != s[i]
    {
      assert r[k] == if k < i then s[k] else s[k + 1];
    }
  }

  /** Each step of `Positions` takes the indexed element off `left`. */
  lemma PositionsStep(left: seq<int>, draws: seq<int>)
    requires FitsDraws(|left|, draws) && |draws| > 0
    ensures 0 <= draws[0] < |left|
    ensures FitsDraws(|left| - 1, draws[1..])
    ensures Positions(left, draws) == [left[draws[0]]] + Positions(Remove(left, draws[0]), draws[1..])
  {
  }

  /**
    The drawn positions come from `left`, and are all of `left` when every
    element is drawn.
   */
  lemma {:induction false} PositionsFromLeft(left: seq<int>, draws: seq<int>)
    requires FitsDraws(|left|, draws)
    ensures multiset(Positions(left, draws)) <= multiset(left)
    ensures |draws| == |left| ==> multiset(Positions(left, draws)) == multiset(left)
    decreases |draws|
  {
    if |draws| > 0 {
      var i := draws[0];
      PositionsStep(left, draws);
      PositionsFromLeft(Remove(left, i), draws[1..]);
      RemoveMultiset(left, i);
      var tail := Positions(Remove(left, i), draws[1..]);
      assert multiset(Positions(left, draws)) == multiset{left[i]} + multiset(tail);
    }
  }

  /** The drawn positions never repeat when `left` does not. */
  lemma {:induction false} PositionsDistinct(left: seq<int>, draws: seq<int>)
    requires FitsDraws(|left|, draws) && Distinct(left)
    ensures Distinct(Positions(left, draws))
    decreases |draws|
  {
    if |draws| > 0 {
      var i := draws[0];
      var rest := Remove(left, i);
      PositionsStep(left, draws);
      DistinctRemove(left, i);
      PositionsDistinct(rest, draws[1..]);
      PositionsFromLeft(rest, draws[1..]);
      DistinctCons(left[i], Positions(rest, draws[1..]));
    }
  }

  /** Putting an element in front of a list without repeats that lacks it keeps it without repeats. */
  lemma DistinctCons(h: int, t: seq<int>)
    requires Distinct(t) && h !in multiset(t)
    ensures Distinct([h] + t)
  {
    var r := [h] + t;
    forall a, b | 0 <= a < b < |r|
      ensures r[a] != r[b]
    {
      assert r[b] == t[b - 1];
      if a == 0 {
        assert r[b] in multiset(t);
      } else {
        assert r[a] == t[a - 1];
      }
    }
  }

  /**
    Different draw lists pick different position sequences from a list
    without repeats: the shuffle loses no randomness.
   */
  lemma {:induction false} PositionsInjective(left: seq<int>, d1: seq<int>, d2: seq<int>)
    requires Distinct(left) && FitsDraws(|left|, d1) && FitsDraws(|left|, d2) && |d1| == |d2|
    requires Positions(left, d1) == Positions(left, d2)
    ensures d1 == d2
    decreases |d1|
  {
    if |d1| > 0 {
      var r := Positions(left, d1);
      assert r[0] == left[d1[0]] && r[0] == left[d2[0]];
      assert d1[0] == d2[0];
      DistinctRemove(left, d1[0]);
      var rest := Remove(left, d1[0]);
      assert Positions(rest, d1[1..]) == r[1..] == Positions(rest, d2[1..]);
      PositionsInjective(rest, d1[1..], d2[1..]);
      assert d1 == [d1[0]] + d1[1..] && d2 == [d2[0]] + d2[1..];
    }
  }

  /**
    The state of the drawing loop after `x` steps: `rest` is what is left of
    the pool and `left` the original positions of its elements; `out` holds
    the drawn tiles and `perm` their original positions.
   */
  ghost predicate DrawState(pool: seq<int>, draws: seq<int>, x: nat,
                            rest: seq<int>, left: seq<int>, out: seq<int>, perm: seq<int>) {
    && x <= |draws| && |rest| + x == |pool| && |left| == |rest| && |out| == x && |perm| == x
    && (forall k :: 0 <= k < |rest| ==> 0 <= left[k] < |pool| && rest[k] == pool[left[k]])
    && (forall k :: 0 <= k < x ==> 0 <= perm[k] < |pool| && out[k] == pool[perm[k]])
    && multiset(out) + multiset(rest) == multiset(pool)
    && (|draws| <= |pool| ==>
         && FitsDraws(|pool|, draws)
         && FitsDraws(|left|, draws[x..])
         && perm + Positions(left, draws[x..]) == Positions(Iota(|pool|), draws))
  }

  lemma DrawInit(pool: seq<int>, draws: seq<int>)
    requires ValidDraws(draws)
    ensures DrawState(pool, draws, 0, pool, Iota(|pool|), [], [])
  {
    if |draws| <= |pool| {
      ValidDrawsFit(draws, |pool|);
      assert draws[0..] == draws;
    }
  }

  /** One step of the loop keeps its state description. */
  lemma DrawStep(pool: seq<int>, draws: seq<int>, x: nat,
                 rest: seq<int>, left: seq<int>, out: seq<int>, perm: seq<int>)
    requires DrawState(pool, draws, x, rest, left, out, perm)
    requires x < |draws| && 0 <= draws[x] < |rest|
    ensures var i := draws[x];
      DrawState(pool, draws, x + 1, Remove(rest, i), Remove(left, i), out + [rest[i]], perm + [left[i]])
  {
    var i := draws[x];
    RemoveAt(rest, i);
    RemoveAt(left, i);
    RemoveMultiset(rest, i);
    var out', perm' := out + [rest[i]], perm + [left[i]];
    assert multiset(out') == multiset(out) + multiset{rest[i]};
    forall k | 0 <= k < x + 1
      ensures 0 <= perm'[k] < |pool| && out'[k] == pool[perm'[k]]
    {
      if k < x {
        assert perm'[k] == perm[k] && out'[k] == out[k];
      }
    }
    if |draws| <= |pool| {
      var d := draws[x..];
      assert d[0] == i && d[1..] == draws[x + 1..];
      DrawStepPositions(Positions(Iota(|pool|), draws), d, left, perm);
    }
  }

  /** The `Positions` part of one loop step: the next draw moves one position from `left` to `perm`. */
  lemma DrawStepPositions(target: seq<int>, d: seq<int>, left: seq<int>, perm: seq<int>)
    requires |d| > 0 && FitsDraws(|left|, d)
    requires perm + Positions(left, d) == target
    ensures 0 <= d[0] < |left|
    ensures FitsDraws(|left| - 1, d[1..])
    ensures (perm + [left[d[0]]]) + Positions(Remove(left, d[0]), d[1..]) == target
  {
    PositionsStep(left, d);
    var tail := Positions(Remove(left, d[0]), d[1..]);
    assert perm + [left[d[0]]] + tail == perm + ([left[d[0]]] + tail);
  }

  /** After the last step the drawn positions are the ones `Positions` selects. */
  lemma DrawDone(pool: seq<int>, draws: seq<int>, rest: seq<int>, left: seq<int>, out: seq<int>, perm: seq<int>)
    requires ValidDraws(draws)
    requires DrawState(pool, draws, |draws|, rest, left, out, perm)
    ensures FitsDraws(|pool|, draws) && perm == Positions(Iota(|pool|), draws)
    ensures Distinct(perm)
    ensures |draws| == |pool| ==> multiset(perm) == multiset(Iota(|pool|))
  {
    assert draws[|draws|..] == [];
    ValidDrawsFit(draws, |pool|);
    PositionsFromLeft(Iota(|pool|), draws);
    PositionsDistinct(Iota(|pool|), draws);
  }

  /**
    The drawing loop of `init_map`: step `x` moves element `draws[x]` of what
    is left of the pool to `records`, and its original pool position to
    `perm`. When that index is past the end of the pool, `main.py` raises
    IndexError, and the result is None.
   */
  method Draw(pool: seq<int>, draws: seq<int>) returns (records: Option<seq<int>>, perm: seq<int>)
    requires ValidDraws(draws)
    ensures records.Some? <==> |draws| <= |pool|
    ensures records.Some? ==> FitsDraws(|pool|, draws) && perm == Positions(Iota(|pool|), draws)
    ensures records.Some? ==>
      && |records.value| == |perm| == |draws|
      && forall x :: 0 <= x < |perm| ==> 0 <= perm[x] < |pool| && records.value[x] == pool[perm[x]]
    ensures records.Some? ==> Distinct(perm)
    ensures records.Some? && |draws| > 0 ==> perm[0] == draws[0]
    ensures records.Some? ==> multiset(records.value) <= multiset(pool)
    ensures records.Some? && |draws| == |pool| ==>
      multiset(perm) == multiset(Iota(|pool|)) && multiset(records.value) == multiset(pool)
  {
    var rest, left, out := pool, Iota(|pool|), [];
    perm := [];
    var x := 0;
    DrawInit(pool, draws);
    while x < |draws|
      invariant x <= |draws| && |rest| + x == |pool|
      invariant DrawState(pool, draws, x, rest, left, out, perm)
    {
      var index := draws[x];
      if index >= |rest| {
        return None, [];
      }
      DrawStep(pool, draws, x, rest, left, out, perm);
      out := out + [rest[index]];
      perm := perm + [left[index]];
      rest := Remove(rest, index);
      left := Remove(left, index);
      x := x + 1;
    }
    DrawDone(pool, draws, rest, left, out, perm);
    if |draws| > 0 {
      PositionsStep(Iota(|pool|), draws);
    }
    return Some(out), perm;
  }

  /**
    Where row `y` starts in a row-major record list with rows of `width`:
    the number of cells in the rows above it.
   */
  function RowOffset(y: nat, width: nat): nat {
    if y == 0 then 0 else RowOffset(y - 1, width) + width
  }

  lemma {:induction false} RowOffsetIsProduct(y: nat, width: nat)
    ensures RowOffset(y, width) == y * width
  {
    if y > 0 {
      RowOffsetIsProduct(y - 1, width);
      assert y * width == (y - 1) * width + width;
    }
  }

  /**
    The layout loop of `init_map`: `rows` rows of `width` tiles, row-major.
    `RowOffset(rows, width)` is the `rows * width` records it consumes.
   */
  function Layout(records: seq<int>, width: nat, rows: nat): (m: Board)
    requires |records| == RowOffset(rows, width)
    ensures |m| == rows
    ensures forall y :: 0 <= y < rows ==> |m[y]| == width
    decreases rows
  {
    if rows == 0 then [] else [records[..width]] + Layout(records[width..], width, rows - 1)
  }

  /** Reading the laid-out board row by row gives back the records. */
  lemma {:induction false} LayoutFlatten(records: seq<int>, width: nat, rows: nat)
    requires |records| == RowOffset(rows, width)
    ensures Flatten(Layout(records, width, rows)) == records
    decreases rows
  {
    if rows > 0 {
      var rest := Layout(records[width..], width, rows - 1);
      LayoutFlatten(records[width..], width, rows - 1);
      assert ([records[..width]] + rest)[1..] == rest;
      assert records == records[..width] + records[width..];
    }
  }

  /** The cell in row `y`, column `x` holds the record `x` places past the row's start. */
  lemma {:induction false} LayoutAt(records: seq<int>, width: nat, rows: nat, y: nat, x: nat)
    requires |records| == RowOffset(rows, width)
    requires y < rows && x < width
    ensures x + RowOffset(y, width) < |records|
    ensures Layout(records, width, rows)[y][x] == records[x + RowOffset(y, width)]
    decreases rows
  {
    var tail := records[width..];
    var m := Layout(records, width, rows);
    assert m == [records[..width]] + Layout(tail, width, rows - 1);
    if y == 0 {
      assert m[0] == records[..width];
    } else {
      LayoutAt(tail, width, rows - 1, y - 1, x);
      assert m[y] == Layout(tail, width, rows - 1)[y - 1];
    }
  }

  /** The cell in row `y`, column `x` holds `records[x + y * width]`. */
  lemma LayoutIndex(records: seq<int>, width: nat, rows: nat, y: int, x: int)
    requires |records| == RowOffset(rows, width)
    requires 0 <= y < rows && 0 <= x < width
    ensures x + y * width < |records| && Layout(records, width, rows)[y][x] == records[x + y * width]
  {
    LayoutAt(records, width, rows, y, x);
    RowOffsetIsProduct(y, width);
  }

  /**
    Row `y`, column `x` of `m` holds the record `x` places past the start of
    row `y`, that is `records[x + y * width]` (see `RowOffsetIsProduct`).
   */
  predicate RowMajor(m: Board, records: seq<int>, width: nat) {
    && (forall y :: 0 <= y < |m| ==> |m[y]| == width && RowOffset(y, width) + width <= |records|)
    && forall y, x :: 0 <= y < |m| && 0 <= x < width ==> m[y][x] == records[x + RowOffset(y, width)]
  }

  lemma LayoutRowMajor(records: seq<int>, width: nat, rows: nat)
    requires |records| == RowOffset(rows, width)
    ensures RowMajor(Layout(records, width, rows), records, width)
  {
    var m := Layout(records, width, rows);
    forall y | 0 <= y < |m|
      ensures RowOffset(y, width) + width <= |records|
    {
      if width > 0 {
        LayoutAt(records, width, rows, y, width - 1);
      } else {
        RowOffsetIsProduct(y, width);
      }
    }
    forall y, x | 0 <= y < |m| && 0 <= x < width
      ensures m[y][x] == records[x + RowOffset(y, width)]
    {
      LayoutAt(records, width, rows, y, x);
    }
  }

  /** A square has a multiple of four cells exactly when its side is even. */
  lemma SquareDivisibleByFour(n: nat)
    ensures (n * n) % 4 == 0 <==> n % 2 == 0
  {
    var k, r := n / 2, n % 2;
    assert n == 2 * k + r;
    assert n * n == 4 * (k * k + k * r) + r * r by {
      assert n * n == (2 * k + r) * (2 * k + r);
    }
    assert r * r == r;
  }

  /** The pool fills the board exactly for an even side and falls short otherwise. */
  lemma PoolFillsBoard(n: nat)
    ensures n % 2 == 0 ==> |Pool(KindCount(n))| == n * n
    ensures n % 2 != 0 ==> |Pool(KindCount(n))| < n * n
  {
    SquareDivisibleByFour(n);
  }

  /**
    A freshly dealt `n` by `n` board: square, every kind
    `0 .. KindCount(n) - 1` on exactly four cells, nothing else on it, and no
    cell EMPTY.
   */
  ghost predicate IsDealt(m: Board, n: nat) {
    && IsSquare(m) && |m| == n
    && (forall k :: Tiles(m)[k] == if 0 <= k < KindCount(n) then Copies else 0)
    && (forall y, x :: 0 <= y < n && 0 <= x < n ==> 0 <= m[y][x] < KindCount(n))
    && Remaining(m) == n * n
  }

  /** A full draw of the pool, laid out, deals every kind four times. */
  lemma DealtTiles(records: seq<int>, n: nat)
    requires |records| == RowOffset(n, n)
    requires multiset(records) == multiset(Pool(KindCount(n)))
    ensures forall k :: Tiles(Layout(records, n, n))[k] == if 0 <= k < KindCount(n) then Copies else 0
    ensures Remaining(Layout(records, n, n)) == n * n
  {
    var m := Layout(records, n, n);
    RowOffsetIsProduct(n, n);
    LayoutFlatten(records, n, n);
    assert Tiles(m) == multiset(records);
    assert Tiles(m)[EMPTY := 0] == Tiles(m);
  }

  /** Every cell of a dealt board holds a kind index, never EMPTY. */
  lemma DealtCells(records: seq<int>, n: nat)
    requires |records| == RowOffset(n, n)
    requires multiset(records) == multiset(Pool(KindCount(n)))
    ensures forall y, x :: 0 <= y < n && 0 <= x < n ==> 0 <= Layout(records, n, n)[y][x] < KindCount(n)
  {
    var m := Layout(records, n, n);
    LayoutFlatten(records, n, n);
    assert Tiles(m) == multiset(records);
    forall y, x | 0 <= y < n && 0 <= x < n
      ensures 0 <= m[y][x] < KindCount(n)
    {
      CellInTiles(m, y, x);
    }
  }

  /** Laying out a full draw of the pool gives a dealt board. */
  lemma LayoutIsDealt(records: seq<int>, n: nat)
    requires |records| == RowOffset(n, n)
    requires multiset(records) == multiset(Pool(KindCount(n)))
    ensures IsDealt(Layout(records, n, n), n)
  {
    DealtTiles(records, n);
    DealtCells(records, n);
  }

  /**
    `init_map` for a `gameSize` by `gameSize` board: the board, together with
    the drawn sequence it was laid out from and the pool position each drawn
    tile came from. Generation succeeds exactly when the side is even; the
    positions are then the ones the draws select, a permutation of the pool's
    positions, the board is the drawn sequence read row by row, and the drawn
    sequence is a permutation of the pool.
   */
  method InitMap(gameSize: nat, draws: seq<int>) returns (board: Option<Board>, records: seq<int>, perm: seq<int>)
    requires |draws| == gameSize * gameSize
    requires ValidDraws(draws)
    ensures board.Some? <==> gameSize % 2 == 0
    ensures board.Some? ==>
      var pool := Pool(KindCount(gameSize));
      && FitsDraws(|pool|, draws) && perm == Positions(Iota(|pool|), draws)
      && |records| == |perm| == |pool|
      && (forall x :: 0 <= x < |perm| ==> 0 <= perm[x] < |pool| && records[x] == pool[perm[x]])
      && multiset(perm) == multiset(Iota(|pool|))
    ensures board.Some? ==> multiset(records) == multiset(Pool(KindCount(gameSize)))
    ensures board.Some? ==> Flatten(board.value) == records
    ensures board.Some? ==> RowMajor(board.value, records, gameSize)
    ensures board.Some? ==> IsDealt(board.value, gameSize)
  {
    var pool := Pool(KindCount(gameSize));
    PoolFillsBoard(gameSize);
    RowOffsetIsProduct(gameSize, gameSize);
    var drawn;
    drawn, perm := Draw(pool, draws);
    if drawn.None? {
      return None, [], [];
    }
    records := drawn.value;
    LayoutIsDealt(records, gameSize);
    LayoutRowMajor(records, gameSize, gameSize);
    LayoutFlatten(records, gameSize, gameSize);
    board := Some(Layout(records, gameSize, gameSize));
  }
}
