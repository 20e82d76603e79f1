/** The 4 x 4 board as the engine stores it: 16 cells in row-major order,
    cell (row, col) at index row * 4 + col.  This module gives the lines of
    the board (`getLine`, `setLine`), what each of the four moves does to the
    whole board, and the `canMove` test for the end of the game.  Index
    arithmetic is written with the literal 4 of the board's side. */
module Grid {
  import opened Lines

  const Cells: nat := 16

  /** Rows are horizontal lines, columns vertical ones. */
  datatype Axis = Horizontal | Vertical

  datatype Direction = Up | Down | Left | Right

  predicate IsGrid(g: seq<int>)
  {
    |g| == Cells
  }

  /** The line a cell lies on (its row or its column). */
  function LineIndex(c: nat, axis: Axis): (i: nat)
    requires c < Cells
    ensures i < Size
  {
    match axis
    case Horizontal => c / 4
    case Vertical => c % 4
  }

  /** The position of a cell along its line. */
  function PositionOf(c: nat, axis: Axis): (k: nat)
    requires c < Cells
    ensures k < Size
  {
    match axis
    case Horizontal => c % 4
    case Vertical => c / 4
  }

  /** The cell at position k of line `index`: the two functions above invert it. */
  function CellOf(index: nat, k: nat, axis: Axis): (c: nat)
    requires index < Size && k < Size
    ensures c < Cells
    ensures LineIndex(c, axis) == index && PositionOf(c, axis) == k
  {
    match axis
    case Horizontal => index * 4 + k
    case Vertical => k * 4 + index
  }

  /** `getLine`: the cells of row or column `index`, in order of position. */
  function LineOf(g: seq<int>, index: nat, axis: Axis): (line: seq<int>)
    requires IsGrid(g) && index < Size
  {
    seq(Size, k requires 0 <= k < Size => g[CellOf(index, k, axis)])
  }

  /** `setLine`: the board with row or column `index` overwritten by `line`. */
  function WriteLine(g: seq<int>, index: nat, line: seq<int>, axis: Axis): (r: seq<int>)
    requires IsGrid(g) && index < Size && |line| == Size
  {
    seq(Cells, c requires 0 <= c < Cells =>
      if LineIndex(c, axis) == index then line[PositionOf(c, axis)] else g[c])
  }

  function AxisOf(d: Direction): Axis
  {
    if d == Left || d == Right then Horizontal else Vertical
  }

  /** Right and down reverse each line before merging it, and reverse it back. */
  function IsReversed(d: Direction): bool
  {
    d == Right || d == Down
  }

  /** The board part way through a move: the lines numbered below n hold
      their transformed contents, the other cells are as they were. */
  function SlideLines(g: seq<int>, axis: Axis, reversed: bool, n: nat): (r: seq<int>)
    requires IsGrid(g) && n <= Size
    ensures IsGrid(r)
  {
    seq(Cells, c requires 0 <= c < Cells =>
      if LineIndex(c, axis) < n
      then SlideLine(LineOf(g, LineIndex(c, axis), axis), reversed)[PositionOf(c, axis)]
      else g[c])
  }

  /** Score earned by the first n lines of a move. */
  function SlideLinesGain(g: seq<int>, axis: Axis, reversed: bool, n: nat): int
    requires IsGrid(g) && n <= Size
  {
    if n == 0 then 0
    else SlideLinesGain(g, axis, reversed, n - 1) + LineGain(LineOf(g, n - 1, axis), reversed)
  }

  /** The board after a move in direction d, before a tile is spawned. */
  function Slide(g: seq<int>, d: Direction): (r: seq<int>)
    requires IsGrid(g)
    ensures IsGrid(r)
  {
    SlideLines(g, AxisOf(d), IsReversed(d), Size)
  }

  /** Score earned by a move in direction d. */
  function SlideGain(g: seq<int>, d: Direction): int
    requires IsGrid(g)
  {
    SlideLinesGain(g, AxisOf(d), IsReversed(d), Size)
  }

  /** The cell at (row, col) equals its right or its lower neighbour, where
      that neighbour exists. */
  predicate MergeableAt(g: seq<int>, row: nat, col: nat)
    requires IsGrid(g) && row < Size && col < Size
  {
    (col < Size - 1 && g[row * 4 + col] == g[row * 4 + col + 1]) ||
    (row < Size - 1 && g[row * 4 + col] == g[(row + 1) * 4 + col])
  }

  /** `canMove`: some cell is empty, or some cell equals a neighbour. */
  predicate CanMoveOn(g: seq<int>)
    requires IsGrid(g)
  {
    0 in g || exists row, col :: 0 <= row < Size && 0 <= col < Size && MergeableAt(g, row, col)
  }

  // ---------------------------------------------------------------------
  // Lemmas about lines of the board

  lemma CellCoordinates(c: nat, axis: Axis)
    requires c < Cells
    ensures CellOf(LineIndex(c, axis), PositionOf(c, axis), axis) == c
  {
  }

  /** Reading a line after `setLine`: the written line if it is the same one,
      otherwise the line as it was, so `setLine` touches no other line. */
  lemma ReadAfterWrite(g: seq<int>, i: nat, line: seq<int>, j: nat, axis: Axis)
    requires IsGrid(g) && i < Size && j < Size && |line| == Size
    ensures LineOf(WriteLine(g, i, line, axis), j, axis) == if i == j then line else LineOf(g, j, axis)
  {
  }

  /** `setLine` writes only the cells of its own row or column. */
  lemma WriteLineFrame(g: seq<int>, i: nat, line: seq<int>, axis: Axis, c: nat)
    requires IsGrid(g) && i < Size && |line| == Size && c < Cells
    ensures WriteLine(g, i, line, axis)[c] == g[c] <== LineIndex(c, axis) != i
  {
  }

  /** Writing back the line just read leaves the board unchanged. */
  lemma WriteBackUnchanged(g: seq<int>, i: nat, axis: Axis)
    requires IsGrid(g) && i < Size
    ensures WriteLine(g, i, LineOf(g, i, axis), axis) == g
  {
    var r := WriteLine(g, i, LineOf(g, i, axis), axis);
    forall c | 0 <= c < Cells
      ensures r[c] == g[c]
    {
      CellCoordinates(c, axis);
    }
  }

  /** Two boards with the same lines are the same board. */
  lemma LinesDetermineBoard(a: seq<int>, b: seq<int>, axis: Axis)
    requires IsGrid(a) && IsGrid(b)
    requires forall i :: 0 <= i < Size ==> LineOf(a, i, axis) == LineOf(b, i, axis)
    ensures a == b
  {
    forall c | 0 <= c < Cells
      ensures a[c] == b[c]
    {
      var i, k := LineIndex(c, axis), PositionOf(c, axis);
      CellCoordinates(c, axis);
      assert LineOf(a, i, axis)[k] == LineOf(b, i, axis)[k];
    }
  }

  // ---------------------------------------------------------------------
  // Lemmas about moves

  /** A line not yet reached by a move is as it was. */
  lemma SlideLinesUntouched(g: seq<int>, axis: Axis, reversed: bool, n: nat, j: nat)
    requires IsGrid(g) && n <= j < Size
    ensures LineOf(SlideLines(g, axis, reversed, n), j, axis) == LineOf(g, j, axis)
  {
  }

  /** A line already passed by a move holds the transformed line. */
  lemma SlideLinesDone(g: seq<int>, axis: Axis, reversed: bool, n: nat, j: nat)
    requires IsGrid(g) && j < n <= Size
    ensures LineOf(SlideLines(g, axis, reversed, n), j, axis) == SlideLine(LineOf(g, j, axis), reversed)
  {
  }

  /** One iteration of a move's loop: writing the transformed line n advances
      the board by one line. */
  lemma SlideLinesStep(g: seq<int>, axis: Axis, reversed: bool, n: nat)
    requires IsGrid(g) && n < Size
    ensures WriteLine(SlideLines(g, axis, reversed, n), n, SlideLine(LineOf(g, n, axis), reversed), axis)
         == SlideLines(g, axis, reversed, n + 1)
  {
  }

  /** A move transforms every row (left, right) or every column (up, down)
      by the line transform, reversed for right and down, each line on its own. */
  lemma SlideByLines(g: seq<int>, d: Direction, i: nat)
    requires IsGrid(g) && i < Size
    ensures LineOf(Slide(g, d), i, AxisOf(d)) == SlideLine(LineOf(g, i, AxisOf(d)), IsReversed(d))
  {
    SlideLinesDone(g, AxisOf(d), IsReversed(d), Size, i);
  }

  /** A move that leaves the board unchanged earns no score. */
  lemma UnchangedSlideEarnsNothing(g: seq<int>, d: Direction)
    requires IsGrid(g) && Slide(g, d) == g
    ensures SlideGain(g, d) == 0
  {
    var axis, rev := AxisOf(d), IsReversed(d);
    forall i | 0 <= i < Size
      ensures LineGain(LineOf(g, i, axis), rev) == 0
    {
      SlideByLines(g, d, i);
      SlideLineUnchangedNoGain(LineOf(g, i, axis), rev);
    }
    assert SlideLinesGain(g, axis, rev, 0) == 0;
    assert SlideLinesGain(g, axis, rev, 1) == 0;
    assert SlideLinesGain(g, axis, rev, 2) == 0;
    assert SlideLinesGain(g, axis, rev, 3) == 0;
  }

  /** On a board of tiles a move never lowers the score. */
  lemma LineGainNonNegative(line: seq<int>, reversed: bool)
    requires AllTiles(line)
    ensures LineGain(line, reversed) >= 0
  {
    var l := if reversed then Reverse(line) else line;
    CompressKeeps(l);
    GainNonNegative(Compress(l));
  }

  /** The lines of a board of tiles hold tiles. */
  lemma LineOfKeepsTiles(g: seq<int>, index: nat, axis: Axis)
    requires IsGrid(g) && index < Size && AllTiles(g)
    ensures AllTiles(LineOf(g, index, axis))
  {
    var line := LineOf(g, index, axis);
    forall k | 0 <= k < Size
      ensures IsTile(line[k])
    {
      assert line[k] == g[CellOf(index, k, axis)];
    }
  }

  lemma {:induction false} SlideLinesGainNonNegative(g: seq<int>, axis: Axis, reversed: bool, n: nat)
    requires IsGrid(g) && n <= Size && AllTiles(g)
    ensures SlideLinesGain(g, axis, reversed, n) >= 0
    decreases n
  {
    if n > 0 {
      SlideLinesGainNonNegative(g, axis, reversed, n - 1);
      LineOfKeepsTiles(g, n - 1, axis);
      LineGainNonNegative(LineOf(g, n - 1, axis), reversed);
    }
  }

  /** A move maps a board of tiles to a board of tiles. */
  lemma SlideKeepsTiles(g: seq<int>, d: Direction)
    requires IsGrid(g) && AllTiles(g)
    ensures AllTiles(Slide(g, d))
  {
    var axis, rev := AxisOf(d), IsReversed(d);
    forall c | 0 <= c < Cells
      ensures IsTile(Slide(g, d)[c])
    {
      var line := LineOf(g, LineIndex(c, axis), axis);
      assert AllTiles(line);
      SlideLineKeepsTiles(line, rev);
    }
  }

  /** When `canMove` is false, no move changes the board (and so none earns
      anything): the end of the game is really the end. */
  lemma StuckBoardIsFixed(g: seq<int>, d: Direction)
    requires IsGrid(g) && !CanMoveOn(g)
    ensures Slide(g, d) == g
  {
    var axis, rev := AxisOf(d), IsReversed(d);
    forall i | 0 <= i < Size
      ensures LineOf(Slide(g, d), i, axis) == LineOf(g, i, axis)
    {
      var line := LineOf(g, i, axis);
      assert NoZeros(line) by {
        forall k | 0 <= k < Size ensures line[k] != 0 {
          assert line[k] == g[CellOf(i, k, axis)];
        }
      }
      assert NoAdjacentEqual(line) by {
        forall k | 0 <= k < Size - 1 ensures line[k] != line[k + 1] {
          if axis == Horizontal {
            assert !MergeableAt(g, i, k);
          } else {
            assert !MergeableAt(g, k, i);
          }
        }
      }
      StuckLine(line, rev);
      SlideByLines(g, d, i);
    }
    LinesDetermineBoard(Slide(g, d), g, axis);
  }

  /** On a full board the converse holds as well: if `canMove` is true, moving
      left or moving up changes the board. */
  lemma FullMovableBoardHasMove(g: seq<int>)
    requires IsGrid(g) && 0 !in g && CanMoveOn(g)
    ensures Slide(g, Left) != g || Slide(g, Up) != g
  {
    var row, col :| 0 <= row < Size && 0 <= col < Size && MergeableAt(g, row, col);
    if col < Size - 1 && g[row * 4 + col] == g[row * 4 + col + 1] {
      var line := LineOf(g, row, Horizontal);
      assert line[col] == line[col + 1];
      FullLineWithPairChanges(line);
      SlideByLines(g, Left, row);
    } else {
      var line := LineOf(g, col, Vertical);
      assert line[row] == line[row + 1];
      FullLineWithPairChanges(line);
      SlideByLines(g, Up, col);
    }
  }
}
