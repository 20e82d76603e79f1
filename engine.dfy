/** The game engine (`Game2048`): the board, the score, the win and
    game-over flags, the best score and the undo history, with the
    operations that change them. */
module Engine {
  import opened Lines
  import opened Grid
  import opened Spawn
  import opened Input

  /** The undo history keeps at most this many snapshots. */
  const HistoryLimit: nat := 10

  /** The tile that wins the game. */
  const WinningTile: int := 2048

  /** An interstitial is due on every third move that changes the board. */
  const InterstitialEvery: nat := 3

  /** A copy of the board and the score, taken before a move. */
  datatype Snapshot = Snapshot(tiles: seq<int>, score: int)

  predicate ValidSnapshot(s: Snapshot)
  {
    IsGrid(s.tiles) && AllTiles(s.tiles) && s.score >= 0
  }

  /** The history after `saveHistory`: the snapshot is pushed, and the oldest
      entry is dropped once there are more than HistoryLimit. */
  function Pushed(h: seq<Snapshot>, s: Snapshot): seq<Snapshot>
  {
    var p := h + [s];
    if |p| > HistoryLimit then p[1..] else p
  }

  /** m is the larger of a and b. */
  predicate IsMaxOf(m: int, a: int, b: int)
  {
    m >= a && m >= b && (m == a || m == b)
  }

  /** The interstitial counter after a move that changed the board: it
      goes up by one and is reset when an interstitial is due. */
  function NextCount(c: nat): nat
  {
    if c + 1 >= InterstitialEvery then 0 else c + 1
  }

  /** The counter after k board-changing moves from a fresh start. */
  function CountAfter(k: nat): nat
  {
    if k == 0 then 0 else NextCount(CountAfter(k - 1))
  }

  /** The counter counts board-changing moves modulo InterstitialEvery, so an
      interstitial is due exactly on every third such move. */
  lemma {:induction false} CountAfterIsModulo(k: nat)
    ensures CountAfter(k) == k % InterstitialEvery
    ensures k > 0 ==> (CountAfter(k) == 0 <==> k % InterstitialEvery == 0)
  {
    if k > 0 {
      CountAfterIsModulo(k - 1);
    }
  }

  /** Pushing keeps the history within its limit, and popping the pushed
      snapshot gives back the earlier history, except that at the limit its
      oldest entry is gone for good. */
  lemma PushThenPop(h: seq<Snapshot>, s: Snapshot)
    requires |h| <= HistoryLimit
    ensures var r := Pushed(h, s);
      && 0 < |r| <= HistoryLimit
      && r[|r| - 1] == s
      && r[..|r| - 1] == if |h| < HistoryLimit then h else h[1..]
  {
  }

  /** The merge pass at an equal pair at i: the pair becomes one doubled
      cell and its value is earned. */
  lemma MergePassAtPair(m: seq<int>, i: nat)
    requires i + 1 < |m| && m[i] == m[i + 1]
    ensures MergePass(m[i..]) == [2 * m[i]] + MergePass(m[i + 2..])
    ensures Gain(m[i..]) == 2 * m[i] + Gain(m[i + 2..])
  {
    assert m[i..][2..] == m[i + 2..];
    assert m[i..][0] == m[i] && m[i..][1] == m[i];
  }

  /** Splicing an equal pair at i into one doubled cell, as the merge pass
      of `mergeLine` does in place, moves the pass on by one cell: what is
      left to merge shrinks, and the pair's value is earned. */
  lemma MergeStepPair(m: seq<int>, i: nat, n: seq<int>)
    requires i + 1 < |m| && m[i] == m[i + 1]
    requires n == m[..i] + [2 * m[i]] + m[i + 2..]
    ensures n[..i + 1] + MergePass(n[i + 1..]) == m[..i] + MergePass(m[i..])
    ensures Gain(m[i..]) == 2 * m[i] + Gain(n[i + 1..])
  {
    assert n[..i + 1] + MergePass(n[i + 1..]) == m[..i] + MergePass(m[i..]) by {
      MergePassAtPair(m, i);
      assert n[i + 1..] == m[i + 2..];
      assert n[..i + 1] == m[..i] + [2 * m[i]];
    }
    assert Gain(m[i..]) == 2 * m[i] + Gain(n[i + 1..]) by {
      MergePassAtPair(m, i);
      assert n[i + 1..] == m[i + 2..];
    }
  }

  /** Passing over an unequal pair at i moves the merge pass on by one cell
      and earns nothing. */
  lemma MergeStepSkip(m: seq<int>, i: nat)
    requires i + 1 < |m| && m[i] != m[i + 1]
    ensures m[..i + 1] + MergePass(m[i + 1..]) == m[..i] + MergePass(m[i..])
    ensures Gain(m[i..]) == Gain(m[i + 1..])
  {
    assert m[..i + 1] + MergePass(m[i + 1..]) == m[..i] + MergePass(m[i..]) by {
      assert m[i..][1..] == m[i + 1..];
      assert m[i..][0] == m[i] && m[i..][1] == m[i + 1];
      assert m[..i + 1] == m[..i] + [m[i]];
    }
    assert Gain(m[i..]) == Gain(m[i + 1..]) by {
      assert m[i..][1..] == m[i + 1..];
      assert m[i..][0] == m[i] && m[i..][1] == m[i + 1];
    }
  }

  /** A merge pass that has reached the last cell is finished. */
  lemma MergeDone(m: seq<int>, i: nat, target: seq<int>)
    requires |m| - 1 <= i <= |m|
    requires m[..i] + MergePass(m[i..]) == target
    ensures m == target
  {
    assert MergePass(m[i..]) == m[i..];
    assert m[..i] + m[i..] == m;
  }

  class Game {
    /** The board, row-major, 0 for an empty cell. */
    var tiles: seq<int>
    var score: int
    var bestScore: int
    var gameOver: bool
    var won: bool
    /** Snapshots taken before moves, the latest last. */
    var history: seq<Snapshot>
    /** Moves that changed the board since the last interstitial. */
    var interstitialCount: nat

    ghost predicate Valid()
      reads this
    {
      && |tiles| == Cells
      && AllTiles(tiles)
      && score >= 0
      && |history| <= HistoryLimit
      && (forall k :: 0 <= k < |history| ==> ValidSnapshot(history[k]))
      && interstitialCount < InterstitialEvery
    }

    /** A new engine, given the best score read from storage, starts a game. */
    constructor (savedBest: int, pick1: nat, roll1: Roll, pick2: nat, roll2: Roll)
      ensures Valid()
      ensures tiles == Place(Place(Zeros(Cells), pick1, TileValue(0, roll1)), pick2, TileValue(0, roll2))
      ensures score == 0 && bestScore == savedBest && !gameOver && !won
      ensures history == [] && interstitialCount == 0
    {
      tiles := [];
      score := 0;
      bestScore := savedBest;
      gameOver := false;
      won := false;
      history := [];
      interstitialCount := 0;
      new;
      Init(pick1, roll1, pick2, roll2);
    }

    /** `init` (also the new-game button): an empty board with two spawned
        tiles, score 0, both flags down, no history.  The best score and the
        interstitial counter are kept. */
    method Init(pick1: nat, roll1: Roll, pick2: nat, roll2: Roll)
      requires interstitialCount < InterstitialEvery
      modifies this
      ensures Valid()
      ensures tiles == Place(Place(Zeros(Cells), pick1, TileValue(0, roll1)), pick2, TileValue(0, roll2))
      ensures score == 0 && !gameOver && !won && history == []
      ensures bestScore == old(bestScore) && interstitialCount == old(interstitialCount)
    {
      tiles := Zeros(Cells);
      score := 0;
      gameOver := false;
      won := false;
      history := [];
      AddNewTile(pick1, roll1);
      AddNewTile(pick2, roll2);
    }

    /** `saveHistory`: push a copy of the board and the score. */
    method SaveHistory()
      requires Valid()
      modifies this`history
      ensures Valid()
      ensures history == Pushed(old(history), Snapshot(tiles, score))
    {
      history := history + [Snapshot(tiles, score)];
      if |history| > HistoryLimit {
        history := history[1..];
      }
    }

    /** `undo`: with an empty history nothing happens; otherwise the latest
        snapshot is popped and its board and score restored, and the game is
        playable again.  `won` is left as it is. */
    method Undo()
      requires Valid()
      modifies this
      ensures Valid()
      ensures old(history) == [] ==>
        && tiles == old(tiles) && score == old(score)
        && history == old(history) && gameOver == old(gameOver)
      ensures old(history) != [] ==>
        var last := old(history)[|old(history)| - 1];
        && tiles == last.tiles && score == last.score
        && history == old(history)[..|old(history)| - 1] && !gameOver
      ensures won == old(won) && bestScore == old(bestScore)
      ensures interstitialCount == old(interstitialCount)
    {
      if |history| == 0 {
        return;
      }
      var state := history[|history| - 1];
      assert ValidSnapshot(state);
      history := history[..|history| - 1];
      tiles := state.tiles;
      score := state.score;
      gameOver := false;
    }

    /** `move`: save a snapshot, move every line; if the board did not change,
        drop the snapshot and stop; otherwise spawn a tile, check for a win
        and for the end of the game, and count towards the next interstitial.
        The game-over flag is not consulted here (the input handlers do). */
    method Move(dir: Direction, pick: nat, roll: Roll)
      requires Valid()
      modifies this
      ensures Valid()
      ensures score >= old(score)
      ensures Slide(old(tiles), dir) == old(tiles) ==>
        && tiles == old(tiles) && score == old(score)
        && history == (if |old(history)| < HistoryLimit then old(history) else old(history)[1..])
        && won == old(won) && gameOver == old(gameOver) && bestScore == old(bestScore)
        && interstitialCount == old(interstitialCount)
      ensures Slide(old(tiles), dir) != old(tiles) ==>
        && tiles == Place(Slide(old(tiles), dir), pick, TileValue(|history|, roll))
        && score == old(score) + SlideGain(old(tiles), dir)
        && history == Pushed(old(history), Snapshot(old(tiles), old(score)))
        && won == (old(won) || WinningTile in tiles)
        && gameOver == (old(gameOver) || !CanMoveOn(tiles))
        && (CanMoveOn(tiles) ==> bestScore == old(bestScore))
        && (!CanMoveOn(tiles) ==> IsMaxOf(bestScore, old(bestScore), score))
        && interstitialCount == NextCount(old(interstitialCount))
    {
      SaveHistory();
      var oldTiles := tiles;
      Shift(dir);
      if oldTiles == tiles {
        PushThenPop(old(history), Snapshot(oldTiles, old(score)));
        history := history[..|history| - 1];
        return;
      }
      assert Slide(oldTiles, dir) != oldTiles;
      assert interstitialCount == old(interstitialCount) && won == old(won);
      assert gameOver == old(gameOver) && bestScore == old(bestScore);
      FinishMove(pick, roll);
    }

    /** The rest of `move` once the board has changed: spawn a tile, check
        the game status and count towards the next interstitial. */
    method FinishMove(pick: nat, roll: Roll)
      requires Valid()
      modifies this`won, this`gameOver, this`bestScore, this`interstitialCount, this`tiles
      ensures Valid()
      ensures tiles == Place(old(tiles), pick, TileValue(|history|, roll))
      ensures won == (old(won) || WinningTile in tiles)
      ensures gameOver == (old(gameOver) || !CanMoveOn(tiles))
      ensures CanMoveOn(tiles) ==> bestScore == old(bestScore)
      ensures !CanMoveOn(tiles) ==> IsMaxOf(bestScore, old(bestScore), score)
      ensures interstitialCount == NextCount(old(interstitialCount))
    {
      AddNewTile(pick, roll);
      CheckGameStatus();
      interstitialCount := interstitialCount + 1;
      if interstitialCount >= InterstitialEvery {
        interstitialCount := 0;
      }
    }

    /** The `switch` of `move` over the four directions. */
    method Shift(dir: Direction)
      requires Valid()
      modifies this`score, this`tiles
      ensures Valid()
      ensures tiles == Slide(old(tiles), dir)
      ensures score == old(score) + SlideGain(old(tiles), dir)
      ensures score >= old(score)
      ensures tiles == old(tiles) ==> score == old(score)
    {
      ghost var g := tiles;
      SlideKeepsTiles(tiles, dir);
      SlideLinesGainNonNegative(tiles, AxisOf(dir), IsReversed(dir), Size);
      match dir {
        case Left => MoveLines(Horizontal, false);
        case Right => MoveLines(Horizontal, true);
        case Up => MoveLines(Vertical, false);
        case Down => MoveLines(Vertical, true);
      }
      if tiles == g {
        UnchangedSlideEarnsNothing(g, dir);
      }
    }

    /** `moveLeft`, `moveRight`, `moveUp`, `moveDown`: every row (horizontal)
        or column (vertical) is read, merged (between two reversals when
        `reversed`) and written back. */
    method MoveLines(axis: Axis, reversed: bool)
      requires |tiles| == Cells
      modifies this`score, this`tiles
      ensures tiles == SlideLines(old(tiles), axis, reversed, Size)
      ensures score == old(score) + SlideLinesGain(old(tiles), axis, reversed, Size)
    {
      ghost var g := tiles;
      assert g == SlideLines(g, axis, reversed, 0);
      for index := 0 to Size
        invariant tiles == SlideLines(g, axis, reversed, index)
        invariant score == old(score) + SlideLinesGain(g, axis, reversed, index)
      {
        SlideLinesUntouched(g, axis, reversed, index, index);
        var line := GetLine(index, axis);
        if reversed {
          line := Reverse(line);
        }
        var merged := MergeLine(line);
        if reversed {
          merged := Reverse(merged);
        }
        SlideLinesStep(g, axis, reversed, index);
        SetLine(index, merged, axis);
      }
    }

    /** `getLine`: the cells of row or column `index`. */
    method GetLine(index: nat, axis: Axis) returns (line: seq<int>)
      requires |tiles| == Cells && index < Size
      ensures line == LineOf(tiles, index, axis)
    {
      line := [];
      for k := 0 to Size
        invariant line == LineOf(tiles, index, axis)[..k]
      {
        line := line + [tiles[CellOf(index, k, axis)]];
      }
    }

    /** `setLine`: overwrite the cells of row or column `index`. */
    method SetLine(index: nat, line: seq<int>, axis: Axis)
      requires |tiles| == Cells && index < Size && |line| == Size
      modifies this`tiles
      ensures tiles == WriteLine(old(tiles), index, line, axis)
    {
      for k := 0 to Size
        invariant |tiles| == Cells
        invariant forall c :: 0 <= c < Cells ==>
          tiles[c] == if LineIndex(c, axis) == index && PositionOf(c, axis) < k
                      then line[PositionOf(c, axis)] else old(tiles[c])
      {
        tiles := tiles[CellOf(index, k, axis) := line[k]];
      }
    }

    /** `mergeLine`: drop the empty cells, make one left-to-right merge pass
        that splices out the second cell of every merged pair and adds the
        merged value to the score, then pad with empty cells. */
    method MergeLine(line: seq<int>) returns (merged: seq<int>)
      modifies this`score
      ensures merged == Merged(line)
      ensures score == old(score) + Gain(Compress(line))
    {
      merged := Compress(line);
      ghost var compressed := merged;
      var i := 0;
      while i < |merged| - 1
        invariant 0 <= i <= |merged|
        invariant merged[..i] + MergePass(merged[i..]) == MergePass(compressed)
        invariant score == old(score) + Gain(compressed) - Gain(merged[i..])
        decreases |merged| - i
      {
        ghost var before := merged;
        if merged[i] == merged[i + 1] {
          merged := merged[i := merged[i] * 2];
          score := score + merged[i];
          merged := merged[..i + 1] + merged[i + 2..];
          MergeStepPair(before, i, merged);
        } else {
          MergeStepSkip(merged, i);
        }
        i := i + 1;
      }
      MergeDone(merged, i, MergePass(compressed));
      ghost var passed := merged;
      while |merged| < Size
        invariant merged == passed + Zeros(|merged| - |passed|)
        invariant |merged| <= Size || merged == passed
        decreases Size - |merged|
      {
        merged := merged + [0];
      }
    }

    /** `addNewTile`: put a 2 or a 4 in one empty cell, if there is one; the
        chance of a 2 depends on the length of the history. */
    method AddNewTile(pick: nat, roll: Roll)
      requires Valid()
      modifies this`tiles
      ensures Valid()
      ensures tiles == Place(old(tiles), pick, TileValue(|history|, roll))
    {
      var emptyIndices := EmptyCells(tiles);
      if |emptyIndices| == 0 {
        return;
      }
      var randomIndex := emptyIndices[pick % |emptyIndices|];
      var prob2 := Tier(|history|);
      tiles := tiles[randomIndex := if roll < prob2 then 2 else 4];
      assert IsTile(2) && IsTile(4);
    }

    /** `checkGameStatus`: raise `won` when a 2048 tile is on the board, and
        end the game, recording the best score, when no move is possible. */
    method CheckGameStatus()
      requires Valid()
      modifies this`won, this`gameOver, this`bestScore
      ensures won == (old(won) || WinningTile in tiles)
      ensures gameOver == (old(gameOver) || !CanMoveOn(tiles))
      ensures CanMoveOn(tiles) ==> bestScore == old(bestScore)
      ensures !CanMoveOn(tiles) ==> IsMaxOf(bestScore, old(bestScore), score)
    {
      if WinningTile in tiles && !won {
        won := true;
      }
      var movable := CanMove();
      if !movable {
        gameOver := true;
        UpdateBestScore();
      }
    }

    /** `canMove`: an empty cell, or a cell equal to its right or lower
        neighbour, where that neighbour exists. */
    method CanMove() returns (movable: bool)
      requires |tiles| == Cells
      ensures movable == CanMoveOn(tiles)
    {
      if 0 in tiles {
        return true;
      }
      for row := 0 to Size
        invariant forall r, c :: 0 <= r < row && 0 <= c < Size ==> !MergeableAt(tiles, r, c)
      {
        for col := 0 to Size
          invariant forall r, c :: 0 <= r < row && 0 <= c < Size ==> !MergeableAt(tiles, r, c)
          invariant forall c :: 0 <= c < col ==> !MergeableAt(tiles, row, c)
        {
          var current := tiles[row * 4 + col];
          var right := if col < Size - 1 then Some(tiles[row * 4 + col + 1]) else None;
          var down := if row < Size - 1 then Some(tiles[(row + 1) * 4 + col]) else None;
          if right == Some(current) || down == Some(current) {
            assert MergeableAt(tiles, row, col);
            return true;
          }
        }
      }
      return false;
    }

    /** The comparison of `updateBestScore`: keep the larger of the best
        score and the score. */
    method UpdateBestScore()
      modifies this`bestScore
      ensures IsMaxOf(bestScore, old(bestScore), score)
    {
      if score > bestScore {
        bestScore := score;
      }
    }

    /** `handleKeyboard`: an arrow key moves, unless the game is over. */
    method HandleKeyboard(key: string, pick: nat, roll: Roll)
      requires Valid()
      modifies this
      ensures Valid()
      ensures old(gameOver) || KeyDirection(key) == None ==>
        && tiles == old(tiles) && score == old(score) && history == old(history)
        && won == old(won) && gameOver == old(gameOver) && bestScore == old(bestScore)
        && interstitialCount == old(interstitialCount)
      ensures score >= old(score)
    {
      if gameOver {
        return;
      }
      var direction := KeyDirection(key);
      if direction.Some? {
        Move(direction.value, pick, roll);
      }
    }

    /** `handleSwipe`: a long enough swipe moves, unless the game is over. */
    method HandleSwipe(startX: int, startY: int, endX: int, endY: int, pick: nat, roll: Roll)
      requires Valid()
      modifies this
      ensures Valid()
      ensures old(gameOver) || SwipeDirection(endX - startX, endY - startY) == None ==>
        && tiles == old(tiles) && score == old(score) && history == old(history)
        && won == old(won) && gameOver == old(gameOver) && bestScore == old(bestScore)
        && interstitialCount == old(interstitialCount)
      ensures score >= old(score)
    {
      if gameOver {
        return;
      }
      var direction := SwipeDirection(endX - startX, endY - startY);
      if direction.Some? {
        Move(direction.value, pick, roll);
      }
    }
  }

  /** Undo right after a move that changed the board gives back the board and
      the score from before the move; the history is as before too, unless it
      was full, in which case its oldest entry has been lost. */
  method UndoAfterMove(game: Game, dir: Direction, pick: nat, roll: Roll)
    requires game.Valid() && Slide(game.tiles, dir) != game.tiles
    modifies game
    ensures game.Valid()
    ensures game.tiles == old(game.tiles) && game.score == old(game.score)
    ensures !game.gameOver
    ensures game.history == if |old(game.history)| < HistoryLimit then old(game.history) else old(game.history)[1..]
  {
    ghost var h := game.history;
    ghost var s := Snapshot(game.tiles, game.score);
    PushThenPop(h, s);
    game.Move(dir, pick, roll);
    game.Undo();
  }
}
