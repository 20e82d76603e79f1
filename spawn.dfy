/** Spawning a tile (`addNewTile`): the empty cells of the board, the
    placement of a new tile in one of them, and the chance that the new tile
    is a 2.  The two `Math.random()` calls of `addNewTile` are parameters
    here: `pick` chooses among the empty cells (reduced modulo their number,
    as `addNewTile` scales its draw to that number), and a percentile draw
    `roll` in 0..99 gives a 2 when it falls below the chance for the current
    move. */
module Spawn {
  import opened Lines

  /** A percentile draw standing for one `Math.random()` call. */
  type Roll = r: nat | r < 100

  /** Indices of the empty cells, in increasing order (the `map`/`filter`
      over the tiles). */
  function EmptyCells(g: seq<int>): (r: seq<nat>)
    ensures forall k :: 0 <= k < |r| ==> r[k] < |g|
  {
    if g == [] then []
    else
      var last := |g| - 1;
      EmptyCells(g[..last]) + (if g[last] == 0 then [last] else [])
  }

  /** The board with a new tile of value v in the empty cell that `pick`
      selects; a board without an empty cell is left as it is. */
  function Place(g: seq<int>, pick: nat, v: int): (r: seq<int>)
    ensures |r| == |g|
  {
    var empty := EmptyCells(g);
    if |empty| == 0 then g else g[empty[pick % |empty|] := v]
  }

  /** Percent chance that a spawned tile is a 2, by the number of entries in
      the undo history at the time of spawning. */
  function Tier(moveCount: int): int
  {
    if moveCount <= 3 then 95
    else if moveCount <= 10 then 90
    else 85
  }

  /** The value of a spawned tile: 2 when the draw falls below the chance. */
  function TileValue(moveCount: int, roll: Roll): int
  {
    if roll < Tier(moveCount) then 2 else 4
  }

  /** Number of draws below n that give a 2. */
  function CountTwos(moveCount: int, n: nat): nat
    requires n <= 100
  {
    if n == 0 then 0
    else CountTwos(moveCount, n - 1) + (if TileValue(moveCount, n - 1) == 2 then 1 else 0)
  }

  function CountNonZero(g: seq<int>): nat
  {
    if g == [] then 0 else CountNonZero(g[..|g| - 1]) + (if g[|g| - 1] != 0 then 1 else 0)
  }

  // ---------------------------------------------------------------------
  // Lemmas

  /** Every cell EmptyCells lists is empty. */
  lemma {:induction false} EmptyCellsAreEmpty(g: seq<int>)
    ensures forall k :: 0 <= k < |EmptyCells(g)| ==> g[EmptyCells(g)[k]] == 0
  {
    if g != [] {
      var last := |g| - 1;
      var front := g[..last];
      EmptyCellsAreEmpty(front);
      var p := EmptyCells(front);
      var r := EmptyCells(g);
      forall k | 0 <= k < |r|
        ensures g[r[k]] == 0
      {
        if k < |p| {
          assert r[k] == p[k] && g[p[k]] == front[p[k]];
        }
      }
    }
  }

  /** Every empty cell is listed by EmptyCells. */
  lemma {:induction false} EmptyCellsCoverEmpty(g: seq<int>)
    ensures forall c :: 0 <= c < |g| && g[c] == 0 ==> c in EmptyCells(g)
  {
    if g != [] {
      var last := |g| - 1;
      var front := g[..last];
      EmptyCellsCoverEmpty(front);
      var p := EmptyCells(front);
      var r := EmptyCells(g);
      forall c | 0 <= c < |g| && g[c] == 0
        ensures c in r
      {
        if c < last {
          assert front[c] == 0;
          var j :| 0 <= j < |p| && p[j] == c;
          assert r[j] == c;
        } else {
          assert r[|r| - 1] == c;
        }
      }
    }
  }

  /** EmptyCells lists the cells in increasing order, so each once. */
  lemma {:induction false} EmptyCellsIncreasing(g: seq<int>)
    ensures forall k, m :: 0 <= k < m < |EmptyCells(g)| ==> EmptyCells(g)[k] < EmptyCells(g)[m]
  {
    if g != [] {
      var last := |g| - 1;
      var front := g[..last];
      EmptyCellsIncreasing(front);
      var p := EmptyCells(front);
      var r := EmptyCells(g);
      forall k, m | 0 <= k < m < |r|
        ensures r[k] < r[m]
      {
        assert r[k] == p[k];
        if m < |p| {
          assert r[m] == p[m];
        }
      }
    }
  }

  /** Placing changes no cell except to the new value. */
  lemma PlaceWritesOnlyValue(g: seq<int>, pick: nat, v: int)
    ensures forall c :: 0 <= c < |g| ==> Place(g, pick, v)[c] == g[c] || Place(g, pick, v)[c] == v
  {
  }

  /** A spawned tile is always a 2 or a 4. */
  lemma TileValueIsTwoOrFour(moveCount: int, roll: Roll)
    ensures TileValue(moveCount, roll) in {2, 4}
  {
  }

  /** Of the 100 equally likely draws exactly Tier(moveCount) give a 2, so the
      tier is the percent chance of a 2. */
  lemma {:induction false} TierIsChanceOfTwo(moveCount: int, n: nat)
    requires n <= 100
    ensures CountTwos(moveCount, n) == if n <= Tier(moveCount) then n else Tier(moveCount)
  {
    if n > 0 {
      TierIsChanceOfTwo(moveCount, n - 1);
    }
  }

  /** The undo history never holds more than 10 entries, so the 85 percent
      tier is never reached: 95 percent up to 3 entries, 90 percent beyond. */
  lemma TierWithinHistoryLimit(moveCount: int)
    requires 0 <= moveCount <= 10
    ensures Tier(moveCount) == if moveCount <= 3 then 95 else 90
    ensures Tier(moveCount) != 85
  {
  }

  /** A board has an empty cell exactly when there is somewhere to spawn. */
  lemma EmptyCellsExist(g: seq<int>)
    ensures |EmptyCells(g)| > 0 <==> 0 in g
  {
    EmptyCellsCoverEmpty(g);
    if 0 in g {
      var c :| 0 <= c < |g| && g[c] == 0;
      assert c in EmptyCells(g);
    }
  }

  /** On a board with an empty cell, placing a tile changes exactly one cell,
      which was empty and now holds v; on a full board nothing changes. */
  lemma PlaceFillsOneEmptyCell(g: seq<int>, pick: nat, v: int)
    ensures 0 !in g ==> Place(g, pick, v) == g
    ensures 0 in g ==> exists c :: 0 <= c < |g| && g[c] == 0 && Place(g, pick, v) == g[c := v]
  {
    EmptyCellsExist(g);
    EmptyCellsAreEmpty(g);
    var empty := EmptyCells(g);
    if 0 in g {
      var c := empty[pick % |empty|];
      assert 0 <= c < |g| && g[c] == 0 && Place(g, pick, v) == g[c := v];
    }
  }

  /** Kept as a lemma of its own: the remainder by a non-constant divisor
      is stated once, away from the sequences of the lemma that uses it. */
  lemma ModOfSmaller(k: nat, n: nat)
    requires k < n
    ensures k % n == k
  {
  }

  /** Every empty cell can receive the new tile: some draw selects it. */
  lemma EveryEmptyCellCanBePicked(g: seq<int>, c: nat, v: int)
    requires c < |g| && g[c] == 0
    ensures exists pick: nat :: Place(g, pick, v) == g[c := v]
  {
    var empty := EmptyCells(g);
    assert c in empty by {
      EmptyCellsCoverEmpty(g);
    }
    var k :| 0 <= k < |empty| && empty[k] == c;
    ModOfSmaller(k, |empty|);
    assert Place(g, k, v) == g[c := v];
  }

  lemma {:induction false} CountNonZeroUpdate(g: seq<int>, c: nat, v: int)
    requires c < |g| && g[c] == 0 && v != 0
    ensures CountNonZero(g[c := v]) == CountNonZero(g) + 1
    decreases |g|
  {
    var last := |g| - 1;
    var h := g[c := v];
    assert h[..last] == if c == last then g[..last] else g[..last][c := v];
    if c < last {
      CountNonZeroUpdate(g[..last], c, v);
    }
  }

  /** Spawning adds exactly one tile to a board that has an empty cell. */
  lemma PlaceAddsOneTile(g: seq<int>, pick: nat, v: int)
    requires 0 in g && v != 0
    ensures CountNonZero(Place(g, pick, v)) == CountNonZero(g) + 1
  {
    PlaceFillsOneEmptyCell(g, pick, v);
    var c :| 0 <= c < |g| && g[c] == 0 && Place(g, pick, v) == g[c := v];
    CountNonZeroUpdate(g, c, v);
  }

  lemma {:induction false} CountNonZeroZeros(k: nat)
    ensures CountNonZero(Zeros(k)) == 0
  {
    if k > 0 {
      assert Zeros(k)[..k - 1] == Zeros(k - 1);
      CountNonZeroZeros(k - 1);
    }
  }

  /** A new game starts with exactly two tiles, each a 2 or a 4. */
  lemma InitialBoardHasTwoTiles(n: nat, pick1: nat, v1: int, pick2: nat, v2: int)
    requires n >= 2 && v1 in {2, 4} && v2 in {2, 4}
    ensures var g := Place(Place(Zeros(n), pick1, v1), pick2, v2);
      CountNonZero(g) == 2 && forall c :: 0 <= c < n ==> g[c] in {0, 2, 4}
  {
    var z := Zeros(n);
    CountNonZeroZeros(n);
    assert z[0] == 0;
    var g1 := Place(z, pick1, v1);
    PlaceAddsOneTile(z, pick1, v1);
    assert 0 in g1 by {
      PlaceFillsOneEmptyCell(z, pick1, v1);
      var c1 :| 0 <= c1 < n && z[c1] == 0 && g1 == z[c1 := v1];
      assert g1[if c1 == 0 then 1 else 0] == 0;
    }
    PlaceAddsOneTile(g1, pick2, v2);
    PlaceWritesOnlyValue(z, pick1, v1);
    PlaceWritesOnlyValue(g1, pick2, v2);
  }
}
