/** The line transform of the 2048 engine: what `mergeLine` does to one row
    or column, and the reversal that the right and down moves wrap around it.
    A line is a sequence of cell values; 0 stands for an empty cell. */
module Lines {

  /** Every line of the 4 x 4 board has this many cells. */
  const Size: nat := 4

  /** Sum of the values of a line. */
  function Sum(s: seq<int>): int
  {
    if s == [] then 0 else s[0] + Sum(s[1..])
  }

  /** k empty cells. */
  function Zeros(k: nat): seq<int>
  {
    seq(k, _ => 0)
  }

  predicate NoZeros(s: seq<int>)
  {
    forall k :: 0 <= k < |s| ==> s[k] != 0
  }

  /** No two neighbouring cells hold the same value. */
  predicate NoAdjacentEqual(s: seq<int>)
  {
    forall k :: 0 <= k < |s| - 1 ==> s[k] != s[k + 1]
  }

  predicate IsPowerOfTwo(v: int)
    decreases if v < 0 then 0 else v
  {
    v == 1 || (v >= 2 && v % 2 == 0 && IsPowerOfTwo(v / 2))
  }

  /** A cell value the game can produce: empty, or a power of two from 2 up. */
  predicate IsTile(v: int)
  {
    v == 0 || (v >= 2 && IsPowerOfTwo(v))
  }

  predicate AllTiles(s: seq<int>)
  {
    forall k :: 0 <= k < |s| ==> IsTile(s[k])
  }

  /** The `filter` step: drops the empty cells and keeps the others in order. */
  function Compress(s: seq<int>): (r: seq<int>)
    ensures |r| <= |s|
  {
    if s == [] then []
    else if s[0] == 0 then Compress(s[1..])
    else [s[0]] + Compress(s[1..])
  }

  /** The merge loop over a compressed line: a pair of equal neighbours becomes
      one cell of twice the value, and the scan resumes after that cell, so a
      cell produced by a merge is never merged again in the same pass.  Every
      output cell absorbs one or two input cells. */
  function MergePass(s: seq<int>): (r: seq<int>)
    ensures |r| <= |s| <= 2 * |r|
  {
    if |s| < 2 then s
    else if s[0] == s[1] then [2 * s[0]] + MergePass(s[2..])
    else [s[0]] + MergePass(s[1..])
  }

  /** What the merge loop adds to the score: the value of every merged cell. */
  function Gain(s: seq<int>): int
  {
    if |s| < 2 then 0
    else if s[0] == s[1] then 2 * s[0] + Gain(s[2..])
    else Gain(s[1..])
  }

  /** The padding loop: appends empty cells up to the line size. */
  function Pad(s: seq<int>): seq<int>
  {
    if |s| < Size then s + Zeros(Size - |s|) else s
  }

  /** The whole of `mergeLine`: compress, one merge pass, pad. */
  function Merged(line: seq<int>): (r: seq<int>)
    ensures |line| <= Size ==> |r| == Size
  {
    Pad(MergePass(Compress(line)))
  }

  /** Reversal of a line, as the right and down moves use it. */
  function Reverse(s: seq<int>): (r: seq<int>)
    ensures |r| == |s|
    ensures forall k :: 0 <= k < |s| ==> r[k] == s[|s| - 1 - k]
  {
    if s == [] then [] else Reverse(s[1..]) + [s[0]]
  }

  /** One line of a move: merged as it is for left and up, merged between two
      reversals for right and down. */
  function SlideLine(line: seq<int>, reversed: bool): (r: seq<int>)
    ensures |line| == Size ==> |r| == Size
  {
    if reversed then Reverse(Merged(Reverse(line))) else Merged(line)
  }

  /** What one line of a move adds to the score. */
  function LineGain(line: seq<int>, reversed: bool): int
  {
    Gain(Compress(if reversed then Reverse(line) else line))
  }

  // ---------------------------------------------------------------------
  // Lemmas about the line transform

  lemma {:induction false} SumAppend(a: seq<int>, b: seq<int>)
    ensures Sum(a + b) == Sum(a) + Sum(b)
  {
    if a == [] {
      assert a + b == b;
    } else {
      assert (a + b)[0] == a[0] && (a + b)[1..] == a[1..] + b;
      SumAppend(a[1..], b);
    }
  }

  lemma {:induction false} SumZeros(k: nat)
    ensures Sum(Zeros(k)) == 0
  {
    if k > 0 {
      assert Zeros(k)[1..] == Zeros(k - 1);
      SumZeros(k - 1);
    }
  }

  /** Compressing leaves no empty cell and keeps the total value; a line
      without empty cells is left as it is, and board values stay board
      values. */
  lemma {:induction false} CompressKeeps(s: seq<int>)
    ensures NoZeros(Compress(s))
    ensures Sum(Compress(s)) == Sum(s)
    ensures NoZeros(s) ==> Compress(s) == s
    ensures AllTiles(s) ==> AllTiles(Compress(s))
  {
    if s != [] {
      CompressKeeps(s[1..]);
      if s[0] != 0 {
        assert ([s[0]] + Compress(s[1..]))[1..] == Compress(s[1..]);
        assert NoZeros(s) ==> [s[0]] + s[1..] == s;
      }
    }
  }

  lemma {:induction false} CompressAppendZeros(p: seq<int>, k: nat)
    requires NoZeros(p)
    ensures Compress(p + Zeros(k)) == p
  {
    if p == [] {
      CompressZeros(k);
      assert p + Zeros(k) == Zeros(k);
    } else {
      assert (p + Zeros(k))[1..] == p[1..] + Zeros(k);
      CompressAppendZeros(p[1..], k);
    }
  }

  lemma {:induction false} CompressZeros(k: nat)
    ensures Compress(Zeros(k)) == []
  {
    if k > 0 {
      assert Zeros(k)[1..] == Zeros(k - 1);
      CompressZeros(k - 1);
    }
  }

  /** The filter distributes over concatenation: what it keeps of a + b is
      what it keeps of a followed by what it keeps of b.  With
      CompressMultiset (for a one-cell line) this pins Compress down as the
      filter that keeps the non-empty cells as they are and in order. */
  lemma {:induction false} CompressAppend(a: seq<int>, b: seq<int>)
    ensures Compress(a + b) == Compress(a) + Compress(b)
  {
    if a == [] {
      assert a + b == b;
    } else {
      assert (a + b)[1..] == a[1..] + b;
      CompressAppend(a[1..], b);
    }
  }

  /** The filter keeps every non-empty cell, as many times as it occurs, and
      no empty cell. */
  lemma {:induction false} CompressMultiset(s: seq<int>)
    ensures multiset(Compress(s)) == multiset(s)[0 := 0]
  {
    if s != [] {
      CompressMultiset(s[1..]);
      assert s == [s[0]] + s[1..];
    }
  }

  /** Merges never lower the score on a line of non-negative values. */
  lemma {:induction false} GainNonNegative(s: seq<int>)
    requires forall k :: 0 <= k < |s| ==> s[k] >= 0
    ensures Gain(s) >= 0
  {
    if |s| >= 2 {
      if s[0] == s[1] { GainNonNegative(s[2..]); } else { GainNonNegative(s[1..]); }
    }
  }

  /** The merge pass keeps the total value of the line. */
  lemma {:induction false} MergePassSum(s: seq<int>)
    ensures Sum(MergePass(s)) == Sum(s)
  {
    if |s| >= 2 {
      var r := MergePass(s);
      if s[0] == s[1] {
        MergePassSum(s[2..]);
        assert s[1..][1..] == s[2..];
        assert r[1..] == MergePass(s[2..]);
      } else {
        MergePassSum(s[1..]);
        assert r[1..] == MergePass(s[1..]);
      }
    }
  }

  /** The merge pass creates no empty cell. */
  lemma {:induction false} MergePassNoZeros(s: seq<int>)
    requires NoZeros(s)
    ensures NoZeros(MergePass(s))
  {
    if |s| >= 2 {
      var r := MergePass(s);
      if s[0] == s[1] {
        MergePassNoZeros(s[2..]);
        assert r[1..] == MergePass(s[2..]);
      } else {
        MergePassNoZeros(s[1..]);
        assert r[1..] == MergePass(s[1..]);
      }
    }
  }

  /** The merge pass turns board values into board values. */
  lemma {:induction false} MergePassTiles(s: seq<int>)
    requires AllTiles(s)
    ensures AllTiles(MergePass(s))
  {
    if |s| >= 2 {
      var r := MergePass(s);
      if s[0] == s[1] {
        MergePassTiles(s[2..]);
        assert r[1..] == MergePass(s[2..]);
        assert IsTile(2 * s[0]);
      } else {
        MergePassTiles(s[1..]);
        assert r[1..] == MergePass(s[1..]);
      }
    }
  }

  /** The three facts above together, as the callers use them. */
  lemma MergePassKeeps(s: seq<int>)
    ensures Sum(MergePass(s)) == Sum(s)
    ensures NoZeros(s) ==> NoZeros(MergePass(s))
    ensures AllTiles(s) ==> AllTiles(MergePass(s))
  {
    MergePassSum(s);
    if NoZeros(s) {
      MergePassNoZeros(s);
    }
    if AllTiles(s) {
      MergePassTiles(s);
    }
  }

  /** Without equal neighbours the pass changes nothing and earns nothing. */
  lemma {:induction false} PassWithoutPairs(s: seq<int>)
    requires NoAdjacentEqual(s)
    ensures MergePass(s) == s && Gain(s) == 0
  {
    if |s| >= 2 {
      assert s[0] != s[1];
      PassWithoutPairs(s[1..]);
      assert [s[0]] + s[1..] == s;
    }
  }

  /** With a pair of equal neighbours the pass merges at least once, so the
      line gets shorter. */
  lemma {:induction false} PassWithPair(s: seq<int>)
    requires !NoAdjacentEqual(s)
    ensures |MergePass(s)| < |s|
  {
    var k :| 0 <= k < |s| - 1 && s[k] == s[k + 1];
    if s[0] != s[1] {
      assert s[1..][k - 1] == s[1..][k];
      PassWithPair(s[1..]);
    }
  }

  /** The pass leaves its input unchanged exactly when no two neighbours are
      equal, and then it adds nothing to the score. */
  lemma PassUnchangedIff(s: seq<int>)
    ensures MergePass(s) == s <==> NoAdjacentEqual(s)
    ensures MergePass(s) == s ==> Gain(s) == 0
  {
    if NoAdjacentEqual(s) { PassWithoutPairs(s); } else { PassWithPair(s); }
  }

  /** Shape of the `mergeLine` result: its non-empty cells are the merged
      compressed line, in order, and all of them come before the empty cells;
      a line of the board's size stays that size; the sum of the values is
      kept. */
  lemma MergedShape(line: seq<int>)
    requires |line| <= Size
    ensures var r := Merged(line);
      && |r| == Size
      && Compress(r) == MergePass(Compress(line))
      && r == Compress(r) + Zeros(Size - |Compress(r)|)
      && Sum(r) == Sum(line)
  {
    var p := MergePass(Compress(line));
    CompressKeeps(line);
    MergePassKeeps(Compress(line));
    assert Merged(line) == p + Zeros(Size - |p|) by {
      if |p| == Size {
        assert p + Zeros(0) == p;
      }
    }
    CompressAppendZeros(p, Size - |p|);
    SumAppend(p, Zeros(Size - |p|));
    SumZeros(Size - |p|);
  }

  /** `mergeLine` returns its input exactly when the line is already packed to
      the front and has no two equal neighbours left. */
  lemma MergedUnchangedIff(line: seq<int>)
    requires |line| == Size
    ensures Merged(line) == line <==>
      line == Compress(line) + Zeros(Size - |Compress(line)|) && NoAdjacentEqual(Compress(line))
  {
    var c := Compress(line);
    MergedShape(line);
    PassUnchangedIff(c);
  }

  /** A line that `mergeLine` leaves unchanged earns no score. */
  lemma MergedUnchangedNoGain(line: seq<int>)
    requires |line| == Size && Merged(line) == line
    ensures Gain(Compress(line)) == 0
  {
    MergedUnchangedIff(line);
    PassUnchangedIff(Compress(line));
  }

  lemma ReverseReverse(s: seq<int>)
    ensures Reverse(Reverse(s)) == s
  {
  }

  lemma ReverseKeepsNoPairs(s: seq<int>)
    requires NoZeros(s) && NoAdjacentEqual(s)
    ensures NoZeros(Reverse(s)) && NoAdjacentEqual(Reverse(s))
  {
    var r := Reverse(s);
    forall k | 0 <= k < |r| - 1
      ensures r[k] != r[k + 1]
    {
      assert r[k] == s[|s| - 1 - k] && r[k + 1] == s[|s| - 2 - k];
      assert s[|s| - 2 - k] != s[|s| - 2 - k + 1];
    }
  }

  /** A line of a move that comes back unchanged earns no score, in either
      direction of travel. */
  lemma SlideLineUnchangedNoGain(line: seq<int>, reversed: bool)
    requires |line| == Size && SlideLine(line, reversed) == line
    ensures LineGain(line, reversed) == 0
  {
    if reversed {
      var rl := Reverse(line);
      ReverseReverse(Merged(rl));
      assert Merged(rl) == rl;
      MergedUnchangedNoGain(rl);
    } else {
      MergedUnchangedNoGain(line);
    }
  }

  /** A full line without equal neighbours is a fixed point of a move in
      either direction of travel. */
  lemma StuckLine(line: seq<int>, reversed: bool)
    requires |line| == Size && NoZeros(line) && NoAdjacentEqual(line)
    ensures SlideLine(line, reversed) == line
  {
    if reversed {
      var rl := Reverse(line);
      ReverseKeepsNoPairs(line);
      CompressKeeps(rl);
      PassWithoutPairs(rl);
      assert Merged(rl) == rl;
      ReverseReverse(line);
    } else {
      CompressKeeps(line);
      PassWithoutPairs(line);
    }
  }

  /** A full line with a pair of equal neighbours is changed by a move toward
      its start. */
  lemma FullLineWithPairChanges(line: seq<int>)
    requires |line| == Size && NoZeros(line) && !NoAdjacentEqual(line)
    ensures SlideLine(line, false) != line
  {
    MergedUnchangedIff(line);
  }

  /** The line transform maps board values to board values. */
  lemma SlideLineKeepsTiles(line: seq<int>, reversed: bool)
    requires AllTiles(line)
    ensures AllTiles(SlideLine(line, reversed))
  {
    var l := if reversed then Reverse(line) else line;
    assert AllTiles(l);
    var p := MergePass(Compress(l));
    CompressKeeps(l);
    MergePassKeeps(Compress(l));
    assert AllTiles(Pad(p));
  }

  /** Examples of the single merge pass: of
      three equal cells the pair nearer the direction of travel merges, and
      four equal cells give two merged cells, not one. */
  lemma MergeExampleThree()
    ensures Merged([2, 2, 2, 0]) == [4, 2, 0, 0]
    ensures SlideLine([2, 2, 2, 0], true) == [0, 0, 2, 4]
  {
    assert Compress([2, 2, 2, 0]) == [2, 2, 2] by {
      assert [2, 2, 2, 0][1..] == [2, 2, 0];
      assert [2, 2, 0][1..] == [2, 0];
      assert [2, 0][1..] == [0];
      assert [0][1..] == [];
    }
    assert MergePass([2, 2, 2]) == [4, 2] by {
      assert [2, 2, 2][2..] == [2];
      assert MergePass([2]) == [2];
    }
    assert Merged([2, 2, 2, 0]) == [4, 2, 0, 0];
    assert Reverse([2, 2, 2, 0]) == [0, 2, 2, 2];
    assert Compress([0, 2, 2, 2]) == [2, 2, 2] by {
      assert [0, 2, 2, 2][1..] == [2, 2, 2];
      assert [2, 2, 2][1..] == [2, 2];
      assert [2, 2][1..] == [2];
      assert [2][1..] == [];
    }
    assert Merged([0, 2, 2, 2]) == [4, 2, 0, 0];
    assert Reverse([4, 2, 0, 0]) == [0, 0, 2, 4];
  }

  lemma MergeExampleFour()
    ensures Merged([2, 2, 2, 2]) == [4, 4, 0, 0]
  {
    assert Compress([2, 2, 2, 2]) == [2, 2, 2, 2] by {
      assert NoZeros([2, 2, 2, 2]);
      CompressKeeps([2, 2, 2, 2]);
    }
    assert [2, 2, 2, 2][2..] == [2, 2];
    assert [2, 2][2..] == [];
    assert MergePass([2, 2, 2, 2]) == [4, 4];
  }

  lemma MergeExampleScore()
    ensures Merged([4, 4, 8, 8]) == [8, 16, 0, 0] && LineGain([4, 4, 8, 8], false) == 24
  {
    assert Compress([4, 4, 8, 8]) == [4, 4, 8, 8] by {
      assert NoZeros([4, 4, 8, 8]);
      CompressKeeps([4, 4, 8, 8]);
    }
    assert [4, 4, 8, 8][2..] == [8, 8];
    assert [8, 8][2..] == [];
    assert MergePass([4, 4, 8, 8]) == [8, 16];
    assert Gain([4, 4, 8, 8]) == 24;
  }
}
