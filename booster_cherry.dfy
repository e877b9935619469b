/**
 * The cherry booster of the snake game (`BoosterCherryModel`): one item on
 * the grid in the cherry's color, which makes the snake grow by one segment
 * when eaten. Growing prepends a copy of the tail's position to the segment
 * array, so the new tail stays put for one move while the rest of the body
 * goes on.
 */
module Cherry {
  import opened Snake

  /**
   * The segments after growing: a new tail at the old tail's cell, in the
   * snake's color, in front of the old segments.
   */
  function Grown(s: seq<seq<int>>): (r: seq<seq<int>>)
    requires Segmented(s) && |s| > 0
    ensures |r| == |s| + 1 && Segmented(r)
    ensures r[0] == [s[0][Y], s[0][X], ColorSnake]
    ensures r[1..] == s
  {
    [[s[0][Y], s[0][X], ColorSnake]] + s
  }

  /** A grown snake lies on the grid whenever the old one did. */
  lemma GrownOnGrid(s: seq<seq<int>>, n: int)
    requires Segmented(s) && |s| > 0 && OnGrid(s, n)
    ensures OnGrid(Grown(s), n)
  {
    var r := Grown(s);
    forall i | 0 <= i < |r|
      ensures 0 <= r[i][Y] < n && 0 <= r[i][X] < n
    {
      if i > 0 {
        assert r[i] == s[i - 1];
      }
    }
  }

  /** Row `i` of a moved body, written out. */
  lemma ShiftedRow(s: seq<seq<int>>, i: nat)
    requires Segmented(s) && i < |s|
    ensures ShiftedBody(s)[i] == if i < |s| - 1 then s[i][Y := s[i + 1][Y]][X := s[i + 1][X]] else s[i]
  {
  }

  /** Writing a segment's own coordinates into it changes nothing. */
  lemma SameCell(row: seq<int>, y: int, x: int)
    requires |row| >= ItemsPartContent && row[Y] == y && row[X] == x
    ensures row[Y := y][X := x] == row
  {
  }

  /** Row `i` of `GrowThenShift`, for a row that follows another. */
  lemma GrowThenShiftRow(s: seq<seq<int>>, i: nat)
    requires Segmented(s) && 0 < i < |s|
    ensures ShiftedBody(Grown(s))[i] == ShiftedBody(s)[i - 1]
  {
    var g := Grown(s);
    ShiftedRow(g, i);
    ShiftedRow(s, i - 1);
    assert g[i] == s[i - 1] && g[i + 1] == s[i];
  }

  /**
   * Growing and then moving the body is moving the body and leaving one more
   * segment, in the snake's color, where the tail was: the snake is longer by
   * exactly the cell it has just left.
   */
  lemma GrowThenShift(s: seq<seq<int>>)
    requires Segmented(s) && |s| > 0
    ensures ShiftedBody(Grown(s)) == [[s[0][Y], s[0][X], ColorSnake]] + ShiftedBody(s)
  {
    var l, r := ShiftedBody(Grown(s)), [[s[0][Y], s[0][X], ColorSnake]] + ShiftedBody(s);
    var g, t := Grown(s), ShiftedBody(s);
    assert l[0] == r[0] by {
      ShiftedRow(g, 0);
      assert g[1] == s[0];
      SameCell(g[0], s[0][Y], s[0][X]);
    }
    assert l[|s|] == r[|s|] by {
      ShiftedRow(g, |s|);
      ShiftedRow(s, |s| - 1);
      assert g[|s|] == s[|s| - 1];
    }
    forall i | 0 < i < |s|
      ensures l[i] == r[i]
    {
      GrowThenShiftRow(s, i);
    }
  }

  /** The cherry booster: its one item and its color. */
  class BoosterCherryModel {
    /** One item of position and color, all zero until the game places it. */
    var cherry: array<array<int>>
    const boosterColor: int := ColorCherry

    constructor ()
      ensures cherry.Length == 1 && fresh(cherry) && fresh(cherry[0])
      ensures cherry[0][..] == [0, 0, 0]
    {
      var item := NewRows(1, ItemsPartContent);
      cherry := item;
    }

    /**
     * Adds a segment to the snake of `m`: a new array one longer, holding the
     * old segments from index 1 on and, at index 0, a new tail at the old
     * tail's cell in the snake's color. Nothing else of `m` changes; in
     * particular `headIndex` still names the old head's index, which is now
     * the segment behind the head.
     */
    method Grow(m: SnakeModel)
      requires m.snake != null && m.Valid()
      modifies m`snake
      ensures m.snake != null && fresh(m.snake) && m.Valid()
      ensures m.snake.Length == old(m.snake.Length) + 1 && fresh(m.snake[0])
      ensures forall i :: 0 <= i < old(m.snake.Length) ==> m.snake[i + 1] == old(m.snake[i])
      ensures Contents(m.snake) == Grown(old(Contents(m.snake)))
    {
      var snake := m.GetSnake();
      var expanded := Expanded(snake);
      m.SetSnake(expanded);
    }

    method GetBooster() returns (b: array<array<int>>)
      ensures b == cherry
    {
      b := cherry;
    }

    /** The cherry's color on the grid. */
    function GetBoosterColor(): (c: int)
      ensures c == ColorCherry
    {
      boosterColor
    }

    /** The cherry keeps no active state. */
    function IsBoosterActive(): (active: bool)
      ensures !active
    {
      false
    }
  }

  /**
   * The array `grow` builds from `snake`: fresh rows, the old rows copied in
   * from index 1 on, and a fresh new tail at index 0.
   */
  method Expanded(snake: array<array<int>>) returns (expanded: array<array<int>>)
    requires WellFormed(snake)
    ensures fresh(expanded) && expanded.Length == snake.Length + 1 && fresh(expanded[0])
    ensures forall i :: 0 <= i < snake.Length ==> expanded[i + 1] == snake[i]
    ensures WellFormed(expanded)
    ensures Contents(expanded) == Grown(Contents(snake))
  {
    expanded := NewRows(snake.Length + 1, ItemsPartContent);
    ArrayCopyShifted(snake, expanded);
    var tail := new int[ItemsPartContent];
    tail[0], tail[1], tail[2] := snake[0][0], snake[0][1], ColorSnake;
    expanded[0] := tail;
    assert tail[..] == [snake[0][Y], snake[0][X], ColorSnake];
    forall i, j | 0 <= i < j < expanded.Length
      ensures expanded[i] != expanded[j]
    {
      assert expanded[j] == snake[j - 1];
      if i > 0 {
        assert expanded[i] == snake[i - 1];
      }
    }
    forall i | 0 <= i < expanded.Length
      ensures expanded[i].Length >= ItemsPartContent
    {
      if i > 0 {
        assert expanded[i] == snake[i - 1];
      }
    }
  }

  /** `System.arraycopy(src, 0, dst, 1, src.Length)`: the rows of `src` into `dst` from index 1 on. */
  method ArrayCopyShifted(src: array<array<int>>, dst: array<array<int>>)
    requires dst.Length == src.Length + 1 && src != dst
    modifies dst
    ensures dst[0] == old(dst[0])
    ensures forall i :: 0 <= i < src.Length ==> dst[i + 1] == src[i]
  {
    var i := 0;
    while i < src.Length
      invariant 0 <= i <= src.Length
      invariant dst[0] == old(dst[0])
      invariant forall k :: 0 <= k < i ==> dst[k + 1] == src[k]
    {
      dst[i + 1] := src[i];
      i := i + 1;
    }
  }
}
