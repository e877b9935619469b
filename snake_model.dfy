/**
 * The snake of the launcher's Snake game (`SnakeModel`).
 *
 * The snake is an array of segments, each a row `[y, x, color, ...]`; the
 * last row is the head when the game starts. The model moves the body, moves
 * the head one cell with wrap-around on a square grid, looks at the cell the
 * head lands in, and gates changes of direction.
 */
module Snake {
  import opened Support

  /** Number of segments a new snake has. */
  const InitialSnakeLength: nat := 10
  /** Entries of a segment that carry meaning: y, x and color. */
  const ItemsPartContent: nat := 3
  /** Grid values: snake body, cherry, snake head after a collision, speed booster. */
  const ColorSnake: int := 1
  const ColorCherry: int := 2
  const ColorSnakeHead: int := 3
  const ColorSpeed: int := 4
  /** Milliseconds between two moves when the game starts. */
  const SnakeTickDelay: int := 500

  /** Indices of the two coordinates in a segment. */
  const Y: nat := 0
  const X: nat := 1

  datatype Direction = Up | Down | Left | Right

  predicate Opposite(a: Direction, b: Direction) {
    || (a == Up && b == Down) || (a == Down && b == Up)
    || (a == Left && b == Right) || (a == Right && b == Left)
  }

  // ---------------------------------------------------------------------
  // Head steps on a grid of side n: Java's `(v + 1) % n` and `(v - 1 + n) % n`

  function StepForward(v: int, n: int): (r: int)
    requires n > 0
    ensures 0 <= v < n ==> 0 <= r < n
    ensures 0 <= v < n - 1 ==> r == v + 1
    ensures v == n - 1 ==> r == 0
  {
    JavaRem(v + 1, n)
  }

  function StepBack(v: int, n: int): (r: int)
    requires n > 0
    ensures 0 <= v < n ==> 0 <= r < n
    ensures 0 < v < n ==> r == v - 1
    ensures v == 0 ==> r == n - 1
  {
    JavaRem(v - 1 + n, n)
  }

  /** On the grid, a step back and a step forward undo each other. */
  lemma StepsUndo(v: int, n: int)
    requires 0 <= v < n
    ensures StepForward(StepBack(v, n), n) == v
    ensures StepBack(StepForward(v, n), n) == v
  {
  }

  /**
   * The coordinate a move in direction `d` changes (UP and DOWN change y,
   * LEFT and RIGHT change x) and whether it grows (DOWN, RIGHT).
   */
  function Axis(d: Direction): (a: nat)
    ensures a == Y || a == X
  {
    if d == Up || d == Down then Y else X
  }

  predicate Forward(d: Direction) {
    d == Down || d == Right
  }

  // ---------------------------------------------------------------------
  // The snake as a value: one sequence per segment

  /** Every segment holds at least y, x and color. */
  predicate Segmented(s: seq<seq<int>>) {
    forall i :: 0 <= i < |s| ==> |s[i]| >= ItemsPartContent
  }

  /** Every segment lies on the `n` by `n` grid. */
  predicate OnGrid(s: seq<seq<int>>, n: int)
    requires Segmented(s)
  {
    forall i :: 0 <= i < |s| ==> 0 <= s[i][Y] < n && 0 <= s[i][X] < n
  }

  /**
   * The snake `initializeSnake(itemParts)` builds on a grid of side `n`:
   * ten segments in the middle row, the tail five cells left of the middle,
   * each further segment one cell to the right, all in the snake's color.
   */
  function InitialSegments(n: int, itemParts: nat): (r: seq<seq<int>>)
    requires itemParts >= ItemsPartContent
    ensures |r| == InitialSnakeLength && Segmented(r)
    ensures forall i :: 0 <= i < |r| ==> |r[i]| == itemParts
    ensures forall i :: 0 <= i < |r| ==> r[i][Y] == n / 2 && r[i][X] == n / 2 - 5 + i
    ensures forall i :: 0 <= i < |r| ==> r[i][2] == ColorSnake
    ensures forall i, j :: 0 <= i < |r| && ItemsPartContent <= j < itemParts ==> r[i][j] == 0
  {
    seq(InitialSnakeLength, i =>
      [n / 2, n / 2 - InitialSnakeLength / 2 + i, ColorSnake] + seq(itemParts - ItemsPartContent, _ => 0))
  }

  /** A row with the right coordinates, color and zero padding is segment `i` of the new snake. */
  lemma InitialRow(n: int, itemParts: nat, i: nat, row: seq<int>)
    requires itemParts >= ItemsPartContent && i < InitialSnakeLength && |row| == itemParts
    requires row[Y] == n / 2 && row[X] == n / 2 - InitialSnakeLength / 2 + i && row[2] == ColorSnake
    requires forall j :: ItemsPartContent <= j < itemParts ==> row[j] == 0
    ensures row == InitialSegments(n, itemParts)[i]
  {
  }

  /** On a grid of side at least ten the new snake lies on the grid and no two segments share a cell. */
  lemma InitialSnakeFits(n: int, itemParts: nat)
    requires itemParts >= ItemsPartContent && n >= InitialSnakeLength
    ensures OnGrid(InitialSegments(n, itemParts), n)
    ensures forall i, j :: 0 <= i < j < InitialSnakeLength ==>
      InitialSegments(n, itemParts)[i][..2] != InitialSegments(n, itemParts)[j][..2]
  {
    var s := InitialSegments(n, itemParts);
    forall i, j | 0 <= i < j < InitialSnakeLength
      ensures s[i][..2] != s[j][..2]
    {
      assert s[i][..2][1] != s[j][..2][1];
    }
  }

  /**
   * The body after `moveSnakeBody`: every segment but the last takes the
   * position of the segment ahead of it and keeps its own color; the last
   * segment is untouched.
   */
  function ShiftedBody(s: seq<seq<int>>): (r: seq<seq<int>>)
    requires Segmented(s)
    ensures |r| == |s| && Segmented(r)
    ensures forall i {:trigger r[i]} :: 0 <= i < |s| ==> |r[i]| == |s[i]|
    ensures forall i :: 0 <= i < |s| - 1 ==> r[i][Y] == s[i + 1][Y] && r[i][X] == s[i + 1][X]
    ensures forall i, j :: 0 <= i < |s| && 2 <= j < |s[i]| ==> r[i][j] == s[i][j]
    ensures |s| > 0 ==> r[|s| - 1] == s[|s| - 1]
  {
    seq(|s|, i requires 0 <= i < |s| =>
      if i < |s| - 1 then s[i][Y := s[i + 1][Y]][X := s[i + 1][X]] else s[i])
  }

  /** The segment at `h` moved one cell in direction `d` on a grid of side `n`. */
  function MovedHead(s: seq<seq<int>>, h: nat, d: Direction, n: int): (r: seq<seq<int>>)
    requires Segmented(s) && h < |s| && n > 0
    ensures |r| == |s| && Segmented(r)
    ensures forall i :: 0 <= i < |s| && i != h ==> r[i] == s[i]
    ensures |r[h]| == |s[h]|
    ensures forall j :: 0 <= j < |s[h]| && j != Axis(d) ==> r[h][j] == s[h][j]
    ensures r[h][Axis(d)] == if Forward(d) then StepForward(s[h][Axis(d)], n) else StepBack(s[h][Axis(d)], n)
  {
    var a := Axis(d);
    var v := s[h][a];
    s[h := s[h][a := if Forward(d) then StepForward(v, n) else StepBack(v, n)]]
  }

  /** The snake with its last segment colored as a collided head. */
  function Collided(s: seq<seq<int>>): (r: seq<seq<int>>)
    requires Segmented(s) && |s| > 0
    ensures |r| == |s| && Segmented(r)
    ensures forall i {:trigger r[i]} :: 0 <= i < |s| ==> |r[i]| == |s[i]|
    ensures r[|s| - 1][2] == ColorSnakeHead
    ensures forall i, j :: 0 <= i < |s| && 0 <= j < |s[i]| && (i != |s| - 1 || j != 2) ==> r[i][j] == s[i][j]
  {
    s[|s| - 1 := s[|s| - 1][2 := ColorSnakeHead]]
  }

  /** A move keeps a snake that lies on the grid on the grid. */
  lemma {:induction false} MoveStaysOnGrid(s: seq<seq<int>>, h: nat, d: Direction, n: int)
    requires Segmented(s) && h < |s| && n > 0 && OnGrid(s, n)
    ensures OnGrid(MovedHead(ShiftedBody(s), h, d, n), n)
  {
    var t := ShiftedBody(s);
    assert OnGrid(t, n) by {
      forall i | 0 <= i < |t|
        ensures 0 <= t[i][Y] < n && 0 <= t[i][X] < n
      {
        if i < |s| - 1 {
          assert t[i][Y] == s[i + 1][Y] && t[i][X] == s[i + 1][X];
        }
      }
    }
  }

  /** Coloring the collided head does not move any segment. */
  lemma CollisionStaysOnGrid(s: seq<seq<int>>, n: int)
    requires Segmented(s) && |s| > 0 && OnGrid(s, n)
    ensures OnGrid(Collided(s), n)
  {
    var r := Collided(s);
    assert r[|s| - 1][Y] == s[|s| - 1][Y] && r[|s| - 1][X] == s[|s| - 1][X];
  }

  // ---------------------------------------------------------------------
  // Direction changes

  /**
   * The direction and the permission flag after `setDirection(d, restart)`:
   * a reversal is refused unless the game restarts, and a request is taken
   * only while changes are allowed, which it then closes.
   */
  function Requested(cur: Option<Direction>, allow: bool, d: Direction, restart: bool): (r: (Option<Direction>, bool))
    ensures !allow ==> r == (cur, allow)
    ensures r != (cur, allow) ==> allow && r == (Some(d), false)
    ensures r.0 != cur ==> restart || !(cur.Some? && Opposite(cur.value, d))
  {
    if cur.Some? && Opposite(cur.value, d) && !restart then (cur, allow)
    else if allow then (Some(d), false)
    else (cur, allow)
  }

  /** A reversal is ignored unless the game restarts. */
  lemma NoReversal(c: Direction, allow: bool, d: Direction)
    requires Opposite(c, d)
    ensures Requested(Some(c), allow, d, false) == (Some(c), allow)
  {
  }

  /** A request that is neither a reversal nor blocked sets the direction and closes the gate. */
  lemma RequestTaken(cur: Option<Direction>, d: Direction, restart: bool)
    requires restart || !(cur.Some? && Opposite(cur.value, d))
    ensures Requested(cur, true, d, restart) == (Some(d), false)
  {
  }

  /** The direction after a run of requests with no `setAllowChangesToDirection` between them. */
  function RequestedAll(cur: Option<Direction>, allow: bool, reqs: seq<(Direction, bool)>): (r: (Option<Direction>, bool))
    decreases |reqs|
  {
    if reqs == [] then (cur, allow)
    else var next := Requested(cur, allow, reqs[0].0, reqs[0].1);
      RequestedAll(next.0, next.1, reqs[1..])
  }

  /** With the gate closed, no run of requests changes anything. */
  lemma {:induction false} ClosedGateIgnoresAll(cur: Option<Direction>, reqs: seq<(Direction, bool)>)
    ensures RequestedAll(cur, false, reqs) == (cur, false)
    decreases |reqs|
  {
    if reqs != [] {
      ClosedGateIgnoresAll(cur, reqs[1..]);
    }
  }

  /**
   * Between two grid updates the direction changes at most once: the result
   * of a run of requests is the old state, or the first request that was
   * taken, with the gate closed; every request before it changed nothing.
   */
  lemma {:induction false} AtMostOneChange(cur: Option<Direction>, allow: bool, reqs: seq<(Direction, bool)>)
    ensures var r := RequestedAll(cur, allow, reqs);
      r == (cur, allow) || exists i :: (0 <= i < |reqs|
        && RequestedAll(cur, allow, reqs[..i]) == (cur, allow)
        && Requested(cur, allow, reqs[i].0, reqs[i].1) == r
        && r == (Some(reqs[i].0), false))
    decreases |reqs|
  {
    if reqs != [] {
      var next := Requested(cur, allow, reqs[0].0, reqs[0].1);
      var r := RequestedAll(cur, allow, reqs);
      if next == (cur, allow) {
        AtMostOneChange(cur, allow, reqs[1..]);
        if r != (cur, allow) {
          var i :| 0 <= i < |reqs[1..]|
            && RequestedAll(cur, allow, reqs[1..][..i]) == (cur, allow)
            && Requested(cur, allow, reqs[1..][i].0, reqs[1..][i].1) == r
            && r == (Some(reqs[1..][i].0), false);
          var pre := reqs[..i + 1];
          assert pre[0] == reqs[0] && pre[1..] == reqs[1..][..i];
          assert RequestedAll(cur, allow, pre) == (cur, allow);
          assert reqs[1..][i] == reqs[i + 1];
        }
      } else {
        assert next == (Some(reqs[0].0), false);
        ClosedGateIgnoresAll(next.0, reqs[1..]);
        assert reqs[..0] == [];
      }
    }
  }

  // ---------------------------------------------------------------------
  // The snake in the heap

  /** The segment rows of a snake array. */
  ghost function Cells(a: array<array<int>>): set<array<int>>
    reads a
  {
    set i | 0 <= i < a.Length :: a[i]
  }

  /** A snake array seen as a value. */
  ghost function Contents(a: array<array<int>>): (r: seq<seq<int>>)
    reads a, Cells(a)
    ensures |r| == a.Length
    ensures forall i :: 0 <= i < a.Length ==> r[i] == a[i][..]
  {
    seq(a.Length, i requires 0 <= i < a.Length reads a, Cells(a) => a[i][..])
  }

  /** A snake array the model can work on: not empty, rows distinct, each with y, x and color. */
  ghost predicate WellFormed(a: array<array<int>>)
    reads a
  {
    && a.Length >= 1
    && (forall i, j :: 0 <= i < j < a.Length ==> a[i] != a[j])
    && (forall i :: 0 <= i < a.Length ==> a[i].Length >= ItemsPartContent)
  }

  /** Java's `new int[rows][cols]`: `rows` fresh, distinct rows of `cols` zeros. */
  method NewRows(rows: nat, cols: nat) returns (a: array<array<int>>)
    ensures fresh(a) && a.Length == rows
    ensures forall i :: 0 <= i < rows ==> fresh(a[i]) && a[i].Length == cols
    ensures forall i, j :: 0 <= i < rows && 0 <= j < cols ==> a[i][j] == 0
    ensures forall i, j :: 0 <= i < j < rows ==> a[i] != a[j]
  {
    var built: seq<array<int>> := [];
    while |built| < rows
      invariant |built| <= rows
      invariant forall i :: 0 <= i < |built| ==> fresh(built[i]) && built[i].Length == cols
      invariant forall i, j :: 0 <= i < |built| && 0 <= j < cols ==> built[i][j] == 0
      invariant forall i, j :: 0 <= i < j < |built| ==> built[i] != built[j]
    {
      var row := new int[cols](_ => 0);
      built := built + [row];
    }
    a := new array<int>[rows](i requires 0 <= i < rows => built[i]);
  }

  /**
   * The body of `initializeSnake` after allocation: the tail in the middle
   * row, five cells left of the middle, and every further segment one cell
   * to the right of the one before, all in the snake's color.
   */
  method LayOutInitialSnake(a: array<array<int>>, n: int)
    requires a.Length >= 1
    requires forall i, j :: 0 <= i < j < a.Length ==> a[i] != a[j]
    requires forall i :: 0 <= i < a.Length ==> a[i].Length >= ItemsPartContent
    modifies Cells(a)
    ensures forall k :: 0 <= k < a.Length ==>
      a[k][Y] == n / 2 && a[k][X] == n / 2 - InitialSnakeLength / 2 + k && a[k][2] == ColorSnake
    ensures forall k, j :: 0 <= k < a.Length && ItemsPartContent <= j < a[k].Length ==> a[k][j] == old(a[k][j])
  {
    a[0][Y] := n / 2;
    a[0][X] := n / 2 - InitialSnakeLength / 2;
    a[0][2] := ColorSnake;
    var i := 1;
    while i < a.Length
      invariant 1 <= i <= a.Length
      invariant forall k :: 0 <= k < i ==>
        a[k][Y] == n / 2 && a[k][X] == n / 2 - InitialSnakeLength / 2 + k && a[k][2] == ColorSnake
      invariant forall k, j :: 0 <= k < a.Length && ItemsPartContent <= j < a[k].Length ==> a[k][j] == old(a[k][j])
    {
      a[i][Y] := a[0][Y];
      a[i][X] := a[0][X] + i;
      a[i][2] := ColorSnake;
      i := i + 1;
    }
  }

  class SnakeModel {
    var snake: array?<array<int>>
    var headIndex: int
    var gameGrid: array2?<int>
    var allowChangesToDirection: bool
    var currentDirection: Option<Direction>
    var isGameOver: bool
    var speed: int

    ghost predicate Valid()
      reads this, snake
    {
      snake != null ==> WellFormed(snake)
    }

    /** The grid and the snake are set up later; the direction starts unset. */
    constructor ()
      ensures Valid() && snake == null && gameGrid == null
      ensures headIndex == InitialSnakeLength - 1
      ensures allowChangesToDirection && currentDirection == None && !isGameOver
      ensures speed == SnakeTickDelay
    {
      snake := null;
      headIndex := InitialSnakeLength - 1;
      gameGrid := null;
      allowChangesToDirection := true;
      currentDirection := None;
      isGameOver := false;
      speed := SnakeTickDelay;
    }

    /** Builds a new snake of ten segments in the middle row of the grid. */
    method InitializeSnake(itemParts: int)
      requires gameGrid != null && itemParts >= ItemsPartContent
      modifies this
      ensures gameGrid == old(gameGrid) && allowChangesToDirection == old(allowChangesToDirection)
      ensures Valid() && snake != null && fresh(snake) && fresh(Cells(snake))
      ensures Contents(snake) == InitialSegments(gameGrid.Length0, itemParts)
      ensures headIndex == snake.Length - 1
      ensures currentDirection == old(currentDirection) && isGameOver == old(isGameOver)
      ensures speed == old(speed)
    {
      var a := NewRows(InitialSnakeLength, itemParts);
      var n := gameGrid.Length0;
      LayOutInitialSnake(a, n);
      forall k | 0 <= k < a.Length
        ensures a[k][..] == InitialSegments(n, itemParts)[k]
      {
        InitialRow(n, itemParts, k, a[k][..]);
      }
      snake := a;
      headIndex := InitialSnakeLength - 1;
    }

    /** Each segment but the last takes the position of the one ahead of it. */
    method MoveSnakeBody()
      requires snake != null && Valid()
      modifies Cells(snake)
      ensures Contents(snake) == ShiftedBody(old(Contents(snake)))
    {
      ghost var target := ShiftedBody(Contents(snake));
      var i := 0;
      while i < snake.Length - 1
        modifies Cells(snake)
        invariant 0 <= i <= snake.Length - 1
        invariant forall k :: 0 <= k < i ==> snake[k][..] == target[k]
        invariant forall k :: i <= k < snake.Length ==> snake[k][..] == old(snake[k][..])
      {
        snake[i][Y] := snake[i + 1][Y];
        snake[i][X] := snake[i + 1][X];
        assert snake[i][..] == target[i];
        i := i + 1;
      }
    }

    /** Moves the head one cell toward higher y (`axis` 0) or x (`axis` 1), wrapping at the edge. */
    method MoveSnakeHeadPosDirection(axis: nat)
      requires snake != null && Valid() && gameGrid != null && gameGrid.Length0 > 0
      requires axis == Y || axis == X
      requires 0 <= headIndex < snake.Length
      modifies snake[headIndex]
      ensures Contents(snake) == old(Contents(snake))[headIndex :=
        old(snake[headIndex][..])[axis := StepForward(old(snake[headIndex][axis]), gameGrid.Length0)]]
    {
      snake[headIndex][axis] := JavaRem(snake[headIndex][axis] + 1, gameGrid.Length0);
    }

    /** Moves the head one cell toward lower y (`axis` 0) or x (`axis` 1), wrapping at the edge. */
    method MoveSnakeHeadNegDirection(axis: nat)
      requires snake != null && Valid() && gameGrid != null && gameGrid.Length0 > 0
      requires axis == Y || axis == X
      requires 0 <= headIndex < snake.Length
      modifies snake[headIndex]
      ensures Contents(snake) == old(Contents(snake))[headIndex :=
        old(snake[headIndex][..])[axis := StepBack(old(snake[headIndex][axis]), gameGrid.Length0)]]
    {
      snake[headIndex][axis] := JavaRem(snake[headIndex][axis] - 1 + gameGrid.Length0, gameGrid.Length0);
    }

    /**
     * Looks at the grid cell under the head. The snake's own body ends the
     * game, colors the last segment as a collided head and blocks direction
     * changes; a cherry or a speed booster is eaten (`eaten`: the booster's
     * `eatBooster` is due); anything else changes nothing.
     */
    method CheckHeadCell() returns (eaten: bool)
      requires snake != null && Valid() && gameGrid != null
      requires 0 <= headIndex < snake.Length
      requires 0 <= snake[headIndex][Y] < gameGrid.Length0 && 0 <= snake[headIndex][X] < gameGrid.Length1
      modifies this, snake[snake.Length - 1]
      ensures snake == old(snake) && headIndex == old(headIndex) && gameGrid == old(gameGrid)
      ensures currentDirection == old(currentDirection) && speed == old(speed)
      ensures var cell := gameGrid[old(snake[headIndex][Y]), old(snake[headIndex][X])];
        && eaten == (cell == ColorCherry || cell == ColorSpeed)
        && (cell == ColorSnake ==>
              isGameOver && !allowChangesToDirection && Contents(snake) == Collided(old(Contents(snake))))
        && (cell != ColorSnake ==>
              isGameOver == old(isGameOver) && allowChangesToDirection == old(allowChangesToDirection)
              && Contents(snake) == old(Contents(snake)))
    {
      var cell := gameGrid[snake[headIndex][Y], snake[headIndex][X]];
      eaten := false;
      if cell == ColorSnake {
        isGameOver := true;
        snake[snake.Length - 1][2] := ColorSnakeHead;
        allowChangesToDirection := false;
      } else if cell == ColorCherry || cell == ColorSpeed {
        eaten := true;
      }
    }

    /** The `switch` of `moveSnake`: the head moves one cell in the current direction. */
    method MoveSnakeHead()
      requires snake != null && Valid() && gameGrid != null && gameGrid.Length0 > 0
      requires 0 <= headIndex < snake.Length && currentDirection.Some?
      modifies snake[headIndex]
      ensures Contents(snake) == MovedHead(old(Contents(snake)), headIndex, currentDirection.value, gameGrid.Length0)
    {
      match currentDirection.value {
        case Up => MoveSnakeHeadNegDirection(Y);
        case Left => MoveSnakeHeadNegDirection(X);
        case Down => MoveSnakeHeadPosDirection(Y);
        case Right => MoveSnakeHeadPosDirection(X);
      }
    }

    /** Whether the whole snake lies on the grid. */
    ghost predicate SnakeOnGrid()
      reads this, snake, gameGrid
      reads if snake == null then {} else Cells(snake)
      requires Valid()
    {
      snake != null && gameGrid != null && OnGrid(Contents(snake), gameGrid.Length0)
    }

    /**
     * One tick: the body follows, the head moves in the current direction,
     * and the cell under the head is checked. On a square grid the snake
     * stays on the grid.
     */
    method MoveSnake() returns (eaten: bool)
      requires snake != null && Valid() && gameGrid != null
      requires gameGrid.Length0 == gameGrid.Length1 && gameGrid.Length0 > 0
      requires 0 <= headIndex < snake.Length && currentDirection.Some?
      requires SnakeOnGrid()
      modifies this, Cells(snake)
      ensures snake == old(snake) && headIndex == old(headIndex) && gameGrid == old(gameGrid)
      ensures currentDirection == old(currentDirection) && speed == old(speed)
      ensures Valid() && SnakeOnGrid()
      ensures var moved := MovedHead(ShiftedBody(old(Contents(snake))), headIndex, currentDirection.value, gameGrid.Length0);
        var cell := gameGrid[moved[headIndex][Y], moved[headIndex][X]];
        && eaten == (cell == ColorCherry || cell == ColorSpeed)
        && (cell == ColorSnake ==>
              isGameOver && !allowChangesToDirection && Contents(snake) == Collided(moved))
        && (cell != ColorSnake ==>
              isGameOver == old(isGameOver) && allowChangesToDirection == old(allowChangesToDirection)
              && Contents(snake) == moved)
    {
      ghost var n, h, d := gameGrid.Length0, headIndex, currentDirection.value;
      ghost var start := Contents(snake);
      MoveSnakeBody();
      ghost var shifted := Contents(snake);
      ghost var moved := MovedHead(shifted, h, d, n);
      MoveSnakeHead();
      assert Contents(snake) == moved;
      MoveStaysOnGrid(start, h, d, n);
      assert moved[h][Y] == snake[h][Y] && moved[h][X] == snake[h][X];
      eaten := CheckHeadCell();
      CollisionStaysOnGrid(moved, n);
    }

    /**
     * Requests direction `d`. A reversal is refused unless `restart`; the
     * request is taken only while changes are allowed, and closes them.
     */
    method SetDirection(d: Direction, restart: bool)
      modifies this`currentDirection, this`allowChangesToDirection
      ensures (currentDirection, allowChangesToDirection)
              == Requested(old(currentDirection), old(allowChangesToDirection), d, restart)
    {
      if currentDirection.Some? && Opposite(currentDirection.value, d) && !restart {
        return;
      }
      if allowChangesToDirection {
        currentDirection := Some(d);
        allowChangesToDirection := false;
      }
    }

    method GetSnake() returns (s: array?<array<int>>)
      ensures s == snake
    {
      s := snake;
    }

    /** Replaces the snake array (a grown snake, for one). */
    method SetSnake(expanded: array<array<int>>)
      requires WellFormed(expanded)
      modifies this`snake
      ensures snake == expanded && Valid()
    {
      snake := expanded;
    }

    method SetHeadIndex(h: int)
      modifies this`headIndex
      ensures headIndex == h
    {
      headIndex := h;
    }

    method IsGameOver() returns (over: bool)
      ensures over == isGameOver
    {
      over := isGameOver;
    }

    method SetGameOver(over: bool)
      modifies this`isGameOver
      ensures isGameOver == over
    {
      isGameOver := over;
    }

    /** Opens (after the grid shows the last move) or closes direction changes. */
    method SetAllowChangesToDirection(isGridUpdated: bool)
      modifies this`allowChangesToDirection
      ensures allowChangesToDirection == isGridUpdated
    {
      allowChangesToDirection := isGridUpdated;
    }

    method SetGameGrid(grid: array2<int>)
      modifies this`gameGrid
      ensures gameGrid == grid
    {
      gameGrid := grid;
    }

    method GetSpeed() returns (s: int)
      ensures s == speed
    {
      s := speed;
    }

    method SetSpeed(s: int)
      modifies this`speed
      ensures speed == s
    {
      speed := s;
    }
  }
}
