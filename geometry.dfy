/** Geometry of pieces: quarter turns of a square shape, the occupied column span
    of a shape, and the collision test of a shape against the arena. */
module Geometry {
  import opened Matrix

  // ---------------------------------------------------------------------------
  // Rotation
  // ---------------------------------------------------------------------------

  /** Array.prototype.reverse, as a value. */
  function Reversed<T>(s: seq<T>): seq<T>
  {
    seq(|s|, i requires 0 <= i < |s| => s[|s| - 1 - i])
  }

  /** Reference definition of a clockwise quarter turn: new[y][x] = old[N-1-x][y]. */
  function RotatedCW(m: Matrix): (r: Matrix)
    requires IsSquare(m)
    ensures |r| == |m| && IsSquare(r)
  {
    var n := |m|;
    seq(n, i requires 0 <= i < n => seq(n, j requires 0 <= j < n => m[n - 1 - j][i]))
  }

  /** Reference definition of a counter-clockwise quarter turn: new[y][x] = old[x][N-1-y]. */
  function RotatedCCW(m: Matrix): (r: Matrix)
    requires IsSquare(m)
    ensures |r| == |m| && IsSquare(r)
  {
    var n := |m|;
    seq(n, i requires 0 <= i < n => seq(n, j requires 0 <= j < n => m[j][n - 1 - i]))
  }

  /** The turn rotate(matrix, dir) performs: clockwise for dir > 0, otherwise
      counter-clockwise (dir = 0 included). */
  function Rotated(m: Matrix, dir: int): (r: Matrix)
    requires IsSquare(m)
    ensures |r| == |m| && IsSquare(r)
  {
    if dir > 0 then RotatedCW(m) else RotatedCCW(m)
  }

  /** The transposing loop of rotate has exchanged cells (i, j) and (j, i) once it
      has reached row y and, within it, column x. */
  predicate Swapped(i: int, j: int, y: int, x: int)
  {
    (i < y && j < y) || (i == y && j < x) || (j == y && i < x)
  }

  /** rotate(matrix, dir): transpose by swapping the cells above the diagonal with
      those below it, then reverse every row (clockwise) or the order of the rows
      (counter-clockwise). The JavaScript mutates its argument; here the turned grid
      is returned and the caller stores it back. */
  method Rotate(m: Matrix, dir: int) returns (r: Matrix)
    requires IsSquare(m)
    ensures r == Rotated(m, dir)
  {
    var n := |m|;
    r := m;
    var y := 0;
    while y < n
      invariant 0 <= y <= n
      invariant |r| == n && IsRect(r, n)
      invariant forall i, j {:trigger r[i][j]} :: 0 <= i < n && 0 <= j < n ==>
        r[i][j] == if Swapped(i, j, y, 0) then m[j][i] else m[i][j]
    {
      var x := 0;
      while x < y
        invariant 0 <= x <= y
        invariant |r| == n && IsRect(r, n)
        invariant forall i, j {:trigger r[i][j]} :: 0 <= i < n && 0 <= j < n ==>
          r[i][j] == if Swapped(i, j, y, x) then m[j][i] else m[i][j]
      {
        var below, above := r[y][x], r[x][y];
        r := r[x := r[x][y := below]];
        r := r[y := r[y][x := above]];
        x := x + 1;
      }
      y := y + 1;
    }
    if dir > 0 {
      var k := 0;
      while k < n
        invariant 0 <= k <= n
        invariant |r| == n && IsRect(r, n)
        invariant forall i, j {:trigger r[i][j]} :: 0 <= i < n && 0 <= j < n ==>
          r[i][j] == if i < k then m[n - 1 - j][i] else m[j][i]
      {
        r := r[k := Reversed(r[k])];
        k := k + 1;
      }
    } else {
      r := Reversed(r);
    }
    forall i | 0 <= i < n ensures r[i] == Rotated(m, dir)[i] {
      assert forall j :: 0 <= j < n ==> r[i][j] == Rotated(m, dir)[i][j];
    }
  }

  /** The cells of `m` that hold a block, as (row, column) pairs. */
  function Cells(m: Matrix): set<(int, int)>
  {
    set r, c | 0 <= r < |m| && 0 <= c < |m[r]| && m[r][c] != 0 :: (r, c)
  }

  /** Where a clockwise quarter turn of an n-by-n grid moves the cell (row, column). */
  function TurnedCell(p: (int, int), n: int): (int, int)
  {
    (p.1, n - 1 - p.0)
  }

  /** A clockwise turn moves every block to its turned cell and creates none. */
  lemma CellsOfRotatedCW(m: Matrix)
    requires IsSquare(m)
    ensures Cells(RotatedCW(m)) == set p | p in Cells(m) :: TurnedCell(p, |m|)
  {
    var n := |m|;
    var rm := RotatedCW(m);
    forall q | q in Cells(rm) ensures q in set p | p in Cells(m) :: TurnedCell(p, n) {
      var p := (n - 1 - q.1, q.0);
      assert p in Cells(m) && TurnedCell(p, n) == q;
    }
    forall q | q in set p | p in Cells(m) :: TurnedCell(p, n) ensures q in Cells(rm) {
      var p :| p in Cells(m) && q == TurnedCell(p, n);
      assert rm[q.0][q.1] == m[p.0][p.1];
    }
  }

  /** Turning cells is one-to-one, so a set of cells keeps its size. */
  lemma {:induction false} TurnKeepsCount(s: set<(int, int)>, n: int)
    ensures |set p | p in s :: TurnedCell(p, n)| == |s|
  {
    if s != {} {
      var q :| q in s;
      var rest := s - {q};
      TurnKeepsCount(rest, n);
      assert (set p | p in s :: TurnedCell(p, n)) == (set p | p in rest :: TurnedCell(p, n)) + {TurnedCell(q, n)};
    }
  }

  /** A counter-clockwise turn is three clockwise turns. */
  lemma CCWIsThreeCW(m: Matrix)
    requires IsSquare(m)
    ensures RotatedCCW(m) == RotatedCW(RotatedCW(RotatedCW(m)))
  {
    var n := |m|;
    var a := RotatedCW(m);
    var b := RotatedCW(a);
    var c := RotatedCW(b);
    forall i | 0 <= i < n ensures c[i] == RotatedCCW(m)[i] {
      forall j | 0 <= j < n ensures c[i][j] == RotatedCCW(m)[i][j] {
        assert c[i][j] == b[n - 1 - j][i] == a[n - 1 - i][n - 1 - j];
      }
    }
  }

  /** Four clockwise turns give back the original shape. */
  lemma FourTurnsRestore(m: Matrix)
    requires IsSquare(m)
    ensures RotatedCW(RotatedCW(RotatedCW(RotatedCW(m)))) == m
  {
    var n := |m|;
    var h := RotatedCW(RotatedCW(m));
    forall i, j | 0 <= i < n && 0 <= j < n ensures h[i][j] == m[n - 1 - i][n - 1 - j] {
      assert h[i][j] == RotatedCW(m)[n - 1 - j][i];
    }
    var f := RotatedCW(RotatedCW(h));
    forall i, j | 0 <= i < n && 0 <= j < n ensures f[i][j] == h[n - 1 - i][n - 1 - j] {
      assert f[i][j] == RotatedCW(h)[n - 1 - j][i];
    }
    forall i | 0 <= i < n ensures f[i] == m[i] {
      assert forall j :: 0 <= j < n ==> f[i][j] == m[i][j];
    }
  }

  /** A clockwise turn followed by a counter-clockwise one gives back the original shape. */
  lemma TurnBackRestores(m: Matrix)
    requires IsSquare(m)
    ensures RotatedCCW(RotatedCW(m)) == m
  {
    var n := |m|;
    var b := RotatedCCW(RotatedCW(m));
    forall i | 0 <= i < n ensures b[i] == m[i] {
      forall j | 0 <= j < n ensures b[i][j] == m[i][j] {
        assert b[i][j] == RotatedCW(m)[j][n - 1 - i];
      }
    }
  }

  /** Either turn keeps the number of blocks (and so a piece never becomes empty). */
  lemma RotationKeepsBlockCount(m: Matrix, dir: int)
    requires IsSquare(m)
    ensures |Cells(Rotated(m, dir))| == |Cells(m)|
    ensures HasBlock(Rotated(m, dir)) <==> HasBlock(m)
  {
    var n := |m|;
    var a := RotatedCW(m);
    var b := RotatedCW(a);
    var c := RotatedCW(b);
    CellsOfRotatedCW(m); TurnKeepsCount(Cells(m), n);
    if dir <= 0 {
      CCWIsThreeCW(m);
      CellsOfRotatedCW(a); TurnKeepsCount(Cells(a), n);
      CellsOfRotatedCW(b); TurnKeepsCount(Cells(b), n);
    }
    var r := Rotated(m, dir);
    HasBlockIffCells(m);
    HasBlockIffCells(r);
  }

  /** A grid holds a block exactly when its cell set is not empty. */
  lemma HasBlockIffCells(m: Matrix)
    ensures HasBlock(m) <==> Cells(m) != {}
  {
    if HasBlock(m) {
      var r, c :| 0 <= r < |m| && 0 <= c < |m[r]| && m[r][c] != 0;
      assert (r, c) in Cells(m);
    }
  }

  // ---------------------------------------------------------------------------
  // Occupied column span
  // ---------------------------------------------------------------------------

  /** Some row of `m` holds a block in column `c`. */
  predicate ColumnHasBlock(m: Matrix, c: int)
  {
    exists r :: 0 <= r < |m| && 0 <= c < |m[r]| && m[r][c] != 0
  }

  /** First column at or after `c` that holds a block, or |m| if there is none. */
  function LeftFrom(m: Matrix, c: nat): (l: nat)
    requires c <= |m|
    ensures c <= l <= |m|
    ensures l < |m| ==> ColumnHasBlock(m, l)
    ensures forall k :: c <= k < l ==> !ColumnHasBlock(m, k)
    decreases |m| - c
  {
    if c == |m| then |m| else if ColumnHasBlock(m, c) then c else LeftFrom(m, c + 1)
  }

  /** The left offset of a square shape: its leftmost column holding a block, or the
      side N (the value `leftOffset` starts from) when the shape is empty. */
  function LeftOffset(m: Matrix): (l: nat)
    ensures l <= |m|
    ensures l < |m| ==> ColumnHasBlock(m, l)
    ensures forall k :: 0 <= k < l ==> !ColumnHasBlock(m, k)
  {
    LeftFrom(m, 0)
  }

  /** One past the last column before `c` that holds a block, or 0 if there is none. */
  function RightBefore(m: Matrix, c: nat): (w: nat)
    requires c <= |m|
    ensures w <= c
    ensures w > 0 ==> ColumnHasBlock(m, w - 1)
    ensures forall k :: w <= k < c ==> !ColumnHasBlock(m, k)
  {
    if c == 0 then 0 else if ColumnHasBlock(m, c - 1) then c else RightBefore(m, c - 1)
  }

  /** The occupied width of a square shape: one past its rightmost column holding a
      block, 0 when the shape is empty. */
  function OccupiedWidth(m: Matrix): (w: nat)
    ensures w <= |m|
    ensures w > 0 ==> ColumnHasBlock(m, w - 1)
    ensures forall k :: w <= k < |m| ==> !ColumnHasBlock(m, k)
  {
    RightBefore(m, |m|)
  }

  /** The scan at the top of playerMove (and, for leftOffset alone, of playerRotate):
      visits every cell, keeping the largest x + 1 and the smallest x of a block. */
  method MeasurePiece(m: Matrix) returns (pieceWidth: int, leftOffset: int)
    requires IsSquare(m) && |m| > 0
    ensures pieceWidth == OccupiedWidth(m) && leftOffset == LeftOffset(m)
  {
    var n := |m|;
    pieceWidth := 0;
    leftOffset := |m[0]|;
    var y := 0;
    while y < n
      invariant 0 <= y <= n
      invariant 0 <= pieceWidth <= n && 0 <= leftOffset <= n
      invariant forall r, c :: 0 <= r < y && 0 <= c < n && m[r][c] != 0 ==> leftOffset <= c < pieceWidth
      invariant pieceWidth > 0 ==> ColumnHasBlock(m, pieceWidth - 1)
      invariant leftOffset < n ==> ColumnHasBlock(m, leftOffset)
    {
      var x := 0;
      while x < n
        invariant 0 <= x <= n
        invariant 0 <= pieceWidth <= n && 0 <= leftOffset <= n
        invariant forall r, c :: 0 <= r < y && 0 <= c < n && m[r][c] != 0 ==> leftOffset <= c < pieceWidth
        invariant forall c :: 0 <= c < x && m[y][c] != 0 ==> leftOffset <= c < pieceWidth
        invariant pieceWidth > 0 ==> ColumnHasBlock(m, pieceWidth - 1)
        invariant leftOffset < n ==> ColumnHasBlock(m, leftOffset)
      {
        if m[y][x] != 0 {
          pieceWidth := if pieceWidth > x + 1 then pieceWidth else x + 1;
          leftOffset := if leftOffset < x then leftOffset else x;
        }
        x := x + 1;
      }
      y := y + 1;
    }
    var l := LeftOffset(m);
    if l < n {
      var r :| 0 <= r < n && 0 <= l < |m[r]| && m[r][l] != 0;
    }
    var w := OccupiedWidth(m);
    if w > 0 {
      var r :| 0 <= r < n && 0 <= w - 1 < |m[r]| && m[r][w - 1] != 0;
    }
  }

  // ---------------------------------------------------------------------------
  // Collision
  // ---------------------------------------------------------------------------

  /** The arena has at least one row and all rows share the width of row 0. */
  predicate IsArena(arena: Matrix)
  {
    arena != [] && IsRect(arena, |arena[0]|)
  }

  /** Arena cell (row, column) exists and is empty. */
  predicate CellFree(arena: Matrix, row: int, col: int)
    requires IsArena(arena)
  {
    0 <= row < |arena| && 0 <= col < |arena[0]| && arena[row][col] == 0
  }

  /** Reference definition of collide(arena, player): some block of the shape, placed
      with its top-left corner at (px, py), lands on a cell that is below the bottom,
      above the top, left or right of the arena, or already filled. */
  predicate Collides(arena: Matrix, m: Matrix, px: int, py: int)
    requires IsArena(arena)
  {
    exists r, c :: 0 <= r < |m| && 0 <= c < |m[r]| && m[r][c] != 0 && !CellFree(arena, py + r, px + c)
  }

  /** collide(arena, player): scans the shape row by row and stops at the first block
      whose arena cell is unavailable. For a row above the top, `arena[row]` is
      undefined and `undefined !== 0`, so that cell counts as a collision. */
  method Collide(arena: Matrix, m: Matrix, px: int, py: int) returns (hit: bool)
    requires IsArena(arena)
    ensures hit == Collides(arena, m, px, py)
  {
    var y := 0;
    while y < |m|
      invariant 0 <= y <= |m|
      invariant forall r, c :: 0 <= r < y && 0 <= c < |m[r]| && m[r][c] != 0 ==> CellFree(arena, py + r, px + c)
    {
      var x := 0;
      while x < |m[y]|
        invariant 0 <= x <= |m[y]|
        invariant forall c :: 0 <= c < x && m[y][c] != 0 ==> CellFree(arena, py + y, px + c)
      {
        if m[y][x] != 0 {
          if py + y >= |arena| || px + x < 0 || px + x >= |arena[0]| || py + y < 0 || arena[py + y][px + x] != 0 {
            return true;
          }
        }
        x := x + 1;
      }
      y := y + 1;
    }
    return false;
  }

  /** A collision-free placement keeps every block inside the columns [0, W): so the
      tight-width test of playerMove never rejects a placement that collide accepts. */
  lemma FreePlacementWithinWalls(arena: Matrix, m: Matrix, px: int, py: int)
    requires IsArena(arena) && IsSquare(m) && HasBlock(m)
    requires !Collides(arena, m, px, py)
    ensures px + LeftOffset(m) >= 0 && px + OccupiedWidth(m) <= |arena[0]|
  {
    var n := |m|;
    var r0, c0 :| 0 <= r0 < n && 0 <= c0 < |m[r0]| && m[r0][c0] != 0;
    assert ColumnHasBlock(m, c0);
    var l := LeftOffset(m);
    var r :| 0 <= r < n && 0 <= l < |m[r]| && m[r][l] != 0;
    assert CellFree(arena, py + r, px + l);
    var w := OccupiedWidth(m);
    var r' :| 0 <= r' < n && 0 <= w - 1 < |m[r']| && m[r'][w - 1] != 0;
    assert CellFree(arena, py + r', px + w - 1);
  }

  /** A shape with a block collides once it is placed at or below the bottom row. */
  lemma BelowBottomCollides(arena: Matrix, m: Matrix, px: int, py: int)
    requires IsArena(arena) && HasBlock(m)
    ensures py >= |arena| ==> Collides(arena, m, px, py)
  {
    var r, c :| 0 <= r < |m| && 0 <= c < |m[r]| && m[r][c] != 0;
    assert py >= |arena| ==> !CellFree(arena, py + r, px + c);
  }
}
