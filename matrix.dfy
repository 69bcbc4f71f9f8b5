/** Grids of small integers: the playfield (arena) and every piece shape.
    A cell holding 0 is empty; any other value is a colour id. */
module Matrix {

  /** A grid stored row by row, as the JavaScript arrays of arrays are. */
  type Matrix = seq<seq<int>>

  /** Every row is exactly `w` cells wide. */
  predicate IsRect(m: Matrix, w: int)
  {
    forall i :: 0 <= i < |m| ==> |m[i]| == w
  }

  /** N rows of N cells each (all piece shapes are square). */
  predicate IsSquare(m: Matrix)
  {
    IsRect(m, |m|)
  }

  /** A row of `w` empty cells: `new Array(w).fill(0)`. */
  function Zeros(w: nat): (row: seq<int>)
    ensures |row| == w && forall j :: 0 <= j < w ==> row[j] == 0
  {
    if w == 0 then [] else Zeros(w - 1) + [0]
  }

  /** `k` empty rows of width `w`. */
  function ZeroRows(k: nat, w: nat): (m: Matrix)
    ensures |m| == k && IsRect(m, w)
    ensures forall i :: 0 <= i < k ==> m[i] == Zeros(w)
  {
    if k == 0 then [] else ZeroRows(k - 1, w) + [Zeros(w)]
  }

  /** The cell at row `r`, column `c` holds a piece block. */
  predicate Occupied(m: Matrix, r: int, c: int)
  {
    0 <= r < |m| && 0 <= c < |m[r]| && m[r][c] != 0
  }

  /** The grid holds at least one block. */
  predicate HasBlock(m: Matrix)
  {
    exists r, c :: 0 <= r < |m| && 0 <= c < |m[r]| && m[r][c] != 0
  }

  /** createMatrix(w, h): pushes `h` zero rows of width `w`, counting `h` down to 0.
      A negative `h` never reaches 0 in `while (h--)`, and `new Array(w)` refuses a
      negative `w`, so callers pass non-negative sizes. */
  method CreateMatrix(w: int, h: int) returns (m: Matrix)
    requires w >= 0 && h >= 0
    ensures |m| == h && IsRect(m, w)
    ensures forall i, j :: 0 <= i < h && 0 <= j < w ==> m[i][j] == 0
  {
    m := [];
    var left := h;
    while left != 0
      invariant 0 <= left <= h
      invariant |m| == h - left
      invariant forall i :: 0 <= i < |m| ==> m[i] == Zeros(w)
    {
      left := left - 1;
      m := m + [Zeros(w)];
    }
  }
}
