/** The catalogue of the seven tetromino shapes. */
module Pieces {
  import opened Matrix

  /** PIECES: index 0 is the JavaScript `null` placeholder (an empty grid here);
      indices 1..7 are I, J, L, O, S, T, Z, whose blocks carry their own index as colour. */
  const Catalogue: seq<Matrix> := [
    [],
    [[0, 0, 0, 0], [1, 1, 1, 1], [0, 0, 0, 0], [0, 0, 0, 0]],
    [[2, 0, 0], [2, 2, 2], [0, 0, 0]],
    [[0, 0, 3], [3, 3, 3], [0, 0, 0]],
    [[0, 4, 4], [0, 4, 4], [0, 0, 0]],
    [[0, 5, 5], [5, 5, 0], [0, 0, 0]],
    [[0, 6, 0], [6, 6, 6], [0, 0, 0]],
    [[7, 7, 0], [0, 7, 7], [0, 0, 0]]
  ]

  /** createPiece(type): a fresh copy of the catalogue shape for 1..7; any other type
      falls back to the I shape. */
  function CreatePiece(t: int): (m: Matrix)
    ensures (t < 1 || t > 7) ==> m == Catalogue[1]
    ensures IsSquare(m) && (|m| == 3 || |m| == 4)
    ensures HasBlock(m)
    ensures forall r, c :: Occupied(m, r, c) ==> m[r][c] == (if 1 <= t <= 7 then t else 1)
  {
    var shape := if t < 1 || t > 7 then Catalogue[1] else Catalogue[t];
    assert shape[1][1] != 0;
    shape
  }
}
