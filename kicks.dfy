/** The position search playerRotate runs after turning a piece: starting from the
    column x0, which is the old column moved left by the turned shape's left offset
    (so repeated turns can drift a piece to the left), it tries x0, x0+1,
    x0-1, x0+2, ... and gives up once the step it is about to take exceeds the side
    N of the shape. */
module Kicks {
  import opened Matrix
  import opened Geometry

  datatype Option<T> = None | Some(value: T)

  /** The value of `offset` after i failed candidates: 1, -2, 3, -4, ... */
  function OffsetAfter(i: nat): int
  {
    if i % 2 == 0 then i + 1 else -(i + 1)
  }

  /** Column of candidate i relative to x0: 0, +1, -1, +2, -2, ... */
  function Shift(i: nat): int
  {
    if i % 2 == 1 then (i + 1) / 2 else -(i / 2)
  }

  /** Each failed candidate moves x by the current offset to reach the next one. */
  lemma ShiftStep(i: nat)
    ensures Shift(i + 1) == Shift(i) + OffsetAfter(i)
  {
  }

  /** The update `offset = -(offset + (offset > 0 ? 1 : -1))` takes the offset after
      i failures to the offset after i+1, growing its magnitude by one. */
  lemma OffsetStep(i: nat)
    ensures OffsetAfter(i + 1) == -(OffsetAfter(i) + (if OffsetAfter(i) > 0 then 1 else -1))
    ensures (if OffsetAfter(i) > 0 then OffsetAfter(i) else -OffsetAfter(i)) == i + 1
  {
  }

  /** How many candidates a shape of side n gets before the rotation is undone: the
      search stops after the i-th failure when the new offset, which is positive
      exactly for even i, exceeds n. */
  function KickCount(n: nat): (k: nat)
    ensures k >= 2 && k % 2 == 0 && k >= n
    ensures forall i :: 1 <= i < k ==> OffsetAfter(i) <= n
    ensures OffsetAfter(k) > n
    ensures n == 3 || n == 4 ==> k == 4
  {
    if n <= 2 then 2 else if n % 2 == 0 then n else n + 1
  }

  /** After i failures (1 <= i <= KickCount(n)) the offset exceeds n exactly when i is
      the last candidate's index plus one: this is where the search gives up. */
  lemma KickEnds(n: nat, i: nat)
    requires 1 <= i <= KickCount(n)
    ensures OffsetAfter(i) > n <==> i == KickCount(n)
  {
  }

  /** The candidate column px is rejected by the loop guard of playerRotate: the whole
      N-wide square sticks out of the arena on the left or right, or collide is true. */
  predicate Misplaced(arena: Matrix, m: Matrix, px: int, py: int)
    requires IsArena(arena) && m != []
  {
    px < 0 || px + |m[0]| > |arena[0]| || Collides(arena, m, px, py)
  }

  /** The loop guard of playerRotate, evaluated left to right: collide is only called
      when the square is within the side walls. */
  method CheckMisplaced(arena: Matrix, m: Matrix, px: int, py: int) returns (bad: bool)
    requires IsArena(arena) && m != []
    ensures bad == Misplaced(arena, m, px, py)
  {
    bad := px < 0 || px + |m[0]| > |arena[0]|;
    if !bad {
      bad := Collide(arena, m, px, py);
    }
  }

  /** Reference definition of the search: the first of the candidates i .. count-1
      that is not misplaced, if any. */
  function FirstFit(arena: Matrix, m: Matrix, x0: int, py: int, i: nat, count: nat): (r: Option<nat>)
    requires IsArena(arena) && m != []
    ensures r.Some? ==> i <= r.value < count && !Misplaced(arena, m, x0 + Shift(r.value), py)
    ensures r.Some? ==> forall k :: i <= k < r.value ==> Misplaced(arena, m, x0 + Shift(k), py)
    ensures r.None? ==> forall k :: i <= k < count ==> Misplaced(arena, m, x0 + Shift(k), py)
    decreases count - i
  {
    if i >= count then None
    else if !Misplaced(arena, m, x0 + Shift(i), py) then Some(i)
    else FirstFit(arena, m, x0, py, i + 1, count)
  }

  /** The column the search of playerRotate accepts for shape m when it starts from
      column x0: x0 moved by the shift of the first candidate that is not misplaced,
      or None when every candidate is. An accepted column keeps the whole N-wide square
      within the walls and free of collisions. */
  function KickColumn(arena: Matrix, m: Matrix, x0: int, py: int): (col: Option<int>)
    requires IsArena(arena) && m != []
    ensures col.Some? ==>
      0 <= col.value && col.value + |m[0]| <= |arena[0]| && !Collides(arena, m, col.value, py)
  {
    var fit := FirstFit(arena, m, x0, py, 0, KickCount(|m|));
    if fit.Some? then Some(x0 + Shift(fit.value)) else None
  }

  /** The loop of playerRotate for a turned shape m of side n whose left edge is at
      column x0: step through the candidates until one is not misplaced, and give up
      (None) once the next offset would exceed n. The result is the reference search's
      column, and an accepted column keeps the whole square within the walls and free
      of collisions. */
  method Kick(arena: Matrix, m: Matrix, x0: int, py: int) returns (px: Option<int>)
    requires IsArena(arena) && IsSquare(m) && m != []
    ensures px == KickColumn(arena, m, x0, py)
  {
    ghost var n := |m|;
    ghost var tried: nat := 0;
    var x := x0;
    var offset := 1;
    var blocked := CheckMisplaced(arena, m, x, py);
    while blocked
      invariant tried < KickCount(n) && offset == OffsetAfter(tried) && x == x0 + Shift(tried)
      invariant blocked == Misplaced(arena, m, x, py)
      invariant FirstFit(arena, m, x0, py, 0, KickCount(n)) == FirstFit(arena, m, x0, py, tried, KickCount(n))
      decreases n + 1 - (if offset > 0 then offset else -offset)
    {
      ShiftStep(tried);
      OffsetStep(tried);
      OffsetStep(tried + 1);
      x := x + offset;
      offset := -(offset + (if offset > 0 then 1 else -1));
      tried := tried + 1;
      KickEnds(n, tried);
      if offset > |m[0]| {
        return None;
      }
      blocked := CheckMisplaced(arena, m, x, py);
    }
    assert FirstFit(arena, m, x0, py, tried, KickCount(n)) == Some(tried);
    return Some(x);
  }

  /** The steps of playerRotate on values: turn the shape, move the column left by the
      turned shape's left offset, and search from there. The result is the turned
      shape and the column the search accepts, if any. */
  method TurnAndPlace(arena: Matrix, m: Matrix, px: int, py: int, dir: int) returns (turned: Matrix, fit: Option<int>)
    requires IsArena(arena) && IsSquare(m) && m != []
    ensures turned == Rotated(m, dir) && |turned| == |m|
    ensures fit == KickColumn(arena, turned, px - LeftOffset(turned), py)
  {
    turned := Rotate(m, dir);
    var _, leftOffset := MeasurePiece(turned);
    fit := Kick(arena, turned, px - leftOffset, py);
  }
}
