/** The arena's settled blocks: landing a piece (merge), the row sweep, and the row
    a hard drop lands on. */
module Field {
  import opened Matrix
  import opened Geometry

  // ---------------------------------------------------------------------------
  // Landing a piece
  // ---------------------------------------------------------------------------

  /** Arena cell (row, col) lies under a block of the shape placed at (px, py). */
  predicate Covers(m: Matrix, px: int, py: int, row: int, col: int)
  {
    Occupied(m, row - py, col - px)
  }

  /** One arena row after landing: cell j takes the colour of the piece row `prow`
      at column j - px when that piece cell holds a block, and keeps its own otherwise. */
  function StampRow(row: seq<int>, prow: seq<int>, px: int): (s: seq<int>)
    ensures |s| == |row|
    ensures forall j :: 0 <= j < |row| ==>
      s[j] == if 0 <= j - px < |prow| && prow[j - px] != 0 then prow[j - px] else row[j]
  {
    if row == [] then []
    else
      var j := |row| - 1;
      StampRow(row[..j], prow, px) + [if 0 <= j - px < |prow| && prow[j - px] != 0 then prow[j - px] else row[j]]
  }

  /** Reference definition of landing: every arena cell under a block of the shape
      takes that block's colour, and every other cell keeps its value. Blocks that
      fall outside the arena are dropped. */
  function Stamp(a: Matrix, m: Matrix, px: int, py: int): (s: Matrix)
    ensures |s| == |a| && forall i :: 0 <= i < |a| ==> |s[i]| == |a[i]|
    ensures forall i, j :: 0 <= i < |a| && 0 <= j < |a[i]| ==>
      s[i][j] == if Covers(m, px, py, i, j) then m[i - py][j - px] else a[i][j]
  {
    if a == [] then []
    else
      var i := |a| - 1;
      Stamp(a[..i], m, px, py) + [if 0 <= i - py < |m| then StampRow(a[i], m[i - py], px) else a[i]]
  }

  /** merge guards the bottom and the side walls but not the top: a block above the
      top row that is within the side walls indexes `arena[row]` for a negative row,
      which is undefined, and the write throws. */
  predicate MergeDefined(arena: Matrix, m: Matrix, px: int, py: int)
    requires IsArena(arena)
  {
    forall r, c ::
      0 <= r < |m| && 0 <= c < |m[r]| && m[r][c] != 0 && py + r < |arena| && 0 <= px + c < |arena[0]|
      ==> py + r >= 0
  }

  /** merge(arena, player): writes each block of the shape whose arena cell is above
      the bottom and within the side walls. The JavaScript mutates `arena`; here the
      new arena is returned. */
  method Merge(arena: Matrix, m: Matrix, px: int, py: int) returns (a: Matrix)
    requires IsArena(arena) && MergeDefined(arena, m, px, py)
    ensures a == Stamp(arena, m, px, py)
  {
    var w := |arena[0]|;
    a := arena;
    var y := 0;
    while y < |m|
      invariant 0 <= y <= |m|
      invariant |a| == |arena| && IsRect(a, w)
      invariant forall i, j {:trigger a[i][j]} :: 0 <= i < |a| && 0 <= j < w ==>
        a[i][j] == if Covers(m, px, py, i, j) && i - py < y then m[i - py][j - px] else arena[i][j]
    {
      var x := 0;
      while x < |m[y]|
        invariant 0 <= x <= |m[y]|
        invariant |a| == |arena| && IsRect(a, w)
        invariant forall i, j {:trigger a[i][j]} :: 0 <= i < |a| && 0 <= j < w ==>
          a[i][j] == if Covers(m, px, py, i, j) && (i - py < y || (i - py == y && j - px < x))
                     then m[i - py][j - px] else arena[i][j]
      {
        if m[y][x] != 0 {
          if y + py < |a| && x + px >= 0 && x + px < |a[0]| {
            a := a[y + py := a[y + py][x + px := m[y][x]]];
          }
        }
        x := x + 1;
      }
      y := y + 1;
    }
    forall i | 0 <= i < |a| ensures a[i] == Stamp(arena, m, px, py)[i] {
      assert forall j :: 0 <= j < w ==> a[i][j] == Stamp(arena, m, px, py)[i][j];
    }
  }

  /** The placement loop inside hardDrop: like merge, but it also skips blocks above
      the top row, so it is defined for every placement. */
  method PlaceLanded(arena: Matrix, m: Matrix, px: int, py: int) returns (a: Matrix)
    requires IsArena(arena)
    ensures a == Stamp(arena, m, px, py)
  {
    var w := |arena[0]|;
    a := arena;
    var y := 0;
    while y < |m|
      invariant 0 <= y <= |m|
      invariant |a| == |arena| && IsRect(a, w)
      invariant forall i, j {:trigger a[i][j]} :: 0 <= i < |a| && 0 <= j < w ==>
        a[i][j] == if Covers(m, px, py, i, j) && i - py < y then m[i - py][j - px] else arena[i][j]
    {
      var x := 0;
      while x < |m[y]|
        invariant 0 <= x <= |m[y]|
        invariant |a| == |arena| && IsRect(a, w)
        invariant forall i, j {:trigger a[i][j]} :: 0 <= i < |a| && 0 <= j < w ==>
          a[i][j] == if Covers(m, px, py, i, j) && (i - py < y || (i - py == y && j - px < x))
                     then m[i - py][j - px] else arena[i][j]
      {
        if m[y][x] != 0 {
          var arenaY, arenaX := y + py, x + px;
          if arenaY >= 0 && arenaY < |a| && arenaX >= 0 && arenaX < |a[0]| {
            a := a[arenaY := a[arenaY][arenaX := m[y][x]]];
          }
        }
        x := x + 1;
      }
      y := y + 1;
    }
    forall i | 0 <= i < |a| ensures a[i] == Stamp(arena, m, px, py)[i] {
      assert forall j :: 0 <= j < w ==> a[i][j] == Stamp(arena, m, px, py)[i][j];
    }
  }

  /** Once a piece with a block has landed, the same piece at the same place collides
      with the arena: a block inside the arena is now a settled cell, and a block
      outside it collides anyway. */
  lemma LandedPieceIsSettled(a: Matrix, m: Matrix, px: int, py: int)
    requires IsArena(a) && HasBlock(m)
    ensures IsArena(Stamp(a, m, px, py)) && Collides(Stamp(a, m, px, py), m, px, py)
  {
    var s := Stamp(a, m, px, py);
    var r, c :| 0 <= r < |m| && 0 <= c < |m[r]| && m[r][c] != 0;
    if 0 <= py + r < |a| && 0 <= px + c < |a[0]| {
      assert s[py + r][px + c] == m[r][c];
    }
    assert !CellFree(s, py + r, px + c);
  }

  // ---------------------------------------------------------------------------
  // Row sweep
  // ---------------------------------------------------------------------------

  /** Every cell of the row holds a block. */
  predicate Full(row: seq<int>)
  {
    forall j :: 0 <= j < |row| ==> row[j] != 0
  }

  /** Number of full rows. */
  function CountFull(a: Matrix): (k: nat)
    ensures k <= |a|
  {
    if a == [] then 0 else (if Full(a[0]) then 1 else 0) + CountFull(a[1..])
  }

  /** The rows that are not full, in their original order. */
  function Kept(a: Matrix): (s: Matrix)
    ensures |s| == |a| - CountFull(a)
    ensures forall i :: 0 <= i < |s| ==> !Full(s[i]) && s[i] in a
  {
    if a == [] then [] else (if Full(a[0]) then [] else [a[0]]) + Kept(a[1..])
  }

  /** Reference definition of arenaSweep's effect on the arena: the full rows are
      gone, the others have moved down, and as many empty rows of width w as were
      removed sit on top. */
  function Swept(a: Matrix, w: nat): Matrix
  {
    ZeroRows(CountFull(a), w) + Kept(a)
  }

  lemma {:induction false} CountFullAppend(x: Matrix, y: Matrix)
    ensures CountFull(x + y) == CountFull(x) + CountFull(y)
  {
    if x == [] {
      assert x + y == y;
    } else {
      assert (x + y)[1..] == x[1..] + y;
      CountFullAppend(x[1..], y);
    }
  }

  lemma {:induction false} KeptAppend(x: Matrix, y: Matrix)
    ensures Kept(x + y) == Kept(x) + Kept(y)
  {
    if x == [] {
      assert x + y == y;
    } else {
      assert (x + y)[1..] == x[1..] + y;
      KeptAppend(x[1..], y);
    }
  }

  /** Empty rows of a positive width are never full. */
  lemma {:induction false} ZeroRowsNotFull(k: nat, w: nat)
    requires w > 0
    ensures CountFull(ZeroRows(k, w)) == 0 && Kept(ZeroRows(k, w)) == ZeroRows(k, w)
  {
    if k > 0 {
      assert !Full(Zeros(w)) by { assert Zeros(w)[0] == 0; }
      assert ZeroRows(k, w)[1..] == ZeroRows(k - 1, w);
      ZeroRowsNotFull(k - 1, w);
    }
  }

  /** A list of rows none of which is full is kept whole. */
  lemma {:induction false} KeptOfNoFull(a: Matrix)
    requires forall i :: 0 <= i < |a| ==> !Full(a[i])
    ensures CountFull(a) == 0 && Kept(a) == a
  {
    if a != [] {
      KeptOfNoFull(a[1..]);
    }
  }

  /** The sweep keeps the arena's height and row width, and leaves no full row. */
  lemma SweptShape(a: Matrix, w: nat)
    requires IsRect(a, w) && w > 0
    ensures |Swept(a, w)| == |a| && IsRect(Swept(a, w), w)
    ensures forall i :: 0 <= i < |a| ==> !Full(Swept(a, w)[i])
  {
    var s := Swept(a, w);
    var k := CountFull(a);
    forall i | 0 <= i < |a| ensures |s[i]| == w && !Full(s[i]) {
      if i < k {
        assert s[i] == Zeros(w) && s[i][0] == 0;
      } else {
        assert s[i] == Kept(a)[i - k];
      }
    }
  }

  /** A row that is not full, put in front of rows t, is kept and not counted. */
  lemma KeptCons(r: seq<int>, t: Matrix)
    requires !Full(r)
    ensures CountFull([r] + t) == CountFull(t)
    ensures Kept([r] + t) == [r] + Kept(t)
  {
    assert ([r] + t)[1..] == t;
  }

  /** Around a row r that is not full, counting and keeping split into the rows x
      above it and the rows t below it. */
  lemma SplitAtKeptRow(x: Matrix, r: seq<int>, t: Matrix)
    requires !Full(r)
    ensures CountFull(x + ([r] + t)) == CountFull(x) + CountFull(t)
    ensures Kept(x + ([r] + t)) == Kept(x) + ([r] + Kept(t))
  {
    CountFullAppend(x, [r] + t);
    KeptAppend(x, [r] + t);
    KeptCons(r, t);
  }

  /** The row r placed after x and y sits at index |x| + |y|. */
  lemma IndexAfter(x: Matrix, y: Matrix, r: seq<int>, z: Matrix)
    ensures |x| + |y| < |x + (y + ([r] + z))| && (x + (y + ([r] + z)))[|x| + |y|] == r
  {
  }

  /** A row that is not full moves down by the number of full rows beneath it; the
      top CountFull(a) rows are empty. So the surviving rows keep their order. */
  lemma SweptRowMovesDown(a: Matrix, w: nat, i: int)
    requires 0 <= i < |a| && !Full(a[i])
    ensures i + CountFull(a[i + 1..]) < |a|
    ensures Swept(a, w)[i + CountFull(a[i + 1..])] == a[i]
  {
    assert a == a[..i] + ([a[i]] + a[i + 1..]);
    SplitAtKeptRow(a[..i], a[i], a[i + 1..]);
    IndexAfter(ZeroRows(CountFull(a), w), Kept(a[..i]), a[i], Kept(a[i + 1..]));
  }

  /** The top rows of a swept arena are empty, one per cleared row. */
  lemma SweptTopIsEmpty(a: Matrix, w: nat, i: int)
    requires 0 <= i < CountFull(a)
    ensures Swept(a, w)[i] == Zeros(w)
  {
  }

  /** Sweeping an already swept arena changes nothing. */
  lemma SweptIdempotent(a: Matrix, w: nat)
    requires IsRect(a, w) && w > 0
    ensures CountFull(Swept(a, w)) == 0 && Swept(Swept(a, w), w) == Swept(a, w)
  {
    SweptShape(a, w);
    KeptOfNoFull(Swept(a, w));
  }

  /** arenaSweep's arena while its scan is at `row`, with the p bottom-most rows of the
      original arena a0 already scanned: z empty rows on top, the unscanned rows, and
      the scanned rows that are not full. */
  function SweepState(a0: Matrix, z: nat, p: nat, w: nat): Matrix
    requires p <= |a0|
  {
    ZeroRows(z, w) + a0[..p] + Kept(a0[p..])
  }

  /** The row the scan looks at is the next unscanned row of a0, or one of the empty
      rows on top once every row has been scanned. */
  lemma SweepRowAt(a0: Matrix, z: nat, p: nat, w: nat, row: int)
    requires p <= |a0| && w > 0 && 0 <= row
    requires p > 0 ==> row == z + p - 1
    requires p == 0 ==> row < z
    ensures row < |SweepState(a0, z, p, w)|
    ensures p > 0 ==> SweepState(a0, z, p, w)[row] == a0[p - 1]
    ensures p == 0 ==> !Full(SweepState(a0, z, p, w)[row])
  {
    if p == 0 {
      assert SweepState(a0, z, p, w)[row] == Zeros(w);
      assert Zeros(w)[0] == 0;
    }
  }

  /** Once every row is scanned, the state is the empty rows above the kept rows. */
  lemma SweepDone(a0: Matrix, z: nat, w: nat)
    ensures SweepState(a0, z, 0, w) == ZeroRows(z, w) + Kept(a0)
  {
    assert a0[..0] == [] && a0[0..] == a0;
    assert ZeroRows(z, w) + [] == ZeroRows(z, w);
  }

  /** An empty row put on top of k empty rows makes k + 1 empty rows. */
  lemma {:induction false} ZeroRowsCons(k: nat, w: nat)
    ensures [Zeros(w)] + ZeroRows(k, w) == ZeroRows(k + 1, w)
  {
    if k > 0 {
      ZeroRowsCons(k - 1, w);
      assert [Zeros(w)] + ZeroRows(k, w) == ([Zeros(w)] + ZeroRows(k - 1, w)) + [Zeros(w)];
    }
  }

  /** A full first row of a0[i..] is counted and not kept. */
  lemma FullSuffixStep(a0: Matrix, i: nat)
    requires i < |a0| && Full(a0[i])
    ensures CountFull(a0[i..]) == CountFull(a0[i + 1..]) + 1
    ensures Kept(a0[i..]) == Kept(a0[i + 1..])
  {
    assert a0[i..][1..] == a0[i + 1..];
  }

  /** The first p elements are the first p - 1 followed by element p - 1. */
  lemma TakeSnoc<T>(s: seq<T>, p: nat)
    requires 0 < p <= |s|
    ensures s[..p] == s[..p - 1] + [s[p - 1]]
  {
  }

  /** Splicing out the row r at index `row`, which follows zs and front, and putting it
      back on top emptied gives an empty row, zs, front, and what followed r. */
  lemma RecycleRow(zs: Matrix, front: Matrix, r: seq<int>, back: Matrix, row: int, w: nat)
    requires row == |zs| + |front| && |r| == w
    ensures var rows := zs + (front + [r]) + back;
      0 <= row < |rows| &&
      [Zeros(|rows[row]|)] + (rows[..row] + rows[row + 1..]) == ([Zeros(w)] + zs) + front + back
  {
    var rows := zs + (front + [r]) + back;
    assert rows[row] == r;
    assert rows[..row] == zs + front;
    assert rows[row + 1..] == back;
  }

  /** The scan state with p > 0 rows unscanned, with the next row to scan written out. */
  lemma SweepStateAt(a0: Matrix, z: nat, p: nat, w: nat)
    requires 0 < p <= |a0|
    ensures SweepState(a0, z, p, w) == ZeroRows(z, w) + (a0[..p - 1] + [a0[p - 1]]) + Kept(a0[p..])
  {
    TakeSnoc(a0, p);
  }

  /** The scan state after a full row: one more empty row on top, and the full row
      neither unscanned nor kept. */
  lemma SweepStateAfterFull(a0: Matrix, z: nat, p: nat, w: nat)
    requires 0 < p <= |a0| && Full(a0[p - 1])
    ensures SweepState(a0, z + 1, p - 1, w) == ([Zeros(w)] + ZeroRows(z, w)) + a0[..p - 1] + Kept(a0[p..])
    ensures CountFull(a0[p - 1..]) == CountFull(a0[p..]) + 1
  {
    FullSuffixStep(a0, p - 1);
    ZeroRowsCons(z, w);
  }

  /** Scanning a full row: splicing it out and putting it back on top emptied yields
      the state with one more empty row and one more row scanned. */
  lemma SweepClearStep(a0: Matrix, z: nat, p: nat, w: nat, rows: Matrix, row: int)
    requires 0 < p <= |a0| && IsRect(a0, w) && Full(a0[p - 1])
    requires rows == SweepState(a0, z, p, w) && row == z + p - 1
    ensures 0 <= row < |rows|
    ensures [Zeros(|rows[row]|)] + (rows[..row] + rows[row + 1..]) == SweepState(a0, z + 1, p - 1, w)
    ensures CountFull(a0[p - 1..]) == CountFull(a0[p..]) + 1
  {
    SweepStateAt(a0, z, p, w);
    SweepStateAfterFull(a0, z, p, w);
    RecycleRow(ZeroRows(z, w), a0[..p - 1], a0[p - 1], Kept(a0[p..]), row, w);
  }

  /** Scanning a row that is not full leaves the arena as it is and counts the row as
      scanned. */
  lemma SweepKeepStep(a0: Matrix, z: nat, p: nat, w: nat)
    requires 0 < p <= |a0| && !Full(a0[p - 1])
    ensures SweepState(a0, z, p, w) == SweepState(a0, z, p - 1, w)
    ensures CountFull(a0[p - 1..]) == CountFull(a0[p..])
  {
    assert a0[p - 1..][1..] == a0[p..];
    assert a0[..p] == a0[..p - 1] + [a0[p - 1]];
  }

  /** The loop state of arenaSweep's scan: the arena is SweepState with z = the full
      rows among the p scanned rows, and `row` is the index being looked at. */
  ghost predicate Scanning(a0: Matrix, w: nat, rows: Matrix, z: nat, p: nat, row: int)
  {
    p <= |a0| && -1 <= row < |a0| && z == CountFull(a0[p..]) &&
    rows == SweepState(a0, z, p, w) &&
    (p > 0 ==> row + 1 == z + p) && (p == 0 ==> row + 1 <= z)
  }

  /** The row under scan exists, and it is one of a0's rows or an empty row. */
  lemma ScanRow(a0: Matrix, w: nat, rows: Matrix, z: nat, p: nat, row: int)
    requires Scanning(a0, w, rows, z, p, row) && 0 <= row && w > 0
    ensures row < |rows|
    ensures p > 0 ==> rows[row] == a0[p - 1]
    ensures p == 0 ==> !Full(rows[row])
  {
    SweepRowAt(a0, z, p, w, row);
  }

  /** A full row is spliced out and put back on top emptied, and scanned again. */
  lemma ScanClear(a0: Matrix, w: nat, rows: Matrix, z: nat, p: nat, row: int)
    requires IsRect(a0, w) && w > 0
    requires Scanning(a0, w, rows, z, p, row) && 0 <= row < |rows| && Full(rows[row])
    ensures p > 0
    ensures Scanning(a0, w, [Zeros(|rows[row]|)] + (rows[..row] + rows[row + 1..]), z + 1, p - 1, row)
  {
    ScanRow(a0, w, rows, z, p, row);
    SweepClearStep(a0, z, p, w, rows, row);
  }

  /** A row that is not full stays, and the scan moves up. */
  lemma ScanKeep(a0: Matrix, w: nat, rows: Matrix, z: nat, p: nat, row: int)
    requires Scanning(a0, w, rows, z, p, row) && 0 <= row < |rows| && !Full(rows[row]) && w > 0
    ensures Scanning(a0, w, rows, z, if p > 0 then p - 1 else 0, row - 1)
  {
    ScanRow(a0, w, rows, z, p, row);
    if p > 0 {
      SweepKeepStep(a0, z, p, w);
    }
  }

  /** The scan starts at the bottom row with nothing scanned. */
  lemma ScanStart(a0: Matrix, w: nat)
    ensures Scanning(a0, w, a0, 0, |a0|, |a0| - 1)
  {
    assert a0[|a0|..] == [] && a0[..|a0|] == a0;
  }

  /** When the scan has passed the top row, every row has been scanned and the
      arena is the reference sweep. */
  lemma ScanDone(a0: Matrix, w: nat, rows: Matrix, z: nat, p: nat, row: int)
    requires Scanning(a0, w, rows, z, p, row) && row < 0
    ensures rows == Swept(a0, w) && z == CountFull(a0)
  {
    assert p == 0 && a0[0..] == a0;
    SweepDone(a0, z, w);
  }

  /** The inner loop of arenaSweep: a row is full when no cell holds 0. */
  method RowFilled(row: seq<int>) returns (filled: bool)
    ensures filled == Full(row)
  {
    filled := true;
    var col := 0;
    while col < |row|
      invariant 0 <= col <= |row|
      invariant forall k :: 0 <= k < col ==> row[k] != 0
    {
      if row[col] == 0 {
        filled := false;
        break;
      }
      col := col + 1;
    }
  }

  /** The row scan of arenaSweep: from the bottom row up, a full row is spliced out
      and an empty row of the same width is put on top, and then the same index is
      examined again (the `++y` before the loop's `--y`). The result is the reference
      sweep, and the count is the number of full rows. */
  method SweepRows(arena: Matrix, w: nat) returns (rows: Matrix, linesCleared: nat)
    requires IsRect(arena, w) && w > 0
    ensures rows == Swept(arena, w) && linesCleared == CountFull(arena)
  {
    rows := arena;
    linesCleared := 0;
    var row := |rows| - 1;
    ghost var p: nat := |rows|;
    ScanStart(arena, w);
    while row >= 0
      invariant Scanning(arena, w, rows, linesCleared, p, row)
      decreases p + row + 1
    {
      ScanRow(arena, w, rows, linesCleared, p, row);
      var rowFilled := RowFilled(rows[row]);
      if rowFilled {
        ScanClear(arena, w, rows, linesCleared, p, row);
        rows := [Zeros(|rows[row]|)] + (rows[..row] + rows[row + 1..]);
        row := row + 1;
        linesCleared := linesCleared + 1;
        p := p - 1;
      } else {
        ScanKeep(arena, w, rows, linesCleared, p, row);
        p := if p > 0 then p - 1 else 0;
      }
      row := row - 1;
    }
    ScanDone(arena, w, rows, linesCleared, p, row);
  }

  // ---------------------------------------------------------------------------
  // Hard drop
  // ---------------------------------------------------------------------------

  /** The drop loop of hardDrop: move down while the piece does not collide, then
      back up one row. It ends because every row from the bottom on collides. */
  method DropToRest(arena: Matrix, m: Matrix, px: int, py: int) returns (y: int)
    requires IsArena(arena) && HasBlock(m)
    ensures y == LandingRow(arena, m, px, py)
  {
    y := py;
    var hit := Collide(arena, m, px, y);
    while !hit
      invariant y >= py && hit == Collides(arena, m, px, y)
      invariant LandingRow(arena, m, px, y) == LandingRow(arena, m, px, py)
      decreases |arena| - y
    {
      BelowBottomCollides(arena, m, px, y);
      y := y + 1;
      hit := Collide(arena, m, px, y);
    }
    y := y - 1;
  }

  /** The drop and the placement of hardDrop together: the arena with the piece
      stamped at its landing row. */
  method HardLand(arena: Matrix, m: Matrix, px: int, py: int) returns (a: Matrix)
    requires IsArena(arena) && HasBlock(m)
    ensures a == Stamp(arena, m, px, LandingRow(arena, m, px, py))
  {
    var y := DropToRest(arena, m, px, py);
    a := PlaceLanded(arena, m, px, y);
  }

  /** Reference definition of the drop loop of hardDrop (`while (!collide) y++; y--`):
      the row the piece ends on. */
  function LandingRow(arena: Matrix, m: Matrix, px: int, py: int): (ly: int)
    requires IsArena(arena) && HasBlock(m)
    ensures Collides(arena, m, px, py) ==> ly == py - 1
    ensures !Collides(arena, m, px, py) ==>
      py <= ly && Collides(arena, m, px, ly + 1) &&
      forall k :: py <= k <= ly ==> !Collides(arena, m, px, k)
    decreases |arena| - py
  {
    if Collides(arena, m, px, py) then py - 1
    else
      BelowBottomCollides(arena, m, px, py);
      LandingRow(arena, m, px, py + 1)
  }
}
