/** The game state of tetris.js (the arena, the player's piece and position, and the
    session counters) and the operations the controls and the timer call on it. */
module Engine {
  import opened Matrix
  import opened Pieces
  import opened Geometry
  import opened Kicks
  import opened Field
  import opened Scoring

  /** createMatrix(10, 20): the arena's columns and rows. */
  const Width := 10
  const Height := 20

  /** The `player` object: the active piece's shape (`[]` stands for the `null` it
      holds until the first spawn) and player.pos, the arena cell under the shape's
      top-left corner. Its `score` member is never read and is not modelled. */
  datatype Player = Player(matrix: Matrix, x: int, y: int)

  /** playerReset's spawn column: Math.max(0, Math.floor(10 / 2) - Math.floor(N / 2)),
      with the arena width written as the literal 10. */
  function ResetColumn(n: nat): int
  {
    if 10 / 2 - n / 2 < 0 then 0 else 10 / 2 - n / 2
  }

  /** Every piece spawned on an empty arena fits: a fresh game never starts over. */
  lemma SpawnFitsEmptyArena(t: int)
    ensures !Collides(ZeroRows(Height, Width), CreatePiece(t), ResetColumn(|CreatePiece(t)|), 0)
  {
    var m := CreatePiece(t);
    var a := ZeroRows(Height, Width);
    var px := ResetColumn(|m|);
    forall r, c | 0 <= r < |m| && 0 <= c < |m[r]| && m[r][c] != 0 ensures CellFree(a, r, px + c) {
      assert a[r] == Zeros(Width);
    }
  }

  class Game {
    /** The settled blocks, row 0 at the top. */
    var arena: Matrix
    var player: Player
    var score: int
    var level: int
    /** Milliseconds accumulated since the last automatic drop. */
    var dropCounter: int
    /** Milliseconds between automatic drops. */
    var dropInterval: int
    var gameOver: bool
    var isPaused: bool

    /** The arena keeps its 10 by 20 size; a spawned piece is a square shape with at
        least one block. */
    ghost predicate Shaped()
      reads this
    {
      |arena| == Height && IsRect(arena, Width) && IsSquare(player.matrix) &&
      (player.matrix != [] ==> HasBlock(player.matrix))
    }

    /** The state between two calls from the controls or the timer: the piece is never
        above the top, the level matches the score, and the interval is one updateScore
        can produce or the initial 1000. */
    ghost predicate Valid()
      reads this
    {
      Shaped() && player.y >= 0 && score >= 0 && level == LevelFor(score) && 100 <= dropInterval <= 1000
    }

    /** A piece has been spawned (player.matrix is no longer null). */
    predicate HasPiece()
      reads this
    {
      player.matrix != []
    }

    /** The score, the level, the drop timer and the pause flag did not change. */
    twostate predicate TimingUnchanged()
      reads this
    {
      score == old(score) && level == old(level) && dropCounter == old(dropCounter) &&
      dropInterval == old(dropInterval) && isPaused == old(isPaused)
    }

    /** The session counters and flags did not change. */
    twostate predicate CountersUnchanged()
      reads this
    {
      TimingUnchanged() && gameOver == old(gameOver)
    }

    /** The arena and the piece did not change. */
    twostate predicate BoardUnchanged()
      reads this
    {
      arena == old(arena) && player == old(player)
    }

    /** The module-level initialisation: an empty arena, no piece yet, score 0, level 1,
        a 1000 ms interval. */
    constructor ()
      ensures Valid() && !HasPiece()
      ensures arena == ZeroRows(Height, Width) && player == Player([], 0, 0)
      ensures score == 0 && level == 1 && dropCounter == 0 && dropInterval == 1000
      ensures !gameOver && !isPaused
    {
      var grid := CreateMatrix(Width, Height);
      assert grid == ZeroRows(Height, Width) by {
        forall i | 0 <= i < Height ensures grid[i] == Zeros(Width) {
          assert forall j :: 0 <= j < Width ==> grid[i][j] == 0;
        }
      }
      arena := grid;
      player := Player([], 0, 0);
      score, level := 0, 1;
      dropCounter, dropInterval := 0, 1000;
      gameOver, isPaused := false, false;
    }

    /** playerReset: spawn a piece of type t (the random choice is the caller's) at the
        top, centred in a 10-wide arena, and end the game if it already collides. */
    method PlayerReset(t: int)
      requires Shaped() && 1 <= t <= 7
      modifies this
      ensures Shaped() && HasPiece() && arena == old(arena) && TimingUnchanged()
      ensures player == Player(CreatePiece(t), ResetColumn(|CreatePiece(t)|), 0)
      ensures gameOver == (old(gameOver) || Collides(arena, player.matrix, player.x, player.y))
    {
      var m := CreatePiece(t);
      var centred := 10 / 2 - |m[0]| / 2;
      player := Player(m, if 0 > centred then 0 else centred, 0);
      var hit := Collide(arena, player.matrix, player.x, player.y);
      if hit {
        gameOver := true;
      }
    }

    /** playerMove(dir): shift the piece by dir columns when its occupied columns stay
        within the walls and it does not collide there; otherwise nothing changes.
        Because the piece has a block, this is exactly "when it does not collide". */
    method PlayerMove(dir: int)
      requires Valid() && HasPiece()
      modifies this
      ensures Valid() && CountersUnchanged() && arena == old(arena)
      ensures player.matrix == old(player.matrix) && player.y == old(player.y)
      ensures player.x == if Collides(arena, player.matrix, old(player.x) + dir, player.y)
                          then old(player.x) else old(player.x) + dir
      ensures !Collides(arena, player.matrix, old(player.x), player.y) ==>
        !Collides(arena, player.matrix, player.x, player.y)
    {
      var newX := player.x + dir;
      var pieceWidth, leftOffset := MeasurePiece(player.matrix);
      var adjustedNewX := newX + leftOffset;
      if adjustedNewX >= 0 && newX + pieceWidth <= |arena[0]| {
        var hit := Collide(arena, player.matrix, newX, player.y);
        if hit {
          return;
        }
        player := player.(x := newX);
      } else if !Collides(arena, player.matrix, newX, player.y) {
        FreePlacementWithinWalls(arena, player.matrix, newX, player.y);
      }
    }

    /** playerRotate(dir): turn the piece, move its column left by the turned shape's
        left offset (the old left offset is not added back, so repeated turns can drift
        the piece to the left), then try the columns x0, x0+1, x0-1, x0+2, ... until
        the whole square is within the walls and does not collide (TurnAndPlace); when
        the search gives up, the shape and column it started with are restored. */
    method PlayerRotate(dir: int)
      requires Valid() && HasPiece()
      modifies this
      ensures Valid() && CountersUnchanged() && arena == old(arena) && player.y == old(player.y)
      ensures
        var turned := Rotated(old(player.matrix), dir);
        var col := KickColumn(arena, turned, old(player.x) - LeftOffset(turned), old(player.y));
        if col.Some? then player == old(player).(matrix := turned, x := col.value)
        else player == old(player)
    {
      var turned, fit := TurnAndPlace(arena, player.matrix, player.x, player.y, dir);
      RotationKeepsBlockCount(player.matrix, dir);
      player := if fit.Some? then player.(matrix := turned, x := fit.value) else player;
    }

    /** updateScore, without the text written to the page: the level and the drop
        interval follow from the score. */
    method UpdateScore()
      modifies this
      ensures level == LevelFor(score) && dropInterval == IntervalFor(level)
      ensures score >= 0 ==> level >= 1 && 100 <= dropInterval <= 1000
      ensures BoardUnchanged() && score == old(score) && dropCounter == old(dropCounter)
      ensures gameOver == old(gameOver) && isPaused == old(isPaused)
    {
      var newLevel := score / 1000 + 1;
      var interval := 1000 - (newLevel * 100);
      if interval < 100 {
        interval := 100;
      }
      level, dropInterval := newLevel, interval;
    }

    /** arenaSweep: clear the full rows (SweepRows), then add the points for the
        number of rows cleared to the score. */
    method ArenaSweep()
      requires Shaped()
      modifies this
      ensures Shaped() && player == old(player)
      ensures arena == Swept(old(arena), Width)
      ensures score == old(score) + ScoreDelta(CountFull(old(arena))) && score >= old(score)
      ensures level == old(level) && dropCounter == old(dropCounter) && dropInterval == old(dropInterval)
      ensures gameOver == old(gameOver) && isPaused == old(isPaused)
    {
      var rows, linesCleared := SweepRows(arena, Width);
      SweptShape(arena, Width);
      var points := 0;
      if linesCleared > 0 {
        points := linesCleared * 100;
        if linesCleared == 2 {
          points := points + 100;
        } else if linesCleared == 3 {
          points := points + 200;
        } else if linesCleared == 4 {
          points := points + 400;
        }
      }
      arena, score := rows, score + points;
    }

    /** What a soft drop that does not land does, dropCounter aside: the piece moves
        one row down and nothing else changes. */
    twostate predicate MovedDown()
      reads this
    {
      arena == old(arena) && player == old(player).(y := old(player).y + 1) &&
      score == old(score) && level == old(level) && dropInterval == old(dropInterval) &&
      gameOver == old(gameOver) && isPaused == old(isPaused)
    }

    /** What a soft drop that lands does, dropCounter aside: merge at the old place,
        spawn a piece of type t, check the spawn against the arena BEFORE the sweep,
        then sweep and rescore. */
    twostate predicate LandedBySoftDrop(t: int)
      requires 1 <= t <= 7
      reads this
    {
      var landed := Stamp(old(arena), old(player).matrix, old(player).x, old(player).y);
      var next := CreatePiece(t);
      |landed| > 0 && IsRect(landed, |landed[0]|) &&
      arena == Swept(landed, Width) && player == Player(next, ResetColumn(|next|), 0) &&
      gameOver == (old(gameOver) || Collides(landed, next, ResetColumn(|next|), 0)) &&
      score == old(score) + ScoreDelta(CountFull(landed)) &&
      level == LevelFor(score) && dropInterval == IntervalFor(level) && isPaused == old(isPaused)
    }

    /** playerDrop: move the piece one row down; if it collides there, move it back,
        merge it, spawn the next piece (which may end the game), sweep and rescore.
        The drop timer restarts either way. */
    method PlayerDrop(t: int)
      requires Valid() && HasPiece() && 1 <= t <= 7
      modifies this
      ensures Valid() && HasPiece() && dropCounter == 0
      ensures !Collides(old(arena), old(player).matrix, old(player).x, old(player).y + 1) ==> MovedDown()
      ensures Collides(old(arena), old(player).matrix, old(player).x, old(player).y + 1) ==> LandedBySoftDrop(t)
    {
      var hit := Collide(arena, player.matrix, player.x, player.y + 1);
      if hit {
        arena := Merge(arena, player.matrix, player.x, player.y);
        PlayerReset(t);
        ArenaSweep();
        UpdateScore();
      } else {
        player := player.(y := player.y + 1);
      }
      dropCounter := 0;
    }

    /** The first part of hardDrop: move the piece down while it does not collide and
        then back one row, place it there, and put a piece of type t at the top,
        centred in the arena by its width (without playerReset's clamp at 0 and
        without its collision check). */
    method LandAndSpawn(t: int)
      requires Valid() && HasPiece() && 1 <= t <= 7
      modifies this
      ensures Shaped() && HasPiece() && CountersUnchanged()
      ensures arena == Stamp(old(arena), old(player).matrix, old(player).x,
                             LandingRow(old(arena), old(player).matrix, old(player).x, old(player).y))
      ensures player == Player(CreatePiece(t), Width / 2 - |CreatePiece(t)| / 2, 0)
    {
      var placed := HardLand(arena, player.matrix, player.x, player.y);
      var next := CreatePiece(t);
      arena, player := placed, Player(next, |placed[0]| / 2 - |next[0]| / 2, 0);
    }

    /** The second part of hardDrop: sweep and rescore, then end the game if the new
        piece collides with the swept arena, and otherwise restart the drop timer. */
    method SweepAndCheck()
      requires Valid() && HasPiece()
      modifies this
      ensures Valid() && HasPiece() && player == old(player) && isPaused == old(isPaused)
      ensures arena == Swept(old(arena), Width)
      ensures score == old(score) + ScoreDelta(CountFull(old(arena)))
      ensures level == LevelFor(score) && dropInterval == IntervalFor(level)
      ensures gameOver == (old(gameOver) || Collides(arena, player.matrix, player.x, player.y))
      ensures dropCounter == if Collides(arena, player.matrix, player.x, player.y) then old(dropCounter) else 0
    {
      ArenaSweep();
      UpdateScore();
      var over := Collide(arena, player.matrix, player.x, player.y);
      if over {
        gameOver := true;
      } else {
        dropCounter := 0;
      }
    }

    /** hardDrop, for a piece type t: unless the game is over or paused, land the piece
        and spawn the next one (LandAndSpawn), then sweep, rescore and check the new
        piece (SweepAndCheck). */
    method HardDrop(t: int)
      requires Valid() && HasPiece() && 1 <= t <= 7
      modifies this
      ensures Valid() && HasPiece()
      ensures old(gameOver) || old(isPaused) ==> BoardUnchanged() && CountersUnchanged()
      ensures !old(gameOver) && !old(isPaused) ==>
        var ly := LandingRow(old(arena), old(player).matrix, old(player).x, old(player).y);
        var landed := Stamp(old(arena), old(player).matrix, old(player).x, ly);
        var next := CreatePiece(t);
        arena == Swept(landed, Width) && player == Player(next, Width / 2 - |next| / 2, 0) &&
        score == old(score) + ScoreDelta(CountFull(landed)) &&
        level == LevelFor(score) && dropInterval == IntervalFor(level) &&
        gameOver == Collides(arena, player.matrix, player.x, player.y) && isPaused == old(isPaused) &&
        dropCounter == (if gameOver then old(dropCounter) else 0)
    {
      if gameOver || isPaused {
        return;
      }
      LandAndSpawn(t);
      SweepAndCheck();
    }

    /** The automatic drop of update(time), with the elapsed time passed in: unless
        the game is over or paused, add delta to the counter and, once it exceeds the
        interval, drop the piece one row (at most once per call) and reset the counter. */
    method Update(delta: int, t: int)
      requires Valid() && HasPiece() && 1 <= t <= 7
      modifies this
      ensures Valid() && HasPiece()
      ensures old(gameOver) || old(isPaused) ==> BoardUnchanged() && CountersUnchanged()
      ensures !old(gameOver) && !old(isPaused) && old(dropCounter) + delta <= old(dropInterval) ==>
        BoardUnchanged() && dropCounter == old(dropCounter) + delta &&
        score == old(score) && level == old(level) && dropInterval == old(dropInterval) &&
        gameOver == old(gameOver) && isPaused == old(isPaused)
      ensures !old(gameOver) && !old(isPaused) && old(dropCounter) + delta > old(dropInterval) ==>
        dropCounter == 0 &&
        if Collides(old(arena), old(player).matrix, old(player).x, old(player).y + 1)
        then LandedBySoftDrop(t) else MovedDown()
    {
      if gameOver || isPaused {
        return;
      }
      var counter := dropCounter + delta;
      if counter > dropInterval {
        PlayerDrop(t);
        dropCounter := 0;
      } else {
        dropCounter := counter;
      }
    }

    /** startGame: empty every arena row, reset score, level, flags and the drop
        counter (but not the drop interval), and spawn the first piece of type t. */
    method StartGame(t: int)
      requires Valid() && 1 <= t <= 7
      modifies this
      ensures Valid() && HasPiece()
      ensures arena == ZeroRows(Height, Width)
      ensures score == 0 && level == 1 && dropCounter == 0 && dropInterval == old(dropInterval)
      ensures player == Player(CreatePiece(t), ResetColumn(|CreatePiece(t)|), 0)
      ensures !gameOver && !isPaused
    {
      var rows := arena;
      var i := 0;
      while i < |rows|
        invariant 0 <= i <= |rows| == Height && IsRect(rows, Width)
        invariant forall k :: 0 <= k < i ==> rows[k] == Zeros(Width)
      {
        rows := rows[i := Zeros(|rows[i]|)];
        i := i + 1;
      }
      assert rows == ZeroRows(Height, Width);
      arena := rows;
      score, level := 0, 1;
      gameOver, isPaused := false, false;
      dropCounter := 0;
      PlayerReset(t);
      SpawnFitsEmptyArena(t);
    }

    /** togglePause: flip the pause flag. */
    method TogglePause()
      modifies this
      ensures isPaused == !old(isPaused) && BoardUnchanged()
      ensures score == old(score) && level == old(level) && dropCounter == old(dropCounter)
      ensures dropInterval == old(dropInterval) && gameOver == old(gameOver)
    {
      isPaused := !isPaused;
    }
  }
}
