/** The game state of `pig.js`: the arena and the player (piece matrix,
    position and score), with the operations that update them in place. */
module Tetris {

  import opened Grid
  import opened Pieces
  import opened Rotation
  import opened Collision
  import opened Kick
  import opened Sweep

  /** `createMatrix(15, 30)`: the arena is 15 cells wide and 30 rows high. */
  const Width: nat := 15
  const Height: nat := 30

  /** The spawn column `(W / 2 | 0) - (n / 2 | 0)`; both operands are
      non-negative, so `| 0` is floor division. */
  function SpawnX(w: nat, n: nat): (x: int)
    ensures n <= w ==> 0 <= x && x + n <= w
    ensures (w - n - x) - x == w % 2 - n % 2
  {
    w / 2 - n / 2
  }

  /** A square piece of side 2 to 4, which every catalogue piece is,
      spawned at row 0 lies inside a 15-by-30 arena. */
  lemma SpawnInBounds(arena: Matrix, p: Matrix)
    requires IsGrid(arena, Width, Height)
    requires Square(p) && 2 <= |p| <= 4
    ensures InBounds(arena, p, SpawnX(Width, |p|), 0)
  {
  }

  /** The arena with piece `p` copied in at (px, py): a filled piece cell
      overwrites the arena cell under it; every other cell keeps its value. */
  function Merged(a: Matrix, p: Matrix, px: int, py: int): (r: Matrix)
    ensures |r| == |a| && forall k :: 0 <= k < |a| ==> |r[k]| == |a[k]|
  {
    seq(|a|, k requires 0 <= k < |a| =>
      seq(|a[k]|, c requires 0 <= c < |a[k]| =>
        if Covers(p, k - py, c - px) then p[k - py][c - px] else a[k][c]))
  }

  /** Merging copies piece cells into the arena, so it keeps every cell
      value in 0 to 7. */
  lemma MergedCellsIn(a: Matrix, p: Matrix, px: int, py: int)
    requires CellsIn(a) && CellsIn(p)
    ensures CellsIn(Merged(a, p, px, py))
  {
    var m := Merged(a, p, px, py);
    forall r, c | 0 <= r < |m| && 0 <= c < |m[r]|
      ensures 0 <= m[r][c] <= 7
    {
      if Covers(p, r - py, c - px) {
        assert m[r][c] == p[r - py][c - px];
      } else {
        assert m[r][c] == a[r][c];
      }
    }
  }

  /** Piece cell (i, j) comes before cell (ni, nj) in row-major order. */
  predicate Before(i: int, j: int, ni: int, nj: int) {
    i < ni || (i == ni && j < nj)
  }

  /** The arena after `merge` has copied the piece cells that come before
      (ni, nj) in row-major order. */
  function MergedUpTo(a: Matrix, p: Matrix, px: int, py: int, ni: int, nj: int): Matrix {
    seq(|a|, k requires 0 <= k < |a| =>
      seq(|a[k]|, c requires 0 <= c < |a[k]| =>
        if Covers(p, k - py, c - px) && Before(k - py, c - px, ni, nj) then p[k - py][c - px] else a[k][c]))
  }

  lemma MergedUpToStart(a: Matrix, p: Matrix, px: int, py: int)
    ensures MergedUpTo(a, p, px, py, 0, 0) == a
  {
    var m := MergedUpTo(a, p, px, py, 0, 0);
    forall k | 0 <= k < |a|
      ensures m[k] == a[k]
    {
      forall c | 0 <= c < |a[k]|
        ensures m[k][c] == a[k][c]
      {
        assert !Before(k - py, c - px, 0, 0) || !Covers(p, k - py, c - px);
      }
    }
  }

  lemma MergedUpToStep(a: Matrix, p: Matrix, px: int, py: int, i: int, j: int)
    requires Square(p) && 0 <= i < |p| && 0 <= j < |p|
    requires InBounds(a, p, px, py)
    ensures var m := MergedUpTo(a, p, px, py, i, j);
      Covers(p, i, j) ==> 0 <= py + i < |m| && 0 <= px + j < |m[py + i]|
    ensures var m := MergedUpTo(a, p, px, py, i, j);
      MergedUpTo(a, p, px, py, i, j + 1) ==
        if Covers(p, i, j) then m[py + i := m[py + i][px + j := p[i][j]]] else m
  {
    var m := MergedUpTo(a, p, px, py, i, j);
    var m' := MergedUpTo(a, p, px, py, i, j + 1);
    var e := if Covers(p, i, j) then m[py + i := m[py + i][px + j := p[i][j]]] else m;
    forall k | 0 <= k < |a|
      ensures m'[k] == e[k]
    {
      forall c | 0 <= c < |a[k]|
        ensures m'[k][c] == e[k][c]
      {
        assert Before(k - py, c - px, i, j + 1) <==>
          Before(k - py, c - px, i, j) || (k - py == i && c - px == j);
        assert Covers(p, k - py, c - px) || !Covers(p, k - py, c - px);
      }
    }
  }

  lemma MergedUpToNextRow(a: Matrix, p: Matrix, px: int, py: int, i: int)
    requires Square(p)
    ensures MergedUpTo(a, p, px, py, i, |p|) == MergedUpTo(a, p, px, py, i + 1, 0)
  {
    var m := MergedUpTo(a, p, px, py, i, |p|);
    var m' := MergedUpTo(a, p, px, py, i + 1, 0);
    forall k | 0 <= k < |a|
      ensures m[k] == m'[k]
    {
      forall c | 0 <= c < |a[k]|
        ensures m[k][c] == m'[k][c]
      {
        assert Covers(p, k - py, c - px) ==>
          (Before(k - py, c - px, i, |p|) <==> Before(k - py, c - px, i + 1, 0));
      }
    }
  }

  lemma MergedUpToEnd(a: Matrix, p: Matrix, px: int, py: int)
    ensures MergedUpTo(a, p, px, py, |p|, 0) == Merged(a, p, px, py)
  {
    var m := MergedUpTo(a, p, px, py, |p|, 0);
    var m' := Merged(a, p, px, py);
    forall k | 0 <= k < |a|
      ensures m[k] == m'[k]
    {
      forall c | 0 <= c < |a[k]|
        ensures m[k][c] == m'[k][c]
      {
        assert Covers(p, k - py, c - px) ==> Before(k - py, c - px, |p|, 0);
      }
    }
  }

  /** Every filled piece cell is written at its offset, and every cell the
      piece does not cover keeps its value. */
  lemma MergedCells(a: Matrix, p: Matrix, px: int, py: int)
    requires InBounds(a, p, px, py)
    ensures forall i, j :: 0 <= i < |p| && 0 <= j < |p[i]| && Covers(p, i, j) ==>
      Merged(a, p, px, py)[py + i][px + j] == p[i][j]
    ensures forall k, c :: 0 <= k < |a| && 0 <= c < |a[k]| && !Covers(p, k - py, c - px) ==>
      Merged(a, p, px, py)[k][c] == a[k][c]
  {
  }

  /** Once merged, the piece blocks the place it was merged at, and merging
      never empties a filled cell. */
  lemma MergedBlocksPiece(a: Matrix, p: Matrix, px: int, py: int)
    requires InBounds(a, p, px, py)
    requires exists i, j :: 0 <= i < |p| && 0 <= j < |p[i]| && Covers(p, i, j)
    ensures Overlaps(Merged(a, p, px, py), p, px, py)
    ensures forall k, c :: 0 <= k < |a| && 0 <= c < |a[k]| && a[k][c] != 0 ==> Merged(a, p, px, py)[k][c] != 0
  {
    var m := Merged(a, p, px, py);
    var i, j :| 0 <= i < |p| && 0 <= j < |p[i]| && Covers(p, i, j);
    assert m[py + i][px + j] == p[i][j];
    assert Blocked(m, py + i, px + j);
    forall k, c | 0 <= k < |a| && 0 <= c < |a[k]| && a[k][c] != 0
      ensures m[k][c] != 0
    {
      if Covers(p, k - py, c - px) {
        assert m[k][c] == p[k - py][c - px];
      } else {
        assert m[k][c] == a[k][c];
      }
    }
  }

  /** 2 to the power k. */
  function Pow2(k: nat): (r: nat)
    ensures r >= 1
  {
    if k == 0 then 1 else 2 * Pow2(k - 1)
  }

  /** The speed level: one more every 30 points. */
  function SpeedLevel(score: nat): nat {
    score / 30
  }

  /** `calculateDropInterval(score)`: 1000 ms halved once per speed level. */
  function DropInterval(score: nat): (ms: real)
    ensures 0.0 < ms <= 1000.0
  {
    1000.0 / (Pow2(SpeedLevel(score)) as real)
  }

  /** The interval is 1000 ms below 30 points and halves with every further
      30 points. */
  lemma DropIntervalHalves(score: nat)
    ensures score < 30 ==> DropInterval(score) == 1000.0
    ensures DropInterval(score + 30) == DropInterval(score) / 2.0
  {
    assert SpeedLevel(score + 30) == SpeedLevel(score) + 1;
    var p := Pow2(SpeedLevel(score)) as real;
    assert Pow2(SpeedLevel(score + 30)) as real == 2.0 * p;
  }

  /** The arena, the player and the drop interval. */
  datatype State = State(arena: Matrix, piece: Matrix, x: int, y: int, score: nat, dropInterval: real)

  /** The state after locking piece `p` at (px, py) into arena `a` with
      score `s`, the next piece being `shape`: the piece is merged and the
      new piece spawned; when it collides at once the arena and the score
      are emptied and the interval set to 1000 ms; then the arena is swept
      with 15 points per removed row, and the interval recomputed from the
      score. */
  function Locked(a: Matrix, p: Matrix, px: int, py: int, s: nat, shape: Shape): (st: State)
    ensures st.piece == CreatePiece(shape) && st.y == 0
    ensures 0 <= st.x && st.x + |st.piece| <= Width
    ensures 0.0 < st.dropInterval <= 1000.0
  {
    var merged := Merged(a, p, px, py);
    var q := CreatePiece(shape);
    var over := Overlaps(merged, q, SpawnX(Width, |q|), 0);
    var spawned := if over then Cleared(merged) else merged;
    var score := (if over then 0 else s) + 15 * ClearedRows(spawned);
    State(Swept(spawned, Width), q, SpawnX(Width, |q|), 0, score, DropInterval(score))
  }

  /** Locked in terms of its stages: the merged arena, then the arena and
      score that the spawn test leaves. */
  lemma LockedStages(a: Matrix, p: Matrix, px: int, py: int, s: nat, shape: Shape,
                     merged: Matrix, spawned: Matrix, kept: nat)
    requires merged == Merged(a, p, px, py)
    requires var q := CreatePiece(shape);
      if Overlaps(merged, q, SpawnX(Width, |q|), 0)
      then spawned == Cleared(merged) && kept == 0
      else spawned == merged && kept == s
    ensures var q := CreatePiece(shape); var score := kept + 15 * ClearedRows(spawned);
      Locked(a, p, px, py, s, shape) ==
        State(Swept(spawned, Width), q, SpawnX(Width, |q|), 0, score, DropInterval(score))
  {
  }

  /** A lock whose new piece collides at once ends the game: the arena is
      empty, the score 0 and the interval back to 1000 ms. */
  lemma LockedGameOver(a: Matrix, p: Matrix, px: int, py: int, s: nat, shape: Shape)
    requires IsGrid(a, Width, Height)
    requires var q := CreatePiece(shape); Overlaps(Merged(a, p, px, py), q, SpawnX(Width, |q|), 0)
    ensures var st := Locked(a, p, px, py, s, shape);
      AllZero(st.arena) && st.score == 0 && st.dropInterval == 1000.0
  {
    var z := Cleared(Merged(a, p, px, py));
    SweepEmpty(z, Width, Height);
  }

  /** Otherwise the score only grows, by 15 per removed row, and the arena
      keeps its size with no full row left below the top. */
  lemma LockedScores(a: Matrix, p: Matrix, px: int, py: int, s: nat, shape: Shape)
    requires IsGrid(a, Width, Height)
    requires var q := CreatePiece(shape); !Overlaps(Merged(a, p, px, py), q, SpawnX(Width, |q|), 0)
    ensures var st := Locked(a, p, px, py, s, shape);
      st.score >= s && (st.score - s) % 15 == 0 && IsGrid(st.arena, Width, Height) &&
      forall r :: 1 <= r < |st.arena| ==> !Full(st.arena[r])
  {
    var m := Merged(a, p, px, py);
    SweptShape(m, Width, Height);
    SweptNoFullRowBelowTop(m, Width, Height);
  }

  /** A lock keeps every cell value of the arena and of the piece in 0 to 7:
      merging, clearing and sweeping introduce no other value, and the next
      piece is a catalogue pattern. */
  lemma LockedCellsIn(a: Matrix, p: Matrix, px: int, py: int, s: nat, shape: Shape)
    requires CellsIn(a) && CellsIn(p)
    ensures var st := Locked(a, p, px, py, s, shape);
      CellsIn(st.arena) && CellsIn(st.piece)
  {
    var m := Merged(a, p, px, py);
    MergedCellsIn(a, p, px, py);
    SweptCellsIn(m, Width);
    SweptCellsIn(Cleared(m), Width);
    PieceCellsIn(shape);
  }

  /** The settled cells of a 15-by-30 arena: one cell at row 0, column 6,
      and a bottom row full except for columns 0 and 1. It is a well-formed
      arena chosen for brevity, not one reached in play: a settled cell in
      row 0 comes from a piece whose other cells would still be in rows 0
      to 3. */
  function GapArena(): (a: Matrix)
    ensures IsGrid(a, Width, Height)
  {
    seq(Height, r requires 0 <= r < Height =>
      seq(Width, c requires 0 <= c < Width =>
        if (r == 0 && c == 6) || (r == Height - 1 && c >= 2) then 1 else 0))
  }

  /** A J spawns into GapArena clear of its cells, and once moved to
      column 0 it fits at rows 27 to 29 and cannot fall further. */
  lemma GapJRests()
    ensures var a := GapArena(); var p := CreatePiece(J);
      !Overlaps(a, p, SpawnX(Width, |p|), 0) &&
      !Overlaps(a, p, 0, 27) && Overlaps(a, p, 0, 28)
  {
    var a := GapArena();
    var p := CreatePiece(J);
    assert SpawnX(Width, |p|) == 6;
    forall i, j | 0 <= i < |p| && 0 <= j < |p[i]| && Covers(p, i, j)
      ensures !Blocked(a, i, 6 + j)
    {
      assert i >= 0;
    }
    assert Covers(p, 2, 0) && Blocked(a, 28 + 2, 0);
    forall i, j | 0 <= i < |p| && 0 <= j < |p[i]| && Covers(p, i, j)
      ensures !Blocked(a, 27 + i, j)
    {
      assert j <= 1;
    }
  }

  /** Locking that J completes the bottom row and leaves every other row
      with an empty cell. */
  lemma GapLockFillsBottom()
    ensures var m := Merged(GapArena(), CreatePiece(J), 0, 27);
      |m| == Height && Full(m[Height - 1]) && FullCount(m[..Height - 1]) == 0 &&
      |m[0]| == Width && m[0][6] == 1
  {
    var p := CreatePiece(J);
    var m := Merged(GapArena(), p, 0, 27);
    assert !Covers(p, -27, 6);
    var below := m[..Height - 1];
    forall r | 0 <= r < |below|
      ensures !Full(below[r])
    {
      assert !Covers(p, r - 27, 0);
      assert below[r][0] == 0;
    }
    NoFullRowCount(below);
    var last := m[Height - 1];
    forall c | 0 <= c < |last|
      ensures last[c] != 0
    {
      if c <= 1 {
        assert Covers(p, 2, c);
      } else {
        assert !Covers(p, 2, c);
      }
    }
  }

  /** The T spawned next, at column 6, is clear of the merged arena. */
  lemma GapSpawnClear()
    ensures var q := CreatePiece(T);
      SpawnX(Width, |q|) == 6 && !Overlaps(Merged(GapArena(), CreatePiece(J), 0, 27), q, 6, 0)
  {
    var p := CreatePiece(J);
    var q := CreatePiece(T);
    var m := Merged(GapArena(), p, 0, 27);
    forall i, j | 0 <= i < |q| && 0 <= j < |q[i]| && Covers(q, i, j)
      ensures !Blocked(m, i, 6 + j)
    {
      assert i == 1 || i == 2;
      assert !Covers(p, i - 27, 6 + j);
    }
  }

  /** The state that lock leaves: the T at column 6, row 0, 15 points, and
      the arena shifted down by one row under an empty top row. */
  lemma GapLocked()
    ensures var m := Merged(GapArena(), CreatePiece(J), 0, 27);
      Locked(GapArena(), CreatePiece(J), 0, 27, 0, T) ==
      State([ZeroRow(Width)] + m[..Height - 1], CreatePiece(T), 6, 0, 15, DropInterval(15))
  {
    GapSpawnClear();
    GapLockFillsBottom();
    SweptBottomRow(Merged(GapArena(), CreatePiece(J), 0, 27), Width);
  }

  /** The spawn test runs before the sweep, so the next piece can spawn
      clear of the settled cells and overlap them once the sweep has shifted
      them down. In GapArena a J spawns clear, falls one row (at row 0 its
      first step left would hit the cell at column 6), is moved to column 0
      and dropped until it rests; locking it completes the bottom row, the T
      that follows spawns at column 6 clear of the cell at row 0, and the
      sweep moves that cell down into it. */
  lemma SpawnCheckPrecedesSweep()
    ensures var a := GapArena(); var p := CreatePiece(J);
      !Overlaps(a, p, SpawnX(Width, |p|), 0) && !Overlaps(a, p, 0, 27) && Overlaps(a, p, 0, 28)
    ensures var q := CreatePiece(T);
      !Overlaps(Merged(GapArena(), CreatePiece(J), 0, 27), q, SpawnX(Width, |q|), 0)
    ensures var st := Locked(GapArena(), CreatePiece(J), 0, 27, 0, T);
      st.score == 15 && Overlaps(st.arena, st.piece, st.x, st.y)
  {
    GapJRests();
    GapSpawnClear();
    GapLockFillsBottom();
    GapLocked();
    var m := Merged(GapArena(), CreatePiece(J), 0, 27);
    var arena := [ZeroRow(Width)] + m[..Height - 1];
    assert arena[1] == m[0];
    assert Covers(CreatePiece(T), 1, 0) && Blocked(arena, 1, 6);
  }

  class Game {
    var arena: Matrix
    /** The piece buffer, `player.matrix`. */
    var matrix: array2<int>
    /** The rows the piece buffer holds. */
    ghost var piece: Matrix
    var x: int
    var y: int
    var score: nat
    /** Milliseconds accumulated towards the next automatic drop. */
    var dropCounter: real
    /** Milliseconds between automatic drops. */
    var dropInterval: real

    /** The parts of the state the game logic reads. */
    ghost function Snapshot(): State
      reads `arena, `piece, `x, `y, `score, `dropInterval
    {
      State(arena, piece, x, y, score, dropInterval)
    }

    /** The arena is 15 by 30, the piece buffer is square and holds `piece`,
        every cell of both holds 0 or a shape value 1 to 7, and every
        filled piece cell lies inside the arena. The piece may
        overlap settled cells (see SpawnCheckPrecedesSweep). */
    ghost predicate Valid()
      reads `arena, `matrix, `piece, `x, `y, matrix
    {
      IsGrid(arena, Width, Height) &&
      matrix.Length0 == matrix.Length1 && Holds(matrix, piece) &&
      CellsIn(arena) && CellsIn(piece) &&
      InBounds(arena, piece, x, y)
    }

    /** The start of the game: an empty arena, score 0, a drop interval of
        500 ms, then `playerReset()` with the first shape drawn. */
    constructor (first: Shape)
      ensures Valid() && fresh(matrix)
      ensures AllZero(arena) && score == 0
      ensures piece == CreatePiece(first) && y == 0 && x == SpawnX(Width, |piece|)
      ensures dropInterval == 500.0 && dropCounter == 0.0
    {
      var empty := CreateMatrix(Width, Height);
      arena := empty;
      matrix := new int[0, 0];
      piece := [];
      x, y := 0, 0;
      score := 0;
      dropCounter, dropInterval := 0.0, 500.0;
      new;
      Reset(first);
    }

    /** A fresh buffer holding the pattern of `shape`. */
    static method NewPiece(shape: Shape) returns (m: array2<int>)
      ensures fresh(m) && m.Length0 == m.Length1 && Holds(m, CreatePiece(shape))
    {
      var p := CreatePiece(shape);
      var n := |p|;
      m := new int[n, n];
      for i := 0 to n
        invariant forall a, b :: 0 <= a < i && 0 <= b < n ==> m[a, b] == p[a][b]
      {
        for j := 0 to n
          invariant forall a, b :: (0 <= a < i && 0 <= b < n) || (a == i && 0 <= b < j) ==> m[a, b] == p[a][b]
        {
          m[i, j] := p[i][j];
        }
      }
    }

    /** The first half of `playerReset()`: a fresh buffer holding `shape`,
        at row 0, centred in the arena. */
    method Spawn(shape: Shape)
      requires IsGrid(arena, Width, Height) && CellsIn(arena)
      modifies this
      ensures Valid() && fresh(matrix)
      ensures piece == CreatePiece(shape) && y == 0 && x == SpawnX(Width, |piece|)
      ensures arena == old(arena) && score == old(score)
      ensures dropCounter == old(dropCounter) && dropInterval == old(dropInterval)
    {
      matrix := NewPiece(shape);
      piece := CreatePiece(shape);
      y := 0;
      x := Width / 2 - matrix.Length1 / 2;
      SpawnInBounds(arena, piece);
      PieceCellsIn(shape);
    }

    /** `playerReset()` with the random choice passed in: a fresh piece at
        row 0, centred; if it collides at once the arena is emptied, the
        score reset and the interval set back to 1000 ms. */
    method Reset(shape: Shape)
      requires IsGrid(arena, Width, Height) && CellsIn(arena)
      modifies this
      ensures Valid() && fresh(matrix)
      ensures piece == CreatePiece(shape) && y == 0 && x == SpawnX(Width, |piece|)
      ensures dropCounter == old(dropCounter)
      ensures if Overlaps(old(arena), piece, x, 0)
              then arena == Cleared(old(arena)) && score == 0 && dropInterval == 1000.0
              else arena == old(arena) && score == old(score) && dropInterval == old(dropInterval)
    {
      Spawn(shape);
      var hit := Collide(arena, matrix, piece, x, y);
      if hit {
        arena := Cleared(arena);
        score := 0;
        dropInterval := 1000.0;
      }
    }

    /** `playerMove(dir)`: shift sideways by `dir` unless the piece would
        collide there. */
    method Move(dir: int)
      requires Valid()
      modifies this
      ensures Valid()
      ensures x == if Overlaps(arena, piece, old(x) + dir, y) then old(x) else old(x) + dir
      ensures arena == old(arena) && piece == old(piece) && y == old(y) && score == old(score)
      ensures matrix == old(matrix) && dropCounter == old(dropCounter) && dropInterval == old(dropInterval)
    {
      x := x + dir;
      var hit := Collide(arena, matrix, piece, x, y);
      if hit {
        x := x - dir;
      }
    }

    /** The kick search of `playerRotate`: while the piece collides, shift
        it by the next offset 1, -2, 3, -4, ...; give up (reporting
        `false`, the column left shifted) once the offset exceeds the
        buffer's width. */
    static method KickSearch(arena: Matrix, m: array2<int>, ghost p: Matrix, pos: int, y: int)
      returns (fits: bool, x: int)
      requires m.Length0 == m.Length1 && Holds(m, p)
      ensures match FirstFree(arena, p, pos, y, KickTrials(m.Length1), 0)
        case Some(nx) => fits && x == nx
        case None => !fits
    {
      x := pos;
      var offset := 1;
      ghost var k: nat := 0;
      ghost var r := FirstFree(arena, p, pos, y, KickTrials(m.Length1), 0);
      var hit := Collide(arena, m, p, x, y);
      while hit
        invariant k < KickLimit(m.Length1) && offset == Offset(k) && x == pos + Shift(k)
        invariant hit <==> Overlaps(arena, p, x, y)
        invariant r == FirstFree(arena, p, pos, y, KickTrials(m.Length1), k)
        decreases KickLimit(m.Length1) - k
      {
        KickMiss(arena, p, pos, y, m.Length1, k);
        x := x + offset;
        offset := -(offset + (if offset > 0 then 1 else -1));
        k := k + 1;
        if offset > m.Length1 {
          return false, x;
        }
        hit := Collide(arena, m, p, x, y);
      }
      KickHit(arena, p, pos, y, m.Length1, k);
      return true, x;
    }

    /** `playerRotate(dir)`: turn the piece, then run the kick search; keep
        the first shift that fits, or turn back and restore the column when
        the search gives up. */
    method RotatePlayer(dir: int)
      requires Valid() && (dir == 1 || dir == -1)
      modifies this, matrix
      ensures Valid() && matrix == old(matrix)
      ensures (arena, y, score, dropCounter, dropInterval) == old((arena, y, score, dropCounter, dropInterval))
      ensures var q := Rotated(old(piece), dir);
        match FirstFree(arena, q, old(x), y, KickTrials(|q|), 0)
        case Some(nx) => piece == q && x == nx
        case None => piece == old(piece) && x == old(x)
    {
      ghost var q := Rotated(piece, dir);
      var fits, nx := TurnAndKick(arena, matrix, piece, x, y, dir);
      if fits {
        FirstFreeFits(arena, q, x, y, KickTrials(|q|), 0);
        RotatedCellsIn(piece, dir);
        piece, x := q, nx;
        FreeIsInBounds(arena, piece, x, y);
      }
    }

    /** The body of `playerRotate` on the buffer `m` holding `p`: turn it,
        search for a column from `pos`, and turn it back when the search
        gives up. */
    static method TurnAndKick(arena: Matrix, m: array2<int>, ghost p: Matrix, pos: int, y: int, dir: int)
      returns (fits: bool, x: int)
      requires m.Length0 == m.Length1 && Holds(m, p) && (dir == 1 || dir == -1)
      modifies m
      ensures var q := Rotated(p, dir);
        match FirstFree(arena, q, pos, y, KickTrials(|q|), 0)
        case Some(nx) => fits && x == nx && Holds(m, q)
        case None => !fits && x == pos && Holds(m, p)
    {
      Rotate(m, p, dir);
      ghost var q := Rotated(p, dir);
      fits, x := KickSearch(arena, m, q, pos, y);
      if !fits {
        Rotate(m, q, -dir);
        RotateBack(p, dir);
        x := pos;
      }
    }

    /** `merge(arena, player)`: writes every filled piece cell into the
        arena at the piece's offset, row by row. The rows are updated in a
        local copy that is stored back once the copy is complete. */
    method Merge()
      requires Valid()
      modifies this
      ensures Valid()
      ensures arena == Merged(old(arena), piece, x, y)
      ensures matrix == old(matrix) && piece == old(piece) && x == old(x) && y == old(y) && score == old(score)
      ensures dropCounter == old(dropCounter) && dropInterval == old(dropInterval)
    {
      MergedCellsIn(arena, piece, x, y);
      arena := MergeInto(arena, matrix, piece, x, y);
    }

    /** The loops of `merge` on the arena `a`, the buffer `m` holding `p`
        and the offset (px, py). */
    static method MergeInto(a: Matrix, m: array2<int>, ghost p: Matrix, px: int, py: int) returns (r: Matrix)
      requires m.Length0 == m.Length1 && Holds(m, p) && InBounds(a, p, px, py)
      ensures r == Merged(a, p, px, py)
    {
      r := a;
      var n := m.Length0;
      MergedUpToStart(a, p, px, py);
      for i := 0 to n
        invariant r == MergedUpTo(a, p, px, py, i, 0)
      {
        for j := 0 to n
          invariant r == MergedUpTo(a, p, px, py, i, j)
        {
          MergedUpToStep(a, p, px, py, i, j);
          if m[i, j] != 0 {
            r := r[py + i := r[py + i][px + j := m[i, j]]];
          }
        }
        MergedUpToNextRow(a, p, px, py, i);
      }
      MergedUpToEnd(a, p, px, py);
    }

    /** `arenaSweep()`: scans from the bottom row up to row 1; a full row is
        cut out, emptied and put back on top, the same index is examined
        again, and each such row is worth 15 points. */
    method Sweep()
      requires IsGrid(arena, Width, Height)
      modifies this
      ensures old(Valid()) ==> Valid()
      ensures arena == Swept(old(arena), Width)
      ensures score == old(score) + 15 * ClearedRows(old(arena))
      ensures matrix == old(matrix) && piece == old(piece) && x == old(x) && y == old(y)
      ensures dropCounter == old(dropCounter) && dropInterval == old(dropInterval)
    {
      ghost var valid := Valid();
      ghost var before := arena;
      SweptShape(arena, Width, Height);
      if valid {
        SweptCellsIn(arena, Width);
      }
      arena, score := SweepRows(arena, Width, score);
      if valid {
        assert InBounds(before, piece, x, y);
      }
    }

    /** The locking step of `playerDrop()`: merge the piece where it
        stands, spawn the next one, sweep, and recompute the interval from
        the score. */
    method Lock(shape: Shape)
      requires Valid()
      modifies this
      ensures Valid() && fresh(matrix) && dropCounter == old(dropCounter)
      ensures Snapshot() == Locked(old(arena), old(piece), old(x), old(y), old(score), shape)
    {
      Merge();
      ghost var merged := arena;
      Reset(shape);
      ghost var spawned, kept := arena, score;
      Sweep();
      dropInterval := DropInterval(score);
      LockedStages(old(arena), old(piece), old(x), old(y), old(score), shape, merged, spawned, kept);
    }

    /** The piece moves one row down onto free cells. */
    method Fall()
      requires Valid() && !Overlaps(arena, piece, x, y + 1)
      modifies this
      ensures Valid() && matrix == old(matrix) && dropCounter == old(dropCounter)
      ensures Snapshot() == old(Snapshot()).(y := old(y) + 1)
    {
      y := y + 1;
      FreeIsInBounds(arena, piece, x, y);
    }

    /** `playerDrop()` with the shape for a possible respawn passed in: try
        the piece one row lower; if it collides there, lock it where it
        stands, otherwise let it fall. The drop counter is zeroed either
        way. */
    method Drop(shape: Shape)
      requires Valid()
      modifies this
      ensures Valid() && dropCounter == 0.0
      ensures if !Overlaps(old(arena), old(piece), old(x), old(y) + 1)
        then matrix == old(matrix) && Snapshot() == old(Snapshot()).(y := old(y) + 1)
        else fresh(matrix) && Snapshot() == Locked(old(arena), old(piece), old(x), old(y), old(score), shape)
    {
      var hit := Collide(arena, matrix, piece, x, y + 1);
      if hit {
        Lock(shape);
      } else {
        Fall();
      }
      dropCounter := 0.0;
    }
  }
}
