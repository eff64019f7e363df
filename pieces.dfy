/** The catalogue of the seven pieces. */
module Pieces {

  import opened Grid

  datatype Shape = T | O | L | J | I | S | Z

  /** The order of the shape letters the game draws from ('TJLOSZI'). */
  const Order: seq<Shape> := [T, J, L, O, S, Z, I]

  /** `pieces[pieces.length * Math.random() | 0]`: the letter drawn for a
      random number `r` in [0, 1); `| 0` truncates a non-negative number
      to its floor, so each seventh of [0, 1) draws one letter. */
  function Pick(r: real): (s: Shape)
    requires 0.0 <= r < 1.0
    ensures forall k :: 0 <= k < |Order| && k as real / 7.0 <= r < (k + 1) as real / 7.0 ==> s == Order[k]
  {
    Order[(7.0 * r).Floor]
  }

  /** Every shape is drawn for some random number. */
  lemma PickCoversShapes(s: Shape)
    ensures exists r: real :: 0.0 <= r < 1.0 && Pick(r) == s
  {
    var k := match s case T => 0 case J => 1 case L => 2 case O => 3 case S => 4 case Z => 5 case I => 6;
    var r := k as real / 7.0;
    assert (7.0 * r).Floor == k;
    assert Pick(r) == s;
  }

  /** The fill value of a shape; it is what a renderer colours by. */
  function ShapeValue(s: Shape): (v: int)
    ensures 1 <= v <= 7
  {
    match s
    case T => 1
    case O => 2
    case L => 3
    case J => 4
    case I => 5
    case S => 6
    case Z => 7
  }

  /** Number of non-empty cells of a row. */
  function RowFilled(row: seq<int>): nat {
    if row == [] then 0 else (if row[0] != 0 then 1 else 0) + RowFilled(row[1..])
  }

  /** Number of non-empty cells of a matrix. */
  function Filled(m: Matrix): nat {
    if m == [] then 0 else RowFilled(m[0]) + Filled(m[1..])
  }

  /** `createPiece(type)`: a fresh pattern for the shape, a square of
      side 2 to 4. */
  function CreatePiece(s: Shape): (p: Matrix)
    ensures 2 <= |p| <= 4 && IsGrid(p, |p|, |p|)
  {
    match s
    case T => [[0, 0, 0],
               [1, 1, 1],
               [0, 1, 0]]
    case O => [[2, 2],
               [2, 2]]
    case L => [[0, 3, 0],
               [0, 3, 0],
               [0, 3, 3]]
    case J => [[0, 4, 0],
               [0, 4, 0],
               [4, 4, 0]]
    case I => [[0, 5, 0, 0],
               [0, 5, 0, 0],
               [0, 5, 0, 0],
               [0, 5, 0, 0]]
    case S => [[0, 6, 6],
               [6, 6, 0],
               [0, 0, 0]]
    case Z => [[7, 7, 0],
               [0, 7, 7],
               [0, 0, 0]]
  }

  /** Every pattern holds only 0 and the shape's own value. */
  lemma PieceValues(s: Shape)
    ensures var p := CreatePiece(s);
      forall i, j :: 0 <= i < |p| && 0 <= j < |p| ==> p[i][j] == 0 || p[i][j] == ShapeValue(s)
  {
  }

  /** Every pattern holds only cell values 0 to 7. */
  lemma PieceCellsIn(s: Shape)
    ensures CellsIn(CreatePiece(s))
  {
    PieceValues(s);
  }

  /** Every pattern has exactly four filled cells. */
  lemma PieceFilled(s: Shape)
    ensures Filled(CreatePiece(s)) == 4
  {
    var p := CreatePiece(s);
    FilledRows(p);
    forall r | 0 <= r < |p|
      ensures RowFilled(p[r]) == Count(p[r], 0) + Count(p[r], 1) + Count(p[r], 2) + Count(p[r], 3)
    {
      RowFilledCells(p[r]);
    }
  }

  /** 1 when cell k of the row exists and is filled, 0 otherwise. */
  function Count(row: seq<int>, k: nat): nat {
    if k < |row| && row[k] != 0 then 1 else 0
  }

  /** The filled count of a row of up to four cells, cell by cell. */
  lemma RowFilledCells(row: seq<int>)
    requires |row| <= 4
    ensures RowFilled(row) == Count(row, 0) + Count(row, 1) + Count(row, 2) + Count(row, 3)
  {
    if row != [] {
      RowFilledCells(row[1..]);
    }
  }

  /** The filled count of a matrix of up to four rows, row by row. */
  lemma FilledRows(m: Matrix)
    requires |m| <= 4
    ensures Filled(m) == (if |m| > 0 then RowFilled(m[0]) else 0) + (if |m| > 1 then RowFilled(m[1]) else 0) +
                         (if |m| > 2 then RowFilled(m[2]) else 0) + (if |m| > 3 then RowFilled(m[3]) else 0)
  {
    if m != [] {
      FilledRows(m[1..]);
    }
  }

  /** Distinct shapes have distinct fill values, so a cell's value names
      the shape that left it. */
  lemma ShapeValueInjective(a: Shape, b: Shape)
    requires ShapeValue(a) == ShapeValue(b)
    ensures a == b
  {
  }
}
