/** Rotation of a square piece matrix by a quarter turn, in place. */
module Rotation {

  import opened Grid

  predicate Square(p: Matrix) {
    IsGrid(p, |p|, |p|)
  }

  /** The buffer `m` holds exactly the rows of `p`. */
  ghost predicate Holds(m: array2<int>, p: Matrix)
    reads m
  {
    IsGrid(p, m.Length1, m.Length0) &&
    forall i, j :: 0 <= i < m.Length0 && 0 <= j < m.Length1 ==> m[i, j] == p[i][j]
  }

  /** A quarter turn clockwise: the cell at row i, column j comes from
      row n-1-j, column i. */
  function RotatedCW(p: Matrix): (q: Matrix)
    requires Square(p)
    ensures Square(q) && |q| == |p|
  {
    var n := |p|;
    seq(n, i requires 0 <= i < n => seq(n, j requires 0 <= j < n => p[n - 1 - j][i]))
  }

  /** A quarter turn counter-clockwise: the cell at row i, column j comes
      from row j, column n-1-i. */
  function RotatedCCW(p: Matrix): (q: Matrix)
    requires Square(p)
    ensures Square(q) && |q| == |p|
  {
    var n := |p|;
    seq(n, i requires 0 <= i < n => seq(n, j requires 0 <= j < n => p[j][n - 1 - i]))
  }

  /** `dir > 0` turns clockwise, anything else counter-clockwise. */
  function Rotated(p: Matrix, dir: int): (q: Matrix)
    requires Square(p)
    ensures Square(q) && |q| == |p|
  {
    if dir > 0 then RotatedCW(p) else RotatedCCW(p)
  }

  /** A clockwise turn followed by a counter-clockwise one gives the piece back. */
  lemma CWThenCCW(p: Matrix)
    requires Square(p)
    ensures RotatedCCW(RotatedCW(p)) == p
  {
    var n := |p|;
    var q := RotatedCCW(RotatedCW(p));
    forall i | 0 <= i < n
      ensures q[i] == p[i]
    {
      assert forall j :: 0 <= j < n ==> q[i][j] == p[i][j];
    }
  }

  /** A counter-clockwise turn followed by a clockwise one gives the piece back. */
  lemma CCWThenCW(p: Matrix)
    requires Square(p)
    ensures RotatedCW(RotatedCCW(p)) == p
  {
    var n := |p|;
    var q := RotatedCW(RotatedCCW(p));
    forall i | 0 <= i < n
      ensures q[i] == p[i]
    {
      assert forall j :: 0 <= j < n ==> q[i][j] == p[i][j];
    }
  }

  /** A turn only moves cells, so it keeps every cell value in 0 to 7. */
  lemma RotatedCellsIn(p: Matrix, dir: int)
    requires Square(p) && CellsIn(p)
    ensures CellsIn(Rotated(p, dir))
  {
  }

  /** Turning in direction `dir` and then in direction `-dir` restores the
      piece, for either non-zero direction. */
  lemma RotateBack(p: Matrix, dir: int)
    requires Square(p) && dir != 0
    ensures Rotated(Rotated(p, dir), -dir) == p
  {
    if dir > 0 {
      CWThenCCW(p);
    } else {
      CCWThenCW(p);
    }
  }

  /** Two clockwise turns are a half turn. */
  lemma HalfTurn(p: Matrix)
    requires Square(p)
    ensures var n := |p|; var h := RotatedCW(RotatedCW(p));
      Square(h) && |h| == n &&
      forall i, j :: 0 <= i < n && 0 <= j < n ==> h[i][j] == p[n - 1 - i][n - 1 - j]
  {
  }

  /** Four clockwise turns are the identity. */
  lemma FourCW(p: Matrix)
    requires Square(p)
    ensures RotatedCW(RotatedCW(RotatedCW(RotatedCW(p)))) == p
  {
    var n := |p|;
    var h := RotatedCW(RotatedCW(p));
    HalfTurn(p);
    HalfTurn(h);
    var q := RotatedCW(RotatedCW(h));
    forall i | 0 <= i < n
      ensures q[i] == p[i]
    {
      assert forall j :: 0 <= j < n ==> q[i][j] == p[i][j];
    }
  }

  /** Four counter-clockwise turns are the identity. */
  lemma FourCCW(p: Matrix)
    requires Square(p)
    ensures RotatedCCW(RotatedCCW(RotatedCCW(RotatedCCW(p)))) == p
  {
    var a := RotatedCCW(p);
    var b := RotatedCCW(a);
    var c := RotatedCCW(b);
    var d := RotatedCCW(c);
    FourCW(d);
    CCWThenCW(c);
    CCWThenCW(b);
    CCWThenCW(a);
    CCWThenCW(p);
  }

  /** The swap loop of `rotate`: exchanges cell [x][y] with [y][x] for every x < y. */
  method Transpose(m: array2<int>)
    requires m.Length0 == m.Length1
    modifies m
    ensures forall i, j :: 0 <= i < m.Length0 && 0 <= j < m.Length1 ==> m[i, j] == old(m[j, i])
  {
    var n := m.Length0;
    for y := 0 to n
      invariant forall i, j :: 0 <= i < n && 0 <= j < n ==>
        m[i, j] == if i < y && j < y then old(m[j, i]) else old(m[i, j])
    {
      for x := 0 to y
        invariant forall i, j :: 0 <= i < n && 0 <= j < n ==>
          m[i, j] == if (i < y && j < y) || (i == y && j < x) || (j == y && i < x)
                     then old(m[j, i]) else old(m[i, j])
      {
        m[x, y], m[y, x] := m[y, x], m[x, y];
      }
    }
  }

  /** `matrix.forEach(row => row.reverse())`. */
  method ReverseEachRow(m: array2<int>)
    modifies m
    ensures forall i, j :: 0 <= i < m.Length0 && 0 <= j < m.Length1 ==> m[i, j] == old(m[i, m.Length1 - 1 - j])
  {
    var w := m.Length1;
    for r := 0 to m.Length0
      invariant forall i, j :: 0 <= i < m.Length0 && 0 <= j < w ==>
        m[i, j] == if i < r then old(m[i, w - 1 - j]) else old(m[i, j])
    {
      for c := 0 to w / 2
        invariant forall i, j :: 0 <= i < m.Length0 && 0 <= j < w ==>
          m[i, j] == if i < r || (i == r && (j < c || w - 1 - j < c)) then old(m[i, w - 1 - j]) else old(m[i, j])
      {
        m[r, c], m[r, w - 1 - c] := m[r, w - 1 - c], m[r, c];
      }
    }
  }

  /** `matrix.reverse()`: the order of the rows is reversed. */
  method ReverseRowOrder(m: array2<int>)
    modifies m
    ensures forall i, j :: 0 <= i < m.Length0 && 0 <= j < m.Length1 ==> m[i, j] == old(m[m.Length0 - 1 - i, j])
  {
    var h := m.Length0;
    for r := 0 to h / 2
      invariant forall i, j :: 0 <= i < h && 0 <= j < m.Length1 ==>
        m[i, j] == if i < r || h - 1 - i < r then old(m[h - 1 - i, j]) else old(m[i, j])
    {
      for c := 0 to m.Length1
        invariant forall i, j :: 0 <= i < h && 0 <= j < m.Length1 ==>
          m[i, j] == if i < r || h - 1 - i < r || ((i == r || i == h - 1 - r) && j < c)
                     then old(m[h - 1 - i, j]) else old(m[i, j])
      {
        m[r, c], m[h - 1 - r, c] := m[h - 1 - r, c], m[r, c];
      }
    }
  }

  /** `rotate(matrix, dir)`: transposes the square buffer, then reverses each
      row (dir > 0) or the row order (otherwise); the buffer then holds the
      quarter turn of its old contents. */
  method Rotate(m: array2<int>, ghost p: Matrix, dir: int)
    requires m.Length0 == m.Length1 && Holds(m, p)
    modifies m
    ensures Holds(m, Rotated(p, dir))
  {
    var n := m.Length0;
    ghost var q := Rotated(p, dir);
    Transpose(m);
    assert forall i, j :: 0 <= i < n && 0 <= j < n ==> m[i, j] == p[j][i];
    label Transposed:
    if dir > 0 {
      ReverseEachRow(m);
      forall i, j | 0 <= i < n && 0 <= j < n
        ensures m[i, j] == q[i][j]
      {
        assert m[i, j] == old@Transposed(m[i, n - 1 - j]);
      }
    } else {
      ReverseRowOrder(m);
      forall i, j | 0 <= i < n && 0 <= j < n
        ensures m[i, j] == q[i][j]
      {
        assert m[i, j] == old@Transposed(m[n - 1 - i, j]);
      }
    }
  }
}
