/** Grids of cell values. The arena and every piece are rows of integers;
    0 is an empty cell and 1 to 7 name the shape that filled it. */
module Grid {

  type Matrix = seq<seq<int>>

  /** `m` has `h` rows of exactly `w` cells each. */
  predicate IsGrid(m: Matrix, w: nat, h: nat) {
    |m| == h && forall r :: 0 <= r < |m| ==> |m[r]| == w
  }

  /** Every cell of `m` is empty or holds one of the seven shape values. */
  predicate CellsIn(m: Matrix) {
    forall r, c :: 0 <= r < |m| && 0 <= c < |m[r]| ==> 0 <= m[r][c] <= 7
  }

  /** Every cell of `m` is empty. */
  predicate AllZero(m: Matrix) {
    forall r, c :: 0 <= r < |m| && 0 <= c < |m[r]| ==> m[r][c] == 0
  }

  /** A row of `w` empty cells, as `new Array(w).fill(0)` builds it. */
  function ZeroRow(w: nat): seq<int> {
    seq(w, _ => 0)
  }

  /** `k` empty rows of width `w`. */
  function Zeros(k: nat, w: nat): Matrix {
    seq(k, _ => ZeroRow(w))
  }

  /** `arena.forEach(row => row.fill(0))`: every row keeps its width and
      every cell becomes empty. */
  function Cleared(m: Matrix): (z: Matrix)
    ensures |z| == |m| && forall r :: 0 <= r < |m| ==> |z[r]| == |m[r]|
    ensures AllZero(z)
  {
    seq(|m|, r requires 0 <= r < |m| => ZeroRow(|m[r]|))
  }

  /** `createMatrix(w, h)`: pushes `h` fresh rows of `w` zeros. */
  method CreateMatrix(w: nat, h: nat) returns (m: Matrix)
    ensures IsGrid(m, w, h) && AllZero(m)
  {
    m := [];
    var left := h;
    while left > 0
      invariant 0 <= left <= h
      invariant IsGrid(m, w, h - left) && AllZero(m)
    {
      m := m + [ZeroRow(w)];
      left := left - 1;
    }
  }
}
