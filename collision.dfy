/** The collision test between a piece at an offset and the arena. */
module Collision {

  import opened Grid
  import opened Rotation

  /** A JavaScript value read from the arena: a missing row or column reads
      as `undefined`, a present cell as its number. */
  datatype JsValue = Undefined | Number(n: int)

  /** `arena[r] && arena[r][c]`: an absent row gives `undefined` (the `&&`
      short-circuits), a present row (always truthy) gives its cell, which
      is `undefined` past either end of the row. */
  function Lookup(arena: Matrix, r: int, c: int): (v: JsValue)
    ensures v.Number? <==> 0 <= r < |arena| && 0 <= c < |arena[r]|
    ensures v.Number? ==> v.n == arena[r][c]
  {
    if !(0 <= r < |arena|) then Undefined
    else if 0 <= c < |arena[r]| then Number(arena[r][c])
    else Undefined
  }

  /** `(arena[r] && arena[r][c]) !== 0`: the cell blocks a piece exactly when
      it lies outside the arena, on any side, or is already filled. */
  function Blocked(arena: Matrix, r: int, c: int): (b: bool)
    ensures b <==> r < 0 || r >= |arena| || c < 0 || c >= |arena[r]| || arena[r][c] != 0
  {
    Lookup(arena, r, c) != Number(0)
  }

  /** Piece cell (i, j) exists and is filled. */
  predicate Covers(p: Matrix, i: int, j: int) {
    0 <= i < |p| && 0 <= j < |p[i]| && p[i][j] != 0
  }

  /** Some filled cell of `p`, shifted by (px, py), is blocked. */
  predicate Overlaps(arena: Matrix, p: Matrix, px: int, py: int) {
    exists i, j :: 0 <= i < |p| && 0 <= j < |p[i]| && Covers(p, i, j) && Blocked(arena, py + i, px + j)
  }

  /** Every filled cell of `p`, shifted by (px, py), lies inside the arena. */
  predicate InBounds(arena: Matrix, p: Matrix, px: int, py: int) {
    forall i, j :: 0 <= i < |p| && 0 <= j < |p[i]| && Covers(p, i, j) ==>
      0 <= py + i < |arena| && 0 <= px + j < |arena[py + i]|
  }

  /** A position that does not collide lies inside the arena. */
  lemma FreeIsInBounds(arena: Matrix, p: Matrix, px: int, py: int)
    requires !Overlaps(arena, p, px, py)
    ensures InBounds(arena, p, px, py)
  {
  }

  /** `collide(arena, player)`: scans the piece row by row and stops at the
      first filled cell that is blocked. It reads and changes nothing else. */
  method Collide(arena: Matrix, m: array2<int>, ghost p: Matrix, px: int, py: int) returns (hit: bool)
    requires Holds(m, p)
    ensures hit <==> Overlaps(arena, p, px, py)
  {
    for y := 0 to m.Length0
      invariant forall i, j :: 0 <= i < y && 0 <= j < m.Length1 ==> !(m[i, j] != 0 && Blocked(arena, py + i, px + j))
    {
      for x := 0 to m.Length1
        invariant forall i, j :: (0 <= i < y && 0 <= j < m.Length1) || (i == y && 0 <= j < x) ==>
          !(m[i, j] != 0 && Blocked(arena, py + i, px + j))
      {
        if m[y, x] != 0 && Blocked(arena, py + y, px + x) {
          assert Covers(p, y, x);
          return true;
        }
      }
    }
    return false;
  }
}
