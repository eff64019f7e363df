/** The row sweep: what `arenaSweep` leaves in the arena, as a function of
    the rows it starts from. */
module Sweep {

  import opened Grid

  /** A row with no empty cell. */
  predicate Full(row: seq<int>) {
    forall k :: 0 <= k < |row| ==> row[k] != 0
  }

  /** The rows that are not full, in their original order. */
  function Keep(rows: Matrix): Matrix {
    if rows == [] then [] else (if Full(rows[0]) then [] else [rows[0]]) + Keep(rows[1..])
  }

  /** The number of full rows. */
  function FullCount(rows: Matrix): nat {
    if rows == [] then 0 else (if Full(rows[0]) then 1 else 0) + FullCount(rows[1..])
  }

  /** The number of rows the sweep removes. The scan never looks at row 0
      where it starts, so row 0 is examined, and removed when full, only
      after some lower row has been removed and has shifted it down. */
  function ClearedRows(rows: Matrix): nat {
    if |rows| <= 1 || FullCount(rows[1..]) == 0 then 0 else FullCount(rows)
  }

  /** The arena after the sweep: unchanged when nothing is removed, otherwise
      one empty row on top per removed row, above the rows that were not
      full in their original order. */
  function Swept(rows: Matrix, w: nat): Matrix {
    if ClearedRows(rows) == 0 then rows else Zeros(ClearedRows(rows), w) + Keep(rows)
  }

  /** Every row is either kept or counted as full. */
  lemma {:induction false} KeepAndFullCount(rows: Matrix)
    ensures |Keep(rows)| + FullCount(rows) == |rows|
  {
    if rows != [] {
      KeepAndFullCount(rows[1..]);
    }
  }

  /** The kept rows are rows of the input, none of them full. */
  lemma {:induction false} KeepRows(rows: Matrix)
    ensures forall r :: 0 <= r < |Keep(rows)| ==> !Full(Keep(rows)[r]) && Keep(rows)[r] in rows
  {
    if rows != [] {
      KeepRows(rows[1..]);
      var head := if Full(rows[0]) then [] else [rows[0]];
      assert Keep(rows) == head + Keep(rows[1..]);
      forall r | 0 <= r < |Keep(rows)|
        ensures !Full(Keep(rows)[r]) && Keep(rows)[r] in rows
      {
        if r >= |head| {
          assert Keep(rows)[r] == Keep(rows[1..])[r - |head|];
          assert Keep(rows)[r] in rows[1..];
        }
      }
    }
  }

  /** The sweep only moves input rows and adds empty ones, so it keeps
      every cell value in 0 to 7. */
  lemma SweptCellsIn(rows: Matrix, w: nat)
    requires CellsIn(rows)
    ensures CellsIn(Swept(rows, w))
  {
    var k := ClearedRows(rows);
    if k != 0 {
      var s := Swept(rows, w);
      KeepRows(rows);
      forall r, c | 0 <= r < |s| && 0 <= c < |s[r]|
        ensures 0 <= s[r][c] <= 7
      {
        if r >= k {
          assert s[r] == Keep(rows)[r - k];
          var i :| 0 <= i < |rows| && rows[i] == s[r];
          assert s[r][c] == rows[i][c];
        }
      }
    }
  }

  /** Without full rows nothing is dropped. */
  lemma {:induction false} KeepNoneFull(rows: Matrix)
    requires FullCount(rows) == 0
    ensures Keep(rows) == rows
  {
    if rows != [] {
      KeepNoneFull(rows[1..]);
    }
  }

  /** Empty rows of positive width are never full. */
  lemma {:induction false} ZerosNotFull(rows: Matrix, w: nat)
    requires w >= 1
    requires forall r :: 0 <= r < |rows| ==> rows[r] == ZeroRow(w)
    ensures FullCount(rows) == 0
  {
    if rows != [] {
      assert rows[0][0] == 0;
      ZerosNotFull(rows[1..], w);
    }
  }

  /** The sweep keeps the height and the width of every row. */
  lemma SweptShape(rows: Matrix, w: nat, h: nat)
    requires IsGrid(rows, w, h)
    ensures IsGrid(Swept(rows, w), w, h)
  {
    if ClearedRows(rows) != 0 {
      KeepAndFullCount(rows);
      KeepRows(rows);
    }
  }

  /** After the sweep every row except possibly the top one has an empty cell. */
  lemma SweptNoFullRowBelowTop(rows: Matrix, w: nat, h: nat)
    requires IsGrid(rows, w, h) && w >= 1
    ensures forall r :: 1 <= r < |Swept(rows, w)| ==> !Full(Swept(rows, w)[r])
  {
    var s := Swept(rows, w);
    if ClearedRows(rows) == 0 {
      if |rows| > 1 {
        KeepNoneFull(rows[1..]);
        KeepRows(rows[1..]);
        forall r | 1 <= r < |s|
          ensures !Full(s[r])
        {
          assert s[r] == Keep(rows[1..])[r - 1];
        }
      }
    } else {
      var c := ClearedRows(rows);
      KeepRows(rows);
      forall r | 1 <= r < |s|
        ensures !Full(s[r])
      {
        if r < c {
          assert s[r] == ZeroRow(w) && s[r][0] == 0;
        } else {
          assert s[r] == Keep(rows)[r - c];
        }
      }
    }
  }

  /** A second sweep changes nothing. */
  lemma SweepIdempotent(rows: Matrix, w: nat, h: nat)
    requires IsGrid(rows, w, h) && w >= 1
    ensures Swept(Swept(rows, w), w) == Swept(rows, w)
    ensures ClearedRows(Swept(rows, w)) == 0
  {
    var s := Swept(rows, w);
    SweptShape(rows, w, h);
    SweptNoFullRowBelowTop(rows, w, h);
    if |s| > 1 {
      NoFullRowCount(s[1..]);
    }
  }

  /** Rows none of which is full count no full rows. */
  lemma {:induction false} NoFullRowCount(rows: Matrix)
    requires forall r :: 0 <= r < |rows| ==> !Full(rows[r])
    ensures FullCount(rows) == 0
  {
    if rows != [] {
      NoFullRowCount(rows[1..]);
    }
  }

  /** An empty arena is left as it is, and no score is awarded. */
  lemma SweepEmpty(rows: Matrix, w: nat, h: nat)
    requires IsGrid(rows, w, h) && w >= 1 && AllZero(rows)
    ensures Swept(rows, w) == rows && ClearedRows(rows) == 0
  {
    if |rows| > 1 {
      var below := rows[1..];
      forall r | 0 <= r < |below|
        ensures below[r] == ZeroRow(w)
      {
        assert below[r] == rows[r + 1];
      }
      ZerosNotFull(below, w);
    }
  }

  /** Keeping and counting distribute over a concatenation of rows. */
  lemma {:induction false} KeepAppend(a: Matrix, b: Matrix)
    ensures Keep(a + b) == Keep(a) + Keep(b)
    ensures FullCount(a + b) == FullCount(a) + FullCount(b)
  {
    if a != [] {
      assert (a + b)[0] == a[0] && (a + b)[1..] == a[1..] + b;
      KeepAppend(a[1..], b);
    } else {
      assert a + b == b;
    }
  }

  /** When the bottom row is the only full one, the sweep removes it, puts
      one empty row on top and shifts every other row down by one. */
  lemma SweptBottomRow(rows: Matrix, w: nat)
    requires |rows| >= 2 && Full(rows[|rows| - 1]) && FullCount(rows[..|rows| - 1]) == 0
    ensures ClearedRows(rows) == 1
    ensures Swept(rows, w) == [ZeroRow(w)] + rows[..|rows| - 1]
  {
    var n := |rows|;
    var last := rows[n - 1];
    assert rows == rows[..n - 1] + [last];
    assert rows[1..] == rows[1..n - 1] + [last];
    assert Keep([last]) == [] && FullCount([last]) == 1 by {
      assert [last][1..] == [];
    }
    KeepAppend(rows[..n - 1], [last]);
    KeepAppend(rows[1..n - 1], [last]);
    KeepNoneFull(rows[..n - 1]);
    assert Zeros(1, w) == [ZeroRow(w)];
  }

  /** A full top row stays when nothing below it is full, and is removed
      once a lower full row has shifted it down. */
  lemma TopRowExamples()
    ensures Swept([[1, 1], [0, 1]], 2) == [[1, 1], [0, 1]]
    ensures Swept([[1, 1], [1, 1], [0, 1]], 2) == [[0, 0], [0, 0], [0, 1]]
    ensures ClearedRows([[1, 1], [1, 1], [0, 1]]) == 2
  {
    var a: Matrix := [[1, 1], [0, 1]];
    assert !Full(a[1]) by { assert a[1][0] == 0; }
    assert a[1..] == [[0, 1]];
    var b: Matrix := [[1, 1], [1, 1], [0, 1]];
    assert Full(b[0]) && Full(b[1]);
    assert !Full(b[2]) by { assert b[2][0] == 0; }
    assert b[1..] == [[1, 1], [0, 1]] && b[1..][1..] == [[0, 1]] && b[2..] == [[0, 1]];
    assert FullCount(b[1..]) == 1;
    assert FullCount(b) == 2;
    assert Keep(b) == [[0, 1]];
    assert ZeroRow(2) == [0, 0];
    assert Zeros(2, 2) == [ZeroRow(2), ZeroRow(2)];
  }

  /** The arena part way through the scan, `t` rows from the top still
      unexamined: `c` emptied rows on top, the unexamined rows, then the
      examined rows that were kept. */
  function Scanned(rows: Matrix, w: nat, t: nat, c: nat): (a: Matrix)
    requires t <= |rows|
    ensures |a| == c + t + |Keep(rows[t..])|
  {
    Zeros(c, w) + rows[..t] + Keep(rows[t..])
  }

  /** The row the scan examines next is the lowest unexamined one. */
  lemma ScanRow(rows: Matrix, w: nat, t: nat, c: nat)
    requires 0 < t <= |rows|
    ensures Scanned(rows, w, t, c)[c + t - 1] == rows[t - 1]
  {
  }

  /** Once every row is examined, the rows above the kept ones are empty. */
  lemma ScanRowEmptied(rows: Matrix, w: nat, c: nat, r: nat)
    requires r < c
    ensures Scanned(rows, w, 0, c)[r] == ZeroRow(w)
  {
  }

  /** Passing over a row that is not full leaves the arena as it is and
      moves the boundary up by one. */
  lemma ScanKeep(rows: Matrix, w: nat, t: nat, c: nat)
    requires 0 < t <= |rows| && !Full(rows[t - 1])
    ensures Scanned(rows, w, t, c) == Scanned(rows, w, t - 1, c)
    ensures FullCount(rows[t - 1..]) == FullCount(rows[t..])
  {
    assert rows[t - 1..][1..] == rows[t..];
    assert rows[..t] == rows[..t - 1] + [rows[t - 1]];
  }

  /** `arena.unshift(arena.splice(r, 1)[0].fill(0))`: row r is cut out,
      emptied and put back on top. */
  function Lift(rows: Matrix, r: nat): (a: Matrix)
    requires r < |rows|
    ensures |a| == |rows|
  {
    [ZeroRow(|rows[r]|)] + rows[..r] + rows[r + 1..]
  }

  /** Lifting a full row is the next state of the scan, with one more
      emptied row. */
  lemma ScanClear(rows: Matrix, w: nat, t: nat, c: nat)
    requires 0 < t <= |rows| && Full(rows[t - 1]) && |rows[t - 1]| == w
    ensures var a := Scanned(rows, w, t, c);
      c + t - 1 < |a| && Lift(a, c + t - 1) == Scanned(rows, w, t - 1, c + 1)
    ensures FullCount(rows[t - 1..]) == FullCount(rows[t..]) + 1
  {
    var a := Scanned(rows, w, t, c);
    var r := c + t - 1;
    assert rows[t - 1..][1..] == rows[t..];
    assert a[..r] == Zeros(c, w) + rows[..t - 1];
    assert a[r + 1..] == Keep(rows[t..]);
    assert Zeros(c + 1, w) == [ZeroRow(w)] + Zeros(c, w);
  }

  /** The scan stopped at row 1 with nothing removed: the arena is unchanged. */
  lemma ScanDoneUntouched(rows: Matrix, w: nat)
    requires |rows| >= 1 && FullCount(rows[1..]) == 0
    ensures Scanned(rows, w, 1, 0) == rows == Swept(rows, w)
    ensures ClearedRows(rows) == 0
  {
    KeepNoneFull(rows[1..]);
    assert rows == rows[..1] + rows[1..];
  }

  /** The scan examined every row after removing at least one below the
      top: the arena is the sweep's result. */
  lemma ScanDoneAll(rows: Matrix, w: nat, c: nat)
    requires |rows| >= 1 && FullCount(rows[1..]) >= 1 && c == FullCount(rows)
    ensures Scanned(rows, w, 0, c) == Swept(rows, w)
    ensures ClearedRows(rows) == c
  {
    assert rows[0..] == rows && rows[..0] == [];
    assert |rows| > 1;
    assert ClearedRows(rows) == FullCount(rows);
    assert Scanned(rows, w, 0, c) == Zeros(c, w) + Keep(rows);
  }

  /** Where the scan stands: `rows` is the arena with the lowest `|a| - t`
      rows of `a` examined, `c` of them full and lifted, and `row` is the
      index examined next. */
  ghost predicate ScanInv(a: Matrix, w: nat, t: nat, c: nat, rows: Matrix, row: int) {
    t <= |a| && rows == Scanned(a, w, t, c) && c == FullCount(a[t..]) &&
    (t > 0 ==> row == c + t - 1) &&
    (t == 0 && |a| > 0 ==> 0 <= row < c && FullCount(a[1..]) >= 1) &&
    (|a| == 0 ==> row == -1)
  }

  /** The index the scan examines is in range, and its row has width `w`;
      once every row of `a` is examined, the examined row is empty. */
  lemma ScanLooks(a: Matrix, w: nat, t: nat, c: nat, rows: Matrix, row: int)
    requires IsGrid(a, w, |a|) && w >= 1 && ScanInv(a, w, t, c, rows, row) && row > 0
    ensures row < |rows| && |rows[row]| == w
    ensures Full(rows[row]) ==> t > 0 && Full(a[t - 1])
    ensures t > 0 ==> rows[row] == a[t - 1]
  {
    if t > 0 {
      ScanRow(a, w, t, c);
    } else {
      ScanRowEmptied(a, w, c, row);
      assert rows[row][0] == 0;
    }
  }

  /** Passing over a row that is not full. */
  lemma ScanKeepStep(a: Matrix, w: nat, t: nat, c: nat, rows: Matrix, row: int)
    requires IsGrid(a, w, |a|) && w >= 1 && ScanInv(a, w, t, c, rows, row) && row > 0
    requires row < |rows| && !Full(rows[row])
    ensures ScanInv(a, w, if t > 0 then t - 1 else 0, c, rows, row - 1)
  {
    if t > 0 {
      ScanRow(a, w, t, c);
      ScanKeep(a, w, t, c);
    }
  }

  /** Lifting a full row; the scan then looks at the same index again. */
  lemma ScanClearStep(a: Matrix, w: nat, t: nat, c: nat, rows: Matrix, row: int)
    requires IsGrid(a, w, |a|) && w >= 1 && ScanInv(a, w, t, c, rows, row) && row > 0
    requires t > 0 && Full(a[t - 1])
    ensures row < |rows| && ScanInv(a, w, t - 1, c + 1, Lift(rows, row), row)
  {
    ScanClear(a, w, t, c);
  }

  /** When the scan ends the arena is the sweep's result and `c` rows were
      removed. */
  lemma ScanEnd(a: Matrix, w: nat, t: nat, c: nat, rows: Matrix, row: int)
    requires ScanInv(a, w, t, c, rows, row) && row <= 0
    ensures rows == Swept(a, w) && c == ClearedRows(a)
  {
    if t > 0 {
      ScanDoneUntouched(a, w);
    } else if |a| > 0 {
      ScanDoneAll(a, w, c);
    }
  }

  /** The inner loop of `arenaSweep`: scans the row from the left and stops
      at the first empty cell. */
  method IsFull(row: seq<int>) returns (full: bool)
    ensures full <==> Full(row)
  {
    for col := 0 to |row|
      invariant forall k :: 0 <= k < col ==> row[k] != 0
    {
      if row[col] == 0 {
        return false;
      }
    }
    return true;
  }

  /** The loop of `arenaSweep` on the rows `a`, `w` cells wide, and the
      score `s`. A width of at least 1 is needed: with empty rows every row
      counts as full and the scan would re-examine the same index forever. */
  method SweepRows(a: Matrix, w: nat, s: nat) returns (rows: Matrix, points: nat)
    requires IsGrid(a, w, |a|) && w >= 1
    ensures rows == Swept(a, w)
    ensures points == s + 15 * ClearedRows(a)
  {
    rows, points := a, s;
    ghost var t: nat := |a|;
    ghost var c: nat := 0;
    var row := |rows| - 1;
    while row > 0
      invariant ScanInv(a, w, t, c, rows, row) && points == s + 15 * c
      decreases t, row
    {
      ScanLooks(a, w, t, c, rows, row);
      var full := IsFull(rows[row]);
      if full {
        ScanClearStep(a, w, t, c, rows, row);
        rows := Lift(rows, row);
        row := row + 1;
        points := points + 15;
        t, c := t - 1, c + 1;
      } else {
        ScanKeepStep(a, w, t, c, rows, row);
        t := if t > 0 then t - 1 else 0;
      }
      row := row - 1;
    }
    ScanEnd(a, w, t, c, rows, row);
  }
}
