/** The wall-kick search of `playerRotate`: after a rotation that collides,
    the piece is shifted sideways by 1, -2, 3, -4, ... until it fits or
    the next offset exceeds the piece's width. */
module Kick {

  import opened Grid
  import opened Collision

  datatype Option<T> = None | Some(value: T)

  /** The offset applied at the k-th shift: 1, -2, 3, -4, ... */
  function Offset(k: nat): int {
    if k % 2 == 0 then k + 1 else -(k + 1)
  }

  /** The total shift from the starting column after k shifts: 0, 1, -1, 2, -2, ... */
  function Shift(k: nat): int {
    if k % 2 == 0 then -(k / 2) else (k + 1) / 2
  }

  /** The source's update rule `offset = -(offset + (offset > 0 ? 1 : -1))`
      produces the next offset, and each shift adds the current offset. */
  lemma OffsetStep(k: nat)
    ensures Offset(k + 1) == -(Offset(k) + (if Offset(k) > 0 then 1 else -1))
    ensures Shift(k + 1) == Shift(k) + Offset(k)
  {
  }

  /** The number of positions tried for a piece of width `w`: the search
      stops right after the first shift whose next offset exceeds `w`. */
  function KickLimit(w: nat): nat {
    if w <= 1 then 2 else if w % 2 == 0 then w else w + 1
  }

  /** The test `offset > width` made after the k-th shift fires exactly at
      the k-th shift with k == KickLimit(w) and never before it. */
  lemma AbortExactlyAtLimit(w: nat, k: nat)
    requires 1 <= k <= KickLimit(w)
    ensures Offset(k) > w <==> k == KickLimit(w)
  {
  }

  /** The total shifts at which the piece is tried, in the order tried. */
  function KickTrials(w: nat): (t: seq<int>)
    ensures |t| == KickLimit(w)
  {
    seq(KickLimit(w), k requires 0 <= k => Shift(k))
  }

  /** The trials for the three widths the catalogue has. For width 3 the
      shift to -2 is made and then abandoned without being tried, and a
      width-4 piece is tried at the same four columns as a width-3 one. */
  lemma KickTrialsOfCatalogueWidths()
    ensures KickTrials(2) == [0, 1]
    ensures KickTrials(3) == [0, 1, -1, 2]
    ensures KickTrials(4) == [0, 1, -1, 2]
    ensures Shift(KickLimit(3)) == -2 && -2 !in KickTrials(3)
  {
    assert KickTrials(2) == [Shift(0), Shift(1)];
    assert KickTrials(3) == [Shift(0), Shift(1), Shift(2), Shift(3)];
    assert KickTrials(4) == [Shift(0), Shift(1), Shift(2), Shift(3)];
  }

  /** The tried shifts are distinct and stay within half the width on
      either side. */
  lemma KickTrialsBounded(w: nat)
    requires w >= 1
    ensures forall k :: 0 <= k < |KickTrials(w)| ==> -(w as int) < 2 * KickTrials(w)[k] <= w + 1
    ensures forall k, l :: 0 <= k < l < |KickTrials(w)| ==> KickTrials(w)[k] != KickTrials(w)[l]
  {
    var t := KickTrials(w);
    forall k | 0 <= k < |t|
      ensures -(w as int) < 2 * t[k] <= w + 1
    {
      assert t[k] == Shift(k);
    }
    forall k, l | 0 <= k < l < |t|
      ensures t[k] != t[l]
    {
      assert t[k] == Shift(k) && t[l] == Shift(l);
    }
  }

  /** The first trial shift, from index `from` on, at which the piece fits,
      as an absolute column. */
  function FirstFree(arena: Matrix, p: Matrix, x0: int, y: int, trials: seq<int>, from: nat): Option<int>
    decreases |trials| - from
  {
    if from >= |trials| then None
    else if !Overlaps(arena, p, x0 + trials[from], y) then Some(x0 + trials[from])
    else FirstFree(arena, p, x0, y, trials, from + 1)
  }

  /** One turn of the search loop after the k-th trial collides: the
      source's offset update yields the next offset and shift, the abort
      test fires exactly after the last trial, and the search moves on to
      the next trial or, after the last one, finds nothing. */
  lemma KickMiss(arena: Matrix, p: Matrix, x0: int, y: int, w: nat, k: nat)
    requires k < KickLimit(w) && Overlaps(arena, p, x0 + Shift(k), y)
    ensures Offset(k + 1) == -(Offset(k) + (if Offset(k) > 0 then 1 else -1))
    ensures Shift(k + 1) == Shift(k) + Offset(k)
    ensures Offset(k + 1) > w <==> k + 1 == KickLimit(w)
    ensures FirstFree(arena, p, x0, y, KickTrials(w), k) ==
      if k + 1 == KickLimit(w) then None else FirstFree(arena, p, x0, y, KickTrials(w), k + 1)
  {
    OffsetStep(k);
    AbortExactlyAtLimit(w, k + 1);
    assert KickTrials(w)[k] == Shift(k);
  }

  /** The search stops at the k-th trial when the piece fits there. */
  lemma KickHit(arena: Matrix, p: Matrix, x0: int, y: int, w: nat, k: nat)
    requires k < KickLimit(w) && !Overlaps(arena, p, x0 + Shift(k), y)
    ensures FirstFree(arena, p, x0, y, KickTrials(w), k) == Some(x0 + Shift(k))
  {
    assert KickTrials(w)[k] == Shift(k);
  }

  /** A column the search returns is one where the piece fits. */
  lemma {:induction false} FirstFreeFits(arena: Matrix, p: Matrix, x0: int, y: int, trials: seq<int>, from: nat)
    ensures var r := FirstFree(arena, p, x0, y, trials, from);
      r.Some? ==> !Overlaps(arena, p, r.value, y)
    decreases |trials| - from
  {
    if from < |trials| {
      FirstFreeFits(arena, p, x0, y, trials, from + 1);
    }
  }

  /** A column the search returns is one of the trials, and every trial
      before it collides. */
  lemma {:induction false} FirstFreeFirst(arena: Matrix, p: Matrix, x0: int, y: int, trials: seq<int>, from: nat)
    ensures var r := FirstFree(arena, p, x0, y, trials, from);
      r.Some? ==> exists k :: from <= k < |trials| && r.value == x0 + trials[k] &&
                    forall l :: from <= l < k ==> Overlaps(arena, p, x0 + trials[l], y)
    decreases |trials| - from
  {
    if from < |trials| && Overlaps(arena, p, x0 + trials[from], y) {
      FirstFreeFirst(arena, p, x0, y, trials, from + 1);
    }
  }

  /** The search finds nothing exactly when every trial collides. */
  lemma {:induction false} FirstFreeNone(arena: Matrix, p: Matrix, x0: int, y: int, trials: seq<int>, from: nat)
    ensures FirstFree(arena, p, x0, y, trials, from).None? <==>
      forall k :: from <= k < |trials| ==> Overlaps(arena, p, x0 + trials[k], y)
    decreases |trials| - from
  {
    if from < |trials| {
      FirstFreeNone(arena, p, x0, y, trials, from + 1);
    }
  }
}
