/** The pad matrix of the loop widget: one row per voice, one column per step, each
    cell an on/off flag. */
module Grid {

  /** A voice row: its CSS id, its pad label and its base frequency in hertz. */
  datatype Voice = Voice(id: string, padLabel: string, freq: nat)

  const Voices: seq<Voice> := [
    Voice("kick", "K", 90),
    Voice("snare", "S", 180),
    Voice("hat", "H", 320),
    Voice("chime", "C", 520)
  ]

  /** Number of rows (one per voice) and of steps (columns) in the loop. */
  const Rows: nat := |Voices|
  const Steps: nat := 8

  type Matrix = seq<seq<bool>>

  /** The shape every matrix the widget holds has: Rows rows of Steps cells. */
  predicate WellFormed(m: Matrix) {
    |m| == Rows && forall r :: 0 <= r < |m| ==> |m[r]| == Steps
  }

  predicate InBounds(r: int, s: int) {
    0 <= r < Rows && 0 <= s < Steps
  }

  /** A row with every step off. */
  function EmptyRow(): (row: seq<bool>)
    ensures |row| == Steps
    ensures forall s :: 0 <= s < |row| ==> !row[s]
  {
    seq(Steps, _ => false)
  }

  /** The matrix the widget starts from and returns to on clear: every pad off. */
  function Empty(): (m: Matrix)
    ensures WellFormed(m)
    ensures forall r, s :: InBounds(r, s) ==> !m[r][s]
  {
    seq(Rows, _ => EmptyRow())
  }

  /** Clicking pad (r, s): that one cell flips, every other cell keeps its value. */
  function Flip(m: Matrix, r: int, s: int): (m': Matrix)
    requires WellFormed(m) && InBounds(r, s)
    ensures WellFormed(m')
    ensures m'[r][s] == !m[r][s]
    ensures forall i, j :: InBounds(i, j) && (i != r || j != s) ==> m'[i][j] == m[i][j]
  {
    m[r := m[r][s := !m[r][s]]]
  }

  /** Flipping the same pad twice gives back the matrix it started from. */
  lemma FlipInvolutive(m: Matrix, r: int, s: int)
    requires WellFormed(m) && InBounds(r, s)
    ensures Flip(Flip(m, r, s), r, s) == m
  {
    var m2 := Flip(Flip(m, r, s), r, s);
    assert forall i :: 0 <= i < Rows ==> m2[i] == m[i];
  }

  /** Number of cells that are on in one row. */
  function RowCount(row: seq<bool>): (n: nat)
    ensures n <= |row|
  {
    if |row| == 0 then 0
    else RowCount(row[..|row| - 1]) + (if row[|row| - 1] then 1 else 0)
  }

  /** Number of cells that are on in a matrix, row by row. */
  function Count(m: Matrix): nat {
    if |m| == 0 then 0 else Count(m[..|m| - 1]) + RowCount(m[|m| - 1])
  }

  /** The count of a matrix whose rows all have Steps cells is at most |m| × Steps. */
  lemma {:induction false} CountAtMost(m: Matrix)
    requires forall r :: 0 <= r < |m| ==> |m[r]| == Steps
    ensures Count(m) <= |m| * Steps
  {
    if |m| > 0 {
      CountAtMost(m[..|m| - 1]);
    }
  }

  /** The active-cell count of a widget matrix lies in [0, Rows × Steps] = [0, 32]. */
  lemma CountBounds(m: Matrix)
    requires WellFormed(m)
    ensures 0 <= Count(m) <= Rows * Steps
  {
    CountAtMost(m);
  }

  /** Setting one cell of a row changes its count by what that cell contributes. */
  lemma {:induction false} RowCountUpdate(row: seq<bool>, s: int, b: bool)
    requires 0 <= s < |row|
    ensures RowCount(row[s := b]) + (if row[s] then 1 else 0) == RowCount(row) + (if b then 1 else 0)
  {
    var row' := row[s := b];
    if s < |row| - 1 {
      assert row'[..|row'| - 1] == row[..|row| - 1][s := b];
      RowCountUpdate(row[..|row| - 1], s, b);
    } else {
      assert row'[..|row'| - 1] == row[..|row| - 1];
    }
  }

  /** Replacing one row changes the count by the difference of the two row counts. */
  lemma {:induction false} CountUpdate(m: Matrix, r: int, row: seq<bool>)
    requires 0 <= r < |m|
    ensures Count(m[r := row]) + RowCount(m[r]) == Count(m) + RowCount(row)
  {
    var m' := m[r := row];
    if r < |m| - 1 {
      assert m'[..|m'| - 1] == m[..|m| - 1][r := row];
      CountUpdate(m[..|m| - 1], r, row);
    } else {
      assert m'[..|m'| - 1] == m[..|m| - 1];
    }
  }

  /** One pad click changes the active count by exactly one: down if the pad was on,
      up if it was off. */
  lemma CountFlip(m: Matrix, r: int, s: int)
    requires WellFormed(m) && InBounds(r, s)
    ensures Count(Flip(m, r, s)) == if m[r][s] then Count(m) - 1 else Count(m) + 1
  {
    RowCountUpdate(m[r], s, !m[r][s]);
    CountUpdate(m, r, m[r][s := !m[r][s]]);
  }

  /** A row counts zero exactly when every cell of it is off. */
  lemma {:induction false} RowCountZero(row: seq<bool>)
    ensures RowCount(row) == 0 <==> forall s :: 0 <= s < |row| ==> !row[s]
  {
    if |row| > 0 {
      RowCountZero(row[..|row| - 1]);
      assert forall s :: 0 <= s < |row| - 1 ==> row[..|row| - 1][s] == row[s];
    }
  }

  /** A matrix counts zero exactly when every cell of it is off. */
  lemma {:induction false} CountZero(m: Matrix)
    ensures Count(m) == 0 <==> forall r, s :: 0 <= r < |m| && 0 <= s < |m[r]| ==> !m[r][s]
  {
    if |m| > 0 {
      var init := m[..|m| - 1];
      CountZero(init);
      RowCountZero(m[|m| - 1]);
      assert forall r :: 0 <= r < |m| - 1 ==> init[r] == m[r];
    }
  }

  /** For a widget matrix, "no active steps" and "equal to the empty matrix" coincide. */
  lemma CountZeroIffEmpty(m: Matrix)
    requires WellFormed(m)
    ensures Count(m) == 0 <==> m == Empty()
  {
    CountZero(m);
    if Count(m) == 0 {
      forall r | 0 <= r < Rows
        ensures m[r] == Empty()[r]
      {
      }
    }
  }

  /** The count the widget shows, computed as `countActive` does: a row-by-row,
      step-by-step scan adding one for every cell that is on. */
  method CountActive(m: Matrix) returns (total: nat)
    requires WellFormed(m)
    ensures total == Count(m)
    ensures total <= Rows * Steps
  {
    total := 0;
    var r := 0;
    while r < Rows
      invariant 0 <= r <= Rows
      invariant total == Count(m[..r])
    {
      var s := 0;
      while s < Steps
        invariant 0 <= s <= Steps
        invariant total == Count(m[..r]) + RowCount(m[r][..s])
      {
        assert m[r][..s + 1][..s] == m[r][..s];
        if m[r][s] {
          total := total + 1;
        }
        s := s + 1;
      }
      assert m[r][..Steps] == m[r];
      assert m[..r + 1][..r] == m[..r];
      r := r + 1;
    }
    assert m[..Rows] == m;
    CountBounds(m);
  }
}
