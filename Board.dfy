/** The playing field: a grid of cells with row 0 at the bottom, queries on
    it, detection of complete rows and the removal of row ranges that clears
    them. */
module BoardGrid {
  import opened Wrappers
  import opened Enums

  datatype Cell = Filled(color: PieceTypeColor) | Empty

  predicate IsFilled(cell: Cell)
  {
    match cell
    case Filled(_) => true
    case Empty => false
  }

  /** The cells of a board as a value: a sequence of rows, bottom row first. */
  type Grid = seq<seq<Cell>>

  ghost predicate IsGrid(g: Grid, rows: nat, cols: nat)
  {
    |g| == rows && forall i :: 0 <= i < |g| ==> |g[i]| == cols
  }

  function EmptyRow(cols: nat): (row: seq<Cell>)
    ensures |row| == cols && forall j :: 0 <= j < cols ==> row[j] == Empty
  {
    seq(cols, _ => Empty)
  }

  function EmptyRows(k: nat, cols: nat): (g: Grid)
    ensures IsGrid(g, k, cols) && forall i :: 0 <= i < k ==> g[i] == EmptyRow(cols)
  {
    seq(k, _ => EmptyRow(cols))
  }

  predicate RowComplete(row: seq<Cell>)
  {
    forall j :: 0 <= j < |row| ==> IsFilled(row[j])
  }

  predicate GridEmpty(g: Grid)
  {
    forall i, j :: 0 <= i < |g| && 0 <= j < |g[i]| ==> !IsFilled(g[i][j])
  }

  // ---------------------------------------------------------------------
  // Reference definition of the complete-row ranges

  /** The lowest row of the run of complete rows that contains row i. */
  function RunStart(g: Grid, i: nat): (lo: nat)
    requires i < |g| && RowComplete(g[i])
    ensures lo <= i
    ensures forall k :: lo <= k <= i ==> RowComplete(g[k])
    ensures lo == 0 || !RowComplete(g[lo - 1])
    decreases i
  {
    if i > 0 && RowComplete(g[i - 1]) then RunStart(g, i - 1) else i
  }

  /** The maximal runs of complete rows among rows 0..t-1, highest run first;
      a run hi..=lo is reported as the pair (hi, lo - 1), so that the first
      component minus the second is the run's length. */
  function RunsBelow(g: Grid, t: nat): (rs: seq<(int, int)>)
    requires t <= |g|
    ensures forall k :: 0 <= k < |rs| ==> -1 <= rs[k].1 < rs[k].0 < t
    decreases t
  {
    if t == 0 then []
    else if !RowComplete(g[t - 1]) then RunsBelow(g, t - 1)
    else
      var lo := RunStart(g, t - 1);
      [(t - 1, lo - 1)] + RunsBelow(g, lo)
  }

  /** A run whose rows lo..=hi are complete and whose row below is not
      starts the list of runs below hi + 1. */
  lemma {:induction false} RunsBelowAtRunTop(g: Grid, hi: nat, lo: nat)
    requires lo <= hi < |g|
    requires forall k :: lo <= k <= hi ==> RowComplete(g[k])
    requires lo == 0 || !RowComplete(g[lo - 1])
    ensures RunsBelow(g, hi + 1) == [(hi, lo - 1)] + RunsBelow(g, lo)
  {
    var s := RunStart(g, hi);
    if s < lo {
      assert false;
    } else if s > lo {
      assert false;
    }
  }

  /** Reporting the next run moves it from what remains to what is done. */
  lemma ReportRun(done: seq<(int, int)>, run: (int, int), rest: seq<(int, int)>, later: seq<(int, int)>)
    requires rest == [run] + later
    ensures done + rest == (done + [run]) + later
  {
  }

  /** An incomplete row adds no run. */
  lemma SkipIncompleteRow(g: Grid, i: nat)
    requires i < |g| && !RowComplete(g[i])
    ensures RunsBelow(g, i + 1) == RunsBelow(g, i)
  {
  }

  /** Number of complete rows among rows 0..t-1. */
  function CompleteCount(g: Grid, t: nat): nat
    requires t <= |g|
  {
    if t == 0 then 0 else CompleteCount(g, t - 1) + (if RowComplete(g[t - 1]) then 1 else 0)
  }

  /** Sum of the run lengths (first minus second component). */
  function SumLengths(ranges: seq<(int, int)>): int
  {
    if ranges == [] then 0 else (ranges[0].0 - ranges[0].1) + SumLengths(ranges[1..])
  }

  /** Every row inside a reported run is complete. */
  lemma {:induction false} RunsBelowComplete(g: Grid, t: nat)
    requires t <= |g|
    ensures var rs := RunsBelow(g, t);
      forall k, i :: 0 <= k < |rs| && rs[k].1 < i <= rs[k].0 ==> RowComplete(g[i])
    decreases t
  {
    if t == 0 {
    } else if !RowComplete(g[t - 1]) {
      RunsBelowComplete(g, t - 1);
      assert RunsBelow(g, t) == RunsBelow(g, t - 1);
    } else {
      var lo := RunStart(g, t - 1);
      RunsBelowComplete(g, lo);
      var rs := RunsBelow(g, t);
      assert rs[1..] == RunsBelow(g, lo);
    }
  }

  /** In particular the top row of every run is complete. */
  lemma RunsBelowTopComplete(g: Grid, t: nat, k: nat)
    requires t <= |g| && k < |RunsBelow(g, t)|
    ensures RowComplete(g[RunsBelow(g, t)[k].0])
  {
    RunsBelowComplete(g, t);
    var rs := RunsBelow(g, t);
    var i := rs[k].0;
    assert rs[k].1 < i <= rs[k].0;
  }

  /** The row just below a run, and the row just above it, are not complete. */
  ghost predicate RunsBounded(g: Grid, t: nat)
    requires t <= |g|
  {
    var rs := RunsBelow(g, t);
    && (forall k :: 0 <= k < |rs| && 0 <= rs[k].1 ==> !RowComplete(g[rs[k].1]))
    && (forall k :: 0 <= k < |rs| && rs[k].0 + 1 < t ==> !RowComplete(g[rs[k].0 + 1]))
  }

  lemma {:induction false} RunsBelowBounded(g: Grid, t: nat)
    requires t <= |g|
    ensures RunsBounded(g, t)
    decreases t
  {
    if t == 0 {
    } else if !RowComplete(g[t - 1]) {
      RunsBelowBounded(g, t - 1);
      assert RunsBelow(g, t) == RunsBelow(g, t - 1);
    } else {
      var lo := RunStart(g, t - 1);
      RunsBelowBounded(g, lo);
      RunsBoundedStep(g, t, lo);
    }
  }

  /** Adding the run that ends at row t - 1 keeps the runs bounded. */
  lemma RunsBoundedStep(g: Grid, t: nat, lo: nat)
    requires 0 < t <= |g| && RowComplete(g[t - 1]) && lo == RunStart(g, t - 1)
    requires RunsBounded(g, lo)
    ensures RunsBounded(g, t)
  {
    var rs := RunsBelow(g, t);
    var tail := RunsBelow(g, lo);
    assert rs == [(t - 1, lo as int - 1)] + tail;
    forall k | 0 <= k < |rs| && 0 <= rs[k].1
      ensures !RowComplete(g[rs[k].1])
    {
      if k > 0 {
        assert rs[k] == tail[k - 1];
      }
    }
    forall k | 0 <= k < |rs| && rs[k].0 + 1 < t
      ensures !RowComplete(g[rs[k].0 + 1])
    {
      assert rs[k] == tail[k - 1];
      RunsBelowTopComplete(g, lo, k - 1);
    }
  }

  /** The runs come highest first and do not touch. */
  ghost predicate RunsDescending(g: Grid, t: nat)
    requires t <= |g|
  {
    var rs := RunsBelow(g, t);
    forall k, k' :: 0 <= k < k' < |rs| ==> rs[k'].0 < rs[k].1
  }

  lemma {:induction false} RunsBelowDescending(g: Grid, t: nat)
    requires t <= |g|
    ensures RunsDescending(g, t)
    decreases t
  {
    if t == 0 {
    } else if !RowComplete(g[t - 1]) {
      RunsBelowDescending(g, t - 1);
      assert RunsBelow(g, t) == RunsBelow(g, t - 1);
    } else {
      var lo := RunStart(g, t - 1);
      RunsBelowDescending(g, lo);
      RunsDescendingStep(g, t, lo);
    }
  }

  /** Adding the run that ends at row t - 1 keeps the runs descending. */
  lemma RunsDescendingStep(g: Grid, t: nat, lo: nat)
    requires 0 < t <= |g| && RowComplete(g[t - 1]) && lo == RunStart(g, t - 1)
    requires RunsDescending(g, lo)
    ensures RunsDescending(g, t)
  {
    var rs := RunsBelow(g, t);
    var tail := RunsBelow(g, lo);
    assert rs == [(t - 1, lo as int - 1)] + tail;
    forall k, k' | 0 <= k < k' < |rs|
      ensures rs[k'].0 < rs[k].1
    {
      if k == 0 {
        assert rs[k'] == tail[k' - 1];
        RunsBelowTopComplete(g, lo, k' - 1);
      } else {
        assert rs[k] == tail[k - 1] && rs[k'] == tail[k' - 1];
      }
    }
  }

  /** Every complete row below t lies inside some reported run. */
  lemma {:induction false} RunsBelowCovers(g: Grid, t: nat)
    requires t <= |g|
    ensures var rs := RunsBelow(g, t);
      forall i :: 0 <= i < t && RowComplete(g[i]) ==> exists k :: 0 <= k < |rs| && rs[k].1 < i <= rs[k].0
    decreases t
  {
    if t == 0 {
    } else if !RowComplete(g[t - 1]) {
      RunsBelowCovers(g, t - 1);
      assert RunsBelow(g, t) == RunsBelow(g, t - 1);
    } else {
      var lo := RunStart(g, t - 1);
      RunsBelowCovers(g, lo);
      var rs := RunsBelow(g, t);
      var tail := RunsBelow(g, lo);
      assert rs[1..] == tail;
      forall i | 0 <= i < t && RowComplete(g[i])
        ensures exists k :: 0 <= k < |rs| && rs[k].1 < i <= rs[k].0
      {
        if i >= lo {
          assert rs[0].1 < i <= rs[0].0;
        } else {
          var k :| 0 <= k < |tail| && tail[k].1 < i <= tail[k].0;
          assert rs[k + 1] == tail[k];
        }
      }
    }
  }

  /** The runs are well formed, maximal, strictly descending and cover every
      complete row. */
  lemma RunsBelowMaximal(g: Grid, t: nat)
    requires t <= |g|
    ensures var rs := RunsBelow(g, t);
      && (forall k, i :: 0 <= k < |rs| && rs[k].1 < i <= rs[k].0 ==> RowComplete(g[i]))
      && (forall k :: 0 <= k < |rs| && 0 <= rs[k].1 ==> !RowComplete(g[rs[k].1]))
      && (forall k :: 0 <= k < |rs| && rs[k].0 + 1 < t ==> !RowComplete(g[rs[k].0 + 1]))
      && (forall k, k' :: 0 <= k < k' < |rs| ==> rs[k'].0 < rs[k].1)
      && (forall i :: 0 <= i < t && RowComplete(g[i]) ==> exists k :: 0 <= k < |rs| && rs[k].1 < i <= rs[k].0)
  {
    RunsBelowComplete(g, t);
    RunsBelowBounded(g, t);
    RunsBelowDescending(g, t);
    RunsBelowCovers(g, t);
  }

  /** The run lengths add up to the number of complete rows. */
  lemma {:induction false} RunsBelowCountComplete(g: Grid, t: nat)
    requires t <= |g|
    ensures SumLengths(RunsBelow(g, t)) == CompleteCount(g, t)
    decreases t
  {
    if t == 0 {
    } else if !RowComplete(g[t - 1]) {
      RunsBelowCountComplete(g, t - 1);
    } else {
      var lo := RunStart(g, t - 1);
      RunsBelowCountComplete(g, lo);
      CompleteCountOfRun(g, lo, t);
      var rs := RunsBelow(g, t);
      assert rs[1..] == RunsBelow(g, lo);
    }
  }

  /** Complete rows lo..t-1 add t - lo to the count. */
  lemma {:induction false} CompleteCountOfRun(g: Grid, lo: nat, t: nat)
    requires lo <= t <= |g|
    requires forall k :: lo <= k < t ==> RowComplete(g[k])
    ensures CompleteCount(g, t) == CompleteCount(g, lo) + (t - lo)
    decreases t
  {
    if t > lo {
      CompleteCountOfRun(g, lo, t - 1);
    }
  }

  // ---------------------------------------------------------------------
  // Reference definition of row removal and of a full line clear

  predicate ValidRange(range: (int, int), rows: nat)
  {
    range.0 == range.1 || -1 <= range.1 < range.0 < rows
  }

  /** `remove_rows(from, to)`: rows to+1..=from disappear, the rows above move
      down by from - to in order, and as many empty rows appear on top. */
  function RemoveRowsSpec(g: Grid, from: int, to: int, cols: nat): (r: Grid)
    requires ValidRange((from, to), |g|)
    ensures |r| == |g|
  {
    if from == to then g else g[..to + 1] + g[from + 1..] + EmptyRows(from - to, cols)
  }

  /** Row k after `RemoveRowsSpec`, pointwise. */
  lemma RemoveRowsSpecAt(g: Grid, from: int, to: int, cols: nat, k: int)
    requires -1 <= to < from < |g| && 0 <= k < |g|
    ensures RemoveRowsSpec(g, from, to, cols)[k] ==
      if k <= to then g[k]
      else if k < |g| - (from - to) then g[k + (from - to)]
      else EmptyRow(cols)
  {
  }

  /** Removing rows keeps the grid's dimensions. */
  lemma RemoveRowsSpecIsGrid(g: Grid, from: int, to: int, rows: nat, cols: nat)
    requires IsGrid(g, rows, cols) && ValidRange((from, to), rows)
    ensures IsGrid(RemoveRowsSpec(g, from, to, cols), rows, cols)
  {
    if from != to {
      forall k | 0 <= k < rows
        ensures |RemoveRowsSpec(g, from, to, cols)[k]| == cols
      {
        RemoveRowsSpecAt(g, from, to, cols, k);
      }
    }
  }

  /** `remove_ranges`: each range removed in turn, first range first. */
  function ApplyRemovals(g: Grid, ranges: seq<(int, int)>, cols: nat): (r: Grid)
    requires forall k :: 0 <= k < |ranges| ==> ValidRange(ranges[k], |g|)
    ensures |r| == |g|
    decreases |ranges|
  {
    if ranges == [] then g
    else ApplyRemovals(RemoveRowsSpec(g, ranges[0].0, ranges[0].1, cols), ranges[1..], cols)
  }

  /** The rows that are not complete, in their original order. */
  function KeepIncomplete(g: Grid): (r: Grid)
    ensures |r| <= |g|
  {
    if g == [] then []
    else (if RowComplete(g[0]) then [] else [g[0]]) + KeepIncomplete(g[1..])
  }

  /** Naive reference for a line clear: delete every complete row, let the
      rest fall in order, and fill the top with empty rows. */
  function Compact(g: Grid, cols: nat): (r: Grid)
    ensures |r| == |g|
  {
    KeepIncomplete(g) + EmptyRows(|g| - |KeepIncomplete(g)|, cols)
  }

  lemma {:induction false} KeepIncompleteAppend(a: Grid, b: Grid)
    ensures KeepIncomplete(a + b) == KeepIncomplete(a) + KeepIncomplete(b)
    decreases |a|
  {
    if a == [] {
      assert a + b == b;
    } else {
      assert (a + b)[1..] == a[1..] + b;
      KeepIncompleteAppend(a[1..], b);
    }
  }

  lemma {:induction false} KeepIncompleteAllComplete(a: Grid)
    requires forall k :: 0 <= k < |a| ==> RowComplete(a[k])
    ensures KeepIncomplete(a) == []
    decreases |a|
  {
    if a != [] {
      KeepIncompleteAllComplete(a[1..]);
    }
  }

  lemma {:induction false} KeepIncompleteNoneComplete(a: Grid)
    requires forall k :: 0 <= k < |a| ==> !RowComplete(a[k])
    ensures KeepIncomplete(a) == a
    decreases |a|
  {
    if a != [] {
      KeepIncompleteNoneComplete(a[1..]);
    }
  }

  /** Exactly the complete rows disappear: the rows kept number the rows
      minus the complete ones. */
  lemma {:induction false} KeepIncompleteCount(g: Grid, t: nat)
    requires t <= |g|
    ensures |KeepIncomplete(g[..t])| + CompleteCount(g, t) == t
    decreases t
  {
    if t > 0 {
      KeepIncompleteCount(g, t - 1);
      assert g[..t] == g[..t - 1] + [g[t - 1]];
      KeepIncompleteAppend(g[..t - 1], [g[t - 1]]);
      assert [g[t - 1]][1..] == [];
    }
  }

  lemma EmptyRowsAppend(m: nat, n: nat, cols: nat)
    ensures EmptyRows(m, cols) + EmptyRows(n, cols) == EmptyRows(m + n, cols)
  {
  }

  /** The grid in which rows t.. are already compacted and rows below t are
      as they were. */
  function PartlyCompacted(g: Grid, t: nat, cols: nat): (r: Grid)
    requires t <= |g|
    ensures |r| == |g|
  {
    KeepIncompleteAppendLength(g, t);
    g[..t] + KeepIncomplete(g[t..]) + EmptyRows(|g| - t - |KeepIncomplete(g[t..])|, cols)
  }

  lemma KeepIncompleteAppendLength(g: Grid, t: nat)
    requires t <= |g|
    ensures |KeepIncomplete(g[t..])| <= |g| - t
  {
  }

  /** Below an incomplete row nothing changes in the partly compacted grid. */
  lemma PartlyCompactedSkip(g: Grid, t: nat, cols: nat)
    requires 0 < t <= |g| && !RowComplete(g[t - 1])
    ensures PartlyCompacted(g, t, cols) == PartlyCompacted(g, t - 1, cols)
  {
    assert g[t - 1..] == [g[t - 1]] + g[t..];
    KeepIncompleteAppend([g[t - 1]], g[t..]);
    assert g[..t] == g[..t - 1] + [g[t - 1]];
  }

  /** Removing a run lo..t-1 of complete rows from the grid compacted above t
      gives the grid compacted above lo. */
  lemma PartlyCompactedRemoveRun(g: Grid, t: nat, lo: nat, cols: nat)
    requires lo < t <= |g|
    requires forall k :: lo <= k < t ==> RowComplete(g[k])
    ensures RemoveRowsSpec(PartlyCompacted(g, t, cols), t - 1, lo - 1, cols) == PartlyCompacted(g, lo, cols)
  {
    var x := PartlyCompacted(g, t, cols);
    var rest := KeepIncomplete(g[t..]);
    var m := |g| - t - |rest|;
    PartlyCompactedSlices(g, t, lo, cols);
    assert RemoveRowsSpec(x, t - 1, lo - 1, cols) == x[..lo] + x[t..] + EmptyRows(t - lo, cols);
    Regroup(g[..lo], rest, EmptyRows(m, cols), EmptyRows(t - lo, cols));
    EmptyRowsAppend(m, t - lo, cols);
    assert g[lo..] == g[lo..t] + g[t..];
    KeepIncompleteAppend(g[lo..t], g[t..]);
    KeepIncompleteAllComplete(g[lo..t]);
    assert KeepIncomplete(g[lo..]) == rest;
  }

  /** The two pieces of a partly compacted grid that survive a removal. */
  lemma PartlyCompactedSlices(g: Grid, t: nat, lo: nat, cols: nat)
    requires lo <= t <= |g|
    ensures PartlyCompacted(g, t, cols)[..lo] == g[..lo]
    ensures PartlyCompacted(g, t, cols)[t..] == KeepIncomplete(g[t..]) + EmptyRows(|g| - t - |KeepIncomplete(g[t..])|, cols)
  {
  }

  lemma Regroup(a: Grid, b: Grid, c: Grid, d: Grid)
    ensures a + (b + c) + d == a + b + (c + d)
  {
  }

  /** Removing the runs below t from a grid compacted above t finishes the
      compaction. */
  lemma {:induction false} RemovingRunsCompacts(g: Grid, t: nat, cols: nat)
    requires t <= |g|
    ensures ApplyRemovals(PartlyCompacted(g, t, cols), RunsBelow(g, t), cols) == Compact(g, cols)
    decreases t
  {
    if t == 0 {
      assert g[..0] + KeepIncomplete(g[0..]) == KeepIncomplete(g);
    } else if !RowComplete(g[t - 1]) {
      PartlyCompactedSkip(g, t, cols);
      RemovingRunsCompacts(g, t - 1, cols);
    } else {
      var lo := RunStart(g, t - 1);
      PartlyCompactedRemoveRun(g, t, lo, cols);
      RemovingRunsCompacts(g, lo, cols);
      var rs := RunsBelow(g, t);
      RunsBelowAtRunTop(g, t - 1, lo);
      FirstAndRest(rs, (t - 1, lo as int - 1), RunsBelow(g, lo));
      var x := PartlyCompacted(g, t, cols);
      assert ApplyRemovals(x, rs, cols) == ApplyRemovals(RemoveRowsSpec(x, t - 1, lo as int - 1, cols), RunsBelow(g, lo), cols);
    }
  }

  lemma FirstAndRest(rs: seq<(int, int)>, r: (int, int), rest: seq<(int, int)>)
    requires rs == [r] + rest
    ensures rs[0] == r && rs[1..] == rest
  {
  }

  /** Clearing the completed runs one after another, as returned, gives the
      same board as deleting all complete rows at once. */
  lemma ClearingCompletedRowsCompacts(g: Grid, cols: nat)
    ensures ApplyRemovals(g, RunsBelow(g, |g|), cols) == Compact(g, cols)
  {
    RunsBelowMaximal(g, |g|);
    assert PartlyCompacted(g, |g|, cols) == g by {
      assert g[|g|..] == [];
      assert g[..|g|] == g;
    }
    RemovingRunsCompacts(g, |g|, cols);
  }

  /** Every row of KeepIncomplete(g) is a row of g that is not complete. */
  lemma {:induction false} KeepIncompleteRows(g: Grid, i: nat)
    requires i < |KeepIncomplete(g)|
    ensures KeepIncomplete(g)[i] in g && !RowComplete(KeepIncomplete(g)[i])
    decreases |g|
  {
    if RowComplete(g[0]) {
      KeepIncompleteRows(g[1..], i);
    } else if i > 0 {
      KeepIncompleteRows(g[1..], i - 1);
    }
  }

  /** After a line clear on a board with at least one column, no row is
      complete, so a second clear finds nothing. */
  lemma CompactHasNoCompleteRow(g: Grid, rows: nat, cols: nat)
    requires IsGrid(g, rows, cols) && cols > 0
    ensures IsGrid(Compact(g, cols), rows, cols)
    ensures forall i :: 0 <= i < rows ==> !RowComplete(Compact(g, cols)[i])
    ensures RunsBelow(Compact(g, cols), rows) == []
  {
    var c := Compact(g, cols);
    var keep := KeepIncomplete(g);
    forall i | 0 <= i < rows
      ensures |c[i]| == cols && !RowComplete(c[i])
    {
      if i < |keep| {
        KeepIncompleteRows(g, i);
        assert c[i] == keep[i];
      } else {
        assert c[i] == EmptyRow(cols);
        assert !IsFilled(c[i][0]);
      }
    }
    NoCompleteRowNoRuns(c, rows);
  }

  /** Without complete rows there are no runs. */
  lemma {:induction false} NoCompleteRowNoRuns(g: Grid, t: nat)
    requires t <= |g|
    requires forall i :: 0 <= i < t ==> !RowComplete(g[i])
    ensures RunsBelow(g, t) == []
    decreases t
  {
    if t > 0 {
      NoCompleteRowNoRuns(g, t - 1);
    }
  }

  // ---------------------------------------------------------------------
  // The board object

  /** The state of the swapping loop of `remove_rows` before row i: rows
      up to `to` untouched, rows to+1..i-offset holding the rows offset
      higher, rows i-offset..i empty and rows i.. untouched. */
  ghost predicate MovedDownBelow(d: Grid, g: Grid, to: int, offset: int, i: int, cols: nat)
  {
    |d| == |g| && 0 < offset &&
    (forall k :: 0 <= k <= to && k < |d| ==> d[k] == g[k]) &&
    (forall k :: to < k < i - offset && 0 <= k && k + offset < |d| ==> d[k] == g[k + offset]) &&
    (forall k :: i - offset <= k < i && 0 <= k < |d| ==> d[k] == EmptyRow(cols)) &&
    (forall k :: i <= k < |d| && 0 <= k ==> d[k] == g[k])
  }

  /** Before the first swap the rows to+1..=from, emptied by the first loop,
      are the empty block. */
  lemma MoveDownStart(g: Grid, from: int, to: int, cols: nat)
    requires -1 <= to < from < |g|
    requires forall k :: to < k <= from ==> g[k] == EmptyRow(cols)
    ensures MovedDownBelow(g, g, to, from - to, from + 1, cols)
  {
  }

  /** One swap of the loop moves row i down to row i - offset and leaves the
      emptied row in its place. */
  lemma MoveDownStep(d: Grid, g: Grid, to: int, offset: int, i: int, cols: nat)
    requires -1 <= to && to + offset < i < |d|
    requires MovedDownBelow(d, g, to, offset, i, cols)
    ensures MovedDownBelow(d[i := d[i - offset]][i - offset := d[i]], g, to, offset, i + 1, cols)
  {
  }

  /** Once every row has been swapped, the rows above `to` have moved down by
      offset and the top offset rows are empty. */
  lemma MoveDownDone(d: Grid, g: Grid, to: int, offset: int, cols: nat)
    requires -1 <= to && to + offset < |d|
    requires MovedDownBelow(d, g, to, offset, |d|, cols)
    ensures forall k :: 0 <= k < |d| ==>
      d[k] == if k <= to then g[k]
        else if k < |d| - offset then g[k + offset]
        else EmptyRow(cols)
  {
  }

  class Board {
    const rows: nat
    const cols: nat
    var data: Grid

    ghost predicate Valid()
      reads this
    {
      IsGrid(data, rows, cols)
    }

    /** `Board::new`: rows rows of cols empty cells. */
    constructor(rows: nat, cols: nat)
      ensures Valid() && this.rows == rows && this.cols == cols
      ensures data == EmptyRows(rows, cols)
    {
      this.rows := rows;
      this.cols := cols;
      var d: Grid := [];
      for k := 0 to rows
        invariant d == EmptyRows(k, cols)
      {
        d := d + [EmptyRow(cols)];
      }
      data := d;
    }

    /** Unchecked read of a cell. */
    function Get(i: int, j: int): (cell: Cell)
      reads this
      requires Valid() && 0 <= i < rows && 0 <= j < cols
      ensures IsFilled(cell) == IsSet(i, j)
    {
      data[i][j]
    }

    predicate IsInBounds(i: int, j: int)
      reads this
      ensures IsInBounds(i, j) <==> 0 <= i < rows && 0 <= j < cols
    {
      !(i >= rows || j >= cols || i < 0 || j < 0)
    }

    /** False off the board; otherwise whether the cell is filled. */
    predicate IsSet(i: int, j: int)
      reads this
      requires Valid()
      ensures IsSet(i, j) ==> IsInBounds(i, j)
      ensures IsSet(i, j) <==> 0 <= i < rows && 0 <= j < cols && IsFilled(data[i][j])
    {
      if !IsInBounds(i, j) then false else IsFilled(data[i][j])
    }

    /** Write one cell; nothing else changes. */
    method SetVal(i: int, j: int, b: Cell)
      requires Valid() && 0 <= i < rows && 0 <= j < cols
      modifies this
      ensures Valid()
      ensures data == old(data)[i := old(data)[i][j := b]]
    {
      data := data[i := data[i][j := b]];
    }

    method Set(i: int, j: int, p: PieceTypeColor)
      requires Valid() && 0 <= i < rows && 0 <= j < cols
      modifies this
      ensures Valid() && IsSet(i, j)
      ensures data == old(data)[i := old(data)[i][j := Filled(p)]]
    {
      SetVal(i, j, Filled(p));
    }

    method Clear(i: int, j: int)
      requires Valid() && 0 <= i < rows && 0 <= j < cols
      modifies this
      ensures Valid() && !IsSet(i, j)
      ensures data == old(data)[i := old(data)[i][j := Empty]]
    {
      SetVal(i, j, Empty);
    }

    /** Whether every cell of row i is filled. */
    predicate IsComplete(i: int)
      reads this
      requires Valid() && 0 <= i < rows
      ensures IsComplete(i) <==> forall j :: 0 <= j < cols ==> IsSet(i, j)
      ensures IsComplete(i) == RowComplete(data[i])
    {
      assert |data[i]| == cols;
      assert forall j :: 0 <= j < cols ==> (IsSet(i, j) <==> IsFilled(data[i][j]));
      RowComplete(data[i])
    }

    /** Whether no cell of the board is filled. */
    predicate IsEmpty()
      reads this
      requires Valid()
      ensures IsEmpty() <==> forall i, j :: 0 <= i < rows && 0 <= j < cols ==> !IsSet(i, j)
    {
      assert forall i, j :: 0 <= i < rows && 0 <= j < cols ==> (IsSet(i, j) <==> IsFilled(data[i][j]));
      GridEmpty(data)
    }

    /** `completed_rows`: scans the rows top-down and reports each maximal run
        hi..=lo of complete rows as (hi, lo - 1). */
    method CompletedRows() returns (ranges: seq<(int, int)>)
      requires Valid()
      ensures ranges == RunsBelow(data, rows)
    {
      ghost var g := data;
      // rows below `pending` are still to be scanned or belong to the open
      // run; `rest` is what remains to be reported
      ghost var pending: nat := rows;
      ghost var rest := RunsBelow(g, rows);
      ranges := [];
      var from: Option<int> := None;
      var to: Option<int> := None;
      var i := |data|;
      while i > 0
        invariant 0 <= i <= pending <= rows
        invariant RunsBelow(g, rows) == ranges + rest
        invariant rest == RunsBelow(g, pending)
        invariant from.None? ==> to.None? && pending == i
        invariant from.Some? ==>
          && i <= from.value && pending == from.value + 1
          && (forall k :: i <= k <= from.value ==> RowComplete(g[k]))
          && to == (if i == from.value then None else Some(i))
      {
        i := i - 1;
        var complete := IsComplete(i);
        assert complete == RowComplete(g[i]);
        if complete {
          if from.None? {
            from := Some(i);
          } else {
            to := Some(i);
          }
        } else if from.Some? {
          var fromI := from.value;
          var toI := if to.Some? then to.value else fromI;
          RunsBelowAtRunTop(g, fromI, i + 1);
          SkipIncompleteRow(g, i);
          ReportRun(ranges, (fromI, toI - 1), rest, RunsBelow(g, i));
          ranges := ranges + [(fromI, toI - 1)];
          rest := RunsBelow(g, i);
          pending := i;
          from := None;
          to := None;
        } else {
          SkipIncompleteRow(g, i);
          rest := RunsBelow(g, i);
          pending := i;
        }
      }
      if from.Some? {
        var fromI := from.value;
        var toI := if to.Some? then to.value else fromI;
        RunsBelowAtRunTop(g, fromI, 0);
        ReportRun(ranges, (fromI, toI - 1), rest, []);
        assert (ranges + [(fromI, toI - 1)]) + [] == ranges + [(fromI, toI - 1)];
        ranges := ranges + [(fromI, toI - 1)];
      } else {
        assert ranges + rest == ranges;
      }
    }

    /** `remove_ranges`: removes each range in turn. */
    method RemoveRanges(ranges: seq<(int, int)>)
      requires Valid()
      requires forall k :: 0 <= k < |ranges| ==> ValidRange(ranges[k], rows)
      modifies this
      ensures Valid()
      ensures data == ApplyRemovals(old(data), ranges, cols)
    {
      for k := 0 to |ranges|
        invariant Valid()
        invariant ApplyRemovals(data, ranges[k..], cols) == ApplyRemovals(old(data), ranges, cols)
      {
        assert ranges[k..][1..] == ranges[k + 1..];
        RemoveRows(ranges[k].0, ranges[k].1);
      }
    }

    /** `remove_row`: removes the single row `row`. */
    method RemoveRow(row: int)
      requires Valid() && 0 <= row < rows
      modifies this
      ensures Valid()
      ensures data == RemoveRowsSpec(old(data), row, row - 1, cols)
    {
      RemoveRows(row, row - 1);
    }

    /** `remove_rows(from, to)`: empties rows to+1..=from, then swaps every row
        above from down by from - to places. */
    method RemoveRows(from: int, to: int)
      requires Valid() && ValidRange((from, to), rows)
      modifies this
      ensures Valid()
      ensures data == RemoveRowsSpec(old(data), from, to, cols)
    {
      if from == to {
        return;
      }
      ghost var g := data;
      ClearRowsBetween(from, to);
      MoveRowsDown(from, to);
      forall k | 0 <= k < rows
        ensures data[k] == RemoveRowsSpec(g, from, to, cols)[k]
      {
        RemoveRowsSpecAt(g, from, to, cols, k);
      }
    }

    /** The first loop of `remove_rows`: rows to+1..=from become empty. */
    method ClearRowsBetween(from: int, to: int)
      requires Valid() && -1 <= to < from < rows
      modifies this
      ensures Valid()
      ensures forall k :: 0 <= k < rows ==>
        data[k] == if to < k <= from then EmptyRow(cols) else old(data[k])
    {
      var i := to + 1;
      while i <= from
        invariant to + 1 <= i <= from + 1
        invariant Valid()
        invariant forall k :: 0 <= k < rows ==>
          data[k] == if to < k < i then EmptyRow(cols) else old(data[k])
      {
        data := data[i := EmptyRow(cols)];
        i := i + 1;
      }
    }

    /** The second loop of `remove_rows`: each row i from from+1 upwards is
        swapped with row i - (from - to), which the first loop emptied or an
        earlier swap vacated. */
    method MoveRowsDown(from: int, to: int)
      requires Valid() && -1 <= to < from < rows
      requires forall k :: to < k <= from ==> data[k] == EmptyRow(cols)
      modifies this
      ensures Valid()
      ensures forall k :: 0 <= k < rows ==>
        data[k] == if k <= to then old(data[k])
          else if k < rows - (from - to) then old(data[k + (from - to)])
          else EmptyRow(cols)
    {
      ghost var g := data;
      var offset := from - to;
      MoveDownStart(g, from, to, cols);
      var moveDownBegin := from + 1;
      var moveDownEnd := rows;
      var i := moveDownBegin;
      while i < moveDownEnd
        invariant from + 1 <= i <= rows
        invariant Valid()
        invariant MovedDownBelow(data, g, to, offset, i, cols)
      {
        var lower := i - offset;
        MoveDownStep(data, g, to, offset, i, cols);
        data := data[i := data[lower]][lower := data[i]];
        i := i + 1;
      }
      MoveDownDone(data, g, to, offset, cols);
    }

    /** Whether column j has a filled cell in rows i.. (scanned upwards). */
    predicate ColumnHasSetFrom(j: int, i: int)
      reads this
      requires Valid() && 0 <= i <= rows
      ensures ColumnHasSetFrom(j, i) <==> exists k :: i <= k < rows && IsSet(k, j)
      decreases rows - i
    {
      if i == rows then false else IsSet(i, j) || ColumnHasSetFrom(j, i + 1)
    }

    /** The first column, scanning upwards from column j, with a filled cell. */
    function FirstSetColFrom(j: int): (r: Option<int>)
      reads this
      requires Valid() && 0 <= j <= cols
      ensures r.None? <==> forall c, k :: j <= c < cols && 0 <= k < rows ==> !IsSet(k, c)
      ensures r.Some? ==> j <= r.value < cols && ColumnHasSetFrom(r.value, 0)
      ensures r.Some? ==> forall c, k :: j <= c < r.value && 0 <= k < rows ==> !IsSet(k, c)
      decreases cols - j
    {
      if j == cols then None
      else if ColumnHasSetFrom(j, 0) then Some(j)
      else FirstSetColFrom(j + 1)
    }

    /** The first column, scanning downwards from column j - 1, with a filled cell. */
    function LastSetColBelow(j: int): (r: Option<int>)
      reads this
      requires Valid() && 0 <= j <= cols
      ensures r.None? <==> forall c, k :: 0 <= c < j && 0 <= k < rows ==> !IsSet(k, c)
      ensures r.Some? ==> 0 <= r.value < j && ColumnHasSetFrom(r.value, 0)
      ensures r.Some? ==> forall c, k :: r.value < c < j && 0 <= k < rows ==> !IsSet(k, c)
      decreases j
    {
      if j == 0 then None
      else if ColumnHasSetFrom(j - 1, 0) then Some(j - 1)
      else LastSetColBelow(j - 1)
    }

    /** The leftmost column holding a filled cell; None on an empty board. */
    function GetFirstSetCol(): (r: Option<int>)
      reads this
      requires Valid()
      ensures r.None? <==> IsEmpty()
      ensures r.Some? ==> 0 <= r.value < cols && (exists k :: 0 <= k < rows && IsSet(k, r.value))
      ensures r.Some? ==> forall c, k :: 0 <= c < r.value && 0 <= k < rows ==> !IsSet(k, c)
    {
      FirstSetColFrom(0)
    }

    /** The rightmost column holding a filled cell; None on an empty board. */
    function GetLastSetCol(): (r: Option<int>)
      reads this
      requires Valid()
      ensures r.None? <==> IsEmpty()
      ensures r.Some? ==> 0 <= r.value < cols && (exists k :: 0 <= k < rows && IsSet(k, r.value))
      ensures r.Some? ==> forall c, k :: r.value < c < cols && 0 <= k < rows ==> !IsSet(k, c)
    {
      LastSetColBelow(cols)
    }
  }
}
