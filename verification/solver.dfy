/** The stepwise solver behind the "next step" button: the same row-major
    backtracking as the generator, written as a coroutine that hands the
    table to its consumer after every trial placement and after every
    success of the search below it. The suspension itself is not modelled:
    each hand-over is recorded, with the table as it stands at that moment,
    in a ghost trace that the method returns. */
module Solver {
  import opened Tables
  import opened Checks
  import opened Completion

  /** One hand-over of the table to the consumer. */
  datatype Step =
      /** the table just after `digit` was written at (row, col) */
      Trial(row: int, col: int, digit: int, table: Table)
      /** the table after the search from the next cell came back with success */
    | Confirm(table: Table)

  /** No peer of (r, c) holds `d`. */
  ghost predicate PeersFree(t: Table, r: int, c: int, d: int)
    requires IsTable(t)
  {
    forall r2, c2 :: InTable(r2, c2) && Peers(r, c, r2, c2) ==> t[r2][c2].value != d
  }

  /** What a hand-over by a call whose cursor is at row-major position `p`,
      started on table `s`, shows: the cells before `p` as they were in `s`;
      for a trial, a digit 1..9 at or after `p` that none of its peers holds;
      for a confirmation, a table without duplicates whose cells from `p` on
      are all filled. */
  ghost predicate StepFrom(s: Table, st: Step, p: int)
    requires IsTable(s)
  {
    IsTable(st.table) && KeptBefore(s, st.table, p) &&
    match st
    case Trial(r, c, d, t) =>
      InTable(r, c) && Pos(r, c) >= p && 1 <= d <= 9 && t[r][c] == Grid(d, false) && PeersFree(t, r, c, d)
    case Confirm(t) =>
      NoDuplicates(t) && FilledFrom(t, p)
  }

  /** Every hand-over in `steps` is one a call at position `p` started on
      table `s` can make. */
  ghost predicate AllStepsFrom(s: Table, steps: seq<Step>, p: int)
    requires IsTable(s)
    decreases |steps|
  {
    steps == [] || (AllStepsFrom(s, steps[..|steps| - 1], p) && StepFrom(s, steps[|steps| - 1], p))
  }

  /** The digits the trials at row-major position `p` write, in the order
      they are handed over. */
  ghost function TrialDigits(steps: seq<Step>, p: int): seq<int> {
    if steps == [] then []
    else
      var st := steps[|steps| - 1];
      TrialDigits(steps[..|steps| - 1], p) + (if st.Trial? && Pos(st.row, st.col) == p then [st.digit] else [])
  }

  predicate Increasing(ds: seq<int>) {
    forall x, y :: 0 <= x < y < |ds| ==> ds[x] < ds[y]
  }

  // ---------------------------------------------------------------------------
  // How the hand-overs of nested calls combine

  lemma {:induction false} AllStepsAppend(s: Table, xs: seq<Step>, ys: seq<Step>, p: int)
    requires IsTable(s) && AllStepsFrom(s, xs, p) && AllStepsFrom(s, ys, p)
    ensures AllStepsFrom(s, xs + ys, p)
    decreases |ys|
  {
    if ys == [] {
      assert xs + ys == xs;
    } else {
      var zs := xs + ys;
      assert zs[..|zs| - 1] == xs + ys[..|ys| - 1];
      assert zs[|zs| - 1] == ys[|ys| - 1];
      AllStepsAppend(s, xs, ys[..|ys| - 1], p);
    }
  }

  /** Hand-overs that keep the cells before `p` of a table `u` keep those of
      any earlier table `s` that agrees with `u` there. */
  lemma {:induction false} AllStepsRebase(s: Table, u: Table, steps: seq<Step>, p: int)
    requires IsTable(s) && IsTable(u) && KeptBefore(s, u, p) && AllStepsFrom(u, steps, p)
    ensures AllStepsFrom(s, steps, p)
    decreases |steps|
  {
    if steps != [] {
      AllStepsRebase(s, u, steps[..|steps| - 1], p);
    }
  }

  /** A hand-over of the call at the next cell, started on table `u`, is one
      of the call at `p` started on `s` when `u` agrees with `s` before `p`
      and holds a digit at `p`; it is not a trial at `p`. */
  lemma StepWiden(s: Table, u: Table, st: Step, row: nat, col: nat)
    requires IsTable(s) && IsTable(u) && InTable(row, col)
    requires KeptBefore(s, u, Pos(row, col)) && u[row][col].value != 0
    requires StepFrom(u, st, Pos(row, col) + 1)
    ensures StepFrom(s, st, Pos(row, col))
    ensures !(st.Trial? && Pos(st.row, st.col) == Pos(row, col))
  {
    var t := st.table;
    forall i, j | InTable(i, j) && Pos(i, j) == Pos(row, col)
      ensures t[i][j] == u[row][col]
    {
      PosInjective(i, j, row, col);
    }
  }

  /** StepWiden for a whole trace: the trace contributes no digit at `p`. */
  lemma {:induction false} AllStepsWiden(s: Table, u: Table, steps: seq<Step>, row: nat, col: nat)
    requires IsTable(s) && IsTable(u) && InTable(row, col)
    requires KeptBefore(s, u, Pos(row, col)) && u[row][col].value != 0
    requires AllStepsFrom(u, steps, Pos(row, col + 1))
    ensures AllStepsFrom(s, steps, Pos(row, col))
    ensures TrialDigits(steps, Pos(row, col)) == []
    decreases |steps|
  {
    if steps != [] {
      AllStepsWiden(s, u, steps[..|steps| - 1], row, col);
      StepWiden(s, u, steps[|steps| - 1], row, col);
    }
  }

  lemma {:induction false} TrialDigitsAppend(xs: seq<Step>, ys: seq<Step>, p: int)
    ensures TrialDigits(xs + ys, p) == TrialDigits(xs, p) + TrialDigits(ys, p)
    decreases |ys|
  {
    if ys != [] {
      var zs := xs + ys;
      assert zs[..|zs| - 1] == xs + ys[..|ys| - 1];
      TrialDigitsAppend(xs, ys[..|ys| - 1], p);
    } else {
      assert xs + ys == xs;
    }
  }

  lemma {:induction false} EachStepFrom(s: Table, steps: seq<Step>, p: int)
    requires IsTable(s) && AllStepsFrom(s, steps, p)
    ensures forall k :: 0 <= k < |steps| ==> StepFrom(s, steps[k], p)
    decreases |steps|
  {
    if steps != [] {
      EachStepFrom(s, steps[..|steps| - 1], p);
      assert forall k :: 0 <= k < |steps| - 1 ==> steps[k] == steps[..|steps| - 1][k];
    }
  }

  /** What the consumer of a solver started at the first cell sees: every
      trial shows a digit 1..9 that no peer of its cell holds, and every
      confirmation shows a solved table. */
  lemma HandOversFromFirstCell(s: Table, steps: seq<Step>)
    requires IsTable(s) && AllStepsFrom(s, steps, Pos(0, 0))
    ensures forall k :: 0 <= k < |steps| ==> IsTable(steps[k].table)
    ensures forall k :: 0 <= k < |steps| && steps[k].Trial? ==>
              var st := steps[k];
              IsTable(st.table) && InTable(st.row, st.col) && 1 <= st.digit <= 9 &&
              st.table[st.row][st.col] == Grid(st.digit, false) && PeersFree(st.table, st.row, st.col, st.digit)
    ensures forall k :: 0 <= k < |steps| && steps[k].Confirm? ==> Solved(steps[k].table)
  {
    EachStepFrom(s, steps, Pos(0, 0));
  }

  /** Appending at most the digit `n` to increasing digits below `n` keeps
      them increasing, and below n + 1. */
  lemma IncreasingAppend(ds: seq<int>, es: seq<int>, n: int)
    requires Increasing(ds) && (forall d :: d in ds ==> d < n) && (es == [] || es == [n])
    ensures Increasing(ds + es) && forall d :: d in ds + es ==> d < n + 1
  {
    if es == [n] {
      forall x, y | 0 <= x < y < |ds + es|
        ensures (ds + es)[x] < (ds + es)[y]
      {
        if y == |ds| {
          assert (ds + es)[x] == ds[x] && ds[x] in ds;
        }
      }
    }
  }

  /** Writing a digit that CanPlace allows leaves no peer holding it. */
  lemma PlacedDigitIsPeersFree(t: Table, u: Table, row: nat, col: nat, n: int)
    requires IsTable(t) && IsTable(u) && InTable(row, col) && CanPlace(t, row, col, n)
    requires forall r, c :: InTable(r, c) && (r != row || c != col) ==> u[r][c] == t[r][c]
    ensures PeersFree(u, row, col, n)
  {
    forall r2: int, c2: int | InTable(r2, c2) && Peers(row, col, r2, c2)
      ensures u[r2][c2].value != n
    {
      SameBoxIsBoxOrigin(row, col, r2, c2);
    }
  }

  // ---------------------------------------------------------------------------
  // Which solutions the hand-overs confirm

  /** Some confirmation in `steps` shows the values of `u`. */
  ghost predicate Confirmed(steps: seq<Step>, u: Table)
    requires IsTable(u)
  {
    exists k :: 0 <= k < |steps| && steps[k].Confirm? && IsTable(steps[k].table) && SameValues(steps[k].table, u)
  }

  /** Every completion of `s` from `p` is confirmed in `steps`. */
  ghost predicate ConfirmsAll(s: Table, steps: seq<Step>, p: int)
    requires IsTable(s)
  {
    forall u: Table {:trigger Completes(s, u, p)} :: IsTable(u) && Completes(s, u, p) ==> Confirmed(steps, u)
  }

  /** Every completion of `s` from `p` holding a digit lo..hi-1 at (row, col)
      is confirmed in `steps`. */
  ghost predicate ConfirmsDigits(s: Table, steps: seq<Step>, p: int, row: int, col: int, lo: int, hi: int)
    requires IsTable(s) && InTable(row, col)
  {
    forall u: Table {:trigger Completes(s, u, p)} :: IsTable(u) && Completes(s, u, p) && lo <= u[row][col].value < hi ==> Confirmed(steps, u)
  }

  lemma ConfirmedAppend(xs: seq<Step>, ys: seq<Step>, u: Table)
    requires IsTable(u)
    ensures Confirmed(xs, u) || Confirmed(ys, u) ==> Confirmed(xs + ys, u)
  {
    if Confirmed(xs, u) {
      var k :| 0 <= k < |xs| && xs[k].Confirm? && IsTable(xs[k].table) && SameValues(xs[k].table, u);
      assert (xs + ys)[k] == xs[k];
    } else if Confirmed(ys, u) {
      var k :| 0 <= k < |ys| && ys[k].Confirm? && IsTable(ys[k].table) && SameValues(ys[k].table, u);
      assert (xs + ys)[|xs| + k] == ys[k];
    }
  }

  lemma ConfirmsAllAppend(s: Table, xs: seq<Step>, ys: seq<Step>, p: int)
    requires IsTable(s)
    ensures ConfirmsAll(s, xs, p) || ConfirmsAll(s, ys, p) ==> ConfirmsAll(s, xs + ys, p)
  {
    forall u: Table | IsTable(u) && Completes(s, u, p)
      ensures Confirmed(xs, u) || Confirmed(ys, u) ==> Confirmed(xs + ys, u)
    {
      ConfirmedAppend(xs, ys, u);
    }
  }

  lemma ConfirmsDigitsAppend(s: Table, xs: seq<Step>, ys: seq<Step>, p: int, row: int, col: int, lo: int, hi: int)
    requires IsTable(s) && InTable(row, col)
    ensures ConfirmsDigits(s, xs, p, row, col, lo, hi) || ConfirmsDigits(s, ys, p, row, col, lo, hi) ==>
              ConfirmsDigits(s, xs + ys, p, row, col, lo, hi)
  {
    forall u: Table | IsTable(u) && Completes(s, u, p) && lo <= u[row][col].value < hi
      ensures Confirmed(xs, u) || Confirmed(ys, u) ==> Confirmed(xs + ys, u)
    {
      ConfirmedAppend(xs, ys, u);
    }
  }

  /** A fixed cell is skipped: the completions from it are those from the
      next cell, and when that is past the end the only one is the table
      itself, confirmed exactly when it is valid. */
  lemma {:induction false} SkipFixedConfirms(s: Table, before: seq<Step>, row: nat, col: nat, found: bool)
    requires IsTable(s) && InTable(row, col) && IsFixed(s[row][col])
    requires !IsEnd(row, col + 1) ==> ConfirmsAll(s, before, Pos(row, col + 1))
    requires IsEnd(row, col + 1) ==> (found <==> NoDuplicates(s))
    ensures ConfirmsAll(s, before + (if found then [Confirm(s)] else []), Pos(row, col))
  {
    var tail := if found then [Confirm(s)] else [];
    forall u: Table | IsTable(u) && Completes(s, u, Pos(row, col))
      ensures Confirmed(before + tail, u)
    {
      SkipFixedKeepsCompletion(s, u, row, col);
      if IsEnd(row, col + 1) {
        CompletionAtEnd(s, u);
        assert tail[0] == Confirm(s);
      }
      ConfirmedAppend(before, tail, u);
    }
  }

  /** Writing `n` at (row, col) and searching on confirms every completion
      that holds `n` there: the search from the next cell confirms it, or,
      past the end, the table with `n` written is that completion. */
  lemma {:induction false} PlacementConfirms(s: Table, h: Table, more: seq<Step>, row: nat, col: nat, n: int, found: bool)
    requires IsTable(s) && IsTable(h) && InTable(row, col)
    requires forall i, j :: InTable(i, j) ==> h[i][j] == if i == row && j == col then Grid(n, false) else s[i][j]
    requires !IsEnd(row, col + 1) ==> ConfirmsAll(h, more, Pos(row, col + 1))
    requires IsEnd(row, col + 1) ==> (found <==> NoDuplicates(h))
    ensures ConfirmsDigits(s, more + (if found then [Confirm(h)] else []), Pos(row, col), row, col, n, n + 1)
  {
    var tail := if found then [Confirm(h)] else [];
    forall u: Table | IsTable(u) && Completes(s, u, Pos(row, col)) && n <= u[row][col].value < n + 1
      ensures Confirmed(more + tail, u)
    {
      PlacementKeepsCompletion(s, h, u, row, col);
      if IsEnd(row, col + 1) {
        CompletionAtEnd(h, u);
        assert tail[0] == Confirm(h);
      }
      ConfirmedAppend(more, tail, u);
    }
  }

  /** One more digit of the loop: completions with a digit below `n` were
      confirmed before, and the trial of `n` on the table the earlier trials
      left confirms those with `n`. */
  lemma ConfirmsDigitsStep(s: Table, h: Table, xs: seq<Step>, ys: seq<Step>, row: nat, col: nat, n: int)
    requires IsTable(s) && IsTable(h) && InTable(row, col) && ResetFrom(s, h, Pos(row, col))
    requires ConfirmsDigits(s, xs, Pos(row, col), row, col, 1, n)
    requires ConfirmsDigits(h, ys, Pos(row, col), row, col, n, n + 1)
    ensures ConfirmsDigits(s, xs + ys, Pos(row, col), row, col, 1, n + 1)
  {
    forall u: Table | IsTable(u) && Completes(s, u, Pos(row, col)) && 1 <= u[row][col].value < n + 1
      ensures Confirmed(xs + ys, u)
    {
      ResetKeepsCompletions(s, h, u, Pos(row, col));
      ConfirmedAppend(xs, ys, u);
    }
  }

  /** Every completion holds a digit 1..9 at (row, col). */
  lemma AllDigitsConfirmAll(s: Table, steps: seq<Step>, row: nat, col: nat)
    requires IsTable(s) && InTable(row, col) && ConfirmsDigits(s, steps, Pos(row, col), row, col, 1, N + 1)
    ensures ConfirmsAll(s, steps, Pos(row, col))
  {
  }

  /** The solver coroutine from cell (rowStart, colStart), a column index of
      N standing for the start of the next row. `solved` stands for returning
      the table, false for returning null; `steps` lists what it yields, the
      hand-overs of the calls it delegates to included. Past the last cell it
      only checks the table; a fixed cell is handled by SolveFixedCell, any
      other by the digit loop SolveDigits. */
  method SolveGenerator(a: array2<Grid>, rowStart: nat, colStart: nat) returns (solved: bool, ghost steps: seq<Step>)
    requires a.Length0 == N && a.Length1 == N
    requires rowStart < N && colStart <= N
    modifies a
    decreases N * N - Pos(rowStart, colStart), 4
    ensures solved <==> IsEnd(rowStart, colStart) && NoDuplicates(old(Snapshot(a)))
    ensures IsEnd(rowStart, colStart) ==> steps == [] && Snapshot(a) == old(Snapshot(a))
    ensures forall i, j :: InTable(i, j) && Pos(i, j) < Pos(rowStart, colStart) ==> a[i, j] == old(a[i, j])
    ensures forall i, j :: InTable(i, j) ==> a[i, j] == old(a[i, j]) || a[i, j] == Grid(0, false)
    ensures !IsEnd(rowStart, colStart) ==>
              var (row, col) := Cursor(rowStart, colStart);
              a[row, col] == Grid(0, false) || (IsFixed(old(a[row, col])) && a[row, col] == old(a[row, col]))
    ensures !IsEnd(rowStart, colStart) ==>
              var (row, col) := Cursor(rowStart, colStart);
              IsFixed(old(a[row, col])) ==>
                (a[row, col] == Grid(0, false) <==> IsEnd(row, col + 1) && NoDuplicates(old(Snapshot(a))))
    ensures !IsEnd(rowStart, colStart) ==>
              var (row, col) := Cursor(rowStart, colStart);
              !IsFixed(old(a[row, col])) ==>
                forall d :: 1 <= d <= 9 && CanPlace(old(Snapshot(a)), row, col, d) ==>
                  d in TrialDigits(steps, Pos(rowStart, colStart))
    ensures AllStepsFrom(old(Snapshot(a)), steps, Pos(rowStart, colStart))
    ensures Increasing(TrialDigits(steps, Pos(rowStart, colStart)))
    ensures !IsEnd(rowStart, colStart) ==> ConfirmsAll(old(Snapshot(a)), steps, Pos(rowStart, colStart))
    ensures forall i, j :: InTable(i, j) && IsFixed(old(a[i, j])) && (i, j) != (N - 1, N - 1) ==> a[i, j] == old(a[i, j])
  {
    if IsEnd(rowStart, colStart) {
      solved := IsValidSudoku(Snapshot(a));
      steps := [];
      return;
    }
    var row, col := rowStart, colStart;
    if col == N {
      row, col := row + 1, 0;
    }
    assert (row, col) == Cursor(rowStart, colStart) && InTable(row, col);
    if a[row, col].value != 0 && a[row, col].readonly {
      steps := SolveFixedCell(a, row, col);
    } else {
      steps := SolveDigits(a, row, col);
    }
    solved := false;
  }

  /** The solver at a fixed cell (row, col): the search goes on from the next
      cell, and when it fails the call returns at once; when it succeeds the
      table is handed over and the call goes on into the digit loop
      (SolveDigits), which treats the fixed cell like any other. */
  method SolveFixedCell(a: array2<Grid>, row: nat, col: nat) returns (ghost steps: seq<Step>)
    requires a.Length0 == N && a.Length1 == N
    requires InTable(row, col) && IsFixed(a[row, col])
    modifies a
    decreases N * N - Pos(row, col), 3
    ensures forall i, j :: InTable(i, j) && Pos(i, j) < Pos(row, col) ==> a[i, j] == old(a[i, j])
    ensures forall i, j :: InTable(i, j) ==> a[i, j] == old(a[i, j]) || a[i, j] == Grid(0, false)
    ensures a[row, col] == Grid(0, false) <==> IsEnd(row, col + 1) && NoDuplicates(old(Snapshot(a)))
    ensures AllStepsFrom(old(Snapshot(a)), steps, Pos(row, col))
    ensures Increasing(TrialDigits(steps, Pos(row, col)))
    ensures ConfirmsAll(old(Snapshot(a)), steps, Pos(row, col))
    ensures forall i, j :: InTable(i, j) && IsFixed(old(a[i, j])) && (i, j) != (N - 1, N - 1) ==> a[i, j] == old(a[i, j])
  {
    ghost var start := Snapshot(a);
    var found, before := SolveGenerator(a, row, col + 1);
    AllStepsWiden(start, start, before, row, col);
    assert a[row, col] == start[row][col];
    assert found <==> IsEnd(row, col + 1) && NoDuplicates(start);
    SkipFixedConfirms(start, before, row, col, found);
    if !found {
      assert before + [] == before;
      steps := before;
      return;
    }
    ConfirmAtLastCell(start, start, row, col);
    AllStepsAppend(start, before, [Confirm(start)], Pos(row, col));
    TrialDigitsAppend(before, [Confirm(start)], Pos(row, col));
    before := before + [Confirm(Snapshot(a))];
    var loop := SolveDigits(a, row, col);
    AllStepsAppend(start, before, loop, Pos(row, col));
    TrialDigitsAppend(before, loop, Pos(row, col));
    ConfirmsAllAppend(start, before, loop, Pos(row, col));
    steps := before + loop;
  }

  /** The digit loop of the solver at (row, col): each digit 1..9 in turn
      is tried by TrySolveDigit; the loop never stops early. */
  method SolveDigits(a: array2<Grid>, row: nat, col: nat) returns (ghost steps: seq<Step>)
    requires a.Length0 == N && a.Length1 == N
    requires InTable(row, col)
    modifies a
    decreases N * N - Pos(row, col), 2
    ensures forall i, j :: InTable(i, j) && Pos(i, j) < Pos(row, col) ==> a[i, j] == old(a[i, j])
    ensures forall i, j :: InTable(i, j) ==> a[i, j] == old(a[i, j]) || a[i, j] == Grid(0, false)
    ensures a[row, col] == Grid(0, false)
    ensures AllStepsFrom(old(Snapshot(a)), steps, Pos(row, col))
    ensures Increasing(TrialDigits(steps, Pos(row, col)))
    ensures forall d :: 1 <= d <= 9 && CanPlace(old(Snapshot(a)), row, col, d) ==> d in TrialDigits(steps, Pos(row, col))
    ensures !IsFixed(old(a[row, col])) ==> ConfirmsAll(old(Snapshot(a)), steps, Pos(row, col))
    ensures forall i, j :: InTable(i, j) && IsFixed(old(a[i, j])) && (i, j) != (N - 1, N - 1) && (i, j) != (row, col) ==>
              a[i, j] == old(a[i, j])
  {
    ghost var start := Snapshot(a);
    steps := [];
    var n := 1;
    while n <= 9
      invariant 1 <= n <= 10
      invariant forall i, j :: InTable(i, j) && Pos(i, j) < Pos(row, col) ==> a[i, j] == old(a[i, j])
      invariant forall i, j :: InTable(i, j) ==> a[i, j] == old(a[i, j]) || a[i, j] == Grid(0, false)
      invariant n > 1 ==> a[row, col] == Grid(0, false)
      invariant AllStepsFrom(start, steps, Pos(row, col))
      invariant Increasing(TrialDigits(steps, Pos(row, col)))
      invariant forall d :: d in TrialDigits(steps, Pos(row, col)) ==> d < n
      invariant LegalDigitsTried(start, row, col, TrialDigits(steps, Pos(row, col)), n)
      invariant !IsFixed(start[row][col]) ==> ConfirmsDigits(start, steps, Pos(row, col), row, col, 1, n)
      invariant forall i, j :: InTable(i, j) && IsFixed(old(a[i, j])) && (i, j) != (N - 1, N - 1) && (i, j) != (row, col) ==>
                  a[i, j] == old(a[i, j])
    {
      ghost var here := Snapshot(a);
      assert ResetFrom(start, here, Pos(row, col));
      ClearingKeepsCanPlace(start, here, row, col, n);
      var more := TrySolveDigit(a, row, col, n);
      if !IsFixed(start[row][col]) {
        ConfirmsDigitsStep(start, here, steps, more, row, col, n);
      }
      LegalDigitsTriedStep(start, row, col, TrialDigits(steps, Pos(row, col)), TrialDigits(more, Pos(row, col)), n);
      AllStepsRebase(start, here, more, Pos(row, col));
      AllStepsAppend(start, steps, more, Pos(row, col));
      TrialDigitsAppend(steps, more, Pos(row, col));
      IncreasingAppend(TrialDigits(steps, Pos(row, col)), TrialDigits(more, Pos(row, col)), n);
      steps := steps + more;
      n := n + 1;
    }
    if !IsFixed(start[row][col]) {
      AllDigitsConfirmAll(start, steps, row, col);
    }
  }

  /** Every digit 1..n-1 legal at (row, col) in `s` is among `ds`. */
  ghost predicate LegalDigitsTried(s: Table, row: nat, col: nat, ds: seq<int>, n: int)
    requires IsTable(s) && InTable(row, col)
  {
    forall d :: 1 <= d < n && CanPlace(s, row, col, d) ==> d in ds
  }

  /** Trying digit n, when it is legal, extends the legal digits tried to n. */
  lemma LegalDigitsTriedStep(s: Table, row: nat, col: nat, ds: seq<int>, es: seq<int>, n: int)
    requires IsTable(s) && InTable(row, col)
    requires LegalDigitsTried(s, row, col, ds, n)
    requires CanPlace(s, row, col, n) ==> es == [n]
    ensures LegalDigitsTried(s, row, col, ds + es, n + 1)
  {
    forall d | 1 <= d < n + 1 && CanPlace(s, row, col, d)
      ensures d in ds + es
    {
      if d < n {
        assert d in ds;
      } else {
        assert es[0] == d;
      }
    }
  }

  /** Emptying cells never makes a digit illegal: a digit legal at (row, col)
      stays legal once some cells have been reset to 0. */
  lemma ClearingKeepsCanPlace(s: Table, u: Table, row: nat, col: nat, d: int)
    requires IsTable(s) && IsTable(u) && InTable(row, col) && d != 0
    requires forall i, j :: InTable(i, j) ==> u[i][j] == s[i][j] || u[i][j].value == 0
    ensures CanPlace(s, row, col, d) ==> CanPlace(u, row, col, d)
  {
  }

  /** One turn of the solver's digit loop at (row, col): exactly when `n` is
      legal there it is written as (n, false) and handed over, the search goes
      on from the next cell and a success is handed over too; in every case
      the cell ends up as (0, false). */
  method TrySolveDigit(a: array2<Grid>, row: nat, col: nat, n: int) returns (ghost steps: seq<Step>)
    requires a.Length0 == N && a.Length1 == N
    requires InTable(row, col) && 1 <= n <= 9
    modifies a
    decreases N * N - Pos(row, col), 1
    ensures forall i, j :: InTable(i, j) && Pos(i, j) < Pos(row, col) ==> a[i, j] == old(a[i, j])
    ensures forall i, j :: InTable(i, j) ==> a[i, j] == old(a[i, j]) || a[i, j] == Grid(0, false)
    ensures a[row, col] == Grid(0, false)
    ensures AllStepsFrom(old(Snapshot(a)), steps, Pos(row, col))
    ensures TrialDigits(steps, Pos(row, col)) == if CanPlace(old(Snapshot(a)), row, col, n) then [n] else []
    ensures !IsFixed(old(a[row, col])) ==> ConfirmsDigits(old(Snapshot(a)), steps, Pos(row, col), row, col, n, n + 1)
    ensures forall i, j :: InTable(i, j) && IsFixed(old(a[i, j])) && (i, j) != (N - 1, N - 1) && (i, j) != (row, col) ==>
              a[i, j] == old(a[i, j])
  {
    ghost var start := Snapshot(a);
    steps := [];
    var valid := FindIfNumberValidAtGrid(Snapshot(a), row, col, n);
    if valid {
      steps := PlaceAndSolve(a, row, col, n);
    } else if !IsFixed(a[row, col]) {
      CompletableWithIsLegal(start, row, col, n);
    }
    a[row, col] := Grid(0, false);
  }

  /** Writes the legal digit n at (row, col), hands the table over to the
      next cell and, when that succeeds, hands it over once more as solved.
      The cell is left holding n. At the last cell the trial is followed by
      a confirmation exactly when the table is then valid. */
  method PlaceAndSolve(a: array2<Grid>, row: nat, col: nat, n: int) returns (ghost steps: seq<Step>)
    requires a.Length0 == N && a.Length1 == N
    requires InTable(row, col) && 1 <= n <= 9
    requires CanPlace(Snapshot(a), row, col, n)
    modifies a
    decreases N * N - Pos(row, col), 0
    ensures forall i, j :: InTable(i, j) && Pos(i, j) < Pos(row, col) ==> a[i, j] == old(a[i, j])
    ensures forall i, j :: InTable(i, j) && (i != row || j != col) ==> a[i, j] == old(a[i, j]) || a[i, j] == Grid(0, false)
    ensures AllStepsFrom(old(Snapshot(a)), steps, Pos(row, col))
    ensures TrialDigits(steps, Pos(row, col)) == [n]
    ensures a[row, col] == Grid(n, false)
    ensures |steps| > 0 && steps[0].Trial? && steps[0].row == row && steps[0].col == col && steps[0].digit == n
    ensures IsEnd(row, col + 1) ==>
              steps == [Trial(row, col, n, Snapshot(a))] + if NoDuplicates(Snapshot(a)) then [Confirm(Snapshot(a))] else []
    ensures steps[0].table == Put(old(Snapshot(a)), row, col, Grid(n, false))
    ensures ConfirmsDigits(old(Snapshot(a)), steps, Pos(row, col), row, col, n, n + 1)
    ensures forall i, j :: InTable(i, j) && IsFixed(old(a[i, j])) && (i, j) != (N - 1, N - 1) && (i, j) != (row, col) ==>
              a[i, j] == old(a[i, j])
  {
    ghost var start := Snapshot(a);
    a[row, col] := Grid(n, false);
    ghost var placed := Snapshot(a);
    PlacedDigitIsPeersFree(start, placed, row, col, n);
    SameCells(placed, Put(start, row, col, Grid(n, false)));
    ghost var trial := Trial(row, col, n, placed);
    assert StepFrom(start, trial, Pos(row, col));
    assert TrialDigits([trial], Pos(row, col)) == [n];
    var found, more := SolveGenerator(a, row, col + 1);
    assert Pos(row, col) < Pos(row, col + 1);
    assert IsEnd(row, col + 1) ==> more == [] && Snapshot(a) == placed && (found <==> NoDuplicates(placed));
    AllStepsWiden(start, placed, more, row, col);
    AllStepsAppend(start, [trial], more, Pos(row, col));
    TrialDigitsAppend([trial], more, Pos(row, col));
    steps := [trial] + more;
    assert steps[0] == trial;
    if found {
      ConfirmAtLastCell(start, placed, row, col);
      AllStepsAppend(start, steps, [Confirm(placed)], Pos(row, col));
      TrialDigitsAppend(steps, [Confirm(placed)], Pos(row, col));
      steps := steps + [Confirm(Snapshot(a))];
    }
    ghost var tail := if found then [Confirm(placed)] else [];
    PlacementConfirms(start, placed, more, row, col, n, found);
    ConfirmsDigitsAppend(start, [trial], more + tail, Pos(row, col), row, col, n, n + 1);
    assert steps == [trial] + (more + tail);
  }

  /** Success from the next cell means (row, col) is the last cell, so the
      table then handed over is filled from (row, col) on. */
  lemma ConfirmAtLastCell(s: Table, u: Table, row: nat, col: nat)
    requires IsTable(s) && IsTable(u) && InTable(row, col)
    requires IsEnd(row, col + 1) && KeptBefore(s, u, Pos(row, col)) && u[row][col].value != 0
    requires NoDuplicates(u)
    ensures StepFrom(s, Confirm(u), Pos(row, col))
  {
    forall i, j | InTable(i, j) && Pos(i, j) >= Pos(row, col)
      ensures u[i][j].value != 0
    {
      PosInjective(i, j, row, col);
    }
  }
}
