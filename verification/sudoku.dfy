/** The puzzle object of the app: a difficulty level, and the pipeline that
    builds a full table, carves digits out of it and freezes what is left as
    the givens. Random draws are inputs. */
module Puzzle {
  import opened Tables
  import opened Generator
  import opened Completion

  /** The difficulty levels the app offers. */
  datatype Difficulty = Easy | Medium | Hard

  /** The share of the cells a level empties, in hundredths: 0.25, 0.4 and
      0.58 written as exact fractions. */
  function Percent(d: Difficulty): (pct: nat)
    ensures 0 < pct < 100
  {
    match d
    case Easy => 25
    case Medium => 40
    case Hard => 58
  }

  /** `Math.floor(ratio * length * length)`, with the ratio as an exact
      fraction. */
  function DigitsToBeRemoved(d: Difficulty, length: nat): nat {
    Percent(d) * length * length / 100
  }

  /** The number of removals is the floor of the ratio times the number of
      cells, and fewer than all cells of a nonempty table. */
  lemma DigitsToBeRemovedIsFloor(d: Difficulty, length: nat)
    ensures var k := DigitsToBeRemoved(d, length);
      k * 100 <= Percent(d) * length * length < (k + 1) * 100 &&
      (length > 0 ==> k < length * length)
  {
    var k := DigitsToBeRemoved(d, length);
    var cells := length * length;
    assert Percent(d) * length * length == Percent(d) * cells;
    if length > 0 {
      assert Percent(d) * cells < 100 * cells;
    }
  }

  /** On the 9 x 9 table the levels ask for 20, 32 and 46 removals. */
  lemma DigitsToBeRemovedOnNineByNine()
    ensures DigitsToBeRemoved(Easy, N) == 20
    ensures DigitsToBeRemoved(Medium, N) == 32
    ensures DigitsToBeRemoved(Hard, N) == 46
  {
  }

  /** Harder levels remove more digits. */
  lemma {:induction false} HarderRemovesMore(length: nat)
    ensures DigitsToBeRemoved(Easy, length) <= DigitsToBeRemoved(Medium, length) <= DigitsToBeRemoved(Hard, length)
  {
    var sq := length * length;
    assert Percent(Easy) * length * length == 25 * sq;
    assert Percent(Medium) * length * length == 40 * sq;
    assert Percent(Hard) * length * length == 58 * sq;
    assert 25 * sq / 100 <= 40 * sq / 100 <= 58 * sq / 100 by {
      DivMonotone(25 * sq, 40 * sq);
      DivMonotone(40 * sq, 58 * sq);
    }
  }

  lemma DivMonotone(x: nat, y: nat)
    requires x <= y
    ensures x / 100 <= y / 100
  {
  }

  /** Every drawn cell lies in the table, as `Math.floor(Math.random() * length)`
      guarantees for both coordinates. */
  predicate PicksInTable(picks: seq<(int, int)>) {
    forall k :: 0 <= k < |picks| ==> InTable(picks[k].0, picks[k].1)
  }

  /** The carve as a reference: the draws are taken in order, a drawn cell
      holding a digit is emptied to (0, false) and counts, a drawn empty cell
      changes nothing, and the carve stops once `left` cells have been
      emptied. The result is the carved table and how many removals were
      still owed when the draws ran out (0 when they sufficed). */
  function Carve(t: Table, picks: seq<(int, int)>, left: nat): (r: (Table, nat))
    requires IsTable(t) && PicksInTable(picks)
    ensures IsTable(r.0) && r.1 <= left
    decreases |picks|
  {
    if left == 0 || picks == [] then (t, left)
    else
      var (x, y) := picks[0];
      assert InTable(x, y);
      if t[x][y].value != 0 then Carve(Put(t, x, y, Grid(0, false)), picks[1..], left - 1)
      else Carve(t, picks[1..], left)
  }

  /** The carve only empties cells that held a digit, and only drawn ones. */
  lemma {:induction false} CarveOnlyEmptiesDrawnCells(t: Table, picks: seq<(int, int)>, left: nat)
    requires IsTable(t) && PicksInTable(picks)
    ensures var u := Carve(t, picks, left).0;
      forall i, j :: InTable(i, j) ==>
        u[i][j] == t[i][j] || (t[i][j].value != 0 && u[i][j] == Grid(0, false) && (i, j) in picks)
    decreases |picks|
  {
    if left == 0 || picks == [] {
    } else {
      var (x, y) := picks[0];
      var rest := picks[1..];
      assert forall p :: p in rest ==> p in picks;
      if t[x][y].value != 0 {
        CarveOnlyEmptiesDrawnCells(Put(t, x, y, Grid(0, false)), rest, left - 1);
      } else {
        CarveOnlyEmptiesDrawnCells(t, rest, left);
      }
    }
  }

  /** Every removal made counts: the digits left plus the removals made are
      the digits there were. */
  lemma {:induction false} CarveCount(t: Table, picks: seq<(int, int)>, left: nat)
    requires IsTable(t) && PicksInTable(picks)
    ensures var r := Carve(t, picks, left);
      CountNonzero(r.0) + left == CountNonzero(t) + r.1
    decreases |picks|
  {
    if left == 0 || picks == [] {
    } else {
      var (x, y) := picks[0];
      if t[x][y].value != 0 {
        var u := Put(t, x, y, Grid(0, false));
        ClearOneCell(t, x, y, Grid(0, false));
        CarveCount(u, picks[1..], left - 1);
      } else {
        CarveCount(t, picks[1..], left);
      }
    }
  }

  /** When the draws run out before enough cells were emptied, every drawn
      cell is empty in the result. */
  lemma {:induction false} CarveShortOfDraws(t: Table, picks: seq<(int, int)>, left: nat)
    requires IsTable(t) && PicksInTable(picks)
    ensures var r := Carve(t, picks, left);
      r.1 > 0 ==> forall k :: 0 <= k < |picks| ==> r.0[picks[k].0][picks[k].1].value == 0
    decreases |picks|
  {
    if left == 0 || picks == [] {
    } else {
      var (x, y) := picks[0];
      var u := if t[x][y].value != 0 then Put(t, x, y, Grid(0, false)) else t;
      var rest := picks[1..];
      var left' := if t[x][y].value != 0 then left - 1 else left;
      assert Carve(t, picks, left) == Carve(u, rest, left');
      assert u[x][y].value == 0;
      CarveShortOfDraws(u, rest, left');
      CarveOnlyEmptiesDrawnCells(u, rest, left');
      var r := Carve(u, rest, left');
      forall k | 0 <= k < |picks| && r.1 > 0
        ensures r.0[picks[k].0][picks[k].1].value == 0
      {
        if k > 0 {
          assert picks[k] == rest[k - 1];
        }
      }
    }
  }

  /** The backtracking fill keeps the seeded diagonal boxes, which are
      fixed, and either solves the table or leaves it as seeded apart from
      cells reset to (0, false); in both cases it has no duplicates. */
  lemma FillKeepsSeed(seeded: Table, full: Table)
    requires IsTable(seeded) && IsTable(full)
    requires DiagonalBoxesSeeded(seeded) && NoDuplicates(seeded)
    requires forall i, j :: InTable(i, j) && !OnDiagonalBox(i, j) ==> seeded[i][j].value == 0
    requires forall i, j :: InTable(i, j) && IsFixed(seeded[i][j]) ==> full[i][j] == seeded[i][j]
    requires Solved(full) || forall i, j :: InTable(i, j) ==> full[i][j] == seeded[i][j] || full[i][j] == Grid(0, false)
    ensures DiagonalBoxesSeeded(full) && NoDuplicates(full)
    ensures Solved(full) || forall i, j :: InTable(i, j) && !OnDiagonalBox(i, j) ==> full[i][j].value == 0
  {
    if !Solved(full) {
      ClearingKeepsNoDuplicates(seeded, full);
    }
  }

  class Sudoku {
    const size: nat
    var table: array2<Grid>
    const complexity: Difficulty
    /** The filled table the puzzle was carved from. */
    ghost var full: Table

    /** Builds the puzzle of the given size and level. The shuffles of the
        diagonal boxes and the cells drawn by the carver are inputs. The
        puzzle is the carve of `full`, the table filled from the seed of the
        shuffles. */
    constructor (size: nat, complexity: Difficulty, shuffles: seq<seq<nat>>, picks: seq<(int, int)>)
      requires size == N
      requires |shuffles| == Root && forall k :: 0 <= k < Root ==> ValidPicks(shuffles[k], N)
      requires PicksInTable(picks)
      ensures this.size == size && this.complexity == complexity
      ensures fresh(table) && table.Length0 == N && table.Length1 == N
      ensures NoDuplicates(Snapshot(table))
      ensures forall i, j :: InTable(i, j) ==> (table[i, j].readonly <==> table[i, j].value != 0)
      ensures IsTable(full) && DiagonalBoxesSeeded(full)
      ensures forall i, j :: InTable(i, j) && OnDiagonalBox(i, j) ==> full[i][j] == Seed(shuffles)[i][j]
      ensures Completable(Seed(shuffles), 0) ==> Solved(full)
      ensures forall i, j :: InTable(i, j) ==>
                table[i, j].value == Carve(full, picks, DigitsToBeRemoved(complexity, N) + 1).0[i][j].value
    {
      this.size := size;
      this.complexity := complexity;
      this.table := new Grid[N, N];
      this.full := InitializeTable(N);
      new;
      var t, _, f := GetSudokuPuzzle(size, shuffles, picks);
      table := t;
      full := f;
    }

    /** Empties cells drawn at random until one more than DigitsToBeRemoved
        cells have been emptied: a drawn cell that is already empty changes
        nothing and does not count. The result is the reference carve
        `Carve`; `done` is false exactly when the supplied draws run out
        first, and then every drawn cell is empty. */
    method RemoveKdigits(a: array2<Grid>, picks: seq<(int, int)>) returns (done: bool)
      requires a.Length0 == N && a.Length1 == N
      requires PicksInTable(picks)
      modifies a
      ensures Snapshot(a) == Carve(old(Snapshot(a)), picks, DigitsToBeRemoved(complexity, N) + 1).0
      ensures done <==> Carve(old(Snapshot(a)), picks, DigitsToBeRemoved(complexity, N) + 1).1 == 0
      ensures forall i, j :: InTable(i, j) ==>
                a[i, j] == old(a[i, j]) || (old(a[i, j]).value != 0 && a[i, j] == Grid(0, false) && (i, j) in picks)
      ensures done ==> CountNonzero(Snapshot(a)) + DigitsToBeRemoved(complexity, N) + 1 == old(CountNonzero(Snapshot(a)))
      ensures !done ==> CountNonzero(Snapshot(a)) + DigitsToBeRemoved(complexity, N) + 1 > old(CountNonzero(Snapshot(a)))
      ensures !done ==> forall k :: 0 <= k < |picks| ==> a[picks[k].0, picks[k].1].value == 0
    {
      var digitsToBeRemoved := DigitsToBeRemoved(complexity, a.Length0);
      ghost var start := Snapshot(a);
      ghost var goal := Carve(start, picks, digitsToBeRemoved + 1);
      var i := 0;
      var next := 0;
      while i <= digitsToBeRemoved && next < |picks|
        invariant 0 <= next <= |picks| && 0 <= i <= digitsToBeRemoved + 1
        invariant Carve(Snapshot(a), picks[next..], digitsToBeRemoved + 1 - i) == goal
      {
        var x, y := picks[next].0, picks[next].1;
        ghost var before := Snapshot(a);
        assert picks[next..][0] == (x, y) && picks[next..][1..] == picks[next + 1..];
        next := next + 1;
        if a[x, y].value != 0 {
          a[x, y] := Grid(0, false);
          SameCells(Snapshot(a), Put(before, x, y, Grid(0, false)));
          i := i + 1;
        }
      }
      done := i > digitsToBeRemoved;
      assert Snapshot(a) == goal.0 && (done <==> goal.1 == 0);
      CarveOnlyEmptiesDrawnCells(start, picks, digitsToBeRemoved + 1);
      CarveCount(start, picks, digitsToBeRemoved + 1);
      CarveShortOfDraws(start, picks, digitsToBeRemoved + 1);
    }

    /** The pipeline, applied right to left as `compose` does: a fresh empty
        table, the diagonal boxes seeded, the rest filled by backtracking,
        digits carved out, and the remaining digits frozen as readonly
        givens in a new table. `full` is the table before carving: seeded
        on the diagonal, and either solved or still empty elsewhere. The
        puzzle's digits are those of the carve of `full`, `done` tells whether
        the draws sufficed, and when both went well the puzzle has exactly
        DigitsToBeRemoved + 1 empty cells. The puzzle never has duplicates. */
    method GetSudokuPuzzle(size: nat, shuffles: seq<seq<nat>>, picks: seq<(int, int)>)
        returns (t: array2<Grid>, done: bool, ghost full: Table)
      requires size == N
      requires |shuffles| == Root && forall k :: 0 <= k < Root ==> ValidPicks(shuffles[k], N)
      requires PicksInTable(picks)
      ensures fresh(t) && t.Length0 == N && t.Length1 == N
      ensures forall i, j :: InTable(i, j) ==> (t[i, j].readonly <==> t[i, j].value != 0)
      ensures NoDuplicates(Snapshot(t))
      ensures IsTable(full) && forall i, j :: InTable(i, j) ==> t[i, j].value == full[i][j].value || t[i, j].value == 0
      ensures Solved(full) && done ==> CountNonzero(Snapshot(t)) + DigitsToBeRemoved(complexity, N) + 1 == N * N
      ensures DiagonalBoxesSeeded(full)
      ensures Solved(full) || forall i, j :: InTable(i, j) && !OnDiagonalBox(i, j) ==> full[i][j].value == 0
      ensures forall i, j :: InTable(i, j) && OnDiagonalBox(i, j) ==> full[i][j] == Seed(shuffles)[i][j]
      ensures Completable(Seed(shuffles), 0) ==> Solved(full)
      ensures forall i, j :: InTable(i, j) ==>
                t[i, j].value == Carve(full, picks, DigitsToBeRemoved(complexity, N) + 1).0[i][j].value
      ensures done <==> Carve(full, picks, DigitsToBeRemoved(complexity, N) + 1).1 == 0
    {
      var a;
      a, full := GetFilledTable(size, shuffles);
      t, done := GetCarvedPuzzle(a, picks);
    }

    /** The last two stages of the pipeline: digits carved out of the filled
        table `a`, and the remaining digits frozen as readonly givens in a new
        table. */
    method GetCarvedPuzzle(a: array2<Grid>, picks: seq<(int, int)>) returns (t: array2<Grid>, done: bool)
      requires a.Length0 == N && a.Length1 == N && NoDuplicates(Snapshot(a))
      requires PicksInTable(picks)
      modifies a
      ensures fresh(t) && t.Length0 == N && t.Length1 == N
      ensures forall i, j :: InTable(i, j) ==> (t[i, j].readonly <==> t[i, j].value != 0)
      ensures NoDuplicates(Snapshot(t))
      ensures forall i, j :: InTable(i, j) ==> t[i, j].value == old(a[i, j]).value || t[i, j].value == 0
      ensures Solved(old(Snapshot(a))) && done ==> CountNonzero(Snapshot(t)) + DigitsToBeRemoved(complexity, N) + 1 == N * N
      ensures forall i, j :: InTable(i, j) ==>
                t[i, j].value == Carve(old(Snapshot(a)), picks, DigitsToBeRemoved(complexity, N) + 1).0[i][j].value
      ensures done <==> Carve(old(Snapshot(a)), picks, DigitsToBeRemoved(complexity, N) + 1).1 == 0
    {
      ghost var full := Snapshot(a);
      ghost var goal := Carve(full, picks, DigitsToBeRemoved(complexity, N) + 1);
      done := RemoveKdigits(a, picks);
      ghost var carved := Snapshot(a);
      assert carved == goal.0 && (done <==> goal.1 == 0);
      ClearingKeepsNoDuplicates(full, carved);
      var frozen := MakePrefilledDigitsReadonly(Snapshot(a));
      ClearingKeepsNoDuplicates(carved, frozen);
      SameValuesSameCount(frozen, carved);
      if Solved(full) {
        FilledCount(full);
      }
      t := FromTable(frozen);
    }

    /** The first three stages of the pipeline: a fresh empty table, the
        diagonal boxes seeded, and the rest filled by backtracking. `full`
        is the result, which is either solved or still empty off the
        diagonal; it is solved whenever the seed has a completion at all. */
    method GetFilledTable(size: nat, shuffles: seq<seq<nat>>) returns (a: array2<Grid>, ghost full: Table)
      requires size == N
      requires |shuffles| == Root && forall k :: 0 <= k < Root ==> ValidPicks(shuffles[k], N)
      ensures fresh(a) && a.Length0 == N && a.Length1 == N
      ensures full == Snapshot(a)
      ensures DiagonalBoxesSeeded(full) && NoDuplicates(full)
      ensures Solved(full) || forall i, j :: InTable(i, j) && !OnDiagonalBox(i, j) ==> full[i][j].value == 0
      ensures forall i, j :: InTable(i, j) && OnDiagonalBox(i, j) ==> full[i][j] == Seed(shuffles)[i][j]
      ensures Completable(Seed(shuffles), 0) ==> Solved(full)
    {
      a := FromTable(InitializeTable(size));
      FillDiagonalBoxes(a, shuffles);
      ghost var seeded := Snapshot(a);
      SameCells(seeded, Seed(shuffles));
      FillCompleteTable(a);
      full := Snapshot(a);
      FillKeepsSeed(seeded, full);
    }
  }
}
