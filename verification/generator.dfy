/** The generator of full tables: a Fisher-Yates shuffle of 1..N seeds the
    diagonal boxes, which share no row, column or box, and a backtracking search
    in row-major order fills in the rest, in place. Random draws are inputs. */
module Generator {
  import opened Tables
  import opened Checks
  import opened Completion

  /** Draws of the shuffle: `picks[k]` is the index chosen on the k-th turn of
      the loop, when it swaps position size - 1 - k; a draw lies in
      [0, size - 1 - k] as `Math.floor(Math.random() * (i + 1))` does. */
  predicate ValidPicks(picks: seq<nat>, size: nat) {
    |picks| == size && forall k :: 0 <= k < size ==> picks[k] < size - k
  }

  /** No value occurs twice in `s`. */
  predicate Distinct(s: seq<int>) {
    forall p, q :: 0 <= p < q < |s| ==> s[p] != s[q]
  }

  /** `s` with the elements at `p` and `q` exchanged. */
  function Swap(s: seq<int>, p: nat, q: nat): (r: seq<int>)
    requires p < |s| && q < |s|
    ensures |r| == |s| && r[p] == s[q] && r[q] == s[p]
    ensures forall k :: 0 <= k < |s| && k != p && k != q ==> r[k] == s[k]
  {
    s[p := s[q]][q := s[p]]
  }

  /** Exchanging two elements keeps the multiset of values, hence their
      range, and keeps them distinct. */
  lemma {:induction false} SwapIsPermutation(s: seq<int>, p: nat, q: nat)
    requires p < |s| && q < |s|
    ensures multiset(Swap(s, p, q)) == multiset(s)
    ensures Distinct(s) ==> Distinct(Swap(s, p, q))
  {
    var r := Swap(s, p, q);
    if Distinct(s) {
      forall x, y | 0 <= x < y < |r|
        ensures r[x] != r[y]
      {
        var x' := if x == p then q else if x == q then p else x;
        var y' := if y == p then q else if y == q then p else y;
        assert r[x] == s[x'] && r[y] == s[y'] && x' != y';
      }
    }
  }

  /** The swaps of the shuffle still to come when positions i, i - 1, ..., 0
      are left: position i is exchanged with the draw `picks[|s| - 1 - i]`. */
  function Shuffle(s: seq<int>, picks: seq<nat>, i: int): (r: seq<int>)
    requires -1 <= i < |s| && ValidPicks(picks, |s|)
    ensures |r| == |s|
    decreases i + 1
  {
    if i < 0 then s else Shuffle(Swap(s, i, picks[|s| - 1 - i]), picks, i - 1)
  }

  /** What the shuffle of 1..N makes of the draws `picks`. */
  function Shuffled(picks: seq<nat>): (r: seq<int>)
    requires ValidPicks(picks, N)
    ensures |r| == N
  {
    Shuffle(GetSequenceArrayWithLength(N), picks, N - 1)
  }

  /** Whatever the draws, the swaps only rearrange: same length, same
      multiset, and distinct values stay distinct. */
  lemma {:induction false} ShuffleIsPermutation(s: seq<int>, picks: seq<nat>, i: int)
    requires -1 <= i < |s| && ValidPicks(picks, |s|)
    ensures multiset(Shuffle(s, picks, i)) == multiset(s)
    ensures Distinct(s) ==> Distinct(Shuffle(s, picks, i))
    decreases i + 1
  {
    if i >= 0 {
      SwapIsPermutation(s, i, picks[|s| - 1 - i]);
      ShuffleIsPermutation(Swap(s, i, picks[|s| - 1 - i]), picks, i - 1);
    }
  }

  /** A shuffle of 1..size: it walks the array from the last index down to 0
      and swaps each element with the one at the drawn index. */
  method RandomSequenceGenerator(size: nat, picks: seq<nat>) returns (s: seq<int>)
    requires ValidPicks(picks, size)
    ensures s == Shuffle(GetSequenceArrayWithLength(size), picks, size - 1)
    ensures multiset(s) == multiset(GetSequenceArrayWithLength(size))
    ensures |s| == size
    ensures forall k :: 0 <= k < size ==> 1 <= s[k] <= size
    ensures Distinct(s)
  {
    var initialSequence := new int[size](k => k + 1);
    ghost var initial := GetSequenceArrayWithLength(size);
    assert initialSequence[..] == initial;
    var i: int := size - 1;
    while i >= 0
      invariant -1 <= i < size && initialSequence.Length == size
      invariant Shuffle(initialSequence[..], picks, i) == Shuffle(initial, picks, size - 1)
    {
      var randomIndex := picks[size - 1 - i];
      ghost var before := initialSequence[..];
      var itemAtIndex := initialSequence[randomIndex];
      initialSequence[randomIndex] := initialSequence[i];
      initialSequence[i] := itemAtIndex;
      assert initialSequence[..] == Swap(before, i, randomIndex);
      i := i - 1;
    }
    s := initialSequence[..];
    ShuffleIsPermutation(initial, picks, size - 1);
    forall k | 0 <= k < size
      ensures 1 <= s[k] <= size
    {
      assert s[k] in multiset(initial);
    }
  }

  predicate InBoxAt(i: int, j: int, startR: int, startC: int) {
    startR <= i < startR + Root && startC <= j < startC + Root
  }

  /** Writes `sequence` row by row, as readonly cells, into the box whose
      top-left cell is (startR, startC); no other cell changes. */
  method FillBox(a: array2<Grid>, startR: nat, startC: nat, sequence: seq<int>)
    requires a.Length0 == N && a.Length1 == N
    requires startR + Root <= N && startC + Root <= N
    requires |sequence| >= Root * Root
    modifies a
    ensures forall i, j :: InTable(i, j) ==>
              a[i, j] == if InBoxAt(i, j, startR, startC)
                         then Grid(sequence[(i - startR) * Root + (j - startC)], true)
                         else old(a[i, j])
  {
    var i := startR;
    while i < startR + Root
      invariant startR <= i <= startR + Root
      invariant forall r, c :: InTable(r, c) ==>
                  a[r, c] == if InBoxAt(r, c, startR, startC) && r < i
                             then Grid(sequence[(r - startR) * Root + (c - startC)], true)
                             else old(a[r, c])
    {
      var j := startC;
      while j < startC + Root
        invariant startC <= j <= startC + Root
        invariant forall r, c :: InTable(r, c) ==>
                    a[r, c] == if InBoxAt(r, c, startR, startC) && (r < i || (r == i && c < j))
                               then Grid(sequence[(r - startR) * Root + (c - startC)], true)
                               else old(a[r, c])
      {
        a[i, j] := Grid(sequence[(i - startR) * Root + (j - startC)], true);
        j := j + 1;
      }
      i := i + 1;
    }
  }

  /** The cell lies in one of the boxes on the main diagonal. */
  predicate OnDiagonalBox(i: int, j: int) {
    i / Root == j / Root
  }

  /** Each diagonal box holds Root * Root different digits 1..N, readonly. */
  ghost predicate DiagonalBoxesSeeded(t: Table)
    requires IsTable(t)
  {
    (forall i, j :: InTable(i, j) && OnDiagonalBox(i, j) ==> t[i][j].readonly && InDigitRange(t[i][j].value)) &&
    (forall r1, c1, r2, c2 ::
       InTable(r1, c1) && InTable(r2, c2) && OnDiagonalBox(r1, c1) && SameBox(r1, c1, r2, c2) &&
       (r1 != r2 || c1 != c2)
       ==> t[r1][c1].value != t[r2][c2].value)
  }

  lemma BoxOfOrigin(i: nat, r: nat)
    requires i % Root == 0
    ensures (i <= r < i + Root) <==> r / Root == i / Root
  {
  }

  /** Fills the Root diagonal boxes, each with its own shuffle of 1..N; the
      other cells keep their contents. */
  method FillDiagonalBoxes(a: array2<Grid>, shuffles: seq<seq<nat>>)
    requires a.Length0 == N && a.Length1 == N
    requires |shuffles| == Root && forall k :: 0 <= k < Root ==> ValidPicks(shuffles[k], N)
    modifies a
    ensures forall i, j :: InTable(i, j) && !OnDiagonalBox(i, j) ==> a[i, j] == old(a[i, j])
    ensures forall i, j :: InTable(i, j) && OnDiagonalBox(i, j) ==>
              a[i, j] == Grid(Shuffled(shuffles[i / Root])[i % Root * Root + j % Root], true)
    ensures DiagonalBoxesSeeded(Snapshot(a))
    ensures (forall i, j :: InTable(i, j) ==> old(a[i, j]).value == 0) ==> NoDuplicates(Snapshot(a))
  {
    var i := 0;
    while i < N
      invariant 0 <= i <= N && i % Root == 0
      invariant forall r, c :: InTable(r, c) && !(OnDiagonalBox(r, c) && r < i) ==> a[r, c] == old(a[r, c])
      invariant forall r, c :: InTable(r, c) && OnDiagonalBox(r, c) && r < i ==>
                  a[r, c] == Grid(Shuffled(shuffles[r / Root])[r % Root * Root + c % Root], true)
    {
      var sequence := RandomSequenceGenerator(N, shuffles[i / Root]);
      FillBox(a, i, i, sequence);
      forall r | 0 <= r < N
        ensures (i <= r < i + Root) <==> r / Root == i / Root
        ensures i <= r < i + Root ==> r % Root == r - i
      {
        BoxOfOrigin(i, r);
      }
      i := i + Root;
    }
    ShuffledBoxesAreSeeded(Snapshot(a), shuffles);
    if forall r, c :: InTable(r, c) ==> old(a[r, c]).value == 0 {
      DiagonalSeedHasNoDuplicates(Snapshot(a));
    }
  }

  /** The table the generator starts its search from: the shuffles written
      into the diagonal boxes as readonly cells, every other cell (0, true)
      as a fresh table has it. */
  function Seed(shuffles: seq<seq<nat>>): (t: Table)
    requires |shuffles| == Root && forall k :: 0 <= k < Root ==> ValidPicks(shuffles[k], N)
    ensures IsTable(t)
    ensures forall i, j :: InTable(i, j) ==>
              t[i][j] == if OnDiagonalBox(i, j) then Grid(Shuffled(shuffles[i / Root])[i % Root * Root + j % Root], true)
                         else Grid(0, true)
  {
    seq(N, i requires 0 <= i < N => seq(N, j requires 0 <= j < N =>
      if OnDiagonalBox(i, j) then Grid(Shuffled(shuffles[i / Root])[i % Root * Root + j % Root], true)
      else Grid(0, true)))
  }

  /** Each diagonal box written from a shuffle of 1..N holds distinct
      readonly digits: within a box, different cells read different
      positions of the same shuffle. */
  lemma ShuffledBoxesAreSeeded(t: Table, shuffles: seq<seq<nat>>)
    requires IsTable(t)
    requires |shuffles| == Root && forall k :: 0 <= k < Root ==> ValidPicks(shuffles[k], N)
    requires forall i, j :: InTable(i, j) && OnDiagonalBox(i, j) ==>
               t[i][j] == Grid(Shuffled(shuffles[i / Root])[i % Root * Root + j % Root], true)
    ensures DiagonalBoxesSeeded(t)
  {
    forall k | 0 <= k < Root
      ensures Distinct(Shuffled(shuffles[k]))
      ensures forall x :: 0 <= x < N ==> InDigitRange(Shuffled(shuffles[k])[x])
    {
      ShuffleIsPermutation(GetSequenceArrayWithLength(N), shuffles[k], N - 1);
      forall x | 0 <= x < N
        ensures InDigitRange(Shuffled(shuffles[k])[x])
      {
        assert Shuffled(shuffles[k])[x] in multiset(GetSequenceArrayWithLength(N));
      }
    }
    forall r1, c1, r2, c2 |
      InTable(r1, c1) && InTable(r2, c2) && OnDiagonalBox(r1, c1) && SameBox(r1, c1, r2, c2) && (r1 != r2 || c1 != c2)
      ensures t[r1][c1].value != t[r2][c2].value
    {
      var x1, x2 := r1 % Root * Root + c1 % Root, r2 % Root * Root + c2 % Root;
      assert x1 != x2;
    }
  }

  /** Diagonal boxes share no row, column or box, so seeding them on an empty
      table cannot create a duplicate. */
  lemma DiagonalSeedHasNoDuplicates(t: Table)
    requires IsTable(t) && DiagonalBoxesSeeded(t)
    requires forall i, j :: InTable(i, j) && !OnDiagonalBox(i, j) ==> t[i][j].value == 0
    ensures NoDuplicates(t)
  {
  }

  /** Backtracking completion from cell (rowStart, colStart) in row-major
      order, a column index of N standing for the start of the next row.
      Fixed cells are skipped; at any other cell the digits 1..9 are tried in
      turn (see TryDigit), and a cell whose digits all fail is left as
      (0, false). Past the last cell the whole table is checked. `found`
      stands for returning the table itself, and false for returning null. */
  method FillOtherBoxes(a: array2<Grid>, rowStart: nat, colStart: nat) returns (found: bool)
    requires a.Length0 == N && a.Length1 == N
    requires rowStart < N && colStart <= N
    modifies a
    decreases N * N - Pos(rowStart, colStart), 2
    ensures forall i, j :: InTable(i, j) && Pos(i, j) < Pos(rowStart, colStart) ==> a[i, j] == old(a[i, j])
    ensures forall i, j :: InTable(i, j) && IsFixed(old(a[i, j])) ==> a[i, j] == old(a[i, j])
    ensures found ==> NoDuplicates(Snapshot(a))
    ensures found ==> forall i, j :: InTable(i, j) && Pos(i, j) >= Pos(rowStart, colStart) ==> a[i, j].value != 0
    ensures !found ==> forall i, j :: InTable(i, j) ==> a[i, j] == old(a[i, j]) || a[i, j] == Grid(0, false)
    ensures !found && !IsEnd(rowStart, colStart) ==>
              var (row, col) := Cursor(rowStart, colStart);
              !IsFixed(old(a[row, col])) ==> a[row, col] == Grid(0, false)
    ensures Completable(old(Snapshot(a)), Pos(rowStart, colStart)) ==> found
  {
    ghost var start := Snapshot(a);
    if IsEnd(rowStart, colStart) {
      if Completable(start, N * N) {
        var u: Table :| IsTable(u) && Completes(start, u, N * N);
        CompletionAtEnd(start, u);
      }
      forall i, j | InTable(i, j)
        ensures Pos(i, j) < Pos(rowStart, colStart)
      {
        assert i * N <= (N - 1) * N;
      }
      found := IsValidSudoku(Snapshot(a));
      return;
    }
    var row, col := rowStart, colStart;
    if col == N {
      row, col := row + 1, 0;
    }
    assert (row, col) == Cursor(rowStart, colStart) && InTable(row, col);
    if a[row, col].value != 0 && a[row, col].readonly {
      SkipFixedKeepsCompletions(start, row, col);
      found := FillOtherBoxes(a, row, col + 1);
      forall i, j | InTable(i, j) && Pos(i, j) >= Pos(row, col)
        ensures Pos(i, j) >= Pos(row, col + 1) || (i == row && j == col)
      {
        PosInjective(i, j, row, col);
      }
      return;
    }
    found := TryDigits(a, row, col);
  }

  /** The digit loop at a cell that is not fixed: the digits 1..9 are tried
      in turn (see TryDigit) until one leads to a completed table. When none
      does, the cell is left as (0, false) and no completion of the table
      from this cell exists. */
  method TryDigits(a: array2<Grid>, row: nat, col: nat) returns (found: bool)
    requires a.Length0 == N && a.Length1 == N
    requires InTable(row, col) && !IsFixed(a[row, col])
    modifies a
    decreases N * N - Pos(row, col), 1
    ensures forall i, j :: InTable(i, j) && Pos(i, j) < Pos(row, col) ==> a[i, j] == old(a[i, j])
    ensures forall i, j :: InTable(i, j) && IsFixed(old(a[i, j])) ==> a[i, j] == old(a[i, j])
    ensures found ==> NoDuplicates(Snapshot(a))
    ensures found ==> forall i, j :: InTable(i, j) && Pos(i, j) >= Pos(row, col) ==> a[i, j].value != 0
    ensures !found ==> forall i, j :: InTable(i, j) ==> a[i, j] == old(a[i, j]) || a[i, j] == Grid(0, false)
    ensures !found ==> a[row, col] == Grid(0, false)
    ensures Completable(old(Snapshot(a)), Pos(row, col)) ==> found
  {
    ghost var start := Snapshot(a);
    // the source tries the digits 1..9 whatever the size of the table
    var n := 1;
    while n <= 9
      invariant 1 <= n <= 10
      invariant !IsFixed(a[row, col])
      invariant forall i, j :: InTable(i, j) && Pos(i, j) < Pos(row, col) ==> a[i, j] == old(a[i, j])
      invariant forall i, j :: InTable(i, j) && IsFixed(old(a[i, j])) ==> a[i, j] == old(a[i, j])
      invariant forall i, j :: InTable(i, j) ==> a[i, j] == old(a[i, j]) || a[i, j] == Grid(0, false)
      invariant n > 1 ==> a[row, col] == Grid(0, false)
      invariant DigitsBelowExcluded(start, row, col, n)
    {
      ghost var here := Snapshot(a);
      assert ResetFrom(start, here, Pos(row, col));
      found := TryDigit(a, row, col, n);
      if found {
        return;
      }
      ExcludeDigit(start, here, row, col, n);
      n := n + 1;
    }
    NoDigitLeft(start, row, col);
    found := false;
  }

  /** One turn of the digit loop at a cell that is not fixed: when `n` is
      legal there it is written as (n, false) and the search goes on from the
      next cell; unless that succeeds the cell is then reset to (0, false). */
  method TryDigit(a: array2<Grid>, row: nat, col: nat, n: int) returns (found: bool)
    requires a.Length0 == N && a.Length1 == N
    requires 1 <= n <= 9
    requires InTable(row, col) && !IsFixed(a[row, col])
    modifies a
    decreases N * N - Pos(row, col), 0
    ensures forall i, j :: InTable(i, j) && Pos(i, j) < Pos(row, col) ==> a[i, j] == old(a[i, j])
    ensures forall i, j :: InTable(i, j) && IsFixed(old(a[i, j])) ==> a[i, j] == old(a[i, j])
    ensures found ==> NoDuplicates(Snapshot(a))
    ensures found ==> forall i, j :: InTable(i, j) && Pos(i, j) >= Pos(row, col) ==> a[i, j].value != 0
    ensures !found ==> forall i, j :: InTable(i, j) ==> a[i, j] == old(a[i, j]) || a[i, j] == Grid(0, false)
    ensures !found ==> a[row, col] == Grid(0, false)
    ensures CompletableWith(old(Snapshot(a)), Pos(row, col), row, col, n) ==> found
  {
    ghost var start := Snapshot(a);
    var valid := FindIfNumberValidAtGrid(Snapshot(a), row, col, n);
    if !valid {
      CompletableWithIsLegal(start, row, col, n);
    } else {
      a[row, col] := Grid(n, false);
      PlacementKeepsCompletable(start, Snapshot(a), row, col, n);
      found := FillOtherBoxes(a, row, col + 1);
      if found {
        assert a[row, col] == Grid(n, false);
        forall i, j | InTable(i, j) && Pos(i, j) >= Pos(row, col)
          ensures Pos(i, j) >= Pos(row, col + 1) || (i == row && j == col)
        {
          PosInjective(i, j, row, col);
        }
        return;
      }
    }
    a[row, col] := Grid(0, false);
    found := false;
  }

  /** Runs the backtracking completion from the first cell and keeps the
      table whatever the outcome: either the table is solved, or every cell
      holds its former contents or (0, false). Givens never change. */
  method FillCompleteTable(a: array2<Grid>)
    requires a.Length0 == N && a.Length1 == N
    modifies a
    ensures forall i, j :: InTable(i, j) && IsFixed(old(a[i, j])) ==> a[i, j] == old(a[i, j])
    ensures Solved(Snapshot(a)) ||
            forall i, j :: InTable(i, j) ==> a[i, j] == old(a[i, j]) || a[i, j] == Grid(0, false)
    ensures Completable(old(Snapshot(a)), 0) ==> Solved(Snapshot(a))
  {
    var _ := FillOtherBoxes(a, 0, 0);
  }
}
