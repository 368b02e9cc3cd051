/** Completions of a partly filled table, the yardstick for the two
    backtracking searches: a search from a cursor must find (or, in the
    stepwise solver, hand over) every solved table it can reach by writing
    digits into the cells that are not fixed from the cursor on. */
module Completion {
  import opened Tables

  /** `u` is a solved table that the search from row-major position `p`
      can reach from `s`: it agrees with `s` before `p` and on the fixed cells
      from `p` on, and the other cells from `p` on are empty in `s`, so that
      no stale digit there hides a legal one. */
  ghost predicate Completes(s: Table, u: Table, p: int)
    requires IsTable(s) && IsTable(u)
  {
    NoDuplicates(u) &&
    (forall i, j :: InTable(i, j) ==> InDigitRange(u[i][j].value)) &&
    (forall i, j :: InTable(i, j) && Pos(i, j) < p ==> u[i][j].value == s[i][j].value) &&
    (forall i, j :: InTable(i, j) && Pos(i, j) >= p ==>
       if IsFixed(s[i][j]) then u[i][j].value == s[i][j].value else s[i][j].value == 0)
  }

  /** Some completion of `s` from `p` exists. */
  ghost predicate Completable(s: Table, p: int)
    requires IsTable(s)
  {
    exists u: Table {:trigger Completes(s, u, p)} :: IsTable(u) && Completes(s, u, p)
  }

  /** Some completion of `s` from `p` holds `n` at (row, col). */
  ghost predicate CompletableWith(s: Table, p: int, row: int, col: int, n: int)
    requires IsTable(s) && InTable(row, col)
  {
    exists u: Table {:trigger Completes(s, u, p)} :: IsTable(u) && Completes(s, u, p) && u[row][col].value == n
  }

  /** `h` is `s` after a failed search from `p`: the cells before `p` are
      kept, and every cell is kept or reset to (0, false). */
  ghost predicate ResetFrom(s: Table, h: Table, p: int)
    requires IsTable(s) && IsTable(h)
  {
    KeptBefore(s, h, p) && forall i, j :: InTable(i, j) ==> h[i][j] == s[i][j] || h[i][j] == Grid(0, false)
  }

  /** The two tables hold the same values; `readonly` flags may differ. */
  ghost predicate SameValues(t: Table, u: Table)
    requires IsTable(t) && IsTable(u)
  {
    forall i, j :: InTable(i, j) ==> t[i][j].value == u[i][j].value
  }

  /** No completion of `s` from (row, col) holds a digit below `n` there. */
  ghost predicate DigitsBelowExcluded(s: Table, row: int, col: int, n: int)
    requires IsTable(s) && InTable(row, col)
  {
    forall u: Table {:trigger Completes(s, u, Pos(row, col))} :: IsTable(u) && Completes(s, u, Pos(row, col)) ==> n <= u[row][col].value
  }

  /** A failed search only empties cells that are not fixed: every completion
      of the table before it is a completion of the table after it. */
  lemma ResetKeepsCompletions(s: Table, h: Table, u: Table, p: int)
    requires IsTable(s) && IsTable(h) && IsTable(u)
    requires ResetFrom(s, h, p) && Completes(s, u, p)
    ensures Completes(h, u, p)
  {
  }

  /** Skipping a fixed cell keeps a completion: the completion holds the
      fixed digit there. */
  lemma {:induction false} SkipFixedKeepsCompletion(s: Table, u: Table, row: int, col: int)
    requires IsTable(s) && IsTable(u) && InTable(row, col) && IsFixed(s[row][col])
    requires Completes(s, u, Pos(row, col))
    ensures Completes(s, u, Pos(row, col + 1))
  {
    forall i, j | InTable(i, j) && Pos(i, j) < Pos(row, col + 1)
      ensures u[i][j].value == s[i][j].value
    {
      PosInjective(i, j, row, col);
    }
  }

  /** The same, for whichever completion exists. */
  lemma {:induction false} SkipFixedKeepsCompletions(s: Table, row: int, col: int)
    requires IsTable(s) && InTable(row, col) && IsFixed(s[row][col])
    ensures Completable(s, Pos(row, col)) ==> Completable(s, Pos(row, col + 1))
  {
    if Completable(s, Pos(row, col)) {
      var u: Table :| IsTable(u) && Completes(s, u, Pos(row, col));
      SkipFixedKeepsCompletion(s, u, row, col);
    }
  }

  /** The digit a completion holds at a cell that is not fixed passes the
      legality check there: a digit of `s` is the completion's own, and the
      completion has no duplicates. */
  lemma {:induction false} CompletionDigitIsLegal(s: Table, u: Table, row: int, col: int)
    requires IsTable(s) && IsTable(u) && InTable(row, col) && !IsFixed(s[row][col])
    requires Completes(s, u, Pos(row, col))
    ensures CanPlace(s, row, col, u[row][col].value)
  {
    var n := u[row][col].value;
    forall r, c | InTable(r, c) && Peers(r, c, row, col)
      ensures s[r][c].value != n
    {
      assert s[r][c].value == 0 || s[r][c].value == u[r][c].value;
    }
    assert s[row][col].value == 0;
    forall r, c | BoxOrigin(row) <= r < BoxOrigin(row) + Root && BoxOrigin(col) <= c < BoxOrigin(col) + Root
      ensures s[r][c].value != n
    {
      SameBoxIsBoxOrigin(row, col, r, c);
      assert InTable(r, c);
      assert (r == row && c == col) || Peers(r, c, row, col);
    }
  }

  /** A completion holding `n` at a cell that is not fixed makes `n` legal there. */
  lemma {:induction false} CompletableWithIsLegal(s: Table, row: int, col: int, n: int)
    requires IsTable(s) && InTable(row, col) && !IsFixed(s[row][col])
    ensures CompletableWith(s, Pos(row, col), row, col, n) ==> CanPlace(s, row, col, n)
  {
    if CompletableWith(s, Pos(row, col), row, col, n) {
      var u: Table :| IsTable(u) && Completes(s, u, Pos(row, col)) && u[row][col].value == n;
      CompletionDigitIsLegal(s, u, row, col);
    }
  }

  /** Writing the completion's own digit at the cursor and moving on keeps it
      a completion. */
  lemma {:induction false} PlacementKeepsCompletion(s: Table, h: Table, u: Table, row: int, col: int)
    requires IsTable(s) && IsTable(h) && IsTable(u) && InTable(row, col)
    requires Completes(s, u, Pos(row, col))
    requires forall i, j :: InTable(i, j) ==> h[i][j] == if i == row && j == col then Grid(u[row][col].value, false) else s[i][j]
    ensures Completes(h, u, Pos(row, col + 1))
  {
    forall i, j | InTable(i, j) && Pos(i, j) < Pos(row, col + 1)
      ensures u[i][j].value == h[i][j].value
    {
      PosInjective(i, j, row, col);
    }
  }

  /** The same, for whichever completion holds `n` at the cursor. */
  lemma {:induction false} PlacementKeepsCompletable(s: Table, h: Table, row: int, col: int, n: int)
    requires IsTable(s) && IsTable(h) && InTable(row, col)
    requires forall i, j :: InTable(i, j) ==> h[i][j] == if i == row && j == col then Grid(n, false) else s[i][j]
    ensures CompletableWith(s, Pos(row, col), row, col, n) ==> Completable(h, Pos(row, col + 1))
  {
    if CompletableWith(s, Pos(row, col), row, col, n) {
      var u: Table :| IsTable(u) && Completes(s, u, Pos(row, col)) && u[row][col].value == n;
      PlacementKeepsCompletion(s, h, u, row, col);
    }
  }

  /** Past the last cell a completion is the table itself, up to `readonly`
      flags, so the table has no duplicates. */
  lemma {:induction false} CompletionAtEnd(s: Table, u: Table)
    requires IsTable(s) && IsTable(u) && Completes(s, u, N * N)
    ensures SameValues(s, u) && NoDuplicates(s)
  {
    forall i, j | InTable(i, j)
      ensures s[i][j].value == u[i][j].value
    {
      assert i * N <= (N - 1) * N;
    }
    assert SameValues(s, u);
    forall r1, c1, r2, c2 | InTable(r1, c1) && InTable(r2, c2) && Peers(r1, c1, r2, c2) && InDigitRange(s[r1][c1].value)
      ensures s[r1][c1].value != s[r2][c2].value
    {
      assert s[r1][c1].value == u[r1][c1].value && s[r2][c2].value == u[r2][c2].value;
    }
  }

  /** Failing with digit `n` at the cursor, after resets that keep every
      completion, excludes `n` too. */
  lemma {:induction false} ExcludeDigit(s: Table, h: Table, row: int, col: int, n: int)
    requires IsTable(s) && IsTable(h) && InTable(row, col)
    requires DigitsBelowExcluded(s, row, col, n) && ResetFrom(s, h, Pos(row, col))
    requires !CompletableWith(h, Pos(row, col), row, col, n)
    ensures DigitsBelowExcluded(s, row, col, n + 1)
  {
    forall u: Table | IsTable(u) && Completes(s, u, Pos(row, col))
      ensures n + 1 <= u[row][col].value
    {
      ResetKeepsCompletions(s, h, u, Pos(row, col));
      NotTheDigit(h, u, row, col, n);
    }
  }

  lemma NotTheDigit(h: Table, u: Table, row: int, col: int, n: int)
    requires IsTable(h) && IsTable(u) && InTable(row, col)
    requires Completes(h, u, Pos(row, col)) && !CompletableWith(h, Pos(row, col), row, col, n)
    ensures u[row][col].value != n
  {
  }

  /** With every digit 1..9 excluded at the cursor there is no completion. */
  lemma NoDigitLeft(s: Table, row: int, col: int)
    requires IsTable(s) && InTable(row, col) && DigitsBelowExcluded(s, row, col, N + 1)
    ensures !Completable(s, Pos(row, col))
  {
  }
}
