/** The constraint checks of the engine: whether a digit is already used in a
    row, column or box, whether it may be placed at a cell, and whether a table
    is valid, completely filled and solved. None of them changes the table. */
module Checks {
  import opened Tables

  /** `Array.prototype.find` over a row, looking for a cell holding `num`. */
  function FindValue(cells: seq<Grid>, num: int): (found: bool)
    ensures found <==> exists k :: 0 <= k < |cells| && cells[k].value == num
  {
    if cells == [] then false
    else if cells[0].value == num then true
    else
      var rest := FindValue(cells[1..], num);
      assert forall k :: 0 <= k < |cells| - 1 ==> cells[1..][k] == cells[k + 1];
      rest
  }

  /** Whether `num` occurs in row `row`. */
  function IsNumberUsedInRow(t: Table, row: nat, num: int): (used: bool)
    requires row < |t|
    ensures used <==> exists c :: 0 <= c < |t[row]| && t[row][c].value == num
  {
    FindValue(t[row], num)
  }

  /** `Array.prototype.find` over the rows, looking for a row whose cell in
      `column` holds `num`. */
  function FindRowWithValueAt(rows: Table, column: nat, num: int): (found: bool)
    requires forall r :: 0 <= r < |rows| ==> column < |rows[r]|
    ensures found <==> exists r :: 0 <= r < |rows| && rows[r][column].value == num
  {
    if rows == [] then false
    else if rows[0][column].value == num then true
    else
      var rest := FindRowWithValueAt(rows[1..], column, num);
      assert forall r :: 0 <= r < |rows| - 1 ==> rows[1..][r] == rows[r + 1];
      rest
  }

  /** Whether `num` occurs in column `column`. */
  function IsNumberUsedInColumn(t: Table, column: nat, num: int): (used: bool)
    requires forall r :: 0 <= r < |t| ==> column < |t[r]|
    ensures used <==> exists r :: 0 <= r < |t| && t[r][column].value == num
  {
    FindRowWithValueAt(t, column, num)
  }

  /** Whether `num` occurs in the Root x Root box whose top-left cell is (r, c). */
  method IsNumberUsedInBox(t: Table, r: nat, c: nat, num: int) returns (used: bool)
    requires IsTable(t) && r + Root <= N && c + Root <= N
    ensures used <==> exists i, j :: r <= i < r + Root && c <= j < c + Root && t[i][j].value == num
  {
    var i := r;
    while i < r + Root
      invariant r <= i <= r + Root
      invariant forall i', j :: r <= i' < i && c <= j < c + Root ==> t[i'][j].value != num
    {
      var j := c;
      while j < c + Root
        invariant c <= j <= c + Root
        invariant forall j' :: c <= j' < j ==> t[i][j'].value != num
      {
        if t[i][j].value == num {
          return true;
        }
        j := j + 1;
      }
      i := i + 1;
    }
    return false;
  }

  /** Whether `num` may be written at (i, j): it is used neither in the row,
      nor in the column, nor in the box holding the cell. */
  method FindIfNumberValidAtGrid(t: Table, i: nat, j: nat, num: int) returns (valid: bool)
    requires IsTable(t) && i < N && j < N
    ensures valid <==> CanPlace(t, i, j, num)
  {
    var used := IsNumberUsedInRow(t, i, num) || IsNumberUsedInColumn(t, j, num);
    if !used {
      used := IsNumberUsedInBox(t, i - i % Root, j - j % Root, num);
    }
    valid := !used;
  }

  // ---------------------------------------------------------------------------
  // isValidSudoku

  /** Adds one to the counter of `v`. A value that is not a key of the counter
      map (anything outside 1..N, 0 included) is not counted: in the source the
      sum is NaN there, which never compares greater than 1. */
  function Bump(m: map<int, int>, v: int): map<int, int> {
    if v in m then m[v := m[v] + 1] else m
  }

  predicate Exceeds(m: map<int, int>, v: int) {
    v in m && m[v] > 1
  }

  ghost predicate DigitKeys(m: map<int, int>) {
    forall v :: v in m <==> InDigitRange(v)
  }

  ghost predicate SeenInRow(t: Table, r: int, v: int, row: int, col: int)
    requires IsTable(t) && 0 <= r < N
  {
    exists c :: 0 <= c < N && Before(r, c, row, col) && t[r][c].value == v
  }

  ghost predicate SeenInColumn(t: Table, c: int, v: int, row: int, col: int)
    requires IsTable(t) && 0 <= c < N
  {
    exists r :: 0 <= r < N && Before(r, c, row, col) && t[r][c].value == v
  }

  ghost predicate SeenInBox(t: Table, br: int, bc: int, v: int, row: int, col: int)
    requires IsTable(t)
  {
    exists r, c :: InTable(r, c) && r / Root == br && c / Root == bc && Before(r, c, row, col) && t[r][c].value == v
  }

  function Flag(b: bool): int {
    if b then 1 else 0
  }

  ghost predicate RowCountersAgree(t: Table, rowHM: seq<map<int, int>>, row: int, col: int)
    requires IsTable(t)
  {
    |rowHM| == N &&
    (forall r :: 0 <= r < N ==> DigitKeys(rowHM[r])) &&
    (forall r, v :: 0 <= r < N && InDigitRange(v) ==> rowHM[r][v] == Flag(SeenInRow(t, r, v, row, col)))
  }

  ghost predicate ColumnCountersAgree(t: Table, colHM: seq<map<int, int>>, row: int, col: int)
    requires IsTable(t)
  {
    |colHM| == N &&
    (forall c :: 0 <= c < N ==> DigitKeys(colHM[c])) &&
    (forall c, v :: 0 <= c < N && InDigitRange(v) ==> colHM[c][v] == Flag(SeenInColumn(t, c, v, row, col)))
  }

  ghost predicate BoxCountersAgree(t: Table, boxHM: seq<seq<map<int, int>>>, row: int, col: int)
    requires IsTable(t)
  {
    |boxHM| == N &&
    (forall b :: 0 <= b < N ==> |boxHM[b]| == Root) &&
    (forall br, bc :: 0 <= br < Root && 0 <= bc < Root ==> DigitKeys(boxHM[br][bc])) &&
    (forall br, bc, v :: 0 <= br < Root && 0 <= bc < Root && InDigitRange(v) ==>
       boxHM[br][bc][v] == Flag(SeenInBox(t, br, bc, v, row, col)))
  }

  /** The counters hold, for every digit, whether it has been met among the
      cells before (row, col) of each row, column and box. */
  ghost predicate CountersAgree(t: Table, rowHM: seq<map<int, int>>, colHM: seq<map<int, int>>,
                                boxHM: seq<seq<map<int, int>>>, row: int, col: int)
    requires IsTable(t)
  {
    RowCountersAgree(t, rowHM, row, col) && ColumnCountersAgree(t, colHM, row, col) &&
    BoxCountersAgree(t, boxHM, row, col)
  }

  /** Whether no digit 1..N occurs twice in a row, a column or a box, found
      by counting every digit per row, column and box and stopping at the
      first count above 1. */
  method IsValidSudoku(t: Table) returns (valid: bool)
    requires IsTable(t)
    ensures valid <==> NoDuplicates(t)
  {
    var rowHM := seq(N, _ => GetInitializedGridMap(N));
    var colHM := seq(N, _ => GetInitializedGridMap(N));
    var boxHM := seq(N, _ => seq(Root, _ => GetInitializedGridMap(N)));
    var row := 0;
    while row < N
      invariant 0 <= row <= N
      invariant CountersAgree(t, rowHM, colHM, boxHM, row, 0)
      invariant NoDuplicatesBefore(t, row, 0)
    {
      var col := 0;
      while col < N
        invariant 0 <= col <= N
        invariant CountersAgree(t, rowHM, colHM, boxHM, row, col)
        invariant NoDuplicatesBefore(t, row, col)
      {
        var row3 := row / Root;
        var col3 := col / Root;
        var v := t[row][col].value;
        ghost var before := (rowHM, colHM, boxHM);
        rowHM := rowHM[row := Bump(rowHM[row], v)];
        colHM := colHM[col := Bump(colHM[col], v)];
        boxHM := boxHM[row3 := boxHM[row3][col3 := Bump(boxHM[row3][col3], v)]];
        if Exceeds(boxHM[row3][col3], v) || Exceeds(colHM[col], v) || Exceeds(rowHM[row], v) {
          RepeatedDigit(t, before.0, before.1, before.2, row, col);
          return false;
        }
        RecordCell(t, before.0, before.1, before.2, row, col);
        col := col + 1;
      }
      NextRow(t, rowHM, colHM, boxHM, row);
      row := row + 1;
    }
    return true;
  }

  /** Past the last column of a row, the cells met are those before the
      first cell of the next row. */
  lemma NextRow(t: Table, rowHM: seq<map<int, int>>, colHM: seq<map<int, int>>,
                boxHM: seq<seq<map<int, int>>>, row: int)
    requires IsTable(t)
    requires CountersAgree(t, rowHM, colHM, boxHM, row, N) && NoDuplicatesBefore(t, row, N)
    ensures CountersAgree(t, rowHM, colHM, boxHM, row + 1, 0) && NoDuplicatesBefore(t, row + 1, 0)
  {
    forall r, c | InTable(r, c)
      ensures Before(r, c, row, N) <==> Before(r, c, row + 1, 0)
    {
    }
    forall r, v | 0 <= r < N
      ensures SeenInRow(t, r, v, row, N) <==> SeenInRow(t, r, v, row + 1, 0)
    {
    }
    forall c, v | 0 <= c < N
      ensures SeenInColumn(t, c, v, row, N) <==> SeenInColumn(t, c, v, row + 1, 0)
    {
    }
    forall br, bc, v
      ensures SeenInBox(t, br, bc, v, row, N) <==> SeenInBox(t, br, bc, v, row + 1, 0)
    {
    }
  }

  /** A counter that reaches 2 at cell (row, col) means the digit there was
      already met in its row, column or box. */
  lemma RepeatedDigit(t: Table, rowHM: seq<map<int, int>>, colHM: seq<map<int, int>>,
                      boxHM: seq<seq<map<int, int>>>, row: int, col: int)
    requires IsTable(t) && InTable(row, col)
    requires CountersAgree(t, rowHM, colHM, boxHM, row, col)
    requires var v := t[row][col].value;
      Exceeds(Bump(boxHM[row / Root][col / Root], v), v) || Exceeds(Bump(colHM[col], v), v) ||
      Exceeds(Bump(rowHM[row], v), v)
    ensures !NoDuplicates(t)
  {
    var v := t[row][col].value;
    if Exceeds(Bump(rowHM[row], v), v) {
      RepeatedInRow(t, rowHM, row, col);
    } else if Exceeds(Bump(colHM[col], v), v) {
      RepeatedInColumn(t, colHM, row, col);
    } else {
      RepeatedInBox(t, boxHM, row, col);
    }
  }

  lemma RepeatedInRow(t: Table, rowHM: seq<map<int, int>>, row: int, col: int)
    requires IsTable(t) && InTable(row, col)
    requires RowCountersAgree(t, rowHM, row, col)
    requires Exceeds(Bump(rowHM[row], t[row][col].value), t[row][col].value)
    ensures !NoDuplicates(t)
  {
    var v := t[row][col].value;
    assert SeenInRow(t, row, v, row, col);
    var c :| 0 <= c < N && Before(row, c, row, col) && t[row][c].value == v;
    assert Peers(row, c, row, col);
  }

  lemma RepeatedInColumn(t: Table, colHM: seq<map<int, int>>, row: int, col: int)
    requires IsTable(t) && InTable(row, col)
    requires ColumnCountersAgree(t, colHM, row, col)
    requires Exceeds(Bump(colHM[col], t[row][col].value), t[row][col].value)
    ensures !NoDuplicates(t)
  {
    var v := t[row][col].value;
    assert SeenInColumn(t, col, v, row, col);
    var r :| 0 <= r < N && Before(r, col, row, col) && t[r][col].value == v;
    assert Peers(r, col, row, col);
  }

  lemma RepeatedInBox(t: Table, boxHM: seq<seq<map<int, int>>>, row: int, col: int)
    requires IsTable(t) && InTable(row, col)
    requires BoxCountersAgree(t, boxHM, row, col)
    requires Exceeds(Bump(boxHM[row / Root][col / Root], t[row][col].value), t[row][col].value)
    ensures !NoDuplicates(t)
  {
    var v := t[row][col].value;
    assert SeenInBox(t, row / Root, col / Root, v, row, col);
    var r, c :| InTable(r, c) && r / Root == row / Root && c / Root == col / Root &&
                Before(r, c, row, col) && t[r][c].value == v;
    assert Peers(r, c, row, col);
  }

  /** When no counter reaches 2 at cell (row, col), the counters and the
      absence of duplicates extend to that cell. */
  lemma RecordCell(t: Table, rowHM: seq<map<int, int>>, colHM: seq<map<int, int>>,
                   boxHM: seq<seq<map<int, int>>>, row: int, col: int)
    requires IsTable(t) && InTable(row, col)
    requires CountersAgree(t, rowHM, colHM, boxHM, row, col)
    requires NoDuplicatesBefore(t, row, col)
    requires var v := t[row][col].value;
      !Exceeds(Bump(boxHM[row / Root][col / Root], v), v) && !Exceeds(Bump(colHM[col], v), v) &&
      !Exceeds(Bump(rowHM[row], v), v)
    ensures var v := t[row][col].value;
      var row3 := row / Root;
      var col3 := col / Root;
      CountersAgree(t, rowHM[row := Bump(rowHM[row], v)], colHM[col := Bump(colHM[col], v)],
                    boxHM[row3 := boxHM[row3][col3 := Bump(boxHM[row3][col3], v)]], row, col + 1)
    ensures NoDuplicatesBefore(t, row, col + 1)
  {
    RecordRow(t, rowHM, row, col);
    RecordColumn(t, colHM, row, col);
    RecordBox(t, boxHM, row, col);
    RecordNoDuplicates(t, rowHM, colHM, boxHM, row, col);
  }

  lemma RecordRow(t: Table, rowHM: seq<map<int, int>>, row: int, col: int)
    requires IsTable(t) && InTable(row, col)
    requires RowCountersAgree(t, rowHM, row, col)
    requires !Exceeds(Bump(rowHM[row], t[row][col].value), t[row][col].value)
    ensures RowCountersAgree(t, rowHM[row := Bump(rowHM[row], t[row][col].value)], row, col + 1)
  {
    var v := t[row][col].value;
    var after := rowHM[row := Bump(rowHM[row], v)];
    forall r, w | 0 <= r < N && InDigitRange(w)
      ensures after[r][w] == Flag(SeenInRow(t, r, w, row, col + 1))
    {
      SeenInRowStep(t, r, w, row, col);
    }
  }

  /** Moving past cell (row, col) adds that cell's digit to what row `r` has met. */
  lemma SeenInRowStep(t: Table, r: int, w: int, row: int, col: int)
    requires IsTable(t) && InTable(row, col) && 0 <= r < N
    ensures SeenInRow(t, r, w, row, col + 1) <==> SeenInRow(t, r, w, row, col) || (r == row && t[row][col].value == w)
  {
    if SeenInRow(t, r, w, row, col + 1) {
      var c :| 0 <= c < N && Before(r, c, row, col + 1) && t[r][c].value == w;
      assert c != col || r != row ==> Before(r, c, row, col);
    }
    if SeenInRow(t, r, w, row, col) {
      var c :| 0 <= c < N && Before(r, c, row, col) && t[r][c].value == w;
      assert Before(r, c, row, col + 1);
    }
    if r == row && t[row][col].value == w {
      assert Before(row, col, row, col + 1);
    }
  }

  lemma RecordColumn(t: Table, colHM: seq<map<int, int>>, row: int, col: int)
    requires IsTable(t) && InTable(row, col)
    requires ColumnCountersAgree(t, colHM, row, col)
    requires !Exceeds(Bump(colHM[col], t[row][col].value), t[row][col].value)
    ensures ColumnCountersAgree(t, colHM[col := Bump(colHM[col], t[row][col].value)], row, col + 1)
  {
    var v := t[row][col].value;
    var after := colHM[col := Bump(colHM[col], v)];
    forall c, w | 0 <= c < N && InDigitRange(w)
      ensures after[c][w] == Flag(SeenInColumn(t, c, w, row, col + 1))
    {
      SeenInColumnStep(t, c, w, row, col);
    }
  }

  /** Moving past cell (row, col) adds that cell's digit to what column `c` has met. */
  lemma SeenInColumnStep(t: Table, c: int, w: int, row: int, col: int)
    requires IsTable(t) && InTable(row, col) && 0 <= c < N
    ensures SeenInColumn(t, c, w, row, col + 1) <==> SeenInColumn(t, c, w, row, col) || (c == col && t[row][col].value == w)
  {
    if SeenInColumn(t, c, w, row, col + 1) {
      var r :| 0 <= r < N && Before(r, c, row, col + 1) && t[r][c].value == w;
      assert c != col || r != row ==> Before(r, c, row, col);
    }
    if SeenInColumn(t, c, w, row, col) {
      var r :| 0 <= r < N && Before(r, c, row, col) && t[r][c].value == w;
      assert Before(r, c, row, col + 1);
    }
    if c == col && t[row][col].value == w {
      assert Before(row, col, row, col + 1);
    }
  }

  lemma RecordBox(t: Table, boxHM: seq<seq<map<int, int>>>, row: int, col: int)
    requires IsTable(t) && InTable(row, col)
    requires BoxCountersAgree(t, boxHM, row, col)
    requires !Exceeds(Bump(boxHM[row / Root][col / Root], t[row][col].value), t[row][col].value)
    ensures var row3 := row / Root;
      var col3 := col / Root;
      BoxCountersAgree(t, boxHM[row3 := boxHM[row3][col3 := Bump(boxHM[row3][col3], t[row][col].value)]],
                       row, col + 1)
  {
    var v := t[row][col].value;
    var row3 := row / Root;
    var col3 := col / Root;
    var after := boxHM[row3 := boxHM[row3][col3 := Bump(boxHM[row3][col3], v)]];
    forall br, bc, w | 0 <= br < Root && 0 <= bc < Root && InDigitRange(w)
      ensures after[br][bc][w] == Flag(SeenInBox(t, br, bc, w, row, col + 1))
    {
      SeenInBoxStep(t, br, bc, w, row, col);
    }
  }

  /** Moving past cell (row, col) adds that cell's digit to what its box has met. */
  lemma SeenInBoxStep(t: Table, br: int, bc: int, w: int, row: int, col: int)
    requires IsTable(t) && InTable(row, col)
    ensures SeenInBox(t, br, bc, w, row, col + 1) <==>
            SeenInBox(t, br, bc, w, row, col) || (br == row / Root && bc == col / Root && t[row][col].value == w)
  {
    if SeenInBox(t, br, bc, w, row, col + 1) {
      var r, c :| InTable(r, c) && r / Root == br && c / Root == bc && Before(r, c, row, col + 1) &&
                  t[r][c].value == w;
      assert c != col || r != row ==> Before(r, c, row, col);
    }
    if SeenInBox(t, br, bc, w, row, col) {
      var r, c :| InTable(r, c) && r / Root == br && c / Root == bc && Before(r, c, row, col) &&
                  t[r][c].value == w;
      assert Before(r, c, row, col + 1);
    }
    if br == row / Root && bc == col / Root && t[row][col].value == w {
      assert Before(row, col, row, col + 1);
    }
  }

  lemma RecordNoDuplicates(t: Table, rowHM: seq<map<int, int>>, colHM: seq<map<int, int>>,
                           boxHM: seq<seq<map<int, int>>>, row: int, col: int)
    requires IsTable(t) && InTable(row, col)
    requires CountersAgree(t, rowHM, colHM, boxHM, row, col)
    requires NoDuplicatesBefore(t, row, col)
    requires var v := t[row][col].value;
      !Exceeds(Bump(boxHM[row / Root][col / Root], v), v) && !Exceeds(Bump(colHM[col], v), v) &&
      !Exceeds(Bump(rowHM[row], v), v)
    ensures NoDuplicatesBefore(t, row, col + 1)
  {
    forall r1, c1, r2, c2 |
      InTable(r1, c1) && InTable(r2, c2) && Before(r1, c1, row, col + 1) && Before(r2, c2, row, col + 1) &&
      Peers(r1, c1, r2, c2) && InDigitRange(t[r1][c1].value)
      ensures t[r1][c1].value != t[r2][c2].value
    {
      if r2 == row && c2 == col && Before(r1, c1, row, col) {
        SeenBefore(t, rowHM, colHM, boxHM, row, col, r1, c1);
      } else if r1 == row && c1 == col && Before(r2, c2, row, col) {
        SeenBefore(t, rowHM, colHM, boxHM, row, col, r2, c2);
      }
    }
  }

  /** A peer before (row, col) holding the same digit would have set a counter. */
  lemma SeenBefore(t: Table, rowHM: seq<map<int, int>>, colHM: seq<map<int, int>>,
                   boxHM: seq<seq<map<int, int>>>, row: int, col: int, r: int, c: int)
    requires IsTable(t) && InTable(row, col) && InTable(r, c)
    requires CountersAgree(t, rowHM, colHM, boxHM, row, col)
    requires Peers(r, c, row, col) && Before(r, c, row, col)
    requires InDigitRange(t[r][c].value) || InDigitRange(t[row][col].value)
    requires var v := t[row][col].value;
      !Exceeds(Bump(boxHM[row / Root][col / Root], v), v) && !Exceeds(Bump(colHM[col], v), v) &&
      !Exceeds(Bump(rowHM[row], v), v)
    ensures t[r][c].value != t[row][col].value
  {
    var v := t[row][col].value;
    var w := t[r][c].value;
    if r == row {
      assert w == v ==> SeenInRow(t, row, v, row, col);
    } else if c == col {
      assert w == v ==> SeenInColumn(t, col, v, row, col);
    } else {
      assert w == v ==> SeenInBox(t, row / Root, col / Root, v, row, col);
    }
  }

  // ---------------------------------------------------------------------------
  // isCompletelyFilled, isSolved

  /** `Array.prototype.find` over the rows, looking for a row with an empty cell. */
  function FindRowWithEmptyCell(rows: Table): (found: bool)
    ensures found <==> exists i, j :: 0 <= i < |rows| && 0 <= j < |rows[i]| && rows[i][j].value == 0
  {
    if rows == [] then false
    else if FindValue(rows[0], 0) then true
    else
      var rest := FindRowWithEmptyCell(rows[1..]);
      assert forall i :: 0 <= i < |rows| - 1 ==> rows[1..][i] == rows[i + 1];
      rest
  }

  /** Whether no cell of the table holds 0. */
  function IsCompletelyFilled(t: Table): (filled: bool)
    ensures filled <==> forall i, j :: 0 <= i < |t| && 0 <= j < |t[i]| ==> t[i][j].value != 0
  {
    !FindRowWithEmptyCell(t)
  }

  /** Whether the table is valid and completely filled. */
  method IsSolved(t: Table) returns (solved: bool)
    requires IsTable(t)
    ensures solved <==> Solved(t)
  {
    solved := IsValidSudoku(t);
    solved := solved && IsCompletelyFilled(t);
  }

  /** A row holding the same digit twice makes the table invalid. */
  lemma RepeatInRowIsInvalid(t: Table, r: nat, c1: nat, c2: nat)
    requires IsTable(t) && r < N && c1 < N && c2 < N && c1 != c2
    requires InDigitRange(t[r][c1].value) && t[r][c1].value == t[r][c2].value
    ensures !NoDuplicates(t)
  {
    assert Peers(r, c1, r, c2);
  }
}
