/** The game page (sudoku.js): a 9x9 grid, the filler that makes a puzzle, and the player's moves. */
module Game {
  import opened Grid
  import opened Counting
  import opened Units
  import opened Filler
  import opened Seeds
  import opened Chance

  // ---------- The grid as a flat board ----------

  ghost function Cells(m: array2<nat>): (b: Board)
    requires m.Length0 == m.Length1 == 9
    reads m
    ensures |b| == 81
  {
    seq(81, k requires 0 <= k < 81 && m.Length0 == m.Length1 == 9 reads m => m[k / 9, k % 9])
  }

  lemma CellsAt(m: array2<nat>, k: nat)
    requires m.Length0 == m.Length1 == 9 && k < 81
    ensures k / 9 < 9 && k == Index(9, k / 9, k % 9) && Cells(m)[k] == m[k / 9, k % 9]
  {
  }

  lemma CellAtIndex(m: array2<nat>, i: nat, j: nat)
    requires m.Length0 == m.Length1 == 9 && i < 9 && j < 9
    ensures Index(9, i, j) < 81 && Cells(m)[Index(9, i, j)] == m[i, j]
  {
    CellAt(9, i, j);
  }

  ghost predicate RowFree(m: array2<nat>, row: nat, x: int)
    requires m.Length0 == m.Length1 == 9 && row < 9
    reads m
  {
    forall c :: 0 <= c < 9 ==> m[row, c] != x
  }

  ghost predicate ColFree(m: array2<nat>, col: nat, x: int)
    requires m.Length0 == m.Length1 == 9 && col < 9
    reads m
  {
    forall r :: 0 <= r < 9 ==> m[r, col] != x
  }

  ghost predicate BlockFree(m: array2<nat>, top: nat, left: nat, x: int)
    requires m.Length0 == m.Length1 == 9 && top + 3 <= 9 && left + 3 <= 9
    reads m
  {
    forall r, c :: top <= r < top + 3 && left <= c < left + 3 ==> m[r, c] != x
  }

  lemma RelatedCells(i: nat, j: nat, r: nat, c: nat)
    requires i < 9 && j < 9 && r < 9 && c < 9
    ensures Related(3, Index(9, i, j), Index(9, r, c)) <==> r == i || c == j || (r / 3 == i / 3 && c / 3 == j / 3)
  {
    assert Size(3) == 9;
    CellAt(9, i, j);
    CellAt(9, r, c);
  }

  lemma LegalLeavesLinesFree(m: array2<nat>, i: nat, j: nat, x: nat)
    requires m.Length0 == m.Length1 == 9 && i < 9 && j < 9
    requires Legal(Sudoku(3), 9, Cells(m), Index(9, i, j), x)
    ensures RowFree(m, i, x) && ColFree(m, j, x) && BlockFree(m, i / 3 * 3, j / 3 * 3, x)
  {
    forall r: nat, c: nat | r < 9 && c < 9 && (r == i || c == j || (r / 3 == i / 3 && c / 3 == j / 3))
      ensures m[r, c] != x
    {
      RelatedCells(i, j, r, c);
      CellAtIndex(m, r, c);
      assert Sudoku(3)(Index(9, i, j), Index(9, r, c));
    }
  }

  lemma FreeLinesAreLegal(m: array2<nat>, i: nat, j: nat, x: nat)
    requires m.Length0 == m.Length1 == 9 && i < 9 && j < 9 && 1 <= x <= 9
    requires RowFree(m, i, x) && ColFree(m, j, x) && BlockFree(m, i / 3 * 3, j / 3 * 3, x)
    ensures Legal(Sudoku(3), 9, Cells(m), Index(9, i, j), x)
  {
    forall l: nat | l < 81 && Sudoku(3)(Index(9, i, j), l) ensures Cells(m)[l] != x {
      CellsAt(m, l);
      RelatedCells(i, j, l / 9, l % 9);
    }
  }

  /** The three tests of check together decide whether a digit is legal. */
  lemma LegalOnGrid(m: array2<nat>, i: nat, j: nat, x: nat)
    requires m.Length0 == m.Length1 == 9 && i < 9 && j < 9 && 1 <= x <= 9
    ensures Legal(Sudoku(3), 9, Cells(m), Index(9, i, j), x) <==>
            RowFree(m, i, x) && ColFree(m, j, x) && BlockFree(m, i / 3 * 3, j / 3 * 3, x)
  {
    if Legal(Sudoku(3), 9, Cells(m), Index(9, i, j), x) {
      LegalLeavesLinesFree(m, i, j, x);
    }
    if RowFree(m, i, x) && ColFree(m, j, x) && BlockFree(m, i / 3 * 3, j / 3 * 3, x) {
      FreeLinesAreLegal(m, i, j, x);
    }
  }

  // ---------- Seeding blocks ----------

  /** b' is b with the first t cells of box u set to the digits of v. */
  ghost predicate BlockSet(b: Board, b': Board, u: nat, v: seq<nat>, t: nat) {
    && |b| == |b'| == 81 && |v| == 9
    && forall k: nat :: k < 81 ==>
         b'[k] == if UnitOf(3, InBox, k) == u && PlaceOf(3, InBox, k) < t then v[PlaceOf(3, InBox, k)] else b[k]
  }

  /** The loops of the page visit a block in the order of its places. */
  lemma BlockCell(u: nat, i: nat, j: nat, p: nat)
    requires u < 9 && i < 3 && j < 3 && p == i * 3 + j
    ensures p < 9 && UnitCell(3, InBox, u, p) == Index(9, u / 3 * 3 + i, u % 3 * 3 + j)
  {
    assert p / 3 == i && p % 3 == j;
  }

  lemma BlockSetOne(b: Board, b': Board, u: nat, v: seq<nat>, p: nat)
    requires u < 9 && p < 9 && BlockSet(b, b', u, v, p)
    ensures UnitCell(3, InBox, u, p) < 81
    ensures BlockSet(b, b'[UnitCell(3, InBox, u, p) := v[p]], u, v, p + 1)
  {
    UnitCellOk(3, InBox, u, p);
    forall k: nat | k < 81 && UnitOf(3, InBox, k) == u && PlaceOf(3, InBox, k) == p
      ensures k == UnitCell(3, InBox, u, p)
    {
      PlaceOk(3, InBox, k);
    }
  }

  lemma BlockSetNext(b: Board, b': Board, u: nat, v: seq<nat>, i: nat, j: nat)
    requires u < 9 && i < 3 && j < 3 && BlockSet(b, b', u, v, i * 3 + j)
    ensures Index(9, u / 3 * 3 + i, u % 3 * 3 + j) < 81
    ensures BlockSet(b, b'[Index(9, u / 3 * 3 + i, u % 3 * 3 + j) := v[i * 3 + j]], u, v, i * 3 + j + 1)
  {
    var p := i * 3 + j;
    BlockCell(u, i, j, p);
    UnitCellOk(3, InBox, u, p);
    BlockSetOne(b, b', u, v, p);
  }

  lemma BlockSetValue(b: Board, b': Board, u: nat, v: seq<nat>, w: nat, i: nat)
    requires u < 9 && w < 9 && i < 9 && BlockSet(b, b', u, v, 9)
    ensures UnitValues(3, b', InBox, w)[i] == if w == u then v[i] else UnitValues(3, b, InBox, w)[i]
  {
    UnitCellOk(3, InBox, w, i);
  }

  lemma BlockSetValues(b: Board, b': Board, u: nat, v: seq<nat>, w: nat)
    requires u < 9 && w < 9 && BlockSet(b, b', u, v, 9)
    ensures UnitValues(3, b', InBox, w) == if w == u then v else UnitValues(3, b, InBox, w)
  {
    var x, y := UnitValues(3, b', InBox, w), UnitValues(3, b, InBox, w);
    assert Size(3) == 9;
    forall i: nat | i < 9 ensures x[i] == if w == u then v[i] else y[i] {
      BlockSetValue(b, b', u, v, w, i);
    }
  }

  lemma ThreeBlocksSeed(b0: Board, b1: Board, b2: Board, b3: Board, v: seq<nat>, w: seq<nat>, x: seq<nat>)
    requires |b0| == 81 && forall k :: 0 <= k < 81 ==> b0[k] == 0
    requires HasAll(9, v) && HasAll(9, w) && HasAll(9, x)
    requires BlockSet(b0, b1, 2, v, 9) && BlockSet(b1, b2, 4, w, 9) && BlockSet(b2, b3, 6, x, 9)
    ensures Seeded(b3)
  {
    PermutationIff(9, v);
    PermutationIff(9, w);
    PermutationIff(9, x);
    forall k: nat | k < 81 ensures PlaceOf(3, InBox, k) < 9 {
      PlaceOk(3, InBox, k);
    }
    forall u: nat | SeedBox(u) ensures HasAll(9, UnitValues(3, b3, InBox, u)) {
      BlockSetValues(b0, b1, 2, v, u);
      BlockSetValues(b1, b2, 4, w, u);
      BlockSetValues(b2, b3, 6, x, u);
    }
  }

  lemma ReorderHasAll(s: nat, v: seq<nat>, w: seq<nat>)
    requires multiset(v) == multiset(w) && HasAll(s, v)
    ensures HasAll(s, w)
  {
    forall d | 1 <= d <= s ensures d in w {
      assert d in v && d in multiset(v);
    }
  }

  // ---------- Digging ----------

  /** The columns in which row i is empty. */
  ghost function Holes(b: Board, i: nat): set<nat>
    requires |b| == 81 && i < 9
  {
    set c: nat | c < 9 && b[Index(9, i, c)] == 0
  }

  lemma FullHasNoHoles(b: Board, i: nat)
    requires |b| == 81 && Full(b) && i < 9
    ensures Holes(b, i) == {}
  {
  }

  lemma DigOne(b: Board, i: nat, c: nat, r: nat)
    requires |b| == 81 && i < 9 && c < 9 && r < 9
    ensures Holes(b[Index(9, i, c) := 0], r) == if r == i then Holes(b, i) + {c} else Holes(b, r)
    ensures |Holes(b, i)| <= |Holes(b, i) + {c}| <= |Holes(b, i)| + 1 && 1 <= |Holes(b, i) + {c}|
  {
    assert c in Holes(b, i) ==> Holes(b, i) + {c} == Holes(b, i);
  }

  /** The board without the cells drawn, row by row. */
  ghost function Emptied(full: Board, drawn: seq<seq<nat>>): (b: Board)
    requires |full| == 81 && |drawn| == 9
    ensures |b| == 81
  {
    seq(81, k requires 0 <= k < 81 => if k % 9 in drawn[k / 9] then 0 else full[k])
  }

  /** For each of the first rows, difficulty or difficulty + 1 columns. */
  ghost predicate DrawnRows(drawn: seq<seq<nat>>, difficulty: nat, rows: nat) {
    && |drawn| == 9
    && forall i :: 0 <= i < rows && i < 9 ==>
         difficulty <= |drawn[i]| <= difficulty + 1 && forall c :: c in drawn[i] ==> c < 9
  }

  lemma HolesAreDrawn(full: Board, drawn: seq<seq<nat>>, i: nat)
    requires |full| == 81 && Full(full) && |drawn| == 9 && i < 9 && forall c :: c in drawn[i] ==> c < 9
    ensures Holes(Emptied(full, drawn), i) == set c | c in drawn[i]
  {
    forall c: nat | c < 9 ensures Emptied(full, drawn)[Index(9, i, c)] == 0 <==> c in drawn[i] {
      CellAt(9, i, c);
    }
  }

  lemma EmptyOne(full: Board, drawn: seq<seq<nat>>, i: nat, cols: seq<nat>, c: nat)
    requires |full| == 81 && |drawn| == 9 && i < 9 && c < 9
    ensures Index(9, i, c) < 81
    ensures Emptied(full, drawn[i := cols + [c]]) == Emptied(full, drawn[i := cols])[Index(9, i, c) := 0]
  {
    var b, b' := Emptied(full, drawn[i := cols]), Emptied(full, drawn[i := cols + [c]]);
    forall k: nat | k < 81 ensures b'[k] == b[Index(9, i, c) := 0][k] {
      if k / 9 == i {
        assert k % 9 == c <==> k == Index(9, i, c);
      }
    }
  }

  /** The holes of a board that has come from atRow by as many draws in row i. */
  ghost predicate RowHoles(atRow: Board, i: nat, draws: nat, b: Board) {
    && |atRow| == |b| == 81 && i < 9
    && |Holes(b, i)| <= draws && (draws > 0 ==> 1 <= |Holes(b, i)|)
    && (forall r: nat :: r < 9 && r != i ==> Holes(b, r) == Holes(atRow, r))
  }

  lemma RowHolesNext(atRow: Board, i: nat, draws: nat, b: Board, c: nat)
    requires RowHoles(atRow, i, draws, b) && c < 9
    ensures Index(9, i, c) < 81 && RowHoles(atRow, i, draws + 1, b[Index(9, i, c) := 0])
  {
    var b' := b[Index(9, i, c) := 0];
    DigOne(b, i, c, i);
    forall r: nat | r < 9 && r != i ensures Holes(b', r) == Holes(atRow, r) {
      DigOne(b, i, c, r);
    }
  }

  // ---------- Runs of player moves ----------

  datatype Move = Move(cell: nat, digit: int)

  /** A move changes its cell if the digit passes the check. */
  ghost function Step(b: Board, m: Move): (b': Board)
    ensures |b'| == |b|
  {
    if m.cell < |b| && m.digit >= 0 && Legal(Sudoku(3), 9, b, m.cell, m.digit) then b[m.cell := m.digit] else b
  }

  ghost function Play(b: Board, ms: seq<Move>): (b': Board)
    ensures |b'| == |b|
  {
    if ms == [] then b else Step(Play(b, ms[..|ms| - 1]), ms[|ms| - 1])
  }

  lemma StepKeepsRules(clues: Board, b: Board, m: Move)
    requires NineByNine(b) && ConflictFree(Sudoku(3), b) && Extends(clues, b)
    requires m.cell < 81 && clues[m.cell] == 0
    ensures NineByNine(Step(b, m)) && ConflictFree(Sudoku(3), Step(b, m)) && Extends(clues, Step(b, m))
  {
    SudokuSymmetric(3);
    if m.digit >= 0 && Legal(Sudoku(3), 9, b, m.cell, m.digit) {
      LegalKeepsConflictFree(Sudoku(3), 9, b, m.cell, m.digit);
    }
  }

  /** A move is taken exactly when its digit passes the check, and then it changes its cell alone. */
  lemma MoveIsTakenIff(b: Board, m: Move)
    requires |b| == 81 && m.cell < 81
    ensures Step(b, m) != b <==> m.digit >= 0 && Legal(Sudoku(3), 9, b, m.cell, m.digit)
    ensures Step(b, m) != b ==> Step(b, m) == b[m.cell := m.digit]
  {
    assert Sudoku(3)(m.cell, m.cell);
    if m.digit >= 0 && Legal(Sudoku(3), 9, b, m.cell, m.digit) {
      assert Step(b, m)[m.cell] != b[m.cell];
    }
  }

  /** The cells before k as in g, the rest as in b. */
  ghost function Halfway(b: Board, g: Board, k: nat): (c: Board)
    requires |b| == |g| && k <= |b|
    ensures |c| == |b|
  {
    g[..k] + b[k..]
  }

  /** Every completion can be played: entering its digits one by one leads from the board to it. */
  lemma {:induction false} CompletionIsPlayed(b: Board, g: Board, k: nat) returns (ms: seq<Move>)
    requires |b| == 81 && Completes(Sudoku(3), 9, b, g) && k <= 81
    ensures forall i :: 0 <= i < |ms| ==> ms[i].cell < 81 && b[ms[i].cell] == 0
    ensures Play(b, ms) == Halfway(b, g, k)
    ensures k == 81 ==> Play(b, ms) == g
  {
    SudokuSymmetric(3);
    if k == 0 {
      ms := [];
    } else {
      ms := CompletionIsPlayed(b, g, k - 1);
      var c := Halfway(b, g, k - 1);
      assert Extends(c, g);
      if b[k - 1] == 0 {
        var m := Move(k - 1, g[k - 1]);
        CompletionIsLegal(Sudoku(3), 9, c, k - 1, g);
        assert (ms + [m])[..|ms|] == ms;
        ms := ms + [m];
      }
      assert Halfway(b, g, k) == c[k - 1 := g[k - 1]];
    }
  }

  /** Over every run of moves on cells that are not clues, the board stays free of conflicts and
      keeps the clues, and the game is won only with a completion of the clues. */
  lemma {:induction false} RunsKeepRules(clues: Board, b: Board, ms: seq<Move>)
    requires NineByNine(b) && ConflictFree(Sudoku(3), b) && Extends(clues, b)
    requires forall i :: 0 <= i < |ms| ==> ms[i].cell < 81 && clues[ms[i].cell] == 0
    ensures NineByNine(Play(b, ms)) && ConflictFree(Sudoku(3), Play(b, ms)) && Extends(clues, Play(b, ms))
    ensures forall kind: Kind :: SumsOk(Play(b, ms), kind) <==> Completes(Sudoku(3), 9, clues, Play(b, ms))
  {
    if ms != [] {
      var n := |ms| - 1;
      RunsKeepRules(clues, b, ms[..n]);
      StepKeepsRules(clues, Play(b, ms[..n]), ms[n]);
    }
    forall kind: Kind ensures SumsOk(Play(b, ms), kind) <==> Completes(Sudoku(3), 9, clues, Play(b, ms)) {
      SumsDecide(Play(b, ms), kind);
    }
  }

  /** What parseInt makes of the player's text. */
  datatype Typed = Number(n: int) | NotANumber

  lemma DugIsConflictFree(full: Board, b: Board)
    requires |full| == 81 && Solved(Sudoku(3), 9, full) && Extends(b, full)
    ensures NineByNine(b) && ConflictFree(Sudoku(3), b)
  {
  }

  class SudokuPage {
    const sudoku: array2<nat>
    const a: array<nat>
    const input: array2<bool>  // the page shows an input element in this cell
    var answer: array2<nat>
    var difficulty: nat
    ghost var touched: set<nat>  // cells written by tryit in the current createSudoku

    ghost predicate Shape()
      reads this
    {
      && sudoku.Length0 == sudoku.Length1 == 9 && a.Length == 9
      && input.Length0 == input.Length1 == 9
      && answer.Length0 == answer.Length1 == 9 && answer != sudoku
    }

    constructor ()
      ensures Shape() && HasAll(9, a[..]) && difficulty == 3
      ensures fresh(sudoku) && fresh(a) && fresh(input) && fresh(answer)
    {
      sudoku := new nat[9, 9]((i, j) => 0);
      a := new nat[9](i requires i >= 0 => i + 1);
      input := new bool[9, 9]((i, j) => false);
      answer := new nat[9, 9]((i, j) => 0);
      difficulty := 3;
      new;
      forall d: nat | 1 <= d <= 9 ensures d in a[..] {
        assert a[..][d - 1] == d;
      }
    }

    // ---------- Checks ----------

    method CheckColumn(col: nat, x: int) returns (ok: bool)
      requires Shape() && col < 9
      ensures ok <==> ColFree(sudoku, col, x)
    {
      for i := 0 to 9
        invariant forall r :: 0 <= r < i ==> sudoku[r, col] != x
      {
        if sudoku[i, col] == x {
          return false;
        }
      }
      return true;
    }

    method CheckRow(row: nat, x: int) returns (ok: bool)
      requires Shape() && row < 9
      ensures ok <==> RowFree(sudoku, row, x)
    {
      for j := 0 to 9
        invariant forall c :: 0 <= c < j ==> sudoku[row, c] != x
      {
        if sudoku[row, j] == x {
          return false;
        }
      }
      return true;
    }

    method CheckBlock(row: nat, col: nat, x: int) returns (ok: bool)
      requires Shape() && row < 9 && col < 9
      ensures ok <==> BlockFree(sudoku, row / 3 * 3, col / 3 * 3, x)
    {
      var startRow, startCol := row / 3 * 3, col / 3 * 3;
      for i := 0 to 3
        invariant forall r, c :: startRow <= r < startRow + i && startCol <= c < startCol + 3 ==> sudoku[r, c] != x
      {
        for j := 0 to 3
          invariant forall r, c :: startRow <= r < startRow + i && startCol <= c < startCol + 3 ==> sudoku[r, c] != x
          invariant forall r, c :: r == startRow + i && startCol <= c < startCol + j ==> sudoku[r, c] != x
        {
          if sudoku[startRow + i, startCol + j] == x {
            return false;
          }
        }
      }
      return true;
    }

    /** check: x is a digit and no cell of the row, column or block holds it, the cell itself
        included. */
    method Check(i: nat, j: nat, x: int) returns (ok: bool)
      requires Shape() && i < 9 && j < 9
      ensures ok <==> x >= 0 && Legal(Sudoku(3), 9, Cells(sudoku), Index(9, i, j), x)
    {
      if 0 < x < 10 {
        LegalOnGrid(sudoku, i, j, x);
        ok := CheckRow(i, x);
        if ok {
          ok := CheckColumn(j, x);
        }
        if ok {
          ok := CheckBlock(i, j, x);
        }
      } else {
        ok := false;
      }
    }

    // ---------- The filler ----------

    method Put(i: nat, j: nat, x: nat)
      requires Shape() && i < 9 && j < 9
      modifies sudoku
      ensures Cells(sudoku) == old(Cells(sudoku))[Index(9, i, j) := x]
    {
      sudoku[i, j] := x;
    }

    /** What a call left behind is what the outcome o says. */
    ghost predicate Ran(before: set<nat>, success: bool, o: Outcome)
      requires Shape()
      reads this, sudoku
    {
      success == o.ok && Cells(sudoku) == o.board && touched == before + o.touched
    }

    /** The outcome o of the whole loop is what was written so far, then the outcome of the rest. */
    ghost predicate Rest(before: set<nat>, o: Outcome, rest: Outcome)
      reads this
    {
      o.ok == rest.ok && o.board == rest.board && before + o.touched == touched + rest.touched
    }

    /** One turn of the retry loop. */
    method TryDigit(i: nat, j: nat, s: nat, t: nat, x: nat) returns (success: bool)
      requires Shape() && i < 9 && j < 9 && s <= 9 && t < 9 && (s == 9 ==> t == 0)
      requires Index(9, s, t) == Index(9, i, j) + 1
      modifies sudoku, this`touched
      ensures var b, p := old(Cells(sudoku)), Index(9, i, j);
        if Legal(Sudoku(3), 9, b, p, x) then
          var o := Fill(Sudoku(3), 9, b[p := x], p + 1, a[..]);
          && success == o.ok && Cells(sudoku) == (if o.ok then o.board else o.board[p := 0])
          && touched == old(touched) + {p} + o.touched
        else
          !success && Cells(sudoku) == b && touched == old(touched)
      decreases 81 - Index(9, i, j), 0
    {
      success := false;
      ghost var b, p := Cells(sudoku), Index(9, i, j);
      var legal := Check(i, j, x);
      if legal {
        Put(i, j, x);
        touched := touched + {p};
        success := TryIt(s, t);
        if !success {
          Put(i, j, 0);
        }
      }
    }

    /** The retry loop of tryit. */
    method TryDigits(i: nat, j: nat, s: nat, t: nat) returns (success: bool)
      requires Shape() && i < 9 && j < 9 && s <= 9 && t < 9 && (s == 9 ==> t == 0)
      requires Index(9, s, t) == Index(9, i, j) + 1
      modifies sudoku, this`touched
      ensures Ran(old(touched), success, FillFrom(Sudoku(3), 9, old(Cells(sudoku)), Index(9, i, j), a[..], 0))
      decreases 81 - Index(9, i, j), 1
    {
      ghost var rel, p, ds := Sudoku(3), Index(9, i, j), a[..];
      ghost var o := FillFrom(rel, 9, Cells(sudoku), p, ds, 0);
      for k := 0 to 9
        invariant Rest(old(touched), o, FillFrom(rel, 9, Cells(sudoku), p, ds, k))
      {
        success := TryDigit(i, j, s, t, a[k]);
        if success {
          return true;
        }
      }
      return false;
    }

    /** tryit, recording the cells it writes. */
    method TryIt(i: nat, j: nat) returns (success: bool)
      requires Shape() && i <= 9 && j < 9 && (i == 9 ==> j == 0)
      modifies sudoku, this`touched
      ensures Ran(old(touched), success, Fill(Sudoku(3), 9, old(Cells(sudoku)), Index(9, i, j), a[..]))
      decreases 81 - Index(9, i, j), 2
    {
      if i >= 9 {
        return true;
      }
      var s, t := i, j + 1;
      if t >= 9 {
        t := t - 9;
        s := s + 1;
      }
      if sudoku[i, j] != 0 {
        success := TryIt(s, t);
        if success {
          return true;
        }
      }
      success := TryDigits(i, j, s, t);
    }

    // ---------- Making a puzzle ----------

    /** a.sort with a random comparator: some reordering. */
    method Shuffle()
      requires a.Length == 9
      modifies a
      ensures multiset(a[..]) == multiset(old(a[..]))
    {
      for i := 0 to 9
        invariant multiset(a[..]) == multiset(old(a[..]))
      {
        var r := RandomBelow(9 - i);
        a[i], a[i + r] := a[i + r], a[i];
      }
    }

    /** Writes the next digit into block n. */
    method SetPlace(ghost before: Board, n: nat, ghost order: seq<nat>, i: nat, j: nat)
      requires Shape() && 1 <= n <= 9 && i < 3 && j < 3
      requires a[..] == order && BlockSet(before, Cells(sudoku), n - 1, order, i * 3 + j)
      modifies sudoku
      ensures BlockSet(before, Cells(sudoku), n - 1, order, i * 3 + j + 1)
    {
      var startRow, startCol := (n - 1) / 3 * 3, (n - 1) % 3 * 3;
      BlockSetNext(before, Cells(sudoku), n - 1, order, i, j);
      Put(startRow + i, startCol + j, a[i * 3 + j]);
    }

    /** Writes the digits into block n, numbered from 1, in a random order. */
    method SetBlockRandomly(n: nat)
      requires Shape() && 1 <= n <= 9 && HasAll(9, a[..])
      modifies sudoku, a
      ensures HasAll(9, a[..])
      ensures BlockSet(old(Cells(sudoku)), Cells(sudoku), n - 1, a[..], 9)
    {
      ghost var before, shuffled := Cells(sudoku), a[..];
      Shuffle();
      ReorderHasAll(9, shuffled, a[..]);
      ghost var order := a[..];
      for i := 0 to 3
        invariant a[..] == order && BlockSet(before, Cells(sudoku), n - 1, order, i * 3)
      {
        for j := 0 to 3
          invariant a[..] == order && BlockSet(before, Cells(sudoku), n - 1, order, i * 3 + j)
        {
          SetPlace(before, n, order, i, j);
        }
      }
    }

    method Clear()
      requires Shape()
      modifies sudoku
      ensures forall k :: 0 <= k < 81 ==> Cells(sudoku)[k] == 0
    {
      for i := 0 to 9
        invariant forall k :: 0 <= k < i * 9 ==> Cells(sudoku)[k] == 0
      {
        for j := 0 to 9
          invariant forall k :: 0 <= k < i * 9 + j ==> Cells(sudoku)[k] == 0
        {
          Put(i, j, 0);
        }
      }
    }

    /** Seeds three blocks and lets tryit fill the rest. */
    method CreateSudoku() returns (success: bool, ghost seeds: Board)
      requires Shape() && HasAll(9, a[..])
      modifies sudoku, a, this`touched
      ensures HasAll(9, a[..]) && Seeded(seeds)
      ensures forall k: nat :: k < 81 ==> (seeds[k] != 0 <==> k / 9 / 3 + k % 9 / 3 == 2)
      ensures success <==> exists g :: Completes(Sudoku(3), 9, seeds, g)
      ensures success ==> Completes(Sudoku(3), 9, seeds, Cells(sudoku))
      ensures !success ==> Cells(sudoku) == seeds
      ensures forall k :: k in touched ==> k < 81 && seeds[k] == 0
    {
      Clear();
      ghost var b0 := Cells(sudoku);
      SetBlockRandomly(3);
      ghost var b1, a1 := Cells(sudoku), a[..];
      SetBlockRandomly(5);
      ghost var b2, a2 := Cells(sudoku), a[..];
      SetBlockRandomly(7);
      seeds := Cells(sudoku);
      ThreeBlocksSeed(b0, b1, b2, seeds, a1, a2, a[..]);
      ghost var last := a[..];
      Shuffle();
      ReorderHasAll(9, last, a[..]);
      touched := {};
      success := TryIt(0, 0);
      SeededFillIff(seeds, a[..]);
      forall k: nat | k < 81 ensures seeds[k] != 0 <==> k / 9 / 3 + k % 9 / 3 == 2 {
        SeedsStand(seeds, k);
      }
    }

    static method Copy(arr: array2<nat>) returns (c: array2<nat>)
      requires arr.Length0 == arr.Length1 == 9
      ensures fresh(c) && c.Length0 == c.Length1 == 9 && Cells(c) == Cells(arr)
    {
      c := new nat[9, 9]((i, j) => 0);
      for i := 0 to 9
        invariant forall r, s :: 0 <= r < i && 0 <= s < 9 ==> c[r, s] == arr[r, s]
      {
        for j := 0 to 9
          invariant forall r, s :: 0 <= r < i && 0 <= s < 9 ==> c[r, s] == arr[r, s]
          invariant forall s :: 0 <= s < j ==> c[i, s] == arr[i, s]
        {
          c[i, j] := arr[i, j];
        }
      }
    }

    ghost predicate DugRows(full: Board, rows: nat)
      requires Shape() && |full| == 81
      reads this, sudoku
    {
      && Extends(Cells(sudoku), full)
      && (forall i: nat :: i < rows && i < 9 ==>
            (difficulty > 0 ==> 1 <= |Holes(Cells(sudoku), i)|) && |Holes(Cells(sudoku), i)| <= difficulty + 1)
      && (forall i: nat :: rows <= i < 9 ==> |Holes(Cells(sudoku), i)| == 0)
    }

    /** The loop of one row: its bound is drawn again at every test. */
    method DigRow(i: nat, ghost full: Board, ghost drawn: seq<seq<nat>>) returns (ghost cols: seq<nat>)
      requires Shape() && i < 9 && |full| == 81 && DugRows(full, i)
      requires |drawn| == 9 && Cells(sudoku) == Emptied(full, drawn) && drawn[i] == []
      modifies sudoku
      ensures DugRows(full, i + 1)
      ensures difficulty <= |cols| <= difficulty + 1 && forall c :: c in cols ==> c < 9
      ensures Cells(sudoku) == Emptied(full, drawn[i := cols])
    {
      ghost var atRow := Cells(sudoku);
      cols := [];
      assert drawn[i := []] == drawn;
      var j := 0;
      var extra := RandomBelow(2);
      while j < difficulty + extra
        invariant j == |cols| <= difficulty + 1 && extra <= 1
        invariant RowHoles(atRow, i, j, Cells(sudoku))
        invariant Extends(Cells(sudoku), full) && Cells(sudoku) == Emptied(full, drawn[i := cols])
        invariant forall c :: c in cols ==> c < 9
        decreases difficulty + 1 - j
      {
        var c := RandomBelow(9);
        RowHolesNext(atRow, i, j, Cells(sudoku), c);
        EmptyOne(full, drawn, i, cols, c);
        Put(i, c, 0);
        cols := cols + [c];
        j := j + 1;
        extra := RandomBelow(2);
      }
    }

    /** Empties some cells of every row at random; a cell may be drawn twice. `drawn` lists the columns
        drawn for each row. */
    method DigHoles() returns (ghost drawn: seq<seq<nat>>)
      requires Shape() && Full(Cells(sudoku))
      modifies sudoku
      ensures DugRows(old(Cells(sudoku)), 9)
      ensures DrawnRows(drawn, difficulty, 9) && Cells(sudoku) == Emptied(old(Cells(sudoku)), drawn)
      ensures forall i: nat :: i < 9 ==> Holes(Cells(sudoku), i) == set c | c in drawn[i]
    {
      ghost var full := Cells(sudoku);
      forall r: nat | r < 9 { FullHasNoHoles(full, r); }
      drawn := [[], [], [], [], [], [], [], [], []];
      for i := 0 to 9
        invariant DugRows(full, i)
        invariant DrawnRows(drawn, difficulty, i) && Cells(sudoku) == Emptied(full, drawn)
        invariant forall r :: i <= r < 9 ==> drawn[r] == []
      {
        ghost var cols := DigRow(i, full, drawn);
        drawn := drawn[i := cols];
      }
      forall i: nat | i < 9 { HolesAreDrawn(full, drawn, i); }
    }

    // ---------- The test by sums ----------

    lemma LineAt(u: nat, i: nat)
      requires Shape() && u < 9 && i < 9
      ensures UnitValues(3, Cells(sudoku), InRow, u)[i] == sudoku[u, i]
      ensures UnitValues(3, Cells(sudoku), InCol, u)[i] == sudoku[i, u]
    {
      CellAtIndex(sudoku, u, i);
      CellAtIndex(sudoku, i, u);
    }

    lemma BlockAt(u: nat, i: nat, j: nat, p: nat)
      requires Shape() && u < 9 && i < 3 && j < 3 && p == i * 3 + j
      ensures p < 9 && u / 3 * 3 + i < 9
      ensures UnitValues(3, Cells(sudoku), InBox, u)[p] == sudoku[u / 3 * 3 + i, u % 3 * 3 + j]
    {
      BlockCell(u, i, j, p);
      CellAtIndex(sudoku, u / 3 * 3 + i, u % 3 * 3 + j);
    }

    lemma BlockShows(u: nat, top: nat, left: nat, v: seq<nat>)
      requires Shape() && u < 9 && top == u / 3 * 3 && left == u % 3 * 3
      requires v == UnitValues(3, Cells(sudoku), InBox, u)
      ensures top + 3 <= 9 && left + 3 <= 9 && |v| == 9
      ensures forall r, c :: top <= r < top + 3 && left <= c < left + 3 ==>
                sudoku[r, c] == v[(r - top) * 3 + (c - left)]
    {
      forall r, c | top <= r < top + 3 && left <= c < left + 3
        ensures sudoku[r, c] == v[(r - top) * 3 + (c - left)]
      {
        BlockAt(u, r - top, c - left, (r - top) * 3 + (c - left));
      }
    }

    method ColumnOK(col: nat) returns (ok: bool)
      requires Shape() && col < 9
      ensures ok <==> Sum(UnitValues(3, Cells(sudoku), InCol, col)) == 45
    {
      ghost var v := UnitValues(3, Cells(sudoku), InCol, col);
      var sum := 0;
      for i := 0 to 9
        invariant sum == Sum(v[..i])
      {
        LineAt(col, i);
        SumNext(v, i);
        sum := sum + sudoku[i, col];
      }
      assert v[..9] == v;
      return sum == 45;
    }

    method RowOK(row: nat) returns (ok: bool)
      requires Shape() && row < 9
      ensures ok <==> Sum(UnitValues(3, Cells(sudoku), InRow, row)) == 45
    {
      ghost var v := UnitValues(3, Cells(sudoku), InRow, row);
      var sum := 0;
      for j := 0 to 9
        invariant sum == Sum(v[..j])
      {
        LineAt(row, j);
        SumNext(v, j);
        sum := sum + sudoku[row, j];
      }
      assert v[..9] == v;
      return sum == 45;
    }

    /** The loops of blockOK for the block at (startRow, startCol), which shows the digits of v. */
    method SumsTo45(startRow: nat, startCol: nat, ghost v: seq<nat>) returns (ok: bool)
      requires Shape() && startRow + 3 <= 9 && startCol + 3 <= 9 && |v| == 9
      requires forall r, c :: startRow <= r < startRow + 3 && startCol <= c < startCol + 3 ==>
                 sudoku[r, c] == v[(r - startRow) * 3 + (c - startCol)]
      ensures ok <==> Sum(v) == 45
    {
      var sum := 0;
      ghost var p: nat := 0;
      for i := 0 to 3
        invariant p == i * 3 && sum == Sum(v[..p])
      {
        for j := 0 to 3
          invariant p == i * 3 + j && sum == Sum(v[..p])
        {
          SumNext(v, p);
          sum := sum + sudoku[startRow + i, startCol + j];
          p := p + 1;
        }
      }
      assert v[..9] == v;
      return sum == 45;
    }

    method BlockOK(n: nat) returns (ok: bool)
      requires Shape() && 1 <= n <= 9
      ensures ok <==> Sum(UnitValues(3, Cells(sudoku), InBox, n - 1)) == 45
    {
      var startRow, startCol := (n - 1) / 3 * 3, (n - 1) % 3 * 3;
      ghost var v := UnitValues(3, Cells(sudoku), InBox, n - 1);
      BlockShows(n - 1, startRow, startCol, v);
      ok := SumsTo45(startRow, startCol, v);
    }

    method ColumnsOK() returns (ok: bool)
      requires Shape()
      ensures ok <==> SumsOk(Cells(sudoku), InCol)
    {
      for j := 0 to 9
        invariant forall u: nat :: u < j ==> Sum(UnitValues(3, Cells(sudoku), InCol, u)) == 45
      {
        var fine := ColumnOK(j);
        if !fine {
          return false;
        }
      }
      return true;
    }

    method RowsOK() returns (ok: bool)
      requires Shape()
      ensures ok <==> SumsOk(Cells(sudoku), InRow)
    {
      for i := 0 to 9
        invariant forall u: nat :: u < i ==> Sum(UnitValues(3, Cells(sudoku), InRow, u)) == 45
      {
        var fine := RowOK(i);
        if !fine {
          return false;
        }
      }
      return true;
    }

    method BlocksOK() returns (ok: bool)
      requires Shape()
      ensures ok <==> SumsOk(Cells(sudoku), InBox)
    {
      for i := 1 to 10
        invariant forall u: nat :: u < i - 1 ==> Sum(UnitValues(3, Cells(sudoku), InBox, u)) == 45
      {
        var fine := BlockOK(i);
        if !fine {
          return false;
        }
      }
      return true;
    }

    /** The test for the end of the game: on a board without conflicts it is exact. */
    method SudokuOK() returns (ok: bool)
      requires Shape() && NineByNine(Cells(sudoku))
      ensures ok <==> forall kind: Kind :: SumsOk(Cells(sudoku), kind)
      ensures ConflictFree(Sudoku(3), Cells(sudoku)) ==> (ok <==> Solved(Sudoku(3), 9, Cells(sudoku)))
    {
      ok := ColumnsOK();
      if ok {
        ok := RowsOK();
      }
      if ok {
        ok := BlocksOK();
      }
      SolvedIffSumsAndNoConflict(Cells(sudoku));
    }

    // ---------- Playing ----------

    /** The clues the page shows: cells without an input element. */
    ghost function Clues(): (b: Board)
      requires Shape()
      reads this, answer, input
      ensures |b| == 81
    {
      seq(81, k requires 0 <= k < 81 && Shape() reads this, answer, input =>
        if input[k / 9, k % 9] then 0 else Cells(answer)[k])
    }

    /** A game in progress: no conflicts, every clue as in the answer. */
    ghost predicate Playing()
      reads this, sudoku, answer, input
    {
      && Shape() && Solved(Sudoku(3), 9, Cells(answer))
      && NineByNine(Cells(sudoku)) && ConflictFree(Sudoku(3), Cells(sudoku)) && Extends(Clues(), Cells(sudoku))
    }

    /** createGame with a number of attempts at most: a further one is made exactly when the seeds drawn last
        have no completion. */
    method CreateGame(attempts: nat)
      returns (made: bool, ghost drawn: seq<Board>, ghost dug: seq<seq<nat>>)
      requires Shape() && HasAll(9, a[..])
      modifies sudoku, a, this`touched, this`answer
      ensures Shape() && HasAll(9, a[..])
      ensures forall i :: 0 <= i < |drawn| ==>
                Seeded(drawn[i]) && (Hopeless(Sudoku(3), 9, drawn[i]) <==> !made || i < |drawn| - 1)
      ensures if made then 0 < |drawn| <= attempts else |drawn| == attempts
      ensures made ==> fresh(answer) && Completes(Sudoku(3), 9, drawn[|drawn| - 1], Cells(answer))
      ensures made ==> DugRows(Cells(answer), 9)
      ensures made ==> DrawnRows(dug, difficulty, 9) && Cells(sudoku) == Emptied(Cells(answer), dug)
    {
      made, drawn, dug := false, [], [];
      for n := 0 to attempts
        invariant Shape() && HasAll(9, a[..])
        invariant !made && |drawn| == n
        invariant forall i :: 0 <= i < |drawn| ==> Seeded(drawn[i]) && Hopeless(Sudoku(3), 9, drawn[i])
      {
        ghost var seeds;
        made, seeds := CreateSudoku();
        drawn := drawn + [seeds];
        if made {
          break;
        }
      }
      if made {
        answer := Copy(sudoku);
        dug := DigHoles();
      }
    }

    /** Cells that are empty get an input element. */
    method SetTable()
      requires Shape()
      modifies input
      ensures forall i, j :: 0 <= i < 9 && 0 <= j < 9 ==> (input[i, j] <==> sudoku[i, j] == 0)
    {
      for i := 0 to 9
        invariant forall r, c :: 0 <= r < i && 0 <= c < 9 ==> (input[r, c] <==> sudoku[r, c] == 0)
      {
        for j := 0 to 9
          invariant forall r, c :: 0 <= r < i && 0 <= c < 9 ==> (input[r, c] <==> sudoku[r, c] == 0)
          invariant forall c :: 0 <= c < j ==> (input[i, c] <==> sudoku[i, c] == 0)
        {
          input[i, j] := sudoku[i, j] == 0;
        }
      }
    }

    /** Makes a puzzle and shows it. */
    method Change(attempts: nat) returns (made: bool)
      requires Shape() && HasAll(9, a[..])
      modifies sudoku, a, input, this`touched, this`answer
      ensures Shape() && HasAll(9, a[..])
      ensures made ==> Playing() && DugRows(Cells(answer), 9)
      ensures made ==> forall k :: 0 <= k < 81 ==> Clues()[k] == Cells(sudoku)[k]
    {
      ghost var drawn, dug;
      made, drawn, dug := CreateGame(attempts);
      if made {
        SetTable();
        DugIsConflictFree(Cells(answer), Cells(sudoku));
      }
    }

    /** Writes a number that passes the check. */
    method PutLegal(i: nat, j: nat, number: int)
      requires Shape() && i < 9 && j < 9
      modifies sudoku
      ensures Cells(sudoku) == Step(old(Cells(sudoku)), Move(Index(9, i, j), number))
    {
      var legal := Check(i, j, number);
      if legal {
        Put(i, j, number);
      }
    }

    /** An input element shows no clue. */
    lemma InputIsNoClue(i: nat, j: nat)
      requires Shape() && i < 9 && j < 9 && input[i, j]
      ensures Index(9, i, j) < 81 && Clues()[Index(9, i, j)] == 0
    {
      CellAt(9, i, j);
      CellInBoard(9, i, j);
    }

    /** Writes a number that passes the check into an input element of a game. */
    method Enter(i: nat, j: nat, number: int)
      requires Playing() && i < 9 && j < 9 && input[i, j]
      modifies sudoku
      ensures Playing() && Cells(sudoku) == Step(old(Cells(sudoku)), Move(Index(9, i, j), number))
    {
      ghost var clues, b, m := Clues(), Cells(sudoku), Move(Index(9, i, j), number);
      InputIsNoClue(i, j);
      StepKeepsRules(clues, b, m);
      PutLegal(i, j, number);
      assert Clues() == clues && Cells(sudoku) == Step(b, m);
    }

    /** The player leaves a number in an input element. */
    method OnInput(i: nat, j: nat, value: Typed) returns (over: bool)
      requires Playing() && i < 9 && j < 9 && input[i, j]
      modifies sudoku
      ensures Playing()
      ensures Cells(sudoku) ==
              if value.Number? then Step(old(Cells(sudoku)), Move(Index(9, i, j), value.n)) else old(Cells(sudoku))
      ensures over <==> Completes(Sudoku(3), 9, Clues(), Cells(sudoku))
    {
      if value.Number? {
        Enter(i, j, value.n);
      }
      over := SudokuOK();
    }
  }
}
