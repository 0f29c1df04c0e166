/**
 Boards and the rules they must obey. A board is a flat, row-major sequence of cells in which
 0 marks an empty cell. The search theory below knows the rules only through a relation between
 cell indices, so that both Sudoku engines can use it; `Sudoku(n)` is the relation they use.
 */
module Grid {
  type Board = seq<nat>

  type Pos = x: nat | 0 < x witness 1

  type Relation = (nat, nat) -> bool

  // ---------- Rules over an arbitrary relation ----------

  ghost predicate Symmetric(rel: Relation) {
    forall k: nat, l: nat :: rel(k, l) ==> rel(l, k)
  }

  /** No two related cells hold the same digit. */
  ghost predicate ConflictFree(rel: Relation, b: Board) {
    forall k: nat, l: nat :: k < l < |b| && rel(k, l) && b[k] != 0 ==> b[k] != b[l]
  }

  ghost predicate InRange(s: nat, b: Board) {
    forall k :: 0 <= k < |b| ==> b[k] <= s
  }

  /** Digit d may be written in cell k: no related cell (k itself included) holds it. */
  ghost predicate Legal(rel: Relation, s: nat, b: Board, k: nat, d: nat) {
    1 <= d <= s && forall l: nat :: l < |b| && rel(k, l) ==> b[l] != d
  }

  ghost predicate Full(b: Board) {
    forall k :: 0 <= k < |b| ==> b[k] != 0
  }

  ghost predicate Solved(rel: Relation, s: nat, b: Board) {
    ConflictFree(rel, b) && InRange(s, b) && Full(b)
  }

  /** g agrees with every filled cell of b. */
  ghost predicate Extends(b: Board, g: Board) {
    |b| == |g| && forall k :: 0 <= k < |b| && b[k] != 0 ==> g[k] == b[k]
  }

  ghost predicate Completes(rel: Relation, s: nat, b: Board, g: Board) {
    Extends(b, g) && Solved(rel, s, g)
  }

  ghost predicate Hopeless(rel: Relation, s: nat, b: Board) {
    forall g: Board :: !Completes(rel, s, b, g)
  }

  lemma CompletionIsLegal(rel: Relation, s: nat, b: Board, k: nat, g: Board)
    requires Symmetric(rel) && Completes(rel, s, b, g) && k < |b| && b[k] == 0
    ensures Legal(rel, s, b, k, g[k])
  {
    forall l: nat | l < |b| && rel(k, l) ensures b[l] != g[k] {
      assert rel(l, k);
    }
  }

  /** The completeness step of both searches: an empty cell whose every legal digit is hopeless
      makes the board hopeless. */
  lemma AllDigitsHopeless(rel: Relation, s: nat, b: Board, k: nat)
    requires Symmetric(rel) && k < |b| && b[k] == 0
    requires forall d :: Legal(rel, s, b, k, d) ==> Hopeless(rel, s, b[k := d])
    ensures Hopeless(rel, s, b)
  {
    forall g: Board | Completes(rel, s, b, g) ensures false {
      CompletionIsLegal(rel, s, b, k, g);
      assert Completes(rel, s, b[k := g[k]], g);
    }
  }

  lemma LegalKeepsConflictFree(rel: Relation, s: nat, b: Board, k: nat, d: nat)
    requires Symmetric(rel) && ConflictFree(rel, b) && InRange(s, b)
    requires k < |b| && Legal(rel, s, b, k, d)
    ensures ConflictFree(rel, b[k := d]) && InRange(s, b[k := d])
  {
  }

  // ---------- The Sudoku relation ----------

  function Size(n: Pos): (s: Pos) {
    n * n
  }

  function Row(s: Pos, k: nat): nat {
    k / s
  }

  function Col(s: Pos, k: nat): nat {
    k % s
  }

  /** The cell in row r and column c. */
  function Index(s: nat, r: nat, c: nat): nat {
    r * s + c
  }

  predicate SameRow(s: Pos, k: nat, l: nat) {
    Row(s, k) == Row(s, l)
  }

  predicate SameCol(s: Pos, k: nat, l: nat) {
    Col(s, k) == Col(s, l)
  }

  predicate SameBox(n: Pos, k: nat, l: nat) {
    var s := Size(n);
    Row(s, k) / n == Row(s, l) / n && Col(s, k) / n == Col(s, l) / n
  }

  predicate Related(n: Pos, k: nat, l: nat) {
    SameRow(Size(n), k, l) || SameCol(Size(n), k, l) || SameBox(n, k, l)
  }

  function Sudoku(n: Pos): (rel: Relation) {
    (k: nat, l: nat) => Related(n, k, l)
  }

  lemma SudokuSymmetric(n: Pos)
    ensures Symmetric(Sudoku(n)) && forall k: nat :: Sudoku(n)(k, k)
  {
  }

  // ---------- Row-major arithmetic ----------

  lemma DivMod(k: nat, s: Pos)
    ensures k == (k / s) * s + k % s
  {
  }

  lemma MulMonotone(p: nat, q: nat, s: nat)
    requires p <= q
    ensures p * s <= q * s
  {
  }

  /** Quotient and remainder are unique. */
  lemma DivModUnique(q: nat, m: nat, r: nat, c: nat, s: Pos)
    requires m < s && c < s && q * s + m == r * s + c
    ensures q == r && m == c
  {
    if q > r {
      MulMonotone(r + 1, q, s);
    } else if q < r {
      MulMonotone(q + 1, r, s);
    }
  }

  lemma CellAt(s: Pos, r: nat, c: nat)
    requires c < s
    ensures Row(s, Index(s, r, c)) == r && Col(s, Index(s, r, c)) == c
  {
    var k := r * s + c;
    DivMod(k, s);
    DivModUnique(k / s, k % s, r, c, s);
  }

  lemma CellInBoard(s: Pos, r: nat, c: nat)
    requires r < s && c < s
    ensures Index(s, r, c) < s * s
  {
    MulMonotone(r + 1, s, s);
  }

  lemma CellSplit(s: Pos, k: nat)
    ensures k == Index(s, Row(s, k), Col(s, k))
    ensures k < s * s ==> Row(s, k) < s
  {
    DivMod(k, s);
    if k / s >= s {
      MulMonotone(s, k / s, s);
    }
  }

  /** The end of one row is the start of the next. */
  lemma RowEnds(s: Pos, i: nat)
    ensures i * s + s == (i + 1) * s
    ensures i < s ==> (i + 1) * s <= s * s
  {
    if i < s {
      MulMonotone(i + 1, s, s);
    }
  }

  lemma SameCell(s: Pos, k: nat, l: nat)
    requires SameRow(s, k, l) && SameCol(s, k, l)
    ensures k == l
  {
    CellSplit(s, k);
    CellSplit(s, l);
  }
}
