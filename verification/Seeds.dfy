/** The 9x9 boards of sudoku.js: seeded blocks, the test by sums, and a board that tryit spoils. */
module Seeds {
  import opened Grid
  import opened Counting
  import opened Units
  import opened Filler

  ghost predicate NineByNine(b: Board) {
    |b| == 81 && InRange(9, b)
  }

  // ---------- Seeded boards ----------

  /** Blocks 3, 5 and 7 in the numbering of sudoku.js, as box numbers from 0. */
  ghost predicate SeedBox(u: nat) {
    u == 2 || u == 4 || u == 6
  }

  ghost predicate Seeded(b: Board) {
    && NineByNine(b)
    && (forall u: nat :: SeedBox(u) ==> HasAll(9, UnitValues(3, b, InBox, u)))
    && (forall k: nat :: k < 81 && !SeedBox(UnitOf(3, InBox, k)) ==> b[k] == 0)
  }

  /** A cell of a full block takes no digit at all. */
  lemma FullBoxPins(b: Board, k: nat)
    requires NineByNine(b) && k < 81 && HasAll(9, UnitValues(3, b, InBox, UnitOf(3, InBox, k)))
    ensures Pinned(Sudoku(3), 9, b, k)
  {
    forall d: nat | 1 <= d <= 9 ensures !Legal(Sudoku(3), 9, b, k, d) {
      assert d in UnitValues(3, b, InBox, UnitOf(3, InBox, k));
      var l := UnitHas(3, b, InBox, k, d);
      assert Sudoku(3)(k, l);
    }
  }

  /** The three seeded blocks share no row and no column. */
  lemma SeedBoxesApart(k: nat, l: nat)
    requires k < 81 && l < 81 && Related(3, k, l)
    requires SeedBox(UnitOf(3, InBox, k)) && SeedBox(UnitOf(3, InBox, l))
    ensures UnitOf(3, InBox, k) == UnitOf(3, InBox, l)
  {
  }

  lemma SeededDiffers(b: Board, k: nat, l: nat)
    requires Seeded(b) && k < 81 && l < 81 && k != l && Related(3, k, l) && b[k] != 0 && b[l] != 0
    ensures b[k] != b[l]
  {
    SeedBoxesApart(k, l);
    var u := UnitOf(3, InBox, k);
    PermutationIff(9, UnitValues(3, b, InBox, u));
    SameUnitIff(3, InBox, k, l);
    PlacesDiffer(3, InBox, k, l);
    ValueInUnit(3, b, InBox, k);
    ValueInUnit(3, b, InBox, l);
  }

  lemma SeedsAreFilled(b: Board, k: nat)
    requires Seeded(b) && k < 81
    ensures b[k] != 0 <==> SeedBox(UnitOf(3, InBox, k))
  {
    var u := UnitOf(3, InBox, k);
    ValueInUnit(3, b, InBox, k);
    if SeedBox(u) {
      PermutationIff(9, UnitValues(3, b, InBox, u));
    }
  }

  /** The seeded blocks are those on the falling diagonal of bands and stacks from the upper right corner. */
  lemma SeedsStand(b: Board, k: nat)
    requires Seeded(b) && k < 81
    ensures b[k] != 0 <==> k / 9 / 3 + k % 9 / 3 == 2
    ensures b[k] != 0 <==> SeedBox(UnitOf(3, InBox, k))
  {
    SeedsAreFilled(b, k);
  }

  /** Seeding meets what the filler needs to be exact. */
  lemma SeededIsReady(b: Board)
    requires Seeded(b)
    ensures ConflictFree(Sudoku(3), b) && FilledArePinned(Sudoku(3), 9, b, 0)
  {
    forall k: nat, l: nat | k < l < |b| && Sudoku(3)(k, l) && b[k] != 0 ensures b[k] != b[l] {
      if b[l] != 0 {
        SeededDiffers(b, k, l);
      }
    }
    forall l: nat | l < |b| && b[l] != 0 ensures Pinned(Sudoku(3), 9, b, l) {
      assert SeedBox(UnitOf(3, InBox, l));
      FullBoxPins(b, l);
    }
  }

  /** On a seeded board tryit succeeds exactly when the seeds can be completed, and it writes no
      seeded cell on any path of its search. */
  lemma SeededFillIff(b: Board, ds: seq<nat>)
    requires Seeded(b) && AllDigits(9, ds)
    ensures var o := Fill(Sudoku(3), 9, b, 0, ds);
      && (o.ok <==> exists g :: Completes(Sudoku(3), 9, b, g))
      && (o.ok ==> Completes(Sudoku(3), 9, b, o.board))
      && (!o.ok ==> o.board == b)
      && (forall k :: k in o.touched ==> k < 81 && !SeedBox(UnitOf(3, InBox, k)))
  {
    SudokuSymmetric(3);
    SeededIsReady(b);
    FillExact(Sudoku(3), 9, b, 0, ds);
    forall k: nat | k < 81 { SeedsAreFilled(b, k); }
  }

  /** The three blocks of a grid. */
  ghost function SeedsOf(g: Board): (b: Board)
    requires |g| == 81
  {
    seq(81, k requires 0 <= k < 81 => if SeedBox(UnitOf(3, InBox, k)) then g[k] else 0)
  }

  /** createSudoku can succeed: three blocks of any solved grid are seeds that have a completion. */
  lemma SolvedGridGivesSeeds(g: Board)
    requires |g| == 81 && Solved(Sudoku(3), 9, g)
    ensures Seeded(SeedsOf(g)) && Completes(Sudoku(3), 9, SeedsOf(g), g)
  {
    var b := SeedsOf(g);
    SolvedIffPermutations(3, g);
    forall u: nat | SeedBox(u) ensures HasAll(9, UnitValues(3, b, InBox, u)) {
      forall i: nat | i < 9 { UnitCellOk(3, InBox, u, i); }
      assert UnitValues(3, b, InBox, u) == UnitValues(3, g, InBox, u);
      assert UnitsComplete(3, g, InBox);
    }
  }

  // ---------- Boards that tryit spoils ----------

  /** Column c of a grid without its first cell, and digit d in cell k. */
  function ClueBoard(g: Board, c: nat, k: nat, d: nat): (b: Board)
    requires |g| == 81
  {
    seq(81, l requires 0 <= l < 81 => if l == k then d else if l >= 9 && l % 9 == c then g[l] else 0)
  }

  lemma ColumnHolds(g: Board, c: nat, d: nat) returns (l: nat)
    requires |g| == 81 && Solved(Sudoku(3), 9, g) && c < 9 && 1 <= d <= 9
    ensures l < 81 && l % 9 == c && g[l] == d
  {
    SolvedIffPermutations(3, g);
    assert UnitsComplete(3, g, InCol);
    l := UnitHas(3, g, InCol, c, d);
  }

  /** Some other cell of the first row holds the digit missing in column c: no digit fits its first cell. */
  lemma DeadCell(g: Board, b: Board, c: nat, k: nat)
    requires |g| == 81 && Solved(Sudoku(3), 9, g)
    requires |b| == 81 && k < 9 && c < 9 && b[k] == g[c]
    requires forall l: nat :: 9 <= l < 81 && l % 9 == c ==> b[l] == g[l]
    ensures Pinned(Sudoku(3), 9, b, c)
  {
    forall d: nat | 1 <= d <= 9 ensures !Legal(Sudoku(3), 9, b, c, d) {
      var l := ColumnHolds(g, c, d);
      assert Sudoku(3)(c, k) && Sudoku(3)(c, l);
    }
  }

  /** Column 2 below an empty cell, and left of that cell the digit it would need. */
  function CornerBoard(g: Board): (b: Board)
    requires |g| == 81
  {
    ClueBoard(g, 1, 0, g[1])
  }

  lemma CornerBoardFacts(g: Board)
    requires |g| == 81 && Solved(Sudoku(3), 9, g)
    ensures ConflictFree(Sudoku(3), CornerBoard(g)) && InRange(9, CornerBoard(g))
    ensures Pinned(Sudoku(3), 9, CornerBoard(g), 1)
    ensures Completes(Sudoku(3), 9, CornerBoard(g)[0 := 0], g)
  {
    var b := CornerBoard(g);
    DeadCell(g, b, 1, 0);
    forall k: nat, l: nat | k < l < 81 && Sudoku(3)(k, l) && b[k] != 0 && b[l] != 0 ensures b[k] != b[l] {
      assert b[l] == g[l];
      if k == 0 {
        assert Sudoku(3)(1, l);
      }
    }
  }

  /** tryit on boards that are not pinned, at the entry createSudoku uses: for every solved grid and every
      order of the digits it reports success on a board that cannot be completed, and loses its first clue. */
  lemma UnpinnedClueIsLost(g: Board, ds: seq<nat>)
    requires |g| == 81 && Solved(Sudoku(3), 9, g) && AllDigits(9, ds)
    ensures ConflictFree(Sudoku(3), CornerBoard(g)) && Hopeless(Sudoku(3), 9, CornerBoard(g))
    ensures var o := Fill(Sudoku(3), 9, CornerBoard(g), 0, ds); o.ok && !Extends(CornerBoard(g), o.board)
  {
    SudokuSymmetric(3);
    CornerBoardFacts(g);
    AllDigitsHopeless(Sudoku(3), 9, CornerBoard(g), 1);
    WrongClueIsLost(Sudoku(3), 9, CornerBoard(g), 0, 0, ds, g);
  }

  /** Column 3 below an empty cell, and a right clue left of that cell. */
  function NextBoard(g: Board): (b: Board)
    requires |g| == 81
  {
    ClueBoard(g, 2, 1, g[1])
  }

  /** Cells of the first two columns change places. */
  function Mirror(k: nat): nat {
    if k % 9 == 0 then k + 1 else if k % 9 == 1 then k - 1 else k
  }

  lemma MirrorCell(k: nat)
    requires k < 81
    ensures Mirror(k) < 81 && Mirror(k) / 9 == k / 9 && Mirror(k) % 9 == Mirror(k % 9)
    ensures Mirror(k % 9) / 3 == k % 9 / 3
  {
  }

  lemma MirrorRelated(k: nat, l: nat)
    requires k < l < 81 && Related(3, k, l)
    ensures Mirror(k) < 81 && Mirror(l) < 81 && Mirror(k) != Mirror(l)
    ensures Related(3, Mirror(k), Mirror(l)) && Related(3, Mirror(l), Mirror(k))
  {
    MirrorCell(k);
    MirrorCell(l);
  }

  /** The grid with its first two columns exchanged. */
  function Mirrored(g: Board): (b: Board)
    requires |g| == 81
  {
    seq(81, k requires 0 <= k < 81 => g[Mirror(k)])
  }

  lemma MirroredSolved(g: Board)
    requires |g| == 81 && Solved(Sudoku(3), 9, g)
    ensures Solved(Sudoku(3), 9, Mirrored(g))
  {
    var b := Mirrored(g);
    forall k: nat, l: nat | k < l < 81 && Sudoku(3)(k, l) ensures b[k] != b[l] {
      MirrorRelated(k, l);
      var p, q := Mirror(k), Mirror(l);
      assert Sudoku(3)(p, q) && Sudoku(3)(q, p);
    }
  }

  lemma NextBoardFacts(g: Board)
    requires |g| == 81 && Solved(Sudoku(3), 9, g)
    ensures ConflictFree(Sudoku(3), NextBoard(g)) && Completes(Sudoku(3), 9, NextBoard(g), g)
    ensures Legal(Sudoku(3), 9, NextBoard(g), 0, g[2])
    ensures var e := NextBoard(g)[1 := 0];
      && ConflictFree(Sudoku(3), e) && e[0] == 0 && Completes(Sudoku(3), 9, e, Mirrored(g))
      && Mirrored(g)[0] == g[1] && NextBoard(g)[0 := g[2]][1 := 0][0 := 0] == e
  {
    var b := NextBoard(g);
    MirroredSolved(g);
    assert Extends(b, g);
    forall l: nat | l < 81 && Sudoku(3)(0, l) ensures b[l] != g[2] {
      assert b[l] != 0 && l != 1 ==> Sudoku(3)(2, l) && b[l] == g[l];
      assert Sudoku(3)(1, 2);
    }
  }

  /** The first attempt: with the digit of the third cell in the first, no digit fits the third cell
      whatever stands between them, and the retry loop there empties the clue before it gives up. */
  lemma NextBoardDeadEnd(g: Board, ds: seq<nat>)
    requires |g| == 81 && Solved(Sudoku(3), 9, g) && AllDigits(9, ds)
    ensures var b := NextBoard(g)[0 := g[2]];
      ConflictFree(Sudoku(3), b) && !Fill(Sudoku(3), 9, b, 1, ds).ok && Fill(Sudoku(3), 9, b, 1, ds).board == b[1 := 0]
  {
    var b := NextBoard(g)[0 := g[2]];
    SudokuSymmetric(3);
    forall k: nat, l: nat | k < l < 81 && Sudoku(3)(k, l) && b[k] != 0 && b[l] != 0 ensures b[k] != b[l] {
      assert b[l] == g[l];
      if k == 0 {
        assert Sudoku(3)(2, l) || l == 2;
      }
    }
    forall c | Beside(b, 1, c) ensures Pinned(Sudoku(3), 9, c, 2) {
      DeadCell(g, c, 2, 0);
    }
    assert Beside(b, 1, b);
    PinnedKeeps(Sudoku(3), 9, b, 2, ds, 0);
    FillFromDead(Sudoku(3), 9, b, 1, ds, 0);
    assert Legal(Sudoku(3), 9, b, 1, g[0]);
    UnpinnedIsTried(Sudoku(3), 9, b, 1, ds);
  }

  /** Success is not completion even on a board that has one: for every solved grid and every order of
      the digits that starts with its third and second, tryit succeeds and writes over the clue. */
  lemma CompletableBoardIsSpoiled(g: Board, ds: seq<nat>)
    requires |g| == 81 && Solved(Sudoku(3), 9, g) && AllDigits(9, ds)
    requires |ds| >= 2 && ds[0] == g[2] && ds[1] == g[1]
    ensures ConflictFree(Sudoku(3), NextBoard(g)) && Completes(Sudoku(3), 9, NextBoard(g), g)
    ensures var o := Fill(Sudoku(3), 9, NextBoard(g), 0, ds); o.ok && !Extends(NextBoard(g), o.board)
  {
    SudokuSymmetric(3);
    NextBoardFacts(g);
    NextBoardDeadEnd(g, ds);
    RetryTakesClue(Sudoku(3), 9, NextBoard(g), 0, ds, NextBoard(g)[1 := 0], Mirrored(g));
  }

  // ---------- The test by sums ----------

  ghost predicate SumsOk(b: Board, kind: Kind)
    requires |b| == 81
  {
    forall u: nat :: u < 9 ==> Sum(UnitValues(3, b, kind, u)) == 45
  }

  /** Any one of rowsOK, columnsOK and blocksOK decides a board without conflicts. */
  lemma SumsDecide(b: Board, kind: Kind)
    requires NineByNine(b) && ConflictFree(Sudoku(3), b)
    ensures SumsOk(b, kind) <==> Solved(Sudoku(3), 9, b)
  {
    assert Triangle(9) == 45;
    forall u: nat | u < 9
      ensures Sum(UnitValues(3, b, kind, u)) == 45 <==> HasAll(9, UnitValues(3, b, kind, u))
    {
      UnitDistinct(3, b, kind, u);
      UnitAt(3, b, kind, u);
      SumOfDistinct(9, UnitValues(3, b, kind, u));
    }
    SolvedIffComplete(3, b, kind);
  }

  /** On arbitrary boards the sums prove nothing more: solved means right sums and no conflict. */
  lemma SolvedIffSumsAndNoConflict(b: Board)
    requires NineByNine(b)
    ensures Solved(Sudoku(3), 9, b) <==> (forall kind: Kind :: SumsOk(b, kind)) && ConflictFree(Sudoku(3), b)
  {
    if ConflictFree(Sudoku(3), b) {
      forall kind: Kind ensures SumsOk(b, kind) <==> Solved(Sudoku(3), 9, b) {
        SumsDecide(b, kind);
      }
      assert SumsOk(b, InRow) ==> Solved(Sudoku(3), 9, b);
    }
  }

  lemma SumOfFives(v: seq<nat>)
    requires forall i :: 0 <= i < |v| ==> v[i] == 5
    ensures Sum(v) == 5 * |v|
  {
  }

  /** A board full of fives has all sums right. */
  lemma SumsCanBeFooled()
    ensures var b := seq(81, _ => 5);
      NineByNine(b) && (forall kind: Kind :: SumsOk(b, kind)) && !Solved(Sudoku(3), 9, b)
  {
    var b: Board := seq(81, _ => 5);
    assert Sudoku(3)(0, 1) && b[0] == b[1];
    forall kind: Kind, u: nat | u < 9 ensures Sum(UnitValues(3, b, kind, u)) == 45 {
      var v := UnitValues(3, b, kind, u);
      forall i: nat | i < 9 ensures v[i] == 5 {
        UnitCellOk(3, kind, u, i);
      }
      SumOfFives(v);
    }
  }
}
