/** Rows, columns and boxes as lists of cells, and what they say about solved boards. */
module Units {
  import opened Grid
  import opened Counting

  datatype Kind = InRow | InCol | InBox

  /** The i-th cell of row, column or box number u. */
  function UnitCell(n: Pos, kind: Kind, u: nat, i: nat): nat {
    var s := Size(n);
    match kind
    case InRow => Index(s, u, i)
    case InCol => Index(s, i, u)
    case InBox => Index(s, Index(n, u / n, i / n), Index(n, u % n, i % n))
  }

  ghost predicate SameUnit(n: Pos, kind: Kind, k: nat, l: nat) {
    match kind
    case InRow => SameRow(Size(n), k, l)
    case InCol => SameCol(Size(n), k, l)
    case InBox => SameBox(n, k, l)
  }

  /** The unit of a kind that cell k lies in, and k's place in that unit. */
  function UnitOf(n: Pos, kind: Kind, k: nat): nat {
    var s := Size(n);
    match kind
    case InRow => Row(s, k)
    case InCol => Col(s, k)
    case InBox => Index(n, Row(s, k) / n, Col(s, k) / n)
  }

  function PlaceOf(n: Pos, kind: Kind, k: nat): nat {
    var s := Size(n);
    match kind
    case InRow => Col(s, k)
    case InCol => Row(s, k)
    case InBox => Index(n, Row(s, k) % n, Col(s, k) % n)
  }

  lemma BoxCoordinate(n: Pos, a: nat, x: nat, u: nat, i: nat)
    requires u < Size(n) && i < Size(n)
    requires (a == u / n && x == i / n) || (a == u % n && x == i % n)
    ensures a < n && x < n
    ensures Index(n, a, x) < Size(n)
    ensures Index(n, a, x) / n == a && Index(n, a, x) % n == x
  {
    CellSplit(n, u);
    CellSplit(n, i);
    CellAt(n, a, x);
    CellInBoard(n, a, x);
  }

  /** UnitCell enumerates, for each kind, every cell of the board exactly once. */
  lemma UnitCellOk(n: Pos, kind: Kind, u: nat, i: nat)
    requires u < Size(n) && i < Size(n)
    ensures var k := UnitCell(n, kind, u, i);
      k < Size(n) * Size(n) && UnitOf(n, kind, k) == u && PlaceOf(n, kind, k) == i
  {
    var s := Size(n);
    match kind
    case InRow =>
      CellAt(s, u, i);
      CellInBoard(s, u, i);
    case InCol =>
      CellAt(s, i, u);
      CellInBoard(s, i, u);
    case InBox =>
      BoxCoordinate(n, u / n, i / n, u, i);
      BoxCoordinate(n, u % n, i % n, u, i);
      var r, c := Index(n, u / n, i / n), Index(n, u % n, i % n);
      CellAt(s, r, c);
      CellInBoard(s, r, c);
      DivMod(u, n);
      DivMod(i, n);
  }

  lemma PlaceOk(n: Pos, kind: Kind, k: nat)
    requires k < Size(n) * Size(n)
    ensures UnitOf(n, kind, k) < Size(n) && PlaceOf(n, kind, k) < Size(n)
    ensures UnitCell(n, kind, UnitOf(n, kind, k), PlaceOf(n, kind, k)) == k
  {
    var s := Size(n);
    CellSplit(s, k);
    if kind == InBox {
      var r, c := Row(s, k), Col(s, k);
      CellSplit(n, r);
      CellSplit(n, c);
      CellInBoard(n, r / n, c / n);
      CellInBoard(n, r % n, c % n);
      CellAt(n, r / n, c / n);
      CellAt(n, r % n, c % n);
    }
  }

  lemma SameUnitIff(n: Pos, kind: Kind, k: nat, l: nat)
    requires k < Size(n) * Size(n) && l < Size(n) * Size(n)
    ensures SameUnit(n, kind, k, l) <==> UnitOf(n, kind, k) == UnitOf(n, kind, l)
  {
    if kind == InBox {
      var s := Size(n);
      CellSplit(s, k);
      CellSplit(s, l);
      CellSplit(n, Row(s, k));
      CellSplit(n, Row(s, l));
      CellSplit(n, Col(s, k));
      CellSplit(n, Col(s, l));
      CellAt(n, Row(s, k) / n, Col(s, k) / n);
      CellAt(n, Row(s, l) / n, Col(s, l) / n);
    }
  }

  lemma PlacesDiffer(n: Pos, kind: Kind, k: nat, l: nat)
    requires k < Size(n) * Size(n) && l < Size(n) * Size(n) && k != l && SameUnit(n, kind, k, l)
    ensures PlaceOf(n, kind, k) != PlaceOf(n, kind, l)
    ensures PlaceOf(n, kind, k) < Size(n) && PlaceOf(n, kind, l) < Size(n)
  {
    PlaceOk(n, kind, k);
    PlaceOk(n, kind, l);
    SameUnitIff(n, kind, k, l);
  }

  ghost predicate BoardOf(n: Pos, b: Board) {
    |b| == Size(n) * Size(n) && InRange(Size(n), b)
  }

  ghost function UnitValues(n: Pos, b: Board, kind: Kind, u: nat): (v: seq<nat>)
    requires |b| == Size(n) * Size(n) && u < Size(n)
    ensures |v| == Size(n)
  {
    seq(Size(n), i requires 0 <= i < Size(n) => UnitCellOk(n, kind, u, i); b[UnitCell(n, kind, u, i)])
  }

  ghost predicate UnitsDistinct(n: Pos, b: Board)
    requires BoardOf(n, b)
  {
    forall kind: Kind, u: nat :: u < Size(n) ==> Distinct(UnitValues(n, b, kind, u))
  }

  ghost predicate UnitsComplete(n: Pos, b: Board, kind: Kind)
    requires BoardOf(n, b)
  {
    forall u: nat :: u < Size(n) ==> HasAll(Size(n), UnitValues(n, b, kind, u))
  }

  lemma UnitDistinct(n: Pos, b: Board, kind: Kind, u: nat)
    requires BoardOf(n, b) && u < Size(n) && ConflictFree(Sudoku(n), b)
    ensures Distinct(UnitValues(n, b, kind, u))
  {
    var v := UnitValues(n, b, kind, u);
    forall i, j | 0 <= i < j < |v| && v[i] != 0 ensures v[i] != v[j] {
      UnitCellOk(n, kind, u, i);
      UnitCellOk(n, kind, u, j);
      var k, l := UnitCell(n, kind, u, i), UnitCell(n, kind, u, j);
      SameUnitIff(n, kind, k, l);
      SameUnitIff(n, kind, l, k);
      assert Sudoku(n)(k, l) && Sudoku(n)(l, k);
    }
  }

  lemma UnitsTellApart(n: Pos, b: Board, kind: Kind, k: nat, l: nat)
    requires BoardOf(n, b) && UnitsDistinct(n, b)
    requires k != l && k < |b| && l < |b| && b[k] != 0 && SameUnit(n, kind, k, l)
    ensures b[k] != b[l]
  {
    PlaceOk(n, kind, k);
    PlaceOk(n, kind, l);
    SameUnitIff(n, kind, k, l);
    var v := UnitValues(n, b, kind, UnitOf(n, kind, k));
    assert v[PlaceOf(n, kind, k)] == b[k] && v[PlaceOf(n, kind, l)] == b[l];
    assert PlaceOf(n, kind, k) != PlaceOf(n, kind, l);
  }

  /** A board obeys the rules exactly when the filled cells of every unit differ. */
  lemma ConflictFreeIff(n: Pos, b: Board)
    requires BoardOf(n, b)
    ensures ConflictFree(Sudoku(n), b) <==> UnitsDistinct(n, b)
  {
    if ConflictFree(Sudoku(n), b) {
      forall kind: Kind, u: nat | u < Size(n) ensures Distinct(UnitValues(n, b, kind, u)) {
        UnitDistinct(n, b, kind, u);
      }
    }
    if UnitsDistinct(n, b) {
      forall k: nat, l: nat | k < l < |b| && Sudoku(n)(k, l) && b[k] != 0 ensures b[k] != b[l] {
        var kind :| SameUnit(n, kind, k, l);
        UnitsTellApart(n, b, kind, k, l);
      }
    }
  }

  lemma UnitAt(n: Pos, b: Board, kind: Kind, u: nat)
    requires BoardOf(n, b) && u < Size(n)
    ensures AtMost(Size(n), UnitValues(n, b, kind, u))
    ensures Full(b) ==> NoZero(UnitValues(n, b, kind, u))
  {
    forall i: nat | i < Size(n)
      ensures UnitValues(n, b, kind, u)[i] <= Size(n)
      ensures Full(b) ==> UnitValues(n, b, kind, u)[i] != 0
    {
      UnitCellOk(n, kind, u, i);
    }
  }

  /** The units of any one kind cover the board. */
  lemma FullByUnits(n: Pos, b: Board, kind: Kind)
    requires BoardOf(n, b)
    requires forall u: nat :: u < Size(n) ==> NoZero(UnitValues(n, b, kind, u))
    ensures Full(b)
  {
    forall k: nat | k < |b| ensures b[k] != 0 {
      PlaceOk(n, kind, k);
      assert UnitValues(n, b, kind, UnitOf(n, kind, k))[PlaceOf(n, kind, k)] == b[k];
    }
  }

  /** On a board without conflicts, any one kind of unit being complete is being solved. */
  lemma SolvedIffComplete(n: Pos, b: Board, kind: Kind)
    requires BoardOf(n, b) && ConflictFree(Sudoku(n), b)
    ensures Solved(Sudoku(n), Size(n), b) <==> UnitsComplete(n, b, kind)
  {
    forall u: nat | u < Size(n)
      ensures HasAll(Size(n), UnitValues(n, b, kind, u)) <==> NoZero(UnitValues(n, b, kind, u))
      ensures Full(b) ==> NoZero(UnitValues(n, b, kind, u))
    {
      UnitAt(n, b, kind, u);
      UnitDistinct(n, b, kind, u);
      PermutationIff(Size(n), UnitValues(n, b, kind, u));
    }
    if UnitsComplete(n, b, kind) {
      FullByUnits(n, b, kind);
    }
  }

  /** Solved boards are those whose rows, columns and boxes are all permutations of 1..s. */
  lemma SolvedIffPermutations(n: Pos, b: Board)
    requires BoardOf(n, b)
    ensures Solved(Sudoku(n), Size(n), b) <==> forall kind: Kind :: UnitsComplete(n, b, kind)
  {
    if ConflictFree(Sudoku(n), b) {
      forall kind: Kind ensures Solved(Sudoku(n), Size(n), b) <==> UnitsComplete(n, b, kind) {
        SolvedIffComplete(n, b, kind);
      }
      assert UnitsComplete(n, b, InRow) ==> Solved(Sudoku(n), Size(n), b);
    } else if forall kind: Kind :: UnitsComplete(n, b, kind) {
      forall kind: Kind, u: nat | u < Size(n) ensures Distinct(UnitValues(n, b, kind, u)) {
        assert UnitsComplete(n, b, kind);
        PermutationIff(Size(n), UnitValues(n, b, kind, u));
      }
      ConflictFreeIff(n, b);
    }
  }

  /** A value in a unit sits in some cell of it. */
  lemma UnitHas(n: Pos, b: Board, kind: Kind, k: nat, d: nat) returns (l: nat)
    requires |b| == Size(n) * Size(n) && k < |b|
    requires UnitOf(n, kind, k) < Size(n) && d in UnitValues(n, b, kind, UnitOf(n, kind, k))
    ensures l < |b| && SameUnit(n, kind, k, l) && b[l] == d
  {
    var u := UnitOf(n, kind, k);
    var i: nat :| i < Size(n) && UnitValues(n, b, kind, u)[i] == d;
    UnitCellOk(n, kind, u, i);
    l := UnitCell(n, kind, u, i);
    SameUnitIff(n, kind, k, l);
  }

  lemma ValueInUnit(n: Pos, b: Board, kind: Kind, k: nat)
    requires |b| == Size(n) * Size(n) && k < |b|
    ensures UnitOf(n, kind, k) < Size(n) && PlaceOf(n, kind, k) < Size(n)
    ensures UnitValues(n, b, kind, UnitOf(n, kind, k))[PlaceOf(n, kind, k)] == b[k]
  {
    PlaceOk(n, kind, k);
  }

  // ---------- Some solved board exists ----------

  /** Shift pattern: each row is the one above moved by a box width, bands are moved by one. */
  function Pattern(n: Pos, k: nat): nat {
    var s := Size(n);
    (Index(n, Row(s, k) % n, Row(s, k) / n) + Col(s, k)) % s + 1
  }

  function PatternBoard(n: Pos): (b: Board) {
    seq(Size(n) * Size(n), k requires 0 <= k < Size(n) * Size(n) => Pattern(n, k))
  }

  lemma MultiplesApart(q: nat, p: nat, s: Pos)
    requires q < p
    ensures q * s + s <= p * s
  {
    RowEnds(s, q);
    MulMonotone(q + 1, p, s);
  }

  lemma RestsAgree(p: nat, q: nat, m: nat, s: Pos, t: nat, x: nat, y: nat)
    requires x < s && y < s && p * s + m == t + x && q * s + m == t + y
    ensures x == y
  {
    if p > q {
      MultiplesApart(q, p, s);
    } else if p < q {
      MultiplesApart(p, q, s);
    }
  }

  lemma ModDiffer(s: Pos, x: nat, y: nat, t: nat)
    requires x < s && y < s && x != y
    ensures (t + x) % s != (t + y) % s
  {
    var p, q, m, m' := (t + x) / s, (t + y) / s, (t + x) % s, (t + y) % s;
    DivMod(t + x, s);
    DivMod(t + y, s);
    if m == m' {
      RestsAgree(p, q, m, s, t, x, y);
    }
  }

  lemma PatternDiffersInRow(n: Pos, k: nat, l: nat)
    requires k != l && SameRow(Size(n), k, l)
    ensures Pattern(n, k) != Pattern(n, l)
  {
    var s := Size(n);
    CellSplit(s, k);
    CellSplit(s, l);
    ModDiffer(s, Col(s, k), Col(s, l), Index(n, Row(s, k) % n, Row(s, k) / n));
  }

  lemma RowDigits(n: Pos, r: nat)
    requires r < Size(n)
    ensures Index(n, r % n, r / n) < Size(n)
    ensures Index(n, r % n, r / n) / n == r % n && Index(n, r % n, r / n) % n == r / n
    ensures r == Index(n, r / n, r % n)
  {
    CellSplit(n, r);
    CellInBoard(n, r % n, r / n);
    CellAt(n, r % n, r / n);
  }

  lemma PatternDiffersInCol(n: Pos, k: nat, l: nat)
    requires k < Size(n) * Size(n) && l < Size(n) * Size(n)
    requires !SameRow(Size(n), k, l) && SameCol(Size(n), k, l)
    ensures Pattern(n, k) != Pattern(n, l)
  {
    var s := Size(n);
    CellSplit(s, k);
    CellSplit(s, l);
    RowDigits(n, Row(s, k));
    RowDigits(n, Row(s, l));
    ModDiffer(s, Index(n, Row(s, k) % n, Row(s, k) / n), Index(n, Row(s, l) % n, Row(s, l) / n), Col(s, k));
  }

  function BoxOffset(n: Pos, k: nat): nat {
    Index(n, Col(Size(n), k) / n, Row(Size(n), k) / n)
  }

  /** Inside a box the pattern counts up in reading order from an offset fixed by the box. */
  lemma PatternInBox(n: Pos, k: nat)
    ensures Pattern(n, k) == (BoxOffset(n, k) + PlaceOf(n, InBox, k)) % Size(n) + 1
  {
    CellSplit(n, Col(Size(n), k));
  }

  lemma PatternDiffersInBox(n: Pos, k: nat, l: nat)
    requires k < Size(n) * Size(n) && l < Size(n) * Size(n)
    requires k != l && SameBox(n, k, l)
    ensures Pattern(n, k) != Pattern(n, l)
  {
    PlacesDiffer(n, InBox, k, l);
    PatternInBox(n, k);
    PatternInBox(n, l);
    ModDiffer(Size(n), PlaceOf(n, InBox, k), PlaceOf(n, InBox, l), BoxOffset(n, k));
  }

  lemma PatternSolved(n: Pos)
    ensures |PatternBoard(n)| == Size(n) * Size(n)
    ensures Solved(Sudoku(n), Size(n), PatternBoard(n))
  {
    var s, b := Size(n), PatternBoard(n);
    forall k: nat, l: nat | k < l < |b| && Sudoku(n)(k, l) ensures b[k] != b[l] {
      if SameRow(s, k, l) {
        PatternDiffersInRow(n, k, l);
      } else if SameCol(s, k, l) {
        PatternDiffersInCol(n, k, l);
      } else {
        PatternDiffersInBox(n, k, l);
      }
    }
  }
}
