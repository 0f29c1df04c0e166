/**
 Puzzles with more than one answer, and the swapped rectangles that checkUnique looks for: two
 rows and two columns whose four corners hold two values crosswise.
 */
module Ambiguity {
  import opened Grid
  import opened Counting
  import opened Units

  /** Rows and columns are permutations; boxes are not looked at. */
  ghost predicate Latin(s: Pos, b: Board) {
    && |b| == s * s
    && (forall k :: 0 <= k < |b| ==> 1 <= b[k] <= s)
    && (forall k: nat, l: nat :: k < |b| && l < |b| && k != l && SameRow(s, k, l) ==> b[k] != b[l])
    && (forall k: nat, l: nat :: k < |b| && l < |b| && k != l && SameCol(s, k, l) ==> b[k] != b[l])
  }

  lemma SolvedTellsApart(n: Pos, b: Board, k: nat, l: nat)
    requires Solved(Sudoku(n), Size(n), b) && k < |b| && l < |b| && k != l && Related(n, k, l)
    ensures b[k] != b[l]
  {
    assert Sudoku(n)(k, l) && Sudoku(n)(l, k);
  }

  lemma SolvedIsLatin(n: Pos, b: Board)
    requires |b| == Size(n) * Size(n) && Solved(Sudoku(n), Size(n), b)
    ensures Latin(Size(n), b)
  {
    var s := Size(n);
    forall k: nat, l: nat | k < |b| && l < |b| && k != l && SameRow(s, k, l) ensures b[k] != b[l] {
      SolvedTellsApart(n, b, k, l);
    }
    forall k: nat, l: nat | k < |b| && l < |b| && k != l && SameCol(s, k, l) ensures b[k] != b[l] {
      SolvedTellsApart(n, b, k, l);
    }
  }

  ghost function Diff(a: Board, b: Board): set<nat>
    requires |a| == |b|
  {
    set k: nat | k < |a| && a[k] != b[k]
  }

  // ---------- Differences between two Latin boards ----------

  ghost function RowLine(s: Pos, b: Board, r: nat): (v: seq<nat>)
    requires |b| == s * s && r < s
    ensures |v| == s
  {
    seq(s, i requires 0 <= i < s => CellInBoard(s, r, i); b[Index(s, r, i)])
  }

  ghost function ColLine(s: Pos, b: Board, c: nat): (v: seq<nat>)
    requires |b| == s * s && c < s
    ensures |v| == s
  {
    seq(s, i requires 0 <= i < s => CellInBoard(s, i, c); b[Index(s, i, c)])
  }

  lemma LineCells(s: Pos, b: Board, u: nat, i: nat, j: nat)
    requires Latin(s, b) && u < s && i < s && j < s
    ensures 1 <= RowLine(s, b, u)[i] <= s && 1 <= ColLine(s, b, u)[i] <= s
    ensures i != j ==> RowLine(s, b, u)[i] != RowLine(s, b, u)[j] && ColLine(s, b, u)[i] != ColLine(s, b, u)[j]
  {
    CellInBoard(s, u, i);
    CellInBoard(s, u, j);
    CellInBoard(s, i, u);
    CellInBoard(s, j, u);
    CellAt(s, u, i);
    CellAt(s, u, j);
    CellAt(s, i, u);
    CellAt(s, j, u);
  }

  lemma RowLineHasAll(s: Pos, b: Board, u: nat)
    requires Latin(s, b) && u < s
    ensures HasAll(s, RowLine(s, b, u))
  {
    var v := RowLine(s, b, u);
    forall i: nat, j: nat | i < s && j < s ensures 1 <= v[i] <= s && (i != j ==> v[i] != v[j]) {
      LineCells(s, b, u, i, j);
    }
    PermutationIff(s, v);
  }

  lemma ColLineHasAll(s: Pos, b: Board, u: nat)
    requires Latin(s, b) && u < s
    ensures HasAll(s, ColLine(s, b, u))
  {
    var v := ColLine(s, b, u);
    forall i: nat, j: nat | i < s && j < s ensures 1 <= v[i] <= s && (i != j ==> v[i] != v[j]) {
      LineCells(s, b, u, i, j);
    }
    PermutationIff(s, v);
  }

  lemma RowHas(s: Pos, b: Board, k: nat, d: nat) returns (l: nat)
    requires Latin(s, b) && k < s * s && 1 <= d <= s
    ensures l < s * s && SameRow(s, k, l) && b[l] == d
  {
    var r := Row(s, k);
    CellSplit(s, k);
    RowLineHasAll(s, b, r);
    assert d in RowLine(s, b, r);
    var i: nat :| i < s && RowLine(s, b, r)[i] == d;
    CellInBoard(s, r, i);
    CellAt(s, r, i);
    l := Index(s, r, i);
  }

  lemma ColHas(s: Pos, b: Board, k: nat, d: nat) returns (l: nat)
    requires Latin(s, b) && k < s * s && 1 <= d <= s
    ensures l < s * s && SameCol(s, k, l) && b[l] == d
  {
    var c := Col(s, k);
    ColLineHasAll(s, b, c);
    assert d in ColLine(s, b, c);
    var i: nat :| i < s && ColLine(s, b, c)[i] == d;
    CellInBoard(s, i, c);
    CellAt(s, i, c);
    l := Index(s, i, c);
  }

  /** A difference is never alone in its row: the value that moved in came from the same row. */
  lemma RowPartner(s: Pos, a: Board, g: Board, k: nat) returns (l: nat)
    requires Latin(s, a) && Latin(s, g) && k in Diff(a, g)
    ensures l in Diff(a, g) && l != k && SameRow(s, k, l) && a[l] == g[k]
  {
    l := RowHas(s, a, k, g[k]);
  }

  lemma ColPartner(s: Pos, a: Board, g: Board, k: nat) returns (l: nat)
    requires Latin(s, a) && Latin(s, g) && k in Diff(a, g)
    ensures l in Diff(a, g) && l != k && SameCol(s, k, l) && a[l] == g[k]
  {
    l := ColHas(s, a, k, g[k]);
  }

  lemma SixMembers(d: set<nat>, k1: nat, k2: nat, k3: nat, k4: nat, k5: nat, k6: nat)
    requires {k1, k2, k3, k4, k5, k6} <= d
    requires k1 != k2 && k3 !in {k1, k2} && k4 !in {k1, k2, k3} && k5 !in {k1, k2, k3, k4}
    requires k6 !in {k1, k2, k3, k4, k5}
    ensures |d| >= 6
  {
    var six := {k1, k2, k3, k4, k5, k6};
    assert six == {k1} + {k2} + {k3} + {k4} + {k5} + {k6};
    assert |d - six| == |d| - |six|;
  }

  /** k1 k2 over k3 k4: the corners of a rectangle. */
  ghost predicate Corners(s: Pos, k1: nat, k2: nat, k3: nat, k4: nat) {
    && k1 != k2 && k1 != k3
    && SameRow(s, k1, k2) && SameCol(s, k1, k3) && SameRow(s, k3, k4) && SameCol(s, k2, k4)
  }

  lemma Apart(s: Pos, k: nat, l: nat)
    requires k != l
    ensures !(SameRow(s, k, l) && SameCol(s, k, l))
  {
    if SameRow(s, k, l) && SameCol(s, k, l) {
      SameCell(s, k, l);
    }
  }

  lemma ExtraInRow(s: Pos, a: Board, g: Board, k1: nat, k2: nat, k3: nat, k4: nat, x: nat) returns (y: nat)
    requires Latin(s, a) && Latin(s, g) && Corners(s, k1, k2, k3, k4)
    requires x in Diff(a, g) && x !in {k1, k2, k3, k4} && SameRow(s, x, k1)
    ensures y in Diff(a, g) && y !in {k1, k2, k3, k4, x}
  {
    y := ColPartner(s, a, g, x);
    Apart(s, x, k1);
    Apart(s, x, k2);
    Apart(s, x, y);
  }

  /** Besides a rectangle of differences, one more difference brings another. */
  lemma OneMoreMakesSix(s: Pos, a: Board, g: Board, k1: nat, k2: nat, k3: nat, k4: nat, x: nat)
    requires Latin(s, a) && Latin(s, g) && Corners(s, k1, k2, k3, k4) && Corners(s, k3, k4, k1, k2)
    requires {k1, k2, k3, k4} <= Diff(a, g) && x in Diff(a, g) && x !in {k1, k2, k3, k4}
    ensures |Diff(a, g)| >= 6
  {
    var y: nat;
    if SameRow(s, x, k1) {
      y := ExtraInRow(s, a, g, k1, k2, k3, k4, x);
    } else if SameRow(s, x, k3) {
      y := ExtraInRow(s, a, g, k3, k4, k1, k2, x);
    } else {
      y := RowPartner(s, a, g, x);
    }
    Apart(s, k1, k3);
    Apart(s, k2, k4);
    SixMembers(Diff(a, g), k1, k2, k3, k4, x, y);
  }

  /** Two different Latin boards differ in six cells or more, or in exactly four cells that form a
      rectangle with the same two values crosswise. */
  lemma SixOrRectangle(s: Pos, a: Board, g: Board) returns (k1: nat, k2: nat, k3: nat, k4: nat)
    requires Latin(s, a) && Latin(s, g) && a != g
    ensures |Diff(a, g)| >= 6 ||
            (Corners(s, k1, k2, k3, k4) && Diff(a, g) == {k1, k2, k3, k4} && a[k1] == a[k4] && a[k2] == a[k3])
  {
    k1 :| 0 <= k1 < |a| && a[k1] != g[k1];
    k2 := RowPartner(s, a, g, k1);
    k3 := ColPartner(s, a, g, k1);
    k4 := ColPartner(s, a, g, k2);
    Apart(s, k1, k2);
    Apart(s, k1, k3);
    Apart(s, k2, k4);
    if !SameRow(s, k3, k4) {
      var k5 := RowPartner(s, a, g, k3);
      var k6 := RowPartner(s, a, g, k4);
      SixMembers(Diff(a, g), k1, k2, k3, k5, k4, k6);
    } else if exists x :: x in Diff(a, g) && x !in {k1, k2, k3, k4} {
      var x :| x in Diff(a, g) && x !in {k1, k2, k3, k4};
      OneMoreMakesSix(s, a, g, k1, k2, k3, k4, x);
    } else {
      assert Diff(a, g) == {k1, k2, k3, k4};
      var l := RowPartner(s, a, g, k2);
      assert l == k1;
    }
  }

  // ---------- Swapped rectangles ----------

  datatype Rect = Rect(r1: nat, r2: nat, c1: nat, c2: nat)

  ghost predicate InBoard(s: Pos, q: Rect) {
    q.r1 < q.r2 < s && q.c1 < q.c2 < s
  }

  ghost function CornerSet(s: Pos, q: Rect): set<nat> {
    {Index(s, q.r1, q.c1), Index(s, q.r1, q.c2), Index(s, q.r2, q.c1), Index(s, q.r2, q.c2)}
  }

  lemma CornersInBoard(s: Pos, q: Rect)
    requires InBoard(s, q)
    ensures forall k :: k in CornerSet(s, q) ==> k < s * s
    ensures Corners(s, Index(s, q.r1, q.c1), Index(s, q.r1, q.c2), Index(s, q.r2, q.c1), Index(s, q.r2, q.c2))
    ensures |CornerSet(s, q)| == 4
  {
    CellInBoard(s, q.r1, q.c1);
    CellInBoard(s, q.r1, q.c2);
    CellInBoard(s, q.r2, q.c1);
    CellInBoard(s, q.r2, q.c2);
    CellAt(s, q.r1, q.c1);
    CellAt(s, q.r1, q.c2);
    CellAt(s, q.r2, q.c1);
    CellAt(s, q.r2, q.c2);
  }

  /** Both diagonals of the rectangle hold one value each. */
  ghost predicate Swapped(s: Pos, a: Board, q: Rect)
    requires |a| == s * s
  {
    InBoard(s, q) && (CornersInBoard(s, q);
    && a[Index(s, q.r1, q.c1)] == a[Index(s, q.r2, q.c2)]
    && a[Index(s, q.r1, q.c2)] == a[Index(s, q.r2, q.c1)])
  }

  /** All four corners are left for the player. */
  ghost predicate Open(s: Pos, clues: Board, q: Rect)
    requires |clues| == s * s && InBoard(s, q)
  {
    CornersInBoard(s, q);
    forall k :: k in CornerSet(s, q) ==> clues[k] == 0
  }

  lemma OpenShrinks(s: Pos, b: Board, b': Board)
    requires |b| == s * s && Extends(b, b')
    ensures forall q :: InBoard(s, q) && Open(s, b', q) ==> Open(s, b, q)
  {
    forall q | InBoard(s, q) && Open(s, b', q) ensures Open(s, b, q) {
      CornersInBoard(s, q);
    }
  }

  ghost predicate NoOpenRectangle(s: Pos, a: Board, clues: Board)
    requires |a| == |clues| == s * s
  {
    forall q: Rect :: Swapped(s, a, q) ==> !Open(s, clues, q)
  }

  /** The rectangle whose corners are k1 k2 over k3 k4, whichever way round they come. */
  lemma RectOfCorners(s: Pos, a: Board, k1: nat, k2: nat, k3: nat, k4: nat) returns (q: Rect)
    requires |a| == s * s && k1 < |a| && k2 < |a| && k3 < |a| && k4 < |a| && Corners(s, k1, k2, k3, k4)
    requires a[k1] == a[k4] && a[k2] == a[k3]
    ensures Swapped(s, a, q) && CornerSet(s, q) == {k1, k2, k3, k4}
  {
    var r, r', c, c' := Row(s, k1), Row(s, k3), Col(s, k1), Col(s, k2);
    CellSplit(s, k1);
    CellSplit(s, k2);
    CellSplit(s, k3);
    CellSplit(s, k4);
    Apart(s, k1, k2);
    Apart(s, k1, k3);
    q := Rect(if r < r' then r else r', if r < r' then r' else r, if c < c' then c else c', if c < c' then c' else c);
  }

  /** Moves a cell of the rectangle's rows to the other of its columns. */
  ghost function Across(s: Pos, q: Rect, k: nat): nat {
    if Row(s, k) != q.r1 && Row(s, k) != q.r2 then k
    else if Col(s, k) == q.c1 then Index(s, Row(s, k), q.c2)
    else if Col(s, k) == q.c2 then Index(s, Row(s, k), q.c1)
    else k
  }

  /** Moves a cell of the rectangle's columns to the other of its rows. */
  ghost function Down(s: Pos, q: Rect, k: nat): nat {
    if Col(s, k) != q.c1 && Col(s, k) != q.c2 then k
    else if Row(s, k) == q.r1 then Index(s, q.r2, Col(s, k))
    else if Row(s, k) == q.r2 then Index(s, q.r1, Col(s, k))
    else k
  }

  lemma AcrossOk(s: Pos, q: Rect, k: nat)
    requires InBoard(s, q) && k < s * s
    ensures Across(s, q, k) < s * s && SameRow(s, Across(s, q, k), k)
    ensures Across(s, q, Across(s, q, k)) == k
  {
    CellSplit(s, k);
    CellInBoard(s, Row(s, k), q.c1);
    CellInBoard(s, Row(s, k), q.c2);
    CellAt(s, Row(s, k), q.c1);
    CellAt(s, Row(s, k), q.c2);
  }

  lemma DownOk(s: Pos, q: Rect, k: nat)
    requires InBoard(s, q) && k < s * s
    ensures Down(s, q, k) < s * s && SameCol(s, Down(s, q, k), k)
    ensures Down(s, q, Down(s, q, k)) == k
  {
    CellSplit(s, k);
    CellInBoard(s, q.r1, Col(s, k));
    CellInBoard(s, q.r2, Col(s, k));
    CellAt(s, q.r1, Col(s, k));
    CellAt(s, q.r2, Col(s, k));
  }

  /** a with the two values of the rectangle exchanged. */
  ghost function Exchange(s: Pos, a: Board, q: Rect): (g: Board)
    requires |a| == s * s && InBoard(s, q)
    ensures |g| == s * s
  {
    seq(s * s, k requires 0 <= k < s * s => AcrossOk(s, q, k); a[Across(s, q, k)])
  }

  lemma ExchangeDown(s: Pos, a: Board, q: Rect, k: nat)
    requires |a| == s * s && Swapped(s, a, q) && k < s * s
    ensures Down(s, q, k) < s * s && Exchange(s, a, q)[k] == a[Down(s, q, k)]
    ensures k !in CornerSet(s, q) ==> Exchange(s, a, q)[k] == a[k]
  {
    AcrossOk(s, q, k);
    DownOk(s, q, k);
    CellSplit(s, k);
  }

  lemma ExchangeInRow(s: Pos, a: Board, q: Rect, k: nat, l: nat)
    requires Latin(s, a) && Swapped(s, a, q) && k < s * s && l < s * s && k != l && SameRow(s, k, l)
    ensures Exchange(s, a, q)[k] != Exchange(s, a, q)[l]
  {
    AcrossOk(s, q, k);
    AcrossOk(s, q, l);
    var k', l' := Across(s, q, k), Across(s, q, l);
    assert k' != l' && SameRow(s, k', l');
  }

  lemma ExchangeInCol(s: Pos, a: Board, q: Rect, k: nat, l: nat)
    requires Latin(s, a) && Swapped(s, a, q) && k < s * s && l < s * s && k != l && SameCol(s, k, l)
    ensures Exchange(s, a, q)[k] != Exchange(s, a, q)[l]
  {
    ExchangeDown(s, a, q, k);
    ExchangeDown(s, a, q, l);
    DownOk(s, q, k);
    DownOk(s, q, l);
    var k', l' := Down(s, q, k), Down(s, q, l);
    assert k' != l' && SameCol(s, k', l');
  }

  lemma CornerMoves(s: Pos, q: Rect, k: nat)
    requires InBoard(s, q) && k in CornerSet(s, q)
    ensures Across(s, q, k) != k
  {
    CellAt(s, q.r1, q.c1);
    CellAt(s, q.r1, q.c2);
    CellAt(s, q.r2, q.c1);
    CellAt(s, q.r2, q.c2);
  }

  lemma ExchangeMoves(s: Pos, a: Board, q: Rect, k: nat)
    requires Latin(s, a) && Swapped(s, a, q) && k < s * s
    ensures a[k] != Exchange(s, a, q)[k] <==> k in CornerSet(s, q)
  {
    ExchangeDown(s, a, q, k);
    AcrossOk(s, q, k);
    if k in CornerSet(s, q) {
      CornerMoves(s, q, k);
    }
  }

  lemma ExchangeIsLatin(s: Pos, a: Board, q: Rect)
    requires Latin(s, a) && Swapped(s, a, q)
    ensures Latin(s, Exchange(s, a, q)) && Diff(a, Exchange(s, a, q)) == CornerSet(s, q)
  {
    var g := Exchange(s, a, q);
    forall k: nat, l: nat | k < |g| && l < |g| && k != l && SameRow(s, k, l) ensures g[k] != g[l] {
      ExchangeInRow(s, a, q, k, l);
    }
    forall k: nat, l: nat | k < |g| && l < |g| && k != l && SameCol(s, k, l) ensures g[k] != g[l] {
      ExchangeInCol(s, a, q, k, l);
    }
    forall k: nat | k < |g| ensures 1 <= g[k] <= s {
      AcrossOk(s, q, k);
    }
    CornersInBoard(s, q);
    forall k: nat | k < |a| ensures a[k] != g[k] <==> k in CornerSet(s, q) {
      ExchangeMoves(s, a, q, k);
    }
  }

  lemma AcrossIsPartner(s: Pos, q: Rect, k: nat, l: nat)
    requires InBoard(s, q) && k in CornerSet(s, q) && l in CornerSet(s, q) && l != k && SameRow(s, k, l)
    ensures l == Across(s, q, k)
  {
    CellAt(s, q.r1, q.c1);
    CellAt(s, q.r1, q.c2);
    CellAt(s, q.r2, q.c1);
    CellAt(s, q.r2, q.c2);
  }

  /** An answer that differs in the corners of a swapped rectangle alone is its exchange. */
  lemma ExchangeIsForced(s: Pos, a: Board, g: Board, q: Rect)
    requires Latin(s, a) && Latin(s, g) && Swapped(s, a, q) && Diff(a, g) == CornerSet(s, q)
    ensures g == Exchange(s, a, q)
  {
    forall k: nat | k < |a| ensures g[k] == Exchange(s, a, q)[k] {
      ExchangeDown(s, a, q, k);
      if k in Diff(a, g) {
        var l := RowPartner(s, a, g, k);
        AcrossIsPartner(s, q, k, l);
      }
    }
  }

  /** A second row-and-column answer that differs in fewer than six cells is the exchange of an open
      swapped rectangle. */
  lemma NearAnswerOpens(s: Pos, a: Board, clues: Board, g: Board) returns (q: Rect)
    requires Latin(s, a) && Latin(s, g) && Extends(clues, a) && Extends(clues, g)
    requires 1 <= |Diff(a, g)| <= 5
    ensures Swapped(s, a, q) && Open(s, clues, q) && g == Exchange(s, a, q)
  {
    var k1, k2, k3, k4 := SixOrRectangle(s, a, g);
    q := RectOfCorners(s, a, k1, k2, k3, k4);
    ExchangeIsForced(s, a, g, q);
    CornersInBoard(s, q);
    forall k | k in CornerSet(s, q) ensures clues[k] == 0 {
      assert k in Diff(a, g);
    }
  }

  lemma OpenGivesNearAnswer(s: Pos, a: Board, clues: Board, q: Rect)
    requires Latin(s, a) && Extends(clues, a) && Swapped(s, a, q) && Open(s, clues, q)
    ensures Latin(s, Exchange(s, a, q)) && Extends(clues, Exchange(s, a, q))
    ensures |Diff(a, Exchange(s, a, q))| == 4
  {
    ExchangeIsLatin(s, a, q);
    CornersInBoard(s, q);
  }

  /** A second row-and-column answer that differs in fewer than six cells exists exactly when some
      swapped rectangle is open. */
  lemma SmallAmbiguityIff(s: Pos, a: Board, clues: Board)
    requires Latin(s, a) && Extends(clues, a)
    ensures (exists g :: Latin(s, g) && Extends(clues, g) && 1 <= |Diff(a, g)| <= 5) <==>
            !NoOpenRectangle(s, a, clues)
  {
    if g :| Latin(s, g) && Extends(clues, g) && 1 <= |Diff(a, g)| <= 5 {
      var q := NearAnswerOpens(s, a, clues, g);
    }
    if q: Rect :| Swapped(s, a, q) && Open(s, clues, q) {
      OpenGivesNearAnswer(s, a, clues, q);
    }
  }

  /** With every swapped rectangle closed, any other answer differs in at least six cells. */
  lemma OtherAnswersAreFar(s: Pos, a: Board, clues: Board, g: Board)
    requires Latin(s, a) && Latin(s, g) && Extends(clues, a) && Extends(clues, g) && a != g
    requires NoOpenRectangle(s, a, clues)
    ensures |Diff(a, g)| >= 6
  {
    var k :| 0 <= k < |a| && a[k] != g[k];
    assert k in Diff(a, g);
    if |Diff(a, g)| <= 5 {
      var q := NearAnswerOpens(s, a, clues, g);
    }
  }

  ghost function Blanks(clues: Board): set<nat> {
    set k: nat | k < |clues| && clues[k] == 0
  }

  /** A puzzle with at most five blanks and no open swapped rectangle has one answer. */
  lemma FewBlanksUnique(n: Pos, a: Board, clues: Board, g: Board)
    requires |a| == Size(n) * Size(n)
    requires Completes(Sudoku(n), Size(n), clues, a) && Completes(Sudoku(n), Size(n), clues, g)
    requires NoOpenRectangle(Size(n), a, clues) && |Blanks(clues)| <= 5
    ensures g == a
  {
    SolvedIsLatin(n, a);
    SolvedIsLatin(n, g);
    assert Diff(a, g) <= Blanks(clues);
    assert |Blanks(clues) - Diff(a, g)| == |Blanks(clues)| - |Diff(a, g)|;
    if g != a {
      OtherAnswersAreFar(Size(n), a, clues, g);
    }
  }

  // ---------- Which swapped rectangles give a second Sudoku answer ----------

  ghost predicate SameBand(n: Pos, q: Rect) {
    q.r1 / n == q.r2 / n
  }

  ghost predicate SameStack(n: Pos, q: Rect) {
    q.c1 / n == q.c2 / n
  }

  lemma DownInBox(n: Pos, q: Rect, k: nat)
    requires InBoard(Size(n), q) && SameBand(n, q) && k < Size(n) * Size(n)
    ensures SameBox(n, k, Down(Size(n), q, k))
  {
    CellSplit(Size(n), k);
    CellAt(Size(n), q.r1, Col(Size(n), k));
    CellAt(Size(n), q.r2, Col(Size(n), k));
  }

  lemma AcrossInBox(n: Pos, q: Rect, k: nat)
    requires InBoard(Size(n), q) && SameStack(n, q) && k < Size(n) * Size(n)
    ensures SameBox(n, k, Across(Size(n), q, k))
  {
    CellSplit(Size(n), k);
    CellAt(Size(n), Row(Size(n), k), q.c1);
    CellAt(Size(n), Row(Size(n), k), q.c2);
  }

  /** In one band the exchange moves values up and down within their boxes, in one stack sideways. */
  lemma ExchangeInBox(n: Pos, a: Board, q: Rect, k: nat, l: nat)
    requires |a| == Size(n) * Size(n) && Solved(Sudoku(n), Size(n), a) && Swapped(Size(n), a, q)
    requires SameBand(n, q) || SameStack(n, q)
    requires k < |a| && l < |a| && k != l && SameBox(n, k, l)
    ensures Exchange(Size(n), a, q)[k] != Exchange(Size(n), a, q)[l]
  {
    var s := Size(n);
    var k', l';
    if SameBand(n, q) {
      k', l' := Down(s, q, k), Down(s, q, l);
      DownInBox(n, q, k);
      DownInBox(n, q, l);
      ExchangeDown(s, a, q, k);
      ExchangeDown(s, a, q, l);
      DownOk(s, q, k);
      DownOk(s, q, l);
    } else {
      k', l' := Across(s, q, k), Across(s, q, l);
      AcrossInBox(n, q, k);
      AcrossInBox(n, q, l);
      AcrossOk(s, q, k);
      AcrossOk(s, q, l);
    }
    assert k' != l' && Sudoku(n)(k', l') && Sudoku(n)(l', k');
  }

  /** Across two bands and two stacks the exchange puts a value twice into a box. */
  lemma ExchangeBreaksBox(n: Pos, a: Board, q: Rect)
    requires |a| == Size(n) * Size(n) && Solved(Sudoku(n), Size(n), a) && Swapped(Size(n), a, q)
    requires !SameBand(n, q) && !SameStack(n, q)
    ensures !ConflictFree(Sudoku(n), Exchange(Size(n), a, q))
  {
    var s, g := Size(n), Exchange(Size(n), a, q);
    SolvedIsLatin(n, a);
    CornersInBoard(s, q);
    var k := Index(s, q.r1, q.c1);
    ExchangeMoves(s, a, q, k);
    SolvedIffPermutations(n, a);
    PlaceOk(n, InBox, k);
    assert UnitsComplete(n, a, InBox) && g[k] in UnitValues(n, a, InBox, UnitOf(n, InBox, k));
    var m := UnitHas(n, a, InBox, k, g[k]);
    assert m !in CornerSet(s, q) by {
      CellAt(s, q.r1, q.c1);
      CellAt(s, q.r1, q.c2);
      CellAt(s, q.r2, q.c1);
      CellAt(s, q.r2, q.c2);
    }
    ExchangeMoves(s, a, q, m);
    assert Sudoku(n)(k, m) && Sudoku(n)(m, k);
  }

  /** Exchanging a swapped rectangle of a solved board gives a second solved board exactly when the
      rectangle lies in one band or in one stack. */
  lemma ExchangeSolvesIff(n: Pos, a: Board, q: Rect)
    requires |a| == Size(n) * Size(n) && Solved(Sudoku(n), Size(n), a) && Swapped(Size(n), a, q)
    ensures Solved(Sudoku(n), Size(n), Exchange(Size(n), a, q)) <==> SameBand(n, q) || SameStack(n, q)
  {
    var s, g := Size(n), Exchange(Size(n), a, q);
    SolvedIsLatin(n, a);
    ExchangeIsLatin(s, a, q);
    if SameBand(n, q) || SameStack(n, q) {
      forall k: nat, l: nat | k < l < |g| && Sudoku(n)(k, l) ensures g[k] != g[l] {
        if SameBox(n, k, l) {
          ExchangeInBox(n, a, q, k, l);
        }
      }
    } else {
      ExchangeBreaksBox(n, a, q);
    }
  }

  /** With the box rule: a second Sudoku answer that differs in fewer than six cells exists exactly when
      some swapped rectangle inside one band or one stack is open. */
  lemma NearSolutionIff(n: Pos, a: Board, clues: Board)
    requires |a| == Size(n) * Size(n) && Completes(Sudoku(n), Size(n), clues, a)
    ensures (exists g :: Completes(Sudoku(n), Size(n), clues, g) && 1 <= |Diff(a, g)| <= 5) <==>
            (exists q: Rect ::
               Swapped(Size(n), a, q) && Open(Size(n), clues, q) && (SameBand(n, q) || SameStack(n, q)))
  {
    if g :| Completes(Sudoku(n), Size(n), clues, g) && 1 <= |Diff(a, g)| <= 5 {
      SolvedIsLatin(n, a);
      SolvedIsLatin(n, g);
      var q := NearAnswerOpens(Size(n), a, clues, g);
      ExchangeSolvesIff(n, a, q);
    }
    if q: Rect :| Swapped(Size(n), a, q) && Open(Size(n), clues, q) && (SameBand(n, q) || SameStack(n, q)) {
      SolvedIsLatin(n, a);
      OpenGivesNearAnswer(Size(n), a, clues, q);
      ExchangeSolvesIff(n, a, q);
    }
  }

  // ---------- Closing the rectangles does not make the answer unique ----------

  /** Rows 0 and 1 trade places in columns 0, 3 and 6. */
  function Trade(k: nat): nat {
    if k < 9 && k % 3 == 0 then k + 9
    else if 9 <= k < 18 && k % 3 == 0 then k - 9
    else k
  }

  /** The same trade in the pattern board, seen as a turn of three cells inside each row. */
  function Turn(k: nat): nat {
    if k < 9 && k % 3 == 0 then (k + 3) % 9
    else if 9 <= k < 18 && k % 3 == 0 then (k + 6) % 9 + 9
    else k
  }

  function TradedBoard(): (g: Board) {
    seq(81, k requires 0 <= k < 81 => Pattern(3, Trade(k)))
  }

  function TradePuzzle(): (clues: Board) {
    seq(81, k requires 0 <= k < 81 => if Trade(k) != k then 0 else Pattern(3, k))
  }

  lemma TradeMoves(k: nat, l: nat)
    requires k < 81 && l < 81 && k != l
    ensures Trade(k) < 81 && Trade(k) != Trade(l)
    ensures Trade(k) % 9 == k % 9 && Trade(k) / 9 / 3 == k / 9 / 3
    ensures Trade(k) != k <==> k in {0, 3, 6, 9, 12, 15}
    ensures Trade(k) != k ==> Trade(k) / 9 != k / 9
  {
  }

  lemma TurnStays(k: nat)
    requires k < 81
    ensures Turn(k) / 9 == k / 9 && Turn(k) % 3 == k % 3
    ensures k / 9 == 0 && k % 3 == 0 ==> Turn(k) == if k == 6 then 0 else k + 3
    ensures k / 9 == 1 && k % 3 == 0 ==> Turn(k) == if k == 9 then 15 else k - 3
    ensures k / 9 > 1 || k % 3 != 0 ==> Turn(k) == k
  {
  }

  lemma TurnMoves(k: nat, l: nat)
    requires k < 81 && l < 81 && k != l && k / 9 == l / 9
    ensures Turn(k) != Turn(l) && Turn(k) / 9 == Turn(l) / 9
  {
    TurnStays(k);
    TurnStays(l);
  }

  function RowShift(r: nat): nat {
    r % 3 * 3 + r / 3
  }

  lemma PatternAt(r: nat, c: nat)
    requires r < 9 && c < 9
    ensures Index(9, r, c) == 9 * r + c < 81 && Pattern(3, 9 * r + c) == (RowShift(r) + c) % 9 + 1
  {
    CellAt(9, r, c);
    CellInBoard(9, r, c);
  }

  lemma FirstRows(k: nat)
    requires k < 18
    ensures Pattern(3, k) == if k < 9 then k + 1 else (k - 6) % 9 + 1
  {
    var r, c: nat := if k < 9 then 0 else 1, if k < 9 then k else k - 9;
    assert RowShift(r) == 3 * r;
    PatternAt(r, c);
  }

  lemma TradeIsTurn(k: nat)
    requires k < 81
    ensures Pattern(3, Trade(k)) == Pattern(3, Turn(k))
  {
    if Trade(k) != k {
      TradeMoves(k, if k == 0 then 1 else 0);
      TurnStays(k);
      FirstRows(Trade(k));
      FirstRows(Turn(k));
      assert (k, Trade(k), Turn(k)) in {(0, 9, 3), (3, 12, 6), (6, 15, 0), (9, 0, 15), (12, 3, 9), (15, 6, 12)};
    }
  }

  lemma TradedDiffers(k: nat, l: nat)
    requires k < 81 && l < 81 && k != l && Related(3, k, l)
    ensures Pattern(3, Trade(k)) != Pattern(3, Trade(l))
  {
    var s := Size(3);
    assert s == 9;
    TradeMoves(k, l);
    TradeMoves(l, k);
    if SameRow(s, k, l) {
      TurnMoves(k, l);
      TradeIsTurn(k);
      TradeIsTurn(l);
      PatternDiffersInRow(3, Turn(k), Turn(l));
    } else if SameCol(s, k, l) {
      Apart(s, Trade(k), Trade(l));
      PatternDiffersInCol(3, Trade(k), Trade(l));
    } else {
      PatternDiffersInBox(3, Trade(k), Trade(l));
    }
  }

  lemma TradeChanges(k: nat)
    requires k < 81
    ensures Pattern(3, Trade(k)) != Pattern(3, k) <==> k in {0, 3, 6, 9, 12, 15}
  {
    TradeMoves(k, if k == 0 then 1 else 0);
    if Trade(k) != k {
      PatternDiffersInCol(3, Trade(k), k);
    }
  }

  /** Nine being odd, two different columns cannot be half a turn apart. */
  lemma NoHalfTurn(x: nat, y: nat, c1: nat, c2: nat)
    requires c1 < c2 < 9
    ensures (x + c1) % 9 != (y + c2) % 9 || (x + c2) % 9 != (y + c1) % 9
  {
  }

  /** f gives the board's values, and no two of its columns swap their values between two rows. */
  ghost predicate NeverSwaps(a: Board, f: (nat, nat) -> nat) {
    && |a| == 81
    && (forall r: nat, c: nat :: r < 9 && c < 9 ==> a[Index(9, r, c)] == f(r, c))
    && (forall r1: nat, r2: nat, c1: nat, c2: nat :: c1 < c2 < 9 ==> f(r1, c1) != f(r2, c2) || f(r1, c2) != f(r2, c1))
  }

  lemma NeverSwapsHasNoRectangle(a: Board, f: (nat, nat) -> nat, q: Rect)
    requires NeverSwaps(a, f) && InBoard(9, q)
    ensures !Swapped(9, a, q)
  {
    assert f(q.r1, q.c1) != f(q.r2, q.c2) || f(q.r1, q.c2) != f(q.r2, q.c1);
  }

  function PatternValue(r: nat, c: nat): nat {
    (RowShift(r) + c) % 9 + 1
  }

  lemma PatternNeverSwaps()
    ensures NeverSwaps(PatternBoard(3), PatternValue)
  {
    forall r: nat, c: nat | r < 9 && c < 9 ensures PatternBoard(3)[Index(9, r, c)] == PatternValue(r, c) {
      PatternAt(r, c);
    }
    forall r1: nat, r2: nat, c1: nat, c2: nat | c1 < c2 < 9
      ensures PatternValue(r1, c1) != PatternValue(r2, c2) || PatternValue(r1, c2) != PatternValue(r2, c1)
    {
      NoHalfTurn(RowShift(r1), RowShift(r2), c1, c2);
    }
  }

  lemma TradedSolved()
    ensures Solved(Sudoku(3), 9, TradedBoard())
  {
    forall k: nat, l: nat | k < l < 81 && Sudoku(3)(k, l) ensures TradedBoard()[k] != TradedBoard()[l] {
      TradedDiffers(k, l);
    }
    forall k: nat | k < 81 ensures 1 <= TradedBoard()[k] <= 9 {
      assert 1 <= Pattern(3, Trade(k)) <= 9;
    }
  }

  lemma TradePuzzleIsClosed()
    ensures |PatternBoard(3)| == |TradePuzzle()| == 81 && NoOpenRectangle(9, PatternBoard(3), TradePuzzle())
  {
    PatternNeverSwaps();
    forall q: Rect | InBoard(9, q) ensures !Swapped(9, PatternBoard(3), q) {
      NeverSwapsHasNoRectangle(PatternBoard(3), PatternValue, q);
    }
  }

  lemma SixCells()
    ensures |{0, 3, 6, 9, 12, 15}| == 6
  {
    assert {0, 3, 6, 9, 12, 15} == {0} + {3} + {6} + {9} + {12} + {15};
  }

  lemma SixDiffer(a: Board, g: Board)
    requires |a| == |g| == 81
    requires forall k: nat :: k < 81 ==> (a[k] != g[k] <==> k in {0, 3, 6, 9, 12, 15})
    ensures |Diff(a, g)| == 6
  {
    SixCells();
    assert Diff(a, g) == {0, 3, 6, 9, 12, 15};
  }

  lemma TradedDiff()
    ensures |PatternBoard(3)| == |TradedBoard()| == 81 && |Diff(PatternBoard(3), TradedBoard())| == 6
  {
    var a, g := PatternBoard(3), TradedBoard();
    forall k: nat | k < 81 ensures a[k] != g[k] <==> k in {0, 3, 6, 9, 12, 15} {
      TradeChanges(k);
    }
    SixDiffer(a, g);
  }

  lemma TradePuzzleFits(k: nat)
    requires k < 81 && TradePuzzle()[k] != 0
    ensures PatternBoard(3)[k] == TradePuzzle()[k] == TradedBoard()[k]
  {
  }

  /** What checkUnique and regenerate leave can still have two answers, and six differing cells
      are enough. */
  lemma NotAlwaysUnique()
    ensures |PatternBoard(3)| == |TradedBoard()| == |TradePuzzle()| == 81
    ensures NoOpenRectangle(9, PatternBoard(3), TradePuzzle())
    ensures Completes(Sudoku(3), 9, TradePuzzle(), PatternBoard(3))
    ensures Completes(Sudoku(3), 9, TradePuzzle(), TradedBoard())
    ensures |Diff(PatternBoard(3), TradedBoard())| == 6
  {
    TradePuzzleIsClosed();
    PatternSolved(3);
    TradedSolved();
    TradedDiff();
    forall k: nat | k < 81 && TradePuzzle()[k] != 0
      ensures PatternBoard(3)[k] == TradePuzzle()[k] == TradedBoard()[k]
    {
      TradePuzzleFits(k);
    }
  }

  /** What the pass promises: the grid answers the puzzle, and no swapped rectangle is open. */
  ghost predicate ClosedPuzzle(n: Pos, a: Board, clues: Board) {
    && |a| == Size(n) * Size(n) && Completes(Sudoku(n), Size(n), clues, a)
    && NoOpenRectangle(Size(n), a, clues)
  }

  ghost predicate OnlyAnswer(n: Pos, a: Board, clues: Board) {
    forall g :: Completes(Sudoku(n), Size(n), clues, g) ==> g == a
  }

  lemma TradeBlanks()
    ensures |Blanks(TradePuzzle())| == 6
  {
    forall k: nat | k < 81 ensures TradePuzzle()[k] == 0 <==> k in {0, 3, 6, 9, 12, 15} {
      TradeMoves(k, if k == 0 then 1 else 0);
    }
    SixCells();
    assert Blanks(TradePuzzle()) == {0, 3, 6, 9, 12, 15};
  }

  /** How many blanks the pass can vouch for: all closed puzzles of the page with at most m blanks have one
      answer exactly when m is at most five. */
  lemma UniqueUpToFiveBlanks(m: nat)
    ensures (forall a: Board, clues: Board ::
               ClosedPuzzle(3, a, clues) && |Blanks(clues)| <= m ==> OnlyAnswer(3, a, clues)) <==> m <= 5
  {
    if m <= 5 {
      forall a: Board, clues: Board, g: Board |
        ClosedPuzzle(3, a, clues) && |Blanks(clues)| <= m && Completes(Sudoku(3), Size(3), clues, g)
        ensures g == a
      {
        FewBlanksUnique(3, a, clues, g);
      }
    } else {
      NotAlwaysUnique();
      TradeBlanks();
      assert ClosedPuzzle(3, PatternBoard(3), TradePuzzle());
      assert Diff(PatternBoard(3), PatternBoard(3)) == {};
    }
  }
}
