/** The puzzle page (Sudo.js) for boxes of width n; the page itself uses n = 3. */
module Sudo {
  import opened Grid
  import opened Counting
  import opened Search
  import opened Lists
  import opened Pruning
  import opened Chance
  import opened Units
  import opened Ambiguity

  /** With the cursor on the first cell there is always a candidate left, as solved boards exist. */
  lemma FirstCellHasMore(n: Pos, b: Board, cands: seq<seq<nat>>, pos: seq<nat>)
    requires |b| == Size(n) * Size(n) && SearchInv(Sudoku(n), Size(n), b, cands, pos, 0)
    requires |b| > 0 && Ready(Sudoku(n), Size(n), b, cands, pos, 0)
    ensures pos[0] < |cands[0]|
  {
    SudokuSymmetric(n);
    PatternSolved(n);
    NeverExhausted(Sudoku(n), Size(n), b, cands, pos, PatternBoard(n));
  }

  // ---------- The order in which checkUnique tries rectangles ----------

  ghost predicate Before(p: Rect, q: Rect) {
    p.r1 < q.r1 || (p.r1 == q.r1 && (p.r2 < q.r2 || (p.r2 == q.r2 && (p.c1 < q.c1 || (p.c1 == q.c1 && p.c2 < q.c2)))))
  }

  ghost predicate ListedBefore(wanted: Rect -> bool, res: seq<Rect>, q: Rect) {
    NoRepeats(res) && forall p :: p in res <==> wanted(p) && Before(p, q)
  }

  /** The rectangle q itself is next in order: it is appended if wanted. */
  lemma ListedNext(wanted: Rect -> bool, res: seq<Rect>, q: Rect)
    requires ListedBefore(wanted, res, q)
    ensures ListedBefore(wanted, if wanted(q) then res + [q] else res, q.(c2 := q.c2 + 1))
  {
    forall p ensures Before(p, q.(c2 := q.c2 + 1)) <==> Before(p, q) || p == q {}
  }

  /** Nothing wanted lies between q and q'. */
  lemma ListedSkip(wanted: Rect -> bool, res: seq<Rect>, q: Rect, q': Rect)
    requires ListedBefore(wanted, res, q)
    requires forall p :: wanted(p) ==> (Before(p, q) <==> Before(p, q'))
    ensures ListedBefore(wanted, res, q')
  {
  }

  // ---------- Clues and blanks ----------

  /** The draw in initLayout: whether a cell is shown as a clue at a level. */
  predicate ShowsClue(level: int, draw: nat) {
    level < if level < 4 then draw + 1 else draw + 2
  }

  /** The clues left by one draw per cell. */
  function Dug(level: int, draws: seq<nat>, a: Board): (clues: Board)
    requires |draws| == |a|
  {
    seq(|a|, k requires 0 <= k < |a| => if ShowsClue(level, draws[k]) then a[k] else 0)
  }

  /** A draw of 0 to 3 for each cell. */
  ghost predicate Drawn(draws: seq<nat>, cells: nat) {
    |draws| == cells && forall k :: 0 <= k < cells ==> draws[k] < 4
  }

  /** Of the four draws, how many show a clue. */
  function Share(level: int): nat {
    if level <= 0 then 4 else if level <= 3 then (4 - level) as nat else if level == 4 then 1 else 0
  }

  /** A larger draw shows no fewer clues, a higher level no more, and the clues shown are just the level's
      share of the largest draws. */
  lemma ClueShare(level: int, draw: nat)
    requires draw < 4
    ensures ShowsClue(level, draw) <==> draw >= 4 - Share(level)
    ensures ShowsClue(level, draw) ==> ShowsClue(level, draw + 1) && ShowsClue(level - 1, draw)
  {
  }

  /** On four cells with the four draws, the level's share are clues. */
  lemma DugShare(level: int, a: Board)
    requires |a| == 4 && Full(a)
    ensures var clues := Dug(level, [0, 1, 2, 3], a);
      (if clues[0] != 0 then 1 else 0) + (if clues[1] != 0 then 1 else 0) +
      (if clues[2] != 0 then 1 else 0) + (if clues[3] != 0 then 1 else 0) == Share(level)
  {
    var clues := Dug(level, [0, 1, 2, 3], a);
    forall k: nat | k < 4 ensures clues[k] != 0 <==> k >= 4 - Share(level) {
      ClueShare(level, k);
      assert clues[k] == if ShowsClue(level, k) then a[k] else 0;
    }
  }

  /** On any board: a higher level and smaller draws leave no clue that was blank before. */
  lemma DugIsMonotone(level: int, draws: seq<nat>, level': int, draws': seq<nat>, a: Board)
    requires Drawn(draws, |a|) && Drawn(draws', |a|) && level <= level'
    requires forall k :: 0 <= k < |a| ==> draws'[k] <= draws[k]
    ensures Extends(Dug(level', draws', a), Dug(level, draws, a))
  {
    forall k | 0 <= k < |a| ensures ShowsClue(level', draws'[k]) ==> ShowsClue(level, draws[k]) {
      ClueShare(level, draws[k]);
      ClueShare(level', draws'[k]);
      assert Share(level') <= Share(level);
    }
  }

  lemma DrawsFor(level: int, clues: Board, a: Board) returns (draws: seq<nat>)
    requires 1 <= level <= 4 && Full(a) && Extends(clues, a)
    ensures Drawn(draws, |a|) && Dug(level, draws, a) == clues
  {
    draws := seq(|a|, k requires 0 <= k < |a| => if clues[k] == 0 then 0 else 3);
  }

  /** Levels 1 to 4 are exactly those at which the draws can leave every choice of clues. */
  lemma AnyCluesIff(level: int, a: Board)
    requires Full(a) && a != []
    ensures (forall clues :: Extends(clues, a) ==>
               exists draws :: Drawn(draws, |a|) && Dug(level, draws, a) == clues) <==> 1 <= level <= 4
  {
    if 1 <= level <= 4 {
      forall clues | Extends(clues, a) ensures exists draws :: Drawn(draws, |a|) && Dug(level, draws, a) == clues {
        var draws := DrawsFor(level, clues, a);
      }
    } else {
      var blank: Board, whole := seq(|a|, _ => 0), a;
      assert Extends(blank, a) && Extends(whole, a);
      forall draws | Drawn(draws, |a|) ensures Dug(level, draws, a) != if level < 1 then blank else whole {
        assert Dug(level, draws, a)[0] == if ShowsClue(level, draws[0]) then a[0] else 0;
      }
    }
  }

  /** The broken promise is reachable: at every level from 1 to 4 some shuffles make the search find the
      pattern and some draws leave a puzzle that the pass does not touch and that has two answers. */
  lemma TwoAnswersCanBePosed(level: int)
    requires 1 <= level <= 4
    ensures exists run, draws, a: Board :: (
      && Finds(Sudoku(3), 9, run, a) && Drawn(draws, |a|)
      && ClosedPuzzle(3, a, Dug(level, draws, a)) && !OnlyAnswer(3, a, Dug(level, draws, a)))
  {
    var a := PatternBoard(3);
    NotAlwaysUnique();
    SudokuSymmetric(3);
    FindsExactlySolved(Sudoku(3), 9, a);
    var run :| Finds(Sudoku(3), 9, run, a);
    var draws := DrawsFor(level, TradePuzzle(), a);
    assert Diff(a, a) == {};
    assert ClosedPuzzle(3, a, Dug(level, draws, a)) && !OnlyAnswer(3, a, Dug(level, draws, a));
  }

  // ---------- Conflict marks ----------

  /** Two different related cells hold the same digit. */
  ghost predicate Clash(n: Pos, b: Board, k: nat, l: nat) {
    k < |b| && l < |b| && k != l && Related(n, k, l) && b[k] == b[l] && b[k] != 0
  }

  ghost predicate InConflict(n: Pos, b: Board, k: nat) {
    exists l: nat :: Clash(n, b, k, l)
  }

  lemma ClashIsMutual(n: Pos, b: Board, k: nat, l: nat)
    ensures Clash(n, b, k, l) <==> Clash(n, b, l, k)
  {
  }

  /** The cells given as clues never clash among themselves. */
  lemma CluesDoNotClash(n: Pos, a: Board, b: Board, k: nat, l: nat)
    requires |a| == |b| && ConflictFree(Sudoku(n), a) && Full(a) && Clash(n, b, k, l)
    ensures b[k] != a[k] || b[l] != a[l]
  {
    assert Sudoku(n)(k, l) && Sudoku(n)(l, k);
  }

  /** The marks due to the editable cells before t. */
  ghost predicate MarkedUpTo(n: Pos, b: Board, editable: seq<bool>, t: nat, l: nat)
    requires |editable| == |b|
  {
    exists k: nat :: k < t && k < |b| && editable[k] && (Clash(n, b, k, l) || (k == l && InConflict(n, b, l)))
  }

  lemma MarkedNext(n: Pos, b: Board, editable: seq<bool>, t: nat, l: nat)
    requires |editable| == |b| && t < |b|
    ensures MarkedUpTo(n, b, editable, t + 1, l) <==>
            MarkedUpTo(n, b, editable, t, l) || (editable[t] && (Clash(n, b, t, l) || (t == l && InConflict(n, b, l))))
  {
  }

  /** Starting from the editable cells only loses no conflict, as clues do not clash. */
  lemma MarkedIsInConflict(n: Pos, a: Board, b: Board, editable: seq<bool>, l: nat)
    requires |a| == |b| == |editable| && ConflictFree(Sudoku(n), a) && Full(a) && l < |b|
    requires forall k :: 0 <= k < |b| && !editable[k] ==> b[k] == a[k]
    ensures MarkedUpTo(n, b, editable, |b|, l) <==> InConflict(n, b, l)
  {
    if k: nat :| k < |b| && editable[k] && Clash(n, b, k, l) {
      ClashIsMutual(n, b, k, l);
    }
    if m: nat :| Clash(n, b, l, m) {
      CluesDoNotClash(n, a, b, l, m);
      ClashIsMutual(n, b, l, m);
      assert editable[l] || editable[m];
    }
  }

  lemma NoConflictIff(n: Pos, b: Board)
    ensures ConflictFree(Sudoku(n), b) <==> forall k: nat :: k < |b| ==> !InConflict(n, b, k)
  {
    if ConflictFree(Sudoku(n), b) {
      forall k: nat, l: nat ensures !Clash(n, b, k, l) {
        assert Sudoku(n)(k, l) == Related(n, k, l) && Sudoku(n)(l, k) == Related(n, l, k);
      }
    }
    if forall k: nat :: k < |b| ==> !InConflict(n, b, k) {
      forall k: nat, l: nat | k < l < |b| && Sudoku(n)(k, l) && b[k] != 0 ensures b[k] != b[l] {
        assert !InConflict(n, b, k) && !Clash(n, b, k, l);
      }
    }
  }

  /** A full grid without marks that keeps the clues is the generated answer, or is wrong against
      it in six cells or more. */
  lemma AcceptedOrSixFlags(n: Pos, a: Board, clues: Board, b: Board)
    requires |a| == Size(n) * Size(n) && Solved(Sudoku(n), Size(n), a)
    requires Extends(clues, a) && NoOpenRectangle(Size(n), a, clues)
    requires Extends(clues, b) && Full(b) && InRange(Size(n), b)
    requires forall k: nat :: k < |b| ==> !InConflict(n, b, k)
    ensures b == a || |Diff(a, b)| >= 6
  {
    NoConflictIff(n, b);
    SolvedIsLatin(n, a);
    SolvedIsLatin(n, b);
    if b != a {
      OtherAnswersAreFar(Size(n), a, clues, b);
    }
  }

  // ---------- Wrong cells ----------

  ghost function DiffBefore(a: Board, b: Board, t: nat): set<nat>
    requires |a| == |b|
  {
    set k: nat | k < t && k < |a| && a[k] != b[k]
  }

  lemma DiffNext(a: Board, b: Board, t: nat)
    requires |a| == |b| && t < |a|
    ensures |DiffBefore(a, b, t + 1)| == |DiffBefore(a, b, t)| + if a[t] != b[t] then 1 else 0
  {
    assert DiffBefore(a, b, t + 1) == DiffBefore(a, b, t) + if a[t] != b[t] then {t} else {};
  }

  // ---------- Corners given away ----------

  /** The corner of a rectangle that a draw of 0 to 3 gives away. */
  function Corner(s: Pos, q: Rect, rdm: nat): nat {
    Index(s, if rdm / 2 == 0 then q.r1 else q.r2, if rdm % 2 == 0 then q.c1 else q.c2)
  }

  lemma CornersByDraw(s: Pos, q: Rect)
    requires InBoard(s, q)
    ensures CornerSet(s, q) == set d: nat | d < 4 :: Corner(s, q, d)
    ensures forall d: nat :: d < 4 ==> Corner(s, q, d) < s * s
  {
    CornersInBoard(s, q);
    assert {Corner(s, q, 0), Corner(s, q, 1), Corner(s, q, 2), Corner(s, q, 3)} == CornerSet(s, q);
  }

  lemma OpenIffBlank(s: Pos, clues: Board, q: Rect)
    requires |clues| == s * s && InBoard(s, q)
    ensures (CornersInBoard(s, q);
      Open(s, clues, q) <==>
      && clues[Index(s, q.r1, q.c1)] == 0 && clues[Index(s, q.r1, q.c2)] == 0
      && clues[Index(s, q.r2, q.c1)] == 0 && clues[Index(s, q.r2, q.c2)] == 0)
  {
    CornersInBoard(s, q);
  }

  /** How many rectangles of a list are open. */
  ghost function OpenCount(s: Pos, clues: Board, list: seq<Rect>): nat
    requires |clues| == s * s && forall q :: q in list ==> InBoard(s, q)
  {
    if list == [] then 0
    else
      var q := list[|list| - 1];
      OpenCount(s, clues, list[..|list| - 1]) + if Open(s, clues, q) then 1 else 0
  }

  lemma DiffGrows(a: Board, b: Board, c: Board)
    requires |a| == |b| == |c|
    ensures |Diff(a, c)| <= |Diff(a, b)| + |Diff(b, c)|
  {
    var both := Diff(a, b) + Diff(b, c);
    assert Diff(a, c) <= both;
    assert |both - Diff(a, c)| == |both| - |Diff(a, c)|;
    assert |both| == |Diff(a, b)| + |Diff(b, c) - Diff(a, b)|;
    assert |Diff(b, c) * Diff(a, b)| + |Diff(b, c) - Diff(a, b)| == |Diff(b, c)|;
  }

  lemma OneMoreDiffers(a: Board, b: Board, k: nat, v: nat)
    requires |a| == |b| && k < |b|
    ensures |Diff(a, b[k := v])| <= |Diff(a, b)| + 1
  {
    var more := Diff(a, b) + {k};
    assert Diff(a, b[k := v]) <= more;
    assert |more - Diff(a, b[k := v])| == |more| - |Diff(a, b[k := v])|;
  }

  /** What one turn of regenerate leaves: the drawn corner of an open rectangle is given away. */
  ghost function Turned(s: Pos, clues: Board, a: Board, q: Rect, rdm: nat): (now: Board)
    requires |clues| == |a| == s * s && InBoard(s, q) && rdm < 4
    ensures |now| == s * s
  {
    CornersByDraw(s, q);
    if Open(s, clues, q) then clues[Corner(s, q, rdm) := a[Corner(s, q, rdm)]] else clues
  }

  lemma TurnedIsRight(s: Pos, clues: Board, a: Board, q: Rect, rdm: nat)
    requires |clues| == |a| == s * s && InBoard(s, q) && rdm < 4 && Full(a) && Extends(clues, a)
    ensures var now := Turned(s, clues, a, q, rdm);
      && Extends(clues, now) && Extends(now, a) && !Open(s, now, q)
      && (forall k :: 0 <= k < s * s && now[k] != clues[k] ==> k in CornerSet(s, q) && Open(s, clues, q))
      && |Diff(clues, now)| <= if Open(s, clues, q) then 1 else 0
  {
    CornersByDraw(s, q);
    var now, k := Turned(s, clues, a, q, rdm), Corner(s, q, rdm);
    assert k in CornerSet(s, q);
    if Open(s, clues, q) {
      assert now[k] != 0;
      OneMoreDiffers(clues, clues, k, a[k]);
    }
    assert Diff(clues, clues) == {};
  }

  /** What the whole pass leaves. */
  ghost function ClosedBy(s: Pos, clues: Board, a: Board, list: seq<Rect>, rdms: seq<nat>): (now: Board)
    requires |clues| == |a| == s * s && (forall q :: q in list ==> InBoard(s, q)) && Drawn(rdms, |list|)
    ensures |now| == s * s
  {
    if list == [] then clues
    else
      var i := |list| - 1;
      Turned(s, ClosedBy(s, clues, a, list[..i], rdms[..i]), a, list[i], rdms[i])
  }

  lemma ClosedByNext(s: Pos, clues: Board, a: Board, list: seq<Rect>, rdms: seq<nat>, i: nat, rdm: nat)
    requires |clues| == |a| == s * s && (forall q :: q in list ==> InBoard(s, q))
    requires i < |list| && Drawn(rdms, i) && rdm < 4
    ensures ClosedBy(s, clues, a, list[..i + 1], rdms + [rdm]) ==
            Turned(s, ClosedBy(s, clues, a, list[..i], rdms), a, list[i], rdm)
  {
    assert list[..i + 1][..i] == list[..i] && (rdms + [rdm])[..i] == rdms;
  }

  /** The pass keeps the clues, closes every rectangle of the list, gives away only corners of rectangles
      that were open, and no more cells than there were of these. */
  ghost predicate PassOk(s: Pos, clues: Board, now: Board, a: Board, list: seq<Rect>) {
    && |clues| == |now| == |a| == s * s && (forall q :: q in list ==> InBoard(s, q))
    && Extends(clues, now) && Extends(now, a) && (forall q :: q in list ==> !Open(s, now, q))
    && (forall k :: 0 <= k < s * s && now[k] != clues[k] ==>
          exists q :: q in list && k in CornerSet(s, q) && Open(s, clues, q))
    && |Diff(clues, now)| <= OpenCount(s, clues, list)
  }

  lemma PassChanges(s: Pos, clues: Board, before: Board, front: seq<Rect>, q: Rect, now: Board, list: seq<Rect>)
    requires |clues| == |before| == |now| == s * s && InBoard(s, q) && list == front + [q]
    requires forall p :: p in list ==> InBoard(s, p)
    requires forall k :: 0 <= k < s * s && before[k] != clues[k] ==>
               exists p :: p in front && k in CornerSet(s, p) && Open(s, clues, p)
    requires forall k :: 0 <= k < s * s && now[k] != before[k] ==> k in CornerSet(s, q) && Open(s, clues, q)
    ensures forall k :: 0 <= k < s * s && now[k] != clues[k] ==>
              exists p :: p in list && k in CornerSet(s, p) && Open(s, clues, p)
  {
    forall k | 0 <= k < s * s && now[k] != clues[k]
      ensures exists p :: p in list && k in CornerSet(s, p) && Open(s, clues, p)
    {
      if now[k] != before[k] {
        assert q in list;
      } else {
        var p :| p in front && k in CornerSet(s, p) && Open(s, clues, p);
        assert p in list;
      }
    }
  }

  lemma PassGoesOn(s: Pos, clues: Board, before: Board, a: Board, front: seq<Rect>, q: Rect, rdm: nat,
                   now: Board, list: seq<Rect>)
    requires PassOk(s, clues, before, a, front) && rdm < 4 && Full(a) && InBoard(s, q)
    requires now == Turned(s, before, a, q, rdm) && list == front + [q]
    ensures PassOk(s, clues, now, a, list)
  {
    TurnedIsRight(s, before, a, q, rdm);
    OpenShrinks(s, clues, before);
    OpenShrinks(s, before, now);
    DiffGrows(clues, before, now);
    assert list[..|list| - 1] == front && q in list;
    PassChanges(s, clues, before, front, q, now, list);
  }

  lemma PassStarts(s: Pos, clues: Board, a: Board)
    requires |clues| == |a| == s * s && Extends(clues, a)
    ensures PassOk(s, clues, clues, a, [])
  {
    assert Diff(clues, clues) == {};
  }

  lemma {:induction false} ClosedByIsRight(s: Pos, clues: Board, a: Board, list: seq<Rect>, rdms: seq<nat>)
    requires |clues| == |a| == s * s && (forall q :: q in list ==> InBoard(s, q)) && Drawn(rdms, |list|)
    requires Full(a) && Extends(clues, a)
    ensures PassOk(s, clues, ClosedBy(s, clues, a, list, rdms), a, list)
  {
    if list == [] {
      PassStarts(s, clues, a);
    } else {
      var i := |list| - 1;
      var front, q, rdm := list[..i], list[i], rdms[i];
      var before := ClosedBy(s, clues, a, front, rdms[..i]);
      ClosedByIsRight(s, clues, a, front, rdms[..i]);
      assert list == front + [q];
      PassGoesOn(s, clues, before, a, front, q, rdm, ClosedBy(s, clues, a, list, rdms), list);
    }
  }

  class Puzzle {
    const n: Pos
    const size: Pos
    const layout: array<nat>
    const answer: array<nat>
    const answerPosition: array<nat>
    const solving: array<nat>
    const editable: array<bool>  // the cell's element has class 'editable'
    const marked: array<bool>  // the cell's element has class 'background0'
    var resetData: seq<nat>

    ghost predicate Valid()
      reads this
    {
      && size == Size(n)
      && layout.Length == answerPosition.Length == solving.Length == size * size
      && editable.Length == marked.Length == size * size && editable != marked
      && answer.Length == size * size * size
      && layout != answer && layout != answerPosition && layout != solving
      && answer != answerPosition && answer != solving && answerPosition != solving
    }

    constructor (n: Pos)
      ensures Valid() && this.n == n
      ensures fresh(layout) && fresh(answer) && fresh(answerPosition) && fresh(solving)
      ensures fresh(editable) && fresh(marked)
    {
      this.n := n;
      size := Size(n);
      layout := new nat[Size(n) * Size(n)];
      answer := new nat[Size(n) * Size(n) * Size(n)];
      answerPosition := new nat[Size(n) * Size(n)];
      solving := new nat[Size(n) * Size(n)];
      editable := new bool[Size(n) * Size(n)];
      marked := new bool[Size(n) * Size(n)];
      resetData := [];
    }

    ghost function Cands(): (c: seq<seq<nat>>)
      requires Valid()
      reads this, answer
      ensures |c| == size * size
    {
      CandsOf(answer[..], size)
    }

    ghost predicate ClearedUpTo(t: nat)
      reads this, layout, answer, answerPosition, solving
    {
      && (forall k :: 0 <= k < t && k < layout.Length ==> layout[k] == 0)
      && (forall k :: 0 <= k < t && k < answerPosition.Length ==> answerPosition[k] == 0)
      && (forall k :: 0 <= k < t && k < solving.Length ==> solving[k] == 0)
      && (forall x :: 0 <= x < t * size && x < answer.Length ==> answer[x] == 0)
    }

    /** Clears the block of candidates at base. */
    method ClearBlock(base: nat)
      requires base + size <= answer.Length
      modifies answer
      ensures forall x :: 0 <= x < answer.Length ==>
                answer[x] == if base <= x < base + size then 0 else old(answer[x])
    {
      for h := 0 to size
        invariant forall x :: 0 <= x < answer.Length ==>
                    answer[x] == if base <= x < base + h then 0 else old(answer[x])
      {
        answer[base + h] := 0;
      }
    }

    /** Where the candidates of a cell start. */
    method BlockStart(row: nat, col: nat) returns (base: nat)
      requires Valid() && row < size && col < size
      ensures base == Index(size, row, col) * size && base + size <= answer.Length
    {
      CellInBoard(size, row, col);
      BlockBounds(size, Index(size, row, col));
      BlockBase(size, row, col);
      base := row * size * size + col * size;
    }

    method InitCell(i: nat, j: nat)
      requires Valid() && i < size && j < size && ClearedUpTo(Index(size, i, j))
      modifies layout, answer, answerPosition, solving
      ensures ClearedUpTo(Index(size, i, j) + 1)
    {
      CellInBoard(size, i, j);
      layout[i * size + j] := 0;
      solving[i * size + j] := 0;
      answerPosition[i * size + j] := 0;
      var base := BlockStart(i, j);
      ClearBlock(base);
      RowEnds(size, Index(size, i, j));
    }

    method Init()
      requires Valid()
      modifies layout, answer, answerPosition, solving
      ensures forall k :: 0 <= k < size * size ==> layout[k] == 0 && answerPosition[k] == 0 && solving[k] == 0
      ensures forall x :: 0 <= x < answer.Length ==> answer[x] == 0
    {
      for i := 0 to size
        invariant ClearedUpTo(i * size)
      {
        for j := 0 to size
          invariant ClearedUpTo(i * size + j)
        {
          InitCell(i, j);
        }
        RowEnds(size, i);
      }
    }

    method DrawAll(base: nat, whole: seq<nat>)
      requires |whole| == size && base + size <= answer.Length
      modifies answer
      ensures multiset(answer[..][base..base + size]) == multiset(whole)
      ensures SameOutside(old(answer[..]), answer[..], base, base + size)
    {
      var list := whole;
      ghost var out: seq<nat> := [];
      var rdm, idx := 0, 0;
      while |list| != 0
        invariant |out| == idx && idx + |list| == |whole|
        invariant forall i :: 0 <= i < idx ==> answer[base + i] == out[i]
        invariant multiset(out) + multiset(list) == multiset(whole)
        invariant SameOutside(old(answer[..]), answer[..], base, base + size)
        decreases |list|
      {
        rdm := RandomBelow(|list|);
        DrawOne(out, list, rdm);
        answer[base + idx] := list[rdm];
        out := out + [list[rdm]];
        list := list[..rdm] + list[rdm + 1..];
        idx := idx + 1;
      }
      assert answer[..][base..base + size] == out;
    }

    method ListBlock(base: nat) returns (list: seq<nat>)
      requires base + size <= answer.Length
      ensures list == answer[..][base..base + size]
    {
      list := [];
      for i := 0 to size
        invariant list == answer[..][base..base + i]
      {
        list := list + [answer[base + i]];
      }
    }

    /** Draws the entries of a block one by one in random order and writes them back. */
    method ShuffleAt(base: nat)
      requires base + size <= answer.Length
      modifies answer
      ensures multiset(answer[..][base..base + size]) == multiset(old(answer[..][base..base + size]))
      ensures SameOutside(old(answer[..]), answer[..], base, base + size)
    {
      var list := ListBlock(base);
      DrawAll(base, list);
    }

    method RandomAnswer(row: nat, col: nat)
      requires Valid() && row < size && col < size && Index(size, row, col) < size * size
      modifies answer
      ensures multiset(BlockOf(answer[..], size, Index(size, row, col))) ==
              multiset(old(BlockOf(answer[..], size, Index(size, row, col))))
      ensures SameOutside(old(answer[..]), answer[..],
                          Index(size, row, col) * size, Index(size, row, col) * size + size)
    {
      var base := BlockStart(row, col);
      ShuffleAt(base);
    }

    /** Takes the digit of one related cell out of the block at base. */
    method StrikeCell(base: nat, cell: nat, ghost seen: set<nat>)
      requires layout != answer && base + size <= answer.Length
      requires cell < layout.Length && layout[cell] <= size
      requires Pruned(answer[base..base + size], layout[..], seen)
      modifies answer
      ensures Pruned(answer[base..base + size], layout[..], seen + {cell})
      ensures SameOutside(old(answer[..]), answer[..], base, base + size)
    {
      StrikeOne(answer[base..base + size], layout[..], seen, cell);
      ghost var after := Strike(answer[base..base + size], layout[..], cell);
      if layout[cell] != 0 {
        answer[base + layout[cell] - 1] := 0;
      }
      assert answer[base..base + size] == after;
    }

    /** Lists all digits in the block at base and strikes out those of the row and column. */
    method StrikeLines(base: nat, row: nat, col: nat)
      requires layout != answer && layout.Length == size * size && InRange(size, layout[..])
      requires row < size && col < size && base + size <= answer.Length
      modifies answer
      ensures Pruned(answer[base..base + size], layout[..], Lines(size, row, col, size))
      ensures SameOutside(old(answer[..]), answer[..], base, base + size)
    {
      for i := 1 to size + 1
        invariant forall x :: base <= x < base + i - 1 ==> answer[x] == x - base + 1
        invariant SameOutside(old(answer[..]), answer[..], base, base + size)
      {
        answer[base + i - 1] := i;
      }
      for i := 0 to size
        invariant Pruned(answer[base..base + size], layout[..], Lines(size, row, col, i))
        invariant SameOutside(old(answer[..]), answer[..], base, base + size)
      {
        ghost var seen := Lines(size, row, col, i);
        CellInBoard(size, i, col);
        CellInBoard(size, row, i);
        StrikeCell(base, i * size + col, seen);
        StrikeCell(base, row * size + i, seen + {Index(size, i, col)});
      }
    }

    /** Strikes out the digits of the box at (top, left) as well. */
    method StrikeBox(base: nat, top: nat, left: nat, ghost lines: set<nat>)
      requires layout != answer && layout.Length == size * size && InRange(size, layout[..])
      requires top + n <= size && left + n <= size && base + size <= answer.Length
      requires Pruned(answer[base..base + size], layout[..], lines)
      modifies answer
      ensures Pruned(answer[base..base + size], layout[..], lines + Patch(size, top, left, n, n, 0))
      ensures SameOutside(old(answer[..]), answer[..], base, base + size)
    {
      assert lines + Patch(size, top, left, n, 0, 0) == lines;
      for i := top to top + n
        invariant Pruned(answer[base..base + size], layout[..], lines + Patch(size, top, left, n, i - top, 0))
        invariant SameOutside(old(answer[..]), answer[..], base, base + size)
      {
        for j := left to left + n
          invariant Pruned(answer[base..base + size], layout[..], lines + Patch(size, top, left, n, i - top, j - left))
          invariant SameOutside(old(answer[..]), answer[..], base, base + size)
        {
          CellInBoard(size, i, j);
          ghost var seen := lines + Patch(size, top, left, n, i - top, j - left);
          StrikeCell(base, i * size + j, seen);
          assert seen + {Index(size, i, j)} == lines + Patch(size, top, left, n, i - top, j + 1 - left);
        }
      }
    }

    /** The part of getAnswer before the reordering. */
    method PruneAt(row: nat, col: nat, base: nat)
      requires layout != answer && layout.Length == size * size && size == Size(n) && InRange(size, layout[..])
      requires row < size && col < size && base + size <= answer.Length
      modifies answer
      ensures Pruned(answer[base..base + size], layout[..], Visited(n, row, col))
      ensures SameOutside(old(answer[..]), answer[..], base, base + size)
    {
      var subnum := n;
      var top, left := BandStart(subnum, row), BandStart(subnum, col);
      assert top + subnum <= size && left + subnum <= size by {
        BandInBoard(n, row);
        BandInBoard(n, col);
      }
      StrikeLines(base, row, col);
      StrikeBox(base, top, left, Lines(size, row, col, size));
    }

    method GetAnswer(row: nat, col: nat)
      requires Valid() && row < size && col < size && Index(size, row, col) < size * size
      requires InRange(size, layout[..])
      modifies answer
      ensures NoRepeats(Cands()[Index(size, row, col)])
      ensures forall d: nat :: d in Cands()[Index(size, row, col)] <==>
                               Legal(Sudoku(n), size, layout[..], Index(size, row, col), d)
      ensures forall l :: 0 <= l < size * size && l != Index(size, row, col) ==> Cands()[l] == old(Cands())[l]
    {
      ghost var k := Index(size, row, col);
      var base := BlockStart(row, col);
      PruneAt(row, col, base);
      ghost var pruned := BlockOf(answer[..], size, k);
      RandomAnswer(row, col);
      PrunedCandidates(n, row, col, pruned, BlockOf(answer[..], size, k), layout[..]);
      OtherCands(old(answer[..]), answer[..], size, k);
    }

    method CountAt(base: nat) returns (count: nat)
      requires base + size <= answer.Length
      ensures count == |NonZero(answer[..][base..base + size])|
    {
      ghost var block := answer[..][base..base + size];
      count := 0;
      for i := 0 to size
        invariant count == |NonZero(block[..i])|
      {
        if answer[base + i] != 0 {
          count := count + 1;
        }
        assert block[..i + 1][..i] == block[..i];
      }
      assert block[..size] == block;
    }

    method GetAnswerCount(row: nat, col: nat) returns (count: nat)
      requires Valid() && row < size && col < size && Index(size, row, col) < size * size
      ensures count == |Cands()[Index(size, row, col)]|
    {
      var base := BlockStart(row, col);
      count := CountAt(base);
    }

    method NumAt(base: nat, ansPos: nat) returns (num: nat)
      requires base + size <= answer.Length
      ensures var c := NonZero(answer[..][base..base + size]); num == if ansPos < |c| then c[ansPos] else 0
    {
      ghost var block := answer[..][base..base + size];
      var cnt := 0;
      for i := 0 to size
        invariant cnt == |NonZero(block[..i])| && cnt <= ansPos
      {
        assert block[..i + 1][..i] == block[..i];
        if cnt == ansPos && answer[base + i] != 0 {
          NonZeroPrefix(block, i + 1);
          return answer[base + i];
        }
        if answer[base + i] != 0 {
          cnt := cnt + 1;
        }
      }
      assert block[..size] == block;
      return 0;
    }

    /** The ansPos-th candidate of a cell, or 0 when it has no more than ansPos of them. */
    method GetAnswerNum(row: nat, col: nat, ansPos: nat) returns (num: nat)
      requires Valid() && row < size && col < size && Index(size, row, col) < size * size
      ensures var c := Cands()[Index(size, row, col)]; num == if ansPos < |c| then c[ansPos] else 0
    {
      var base := BlockStart(row, col);
      num := NumAt(base, ansPos);
    }

    /** What the search knows with the cursor on cell cur. */
    ghost predicate Searching(row: nat, col: nat)
      requires Valid()
      reads this, layout, answer, answerPosition
    {
      && row <= size && col < size && (row == size ==> col == 0)
      && Index(size, row, col) <= size * size
      && SearchInv(Sudoku(n), size, layout[..], Cands(), answerPosition[..], Index(size, row, col))
    }

    ghost predicate Listing(row: nat, col: nat)
      requires Valid()
      reads this, layout, answer, answerPosition
    {
      && Searching(row, col) && Index(size, row, col) < size * size
      && Ready(Sudoku(n), size, layout[..], Cands(), answerPosition[..], Index(size, row, col))
    }

    ghost function Work(row: nat, col: nat): nat
      requires Valid() && Index(size, row, col) <= size * size
      reads this, answerPosition
    {
      Remaining(size, answerPosition[..], Index(size, row, col))
    }

    ghost function Snapshot(row: nat, col: nat): State
      requires Valid()
      reads this, layout, answer, answerPosition
    {
      State(layout[..], Cands(), answerPosition[..], Index(size, row, col))
    }

    /** The turns taken so far, the last of which has led to the present state. */
    ghost predicate Ran(run: seq<State>, row: nat, col: nat)
      requires Valid()
      reads this, layout, answer, answerPosition
    {
      Run(Sudoku(n), size, size * size, run) && run[|run| - 1] == Snapshot(row, col)
    }

    /** The same, but since then the cursor cell has been visited. */
    ghost predicate RanAndSeen(run: seq<State>, row: nat, col: nat)
      requires Valid() && Index(size, row, col) < size * size
      reads this, layout, answer, answerPosition
    {
      && Run(Sudoku(n), size, size * size, run)
      && var x := run[|run| - 1];
        x == Snapshot(row, col).(cands := x.cands) && |x.cands| == size * size && Seen(Sudoku(n), size, x, Cands())
    }

    /** The state after freeing the cell before the cursor, and that after placing the next candidate. */
    ghost function BackState(row: nat, col: nat): State
      requires Valid() && 0 < Index(size, row, col) < size * size
      reads this, layout, answer, answerPosition
    {
      var cur := Index(size, row, col);
      State(layout[..][cur - 1 := 0], Cands(), answerPosition[..][cur := 0], cur - 1)
    }

    ghost function AheadState(row: nat, col: nat): State
      requires Valid() && Index(size, row, col) < size * size
      requires answerPosition[Index(size, row, col)] < |Cands()[Index(size, row, col)]|
      reads this, layout, answer, answerPosition
    {
      var cur := Index(size, row, col);
      var p := answerPosition[cur];
      State(layout[..][cur := Cands()[cur][p]], Cands(), answerPosition[..][cur := p + 1], cur + 1)
    }

    /** The cell before the cursor, and the one after it. */
    method CellBefore(row: nat, col: nat) returns (row': nat, col': nat)
      requires row < size && col < size && (row > 0 || col > 0)
      ensures row' < size && col' < size && Index(size, row', col') == Index(size, row, col) - 1
    {
      StepBack(size, row, col);
      if col > 0 {
        row', col' := row, col - 1;
      } else {
        row', col' := row - 1, size - 1;
      }
    }

    method CellAfter(row: nat, col: nat) returns (row': nat, col': nat)
      requires row < size && col < size
      ensures row' <= size && col' < size && (row' == size ==> col' == 0)
      ensures Index(size, row', col') == Index(size, row, col) + 1 <= size * size
    {
      StepAhead(size, row, col);
      if col == size - 1 {
        row', col' := row + 1, 0;
      } else {
        row', col' := row, col + 1;
      }
    }

    /** Gives up the cursor cell and frees the cell before it. */
    method GoBack(row: nat, col: nat) returns (row': nat, col': nat)
      requires Valid() && row < size && Index(size, row, col) < size * size && Listing(row, col)
      requires row > 0 || col > 0
      requires answerPosition[Index(size, row, col)] == |Cands()[Index(size, row, col)]|
      modifies layout, answerPosition
      ensures Index(size, row', col') == Index(size, row, col) - 1 && row' < size && col' < size
      ensures Snapshot(row', col') == old(BackState(row, col))
      ensures Searching(row', col') && Work(row', col') < old(Work(row, col))
    {
      ghost var b, pos, cur := layout[..], answerPosition[..], Index(size, row, col);
      row', col' := CellBefore(row, col);
      SudokuSymmetric(n);
      Backward(Sudoku(n), size, b, Cands(), pos, cur);
      BackwardTerminates(size, pos, cur);
      answerPosition[row * size + col] := 0;
      layout[row' * size + col'] := 0;
      assert layout[..] == b[cur - 1 := 0] && answerPosition[..] == pos[cur := 0];
    }

    /** Writes the next candidate into the cursor cell. */
    method GoAhead(row: nat, col: nat) returns (row': nat, col': nat)
      requires Valid() && row < size && Index(size, row, col) < size * size && Listing(row, col)
      requires answerPosition[Index(size, row, col)] < |Cands()[Index(size, row, col)]|
      modifies layout, answerPosition
      ensures Index(size, row', col') == Index(size, row, col) + 1 <= size * size && col' < size
      ensures Snapshot(row', col') == old(AheadState(row, col))
      ensures Searching(row', col') && Work(row', col') < old(Work(row, col))
    {
      ghost var b, pos, cur := layout[..], answerPosition[..], Index(size, row, col);
      row', col' := CellAfter(row, col);
      Forward(Sudoku(n), size, b, Cands(), pos, cur);
      ForwardTerminates(size, pos, cur);
      var num := GetAnswerNum(row, col, answerPosition[row * size + col]);
      layout[row * size + col] := num;
      answerPosition[row * size + col] := answerPosition[row * size + col] + 1;
      assert layout[..] == b[cur := num] && answerPosition[..] == pos[cur := pos[cur] + 1];
    }

    /** Lists the candidates of the cursor cell unless the search came back to it. */
    method Visit(row: nat, col: nat, ghost run: seq<State>) returns (count: nat)
      requires Valid() && row < size && col < size && Index(size, row, col) < size * size
      requires Searching(row, col) && Ran(run, row, col)
      modifies answer
      ensures Listing(row, col) && count == |Cands()[Index(size, row, col)]|
      ensures RanAndSeen(run, row, col)
    {
      ghost var rel, b, pos, cur := Sudoku(n), layout[..], answerPosition[..], Index(size, row, col);
      SearchInRange(rel, size, b, Cands(), pos, cur);
      if answerPosition[row * size + col] == 0 {
        ghost var before := Cands();
        GetAnswer(row, col);
        Listed(rel, size, b, before, Cands(), pos, cur);
      }
      count := GetAnswerCount(row, col);
    }

    /** Stepping back and stepping on, as turns of the run. */
    method Retreat(row: nat, col: nat, ghost run: seq<State>)
      returns (row': nat, col': nat, ghost run': seq<State>)
      requires Valid() && row < size && Index(size, row, col) < size * size && Listing(row, col)
      requires RanAndSeen(run, row, col)
      requires row > 0 || col > 0
      requires answerPosition[Index(size, row, col)] == |Cands()[Index(size, row, col)]|
      modifies layout, answerPosition
      ensures row' < size && col' < size && Index(size, row', col') <= size * size
      ensures Searching(row', col') && Work(row', col') < old(Work(row, col)) && Ran(run', row', col')
    {
      ghost var lists := Cands();
      row', col' := GoBack(row, col);
      ghost var y := Snapshot(row', col');
      RunBack(Sudoku(n), size, size * size, run, lists, y);
      run' := run + [y];
    }

    method Advance(row: nat, col: nat, ghost run: seq<State>)
      returns (row': nat, col': nat, ghost run': seq<State>)
      requires Valid() && row < size && Index(size, row, col) < size * size && Listing(row, col)
      requires RanAndSeen(run, row, col)
      requires answerPosition[Index(size, row, col)] < |Cands()[Index(size, row, col)]|
      modifies layout, answerPosition
      ensures row' <= size && col' < size && Index(size, row', col') <= size * size
      ensures Searching(row', col') && Work(row', col') < old(Work(row, col)) && Ran(run', row', col')
    {
      ghost var lists := Cands();
      row', col' := GoAhead(row, col);
      ghost var y := Snapshot(row', col');
      RunAhead(Sudoku(n), size, size * size, run, lists, y);
      run' := run + [y];
    }

    /** The branches of the loop behind the test for the end. */
    method Move(row: nat, col: nat, ansCount: nat, ghost run: seq<State>)
      returns (row': nat, col': nat, ghost run': seq<State>)
      requires Valid() && row < size && Index(size, row, col) < size * size && Listing(row, col)
      requires RanAndSeen(run, row, col)
      requires ansCount == |Cands()[Index(size, row, col)]|
      requires answerPosition[Index(size, row, col)] == ansCount ==> row > 0 || col > 0
      modifies layout, answerPosition
      ensures row' <= size && col' < size && Index(size, row', col') <= size * size
      ensures Searching(row', col') && Work(row', col') < old(Work(row, col)) && Ran(run', row', col')
    {
      if ansCount == 0 {
        row', col', run' := Retreat(row, col, run);
      } else if answerPosition[row * size + col] == ansCount {
        row', col', run' := Retreat(row, col, run);
      } else {
        row', col', run' := Advance(row, col, run);
      }
    }

    method Generate() returns (ghost run: seq<State>)
      requires Valid()
      modifies layout, answer, answerPosition, solving
      ensures Solved(Sudoku(n), size, layout[..]) && Finds(Sudoku(n), size, run, layout[..])
      ensures SearchInv(Sudoku(n), size, layout[..], Cands(), answerPosition[..], size * size)
      ensures forall k :: 0 <= k < size * size ==> solving[k] == 0
    {
      Init();
      Start(Sudoku(n), size, layout[..], Cands(), answerPosition[..]);
      var curRow, curCol := 0, 0;
      run := [Snapshot(0, 0)];
      while curRow != size
        invariant 0 <= curRow <= size && 0 <= curCol < size
        invariant Index(size, curRow, curCol) <= size * size && Searching(curRow, curCol)
        invariant Ran(run, curRow, curCol)
        decreases Work(curRow, curCol)
        modifies layout, answer, answerPosition
      {
        CellInBoard(size, curRow, curCol);
        var ansCount := Visit(curRow, curCol, run);
        if curRow == 0 && curCol == 0 {
          FirstCellHasMore(n, layout[..], Cands(), answerPosition[..]);
        }
        if ansCount == answerPosition[curRow * size + curCol] && curRow == 0 && curCol == 0 {
          break;
        }
        curRow, curCol, run := Move(curRow, curCol, ansCount, run);
      }
      SudokuSymmetric(n);
      FoundIsSolved(Sudoku(n), size, layout[..], Cands(), answerPosition[..]);
    }

    // ---------- Puzzles with several answers ----------

    /** The test of checkUnique for one rectangle. */
    method IsSwapped(r1: nat, r2: nat, c1: nat, c2: nat) returns (swapped: bool)
      requires layout.Length == size * size && InBoard(size, Rect(r1, r2, c1, c2))
      ensures swapped <==> Swapped(size, layout[..], Rect(r1, r2, c1, c2))
    {
      CornersInBoard(size, Rect(r1, r2, c1, c2));
      swapped := layout[r1 * size + c1] == layout[r2 * size + c2] && layout[r1 * size + c2] == layout[r2 * size + c1];
    }

    /** The two inner loops of checkUnique: the rectangles on rows r1 and r2. */
    method CheckRows(found: seq<Rect>, r1: nat, r2: nat, ghost wanted: Rect -> bool) returns (res: seq<Rect>)
      requires layout.Length == size * size && r1 < r2 < size
      requires forall q :: wanted(q) <==> InBoard(size, q) && Swapped(size, layout[..], q)
      requires ListedBefore(wanted, found, Rect(r1, r2, 0, 0))
      ensures ListedBefore(wanted, res, Rect(r1, r2 + 1, 0, 0))
    {
      res := found;
      for c1 := 0 to size - 1
        invariant ListedBefore(wanted, res, Rect(r1, r2, c1, 0))
      {
        ListedSkip(wanted, res, Rect(r1, r2, c1, 0), Rect(r1, r2, c1, c1 + 1));
        for c2 := c1 + 1 to size
          invariant ListedBefore(wanted, res, Rect(r1, r2, c1, c2))
        {
          ListedNext(wanted, res, Rect(r1, r2, c1, c2));
          var swapped := IsSwapped(r1, r2, c1, c2);
          if swapped {
            res := res + [Rect(r1, r2, c1, c2)];
          }
        }
        ListedSkip(wanted, res, Rect(r1, r2, c1, size), Rect(r1, r2, c1 + 1, 0));
      }
      ListedSkip(wanted, res, Rect(r1, r2, size - 1, 0), Rect(r1, r2 + 1, 0, 0));
    }

    /** Every swapped rectangle of the layout, each listed once. */
    method CheckUnique() returns (res: seq<Rect>)
      requires layout.Length == size * size
      ensures forall q :: q in res <==> Swapped(size, layout[..], q)
      ensures NoRepeats(res)
    {
      ghost var a, s := layout[..], size;
      ghost var wanted := (q: Rect) => |a| == s * s && Swapped(s, a, q);
      assert forall q :: wanted(q) ==> InBoard(s, q);
      res := [];
      for r1 := 0 to size - 1
        invariant ListedBefore(wanted, res, Rect(r1, 0, 0, 0))
      {
        ListedSkip(wanted, res, Rect(r1, 0, 0, 0), Rect(r1, r1 + 1, 0, 0));
        for r2 := r1 + 1 to size
          invariant ListedBefore(wanted, res, Rect(r1, r2, 0, 0))
        {
          res := CheckRows(res, r1, r2, wanted);
        }
        ListedSkip(wanted, res, Rect(r1, size, 0, 0), Rect(r1 + 1, 0, 0, 0));
      }
    }

    /** The shape of the page's arrays once a full layout was generated. */
    ghost predicate Playable()
      reads this, layout
    {
      && layout.Length == solving.Length == editable.Length == marked.Length == size * size
      && layout != solving && editable != marked && Full(layout[..])
    }

    ghost predicate BlanksEditable()
      reads this, solving, editable
    {
      solving.Length == editable.Length && forall k :: 0 <= k < solving.Length ==> (editable[k] <==> solving[k] == 0)
    }

    method GiveAway(k: nat)
      requires Playable() && k < size * size && solving[k] == 0
      requires Extends(solving[..], layout[..]) && BlanksEditable()
      modifies solving, editable
      ensures solving[..] == old(solving[..])[k := layout[k]]
      ensures Extends(old(solving[..]), solving[..]) && Extends(solving[..], layout[..]) && BlanksEditable()
    {
      editable[k] := false;
      solving[k] := layout[k];
    }

    /** One turn of regenerate: gives away the drawn corner of the rectangle if all four are blank. */
    method CloseOne(q: Rect) returns (ghost rdm: nat)
      requires Playable() && InBoard(size, q) && Extends(solving[..], layout[..]) && BlanksEditable()
      modifies solving, editable
      ensures rdm < 4 && solving[..] == Turned(size, old(solving[..]), layout[..], q, rdm)
      ensures Extends(old(solving[..]), solving[..]) && Extends(solving[..], layout[..]) && BlanksEditable()
      ensures !Open(size, solving[..], q)
      ensures forall k :: 0 <= k < size * size && solving[k] != old(solving[k]) ==>
                k in CornerSet(size, q) && Open(size, old(solving[..]), q)
    {
      ghost var before := solving[..];
      CornersInBoard(size, q);
      OpenIffBlank(size, before, q);
      CornersByDraw(size, q);
      rdm := 0;
      if solving[q.r1 * size + q.c1] == 0 && solving[q.r1 * size + q.c2] == 0 &&
         solving[q.r2 * size + q.c1] == 0 && solving[q.r2 * size + q.c2] == 0
      {
        var draw := RandomBelow(4);
        var r := if draw / 2 == 0 then q.r1 else q.r2;
        var c := if draw % 2 == 0 then q.c1 else q.c2;
        rdm := draw;
        var k := r * size + c;
        assert k == Corner(size, q, rdm) && k in CornerSet(size, q);
        GiveAway(k);
      }
      TurnedIsRight(size, before, layout[..], q, rdm);
    }

    /** Closes every listed rectangle that is still open, by giving away one of its corners. */
    method Regenerate(list: seq<Rect>) returns (ghost rdms: seq<nat>)
      requires Playable() && forall q :: q in list ==> InBoard(size, q)
      requires Extends(solving[..], layout[..]) && BlanksEditable()
      modifies solving, editable
      ensures Drawn(rdms, |list|) && solving[..] == ClosedBy(size, old(solving[..]), layout[..], list, rdms)
      ensures Extends(old(solving[..]), solving[..]) && Extends(solving[..], layout[..]) && BlanksEditable()
      ensures forall q :: q in list ==> !Open(size, solving[..], q)
      ensures forall k :: 0 <= k < size * size && solving[k] != old(solving[k]) ==>
                exists q :: q in list && k in CornerSet(size, q) && Open(size, old(solving[..]), q)
      ensures |Diff(old(solving[..]), solving[..])| <= OpenCount(size, old(solving[..]), list)
    {
      ghost var first := solving[..];
      rdms := [];
      for i := 0 to |list|
        invariant Extends(solving[..], layout[..]) && BlanksEditable()
        invariant Drawn(rdms, i) && solving[..] == ClosedBy(size, first, layout[..], list[..i], rdms)
      {
        ghost var rdm := CloseOne(list[i]);
        ClosedByNext(size, first, layout[..], list, rdms, i, rdm);
        rdms := rdms + [rdm];
      }
      assert list[..|list|] == list;
      ClosedByIsRight(size, first, layout[..], list, rdms);
    }

    // ---------- A game ----------

    ghost predicate DugUpTo(level: int, draws: seq<nat>, t: nat)
      reads this, layout, solving, editable
    {
      && layout.Length == solving.Length == editable.Length && t <= layout.Length && Drawn(draws, t)
      && (forall k :: 0 <= k < t ==>
            && solving[k] == (if ShowsClue(level, draws[k]) then layout[k] else 0)
            && (editable[k] <==> !ShowsClue(level, draws[k])))
      && (forall k :: t <= k < layout.Length ==> solving[k] == 0)
    }

    /** Leaves each cell as a clue or blank, by the level and a draw of its own: levels up to 0 leave
        no blank, levels from 5 on no clue, those between may leave either. */
    method Dig(level: int) returns (ghost draws: seq<nat>)
      requires Playable() && forall k :: 0 <= k < size * size ==> solving[k] == 0
      modifies solving, editable
      ensures Drawn(draws, size * size) && solving[..] == Dug(level, draws, layout[..])
      ensures Extends(solving[..], layout[..]) && BlanksEditable()
      ensures level <= 0 ==> solving[..] == layout[..]
      ensures level >= 5 ==> forall k :: 0 <= k < size * size ==> solving[k] == 0
    {
      draws := [];
      for i := 0 to size
        invariant DugUpTo(level, draws, i * size)
      {
        for j := 0 to size
          invariant DugUpTo(level, draws, i * size + j)
        {
          CellInBoard(size, i, j);
          var draw := RandomBelow(4);
          draws := draws + [draw];
          var rdm := if level < 4 then draw + 1 else draw + 2;
          if level < rdm {
            solving[i * size + j] := layout[i * size + j];
            editable[i * size + j] := false;
          } else {
            editable[i * size + j] := true;
          }
        }
        RowEnds(size, i);
      }
    }

    /** The puzzle that the player was given: clues that fit the layout and close every swapped
        rectangle of it. */
    ghost predicate Posed()
      reads this, layout, editable
    {
      && Playable() && size == Size(n) && |resetData| == size * size
      && Solved(Sudoku(n), size, layout[..])
      && Extends(resetData, layout[..]) && NoOpenRectangle(size, layout[..], resetData)
      && (forall k :: 0 <= k < size * size ==> (editable[k] <==> resetData[k] == 0))
    }

    /** The run of the search and the draws decide the puzzle, up to the corners given away. */
    method InitLayout(level: int)
      returns (ghost run: seq<State>, ghost draws: seq<nat>, ghost several: seq<Rect>, ghost rdms: seq<nat>)
      requires Valid()
      modifies this`resetData, layout, answer, answerPosition, solving, editable
      ensures Valid() && Posed() && solving[..] == resetData
      ensures Finds(Sudoku(n), size, run, layout[..]) && Drawn(draws, size * size)
      ensures NoRepeats(several) && forall q :: q in several <==> Swapped(size, layout[..], q)
      ensures Drawn(rdms, |several|)
      ensures resetData == ClosedBy(size, Dug(level, draws, layout[..]), layout[..], several, rdms)
      ensures Extends(Dug(level, draws, layout[..]), resetData)
      ensures var dug := Dug(level, draws, layout[..]); |Diff(dug, resetData)| <= OpenCount(size, dug, several)
      ensures NoOpenRectangle(size, layout[..], Dug(level, draws, layout[..])) ==>
                resetData == Dug(level, draws, layout[..])
    {
      run := Generate();
      draws := Dig(level);
      ghost var dug := solving[..];
      var isUnique := CheckUnique();
      rdms := Regenerate(isUnique);
      several := isUnique;
      resetData := solving[..];
    }

    /** A game in progress: the clues stand, the rest is empty or holds digits. */
    ghost predicate Playing()
      reads this, layout, editable, solving
    {
      Posed() && Extends(resetData, solving[..]) && InRange(size, solving[..])
    }

    /** Marks every cell that clashes with an editable cell k, and k itself if there is one. */
    method CheckCell(k: nat)
      requires Playable() && size == Size(n) && k < size * size && solving[k] != 0
      modifies marked
      ensures forall l: nat :: l < size * size ==>
                (marked[l] <==>
                 old(marked[l]) || Clash(n, solving[..], k, l) || (l == k && InConflict(n, solving[..], k)))
    {
      ghost var b := solving[..];
      var row, col := k / size, k % size;
      CellSplit(size, k);
      var tabX, tabY := row / n, col / n;
      ghost var clashed := false;
      for i := 0 to size
        invariant clashed <==> exists l: nat :: l < i * size && Clash(n, b, k, l)
        invariant forall l: nat :: l < size * size ==>
                    (marked[l] <==> old(marked[l]) || (l < i * size && Clash(n, b, k, l)) || (l == k && clashed))
      {
        for j := 0 to size
          invariant clashed <==> exists l: nat :: l < i * size + j && Clash(n, b, k, l)
          invariant forall l: nat :: l < size * size ==>
                      (marked[l] <==> old(marked[l]) || (l < i * size + j && Clash(n, b, k, l)) || (l == k && clashed))
        {
          CellInBoard(size, i, j);
          CellAt(size, i, j);
          if i == row || j == col || (i / n == tabX && j / n == tabY) {
            if solving[i * size + j] == solving[k] && k != i * size + j {
              assert Clash(n, b, k, Index(size, i, j));
              marked[i * size + j] := true;
              marked[k] := true;
              clashed := true;
            }
          }
        }
        RowEnds(size, i);
      }
    }

    /** Marks exactly the cells that hold the same digit as another related cell. */
    method Check()
      requires Playing()
      modifies marked
      ensures forall l: nat :: l < size * size ==> (marked[l] <==> old(marked[l]) || InConflict(n, solving[..], l))
    {
      ghost var b, e := solving[..], editable[..];
      for k := 0 to size * size
        invariant forall l: nat :: l < size * size ==> (marked[l] <==> old(marked[l]) || MarkedUpTo(n, b, e, k, l))
      {
        if editable[k] && solving[k] != 0 {
          CheckCell(k);
        }
        forall l: nat { MarkedNext(n, b, e, k, l); }
      }
      forall l: nat | l < size * size ensures MarkedUpTo(n, b, e, size * size, l) <==> InConflict(n, b, l) {
        MarkedIsInConflict(n, layout[..], b, e, l);
      }
    }

    /** Counts the cells that differ from the generated answer. */
    method CheckAllAnswer() returns (flag: nat)
      requires Playable()
      ensures flag == |Diff(layout[..], solving[..])|
    {
      flag := 0;
      for i := 0 to size
        invariant flag == |DiffBefore(layout[..], solving[..], i * size)|
      {
        for j := 0 to size
          invariant flag == |DiffBefore(layout[..], solving[..], i * size + j)|
        {
          CellInBoard(size, i, j);
          DiffNext(layout[..], solving[..], i * size + j);
          if solving[i * size + j] != layout[i * size + j] {
            flag := flag + 1;
          }
        }
        RowEnds(size, i);
      }
      assert DiffBefore(layout[..], solving[..], size * size) == Diff(layout[..], solving[..]);
    }

    /** The player picks a number for the editable cell that the panel was opened on. When this
        fills the grid, the answer is checked and the number of wrong cells returned. */
    method Input(editIndex: nat, userNum: int) returns (finished: bool, flag: nat)
      requires Playing() && editIndex < size * size && editable[editIndex]
      modifies solving, marked
      ensures Playing()
      ensures solving[..] == if 0 <= userNum <= size then old(solving[..])[editIndex := userNum] else old(solving[..])
      ensures 0 <= userNum <= size ==>
                forall l: nat :: l < size * size ==> (marked[l] <==> InConflict(n, solving[..], l))
      ensures !(0 <= userNum <= size) ==> marked[..] == old(marked[..])
      ensures finished <==> 0 <= userNum <= size && Full(solving[..])
      ensures finished ==> flag == |Diff(layout[..], solving[..])|
      ensures finished && (forall l :: 0 <= l < size * size ==> !marked[l]) ==> flag == 0 || flag >= 6
    {
      finished, flag := false, 0;
      if 0 <= userNum <= size {
        solving[editIndex] := userNum;
        for i := 0 to size * size
          invariant forall l :: 0 <= l < i ==> !marked[l]
          modifies marked
        {
          marked[i] := false;
        }
        Check();
        finished := 0 !in solving[..];
        if finished {
          flag := CheckAllAnswer();
          if forall l :: 0 <= l < size * size ==> !marked[l] {
            AcceptedOrSixFlags(n, layout[..], resetData, solving[..]);
          }
        }
      }
    }
  }
}
