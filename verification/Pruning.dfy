/** How getAnswer narrows the block of a cell down to the digits still free there. */
module Pruning {
  import opened Grid
  import opened Search
  import opened Counting
  import opened Lists

  ghost predicate Holds(b: Board, seen: set<nat>, d: nat) {
    exists l :: l in seen && l < |b| && b[l] == d
  }

  /** Entry d - 1 of a block is d, or 0 once some seen cell holds d. */
  ghost predicate Pruned(block: seq<nat>, b: Board, seen: set<nat>) {
    forall i :: 0 <= i < |block| ==> block[i] == if Holds(b, seen, i + 1) then 0 else i + 1
  }

  /** Striking out the digit of cell l from a block. */
  ghost function Strike(block: seq<nat>, b: Board, l: nat): (r: seq<nat>)
    requires l < |b| && b[l] <= |block|
    ensures |r| == |block|
  {
    if b[l] != 0 then block[b[l] - 1 := 0] else block
  }

  lemma StrikeOne(block: seq<nat>, b: Board, seen: set<nat>, l: nat)
    requires Pruned(block, b, seen) && l < |b| && b[l] <= |block|
    ensures Pruned(Strike(block, b, l), b, seen + {l})
  {
    forall d: nat | d != 0 ensures Holds(b, seen + {l}, d) <==> Holds(b, seen, d) || b[l] == d {
      if b[l] == d {
        assert l in seen + {l};
      } else if Holds(b, seen, d) {
        var l' :| l' in seen && l' < |b| && b[l'] == d;
        assert l' in seen + {l};
      }
    }
  }

  /** Once all related cells are struck out, what is left is exactly the legal digits. */
  lemma PrunedIsLegal(n: Pos, block: seq<nat>, b: Board, k: nat, seen: set<nat>)
    requires |block| == Size(n) && Pruned(block, b, seen)
    requires forall l: nat :: l < |b| ==> (l in seen <==> Related(n, k, l))
    ensures Distinct(block)
    ensures forall d: nat :: d != 0 ==> (d in block <==> Legal(Sudoku(n), Size(n), b, k, d))
  {
    var s := Size(n);
    forall d: nat | d != 0 ensures d in block <==> Legal(Sudoku(n), s, b, k, d) {
      if 1 <= d <= s {
        assert block[d - 1] == if Holds(b, seen, d) then 0 else d;
      }
      if Holds(b, seen, d) {
        var l :| l in seen && l < |b| && b[l] == d;
        assert Sudoku(n)(k, l);
      } else {
        forall l: nat | l < |b| && Sudoku(n)(k, l) ensures b[l] != d {
          assert l in seen;
        }
      }
    }
  }

  // ---------- Which cells the loops of getAnswer visit ----------

  /** The first i cells of a column and of a row. */
  ghost function Lines(s: Pos, row: nat, col: nat, i: nat): set<nat> {
    if i == 0 then {}
    else Lines(s, row, col, i - 1) + {Index(s, i - 1, col)} + {Index(s, row, i - 1)}
  }

  lemma {:induction false} LinesMembers(s: Pos, row: nat, col: nat, i: nat, l: nat)
    requires row < s && col < s && i <= s
    ensures l in Lines(s, row, col, i) <==>
            (Col(s, l) == col && Row(s, l) < i) || (Row(s, l) == row && Col(s, l) < i)
  {
    if i > 0 {
      LinesMembers(s, row, col, i - 1, l);
      CellAt(s, i - 1, col);
      CellAt(s, row, i - 1);
      CellSplit(s, l);
    }
  }

  /** The first h rows of w cells from (top, left) on, and j cells of the row after them. */
  ghost function Patch(s: Pos, top: nat, left: nat, w: nat, h: nat, j: nat): set<nat>
    decreases h, j
  {
    if j > 0 then Patch(s, top, left, w, h, j - 1) + {Index(s, top + h, left + j - 1)}
    else if h > 0 then Patch(s, top, left, w, h - 1, w)
    else {}
  }

  lemma {:induction false} PatchMembers(s: Pos, top: nat, left: nat, w: nat, h: nat, j: nat, l: nat)
    requires left + w <= s && j <= w
    ensures l in Patch(s, top, left, w, h, j) <==>
            (top <= Row(s, l) < top + h && left <= Col(s, l) < left + w) ||
            (Row(s, l) == top + h && left <= Col(s, l) < left + j)
    decreases h, j
  {
    if j > 0 {
      PatchMembers(s, top, left, w, h, j - 1, l);
      CellAt(s, top + h, left + j - 1);
      CellSplit(s, l);
    } else if h > 0 {
      PatchMembers(s, top, left, w, h - 1, w, l);
    }
  }

  /** The first coordinate of the band that c falls in. */
  function BandStart(n: Pos, c: nat): nat {
    c / n * n
  }

  /** The coordinates that fall in band number x. */
  lemma InBand(n: Pos, c: nat, x: nat)
    ensures x * n <= c < x * n + n <==> c / n == x
  {
    DivMod(c, n);
    if c / n < x {
      MulMonotone(c / n + 1, x, n);
    } else if x < c / n {
      MulMonotone(x + 1, c / n, n);
    }
  }

  lemma BandInBoard(n: Pos, c: nat)
    requires c < Size(n)
    ensures BandStart(n, c) + n <= Size(n)
  {
    CellSplit(n, c);
    MulMonotone(c / n + 1, n, n);
  }

  ghost function Visited(n: Pos, row: nat, col: nat): set<nat> {
    Lines(Size(n), row, col, Size(n)) + Patch(Size(n), BandStart(n, row), BandStart(n, col), n, n, 0)
  }

  lemma PatchIsBox(n: Pos, row: nat, col: nat, l: nat)
    requires row < Size(n) && col < Size(n)
    ensures l in Patch(Size(n), BandStart(n, row), BandStart(n, col), n, n, 0) <==>
            Row(Size(n), l) / n == row / n && Col(Size(n), l) / n == col / n
  {
    var s, top, left := Size(n), BandStart(n, row), BandStart(n, col);
    BandInBoard(n, col);
    PatchMembers(s, top, left, n, n, 0, l);
    InBand(n, Row(s, l), row / n);
    InBand(n, Col(s, l), col / n);
  }

  /** Together the loops visit exactly the related cells. */
  lemma VisitedIsRelated(n: Pos, row: nat, col: nat, l: nat)
    requires row < Size(n) && col < Size(n) && l < Size(n) * Size(n)
    ensures l in Visited(n, row, col) <==> Related(n, Index(Size(n), row, col), l)
  {
    CellAt(Size(n), row, col);
    CellSplit(Size(n), l);
    LinesMembers(Size(n), row, col, Size(n), l);
    PatchIsBox(n, row, col, l);
  }

  lemma VisitedPrunes(n: Pos, row: nat, col: nat, block: seq<nat>, b: Board)
    requires row < Size(n) && col < Size(n) && |b| == Size(n) * Size(n) && |block| == Size(n)
    requires Pruned(block, b, Visited(n, row, col))
    ensures Distinct(block)
    ensures forall d: nat :: d != 0 ==> (d in block <==> Legal(Sudoku(n), Size(n), b, Index(Size(n), row, col), d))
  {
    forall l: nat | l < |b| ensures l in Visited(n, row, col) <==> Related(n, Index(Size(n), row, col), l) {
      VisitedIsRelated(n, row, col, l);
    }
    PrunedIsLegal(n, block, b, Index(Size(n), row, col), Visited(n, row, col));
  }

  /** The candidates read off a reordered pruned block. */
  lemma PrunedCandidates(n: Pos, row: nat, col: nat, pruned: seq<nat>, block: seq<nat>, b: Board)
    requires row < Size(n) && col < Size(n) && |b| == Size(n) * Size(n) && |pruned| == Size(n)
    requires Pruned(pruned, b, Visited(n, row, col))
    requires multiset(block) == multiset(pruned)
    ensures NoRepeats(NonZero(block))
    ensures forall d: nat :: d in NonZero(block) <==> Legal(Sudoku(n), Size(n), b, Index(Size(n), row, col), d)
  {
    VisitedPrunes(n, row, col, pruned, b);
    ReorderKeeps(pruned, block);
    NonZeroNoRepeats(block);
    forall d: nat ensures d in NonZero(block) <==> d != 0 && d in pruned {
      NonZeroMembers(block, d);
    }
  }

  /** Moving one entry from a list to the end of another keeps what they hold together. */
  lemma DrawOne(front: seq<nat>, list: seq<nat>, r: nat)
    requires r < |list|
    ensures multiset(front + [list[r]]) + multiset(list[..r] + list[r + 1..]) == multiset(front) + multiset(list)
  {
    assert list == list[..r] + [list[r]] + list[r + 1..];
  }

  // ---------- Where the block of a cell lies ----------

  lemma BlockBounds(s: Pos, k: nat)
    requires k < s * s
    ensures k * s + s <= s * s * s
  {
    MulMonotone(k + 1, s * s, s);
  }

  lemma BlockBase(s: Pos, r: nat, c: nat)
    ensures r * s * s + c * s == Index(s, r, c) * s
  {
  }

  lemma BlocksApart(s: Pos, k: nat, l: nat)
    requires k != l
    ensures k * s + s <= l * s || l * s + s <= k * s
  {
    if k < l {
      MulMonotone(k + 1, l, s);
    } else {
      MulMonotone(l + 1, k, s);
    }
  }

  /** The part of `answer` that belongs to cell k. */
  ghost function BlockOf(a: seq<nat>, s: Pos, k: nat): (v: seq<nat>)
    requires |a| == s * s * s && k < s * s
    ensures |v| == s
  {
    BlockBounds(s, k);
    a[k * s..k * s + s]
  }

  /** The candidate lists that `answer` holds. */
  ghost function CandsOf(a: seq<nat>, s: Pos): (c: seq<seq<nat>>)
    requires |a| == s * s * s
    ensures |c| == s * s
  {
    seq(s * s, k requires 0 <= k < s * s => NonZero(BlockOf(a, s, k)))
  }

  ghost predicate SameOutside(a: seq<nat>, a': seq<nat>, lo: nat, hi: nat) {
    |a| == |a'| && forall x :: 0 <= x < |a| && !(lo <= x < hi) ==> a[x] == a'[x]
  }

  lemma OtherBlocks(a: seq<nat>, a': seq<nat>, s: Pos, k: nat, l: nat)
    requires |a| == s * s * s && SameOutside(a, a', k * s, k * s + s)
    requires k < s * s && l < s * s && l != k
    ensures BlockOf(a', s, l) == BlockOf(a, s, l)
  {
    BlockBounds(s, l);
    BlocksApart(s, k, l);
  }

  lemma OtherCands(a: seq<nat>, a': seq<nat>, s: Pos, k: nat)
    requires |a| == s * s * s && SameOutside(a, a', k * s, k * s + s) && k < s * s
    ensures forall l :: 0 <= l < s * s && l != k ==> CandsOf(a', s)[l] == CandsOf(a, s)[l]
  {
    forall l: nat | l < s * s && l != k ensures CandsOf(a', s)[l] == CandsOf(a, s)[l] {
      OtherBlocks(a, a', s, k, l);
    }
  }

  // ---------- Moving the cursor ----------

  lemma StepAhead(s: Pos, row: nat, col: nat)
    requires row < s && col < s
    ensures Index(s, row + 1, 0) == Index(s, row, 0) + s
    ensures Index(s, row, col) + 1 <= s * s
    ensures col == s - 1 && row == s - 1 ==> Index(s, row, col) + 1 == s * s
  {
    MulMonotone(row + 1, s, s);
  }

  lemma StepBack(s: Pos, row: nat, col: nat)
    requires row > 0 || col > 0
    ensures Index(s, row, col) > 0
    ensures col == 0 ==> Index(s, row - 1, s - 1) == Index(s, row, 0) - 1
  {
    if row > 0 {
      MulMonotone(1, row, s);
    }
  }
}
