/**
 What the hand-rolled backtracking of Sudo.js keeps between two turns of its loop, stated on
 values: the board, the cached candidate lists and how many candidates of each list were used.
 */
module Search {
  import opened Grid
  import opened Counting

  /** The cells before k, the rest empty. */
  ghost function Prefix(b: Board, k: nat): (p: Board)
    requires k <= |b|
  {
    b[..k] + seq(|b| - k, _ => 0)
  }

  /** c lists, once each and in any order, exactly the digits legal in cell k after the cells
      before it. */
  ghost predicate Candidates(rel: Relation, s: nat, b: Board, k: nat, c: seq<nat>)
    requires k < |b|
  {
    NoRepeats(c) && forall d: nat :: d in c <==> Legal(rel, s, Prefix(b, k), k, d)
  }

  /** No solved board starts with the cells before k followed by any of the first t candidates. */
  ghost predicate Refuted(rel: Relation, s: nat, b: Board, k: nat, c: seq<nat>, t: nat)
    requires k < |b| && t <= |c|
  {
    forall j :: 0 <= j < t ==> Hopeless(rel, s, Prefix(b, k)[k := c[j]])
  }

  ghost predicate Placed(rel: Relation, s: nat, b: Board, k: nat, c: seq<nat>, p: nat)
    requires k < |b|
  {
    && Candidates(rel, s, b, k, c)
    && 1 <= p <= |c| && b[k] == c[p - 1]
    && Refuted(rel, s, b, k, c, p - 1)
  }

  /** The candidate list of the cursor cell is usable. */
  ghost predicate Ready(rel: Relation, s: nat, b: Board, cands: seq<seq<nat>>, pos: seq<nat>, cur: nat)
    requires |b| == |cands| == |pos| && cur < |b|
  {
    && Candidates(rel, s, b, cur, cands[cur]) && pos[cur] <= |cands[cur]|
    && Refuted(rel, s, b, cur, cands[cur], pos[cur])
  }

  ghost predicate SearchInv(rel: Relation, s: nat, b: Board, cands: seq<seq<nat>>, pos: seq<nat>, cur: nat) {
    && |b| == |cands| == |pos| && cur <= |b|
    && (forall k :: cur <= k < |b| ==> b[k] == 0)
    && (forall k :: cur < k < |b| ==> pos[k] == 0)
    && (forall k: nat :: k < cur ==> Placed(rel, s, b, k, cands[k], pos[k]))
    && (cur < |b| && pos[cur] != 0 ==> Ready(rel, s, b, cands, pos, cur))
  }

  lemma Start(rel: Relation, s: nat, b: Board, cands: seq<seq<nat>>, pos: seq<nat>)
    requires |b| == |cands| == |pos|
    requires forall k :: 0 <= k < |b| ==> b[k] == 0 && pos[k] == 0
    ensures SearchInv(rel, s, b, cands, pos, 0)
  {
  }

  /** The cursor cell got a fresh list: its first visit since the search last passed it. */
  lemma Listed(rel: Relation, s: nat, b: Board, cands: seq<seq<nat>>, cands': seq<seq<nat>>, pos: seq<nat>, cur: nat)
    requires SearchInv(rel, s, b, cands, pos, cur) && cur < |b| && pos[cur] == 0
    requires |cands'| == |cands| && forall k :: 0 <= k < cur ==> cands'[k] == cands[k]
    requires NoRepeats(cands'[cur]) && forall d: nat :: d in cands'[cur] <==> Legal(rel, s, b, cur, d)
    ensures SearchInv(rel, s, b, cands', pos, cur) && Ready(rel, s, b, cands', pos, cur)
  {
    assert Prefix(b, cur) == b;
  }

  lemma SearchInRange(rel: Relation, s: nat, b: Board, cands: seq<seq<nat>>, pos: seq<nat>, cur: nat)
    requires SearchInv(rel, s, b, cands, pos, cur)
    ensures InRange(s, b)
  {
    forall k: nat | k < cur ensures b[k] <= s {
      assert Placed(rel, s, b, k, cands[k], pos[k]);
      assert b[k] in cands[k];
    }
  }

  /** Once every candidate of a cell is used up, the cells before it have no completion. */
  lemma Exhausted(rel: Relation, s: nat, b: Board, k: nat, c: seq<nat>)
    requires Symmetric(rel) && k < |b|
    requires Candidates(rel, s, b, k, c) && Refuted(rel, s, b, k, c, |c|)
    ensures Hopeless(rel, s, Prefix(b, k))
  {
    var p := Prefix(b, k);
    forall d | Legal(rel, s, p, k, d) ensures Hopeless(rel, s, p[k := d]) {
      assert d in c;
    }
    AllDigitsHopeless(rel, s, p, k);
  }

  /** The first cell is never used up: that would refute every solved board. */
  lemma NeverExhausted(rel: Relation, s: nat, b: Board, cands: seq<seq<nat>>, pos: seq<nat>, g: Board)
    requires Symmetric(rel) && |b| > 0 && SearchInv(rel, s, b, cands, pos, 0)
    requires Ready(rel, s, b, cands, pos, 0)
    requires Solved(rel, s, g) && |g| == |b|
    ensures pos[0] < |cands[0]|
  {
    assert Completes(rel, s, Prefix(b, 0), g);
    if pos[0] == |cands[0]| {
      Exhausted(rel, s, b, 0, cands[0]);
    }
  }

  /** Writing cell k or later leaves what is known of the cells before it. */
  lemma PlacedFrame(rel: Relation, s: nat, b: Board, b': Board, k: nat, c: seq<nat>, p: nat)
    requires k < |b| == |b'| && b[..k + 1] == b'[..k + 1] && Placed(rel, s, b, k, c, p)
    ensures Placed(rel, s, b', k, c, p)
  {
    assert b[..k] == b[..k + 1][..k] == b'[..k];
    assert Prefix(b, k) == Prefix(b', k);
    assert b[k] == b[..k + 1][k] == b'[k];
  }

  lemma Forward(rel: Relation, s: nat, b: Board, cands: seq<seq<nat>>, pos: seq<nat>, cur: nat)
    requires SearchInv(rel, s, b, cands, pos, cur) && cur < |b|
    requires Ready(rel, s, b, cands, pos, cur) && pos[cur] < |cands[cur]|
    ensures SearchInv(rel, s, b[cur := cands[cur][pos[cur]]], cands, pos[cur := pos[cur] + 1], cur + 1)
  {
    var b' := b[cur := cands[cur][pos[cur]]];
    forall k: nat | k < cur ensures Placed(rel, s, b', k, cands[k], pos[k]) {
      PlacedFrame(rel, s, b, b', k, cands[k], pos[k]);
    }
    assert Prefix(b', cur) == Prefix(b, cur);
  }

  /** Stepping back keeps the lists of all earlier cells right without recomputing them. */
  lemma Backward(rel: Relation, s: nat, b: Board, cands: seq<seq<nat>>, pos: seq<nat>, cur: nat)
    requires Symmetric(rel)
    requires SearchInv(rel, s, b, cands, pos, cur) && 0 < cur < |b|
    requires Ready(rel, s, b, cands, pos, cur) && pos[cur] == |cands[cur]|
    ensures SearchInv(rel, s, b[cur - 1 := 0], cands, pos[cur := 0], cur - 1)
  {
    var b', pos', k := b[cur - 1 := 0], pos[cur := 0], cur - 1;
    Exhausted(rel, s, b, cur, cands[cur]);
    assert Prefix(b, cur) == Prefix(b, k)[k := cands[k][pos[k] - 1]];
    assert Prefix(b', k) == Prefix(b, k);
    forall j: nat | j < k ensures Placed(rel, s, b', j, cands[j], pos'[j]) {
      PlacedFrame(rel, s, b, b', j, cands[j], pos[j]);
    }
  }

  lemma FoundIsSolved(rel: Relation, s: nat, b: Board, cands: seq<seq<nat>>, pos: seq<nat>)
    requires Symmetric(rel) && SearchInv(rel, s, b, cands, pos, |b|)
    ensures Solved(rel, s, b)
  {
    forall k: nat | k < |b| ensures Legal(rel, s, Prefix(b, k), k, b[k]) {
      assert Placed(rel, s, b, k, cands[k], pos[k]);
      assert b[k] in cands[k];
    }
    forall k: nat, l: nat | k < l < |b| && rel(k, l) ensures b[k] != b[l] {
      assert Legal(rel, s, Prefix(b, l), l, b[l]) && rel(l, k) && Prefix(b, l)[k] == b[k];
    }
  }

  /** The grid found is the first one in the order of the candidate lists: where any other solved
      grid first departs from it, that grid takes a later candidate. */
  lemma FoundIsFirst(rel: Relation, s: nat, b: Board, cands: seq<seq<nat>>, pos: seq<nat>, g: Board, k: nat)
    returns (j: nat)
    requires Symmetric(rel) && SearchInv(rel, s, b, cands, pos, |b|)
    requires Solved(rel, s, g) && |g| == |b| && k < |b| && g[..k] == b[..k] && g[k] != b[k]
    ensures pos[k] <= j < |cands[k]| && cands[k][j] == g[k] && cands[k][pos[k] - 1] == b[k]
  {
    var p, c := Prefix(b, k), cands[k];
    assert Placed(rel, s, b, k, c, pos[k]);
    forall i | 0 <= i < |p| && p[i] != 0 ensures g[i] == p[i] {
      assert g[..k][i] == b[..k][i];
    }
    CompletionIsLegal(rel, s, p, k, g);
    j :| 0 <= j < |c| && c[j] == g[k];
    assert Completes(rel, s, p[k := c[j]], g);
  }

  // ---------- Runs of the search ----------

  datatype State = State(board: Board, cands: seq<seq<nat>>, pos: seq<nat>, cur: nat)

  ghost predicate Shaped(x: State, cells: nat) {
    |x.board| == |x.cands| == |x.pos| == cells && x.cur <= cells
  }

  ghost predicate Initial(x: State, cells: nat) {
    Shaped(x, cells) && x.cur == 0 && forall k :: 0 <= k < cells ==> x.board[k] == 0 && x.pos[k] == 0
  }

  /** The lists after looking at the cursor cell: it gets a fresh one, in any order, unless the search
      came back to it. */
  ghost predicate Seen(rel: Relation, s: nat, x: State, lists: seq<seq<nat>>)
    requires Shaped(x, |x.board|) && x.cur < |x.board|
  {
    && |lists| == |x.cands| && (forall k :: 0 <= k < |lists| && k != x.cur ==> lists[k] == x.cands[k])
    && (x.pos[x.cur] != 0 ==> lists[x.cur] == x.cands[x.cur])
    && (x.pos[x.cur] == 0 ==>
          NoRepeats(lists[x.cur]) && forall d: nat :: d in lists[x.cur] <==> Legal(rel, s, x.board, x.cur, d))
  }

  /** One turn of the loop: the next candidate is written, or the cell before the cursor is freed. */
  ghost predicate LoopTurn(rel: Relation, s: nat, x: State, y: State) {
    && Shaped(x, |x.board|) && x.cur < |x.board| && Seen(rel, s, x, y.cands)
    && var cur, used, list := x.cur, x.pos[x.cur], y.cands[x.cur];
      || (used < |list| && y == State(x.board[cur := list[used]], y.cands, x.pos[cur := used + 1], cur + 1))
      || (used == |list| && cur > 0 && y == State(x.board[cur - 1 := 0], y.cands, x.pos[cur := 0], cur - 1))
  }

  ghost predicate Run(rel: Relation, s: nat, cells: nat, xs: seq<State>) {
    if |xs| <= 1 then |xs| == 1 && Initial(xs[0], cells)
    else Run(rel, s, cells, xs[..|xs| - 1]) && LoopTurn(rel, s, xs[|xs| - 2], xs[|xs| - 1])
  }

  ghost predicate Invariant(rel: Relation, s: nat, x: State) {
    SearchInv(rel, s, x.board, x.cands, x.pos, x.cur)
  }

  lemma SeenIsReady(rel: Relation, s: nat, x: State, lists: seq<seq<nat>>)
    requires Invariant(rel, s, x) && x.cur < |x.board| && Seen(rel, s, x, lists)
    ensures SearchInv(rel, s, x.board, lists, x.pos, x.cur) && Ready(rel, s, x.board, lists, x.pos, x.cur)
  {
    if x.pos[x.cur] == 0 {
      Listed(rel, s, x.board, x.cands, lists, x.pos, x.cur);
    } else {
      assert lists == x.cands;
    }
  }

  lemma TurnKeeps(rel: Relation, s: nat, x: State, y: State)
    requires Symmetric(rel) && Invariant(rel, s, x) && LoopTurn(rel, s, x, y)
    ensures Invariant(rel, s, y) && |y.board| == |x.board|
  {
    SeenIsReady(rel, s, x, y.cands);
    if x.pos[x.cur] < |y.cands[x.cur]| {
      Forward(rel, s, x.board, y.cands, x.pos, x.cur);
    } else {
      Backward(rel, s, x.board, y.cands, x.pos, x.cur);
    }
  }

  lemma {:induction false} RunKeeps(rel: Relation, s: nat, cells: nat, xs: seq<State>)
    requires Symmetric(rel) && Run(rel, s, cells, xs)
    ensures Invariant(rel, s, xs[|xs| - 1]) && |xs[|xs| - 1].board| == cells
  {
    if |xs| == 1 {
      Start(rel, s, xs[0].board, xs[0].cands, xs[0].pos);
    } else {
      RunKeeps(rel, s, cells, xs[..|xs| - 1]);
      TurnKeeps(rel, s, xs[|xs| - 2], xs[|xs| - 1]);
    }
  }

  lemma RunGoesOn(rel: Relation, s: nat, cells: nat, xs: seq<State>, y: State)
    requires Run(rel, s, cells, xs) && LoopTurn(rel, s, xs[|xs| - 1], y)
    ensures Run(rel, s, cells, xs + [y])
  {
    assert (xs + [y])[..|xs|] == xs;
  }

  lemma RunAhead(rel: Relation, s: nat, cells: nat, xs: seq<State>, lists: seq<seq<nat>>, y: State)
    requires Run(rel, s, cells, xs)
    requires var x := xs[|xs| - 1]; Shaped(x, cells) && x.cur < cells && Seen(rel, s, x, lists)
    requires var x := xs[|xs| - 1];
      && x.pos[x.cur] < |lists[x.cur]|
      && y == State(x.board[x.cur := lists[x.cur][x.pos[x.cur]]], lists, x.pos[x.cur := x.pos[x.cur] + 1], x.cur + 1)
    ensures Run(rel, s, cells, xs + [y])
  {
    RunGoesOn(rel, s, cells, xs, y);
  }

  lemma RunBack(rel: Relation, s: nat, cells: nat, xs: seq<State>, lists: seq<seq<nat>>, y: State)
    requires Run(rel, s, cells, xs)
    requires var x := xs[|xs| - 1]; Shaped(x, cells) && 0 < x.cur < cells && Seen(rel, s, x, lists)
    requires var x := xs[|xs| - 1];
      && x.pos[x.cur] == |lists[x.cur]|
      && y == State(x.board[x.cur - 1 := 0], lists, x.pos[x.cur := 0], x.cur - 1)
    ensures Run(rel, s, cells, xs + [y])
  {
    RunGoesOn(rel, s, cells, xs, y);
  }

  /** The run has taken the cursor past the last cell and left g on the board. */
  ghost predicate Finds(rel: Relation, s: nat, xs: seq<State>, g: Board) {
    Run(rel, s, |g|, xs) && xs[|xs| - 1].board == g && xs[|xs| - 1].cur == |g|
  }

  /** The digits up to m, except first, that are legal in cell k. */
  ghost function Others(rel: Relation, s: nat, b: Board, k: nat, first: nat, m: nat): (c: seq<nat>)
    ensures NoRepeats(c) && forall d: nat :: d in c <==> d <= m && d != first && Legal(rel, s, b, k, d)
  {
    if m == 0 then []
    else Others(rel, s, b, k, first, m - 1) + if m != first && Legal(rel, s, b, k, m) then [m] else []
  }

  /** Lists that start with the digits of g, for the cells before k. */
  ghost function GuidedLists(rel: Relation, s: nat, g: Board, k: nat): (c: seq<seq<nat>>)
    requires k <= |g|
    ensures |c| == |g|
  {
    seq(|g|, l requires 0 <= l < |g| =>
      if l < k then [g[l]] + Others(rel, s, Prefix(g, l), l, g[l], s) else [])
  }

  ghost function Guided(rel: Relation, s: nat, g: Board, k: nat): (x: State)
    requires k <= |g|
  {
    State(Prefix(g, k), GuidedLists(rel, s, g, k), seq(|g|, l => if l < k then 1 else 0), k)
  }

  lemma GuidedTurn(rel: Relation, s: nat, g: Board, k: nat)
    requires Symmetric(rel) && Solved(rel, s, g) && k < |g|
    ensures LoopTurn(rel, s, Guided(rel, s, g, k), Guided(rel, s, g, k + 1))
  {
    var x, y := Guided(rel, s, g, k), Guided(rel, s, g, k + 1);
    CompletionIsLegal(rel, s, x.board, k, g);
    assert y.cands[k] == [g[k]] + Others(rel, s, x.board, k, g[k], s);
    assert y.board == x.board[k := g[k]] && y.pos == x.pos[k := 1];
  }

  ghost predicate TurnOf(rel: Relation, s: nat, f: nat -> State, k: nat) {
    LoopTurn(rel, s, f(k), f(k + 1))
  }

  lemma {:induction false} RunAlong(rel: Relation, s: nat, cells: nat, f: nat -> State, k: nat) returns (xs: seq<State>)
    requires Initial(f(0), cells) && forall l: nat :: l < k ==> TurnOf(rel, s, f, l)
    ensures Run(rel, s, cells, xs) && xs[|xs| - 1] == f(k)
  {
    if k == 0 {
      xs := [f(0)];
    } else {
      var before := RunAlong(rel, s, cells, f, k - 1);
      assert TurnOf(rel, s, f, k - 1);
      RunGoesOn(rel, s, cells, before, f(k));
      xs := before + [f(k)];
    }
  }

  /** The run in which every first candidate is the right one. */
  lemma GuidedRun(rel: Relation, s: nat, g: Board) returns (xs: seq<State>)
    requires Symmetric(rel) && Solved(rel, s, g)
    ensures Run(rel, s, |g|, xs) && xs[|xs| - 1] == Guided(rel, s, g, |g|)
  {
    var f := (k: nat) => Guided(rel, s, g, if k < |g| then k else |g|);
    forall k: nat | k < |g| ensures TurnOf(rel, s, f, k) {
      GuidedTurn(rel, s, g, k);
    }
    assert Initial(Guided(rel, s, g, 0), |g|);
    xs := RunAlong(rel, s, |g|, f, |g|);
  }

  /** With the shuffles left open, the grids the search can end with are exactly the solved ones. */
  lemma FindsExactlySolved(rel: Relation, s: nat, g: Board)
    requires Symmetric(rel)
    ensures (exists xs :: Finds(rel, s, xs, g)) <==> Solved(rel, s, g)
  {
    if xs: seq<State> :| Finds(rel, s, xs, g) {
      RunKeeps(rel, s, |g|, xs);
      FoundIsSolved(rel, s, g, xs[|xs| - 1].cands, xs[|xs| - 1].pos);
    }
    if Solved(rel, s, g) {
      var xs := GuidedRun(rel, s, g);
      assert Prefix(g, |g|) == g;
      assert Finds(rel, s, xs, g);
    }
  }

  // ---------- Termination ----------

  /** An upper bound on the loop turns that one more candidate of cell k can cost. */
  ghost function Weight(s: nat, cells: nat, k: nat): nat
    decreases cells - k
  {
    if k >= cells then 1 else 2 + s * Weight(s, cells, k + 1)
  }

  /** What the untried candidates of the cells up to the cursor can still cost. */
  ghost function Effort(s: nat, cells: nat, pos: seq<nat>): nat
  {
    if pos == [] then 0
    else
      var k := |pos| - 1;
      var left: nat := if pos[k] <= s then s - pos[k] else 0;
      Effort(s, cells, pos[..k]) + left * Weight(s, cells, k) + 1
  }

  ghost function Remaining(s: nat, pos: seq<nat>, cur: nat): nat
    requires cur <= |pos|
  {
    Effort(s, |pos|, if cur < |pos| then pos[..cur + 1] else pos)
  }

  lemma ForwardTerminates(s: nat, pos: seq<nat>, cur: nat)
    requires cur < |pos| && pos[cur] < s
    requires forall k :: cur < k < |pos| ==> pos[k] == 0
    ensures Remaining(s, pos[cur := pos[cur] + 1], cur + 1) < Remaining(s, pos, cur)
  {
    var n, p, pos' := |pos|, pos[cur], pos[cur := pos[cur] + 1];
    var w := Weight(s, n, cur);
    assert pos[..cur + 1][..cur] == pos[..cur] == pos'[..cur] == pos'[..cur + 1][..cur];
    assert (s - p - 1) * w == (s - p) * w - w;
    assert Effort(s, n, pos'[..cur + 1]) == Effort(s, n, pos[..cur + 1]) - w;
    if cur + 1 < n {
      assert pos'[..cur + 2][..cur + 1] == pos'[..cur + 1];
      assert Effort(s, n, pos'[..cur + 2]) == Effort(s, n, pos'[..cur + 1]) + s * Weight(s, n, cur + 1) + 1;
    } else {
      assert pos'[..cur + 1] == pos';
    }
  }

  lemma BackwardTerminates(s: nat, pos: seq<nat>, cur: nat)
    requires 0 < cur < |pos|
    ensures Remaining(s, pos[cur := 0], cur - 1) < Remaining(s, pos, cur)
  {
    assert pos[..cur + 1][..cur] == pos[..cur] == pos[cur := 0][..cur];
  }
}
