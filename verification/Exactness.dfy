/**
 When a call of tryit is exact, read off the board before the call: the boards at which its search
 falls through into the retry loop of a filled cell.
 */
module Exactness {
  import opened Grid
  import opened Counting
  import opened Filler

  /** c is b with the empty cells before the filled cell m filled without a conflict. */
  ghost predicate Reaches(rel: Relation, s: nat, b: Board, c: Board, m: nat) {
    && |c| == |b| && m < |b| && b[m] != 0 && Extends(b, c) && FilledBefore(c, m)
    && ConflictFree(rel, c) && InRange(s, c) && forall l :: m <= l < |b| ==> c[l] == b[l]
  }

  ghost predicate Departs(ds: seq<nat>, g: Board, c: Board, p: nat, i: nat, j: nat) {
    && p < |g| == |c| && (forall l :: 0 <= l < p ==> g[l] == c[l])
    && i < j < |ds| && g[p] == ds[i] && c[p] == ds[j]
  }

  /** Where g first departs from c, the digit of g comes sooner in the order. */
  ghost predicate Precedes(ds: seq<nat>, g: Board, c: Board) {
    exists p: nat, i: nat, j: nat :: Departs(ds, g, c, p, i, j)
  }

  /** At c, which has no completion, some digit passes the check in the filled cell m, and no completion
      of b comes before c. */
  ghost predicate Loss(rel: Relation, s: nat, b: Board, ds: seq<nat>, c: Board, m: nat) {
    && Reaches(rel, s, b, c, m) && Hopeless(rel, s, c) && !Pinned(rel, s, c, m)
    && forall g :: Completes(rel, s, b, g) ==> !Precedes(ds, g, c)
  }

  ghost predicate Lossless(rel: Relation, s: nat, b: Board, k: nat, ds: seq<nat>) {
    forall c: Board, m: nat :: k <= m ==> !Loss(rel, s, b, ds, c, m)
  }

  /** An order in which tryit tries the digits: each once. */
  ghost predicate Order(s: nat, ds: seq<nat>) {
    AllDigits(s, ds) && NoRepeats(ds) && 0 !in ds
  }

  ghost predicate Ready(rel: Relation, s: nat, b: Board, k: nat) {
    ConflictFree(rel, b) && InRange(s, b) && FilledBefore(b, k)
  }

  // ---------- Losses at a filled cell ----------

  /** With the cells before k filled, only b itself reaches k. */
  lemma OnlyItself(rel: Relation, s: nat, b: Board, k: nat, c: Board)
    requires FilledBefore(b, k) && Reaches(rel, s, b, c, k)
    ensures c == b
  {
  }

  lemma FilledCellLosses(rel: Relation, s: nat, b: Board, k: nat, ds: seq<nat>)
    requires Ready(rel, s, b, k) && k < |b| && b[k] != 0
    ensures Lossless(rel, s, b, k, ds) <==>
            Lossless(rel, s, b, k + 1, ds) && !(Hopeless(rel, s, b) && !Pinned(rel, s, b, k))
  {
    if Hopeless(rel, s, b) && !Pinned(rel, s, b, k) {
      assert Loss(rel, s, b, ds, b, k);
    }
    forall c: Board | Loss(rel, s, b, ds, c, k) ensures Hopeless(rel, s, b) && !Pinned(rel, s, b, k) {
      OnlyItself(rel, s, b, k, c);
    }
  }

  // ---------- Losses at an empty cell ----------

  /** A loss beyond an empty cell puts a legal digit of the order there. */
  lemma LossDigit(rel: Relation, s: nat, b: Board, k: nat, ds: seq<nat>, c: Board, m: nat) returns (j: nat)
    requires Symmetric(rel) && Ready(rel, s, b, k) && Order(s, ds) && k < |b| && b[k] == 0 && k <= m
    requires Loss(rel, s, b, ds, c, m)
    ensures j < |ds| && ds[j] == c[k] && Legal(rel, s, b, k, ds[j]) && k < m
  {
    forall l: nat | l < |b| && rel(k, l) ensures b[l] != c[k] {
      assert rel(l, k);
    }
    assert c[k] in ds;
    j :| 0 <= j < |ds| && ds[j] == c[k];
  }

  /** It is a loss of the board with that digit. */
  lemma LossGoesDown(rel: Relation, s: nat, b: Board, k: nat, ds: seq<nat>, c: Board, m: nat)
    requires Ready(rel, s, b, k) && k < m && k < |b| && b[k] == 0
    requires Loss(rel, s, b, ds, c, m)
    ensures Loss(rel, s, b[k := c[k]], ds, c, m)
  {
    forall g | Completes(rel, s, b[k := c[k]], g) ensures !Precedes(ds, g, c) {
      assert Completes(rel, s, b, g);
    }
  }

  /** The digits before it in the order have led to no completion. */
  lemma LossComesFirst(rel: Relation, s: nat, b: Board, k: nat, ds: seq<nat>, c: Board, m: nat, i: nat, j: nat)
    requires Ready(rel, s, b, k) && k < m && k < |b| && b[k] == 0
    requires Loss(rel, s, b, ds, c, m) && i < j < |ds| && c[k] == ds[j] && 0 !in ds
    ensures Hopeless(rel, s, b[k := ds[i]])
  {
    var b' := b[k := ds[i]];
    forall g ensures !Completes(rel, s, b', g) {
      if Extends(b', g) {
        assert b'[k] == ds[i] != 0 && Departs(ds, g, c, k, i, j);
        assert !Completes(rel, s, b, g);
      }
    }
  }

  /** Conversely a loss of the board with the j-th digit is one of the board, once the digits before have
      led to no completion. */
  lemma LossGoesUp(rel: Relation, s: nat, b: Board, k: nat, ds: seq<nat>, j: nat, c: Board, m: nat)
    requires Symmetric(rel) && Ready(rel, s, b, k) && Order(s, ds) && k < m && k < |b| && b[k] == 0 && j < |ds|
    requires Loss(rel, s, b[k := ds[j]], ds, c, m)
    requires forall i :: 0 <= i < j ==> Hopeless(rel, s, b[k := ds[i]])
    ensures Loss(rel, s, b, ds, c, m)
  {
    forall g | Completes(rel, s, b, g) ensures !Precedes(ds, g, c) {
      if g[k] == ds[j] {
        assert Completes(rel, s, b[k := ds[j]], g);
      } else {
        forall x: nat | x < j ensures g[k] != ds[x] {
          assert !Completes(rel, s, b[k := ds[x]], g);
        }
        assert c[k] == b[k := ds[j]][k] == ds[j];
        forall p: nat, x: nat, y: nat ensures !Departs(ds, g, c, p, x, y) {
        }
      }
    }
  }

  // ---------- The digits of the retry loop ----------

  /** The j-th digit leads to no completion and to no loss, or does not pass the check. */
  ghost predicate Passed(rel: Relation, s: nat, b: Board, k: nat, ds: seq<nat>, j: nat)
    requires k < |b| && j < |ds|
  {
    && Hopeless(rel, s, b[k := ds[j]])
    && (Legal(rel, s, b, k, ds[j]) ==> Lossless(rel, s, b[k := ds[j]], k + 1, ds))
  }

  lemma IllegalIsPassed(rel: Relation, s: nat, b: Board, k: nat, ds: seq<nat>, j: nat)
    requires Symmetric(rel) && k < |b| && b[k] == 0 && j < |ds| && ds[j] != 0 && !Legal(rel, s, b, k, ds[j])
    ensures Passed(rel, s, b, k, ds, j)
  {
    var b' := b[k := ds[j]];
    forall g ensures !Completes(rel, s, b', g) {
      if Completes(rel, s, b, g) {
        CompletionIsLegal(rel, s, b, k, g);
        assert b'[k] == ds[j] != 0;
      } else {
        assert Extends(b', g) ==> Extends(b, g);
      }
    }
  }

  lemma PassedHasNoLoss(rel: Relation, s: nat, b: Board, k: nat, ds: seq<nat>, j: nat, c: Board, m: nat)
    requires k < |b| && j < |ds| && k < m && Legal(rel, s, b, k, ds[j])
    requires Passed(rel, s, b, k, ds, j)
    ensures !Loss(rel, s, b[k := ds[j]], ds, c, m)
  {
  }

  /** A loss of the board comes with a digit that is not passed, and no digit before it has a completion. */
  lemma NoLossOutside(rel: Relation, s: nat, b: Board, k: nat, ds: seq<nat>, i: nat)
    requires Symmetric(rel) && Ready(rel, s, b, k) && Order(s, ds) && k < |b| && b[k] == 0 && i <= |ds|
    requires forall j :: 0 <= j < i ==> Passed(rel, s, b, k, ds, j)
    requires i < |ds| ==> Lossless(rel, s, b[k := ds[i]], k + 1, ds) && !Hopeless(rel, s, b[k := ds[i]])
    ensures Lossless(rel, s, b, k, ds)
  {
    forall c: Board, m: nat | k <= m ensures !Loss(rel, s, b, ds, c, m) {
      if Loss(rel, s, b, ds, c, m) {
        var j := LossDigit(rel, s, b, k, ds, c, m);
        if i < j {
          LossComesFirst(rel, s, b, k, ds, c, m, i, j);
        } else {
          if j < i {
            PassedHasNoLoss(rel, s, b, k, ds, j, c, m);
          }
          LossGoesDown(rel, s, b, k, ds, c, m);
        }
      }
    }
  }

  /** When all digits are passed, so is the cell. */
  lemma AllPassed(rel: Relation, s: nat, b: Board, k: nat, ds: seq<nat>)
    requires Symmetric(rel) && Ready(rel, s, b, k) && Order(s, ds) && k < |b| && b[k] == 0
    requires forall j :: 0 <= j < |ds| ==> Passed(rel, s, b, k, ds, j)
    ensures Hopeless(rel, s, b) && Lossless(rel, s, b, k, ds)
  {
    forall d: nat | Legal(rel, s, b, k, d) ensures Hopeless(rel, s, b[k := d]) {
      assert d in ds;
      var j :| 0 <= j < |ds| && ds[j] == d;
      assert Passed(rel, s, b, k, ds, j);
    }
    AllDigitsHopeless(rel, s, b, k);
    NoLossOutside(rel, s, b, k, ds, |ds|);
  }

  lemma LossIsCarriedUp(rel: Relation, s: nat, b: Board, k: nat, ds: seq<nat>, i: nat)
    requires Symmetric(rel) && Ready(rel, s, b, k) && Order(s, ds) && k < |b| && b[k] == 0 && i < |ds|
    requires forall j :: 0 <= j < i ==> Passed(rel, s, b, k, ds, j)
    requires !Lossless(rel, s, b[k := ds[i]], k + 1, ds)
    ensures !Lossless(rel, s, b, k, ds)
  {
    var c: Board, m: nat :| k + 1 <= m && Loss(rel, s, b[k := ds[i]], ds, c, m);
    forall j | 0 <= j < i ensures Hopeless(rel, s, b[k := ds[j]]) {
      assert Passed(rel, s, b, k, ds, j);
    }
    LossGoesUp(rel, s, b, k, ds, i, c, m);
  }

  lemma DigitWrites(rel: Relation, s: nat, b: Board, k: nat, ds: seq<nat>, i: nat)
    requires k < |b| && i < |ds| && Legal(rel, s, b, k, ds[i])
    ensures Fill(rel, s, b[k := ds[i]], k + 1, ds).touched <= FillFrom(rel, s, b, k, ds, i).touched
  {
  }

  lemma SpoiltByClue(rel: Relation, s: nat, b: Board, k: nat, ds: seq<nat>, i: nat, l: nat)
    requires k < |b| && i < |ds| && Legal(rel, s, b, k, ds[i])
    requires l in Fill(rel, s, b[k := ds[i]], k + 1, ds).touched && k < l < |b| && b[l] != 0
    ensures !ExactAt(rel, s, b, FillFrom(rel, s, b, k, ds, i))
  {
    DigitWrites(rel, s, b, k, ds, i);
  }

  /** A digit whose call is not exact spoils the whole loop: it has written a filled cell. */
  lemma SpoiltByDigit(rel: Relation, s: nat, b: Board, k: nat, ds: seq<nat>, i: nat)
    requires Symmetric(rel) && Ready(rel, s, b, k) && AllDigits(s, ds) && k < |b| && b[k] == 0
    requires i < |ds| && Legal(rel, s, b, k, ds[i])
    requires !ExactAt(rel, s, b[k := ds[i]], Fill(rel, s, b[k := ds[i]], k + 1, ds))
    ensures !ExactAt(rel, s, b, FillFrom(rel, s, b, k, ds, i))
  {
    var b' := b[k := ds[i]];
    LegalKeepsConflictFree(rel, s, b, k, ds[i]);
    ExactIffNoClueWritten(rel, s, b', k + 1, ds);
    FillAccounts(rel, s, b', k + 1, ds);
    var l: nat :| l in Fill(rel, s, b', k + 1, ds).touched && b'[l] != 0;
    SpoiltByClue(rel, s, b, k, ds, i, l);
  }

  /** A digit whose call is exact passes its success on, or its failure leaves the loop where it was. */
  lemma KeptByDigit(rel: Relation, s: nat, b: Board, k: nat, ds: seq<nat>, i: nat)
    requires k < |b| && b[k] == 0 && i < |ds| && ds[i] != 0 && Legal(rel, s, b, k, ds[i])
    requires ExactAt(rel, s, b[k := ds[i]], Fill(rel, s, b[k := ds[i]], k + 1, ds))
    ensures ExactAt(rel, s, b, FillFrom(rel, s, b, k, ds, i)) <==>
            Fill(rel, s, b[k := ds[i]], k + 1, ds).ok || ExactAt(rel, s, b, FillFrom(rel, s, b, k, ds, i + 1))
  {
    var b' := b[k := ds[i]];
    var o := Fill(rel, s, b', k + 1, ds);
    forall l | l in o.touched ensures l < |b| && b[l] == 0 {
      assert b'[l] == 0;
    }
    if o.ok {
      assert Extends(b, o.board);
    } else {
      assert o.board[k := 0] == b;
    }
  }

  // ---------- The exact condition ----------

  /** On a board without conflicts whose cells before k are filled, the call at k is exact exactly when no
      board it comes to before the first completion is a loss. */
  lemma {:induction false} ExactIffLossless(rel: Relation, s: nat, b: Board, k: nat, ds: seq<nat>)
    requires Symmetric(rel) && Ready(rel, s, b, k) && Order(s, ds)
    ensures ExactAt(rel, s, b, Fill(rel, s, b, k, ds)) <==> Lossless(rel, s, b, k, ds)
    decreases if k < |b| then |b| - k else 0, |ds| + 1
  {
    if k >= |b| {
      assert ExactAt(rel, s, b, Fill(rel, s, b, k, ds));
    } else if b[k] != 0 {
      ExactIffLossless(rel, s, b, k + 1, ds);
      FilledCellExactIff(rel, s, b, k, ds);
      FilledCellLosses(rel, s, b, k, ds);
    } else {
      FromIffLossless(rel, s, b, k, ds, 0);
    }
  }

  /** The retry loop at an empty cell, when the digits before the i-th are passed. */
  lemma {:induction false} FromIffLossless(rel: Relation, s: nat, b: Board, k: nat, ds: seq<nat>, i: nat)
    requires Symmetric(rel) && Ready(rel, s, b, k) && Order(s, ds) && k < |b| && b[k] == 0 && i <= |ds|
    requires forall j :: 0 <= j < i ==> Passed(rel, s, b, k, ds, j)
    ensures ExactAt(rel, s, b, FillFrom(rel, s, b, k, ds, i)) <==> Lossless(rel, s, b, k, ds)
    decreases |b| - k, |ds| - i
  {
    if i == |ds| {
      AllPassed(rel, s, b, k, ds);
    } else if !Legal(rel, s, b, k, ds[i]) {
      IllegalIsPassed(rel, s, b, k, ds, i);
      FromIffLossless(rel, s, b, k, ds, i + 1);
    } else {
      var b' := b[k := ds[i]];
      LegalKeepsConflictFree(rel, s, b, k, ds[i]);
      ExactIffLossless(rel, s, b', k + 1, ds);
      var o := Fill(rel, s, b', k + 1, ds);
      if !ExactAt(rel, s, b', o) {
        LossIsCarriedUp(rel, s, b, k, ds, i);
        SpoiltByDigit(rel, s, b, k, ds, i);
      } else {
        KeptByDigit(rel, s, b, k, ds, i);
        if o.ok {
          NoLossOutside(rel, s, b, k, ds, i);
        } else {
          FromIffLossless(rel, s, b, k, ds, i + 1);
        }
      }
    }
  }

  /** Where there is no completion the order does not matter: the call fails and leaves the board exactly
      when every filled cell is pinned however the empty cells before it are filled. */
  lemma CleanFailureIff(rel: Relation, s: nat, b: Board, k: nat, ds: seq<nat>)
    requires Symmetric(rel) && Ready(rel, s, b, k) && Order(s, ds) && Hopeless(rel, s, b)
    ensures var o := Fill(rel, s, b, k, ds);
      !o.ok && o.board == b <==>
      forall c: Board, m: nat :: k <= m && Reaches(rel, s, b, c, m) ==> Pinned(rel, s, c, m)
  {
    ExactIffLossless(rel, s, b, k, ds);
    ExactIffNoClueWritten(rel, s, b, k, ds);
    forall c: Board, m: nat | Reaches(rel, s, b, c, m) ensures Loss(rel, s, b, ds, c, m) <==> !Pinned(rel, s, c, m) {
      forall g ensures !Completes(rel, s, c, g) {
        assert !Completes(rel, s, b, g);
      }
    }
  }
}
