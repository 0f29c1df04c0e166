/**
 The recursive filler of sudoku.js (tryit) as a function of the board. `touched` records every
 cell written on the way, also those that were emptied again.
 */
module Filler {
  import opened Grid

  datatype Outcome = Outcome(ok: bool, board: Board, touched: set<nat>)

  /** tryit from cell k on. A filled cell is passed over first; when that fails, the digits are
      tried in it as in an empty cell. */
  ghost function Fill(rel: Relation, s: nat, b: Board, k: nat, ds: seq<nat>): (o: Outcome)
    ensures |o.board| == |b|
    decreases if k < |b| then |b| - k else 0, |ds| + 1
  {
    if k >= |b| then Outcome(true, b, {})
    else if b[k] != 0 then
      var o := Fill(rel, s, b, k + 1, ds);
      if o.ok then o
      else
        var o' := FillFrom(rel, s, o.board, k, ds, 0);
        o'.(touched := o.touched + o'.touched)
    else FillFrom(rel, s, b, k, ds, 0)
  }

  /** The retry loop at cell k, from the i-th digit of the order ds on. */
  ghost function FillFrom(rel: Relation, s: nat, b: Board, k: nat, ds: seq<nat>, i: nat): (o: Outcome)
    requires k < |b| && i <= |ds|
    ensures |o.board| == |b|
    decreases |b| - k, |ds| - i
  {
    if i == |ds| then Outcome(false, b, {})
    else if Legal(rel, s, b, k, ds[i]) then
      var o := Fill(rel, s, b[k := ds[i]], k + 1, ds);
      if o.ok then o.(touched := {k} + o.touched)
      else
        var o' := FillFrom(rel, s, o.board[k := 0], k, ds, i + 1);
        o'.(touched := {k} + o.touched + o'.touched)
    else FillFrom(rel, s, b, k, ds, i + 1)
  }

  // ---------- What is asked of a call and of its outcome ----------

  /** No digit passes the check in cell k. */
  ghost predicate Pinned(rel: Relation, s: nat, b: Board, k: nat) {
    forall d: nat :: !Legal(rel, s, b, k, d)
  }

  ghost predicate FilledArePinned(rel: Relation, s: nat, b: Board, k: nat) {
    forall l: nat :: k <= l < |b| && b[l] != 0 ==> Pinned(rel, s, b, l)
  }

  ghost predicate FilledBefore(b: Board, k: nat) {
    forall l :: 0 <= l < k && l < |b| ==> b[l] != 0
  }

  ghost predicate AllDigits(s: nat, ds: seq<nat>) {
    forall d :: 1 <= d <= s ==> d in ds
  }

  /** Success is a completion; failure means there is none and the board is as it was; only cells
      that were empty have been written. */
  ghost predicate ExactAt(rel: Relation, s: nat, b: Board, o: Outcome) {
    && (o.ok ==> Completes(rel, s, b, o.board))
    && (!o.ok ==> o.board == b && Hopeless(rel, s, b))
    && (forall l :: l in o.touched ==> l < |b| && b[l] == 0)
  }

  // ---------- Soundness on every board without conflicts ----------

  /** What any call at cell k does: no conflict arises, earlier cells stay, success fills the rest,
      and failure leaves no digit that was not there. */
  ghost predicate SoundAt(rel: Relation, s: nat, b: Board, k: nat, o: Outcome)
  {
    && |o.board| == |b| && ConflictFree(rel, o.board) && InRange(s, o.board)
    && (forall l :: 0 <= l < k && l < |b| ==> o.board[l] == b[l])
    && (o.ok ==> forall l :: k <= l < |b| ==> o.board[l] != 0)
    && (!o.ok ==> forall l :: k <= l < |b| ==> o.board[l] == b[l] || o.board[l] == 0)
  }

  lemma {:induction false} FillSound(rel: Relation, s: nat, b: Board, k: nat, ds: seq<nat>)
    requires Symmetric(rel) && ConflictFree(rel, b) && InRange(s, b)
    ensures SoundAt(rel, s, b, k, Fill(rel, s, b, k, ds))
    decreases if k < |b| then |b| - k else 0, |ds| + 1
  {
    if k < |b| {
      if b[k] != 0 {
        FillSound(rel, s, b, k + 1, ds);
        var o := Fill(rel, s, b, k + 1, ds);
        if !o.ok {
          FillFromSound(rel, s, o.board, k, ds, 0);
        }
      } else {
        FillFromSound(rel, s, b, k, ds, 0);
      }
    }
  }

  lemma {:induction false} FillFromSound(rel: Relation, s: nat, b: Board, k: nat, ds: seq<nat>, i: nat)
    requires Symmetric(rel) && ConflictFree(rel, b) && InRange(s, b) && k < |b| && i <= |ds|
    ensures SoundAt(rel, s, b, k, FillFrom(rel, s, b, k, ds, i))
    decreases |b| - k, |ds| - i
  {
    if i < |ds| {
      if Legal(rel, s, b, k, ds[i]) {
        var b' := b[k := ds[i]];
        LegalKeepsConflictFree(rel, s, b, k, ds[i]);
        FillSound(rel, s, b', k + 1, ds);
        var o := Fill(rel, s, b', k + 1, ds);
        if !o.ok {
          FillFromSound(rel, s, o.board[k := 0], k, ds, i + 1);
        } else {
          assert o.board[k] == b'[k];
        }
      } else {
        FillFromSound(rel, s, b, k, ds, i + 1);
      }
    }
  }

  // ---------- Completeness on every board without conflicts ----------

  /** A board that has a completion is never given up, even though failed attempts may already have
      emptied filled cells further on. */
  lemma {:induction false} FillComplete(rel: Relation, s: nat, b: Board, k: nat, ds: seq<nat>, g: Board)
    requires Symmetric(rel) && ConflictFree(rel, b) && InRange(s, b) && AllDigits(s, ds)
    requires Completes(rel, s, b, g)
    ensures Fill(rel, s, b, k, ds).ok
    decreases if k < |b| then |b| - k else 0, |ds| + 1
  {
    if k < |b| {
      if b[k] != 0 {
        FillComplete(rel, s, b, k + 1, ds, g);
      } else {
        assert g[k] in ds;
        var j :| 0 <= j < |ds| && ds[j] == g[k];
        FillFromComplete(rel, s, b, k, ds, 0, g, j);
      }
    }
  }

  lemma {:induction false} FillFromComplete(rel: Relation, s: nat, b: Board, k: nat, ds: seq<nat>, i: nat,
                                            g: Board, j: nat)
    requires Symmetric(rel) && ConflictFree(rel, b) && InRange(s, b) && AllDigits(s, ds)
    requires Completes(rel, s, b, g) && k < |b| && b[k] == 0 && i <= j < |ds| && ds[j] == g[k]
    ensures FillFrom(rel, s, b, k, ds, i).ok
    decreases |b| - k, |ds| - i
  {
    CompletionIsLegal(rel, s, b, k, g);
    if Legal(rel, s, b, k, ds[i]) {
      var b' := b[k := ds[i]];
      LegalKeepsConflictFree(rel, s, b, k, ds[i]);
      if i == j {
        FillComplete(rel, s, b', k + 1, ds, g);
      } else {
        FillSound(rel, s, b', k + 1, ds);
        var o := Fill(rel, s, b', k + 1, ds);
        if !o.ok {
          FillFromComplete(rel, s, o.board[k := 0], k, ds, i + 1, g, j);
        }
      }
    } else {
      FillFromComplete(rel, s, b, k, ds, i + 1, g, j);
    }
  }

  // ---------- Exactness when filled cells are pinned ----------

  lemma StaysPinned(rel: Relation, s: nat, b: Board, k: nat, d: nat, l: nat)
    requires k < |b| && b[k] == 0 && l < |b| && Pinned(rel, s, b, l)
    ensures Pinned(rel, s, b[k := d], l)
  {
    var b' := b[k := d];
    forall e: nat ensures !Legal(rel, s, b', l, e) {
      if 1 <= e <= s {
        assert !Legal(rel, s, b, l, e);
        var m: nat :| m < |b| && rel(l, m) && b[m] == e;
        assert b'[m] == e;
      }
    }
  }

  lemma {:induction false} PinnedKeeps(rel: Relation, s: nat, b: Board, k: nat, ds: seq<nat>, i: nat)
    requires k < |b| && i <= |ds| && Pinned(rel, s, b, k)
    ensures FillFrom(rel, s, b, k, ds, i) == Outcome(false, b, {})
    decreases |ds| - i
  {
    if i < |ds| {
      PinnedKeeps(rel, s, b, k, ds, i + 1);
    }
  }

  lemma {:induction false} FillExact(rel: Relation, s: nat, b: Board, k: nat, ds: seq<nat>)
    requires Symmetric(rel) && ConflictFree(rel, b) && InRange(s, b) && AllDigits(s, ds)
    requires FilledBefore(b, k) && FilledArePinned(rel, s, b, k)
    ensures ExactAt(rel, s, b, Fill(rel, s, b, k, ds))
    decreases if k < |b| then |b| - k else 0, |ds| + 1
  {
    if k < |b| {
      if b[k] != 0 {
        FillExact(rel, s, b, k + 1, ds);
        PinnedKeeps(rel, s, b, k, ds, 0);
      } else {
        FillFromExact(rel, s, b, k, ds, 0);
      }
    }
  }

  lemma {:induction false} FillFromExact(rel: Relation, s: nat, b: Board, k: nat, ds: seq<nat>, i: nat)
    requires Symmetric(rel) && ConflictFree(rel, b) && InRange(s, b) && AllDigits(s, ds)
    requires k < |b| && b[k] == 0 && FilledBefore(b, k) && FilledArePinned(rel, s, b, k) && i <= |ds|
    requires forall j :: 0 <= j < i && Legal(rel, s, b, k, ds[j]) ==> Hopeless(rel, s, b[k := ds[j]])
    ensures ExactAt(rel, s, b, FillFrom(rel, s, b, k, ds, i))
    decreases |b| - k, |ds| - i
  {
    if i == |ds| {
      forall d | Legal(rel, s, b, k, d) ensures Hopeless(rel, s, b[k := d]) {
        assert d in ds;
      }
      AllDigitsHopeless(rel, s, b, k);
    } else if Legal(rel, s, b, k, ds[i]) {
      var b' := b[k := ds[i]];
      LegalKeepsConflictFree(rel, s, b, k, ds[i]);
      forall l: nat | k + 1 <= l < |b'| && b'[l] != 0 ensures Pinned(rel, s, b', l) {
        StaysPinned(rel, s, b, k, ds[i], l);
      }
      FillExact(rel, s, b', k + 1, ds);
      var o := Fill(rel, s, b', k + 1, ds);
      if o.ok {
        assert Extends(b, o.board);
      } else {
        assert o.board[k := 0] == b;
        FillFromExact(rel, s, b, k, ds, i + 1);
      }
    } else {
      FillFromExact(rel, s, b, k, ds, i + 1);
    }
  }

  // ---------- Which outcomes are exact ----------

  /** `touched` accounts for the board: a cell that was never written is as before, and a failed
      call leaves every written cell empty. */
  ghost predicate Accounted(b: Board, k: nat, o: Outcome) {
    && |o.board| == |b|
    && (forall l :: l in o.touched ==> k <= l < |b|)
    && (forall l: nat :: l < |b| && l !in o.touched ==> o.board[l] == b[l])
    && (!o.ok ==> forall l: nat :: l < |b| && l in o.touched ==> o.board[l] == 0)
  }

  lemma {:induction false} FillAccounts(rel: Relation, s: nat, b: Board, k: nat, ds: seq<nat>)
    ensures Accounted(b, k, Fill(rel, s, b, k, ds))
    decreases if k < |b| then |b| - k else 0, |ds| + 1
  {
    if k < |b| {
      if b[k] != 0 {
        FillAccounts(rel, s, b, k + 1, ds);
        FillFromAccounts(rel, s, Fill(rel, s, b, k + 1, ds).board, k, ds, 0);
      } else {
        FillFromAccounts(rel, s, b, k, ds, 0);
      }
    }
  }

  lemma {:induction false} FillFromAccounts(rel: Relation, s: nat, b: Board, k: nat, ds: seq<nat>, i: nat)
    requires k < |b| && i <= |ds|
    ensures Accounted(b, k, FillFrom(rel, s, b, k, ds, i))
    decreases |b| - k, |ds| - i
  {
    if i < |ds| {
      if Legal(rel, s, b, k, ds[i]) {
        var o := Fill(rel, s, b[k := ds[i]], k + 1, ds);
        FillAccounts(rel, s, b[k := ds[i]], k + 1, ds);
        if !o.ok {
          FillFromAccounts(rel, s, o.board[k := 0], k, ds, i + 1);
        }
      } else {
        FillFromAccounts(rel, s, b, k, ds, i + 1);
      }
    }
  }

  /** The outcome is exact precisely when no filled cell was written on the way; in particular a
      failed call leaves the board as it was precisely then. */
  lemma ExactIffNoClueWritten(rel: Relation, s: nat, b: Board, k: nat, ds: seq<nat>)
    requires Symmetric(rel) && ConflictFree(rel, b) && InRange(s, b) && AllDigits(s, ds) && FilledBefore(b, k)
    ensures var o := Fill(rel, s, b, k, ds);
      && (ExactAt(rel, s, b, o) <==> forall l :: l in o.touched ==> l < |b| && b[l] == 0)
      && (!o.ok ==> (o.board == b <==> forall l :: l in o.touched ==> l < |b| && b[l] == 0))
  {
    var o := Fill(rel, s, b, k, ds);
    FillAccounts(rel, s, b, k, ds);
    FillSound(rel, s, b, k, ds);
    if !o.ok {
      forall g | Completes(rel, s, b, g) ensures false {
        FillComplete(rel, s, b, k, ds, g);
      }
    }
  }

  // ---------- The fall-through on a filled cell ----------

  lemma {:induction false} LegalDigitIsTried(rel: Relation, s: nat, b: Board, k: nat, ds: seq<nat>, i: nat, j: nat)
    requires Symmetric(rel) && ConflictFree(rel, b) && InRange(s, b)
    requires k < |b| && i <= j < |ds| && Legal(rel, s, b, k, ds[j]) && b[k] != 0
    ensures var o := FillFrom(rel, s, b, k, ds, i); o.ok || o.board[k] == 0
    decreases j - i
  {
    if Legal(rel, s, b, k, ds[i]) {
      LegalKeepsConflictFree(rel, s, b, k, ds[i]);
      var o := Fill(rel, s, b[k := ds[i]], k + 1, ds);
      FillSound(rel, s, b[k := ds[i]], k + 1, ds);
      if !o.ok {
        FillFromSound(rel, s, o.board[k := 0], k, ds, i + 1);
      }
    } else {
      LegalDigitIsTried(rel, s, b, k, ds, i + 1, j);
    }
  }

  /** A filled cell in which some digit passes the check is not left alone by the retry loop. */
  lemma UnpinnedIsTried(rel: Relation, s: nat, b: Board, k: nat, ds: seq<nat>)
    requires Symmetric(rel) && ConflictFree(rel, b) && InRange(s, b) && AllDigits(s, ds)
    requires k < |b| && b[k] != 0 && !Pinned(rel, s, b, k)
    ensures var o := FillFrom(rel, s, b, k, ds, 0); o.ok || o.board[k] == 0
  {
    var d: nat :| Legal(rel, s, b, k, d);
    assert d in ds;
    var j :| 0 <= j < |ds| && ds[j] == d;
    LegalDigitIsTried(rel, s, b, k, ds, 0, j);
  }

  /** When passing over a filled cell has failed and left the board alone, the fall-through into the
      retry loop reports failure with the board unchanged exactly if no digit passes the check there. */
  lemma FallThroughIff(rel: Relation, s: nat, b: Board, k: nat, ds: seq<nat>)
    requires Symmetric(rel) && ConflictFree(rel, b) && InRange(s, b) && AllDigits(s, ds)
    requires k < |b| && b[k] != 0
    requires !Fill(rel, s, b, k + 1, ds).ok && Fill(rel, s, b, k + 1, ds).board == b
    ensures !Fill(rel, s, b, k, ds).ok && Fill(rel, s, b, k, ds).board == b <==> Pinned(rel, s, b, k)
  {
    if Pinned(rel, s, b, k) {
      PinnedKeeps(rel, s, b, k, ds, 0);
    } else {
      UnpinnedIsTried(rel, s, b, k, ds);
    }
  }

  /** Success and failure together: on a filled cell tryit is exact exactly when passing over the cell
      is, and either succeeds or leaves a cell in which no digit passes the check. */
  lemma FilledCellExactIff(rel: Relation, s: nat, b: Board, k: nat, ds: seq<nat>)
    requires Symmetric(rel) && ConflictFree(rel, b) && InRange(s, b) && AllDigits(s, ds)
    requires k < |b| && b[k] != 0
    ensures ExactAt(rel, s, b, Fill(rel, s, b, k, ds)) <==>
      && ExactAt(rel, s, b, Fill(rel, s, b, k + 1, ds))
      && (Fill(rel, s, b, k + 1, ds).ok || Pinned(rel, s, b, k))
  {
    var o, o' := Fill(rel, s, b, k + 1, ds), Fill(rel, s, b, k, ds);
    if !o.ok {
      FillSound(rel, s, b, k + 1, ds);
      FillFromSound(rel, s, o.board, k, ds, 0);
      forall g | Completes(rel, s, b, g) ensures false {
        FillComplete(rel, s, b, k + 1, ds, g);
      }
      if o.board == b {
        if Pinned(rel, s, b, k) {
          PinnedKeeps(rel, s, b, k, ds, 0);
        } else {
          UnpinnedIsTried(rel, s, b, k, ds);
        }
      }
    }
  }

  // ---------- One wrong clue ----------

  /** The retry loop at a clue m whose removal leaves a board that g completes. */
  lemma {:induction false} WrongClueIsReplaced(rel: Relation, s: nat, b: Board, m: nat, ds: seq<nat>, i: nat,
                                               g: Board, j: nat)
    requires Symmetric(rel) && ConflictFree(rel, b) && InRange(s, b) && AllDigits(s, ds)
    requires m < |b| && b[m] != 0 && Completes(rel, s, b[m := 0], g) && g[m] != b[m]
    requires i <= j < |ds| && ds[j] == g[m]
    ensures FillFrom(rel, s, b, m, ds, i).ok
    decreases j - i
  {
    CompletionIsLegal(rel, s, b[m := 0], m, g);
    assert Legal(rel, s, b, m, g[m]) by {
      forall l: nat | l < |b| && rel(m, l) ensures b[l] != g[m] {
        assert l != m ==> b[l] == b[m := 0][l];
      }
    }
    if Legal(rel, s, b, m, ds[i]) {
      var b' := b[m := ds[i]];
      LegalKeepsConflictFree(rel, s, b, m, ds[i]);
      if i == j {
        FillComplete(rel, s, b', m + 1, ds, g);
      } else {
        FillSound(rel, s, b', m + 1, ds);
        var o := Fill(rel, s, b', m + 1, ds);
        if !o.ok {
          FillFromComplete(rel, s, o.board[m := 0], m, ds, i + 1, g, j);
        }
      }
    } else {
      WrongClueIsReplaced(rel, s, b, m, ds, i + 1, g, j);
    }
  }

  /** A single wrong clue that only filled cells precede is overwritten: tryit reports success
      although the board has no completion, so what it leaves is no completion. */
  lemma {:induction false} WrongClueIsLost(rel: Relation, s: nat, b: Board, k: nat, m: nat, ds: seq<nat>, g: Board)
    requires Symmetric(rel) && ConflictFree(rel, b) && InRange(s, b) && AllDigits(s, ds)
    requires k <= m < |b| && FilledBefore(b, m + 1)
    requires Completes(rel, s, b[m := 0], g) && Hopeless(rel, s, b)
    ensures var o := Fill(rel, s, b, k, ds); o.ok && !Extends(b, o.board)
    decreases m - k
  {
    var o := Fill(rel, s, b, k, ds);
    if k < m {
      WrongClueIsLost(rel, s, b, k + 1, m, ds, g);
    } else {
      var p := Fill(rel, s, b, m + 1, ds);
      FillSound(rel, s, b, m + 1, ds);
      if !p.ok {
        assert !Completes(rel, s, b, g);
        assert g[m] in ds;
        var j :| 0 <= j < |ds| && ds[j] == g[m];
        WrongClueIsReplaced(rel, s, p.board, m, ds, 0, g, j);
      }
    }
    FillSound(rel, s, b, k, ds);
    assert !Completes(rel, s, b, o.board);
  }

  // ---------- One right clue before a dead end ----------

  /** c is b except perhaps in cell k. */
  ghost predicate Beside(b: Board, k: nat, c: Board) {
    |b| == |c| && forall l: nat :: l < |b| && l != k ==> b[l] == c[l]
  }

  /** When no digit fits the next cell whatever stands in cell k, the retry loop at k can only fail. */
  lemma {:induction false} FillFromDead(rel: Relation, s: nat, b: Board, k: nat, ds: seq<nat>, i: nat)
    requires k + 1 < |b| && i <= |ds| && b[k + 1] == 0
    requires forall c :: Beside(b, k, c) ==> Pinned(rel, s, c, k + 1)
    ensures var o := FillFrom(rel, s, b, k, ds, i); !o.ok && (o.board == b || o.board == b[k := 0])
    decreases |ds| - i
  {
    if i < |ds| {
      if Legal(rel, s, b, k, ds[i]) {
        assert Beside(b, k, b[k := ds[i]]) && b[k := ds[i]][k := 0] == b[k := 0];
        PinnedKeeps(rel, s, b[k := ds[i]], k + 1, ds, 0);
        var e := b[k := 0];
        forall c | Beside(e, k, c) ensures Pinned(rel, s, c, k + 1) {
          assert Beside(b, k, c);
        }
        FillFromDead(rel, s, e, k, ds, i + 1);
      } else {
        FillFromDead(rel, s, b, k, ds, i + 1);
      }
    }
  }

  /** An empty cell whose first digit fits but leads nowhere goes on with the second. */
  lemma SecondAttempt(rel: Relation, s: nat, b: Board, k: nat, ds: seq<nat>, e: Board)
    requires k < |b| && b[k] == 0 && |ds| >= 2 && Legal(rel, s, b, k, ds[0])
    requires var o := Fill(rel, s, b[k := ds[0]], k + 1, ds); !o.ok && o.board[k := 0] == e
    ensures var o, o' := Fill(rel, s, b, k, ds), FillFrom(rel, s, e, k, ds, 1); o.ok == o'.ok && o.board == o'.board
  {
  }

  /** The digit of a completion that is next in order is the one that ends up in the cell. */
  lemma NextDigitIsKept(rel: Relation, s: nat, b: Board, k: nat, ds: seq<nat>, i: nat, g: Board)
    requires Symmetric(rel) && ConflictFree(rel, b) && InRange(s, b) && AllDigits(s, ds)
    requires Completes(rel, s, b, g) && k < |b| && b[k] == 0 && i < |ds| && ds[i] == g[k]
    ensures var o := FillFrom(rel, s, b, k, ds, i); o.ok && o.board[k] == g[k]
  {
    CompletionIsLegal(rel, s, b, k, g);
    LegalKeepsConflictFree(rel, s, b, k, g[k]);
    FillComplete(rel, s, b[k := g[k]], k + 1, ds, g);
    FillSound(rel, s, b[k := g[k]], k + 1, ds);
  }

  /** When the first digit of the order fails in cell k and the second is the next cell's clue, which the
      failed attempt has given up, cell k takes that digit for good. */
  lemma RetryTakesClue(rel: Relation, s: nat, b: Board, k: nat, ds: seq<nat>, e: Board, g: Board)
    requires Symmetric(rel) && ConflictFree(rel, b) && InRange(s, b) && AllDigits(s, ds)
    requires k + 1 < |b| && b[k] == 0 && b[k + 1] != 0 && rel(k, k + 1)
    requires |ds| >= 2 && Legal(rel, s, b, k, ds[0])
    requires var o := Fill(rel, s, b[k := ds[0]], k + 1, ds); !o.ok && o.board[k := 0] == e
    requires ConflictFree(rel, e) && InRange(s, e) && Completes(rel, s, e, g) && ds[1] == g[k] == b[k + 1]
    ensures var o := Fill(rel, s, b, k, ds); o.ok && !Extends(b, o.board)
  {
    SecondAttempt(rel, s, b, k, ds, e);
    NextDigitIsKept(rel, s, e, k, ds, 1, g);
    FillSound(rel, s, b, k, ds);
  }
}
