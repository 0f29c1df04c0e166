/** Candidate lists: the filled entries of a block, and what reordering does to them. */
module Lists {
  import opened Counting

  /** The filled entries of v, in order. */
  ghost function NonZero(v: seq<nat>): (c: seq<nat>)
    ensures |c| <= |v|
  {
    if v == [] then []
    else
      var x := v[|v| - 1];
      NonZero(v[..|v| - 1]) + if x != 0 then [x] else []
  }

  lemma {:induction false} NonZeroMembers(v: seq<nat>, d: nat)
    ensures d in NonZero(v) <==> d != 0 && d in v
  {
    if v != [] {
      NonZeroMembers(v[..|v| - 1], d);
      assert v == v[..|v| - 1] + [v[|v| - 1]];
    }
  }

  lemma {:induction false} NonZeroPrefix(v: seq<nat>, i: nat)
    requires i <= |v|
    ensures NonZero(v[..i]) <= NonZero(v)
  {
    if i < |v| {
      NonZeroPrefix(v[..|v| - 1], i);
      assert v[..|v| - 1][..i] == v[..i];
    } else {
      assert v[..i] == v;
    }
  }

  lemma {:induction false} NonZeroNoRepeats(v: seq<nat>)
    requires Distinct(v)
    ensures NoRepeats(NonZero(v))
  {
    if v != [] {
      var n := |v| - 1;
      NonZeroNoRepeats(v[..n]);
      NonZeroMembers(v[..n], v[n]);
    }
  }

  lemma {:induction false} DistinctIff(v: seq<nat>)
    ensures Distinct(v) <==> forall x :: x != 0 ==> multiset(v)[x] <= 1
  {
    if v != [] {
      var n := |v| - 1;
      var w := v[..n];
      DistinctIff(w);
      assert v == w + [v[n]];
      if v[n] != 0 && v[n] in w {
        var i :| 0 <= i < n && w[i] == v[n];
        assert v[i] == v[n] && multiset(v)[v[n]] >= 2;
      } else if Distinct(w) {
        forall x | x != 0 ensures multiset(v)[x] <= 1 {
          assert v[n] == x ==> x !in multiset(w);
        }
      } else {
        var x :| x != 0 && multiset(w)[x] > 1;
        assert multiset(v)[x] > 1;
      }
    }
  }

  /** Reordering a block keeps its digits different and its members. */
  lemma ReorderKeeps(v: seq<nat>, w: seq<nat>)
    requires multiset(v) == multiset(w) && Distinct(v)
    ensures Distinct(w) && forall d :: d in v <==> d in w
  {
    DistinctIff(v);
    DistinctIff(w);
    forall d ensures d in v <==> d in w {
      assert d in v <==> d in multiset(v);
    }
  }
}
