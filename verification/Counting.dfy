/** Counting facts about digit sequences: permutations by the pigeonhole principle, and sums. */
module Counting {

  /** The filled entries of v are pairwise different. */
  ghost predicate Distinct(v: seq<nat>) {
    forall i, j :: 0 <= i < j < |v| && v[i] != 0 ==> v[i] != v[j]
  }

  ghost predicate NoRepeats<T>(v: seq<T>) {
    forall i, j :: 0 <= i < j < |v| ==> v[i] != v[j]
  }

  ghost predicate AtMost(s: nat, v: seq<nat>) {
    forall i :: 0 <= i < |v| ==> v[i] <= s
  }

  ghost predicate NoZero(v: seq<nat>) {
    forall i :: 0 <= i < |v| ==> v[i] != 0
  }

  ghost predicate HasAll(s: nat, v: seq<nat>) {
    forall d :: 1 <= d <= s ==> d in v
  }

  ghost function Digits(s: nat): (ds: set<nat>)
    ensures forall d: nat :: d in ds <==> 1 <= d <= s
  {
    if s == 0 then {} else Digits(s - 1) + {s}
  }

  ghost function Values(v: seq<nat>): set<nat> {
    set x | x in v
  }

  lemma DigitsSize(s: nat)
    ensures |Digits(s)| == s
  {
    if s > 0 {
      DigitsSize(s - 1);
    }
  }

  lemma {:induction false} ValuesSize(v: seq<nat>)
    ensures |Values(v)| <= |v|
    ensures NoZero(v) ==> (|Values(v)| == |v| <==> Distinct(v))
  {
    if v != [] {
      var n := |v| - 1;
      var w, x := v[..n], v[n];
      ValuesSize(w);
      assert v == w + [x];
      assert Values(v) == Values(w) + {x};
      if x in w {
        assert Values(v) == Values(w);
        var i :| 0 <= i < n && w[i] == x;
        assert v[i] == v[n];
      } else if NoZero(v) && Distinct(w) {
        assert Distinct(v);
      }
    }
  }

  lemma SubsetOfSameSize<T>(a: set<T>, b: set<T>)
    requires a <= b && |a| >= |b|
    ensures a == b
  {
    assert |b - a| == |b| - |a|;
  }

  /** s filled cells hold every digit once exactly when they hold s different digits in range. */
  lemma PermutationIff(s: nat, v: seq<nat>)
    requires |v| == s
    ensures HasAll(s, v) <==> NoZero(v) && AtMost(s, v) && Distinct(v)
  {
    DigitsSize(s);
    ValuesSize(v);
    if HasAll(s, v) {
      SubsetOfSameSize(Digits(s), Values(v));
      forall i | 0 <= i < |v| ensures 1 <= v[i] <= s {
        assert v[i] in Values(v);
      }
    }
    if NoZero(v) && AtMost(s, v) && Distinct(v) {
      assert Values(v) <= Digits(s);
      SubsetOfSameSize(Values(v), Digits(s));
      forall d | 1 <= d <= s ensures d in v {
        assert d in Digits(s);
      }
    }
  }

  // ---------- Sums ----------

  function Sum(v: seq<nat>): nat {
    if v == [] then 0 else Sum(v[..|v| - 1]) + v[|v| - 1]
  }

  function Triangle(s: nat): nat {
    if s == 0 then 0 else s + Triangle(s - 1)
  }

  lemma SumNext(v: seq<nat>, t: nat)
    requires t < |v|
    ensures Sum(v[..t + 1]) == Sum(v[..t]) + v[t]
  {
    assert v[..t + 1][..t] == v[..t];
  }

  lemma SumUpdate(v: seq<nat>, i: nat, x: nat)
    requires i < |v|
    ensures Sum(v[i := x]) == Sum(v) - v[i] + x
  {
    var n := |v| - 1;
    if i == n {
      assert v[i := x][..n] == v[..n];
    } else {
      SumUpdate(v[..n], i, x);
      assert v[i := x][..n] == v[..n][i := x];
    }
  }

  lemma SumZeros(v: seq<nat>)
    requires AtMost(0, v)
    ensures Sum(v) == 0
  {
  }

  lemma HasAllButLast(s: nat, v: seq<nat>, i: nat)
    requires 0 < s && Distinct(v) && i < |v| && v[i] == s
    ensures HasAll(s - 1, v[i := 0]) <==> HasAll(s, v)
  {
    var w := v[i := 0];
    forall d | 1 <= d < s ensures d in w <==> d in v {
      if d in w {
        var j :| 0 <= j < |w| && w[j] == d;
        assert v[j] == d;
      }
      if d in v {
        var j :| 0 <= j < |v| && v[j] == d;
        assert w[j] == d;
      }
    }
  }

  /** Different digits from 1 to s sum to at most 1 + ... + s, and to exactly that only when all
      of them are there. */
  lemma {:induction false} SumOfDistinct(s: nat, v: seq<nat>)
    requires Distinct(v) && AtMost(s, v)
    ensures Sum(v) <= Triangle(s)
    ensures Sum(v) == Triangle(s) <==> HasAll(s, v)
  {
    if s == 0 {
      SumZeros(v);
    } else if s in v {
      var i :| 0 <= i < |v| && v[i] == s;
      SumUpdate(v, i, 0);
      SumOfDistinct(s - 1, v[i := 0]);
      HasAllButLast(s, v, i);
    } else {
      SumOfDistinct(s - 1, v);
    }
  }
}
