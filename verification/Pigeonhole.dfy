/** Counting: n distinct numbers below n are all the numbers below n. */
module Pigeonhole {

  ghost predicate Distinct<T>(s: seq<T>) {
    forall i, j | 0 <= i < j < |s| :: s[i] != s[j]
  }

  /** The numbers below n. */
  ghost function Below(n: nat): (r: set<int>)
    ensures forall i :: i in r <==> 0 <= i < n
    ensures |r| == n
  {
    if n == 0 then {} else Below(n - 1) + {n - 1}
  }

  lemma {:induction false} ElementsCard<T>(s: seq<T>)
    requires Distinct(s)
    ensures |set x | x in s| == |s|
  {
    if s == [] {
      assert (set x | x in s) == {};
    } else {
      var front, last := s[..|s| - 1], s[|s| - 1];
      ElementsCard(front);
      assert last !in front;
      assert s == front + [last];
      assert (set x | x in s) == (set x | x in front) + {last};
    }
  }

  lemma {:induction false} FullSubset<T>(a: set<T>, b: set<T>)
    requires a <= b && |a| >= |b|
    ensures a == b
  {
    assert |b - a| == |b| - |a|;
  }

  /** A one-to-one map keeps the number of elements. */
  lemma {:induction false} SameSize<T, U>(a: set<T>, b: set<U>, f: map<T, U>)
    requires f.Keys == a && f.Values == b
    requires forall x, y | x in a && y in a && f[x] == f[y] :: x == y
    ensures |a| == |b|
    decreases |a|
  {
    if a == {} {
      assert b == {};
    } else {
      var x :| x in a;
      var rest := map y | y in a && y != x :: f[y];
      forall v | v in b - {f[x]} ensures v in rest.Values {
        var y :| y in a && f[y] == v;
        assert rest[y] == v;
      }
      assert rest.Values == b - {f[x]};
      SameSize(a - {x}, b - {f[x]}, rest);
    }
  }

  /** n distinct numbers below n: every number below n is among them. */
  lemma {:induction false} EveryNumberOccurs(s: seq<int>, v: int)
    requires Distinct(s) && forall i | 0 <= i < |s| :: 0 <= s[i] < |s|
    requires 0 <= v < |s|
    ensures v in s
  {
    ElementsCard(s);
    var a := set x | x in s;
    assert a <= Below(|s|);
    FullSubset(a, Below(|s|));
    assert v in Below(|s|);
  }

  /** An order of the numbers below n. */
  ghost predicate IsPermutation(perm: seq<int>, n: nat) {
    |perm| == n && Distinct(perm) && forall i | 0 <= i < n :: 0 <= perm[i] < n
  }

  lemma {:induction false} PermutationHits(perm: seq<int>, n: nat, v: int) returns (i: nat)
    requires IsPermutation(perm, n) && 0 <= v < n
    ensures i < n && perm[i] == v
  {
    EveryNumberOccurs(perm, v);
    i :| 0 <= i < n && perm[i] == v;
  }
}
