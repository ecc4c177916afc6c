/** The keyed hash-sort that selects the challenged positions, computed with a bounded max-heap. */
module ChallengeDerivation {
  import opened Pigeonhole

  /** A candidate position and its rank; ranks are digests of one length, so their byte order is numerical. */
  datatype Ranked = Ranked(pos: nat, rank: int)

  // ------------------------------------------------------------------ the full sort

  ghost predicate DistinctRanks(rank: nat -> int, total: nat) {
    forall i: nat, j: nat | i < j < total :: rank(i) != rank(j)
  }

  ghost predicate Ascending(s: seq<nat>, rank: nat -> int) {
    forall i, j | 0 <= i < j < |s| :: rank(s[i]) < rank(s[j])
  }

  function InsertByRank(s: seq<nat>, p: nat, rank: nat -> int): (r: seq<nat>)
    ensures |r| == |s| + 1
    ensures forall q: nat :: q in r <==> q in s || q == p
  {
    if s == [] then [p]
    else if rank(p) < rank(s[0]) then [p] + s
    else [s[0]] + InsertByRank(s[1..], p, rank)
  }

  /** All positions below total, sorted by rank. */
  function FullSort(total: nat, rank: nat -> int): (r: seq<nat>)
    ensures |r| == total
    ensures forall q: nat :: q in r <==> q < total
  {
    if total == 0 then [] else InsertByRank(FullSort(total - 1, rank), total - 1, rank)
  }

  lemma {:induction false} InsertAscending(s: seq<nat>, p: nat, rank: nat -> int)
    requires Ascending(s, rank) && forall q | q in s :: rank(q) != rank(p)
    ensures Ascending(InsertByRank(s, p, rank), rank)
  {
    if s != [] && rank(p) > rank(s[0]) {
      InsertAscending(s[1..], p, rank);
      var t := InsertByRank(s[1..], p, rank);
      forall j | 0 <= j < |t| ensures rank(s[0]) < rank(t[j]) {
        assert t[j] in t;
        if t[j] in s[1..] {
          var k :| 0 <= k < |s[1..]| && s[1..][k] == t[j];
          assert s[k + 1] == t[j];
        }
      }
    } else if s != [] {
      assert s[0] in s;
    }
  }

  lemma {:induction false} FullSortAscending(total: nat, rank: nat -> int)
    requires DistinctRanks(rank, total)
    ensures Ascending(FullSort(total, rank), rank)
  {
    if total > 0 {
      hide Ascending, InsertByRank;
      FullSortAscending(total - 1, rank);
      var s := FullSort(total - 1, rank);
      forall q | q in s ensures rank(q) != rank(total - 1) {
        assert q < total - 1;
      }
      InsertAscending(s, total - 1, rank);
    } else {
      assert FullSort(0, rank) == [];
    }
  }

  /** s lists some positions below total in rank order, and every position it leaves out ranks after all of them. */
  ghost predicate IsRankPrefix(s: seq<nat>, total: nat, rank: nat -> int) {
    && Ascending(s, rank)
    && (forall q | q in s :: q < total)
    && (forall q: nat, k | q < total && q !in s && 0 <= k < |s| :: rank(s[k]) < rank(q))
  }

  /** There is one such list of each length, the start of the full sort. */
  lemma {:induction false} RankPrefixUnique(s: seq<nat>, total: nat, rank: nat -> int)
    requires DistinctRanks(rank, total) && IsRankPrefix(s, total, rank)
    ensures |s| <= total && s == FullSort(total, rank)[..|s|]
  {
    hide FullSort;
    var full := FullSort(total, rank);
    FullSortAscending(total, rank);
    AscendingFits(s, full, rank);
    var k := 0;
    while k < |s|
      invariant k <= |s| && s[..k] == full[..k]
    {
      PrefixStep(s, full, total, rank, k);
      assert s[..k + 1] == s[..k] + [s[k]] && full[..k + 1] == full[..k] + [full[k]];
      k := k + 1;
    }
    assert s[..|s|] == s;
  }

  lemma {:induction false} AscendingFits(s: seq<nat>, full: seq<nat>, rank: nat -> int)
    requires Ascending(s, rank) && Ascending(full, rank)
    requires forall q | q in s :: q in full
    ensures |s| <= |full|
  {
    ElementsCard(s);
    ElementsCard(full);
    CardSubset(set x | x in s, set x | x in full);
  }

  lemma {:induction false} CardSubset(a: set<nat>, b: set<nat>)
    requires a <= b
    ensures |a| <= |b|
  {
    assert |b - a| == |b| - |a|;
  }

  /** Two lists in rank order that agree on the first k entries: the k-th entry of one is found in the other no
      earlier. */
  lemma {:induction false} FoundLater(s: seq<nat>, t: seq<nat>, rank: nat -> int, k: nat)
    requires Ascending(s, rank) && Ascending(t, rank) && k < |s| && k < |t|
    requires s[..k] == t[..k] && s[k] in t
    ensures rank(t[k]) <= rank(s[k])
  {
    var m: nat :| m < |t| && t[m] == s[k];
    if m < k { CommonStart(s, t, rank, k, m); }
  }

  lemma {:induction false} CommonStart(s: seq<nat>, t: seq<nat>, rank: nat -> int, k: nat, m: nat)
    requires Ascending(s, rank) && m < k < |s| && k <= |t| && s[..k] == t[..k]
    ensures rank(t[m]) < rank(s[k])
  {
    assert s[m] == s[..k][m] == t[..k][m] == t[m];
  }

  lemma {:induction false} PrefixStep(s: seq<nat>, full: seq<nat>, total: nat, rank: nat -> int, k: nat)
    requires DistinctRanks(rank, total) && IsRankPrefix(s, total, rank)
    requires Ascending(full, rank)
    requires |full| == total && (forall q: nat :: q in full <==> q < total)
    requires k < |s| <= total && s[..k] == full[..k]
    ensures s[k] == full[k]
  {
    assert s[k] in s && full[k] in full;
    assert s[k] < total && s[k] in full;
    FoundLater(s, full, rank, k);
    if full[k] in s { FoundLater(full, s, rank, k); }
    assert rank(s[k]) == rank(full[k]);
  }

  /** s lists some positions below total, once each and in rank order, and leaves out none that ranks before one of
      them. */
  ghost predicate IsSelection(s: seq<nat>, total: nat, rank: nat -> int) {
    && Distinct(s) && (forall q | q in s :: q < total)
    && (forall i, j | 0 <= i < j < |s| :: rank(s[i]) <= rank(s[j]))
    && (forall q: nat, k | q < total && q !in s && 0 <= k < |s| :: rank(s[k]) <= rank(q))
  }

  /** Without ties there is one selection of each length, the start of the full sort. */
  lemma {:induction false} SelectionIsSorted(s: seq<nat>, total: nat, rank: nat -> int)
    requires DistinctRanks(rank, total) && IsSelection(s, total, rank)
    ensures |s| <= total && s == FullSort(total, rank)[..|s|]
  {
    hide FullSort;
    forall i, j | 0 <= i < j < |s| ensures rank(s[i]) < rank(s[j]) {
      assert s[i] in s && s[j] in s;
      assert rank(s[i]) != rank(s[j]);
    }
    forall q: nat, k | q < total && q !in s && 0 <= k < |s| ensures rank(s[k]) < rank(q) {
      assert s[k] in s;
      assert rank(s[k]) != rank(q);
    }
    RankPrefixUnique(s, total, rank);
  }

  // ------------------------------------------------------------------ heaps as sequences

  function Parent(k: nat): (p: nat)
    requires k > 0
    ensures p < k
  {
    (k - 1) / 2
  }

  ghost predicate Above(s: seq<Ranked>, k: nat)
    requires 0 < k < |s|
  {
    s[Parent(k)].rank >= s[k].rank
  }

  /** A max-heap by rank. */
  ghost predicate IsHeap(s: seq<Ranked>) {
    forall k: nat | 0 < k < |s| :: Above(s, k)
  }

  /** A heap but for the entry at j, which may be too large for its parent. */
  ghost predicate HeapButUp(s: seq<Ranked>, j: nat) {
    && (forall k: nat | 0 < k < |s| && k != j :: Above(s, k))
    && (forall k: nat | 0 < k < |s| && 0 < j < |s| && Parent(k) == j :: s[Parent(j)].rank >= s[k].rank)
  }

  /** A heap but for the entry at i, which may be too small for its children. */
  ghost predicate HeapButDown(s: seq<Ranked>, i: nat) {
    && (forall k: nat | 0 < k < |s| && Parent(k) != i :: Above(s, k))
    && (forall k: nat | 0 < k < |s| && 0 < i < |s| && Parent(k) == i :: s[Parent(i)].rank >= s[k].rank)
  }

  function Exchanged(s: seq<Ranked>, i: nat, j: nat): (r: seq<Ranked>)
    requires i < |s| && j < |s|
    ensures |r| == |s| && multiset(r) == multiset(s)
    ensures forall k | 0 <= k < |s| :: r[k] == if k == i then s[j] else if k == j then s[i] else s[k]
  {
    s[i := s[j]][j := s[i]]
  }

  lemma {:induction false} RootIsLargest(s: seq<Ranked>, k: nat)
    requires IsHeap(s) && k < |s|
    ensures s[0].rank >= s[k].rank
  {
    if k > 0 {
      RootIsLargest(s, Parent(k));
      assert Above(s, k);
    }
  }

  lemma {:induction false} UpStep(s: seq<Ranked>, j: nat)
    requires HeapButUp(s, j) && 0 < j < |s| && s[j].rank > s[Parent(j)].rank
    ensures HeapButUp(Exchanged(s, Parent(j), j), Parent(j))
  {
    var i := Parent(j);
    var t := Exchanged(s, i, j);
    forall k: nat | 0 < k < |t| && k != i ensures Above(t, k) {
      assert k != j ==> Above(s, k);
    }
    forall k: nat | 0 < k < |t| && 0 < i && Parent(k) == i ensures t[Parent(i)].rank >= t[k].rank {
      assert Above(s, i);
      assert k != j ==> Above(s, k);
    }
  }

  lemma {:induction false} DownStep(s: seq<Ranked>, i: nat, j: nat)
    requires HeapButDown(s, i) && i < j < |s| && Parent(j) == i && s[j].rank > s[i].rank
    requires forall k: nat | 0 < k < |s| && Parent(k) == i :: s[j].rank >= s[k].rank
    ensures HeapButDown(Exchanged(s, i, j), j)
  {
    var t := Exchanged(s, i, j);
    forall k: nat | 0 < k < |t| && Parent(k) != j ensures Above(t, k) {
      assert Parent(k) != i ==> Above(s, k);
    }
    forall k: nat | 0 < k < |t| && Parent(k) == j ensures t[Parent(j)].rank >= t[k].rank {
      assert Above(s, k);
    }
  }

  // ------------------------------------------------------------------ the heap

  /** rankHeap with the operations of container/heap; it never holds more than its capacity. */
  class RankHeap {
    var items: seq<Ranked>
    const capacity: nat

    ghost predicate Valid()
      reads this
    {
      IsHeap(items) && |items| <= capacity
    }

    constructor (capacity: nat)
      ensures Valid() && items == [] && this.capacity == capacity
    {
      items := [];
      this.capacity := capacity;
    }

    method Swap(i: nat, j: nat)
      requires i < |items| && j < |items|
      modifies this
      ensures items == Exchanged(old(items), i, j)
    {
      items := items[i := items[j]][j := items[i]];
    }

    /** Move the entry at j0 up to where its parent is not smaller. */
    method Up(j0: nat)
      requires HeapButUp(items, j0) && j0 < |items|
      modifies this
      ensures IsHeap(items) && multiset(items) == multiset(old(items))
      ensures |items| == |old(items)|
    {
      var j: nat := j0;
      while true
        invariant j < |items| == |old(items)| && HeapButUp(items, j) && multiset(items) == multiset(old(items))
        decreases j
      {
        if j == 0 { break; }
        var i := Parent(j);
        if !(items[j].rank > items[i].rank) {
          break;
        }
        UpStep(items, j);
        Swap(i, j);
        j := i;
      }
      UpDone(items, j);
    }

    /** Move the entry at i0 down to where no child is larger. */
    method Down(i0: nat) returns (moved: bool)
      requires HeapButDown(items, i0) && i0 < |items|
      modifies this
      ensures multiset(items) == multiset(old(items)) && |items| == |old(items)|
      ensures IsHeap(items)
      ensures !moved ==> items == old(items)
    {
      hide HeapButDown, IsHeap, Parent;
      var i: nat := i0;
      while true
        invariant i0 <= i < |items| == |old(items)| && HeapButDown(items, i) && multiset(items) == multiset(old(items))
        invariant i == i0 ==> items == old(items)
        decreases |items| - i
      {
        var j1 := 2 * i + 1;
        if j1 >= |items| {
          NoChild(items, i);
          break;
        }
        var j: nat := j1;
        if j1 + 1 < |items| && items[j1 + 1].rank > items[j1].rank { j := j1 + 1; }
        LargerChild(items, i, j);
        if !(items[j].rank > items[i].rank) {
          break;
        }
        DownStep(items, i, j);
        Swap(i, j);
        i := j;
      }
      moved := i > i0;
      DownDone(items, i);
    }

    /** heap.Push. */
    method Push(x: Ranked)
      requires Valid() && |items| < capacity
      modifies this
      ensures Valid() && multiset(items) == multiset(old(items)) + multiset{x}
    {
      PushShape(items, x);
      items := items + [x];
      Up(|items| - 1);
      assert |items| == |old(items)| + 1;
    }

    /** Replace the largest entry, then heap.Fix at the root. */
    method ReplaceTop(x: Ranked)
      requires Valid() && items != []
      modifies this
      ensures Valid()
      ensures multiset(items) == multiset(old(items)) - multiset{old(items)[0]} + multiset{x}
      ensures |items| == |old(items)|
    {
      assert HeapButDown(items[0 := x], 0) by {
        forall k: nat | 0 < k < |items| && Parent(k) != 0 ensures Above(items[0 := x], k) {
          assert Above(items, k);
        }
      }
      items := items[0 := x];
      var moved := Down(0);
      if !moved {
        assert HeapButUp(items, 0);
        Up(0);
      }
    }
  }

  lemma {:induction false} UpDone(s: seq<Ranked>, j: nat)
    requires HeapButUp(s, j) && j < |s| && (j > 0 ==> s[j].rank <= s[Parent(j)].rank)
    ensures IsHeap(s)
  {
  }

  lemma {:induction false} DownDone(s: seq<Ranked>, i: nat)
    requires HeapButDown(s, i) && i < |s|
    requires forall k: nat | 0 < k < |s| && Parent(k) == i :: s[i].rank >= s[k].rank
    ensures IsHeap(s)
  {
  }

  lemma {:induction false} NoChild(s: seq<Ranked>, i: nat)
    requires |s| <= 2 * i + 1
    ensures forall k: nat | 0 < k < |s| :: Parent(k) != i
  {
  }

  lemma {:induction false} LargerChild(s: seq<Ranked>, i: nat, j: nat)
    requires i < |s| && 2 * i + 1 <= j <= 2 * i + 2 && j < |s|
    requires j == 2 * i + 1 ==> 2 * i + 2 < |s| ==> s[2 * i + 2].rank <= s[j].rank
    requires j == 2 * i + 2 ==> s[2 * i + 1].rank <= s[j].rank
    ensures Parent(j) == i
    ensures forall k: nat | 0 < k < |s| && Parent(k) == i :: s[j].rank >= s[k].rank
  {
  }

  lemma {:induction false} PushShape(s: seq<Ranked>, x: Ranked)
    requires IsHeap(s)
    ensures HeapButUp(s + [x], |s|)
  {
    var t := s + [x];
    forall k: nat | 0 < k < |t| && k != |s| ensures Above(t, k) {
      assert Above(s, k);
    }
  }

  // ------------------------------------------------------------------ selecting the positions

  /** After the candidates below i: the heap holds the n best of them, once each, and what it lacks ranks before
      nothing it holds. */
  ghost predicate Keeps(items: seq<Ranked>, i: nat, n: nat, rank: nat -> int) {
    && |items| == (if i < n then i else n)
    && (forall x | x in items :: x.pos < i && x.rank == rank(x.pos) && multiset(items)[x] == 1)
    && (i <= n ==> forall q: nat | q < i :: Ranked(q, rank(q)) in items)
    && (forall q: nat, x | q < i && Ranked(q, rank(q)) !in items && x in items :: x.rank <= rank(q))
  }

  lemma {:induction false} KeepPushed(items: seq<Ranked>, items': seq<Ranked>, i: nat, n: nat, rank: nat -> int)
    requires Keeps(items, i, n, rank) && i < n
    requires multiset(items') == multiset(items) + multiset{Ranked(i, rank(i))}
    ensures Keeps(items', i + 1, n, rank)
  {
    var x := Ranked(i, rank(i));
    assert x !in items;
    assert |items'| == |multiset(items')|;
    forall y: Ranked ensures y in items' <==> y in items || y == x {
      assert y in items' <==> y in multiset(items');
      assert y in items <==> y in multiset(items);
    }
    forall q: nat | q < i + 1 ensures Ranked(q, rank(q)) in items' {}
  }

  lemma {:induction false} KeepSkipped(items: seq<Ranked>, i: nat, n: nat, rank: nat -> int)
    requires Keeps(items, i, n, rank) && 1 <= n <= i
    requires (forall x | x in items :: x.rank <= items[0].rank)
    requires rank(i) >= items[0].rank
    ensures Keeps(items, i + 1, n, rank)
  {
    assert items[0] in items;
  }

  lemma {:induction false} KeepReplaced(items: seq<Ranked>, items': seq<Ranked>, i: nat, n: nat, rank: nat -> int)
    requires Keeps(items, i, n, rank) && 1 <= n <= i
    requires (forall x | x in items :: x.rank <= items[0].rank)
    requires rank(i) < items[0].rank
    requires multiset(items') == multiset(items) - multiset{items[0]} + multiset{Ranked(i, rank(i))}
    ensures Keeps(items', i + 1, n, rank)
  {
    var x, top := Ranked(i, rank(i)), items[0];
    assert x !in items && top in items;
    assert |items'| == |multiset(items')| && |multiset(items) - multiset{top}| == |items| - 1;
    forall y: Ranked ensures y in items' <==> (y in items && y != top) || y == x {
      assert y in items' <==> y in multiset(items');
      assert y in items <==> y in multiset(items);
    }
    forall y | y in items' ensures y.rank <= top.rank {}
    forall q: nat, y | q < i + 1 && Ranked(q, rank(q)) !in items' && y in items' ensures y.rank <= rank(q) {
      if Ranked(q, rank(q)) !in items && q < i {
        assert top.rank <= rank(q);
      }
    }
  }

  ghost predicate SortedByRank(s: seq<Ranked>) {
    forall i, j | 0 <= i < j < |s| :: s[i].rank <= s[j].rank
  }

  /** Sorting by rank; what it does with equal ranks is left open. */
  method SortByRank(items: seq<Ranked>) returns (s: seq<Ranked>)
    ensures multiset(s) == multiset(items) && SortedByRank(s)
  {
    hide SortedByRank, Inserted;
    s := [];
    SortedEmpty();
    for i := 0 to |items|
      invariant multiset(s) == multiset(items[..i]) && SortedByRank(s)
    {
      var k := 0;
      while k < |s| && s[k].rank <= items[i].rank
        invariant 0 <= k <= |s| && forall j | 0 <= j < k :: s[j].rank <= items[i].rank
      {
        k := k + 1;
      }
      assert items[..i + 1] == items[..i] + [items[i]];
      InsertSorted(s, k, items[i]);
      InsertCounts(s, k, items[i]);
      s := Inserted(s, k, items[i]);
    }
    assert items[..|items|] == items;
  }

  lemma {:induction false} SortedEmpty()
    ensures SortedByRank([])
  {
  }

  function Inserted(s: seq<Ranked>, k: nat, x: Ranked): (t: seq<Ranked>)
    requires k <= |s|
    ensures |t| == |s| + 1
    ensures forall j | 0 <= j < |t| :: t[j] == if j < k then s[j] else if j == k then x else s[j - 1]
  {
    s[..k] + [x] + s[k..]
  }

  lemma {:induction false} InsertSorted(s: seq<Ranked>, k: nat, x: Ranked)
    requires SortedByRank(s) && k <= |s|
    requires (forall j | 0 <= j < k :: s[j].rank <= x.rank)
    requires (k < |s| ==> x.rank <= s[k].rank)
    ensures SortedByRank(Inserted(s, k, x))
  {
    var t := Inserted(s, k, x);
    forall j | k <= j < |s| ensures x.rank <= s[j].rank {
      assert s[k].rank <= s[j].rank || j == k;
    }
    forall i, j | 0 <= i < j < |t| ensures t[i].rank <= t[j].rank {
      if j < k {
        assert t[i] == s[i] && t[j] == s[j];
      } else if j == k {
        assert t[i] == s[i] && t[j] == x;
      } else {
        assert t[j] == s[j - 1];
        assert t[i] == if i < k then s[i] else if i == k then x else s[i - 1];
      }
    }
  }

  lemma {:induction false} InsertCounts(s: seq<Ranked>, k: nat, x: Ranked)
    requires k <= |s|
    ensures multiset(Inserted(s, k, x)) == multiset(s) + multiset{x}
  {
    assert s == s[..k] + s[k..];
    assert multiset(s[..k] + [x] + s[k..]) == multiset(s[..k]) + multiset{x} + multiset(s[k..]);
  }

  function Positions(s: seq<Ranked>): (r: seq<nat>)
    ensures |r| == |s| && forall i | 0 <= i < |s| :: r[i] == s[i].pos
  {
    seq(|s|, i requires 0 <= i < |s| => s[i].pos)
  }

  lemma {:induction false} PositionListed(s: seq<Ranked>, x: Ranked)
    requires x in s
    ensures x.pos in Positions(s)
  {
    var m :| 0 <= m < |s| && s[m] == x;
    assert Positions(s)[m] == x.pos;
  }

  lemma {:induction false} OnceOnly(s: seq<Ranked>, i: nat, j: nat)
    requires i < j < |s| && multiset(s)[s[i]] == 1
    ensures s[i] != s[j]
  {
    assert s == s[..j] + s[j..];
    assert s[..j][i] == s[i] && s[j..][0] == s[j];
    assert s[i] in multiset(s[..j]) && s[j] in multiset(s[j..]);
    assert multiset(s) == multiset(s[..j]) + multiset(s[j..]);
  }

  /** What the heap holds at the end, sorted, is a selection of the best n; without ties the start of the full sort. */
  lemma {:induction false} KeptAreFirst(items: seq<Ranked>, s: seq<Ranked>, total: nat, n: nat, rank: nat -> int)
    requires Keeps(items, total, n, rank) && n <= total
    requires multiset(s) == multiset(items) && SortedByRank(s)
    ensures |s| == n && IsSelection(Positions(s), total, rank)
    ensures DistinctRanks(rank, total) ==> Positions(s) == FullSort(total, rank)[..n]
  {
    hide FullSort, DistinctRanks;
    var r := Positions(s);
    assert |s| == |multiset(s)| == |items|;
    forall x: Ranked ensures x in s <==> x in items {
      assert x in s <==> x in multiset(s);
      assert x in items <==> x in multiset(items);
    }
    forall i, j | 0 <= i < j < |r| ensures r[i] != r[j] && rank(r[i]) <= rank(r[j]) {
      assert s[i] in s && s[j] in s;
      OnceOnly(s, i, j);
    }
    forall q | q in r ensures q < total {
      var k :| 0 <= k < |r| && r[k] == q;
      assert s[k] in s;
    }
    forall q: nat, k | q < total && q !in r && 0 <= k < |r| ensures rank(r[k]) <= rank(q) {
      assert s[k] in s;
      if Ranked(q, rank(q)) in s { PositionListed(s, Ranked(q, rank(q))); }
    }
    if DistinctRanks(rank, total) {
      SelectionIsSorted(r, total, rank);
    }
  }

  /** DeriveChallenge: the positions of least rank, found with a heap of n entries; without ties the first of the full
      sort. */
  method DeriveChallenge(rank: nat -> int, prf: nat -> int, total: nat, count: nat, modulus: int)
    returns (indices: seq<nat>, coeffs: seq<int>)
    requires modulus > 0 && (count >= 1 || total == 0)
    ensures |coeffs| == |indices| == if count > total then total else count
    ensures IsSelection(indices, total, rank)
    ensures DistinctRanks(rank, total) ==> indices == FullSort(total, rank)[..|indices|]
    ensures forall t | 0 <= t < |coeffs| :: coeffs[t] == prf(t) % modulus
  {
    hide Keeps, FullSort, DistinctRanks, IsSelection;
    var n := count;
    if n > total { n := total; }
    var h := new RankHeap(n);
    assert Keeps(h.items, 0, n, rank) by { NothingKept(n, rank); }
    for i := 0 to total
      invariant h.Valid() && h.capacity == n && fresh(h) && Keeps(h.items, i, n, rank)
    {
      KeptCount(h.items, i, n, rank);
      ghost var before := h.items;
      var r := Ranked(i, rank(i));
      if |h.items| < n {
        h.Push(r);
        KeepPushed(before, h.items, i, n, rank);
      } else {
        forall x | x in h.items ensures x.rank <= h.items[0].rank {
          var k :| 0 <= k < |h.items| && h.items[k] == x;
          RootIsLargest(h.items, k);
        }
        if r.rank < h.items[0].rank {
          h.ReplaceTop(r);
          KeepReplaced(before, h.items, i, n, rank);
        } else {
          KeepSkipped(h.items, i, n, rank);
        }
      }
    }
    var sorted := SortByRank(h.items);
    KeptAreFirst(h.items, sorted, total, n, rank);
    indices := Positions(sorted);
    coeffs := seq(n, t requires 0 <= t < n => prf(t) % modulus);
  }

  lemma {:induction false} NothingKept(n: nat, rank: nat -> int)
    ensures Keeps([], 0, n, rank)
  {
  }

  lemma {:induction false} KeptCount(items: seq<Ranked>, i: nat, n: nat, rank: nat -> int)
    requires Keeps(items, i, n, rank)
    ensures |items| == if i < n then i else n
  {
  }

  /** The derived positions are distinct, below total, and as many as asked for if there are enough. */
  lemma {:induction false} DerivedPositions(total: nat, rank: nat -> int, n: nat)
    requires DistinctRanks(rank, total) && n <= total
    ensures var s := FullSort(total, rank)[..n];
            |s| == n && Distinct(s) && Ascending(s, rank) && forall i | 0 <= i < n :: s[i] < total
  {
    hide FullSort;
    var full := FullSort(total, rank);
    FullSortAscending(total, rank);
    forall i | 0 <= i < total ensures full[i] < total {
      assert full[i] in full;
    }
  }
}
