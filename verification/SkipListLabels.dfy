/** The rank-based authenticated skip list as a value: the block sequence, the neighbours and ranks it
    determines on every level, and the node-labelling function of Goodrich, Tamassia and Schwerin (section 4.2). */
module SkipListLabels {

  const MAX_HEIGHT: nat := 64

  /** The tag slot of a node: nil for sentinels, g^b mod N (the value of the byte string) for a data block. */
  datatype Tag = NoTag | Tag(value: nat)

  /** A level-0 node's raw value. */
  datatype ZeroEntry = ZeroEntry(rank: int, tag: Tag)

  /** Byte strings, with the hash as free constructors: distinct inputs have distinct hashes.
      `Absent` is a nil slice, `Null` the all-zero label, `Raw` an unhashed level-0 entry. */
  datatype Label =
    | Absent
    | Null
    | Raw(entry: ZeroEntry)
    | Hash2(left: Label, right: Label)
    | Hash4(level: int, rank: int, down: Label, right: Label)

  /** A data block as the list sees it: its tag, and the tower height chosen when it was inserted. */
  datatype Block = Block(tag: nat, height: nat)

  /** Every tower reaches level 0 and fits under the fixed number of levels. */
  predicate WellFormed(s: seq<Block>) {
    forall i | 0 <= i < |s| :: 1 <= s[i].height <= MAX_HEIGHT
  }

  // Positions run from 0 (left sentinel) over 1..|s| (data) to |s|+1 (right sentinel).

  function Height(s: seq<Block>, i: nat): nat
    requires i <= |s| + 1
  {
    if i == 0 || i == |s| + 1 then MAX_HEIGHT else s[i - 1].height
  }

  function Elem(s: seq<Block>, i: nat): ZeroEntry
    requires i <= |s| + 1
  {
    if i == 0 || i == |s| + 1 then ZeroEntry(0, NoTag) else ZeroEntry(1, Tag(s[i - 1].tag))
  }

  /** Position i also has a node one level above level l. */
  predicate Tower(s: seq<Block>, l: nat, i: nat)
    requires i <= |s| + 1
  {
    l + 1 < Height(s, i)
  }

  /** The right neighbour of position i on level l. */
  function Next(s: seq<Block>, l: nat, i: nat): (j: nat)
    requires l < MAX_HEIGHT && i <= |s|
    ensures i < j <= |s| + 1 && l < Height(s, j)
    ensures forall k | i < k < j :: Height(s, k) <= l
    decreases |s| - i
  {
    if l < Height(s, i + 1) then i + 1 else Next(s, l, i + 1)
  }

  /** The left neighbour of position j on level l. */
  function Prev(s: seq<Block>, l: nat, j: nat): (i: nat)
    requires l < MAX_HEIGHT && 1 <= j <= |s| + 1
    ensures i < j && l < Height(s, i)
    ensures forall k | i < k < j :: Height(s, k) <= l
  {
    if l < Height(s, j - 1) then j - 1 else Prev(s, l, j - 1)
  }

  /** Data blocks strictly left of position i. */
  function Before(i: nat): nat {
    if i == 0 then 0 else i - 1
  }

  /** Data blocks from position i up to, not including, its right neighbour on level l. */
  function Rank(s: seq<Block>, l: nat, i: nat): int
    requires l < MAX_HEIGHT && i <= |s| + 1
  {
    if i == |s| + 1 then 0 else Next(s, l, i) - 1 - Before(i)
  }

  /** The labelling function f on the node of position i on level l. */
  function LabelAt(s: seq<Block>, l: nat, i: nat): Label
    requires i <= |s| + 1 && l < Height(s, i) && l < MAX_HEIGHT
    decreases l, |s| + 1 - i
  {
    if i == |s| + 1 then Null
    else
      var w := Next(s, l, i);
      if l == 0 then
        if Tower(s, 0, w) then Hash2(Raw(Elem(s, i)), Raw(Elem(s, w))) else Hash2(Raw(Elem(s, i)), LabelAt(s, 0, w))
      else if Tower(s, l, w) then LabelAt(s, l - 1, i)
      else Hash4(l, Rank(s, l, i), LabelAt(s, l - 1, i), LabelAt(s, l, w))
  }

  /** The label of the start node: the client's basis. */
  function Basis(s: seq<Block>): Label {
    LabelAt(s, MAX_HEIGHT - 1, 0)
  }

  /** What a path that passes rightward through a node reveals of it. */
  function DownValue(s: seq<Block>, l: nat, i: nat): Label
    requires i <= |s| && l < Height(s, i) && l < MAX_HEIGHT
  {
    if l == 0 then Raw(Elem(s, i)) else LabelAt(s, l - 1, i)
  }

  /** What a level-0 node combines with its own entry. */
  function RightValue(s: seq<Block>, i: nat): Label
    requires i <= |s| && 0 < Height(s, Next(s, 0, i))
  {
    var w := Next(s, 0, i);
    if Tower(s, 0, w) then Raw(Elem(s, w)) else LabelAt(s, 0, w)
  }

  /** One unfolding of the labelling function: how a node's label depends on the node below and its right neighbour. */
  lemma {:induction false} LabelUnfold(s: seq<Block>, l: nat, i: nat)
    requires i <= |s| + 1 && l < Height(s, i) && l < MAX_HEIGHT
    ensures LabelAt(s, l, i) ==
            if i == |s| + 1 then Null
            else
            var w := Next(s, l, i);
            if l == 0 then Hash2(Raw(Elem(s, i)), RightValue(s, i))
            else if Tower(s, l, w) then LabelAt(s, l - 1, i)
            else Hash4(l, Rank(s, l, i), LabelAt(s, l - 1, i), LabelAt(s, l, w))
  {
  }

  // ------------------------------------------------------------------ neighbours

  lemma {:induction false} NextIs(s: seq<Block>, l: nat, i: nat, j: nat)
    requires l < MAX_HEIGHT && i < j <= |s| + 1 && l < Height(s, j)
    requires forall k | i < k < j :: Height(s, k) <= l
    ensures Next(s, l, i) == j
  {
  }

  lemma {:induction false} PrevIs(s: seq<Block>, l: nat, i: nat, j: nat)
    requires l < MAX_HEIGHT && i < j <= |s| + 1 && l < Height(s, i)
    requires forall k | i < k < j :: Height(s, k) <= l
    ensures Prev(s, l, j) == i
  {
  }

  /** On level 0 the rank is the entry's own. */
  lemma {:induction false} ElemRank(s: seq<Block>, i: nat)
    requires WellFormed(s) && i <= |s| + 1
    ensures Rank(s, 0, i) == Elem(s, i).rank
  {
    if i <= |s| { NextIs(s, 0, i, i + 1); }
  }

  /** Right and left neighbour are inverse to each other on every level. */
  lemma {:induction false} NeighboursInverse(s: seq<Block>, l: nat, i: nat)
    requires l < MAX_HEIGHT && i <= |s| + 1 && l < Height(s, i)
    ensures i <= |s| ==> Prev(s, l, Next(s, l, i)) == i
    ensures i >= 1 ==> Next(s, l, Prev(s, l, i)) == i
  {
    if i <= |s| { PrevIs(s, l, i, Next(s, l, i)); }
    if i >= 1 { NextIs(s, l, Prev(s, l, i), i); }
  }

  // ------------------------------------------------------------------ the smallest lists

  /** Below the first shared level the label of a node whose right neighbour towers over it is passed down. */
  lemma {:induction false} PassedDown(s: seq<Block>, l: nat, m: nat, i: nat, w: nat)
    requires i < w <= |s| + 1 && m <= l < MAX_HEIGHT && l < Height(s, i) && l + 1 < Height(s, w)
    requires forall k | i < k < w :: Height(s, k) <= m + 1
    ensures LabelAt(s, l, i) == LabelAt(s, m, i)
  {
    if l > m {
      NextIs(s, l, i, w);
      PassedDown(s, l - 1, m, i, w);
    }
  }

  /** The basis of the empty list, in full: one hash of the two sentinels, hashed again on level 63. */
  lemma {:induction false} EmptyBasis()
    ensures Basis([]) == Hash4(63, 0, Hash2(Raw(ZeroEntry(0, NoTag)), Raw(ZeroEntry(0, NoTag))), Null)
  {
    PassedDown([], 62, 0, 0, 1);
    NextIs([], 0, 0, 1);
    NextIs([], 63, 0, 1);
  }

  /** The basis of a list of one block. */
  lemma {:induction false} OneBlockBasis(tag: nat, height: nat)
    requires 1 <= height <= 64
    ensures var end, entry := Raw(ZeroEntry(0, NoTag)), Raw(ZeroEntry(1, Tag(tag)));
            Basis([Block(tag, height)])
            == if height == 1 then Hash4(63, 1, Hash2(end, Hash2(entry, end)), Null)
               else if height < 64 then
                 Hash4(63, 1, Hash4(height - 1, 0, Hash2(end, entry), Hash2(entry, end)), Null)
               else Hash4(63, 0, Hash2(end, entry), Hash4(63, 1, Hash2(entry, end), Null))
  {
    hide LabelAt;
    var s := [Block(tag, height)];
    var l := height - 1;
    NextIs(s, 0, 0, 1);
    NextIs(s, 0, 1, 2);
    NextIs(s, l, 0, 1);
    NextIs(s, l, 1, 2);
    LabelUnfold(s, 0, 0);
    LabelUnfold(s, 0, 1);
    LabelUnfold(s, l, 0);
    LabelUnfold(s, l, 1);
    LabelUnfold(s, l, 2);
    if height > 1 {
      PassedDown(s, l - 1, 0, 0, 1);
      PassedDown(s, l - 1, 0, 1, 2);
    }
    if height < 64 {
      PassedDown(s, l, 0, 1, 2);
      PassedDown(s, 62, l, 0, 2);
      NextIs(s, 63, 0, 2);
      LabelUnfold(s, 63, 0);
      LabelUnfold(s, 63, 2);
    }
  }

  // ------------------------------------------------------------------ what a label depends on

  /** The two lists carry the same entries at positions lo..hi of s and lo+d..hi+d of s'. */
  ghost predicate SameSpan(s: seq<Block>, s': seq<Block>, d: int, lo: nat, hi: nat)
    requires lo <= hi <= |s| + 1 && 0 <= lo + d && hi + d <= |s'| + 1
  {
    && (hi == |s| + 1 <==> hi + d == |s'| + 1)
    && (lo == 0 ==> d == 0)
    && (lo + d == 0 ==> d == 0)
    && forall k: nat | lo <= k <= hi :: Height(s, k) == Height(s', k + d) && Elem(s, k) == Elem(s', k + d)
  }

  lemma {:induction false} NextSameSpan(s: seq<Block>, s': seq<Block>, d: int, lo: nat, hi: nat, l: nat, i: nat)
    requires lo <= i < hi <= |s| + 1 && 0 <= lo + d && hi + d <= |s'| + 1
    requires SameSpan(s, s', d, lo, hi)
    requires l < MAX_HEIGHT && Next(s, l, i) <= hi
    ensures Next(s', l, i + d) == Next(s, l, i) + d
    ensures Rank(s', l, i + d) == Rank(s, l, i)
  {
    var j := Next(s, l, i);
    forall k | i + d < k < j + d ensures Height(s', k) <= l {
      assert Height(s, k - d) == Height(s', k - d + d);
    }
    assert Height(s, j) == Height(s', j + d);
    NextIs(s', l, i + d, j + d);
  }

  lemma {:induction false} SpanAt(s: seq<Block>, s': seq<Block>, d: int, lo: nat, hi: nat, k: nat)
    requires lo <= k <= hi <= |s| + 1 && 0 <= lo + d && hi + d <= |s'| + 1
    requires SameSpan(s, s', d, lo, hi)
    ensures Height(s, k) == Height(s', k + d) && Elem(s, k) == Elem(s', k + d)
    ensures k == |s| + 1 <==> k + d == |s'| + 1
    ensures SameSpan(s, s', d, k, hi)
  {
  }

  /** Locality: a label depends only on the entries from its own position up to the next tower of its level. */
  lemma {:induction false} LabelLocal(s: seq<Block>, s': seq<Block>, d: int, l: nat, i: nat, hi: nat)
    requires i <= hi <= |s| + 1 && 0 <= i + d && hi + d <= |s'| + 1
    requires SameSpan(s, s', d, i, hi)
    requires l < MAX_HEIGHT && l < Height(s, i)
    requires hi == |s| + 1 || (i < hi && Tower(s, l, hi))
    ensures l < Height(s', i + d)
    ensures LabelAt(s, l, i) == LabelAt(s', l, i + d)
    decreases l, hi - i
  {
    hide Next, SameSpan, LabelAt;
    SpanAt(s, s', d, i, hi, i);
    LabelUnfold(s, l, i);
    LabelUnfold(s', l, i + d);
    if i <= |s| {
      var w := Next(s, l, i);
      NextSameSpan(s, s', d, i, hi, l, i);
      SpanAt(s, s', d, i, hi, w);
      if l > 0 {
        LabelLocal(s, s', d, l - 1, i, hi);
      }
      if !Tower(s, l, w) {
        LabelLocal(s, s', d, l, w, hi);
      }
    }
  }

  lemma {:induction false} DownValueLocal(s: seq<Block>, s': seq<Block>, d: int, l: nat, i: nat)
    requires l < MAX_HEIGHT && i <= |s| && l < Height(s, i)
    requires 0 <= i + d && Next(s, l, i) + d <= |s'| + 1
    requires SameSpan(s, s', d, i, Next(s, l, i))
    ensures l < Height(s', i + d) && i + d <= |s'|
    ensures DownValue(s, l, i) == DownValue(s', l, i + d)
  {
    hide Next, LabelAt;
    assert Height(s, i) == Height(s', i + d);
    if l > 0 {
      LabelLocal(s, s', d, l - 1, i, Next(s, l, i));
    }
  }
}
