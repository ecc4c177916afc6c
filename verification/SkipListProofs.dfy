/** Verification paths over the skip list, and the client's folds over them. */
module SkipListProofs {
  import opened SkipListLabels

  /** One node of a verification path, bottom-up. */
  datatype ProofStep = ProofStep(level: int, rank: int, right: bool, towerPassthrough: bool, sibLabel: Label)

  datatype BlockProof = BlockProof(
    target: ZeroEntry,
    targetRightVal: Label,
    targetIsTower: bool,
    steps: seq<ProofStep>)

  // ------------------------------------------------------------------ honest paths

  /** The step recorded for a node that the search leaves to the right. */
  function RightStep(s: seq<Block>, l: nat, i: nat): ProofStep
    requires i <= |s| && l < Height(s, i) && l < MAX_HEIGHT
  {
    ProofStep(l, Rank(s, l, i), true, false, DownValue(s, l, i))
  }

  /** The step recorded for a node that the search leaves downward. */
  function DownStep(s: seq<Block>, l: nat, i: nat): ProofStep
    requires i <= |s| && l < Height(s, i) && l < MAX_HEIGHT
  {
    var w := Next(s, l, i);
    if Tower(s, l, w) then ProofStep(l, Rank(s, l, i), false, true, Absent)
    else ProofStep(l, Rank(s, l, i), false, false, LabelAt(s, l, w))
  }

  /** The path from the node of position i on level l up to the start node. Every node has one parent on a
      search path: the node above it if it is a tower there, otherwise its left neighbour. */
  function PathSteps(s: seq<Block>, l: nat, i: nat): seq<ProofStep>
    requires i <= |s| && l < Height(s, i) && l < MAX_HEIGHT
    decreases MAX_HEIGHT - l, i
  {
    if l + 1 < MAX_HEIGHT && Tower(s, l, i) then [DownStep(s, l + 1, i)] + PathSteps(s, l + 1, i)
    else if i == 0 then []
    else
      var u := Prev(s, l, i);
      [RightStep(s, l, u)] + PathSteps(s, l, u)
  }

  /** One unfolding of a path: its first step and the path of the parent. */
  lemma {:induction false} PathUnfold(s: seq<Block>, l: nat, i: nat)
    requires i <= |s| && l < Height(s, i) && l < MAX_HEIGHT
    ensures PathSteps(s, l, i) ==
            if l + 1 < MAX_HEIGHT && Tower(s, l, i) then [DownStep(s, l + 1, i)] + PathSteps(s, l + 1, i)
            else if i == 0 then []
            else [RightStep(s, l, Prev(s, l, i))] + PathSteps(s, l, Prev(s, l, i))
  {
  }

  /** The proof whose target is the level-0 node of position i. */
  function PathProof(s: seq<Block>, i: nat, isTower: bool): BlockProof
    requires WellFormed(s) && i <= |s|
  {
    BlockProof(Elem(s, i), RightValue(s, i), isTower, PathSteps(s, 0, i))
  }

  // ------------------------------------------------------------------ a file without towers

  /** The steps over the left sentinel, when no block towers over it: down to each level above, past the right sentinel,
      and at the top the last hash. */
  function SentinelSteps(n: nat, l: nat): (steps: seq<ProofStep>)
    requires l < 63
    ensures |steps| == 63 - l
    ensures forall k | 0 <= k < 62 - l :: steps[k] == ProofStep(l + 1 + k, n, false, true, Absent)
    ensures steps[62 - l] == ProofStep(63, n, false, false, Null)
  {
    seq(62 - l, k => ProofStep(l + 1 + k, n, false, true, Absent)) + [ProofStep(63, n, false, false, Null)]
  }

  lemma {:induction false} SentinelPath(s: seq<Block>, l: nat)
    requires l < 63 && forall i | 0 <= i < |s| :: s[i].height == 1
    ensures PathSteps(s, l, 0) == SentinelSteps(|s|, l)
    decreases 63 - l
  {
    hide LabelAt, Next, PathSteps;
    NextIs(s, l + 1, 0, |s| + 1);
    PathUnfold(s, l, 0);
    if l < 62 {
      SentinelPath(s, l + 1);
      assert SentinelSteps(|s|, l) == [ProofStep(l + 1, |s|, false, true, Absent)] + SentinelSteps(|s|, l + 1);
    } else {
      PathUnfold(s, 63, 0);
      LabelUnfold(s, 63, |s| + 1);
    }
  }

  /** Every step of a proof, in full, in a file whose blocks are no towers: one right step for each position left of it,
      which shows the entry there and counts the block, then the steps over the left sentinel. */
  lemma {:induction false} FlatPath(s: seq<Block>, i: nat)
    requires i <= |s| && forall j | 0 <= j < |s| :: s[j].height == 1
    ensures var steps := PathSteps(s, 0, i);
            && |steps| == i + 63 && steps[i..] == SentinelSteps(|s|, 0)
            && forall k | 0 <= k < i ::
                 var u := i - 1 - k;
                 steps[k] == if u == 0 then ProofStep(0, 0, true, false, Raw(ZeroEntry(0, NoTag)))
                             else ProofStep(0, 1, true, false, Raw(ZeroEntry(1, Tag(s[u - 1].tag))))
  {
    hide LabelAt, Next, Prev, PathSteps;
    if i == 0 {
      SentinelPath(s, 0);
    } else {
      FlatPath(s, i - 1);
      PrevIs(s, 0, i - 1, i);
      NextIs(s, 0, i - 1, i);
      PathUnfold(s, 0, i);
      assert PathSteps(s, 0, i)[1..] == PathSteps(s, 0, i - 1);
    }
  }

  // ------------------------------------------------------------------ folding a path

  function FoldStep(gamma: Label, step: ProofStep): Label {
    if !step.right && step.towerPassthrough then gamma
    else if step.level == 0 then
      if step.right then Hash2(step.sibLabel, gamma) else Hash2(gamma, step.sibLabel)
    else
      if step.right then Hash4(step.level, step.rank, step.sibLabel, gamma)
      else Hash4(step.level, step.rank, gamma, step.sibLabel)
  }

  function FoldSteps(gamma: Label, steps: seq<ProofStep>): Label
    decreases steps
  {
    if steps == [] then gamma else FoldSteps(FoldStep(gamma, steps[0]), steps[1..])
  }

  function FoldProof(bp: BlockProof): Label {
    FoldSteps(Hash2(Raw(bp.target), bp.targetRightVal), bp.steps)
  }

  /** The claimed number of data blocks left behind by right steps. */
  function RightRanks(steps: seq<ProofStep>): int {
    if steps == [] then 0 else (if steps[0].right then steps[0].rank else 0) + RightRanks(steps[1..])
  }

  lemma {:induction false} FoldStepsAppend(gamma: Label, a: seq<ProofStep>, b: seq<ProofStep>)
    ensures FoldSteps(gamma, a + b) == FoldSteps(FoldSteps(gamma, a), b)
    decreases a
  {
    if a == [] {
      assert a + b == b;
    } else {
      assert (a + b)[1..] == a[1..] + b;
      FoldStepsAppend(FoldStep(gamma, a[0]), a[1..], b);
    }
  }

  lemma {:induction false} RightRanksAppend(a: seq<ProofStep>, b: seq<ProofStep>)
    ensures RightRanks(a + b) == RightRanks(a) + RightRanks(b)
  {
    if a == [] {
      assert a + b == b;
    } else {
      assert (a + b)[1..] == a[1..] + b;
      RightRanksAppend(a[1..], b);
    }
  }

  /** The label of every node folds along its path to the basis. */
  lemma {:induction false} PathFoldsToBasis(s: seq<Block>, l: nat, i: nat)
    requires WellFormed(s) && i <= |s| && l < Height(s, i) && l < MAX_HEIGHT
    ensures FoldSteps(LabelAt(s, l, i), PathSteps(s, l, i)) == Basis(s)
    decreases MAX_HEIGHT - l, i
  {
    hide Next, Prev;
    if l + 1 < MAX_HEIGHT && Tower(s, l, i) {
      assert FoldStep(LabelAt(s, l, i), DownStep(s, l + 1, i)) == LabelAt(s, l + 1, i);
      PathFoldsToBasis(s, l + 1, i);
    } else if i > 0 {
      var u := Prev(s, l, i);
      NeighboursInverse(s, l, i);
      assert FoldStep(LabelAt(s, l, i), RightStep(s, l, u)) == LabelAt(s, l, u);
      PathFoldsToBasis(s, l, u);
    }
  }

  /** The right-step ranks of a path count the data blocks left of its start, and no step lies below its start
      or above the top level. */
  lemma {:induction false} PathCountsPosition(s: seq<Block>, l: nat, i: nat)
    requires i <= |s| && l < Height(s, i) && l < MAX_HEIGHT
    ensures RightRanks(PathSteps(s, l, i)) == Before(i)
    ensures forall k | 0 <= k < |PathSteps(s, l, i)| :: l <= PathSteps(s, l, i)[k].level < MAX_HEIGHT
    decreases MAX_HEIGHT - l, i
  {
    hide LabelAt, Next, Prev, PathSteps;
    PathUnfold(s, l, i);
    if l + 1 < MAX_HEIGHT && Tower(s, l, i) {
      PathCountsPosition(s, l + 1, i);
    } else if i > 0 {
      var u := Prev(s, l, i);
      NeighboursInverse(s, l, i);
      PathCountsPosition(s, l, u);
    }
  }

  /** Completeness of a path proof for any position, sentinel or data: it folds to the basis and its ranks
      add up to the position. */
  lemma {:induction false} PathProofComplete(s: seq<Block>, i: nat, isTower: bool)
    requires WellFormed(s) && i <= |s|
    ensures FoldProof(PathProof(s, i, isTower)) == Basis(s)
    ensures Elem(s, i).rank + RightRanks(PathProof(s, i, isTower).steps) == i
  {
    assert Hash2(Raw(Elem(s, i)), RightValue(s, i)) == LabelAt(s, 0, i);
    PathFoldsToBasis(s, 0, i);
    PathCountsPosition(s, 0, i);
  }

  /** On an honest path no right hop lands on a tower: every hop's landing entered the fold as a label. */
  lemma {:induction false} RightHopMeetsPlateau(s: seq<Block>, l: nat, i: nat, k: nat) returns (m: nat, u: nat)
    requires WellFormed(s) && i <= |s| && l < Height(s, i) && l < MAX_HEIGHT
    requires k < |PathSteps(s, l, i)| && PathSteps(s, l, i)[k].right
    ensures m < MAX_HEIGHT && u < i && m < Height(s, u)
    ensures PathSteps(s, l, i)[k] == RightStep(s, m, u)
    ensures Next(s, m, u) <= i && !Tower(s, m, Next(s, m, u))
    decreases MAX_HEIGHT - l, i
  {
    hide Next, Prev, LabelAt;
    if l + 1 < MAX_HEIGHT && Tower(s, l, i) {
      m, u := RightHopMeetsPlateau(s, l + 1, i, k - 1);
    } else {
      m, u := l, Prev(s, l, i);
      NeighboursInverse(s, l, i);
      if k > 0 {
        m, u := RightHopMeetsPlateau(s, l, u, k - 1);
      }
    }
  }

  // ------------------------------------------------------------------ what the basis commits to

  /** A label on level l is Null, a two-way hash, or a four-way hash of a level at most l; never a raw entry. */
  lemma {:induction false} LabelShape(s: seq<Block>, l: nat, i: nat)
    requires i <= |s| + 1 && l < Height(s, i) && l < MAX_HEIGHT
    ensures var g := LabelAt(s, l, i);
            if i == |s| + 1 then g == Null
            else g.Hash2? || (g.Hash4? && 1 <= g.level <= l)
    decreases l
  {
    if i <= |s| && l > 0 {
      LabelShape(s, l - 1, i);
    }
  }

  /** Strictly between lo and hi both lists have the same heights and entries, and the same entry at hi. */
  ghost predicate SameSpanUpTo(s: seq<Block>, s': seq<Block>, lo: nat, hi: nat)
    requires hi <= |s| + 1
  {
    && hi <= |s'| + 1
    && (forall k | lo < k < hi :: Height(s, k) == Height(s', k))
    && (forall k | lo < k <= hi :: Elem(s, k) == Elem(s', k))
  }

  /** Equal labels were formed the same way. */
  lemma {:induction false} SameLabelSameShape(s: seq<Block>, s': seq<Block>, l: nat, i: nat)
    requires i <= |s| && i <= |s'| && l < MAX_HEIGHT && l < Height(s, i)
    requires l < Height(s', i)
    requires LabelAt(s, l, i) == LabelAt(s', l, i)
    ensures Tower(s, l, Next(s, l, i)) == Tower(s', l, Next(s', l, i))
    ensures l == 0 ==> Elem(s, i) == Elem(s', i)
    ensures l > 0 ==> LabelAt(s, l - 1, i) == LabelAt(s', l - 1, i)
    ensures !Tower(s, l, Next(s, l, i)) ==> LabelAt(s, l, Next(s, l, i)) == LabelAt(s', l, Next(s', l, i))
    ensures !Tower(s, l, Next(s, l, i)) && l > 0 ==> Next(s, l, i) == Next(s', l, i)
    ensures l == 0 && Tower(s, l, Next(s, l, i)) ==> Elem(s, Next(s, l, i)) == Elem(s', Next(s', l, i))
  {
    var w, w' := Next(s, l, i), Next(s', l, i);
    if l > 0 {
      LabelShape(s, l - 1, i);
      LabelShape(s', l - 1, i);
    } else {
      LabelShape(s, l, w);
      LabelShape(s', l, w');
    }
  }

  /** Equal labels on one level cover the same stretch with the same tags and heights. */
  lemma {:induction false} LabelDeterminesSpan(s: seq<Block>, s': seq<Block>, l: nat, i: nat) returns (hi: nat)
    requires WellFormed(s) && WellFormed(s') && i <= |s| && i <= |s'|
    requires l < MAX_HEIGHT && l < Height(s, i) && l < Height(s', i)
    requires LabelAt(s, l, i) == LabelAt(s', l, i)
    ensures Elem(s, i) == Elem(s', i)
    ensures i < hi <= |s| + 1 && SameSpanUpTo(s, s', i, hi)
    ensures if l + 1 < MAX_HEIGHT then Next(s', l + 1, i) == Next(s, l + 1, i) == hi
            else hi == |s| + 1 == |s'| + 1
    decreases l, |s| - i
  {
    hide LabelAt, Next;
    var w, w' := Next(s, l, i), Next(s', l, i);
    SameLabelSameShape(s, s', l, i);
    if l > 0 {
      hi := LabelDeterminesSpan(s, s', l - 1, i);
    } else {
      NextIs(s, 0, i, i + 1);
      NextIs(s', 0, i, i + 1);
      hi := w;
    }
    if Tower(s, l, w) {
      NextIs(s, l + 1, i, w);
      NextIs(s', l + 1, i, w);
    } else {
      hi := PlateauSpan(s, s', l, i);
    }
  }

  lemma {:induction false} JoinSpans(s: seq<Block>, s': seq<Block>, lo: nat, mid: nat, hi: nat)
    requires lo < mid < hi <= |s| + 1 && hi <= |s'| + 1
    requires Height(s, mid) == Height(s', mid) && Elem(s, mid) == Elem(s', mid)
    requires mid == lo + 1 || SameSpanUpTo(s, s', lo, mid)
    requires SameSpanUpTo(s, s', mid, hi)
    ensures SameSpanUpTo(s, s', lo, hi)
  {
  }

  lemma {:induction false} NextAbovePlateau(s: seq<Block>, l: nat, i: nat)
    requires l + 1 < MAX_HEIGHT && i <= |s|
    requires Next(s, l, i) <= |s| && !Tower(s, l, Next(s, l, i))
    ensures Next(s, l + 1, i) == Next(s, l + 1, Next(s, l, i))
  {
    NextIs(s, l + 1, i, Next(s, l + 1, Next(s, l, i)));
  }

  lemma {:induction false} PlateauSpan(s: seq<Block>, s': seq<Block>, l: nat, i: nat) returns (hi: nat)
    requires WellFormed(s) && WellFormed(s') && i <= |s| && i <= |s'|
    requires l < MAX_HEIGHT && l < Height(s, i) && l < Height(s', i)
    requires var w := Next(s, l, i);
      && w == Next(s', l, i) && !Tower(s, l, w) && !Tower(s', l, w)
      && LabelAt(s, l, w) == LabelAt(s', l, w) && (l > 0 ==> Elem(s, w) == Elem(s', w))
      && (if l > 0 then SameSpanUpTo(s, s', i, w) else w == i + 1)
    ensures i < hi <= |s| + 1 && SameSpanUpTo(s, s', i, hi)
    ensures if l + 1 < MAX_HEIGHT then Next(s', l + 1, i) == Next(s, l + 1, i) == hi
            else hi == |s| + 1 == |s'| + 1
    decreases l, |s| - i, 0
  {
    var w := Next(s, l, i);
    LabelShape(s, l, w);
    LabelShape(s', l, w);
    if w == |s| + 1 {
      hi := w;
    } else {
      hi := LabelDeterminesSpan(s, s', l, w);
      JoinSpans(s, s', i, w, hi);
      if l + 1 < MAX_HEIGHT {
        NextAbovePlateau(s, l, i);
        NextAbovePlateau(s', l, i);
      }
    }
  }

  /** The basis binds the whole file: two well-formed lists with the same basis have the same blocks, in the same
      order, with the same tower heights. */
  lemma {:induction false} BasisDeterminesList(s: seq<Block>, s': seq<Block>)
    requires WellFormed(s) && WellFormed(s')
    ensures Basis(s) == Basis(s') <==> s == s'
  {
    if Basis(s) == Basis(s') {
      var hi := LabelDeterminesSpan(s, s', MAX_HEIGHT - 1, 0);
      forall k | 0 <= k < |s| ensures s[k] == s'[k] {
        assert Height(s, k + 1) == Height(s', k + 1) && Elem(s, k + 1) == Elem(s', k + 1);
      }
    }
  }
}
