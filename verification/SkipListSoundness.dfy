/** What an accepted path proof guarantees, whoever sent it: the path it describes, and the exact position. */
module SkipListSoundness {
  import opened SkipListLabels
  import opened SkipListProofs
  import opened SkipListUpdates
  import opened SkipListModify
  import opened SkipListProtocol

  // ------------------------------------------------------------------ what the folds see of a path

  predicate Passthrough(step: ProofStep) {
    !step.right && step.towerPassthrough
  }

  /** A step without the parts no hash commits to: the rank and sibling of a passthrough, and the rank of a
      right step at level 0. */
  function Seen(step: ProofStep): ProofStep {
    if Passthrough(step) then step.(rank := 0, sibLabel := Absent)
    else if step.right && step.level == 0 then step.(rank := 0, towerPassthrough := false)
    else step.(towerPassthrough := false)
  }

  function AllSeen(steps: seq<ProofStep>): seq<ProofStep> {
    if steps == [] then [] else [Seen(steps[0])] + AllSeen(steps[1..])
  }

  /** The steps that are hashed. */
  function Trace(steps: seq<ProofStep>): seq<ProofStep> {
    if steps == [] then []
    else if Passthrough(steps[0]) then Trace(steps[1..])
    else [Seen(steps[0])] + Trace(steps[1..])
  }

  /** The rank of an unhashed level-0 entry. */
  function EntryRank(g: Label): int {
    if g.Raw? then g.entry.rank else 0
  }

  /** By how much the claimed ranks of the level-0 right steps exceed the ranks inside their sibling entries. */
  function Slack(steps: seq<ProofStep>): int {
    if steps == [] then 0 else StepSlack(steps[0]) + Slack(steps[1..])
  }

  function StepSlack(step: ProofStep): int {
    if step.right && step.level == 0 then step.rank - EntryRank(step.sibLabel) else 0
  }

  function StepRank(step: ProofStep): int {
    if step.right then step.rank else 0
  }

  // ------------------------------------------------------------------ an accepted fold is a path of the list

  predicate Hashed(g: Label) {
    g.Hash2? || g.Hash4?
  }

  /** The level on which a node's label was hashed. */
  function FormedAt(g: Label): int
    requires Hashed(g)
  {
    if g.Hash4? then g.level else 0
  }

  /** The node of position i on level l has label g, and g was hashed there. */
  ghost predicate NodeOf(s: seq<Block>, g: Label, l: nat, i: nat) {
    && l < MAX_HEIGHT && i <= |s| && l < Height(s, i)
    && LabelAt(s, l, i) == g && Hashed(g) && l == FormedAt(g)
  }

  /** Below a tower to its right a node hands its label down unchanged; its path gains passthroughs only. */
  lemma {:induction false} Sink(s: seq<Block>, l: nat, i: nat) returns (m: nat)
    requires l < MAX_HEIGHT && i <= |s| && l < Height(s, i)
    ensures NodeOf(s, LabelAt(s, l, i), m, i)
    ensures Trace(PathSteps(s, m, i)) == Trace(PathSteps(s, l, i))
    decreases l
  {
    hide Next, Prev, LabelAt, PathSteps;
    LabelUnfold(s, l, i);
    m := l;
    if l > 0 && Tower(s, l, Next(s, l, i)) {
      PathUnfold(s, l - 1, i);
      m := Sink(s, l - 1, i);
    }
  }

  /** What a node's label is hashed from. */
  lemma {:induction false} FormedLabel(s: seq<Block>, g: Label, l: nat, i: nat)
    requires NodeOf(s, g, l, i)
    ensures l == 0 ==> g == Hash2(Raw(Elem(s, i)), RightValue(s, i))
    ensures l > 0 ==> !Tower(s, l, Next(s, l, i))
    ensures l > 0 ==> g == Hash4(l, Rank(s, l, i), LabelAt(s, l - 1, i), LabelAt(s, l, Next(s, l, i)))
  {
    hide Next, Prev, LabelAt, PathSteps;
    LabelUnfold(s, l, i);
    if l > 0 && Tower(s, l, Next(s, l, i)) {
      LabelShape(s, l - 1, i);
    }
  }

  /** Undoing one step of a fold whose result is a node's label leads to the label of a node: the one the step
      claims to come from. */
  lemma {:induction false} StepBack(s: seq<Block>, gamma: Label, step: ProofStep, l: nat, i: nat)
    returns (m: nat, j: nat)
    requires WellFormed(s) && Hashed(gamma) && NodeOf(s, FoldStep(gamma, step), l, i)
    ensures NodeOf(s, gamma, m, j)
    ensures Before(j) == Before(i) + StepRank(step) - StepSlack(step)
    ensures Trace(PathSteps(s, m, j)) == Trace([step] + PathSteps(s, l, i))
  {
    hide Next, Prev, LabelAt, PathSteps;
    assert ([step] + PathSteps(s, l, i))[1..] == PathSteps(s, l, i);
    m, j := l, i;
    if !Passthrough(step) {
      FormedLabel(s, FoldStep(gamma, step), l, i);
      var w := Next(s, l, i);
      if step.right {
        LabelShape(s, l, w);
        NeighboursInverse(s, l, i);
        PathUnfold(s, l, w);
        ElemRank(s, i);
        j := w;
        m := Sink(s, l, w);
      } else {
        PathUnfold(s, l - 1, i);
        m := Sink(s, l - 1, i);
      }
    }
  }

  /** Whatever steps it is given, a fold that ends in the basis traces the path of a node of the list, and its claimed
      ranks count the blocks left of that node, up to the slack at level 0. */
  lemma {:induction false} FoldIsPath(s: seq<Block>, gamma: Label, steps: seq<ProofStep>) returns (l: nat, i: nat)
    requires WellFormed(s) && Hashed(gamma) && FoldSteps(gamma, steps) == Basis(s)
    ensures NodeOf(s, gamma, l, i)
    ensures Before(i) == RightRanks(steps) - Slack(steps)
    ensures Trace(steps) == Trace(PathSteps(s, l, i))
    decreases steps
  {
    hide Next, Prev, LabelAt, PathSteps;
    if steps == [] {
      PathUnfold(s, MAX_HEIGHT - 1, 0);
      l := Sink(s, MAX_HEIGHT - 1, 0);
      i := 0;
    } else {
      var l', i' := FoldIsPath(s, FoldStep(gamma, steps[0]), steps[1..]);
      l, i := StepBack(s, gamma, steps[0], l', i');
      assert Trace([steps[0]] + PathSteps(s, l', i')) == Trace([steps[0]] + steps[1..]) by {
        assert ([steps[0]] + PathSteps(s, l', i'))[1..] == PathSteps(s, l', i');
        assert ([steps[0]] + steps[1..])[1..] == steps[1..];
      }
      assert [steps[0]] + steps[1..] == steps;
    }
  }

  /** The level-0 case: the target itself. */
  lemma {:induction false} FoldedTarget(s: seq<Block>, bp: BlockProof) returns (i: nat)
    requires WellFormed(s) && FoldProof(bp) == Basis(s)
    ensures i <= |s| && bp.target == Elem(s, i) && bp.targetRightVal == RightValue(s, i)
    ensures Before(i) == RightRanks(bp.steps) - Slack(bp.steps)
    ensures Trace(bp.steps) == Trace(PathSteps(s, 0, i))
  {
    hide Next, Prev, LabelAt, PathSteps, FoldSteps;
    var gamma := Hash2(Raw(bp.target), bp.targetRightVal);
    var l, k := FoldIsPath(s, gamma, bp.steps);
    FormedLabel(s, gamma, l, k);
    i := k;
  }

  // ------------------------------------------------------------------ the position of an accepted proof

  /** An accepted path proof, honest or not, belongs to the block at the claimed position less the slack of its steps:
      it carries that block's tag and right value and traces its path. */
  lemma {:induction false} AcceptedPosition(s: seq<Block>, pos: int, bp: BlockProof) returns (i: nat)
    requires WellFormed(s) && PathAccepted(Basis(s), pos, bp)
    ensures 1 <= i <= |s| && pos == i + Slack(bp.steps)
    ensures bp.target == ZeroEntry(1, Tag(s[i - 1].tag)) && bp.targetRightVal == RightValue(s, i)
    ensures Trace(bp.steps) == Trace(PathSteps(s, 0, i))
  {
    hide LabelAt, PathSteps, FoldProof, Next;
    i := FoldedTarget(s, bp);
  }

  /** The same for the proof of a gap, whose target may be the left sentinel. */
  lemma {:induction false} AcceptedGapPosition(s: seq<Block>, pos: int, bp: BlockProof) returns (i: nat)
    requires WellFormed(s) && InsertionPointAccepted(Basis(s), pos, bp)
    ensures 1 <= i + 1 <= |s| + 1 && pos == i + 1 + Slack(bp.steps)
    ensures bp.target == Elem(s, i) && bp.targetRightVal == RightValue(s, i)
    ensures Trace(bp.steps) == Trace(PathSteps(s, 0, i))
  {
    hide LabelAt, PathSteps, FoldProof, Next;
    i := FoldedTarget(s, bp);
  }

  /** Honest paths have no slack. */
  lemma {:induction false} HonestSlack(s: seq<Block>, l: nat, i: nat)
    requires WellFormed(s) && i <= |s| && l < Height(s, i) && l < MAX_HEIGHT
    ensures Slack(PathSteps(s, l, i)) == 0
    decreases MAX_HEIGHT - l, i
  {
    hide LabelAt, Next, Prev, PathSteps;
    PathUnfold(s, l, i);
    if l + 1 < MAX_HEIGHT && Tower(s, l, i) {
      HonestSlack(s, l + 1, i);
    } else if i > 0 {
      ElemRank(s, Prev(s, l, i));
      HonestSlack(s, l, Prev(s, l, i));
    }
  }

  /** The proof of a plateau block with the rank of its first step off by d. */
  function Shifted(s: seq<Block>, pos: nat, d: int): BlockProof
    requires WellFormed(s) && 1 <= pos <= |s| && PathSteps(s, 0, pos) != []
  {
    var bp := BlockProofAt(s, pos);
    bp.(steps := [bp.steps[0].(rank := bp.steps[0].rank + d)] + bp.steps[1..])
  }

  /** The code does not reject slack: a plateau block passes for any position at all. */
  lemma {:induction false} ShiftedAccepted(s: seq<Block>, pos: nat, d: int)
    requires WellFormed(s) && 1 <= pos <= |s| && !Tower(s, 0, pos)
    ensures PathSteps(s, 0, pos) != []
    ensures Slack(Shifted(s, pos, d).steps) == d
    ensures PathAccepted(Basis(s), pos + d, Shifted(s, pos, d))
  {
    hide LabelAt, Next, Prev, PathSteps;
    PathUnfold(s, 0, pos);
    HonestPathAccepted(s, pos);
    HonestSlack(s, 0, pos);
    var steps := PathSteps(s, 0, pos);
    assert Shifted(s, pos, d).steps[1..] == steps[1..];
  }

  /** In a file of two blocks, the first passes for the second. */
  lemma {:induction false} FirstPassesForSecond(a: nat, b: nat)
    ensures var s := [Block(a, 1), Block(b, 1)];
            && PathSteps(s, 0, 1) != []
            && Shifted(s, 1, 1).target == ZeroEntry(1, Tag(a))
            && PathAccepted(Basis(s), 2, Shifted(s, 1, 1))
  {
    hide LabelAt, Next, Prev, PathSteps, FoldSteps;
    var s := [Block(a, 1), Block(b, 1)];
    assert WellFormed(s) && !Tower(s, 0, 1);
    ShiftedAccepted(s, 1, 1);
  }
}
