/** Which parts of an honest path depend on the tag at one position. */
module SkipListModify {
  import opened SkipListLabels
  import opened SkipListProofs
  import opened SkipListUpdates

  // ------------------------------------------------------------------ paths that do not see the modified block

  lemma {:induction false} ModifySpans(s: seq<Block>, pos: nat, tag: nat)
    requires 1 <= pos <= |s|
    ensures |Modify(s, pos, tag)| == |s|
    ensures forall k: nat | k <= |s| + 1 :: Height(Modify(s, pos, tag), k) == Height(s, k)
    ensures forall k: nat | k <= |s| + 1 && k != pos :: Elem(Modify(s, pos, tag), k) == Elem(s, k)
    ensures WellFormed(s) ==> WellFormed(Modify(s, pos, tag))
  {
  }

  lemma {:induction false} ModifyNeighbours(s: seq<Block>, pos: nat, tag: nat, l: nat, i: nat)
    requires 1 <= pos <= |s| && l < MAX_HEIGHT
    ensures i <= |s| ==> Next(Modify(s, pos, tag), l, i) == Next(s, l, i)
    ensures i <= |s| + 1 ==> Rank(Modify(s, pos, tag), l, i) == Rank(s, l, i)
    ensures 1 <= i <= |s| + 1 ==> Prev(Modify(s, pos, tag), l, i) == Prev(s, l, i)
  {
    ModifySpans(s, pos, tag);
    if i <= |s| { NextIs(Modify(s, pos, tag), l, i, Next(s, l, i)); }
    if 1 <= i <= |s| + 1 { PrevIs(Modify(s, pos, tag), l, Prev(s, l, i), i); }
  }

  /** A node right of the modified block keeps its label, and so does the down value of a hop that lands left of it. */
  lemma {:induction false} ModifyLabels(s: seq<Block>, pos: nat, tag: nat, l: nat, i: nat)
    requires 1 <= pos <= |s| && l < MAX_HEIGHT && i <= |s| + 1 && l < Height(s, i)
    ensures l < Height(Modify(s, pos, tag), i)
    ensures pos < i ==> LabelAt(Modify(s, pos, tag), l, i) == LabelAt(s, l, i)
    ensures i <= |s| && (Next(s, l, i) < pos || (l == 0 && i < pos)) ==>
              DownValue(Modify(s, pos, tag), l, i) == DownValue(s, l, i)
  {
    hide LabelAt, Next, Modify;
    var s' := Modify(s, pos, tag);
    ModifySpans(s, pos, tag);
    if pos < i {
      assert SameSpan(s, s', 0, i, |s| + 1);
      LabelLocal(s, s', 0, l, i, |s| + 1);
    } else if i <= |s| && Next(s, l, i) < pos {
      assert SameSpan(s, s', 0, i, Next(s, l, i));
      DownValueLocal(s, s', 0, l, i);
    }
  }

  lemma {:induction false} ModifyKeepsRightStep(s: seq<Block>, pos: nat, tag: nat, l: nat, u: nat)
    requires 1 <= pos <= |s| && l < MAX_HEIGHT && u <= |s| && l < Height(s, u)
    requires Next(s, l, u) < pos || (l == 0 && u < pos)
    ensures l < Height(Modify(s, pos, tag), u)
    ensures RightStep(Modify(s, pos, tag), l, u) == RightStep(s, l, u)
  {
    hide LabelAt, Next, Modify;
    ModifyNeighbours(s, pos, tag, l, u);
    ModifyLabels(s, pos, tag, l, u);
  }

  lemma {:induction false} ModifyKeepsDownStep(s: seq<Block>, pos: nat, tag: nat, l: nat, i: nat)
    requires 1 <= pos <= |s| && l < MAX_HEIGHT && i <= |s| && l < Height(s, i)
    requires pos < Next(s, l, i) || Tower(s, l, Next(s, l, i))
    ensures l < Height(Modify(s, pos, tag), i)
    ensures DownStep(Modify(s, pos, tag), l, i) == DownStep(s, l, i)
  {
    hide LabelAt, Next, Modify;
    ModifyNeighbours(s, pos, tag, l, i);
    ModifyLabels(s, pos, tag, l, i);
    ModifyLabels(s, pos, tag, l, Next(s, l, i));
    ModifySpans(s, pos, tag);
  }

  /** Once a path is left of the modified block, and above everything up to it, no step depends on its tag. */
  lemma {:induction false} PathAboveModified(s: seq<Block>, pos: nat, tag: nat, l: nat, i: nat)
    requires WellFormed(s) && 1 <= pos <= |s| && l < MAX_HEIGHT && i < pos
    requires l < Height(s, i)
    requires forall k | i < k <= pos :: Height(s, k) <= l + 1
    ensures l < Height(Modify(s, pos, tag), i)
    ensures PathSteps(Modify(s, pos, tag), l, i) == PathSteps(s, l, i)
    decreases MAX_HEIGHT - l, i
  {
    hide LabelAt, Next, Prev, Modify, PathSteps, RightStep, DownStep;
    var s' := Modify(s, pos, tag);
    ModifySpans(s, pos, tag);
    PathUnfold(s, l, i);
    PathUnfold(s', l, i);
    if l + 1 < MAX_HEIGHT && Tower(s, l, i) {
      ModifyKeepsDownStep(s, pos, tag, l + 1, i);
      PathAboveModified(s, pos, tag, l + 1, i);
    } else if i > 0 {
      ModifyNeighbours(s, pos, tag, l, i);
      NeighboursInverse(s, l, i);
      ModifyKeepsRightStep(s, pos, tag, l, Prev(s, l, i));
      PathAboveModified(s, pos, tag, l, Prev(s, l, i));
    }
  }

  /** A plateau block's own path never depends on its tag. */
  lemma {:induction false} PlateauPathUnchanged(s: seq<Block>, pos: nat, tag: nat)
    requires WellFormed(s) && 1 <= pos <= |s| && !Tower(s, 0, pos)
    ensures PathSteps(Modify(s, pos, tag), 0, pos) == PathSteps(s, 0, pos)
    ensures RightValue(Modify(s, pos, tag), pos) == RightValue(s, pos)
  {
    hide LabelAt, Next, Prev, Modify, PathSteps, RightStep, DownStep;
    var s' := Modify(s, pos, tag);
    ModifySpans(s, pos, tag);
    ModifyNeighbours(s, pos, tag, 0, pos);
    ModifyLabels(s, pos, tag, 0, Next(s, 0, pos));
    PathUnfold(s, 0, pos);
    PathUnfold(s', 0, pos);
    var u := Prev(s, 0, pos);
    NeighboursInverse(s, 0, pos);
    ModifyKeepsRightStep(s, pos, tag, 0, u);
    PathAboveModified(s, pos, tag, 0, u);
  }

  // ------------------------------------------------------------------ the tower case

  /** Folding through the leading down steps only. */
  function FoldOwnTower(gamma: Label, steps: seq<ProofStep>): Label
    decreases steps
  {
    if steps == [] || steps[0].right then gamma
    else FoldOwnTower(if steps[0].towerPassthrough then gamma
                      else Hash4(steps[0].level, steps[0].rank, gamma, steps[0].sibLabel), steps[1..])
  }

  /** Index of the first step that went down past a plateau, or the number of steps. */
  function FirstPlainDown(steps: seq<ProofStep>): (idx: nat)
    ensures idx <= |steps|
  {
    if steps == [] || (!steps[0].right && !steps[0].towerPassthrough) then 0 else 1 + FirstPlainDown(steps[1..])
  }

  /** Folding a block's tag through the path of its unmodified list, down steps only, gives the label of its
      topmost node in the list where it has that tag. */
  lemma {:induction false} OwnTowerLabel(s: seq<Block>, pos: nat, tag: nat, l: nat)
    requires WellFormed(s) && 1 <= pos <= |s| && l < Height(s, pos)
    ensures var s' := Modify(s, pos, tag); var h := Height(s, pos);
            && Height(s', pos) == h
            && FoldOwnTower(LabelAt(s', l, pos), PathSteps(s, l, pos)) == LabelAt(s', h - 1, pos)
    decreases MAX_HEIGHT - l
  {
    hide LabelAt, Next, Prev, Modify, PathSteps;
    var s' := Modify(s, pos, tag);
    ModifySpans(s, pos, tag);
    PathUnfold(s, l, pos);
    if l + 1 < Height(s, pos) {
      ModifyKeepsDownStep(s, pos, tag, l + 1, pos);
      LabelUnfold(s', l + 1, pos);
      OwnTowerLabel(s, pos, tag, l + 1);
    }
  }

  /** On the path of the modified tower's left neighbour exactly one step depends on the tag: the first one that
      went down past a plateau, which holds the tower's topmost label. */
  lemma {:induction false} LeftPathSwap(s: seq<Block>, pos: nat, tag: nat, l: nat, i: nat)
    requires WellFormed(s) && 1 <= pos <= |s| && l + 1 < Height(s, pos) && i < pos
    requires l < Height(s, i)
    requires forall k | i < k < pos :: Height(s, k) <= l + 1
    ensures var s' := Modify(s, pos, tag); var h := Height(s, pos);
            var steps := PathSteps(s, l, i); var idx := FirstPlainDown(steps);
            && Height(s', pos) == h && Height(s', i) == Height(s, i)
            && idx < |steps| && steps[idx].sibLabel == LabelAt(s, h - 1, pos)
            && PathSteps(s', l, i) == steps[idx := steps[idx].(sibLabel := LabelAt(s', h - 1, pos))]
    decreases MAX_HEIGHT - l, i
  {
    hide LabelAt, Next, Prev, Modify, PathSteps, DownStep;
    var s' := Modify(s, pos, tag);
    ModifySpans(s, pos, tag);
    PathUnfold(s, l, i);
    PathUnfold(s', l, i);
    if Tower(s, l, i) {
      LeftDownStep(s, pos, tag, l + 1, i);
      if l + 2 < Height(s, pos) {
        LeftPathSwap(s, pos, tag, l + 1, i);
      } else {
        PathAboveModified(s, pos, tag, l + 1, i);
      }
    } else {
      ModifyNeighbours(s, pos, tag, l, i);
      NeighboursInverse(s, l, i);
      ModifyKeepsRightStep(s, pos, tag, l, Prev(s, l, i));
      LeftPathSwap(s, pos, tag, l, Prev(s, l, i));
    }
  }

  /** Below the tower's height its left neighbours' ancestors meet the tower directly. */
  lemma {:induction false} LeftDownStep(s: seq<Block>, pos: nat, tag: nat, l: nat, i: nat)
    requires WellFormed(s) && 1 <= pos <= |s| && l < Height(s, pos) && i < pos
    requires l < Height(s, i)
    requires forall k | i < k < pos :: Height(s, k) <= l
    ensures var s' := Modify(s, pos, tag); var step := DownStep(s, l, i);
            && l < Height(s', i) && l < Height(s', pos) && !step.right
            && (step.towerPassthrough <==> l + 1 < Height(s, pos))
            && DownStep(s', l, i) == (if l + 1 < Height(s, pos) then step else step.(sibLabel := LabelAt(s', l, pos)))
            && (l + 1 == Height(s, pos) ==> step.sibLabel == LabelAt(s, l, pos))
  {
    hide LabelAt, Next, Prev, Modify;
    ModifySpans(s, pos, tag);
    NextIs(s, l, i, pos);
    ModifyNeighbours(s, pos, tag, l, i);
  }
}
