/** What an accepted insert guarantees when the server is not trusted, and the fold that inserts, undone. */
module SkipListGapSoundness {
  import opened SkipListLabels
  import opened SkipListProofs
  import opened SkipListUpdates
  import opened SkipListModify
  import opened SkipListProtocol
  import opened SkipListRuns
  import opened SkipListSoundness
  import opened SkipListUpdateSoundness
  import opened SkipListTurns
  import opened Options

  // ------------------------------------------------------------------ undoing the insert fold

  /** After taking out block w, folding the rest of the path from the node of position i on level l ends in the basis of
      the list that is left. */
  ghost predicate FoldsWithout(s: seq<Block>, w: nat, l: nat, i: nat, rest: seq<ProofStep>)
    requires l < MAX_HEIGHT && 1 <= w <= |s| && i < w && l < Height(s, i)
  {
    var t := Delete(s, w);
    l < Height(t, i) && FoldSteps(LabelAt(t, l, i), rest) == Basis(t)
  }

  /** Block w reaches level l at most, and so do all blocks between i and w. */
  ghost predicate Covers(s: seq<Block>, l: nat, i: nat, w: nat) {
    && i < w <= |s| && Height(s, w) <= l + 1
    && forall k | i < k < w :: Height(s, k) <= l + 1
  }

  lemma {:induction false} WithoutBlock(s: seq<Block>, w: nat)
    requires WellFormed(s) && 1 <= w <= |s|
    ensures var t := Delete(s, w);
            && WellFormed(t) && |t| == |s| - 1 && Insert(t, w, s[w - 1]) == s && s[w - 1].height == Height(s, w)
            && (forall k: nat | k < w :: Height(t, k) == Height(s, k))
            && (forall k: nat | w < k <= |s| + 1 :: Height(t, k - 1) == Height(s, k))
  {
    DeleteThenInsert(s, w);
    InsertSpans(Delete(s, w), w, s[w - 1]);
    forall k: nat | w < k <= |s| + 1 ensures Height(Delete(s, w), k - 1) == Height(s, k) {
      assert Height(Insert(Delete(s, w), w, s[w - 1]), k - 1 + 1) == Height(Delete(s, w), k - 1);
    }
  }

  /** A right hop that ends left of block w is the same without w. */
  lemma {:induction false} RightStepWithout(s: seq<Block>, w: nat, l: nat, u: nat, step: ProofStep,
                                            rest: seq<ProofStep>)
    requires WellFormed(s) && 1 <= w <= |s| && l < MAX_HEIGHT && u < w && l < Height(s, u)
    requires Next(s, l, u) < w && !Tower(s, l, Next(s, l, u))
    requires Seen(step) == Seen(RightStep(s, l, u))
    requires FoldsWithout(s, w, l, u, rest)
    ensures FoldsWithout(s, w, l, Next(s, l, u), [step] + rest)
  {
    hide LabelAt, Next, Prev, Delete, Insert, FoldSteps;
    var t, i := Delete(s, w), Next(s, l, u);
    WithoutBlock(s, w);
    NextIs(t, l, u, i);
    LeftOfInsert(t, w, s[w - 1], l, u);
    LabelUnfold(t, l, u);
    assert FoldStep(LabelAt(t, l, i), step) == LabelAt(t, l, u);
    FoldFirst(LabelAt(t, l, i), step, rest);
  }

  lemma {:induction false} FoldFirst(gamma: Label, step: ProofStep, rest: seq<ProofStep>)
    ensures FoldSteps(gamma, [step] + rest) == FoldSteps(FoldStep(gamma, step), rest)
  {
    assert ([step] + rest)[1..] == rest;
  }

  /** A down step above block w covers one block less without it. */
  lemma {:induction false} DownStepAbove(s: seq<Block>, w: nat, l: nat, i: nat, step: ProofStep, rest: seq<ProofStep>)
    requires WellFormed(s) && l + 1 < MAX_HEIGHT && i <= |s| && l + 1 < Height(s, i)
    requires Covers(s, l, i, w)
    requires var v := Next(s, l + 1, i);
             Seen(step) == if Tower(s, l + 1, v) then ProofStep(l + 1, 0, false, true, Absent)
                           else ProofStep(l + 1, Rank(s, l + 1, i) - 1, false, false, LabelAt(s, l + 1, v))
    requires FoldsWithout(s, w, l + 1, i, rest)
    ensures FoldsWithout(s, w, l, i, [step] + rest)
  {
    hide LabelAt, Next, Prev, Delete, Insert, FoldSteps;
    var t := Delete(s, w);
    WithoutBlock(s, w);
    AbsorbedAbove(s, w, l, i);
    assert FoldStep(LabelAt(t, l, i), step) == LabelAt(t, l + 1, i);
    FoldFirst(LabelAt(t, l, i), step, rest);
  }

  lemma {:induction false} AbsorbedAbove(s: seq<Block>, w: nat, l: nat, i: nat)
    requires WellFormed(s) && l + 1 < MAX_HEIGHT && i <= |s| && l + 1 < Height(s, i)
    requires Covers(s, l, i, w)
    ensures var t := Delete(s, w); var v := Next(s, l + 1, i);
            && l + 1 < Height(t, i)
            && LabelAt(t, l + 1, i) == if Tower(s, l + 1, v) then LabelAt(t, l, i)
                                       else Hash4(l + 1, Rank(s, l + 1, i) - 1, LabelAt(t, l, i), LabelAt(s, l + 1, v))
  {
    hide LabelAt, Next, Prev, Delete, Insert;
    var t, b := Delete(s, w), s[w - 1];
    WithoutBlock(s, w);
    NextAcrossInsert(t, w, b, l + 1, i);
    RightOfInsert(t, w, b, l + 1, Next(t, l + 1, i));
    LabelUnfold(t, l + 1, i);
  }

  lemma {:induction false} HopAbove(s: seq<Block>, l: nat, u: nat, step: ProofStep, rest: seq<ProofStep>)
    requires WellFormed(s) && l < MAX_HEIGHT && u <= |s| && l < Height(s, u)
    requires Next(s, l, u) <= |s| && !Tower(s, l, Next(s, l, u))
    requires Seen(step) == Seen(RightStep(s, l, u))
    requires forall w | Covers(s, l, u, w) :: FoldsWithout(s, w, l, u, rest)
    ensures forall w | Covers(s, l, Next(s, l, u), w) :: FoldsWithout(s, w, l, Next(s, l, u), [step] + rest)
  {
    hide LabelAt, Next, FoldsWithout;
    forall w | Covers(s, l, Next(s, l, u), w) ensures FoldsWithout(s, w, l, Next(s, l, u), [step] + rest) {
      assert Covers(s, l, u, w);
      RightStepWithout(s, w, l, u, step, rest);
    }
  }

  /** On and above the level where the new node enters, a fold that ends in the basis follows a node of the list. */
  lemma {:induction false} UndoAbove(s: seq<Block>, all: seq<ProofStep>, rest: seq<ProofStep>, pos: int, h: int, l: nat,
                                     st: InsertState) returns (i: nat)
    requires WellFormed(s) && h <= l + 1 <= MAX_HEIGHT && Staircase(rest, l)
    requires Hashed(st.gamma) && FormedAt(st.gamma) <= l
    requires InsertFold(all, rest, pos, h, st).gamma == Basis(s)
    ensures i <= |s| && l < Height(s, i) && LabelAt(s, l, i) == st.gamma
    ensures Before(i) == RightRanks(rest) - Slack(rest)
    ensures forall w | Covers(s, l, i, w) :: FoldsWithout(s, w, l, i, rest)
    decreases rest
  {
    hide LabelAt, Next, Prev, PassedAt, FoldsWithout, FoldSteps, Delete;
    if rest == [] {
      i := 0;
      forall w | Covers(s, l, 0, w) ensures FoldsWithout(s, w, l, 0, rest) {
        BasisFolds(s, w);
      }
    } else {
      var step, rest' := rest[0], rest[1..];
      var st' := InsertStep(all, pos, h, st, step);
      assert rest == [step] + rest';
      StaircaseLevels(rest, l);
      if step.right {
        var u := UndoAbove(s, all, rest', pos, h, l, st');
        FormedLabel(s, st'.gamma, l, u);
        i := Next(s, l, u);
        LabelShape(s, l, i);
        ElemRank(s, u);
        HopAbove(s, l, u, step, rest');
      } else {
        i := UndoAbove(s, all, rest', pos, h, l + 1, st');
        var v := Next(s, l + 1, i);
        LabelUnfold(s, l + 1, i);
        LabelShape(s, l, i);
        assert Seen(step) == if Tower(s, l + 1, v) then ProofStep(l + 1, 0, false, true, Absent)
                             else ProofStep(l + 1, Rank(s, l + 1, i) - 1, false, false, LabelAt(s, l + 1, v));
        forall w | Covers(s, l, i, w) ensures FoldsWithout(s, w, l, i, rest) {
          assert Covers(s, l + 1, i, w);
          DownStepAbove(s, w, l, i, step, rest');
        }
      }
    }
  }

  lemma {:induction false} BasisFolds(s: seq<Block>, w: nat)
    requires 1 <= w <= |s|
    ensures FoldsWithout(s, w, MAX_HEIGHT - 1, 0, [])
  {
  }

  /** The node the client builds for the new tower on the level of a down step. */
  function RaisedNode(all: seq<ProofStep>, pos: int, newNode: Label, step: ProofStep): Label {
    if step.towerPassthrough then newNode
    else Hash4(step.level, 1 + step.rank - (pos - 1 - PassedAt(all, step.level)), newNode, step.sibLabel)
  }

  /** Block w is the right neighbour of i one level up, and its node on level l has the label the client built. */
  ghost predicate Straddles(s: seq<Block>, l: nat, i: nat, w: nat, newNode: Label) {
    && l + 1 < MAX_HEIGHT && i < w <= |s| && l + 1 < Height(s, w) && Next(s, l + 1, i) == w
    && LabelAt(s, l, w) == newNode
  }

  /** A down step below the new tower's top: the node of block w is the node the client raised, and without w the step
      is as claimed. */
  lemma {:induction false} DownStepBelow(s: seq<Block>, all: seq<ProofStep>, w: nat, l: nat, i: nat, newNode: Label,
                                         step: ProofStep, rest: seq<ProofStep>)
    requires WellFormed(s) && l + 1 < MAX_HEIGHT && i < w <= |s| && l + 1 < Height(s, i)
    requires l + 1 < Height(s, w) && Next(s, l + 1, i) == w
    requires !step.right && step.level == l + 1 && PassedAt(all, l + 1) == Before(i)
    requires Hashed(newNode) && FormedAt(newNode) <= l
    requires LabelAt(s, l + 1, w) == RaisedNode(all, w, newNode, step)
    requires FoldsWithout(s, w, l + 1, i, rest)
    ensures Straddles(s, l, i, w, newNode)
    ensures FoldsWithout(s, w, l, i, [step] + rest)
  {
    hide LabelAt, Next, Prev, Delete, Insert, FoldSteps, PassedAt;
    var t, b := Delete(s, w), s[w - 1];
    WithoutBlock(s, w);
    NextAcrossInsert(t, w, b, l + 1, i);
    var v := Next(t, l + 1, i);
    RightOfInsert(t, w, b, l + 1, v);
    LabelUnfold(s, l + 1, w);
    LabelShape(s, l, w);
    LabelUnfold(t, l + 1, i);
    assert FoldStep(LabelAt(t, l, i), step) == LabelAt(t, l + 1, i);
    FoldFirst(LabelAt(t, l, i), step, rest);
  }

  lemma {:induction false} RanksUnfold(steps: seq<ProofStep>)
    ensures steps == [] ==> RightRanks(steps) == 0 && Slack(steps) == 0
    ensures steps != [] ==> RightRanks(steps) == StepRank(steps[0]) + RightRanks(steps[1..])
    ensures steps != [] ==> Slack(steps) == StepSlack(steps[0]) + Slack(steps[1..])
  {
  }

  lemma {:induction false} PassedAbove(done: seq<ProofStep>, step: ProofStep, rest: seq<ProofStep>, l: int)
    requires Staircase(rest, l) && l >= 1 && !step.right
    requires forall k | 0 <= k < |done| :: done[k].level < l
    ensures PassedAt(done + ([step] + rest), l) == RightRanks(rest)
  {
    StaircaseLevels(rest, l);
    assert done + ([step] + rest) == (done + [step]) + rest;
    PassedAtSplit(done + [step], rest, l);
  }

  /** Inside the new tower: one level down the tower is still the right neighbour, and the label of i the same. */
  lemma {:induction false} InsideTower(s: seq<Block>, l: nat, i: nat, w: nat, gamma: Label, newNode: Label)
    requires i <= |s| && l + 1 < Height(s, i) && Straddles(s, l + 1, i, w, newNode)
    requires LabelAt(s, l + 1, i) == gamma && Hashed(gamma) && FormedAt(gamma) <= l
    ensures LabelAt(s, l, i) == gamma && Next(s, l + 1, i) == w
  {
    hide LabelAt, Next;
    LabelUnfold(s, l + 1, i);
    NextIs(s, l + 1, i, w);
  }

  /** The top level of the new tower: its node is the right neighbour, at the claimed position. */
  lemma {:induction false} TopOfTower(s: seq<Block>, l: nat, i: nat, pos: int, gamma: Label, newNode: Label)
    requires 1 <= l < MAX_HEIGHT && i <= |s| && l < Height(s, i) && Hashed(newNode)
    requires LabelAt(s, l, i) == Hash4(l, pos - 1 - Before(i), gamma, newNode)
    ensures var w := Next(s, l, i);
            w == pos && w <= |s| && Height(s, w) == l + 1 && LabelAt(s, l, w) == newNode
                && LabelAt(s, l - 1, i) == gamma
  {
    hide LabelAt, Next;
    FormedLabel(s, LabelAt(s, l, i), l, i);
    LabelShape(s, l, Next(s, l, i));
  }

  /** One hop below the tower's top stays left of it. */
  lemma {:induction false} HopBelow(s: seq<Block>, l: nat, u: nat, w: nat, st: InsertState, step: ProofStep,
                                    rest: seq<ProofStep>)
    requires WellFormed(s) && l < MAX_HEIGHT && u <= |s| && l < Height(s, u) && Hashed(st.gamma)
    requires step.right && step.level == l && LabelAt(s, l, u) == FoldStep(st.gamma, step)
    requires Straddles(s, l, u, w, st.newNode) && FoldsWithout(s, w, l, u, rest)
    ensures var i := Next(s, l, u);
            && i <= |s| && LabelAt(s, l, i) == st.gamma && Before(i) == Before(u) + StepRank(step) - StepSlack(step)
            && Straddles(s, l, i, w, st.newNode) && FoldsWithout(s, w, l, i, [step] + rest)
  {
    hide LabelAt, Next, FoldsWithout;
    var i := Next(s, l, u);
    FormedLabel(s, FoldStep(st.gamma, step), l, u);
    LabelShape(s, l, i);
    ElemRank(s, u);
    NextIs(s, l + 1, i, w);
    RightStepWithout(s, w, l, u, step, rest);
  }

  /** One step of the insert fold below the new tower's top. */
  lemma {:induction false} InsertStepBelow(all: seq<ProofStep>, pos: int, h: int, l: nat, st: InsertState,
                                           step: ProofStep)
    requires l + 1 < h && step.level == if step.right then l else l + 1
    requires Hashed(st.gamma) && FormedAt(st.gamma) <= l && Hashed(st.newNode) && FormedAt(st.newNode) <= l
    ensures var st' := InsertStep(all, pos, h, st, step);
            && Hashed(st'.gamma) && FormedAt(st'.gamma) <= step.level
            && Hashed(st'.newNode) && FormedAt(st'.newNode) <= step.level
            && (step.right ==> st' == InsertState(FoldStep(st.gamma, step), st.newNode))
            && (!step.right ==> st'.newNode == RaisedNode(all, pos, st.newNode, step))
            && (!step.right && l + 2 < h ==> st'.gamma == st.gamma)
            && (!step.right && l + 2 == h ==>
                  st'.gamma == Hash4(l + 1, pos - 1 - PassedAt(all, l + 1), st.gamma, st'.newNode))
  {
    hide PassedAt;
  }

  /** Below that level it also builds the nodes of one tower of the list, and only the claimed position fits. */
  lemma {:induction false} UndoBelow(s: seq<Block>, done: seq<ProofStep>, rest: seq<ProofStep>, pos: int, h: int,
                                     l: nat, st: InsertState) returns (i: nat, w: nat)
    requires WellFormed(s) && l + 1 < h <= MAX_HEIGHT && Staircase(rest, l)
    requires forall k | 0 <= k < |done| :: done[k].level <= l
    requires Hashed(st.gamma) && FormedAt(st.gamma) <= l && Hashed(st.newNode) && FormedAt(st.newNode) <= l
    requires InsertFold(done + rest, rest, pos, h, st).gamma == Basis(s)
    ensures i <= |s| && l < Height(s, i) && LabelAt(s, l, i) == st.gamma
    ensures Before(i) == RightRanks(rest) - Slack(rest)
    ensures w == pos && Straddles(s, l, i, w, st.newNode) && Height(s, w) == h
    ensures FoldsWithout(s, w, l, i, rest)
    decreases rest
  {
    hide LabelAt, Next, Prev, PassedAt, FoldsWithout, FoldSteps, Delete, Slack, RightRanks, InsertStep, RaisedNode;
    hide FoldStep;
    assert rest != [];
    var step, rest' := rest[0], rest[1..];
    var all := done + rest;
    var st' := InsertStep(all, pos, h, st, step);
    assert rest == [step] + rest' && all == (done + [step]) + rest';
    RanksUnfold(rest);
    InsertStepBelow(all, pos, h, l, st, step);
    if step.right {
      var u;
      u, w := UndoBelow(s, done + [step], rest', pos, h, l, st');
      i := Next(s, l, u);
      HopBelow(s, l, u, w, st, step, rest');
    } else {
      PassedAbove(done, step, rest', l + 1);
      StaircaseLevels(rest', l + 1);
      if l + 2 < h {
        i, w := UndoBelow(s, done + [step], rest', pos, h, l + 1, st');
        InsideTower(s, l, i, w, st.gamma, st'.newNode);
      } else {
        i := UndoAbove(s, all, rest', pos, h, l + 1, st');
        w := Next(s, l + 1, i);
        TopOfTower(s, l + 1, i, pos, st.gamma, st'.newNode);
        assert Covers(s, l + 1, i, w);
      }
      DownStepBelow(s, all, w, l, i, st.newNode, step, rest');
    }
  }

  /** A fold with a new block that ends in the basis of a list belongs to a gap next to a block of that list: one with
      the height and tag given, at the claimed position if its tower goes above level 0. Without the new block the
      proof folds to the basis of the list without that block. */
  lemma {:induction false} InsertUndone(s: seq<Block>, bp: BlockProof, pos: int, h: int, tag: Tag) returns (w: nat)
    requires WellFormed(s) && h >= 1 && Staircase(bp.steps, 0)
    requires BasisAfterInsert(bp, pos, h, tag) == Basis(s)
    ensures 1 <= w <= |s| && w == GapPosition(bp) && (h >= 2 ==> w == pos)
    ensures s[w - 1].height == h && Tag(s[w - 1].tag) == tag
    ensures FoldProof(bp) == Basis(Delete(s, w))
  {
    hide LabelAt, Next, Prev, PassedAt, FoldSteps, Delete, InsertFold, RightRanks, Slack, TopChain;
    var st := InsertStart(bp, h, tag);
    var i;
    if h > MAX_HEIGHT {
      assert !TopChain(st.gamma) by { TwoWayNoChain(bp, h, tag); }
      TooTallNoChain(bp.steps, bp.steps, pos, h, st);
      TopLabelsChain(s, 0);
      assert false;
    } else if h >= 2 {
      assert [] + bp.steps == bp.steps;
      i, w := UndoBelow(s, [], bp.steps, pos, h, 0, st);
    } else {
      i := UndoAbove(s, bp.steps, bp.steps, pos, h, 0, st);
      w := i + 1;
    }
    NextIs(s, 0, i, i + 1);
    LabelUnfold(s, 0, i);
    LabelShape(s, 0, i + 1);
    assert h >= 2 ==> w == i + 1;
    assert Covers(s, 0, i, w) || h >= 2;
    BottomWithout(s, w);
    LabelUnfold(s, 0, w);
  }

  lemma {:induction false} BottomWithout(s: seq<Block>, w: nat)
    requires WellFormed(s) && 1 <= w <= |s|
    ensures |Delete(s, w)| == |s| - 1
    ensures LabelAt(Delete(s, w), 0, w - 1) == Hash2(Raw(Elem(s, w - 1)), RightValue(s, w))
  {
    hide LabelAt, Next, Prev, Delete, Insert;
    var t, b := Delete(s, w), s[w - 1];
    WithoutBlock(s, w);
    InsertSpans(t, w, b);
    LabelUnfold(t, 0, w - 1);
    NextIs(t, 0, w - 1, w);
    NextIs(s, 0, w, w + 1);
    if !Tower(t, 0, w) {
      RightOfInsert(t, w, b, 0, w);
    }
  }

  /** The position of the gap a proof describes. */
  function GapPosition(bp: BlockProof): int {
    bp.target.rank + RightRanks(bp.steps) - Slack(bp.steps) + 1
  }

  lemma {:induction false} TwoWayNoChain(bp: BlockProof, h: int, tag: Tag)
    ensures !TopChain(InsertStart(bp, h, tag).gamma)
  {
  }

  // ------------------------------------------------------------------ insert

  /** The label is the basis of some list. */
  ghost predicate IsBasis(g: Label) {
    exists s :: WellFormed(s) && Basis(s) == g
  }

  /** Two folds of one label into the basis that count the same blocks hash the same steps. */
  lemma {:induction false} SameNodeSameTrace(s: seq<Block>, gamma: Label, a: seq<ProofStep>, b: seq<ProofStep>)
    requires WellFormed(s) && gamma.Hash2? && FoldSteps(gamma, a) == Basis(s) == FoldSteps(gamma, b)
    requires RightRanks(a) - Slack(a) == RightRanks(b) - Slack(b)
    ensures Trace(a) == Trace(b)
  {
    hide LabelAt, Next, PathSteps, FoldSteps, RightRanks, Slack, Trace, RightValue;
    var l, i := FoldIsPath(s, gamma, a);
    var m, j := FoldIsPath(s, gamma, b);
    FormedLabel(s, gamma, l, i);
    FormedLabel(s, gamma, m, j);
    assert i == j;
  }

  /** A level-0 passthrough under a plateau block makes a hash that no list contains. */
  lemma {:induction false} NoTurnAtZero(s: seq<Block>, all: seq<ProofStep>, rest: seq<ProofStep>, pos: int,
                                        st: InsertState)
    returns (l: nat, i: nat)
    requires WellFormed(s) && Hashed(st.gamma) && PlainsAbove(rest)
    requires InsertFold(all, rest, pos, 1, st).gamma == Basis(s)
    ensures NodeOf(s, st.gamma, l, i) && NoDownOn(rest, 0)
    decreases rest
  {
    hide LabelAt, Next, Prev, PathSteps, PassedAt, Trace;
    if rest == [] {
      l := Sink(s, MAX_HEIGHT - 1, 0);
      i := 0;
    } else {
      var step := rest[0];
      var st' := InsertStep(all, pos, 1, st, step);
      l, i := NoTurnAtZero(s, all, rest[1..], pos, st');
      assert forall k | 1 <= k < |rest| :: rest[k] == rest[1..][k - 1];
      if step.right {
        l, i := StepBack(s, st.gamma, step, l, i);
      } else if !step.towerPassthrough {
        l, i := StepBack(s, st.gamma, step.(rank := step.rank + 1), l, i);
      } else {
        FormedLabel(s, st'.gamma, l, i);
      }
    }
  }

  /** Over the hashed steps of an honest gap proof, with passthroughs anywhere, the insert fold gives the basis of the
      list with the new block if and only if the steps are placed for its height and a tower's position is right. */
  lemma {:induction false} InsertExact(s: seq<Block>, bp: BlockProof, i: nat, pos: int, h: nat, newTag: nat)
    requires WellFormed(s) && 1 <= h <= MAX_HEIGHT && i <= |s|
    requires bp.target == Elem(s, i) && bp.targetRightVal == RightValue(s, i)
    requires Trace(bp.steps) == Trace(PathSteps(s, 0, i)) && Before(i) == RightRanks(bp.steps) - Slack(bp.steps)
    ensures BasisAfterInsert(bp, pos, h, Tag(newTag)) == Basis(Insert(s, i + 1, Block(newTag, h)))
            <==> Placed(bp.steps, h) && (h == 1 || pos == i + 1)
  {
    hide LabelAt, Next, PathSteps, InsertFold, Trace, RightRanks, Slack, Placed;
    var honest := InsertionPointAt(s, i + 1);
    HonestStaircase(s, 0, i);
    StaircasePlaced(honest.steps, h);
    StaircasePlains(honest.steps, 0);
    PlainsInTrace(bp.steps);
    PlainsInTrace(honest.steps);
    BasisAfterInsertCorrect(s, i + 1, Block(newTag, h), false);
    if Placed(bp.steps, h) && (h == 1 || pos == i + 1) {
      SameTraceSameInsert(bp, honest, pos, i + 1, h, Tag(newTag));
    } else if BasisAfterInsert(bp, pos, h, Tag(newTag)) == Basis(Insert(s, i + 1, Block(newTag, h))) {
      InsertWellFormed(s, i + 1, Block(newTag, h));
      OnlyPlaced(s, bp, i, pos, h, newTag);
    }
  }

  lemma {:induction false} OnlyPlaced(s: seq<Block>, bp: BlockProof, i: nat, pos: int, h: nat, newTag: nat)
    requires WellFormed(s) && 1 <= h <= MAX_HEIGHT && i <= |s| && PlainsAbove(bp.steps)
    requires bp.target == Elem(s, i) && bp.targetRightVal == RightValue(s, i)
    requires Trace(bp.steps) == Trace(PathSteps(s, 0, i)) && Before(i) == RightRanks(bp.steps) - Slack(bp.steps)
    requires WellFormed(Insert(s, i + 1, Block(newTag, h)))
    requires BasisAfterInsert(bp, pos, h, Tag(newTag)) == Basis(Insert(s, i + 1, Block(newTag, h)))
    ensures Placed(bp.steps, h) && (h == 1 || pos == i + 1)
  {
    hide LabelAt, Next, PathSteps, InsertFold, FoldSteps, Trace, RightRanks, Slack, PassedAt, Turns, TurnedChain, Chain;
    hide RightValue, Insert, Low, TurnRank, Core;
    var honest := InsertionPointAt(s, i + 1);
    var s' := Insert(s, i + 1, Block(newTag, h));
    var st := InsertStart(bp, h, Tag(newTag));
    if h == 1 {
      var l, k := NoTurnAtZero(s', bp.steps, bp.steps, pos, st);
    } else {
      BasisAfterInsertCorrect(s, i + 1, Block(newTag, h), false);
      PathCountsPosition(s, 0, i);
      HonestSlack(s, 0, i);
      ChainFolds(bp.steps, bp.steps, pos, h, st);
      ChainFolds(honest.steps, honest.steps, i + 1, h, st);
      SameNodeSameTrace(s', st.gamma, Chain(bp.steps, bp.steps, pos, h, st.newNode),
                        Chain(honest.steps, honest.steps, i + 1, h, st.newNode));
      LowInTrace(bp.steps, h - 1);
      LowInTrace(honest.steps, h - 1);
      HonestStaircase(s, 0, i);
      StaircasePlaced(honest.steps, h);
      TurnsIff(honest.steps, honest.steps, i + 1, h, st.newNode);
      TurnsIff(bp.steps, bp.steps, pos, h, st.newNode);
      SameTraceSameCore(bp.steps, honest.steps, h - 1);
      PassedAtCore(bp.steps, h - 1, h - 1);
      PassedAtCore(honest.steps, h - 1, h - 1);
    }
  }

  /** Soundness of insert against any server, exactly. What is accepted is the insertion at the claimed position less
      the slack if and only if the steps are placed for the tower and a block above level 0 comes without slack. A
      tower above the top level, and one with slack in a proof that leaves no level out, yields the basis of no list.
      */
  lemma {:induction false} InsertSound(s: seq<Block>, pos: int, height: int, newTag: nat, result: UpdateResult)
    returns (at: nat)
    requires WellFormed(s) && InsertVerdict(Basis(s), pos, height, newTag, result).Accept?
    ensures 1 <= at <= |s| + 1 && height >= 1 && pos == at + Slack(result.proof.steps)
    ensures var basis := InsertVerdict(Basis(s), pos, height, newTag, result).basis; var steps := result.proof.steps;
            && (height <= MAX_HEIGHT ==>
                  (basis == Basis(Insert(s, at, Block(newTag, height)))
                   <==> Placed(steps, height) && (height == 1 || Slack(steps) == 0)))
            && (height > MAX_HEIGHT ==> !IsBasis(basis))
            && (Staircase(steps, 0) && height >= 2 && Slack(steps) != 0 ==> !IsBasis(basis))
  {
    hide LabelAt, Next, PathSteps, FoldSteps, InsertFold, RightRanks, Slack, Trace, Placed, TopChain;
    var bp := result.proof;
    var i := AcceptedGapPosition(s, pos, bp);
    at := i + 1;
    var basis := InsertVerdict(Basis(s), pos, height, newTag, result).basis;
    if height > MAX_HEIGHT {
      NoListSoTall(bp, pos, height, Tag(newTag));
    } else {
      ElemRank(s, i);
      GapBefore(s, i);
      InsertExact(s, bp, i, pos, height, newTag);
      if Staircase(bp.steps, 0) && height >= 2 && Slack(bp.steps) != 0 && IsBasis(basis) {
        var s' :| WellFormed(s') && Basis(s') == basis;
        var w := InsertUndone(s', bp, pos, height, Tag(newTag));
        assert false;
      }
    }
  }

  lemma {:induction false} GapBefore(s: seq<Block>, i: nat)
    requires i <= |s|
    ensures Before(i) + Elem(s, i).rank == i
  {
  }

  lemma {:induction false} NoListSoTall(bp: BlockProof, pos: int, h: int, tag: Tag)
    requires h > MAX_HEIGHT
    ensures !IsBasis(BasisAfterInsert(bp, pos, h, tag))
  {
    hide LabelAt, InsertFold, TopChain;
    var st := InsertStart(bp, h, tag);
    assert !TopChain(st.gamma) by { TwoWayNoChain(bp, h, tag); }
    TooTallNoChain(bp.steps, bp.steps, pos, h, st);
    forall s | WellFormed(s) ensures Basis(s) != BasisAfterInsert(bp, pos, h, tag) {
      TopLabelsChain(s, 0);
    }
  }

  /** With its passthrough steps left out, which no hash notices, the gap proof of the empty list is accepted, and the
      derived basis is not that of the list with the new block. */
  lemma {:induction false} MissingStepAccepted(newTag: nat)
    ensures var bp := InsertionPointAt([], 1); var result := UpdateResult(bp.(steps := Trace(bp.steps)), None, None);
            var verdict := InsertVerdict(Basis([]), 1, 2, newTag, result);
            verdict.Accept? && verdict.basis != Basis(Insert([], 1, Block(newTag, 2)))
  {
    hide LabelAt, Next, Prev, PathSteps, FoldSteps, InsertFold, RightRanks, Slack;
    var bp := InsertionPointAt([], 1);
    var cut := bp.(steps := Trace(bp.steps));
    HonestInsertionPointAccepted([], 1);
    FoldOfTrace(Hash2(Raw(bp.target), bp.targetRightVal), bp.steps);
    EmptyTrace(0);
    PathCountsPosition([], 0, 0);
    assert cut.steps == [ProofStep(MAX_HEIGHT - 1, 0, false, false, Null)] && cut.steps[1..] == [];
    RanksUnfold(cut.steps);
    RanksUnfold([]);
    assert !Turns(cut.steps, 1);
    var at := InsertSound([], 1, 2, newTag, UpdateResult(cut, None, None));
  }

  lemma {:induction false} EmptyTrace(l: nat)
    requires l + 1 < MAX_HEIGHT
    ensures Trace(PathSteps([], l, 0)) == [ProofStep(MAX_HEIGHT - 1, 0, false, false, Null)]
    decreases MAX_HEIGHT - l
  {
    hide LabelAt, Next, Prev, PathSteps;
    PathUnfold([], l, 0);
    NextIs([], l + 1, 0, 1);
    assert ([DownStep([], l + 1, 0)] + PathSteps([], l + 1, 0))[1..] == PathSteps([], l + 1, 0);
    if l + 2 < MAX_HEIGHT {
      EmptyTrace(l + 1);
    } else {
      PathUnfold([], l + 1, 0);
      LabelUnfold([], l + 1, 1);
    }
  }
}
