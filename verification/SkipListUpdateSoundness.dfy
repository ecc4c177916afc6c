/** What an accepted modify guarantees when the server is not trusted. */
module SkipListUpdateSoundness {
  import opened SkipListLabels
  import opened SkipListProofs
  import opened SkipListUpdates
  import opened SkipListModify
  import opened SkipListProtocol
  import opened SkipListRuns
  import opened SkipListSoundness
  import opened Options

  // ------------------------------------------------------------------ the folds depend on the trace only

  lemma {:induction false} FoldOfTrace(gamma: Label, steps: seq<ProofStep>)
    ensures FoldSteps(gamma, Trace(steps)) == FoldSteps(gamma, steps)
    ensures FoldOwnTower(gamma, Trace(steps)) == FoldOwnTower(gamma, steps)
    decreases steps
  {
    if steps != [] {
      var step, trace := steps[0], Trace(steps[1..]);
      if Passthrough(step) {
        FoldOfTrace(gamma, steps[1..]);
      } else {
        assert ([Seen(step)] + trace)[1..] == trace;
        FoldOfTrace(FoldStep(gamma, step), steps[1..]);
        if !step.right {
          FoldOfTrace(Hash4(step.level, step.rank, gamma, step.sibLabel), steps[1..]);
        }
      }
    }
  }

  /** The first plain down step gets a new sibling. */
  function Swapped(steps: seq<ProofStep>, sib: Label): seq<ProofStep> {
    var idx := FirstPlainDown(steps);
    if idx == |steps| then steps else steps[idx := steps[idx].(sibLabel := sib)]
  }

  lemma {:induction false} TraceStep(step: ProofStep, rest: seq<ProofStep>)
    ensures Trace([step] + rest) == if Passthrough(step) then Trace(rest) else [Seen(step)] + Trace(rest)
  {
    assert ([step] + rest)[1..] == rest;
  }

  lemma {:induction false} SwapStep(step: ProofStep, rest: seq<ProofStep>, sib: Label)
    ensures Swapped([step] + rest, sib) == if !step.right && !step.towerPassthrough then [step.(sibLabel := sib)] + rest
                                           else [step] + Swapped(rest, sib)
  {
    assert ([step] + rest)[1..] == rest;
  }

  lemma {:induction false} SwapNothing(sib: Label)
    ensures Swapped([], sib) == [] && Trace([]) == []
  {
  }

  lemma {:induction false} SwapInTrace(steps: seq<ProofStep>, sib: Label)
    ensures Trace(Swapped(steps, sib)) == Swapped(Trace(steps), sib)
  {
    hide Swapped, Trace;
    SwapNothing(sib);
    if steps != [] {
      var step, rest := steps[0], steps[1..];
      assert steps == [step] + rest;
      SwapInTrace(rest, sib);
      TraceStep(step, rest);
      SwapStep(step, rest, sib);
      TraceStep(step, Swapped(rest, sib));
      TraceStep(step.(sibLabel := sib), rest);
      SwapStep(Seen(step), Trace(rest), sib);
    }
  }

  lemma {:induction false} FirstPlainInTrace(steps: seq<ProofStep>)
    ensures var idx, trace := FirstPlainDown(steps), Trace(steps); var idx' := FirstPlainDown(trace);
            && (idx == |steps| <==> idx' == |trace|)
            && (idx < |steps| ==> steps[idx].sibLabel == trace[idx'].sibLabel)
  {
    if steps != [] {
      FirstPlainInTrace(steps[1..]);
      if !Passthrough(steps[0]) {
        assert ([Seen(steps[0])] + Trace(steps[1..]))[1..] == Trace(steps[1..]);
      }
    }
  }

  // ------------------------------------------------------------------ climbing level by level

  /** The steps climb from level l to the top: right steps stay on their level, down steps come from the next one. */
  predicate Staircase(steps: seq<ProofStep>, l: int) {
    if steps == [] then l == MAX_HEIGHT - 1
    else if steps[0].right then steps[0].level == l && Staircase(steps[1..], l)
    else steps[0].level == l + 1 && Staircase(steps[1..], l + 1)
  }

  lemma {:induction false} HonestStaircase(s: seq<Block>, l: nat, i: nat)
    requires i <= |s| && l < Height(s, i) && l < MAX_HEIGHT
    ensures Staircase(PathSteps(s, l, i), l)
    decreases MAX_HEIGHT - l, i
  {
    hide LabelAt, Next, Prev, PathSteps;
    PathUnfold(s, l, i);
    if l + 1 < MAX_HEIGHT && Tower(s, l, i) {
      HonestStaircase(s, l + 1, i);
    } else if i > 0 {
      NeighboursInverse(s, l, i);
      HonestStaircase(s, l, Prev(s, l, i));
    }
  }

  lemma {:induction false} StaircaseLevels(steps: seq<ProofStep>, l: int)
    requires Staircase(steps, l)
    ensures l < MAX_HEIGHT
    ensures forall k | 0 <= k < |steps| :: l <= steps[k].level < MAX_HEIGHT
    ensures forall k | 0 <= k < |steps| && !steps[k].right :: l < steps[k].level
    ensures forall k | 0 <= k < |Trace(steps)| ::
              l <= Trace(steps)[k].level && (!Trace(steps)[k].right ==> l < Trace(steps)[k].level)
    ensures l >= 1 ==> Slack(steps) == 0
  {
    if steps != [] {
      StaircaseLevels(steps[1..], if steps[0].right then l else l + 1);
    }
  }

  lemma {:induction false} FirstHashed(a: seq<ProofStep>, l: int)
    requires a != [] && Staircase(a, l)
    ensures l < MAX_HEIGHT && (!a[0].right ==> l + 1 < MAX_HEIGHT)
    ensures !Passthrough(a[0]) ==> Trace(a) == [Seen(a[0])] + Trace(a[1..])
    ensures Passthrough(a[0]) ==>
              && Trace(a) == Trace(a[1..])
              && (Trace(a) != [] ==> l < Trace(a)[0].level && (!Trace(a)[0].right ==> l + 1 < Trace(a)[0].level))
  {
    StaircaseLevels(a, l);
    StaircaseLevels(a[1..], if a[0].right then l else l + 1);
  }

  /** The levels leave no choice where the passthroughs stand: two climbs with one trace look the same. */
  lemma {:induction false} SameTraceSameClimb(a: seq<ProofStep>, b: seq<ProofStep>, l: int)
    requires Staircase(a, l) && Staircase(b, l) && Trace(a) == Trace(b)
    ensures AllSeen(a) == AllSeen(b)
    decreases |a| + |b|
  {
    hide Trace;
    SwapNothing(Null);
    if a != [] && b != [] {
      FirstHashed(a, l);
      FirstHashed(b, l);
      if !Passthrough(a[0]) && !Passthrough(b[0]) {
        assert Trace(a)[1..] == Trace(a[1..]) && Trace(b)[1..] == Trace(b[1..]);
      }
      SameTraceSameClimb(a[1..], b[1..], if a[0].right then l else l + 1);
    } else if a != [] {
      FirstHashed(a, l);
    } else if b != [] {
      FirstHashed(b, l);
    }
  }

  // ------------------------------------------------------------------ modify

  /** Some step goes right at level 0: the target is not the foot of a tower. */
  predicate BottomHop(steps: seq<ProofStep>) {
    steps != [] && ((steps[0].right && steps[0].level == 0) || BottomHop(steps[1..]))
  }

  lemma {:induction false} BottomHopInTrace(steps: seq<ProofStep>)
    ensures BottomHop(Trace(steps)) == BottomHop(steps)
  {
    if steps != [] {
      BottomHopInTrace(steps[1..]);
      if !Passthrough(steps[0]) {
        assert ([Seen(steps[0])] + Trace(steps[1..]))[1..] == Trace(steps[1..]);
      }
    }
  }

  lemma {:induction false} NoHopAbove(steps: seq<ProofStep>)
    requires forall k | 0 <= k < |steps| :: steps[k].level >= 1
    ensures !BottomHop(steps)
  {
    if steps != [] {
      NoHopAbove(steps[1..]);
    }
  }

  lemma {:induction false} HonestBottomHop(s: seq<Block>, pos: nat)
    requires WellFormed(s) && 1 <= pos <= |s|
    ensures BottomHop(PathSteps(s, 0, pos)) <==> !Tower(s, 0, pos)
  {
    hide LabelAt, Next, Prev, PathSteps;
    PathUnfold(s, 0, pos);
    if Tower(s, 0, pos) {
      PathCountsPosition(s, 1, pos);
      NoHopAbove(PathSteps(s, 1, pos));
      assert PathSteps(s, 0, pos)[1..] == PathSteps(s, 1, pos);
    }
  }

  /** With the flag down the result is the fold of the honest path over the new entry. */
  function PlateauResult(s: seq<Block>, i: nat, newTag: nat): Label
    requires WellFormed(s) && 1 <= i <= |s|
  {
    FoldSteps(Hash2(Raw(ZeroEntry(1, Tag(newTag))), RightValue(s, i)), PathSteps(s, 0, i))
  }

  /** The label with the entry of its lowest node replaced. */
  function WithEntry(g: Label, entry: ZeroEntry): Label {
    match g
    case Hash2(_, right) => Hash2(Raw(entry), right)
    case Hash4(level, rank, down, right) => Hash4(level, rank, WithEntry(down, entry), right)
    case _ => g
  }

  lemma {:induction false} OwnTowerWithEntry(gamma: Label, steps: seq<ProofStep>, entry: ZeroEntry)
    ensures FoldOwnTower(WithEntry(gamma, entry), steps) == WithEntry(FoldOwnTower(gamma, steps), entry)
    decreases steps
  {
    if steps != [] && !steps[0].right {
      var next := if steps[0].towerPassthrough then gamma
                  else Hash4(steps[0].level, steps[0].rank, gamma, steps[0].sibLabel);
      OwnTowerWithEntry(next, steps[1..], entry);
    }
  }

  /** With the flag up everything is decided by the left proof: the block changed is the one right of its gap. */
  lemma {:induction false} TowerFlagResult(s: seq<Block>, pos: int, newTag: nat, result: UpdateResult) returns (i: nat)
    requires WellFormed(s) && result.proof.targetIsTower
    requires ModifyVerdict(Basis(s), pos, newTag, result).Accept?
    ensures 1 <= i <= |s| && result.leftProof.Some? && pos == i + Slack(result.leftProof.value.steps)
    ensures result.proof.target == ZeroEntry(1, Tag(s[i - 1].tag))
    ensures ModifyVerdict(Basis(s), pos, newTag, result) == Accept(Basis(Modify(s, i, newTag)))
  {
    hide LabelAt, Next, PathSteps, FoldSteps, FoldOwnTower, FirstPlainDown, RightRanks, Slack, Trace, Modify;
    var left := result.leftProof.value;
    var j := AcceptedGapPosition(s, pos, left);
    i := j + 1;
    NextIs(s, 0, j, i);
    LabelShape(s, 0, i);
    var honest := UpdateResult(BlockProofAt(s, i), Some(InsertionPointAt(s, i)), None);
    var honestLeft := InsertionPointAt(s, i);
    var newTarget := ZeroEntry(1, Tag(newTag));
    var gamma := Hash2(Raw(left.target), Raw(newTarget));
    TowerModify(s, i, newTag, honest);
    OwnTowerTops(s, i, newTag);
    LeftPathSwap(s, i, newTag, 0, j);
    FirstPlainInTrace(left.steps);
    FirstPlainInTrace(honestLeft.steps);
    assert OwnTower(result.proof, result.proof.target) == OwnTower(honest.proof, honest.proof.target);
    OwnTowerWithEntry(Hash2(Raw(result.proof.target), result.proof.targetRightVal), result.proof.steps, newTarget);
    OwnTowerWithEntry(Hash2(Raw(honest.proof.target), honest.proof.targetRightVal), honest.proof.steps, newTarget);
    var top := OwnTower(result.proof, newTarget);
    assert top == OwnTower(honest.proof, newTarget);
    SwapInTrace(left.steps, top);
    SwapInTrace(honestLeft.steps, top);
    FoldOfTrace(gamma, Swapped(left.steps, top));
    FoldOfTrace(gamma, Swapped(honestLeft.steps, top));
    assert ModifyVerdict(Basis(s), pos, newTag, result) == Accept(FoldSteps(gamma, Swapped(left.steps, top)));
    assert ModifyVerdict(Basis(s), i, newTag, honest) == Accept(FoldSteps(gamma, Swapped(honestLeft.steps, top)));
  }

  /** The path of a tower's foot climbs the tower first, then goes right from the top level's left neighbour. */
  lemma {:induction false} TowerThenRight(s: seq<Block>, l: nat, i: nat)
    requires WellFormed(s) && 1 <= i <= |s| && l < Height(s, i)
    ensures var h := Height(s, i); var steps := PathSteps(s, l, i);
            h - 1 - l < |steps| && steps[h - 1 - l] == RightStep(s, h - 1, Prev(s, h - 1, i))
    decreases MAX_HEIGHT - l
  {
    hide LabelAt, Next, Prev, PathSteps;
    PathUnfold(s, l, i);
    if l + 1 < Height(s, i) {
      TowerThenRight(s, l + 1, i);
    }
  }

  lemma {:induction false} SeenAt(steps: seq<ProofStep>, k: nat)
    requires k < |steps|
    ensures k < |AllSeen(steps)| && AllSeen(steps)[k] == Seen(steps[k])
  {
    if k > 0 {
      SeenAt(steps[1..], k - 1);
    }
  }

  /** A tower's entry also enters the labels left of it, so the plateau fold over a new tag is nobody's basis there. */
  lemma {:induction false} PlateauFoldOnTower(s: seq<Block>, i: nat, newTag: nat)
    requires WellFormed(s) && 1 <= i <= |s| && Tower(s, 0, i)
    requires PlateauResult(s, i, newTag) == Basis(Modify(s, i, newTag))
    ensures newTag == s[i - 1].tag
  {
    hide LabelAt, Next, Prev, PathSteps, FoldSteps, Modify, Trace, AllSeen;
    var s' := Modify(s, i, newTag);
    ModifySpans(s, i, newTag);
    var bp := BlockProof(ZeroEntry(1, Tag(newTag)), RightValue(s, i), false, PathSteps(s, 0, i));
    HonestSlack(s, 0, i);
    PathCountsPosition(s, 0, i);
    var i' := AcceptedPosition(s', i, bp);
    HonestStaircase(s, 0, i);
    HonestStaircase(s', 0, i);
    SameTraceSameClimb(PathSteps(s, 0, i), PathSteps(s', 0, i), 0);
    var h := Height(s, i);
    TowerThenRight(s, 0, i);
    TowerThenRight(s', 0, i);
    SeenAt(PathSteps(s, 0, i), h - 1);
    SeenAt(PathSteps(s', 0, i), h - 1);
    ModifyNeighbours(s, i, newTag, h - 1, i);
    var u := Prev(s, h - 1, i);
    NeighboursInverse(s, h - 1, i);
    var hi := LabelDeterminesSpan(s, s', h - 2, u);
    assert Elem(s, i) == Elem(s', i);
    assert s'[i - 1].tag == newTag by { ModifiedTag(s, i, newTag); }
  }

  lemma {:induction false} ModifiedTag(s: seq<Block>, i: nat, newTag: nat)
    requires 1 <= i <= |s|
    ensures |Modify(s, i, newTag)| == |s| && Modify(s, i, newTag)[i - 1].tag == newTag
    ensures newTag == s[i - 1].tag ==> Modify(s, i, newTag) == s
  {
  }

  lemma {:induction false} PlateauFlagResult(s: seq<Block>, i: nat, newTag: nat)
    requires WellFormed(s) && 1 <= i <= |s|
    ensures PlateauResult(s, i, newTag) == Basis(Modify(s, i, newTag)) <==> !Tower(s, 0, i) || newTag == s[i - 1].tag
  {
    hide LabelAt, Next, Prev, PathSteps, FoldSteps, Modify;
    ModifiedTag(s, i, newTag);
    if !Tower(s, 0, i) {
      PlateauPathUnchanged(s, i, newTag);
      ModifySpans(s, i, newTag);
      PathProofComplete(Modify(s, i, newTag), i, false);
    } else if newTag == s[i - 1].tag {
      PathProofComplete(s, i, false);
    } else if PlateauResult(s, i, newTag) == Basis(Modify(s, i, newTag)) {
      PlateauFoldOnTower(s, i, newTag);
    }
  }

  /** The proof that decides which block an accepted modify changes. */
  function DecidingSteps(result: UpdateResult): seq<ProofStep> {
    if result.proof.targetIsTower && result.leftProof.Some? then result.leftProof.value.steps else result.proof.steps
  }

  /** Soundness of modify against any server. What is accepted changes the block at the claimed position less the slack,
      one that carries the tag shown; the derived basis is that of the modified list if and only if the flag says tower,
      or the path goes right at level 0, or the tag does not change. */
  lemma {:induction false} ModifySound(s: seq<Block>, pos: int, newTag: nat, result: UpdateResult) returns (i: nat)
    requires WellFormed(s) && ModifyVerdict(Basis(s), pos, newTag, result).Accept?
    ensures 1 <= i <= |s| && pos == i + Slack(DecidingSteps(result))
    ensures result.proof.target == ZeroEntry(1, Tag(s[i - 1].tag))
    ensures ModifyVerdict(Basis(s), pos, newTag, result) == Accept(Basis(Modify(s, i, newTag)))
            <==> result.proof.targetIsTower || BottomHop(result.proof.steps) || newTag == s[i - 1].tag
  {
    hide LabelAt, Next, PathSteps, FoldSteps, FoldOwnTower, FirstPlainDown, RightRanks, Slack, Trace, Modify;
    if result.proof.targetIsTower {
      i := TowerFlagResult(s, pos, newTag, result);
    } else {
      i := AcceptedPosition(s, pos, result.proof);
      BottomHopInTrace(result.proof.steps);
      BottomHopInTrace(PathSteps(s, 0, i));
      HonestBottomHop(s, i);
      FoldOfTrace(Hash2(Raw(ZeroEntry(1, Tag(newTag))), RightValue(s, i)), result.proof.steps);
      FoldOfTrace(Hash2(Raw(ZeroEntry(1, Tag(newTag))), RightValue(s, i)), PathSteps(s, 0, i));
      assert ModifyVerdict(Basis(s), pos, newTag, result) == Accept(PlateauResult(s, i, newTag));
      PlateauFlagResult(s, i, newTag);
    }
  }

  /** The code believes the flag: with it down, an honest path to a tower is accepted with a wrong basis. */
  lemma {:induction false} WrongFlagAccepted(a: nat, b: nat)
    requires a != b
    ensures var s := [Block(a, 2)]; var bp := BlockProofAt(s, 1).(targetIsTower := false);
            var verdict := ModifyVerdict(Basis(s), 1, b, UpdateResult(bp, None, None));
            verdict.Accept? && verdict.basis != Basis(Modify(s, 1, b))
  {
    hide LabelAt, Next, PathSteps, FoldSteps;
    var s := [Block(a, 2)];
    HonestPathAccepted(s, 1);
    PlateauFlagResult(s, 1, b);
  }
}
