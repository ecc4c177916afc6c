/** What an accepted delete guarantees when the server is not trusted. */
module SkipListDeleteSoundness {
  import opened SkipListLabels
  import opened SkipListProofs
  import opened SkipListUpdates
  import opened SkipListModify
  import opened SkipListProtocol
  import opened SkipListRuns
  import opened SkipListSoundness
  import opened SkipListUpdateSoundness
  import opened SkipListTurns
  import opened SkipListGapSoundness
  import opened Options

  // ------------------------------------------------------------------ hashed steps in climbing order

  /** The hashed steps climb from level l: right steps stay on the level reached, down steps go above it. */
  predicate Climbs(steps: seq<ProofStep>, l: int) {
    && l < MAX_HEIGHT
    && if steps == [] then true
       else if Passthrough(steps[0]) then Climbs(steps[1..], l)
       else if steps[0].right then steps[0].level >= l && Climbs(steps[1..], steps[0].level)
       else steps[0].level > l && Climbs(steps[1..], steps[0].level)
  }

  lemma {:induction false} ClimbsInTrace(steps: seq<ProofStep>, l: int)
    ensures Climbs(Trace(steps), l) == Climbs(steps, l)
  {
    if steps != [] {
      var step, trace := steps[0], Trace(steps[1..]);
      ClimbsInTrace(steps[1..], l);
      ClimbsInTrace(steps[1..], step.level);
      if !Passthrough(step) {
        assert ([Seen(step)] + trace)[1..] == trace;
      }
    }
  }

  lemma {:induction false} StaircaseClimbs(steps: seq<ProofStep>, l: int)
    requires Staircase(steps, l)
    ensures Climbs(steps, l)
  {
    StaircaseLevels(steps, l);
    if steps != [] {
      StaircaseClimbs(steps[1..], if steps[0].right then l else l + 1);
      if Passthrough(steps[0]) {
        ClimbsFrom(steps[1..], l, l + 1);
      }
    }
  }

  lemma {:induction false} ClimbsFrom(steps: seq<ProofStep>, l: int, m: int)
    requires l <= m && Climbs(steps, m)
    ensures Climbs(steps, l)
  {
    if steps != [] && Passthrough(steps[0]) {
      ClimbsFrom(steps[1..], l, m);
    }
  }

  function Pass(level: int): ProofStep {
    ProofStep(level, 0, false, true, Absent)
  }

  /** The hashed steps with passthroughs on exactly the levels they leave out. */
  function Filled(steps: seq<ProofStep>, l: int): seq<ProofStep>
    requires Climbs(steps, l)
    decreases |steps|, MAX_HEIGHT - l
  {
    if steps == [] then if l == MAX_HEIGHT - 1 then [] else [Pass(l + 1)] + Filled([], l + 1)
    else if Passthrough(steps[0]) then Filled(steps[1..], l)
    else if steps[0].right && steps[0].level == l then [steps[0]] + Filled(steps[1..], l)
    else if !steps[0].right && steps[0].level == l + 1 then [steps[0]] + Filled(steps[1..], l + 1)
    else
      assert Climbs(steps[1..], steps[0].level);
      [Pass(l + 1)] + Filled(steps, l + 1)
  }

  lemma {:induction false} FilledClimb(steps: seq<ProofStep>, l: int)
    requires Climbs(steps, l)
    ensures Staircase(Filled(steps, l), l) && Trace(Filled(steps, l)) == Trace(steps)
    ensures RightRanks(Filled(steps, l)) == RightRanks(steps) && Slack(Filled(steps, l)) == Slack(steps)
    decreases |steps|, MAX_HEIGHT - l
  {
    if steps == [] {
      if l < MAX_HEIGHT - 1 {
        FilledClimb([], l + 1);
        FilledStep(Pass(l + 1), Filled([], l + 1));
      }
    } else if Passthrough(steps[0]) {
      FilledClimb(steps[1..], l);
    } else if (steps[0].right && steps[0].level == l) || (!steps[0].right && steps[0].level == l + 1) {
      var m := if steps[0].right then l else l + 1;
      FilledClimb(steps[1..], m);
      FilledStep(steps[0], Filled(steps[1..], m));
    } else {
      FilledClimb(steps, l + 1);
      FilledStep(Pass(l + 1), Filled(steps, l + 1));
    }
  }

  lemma {:induction false} FilledStep(step: ProofStep, rest: seq<ProofStep>)
    ensures ([step] + rest)[1..] == rest
    ensures Trace([step] + rest) == if Passthrough(step) then Trace(rest) else [Seen(step)] + Trace(rest)
    ensures RightRanks([step] + rest) == StepRank(step) + RightRanks(rest)
    ensures Slack([step] + rest) == StepSlack(step) + Slack(rest)
  {
    assert ([step] + rest)[1..] == rest;
  }

  // ------------------------------------------------------------------ delete

  /** The gap proof's hashed steps climb in order and are placed for the height of the block taken out. */
  predicate GapInOrder(gap: BlockProof, height: int) {
    Climbs(gap.steps, 0) && Placed(gap.steps, height)
  }

  lemma {:induction false} ClimbsPlains(steps: seq<ProofStep>, l: int)
    requires Climbs(steps, l) && l >= 0
    ensures PlainsAbove(steps)
  {
    if steps != [] {
      ClimbsPlains(steps[1..], if Passthrough(steps[0]) then l else steps[0].level);
    }
  }

  /** InsertUndone for proofs that leave harmless levels out. */
  lemma {:induction false} InOrderUndone(s: seq<Block>, gap: BlockProof, pos: int, h: int, tag: Tag) returns (w: nat)
    requires WellFormed(s) && h >= 1 && GapInOrder(gap, h) && BasisAfterInsert(gap, pos, h, tag) == Basis(s)
    ensures 1 <= w <= |s| && w == GapPosition(gap) && (h >= 2 ==> w == pos)
    ensures s[w - 1].height == h && Tag(s[w - 1].tag) == tag
    ensures FoldProof(gap) == Basis(Delete(s, w))
  {
    hide LabelAt, InsertFold, FoldSteps, RightRanks, Slack, Trace, Placed, Climbs, Delete;
    if h > MAX_HEIGHT {
      NoListSoTall(gap, pos, h, tag);
      assert false;
    }
    var full := gap.(steps := Filled(gap.steps, 0));
    FilledClimb(gap.steps, 0);
    StaircasePlaced(full.steps, h);
    ClimbsPlains(gap.steps, 0);
    SameTraceSameInsert(gap, full, pos, pos, h, tag);
    w := InsertUndone(s, full, pos, h, tag);
    FoldOfTrace(Hash2(Raw(gap.target), gap.targetRightVal), gap.steps);
    FoldOfTrace(Hash2(Raw(gap.target), gap.targetRightVal), full.steps);
  }

  /** The verdict is that of a list without one block, the block next to the gap of the proof, of the height named and
      with the tag shown. */
  ghost predicate DeletesAtGap(s: seq<Block>, height: int, result: UpdateResult, basis: Label)
    requires result.postProof.Some?
  {
    var w := GapPosition(result.postProof.value);
    && 1 <= w <= |s| && s[w - 1].height == height && result.proof.target == ZeroEntry(1, Tag(s[w - 1].tag))
    && basis == Basis(Delete(s, w))
  }

  /** Soundness of delete against any server, exactly. What is accepted removes the block next to the gap of the
      proof, one with the height named and the tag shown, if and only if the hashed steps of the gap proof climb in
      order and are placed for that height. Then a tower is the one at the claimed position; for a plateau block the
      code never compares the two positions, and the basis is the right one if and only if the lists without the two
      blocks are equal. */
  lemma {:induction false} DeleteSound(s: seq<Block>, pos: int, height: int, result: UpdateResult)
    requires WellFormed(s) && DeleteVerdict(Basis(s), pos, height, result).Accept?
    ensures result.postProof.Some? && 1 <= height <= MAX_HEIGHT
    ensures var basis, gap := DeleteVerdict(Basis(s), pos, height, result).basis, result.postProof.value;
            && (DeletesAtGap(s, height, result, basis) <==> GapInOrder(gap, height))
            && (GapInOrder(gap, height) && height >= 2 ==> GapPosition(gap) == pos)
            && (GapInOrder(gap, height) && 1 <= pos <= |s| ==>
                  (basis == Basis(Delete(s, pos)) <==> Delete(s, pos) == Delete(s, GapPosition(gap))))
  {
    hide LabelAt, Next, PathSteps, FoldSteps, InsertFold, RightRanks, Slack, Trace, Placed, Climbs;
    var gap, tag := result.postProof.value, result.proof.target.tag;
    var i := AcceptedPosition(s, pos, result.proof);
    if height > MAX_HEIGHT {
      NoListSoTall(gap, pos, height, tag);
      assert false;
    }
    if GapInOrder(gap, height) {
      var w := InOrderUndone(s, gap, pos, height, tag);
      DeleteThenInsert(s, w);
      if 1 <= pos <= |s| {
        DeleteThenInsert(s, pos);
        BasisDeterminesList(Delete(s, pos), Delete(s, w));
      }
    } else if DeletesAtGap(s, height, result, FoldProof(gap)) {
      OnlyInOrder(s, pos, height, gap, tag);
    }
  }

  lemma {:induction false} OnlyInOrder(s: seq<Block>, pos: int, height: int, gap: BlockProof, tag: Tag)
    requires WellFormed(s) && 1 <= height <= MAX_HEIGHT && 1 <= GapPosition(gap) <= |s|
    requires var b := s[GapPosition(gap) - 1]; b.height == height && tag == Tag(b.tag)
    requires BasisAfterInsert(gap, pos, height, tag) == Basis(s)
    requires FoldProof(gap) == Basis(Delete(s, GapPosition(gap)))
    ensures GapInOrder(gap, height)
  {
    hide LabelAt, Next, PathSteps, FoldSteps, InsertFold, RightRanks, Slack, Trace, Placed, Climbs, RightValue;
    var w := GapPosition(gap);
    var t := Delete(s, w);
    DeleteThenInsert(s, w);
    var i := FoldedTarget(t, gap);
    GapBefore(t, i);
    InsertExact(t, gap, i, pos, height, s[w - 1].tag);
    HonestStaircase(t, 0, i);
    StaircaseClimbs(PathSteps(t, 0, i), 0);
    ClimbsInTrace(PathSteps(t, 0, i), 0);
    ClimbsInTrace(gap.steps, 0);
  }

  /** The code accepts the gap of any plateau block with the same tag in place of the deleted one's. */
  lemma {:induction false} TwinDeleted(s: seq<Block>, pos: nat, at: nat)
    requires WellFormed(s) && 1 <= pos <= |s| && 1 <= at <= |s| && s[pos - 1] == s[at - 1] && s[at - 1].height == 1
    ensures WellFormed(Delete(s, at))
    ensures var result := UpdateResult(BlockProofAt(s, pos), None, Some(InsertionPointAt(Delete(s, at), at)));
            DeleteVerdict(Basis(s), pos, 1, result) == Accept(Basis(Delete(s, at)))
  {
    hide LabelAt, Next, PathSteps, FoldSteps, InsertFold, Slack, RightRanks;
    DeleteThenInsert(s, at);
    var t := Delete(s, at);
    var gap := InsertionPointAt(t, at);
    HonestPathAccepted(s, pos);
    HonestStaircase(t, 0, at - 1);
    StaircasePlaced(gap.steps, 1);
    PathCountsPosition(t, 0, at - 1);
    HonestSlack(t, 0, at - 1);
    InsertExact(t, gap, at - 1, pos, 1, s[pos - 1].tag);
    PathProofComplete(t, at - 1, false);
  }

  /** Deleting the last of three blocks, with its twin in front: the client ends with the basis of another file. */
  lemma {:induction false} WrongTwinAccepted(a: nat, b: nat)
    requires a != b
    ensures var s := [Block(a, 1), Block(b, 1), Block(a, 1)];
            var result := UpdateResult(BlockProofAt(s, 3), None, Some(InsertionPointAt(Delete(s, 1), 1)));
            var verdict := DeleteVerdict(Basis(s), 3, 1, result);
            verdict.Accept? && verdict.basis != Basis(Delete(s, 3))
  {
    hide LabelAt, Next, PathSteps, FoldSteps, InsertFold, DeleteVerdict;
    var s := [Block(a, 1), Block(b, 1), Block(a, 1)];
    TwinDeleted(s, 3, 1);
    assert Delete(s, 1)[0] == Block(b, 1) && Delete(s, 3)[0] == Block(a, 1);
    BasisDeterminesList(Delete(s, 1), Delete(s, 3));
  }

  /** The gap proof with its first two steps exchanged. */
  function Exchanged(bp: BlockProof): BlockProof
    requires |bp.steps| >= 2
  {
    bp.(steps := [bp.steps[1], bp.steps[0]] + bp.steps[2..])
  }

  /** The insert fold does not see the order of a hashed down step below the new tower's top and a right step. */
  lemma {:induction false} ExchangeUnseen(bp: BlockProof, pos: int, h: int, tag: Tag)
    requires |bp.steps| >= 2 && !bp.steps[0].right && !bp.steps[0].towerPassthrough && bp.steps[1].right
    requires 0 < bp.steps[0].level < h - 1
    ensures BasisAfterInsert(Exchanged(bp), pos, h, tag) == BasisAfterInsert(bp, pos, h, tag)
  {
    var a, b, rest := bp.steps, Exchanged(bp).steps, bp.steps[2..];
    var down, right, st := a[0], a[1], InsertStart(bp, h, tag);
    assert a == [down] + ([right] + rest) && b == [right] + ([down] + rest);
    forall l ensures PassedAt(a, l) == PassedAt(b, l) {
      PassedFirst(down, [right] + rest, l);
      PassedFirst(right, rest, l);
      PassedFirst(right, [down] + rest, l);
      PassedFirst(down, rest, l);
    }
    InsertFirst(a, down, [right] + rest, pos, h, st);
    InsertFirst(a, right, rest, pos, h, InsertStep(a, pos, h, st, down));
    InsertFirst(b, right, [down] + rest, pos, h, st);
    InsertFirst(b, down, rest, pos, h, InsertStep(b, pos, h, st, right));
    SamePassed(a, b, rest, pos, h, InsertStep(a, pos, h, InsertStep(a, pos, h, st, down), right));
  }

  lemma {:induction false} PassedFirst(step: ProofStep, rest: seq<ProofStep>, l: int)
    ensures PassedAt([step] + rest, l) == (if step.right && step.level >= l then step.rank else 0) + PassedAt(rest, l)
  {
    assert ([step] + rest)[1..] == rest;
  }

  lemma {:induction false} InsertFirst(all: seq<ProofStep>, step: ProofStep, rest: seq<ProofStep>, pos: int, h: int,
                                       st: InsertState)
    ensures InsertFold(all, [step] + rest, pos, h, st)
            == InsertFold(all, rest, pos, h, InsertStep(all, pos, h, st, step))
  {
    assert ([step] + rest)[1..] == rest;
  }

  lemma {:induction false} SamePassed(a: seq<ProofStep>, b: seq<ProofStep>, rest: seq<ProofStep>, pos: int, h: int,
                                      st: InsertState)
    requires forall l :: PassedAt(a, l) == PassedAt(b, l)
    ensures InsertFold(a, rest, pos, h, st) == InsertFold(b, rest, pos, h, st)
    decreases rest
  {
    hide PassedAt;
    if rest != [] {
      assert PassedAt(a, rest[0].level) == PassedAt(b, rest[0].level);
      SamePassed(a, b, rest[1..], pos, h, InsertStep(a, pos, h, st, rest[0]));
    }
  }

  /** Deleting the middle block of three, a tower between two of height 2: with the first two steps of the gap proof
      exchanged the delete is accepted, and the derived basis is not that of the shorter list. */
  lemma {:induction false} ExchangedStepsAccepted(a: nat, b: nat, c: nat)
    ensures var s := [Block(a, 2), Block(b, 3), Block(c, 2)]; var gap := InsertionPointAt(Delete(s, 2), 2);
            && |gap.steps| >= 2
            && var result := UpdateResult(BlockProofAt(s, 2), None, Some(Exchanged(gap)));
            var verdict := DeleteVerdict(Basis(s), 2, 3, result);
            && verdict.Accept? && verdict.basis != Basis(Delete(s, 2))
  {
    hide LabelAt, Next, Prev, PathSteps, FoldSteps, InsertFold, Placed;
    var s := [Block(a, 2), Block(b, 3), Block(c, 2)];
    var t := Delete(s, 2);
    assert t == [Block(a, 2), Block(c, 2)];
    var gap := InsertionPointAt(t, 2);
    FirstStepsOfGap(t);
    HonestPathAccepted(s, 2);
    ReinsertMatchesHeight(s, 2, 3);
    ExchangeUnseen(gap, 2, 3, Tag(b));
    var swapped := Exchanged(gap);
    var result := UpdateResult(BlockProofAt(s, 2), None, Some(swapped));
    ExchangedPosition(gap);
    assert !Climbs(swapped.steps, 0) by { ExchangedFalls(gap); }
    PathCountsPosition(t, 0, 1);
    HonestSlack(t, 0, 1);
    assert GapPosition(swapped) == 2;
    assert DeleteVerdict(Basis(s), 2, 3, result).Accept?;
    DeleteSound(s, 2, 3, result);
  }

  lemma {:induction false} ExchangedFalls(gap: BlockProof)
    requires |gap.steps| >= 2 && gap.steps[0].level == gap.steps[1].level && gap.steps[1].right
    requires !gap.steps[0].right && !gap.steps[0].towerPassthrough
    ensures !Climbs(Exchanged(gap).steps, 0)
  {
    var a, b, rest := gap.steps[0], gap.steps[1], gap.steps[2..];
    assert Exchanged(gap).steps == [b] + ([a] + rest);
    assert ([b] + ([a] + rest))[1..] == [a] + rest;
    assert !Climbs([a] + rest, b.level);
  }

  lemma {:induction false} ExchangedPosition(gap: BlockProof)
    requires |gap.steps| >= 2
    ensures GapPosition(Exchanged(gap)) == GapPosition(gap)
  {
    var a, b, rest := gap.steps[0], gap.steps[1], gap.steps[2..];
    assert gap.steps == [a] + ([b] + rest) && Exchanged(gap).steps == [b] + ([a] + rest);
    FilledStep(a, [b] + rest);
    FilledStep(b, rest);
    FilledStep(b, [a] + rest);
    FilledStep(a, rest);
  }

  /** In a list of two blocks of height 2 the path of the first goes down past the second, then right from the start. */
  lemma {:induction false} FirstStepsOfGap(t: seq<Block>)
    requires |t| == 2 && t[0].height == 2 && t[1].height == 2
    ensures var steps := PathSteps(t, 0, 1);
            && |steps| >= 2 && steps[0].level == 1 && !steps[0].right && !steps[0].towerPassthrough
            && steps[1].level == 1 && steps[1].right
  {
    hide LabelAt, Next, Prev, PathSteps;
    PathUnfold(t, 0, 1);
    PathUnfold(t, 1, 1);
    NextIs(t, 1, 1, 2);
  }
}
