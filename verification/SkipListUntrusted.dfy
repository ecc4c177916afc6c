/** A client against a server it does not trust: checks on what it receives under which every accepted update, and every
    accepted run, is the one it asked for. */
module SkipListUntrusted {
  import opened SkipListLabels
  import opened SkipListProofs
  import opened SkipListUpdates
  import opened SkipListProtocol
  import opened SkipListRuns
  import opened SkipListSoundness
  import opened SkipListUpdateSoundness
  import opened SkipListTurns
  import opened SkipListGapSoundness
  import opened SkipListDeleteSoundness
  import opened Options

  /** What the client can check by itself, beyond what the code checks. */
  predicate Checked(op: UpdateOp, result: UpdateResult) {
    match op.kind
    case OpModify =>
      && (result.proof.targetIsTower || BottomHop(result.proof.steps))
      && Slack(DecidingSteps(result)) == 0
    case OpInsert => Placed(result.proof.steps, op.height) && Slack(result.proof.steps) == 0 && op.height <= MAX_HEIGHT
    case OpDelete =>
      result.postProof.Some? ==>
        GapInOrder(result.postProof.value, op.height) && GapPosition(result.postProof.value) == op.pos
    case OpOther => true
  }

  /** The checks reject nothing that an honest server sends. */
  lemma {:induction false} HonestChecked(s: seq<Block>, op: UpdateOp)
    requires WellFormed(s) && Performable(s, op) && TrueHeight(s, op)
    ensures Checked(op, HonestResult(s, op))
  {
    hide LabelAt, Next, PathSteps, BottomHop, Slack, RightRanks, Placed, Climbs;
    match op.kind
    case OpModify =>
      HonestBottomHop(s, op.pos);
      HonestSlack(s, 0, op.pos);
      HonestSlack(s, 0, op.pos - 1);
    case OpInsert => HonestGapChecked(s, op.pos, op.height);
    case OpDelete =>
      DeleteThenInsert(s, op.pos);
      HonestGapChecked(Delete(s, op.pos), op.pos, op.height);
  }

  lemma {:induction false} HonestGapChecked(s: seq<Block>, pos: nat, h: int)
    requires WellFormed(s) && 1 <= pos <= |s| + 1 && 1 <= h <= MAX_HEIGHT
    ensures var gap := InsertionPointAt(s, pos);
            GapInOrder(gap, h) && GapPosition(gap) == pos && Slack(gap.steps) == 0
  {
    hide LabelAt, Next, PathSteps, Slack, RightRanks, Placed, Climbs;
    HonestStaircase(s, 0, pos - 1);
    StaircaseClimbs(PathSteps(s, 0, pos - 1), 0);
    StaircasePlaced(PathSteps(s, 0, pos - 1), h);
    HonestSlack(s, 0, pos - 1);
    PathCountsPosition(s, 0, pos - 1);
  }

  /** Any update that is accepted after the checks was in range, named the true height, and leaves the client with the
      basis of the updated list. */
  lemma {:induction false} UpdateSound(pk: PublicKey, s: seq<Block>, op: UpdateOp, result: UpdateResult)
    requires ValidKey(pk) && WellFormed(s) && Checked(op, result)
    requires UpdateVerdict(pk, Basis(s), op, result).Accept?
    ensures Performable(s, op) && TrueHeight(s, op)
    ensures UpdateVerdict(pk, Basis(s), op, result) == Accept(Basis(Updated(pk, s, op)))
  {
    hide Basis, ModifyVerdict, InsertVerdict, Modify, Insert, Delete, BottomHop, Slack, Placed, GapInOrder;
    hide FoldProof, BasisAfterInsert, PathAccepted, GapPosition;
    match op.kind
    case OpModify =>
      var i := ModifySound(s, op.pos, BlockTag(pk, op.block), result);
    case OpInsert =>
      var at := InsertSound(s, op.pos, op.height, BlockTag(pk, op.block), result);
    case OpDelete =>
      DeleteSound(s, op.pos, op.height, result);
  }

  predicate AllChecked(ops: seq<UpdateOp>, results: seq<UpdateResult>)
    requires |results| == |ops|
  {
    forall k | 0 <= k < |ops| :: Checked(ops[k], results[k])
  }

  /** Over any run, whatever the server answers: a client that checks and accepts everything ends with the basis of the
      list that all its updates lead to, from true heights throughout. */
  lemma {:induction false} RunSound(pk: PublicKey, s: seq<Block>, ops: seq<UpdateOp>, results: seq<UpdateResult>)
    requires ValidKey(pk) && WellFormed(s) && |results| == |ops| && AllChecked(ops, results)
    requires ClientRun(pk, Basis(s), ops, results).Accept?
    ensures PerformableRun(pk, s, ops)
    ensures ClientRun(pk, Basis(s), ops, results) == Accept(Basis(ServerRun(pk, s, ops)))
    decreases ops
  {
    hide Basis, UpdateVerdict, Updated, Performable, WellFormed, Checked;
    if ops != [] {
      UpdateSound(pk, s, ops[0], results[0]);
      RunSound(pk, Updated(pk, s, ops[0]), ops[1..], results[1..]);
    }
  }

  /** In terms of the file: the basis is that of the list built from scratch for the file with all updates applied. */
  lemma {:induction false} RunSoundForFile(pk: PublicKey, s: seq<Block>, store: seq<nat>, ops: seq<UpdateOp>,
                                           results: seq<UpdateResult>)
    requires ValidKey(pk) && WellFormed(s) && TagsMatch(pk, s, store) && |results| == |ops| && AllChecked(ops, results)
    requires ClientRun(pk, Basis(s), ops, results).Accept?
    ensures var file, heights := StoreRun(store, ops), HeightsRun(HeightsOf(s), ops);
            && |heights| == |file| && (forall i | 0 <= i < |heights| :: 1 <= heights[i] <= MAX_HEIGHT)
            && ClientRun(pk, Basis(s), ops, results) == Accept(Basis(BuiltList(pk, file, heights)))
  {
    hide Basis, ClientRun, BuiltList, Checked;
    RunSound(pk, s, ops, results);
    RunRebuilds(pk, s, store, ops);
  }
}
