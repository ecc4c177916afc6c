/** The client's loops over a proof. Each computes the fold it is named after; VerifyUpdate and Verify reach the
    verdicts whose guarantees are proved on the folds. */
module SkipListClient {
  import opened SkipListLabels
  import opened SkipListProofs
  import opened SkipListUpdates
  import opened SkipListModify
  import opened SkipListProtocol
  import opened ModArith
  import opened Options

  method ReconstructRoot(bp: BlockProof) returns (gamma: Label)
    ensures gamma == FoldProof(bp)
  {
    gamma := Hash2(Raw(bp.target), bp.targetRightVal);
    for k := 0 to |bp.steps|
      invariant FoldSteps(gamma, bp.steps[k..]) == FoldProof(bp)
    {
      var step := bp.steps[k];
      assert bp.steps[k..][1..] == bp.steps[k + 1..];
      if !step.right && step.towerPassthrough {
        continue;
      }
      if step.level == 0 {
        gamma := if step.right then Hash2(step.sibLabel, gamma) else Hash2(gamma, step.sibLabel);
        continue;
      }
      gamma := if step.right then Hash4(step.level, step.rank, step.sibLabel, gamma)
               else Hash4(step.level, step.rank, gamma, step.sibLabel);
    }
  }

  method FoldTargetTower(bp: BlockProof, target: ZeroEntry) returns (gamma: Label)
    ensures gamma == OwnTower(bp, target)
  {
    gamma := Hash2(Raw(target), bp.targetRightVal);
    var k := 0;
    while k < |bp.steps|
      invariant 0 <= k <= |bp.steps|
      invariant FoldOwnTower(gamma, bp.steps[k..]) == OwnTower(bp, target)
    {
      var step := bp.steps[k];
      assert bp.steps[k..][1..] == bp.steps[k + 1..];
      if step.right { break; }
      if !step.towerPassthrough {
        gamma := Hash4(step.level, step.rank, gamma, step.sibLabel);
      }
      k := k + 1;
    }
  }

  /** The target's rank and all right-step ranks together. */
  method ClaimedPosition(bp: BlockProof) returns (position: int)
    ensures position == bp.target.rank + RightRanks(bp.steps)
  {
    position := bp.target.rank;
    for k := 0 to |bp.steps|
      invariant position + RightRanks(bp.steps[k..]) == bp.target.rank + RightRanks(bp.steps)
    {
      assert bp.steps[k..][1..] == bp.steps[k + 1..];
      if bp.steps[k].right {
        position := position + bp.steps[k].rank;
      }
    }
  }

  method VerifyPath(basis: Label, pos: int, bp: BlockProof) returns (ok: bool)
    ensures ok == PathAccepted(basis, pos, bp)
  {
    if bp.target.rank != 1 { return false; }
    var gamma := ReconstructRoot(bp);
    if gamma != basis { return false; }
    var claimed := ClaimedPosition(bp);
    return claimed == pos;
  }

  method VerifyInsertionPoint(basis: Label, pos: int, bp: BlockProof) returns (ok: bool)
    ensures ok == InsertionPointAccepted(basis, pos, bp)
  {
    var gamma := ReconstructRoot(bp);
    if gamma != basis { return false; }
    var claimed := ClaimedPosition(bp);
    return claimed == pos - 1;
  }

  method RanksFrom(steps: seq<ProofStep>, level: int) returns (total: int)
    ensures total == PassedAt(steps, level)
  {
    total := 0;
    for k := 0 to |steps|
      invariant total + PassedAt(steps[k..], level) == PassedAt(steps, level)
    {
      assert steps[k..][1..] == steps[k + 1..];
      if steps[k].right && steps[k].level >= level {
        total := total + steps[k].rank;
      }
    }
  }

  /** Replays the server's rank splitting on the proof alone. */
  method DeriveBasisAfterInsert(proof: BlockProof, pos: int, h: int, tag: Tag) returns (basis: Label)
    ensures basis == BasisAfterInsert(proof, pos, h, tag)
  {
    var newElem := Raw(ZeroEntry(1, tag));
    var newNodeGamma := Hash2(newElem, proof.targetRightVal);
    var gamma := Hash2(Raw(proof.target), if h >= 2 then newElem else newNodeGamma);
    var steps := proof.steps;
    for k := 0 to |steps|
      invariant InsertFold(steps, steps[k..], pos, h, InsertState(gamma, newNodeGamma)).gamma
                == BasisAfterInsert(proof, pos, h, tag)
    {
      var step := steps[k];
      assert steps[k..][1..] == steps[k + 1..];
      if step.right {
        gamma := if step.level == 0 then Hash2(step.sibLabel, gamma)
                 else Hash4(step.level, step.rank, step.sibLabel, gamma);
        continue;
      }
      if step.level >= h {
        if !step.towerPassthrough {
          gamma := Hash4(step.level, step.rank + 1, gamma, step.sibLabel);
        }
        continue;
      }
      var passed := RanksFrom(steps, step.level);
      var before := pos - 1 - passed;
      var after := step.rank - before;
      var newNodeGammaL := newNodeGamma;
      if !step.towerPassthrough {
        newNodeGammaL := Hash4(step.level, 1 + after, newNodeGamma, step.sibLabel);
      }
      if step.level == h - 1 {
        gamma := Hash4(step.level, before, gamma, newNodeGammaL);
      }
      newNodeGamma := newNodeGammaL;
    }
    return gamma;
  }

  method FindPlainDown(steps: seq<ProofStep>) returns (idx: int)
    ensures idx == if FirstPlainDown(steps) < |steps| then FirstPlainDown(steps) else -1
  {
    for k := 0 to |steps|
      invariant FirstPlainDown(steps) == k + FirstPlainDown(steps[k..])
    {
      assert steps[k..][1..] == steps[k + 1..];
      if !steps[k].right && !steps[k].towerPassthrough {
        return k;
      }
    }
    return -1;
  }

  method VerifyModify(oldBasis: Label, pos: int, newTag: nat, result: UpdateResult) returns (v: Verdict)
    ensures v == ModifyVerdict(oldBasis, pos, newTag, result)
  {
    hide FoldSteps, FoldOwnTower, FirstPlainDown, RightRanks;
    var ok := VerifyPath(oldBasis, pos, result.proof);
    if !ok { return Reject; }
    if !result.proof.targetIsTower {
      var basis := ReconstructRoot(result.proof.(target := result.proof.target.(tag := Tag(newTag))));
      return Accept(basis);
    }
    if result.leftProof.None? { return Error; }
    var left := result.leftProof.value;
    ok := VerifyInsertionPoint(oldBasis, pos, left);
    if !ok { return Reject; }
    var newTarget := ZeroEntry(1, Tag(newTag));
    if left.targetRightVal != Raw(result.proof.target) { return Reject; }
    var topOld := FoldTargetTower(result.proof, result.proof.target);
    var topNew := FoldTargetTower(result.proof, newTarget);
    var newLeft := left.(targetRightVal := Raw(newTarget));
    var idx := FindPlainDown(left.steps);
    if idx >= 0 {
      if left.steps[idx].sibLabel != topOld { return Reject; }
      newLeft := newLeft.(steps := left.steps[idx := left.steps[idx].(sibLabel := topNew)]);
    }
    var basis := ReconstructRoot(newLeft);
    return Accept(basis);
  }

  /** The client's whole decision on an update: an error, a rejection, or the basis it derived for itself. */
  method VerifyUpdate(pk: PublicKey, oldBasis: Label, op: UpdateOp, result: UpdateResult) returns (v: Verdict)
    requires pk.n > 1
    ensures v == UpdateVerdict(pk, oldBasis, op, result)
    ensures v == Error
            <==> match op.kind
                 case OpModify =>
                   && PathAccepted(oldBasis, op.pos, result.proof) && result.proof.targetIsTower
                   && result.leftProof == None
                 case OpInsert => op.height < 1
                 case OpDelete => op.height < 1 || result.postProof == None
                 case OpOther => true
    ensures op.kind == OpModify && !result.proof.targetIsTower ==>
              (v.Accept? <==> PathAccepted(oldBasis, op.pos, result.proof))
    ensures op.kind == OpInsert && op.height >= 1 ==>
              (v.Accept? <==> InsertionPointAccepted(oldBasis, op.pos, result.proof))
  {
    hide FoldSteps, FoldOwnTower, FirstPlainDown, RightRanks, InsertFold;
    match op.kind
    case OpModify =>
      v := VerifyModify(oldBasis, op.pos, BlockTag(pk, op.block), result);
    case OpInsert =>
      if op.height < 1 { return Error; }
      var ok := VerifyInsertionPoint(oldBasis, op.pos, result.proof);
      if !ok { return Reject; }
      var basis := DeriveBasisAfterInsert(result.proof, op.pos, op.height, Tag(BlockTag(pk, op.block)));
      return Accept(basis);
    case OpDelete =>
      if op.height < 1 { return Error; }
      if result.postProof.None? { return Error; }
      var ok := VerifyPath(oldBasis, op.pos, result.proof);
      if !ok { return Reject; }
      var reinserted := DeriveBasisAfterInsert(result.postProof.value, op.pos, op.height, result.proof.target.tag);
      if reinserted != oldBasis { return Reject; }
      var basis := ReconstructRoot(result.postProof.value);
      return Accept(basis);
    case OpOther =>
      return Error;
  }
}
