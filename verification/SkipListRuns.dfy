/** Honest updates and whole runs: every verdict on what an honest server sends, and the basis a client ends with. */
module SkipListRuns {
  import opened SkipListLabels
  import opened SkipListProofs
  import opened SkipListUpdates
  import opened SkipListModify
  import opened SkipListProtocol
  import opened ModArith
  import opened Options

  lemma {:induction false} HonestModifyAccepted(s: seq<Block>, pos: nat, newTag: nat, result: UpdateResult)
    requires WellFormed(s) && 1 <= pos <= |s|
    requires result.proof == BlockProofAt(s, pos)
    requires Tower(s, 0, pos) ==> result.leftProof == Some(InsertionPointAt(s, pos))
    ensures ModifyVerdict(Basis(s), pos, newTag, result) == Accept(Basis(Modify(s, pos, newTag)))
  {
    HonestPathAccepted(s, pos);
    if Tower(s, 0, pos) {
      TowerModify(s, pos, newTag, result);
    } else {
      var s' := Modify(s, pos, newTag);
      PlateauPathUnchanged(s, pos, newTag);
      PathProofComplete(s', pos, false);
    }
  }

  lemma {:induction false} TowerModify(s: seq<Block>, pos: nat, newTag: nat, result: UpdateResult)
    requires WellFormed(s) && 1 <= pos <= |s| && Tower(s, 0, pos)
    requires result.proof == BlockProofAt(s, pos)
    requires result.leftProof == Some(InsertionPointAt(s, pos))
    ensures ModifyVerdict(Basis(s), pos, newTag, result) == Accept(Basis(Modify(s, pos, newTag)))
  {
    hide LabelAt, Next, PathSteps, FoldSteps, FoldOwnTower, FirstPlainDown, RightRanks;
    var s' := Modify(s, pos, newTag);
    HonestPathAccepted(s, pos);
    HonestInsertionPointAccepted(s, pos);
    NextIs(s, 0, pos - 1, pos);
    NextIs(s', 0, pos - 1, pos);
    OwnTowerTops(s, pos, newTag);
    LeftPathSwap(s, pos, newTag, 0, pos - 1);
    var left := InsertionPointAt(s, pos);
    var idx := FirstPlainDown(left.steps);
    var topNew := OwnTower(result.proof, ZeroEntry(1, Tag(newTag)));
    assert left.(targetRightVal := Raw(ZeroEntry(1, Tag(newTag))),
                 steps := left.steps[idx := left.steps[idx].(sibLabel := topNew)]) == InsertionPointAt(s', pos);
    PathProofComplete(s', pos - 1, false);
  }

  lemma {:induction false} OwnTowerTops(s: seq<Block>, pos: nat, newTag: nat)
    requires WellFormed(s) && 1 <= pos <= |s|
    ensures var s' := Modify(s, pos, newTag); var h := Height(s, pos); var bp := BlockProofAt(s, pos);
            && Height(s', pos) == h
            && OwnTower(bp, bp.target) == LabelAt(s, h - 1, pos)
            && OwnTower(bp, ZeroEntry(1, Tag(newTag))) == LabelAt(s', h - 1, pos)
  {
    hide LabelAt, Next, PathSteps, FoldOwnTower;
    var s' := Modify(s, pos, newTag);
    assert Modify(s, pos, s[pos - 1].tag) == s;
    OwnTowerLabel(s, pos, s[pos - 1].tag, 0);
    OwnTowerLabel(s, pos, newTag, 0);
    LabelUnfold(s, 0, pos);
    LabelUnfold(s', 0, pos);
    ModifyNeighbours(s, pos, newTag, 0, pos);
    ModifyLabels(s, pos, newTag, 0, Next(s, 0, pos));
    ModifySpans(s, pos, newTag);
  }

  lemma {:induction false} HonestInsertAccepted(s: seq<Block>, pos: nat, height: nat, newTag: nat, result: UpdateResult)
    requires WellFormed(s) && 1 <= pos <= |s| + 1 && 1 <= height <= MAX_HEIGHT
    requires result.proof == InsertionPointAt(s, pos)
    ensures InsertVerdict(Basis(s), pos, height, newTag, result) == Accept(Basis(Insert(s, pos, Block(newTag, height))))
  {
    HonestInsertionPointAccepted(s, pos);
    BasisAfterInsertCorrect(s, pos, Block(newTag, height), false);
  }

  // ------------------------------------------------------------------ deletes and the claimed height

  /** A chain of top-level hashes down the right side, ending at the right sentinel: the shape of every top-level
      label. */
  predicate TopChain(g: Label) {
    g == Null || (g.Hash4? && g.level == MAX_HEIGHT - 1 && TopChain(g.right))
  }

  lemma {:induction false} TopLabelsChain(s: seq<Block>, i: nat)
    requires WellFormed(s) && i <= |s| + 1 && Height(s, i) == MAX_HEIGHT
    ensures TopChain(LabelAt(s, MAX_HEIGHT - 1, i))
    decreases |s| + 1 - i
  {
    hide LabelAt, Next;
    LabelUnfold(s, MAX_HEIGHT - 1, i);
    if i <= |s| {
      TopLabelsChain(s, Next(s, MAX_HEIGHT - 1, i));
    }
  }

  /** A tower taller than the list never enters the fold as a node, so the result is no top-level label. */
  lemma {:induction false} TooTallNoChain(all: seq<ProofStep>, rest: seq<ProofStep>, pos: int, h: int, st: InsertState)
    requires h > MAX_HEIGHT && !TopChain(st.gamma)
    ensures !TopChain(InsertFold(all, rest, pos, h, st).gamma)
    decreases rest
  {
    if rest != [] {
      TooTallNoChain(all, rest[1..], pos, h, InsertStep(all, pos, h, st, rest[0]));
    }
  }

  lemma {:induction false} TooTallReinsert(t: seq<Block>, pos: nat, height: nat, tag: Tag, s: seq<Block>)
    requires WellFormed(t) && WellFormed(s) && 1 <= pos <= |t| + 1 && height > MAX_HEIGHT
    ensures BasisAfterInsert(InsertionPointAt(t, pos), pos, height, tag) != Basis(s)
  {
    hide LabelAt, Next, PathSteps, InsertFold, RightValue;
    var proof := InsertionPointAt(t, pos);
    TooTallNoChain(proof.steps, proof.steps, pos, height, InsertStart(proof, height, tag));
    TopLabelsChain(s, 0);
  }

  /** Re-inserting a deleted block into the list that is left gives the old basis back for its own height only. */
  lemma {:induction false} ReinsertMatchesHeight(s: seq<Block>, pos: nat, height: nat)
    requires WellFormed(s) && 1 <= pos <= |s| && height >= 1
    ensures WellFormed(Delete(s, pos))
    ensures BasisAfterInsert(InsertionPointAt(Delete(s, pos), pos), pos, height, Tag(s[pos - 1].tag)) == Basis(s)
            <==> height == s[pos - 1].height
  {
    hide LabelAt, PathSteps, InsertFold, BasisAfterInsert;
    DeleteThenInsert(s, pos);
    var t := Delete(s, pos);
    var b := Block(s[pos - 1].tag, height);
    if height <= MAX_HEIGHT {
      BasisAfterInsertCorrect(t, pos, b, false);
      assert Insert(t, pos, b)[pos - 1] == b;
      InsertWellFormed(t, pos, b);
      BasisDeterminesList(Insert(t, pos, b), s);
    } else {
      TooTallReinsert(t, pos, height, Tag(s[pos - 1].tag), s);
    }
  }

  /** An honest delete is accepted exactly when the client names the block's true height, and then yields the basis of
      the list without it; with any other height the client keeps its old basis. */
  lemma {:induction false} HonestDeleteVerdict(s: seq<Block>, pos: nat, height: int, result: UpdateResult)
    requires WellFormed(s) && 1 <= pos <= |s|
    requires WellFormed(Delete(s, pos))
    requires result.proof == BlockProofAt(s, pos)
    requires result.postProof == Some(InsertionPointAt(Delete(s, pos), pos))
    ensures DeleteVerdict(Basis(s), pos, height, result) ==
              if height < 1 then Error
              else if height == s[pos - 1].height then Accept(Basis(Delete(s, pos)))
              else Reject
  {
    hide LabelAt, PathSteps, InsertFold, FoldSteps;
    HonestPathAccepted(s, pos);
    PathProofComplete(Delete(s, pos), pos - 1, false);
    if height >= 1 {
      ReinsertMatchesHeight(s, pos, height);
    }
  }

  // ------------------------------------------------------------------ every update, and every run

  /** The height a client must name is the block's own. */
  predicate TrueHeight(s: seq<Block>, op: UpdateOp)
    requires Performable(s, op)
  {
    op.kind.OpDelete? ==> op.height == s[op.pos - 1].height
  }

  /** Every update an honest server performs is accepted, and the client's locally derived basis is the basis of the
      updated list; a delete needs the block's true height. */
  lemma {:induction false} HonestUpdateAccepted(pk: PublicKey, s: seq<Block>, op: UpdateOp)
    requires ValidKey(pk) && WellFormed(s) && Performable(s, op)
    ensures UpdateVerdict(pk, Basis(s), op, HonestResult(s, op)).Accept? <==> TrueHeight(s, op)
    ensures TrueHeight(s, op) ==>
              UpdateVerdict(pk, Basis(s), op, HonestResult(s, op)) == Accept(Basis(Updated(pk, s, op)))
  {
    hide Basis, ModifyVerdict, InsertVerdict, DeleteVerdict, Modify, Insert, Delete, Tower;
    match op.kind
    case OpModify => HonestModifyAccepted(s, op.pos, BlockTag(pk, op.block), HonestResult(s, op));
    case OpInsert => HonestInsertAccepted(s, op.pos, op.height, BlockTag(pk, op.block), HonestResult(s, op));
    case OpDelete =>
      DeleteThenInsert(s, op.pos);
      HonestDeleteVerdict(s, op.pos, op.height, HonestResult(s, op));
  }

  /** The run can be performed from s, with true heights throughout. */
  predicate PerformableRun(pk: PublicKey, s: seq<Block>, ops: seq<UpdateOp>)
    requires pk.n > 1 && WellFormed(s)
    decreases ops
  {
    ops != [] ==>
          && Performable(s, ops[0]) && TrueHeight(s, ops[0])
          && PerformableRun(pk, Updated(pk, s, ops[0]), ops[1..])
  }

  /** The server's list after one update; one it refuses leaves the list alone. */
  function Served(pk: PublicKey, s: seq<Block>, op: UpdateOp): (s': seq<Block>)
    requires pk.n > 1 && WellFormed(s)
    ensures WellFormed(s')
  {
    if Performable(s, op) then Updated(pk, s, op) else s
  }

  /** The server's list after any run, refused updates included. */
  function ServerRun(pk: PublicKey, s: seq<Block>, ops: seq<UpdateOp>): (t: seq<Block>)
    requires pk.n > 1 && WellFormed(s)
    ensures WellFormed(t)
    decreases ops
  {
    if ops == [] then s else ServerRun(pk, Served(pk, s, ops[0]), ops[1..])
  }

  /** What the server answers over any run: a result, or a refusal. */
  function ServerAnswers(pk: PublicKey, s: seq<Block>, ops: seq<UpdateOp>): (rs: seq<Option<UpdateResult>>)
    requires pk.n > 1 && WellFormed(s)
    ensures |rs| == |ops|
    decreases ops
  {
    if ops == [] then []
    else [if Performable(s, ops[0]) then Some(HonestResult(s, ops[0])) else None]
         + ServerAnswers(pk, Served(pk, s, ops[0]), ops[1..])
  }

  /** The results an honest server sends over a run it can perform. */
  function ServerResults(pk: PublicKey, s: seq<Block>, ops: seq<UpdateOp>): (rs: seq<UpdateResult>)
    requires pk.n > 1 && WellFormed(s) && PerformableRun(pk, s, ops)
    ensures |rs| == |ops|
    decreases ops
  {
    if ops == [] then [] else [HonestResult(s, ops[0])] + ServerResults(pk, Updated(pk, s, ops[0]), ops[1..])
  }

  /** A client that keeps nothing but its basis. */
  function ClientRun(pk: PublicKey, basis: Label, ops: seq<UpdateOp>, results: seq<UpdateResult>): Verdict
    requires pk.n > 1 && |results| == |ops|
    decreases ops
  {
    if ops == [] then Accept(basis)
    else
      var v := UpdateVerdict(pk, basis, ops[0], results[0]);
      if v.Accept? then ClientRun(pk, v.basis, ops[1..], results[1..]) else v
  }

  /** Over any run the client ends with exactly the basis of the server's final list. */
  lemma {:induction false} RunKeepsBases(pk: PublicKey, s: seq<Block>, ops: seq<UpdateOp>)
    requires ValidKey(pk) && WellFormed(s) && PerformableRun(pk, s, ops)
    ensures ClientRun(pk, Basis(s), ops, ServerResults(pk, s, ops)) == Accept(Basis(ServerRun(pk, s, ops)))
    decreases ops
  {
    hide Basis, UpdateVerdict, Updated, Performable, WellFormed;
    if ops != [] {
      HonestUpdateAccepted(pk, s, ops[0]);
      RunKeepsBases(pk, Updated(pk, s, ops[0]), ops[1..]);
      assert ServerResults(pk, s, ops)[1..] == ServerResults(pk, Updated(pk, s, ops[0]), ops[1..]);
    }
  }

  // ------------------------------------------------------------------ the file after a run

  function StoreRun(store: seq<nat>, ops: seq<UpdateOp>): seq<nat>
    decreases ops
  {
    if ops == [] then store else StoreRun(UpdatedStore(store, ops[0]), ops[1..])
  }

  function HeightsRun(heights: seq<int>, ops: seq<UpdateOp>): seq<int>
    decreases ops
  {
    if ops == [] then heights else HeightsRun(UpdatedHeights(heights, ops[0]), ops[1..])
  }

  lemma {:induction false} RunKeepsFile(pk: PublicKey, s: seq<Block>, store: seq<nat>, ops: seq<UpdateOp>)
    requires ValidKey(pk) && WellFormed(s) && TagsMatch(pk, s, store)
    ensures TagsMatch(pk, ServerRun(pk, s, ops), StoreRun(store, ops))
    ensures HeightsOf(ServerRun(pk, s, ops)) == HeightsRun(HeightsOf(s), ops)
    decreases ops
  {
    hide Updated, WellFormed, TagsMatch, UpdatedStore, UpdatedHeights, HeightsOf;
    if ops != [] {
      ServedKeepsFile(pk, s, store, ops[0]);
      RunKeepsFile(pk, Served(pk, s, ops[0]), UpdatedStore(store, ops[0]), ops[1..]);
    }
  }

  lemma {:induction false} ServedKeepsFile(pk: PublicKey, s: seq<Block>, store: seq<nat>, op: UpdateOp)
    requires pk.n > 1 && WellFormed(s) && TagsMatch(pk, s, store)
    ensures TagsMatch(pk, Served(pk, s, op), UpdatedStore(store, op))
    ensures HeightsOf(Served(pk, s, op)) == UpdatedHeights(HeightsOf(s), op)
  {
    hide Updated;
    if Performable(s, op) {
      UpdateKeepsFile(pk, s, store, op);
    }
  }

  /** After any run, refused updates included, the server holds the list that is built from scratch for the final file
      and the final heights; after a run with true heights throughout, the basis the client has derived step by step
      is the one that list has. */
  lemma {:induction false} RunRebuilds(pk: PublicKey, s: seq<Block>, store: seq<nat>, ops: seq<UpdateOp>)
    requires ValidKey(pk) && WellFormed(s) && TagsMatch(pk, s, store)
    ensures var file, heights := StoreRun(store, ops), HeightsRun(HeightsOf(s), ops);
            && |heights| == |file| && (forall i | 0 <= i < |heights| :: 1 <= heights[i] <= MAX_HEIGHT)
            && ServerRun(pk, s, ops) == BuiltList(pk, file, heights)
            && (PerformableRun(pk, s, ops) ==>
                  ClientRun(pk, Basis(s), ops, ServerResults(pk, s, ops))
                      == Accept(Basis(BuiltList(pk, file, heights))))
  {
    hide Basis, ClientRun, BuiltList, PerformableRun;
    RunKeepsFile(pk, s, store, ops);
    if PerformableRun(pk, s, ops) {
      RunKeepsBases(pk, s, ops);
    }
    MatchingIsBuilt(pk, ServerRun(pk, s, ops), StoreRun(store, ops));
  }

  /** Two clients that followed any two runs hold the same basis exactly when the two files agree block by block,
      tower heights included. */
  lemma {:induction false} RunsAgree(pk: PublicKey, s: seq<Block>, ops: seq<UpdateOp>, s': seq<Block>,
                                     ops': seq<UpdateOp>)
    requires ValidKey(pk) && WellFormed(s) && PerformableRun(pk, s, ops)
    requires WellFormed(s') && PerformableRun(pk, s', ops')
    ensures ClientRun(pk, Basis(s), ops, ServerResults(pk, s, ops))
            == ClientRun(pk, Basis(s'), ops', ServerResults(pk, s', ops'))
            <==> ServerRun(pk, s, ops) == ServerRun(pk, s', ops')
  {
    hide Basis, ClientRun;
    RunKeepsBases(pk, s, ops);
    RunKeepsBases(pk, s', ops');
    BasisDeterminesList(ServerRun(pk, s, ops), ServerRun(pk, s', ops'));
  }
}
