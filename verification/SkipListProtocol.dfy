/** The client's acceptance decisions as functions, and the updates they follow: honest path proofs are accepted, and a
    list keeps matching its file. */
module SkipListProtocol {
  import opened SkipListLabels
  import opened SkipListProofs
  import opened SkipListUpdates
  import opened SkipListModify
  import opened ModArith
  import opened Options

  /** The RSA group: modulus N and generator g. */
  datatype PublicKey = PublicKey(n: int, g: int)

  ghost predicate ValidKey(pk: PublicKey) {
    pk.n > 1
  }

  /** T(b) = g^b mod N, for a block read as an integer. */
  function BlockTag(pk: PublicKey, block: nat): (tag: nat)
    requires pk.n > 1
  {
    Exp(pk.g, block, pk.n)
  }

  // ------------------------------------------------------------------ single block proofs

  predicate PathAccepted(basis: Label, pos: int, bp: BlockProof) {
    bp.target.rank == 1 && FoldProof(bp) == basis && bp.target.rank + RightRanks(bp.steps) == pos
  }

  predicate InsertionPointAccepted(basis: Label, pos: int, bp: BlockProof) {
    FoldProof(bp) == basis && bp.target.rank + RightRanks(bp.steps) == pos - 1
  }

  /** The proof atRank builds. */
  function BlockProofAt(s: seq<Block>, pos: nat): BlockProof
    requires WellFormed(s) && 1 <= pos <= |s|
  {
    PathProof(s, pos, Tower(s, 0, pos))
  }

  /** The proof atInsertionPoint builds: the path of the position before. */
  function InsertionPointAt(s: seq<Block>, pos: nat): BlockProof
    requires WellFormed(s) && 1 <= pos <= |s| + 1
  {
    PathProof(s, pos - 1, false)
  }

  lemma {:induction false} HonestPathAccepted(s: seq<Block>, pos: nat)
    requires WellFormed(s) && 1 <= pos <= |s|
    ensures PathAccepted(Basis(s), pos, BlockProofAt(s, pos))
  {
    PathProofComplete(s, pos, Tower(s, 0, pos));
  }

  /** An honest path is accepted for its own position and for no other. */
  lemma {:induction false} HonestPathPosition(s: seq<Block>, pos: nat, claimed: int)
    requires WellFormed(s) && 1 <= pos <= |s|
    ensures PathAccepted(Basis(s), claimed, BlockProofAt(s, pos)) <==> claimed == pos
  {
    PathProofComplete(s, pos, Tower(s, 0, pos));
  }

  lemma {:induction false} HonestInsertionPointAccepted(s: seq<Block>, pos: nat)
    requires WellFormed(s) && 1 <= pos <= |s| + 1
    ensures InsertionPointAccepted(Basis(s), pos, InsertionPointAt(s, pos))
  {
    PathProofComplete(s, pos - 1, false);
  }

  // ------------------------------------------------------------------ updates

  datatype OpKind = OpModify | OpInsert | OpDelete | OpOther

  datatype UpdateOp = UpdateOp(kind: OpKind, pos: int, block: nat, height: int)

  datatype UpdateResult = UpdateResult(proof: BlockProof, leftProof: Option<BlockProof>, postProof: Option<BlockProof>)

  /** VerifyUpdate's outcomes: a new basis, a rejection, or an error. */
  datatype Verdict = Accept(basis: Label) | Reject | Error

  function ModifyVerdict(oldBasis: Label, pos: int, newTag: nat, result: UpdateResult): Verdict {
    if !PathAccepted(oldBasis, pos, result.proof) then Reject
    else if !result.proof.targetIsTower then
      Accept(FoldProof(result.proof.(target := result.proof.target.(tag := Tag(newTag)))))
    else if result.leftProof.None? then Error
    else
      var left := result.leftProof.value;
      var newTarget := ZeroEntry(1, Tag(newTag));
      if !InsertionPointAccepted(oldBasis, pos, left) || left.targetRightVal != Raw(result.proof.target) then Reject
      else
        var topOld := OwnTower(result.proof, result.proof.target);
        var topNew := OwnTower(result.proof, newTarget);
        var idx := FirstPlainDown(left.steps);
        var newLeft := left.(targetRightVal := Raw(newTarget));
        if idx == |left.steps| then Accept(FoldProof(newLeft))
        else if left.steps[idx].sibLabel != topOld then Reject
        else Accept(FoldProof(newLeft.(steps := left.steps[idx := left.steps[idx].(sibLabel := topNew)])))
  }

  /** The label of the target's topmost node, were its entry the given one. */
  function OwnTower(bp: BlockProof, entry: ZeroEntry): Label {
    FoldOwnTower(Hash2(Raw(entry), bp.targetRightVal), bp.steps)
  }

  function InsertVerdict(oldBasis: Label, pos: int, height: int, newTag: nat, result: UpdateResult): Verdict {
    if height < 1 then Error
    else if !InsertionPointAccepted(oldBasis, pos, result.proof) then Reject
    else Accept(BasisAfterInsert(result.proof, pos, height, Tag(newTag)))
  }

  function DeleteVerdict(oldBasis: Label, pos: int, height: int, result: UpdateResult): Verdict {
    if height < 1 || result.postProof.None? then Error
    else if !PathAccepted(oldBasis, pos, result.proof) then Reject
    else if BasisAfterInsert(result.postProof.value, pos, height, result.proof.target.tag) != oldBasis then Reject
    else Accept(FoldProof(result.postProof.value))
  }

  function UpdateVerdict(pk: PublicKey, oldBasis: Label, op: UpdateOp, result: UpdateResult): Verdict
    requires pk.n > 1
  {
    match op.kind
    case OpModify => ModifyVerdict(oldBasis, op.pos, BlockTag(pk, op.block), result)
    case OpInsert => InsertVerdict(oldBasis, op.pos, op.height, BlockTag(pk, op.block), result)
    case OpDelete => DeleteVerdict(oldBasis, op.pos, op.height, result)
    case OpOther => Error
  }

  /** The updates the server performs on n blocks; all others it refuses. */
  predicate InRange(n: nat, op: UpdateOp) {
    match op.kind
    case OpModify => 1 <= op.pos <= n
    case OpInsert => 1 <= op.pos <= n + 1 && 1 <= op.height <= MAX_HEIGHT
    case OpDelete => 1 <= op.pos <= n
    case OpOther => false
  }

  predicate Performable(s: seq<Block>, op: UpdateOp) {
    InRange(|s|, op)
  }

  function Updated(pk: PublicKey, s: seq<Block>, op: UpdateOp): (s': seq<Block>)
    requires pk.n > 1 && Performable(s, op)
    ensures WellFormed(s) ==> WellFormed(s')
  {
    match op.kind
    case OpModify => Modify(s, op.pos, BlockTag(pk, op.block))
    case OpInsert => Insert(s, op.pos, Block(BlockTag(pk, op.block), op.height))
    case OpDelete => Delete(s, op.pos)
  }

  /** What PerformUpdate hands back. */
  function HonestResult(s: seq<Block>, op: UpdateOp): UpdateResult
    requires WellFormed(s) && Performable(s, op)
  {
    match op.kind
    case OpModify =>
      UpdateResult(BlockProofAt(s, op.pos), if Tower(s, 0, op.pos) then Some(InsertionPointAt(s, op.pos))
          else None, None)
    case OpInsert => UpdateResult(InsertionPointAt(s, op.pos), None, None)
    case OpDelete => UpdateResult(BlockProofAt(s, op.pos), None, Some(InsertionPointAt(Delete(s, op.pos), op.pos)))
  }

  lemma {:induction false} DeleteThenInsert(s: seq<Block>, pos: nat)
    requires WellFormed(s) && 1 <= pos <= |s|
    ensures WellFormed(Delete(s, pos)) && Insert(Delete(s, pos), pos, s[pos - 1]) == s
  {
  }

  // ------------------------------------------------------------------ the file behind the list

  function HeightsOf(s: seq<Block>): (r: seq<int>)
    ensures |r| == |s|
  {
    seq(|s|, i requires 0 <= i < |s| => s[i].height)
  }

  /** The list for a whole file: one entry per block, in order, with the given heights. */
  function BuiltList(pk: PublicKey, store: seq<nat>, heights: seq<int>): (s: seq<Block>)
    requires pk.n > 1 && |heights| == |store|
    requires forall i | 0 <= i < |heights| :: heights[i] >= 0
    ensures |s| == |store|
    ensures forall i | 0 <= i < |s| :: s[i].tag == BlockTag(pk, store[i]) && s[i].height == heights[i]
  {
    seq(|store|, i requires 0 <= i < |store| => Block(BlockTag(pk, store[i]), heights[i]))
  }

  /** The tags of the list are those of the stored blocks. */
  ghost predicate TagsMatch(pk: PublicKey, s: seq<Block>, store: seq<nat>)
    requires pk.n > 1
  {
    |s| == |store| && forall i | 0 <= i < |s| :: s[i].tag == BlockTag(pk, store[i])
  }

  /** The update of the raw file; one out of range leaves it alone. */
  function UpdatedStore(store: seq<nat>, op: UpdateOp): seq<nat> {
    if !InRange(|store|, op) then store
    else
      match op.kind
      case OpModify => store[op.pos - 1 := op.block]
      case OpInsert => store[..op.pos - 1] + [op.block] + store[op.pos - 1..]
      case OpDelete => store[..op.pos - 1] + store[op.pos..]
  }

  /** The update of the recorded heights. */
  function UpdatedHeights(heights: seq<int>, op: UpdateOp): seq<int> {
    if !InRange(|heights|, op) then heights
    else
      match op.kind
      case OpModify => heights
      case OpInsert => heights[..op.pos - 1] + [op.height] + heights[op.pos - 1..]
      case OpDelete => heights[..op.pos - 1] + heights[op.pos..]
  }

  /** A list that matches the file before an update matches the updated file after it. */
  lemma {:induction false} UpdateKeepsFile(pk: PublicKey, s: seq<Block>, store: seq<nat>, op: UpdateOp)
    requires pk.n > 1 && Performable(s, op) && TagsMatch(pk, s, store)
    ensures TagsMatch(pk, Updated(pk, s, op), UpdatedStore(store, op))
    ensures HeightsOf(Updated(pk, s, op)) == UpdatedHeights(HeightsOf(s), op)
  {
    hide BlockTag;
  }

  /** A list matches a file if and only if it is the one built from the file with the list's own heights. */
  lemma {:induction false} MatchingIsBuilt(pk: PublicKey, s: seq<Block>, store: seq<nat>)
    requires pk.n > 1
    ensures TagsMatch(pk, s, store) <==> |s| == |store| && s == BuiltList(pk, store, HeightsOf(s))
  {
    if TagsMatch(pk, s, store) {
      var t := BuiltList(pk, store, HeightsOf(s));
      assert forall i | 0 <= i < |s| :: s[i] == t[i];
    }
  }
}
