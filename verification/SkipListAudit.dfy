/** Challenge, proof and verification of a sample of blocks: path proofs plus the blockless check on the combined
    block. */
module SkipListAudit {
  import opened SkipListLabels
  import opened SkipListProofs
  import opened SkipListProtocol
  import opened SkipListSoundness
  import opened SkipListRuns
  import opened SkipListClient
  import opened SkipList
  import opened ModArith
  import opened NumberTheory
  import opened Options

  /** 1-indexed positions, their coefficients, and the block count at challenge time. */
  datatype Challenge = Challenge(indices: seq<int>, coeffs: seq<nat>, n: int)

  datatype AuditProof = AuditProof(blocks: seq<BlockProof>, m: int)

  /** The combined value is compared only if the power of g exists; otherwise the comparison fails at run time. */
  datatype AuditVerdict = Accepted | Rejected | Malformed | Panic

  /** big.Int's Exp: a negative exponent takes the inverse of the base, if there is one. */
  function PowerOf(g: int, m: int, n: int): (r: Option<int>)
    requires n > 1
  {
    if m >= 0 then Some(Exp(g, m, n))
    else
      var inverse := ModInverse(g, n);
      if inverse.None? then None else Some(Exp(inverse.value, -m, n))
  }

  function TagValue(tag: Tag): nat {
    if tag.Tag? then tag.value else 0
  }

  /** The combination of the first k challenged blocks. */
  function Combined(chal: Challenge, store: seq<nat>, k: nat): (m: nat)
    requires k <= |chal.indices| == |chal.coeffs|
    requires forall t | 0 <= t < k :: 1 <= chal.indices[t] <= |store|
  {
    if k == 0 then 0 else Combined(chal, store, k - 1) + chal.coeffs[k - 1] * store[chal.indices[k - 1] - 1]
  }

  /** The product of the first k claimed tags to their coefficients, reduced at every step. */
  function TagProduct(chal: Challenge, proofs: seq<BlockProof>, n: int, k: nat): int
    requires n > 0 && k <= |chal.indices| == |chal.coeffs| && k <= |proofs|
  {
    if k == 0 then 1
    else (TagProduct(chal, proofs, n, k - 1) * Exp(TagValue(proofs[k - 1].target.tag), chal.coeffs[k - 1], n)) % n
  }

  /** Every position of the challenge exists in the list and in the store. */
  predicate Answerable(s: seq<Block>, chal: Challenge, store: seq<nat>) {
    && chal.n == |s|
    && forall t | 0 <= t < |chal.indices| :: 1 <= chal.indices[t] <= |s| && chal.indices[t] <= |store|
  }

  function AuditVerdictOf(pk: PublicKey, basis: Label, chal: Challenge, proof: AuditProof): AuditVerdict
    requires pk.n > 1 && |chal.indices| == |chal.coeffs|
  {
    if |proof.blocks| != |chal.indices| then Malformed
    else if exists t | 0 <= t < |chal.indices| :: !PathAccepted(basis, chal.indices[t], proof.blocks[t]) then Rejected
    else
      match PowerOf(pk.g, proof.m, pk.n)
      case None => Panic
      case Some(lhs) => if lhs == TagProduct(chal, proof.blocks, pk.n, |chal.indices|) then Accepted else Rejected
  }

  ghost predicate HonestProof(s: seq<Block>, chal: Challenge, store: seq<nat>, proof: AuditProof)
    requires WellFormed(s) && |chal.indices| == |chal.coeffs|
    requires Answerable(s, chal, store)
  {
    && |proof.blocks| == |chal.indices|
    && (forall t | 0 <= t < |chal.indices| :: proof.blocks[t] == BlockProofAt(s, chal.indices[t]))
    && proof.m == Combined(chal, store, |chal.indices|)
  }

  /** One atRank per challenged index and the combined block. */
  method Prove(sl: SkipList, chal: Challenge, store: seq<nat>) returns (r: Option<AuditProof>)
    requires sl.Valid() && |chal.indices| == |chal.coeffs|
    ensures WellFormed(sl.blocks)
    ensures r.Some?
            <==> && chal.n == |sl.blocks|
                 && forall t | 0 <= t < |chal.indices| ::
                      1 <= chal.indices[t] <= |sl.blocks| && chal.indices[t] <= |store|
    ensures r.Some? ==> HonestProof(sl.blocks, chal, store, r.value)
  {
    hide SkipList.Valid, BlockProofAt;
    sl.LevelsShape();
    if chal.n != sl.n { return None; }
    var bps := [];
    var m := 0;
    for t := 0 to |chal.indices|
      invariant forall k | 0 <= k < t :: 1 <= chal.indices[k] <= |sl.blocks| && chal.indices[k] <= |store|
      invariant |bps| == t && forall k | 0 <= k < t :: bps[k] == BlockProofAt(sl.blocks, chal.indices[k])
      invariant m == Combined(chal, store, t)
    {
      var idx := chal.indices[t];
      var bp := sl.AtRank(idx);
      if bp.None? { return None; }
      bps := bps + [bp.value];
      if idx - 1 >= |store| { return None; }
      m := m + chal.coeffs[t] * store[idx - 1];
    }
    return Some(AuditProof(bps, m));
  }

  method Verify(pk: PublicKey, basis: Label, chal: Challenge, proof: AuditProof) returns (v: AuditVerdict)
    requires pk.n > 1 && |chal.indices| == |chal.coeffs|
    ensures v == AuditVerdictOf(pk, basis, chal, proof)
    ensures v == Malformed <==> |proof.blocks| != |chal.indices|
    ensures v == Panic
            <==> && PathsAccepted(basis, chal, proof.blocks) && proof.m < 0
                 && exists d :: d > 1 && Divides(d, pk.g) && Divides(d, pk.n)
  {
    InverseExists(pk.g, pk.n);
    hide PathAccepted, Exp, PowerOf;
    if |proof.blocks| != |chal.indices| { return Malformed; }
    for t := 0 to |chal.indices|
      invariant forall k | 0 <= k < t :: PathAccepted(basis, chal.indices[k], proof.blocks[k])
    {
      var ok := VerifyPath(basis, chal.indices[t], proof.blocks[t]);
      if !ok { return Rejected; }
    }
    var rhs := 1;
    for t := 0 to |chal.indices|
      invariant rhs == TagProduct(chal, proof.blocks, pk.n, t)
    {
      var tag := TagValue(proof.blocks[t].target.tag);
      rhs := (rhs * Exp(tag, chal.coeffs[t], pk.n)) % pk.n;
    }
    var lhs := PowerOf(pk.g, proof.m, pk.n);
    if lhs.None? { return Panic; }
    return if lhs.value == rhs then Accepted else Rejected;
  }

  // ------------------------------------------------------------------ what acceptance means

  predicate PathsAccepted(basis: Label, chal: Challenge, proofs: seq<BlockProof>) {
    && |proofs| == |chal.indices|
    && forall t | 0 <= t < |proofs| :: PathAccepted(basis, chal.indices[t], proofs[t])
  }

  /** The challenge that path proofs really answer: every position less the slack of its proof. */
  function Effective(chal: Challenge, proofs: seq<BlockProof>): (c: Challenge)
    requires |proofs| == |chal.indices|
    ensures |c.indices| == |proofs| && c.coeffs == chal.coeffs
  {
    chal.(indices := seq(|proofs|, t requires 0 <= t < |proofs| => chal.indices[t] - Slack(proofs[t].steps)))
  }

  /** Every position of the challenge has a block of the file. */
  predicate Covered(chal: Challenge, store: seq<nat>) {
    forall t | 0 <= t < |chal.indices| :: 1 <= chal.indices[t] <= |store|
  }

  /** The tags shown are those of the blocks the challenge names. */
  ghost predicate TagsOf(pk: PublicKey, chal: Challenge, store: seq<nat>, proofs: seq<BlockProof>)
    requires pk.n > 1 && |proofs| == |chal.indices| && Covered(chal, store)
  {
    forall t | 0 <= t < |proofs| :: TagValue(proofs[t].target.tag) == BlockTag(pk, store[chal.indices[t] - 1])
  }

  /** Reducing at every step multiplies out to g to the combined block. */
  lemma {:induction false} TagProductIsPower(pk: PublicKey, chal: Challenge, store: seq<nat>, proofs: seq<BlockProof>,
                                             k: nat)
    requires pk.n > 1 && |chal.indices| == |chal.coeffs| == |proofs| && k <= |proofs|
    requires Covered(chal, store) && TagsOf(pk, chal, store, proofs)
    ensures TagProduct(chal, proofs, pk.n, k) == Exp(pk.g, Combined(chal, store, k), pk.n)
  {
    hide Pow;
    if k == 0 {
      PowZero(pk.g);
      ModSmall(1, pk.n);
    } else {
      TagProductIsPower(pk, chal, store, proofs, k - 1);
      var i := chal.indices[k - 1] - 1;
      var c, b := chal.coeffs[k - 1], store[i];
      assert TagValue(proofs[k - 1].target.tag) == BlockTag(pk, b);
      ExpOfExp(pk.g, b, c, pk.n);
      ExpProduct(pk.g, Combined(chal, store, k - 1), c * b, pk.n);
    }
  }

  /** Accepted paths, whoever made them, show the tags of the blocks at the challenged positions less the slack. */
  lemma {:induction false} PathsShowTags(pk: PublicKey, s: seq<Block>, chal: Challenge, store: seq<nat>,
                                         proofs: seq<BlockProof>)
    requires pk.n > 1 && WellFormed(s) && TagsMatch(pk, s, store)
    requires PathsAccepted(Basis(s), chal, proofs)
    ensures Covered(Effective(chal, proofs), store) && TagsOf(pk, Effective(chal, proofs), store, proofs)
  {
    hide Basis, PathAccepted, Slack, Trace;
    var c := Effective(chal, proofs);
    forall t | 0 <= t < |proofs|
      ensures 1 <= c.indices[t] <= |store|
      ensures TagValue(proofs[t].target.tag) == BlockTag(pk, store[c.indices[t] - 1])
    {
      var i := AcceptedPosition(s, chal.indices[t], proofs[t]);
    }
  }

  lemma {:induction false} SameTagProduct(chal: Challenge, chal': Challenge, proofs: seq<BlockProof>, n: int, k: nat)
    requires n > 0 && |chal.indices| == |chal.coeffs| == |proofs| && k <= |proofs|
    requires |chal'.indices| == |proofs| && chal'.coeffs == chal.coeffs
    ensures TagProduct(chal, proofs, n, k) == TagProduct(chal', proofs, n, k)
  {
    if k > 0 {
      SameTagProduct(chal, chal', proofs, n, k - 1);
    }
  }

  /** The exact meaning of acceptance for arbitrary proofs: the paths are accepted, and the combined value is the
      combination of the blocks the paths lead to, up to equal powers of g. */
  lemma {:induction false} AuditMeaning(pk: PublicKey, s: seq<Block>, chal: Challenge, store: seq<nat>,
                                        proof: AuditProof)
    requires ValidKey(pk) && WellFormed(s) && TagsMatch(pk, s, store) && |chal.indices| == |chal.coeffs|
    ensures PathsAccepted(Basis(s), chal, proof.blocks) ==> Covered(Effective(chal, proof.blocks), store)
    ensures AuditVerdictOf(pk, Basis(s), chal, proof) == Accepted <==>
              && PathsAccepted(Basis(s), chal, proof.blocks)
              && PowerOf(pk.g, proof.m, pk.n)
                 == Some(Exp(pk.g, Combined(Effective(chal, proof.blocks), store, |proof.blocks|), pk.n))
  {
    hide Exp, TagProduct, PathAccepted, Basis, TagsOf, Slack;
    if PathsAccepted(Basis(s), chal, proof.blocks) {
      var c := Effective(chal, proof.blocks);
      PathsShowTags(pk, s, chal, store, proof.blocks);
      TagProductIsPower(pk, c, store, proof.blocks, |proof.blocks|);
      SameTagProduct(chal, c, proof.blocks, pk.n, |proof.blocks|);
    }
  }

  /** What a negative combined value means: it is in place of c if and only if g to their difference is one. */
  lemma {:induction false} NegativeCombination(g: int, m: int, c: nat, n: int)
    requires n > 1 && m < 0
    ensures PowerOf(g, m, n) == Some(Exp(g, c, n)) <==> ModInverse(g, n).Some? && Exp(g, c - m, n) == 1
  {
    hide Pow, ModInverse;
    if ModInverse(g, n).Some? {
      var inv, k := ModInverse(g, n).value, -m;
      InversePower(g, inv, k, n);
      PowAdd(g, c, k);
      ModSmall(1, n);
      if PowerOf(g, m, n) == Some(Exp(g, c, n)) {
        ModMul(Pow(inv, k), Pow(g, c), Pow(g, k), Pow(g, k), n);
      } else if Exp(g, c + k, n) == 1 {
        ModMul(Pow(g, c) * Pow(g, k), 1, Pow(inv, k), Pow(inv, k), n);
        assert Pow(g, c) * Pow(g, k) * Pow(inv, k) == Pow(g, c) * (Pow(inv, k) * Pow(g, k));
        ModMul(Pow(g, c), Pow(g, c), Pow(inv, k) * Pow(g, k), 1, n);
      }
    }
  }

  lemma {:induction false} InversePower(g: int, inv: int, k: nat, n: int)
    requires n > 1 && ModInverse(g, n) == Some(inv)
    ensures (Pow(inv, k) * Pow(g, k)) % n == 1
  {
    hide Pow, ModInverse;
    PowProduct(inv, g, k);
    assert inv * g == g * inv;
    PowCong(inv * g, 1, k, n);
    PowOne(k);
    ModSmall(1, n);
  }

  /** The client can see this before it accepts: no level-0 right step claims another rank than its entry. */
  predicate NoSlack(proofs: seq<BlockProof>) {
    forall t | 0 <= t < |proofs| :: Slack(proofs[t].steps) == 0
  }

  /** Soundness: without slack an accepted audit, whatever was sent, pins the combined value down to the power of g that
      the challenged blocks themselves give, and every challenged position exists. */
  lemma {:induction false} WrongCombinationRejected(pk: PublicKey, s: seq<Block>, chal: Challenge, store: seq<nat>,
                                                    proof: AuditProof)
    requires ValidKey(pk) && WellFormed(s) && TagsMatch(pk, s, store) && |chal.indices| == |chal.coeffs|
    requires NoSlack(proof.blocks)
    ensures PathsAccepted(Basis(s), chal, proof.blocks) ==> Covered(chal, store)
    ensures AuditVerdictOf(pk, Basis(s), chal, proof) == Accepted <==>
              && PathsAccepted(Basis(s), chal, proof.blocks)
              && PowerOf(pk.g, proof.m, pk.n) == Some(Exp(pk.g, Combined(chal, store, |chal.indices|), pk.n))
  {
    hide Exp, PathAccepted, Basis, AuditVerdictOf;
    AuditMeaning(pk, s, chal, store, proof);
    if PathsAccepted(Basis(s), chal, proof.blocks) {
      assert Effective(chal, proof.blocks).indices == chal.indices;
    }
  }

  /** What one block contributes to the combination. */
  lemma {:induction false} ExchangedBlock(chal: Challenge, store: seq<nat>, k: nat, t: nat, b: nat)
    requires k <= |chal.indices| == |chal.coeffs| && t < |chal.indices|
    requires Covered(chal, store)
    requires forall u | 0 <= u < |chal.indices| && u != t :: chal.indices[u] != chal.indices[t]
    ensures Combined(chal, store[chal.indices[t] - 1 := b], k)
            == Combined(chal, store, k) + if t < k then chal.coeffs[t] * (b - store[chal.indices[t] - 1]) else 0
  {
    if k > 0 {
      ExchangedBlock(chal, store, k - 1, t, b);
    }
  }

  /** A server that holds b in place of a block challenged once, and answers with the true paths, is accepted if and
      only if the difference of the two blocks times the coefficient does not change the power of g. */
  lemma {:induction false} OtherContentPasses(pk: PublicKey, s: seq<Block>, store: seq<nat>, chal: Challenge, t: nat,
                                              b: nat, proof: AuditProof)
    requires ValidKey(pk) && WellFormed(s) && TagsMatch(pk, s, store)
    requires |chal.indices| == |chal.coeffs| && Answerable(s, chal, store) && t < |chal.indices|
    requires forall u | 0 <= u < |chal.indices| && u != t :: chal.indices[u] != chal.indices[t]
    requires HonestProof(s, chal, store[chal.indices[t] - 1 := b], proof)
    ensures var c := Combined(chal, store, |chal.indices|);
            proof.m == c + chal.coeffs[t] * (b - store[chal.indices[t] - 1])
            && (AuditVerdictOf(pk, Basis(s), chal, proof) == Accepted
                <==> Exp(pk.g, proof.m, pk.n) == Exp(pk.g, c, pk.n))
  {
    hide Exp, PathAccepted, Basis, AuditVerdictOf, PathSteps;
    ExchangedBlock(chal, store, |chal.indices|, t, b);
    forall t | 0 <= t < |chal.indices|
      ensures PathAccepted(Basis(s), chal.indices[t], proof.blocks[t]) && Slack(proof.blocks[t].steps) == 0
    {
      HonestPathAccepted(s, chal.indices[t]);
      HonestSlack(s, 0, chal.indices[t]);
    }
    WrongCombinationRejected(pk, s, chal, store, proof);
  }

  /** Completeness: the proof of an honest server over any answerable challenge is accepted. */
  lemma {:induction false} HonestProofAccepted(pk: PublicKey, s: seq<Block>, chal: Challenge, store: seq<nat>,
                                               proof: AuditProof)
    requires ValidKey(pk) && WellFormed(s) && TagsMatch(pk, s, store)
    requires |chal.indices| == |chal.coeffs| && Answerable(s, chal, store)
    requires HonestProof(s, chal, store, proof)
    ensures NoSlack(proof.blocks)
    ensures AuditVerdictOf(pk, Basis(s), chal, proof) == Accepted
  {
    hide Exp, PathAccepted, Basis, AuditVerdictOf, PathSteps;
    forall t | 0 <= t < |chal.indices|
      ensures PathAccepted(Basis(s), chal.indices[t], proof.blocks[t]) && Slack(proof.blocks[t].steps) == 0
    {
      HonestPathAccepted(s, chal.indices[t]);
      HonestSlack(s, 0, chal.indices[t]);
    }
    WrongCombinationRejected(pk, s, chal, store, proof);
  }

  /** After any run of updates the same holds with the basis the client has derived and the file as it then is. */
  lemma {:induction false} HonestAfterRun(pk: PublicKey, s: seq<Block>, store: seq<nat>, ops: seq<UpdateOp>,
                                          chal: Challenge, proof: AuditProof)
    requires ValidKey(pk) && WellFormed(s) && TagsMatch(pk, s, store) && PerformableRun(pk, s, ops)
    requires |chal.indices| == |chal.coeffs|
    requires Answerable(ServerRun(pk, s, ops), chal, StoreRun(store, ops))
    requires HonestProof(ServerRun(pk, s, ops), chal, StoreRun(store, ops), proof)
    ensures var verdict := ClientRun(pk, Basis(s), ops, ServerResults(pk, s, ops));
            verdict.Accept? && AuditVerdictOf(pk, verdict.basis, chal, proof) == Accepted
  {
    hide Basis, AuditVerdictOf, ClientRun, TagsMatch, Answerable, HonestProof;
    RunKeepsFile(pk, s, store, ops);
    RunKeepsBases(pk, s, ops);
    HonestProofAccepted(pk, ServerRun(pk, s, ops), chal, StoreRun(store, ops), proof);
  }

  /** The code does not look at slack: any plateau block passes for any position, the challenged block unread. */
  lemma {:induction false} OtherBlockPasses(pk: PublicKey, s: seq<Block>, store: seq<nat>, held: nat, asked: int,
                                            coeff: nat)
    requires ValidKey(pk) && WellFormed(s) && TagsMatch(pk, s, store)
    requires 1 <= held <= |s| && !Tower(s, 0, held)
    ensures PathSteps(s, 0, held) != []
    ensures var chal := Challenge([asked], [coeff], |s|);
            var proof := AuditProof([Shifted(s, held, asked - held)], coeff * store[held - 1]);
            AuditVerdictOf(pk, Basis(s), chal, proof) == Accepted
  {
    hide Exp, PathAccepted, Basis, AuditVerdictOf, PathSteps, Slack;
    ShiftedAccepted(s, held, asked - held);
    var chal := Challenge([asked], [coeff], |s|);
    var proofs := [Shifted(s, held, asked - held)];
    AuditMeaning(pk, s, chal, store, AuditProof(proofs, coeff * store[held - 1]));
    assert Effective(chal, proofs).indices == [held];
    var c := Effective(chal, proofs);
    assert Combined(c, store, 1) == Combined(c, store, 0) + coeff * store[held - 1];
  }

  /** Whatever the prover sends, every tag that entered an accepted product is that of the block at the challenged
      position less the slack. */
  lemma {:induction false} AcceptedTagsAreMembers(pk: PublicKey, s: seq<Block>, chal: Challenge, proof: AuditProof,
                                                  t: nat)
    returns (i: nat)
    requires ValidKey(pk) && WellFormed(s) && |chal.indices| == |chal.coeffs|
    requires t < |chal.indices|
    requires AuditVerdictOf(pk, Basis(s), chal, proof) == Accepted
    ensures t < |proof.blocks| && 1 <= i <= |s| && chal.indices[t] == i + Slack(proof.blocks[t].steps)
    ensures TagValue(proof.blocks[t].target.tag) == s[i - 1].tag
  {
    hide Basis, Slack, Trace;
    i := AcceptedPosition(s, chal.indices[t], proof.blocks[t]);
  }
}
