/** The Bowers-Juels-Oprea proof of retrievability: encoding with precomputed sentinels, audits, and extraction. */
module Retrievability {
  import opened ModArith
  import opened NumberTheory
  import opened Gauss
  import opened ByteNumbers
  import opened Options
  import opened Pigeonhole
  import opened ReedSolomon
  import opened AdversarialCode
  import opened OuterCodeBytes
  import opened InnerCode
  import opened PhaseOne

  /** Inner code, number of sentinels, outer code, Phase I coverage and vote margin. */
  datatype Params = Params(inner: InnerParams, q: nat, outerN: nat, outerK: nat, alpha: nat, delta: real)

  ghost predicate ValidParams(p: Params) {
    p.inner.p > 0 && p.inner.w >= 1 && CanEncode(p.outerN, p.outerK)
  }

  /** What the master key determines: the outer code's secrets, the block order and column of each challenge, the
      sentinel cipher of each challenge, and the file MAC. */
  datatype MasterKey = MasterKey(outer: OuterKeys, challengeOrder: (nat, nat) -> seq<int>, column: nat -> nat,
                                 seal: (nat, Bytes) -> Bytes, open: (nat, Bytes) -> Option<Bytes>,
                                 mac: (seq<Bytes>, seq<Bytes>) -> Bytes)

  /** Orders are permutations, columns are in range, and opening undoes sealing. */
  ghost predicate ValidMaster(mk: MasterKey, p: Params) {
    && ValidKeys(mk.outer)
    && (forall j: nat, t: nat :: IsPermutation(mk.challengeOrder(j, t), t))
    && (forall j: nat :: 1 <= mk.column(j) <= p.inner.w)
    && (forall j: nat, x: Bytes :: mk.open(j, mk.seal(j, x)) == Some(x))
  }

  datatype EncodedFile = EncodedFile(blocks: seq<Bytes>, numMessage: nat, sentinels: seq<Bytes>, fileMac: Bytes)

  /** A store that lost nothing. */
  function Stored(code: seq<Bytes>): (r: seq<Option<Bytes>>)
    ensures |r| == |code| && forall i | 0 <= i < |r| :: r[i] == Some(code[i])
  {
    seq(|code|, i requires 0 <= i < |code| => Some(code[i]))
  }

  /** The blocks a challenge samples: the first v of its order. */
  function Sampled(order: seq<int>, v: nat): (r: seq<int>)
    requires v <= |order|
    ensures |r| == v && r <= order
  {
    order[..v]
  }

  lemma {:induction false} SampledInRange(order: seq<int>, t: nat, v: nat)
    requires IsPermutation(order, t) && v <= t
    ensures forall k | 0 <= k < v :: 0 <= Sampled(order, v)[k] < t
    ensures Distinct(Sampled(order, v))
  {
  }

  /** The answer a store that lost nothing gives to challenge j. */
  ghost function TrueResponse(mk: MasterKey, p: Params, code: seq<Bytes>, j: nat): (r: int)
    requires ValidParams(p) && ValidMaster(mk, p) && p.inner.v <= |code|
    ensures 0 <= r < p.inner.p
  {
    var order := mk.challengeOrder(j, |code|);
    assert IsPermutation(order, |code|);
    SampledInRange(order, |code|, p.inner.v);
    Response(p.inner, Stored(code), Sampled(order, p.inner.v), mk.column(j))
  }

  // ------------------------------------------------------------------ encoding

  /** Encode accepts a non-empty file of equal blocks; if Phase I is to be used they must fit below P. */
  ghost predicate Encodable(p: Params, file: seq<Bytes>)
    requires ValidParams(p)
  {
    && file != [] && SameLength(file, BlockSize(file))
    && (p.alpha > 0 ==> BitLen(p.inner.p) > 8 * BlockSize(file))
  }

  /** The codeword, one sealed answer per challenge, and the MAC over both. */
  ghost predicate IsEncodedFile(mk: MasterKey, p: Params, file: seq<Bytes>, ef: EncodedFile)
    requires ValidParams(p) && ValidMaster(mk, p) && SameLength(file, BlockSize(file))
  {
    && IsCodeword(mk.outer, file, p.outerN, p.outerK, ef.blocks) && ef.numMessage == |file|
    && p.inner.v <= |ef.blocks| && IsSentinels(mk, p, ef.blocks, p.q, ef.sentinels)
    && ef.fileMac == mk.mac(ef.blocks, ef.sentinels)
  }

  ghost predicate IsSentinels(mk: MasterKey, p: Params, code: seq<Bytes>, q: nat, sentinels: seq<Bytes>)
    requires ValidParams(p) && ValidMaster(mk, p) && p.inner.v <= |code|
  {
    |sentinels| == q && forall j | 1 <= j <= q ::
        sentinels[j - 1] == mk.seal(j, MToBytes(TrueResponse(mk, p, code, j), p.inner.p))
  }

  /** The length check on the blocks read from the store, and the size check on the first. */
  method CheckBlocks(p: Params, file: seq<Bytes>) returns (ok: bool)
    requires ValidParams(p)
    ensures file != [] ==> (ok <==> Encodable(p, file))
    ensures file == [] ==> ok
  {
    for i := 0 to |file|
      invariant forall k | 0 <= k < i :: |file[k]| == |file[0]|
      invariant i > 0 && p.alpha > 0 ==> BitLen(p.inner.p) > 8 * |file[0]|
    {
      if i == 0 {
        if p.alpha > 0 && BitLen(p.inner.p) <= 8 * |file[0]| { return false; }
      } else if |file[i]| != |file[0]| {
        return false;
      }
    }
    return true;
  }

  method Encode(mk: MasterKey, p: Params, file: seq<Bytes>) returns (r: Option<EncodedFile>)
    requires ValidParams(p) && ValidMaster(mk, p)
    requires file != [] ==> p.inner.v <= |file| + ParityTotal(|file|, p.outerN, p.outerK)
    ensures r.Some?
            <==> && file != [] && (forall i | 0 <= i < |file| :: |file[i]| == |file[0]|)
                 && (p.alpha > 0 ==> Pow(256, |file[0]|) <= p.inner.p)
    ensures r.Some? ==> Encodable(p, file) && IsEncodedFile(mk, p, file, r.value)
  {
    if file != [] { BitLenBytes(p.inner.p, |file[0]|); }
    hide ParityTotal, EncryptedParity, IsSentinels, BitLen, Pow;
    var ok := CheckBlocks(p, file);
    if !ok { return None; }
    var encoded := AdversarialCode.Encode(mk.outer, file, p.outerN, p.outerK);
    if encoded.None? { return None; }
    var sentinels := MakeSentinels(mk, p, encoded.value);
    return Some(EncodedFile(encoded.value, |file|, sentinels, mk.mac(encoded.value, sentinels)));
  }

  method MakeSentinels(mk: MasterKey, p: Params, encoded: seq<Bytes>) returns (sentinels: seq<Bytes>)
    requires ValidParams(p) && ValidMaster(mk, p) && p.inner.v <= |encoded|
    ensures IsSentinels(mk, p, encoded, p.q, sentinels)
  {
    hide Response, MToBytes;
    sentinels := [];
    for j := 1 to p.q + 1
      invariant IsSentinels(mk, p, encoded, j - 1, sentinels)
    {
      var order := mk.challengeOrder(j, |encoded|);
      assert IsPermutation(order, |encoded|);
      SampledInRange(order, |encoded|, p.inner.v);
      var M := InnerResponse(p.inner, Stored(encoded), Sampled(order, p.inner.v), mk.column(j));
      sentinels := sentinels + [mk.seal(j, MToBytes(M.value, p.inner.p))];
    }
  }

  // ------------------------------------------------------------------ audits

  /** Sentinel index, the order its key determines for any number of blocks, and the column. */
  datatype Challenge = Challenge(j: int, order: nat -> seq<int>, u: int)

  datatype Answer = Answer(mj: Bytes, qj: Bytes)

  method MakeChallenge(mk: MasterKey, p: Params, j: int) returns (r: Option<Challenge>)
    ensures r.Some? <==> 1 <= j <= p.q
    ensures r.Some? ==>
            && r.value.j == j && r.value.u == mk.column(j)
            && forall t: nat :: r.value.order(t) == mk.challengeOrder(j, t)
  {
    if j < 1 || j > p.q { return None; }
    return Some(Challenge(j, (t: nat) => mk.challengeOrder(j, t), mk.column(j)));
  }

  /** RespondFetch: refused for an index or column out of range and for a missing block. */
  method RespondFetch(p: Params, sentinels: seq<Bytes>, chal: Challenge, store: seq<Option<Bytes>>)
    returns (r: Option<Answer>)
    requires ValidParams(p) && |sentinels| == p.q && p.inner.v <= |store|
    requires IsPermutation(chal.order(|store|), |store|)
    ensures r.Some? <==>
            && 1 <= chal.j <= p.q && 1 <= chal.u <= p.inner.w
            && Present(store, Sampled(chal.order(|store|), p.inner.v))
    ensures r.Some? ==>
              r.value == Answer(MToBytes(Response(p.inner, store, Sampled(chal.order(|store|), p.inner.v), chal.u),
                                         p.inner.p),
                                sentinels[chal.j - 1])
  {
    hide Response, MToBytes;
    if chal.j < 1 || chal.j > p.q { return None; }
    if chal.u < 1 || chal.u > p.inner.w { return None; }
    SampledInRange(chal.order(|store|), |store|, p.inner.v);
    var indices := Sampled(chal.order(|store|), p.inner.v);
    var M := InnerResponse(p.inner, store, indices, chal.u);
    if M.None? { return None; }
    return Some(Answer(MToBytes(M.value, p.inner.p), sentinels[chal.j - 1]));
  }

  /** Verify: an error for an index out of range; a sentinel that does not open is a failed audit. */
  method Verify(mk: MasterKey, p: Params, j: int, answer: Answer) returns (r: Option<bool>)
    ensures r.None? <==> !(1 <= j <= p.q)
    ensures r.Some? ==> (r.value <==> mk.open(j, answer.qj) == Some(answer.mj))
  {
    if j < 1 || j > p.q { return None; }
    var decrypted := mk.open(j, answer.qj);
    if decrypted.None? { return Some(false); }
    return Some(decrypted.value == answer.mj);
  }

  /** What an audit tells, exactly: the server's answer to challenge j from the blocks it holds is accepted if and only
      if those blocks combine to the same residue as the encoded ones. */
  lemma {:induction false} AuditExact(mk: MasterKey, p: Params, file: seq<Bytes>, ef: EncodedFile, j: nat,
                                      store: seq<Option<Bytes>>)
    requires ValidParams(p) && ValidMaster(mk, p)
    requires SameLength(file, BlockSize(file)) && IsEncodedFile(mk, p, file, ef)
    requires 1 <= j <= p.q && |store| == |ef.blocks|
    requires Present(store, Sampled(mk.challengeOrder(j, |store|), p.inner.v))
    ensures var m := Response(p.inner, store, Sampled(mk.challengeOrder(j, |store|), p.inner.v), mk.column(j));
            mk.open(j, ef.sentinels[j - 1]) == Some(MToBytes(m, p.inner.p)) <==> m == TrueResponse(mk, p, ef.blocks, j)
  {
    hide MToBytes, Response, IsCodeword;
    var m, truth := Response(p.inner, store, Sampled(mk.challengeOrder(j, |store|), p.inner.v), mk.column(j)),
                    TrueResponse(mk, p, ef.blocks, j);
    MToBytesRoundTrip(m, p.inner.p);
    MToBytesRoundTrip(truth, p.inner.p);
    assert mk.open(j, mk.seal(j, MToBytes(truth, p.inner.p))) == Some(MToBytes(truth, p.inner.p));
  }

  /** What an audit sees of one block: the store is the encoded one but for the block at place k of the challenge's
      order, which is b there. The answer to the challenge is accepted if and only if the place is not among the first
      v, or the difference of the two blocks as numbers, times the entry of the generator matrix for the place and the
      column, vanishes modulo p. */
  lemma {:induction false} ChangedBlockAudit(mk: MasterKey, p: Params, file: seq<Bytes>, ef: EncodedFile, j: nat,
                                             k: nat, b: Bytes)
    requires ValidParams(p) && ValidMaster(mk, p)
    requires SameLength(file, BlockSize(file)) && IsEncodedFile(mk, p, file, ef)
    requires 1 <= j <= p.q && k < |ef.blocks| && IsPermutation(mk.challengeOrder(j, |ef.blocks|), |ef.blocks|)
    ensures var order := mk.challengeOrder(j, |ef.blocks|);
            var store := Stored(ef.blocks)[order[k] := Some(b)];
            && Present(store, Sampled(order, p.inner.v))
            && (mk.open(j, ef.sentinels[j - 1])
                == Some(MToBytes(Response(p.inner, store, Sampled(order, p.inner.v), mk.column(j)), p.inner.p))
                <==> || k >= p.inner.v
                     || ((SetBytes(ef.blocks[order[k]]) - SetBytes(b)) * p.inner.gen(mk.column(j), k + 1)) % p.inner.p
                        == 0)
  {
    hide MToBytes, Response, IsCodeword, SetBytes;
    var order, full := mk.challengeOrder(j, |ef.blocks|), Stored(ef.blocks);
    var store, sampled := full[order[k] := Some(b)], Sampled(order, p.inner.v);
    SampledInRange(order, |ef.blocks|, p.inner.v);
    assert Present(full, sampled) && Present(store, sampled);
    AuditExact(mk, p, file, ef, j, store);
    if k < p.inner.v {
      assert sampled[k] == order[k];
      ChangedBlock(p.inner, full, sampled, mk.column(j), k, b);
    } else {
      assert forall t | 0 <= t < p.inner.v :: sampled[t] == order[t] != order[k];
      SameResponse(p.inner, full, store, sampled, mk.column(j));
    }
  }

  /** A response depends on the sampled blocks alone. */
  lemma {:induction false} SameResponse(ip: InnerParams, blocks: seq<Option<Bytes>>, blocks': seq<Option<Bytes>>,
                                        indices: seq<int>, u: nat)
    requires ip.p > 0 && |indices| == ip.v && Present(blocks, indices) && Present(blocks', indices)
    requires forall t | 0 <= t < ip.v :: blocks[indices[t]] == blocks'[indices[t]]
    ensures Response(ip, blocks, indices, u) == Response(ip, blocks', indices, u)
  {
    assert FieldElements(blocks, indices, ip.p) == FieldElements(blocks', indices, ip.p);
  }

  /** The whole audit of a server that holds b at place k of the challenge's order: challenge, answer, verdict. */
  method AuditChangedBlock(mk: MasterKey, p: Params, ghost file: seq<Bytes>, ef: EncodedFile, j: nat, k: nat, b: Bytes)
    returns (accepted: bool)
    requires ValidParams(p) && ValidMaster(mk, p)
    requires SameLength(file, BlockSize(file)) && IsEncodedFile(mk, p, file, ef)
    requires 1 <= j <= p.q && k < |ef.blocks| && IsPermutation(mk.challengeOrder(j, |ef.blocks|), |ef.blocks|)
    ensures accepted
            <==> || k >= p.inner.v
                 || ((SetBytes(ef.blocks[mk.challengeOrder(j, |ef.blocks|)[k]]) - SetBytes(b))
                     * p.inner.gen(mk.column(j), k + 1)) % p.inner.p == 0
  {
    hide MToBytes, Response, IsCodeword, SetBytes;
    var store := Stored(ef.blocks)[mk.challengeOrder(j, |ef.blocks|)[k] := Some(b)];
    ChangedBlockAudit(mk, p, file, ef, j, k, b);
    var chal := MakeChallenge(mk, p, j);
    var answer := RespondFetch(p, ef.sentinels, chal.value, store);
    var verdict := Verify(mk, p, j, answer.value);
    return verdict.value;
  }

  /** In particular an honest server is accepted. */
  lemma {:induction false} HonestAnswerAccepted(mk: MasterKey, p: Params, file: seq<Bytes>, ef: EncodedFile, j: nat)
    requires ValidParams(p) && ValidMaster(mk, p)
    requires SameLength(file, BlockSize(file)) && IsEncodedFile(mk, p, file, ef)
    requires 1 <= j <= p.q
    ensures var order := mk.challengeOrder(j, |ef.blocks|);
            && IsPermutation(order, |ef.blocks|) && Present(Stored(ef.blocks), Sampled(order, p.inner.v))
            && mk.open(j, ef.sentinels[j - 1])
               == Some(MToBytes(Response(p.inner, Stored(ef.blocks), Sampled(order, p.inner.v), mk.column(j)),
                                p.inner.p))
  {
    hide MToBytes, Response, IsCodeword;
    assert IsPermutation(mk.challengeOrder(j, |ef.blocks|), |ef.blocks|);
    SampledInRange(mk.challengeOrder(j, |ef.blocks|), |ef.blocks|, p.inner.v);
    AuditExact(mk, p, file, ef, j, Stored(ef.blocks));
  }

  // ------------------------------------------------------------------ extraction

  datatype Extraction = DecodeFailed | MacMismatch(file: seq<Bytes>) | Recovered(file: seq<Bytes>)

  /** The blocks handed to Phase II. */
  ghost function PhaseTwoInput(p: Params, received: seq<Option<Bytes>>,
                               seeds: seq<Option<seq<int>>>): seq<Option<Bytes>>
    requires ValidParams(p)
  {
    if p.alpha > 0 then Recoveries(p.inner, p.delta, received, seeds) else received
  }

  /** Phase II and the MAC check: a failed decoding, or the decoded file with the verdict on its MAC. */
  ghost predicate IsExtraction(mk: MasterKey, p: Params, input: seq<Option<Bytes>>, m: nat, sentinels: seq<Bytes>,
                               fileMac: Bytes, r: Extraction)
    requires ValidParams(p) && ValidMaster(mk, p)
  {
    match r
    case DecodeFailed => IsOutcome(mk.outer, input, m, p.outerN, p.outerK, None)
    case MacMismatch(file) =>
      && IsOutcome(mk.outer, input, m, p.outerN, p.outerK, Some(file)) && SameLength(file, BlockSize(file))
      && mk.mac(Codeword(mk.outer, file, p.outerN, p.outerK), sentinels) != fileMac
    case Recovered(file) =>
      && IsOutcome(mk.outer, input, m, p.outerN, p.outerK, Some(file)) && SameLength(file, BlockSize(file))
      && mk.mac(Codeword(mk.outer, file, p.outerN, p.outerK), sentinels) == fileMac
  }

  /** Decoded blocks have the size of the received ones, and there is at least one. */
  lemma {:induction false} DecodedFile(keys: OuterKeys, received: seq<Option<Bytes>>, m: nat, n: nat, k: nat,
                                       file: seq<Bytes>)
    requires ValidKeys(keys) && CanEncode(n, k)
    requires IsOutcome(keys, received, m, n, k, Some(file))
    ensures SameLength(file, FirstSize(received)) && file != []
    ensures BlockSize(file) == FirstSize(received)
  {
    hide ParityTotal, ParityOf, StripeDecoded;
    var size, perm, parity := FirstSize(received), keys.filePerm(m), ParityOf(keys, received, m, ParityTotal(m, n, k));
    if m == 0 {
      NoFile(n, k);
      NothingThere(received);
    }
    forall v | 0 <= v < m ensures |file[v]| == size {
      var i := PermutationHits(perm, m, v);
      var s, j := StripeOf(m, k, i);
      assert StripeDecoded(received, m, size, perm, n, k, parity, s, file);
      DecodedBlockSize(received, m, size, perm, n, k, parity, s, file, j);
    }
  }

  lemma {:induction false} NoFile(n: nat, k: nat)
    requires 1 <= k <= n
    ensures ParityTotal(0, n, k) == 0
  {
    assert StripeCount(0, k) == 0 by { ModUnique(k - 1, 0, k - 1, k); }
    assert 0 * (n - k) == 0;
  }

  lemma {:induction false} NothingThere(received: seq<Option<Bytes>>)
    ensures received == [] ==> FirstSize(received) == 0
  {
  }

  lemma {:induction false} DecodedBlockSize(received: seq<Option<Bytes>>, m: nat, size: nat, perm: seq<int>, n: nat,
                                            k: nat, parity: seq<Option<Bytes>>, s: nat, file: seq<Bytes>, j: nat)
    requires IsPermutation(perm, m) && m <= |received| && CanEncode(n, k)
    requires StripeDecoded(received, m, size, perm, n, k, parity, s, file) && j < k
    requires Slot(s, k, j) < m
    ensures |file[perm[Slot(s, k, j)]]| == size
  {
    hide IsDecoding, SurvivorCount, Slot;
    var r := ReceivedStripe(received, m, size, perm, n, k, parity, s);
    var message: seq<Bytes> :| |message| == k && IsDecoding(r, k, size, message)
      && forall j | 0 <= j < k && Slot(s, k, j) < m :: file[perm[Slot(s, k, j)]] == message[j];
    EnoughSurvivors(r, k, 0);
    MessageSize(r, k, size, message, j);
  }

  lemma {:induction false} MessageSize(r: seq<Option<Bytes>>, k: nat, size: nat, message: seq<Bytes>, j: nat)
    requires k <= |r| && UniformSurvivors(r, size)
    requires IsDecoding(r, k, size, message) && j < k == |message|
    ensures |message[j]| == size
  {
    hide Survivors;
  }

  method Extract(mk: MasterKey, p: Params, received: seq<Option<Bytes>>, numMessage: nat, sentinels: seq<Bytes>,
                 fileMac: Bytes, seeds: seq<Option<seq<int>>>) returns (r: Extraction)
    requires ValidParams(p) && ValidMaster(mk, p)
    requires CanDecode(p.outerN, p.outerK, PhaseTwoInput(p, received, seeds))
    requires UniformSurvivors(received, FirstSize(received))
    requires p.alpha > 0 ==>
               && IsPrime(p.inner.p) && 1 <= p.inner.v <= |received| && Pow(256, FirstSize(received)) <= p.inner.p
               && |seeds| == GroupCount(p.alpha, |received|, p.inner.v) && ValidSeeds(seeds, |received|)
    ensures IsExtraction(mk, p, PhaseTwoInput(p, received, seeds), numMessage, sentinels, fileMac, r)
  {
    hide IsOutcome, IsCodeword, Pow, Recovery, UniformSurvivors, FirstSize, GroupCount;
    var phaseIIBlocks := received;
    if p.alpha > 0 {
      phaseIIBlocks := ExtractPhaseI(p.inner, p.delta, p.alpha, received, seeds);
      RecoveriesUniform(p.inner, p.delta, received, seeds);
    }
    var file := AdversarialCode.Decode(mk.outer, phaseIIBlocks, numMessage, p.outerN, p.outerK);
    if file.None? { return DecodeFailed; }
    DecodedFile(mk.outer, phaseIIBlocks, numMessage, p.outerN, p.outerK, file.value);
    var reEncoded := AdversarialCode.Encode(mk.outer, file.value, p.outerN, p.outerK);
    CodewordUnique(mk.outer, file.value, p.outerN, p.outerK, reEncoded.value,
                   Codeword(mk.outer, file.value, p.outerN, p.outerK));
    if mk.mac(reEncoded.value, sentinels) != fileMac {
      return MacMismatch(file.value);
    }
    return Recovered(file.value);
  }

  lemma {:induction false} RecoveriesUniform(ip: InnerParams, delta: real, blocks: seq<Option<Bytes>>,
                                             seeds: seq<Option<seq<int>>>)
    requires ip.p > 0 && UniformSurvivors(blocks, FirstSize(blocks))
    ensures var r := Recoveries(ip, delta, blocks, seeds); UniformSurvivors(r, FirstSize(r))
  {
    hide Decodable, Covered, FirstSize;
    var r := Recoveries(ip, delta, blocks, seeds);
    FirstSizeFound(r, FirstSize(blocks));
  }

  lemma {:induction false} PhaseOneKeepsReception(p: Params, code: seq<Bytes>, received: seq<Option<Bytes>>,
                                                  seeds: seq<Option<seq<int>>>)
    requires ValidParams(p) && IsReception(code, received)
    ensures IsReception(code, PhaseTwoInput(p, received, seeds))
  {
    hide Decodable, Covered, FirstSize;
    var input := PhaseTwoInput(p, received, seeds);
    forall i | 0 <= i < |code| ensures input[i] == None || input[i] == Some(code[i]) {
      if p.alpha > 0 { RecoveriesAreStored(p.inner, p.delta, received, seeds, i); }
    }
  }

  /** Extraction, exactly: from what is left of an encoded file the original file comes back with its MAC verified if
      its blocks are not empty and every stripe of the Phase II input kept enough of them, and decoding fails
      otherwise. */
  lemma {:induction false} ExtractionExact(mk: MasterKey, p: Params, file: seq<Bytes>, ef: EncodedFile,
                                           received: seq<Option<Bytes>>, seeds: seq<Option<seq<int>>>, r: Extraction)
    requires ValidParams(p) && ValidMaster(mk, p) && file != []
    requires SameLength(file, BlockSize(file)) && IsEncodedFile(mk, p, file, ef)
    requires IsReception(ef.blocks, received)
    requires IsExtraction(mk, p, PhaseTwoInput(p, received, seeds), |file|, ef.sentinels, ef.fileMac, r)
    ensures var m, t, input := |file|, ParityTotal(|file|, p.outerN, p.outerK), PhaseTwoInput(p, received, seeds);
      && IsPermutation(mk.outer.filePerm(m), m) && |input| == m + t
      && r == if BlockSize(file) > 0
          && Recoverable(input, m, BlockSize(file), mk.outer.filePerm(m), p.outerN, p.outerK,
                         ParityOf(mk.outer, input, m, t))
              then Recovered(file) else DecodeFailed
  {
    hide IsOutcome, Recoverable, ParityOf, ParityTotal, PhaseTwoInput, IsSentinels, IsReception, StripeCount;
    hide EncryptedParity;
    var input := PhaseTwoInput(p, received, seeds);
    PhaseOneKeepsReception(p, ef.blocks, received, seeds);
    var outcome := if r.DecodeFailed? then None else Some(r.file);
    OutcomeOfReception(mk.outer, file, p.outerN, p.outerK, ef.blocks, input, outcome);
    CodewordUnique(mk.outer, file, p.outerN, p.outerK, ef.blocks, Codeword(mk.outer, file, p.outerN, p.outerK));
  }

  /** Extraction on the blocks themselves. The input of Phase II is what arrived, or with Phase I only those blocks that
      some group challenges among blocks that all arrived, provided that the vote can be won, the public matrix can be
      inverted and some block is not empty. The file comes back, verified, if its blocks are not empty and every stripe
      has enough of that input: file blocks, parity blocks and padding together at least k. */
  lemma {:induction false} ExtractionCounted(mk: MasterKey, p: Params, file: seq<Bytes>, ef: EncodedFile,
                                             received: seq<Option<Bytes>>, seeds: seq<Option<seq<int>>>, r: Extraction,
                                             input: seq<Option<Bytes>>, t: nat, arrived: seq<nat>)
    requires ValidParams(p) && ValidMaster(mk, p) && file != []
    requires SameLength(file, BlockSize(file)) && IsEncodedFile(mk, p, file, ef)
    requires IsReception(ef.blocks, received) && (p.alpha > 0 ==> ValidSeeds(seeds, |received|))
    requires IsExtraction(mk, p, PhaseTwoInput(p, received, seeds), |file|, ef.sentinels, ef.fileMac, r)
    requires |input| == |received|
    requires forall i | 0 <= i < |input| ::
               input[i] ==
               if || p.alpha == 0
                  || (&& p.delta <= 0.5 && p.inner.v <= p.inner.w
                      && !HasKernel(GenMatrix(p.inner), p.inner.v, p.inner.p)
                      && (exists j :: 0 <= j < |received| && received[j].Some? && received[j].value != [])
                      && (exists g :: 0 <= g < |seeds| && seeds[g].Some? && i in seeds[g].value[..p.inner.v]
                                      && forall t | t in seeds[g].value[..p.inner.v] :: received[t].Some?))
               then received[i] else None
    requires |input| == |file| + t
    requires IsPermutation(mk.outer.filePerm(|file|), |file|) && IsPermutation(mk.outer.parityPerm(t), t)
    requires AreCounts(arrived, mk.outer, input, |file|, t, p.outerN, p.outerK)
    ensures r == if file[0] != [] && forall s | 0 <= s < |arrived| :: arrived[s] >= p.outerK then Recovered(file)
                 else DecodeFailed
  {
    hide HasKernel, IsExtraction, IsSentinels, Recoverable, ParityOf, ParityTotal, IsCodeword, Recoveries, AreCounts;
    ExtractionExact(mk, p, file, ef, received, seeds, r);
    if p.alpha > 0 {
      ReceptionSizes(mk.outer, file, p.outerN, p.outerK, ef.blocks, received);
      RecoveredMeans(p.inner, p.delta, received, seeds);
      RecoveryCount(p.inner, p.delta, received, seeds);
    }
    assert input == PhaseTwoInput(p, received, seeds);
    RecoverableCounts(mk.outer, input, |file|, t, BlockSize(file), p.outerN, p.outerK, arrived);
  }

  lemma {:induction false} AllSurvive(r: seq<Option<Bytes>>, i: nat)
    requires i <= |r| && forall j | i <= j < |r| :: r[j].Some?
    ensures SurvivorCount(r, i) == |r| - i
    decreases |r| - i
  {
    if i < |r| { AllSurvive(r, i + 1); }
  }

  lemma {:induction false} AllPresentRecoverable(keys: OuterKeys, file: seq<Bytes>, n: nat, k: nat, code: seq<Bytes>)
    requires ValidKeys(keys) && SameLength(file, BlockSize(file))
    requires CanEncode(n, k) && IsCodeword(keys, file, n, k, code)
    ensures var m, t := |file|, ParityTotal(|file|, n, k);
      && IsPermutation(keys.filePerm(m), m) && |Stored(code)| == m + t
      && Recoverable(Stored(code), m, BlockSize(file), keys.filePerm(m), n, k, ParityOf(keys, Stored(code), m, t))
  {
    hide ParityTotal, StripeCount, ParityOf, EncryptedParity, Slot;
    var m, t, received, perm := |file|, ParityTotal(|file|, n, k), Stored(code), keys.filePerm(|file|);
    assert IsPermutation(perm, m) && IsPermutation(keys.parityPerm(t), t);
    var parity := ParityOf(keys, received, m, t);
    forall q | 0 <= q < t ensures parity[q].Some? {
      var i := PermutationHits(keys.parityPerm(t), t, q);
      assert received[m + i].Some?;
    }
    NothingLost(received, m, BlockSize(file), perm, n, k, parity);
  }

  lemma {:induction false} NothingLost(received: seq<Option<Bytes>>, m: nat, size: nat, perm: seq<int>, n: nat,
                                       k: nat, parity: seq<Option<Bytes>>)
    requires IsPermutation(perm, m) && m <= |received| && 1 <= k <= n
    requires |parity| == ParityTotal(m, n, k)
    requires (forall i | 0 <= i < |received| :: received[i].Some?)
    requires (forall q | 0 <= q < |parity| :: parity[q].Some?)
    ensures Recoverable(received, m, size, perm, n, k, parity)
  {
    hide StripeCount, Slot, SurvivorCount;
    forall s | 0 <= s < StripeCount(m, k) ensures StripeKept(received, m, size, perm, n, k, parity, s) {
      SlotBound(m, n, k, s);
      StripePresent(received, m, size, perm, n, k, parity, s);
    }
  }

  lemma {:induction false} StripePresent(received: seq<Option<Bytes>>, m: nat, size: nat, perm: seq<int>, n: nat,
                                         k: nat, parity: seq<Option<Bytes>>, s: nat)
    requires IsPermutation(perm, m) && m <= |received| && 1 <= k <= n
    requires Slot(s, n - k, n - k) <= |parity|
    requires (forall i | 0 <= i < |received| :: received[i].Some?)
    requires (forall q | 0 <= q < |parity| :: parity[q].Some?)
    ensures SurvivorCount(ReceivedStripe(received, m, size, perm, n, k, parity, s), 0) >= k
  {
    var r := ReceivedStripe(received, m, size, perm, n, k, parity, s);
    AllSurvive(r, 0);
  }

  /** Phase I and Phase II together on a store that lost nothing: if its positions all occur in some group, the file
      comes back with its MAC verified. */
  lemma {:induction false} IntactExtracted(mk: MasterKey, p: Params, file: seq<Bytes>, ef: EncodedFile,
                                           seeds: seq<Option<seq<int>>>, group: seq<nat>, r: Extraction)
    requires ValidParams(p) && ValidMaster(mk, p) && file != [] && BlockSize(file) > 0
    requires SameLength(file, BlockSize(file)) && IsEncodedFile(mk, p, file, ef)
    requires p.alpha > 0 && p.delta <= 0.5 && p.inner.v <= p.inner.w
    requires !HasKernel(GenMatrix(p.inner), p.inner.v, p.inner.p)
    requires ValidSeeds(seeds, |ef.blocks|) && |group| == |ef.blocks|
    requires forall i | 0 <= i < |group| ::
               group[i] < |seeds| && seeds[group[i]].Some? && i in seeds[group[i]].value[..p.inner.v]
    requires IsExtraction(mk, p, PhaseTwoInput(p, Stored(ef.blocks), seeds), |file|, ef.sentinels, ef.fileMac, r)
    ensures r == Recovered(file)
  {
    hide HasKernel, IsExtraction, IsSentinels, Recoverable, ParityOf, ParityTotal, IsCodeword, Recoveries;
    hide EncryptedParity;
    var received := Stored(ef.blocks);
    CodeSizes(mk.outer, file, p.outerN, p.outerK, ef.blocks);
    IntactComesBack(p.inner, p.delta, received, seeds, group);
    ExtractionExact(mk, p, file, ef, received, seeds, r);
    AllPresentRecoverable(mk.outer, file, p.outerN, p.outerK, ef.blocks);
  }

  // ------------------------------------------------------------------ corrupted blocks

  /** All bytes in order. */
  function Flat(blocks: seq<Bytes>): Bytes {
    if blocks == [] then [] else blocks[0] + Flat(blocks[1..])
  }

  /** The MAC reads the blocks and then the sentinels as one stream of bytes, and no two streams have the same MAC. */
  ghost predicate CollisionFree(mk: MasterKey) {
    forall a: seq<Bytes>, b: seq<Bytes>, c: seq<Bytes>, d: seq<Bytes> ::
      mk.mac(a, b) == mk.mac(c, d) ==> Flat(a) + Flat(b) == Flat(c) + Flat(d)
  }

  lemma {:induction false} FlatLength(blocks: seq<Bytes>, size: nat)
    requires SameLength(blocks, size)
    ensures |Flat(blocks)| == |blocks| * size
  {
    if blocks != [] {
      FlatLength(blocks[1..], size);
      assert |blocks| * size == size + (|blocks| - 1) * size;
    }
  }

  lemma {:induction false} FlatInjective(a: seq<Bytes>, b: seq<Bytes>, size: nat)
    requires |a| == |b| && SameLength(a, size) && SameLength(b, size) && Flat(a) == Flat(b)
    ensures a == b
  {
    if a != [] {
      assert a[0] == Flat(a)[..size] == Flat(b)[..size] == b[0];
      assert Flat(a[1..]) == Flat(a)[size..] == Flat(b)[size..] == Flat(b[1..]);
      FlatInjective(a[1..], b[1..], size);
      assert a == [a[0]] + a[1..] && b == [b[0]] + b[1..];
    }
  }

  lemma {:induction false} SameProduct(c: nat, x: nat, y: nat)
    requires c > 0 && c * x == c * y
    ensures x == y
  {
    assert c * (x - y) == 0;
  }

  lemma {:induction false} CodeSizes(keys: OuterKeys, file: seq<Bytes>, n: nat, k: nat, code: seq<Bytes>)
    requires ValidKeys(keys) && SameLength(file, BlockSize(file))
    requires CanEncode(n, k) && IsCodeword(keys, file, n, k, code)
    ensures SameLength(code, BlockSize(file)) && |code| == |file| + ParityTotal(|file|, n, k)
    ensures |code| >= |file| && code[..|file|] == file
  {
    hide EncryptedParity, ParityTotal;
    forall i | 0 <= i < |code| ensures |code[i]| == BlockSize(file) {
      CodeBlockSize(keys, file, n, k, code, i);
    }
  }

  /** Codes of files with equally many blocks are the same if their bytes are, followed by equally many others. */
  lemma {:induction false} SameStream(code: seq<Bytes>, size: nat, code': seq<Bytes>, size': nat, tail: Bytes,
                                      tail': Bytes)
    requires SameLength(code, size) && SameLength(code', size') && |code| == |code'| > 0 && |tail| == |tail'|
    requires Flat(code) + tail == Flat(code') + tail'
    ensures code == code' && tail == tail'
  {
    FlatLength(code, size);
    FlatLength(code', size');
    SameProduct(|code|, size, size');
    var stream, split := Flat(code) + tail, |Flat(code)|;
    assert Flat(code) == stream[..split] && tail == stream[split..];
    assert Flat(code') == stream[..split] && tail' == stream[split..];
    FlatInjective(code, code', size);
  }

  /** What a passed MAC check means, whatever arrived: from blocks and sentinels of any origin, corrupted or not, a file
      that comes back verified is the encoded one. */
  lemma {:induction false} VerifiedIsOriginal(mk: MasterKey, p: Params, file: seq<Bytes>, ef: EncodedFile,
                                              input: seq<Option<Bytes>>, sentinels: seq<Bytes>, found: seq<Bytes>)
    requires ValidParams(p) && ValidMaster(mk, p) && CollisionFree(mk) && file != []
    requires SameLength(file, BlockSize(file)) && IsEncodedFile(mk, p, file, ef)
    requires |Flat(sentinels)| == |Flat(ef.sentinels)|
    requires IsExtraction(mk, p, input, ef.numMessage, sentinels, ef.fileMac, Recovered(found))
    ensures found == file && Flat(sentinels) == Flat(ef.sentinels)
  {
    hide IsCodeword, IsSentinels, ParityTotal, Flat, DecodedUpTo, Recoverable, ParityOf;
    var code := Codeword(mk.outer, found, p.outerN, p.outerK);
    CodeSizes(mk.outer, found, p.outerN, p.outerK, code);
    CodeSizes(mk.outer, file, p.outerN, p.outerK, ef.blocks);
    assert mk.mac(code, sentinels) == mk.mac(ef.blocks, ef.sentinels);
    SameStream(code, BlockSize(found), ef.blocks, BlockSize(file), Flat(sentinels), Flat(ef.sentinels));
  }

  // ------------------------------------------------------------------ an outer code of the caller's own

  /** ExtractPhaseIStore: Phase I alone; an error when its coverage is zero. */
  method ExtractPhaseIStore(p: Params, received: seq<Option<Bytes>>, seeds: seq<Option<seq<int>>>)
    returns (r: Option<seq<Option<Bytes>>>)
    requires ValidParams(p) && UniformSurvivors(received, FirstSize(received))
    requires p.alpha > 0 ==>
               && IsPrime(p.inner.p) && 1 <= p.inner.v <= |received| && Pow(256, FirstSize(received)) <= p.inner.p
               && |seeds| == GroupCount(p.alpha, |received|, p.inner.v) && ValidSeeds(seeds, |received|)
    ensures r == if p.alpha == 0 then None else Some(PhaseTwoInput(p, received, seeds))
  {
    hide FirstSize, Pow, Recovery, UniformSurvivors, GroupCount;
    if p.alpha <= 0 { return None; }
    var recovered := ExtractPhaseI(p.inner, p.delta, p.alpha, received, seeds);
    return Some(recovered);
  }

  /** VerifyFileMAC: whether the file, encoded again, has the stored MAC; an error for an empty file. */
  method VerifyFileMac(mk: MasterKey, p: Params, sentinels: seq<Bytes>, fileMac: Bytes, file: seq<Bytes>)
    returns (r: Option<bool>)
    requires ValidParams(p) && ValidMaster(mk, p) && SameLength(file, BlockSize(file))
    ensures r.None? <==> file == []
    ensures r.Some? ==> (r.value <==> mk.mac(Codeword(mk.outer, file, p.outerN, p.outerK), sentinels) == fileMac)
  {
    hide IsCodeword;
    var reEncoded := AdversarialCode.Encode(mk.outer, file, p.outerN, p.outerK);
    if reEncoded.None? { return None; }
    CodewordUnique(mk.outer, file, p.outerN, p.outerK, reEncoded.value, Codeword(mk.outer, file, p.outerN, p.outerK));
    return Some(mk.mac(reEncoded.value, sentinels) == fileMac);
  }

  /** What the plain encoder uploads; it has blocks of one length, so it is a file Encode accepts the shape of. */
  ghost function PlainStore(raw: seq<Bytes>, n: nat, k: nat): (store: seq<Bytes>)
    requires ValidKeys(PlainKeys()) && CanEncode(n, k) && raw != []
    requires SameLength(raw, BlockSize(raw))
    ensures IsCodeword(PlainKeys(), raw, n, k, store)
    ensures SameLength(store, BlockSize(store)) && BlockSize(store) == BlockSize(raw)
  {
    StoreUniform(raw, n, k);
    Codeword(PlainKeys(), raw, n, k)
  }

  /** The documented use of the plain erasure code under a pass-through outer code, of any length: what is uploaded is
      the plain codeword; after losses, Phase I and the plain decoder give the raw file back exactly when every stripe
      of what Phase I recovered kept enough blocks; and the raw file, encoded again, passes the MAC check. */
  lemma {:induction false} ExternalCodeExact(mk: MasterKey, p: Params, raw: seq<Bytes>, n: nat, k: nat,
                                             ef: EncodedFile, received: seq<Option<Bytes>>,
                                             seeds: seq<Option<seq<int>>>, decoded: Option<seq<Bytes>>)
    requires ValidParams(p) && ValidMaster(mk, p) && p.outerN == p.outerK
    requires p.alpha > 0 && ValidKeys(PlainKeys()) && CanEncode(n, k)
    requires raw != [] && SameLength(raw, BlockSize(raw))
    requires IsEncodedFile(mk, p, PlainStore(raw, n, k), ef)
    requires IsReception(ef.blocks, received)
    requires IsOutcome(PlainKeys(), PhaseTwoInput(p, received, seeds), |raw|, n, k, decoded)
    ensures var store, m, t, input := PlainStore(raw, n, k), |raw|, ParityTotal(|raw|, n, k),
            PhaseTwoInput(p, received, seeds);
      && ef.blocks == store && IsPermutation(PlainKeys().filePerm(m), m) && |input| == m + t
      && decoded == (if BlockSize(raw) > 0 && Recoverable(input, m, BlockSize(raw), PlainKeys().filePerm(m), n, k,
                                                          ParityOf(PlainKeys(), input, m, t))
                     then Some(raw) else None)
      && mk.mac(Codeword(mk.outer, store, p.outerN, p.outerK), ef.sentinels) == ef.fileMac
  {
    hide IsOutcome, IsCodeword, Recoverable, ParityOf, ParityTotal, PhaseTwoInput, IsSentinels, IsReception;
    hide StripeCount;
    hide PlainKeys, PlainStore;
    var store := PlainStore(raw, n, k);
    PassThrough(mk.outer, store, p.outerK, ef.blocks);
    CodewordUnique(mk.outer, store, p.outerN, p.outerK, ef.blocks, Codeword(mk.outer, store, p.outerN, p.outerK));
    PhaseOneKeepsReception(p, ef.blocks, received, seeds);
    OutcomeOfReception(PlainKeys(), raw, n, k, store, PhaseTwoInput(p, received, seeds), decoded);
  }

  /** The plain codeword has blocks of one length, that of the raw blocks. */
  lemma {:induction false} StoreUniform(raw: seq<Bytes>, n: nat, k: nat)
    requires ValidKeys(PlainKeys()) && CanEncode(n, k) && raw != []
    requires SameLength(raw, BlockSize(raw))
    ensures var store := Codeword(PlainKeys(), raw, n, k);
            SameLength(store, BlockSize(raw)) && BlockSize(store) == BlockSize(raw)
  {
  }
}
