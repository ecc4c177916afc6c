/** The private-key Shacham-Waters scheme: tags, proofs and the verification equation. */
module ShachamWaters {
  import opened ModArith
  import opened LinearSystems
  import opened ByteNumbers
  import opened Options

  /** s sectors to a block, modulus p. */
  datatype Params = Params(s: nat, p: int)

  ghost predicate ValidParams(params: Params) {
    params.s >= 1 && params.p > 1
  }

  /** The PRF under the client's key, and the secret scalars. */
  datatype SecretKey = SecretKey(prf: Bytes -> nat, alpha: seq<int>, params: Params)

  ghost predicate ValidKey(sk: SecretKey) {
    ValidParams(sk.params) && |sk.alpha| == sk.params.s
  }

  datatype Challenge = Challenge(indices: seq<nat>, coeffs: seq<int>)

  /** One coefficient to each challenged position of a store with n blocks. */
  ghost predicate ValidChallenge(chal: Challenge, n: nat) {
    |chal.coeffs| == |chal.indices| && forall t | 0 <= t < |chal.indices| :: chal.indices[t] < n
  }

  datatype Proof = Proof(sigma: int, mu: seq<int>)

  // ------------------------------------------------------------------ sectors

  function SectorSize(n: nat, s: nat): nat
    requires s >= 1
  {
    (n + s - 1) / s
  }

  /** The bytes of sector j, fewer at the end of the block, none past it. */
  function Sector(block: Bytes, j: nat, s: nat): (r: Bytes)
    requires s >= 1
    ensures |r| <= SectorSize(|block|, s)
  {
    SectorStart(|block|, j, s);
    var size := SectorSize(|block|, s);
    var start := j * size;
    if start >= |block| then [] else block[start..if start + size > |block| then |block| else start + size]
  }

  lemma {:induction false} SectorStart(n: nat, j: nat, s: nat)
    requires s >= 1
    ensures 0 <= j * SectorSize(n, s)
  {
  }

  function SectorElem(block: Bytes, j: nat, s: nat, P: int): int
    requires s >= 1 && P > 0
  {
    SetBytes(Sector(block, j, s)) % P
  }

  /** All sectors of a block. */
  function SectorRow(block: Bytes, s: nat, P: int): (r: seq<int>)
    requires s >= 1 && P > 0
    ensures |r| == s && forall j | 0 <= j < s :: r[j] == SectorElem(block, j, s, P)
  {
    seq(s, j requires 0 <= j < s => SectorElem(block, j, s, P))
  }

  /** ValidateP: P has more bits than a sector. */
  predicate ValidateP(params: Params, blockSize: nat)
    requires ValidParams(params)
  {
    BitLen(params.p) > 8 * SectorSize(blockSize, params.s)
  }

  // ------------------------------------------------------------------ tags

  /** The tag of a block: its PRF value plus the sectors weighted by the secret scalars. */
  function TagValue(sk: SecretKey, id: Bytes, block: Bytes): (r: int)
    requires ValidKey(sk)
    ensures 0 <= r < sk.params.p
  {
    (sk.prf(id) + Dot(SectorRow(block, sk.params.s, sk.params.p), sk.alpha, sk.params.s)) % sk.params.p
  }

  lemma {:induction false} ModStep(x: int, y: int, P: int)
    requires P > 0
    ensures (x % P + y) % P == (x + y) % P
  {
    ModMod(x, P);
    ModAdd(x % P, x, y, y, P);
  }

  /** One more term of an inner product, reduced as the loops reduce. */
  lemma {:induction false} Accumulate(base: int, row: seq<int>, z: seq<int>, t: nat, P: int)
    requires P > 0 && t < |row| && t < |z|
    ensures ((base + Dot(row, z, t)) % P + row[t] * z[t]) % P == (base + Dot(row, z, t + 1)) % P
  {
    ModStep(base + Dot(row, z, t), row[t] * z[t], P);
  }

  method TagBlock(sk: SecretKey, id: Bytes, block: Bytes) returns (sigma: int)
    requires ValidKey(sk)
    ensures sigma == TagValue(sk, id, block)
  {
    hide SectorElem, Dot;
    var P := sk.params.p;
    ghost var row := SectorRow(block, sk.params.s, P);
    sigma := sk.prf(id) % P;
    DotEmpty(row, sk.alpha);
    for j := 0 to sk.params.s
      invariant sigma == (sk.prf(id) + Dot(row, sk.alpha, j)) % P
    {
      var fij := SectorElem(block, j, sk.params.s, P);
      Accumulate(sk.prf(id), row, sk.alpha, j, P);
      sigma := sigma + fij * sk.alpha[j];
      sigma := sigma % P;
    }
  }

  /** TagBlocks: refused exactly when the first block's sectors do not fit below P or block lengths differ. */
  method TagBlocks(sk: SecretKey, ids: seq<Bytes>, store: seq<Bytes>) returns (r: Option<seq<int>>)
    requires ValidKey(sk) && |ids| == |store|
    ensures r.Some?
            <==> forall i | 0 <= i < |store| :: |store[i]| == |store[0]| && ValidateP(sk.params, |store[0]|)
    ensures r.Some? ==>
            && |r.value| == |store|
            && forall i | 0 <= i < |store| :: r.value[i] == TagValue(sk, ids[i], store[i])
  {
    hide TagValue, ValidateP;
    var tags := [];
    var blockSize := 0;
    for i := 0 to |store|
      invariant |tags| == i && forall k | 0 <= k < i :: tags[k] == TagValue(sk, ids[k], store[k])
      invariant forall k | 0 <= k < i :: |store[k]| == |store[0]| == blockSize && ValidateP(sk.params, blockSize)
    {
      if i == 0 {
        blockSize := |store[0]|;
        if !ValidateP(sk.params, blockSize) { return None; }
      } else if |store[i]| != blockSize {
        assert |store[i]| != |store[0]|;
        return None;
      }
      var sigma := TagBlock(sk, ids[i], store[i]);
      tags := tags + [sigma];
    }
    return Some(tags);
  }

  // ------------------------------------------------------------------ what is cut and tagged

  /** The sector length is the least with which s sectors cover the block. */
  lemma {:induction false} LeastSectorSize(n: nat, s: nat, L: nat)
    requires s >= 1
    ensures L == SectorSize(n, s) <==> s * L >= n && (L > 0 ==> s * (L - 1) < n)
  {
    var a, z := n + s - 1, SectorSize(n, s);
    assert a == z * s + a % s;
    if s * L >= n && (L > 0 ==> s * (L - 1) < n) {
      assert a == L * s + (n - 1 - s * (L - 1));
      ModUnique(a, L, n - 1 - s * (L - 1), s);
    }
    assert z > 0 ==> s * (z - 1) == s * z - s;
  }

  /** The tag in bytes: the PRF value of the identifier, and the numbers in consecutive stretches of L bytes, weighted
      by the secret scalars, where L is the least length with which s stretches cover the block. */
  lemma {:induction false} TagOfBytes(sk: SecretKey, id: Bytes, block: Bytes, L: nat, sectors: seq<nat>)
    requires ValidKey(sk) && |sectors| == sk.params.s
    requires sk.params.s * L >= |block| && (L > 0 ==> sk.params.s * (L - 1) < |block|)
    requires forall j: nat | j < |sectors| ::
               var start := j * L;
               && 0 <= start
               && sectors[j] == if start >= |block| then 0
                                else if start + L > |block| then SetBytes(block[start..])
                                else SetBytes(block[start..start + L])
    ensures TagValue(sk, id, block) == (sk.prf(id) + Dot(sectors, sk.alpha, |sectors|)) % sk.params.p
  {
    hide SectorSize, Dot, SetBytes;
    var P, S := sk.params.p, sk.params.s;
    LeastSectorSize(|block|, S, L);
    var row := SectorRow(block, S, P);
    forall j: nat | j < S ensures row[j] == sectors[j] % P {
      SectorValueAt(block, j, S, L);
    }
    DotReduced(row, sectors, sk.alpha, S, P);
    ModAdd(sk.prf(id), sk.prf(id), Dot(row, sk.alpha, S), Dot(sectors, sk.alpha, S), P);
  }

  lemma {:induction false} SectorValueAt(block: Bytes, j: nat, s: nat, L: nat)
    requires s >= 1 && L == SectorSize(|block|, s)
    ensures j * L >= 0
    ensures SetBytes(Sector(block, j, s)) ==
            if j * L >= |block| then 0 else if j * L + L > |block| then SetBytes(block[j * L..])
            else SetBytes(block[j * L..j * L + L])
  {
    hide SectorSize;
    SectorStart(|block|, j, s);
    assert j * L + L > |block| >= j * L ==> block[j * L..|block|] == block[j * L..];
  }

  /** A block size is accepted if and only if every string of sector length is a number below P. */
  lemma {:induction false} ValidateMeans(params: Params, blockSize: nat, L: nat)
    requires ValidParams(params)
    requires params.s * L >= blockSize && (L > 0 ==> params.s * (L - 1) < blockSize)
    ensures ValidateP(params, blockSize) <==> forall b: Bytes | |b| == L :: SetBytes(b) < params.p
  {
    hide SetBytes, Pow, BitLen, SectorSize;
    LeastSectorSize(blockSize, params.s, L);
    BitLenBytes(params.p, L);
    LargestString(L);
    forall b: Bytes | |b| == L ensures SetBytes(b) < Pow(256, L) {
      SetBytesBound(b);
    }
  }

  // ------------------------------------------------------------------ proofs

  /** Sector j of the challenged blocks. */
  function SectorColumn(store: seq<Bytes>, indices: seq<nat>, j: nat, params: Params): (c: seq<int>)
    requires ValidParams(params)
    requires forall t | 0 <= t < |indices| :: indices[t] < |store|
    ensures |c| == |indices|
    ensures forall t | 0 <= t < |c| :: c[t] == SectorElem(store[indices[t]], j, params.s, params.p)
  {
    seq(|indices|, t requires 0 <= t < |indices| => SectorElem(store[indices[t]], j, params.s, params.p))
  }

  /** The tags of the challenged blocks. */
  function TagColumn(tags: map<nat, int>, indices: seq<nat>): (c: seq<int>)
    requires forall t | 0 <= t < |indices| :: indices[t] in tags
    ensures |c| == |indices| && forall t | 0 <= t < |c| :: c[t] == tags[indices[t]]
  {
    seq(|indices|, t requires 0 <= t < |indices| => tags[indices[t]])
  }

  /** The PRF values of the challenged identifiers. */
  function PrfColumn(prf: Bytes -> nat, ids: seq<Bytes>, indices: seq<nat>): (c: seq<int>)
    requires forall t | 0 <= t < |indices| :: indices[t] < |ids|
    ensures |c| == |indices| && forall t | 0 <= t < |c| :: c[t] == prf(ids[indices[t]])
  {
    seq(|indices|, t requires 0 <= t < |indices| => prf(ids[indices[t]]))
  }

  function Mu(store: seq<Bytes>, chal: Challenge, j: nat, params: Params): (r: int)
    requires ValidParams(params) && ValidChallenge(chal, |store|)
    ensures 0 <= r < params.p
  {
    Dot(SectorColumn(store, chal.indices, j, params), chal.coeffs, |chal.indices|) % params.p
  }

  function Mus(store: seq<Bytes>, chal: Challenge, params: Params): (r: seq<int>)
    requires ValidParams(params) && ValidChallenge(chal, |store|)
    ensures |r| == params.s
    ensures forall j | 0 <= j < params.s :: r[j] == Mu(store, chal, j, params)
  {
    seq(params.s, j requires 0 <= j < params.s => Mu(store, chal, j, params))
  }

  function Sigma(tags: map<nat, int>, chal: Challenge, params: Params): (r: int)
    requires ValidParams(params) && |chal.coeffs| == |chal.indices|
    requires forall t | 0 <= t < |chal.indices| :: chal.indices[t] in tags
    ensures 0 <= r < params.p
  {
    Dot(TagColumn(tags, chal.indices), chal.coeffs, |chal.indices|) % params.p
  }

  /** The first t challenged positions have a tag and a block. */
  predicate Answerable(tags: map<nat, int>, indices: seq<nat>, n: nat, t: nat)
    requires t <= |indices|
  {
    forall u | 0 <= u < t :: indices[u] in tags && indices[u] < n
  }

  /** RespondFetch: refused exactly when a challenged position has no tag or no block. */
  method RespondFetch(params: Params, tags: map<nat, int>, chal: Challenge, store: seq<Bytes>)
    returns (r: Option<Proof>)
    requires ValidParams(params) && |chal.coeffs| == |chal.indices|
    ensures r.Some?
            <==> forall t | 0 <= t < |chal.indices| :: chal.indices[t] in tags && chal.indices[t] < |store|
    ensures r.Some? ==> r.value == Proof(Sigma(tags, chal, params), Mus(store, chal, params))
  {
    hide SectorElem;
    var P, n := params.p, |chal.indices|;
    var sigma := 0;
    var mu := seq(params.s, _ => 0);
    ModSmall(0, P);
    for t := 0 to n
      invariant Answerable(tags, chal.indices, |store|, t)
      invariant PartialProof(params, tags, chal, store, t, sigma, mu)
    {
      var idx := chal.indices[t];
      if idx !in tags { return None; }
      var nu := chal.coeffs[t];
      if idx >= |store| { return None; }
      var sigma' := (sigma + nu * tags[idx]) % P;
      var mu' := AddBlock(params, nu, store[idx], mu);
      PartialStep(params, tags, chal, store, t, sigma, mu, sigma', mu');
      sigma, mu := sigma', mu';
    }
    assert chal.indices[..n] == chal.indices;
    assert mu == Mus(store, chal, params);
    return Some(Proof(sigma, mu));
  }

  /** The sums over the first t challenged blocks. */
  ghost predicate PartialProof(params: Params, tags: map<nat, int>, chal: Challenge, store: seq<Bytes>, t: nat,
                               sigma: int, mu: seq<int>)
    requires ValidParams(params) && t <= |chal.indices| == |chal.coeffs|
    requires Answerable(tags, chal.indices, |store|, t)
  {
    && sigma == Dot(TagColumn(tags, chal.indices[..t]), chal.coeffs, t) % params.p
    && |mu| == params.s
    && forall j | 0 <= j < params.s ::
         mu[j] == Dot(SectorColumn(store, chal.indices[..t], j, params), chal.coeffs, t) % params.p
  }

  lemma {:induction false} PartialStep(params: Params, tags: map<nat, int>, chal: Challenge, store: seq<Bytes>,
                                       t: nat, sigma: int, mu: seq<int>, sigma': int, mu': seq<int>)
    requires ValidParams(params) && t < |chal.indices| == |chal.coeffs|
    requires Answerable(tags, chal.indices, |store|, t + 1)
    requires PartialProof(params, tags, chal, store, t, sigma, mu)
    requires sigma' == (sigma + chal.coeffs[t] * tags[chal.indices[t]]) % params.p
    requires |mu'| == params.s
    requires forall j | 0 <= j < params.s ::
               mu'[j] == (mu[j] + chal.coeffs[t] * SectorElem(store[chal.indices[t]], j, params.s, params.p)) % params.p
    ensures PartialProof(params, tags, chal, store, t + 1, sigma', mu')
  {
    hide SectorElem, Dot;
    var P := params.p;
    var before, after := TagColumn(tags, chal.indices[..t]), TagColumn(tags, chal.indices[..t + 1]);
    NextSum(before, after, chal.coeffs, t, sigma, P);
    forall j | 0 <= j < params.s
      ensures mu'[j] == Dot(SectorColumn(store, chal.indices[..t + 1], j, params), chal.coeffs, t + 1) % P
    {
      var b, c := SectorColumn(store, chal.indices[..t], j, params),
          SectorColumn(store, chal.indices[..t + 1], j, params);
      NextSum(b, c, chal.coeffs, t, mu[j], P);
    }
  }

  /** A reduced sum over the first t entries, and one more. */
  lemma {:induction false} NextSum(before: seq<int>, after: seq<int>, coeffs: seq<int>, t: nat, sum: int, P: int)
    requires P > 0 && |before| == t && |after| == t + 1 && t < |coeffs|
    requires forall i | 0 <= i < t :: before[i] == after[i]
    requires sum == Dot(before, coeffs, t) % P
    ensures (sum + coeffs[t] * after[t]) % P == Dot(after, coeffs, t + 1) % P
  {
    DotPrefix(before, after, coeffs, t);
    assert coeffs[t] * after[t] == after[t] * coeffs[t];
    ModStep(Dot(before, coeffs, t), after[t] * coeffs[t], P);
  }

  /** One challenged block added to every sector sum. */
  method AddBlock(params: Params, nu: int, data: Bytes, before: seq<int>) returns (mu: seq<int>)
    requires ValidParams(params) && |before| == params.s
    ensures |mu| == params.s
    ensures forall j | 0 <= j < params.s ::
              mu[j] == (before[j] + nu * SectorElem(data, j, params.s, params.p)) % params.p
  {
    hide SectorElem;
    mu := before;
    for j := 0 to params.s
      invariant |mu| == params.s && forall k | j <= k < params.s :: mu[k] == before[k]
      invariant forall k | 0 <= k < j :: mu[k] == (before[k] + nu * SectorElem(data, k, params.s, params.p)) % params.p
    {
      var fij := SectorElem(data, j, params.s, params.p);
      mu := mu[j := (mu[j] + nu * fij) % params.p];
    }
  }

  // ------------------------------------------------------------------ verification

  /** What the verifier expects of sigma, from its own identifiers and the proof's sector sums. */
  function Expected(sk: SecretKey, ids: seq<Bytes>, chal: Challenge, mu: seq<int>): (r: int)
    requires ValidKey(sk) && ValidChallenge(chal, |ids|) && |mu| == sk.params.s
    ensures 0 <= r < sk.params.p
  {
    (Dot(PrfColumn(sk.prf, ids, chal.indices), chal.coeffs, |chal.indices|)
        + Dot(mu, sk.alpha, sk.params.s)) % sk.params.p
  }

  /** Verify: an error on a wrong number of sector sums, otherwise whether sigma is as expected. */
  method Verify(sk: SecretKey, ids: seq<Bytes>, chal: Challenge, proof: Proof) returns (r: Option<bool>)
    requires ValidKey(sk) && ValidChallenge(chal, |ids|)
    ensures r.None? <==> |proof.mu| != sk.params.s
    ensures r.Some? ==> (r.value <==> proof.sigma == Expected(sk, ids, chal, proof.mu))
  {
    hide Dot;
    var P, S := sk.params.p, sk.params.s;
    if |proof.mu| != S { return None; }
    ghost var prfs := PrfColumn(sk.prf, ids, chal.indices);
    var expected := 0;
    ModSmall(0, P);
    DotEmpty(prfs, chal.coeffs);
    for t := 0 to |chal.indices|
      invariant expected == Dot(prfs, chal.coeffs, t) % P
    {
      var nu := chal.coeffs[t];
      var prf := sk.prf(ids[chal.indices[t]]) % P;
      ReducedStep(prfs, chal.coeffs, t, P);
      expected := (expected + nu * prf) % P;
    }
    ghost var base := Dot(prfs, chal.coeffs, |chal.indices|);
    DotEmpty(proof.mu, sk.alpha);
    for j := 0 to S
      invariant expected == (base + Dot(proof.mu, sk.alpha, j)) % P
    {
      Accumulate(base, proof.mu, sk.alpha, j, P);
      expected := (expected + proof.mu[j] * sk.alpha[j]) % P;
    }
    return Some(proof.sigma == expected);
  }

  lemma {:induction false} ReducedStep(row: seq<int>, z: seq<int>, t: nat, P: int)
    requires P > 0 && t < |row| && t < |z|
    ensures (Dot(row, z, t) % P + z[t] * (row[t] % P)) % P == Dot(row, z, t + 1) % P
  {
    var x, nu, f := Dot(row, z, t), z[t], row[t];
    ModMod(x, P);
    ModMod(f, P);
    ModMul(nu, nu, f % P, f, P);
    ModAdd(x % P, x, nu * (f % P), nu * f, P);
    assert nu * f == f * nu;
  }

  // ------------------------------------------------------------------ completeness

  /** The challenged tags with only the first J sectors weighed in. */
  function PartialTags(sk: SecretKey, ids: seq<Bytes>, store: seq<Bytes>, indices: seq<nat>, J: nat): (c: seq<int>)
    requires ValidKey(sk) && |ids| == |store| && J <= sk.params.s
    requires forall t | 0 <= t < |indices| :: indices[t] < |store|
    ensures |c| == |indices|
    ensures forall t | 0 <= t < |c| ::
              c[t] == sk.prf(ids[indices[t]]) + Dot(SectorRow(store[indices[t]], sk.params.s, sk.params.p), sk.alpha, J)
  {
    seq(|indices|, t requires 0 <= t < |indices| =>
      sk.prf(ids[indices[t]]) + Dot(SectorRow(store[indices[t]], sk.params.s, sk.params.p), sk.alpha, J))
  }

  /** The sum over blocks of sums over sectors is the sum over sectors of sums over blocks. */
  lemma {:induction false} ExchangeSums(sk: SecretKey, ids: seq<Bytes>, store: seq<Bytes>, chal: Challenge, J: nat)
    requires ValidKey(sk) && |ids| == |store| && ValidChallenge(chal, |store|)
    requires J <= sk.params.s
    ensures var n := |chal.indices|;
            Dot(PartialTags(sk, ids, store, chal.indices, J), chal.coeffs, n) % sk.params.p
            == (Dot(PrfColumn(sk.prf, ids, chal.indices), chal.coeffs, n)
                + Dot(Mus(store, chal, sk.params), sk.alpha, J)) % sk.params.p
  {
    hide SectorElem, Mu;
    var P, n := sk.params.p, |chal.indices|;
    if J == 0 {
      DotPrefix(PartialTags(sk, ids, store, chal.indices, 0), PrfColumn(sk.prf, ids, chal.indices), chal.coeffs, n);
    } else {
      var out, a, b := PartialTags(sk, ids, store, chal.indices, J), PartialTags(sk, ids, store, chal.indices, J - 1),
                       SectorColumn(store, chal.indices, J - 1, sk.params);
      var x := sk.alpha[J - 1];
      forall t | 0 <= t < n ensures out[t] % P == (1 * a[t] + x * b[t]) % P {
        assert b[t] * x == x * b[t];
      }
      DotCombine(out, a, b, 1, x, chal.coeffs, n, P);
      ExchangeSums(sk, ids, store, chal, J - 1);
      MuTerm(store, chal, J - 1, sk.params, x);
      var sums := Dot(PrfColumn(sk.prf, ids, chal.indices), chal.coeffs, n)
          + Dot(Mus(store, chal, sk.params), sk.alpha, J - 1);
      ModAdd(1 * Dot(a, chal.coeffs, n), sums, x * Dot(b, chal.coeffs, n), Mu(store, chal, J - 1, sk.params) * x, P);
    }
  }

  lemma {:induction false} MuTerm(store: seq<Bytes>, chal: Challenge, j: nat, params: Params, x: int)
    requires ValidParams(params) && ValidChallenge(chal, |store|)
    ensures (x * Dot(SectorColumn(store, chal.indices, j, params), chal.coeffs, |chal.indices|)) % params.p
            == (Mu(store, chal, j, params) * x) % params.p
  {
    hide Dot;
    var d := Dot(SectorColumn(store, chal.indices, j, params), chal.coeffs, |chal.indices|);
    ModMod(d, params.p);
    ModMul(x, x, d, d % params.p, params.p);
    assert x * (d % params.p) == (d % params.p) * x;
  }

  /** The tags of a challenge are those TagBlocks made. */
  ghost predicate HonestTags(sk: SecretKey, ids: seq<Bytes>, store: seq<Bytes>, tags: map<nat, int>, indices: seq<nat>)
    requires ValidKey(sk) && |ids| == |store|
  {
    forall t | 0 <= t < |indices| ::
      indices[t] < |store| && indices[t] in tags && tags[indices[t]] == TagValue(sk, ids[indices[t]], store[indices[t]])
  }

  /** The honest sigma is the expected one: Verify accepts every answer of RespondFetch over tags of TagBlocks. */
  lemma {:induction false} HonestProofAccepted(sk: SecretKey, ids: seq<Bytes>, store: seq<Bytes>, tags: map<nat, int>,
                                               chal: Challenge)
    requires ValidKey(sk) && |ids| == |store| && ValidChallenge(chal, |store|)
    requires HonestTags(sk, ids, store, tags, chal.indices)
    ensures Sigma(tags, chal, sk.params) == Expected(sk, ids, chal, Mus(store, chal, sk.params))
  {
    hide Dot, SectorRow, Mu;
    var P, n, S := sk.params.p, |chal.indices|, sk.params.s;
    var tagColumn, full := TagColumn(tags, chal.indices), PartialTags(sk, ids, store, chal.indices, S);
    forall t | 0 <= t < n ensures tagColumn[t] % P == (1 * full[t] + 0 * full[t]) % P {
      ModMod(full[t], P);
      assert 1 * full[t] + 0 * full[t] == full[t];
    }
    DotCombine(tagColumn, full, full, 1, 0, chal.coeffs, n, P);
    assert 1 * Dot(full, chal.coeffs, n) + 0 * Dot(full, chal.coeffs, n) == Dot(full, chal.coeffs, n);
    ExchangeSums(sk, ids, store, chal, S);
  }

  /** Which other answers pass: sigma must shift by exactly what the secret scalars make of the shifted sector sums. */
  lemma {:induction false} AcceptedShift(sk: SecretKey, ids: seq<Bytes>, store: seq<Bytes>, tags: map<nat, int>,
                                         chal: Challenge, sigma: int, mu: seq<int>, delta: seq<int>)
    requires ValidKey(sk) && |ids| == |store| && ValidChallenge(chal, |store|)
    requires HonestTags(sk, ids, store, tags, chal.indices)
    requires |mu| == |delta| == sk.params.s
    requires forall j | 0 <= j < sk.params.s :: mu[j] == Mus(store, chal, sk.params)[j] + delta[j]
    ensures sigma == Expected(sk, ids, chal, mu)
            <==> sigma == (Sigma(tags, chal, sk.params) + Dot(delta, sk.alpha, sk.params.s)) % sk.params.p
  {
    hide Mu, Mus, Dot, PrfColumn, Sigma, HonestTags;
    var P, S := sk.params.p, sk.params.s;
    var base := Dot(PrfColumn(sk.prf, ids, chal.indices), chal.coeffs, |chal.indices|);
    var honest := Mus(store, chal, sk.params);
    HonestProofAccepted(sk, ids, store, tags, chal);
    DotSum(mu, honest, delta, sk.alpha, S);
    ModStep(base + Dot(honest, sk.alpha, S), Dot(delta, sk.alpha, S), P);
  }

  lemma {:induction false} DotSum(out: seq<int>, a: seq<int>, b: seq<int>, z: seq<int>, n: nat)
    requires n <= |out| && n <= |a| && n <= |b| && n <= |z|
    requires forall j | 0 <= j < n :: out[j] == a[j] + b[j]
    ensures Dot(out, z, n) == Dot(a, z, n) + Dot(b, z, n)
  {
    if n > 0 {
      DotSum(out, a, b, z, n - 1);
      assert out[n - 1] * z[n - 1] == a[n - 1] * z[n - 1] + b[n - 1] * z[n - 1];
    }
  }
}
