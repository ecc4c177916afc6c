/** The outer code: striped Reed-Solomon with hidden stripe assignment, shuffled and encrypted parity, and its plain
    variant without keys. */
module AdversarialCode {
  import opened GF256
  import opened Pigeonhole
  import opened ReedSolomon
  import opened ModArith
  import opened ByteNumbers
  import opened Options

  /** What the three keys of the outer code determine: the stripe assignment of m blocks, the shuffle of t parity
      blocks, and the encryption of the parity block at an index. */
  datatype OuterKeys = OuterKeys(filePerm: nat -> seq<int>, parityPerm: nat -> seq<int>, cipher: (nat, Bytes) -> Bytes)

  /** The permutations permute; the stream cipher is its own inverse and keeps lengths. */
  ghost predicate ValidKeys(keys: OuterKeys) {
    && (forall n: nat :: IsPermutation(keys.filePerm(n), n) && IsPermutation(keys.parityPerm(n), n))
    && (forall i: nat, b: Bytes :: keys.cipher(i, keys.cipher(i, b)) == b && |keys.cipher(i, b)| == |b|)
  }

  function StripeCount(m: nat, k: nat): nat
    requires k >= 1
  {
    (m + k - 1) / k
  }

  /** The parity blocks of all stripes. */
  function ParityTotal(m: nat, n: nat, k: nat): nat
    requires 1 <= k <= n
  {
    MulMono(0, StripeCount(m, k), n - k);
    StripeCount(m, k) * (n - k)
  }

  lemma {:induction false} StripesCover(m: nat, k: nat)
    requires k >= 1
    ensures m <= StripeCount(m, k) * k < m + k
  {
    var a := m + k - 1;
    assert a == (a / k) * k + a % k;
  }

  lemma {:induction false} StripeNonempty(m: nat, k: nat, s: nat)
    requires k >= 1 && s < StripeCount(m, k)
    ensures s * k < m && 0 <= s * k
  {
    StripesCover(m, k);
    assert s + 1 <= StripeCount(m, k) ==>
        (s + 1) * k <= StripeCount(m, k) * k by { MulMono(s + 1, StripeCount(m, k), k); }
    assert (s + 1) * k == s * k + k;
  }

  /** The permuted position of the j-th block of a stripe. */
  function Slot(s: nat, k: nat, j: nat): nat {
    s * k + j
  }

  /** The k message blocks of a stripe, zero blocks past the end of the file. */
  function Stripe(blocks: seq<Bytes>, size: nat, perm: seq<int>, k: nat, s: nat): (r: seq<Bytes>)
    requires |perm| == |blocks| && forall i | 0 <= i < |perm| :: 0 <= perm[i] < |blocks|
    ensures |r| == k
    ensures forall j | 0 <= j < k ::
              r[j] == if Slot(s, k, j) < |blocks| then blocks[perm[Slot(s, k, j)]] else Zeros(size)
  {
    seq(k, j requires 0 <= j < k => if Slot(s, k, j) < |blocks| then blocks[perm[Slot(s, k, j)]] else Zeros(size))
  }

  lemma {:induction false} StripeSizes(blocks: seq<Bytes>, size: nat, perm: seq<int>, k: nat, s: nat)
    requires |perm| == |blocks| && forall i | 0 <= i < |perm| :: 0 <= perm[i] < |blocks|
    requires SameLength(blocks, size)
    ensures SameLength(Stripe(blocks, size, perm, k, s), size)
  {
    hide Slot;
  }

  /** In no stripe is a block shorter than the first: the encoder reads that many bytes of each. */
  ghost predicate Readable(blocks: seq<Bytes>, size: nat, perm: seq<int>, k: nat) {
    && k >= 1 && |perm| == |blocks| && (forall i | 0 <= i < |perm| :: 0 <= perm[i] < |blocks|)
    && forall s: nat :: ReadableStripe(Stripe(blocks, size, perm, k, s))
  }

  predicate ReadableStripe(stripe: seq<Bytes>) {
    LongEnough(stripe, BlockSize(stripe))
  }

  lemma {:induction false} UniformReadable(blocks: seq<Bytes>, size: nat, perm: seq<int>, k: nat)
    requires k >= 1 && |perm| == |blocks| && forall i | 0 <= i < |perm| :: 0 <= perm[i] < |blocks|
    requires SameLength(blocks, size)
    ensures Readable(blocks, size, perm, k)
  {
    forall s: nat ensures ReadableStripe(Stripe(blocks, size, perm, k, s)) {
      StripeSizes(blocks, size, perm, k, s);
    }
  }

  /** Parity block q of all stripes in order, n - k to a stripe. */
  function ParityBlock(blocks: seq<Bytes>, size: nat, perm: seq<int>, n: nat, k: nat, q: nat): Bytes
    requires CanEncode(n, k) && k < n && Readable(blocks, size, perm, k)
  {
    var stripe := Stripe(blocks, size, perm, k, q / (n - k));
    assert q % (n - k) < n - k && ReadableStripe(stripe);
    EncodedBlock(Cut(stripe, BlockSize(stripe)), BlockSize(stripe), k + q % (n - k))
  }

  ghost predicate AreParities(blocks: seq<Bytes>, size: nat, perm: seq<int>, n: nat, k: nat, parity: seq<Bytes>)
    requires CanEncode(n, k) && Readable(blocks, size, perm, k)
  {
    forall q | 0 <= q < |parity| :: k < n && parity[q] == ParityBlock(blocks, size, perm, n, k, q)
  }

  /** The stripe loop of the encoders. */
  method EncodeStripes(blocks: seq<Bytes>, perm: seq<int>, outerN: nat, outerK: nat) returns (allParity: seq<Bytes>)
    requires CanEncode(outerN, outerK) && |perm| == |blocks| && blocks != []
    requires Readable(blocks, BlockSize(blocks), perm, outerK)
    ensures |allParity| == ParityTotal(|blocks|, outerN, outerK)
    ensures AreParities(blocks, BlockSize(blocks), perm, outerN, outerK, allParity)
  {
    hide EncodedBlock;
    var m := |blocks|;
    var blockSize := |blocks[0]|;
    var numStripes := (m + outerK - 1) / outerK;
    allParity := [];
    for stripe := 0 to numStripes
      invariant |allParity| == stripe * (outerN - outerK)
      invariant AreParities(blocks, blockSize, perm, outerN, outerK, allParity)
    {
      var stripeBlocks := AssembleStripe(blocks, perm, outerK, stripe, blockSize);
      assert ReadableStripe(stripeBlocks);
      var encoded := EncodeBlocks(stripeBlocks, outerN);
      AppendParities(blocks, blockSize, perm, outerN, outerK, allParity, stripe, encoded);
      allParity := allParity + encoded[outerK..];
    }
  }

  /** One stripe: the permuted blocks, then zero padding if the last stripe is short. */
  method AssembleStripe(blocks: seq<Bytes>, perm: seq<int>, outerK: nat, stripe: nat, blockSize: nat)
    returns (stripeBlocks: seq<Bytes>)
    requires 1 <= outerK && |perm| == |blocks| && stripe < StripeCount(|blocks|, outerK)
    requires forall i | 0 <= i < |perm| :: 0 <= perm[i] < |blocks|
    ensures stripeBlocks == Stripe(blocks, blockSize, perm, outerK, stripe)
  {
    hide StripeCount;
    StripeNonempty(|blocks|, outerK, stripe);
    var start := stripe * outerK;
    var end := start + outerK;
    if end > |blocks| { end := |blocks|; }
    stripeBlocks := [];
    for j := start to end
      invariant |stripeBlocks| == j - start
      invariant forall i | 0 <= i < |stripeBlocks| :: stripeBlocks[i] == blocks[perm[start + i]]
    {
      stripeBlocks := stripeBlocks + [blocks[perm[j]]];
    }
    for j := end - start to outerK
      invariant |stripeBlocks| == j
      invariant forall i | 0 <= i < end - start :: stripeBlocks[i] == blocks[perm[start + i]]
      invariant forall i | end - start <= i < j :: stripeBlocks[i] == Zeros(blockSize)
    {
      stripeBlocks := stripeBlocks + [Zeros(blockSize)];
    }
  }

  lemma {:induction false} AppendParities(blocks: seq<Bytes>, size: nat, perm: seq<int>, n: nat, k: nat,
                                          parity: seq<Bytes>, s: nat, encoded: seq<Bytes>)
    requires CanEncode(n, k) && Readable(blocks, size, perm, k)
    requires |parity| == s * (n - k) && AreParities(blocks, size, perm, n, k, parity)
    requires |encoded| == n
    requires var stripe := Stripe(blocks, size, perm, k, s);
             ReadableStripe(stripe) && IsEncoding(Cut(stripe, BlockSize(stripe)), BlockSize(stripe), encoded)
    ensures |parity + encoded[k..]| == (s + 1) * (n - k)
    ensures AreParities(blocks, size, perm, n, k, parity + encoded[k..])
  {
    hide EncodedBlock, Stripe, Cut, Readable, ParityBlock, IsEncoding;
    assert (s + 1) * (n - k) == s * (n - k) + (n - k);
    var all := parity + encoded[k..];
    forall q | 0 <= q < |all| ensures k < n && all[q] == ParityBlock(blocks, size, perm, n, k, q) {
      if q >= |parity| {
        assert all[q] == encoded[k + (q - |parity|)];
        ParityOfStripe(blocks, size, perm, n, k, s, q - |parity|, q, encoded);
      }
    }
  }

  lemma {:induction false} ParityOfStripe(blocks: seq<Bytes>, size: nat, perm: seq<int>, n: nat, k: nat, s: nat, j: nat,
                                          q: nat, encoded: seq<Bytes>)
    requires CanEncode(n, k) && Readable(blocks, size, perm, k) && j < n - k && q == s * (n - k) + j
    requires |encoded| == n
    requires var stripe := Stripe(blocks, size, perm, k, s);
             ReadableStripe(stripe) && IsEncoding(Cut(stripe, BlockSize(stripe)), BlockSize(stripe), encoded)
    ensures encoded[k + j] == ParityBlock(blocks, size, perm, n, k, q)
  {
    hide EncodedBlock, Stripe, Cut, Readable;
    ModUnique(q, s, j, n - k);
  }

  // ------------------------------------------------------------------ encoding

  /** The codeword: the file itself, then the shuffled encrypted parity. */
  ghost predicate IsCodeword(keys: OuterKeys, blocks: seq<Bytes>, n: nat, k: nat, code: seq<Bytes>)
    requires ValidKeys(keys) && SameLength(blocks, BlockSize(blocks))
    requires CanEncode(n, k)
  {
    var m, t := |blocks|, ParityTotal(|blocks|, n, k);
    && |code| == m + t
    && (forall i | 0 <= i < m :: code[i] == blocks[i])
    && (forall i | 0 <= i < t :: k < n && code[m + i] == EncryptedParity(keys, blocks, n, k, i))
  }

  /** Parity block i of the codeword. */
  ghost function EncryptedParity(keys: OuterKeys, blocks: seq<Bytes>, n: nat, k: nat, i: nat): Bytes
    requires ValidKeys(keys) && SameLength(blocks, BlockSize(blocks))
    requires CanEncode(n, k) && k < n
    requires i < ParityTotal(|blocks|, n, k)
  {
    var t := ParityTotal(|blocks|, n, k);
    assert IsPermutation(keys.parityPerm(t), t) && IsPermutation(keys.filePerm(|blocks|), |blocks|);
    UniformReadable(blocks, BlockSize(blocks), keys.filePerm(|blocks|), k);
    keys.cipher(i, ParityBlock(blocks, BlockSize(blocks), keys.filePerm(|blocks|), n, k, keys.parityPerm(t)[i]))
  }

  /** saeccEncode: fails only on an empty file. */
  method Encode(keys: OuterKeys, blocks: seq<Bytes>, outerN: nat, outerK: nat) returns (r: Option<seq<Bytes>>)
    requires ValidKeys(keys) && CanEncode(outerN, outerK)
    requires SameLength(blocks, BlockSize(blocks))
    ensures r.Some? <==> blocks != []
    ensures r.Some? ==> IsCodeword(keys, blocks, outerN, outerK, r.value)
  {
    hide EncodedBlock, ParityBlock, StripeCount;
    var m := |blocks|;
    if m == 0 { return None; }
    var perm := keys.filePerm(m);
    UniformReadable(blocks, BlockSize(blocks), perm, outerK);
    var allParity := EncodeStripes(blocks, perm, outerN, outerK);
    var totalParity := |allParity|;
    var parityPerm := keys.parityPerm(totalParity);
    var encParity := [];
    for i := 0 to totalParity
      invariant |encParity| == i && forall j | 0 <= j < i :: encParity[j] == keys.cipher(j, allParity[parityPerm[j]])
    {
      encParity := encParity + [keys.cipher(i, allParity[parityPerm[i]])];
    }
    return Some(blocks + encParity);
  }

  ghost function Codeword(keys: OuterKeys, blocks: seq<Bytes>, n: nat, k: nat): (code: seq<Bytes>)
    requires ValidKeys(keys) && SameLength(blocks, BlockSize(blocks))
    requires CanEncode(n, k)
    ensures IsCodeword(keys, blocks, n, k, code)
  {
    blocks + seq(ParityTotal(|blocks|, n, k), i requires 0 <= i < ParityTotal(|blocks|, n, k) =>
      SomeParity(|blocks|, n, k); EncryptedParity(keys, blocks, n, k, i))
  }

  lemma {:induction false} SomeParity(m: nat, n: nat, k: nat)
    requires 1 <= k <= n && ParityTotal(m, n, k) > 0
    ensures k < n
  {
  }

  /** The codeword is determined by the file and the keys. */
  lemma {:induction false} CodewordUnique(keys: OuterKeys, blocks: seq<Bytes>, n: nat, k: nat, code: seq<Bytes>,
                                          code': seq<Bytes>)
    requires ValidKeys(keys) && SameLength(blocks, BlockSize(blocks))
    requires CanEncode(n, k)
    requires IsCodeword(keys, blocks, n, k, code)
    requires IsCodeword(keys, blocks, n, k, code')
    ensures code == code'
  {
    hide ParityBlock, StripeCount;
    forall i | 0 <= i < |code| ensures code[i] == code'[i] {
      if i >= |blocks| {
        var q := i - |blocks|;
        assert code[|blocks| + q] == EncryptedParity(keys, blocks, n, k, q) == code'[|blocks| + q];
      }
    }
  }

  // ------------------------------------------------------------------ decoding

  /** One stripe as received: file blocks that may be missing, padding that never is, parity that may be missing. */
  function ReceivedStripe(received: seq<Option<Bytes>>, m: nat, size: nat, perm: seq<int>, n: nat, k: nat,
                          parity: seq<Option<Bytes>>, s: nat): (r: seq<Option<Bytes>>)
    requires |perm| == m <= |received| && k <= n && Slot(s, n - k, n - k) <= |parity|
    requires forall i | 0 <= i < |perm| :: 0 <= perm[i] < m
    ensures |r| == n
    ensures forall j | 0 <= j < k ::
              r[j] == if Slot(s, k, j) < m then received[perm[Slot(s, k, j)]] else Some(Zeros(size))
    ensures forall j | k <= j < n :: r[j] == parity[Slot(s, n - k, j - k)]
  {
    seq(n, j requires 0 <= j < n =>
      if j >= k then parity[Slot(s, n - k, j - k)]
      else if Slot(s, k, j) < m then received[perm[Slot(s, k, j)]]
      else Some(Zeros(size)))
  }

  /** The parity blocks put back in order and decrypted: what the decoder works with. */
  ghost predicate RestoredParity(keys: OuterKeys, received: seq<Option<Bytes>>, m: nat, t: nat,
                                 parity: seq<Option<Bytes>>)
    requires ValidKeys(keys) && |received| == m + t
  {
    && |parity| == t
    && forall i | 0 <= i < t ::
         parity[keys.parityPerm(t)[i]] ==
             if received[m + i].None? then None else Some(keys.cipher(i, received[m + i].value))
  }

  /** Every parity position has exactly one place in the shuffle, so the restored parity exists and is unique. */
  ghost function ParityOf(keys: OuterKeys, received: seq<Option<Bytes>>, m: nat, t: nat): (parity: seq<Option<Bytes>>)
    requires ValidKeys(keys) && |received| == m + t
    ensures RestoredParity(keys, received, m, t, parity)
  {
    var perm := keys.parityPerm(t);
    assert IsPermutation(perm, t);
    seq(t, q requires 0 <= q < t =>
      PlaceOf(perm, t, q);
      var i :| 0 <= i < t && perm[i] == q;
      if received[m + i].None? then None else Some(keys.cipher(i, received[m + i].value)))
  }

  lemma {:induction false} PlaceOf(perm: seq<int>, t: nat, q: nat)
    requires IsPermutation(perm, t) && q < t
    ensures exists i :: 0 <= i < t && perm[i] == q
  {
    var i := PermutationHits(perm, t, q);
  }

  lemma {:induction false} RestoredUnique(keys: OuterKeys, received: seq<Option<Bytes>>, m: nat, t: nat,
                                          parity: seq<Option<Bytes>>)
    requires ValidKeys(keys) && |received| == m + t
    requires RestoredParity(keys, received, m, t, parity)
    ensures parity == ParityOf(keys, received, m, t)
  {
    hide ParityOf;
    var perm := keys.parityPerm(t);
    forall q | 0 <= q < t ensures parity[q] == ParityOf(keys, received, m, t)[q] {
      assert IsPermutation(perm, t);
      var i := PermutationHits(perm, t, q);
      assert parity[perm[i]] == ParityOf(keys, received, m, t)[perm[i]];
    }
  }

  /** The size of the first block that is present, 0 if there is none. */
  function FirstSize(received: seq<Option<Bytes>>): nat {
    if received == [] then 0
    else if received[0].Some? then |received[0].value|
    else FirstSize(received[1..])
  }

  method FindBlockSize(received: seq<Option<Bytes>>) returns (blockSize: nat)
    ensures blockSize == FirstSize(received)
  {
    blockSize := 0;
    for i := 0 to |received|
      invariant blockSize == 0 && FirstSize(received[i..]) == FirstSize(received)
    {
      if received[i].Some? {
        return |received[i].value|;
      }
      assert received[i..][1..] == received[i + 1..];
    }
  }

  method RestoreParity(keys: OuterKeys, received: seq<Option<Bytes>>, m: nat, t: nat)
    returns (allParity: seq<Option<Bytes>>)
    requires ValidKeys(keys) && |received| == m + t
    ensures RestoredParity(keys, received, m, t, allParity)
  {
    var decParity: seq<Option<Bytes>> := [];
    for i := 0 to t
      invariant |decParity| == i
      invariant forall j | 0 <= j < i ::
                  decParity[j] == if received[m + j].None? then None else Some(keys.cipher(j, received[m + j].value))
    {
      if received[m + i].None? {
        decParity := decParity + [None];
      } else {
        decParity := decParity + [Some(keys.cipher(i, received[m + i].value))];
      }
    }
    var parityPerm := keys.parityPerm(t);
    assert IsPermutation(parityPerm, t);
    allParity := seq(t, _ => None);
    for i := 0 to t
      invariant |allParity| == t && forall j | 0 <= j < i :: allParity[parityPerm[j]] == decParity[j]
    {
      allParity := allParity[parityPerm[i] := decParity[i]];
    }
  }

  /** Every received block comes from the codeword or is missing, and survivors have the file's block size. */
  ghost predicate IsReception(code: seq<Bytes>, received: seq<Option<Bytes>>) {
    |received| == |code| && forall i | 0 <= i < |code| :: received[i] == None || received[i] == Some(code[i])
  }

  /** The stripe's own codeword: its message blocks and their parity. */
  ghost function StripeCode(blocks: seq<Bytes>, size: nat, perm: seq<int>, n: nat, k: nat, s: nat): (e: seq<Bytes>)
    requires |perm| == |blocks| && forall i | 0 <= i < |perm| :: 0 <= perm[i] < |blocks|
    requires SameLength(blocks, size) && CanEncode(n, k)
    ensures |e| == n && IsEncoding(Stripe(blocks, size, perm, k, s), size, e)
  {
    StripeSizes(blocks, size, perm, k, s);
    seq(n, i requires 0 <= i < n => EncodedBlock(Stripe(blocks, size, perm, k, s), size, i))
  }

  lemma {:induction false} SlotBound(m: nat, n: nat, k: nat, s: nat)
    requires 1 <= k <= n && s < StripeCount(m, k)
    ensures Slot(s, n - k, n - k) <= ParityTotal(m, n, k)
  {
    hide StripeCount;
    MulMono(s + 1, StripeCount(m, k), n - k);
    assert (s + 1) * (n - k) == s * (n - k) + (n - k);
  }

  /** What arrives of a stripe is an erasure of the stripe's own codeword. */
  lemma {:induction false} StripeErasure(keys: OuterKeys, blocks: seq<Bytes>, n: nat, k: nat, code: seq<Bytes>,
                                         received: seq<Option<Bytes>>, parity: seq<Option<Bytes>>, s: nat)
    requires ValidKeys(keys) && SameLength(blocks, BlockSize(blocks))
    requires CanEncode(n, k)
    requires IsCodeword(keys, blocks, n, k, code) && IsReception(code, received)
    requires RestoredParity(keys, received, |blocks|, ParityTotal(|blocks|, n, k), parity)
    requires s < StripeCount(|blocks|, k)
    ensures var perm := keys.filePerm(|blocks|);
            && IsPermutation(perm, |blocks|) && Slot(s, n - k, n - k) <= |parity|
            && IsErasure(StripeCode(blocks, BlockSize(blocks), perm, n, k, s),
                         ReceivedStripe(received, |blocks|, BlockSize(blocks), perm, n, k, parity, s))
  {
    hide StripeCount, EncodedBlock, Slot;
    var m, size, t := |blocks|, BlockSize(blocks), ParityTotal(|blocks|, n, k);
    var perm := keys.filePerm(m);
    assert IsPermutation(perm, m);
    SlotBound(m, n, k, s);
    StripeSizes(blocks, size, perm, k, s);
    var r := ReceivedStripe(received, m, size, perm, n, k, parity, s);
    var e := StripeCode(blocks, size, perm, n, k, s);
    forall j | 0 <= j < n ensures r[j] == None || r[j] == Some(e[j]) {
      if j >= k {
        ParityErasure(keys, blocks, n, k, code, received, parity, s, j);
      } else {
        MessageBlock(Stripe(blocks, size, perm, k, s), size, e, j);
        if Slot(s, k, j) < m {
          assert received[perm[Slot(s, k, j)]] == None
              || received[perm[Slot(s, k, j)]] == Some(code[perm[Slot(s, k, j)]]);
        }
      }
    }
  }

  lemma {:induction false} ParityErasure(keys: OuterKeys, blocks: seq<Bytes>, n: nat, k: nat, code: seq<Bytes>,
                                         received: seq<Option<Bytes>>, parity: seq<Option<Bytes>>, s: nat, j: nat)
    requires ValidKeys(keys) && SameLength(blocks, BlockSize(blocks))
    requires CanEncode(n, k) && k <= j < n
    requires IsCodeword(keys, blocks, n, k, code) && IsReception(code, received)
    requires RestoredParity(keys, received, |blocks|, ParityTotal(|blocks|, n, k), parity)
    requires s < StripeCount(|blocks|, k)
    ensures var q := Slot(s, n - k, j - k); var perm := keys.filePerm(|blocks|);
            && IsPermutation(perm, |blocks|) && q < |parity|
            && (parity[q] == None
                || parity[q] == Some(EncodedBlock(Stripe(blocks, BlockSize(blocks), perm, k, s), BlockSize(blocks), j)))
  {
    hide StripeCount, EncodedBlock, Stripe;
    var m, size, t := |blocks|, BlockSize(blocks), ParityTotal(|blocks|, n, k);
    SlotBound(m, n, k, s);
    var q := Slot(s, n - k, j - k);
    assert IsPermutation(keys.filePerm(m), m) && IsPermutation(keys.parityPerm(t), t);
    var i := PermutationHits(keys.parityPerm(t), t, q);
    ModUnique(q, s, j - k, n - k);
    assert received[m + i] == None || received[m + i] == Some(code[m + i]);
    assert code[m + i] == EncryptedParity(keys, blocks, n, k, i);
  }

  // ------------------------------------------------------------------ the decoder

  /** Stripe s of the result is a decoding of what was received of it. */
  ghost predicate StripeDecoded(received: seq<Option<Bytes>>, m: nat, size: nat, perm: seq<int>, n: nat, k: nat,
                                parity: seq<Option<Bytes>>, s: nat, file: seq<Bytes>)
    requires IsPermutation(perm, m) && m <= |received| && CanEncode(n, k)
  {
    && Slot(s, n - k, n - k) <= |parity| && |file| == m
    && var r := ReceivedStripe(received, m, size, perm, n, k, parity, s);
    && UniformSurvivors(r, size) && SurvivorCount(r, 0) >= k
    && exists message: seq<Bytes> ::
         && |message| == k && IsDecoding(r, k, size, message)
         && forall j | 0 <= j < k && Slot(s, k, j) < m :: file[perm[Slot(s, k, j)]] == message[j]
  }

  /** A stripe kept at least k of its n blocks, padding included. */
  ghost predicate StripeKept(received: seq<Option<Bytes>>, m: nat, size: nat, perm: seq<int>, n: nat, k: nat,
                             parity: seq<Option<Bytes>>, s: nat)
    requires IsPermutation(perm, m) && m <= |received| && 1 <= k <= n
  {
    && Slot(s, n - k, n - k) <= |parity|
    && SurvivorCount(ReceivedStripe(received, m, size, perm, n, k, parity, s), 0) >= k
  }

  /** Every stripe did. */
  ghost predicate Recoverable(received: seq<Option<Bytes>>, m: nat, size: nat, perm: seq<int>, n: nat, k: nat,
                              parity: seq<Option<Bytes>>)
    requires IsPermutation(perm, m) && m <= |received| && 1 <= k <= n
  {
    forall s | 0 <= s < StripeCount(m, k) :: StripeKept(received, m, size, perm, n, k, parity, s)
  }

  /** The first stripes of the file are decoded. */
  ghost predicate DecodedUpTo(received: seq<Option<Bytes>>, m: nat, size: nat, perm: seq<int>, n: nat, k: nat,
                              parity: seq<Option<Bytes>>, count: nat, file: seq<Bytes>)
    requires IsPermutation(perm, m) && m <= |received| && CanEncode(n, k)
  {
    forall s | 0 <= s < count :: StripeDecoded(received, m, size, perm, n, k, parity, s, file)
  }

  lemma {:induction false} DecodedRecoverable(received: seq<Option<Bytes>>, m: nat, size: nat, perm: seq<int>, n: nat,
                                              k: nat, parity: seq<Option<Bytes>>, file: seq<Bytes>)
    requires IsPermutation(perm, m) && m <= |received| && CanEncode(n, k)
    requires DecodedUpTo(received, m, size, perm, n, k, parity, StripeCount(m, k), file)
    ensures Recoverable(received, m, size, perm, n, k, parity)
  {
    hide IsDecoding, StripeCount, Slot;
    forall s | 0 <= s < StripeCount(m, k) ensures StripeKept(received, m, size, perm, n, k, parity, s) {
      assert StripeDecoded(received, m, size, perm, n, k, parity, s, file);
    }
  }

  lemma {:induction false} LostStripe(received: seq<Option<Bytes>>, m: nat, size: nat, perm: seq<int>, n: nat, k: nat,
                                      parity: seq<Option<Bytes>>, s: nat)
    requires IsPermutation(perm, m) && m <= |received| && 1 <= k <= n
    requires s < StripeCount(m, k)
    requires Slot(s, n - k, n - k) <= |parity|
    requires SurvivorCount(ReceivedStripe(received, m, size, perm, n, k, parity, s), 0) < k
    ensures !Recoverable(received, m, size, perm, n, k, parity)
  {
    hide StripeCount, Slot;
    assert !StripeKept(received, m, size, perm, n, k, parity, s);
  }

  lemma {:induction false} RestoredSizes(keys: OuterKeys, received: seq<Option<Bytes>>, m: nat, t: nat, size: nat,
                                         parity: seq<Option<Bytes>>)
    requires ValidKeys(keys) && |received| == m + t && UniformSurvivors(received, size)
    requires RestoredParity(keys, received, m, t, parity)
    ensures UniformSurvivors(parity, size)
  {
    forall q | 0 <= q < |parity| && parity[q].Some? ensures |parity[q].value| == size {
      assert IsPermutation(keys.parityPerm(t), t);
      var i := PermutationHits(keys.parityPerm(t), t, q);
      assert received[m + i].Some?;
    }
  }

  lemma {:induction false} ReceivedSizes(received: seq<Option<Bytes>>, m: nat, size: nat, perm: seq<int>, n: nat,
                                         k: nat, parity: seq<Option<Bytes>>, s: nat)
    requires IsPermutation(perm, m) && m <= |received| && k <= n
    requires Slot(s, n - k, n - k) <= |parity|
    requires UniformSurvivors(received, size) && UniformSurvivors(parity, size)
    ensures UniformSurvivors(ReceivedStripe(received, m, size, perm, n, k, parity, s), size)
  {
    var r := ReceivedStripe(received, m, size, perm, n, k, parity, s);
    forall j | 0 <= j < n && r[j].Some? ensures |r[j].value| == size {
      if j >= k {
        assert r[j] == parity[Slot(s, n - k, j - k)];
      }
    }
  }

  /** What saeccDecode returns. It fails on a wrong block count, when no non-empty block is left, and when a stripe
      lost too much; otherwise every stripe of the result is decoded from what was received of it. */
  ghost predicate IsOutcome(keys: OuterKeys, received: seq<Option<Bytes>>, m: nat, n: nat, k: nat,
                            r: Option<seq<Bytes>>)
    requires ValidKeys(keys) && CanEncode(n, k)
  {
    var t, perm, size := ParityTotal(m, n, k), keys.filePerm(m), FirstSize(received);
    && IsPermutation(perm, m)
    && (r.Some? <==>
          && |received| == m + t && size > 0
          && Recoverable(received, m, size, perm, n, k, ParityOf(keys, received, m, t)))
    && (r.Some? ==>
          && DecodedUpTo(received, m, size, perm, n, k, ParityOf(keys, received, m, t), StripeCount(m, k), r.value)
          && |r.value| == m)
  }

  /** Interpolation is possible, or never needed. */
  ghost predicate CanDecode(n: nat, k: nat, received: seq<Option<Bytes>>) {
    ValidCode(n, k) || (CanEncode(n, k) && forall i | 0 <= i < |received| :: received[i].Some?)
  }

  method Decode(keys: OuterKeys, received: seq<Option<Bytes>>, m: nat, outerN: nat, outerK: nat)
    returns (r: Option<seq<Bytes>>)
    requires ValidKeys(keys) && CanDecode(outerN, outerK, received)
    requires UniformSurvivors(received, FirstSize(received))
    ensures IsOutcome(keys, received, m, outerN, outerK, r)
  {
    hide StripeCount, ParityTotal, ParityOf, RestoredParity, UniformSurvivors;
    assert IsPermutation(keys.filePerm(m), m);
    var totalParity := ParityTotal(m, outerN, outerK);
    if |received| != m + totalParity { return None; }
    var blockSize := FindBlockSize(received);
    if blockSize == 0 { return None; }
    var allParity := RestoreParity(keys, received, m, totalParity);
    RestoredUnique(keys, received, m, totalParity, allParity);
    RestoredSizes(keys, received, m, totalParity, blockSize, allParity);
    r := DecodeStripes(received, m, outerN, outerK, blockSize, keys.filePerm(m), allParity);
  }

  /** The stripe loop of the decoders. */
  method DecodeStripes(received: seq<Option<Bytes>>, m: nat, outerN: nat, outerK: nat, blockSize: nat, perm: seq<int>,
                       allParity: seq<Option<Bytes>>)
    returns (r: Option<seq<Bytes>>)
    requires CanDecode(outerN, outerK, received) && IsPermutation(perm, m) && m <= |received|
    requires UniformSurvivors(received, blockSize)
    requires UniformSurvivors(allParity, blockSize)
    requires |allParity| == ParityTotal(m, outerN, outerK)
    ensures r.Some? <==> Recoverable(received, m, blockSize, perm, outerN, outerK, allParity)
    ensures r.Some? ==>
      && DecodedUpTo(received, m, blockSize, perm, outerN, outerK, allParity, StripeCount(m, outerK), r.value)
      && |r.value| == m
  {
    hide StripeCount, IsDecoding, Slot, StripeDecoded, Recoverable, IsPermutation, UniformSurvivors, SurvivorCount;
    var result := seq(m, _ => []);
    for stripe := 0 to StripeCount(m, outerK)
      invariant |result| == m
      invariant DecodedUpTo(received, m, blockSize, perm, outerN, outerK, allParity, stripe, result)
    {
      SlotBound(m, outerN, outerK, stripe);
      ReceivedSizes(received, m, blockSize, perm, outerN, outerK, allParity, stripe);
      var stripeBlocks := ReceiveStripe(received, m, blockSize, perm, outerN, outerK, allParity, stripe);
      MessageArrived(received, m, blockSize, perm, outerN, outerK, allParity, stripe);
      var decoded := DecodeBlocks(stripeBlocks, outerK, blockSize);
      if decoded.None? {
        LostStripe(received, m, blockSize, perm, outerN, outerK, allParity, stripe);
        return None;
      }
      result := PlaceStripe(received, m, blockSize, perm, outerN, outerK, allParity, stripe, decoded.value, result);
    }
    DecodedRecoverable(received, m, blockSize, perm, outerN, outerK, allParity, result);
    return Some(result);
  }

  lemma {:induction false} MessageArrived(received: seq<Option<Bytes>>, m: nat, size: nat, perm: seq<int>, n: nat,
                                          k: nat, parity: seq<Option<Bytes>>, s: nat)
    requires IsPermutation(perm, m) && m <= |received| && k <= n && Slot(s, n - k, n - k) <= |parity|
    ensures (forall i | 0 <= i < |received| :: received[i].Some?) ==>
              forall j | 0 <= j < k :: ReceivedStripe(received, m, size, perm, n, k, parity, s)[j].Some?
  {
  }

  /** Assemble one received stripe; a lost block stays lost, padding is put back. */
  method ReceiveStripe(received: seq<Option<Bytes>>, m: nat, blockSize: nat, perm: seq<int>, outerN: nat, outerK: nat,
                       allParity: seq<Option<Bytes>>, stripe: nat)
    returns (stripeBlocks: seq<Option<Bytes>>)
    requires 1 <= outerK <= outerN && IsPermutation(perm, m) && m <= |received|
    requires stripe < StripeCount(m, outerK)
    requires Slot(stripe, outerN - outerK, outerN - outerK) <= |allParity|
    ensures stripeBlocks == ReceivedStripe(received, m, blockSize, perm, outerN, outerK, allParity, stripe)
  {
    hide StripeCount;
    StripeNonempty(m, outerK, stripe);
    var start := stripe * outerK;
    var end := start + outerK;
    if end > m { end := m; }
    stripeBlocks := [];
    for j := start to end
      invariant |stripeBlocks| == j - start
      invariant forall i | 0 <= i < |stripeBlocks| :: stripeBlocks[i] == received[perm[start + i]]
    {
      stripeBlocks := stripeBlocks + [received[perm[j]]];
    }
    for j := end - start to outerK
      invariant |stripeBlocks| == j
      invariant forall i | 0 <= i < end - start :: stripeBlocks[i] == received[perm[start + i]]
      invariant forall i | end - start <= i < j :: stripeBlocks[i] == Some(Zeros(blockSize))
    {
      stripeBlocks := stripeBlocks + [Some(Zeros(blockSize))];
    }
    var parityStart := Slot(stripe, outerN - outerK, 0);
    stripeBlocks := stripeBlocks + allParity[parityStart..parityStart + (outerN - outerK)];
  }

  /** Un-permute one stripe: decoded position j is file block perm[stripe * outerK + j]. */
  method PlaceStripe(ghost received: seq<Option<Bytes>>, m: nat, ghost size: nat, perm: seq<int>, ghost n: nat, k: nat,
                     ghost parity: seq<Option<Bytes>>, stripe: nat, decoded: seq<Bytes>, before: seq<Bytes>)
    returns (result: seq<Bytes>)
    requires IsPermutation(perm, m) && m <= |received| && CanEncode(n, k)
    requires stripe < StripeCount(m, k)
    requires Slot(stripe, n - k, n - k) <= |parity| && |before| == m
    requires var r := ReceivedStripe(received, m, size, perm, n, k, parity, stripe);
             UniformSurvivors(r, size) && SurvivorCount(r, 0) >= k && IsDecoding(r, k, size, decoded)
    requires |decoded| == k
    requires DecodedUpTo(received, m, size, perm, n, k, parity, stripe, before)
    ensures |result| == m
    ensures DecodedUpTo(received, m, size, perm, n, k, parity, stripe + 1, result)
  {
    hide StripeCount, IsDecoding, DecodedUpTo, StripeDecoded, UniformSurvivors, SurvivorCount, ReceivedStripe, Slot;
    StripeNonempty(m, k, stripe);
    var start: nat := stripe * k;
    result := PlaceBlocks(perm, m, start, if start + k > m then m else start + k, decoded, before);
    forall i | start <= i < start + k && i < m ensures result[perm[i]] == decoded[i - start] {
    }
    NextStripe(received, m, size, perm, n, k, parity, stripe, decoded, before, result);
  }

  /** Un-permute the positions from start to end. */
  method PlaceBlocks(perm: seq<int>, m: nat, start: nat, end: nat, decoded: seq<Bytes>, before: seq<Bytes>)
    returns (result: seq<Bytes>)
    requires IsPermutation(perm, m) && |before| == m && start <= end <= m && end - start <= |decoded|
    ensures |result| == m
    ensures forall i | start <= i < end :: result[perm[i]] == decoded[i - start]
    ensures forall i | 0 <= i < start :: result[perm[i]] == before[perm[i]]
  {
    result := before;
    for j := start to end
      invariant |result| == m
      invariant forall i | start <= i < j :: result[perm[i]] == decoded[i - start]
      invariant forall i | 0 <= i < start :: result[perm[i]] == before[perm[i]]
    {
      result := result[perm[j] := decoded[j - start]];
    }
  }

  lemma {:induction false} NextStripe(received: seq<Option<Bytes>>, m: nat, size: nat, perm: seq<int>, n: nat, k: nat,
                                      parity: seq<Option<Bytes>>, stripe: nat, decoded: seq<Bytes>, before: seq<Bytes>,
                                      result: seq<Bytes>)
    requires IsPermutation(perm, m) && m <= |received| && CanEncode(n, k)
    requires |before| == |result| == m
    requires Slot(stripe, n - k, n - k) <= |parity|
    requires var r := ReceivedStripe(received, m, size, perm, n, k, parity, stripe);
             UniformSurvivors(r, size) && SurvivorCount(r, 0) >= k && IsDecoding(r, k, size, decoded)
    requires |decoded| == k
    requires DecodedUpTo(received, m, size, perm, n, k, parity, stripe, before)
    requires 0 <= stripe * k
    requires forall i | 0 <= i < stripe * k && i < m :: result[perm[i]] == before[perm[i]]
    requires forall i | stripe * k <= i < stripe * k + k && i < m :: result[perm[i]] == decoded[i - stripe * k]
    ensures DecodedUpTo(received, m, size, perm, n, k, parity, stripe + 1, result)
  {
    hide IsDecoding, UniformSurvivors, SurvivorCount, StripeDecoded;
    forall s | 0 <= s < stripe + 1 ensures StripeDecoded(received, m, size, perm, n, k, parity, s, result) {
      if s < stripe {
        assert StripeDecoded(received, m, size, perm, n, k, parity, s, before);
        EarlierStripe(received, m, size, perm, n, k, parity, s, stripe, before, result);
      } else {
        NewStripe(received, m, size, perm, n, k, parity, stripe, decoded, result);
      }
    }
  }

  lemma {:induction false} NewStripe(received: seq<Option<Bytes>>, m: nat, size: nat, perm: seq<int>, n: nat, k: nat,
                                     parity: seq<Option<Bytes>>, stripe: nat, decoded: seq<Bytes>, result: seq<Bytes>)
    requires IsPermutation(perm, m) && m <= |received| && CanEncode(n, k)
    requires |result| == m
    requires Slot(stripe, n - k, n - k) <= |parity|
    requires var r := ReceivedStripe(received, m, size, perm, n, k, parity, stripe);
             UniformSurvivors(r, size) && SurvivorCount(r, 0) >= k && IsDecoding(r, k, size, decoded)
    requires |decoded| == k && 0 <= stripe * k
    requires forall i | stripe * k <= i < stripe * k + k && i < m :: result[perm[i]] == decoded[i - stripe * k]
    ensures StripeDecoded(received, m, size, perm, n, k, parity, stripe, result)
  {
    hide IsDecoding, UniformSurvivors, SurvivorCount;
    var start := stripe * k;
    assert forall j: nat :: Slot(stripe, k, j) == start + j;
    forall j | 0 <= j < k && Slot(stripe, k, j) < m ensures result[perm[Slot(stripe, k, j)]] == decoded[j] {
      assert result[perm[start + j]] == decoded[(start + j) - start];
    }
  }

  lemma {:induction false} EarlierStripe(received: seq<Option<Bytes>>, m: nat, size: nat, perm: seq<int>, n: nat,
                                         k: nat, parity: seq<Option<Bytes>>, s: nat, stripe: nat, before: seq<Bytes>,
                                         result: seq<Bytes>)
    requires IsPermutation(perm, m) && m <= |received| && CanEncode(n, k)
    requires s < stripe && |before| == |result| == m
    requires StripeDecoded(received, m, size, perm, n, k, parity, s, before)
    requires 0 <= stripe * k
    requires forall i | 0 <= i < stripe * k && i < m :: result[perm[i]] == before[perm[i]]
    ensures StripeDecoded(received, m, size, perm, n, k, parity, s, result)
  {
    hide IsDecoding;
    var r := ReceivedStripe(received, m, size, perm, n, k, parity, s);
    var message: seq<Bytes> :| |message| == k && IsDecoding(r, k, size, message)
      && forall j | 0 <= j < k && Slot(s, k, j) < m :: before[perm[Slot(s, k, j)]] == message[j];
    forall j | 0 <= j < k && Slot(s, k, j) < m ensures result[perm[Slot(s, k, j)]] == message[j] {
      MulMono(s + 1, stripe, k);
      assert (s + 1) * k == s * k + k;
    }
  }

  // ------------------------------------------------------------------ recovery

  /** A decoding of what is left of a codeword is the file. */
  lemma {:induction false} DecodingRecovers(keys: OuterKeys, blocks: seq<Bytes>, n: nat, k: nat, code: seq<Bytes>,
                                            received: seq<Option<Bytes>>, parity: seq<Option<Bytes>>, file: seq<Bytes>)
    requires ValidKeys(keys) && SameLength(blocks, BlockSize(blocks))
    requires CanEncode(n, k)
    requires IsCodeword(keys, blocks, n, k, code) && IsReception(code, received)
    requires RestoredParity(keys, received, |blocks|, ParityTotal(|blocks|, n, k), parity)
    requires IsPermutation(keys.filePerm(|blocks|), |blocks|) && |file| == |blocks|
    requires DecodedUpTo(received, |blocks|, BlockSize(blocks), keys.filePerm(|blocks|), n, k, parity,
                         StripeCount(|blocks|, k), file)
    ensures file == blocks
  {
    hide StripeCount, ParityTotal, StripeDecoded, IsDecoding, RestoredParity, IsCodeword, IsReception;
    var m := |blocks|;
    var perm := keys.filePerm(m);
    forall v | 0 <= v < m ensures file[v] == blocks[v] {
      var i := PermutationHits(perm, m, v);
      var s, j := StripeOf(m, k, i);
      StripeRecovers(keys, blocks, n, k, code, received, parity, file, s, j);
    }
  }

  lemma {:induction false} StripeOf(m: nat, k: nat, i: nat) returns (s: nat, j: nat)
    requires k >= 1 && i < m
    ensures s < StripeCount(m, k) && j < k && Slot(s, k, j) == i
  {
    s, j := i / k, i % k;
    assert i == (i / k) * k + i % k;
    StripesCover(m, k);
    if s >= StripeCount(m, k) {
      MulMono(StripeCount(m, k), s, k);
    }
  }

  lemma {:induction false} StripeRecovers(keys: OuterKeys, blocks: seq<Bytes>, n: nat, k: nat, code: seq<Bytes>,
                                          received: seq<Option<Bytes>>, parity: seq<Option<Bytes>>, file: seq<Bytes>,
                                          s: nat, j: nat)
    requires ValidKeys(keys) && SameLength(blocks, BlockSize(blocks))
    requires CanEncode(n, k)
    requires IsCodeword(keys, blocks, n, k, code) && IsReception(code, received)
    requires RestoredParity(keys, received, |blocks|, ParityTotal(|blocks|, n, k), parity)
    requires s < StripeCount(|blocks|, k) && j < k && Slot(s, k, j) < |blocks|
    requires IsPermutation(keys.filePerm(|blocks|), |blocks|)
    requires StripeDecoded(received, |blocks|, BlockSize(blocks), keys.filePerm(|blocks|), n, k, parity, s, file)
    ensures var v := keys.filePerm(|blocks|)[Slot(s, k, j)]; file[v] == blocks[v]
  {
    hide StripeCount, ParityTotal, StripeDecoded, RestoredParity, IsEncoding, IsErasure, Slot, EncryptedParity;
    hide SameLength;
    StripeErasure(keys, blocks, n, k, code, received, parity, s);
    StripeFile(blocks, BlockSize(blocks), keys.filePerm(|blocks|), n, k, received, parity, file, s, j);
  }

  lemma {:induction false} StripeFile(blocks: seq<Bytes>, size: nat, perm: seq<int>, n: nat, k: nat,
                                      received: seq<Option<Bytes>>, parity: seq<Option<Bytes>>, file: seq<Bytes>,
                                      s: nat, j: nat)
    requires SameLength(blocks, size) && CanEncode(n, k)
    requires IsPermutation(perm, |blocks|) && |blocks| <= |received|
    requires StripeDecoded(received, |blocks|, size, perm, n, k, parity, s, file)
    requires IsErasure(StripeCode(blocks, size, perm, n, k, s),
                       ReceivedStripe(received, |blocks|, size, perm, n, k, parity, s))
    requires j < k && Slot(s, k, j) < |blocks|
    ensures file[perm[Slot(s, k, j)]] == blocks[perm[Slot(s, k, j)]]
  {
    hide IsDecoding, IsEncoding, IsErasure, StripeCode, Slot, SurvivorCount, UniformSurvivors;
    var r := ReceivedStripe(received, |blocks|, size, perm, n, k, parity, s);
    var message: seq<Bytes> :| |message| == k && IsDecoding(r, k, size, message)
      && forall j | 0 <= j < k && Slot(s, k, j) < |blocks| :: file[perm[Slot(s, k, j)]] == message[j];
    ErasureDecodes(Stripe(blocks, size, perm, k, s), size, StripeCode(blocks, size, perm, n, k, s), r, message);
  }

  lemma {:induction false} FirstSizeFound(received: seq<Option<Bytes>>, size: nat)
    requires UniformSurvivors(received, size)
    ensures FirstSize(received) == size
            || (FirstSize(received) == 0 && forall i | 0 <= i < |received| :: received[i].None?)
  {
    if received != [] && received[0].None? {
      forall i | 0 <= i < |received[1..]| && received[1..][i].Some? ensures |received[1..][i].value| == size {
        assert received[1..][i] == received[i + 1];
      }
      FirstSizeFound(received[1..], size);
      if FirstSize(received) != size {
        forall i | 0 <= i < |received| ensures received[i].None? {
          if i > 0 { assert received[i] == received[1..][i - 1]; }
        }
      }
    }
  }

  lemma {:induction false} ReceptionSizes(keys: OuterKeys, blocks: seq<Bytes>, n: nat, k: nat, code: seq<Bytes>,
                                          received: seq<Option<Bytes>>)
    requires ValidKeys(keys) && SameLength(blocks, BlockSize(blocks))
    requires CanEncode(n, k)
    requires IsCodeword(keys, blocks, n, k, code) && IsReception(code, received)
    ensures UniformSurvivors(received, BlockSize(blocks))
    ensures UniformSurvivors(received, FirstSize(received))
  {
    hide StripeCount, ParityBlock;
    var size := BlockSize(blocks);
    forall i | 0 <= i < |received| && received[i].Some? ensures |received[i].value| == size {
      if i >= |blocks| {
        var q := i - |blocks|;
        assert code[|blocks| + q] == EncryptedParity(keys, blocks, n, k, q);
        ParitySize(keys, blocks, n, k, q);
      }
    }
    FirstSizeFound(received, size);
  }

  lemma {:induction false} ParitySize(keys: OuterKeys, blocks: seq<Bytes>, n: nat, k: nat, i: nat)
    requires ValidKeys(keys) && SameLength(blocks, BlockSize(blocks))
    requires CanEncode(n, k) && k < n
    requires i < ParityTotal(|blocks|, n, k)
    ensures |EncryptedParity(keys, blocks, n, k, i)| == BlockSize(blocks)
  {
    hide StripeCount;
  }

  /** Every block of a codeword has the file's block size. */
  lemma {:induction false} CodeBlockSize(keys: OuterKeys, file: seq<Bytes>, n: nat, k: nat, code: seq<Bytes>, i: nat)
    requires ValidKeys(keys) && SameLength(file, BlockSize(file))
    requires CanEncode(n, k) && IsCodeword(keys, file, n, k, code) && i < |code|
    ensures |code[i]| == BlockSize(file)
  {
    hide ParityTotal, EncryptedParity;
    if i >= |file| {
      SomeParity(|file|, n, k);
      assert code[|file| + (i - |file|)] == EncryptedParity(keys, file, n, k, i - |file|);
      ParitySize(keys, file, n, k, i - |file|);
    }
  }

  /** Without parity the code is a pass-through: the codeword is the file. */
  lemma {:induction false} PassThrough(keys: OuterKeys, file: seq<Bytes>, k: nat, code: seq<Bytes>)
    requires ValidKeys(keys) && SameLength(file, BlockSize(file)) && k >= 1
    requires IsCodeword(keys, file, k, k, code)
    ensures code == file
  {
    hide EncryptedParity;
    assert StripeCount(|file|, k) * 0 == 0;
  }

  /** The number of survivors is at most the number of positions that are not known to be lost. */
  lemma {:induction false} FewSurvivors(r: seq<Option<Bytes>>, i: nat, k: nat)
    requires i <= k <= |r| && forall j | k <= j < |r| :: r[j].None?
    ensures SurvivorCount(r, i) <= k - i
    decreases |r| - i
  {
    if i < k {
      FewSurvivors(r, i + 1, k);
    } else if i < |r| {
      FewSurvivors(r, i + 1, k + 1);
      AllLost(r, i);
    }
  }

  lemma {:induction false} AllLost(r: seq<Option<Bytes>>, i: nat)
    requires i <= |r| && forall j | i <= j < |r| :: r[j].None?
    ensures SurvivorCount(r, i) == 0
    decreases |r| - i
  {
    if i < |r| { AllLost(r, i + 1); }
  }

  /** When nothing arrived, the first stripe is beyond recovery: padding alone never fills a stripe. */
  lemma {:induction false} NothingReceived(keys: OuterKeys, received: seq<Option<Bytes>>, m: nat, size: nat, n: nat,
                                           k: nat, parity: seq<Option<Bytes>>)
    requires ValidKeys(keys) && CanEncode(n, k) && m >= 1
    requires IsPermutation(keys.filePerm(m), m)
    requires |received| == m + ParityTotal(m, n, k)
    requires forall i | 0 <= i < |received| :: received[i].None?
    requires RestoredParity(keys, received, m, ParityTotal(m, n, k), parity)
    ensures !Recoverable(received, m, size, keys.filePerm(m), n, k, parity)
  {
    hide ParityTotal, StripeCount, Slot, RestoredParity;
    NoParityLeft(keys, received, m, ParityTotal(m, n, k), parity);
    SomeStripe(m, k);
    SlotBound(m, n, k, 0);
    SlotZero(k);
    SlotZero(n - k);
    FewSurvivors(ReceivedStripe(received, m, size, keys.filePerm(m), n, k, parity, 0), 1, k);
    LostStripe(received, m, size, keys.filePerm(m), n, k, parity, 0);
  }

  lemma {:induction false} SlotZero(k: nat)
    ensures forall j: nat :: Slot(0, k, j) == j
  {
  }

  lemma {:induction false} SomeStripe(m: nat, k: nat)
    requires k >= 1 && m >= 1
    ensures StripeCount(m, k) >= 1
  {
    StripesCover(m, k);
  }

  lemma {:induction false} NoParityLeft(keys: OuterKeys, received: seq<Option<Bytes>>, m: nat, t: nat,
                                        parity: seq<Option<Bytes>>)
    requires ValidKeys(keys) && |received| == m + t && RestoredParity(keys, received, m, t, parity)
    requires forall i | 0 <= i < |received| :: received[i].None?
    ensures |parity| == t && forall q | 0 <= q < t :: parity[q].None?
  {
    forall q | 0 <= q < t ensures parity[q].None? {
      assert IsPermutation(keys.parityPerm(t), t);
      var i := PermutationHits(keys.parityPerm(t), t, q);
      assert received[m + i].None?;
    }
  }

  /** Recovery, exactly: what is left of the codeword of a non-empty file decodes to the file if its blocks are not
      empty and every stripe kept at least k blocks, and is refused otherwise. */
  lemma {:induction false} OutcomeOfReception(keys: OuterKeys, blocks: seq<Bytes>, n: nat, k: nat, code: seq<Bytes>,
                                              received: seq<Option<Bytes>>, r: Option<seq<Bytes>>)
    requires ValidKeys(keys) && CanEncode(n, k) && blocks != []
    requires SameLength(blocks, BlockSize(blocks))
    requires IsCodeword(keys, blocks, n, k, code) && IsReception(code, received)
    requires IsOutcome(keys, received, |blocks|, n, k, r)
    ensures var m, t, size := |blocks|, ParityTotal(|blocks|, n, k), BlockSize(blocks);
      && IsPermutation(keys.filePerm(m), m) && |received| == m + t
      && r == if size > 0 && Recoverable(received, m, size, keys.filePerm(m), n, k, ParityOf(keys, received, m, t))
              then Some(blocks) else None
  {
    hide StripeCount, ParityTotal, DecodedUpTo, EncryptedParity, Recoverable, ParityOf;
    ReceptionSizes(keys, blocks, n, k, code, received);
    FirstSizeFound(received, BlockSize(blocks));
    var parity := ParityOf(keys, received, |blocks|, ParityTotal(|blocks|, n, k));
    if r.Some? {
      DecodingRecovers(keys, blocks, n, k, code, received, parity, r.value);
    } else if BlockSize(blocks) > 0 && FirstSize(received) == 0 {
      NothingReceived(keys, received, |blocks|, BlockSize(blocks), n, k, parity);
    }
  }

  /** A file of empty blocks has a codeword that no decoder takes, even with nothing lost: the decoder tells a lost
      store by its block size. */
  lemma {:induction false} EmptyBlocksLost(keys: OuterKeys, m: nat, n: nat, k: nat, code: seq<Bytes>,
                                           received: seq<Option<Bytes>>, r: Option<seq<Bytes>>)
    requires ValidKeys(keys) && CanEncode(n, k) && m >= 1
    requires IsCodeword(keys, seq(m, _ => []), n, k, code) && IsReception(code, received)
    requires IsOutcome(keys, received, m, n, k, r)
    ensures r == None
  {
    hide ParityTotal, Recoverable, ParityOf, IsCodeword, IsReception, IsOutcome;
    OutcomeOfReception(keys, seq(m, _ => []), n, k, code, received, r);
  }

  // ------------------------------------------------------------------ the plain code

  /** No secrets: nothing is shuffled, nothing is encrypted. */
  function PlainKeys(): OuterKeys {
    OuterKeys((n: nat) => FirstPositions(n), (n: nat) => FirstPositions(n), (i: nat, b: Bytes) => b)
  }

  lemma {:induction false} PlainKeysValid()
    ensures ValidKeys(PlainKeys())
  {
    forall n: nat ensures IsPermutation(PlainKeys().filePerm(n), n) && IsPermutation(PlainKeys().parityPerm(n), n) {
      assert PlainKeys().filePerm(n) == FirstPositions(n) == PlainKeys().parityPerm(n);
    }
  }

  /** ErasureEncodeStore: the file, then the parity of its stripes; the codeword of the outer code without keys if the
      blocks have one length. */
  method ErasureEncodeStore(store: seq<Bytes>, outerK: int, outerN: int) returns (r: Option<seq<Bytes>>)
    requires 0 < outerK <= outerN ==>
               CanEncode(outerN, outerK) && Readable(store, BlockSize(store), FirstPositions(|store|), outerK)
    ensures ValidKeys(PlainKeys())
    ensures r.Some? <==> 0 < outerK <= outerN && store != []
    ensures r.Some? ==> IsPlainCode(store, outerN, outerK, r.value)
    ensures r.Some? && SameLength(store, BlockSize(store)) ==> IsCodeword(PlainKeys(), store, outerN, outerK, r.value)
  {
    hide ParityBlock, StripeCount, Readable;
    PlainKeysValid();
    if outerK <= 0 || outerN < outerK { return None; }
    var m := |store|;
    if m == 0 { return None; }
    var allParity := EncodeStripes(store, FirstPositions(m), outerN, outerK);
    return Some(store + allParity);
  }

  /** The blocks, then the parity of their stripes in order. */
  ghost predicate IsPlainCode(store: seq<Bytes>, n: nat, k: nat, code: seq<Bytes>)
    requires CanEncode(n, k) && Readable(store, BlockSize(store), FirstPositions(|store|), k)
  {
    && |code| == |store| + ParityTotal(|store|, n, k) && code[..|store|] == store
    && AreParities(store, BlockSize(store), FirstPositions(|store|), n, k, code[|store|..])
  }

  /** Bytes past the length of a stripe's first block get no parity: without them the parity is the same. */
  lemma {:induction false} TailsUnprotected(store: seq<Bytes>, store': seq<Bytes>, n: nat, k: nat, code: seq<Bytes>,
                                            code': seq<Bytes>)
    requires CanEncode(n, k) && |store| == |store'| && BlockSize(store) == BlockSize(store')
    requires Readable(store, BlockSize(store), FirstPositions(|store|), k)
    requires Readable(store', BlockSize(store), FirstPositions(|store|), k)
    requires forall s: nat :: SameCut(Stripe(store, BlockSize(store), FirstPositions(|store|), k, s),
                                      Stripe(store', BlockSize(store), FirstPositions(|store|), k, s))
    requires IsPlainCode(store, n, k, code) && IsPlainCode(store', n, k, code')
    ensures code[|store|..] == code'[|store|..]
  {
    hide AreParities, Stripe, ParityTotal, Readable, SameCut;
    var m := |store|;
    SameParities(store, store', BlockSize(store), FirstPositions(m), n, k, code[m..], code'[m..]);
  }

  lemma {:induction false} SameParities(store: seq<Bytes>, store': seq<Bytes>, size: nat, perm: seq<int>, n: nat,
                                        k: nat, parity: seq<Bytes>, parity': seq<Bytes>)
    requires CanEncode(n, k) && Readable(store, size, perm, k) && Readable(store', size, perm, k)
    requires forall s: nat :: SameCut(Stripe(store, size, perm, k, s), Stripe(store', size, perm, k, s))
    requires AreParities(store, size, perm, n, k, parity) && AreParities(store', size, perm, n, k, parity')
    requires |parity| == |parity'|
    ensures parity == parity'
  {
    hide ParityBlock, Stripe, Readable, SameCut;
    forall q | 0 <= q < |parity| ensures parity[q] == parity'[q] {
      assert k < n && parity[q] == ParityBlock(store, size, perm, n, k, q);
      SameParity(store, store', size, perm, n, k, q);
    }
  }

  lemma {:induction false} SameParity(store: seq<Bytes>, store': seq<Bytes>, size: nat, perm: seq<int>, n: nat,
                                      k: nat, q: nat)
    requires CanEncode(n, k) && k < n && Readable(store, size, perm, k) && Readable(store', size, perm, k)
    requires SameCut(Stripe(store, size, perm, k, q / (n - k)), Stripe(store', size, perm, k, q / (n - k)))
    ensures ParityBlock(store, size, perm, n, k, q) == ParityBlock(store', size, perm, n, k, q)
  {
    hide EncodedBlock, Stripe, Readable, Cut;
  }

  /** The same as far as the encoder reads. */
  ghost predicate SameCut(a: seq<Bytes>, b: seq<Bytes>) {
    && BlockSize(a) == BlockSize(b) && ReadableStripe(a) && ReadableStripe(b)
    && Cut(a, BlockSize(a)) == Cut(b, BlockSize(b))
  }

  lemma {:induction false} PlainParity(received: seq<Option<Bytes>>, m: nat, t: nat)
    requires ValidKeys(PlainKeys()) && |received| == m + t
    ensures received[m..] == ParityOf(PlainKeys(), received, m, t)
  {
    RestoredUnique(PlainKeys(), received, m, t, received[m..]);
  }

  /** ErasureDecodeStore: the decoder of the outer code without keys. */
  method ErasureDecodeStore(store: seq<Option<Bytes>>, numMessage: nat, outerK: int, outerN: int)
    returns (r: Option<seq<Bytes>>)
    requires (0 < outerK <= outerN ==> CanDecode(outerN, outerK, store)) && UniformSurvivors(store, FirstSize(store))
    ensures ValidKeys(PlainKeys())
    ensures if 0 < outerK <= outerN then IsOutcome(PlainKeys(), store, numMessage, outerN, outerK, r) else r == None
  {
    hide StripeCount, ParityOf;
    PlainKeysValid();
    if outerK <= 0 || outerN < outerK { return None; }
    var totalParity := ParityTotal(numMessage, outerN, outerK);
    assert IsPermutation(PlainKeys().filePerm(numMessage), numMessage);
    if |store| != numMessage + totalParity { return None; }
    var blockSize := FindBlockSize(store);
    if blockSize == 0 { return None; }
    PlainParity(store, numMessage, totalParity);
    r := DecodeStripes(store, numMessage, outerN, outerK, blockSize, FirstPositions(numMessage), store[numMessage..]);
  }
}
