/** The outer code on the bytes themselves: what a parity block of the codeword holds, and which losses are survived,
    counted on the blocks that arrived. */
module OuterCodeBytes {
  import opened GF256
  import opened Pigeonhole
  import opened Interpolation
  import opened ReedSolomon
  import opened ModArith
  import opened ByteNumbers
  import opened Options
  import opened AdversarialCode
  import opened PlainCode

  // ------------------------------------------------------------------ what the codeword holds

  /** The file comes first, and every stripe of k blocks, the last one padded, adds n - k more. */
  lemma {:induction false} CodewordLength(keys: OuterKeys, blocks: seq<Bytes>, n: nat, k: nat, code: seq<Bytes>)
    requires ValidKeys(keys) && SameLength(blocks, BlockSize(blocks)) && CanEncode(n, k)
    requires IsCodeword(keys, blocks, n, k, code)
    ensures |code| == |blocks| + (|blocks| + k - 1) / k * (n - k) && code[..|blocks|] == blocks
  {
    hide EncryptedParity;
  }

  /** Byte b of parity block i, decrypted. The parity shuffle puts there parity block q of all, which is block j of the
      stripe that begins at start: the value at the point of j of the polynomial that takes the bytes b of the stripe at
      0, 1, 2, ..., where the stripe is k consecutive places of the shuffled file, with zeros past the end. */
  lemma {:induction false} ParityByte(keys: OuterKeys, blocks: seq<Bytes>, n: nat, k: nat, code: seq<Bytes>, i: nat,
                                      b: nat, perm: seq<int>, q: nat, start: nat, j: nat)
    returns (column: Bytes, p: Poly)
    requires ValidKeys(keys) && SameLength(blocks, BlockSize(blocks)) && CanEncode(n, k) && k < n
    requires IsCodeword(keys, blocks, n, k, code) && |blocks| + i < |code| && b < BlockSize(blocks)
    requires IsPermutation(perm, |blocks|) && perm == keys.filePerm(|blocks|)
    requires IsPermutation(keys.parityPerm(|code| - |blocks|), |code| - |blocks|)
    requires q == keys.parityPerm(|code| - |blocks|)[i] && start == q / (n - k) * k && j == k + q % (n - k)
    ensures var plain := keys.cipher(i, code[|blocks| + i]);
            |plain| == |blocks[0]| && plain[b] == Eval(p, (j % 256) as bv8)
    ensures |column| == |p| == k && forall u: nat | u < k :: column[u] == Eval(p, (u % 256) as bv8)
    ensures forall u: nat | u < k :: column[u] == if start + u < |blocks| then blocks[perm[start + u]][b] else 0
  {
    hide *;
    EncoderRange(n, k);
    ParityDecrypted(keys, blocks, n, k, code, i, perm, q, j);
    SlotAdds(q / (n - k), k);
    column, p := EncodedPolynomial(blocks, BlockSize(blocks), perm, k, q / (n - k), start, j, b);
  }

  lemma {:induction false} ParityDecrypted(keys: OuterKeys, blocks: seq<Bytes>, n: nat, k: nat, code: seq<Bytes>,
                                           i: nat, perm: seq<int>, q: nat, j: nat)
    requires ValidKeys(keys) && SameLength(blocks, BlockSize(blocks)) && CanEncode(n, k) && k < n
    requires IsCodeword(keys, blocks, n, k, code) && |blocks| + i < |code|
    requires IsPermutation(perm, |blocks|) && perm == keys.filePerm(|blocks|)
    requires IsPermutation(keys.parityPerm(|code| - |blocks|), |code| - |blocks|)
    requires q == keys.parityPerm(|code| - |blocks|)[i] && j == k + q % (n - k)
    ensures var stripe := Stripe(blocks, BlockSize(blocks), perm, k, q / (n - k));
            && blocks != [] && SameLength(stripe, BlockSize(blocks)) && BlockSize(blocks) == |blocks[0]|
            && keys.cipher(i, code[|blocks| + i]) == EncodedBlock(stripe, BlockSize(blocks), j)
  {
    hide EncodedBlock, ParityBlock, StripeCount;
    assert i < ParityTotal(|blocks|, n, k);
    assert code[|blocks| + i] == EncryptedParity(keys, blocks, n, k, i);
    UniformReadable(blocks, BlockSize(blocks), perm, k);
    ParityIsEncoded(blocks, BlockSize(blocks), perm, n, k, q);
    StripeInside(|blocks|, n, k, i);
  }

  lemma {:induction false} EncodedPolynomial(blocks: seq<Bytes>, size: nat, perm: seq<int>, k: nat, s: nat, start: nat,
                                             j: nat, b: nat) returns (column: Bytes, p: Poly)
    requires IsPermutation(perm, |blocks|) && SameLength(blocks, size) && 1 <= k <= 256 && start == Slot(s, k, 0)
    requires b < size && SameLength(Stripe(blocks, size, perm, k, s), size)
    ensures EncodedBlock(Stripe(blocks, size, perm, k, s), size, j)[b] == Eval(p, (j % 256) as bv8)
    ensures |column| == |p| == k && forall u: nat | u < k :: column[u] == Eval(p, (u % 256) as bv8)
    ensures forall u: nat | u < k :: column[u] == if start + u < |blocks| then blocks[perm[start + u]][b] else 0
  {
    hide Eval, Symbol, EncodedBlock;
    var stripe := Stripe(blocks, size, perm, k, s);
    SlotAdds(s, k);
    hide Slot;
    EncodedByte(stripe, size, j, b);
    column := Column(stripe, b);
    p := OnePolynomial(column);
    forall u: nat | u < k ensures column[u] == Eval(p, (u % 256) as bv8) {
      MessageSymbol(column, u);
      assert Symbol(column, u) == Eval(p, (u % 256) as bv8);
    }
    forall u: nat | u < k ensures column[u] == if start + u < |blocks| then blocks[perm[start + u]][b] else 0 {
      assert Slot(s, k, u) == start + u;
    }
  }

  lemma {:induction false} ParityIsEncoded(blocks: seq<Bytes>, size: nat, perm: seq<int>, n: nat, k: nat, q: nat)
    requires CanEncode(n, k) && k < n && Readable(blocks, size, perm, k) && SameLength(blocks, size)
    ensures var stripe := Stripe(blocks, size, perm, k, q / (n - k));
            SameLength(stripe, size)
            && ParityBlock(blocks, size, perm, n, k, q) == EncodedBlock(stripe, size, k + q % (n - k))
  {
    hide EncodedBlock;
    StripeSizes(blocks, size, perm, k, q / (n - k));
  }

  /** The same for the plain code, whose blocks may differ in length: parity block i, which is block j of the stripe
      that begins at start, is as long as the first block of the stripe, and its bytes lie on polynomials through the
      bytes of the stripe at the same offset. */
  lemma {:induction false} PlainParityByte(store: seq<Bytes>, n: nat, k: nat, code: seq<Bytes>, i: nat, b: nat,
                                           start: nat, j: nat) returns (column: Bytes, p: Poly)
    requires CanEncode(n, k) && k < n && PlainReadable(store, k) && IsPlainCode(store, n, k, code)
    requires |store| + i < |code| && b < |code[|store| + i]| && start == i / (n - k) * k && j == k + i % (n - k)
    ensures start < |store| && |code[|store| + i]| == |store[start]| && |column| == |p| == k
    ensures forall u | start <= u < start + k && u < |store| :: b < |store[u]| && column[u - start] == store[u][b]
    ensures forall t: nat | t < k && start + t >= |store| :: column[t] == 0
    ensures forall t: nat | t < k :: column[t] == Eval(p, (t % 256) as bv8)
    ensures code[|store| + i][b] == Eval(p, (j % 256) as bv8)
  {
    assert i < ParityTotal(|store|, n, k);
    hide *;
    var s := i / (n - k);
    PlaceSlot(i, n - k);
    StripeInside(|store|, n, k, i);
    SlotAdds(s, k);
    CodeLengths(store, n, k, code);
    column, p := PlainStripeByte(store, n, k, code, s, start, j, b);
  }

  lemma {:induction false} PlainStripeByte(store: seq<Bytes>, n: nat, k: nat, code: seq<Bytes>, s: nat, start: nat,
                                           j: nat, b: nat) returns (column: Bytes, p: Poly)
    requires CanEncode(n, k) && k <= j < n && PlainReadable(store, k) && IsPlainCode(store, n, k, code)
    requires start == Slot(s, k, 0) < |store| && Slot(s, n - k, n - k) <= |code| - |store|
    requires var q := |store| + Slot(s, n - k, j - k); q < |code| && b < |code[q]|
    ensures var q := |store| + Slot(s, n - k, j - k);
            |code[q]| == |store[start]| && |column| == |p| == k && code[q][b] == Eval(p, (j % 256) as bv8)
    ensures forall u | start <= u < start + k && u < |store| :: b < |store[u]| && column[u - start] == store[u][b]
    ensures forall t: nat | t < k && start + t >= |store| :: column[t] == 0
    ensures forall t: nat | t < k :: column[t] == Eval(p, (t % 256) as bv8)
  {
    hide *;
    EncoderRange(n, k);
    SlotAdds(s, k);
    StripeByte(store, n, k, code, s, j, b);
    ReadableAt(store, k, s);
    var stripe := PlainStripe(store, k, s);
    assert stripe[0] == store[start];
    column, p := StripePolynomial(stripe, b);
    forall t: nat | t < k ensures stripe[t] == if start + t < |store| then store[start + t] else Zeros(BlockSize(store))
    {
      assert Slot(s, k, t) == start + t;
    }
    forall u | start <= u < start + k && u < |store| ensures b < |store[u]| && column[u - start] == store[u][b] {
      assert stripe[u - start] == store[u];
    }
    forall t: nat | t < k && start + t >= |store| ensures column[t] == 0 {
      assert stripe[t] == Zeros(BlockSize(store));
    }
  }

  lemma {:induction false} EncoderRange(n: nat, k: nat)
    requires CanEncode(n, k) && k < n
    ensures 1 <= k <= 256
  {
  }

  lemma {:induction false} StripePolynomial(stripe: seq<Bytes>, b: nat) returns (column: Bytes, p: Poly)
    requires ReadableStripe(stripe) && 1 <= |stripe| <= 256 && b < |stripe[0]|
    ensures |column| == |p| == |stripe| && LongEnough(stripe, |stripe[0]|)
    ensures forall t: nat | t < |stripe| :: b < |stripe[t]| && column[t] == stripe[t][b]
    ensures forall t: nat | t < |stripe| :: column[t] == Eval(p, (t % 256) as bv8)
    ensures forall j: nat :: Symbol(Column(Cut(stripe, |stripe[0]|), b), j) == Eval(p, (j % 256) as bv8)
  {
    hide Eval, Symbol;
    column := Column(Cut(stripe, |stripe[0]|), b);
    p := OnePolynomial(column);
    forall t: nat | t < |stripe|
      ensures b < |stripe[t]| && column[t] == stripe[t][b] && column[t] == Eval(p, (t % 256) as bv8)
    {
      MessageSymbol(column, t);
      assert Symbol(column, t) == Eval(p, (t % 256) as bv8);
    }
  }

  lemma {:induction false} StripeInside(m: nat, n: nat, k: nat, i: nat)
    requires 1 <= k < n && i < ParityTotal(m, n, k)
    ensures i / (n - k) < StripeCount(m, k) && 0 <= i / (n - k) * k < m
    ensures Slot(i / (n - k), n - k, n - k) <= ParityTotal(m, n, k)
  {
    var s := i / (n - k);
    if s >= StripeCount(m, k) {
      MulMono(StripeCount(m, k), s, n - k);
    }
    StripeNonempty(m, k, s);
    SlotBound(m, n, k, s);
  }

  // ------------------------------------------------------------------ counting

  lemma {:induction false} CountIsSize(r: seq<Option<Bytes>>, i: nat)
    requires i <= |r|
    ensures SurvivorCount(r, i) == |set j | i <= j < |r| && r[j].Some?|
    decreases |r| - i
  {
    var left := set j | i <= j < |r| && r[j].Some?;
    if i < |r| {
      CountIsSize(r, i + 1);
      var rest := set j | i + 1 <= j < |r| && r[j].Some?;
      if r[i].Some? {
        assert left == rest + {i};
      } else {
        assert left == rest;
      }
    } else {
      assert left == {};
    }
  }

  lemma {:induction false} SlotPlace(s: nat, k: nat, j: nat)
    requires j < k
    ensures Slot(s, k, j) / k == s && Slot(s, k, j) % k == j
  {
    ModUnique(Slot(s, k, j), s, j, k);
  }

  lemma {:induction false} PlaceSlot(p: nat, k: nat)
    requires k >= 1
    ensures p / k >= 0 && p % k < k && Slot(p / k, k, p % k) == p
  {
  }

  lemma {:induction false} SlotsDiffer(s: nat, k: nat)
    ensures forall i: nat, j: nat | Slot(s, k, i) == Slot(s, k, j) :: i == j
  {
  }

  /** The file blocks of a stripe that arrived. */
  lemma {:induction false} FileCount(received: seq<Option<Bytes>>, m: nat, perm: seq<int>, k: nat, s: nat)
    requires k >= 1 && |perm| == m <= |received| && forall i | 0 <= i < m :: 0 <= perm[i] < m
    ensures |set j | 0 <= j < k && Slot(s, k, j) < m && received[perm[Slot(s, k, j)]].Some?|
            == |set p | 0 <= p < m && p / k == s && received[perm[p]].Some?|
  {
    hide Slot;
    var a := set j | 0 <= j < k && Slot(s, k, j) < m && received[perm[Slot(s, k, j)]].Some?;
    var b := set p | 0 <= p < m && p / k == s && received[perm[p]].Some?;
    forall j | 0 <= j < k ensures Slot(s, k, j) / k == s { SlotPlace(s, k, j); }
    SlotsDiffer(s, k);
    var f := map j: int | j in a :: Slot(s, k, j);
    forall p | p in b ensures p in f.Values {
      PlaceSlot(p, k);
      assert f[p % k] == p;
    }
    assert f.Values == b;
    SameSize(a, b, f);
  }

  /** The blocks of a shuffled row that belong to one stripe. */
  lemma {:induction false} ShuffledCount(perm: seq<int>, parity: seq<Option<Bytes>>, received: seq<Option<Bytes>>,
                                         d: nat, s: nat)
    requires IsPermutation(perm, |parity|) && |received| == |parity| && d >= 1 && Slot(s, d, d) <= |parity|
    requires forall i | 0 <= i < |received| :: parity[perm[i]].Some? <==> received[i].Some?
    ensures forall j: nat | j < d :: Slot(s, d, j) < |parity|
    ensures |set j | 0 <= j < d && parity[Slot(s, d, j)].Some?|
            == |set i | 0 <= i < |received| && perm[i] / d == s && received[i].Some?|
  {
    hide Slot;
    forall j: nat | j < d ensures Slot(s, d, j) < |parity| && Slot(s, d, j) / d == s && Slot(s, d, j) % d == j {
      SlotPlace(s, d, j);
      SlotBelow(s, d, j);
    }
    var a := set j | 0 <= j < d && parity[Slot(s, d, j)].Some?;
    var b := set i | 0 <= i < |received| && perm[i] / d == s && received[i].Some?;
    forall i | i in b ensures perm[i] % d in a && Slot(s, d, perm[i] % d) == perm[i] {
      PlaceSlot(perm[i], d);
    }
    var f := map i | i in b :: perm[i] % d;
    forall j | j in a ensures j in f.Values {
      var i := PermutationHits(perm, |parity|, Slot(s, d, j));
      assert f[i] == j;
    }
    assert f.Values == a;
    SameSize(b, a, f);
  }

  /** The parity blocks of a stripe that arrived. */
  lemma {:induction false} ParityCount(keys: OuterKeys, received: seq<Option<Bytes>>, m: nat, t: nat, d: nat, s: nat)
    requires ValidKeys(keys) && |received| == m + t && d >= 1 && Slot(s, d, d) <= t
    ensures IsPermutation(keys.parityPerm(t), t) && forall j: nat | j < d :: Slot(s, d, j) < t
    ensures |set j | 0 <= j < d && ParityOf(keys, received, m, t)[Slot(s, d, j)].Some?|
            == |set i | 0 <= i < t && keys.parityPerm(t)[i] / d == s && received[m + i].Some?|
  {
    var perm, parity := keys.parityPerm(t), ParityOf(keys, received, m, t);
    assert RestoredParity(keys, received, m, t, parity) && IsPermutation(perm, t);
    hide ParityOf, Slot;
    var tail := received[m..];
    ShuffledCount(perm, parity, tail, d, s);
    assert (set i | 0 <= i < t && perm[i] / d == s && received[m + i].Some?)
        == (set i | 0 <= i < |tail| && perm[i] / d == s && tail[i].Some?);
  }

  lemma {:induction false} SlotBelow(s: nat, d: nat, j: nat)
    requires j < d
    ensures Slot(s, d, j) < Slot(s, d, d)
  {
  }

  /** How many of the n places of a stripe the decoder can use: the blocks of its part of the shuffled file that
      arrived, its parity blocks that arrived, and the padding of a short last stripe. */
  lemma {:induction false} StripeCounted(keys: OuterKeys, received: seq<Option<Bytes>>, m: nat, t: nat, size: nat,
                                         n: nat, k: nat, s: nat)
    requires ValidKeys(keys) && 1 <= k <= n && t == ParityTotal(m, n, k) && |received| == m + t
    requires IsPermutation(keys.filePerm(m), m) && IsPermutation(keys.parityPerm(t), t) && s < StripeCount(m, k)
    ensures Slot(s, n - k, n - k) <= t
    ensures SurvivorCount(ReceivedStripe(received, m, size, keys.filePerm(m), n, k, ParityOf(keys, received, m, t), s),
                          0)
            == |set p | 0 <= p < m && p / k == s && received[keys.filePerm(m)[p]].Some?|
               + |set i | 0 <= i < t && k < n && keys.parityPerm(t)[i] / (n - k) == s && received[m + i].Some?|
               + (if s * k + k > m then s * k + k - m else 0)
  {
    hide StripeCount, ParityTotal, ParityOf, SurvivorCount;
    SlotAdds(s, k);
    SlotBound(m, n, k, s);
    StripeNonempty(m, k, s);
    var perm := keys.filePerm(m);
    var r := ReceivedStripe(received, m, size, perm, n, k, ParityOf(keys, received, m, t), s);
    var lo := if s * k + k > m then m - s * k else k;
    hide Slot;
    forall j | lo <= j < k ensures r[j].Some? {
      assert Slot(s, k, j) >= m;
    }
    SplitCount(r, lo, k);
    assert (set j | 0 <= j < lo && r[j].Some?)
        == (set j | 0 <= j < k && Slot(s, k, j) < m && received[perm[Slot(s, k, j)]].Some?);
    FileCount(received, m, perm, k, s);
    LateCount(keys, received, m, t, size, n, k, s);
  }

  lemma {:induction false} SplitCount(r: seq<Option<Bytes>>, lo: nat, k: nat)
    requires lo <= k <= |r| && forall j | lo <= j < k :: r[j].Some?
    ensures SurvivorCount(r, 0)
            == |set j | 0 <= j < lo && r[j].Some?| + (k - lo) + |set j | k <= j < |r| && r[j].Some?|
  {
    CountBefore(r, lo);
    CountPresent(r, lo, k);
    CountIsSize(r, k);
  }

  lemma {:induction false} CountBefore(r: seq<Option<Bytes>>, i: nat)
    requires i <= |r|
    ensures SurvivorCount(r, 0) == |set j | 0 <= j < i && r[j].Some?| + SurvivorCount(r, i)
  {
    var before := set j | 0 <= j < i && r[j].Some?;
    if i > 0 {
      CountBefore(r, i - 1);
      var less := set j | 0 <= j < i - 1 && r[j].Some?;
      assert before == if r[i - 1].Some? then less + {i - 1} else less;
    } else {
      assert before == {};
    }
  }

  lemma {:induction false} CountPresent(r: seq<Option<Bytes>>, i: nat, k: nat)
    requires i <= k <= |r| && forall j | i <= j < k :: r[j].Some?
    ensures SurvivorCount(r, i) == k - i + SurvivorCount(r, k)
    decreases k - i
  {
    if i < k { CountPresent(r, i + 1, k); }
  }

  lemma {:induction false} SlotAdds(s: nat, k: nat)
    ensures Slot(s, k, 0) == s * k && forall j: nat :: Slot(s, k, j) == Slot(s, k, 0) + j
  {
    MulMono(0, s, k);
  }

  lemma {:induction false} LateCount(keys: OuterKeys, received: seq<Option<Bytes>>, m: nat, t: nat, size: nat, n: nat,
                                     k: nat, s: nat)
    requires ValidKeys(keys) && 1 <= k <= n && |received| == m + t && Slot(s, n - k, n - k) <= t
    requires IsPermutation(keys.filePerm(m), m) && IsPermutation(keys.parityPerm(t), t)
    ensures var r := ReceivedStripe(received, m, size, keys.filePerm(m), n, k, ParityOf(keys, received, m, t), s);
            |set j | k <= j < n && r[j].Some?|
            == |set i | 0 <= i < t && k < n && keys.parityPerm(t)[i] / (n - k) == s && received[m + i].Some?|
  {
    hide ParityOf, Slot;
    var parity := ParityOf(keys, received, m, t);
    var r := ReceivedStripe(received, m, size, keys.filePerm(m), n, k, parity, s);
    var late := set j | k <= j < n && r[j].Some?;
    var arrived := set i | 0 <= i < t && k < n && keys.parityPerm(t)[i] / (n - k) == s && received[m + i].Some?;
    if k < n {
      ParityCount(keys, received, m, t, n - k, s);
      ShiftedCount(r, parity, k, n - k, s);
      assert arrived == set i | 0 <= i < t && keys.parityPerm(t)[i] / (n - k) == s && received[m + i].Some?;
    } else {
      assert late == {} && arrived == {};
    }
  }

  lemma {:induction false} ShiftedCount(r: seq<Option<Bytes>>, parity: seq<Option<Bytes>>, k: nat, d: nat, s: nat)
    requires |r| == k + d && forall j: nat | j < d :: Slot(s, d, j) < |parity|
    requires forall j | k <= j < |r| :: r[j] == parity[Slot(s, d, j - k)]
    ensures |set j | k <= j < |r| && r[j].Some?| == |set j | 0 <= j < d && parity[Slot(s, d, j)].Some?|
  {
    hide Slot;
    var late, a := set j | k <= j < |r| && r[j].Some?, set j | 0 <= j < d && parity[Slot(s, d, j)].Some?;
    var f := map j | j in late :: j - k;
    forall j | j in a ensures j in f.Values {
      assert r[j + k] == parity[Slot(s, d, j)];
      assert f[j + k] == j;
    }
    assert f.Values == a;
    SameSize(late, a, f);
  }

  lemma {:induction false} KeptCount(keys: OuterKeys, received: seq<Option<Bytes>>, m: nat, t: nat, size: nat, n: nat,
                                     k: nat, s: nat)
    requires ValidKeys(keys) && 1 <= k <= n && t == ParityTotal(m, n, k) && |received| == m + t
    requires IsPermutation(keys.filePerm(m), m) && IsPermutation(keys.parityPerm(t), t) && s < StripeCount(m, k)
    ensures StripeKept(received, m, size, keys.filePerm(m), n, k, ParityOf(keys, received, m, t), s) <==>
            |set p | 0 <= p < m && p / k == s && received[keys.filePerm(m)[p]].Some?|
            + |set i | 0 <= i < t && k < n && keys.parityPerm(t)[i] / (n - k) == s && received[m + i].Some?|
            + (if s * k + k > m then s * k + k - m else 0) >= k
  {
    hide ParityTotal, ParityOf, StripeCount, Slot;
    StripeCounted(keys, received, m, t, size, n, k, s);
  }

  /** For every stripe, the file blocks that arrived, the parity blocks that arrived, and the padding. */
  ghost predicate AreCounts(arrived: seq<nat>, keys: OuterKeys, received: seq<Option<Bytes>>, m: nat, t: nat, n: nat,
                            k: nat)
    requires ValidKeys(keys) && 1 <= k <= n && |received| == m + t
    requires IsPermutation(keys.filePerm(m), m) && IsPermutation(keys.parityPerm(t), t)
  {
    && |arrived| == (m + k - 1) / k
    && forall s | 0 <= s < |arrived| :: arrived[s]
         == |set p | 0 <= p < m && p / k == s && received[keys.filePerm(m)[p]].Some?|
            + |set i | 0 <= i < t && k < n && keys.parityPerm(t)[i] / (n - k) == s && received[m + i].Some?|
            + (if s * k + k > m then s * k + k - m else 0)
  }

  /** A store can be recovered if and only if every stripe kept at least k places. */
  lemma {:induction false} RecoverableCounts(keys: OuterKeys, received: seq<Option<Bytes>>, m: nat, t: nat, size: nat,
                                             n: nat, k: nat, arrived: seq<nat>)
    requires ValidKeys(keys) && 1 <= k <= n && t == ParityTotal(m, n, k) && |received| == m + t
    requires IsPermutation(keys.filePerm(m), m) && IsPermutation(keys.parityPerm(t), t)
    requires AreCounts(arrived, keys, received, m, t, n, k)
    ensures Recoverable(received, m, size, keys.filePerm(m), n, k, ParityOf(keys, received, m, t))
            <==> forall s | 0 <= s < |arrived| :: arrived[s] >= k
  {
    hide ParityTotal, ParityOf, StripeKept;
    var perm, parity := keys.filePerm(m), ParityOf(keys, received, m, t);
    forall s: nat | s < StripeCount(m, k)
      ensures StripeKept(received, m, size, perm, n, k, parity, s) <==> arrived[s] >= k
    {
      KeptCount(keys, received, m, t, size, n, k, s);
    }
  }

  /** Recovery on the blocks themselves: what is left of the codeword of a file decodes to the file if its blocks are
      not empty and, in every stripe, the file blocks that arrived, the parity blocks that arrived and the padding make
      k together; otherwise it is refused. */
  lemma {:induction false} RecoveredIff(keys: OuterKeys, blocks: seq<Bytes>, n: nat, k: nat, code: seq<Bytes>,
                                        received: seq<Option<Bytes>>, r: Option<seq<Bytes>>, m: nat, t: nat,
                                        arrived: seq<nat>)
    requires ValidKeys(keys) && CanEncode(n, k) && blocks != []
    requires SameLength(blocks, BlockSize(blocks))
    requires IsCodeword(keys, blocks, n, k, code) && IsReception(code, received)
    requires IsOutcome(keys, received, |blocks|, n, k, r)
    requires m == |blocks| && |received| == m + t
    requires IsPermutation(keys.filePerm(m), m) && IsPermutation(keys.parityPerm(t), t)
    requires |arrived| == (m + k - 1) / k
    requires forall s | 0 <= s < |arrived| :: arrived[s]
               == |set p | 0 <= p < m && p / k == s && received[keys.filePerm(m)[p]].Some?|
                  + |set i | 0 <= i < t && k < n && keys.parityPerm(t)[i] / (n - k) == s && received[m + i].Some?|
                  + (if s * k + k > m then s * k + k - m else 0)
    ensures r == if blocks[0] != [] && forall s | 0 <= s < |arrived| :: arrived[s] >= k then Some(blocks) else None
  {
    hide ParityTotal, ParityOf, Recoverable, IsOutcome, IsCodeword;
    OutcomeOfReception(keys, blocks, n, k, code, received, r);
    RecoverableCounts(keys, received, m, t, BlockSize(blocks), n, k, arrived);
  }

  /** A store with another number of blocks is refused. */
  lemma {:induction false} WrongCountRefused(keys: OuterKeys, received: seq<Option<Bytes>>, m: nat, n: nat, k: nat,
                                             r: Option<seq<Bytes>>)
    requires ValidKeys(keys) && CanEncode(n, k) && IsOutcome(keys, received, m, n, k, r)
    requires |received| != m + (m + k - 1) / k * (n - k)
    ensures r == None
  {
    hide ParityOf, Recoverable;
  }
}
