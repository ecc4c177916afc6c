/** What the plain outer code protects when blocks differ in length: any k blocks of a stripe determine it if no block
    is longer than the first of its stripe, and a block that is longer cannot be restored. */
module PlainCode {
  import opened GF256
  import opened Pigeonhole
  import opened ModArith
  import opened ReedSolomon
  import opened AdversarialCode
  import opened ByteNumbers
  import opened Options

  /** A store the plain encoder can read. */
  ghost predicate PlainReadable(store: seq<Bytes>, k: nat) {
    Readable(store, BlockSize(store), FirstPositions(|store|), k)
  }

  function PlainStripe(store: seq<Bytes>, k: nat, s: nat): (r: seq<Bytes>)
    ensures |r| == k
    ensures forall j | 0 <= j < k ::
              r[j] == if Slot(s, k, j) < |store| then store[Slot(s, k, j)] else Zeros(BlockSize(store))
  {
    Stripe(store, BlockSize(store), FirstPositions(|store|), k, s)
  }

  lemma {:induction false} ReadableAt(store: seq<Bytes>, k: nat, s: nat)
    requires PlainReadable(store, k)
    ensures ReadableStripe(PlainStripe(store, k, s))
  {
  }

  // ------------------------------------------------------------------ longer blocks

  /** The first block of the stripe of block p. */
  function FirstOf(p: nat, k: nat): (f: nat)
    requires k >= 1
    ensures f <= p
  {
    p - p % k
  }

  /** The store with block p cut to the length of the first block of its stripe. */
  function CutAt(store: seq<Bytes>, k: nat, p: nat): (r: seq<Bytes>)
    requires k >= 1 && p < |store| && |store[FirstOf(p, k)]| <= |store[p]|
    ensures |r| == |store|
  {
    store[p := store[p][..|store[FirstOf(p, k)]|]]
  }

  lemma {:induction false} SlotIs(s: nat, k: nat, j: nat, p: nat)
    requires j < k && Slot(s, k, j) == p
    ensures p / k == s && p % k == j && FirstOf(p, k) == Slot(s, k, 0)
  {
    ModUnique(p, s, j, k);
  }

  /** Cutting a longer block leaves what the encoder reads of every stripe. */
  lemma {:induction false} CutStripe(store: seq<Bytes>, k: nat, p: nat, s: nat)
    requires PlainReadable(store, k) && p < |store| && p % k != 0 && |store[FirstOf(p, k)]| <= |store[p]|
    ensures BlockSize(CutAt(store, k, p)) == BlockSize(store)
    ensures SameCut(PlainStripe(store, k, s), PlainStripe(CutAt(store, k, p), k, s))
  {
    assert k >= 1;
    hide Stripe, PlainStripe, Slot, Readable, FirstPositions;
    var store' := CutAt(store, k, p);
    if p == 0 { ModSmall(0, k); }
    var a, b := PlainStripe(store, k, s), PlainStripe(store', k, s);
    ReadableAt(store, k, s);
    forall j | 0 <= j < k ensures Slot(s, k, j) != p ==> a[j] == b[j] {
    }
    if Slot(s, k, 0) == p { SlotIs(s, k, 0, p); }
    assert a[0] == b[0];
    forall j | 0 <= j < k ensures |b[j]| >= |b[0]| && a[j][..|b[0]|] == b[j][..|b[0]|] {
      assert |a[j]| >= |a[0]|;
      if Slot(s, k, j) == p {
        SlotIs(s, k, j, p);
        assert a[0] == store[FirstOf(p, k)];
        assert b[j] == a[j][..|a[0]|];
      }
    }
  }

  /** The cut store can be read as well. */
  lemma {:induction false} CutReadable(store: seq<Bytes>, k: nat, p: nat)
    requires PlainReadable(store, k) && p < |store| && p % k != 0 && |store[FirstOf(p, k)]| <= |store[p]|
    ensures PlainReadable(CutAt(store, k, p), k)
  {
    hide Stripe, PlainStripe;
    var store' := CutAt(store, k, p);
    CutStripe(store, k, p, 0);
    forall s: nat ensures ReadableStripe(Stripe(store', BlockSize(store'), FirstPositions(|store'|), k, s)) {
      CutStripe(store, k, p, s);
      StripeOfStore(store', k, s);
    }
  }

  /** A block longer than the first of its stripe cannot be restored: every code of the store agrees, outside that one
      block, with the code of the store where the block ends with the first one's length. */
  lemma {:induction false} LostTail(store: seq<Bytes>, k: nat, n: nat, p: nat, code: seq<Bytes>, code': seq<Bytes>)
    requires CanEncode(n, k) && PlainReadable(store, k) && p < |store| && p % k != 0
    requires |store[p]| > |store[FirstOf(p, k)]|
    requires IsPlainCode(store, n, k, code)
    requires (CutReadable(store, k, p); IsPlainCode(CutAt(store, k, p), n, k, code'))
    ensures |code| == |code'| && p < |code| && code[p] != code'[p]
    ensures code[p := []] == code'[p := []]
  {
    hide Readable, AreParities, ParityTotal, SameCut, PlainStripe, Stripe;
    var store', m := CutAt(store, k, p), |store|;
    CutStripe(store, k, p, 0);
    CutReadable(store, k, p);
    forall s: nat ensures SameCut(Stripe(store, BlockSize(store), FirstPositions(m), k, s),
                                  Stripe(store', BlockSize(store), FirstPositions(m), k, s))
    {
      CutStripe(store, k, p, s);
      StripeOfStore(store, k, s);
      StripeOfStore(store', k, s);
    }
    TailsUnprotected(store, store', n, k, code, code');
    assert code == code[..m] + code[m..] && code' == code'[..m] + code'[m..];
    assert code[p] == store[p] && code'[p] == store'[p];
    assert code[..m][p := []] == code'[..m][p := []];
  }

  lemma {:induction false} StripeOfStore(store: seq<Bytes>, k: nat, s: nat)
    ensures PlainStripe(store, k, s) == Stripe(store, BlockSize(store), FirstPositions(|store|), k, s)
  {
  }

  // ------------------------------------------------------------------ level stripes

  /** No block is longer than the first of its stripe. */
  predicate Level(store: seq<Bytes>, k: nat)
    requires k >= 1
  {
    forall p | 0 <= p < |store| :: |store[p]| <= |store[FirstOf(p, k)]|
  }

  /** Both codes have the same block at position j of stripe s; padding is known. */
  ghost predicate AgreeAt(code: seq<Bytes>, code': seq<Bytes>, m: nat, n: nat, k: nat, s: nat, j: int)
    requires |code| == |code'| && m <= |code| && 1 <= k <= n && Slot(s, n - k, n - k) <= |code| - m
  {
    && 0 <= j < n
    && if j < k then Slot(s, k, j) >= m || code[Slot(s, k, j)] == code'[Slot(s, k, j)]
       else code[m + Slot(s, n - k, j - k)] == code'[m + Slot(s, n - k, j - k)]
  }

  /** Some k positions of the stripe agree. */
  ghost predicate KAgree(code: seq<Bytes>, code': seq<Bytes>, m: nat, n: nat, k: nat, s: nat, good: seq<int>)
    requires |code| == |code'| && m <= |code| && 1 <= k <= n && Slot(s, n - k, n - k) <= |code| - m
  {
    |good| == k && Distinct(good) && forall t | 0 <= t < k :: AgreeAt(code, code', m, n, k, s, good[t])
  }

  /** In a level stripe every block that is not padding has the length of the first. */
  lemma {:induction false} LevelStripe(store: seq<Bytes>, k: nat, s: nat, j: nat)
    requires PlainReadable(store, k) && Level(store, k) && j < k && Slot(s, k, j) < |store|
    ensures |PlainStripe(store, k, s)[j]| == |PlainStripe(store, k, s)[0]|
    ensures Slot(s, k, 0) < |store|
  {
    hide Stripe, PlainStripe;
    ReadableAt(store, k, s);
    SlotIs(s, k, j, Slot(s, k, j));
  }

  /** Symbol j of stripe s, byte b, as both sides of the code have it. */
  lemma {:induction false} StripeByte(store: seq<Bytes>, n: nat, k: nat, code: seq<Bytes>, s: nat, j: nat, b: nat)
    requires CanEncode(n, k) && k < n && PlainReadable(store, k) && IsPlainCode(store, n, k, code)
    requires k <= j < n && Slot(s, n - k, n - k) <= |code| - |store|
    ensures var stripe, q := PlainStripe(store, k, s), Slot(s, n - k, j - k);
            && ReadableStripe(stripe) && |code[|store| + q]| == |stripe[0]|
            && (b < |stripe[0]| ==> code[|store| + q][b] == Symbol(Column(Cut(stripe, |stripe[0]|), b), j))
  {
    hide Symbol, Stripe, PlainStripe, ParityTotal;
    var q := Slot(s, n - k, j - k);
    ModUnique(q, s, j - k, n - k);
    ReadableAt(store, k, s);
    StripeOfStore(store, k, s);
    assert code[|store|..][q] == ParityBlock(store, BlockSize(store), FirstPositions(|store|), n, k, q);
  }

  /** The code of a store: the blocks, then the parity of their stripes. */
  ghost function PlainCodeOf(store: seq<Bytes>, n: nat, k: nat): (code: seq<Bytes>)
    requires CanEncode(n, k) && PlainReadable(store, k)
    ensures IsPlainCode(store, n, k, code) && |code| == |store| + ParityTotal(|store|, n, k)
  {
    var m, t := |store|, ParityTotal(|store|, n, k);
    var parity := seq(t, q requires 0 <= q < t =>
      SomeParity(m, n, k); ParityBlock(store, BlockSize(store), FirstPositions(m), n, k, q));
    assert (store + parity)[m..] == parity;
    store + parity
  }

  /** No block of the second store is longer than its counterpart. */
  predicate NoLonger(store: seq<Bytes>, store': seq<Bytes>) {
    |store'| == |store| && forall p | 0 <= p < |store| :: |store'[p]| <= |store[p]|
  }

  /** Two codes agree on some k positions of every stripe. */
  ghost predicate StripesAgree(code: seq<Bytes>, code': seq<Bytes>, m: nat, n: nat, k: nat)
    requires 1 <= k <= n && |code| == |code'| == m + ParityTotal(m, n, k)
  {
    forall s: nat | s < StripeCount(m, k) :: SomeAgree(code, code', m, n, k, s)
  }

  ghost predicate SomeAgree(code: seq<Bytes>, code': seq<Bytes>, m: nat, n: nat, k: nat, s: nat)
    requires 1 <= k <= n && |code| == |code'| == m + ParityTotal(m, n, k)
  {
    exists good :: StripeAgrees(code, code', m, n, k, s, good)
  }

  ghost predicate StripeAgrees(code: seq<Bytes>, code': seq<Bytes>, m: nat, n: nat, k: nat, s: nat, good: seq<int>)
    requires 1 <= k <= n && |code| == |code'| == m + ParityTotal(m, n, k)
  {
    Slot(s, n - k, n - k) <= ParityTotal(m, n, k) && KAgree(code, code', m, n, k, s, good)
  }

  /** The first blocks of a stripe have one length in both stores: the first block itself is among the k that agree,
      or a parity block is. */
  lemma {:induction false} SameFirst(store: seq<Bytes>, store': seq<Bytes>, n: nat, k: nat, code: seq<Bytes>,
                                     code': seq<Bytes>, s: nat, good: seq<int>)
    requires CanEncode(n, k) && k < n && PlainReadable(store, k) && PlainReadable(store', k) && |store'| == |store|
    requires IsPlainCode(store, n, k, code) && IsPlainCode(store', n, k, code')
    requires Slot(s, k, 0) < |store| && StripeAgrees(code, code', |store|, n, k, s, good)
    ensures |PlainStripe(store, k, s)[0]| == |PlainStripe(store', k, s)[0]|
  {
    hide Stripe, PlainStripe, ParityTotal, Readable, IsPlainCode, StripeAgrees, AgreeAt, Slot;
    CodeLengths(store, n, k, code);
    CodeLengths(store', n, k, code');
    SomeParityOrFirst(code, code', |store|, n, k, s, good);
    if AgreeAt(code, code', |store|, n, k, s, 0) {
      AgreeingBlock(code, code', |store|, n, k, s, 0);
      CodeStart(store, n, k, code, Slot(s, k, 0));
      CodeStart(store', n, k, code', Slot(s, k, 0));
    } else {
      var j :| k <= j < n && AgreeAt(code, code', |store|, n, k, s, j);
      AgreeingParity(code, code', |store|, n, k, s, j);
      StripeByte(store, n, k, code, s, j, 0);
      StripeByte(store', n, k, code', s, j, 0);
    }
  }

  lemma {:induction false} CodeLengths(store: seq<Bytes>, n: nat, k: nat, code: seq<Bytes>)
    requires CanEncode(n, k) && PlainReadable(store, k) && IsPlainCode(store, n, k, code)
    ensures |code| == |store| + ParityTotal(|store|, n, k)
  {
  }

  lemma {:induction false} SomeParityOrFirst(code: seq<Bytes>, code': seq<Bytes>, m: nat, n: nat, k: nat, s: nat,
                                             good: seq<int>)
    requires 1 <= k <= n && |code| == |code'| == m + ParityTotal(m, n, k) && StripeAgrees(code, code', m, n, k, s, good)
    ensures Slot(s, n - k, n - k) <= |code| - m
    ensures AgreeAt(code, code', m, n, k, s, 0) || exists j :: k <= j < n && AgreeAt(code, code', m, n, k, s, j)
  {
    hide ParityTotal, AgreeAt, Slot;
    AgreeRange(code, code', m, n, k, s, good);
    if forall t | 0 <= t < k :: good[t] < k {
      EveryNumberOccurs(good, 0);
      var t :| 0 <= t < k && good[t] == 0;
      assert AgreeAt(code, code', m, n, k, s, good[t]);
    } else {
      var t :| 0 <= t < k && good[t] >= k;
      assert AgreeAt(code, code', m, n, k, s, good[t]);
    }
  }

  lemma {:induction false} AgreeRange(code: seq<Bytes>, code': seq<Bytes>, m: nat, n: nat, k: nat, s: nat,
                                      good: seq<int>)
    requires 1 <= k <= n && |code| == |code'| == m + ParityTotal(m, n, k) && StripeAgrees(code, code', m, n, k, s, good)
    ensures forall t | 0 <= t < k :: 0 <= good[t] < n
  {
    hide ParityTotal, Slot;
  }

  lemma {:induction false} AgreeingBlock(code: seq<Bytes>, code': seq<Bytes>, m: nat, n: nat, k: nat, s: nat, j: nat)
    requires |code| == |code'| && m <= |code| && 1 <= k <= n && Slot(s, n - k, n - k) <= |code| - m
    requires AgreeAt(code, code', m, n, k, s, j) && j < k && Slot(s, k, j) < m
    ensures code[Slot(s, k, j)] == code'[Slot(s, k, j)]
  {
    hide Slot;
  }

  lemma {:induction false} AgreeingParity(code: seq<Bytes>, code': seq<Bytes>, m: nat, n: nat, k: nat, s: nat, j: nat)
    requires |code| == |code'| && m <= |code| && 1 <= k <= n && Slot(s, n - k, n - k) <= |code| - m
    requires AgreeAt(code, code', m, n, k, s, j) && k <= j < n
    ensures m + Slot(s, n - k, j - k) < |code|
    ensures code[m + Slot(s, n - k, j - k)] == code'[m + Slot(s, n - k, j - k)]
  {
    SlotInside(s, n - k, j - k);
    hide Slot;
  }

  lemma {:induction false} CodeStart(store: seq<Bytes>, n: nat, k: nat, code: seq<Bytes>, p: nat)
    requires CanEncode(n, k) && PlainReadable(store, k) && IsPlainCode(store, n, k, code) && p < |store|
    ensures code[p] == store[p]
  {
    assert code[..|store|][p] == store[p];
  }

  /** Where the codes agree, so do the symbols of a byte column. */
  lemma {:induction false} SymbolAgrees(store: seq<Bytes>, store': seq<Bytes>, n: nat, k: nat, code: seq<Bytes>,
                                        code': seq<Bytes>, s: nat, z: nat, b: nat, j: int)
    requires CanEncode(n, k) && k < n && PlainReadable(store, k) && PlainReadable(store', k) && |store'| == |store|
    requires IsPlainCode(store, n, k, code) && IsPlainCode(store', n, k, code')
    requires Slot(s, n - k, n - k) <= |code| - |store| && AgreeAt(code, code', |store|, n, k, s, j)
    requires z == |PlainStripe(store, k, s)[0]| == |PlainStripe(store', k, s)[0]| && b < z
    requires LongEnough(PlainStripe(store, k, s), z) && LongEnough(PlainStripe(store', k, s), z)
    ensures Symbol(Column(Cut(PlainStripe(store, k, s), z), b), j)
            == Symbol(Column(Cut(PlainStripe(store', k, s), z), b), j)
  {
    hide Stripe, PlainStripe, ParityTotal, Readable, Symbol, IsPlainCode, AgreeAt, Slot;
    CodeLengths(store, n, k, code);
    CodeLengths(store', n, k, code');
    AgreeBounds(code, code', |store|, n, k, s, j);
    if j >= k {
      AgreeingParity(code, code', |store|, n, k, s, j);
      StripeByte(store, n, k, code, s, j, b);
      StripeByte(store', n, k, code', s, j, b);
    } else {
      MessageSymbol(Column(Cut(PlainStripe(store, k, s), z), b), j);
      MessageSymbol(Column(Cut(PlainStripe(store', k, s), z), b), j);
      if Slot(s, k, j) < |store| {
        AgreeingBlock(code, code', |store|, n, k, s, j);
        CodeStart(store, n, k, code, Slot(s, k, j));
        CodeStart(store', n, k, code', Slot(s, k, j));
      }
    }
  }

  lemma {:induction false} AgreeBounds(code: seq<Bytes>, code': seq<Bytes>, m: nat, n: nat, k: nat, s: nat, j: int)
    requires |code| == |code'| && m <= |code| && 1 <= k <= n && Slot(s, n - k, n - k) <= |code| - m
    requires AgreeAt(code, code', m, n, k, s, j)
    ensures 0 <= j < n
  {
    hide Slot;
  }

  /** One byte column of the stripe: k symbols determine it. */
  lemma {:induction false} ColumnDetermined(store: seq<Bytes>, store': seq<Bytes>, n: nat, k: nat, code: seq<Bytes>,
                                            code': seq<Bytes>, s: nat, good: seq<int>, z: nat, b: nat)
    requires ValidCode(n, k) && k < n && PlainReadable(store, k) && PlainReadable(store', k) && |store'| == |store|
    requires IsPlainCode(store, n, k, code) && IsPlainCode(store', n, k, code')
    requires StripeAgrees(code, code', |store|, n, k, s, good)
    requires z == |PlainStripe(store, k, s)[0]| == |PlainStripe(store', k, s)[0]| && b < z
    ensures forall j | 0 <= j < k ::
              && b < |PlainStripe(store, k, s)[j]| && b < |PlainStripe(store', k, s)[j]|
              && PlainStripe(store, k, s)[j][b] == PlainStripe(store', k, s)[j][b]
  {
    hide Stripe, PlainStripe, ParityTotal, Readable, Symbol;
    ReadableAt(store, k, s);
    ReadableAt(store', k, s);
    var a, a' := PlainStripe(store, k, s), PlainStripe(store', k, s);
    var x, x' := Column(Cut(a, z), b), Column(Cut(a', z), b);
    forall t | 0 <= t < k ensures 0 <= good[t] < n && Symbol(x, good[t]) == Symbol(x', good[t]) {
      assert AgreeAt(code, code', |store|, n, k, s, good[t]);
      SymbolAgrees(store, store', n, k, code, code', s, z, b, good[t]);
    }
    AgreeingMessages(n, x, x', good);
    forall j | 0 <= j < k
      ensures b < |a[j]| && b < |a'[j]| && a[j][b] == a'[j][b]
    {
      assert x[j] == x'[j];
    }
  }

  /** Any k blocks of a level stripe determine it, among all stores with no longer blocks. */
  lemma {:induction false} StripeDetermined(store: seq<Bytes>, store': seq<Bytes>, n: nat, k: nat, code: seq<Bytes>,
                                            code': seq<Bytes>, s: nat, good: seq<int>, j: nat)
    requires ValidCode(n, k) && PlainReadable(store, k) && PlainReadable(store', k)
    requires Level(store, k) && NoLonger(store, store')
    requires IsPlainCode(store, n, k, code) && IsPlainCode(store', n, k, code')
    requires StripeAgrees(code, code', |store|, n, k, s, good)
    requires j < k && Slot(s, k, j) < |store|
    ensures store[Slot(s, k, j)] == store'[Slot(s, k, j)]
  {
    hide Stripe, PlainStripe, ParityTotal, Readable;
    var p := Slot(s, k, j);
    if k == n {
      EveryNumberOccurs(good, j);
      var t :| 0 <= t < k && good[t] == j;
      assert AgreeAt(code, code', |store|, n, k, s, good[t]);
      CodeStart(store, n, k, code, p);
      CodeStart(store', n, k, code', p);
    } else {
      var a, a' := PlainStripe(store, k, s), PlainStripe(store', k, s);
      LevelStripe(store, k, s, j);
      SameFirst(store, store', n, k, code, code', s, good);
      ReadableAt(store', k, s);
      assert |a'[j]| >= |a'[0]|;
      forall b | 0 <= b < |a[0]| ensures store[p][b] == store'[p][b] {
        ColumnDetermined(store, store', n, k, code, code', s, good, |a[0]|, b);
      }
    }
  }

  // ------------------------------------------------------------------ exactly what is protected

  /** Whatever is lost beyond k blocks of a stripe: no other store without longer blocks explains what is left. */
  ghost predicate Protects(store: seq<Bytes>, n: nat, k: nat)
    requires CanEncode(n, k) && PlainReadable(store, k)
  {
    forall store' | NoLonger(store, store') && PlainReadable(store', k) ::
      StripesAgree(PlainCodeOf(store, n, k), PlainCodeOf(store', n, k), |store|, n, k) ==> store' == store
  }

  lemma {:induction false} LevelProtected(store: seq<Bytes>, n: nat, k: nat)
    requires ValidCode(n, k) && PlainReadable(store, k) && Level(store, k)
    ensures Protects(store, n, k)
  {
    hide Readable, PlainCodeOf, IsPlainCode, StripeAgrees, StripeCount, ParityTotal, Slot, Level;
    forall store' | NoLonger(store, store') && PlainReadable(store', k)
                    && StripesAgree(PlainCodeOf(store, n, k), PlainCodeOf(store', n, k), |store|, n, k)
      ensures store' == store
    {
      forall p | 0 <= p < |store| ensures store[p] == store'[p] {
        var s, j := StripeOf(|store|, k, p);
        assert SomeAgree(PlainCodeOf(store, n, k), PlainCodeOf(store', n, k), |store|, n, k, s);
        var good :| StripeAgrees(PlainCodeOf(store, n, k), PlainCodeOf(store', n, k), |store|, n, k, s, good);
        StripeDetermined(store, store', n, k, PlainCodeOf(store, n, k), PlainCodeOf(store', n, k), s, good, j);
      }
    }
  }

  /** All positions of a stripe but one. */
  function Others(k: nat, lost: nat): (good: seq<int>)
    ensures |good| == k && forall t | 0 <= t < k :: good[t] == if t < lost then t else t + 1
  {
    seq(k, t => if t < lost then t else t + 1)
  }

  lemma {:induction false} OthersAgree(code: seq<Bytes>, code': seq<Bytes>, m: nat, n: nat, k: nat, p: nat, s: nat)
    requires 1 <= k < n && p < m && |code| == |code'| == m + ParityTotal(m, n, k) && code[p := []] == code'[p := []]
    requires s < StripeCount(m, k)
    ensures StripeAgrees(code, code', m, n, k, s, Others(k, if s == p / k then p % k else k))
  {
    hide StripeCount, ParityTotal;
    var lost := if s == p / k then p % k else k;
    SlotBound(m, n, k, s);
    forall t | 0 <= t < k ensures AgreeAt(code, code', m, n, k, s, Others(k, lost)[t]) {
      var j := Others(k, lost)[t];
      if j < k && Slot(s, k, j) < m {
        if Slot(s, k, j) == p { ModUnique(p, s, j, k); }
        assert code[p := []][Slot(s, k, j)] == code'[p := []][Slot(s, k, j)];
      } else if j >= k {
        SlotInside(s, n - k, j - k);
        assert code[p := []][m + Slot(s, n - k, j - k)] == code'[p := []][m + Slot(s, n - k, j - k)];
      }
    }
  }

  lemma {:induction false} SlotInside(s: nat, k: nat, j: nat)
    requires j < k
    ensures 0 <= Slot(s, k, j) < Slot(s, k, k)
  {
  }

  /** The plain code with parity protects a store if and only if no block is longer than the first of its stripe. */
  lemma {:induction false} ProtectedIff(store: seq<Bytes>, n: nat, k: nat)
    requires ValidCode(n, k) && k < n && PlainReadable(store, k)
    ensures Protects(store, n, k) <==> Level(store, k)
  {
    hide Readable, PlainCodeOf, IsPlainCode, StripeAgrees, StripeCount, ParityTotal, Others;
    if Level(store, k) {
      LevelProtected(store, n, k);
    } else {
      var p :| 0 <= p < |store| && |store[p]| > |store[FirstOf(p, k)]|;
      var store' := CutAt(store, k, p);
      CutReadable(store, k, p);
      LostTail(store, k, n, p, PlainCodeOf(store, n, k), PlainCodeOf(store', n, k));
      forall s: nat | s < StripeCount(|store|, k)
        ensures SomeAgree(PlainCodeOf(store, n, k), PlainCodeOf(store', n, k), |store|, n, k, s)
      {
        OthersAgree(PlainCodeOf(store, n, k), PlainCodeOf(store', n, k), |store|, n, k, p, s);
      }
      assert store'[p] != store[p];
    }
  }
}
