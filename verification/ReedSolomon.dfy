/** Systematic Reed-Solomon over GF(2^8): a slice of k symbols, blocks byte by byte, and decoding from any k
    survivors. */
module ReedSolomon {
  import opened GF256
  import opened Pigeonhole
  import opened Interpolation
  import opened ByteNumbers
  import opened ByteValues
  import opened Options

  // ------------------------------------------------------------------ evaluation points

  /** The evaluation point of a position: its low byte. */
  function Point(j: int): bv8 {
    (j % 256) as bv8
  }

  function PointsOf(positions: seq<int>): (xs: seq<bv8>)
    ensures |xs| == |positions|
    ensures forall i | 0 <= i < |xs| :: xs[i] == Point(positions[i])
  {
    seq(|positions|, i requires 0 <= i < |positions| => Point(positions[i]))
  }

  /** The codes that work: without parity, with one message symbol, or with a point of its own for every symbol. */
  predicate ValidCode(n: nat, k: nat) {
    1 <= k <= n && (k == n || k == 1 || n <= 256)
  }

  /** The codes that can be written: without parity, or with different points for all message symbols. */
  predicate CanEncode(n: nat, k: nat) {
    1 <= k <= n && (k == n || k <= 256)
  }

  /** Different positions have different points. */
  predicate PointsFit(positions: seq<int>) {
    |positions| <= 1 || forall i | 0 <= i < |positions| :: 0 <= positions[i] < 256
  }

  function FirstPositions(k: nat): (r: seq<int>)
    ensures |r| == k && forall i | 0 <= i < k :: r[i] == i
  {
    seq(k, i => i)
  }

  lemma {:induction false} PointsDistinct(positions: seq<int>)
    requires Distinct(positions) && PointsFit(positions)
    ensures Distinct(PointsOf(positions))
  {
    var xs := PointsOf(positions);
    forall i, j | 0 <= i < j < |xs| ensures xs[i] != xs[j] {
      ByteRoundTrip(positions[i]);
      ByteRoundTrip(positions[j]);
    }
  }

  // ------------------------------------------------------------------ encoding

  /** Symbol j of the codeword: the message itself, then the interpolation through it. */
  function Symbol(message: Bytes, j: nat): bv8
    requires j < |message| || |message| <= 256
  {
    if j < |message| then message[j]
    else
      var xs := PointsOf(FirstPositions(|message|));
      PointsDistinct(FirstPositions(|message|));
      Interpolate(xs, message, Point(j), |message|)
  }

  /** Every symbol, message symbols included, is the interpolation at its own point. */
  lemma {:induction false} SymbolInterpolates(message: Bytes, j: nat)
    requires |message| <= 256
    ensures var xs := PointsOf(FirstPositions(|message|));
            Distinct(xs) && Symbol(message, j) == Interpolate(xs, message, Point(j), |message|)
  {
    hide Interpolate;
    var xs := PointsOf(FirstPositions(|message|));
    PointsDistinct(FirstPositions(|message|));
    if j < |message| {
      InterpolateAtPoint(xs, message, j, |message|);
    }
  }

  /** What a codeword is: the values of one polynomial with as many coefficients as the message at the points 0, 1, 2,
      and so on, byte by byte. */
  lemma {:induction false} OnePolynomial(message: Bytes) returns (p: Poly)
    requires |message| <= 256
    ensures |p| == |message| && forall j: nat :: Symbol(message, j) == Eval(p, (j % 256) as bv8)
  {
    hide Interpolate, Eval, Symbol, InterpolationPoly;
    var xs := PointsOf(FirstPositions(|message|));
    PointsDistinct(FirstPositions(|message|));
    p := InterpolationPoly(xs, message, |message|);
    assert |p| == |message| by { PolySize(xs, message); }
    forall j: nat ensures Symbol(message, j) == Eval(p, (j % 256) as bv8) {
      SymbolInterpolates(message, j);
      EvalInterpolationPoly(xs, message, |message|, Point(j));
    }
  }

  lemma {:induction false} PolySize(xs: seq<bv8>, ys: seq<bv8>)
    requires Distinct(xs) && |ys| == |xs|
    ensures |InterpolationPoly(xs, ys, |xs|)| == |xs|
  {
  }

  /** The first parity symbol of a message of two; with the doubling rule of the field this is a value in bits. */
  lemma {:induction false} SecondParity(a: bv8, b: bv8)
    ensures Symbol([a, b], 2) == Add(a, Mul(2, Add(a, b)))
  {
    hide *;
    var p := ThreeSymbols(a, b);
    LineValue(p, 0);
    LineValue(p, 1);
    LineValue(p, 2);
    MulZero(p[1]);
    MulOne(p[1]);
    AddZero(p[0]);
    AddCancel(p[0], p[1]);
  }

  lemma {:induction false} ThreeSymbols(a: bv8, b: bv8) returns (p: Poly)
    ensures |p| == 2 && a == Eval(p, 0) && b == Eval(p, 1) && Symbol([a, b], 2) == Eval(p, 2)
  {
    hide *;
    p := OnePolynomial([a, b]);
    MessageSymbol([a, b], 0);
    MessageSymbol([a, b], 1);
    SmallPoints(p);
  }

  lemma {:induction false} SmallPoints(p: Poly)
    ensures Eval(p, (0 % 256) as bv8) == Eval(p, 0) && Eval(p, (1 % 256) as bv8) == Eval(p, 1)
    ensures Eval(p, (2 % 256) as bv8) == Eval(p, 2)
  {
  }

  lemma {:induction false} LineValue(p: Poly, x: bv8)
    requires |p| == 2
    ensures Eval(p, x) == Add(p[0], Mul(x, p[1]))
  {
    hide Mul;
    assert p[1..][1..] == [];
    MulZero(x);
    AddZero(p[1]);
    assert Eval(p[1..], x) == Add(p[1], Mul(x, Eval([], x)));
  }

  /** The Lagrange product loop shared by encoding and decoding: x against all points but the i-th. */
  method BasisLoop(xs: seq<bv8>, i: nat, x: bv8) returns (basis: bv8)
    requires Distinct(xs) && i < |xs|
    ensures basis == BasisAt(xs, i, x)
  {
    hide Mul, Add, Inv;
    var num: bv8, den: bv8 := 1, 1;
    for m := 0 to |xs|
      invariant num == Product(xs, i, x, m) && den == Product(xs, i, xs[i], m)
    {
      if m == i { continue; }
      num := Mul(num, Add(x, xs[m]));
      den := Mul(den, Add(xs[i], xs[m]));
    }
    ProductNonzero(xs, i, |xs|);
    basis := Mul(num, Inv(den));
  }

  method InterpolateLoop(xs: seq<bv8>, ys: seq<bv8>, x: bv8) returns (sum: bv8)
    requires Distinct(xs) && |ys| == |xs|
    ensures sum == Interpolate(xs, ys, x, |xs|)
  {
    hide Mul, Add, BasisAt;
    sum := 0;
    for i := 0 to |xs|
      invariant sum == Interpolate(xs, ys, x, i)
    {
      var basis := BasisLoop(xs, i, x);
      sum := Add(sum, Mul(ys[i], basis));
    }
  }

  method EncodeSlice(message: Bytes, n: nat) returns (codeword: Bytes)
    requires |message| <= n && (|message| == n || |message| <= 256)
    ensures |codeword| == n
    ensures forall j | 0 <= j < n :: codeword[j] == Symbol(message, j)
    ensures |message| <= 256 ==>
              exists p: Poly :: |p| == |message| && forall j | 0 <= j < n :: codeword[j] == Eval(p, (j % 256) as bv8)
  {
    hide Interpolate, Point, Eval;
    var k := |message|;
    if k < n { PointsDistinct(FirstPositions(k)); }
    var xs := PointsOf(FirstPositions(k));
    codeword := message + seq(n - k, _ => 0);
    for j := k to n
      invariant |codeword| == n && forall i | 0 <= i < j :: codeword[i] == Symbol(message, i)
    {
      var sum := InterpolateLoop(xs, message, Point(j));
      codeword := codeword[j := sum];
    }
    if k <= 256 {
      ghost var p := OnePolynomial(message);
    }
  }

  /** The bytes at offset b of all blocks. */
  function Column(blocks: seq<Bytes>, b: nat): (c: Bytes)
    requires forall i | 0 <= i < |blocks| :: b < |blocks[i]|
    ensures |c| == |blocks| && forall i | 0 <= i < |c| :: c[i] == blocks[i][b]
  {
    seq(|blocks|, i requires 0 <= i < |blocks| => blocks[i][b])
  }

  predicate SameLength(blocks: seq<Bytes>, size: nat) {
    forall i | 0 <= i < |blocks| :: |blocks[i]| == size
  }

  /** Block i of the encoded stripe. */
  function EncodedBlock(blocks: seq<Bytes>, size: nat, i: nat): (block: Bytes)
    requires (i < |blocks| || |blocks| <= 256) && SameLength(blocks, size)
    ensures |block| == size
  {
    if i < |blocks| then blocks[i]
    else seq(size, b requires 0 <= b < size => Symbol(Column(blocks, b), i))
  }

  ghost predicate IsEncoding(blocks: seq<Bytes>, size: nat, encoded: seq<Bytes>) {
    && |blocks| <= |encoded| && (|blocks| == |encoded| || |blocks| <= 256) && SameLength(blocks, size)
    && forall i | 0 <= i < |encoded| :: encoded[i] == EncodedBlock(blocks, size, i)
  }

  lemma {:induction false} EncodedByte(blocks: seq<Bytes>, size: nat, i: nat, b: nat)
    requires (i < |blocks| || |blocks| <= 256) && SameLength(blocks, size) && b < size
    ensures EncodedBlock(blocks, size, i)[b] == Symbol(Column(blocks, b), i)
  {
  }

  /** The length of the first block. */
  function BlockSize(blocks: seq<Bytes>): nat {
    if blocks == [] then 0 else |blocks[0]|
  }

  /** No block is shorter than size. */
  predicate LongEnough(blocks: seq<Bytes>, size: nat) {
    forall i | 0 <= i < |blocks| :: |blocks[i]| >= size
  }

  /** The first size bytes of every block. */
  function Cut(blocks: seq<Bytes>, size: nat): (r: seq<Bytes>)
    requires LongEnough(blocks, size)
    ensures |r| == |blocks| && SameLength(r, size) && forall i | 0 <= i < |r| :: r[i] == blocks[i][..size]
    ensures SameLength(blocks, size) ==> r == blocks
  {
    var r := seq(|blocks|, i requires 0 <= i < |blocks| => blocks[i][..size]);
    assert SameLength(blocks, size) ==> forall i | 0 <= i < |r| :: r[i] == blocks[i];
    r
  }

  /** Encodes as many bytes of every block as the first one has. */
  method EncodeBlocks(blocks: seq<Bytes>, n: nat) returns (encoded: seq<Bytes>)
    requires |blocks| <= n && (|blocks| == n || |blocks| <= 256) && LongEnough(blocks, BlockSize(blocks))
    ensures |encoded| == n && IsEncoding(Cut(blocks, BlockSize(blocks)), BlockSize(blocks), encoded)
  {
    hide Symbol;
    var k := |blocks|;
    if k == 0 {
      return seq(n, _ => []);
    }
    var blockSize := |blocks[0]|;
    ghost var cut := Cut(blocks, blockSize);
    var result := seq(k, i requires 0 <= i < k => blocks[i][..blockSize])
        + seq(n - k, _ => seq(blockSize, _ => 0 as bv8));
    for b := 0 to blockSize
      invariant |result| == n && SameLength(result, blockSize)
      invariant forall i | 0 <= i < k :: result[i] == cut[i]
      invariant forall i, c | k <= i < n && 0 <= c < b :: result[i][c] == Symbol(Column(cut, c), i)
    {
      assert Column(blocks, b) == Column(cut, b);
      var codeword := EncodeSlice(Column(blocks, b), n);
      result := SetByte(result, k, blockSize, b, codeword);
    }
    forall i | 0 <= i < n ensures result[i] == EncodedBlock(cut, blockSize, i) {
      if i >= k {
        forall b | 0 <= b < blockSize ensures result[i][b] == EncodedBlock(cut, blockSize, i)[b] {
          EncodedByte(cut, blockSize, i, b);
        }
      }
    }
    return result;
  }

  /** Byte b of every parity block. */
  method SetByte(blocks: seq<Bytes>, k: nat, blockSize: nat, b: nat, codeword: Bytes) returns (result: seq<Bytes>)
    requires k <= |blocks| == |codeword| && SameLength(blocks, blockSize) && b < blockSize
    ensures |result| == |blocks|
    ensures forall i | 0 <= i < |blocks| :: result[i] == if i < k then blocks[i] else blocks[i][b := codeword[i]]
  {
    result := blocks;
    for i := k to |blocks|
      invariant |result| == |blocks|
      invariant forall j | 0 <= j < |blocks| ::
                  result[j] == if k <= j < i then blocks[j][b := codeword[j]] else blocks[j]
    {
      result := result[i := result[i][b := codeword[i]]];
    }
  }

  // ------------------------------------------------------------------ decoding

  /** The first k positions that survived, in order. */
  function Survivors(blocks: seq<Option<Bytes>>, k: nat, i: nat): (r: seq<int>)
    requires i <= |blocks|
    ensures |r| <= k && |r| <= |blocks| - i
    ensures forall j | 0 <= j < |r| :: i <= r[j] < |blocks| && blocks[r[j]].Some?
    ensures forall j, m | 0 <= j < m < |r| :: r[j] < r[m]
    decreases |blocks| - i
  {
    if k == 0 || i == |blocks| then []
    else if blocks[i].Some? then [i] + Survivors(blocks, k - 1, i + 1)
    else Survivors(blocks, k, i + 1)
  }

  /** How many blocks survived. */
  function SurvivorCount(blocks: seq<Option<Bytes>>, i: nat): (c: nat)
    requires i <= |blocks|
    decreases |blocks| - i
  {
    if i == |blocks| then 0 else (if blocks[i].Some? then 1 else 0) + SurvivorCount(blocks, i + 1)
  }

  lemma {:induction false} EnoughSurvivors(blocks: seq<Option<Bytes>>, k: nat, i: nat)
    requires i <= |blocks|
    ensures |Survivors(blocks, k, i)| == if SurvivorCount(blocks, i) < k then SurvivorCount(blocks, i) else k
    decreases |blocks| - i
  {
    if k > 0 && i < |blocks| {
      EnoughSurvivors(blocks, if blocks[i].Some? then k - 1 else k, i + 1);
    }
  }

  /** Blocks from any k survivors: interpolation through them, at each message position. */
  function DecodedBlock(blocks: seq<Option<Bytes>>, good: seq<int>, size: nat, i: nat): Bytes
    requires Distinct(good) && PointsFit(good)
    requires forall j | 0 <= j < |good| ::
               0 <= good[j] < |blocks| && blocks[good[j]].Some? && |blocks[good[j]].value| == size
  {
    PointsDistinct(good);
    seq(size, b requires 0 <= b < size =>
      Interpolate(PointsOf(good), SurvivorColumn(blocks, good, size, b), Point(i), |good|))
  }

  function SurvivorColumn(blocks: seq<Option<Bytes>>, good: seq<int>, size: nat, b: nat): (c: Bytes)
    requires b < size
    requires forall j | 0 <= j < |good| ::
               0 <= good[j] < |blocks| && blocks[good[j]].Some? && |blocks[good[j]].value| == size
    ensures |c| == |good| && forall j | 0 <= j < |c| :: c[j] == blocks[good[j]].value[b]
  {
    seq(|good|, j requires 0 <= j < |good| => blocks[good[j]].value[b])
  }

  ghost predicate UniformSurvivors(blocks: seq<Option<Bytes>>, size: nat) {
    forall i | 0 <= i < |blocks| && blocks[i].Some? :: |blocks[i].value| == size
  }

  /** What decoding returns: the message positions read off if none was lost, otherwise interpolated. */
  ghost predicate IsDecoding(blocks: seq<Option<Bytes>>, k: nat, size: nat, message: seq<Bytes>)
    requires k <= |blocks| && UniformSurvivors(blocks, size)
  {
    var good := Survivors(blocks, k, 0);
    && |message| == k
    && if forall i | 0 <= i < k :: blocks[i].Some? then forall i | 0 <= i < k :: message[i] == blocks[i].value
       else PointsFit(good) && forall i | 0 <= i < k :: message[i] == DecodedBlock(blocks, good, size, i)
  }

  /** Decoding fails exactly with fewer than k survivors. */
  method DecodeBlocks(blocks: seq<Option<Bytes>>, k: nat, ghost size: nat) returns (r: Option<seq<Bytes>>)
    requires ValidCode(|blocks|, k) || (k <= |blocks| && forall i | 0 <= i < k :: blocks[i].Some?)
    requires UniformSurvivors(blocks, size)
    ensures r.None? <==> SurvivorCount(blocks, 0) < k
    ensures r.Some? ==> |r.value| == k && IsDecoding(blocks, k, size, r.value)
  {
    hide Interpolate, PointsOf, DecodedBlock;
    var goodPos := CollectSurvivors(blocks, k);
    EnoughSurvivors(blocks, k, 0);
    if k == |blocks| == |goodPos| { AllSurvivors(blocks, k, 0); }
    if forall i | 0 <= i < k :: blocks[i].Some? { LeadingSurvivors(blocks, k, 0); }
    if |goodPos| < k { return None; }
    var allSys := InOrder(goodPos);
    SystematicIff(blocks, k);
    if allSys {
      return Some(seq(k, i requires 0 <= i < k => blocks[i].value));
    }
    var result := InterpolateBlocks(blocks, goodPos, |blocks[goodPos[0]].value|);
    return Some(result);
  }

  /** If as many survived as there are blocks, all did. */
  lemma {:induction false} AllSurvivors(blocks: seq<Option<Bytes>>, k: nat, i: nat)
    requires i <= |blocks| && |Survivors(blocks, k, i)| == |blocks| - i
    ensures forall j | i <= j < |blocks| :: blocks[j].Some?
    decreases |blocks| - i
  {
    if k > 0 && i < |blocks| {
      AllSurvivors(blocks, k - 1, i + 1);
    }
  }

  /** Whether the positions are 0, 1, 2, ... */
  method InOrder(positions: seq<int>) returns (allSys: bool)
    ensures allSys <==> forall i | 0 <= i < |positions| :: positions[i] == i
  {
    allSys := true;
    for i := 0 to |positions|
      invariant allSys && forall j | 0 <= j < i :: positions[j] == j
    {
      if positions[i] != i {
        allSys := false;
        break;
      }
    }
  }

  method InterpolateBlocks(blocks: seq<Option<Bytes>>, goodPos: seq<int>, blockSize: nat) returns (result: seq<Bytes>)
    requires Distinct(goodPos) && PointsFit(goodPos)
    requires forall j | 0 <= j < |goodPos| ::
               0 <= goodPos[j] < |blocks| && blocks[goodPos[j]].Some? && |blocks[goodPos[j]].value| == blockSize
    ensures |result| == |goodPos|
    ensures forall i | 0 <= i < |result| :: result[i] == DecodedBlock(blocks, goodPos, blockSize, i)
  {
    hide DecodedBlock;
    PointsDistinct(goodPos);
    var xs := PointsOf(goodPos);
    result := [];
    for i := 0 to |goodPos|
      invariant |result| == i && forall j | 0 <= j < i :: result[j] == DecodedBlock(blocks, goodPos, blockSize, j)
    {
      var block := DecodeLoop(blocks, goodPos, xs, blockSize, i);
      result := result + [block];
    }
  }

  method CollectSurvivors(blocks: seq<Option<Bytes>>, k: nat) returns (goodPos: seq<int>)
    ensures goodPos == Survivors(blocks, k, 0)
  {
    goodPos := [];
    var i := 0;
    while i < |blocks| && |goodPos| < k
      invariant 0 <= i <= |blocks| && |goodPos| <= k
      invariant goodPos + Survivors(blocks, k - |goodPos|, i) == Survivors(blocks, k, 0)
    {
      if blocks[i].Some? {
        goodPos := goodPos + [i];
      }
      i := i + 1;
    }
  }

  method DecodeLoop(blocks: seq<Option<Bytes>>, goodPos: seq<int>, xs: seq<bv8>, blockSize: nat, i: nat)
    returns (block: Bytes)
    requires Distinct(goodPos) && PointsFit(goodPos)
    requires forall j | 0 <= j < |goodPos| ::
               0 <= goodPos[j] < |blocks| && blocks[goodPos[j]].Some? && |blocks[goodPos[j]].value| == blockSize
    requires xs == PointsOf(goodPos)
    ensures block == DecodedBlock(blocks, goodPos, blockSize, i)
  {
    hide Interpolate;
    PointsDistinct(goodPos);
    block := [];
    for b := 0 to blockSize
      invariant |block| == b
      invariant forall c | 0 <= c < b ::
                  block[c] == Interpolate(xs, SurvivorColumn(blocks, goodPos, blockSize, c), Point(i), |goodPos|)
    {
      var sum := InterpolateLoop(xs, SurvivorColumn(blocks, goodPos, blockSize, b), Point(i));
      block := block + [sum];
    }
  }

  /** The first k survivors are the message positions exactly when no message block was lost. */
  lemma {:induction false} SystematicIff(blocks: seq<Option<Bytes>>, k: nat)
    requires k <= |blocks| && |Survivors(blocks, k, 0)| == k
    ensures (forall i | 0 <= i < k :: Survivors(blocks, k, 0)[i] == i) <==> (forall i | 0 <= i < k :: blocks[i].Some?)
  {
    var good := Survivors(blocks, k, 0);
    if forall i | 0 <= i < k :: blocks[i].Some? {
      LeadingSurvivors(blocks, k, 0);
    } else if forall i | 0 <= i < k :: good[i] == i {
      forall i | 0 <= i < k ensures blocks[i].Some? {
        assert blocks[good[i]].Some?;
      }
    }
  }

  lemma {:induction false} LeadingSurvivors(blocks: seq<Option<Bytes>>, k: nat, i: nat)
    requires i + k <= |blocks| && forall j | i <= j < i + k :: blocks[j].Some?
    ensures |Survivors(blocks, k, i)| == k
    ensures forall j | 0 <= j < k :: Survivors(blocks, k, i)[j] == i + j
  {
    if k > 0 {
      LeadingSurvivors(blocks, k - 1, i + 1);
    }
  }

  /** Which survivors are used: the first k. One that is not used comes after k that are. */
  lemma {:induction false} FirstSurvivors(blocks: seq<Option<Bytes>>, k: nat, i: nat, t: nat)
    requires i <= t < |blocks| && blocks[t].Some?
    ensures var used := Survivors(blocks, k, i); t in used || (|used| == k && forall j | 0 <= j < k :: used[j] < t)
    decreases |blocks| - i
  {
    if k > 0 && i < t {
      FirstSurvivors(blocks, if blocks[i].Some? then k - 1 else k, i + 1, t);
    }
  }

  /** What decoding returns, for any survivors, corrupted ones among them: byte by byte the values at 0, 1, 2, ... of
      the polynomial of k coefficients through the first k survivors. */
  lemma {:induction false} DecodedByte(blocks: seq<Option<Bytes>>, k: nat, size: nat, message: seq<Bytes>,
                                       good: seq<int>, b: nat) returns (p: Poly)
    requires k <= |blocks| && k <= 256 && UniformSurvivors(blocks, size) && IsDecoding(blocks, k, size, message)
    requires Survivors(blocks, k, 0) == good && |good| == k && b < size
    ensures |p| == k
    ensures forall j | 0 <= j < k :: blocks[good[j]].value[b] == Eval(p, (good[j] % 256) as bv8)
    ensures forall i: nat | i < k :: |message[i]| == size && message[i][b] == Eval(p, (i % 256) as bv8)
  {
    hide Interpolate, Eval, InterpolationPoly;
    if forall i | 0 <= i < k :: blocks[i].Some? { LeadingSurvivors(blocks, k, 0); }
    assert PointsFit(good) && Distinct(good);
    PointsDistinct(good);
    var xs, ys := PointsOf(good), SurvivorColumn(blocks, good, size, b);
    p := InterpolationPoly(xs, ys, k);
    assert |p| == k by { PolySize(xs, ys); }
    forall x: bv8 ensures Eval(p, x) == Interpolate(xs, ys, x, k) {
      EvalInterpolationPoly(xs, ys, k, x);
    }
    forall j | 0 <= j < k ensures ys[j] == Eval(p, xs[j]) {
      InterpolateAtPoint(xs, ys, j, k);
    }
    forall i: nat | i < k ensures |message[i]| == size && message[i][b] == Eval(p, (i % 256) as bv8) {
      if forall i | 0 <= i < k :: blocks[i].Some? {
        assert ys[i] == Eval(p, xs[i]) && good[i] == i;
      } else {
        DecodedAt(blocks, good, size, i, b);
      }
    }
  }

  lemma {:induction false} DecodedAt(blocks: seq<Option<Bytes>>, good: seq<int>, size: nat, i: nat, b: nat)
    requires Distinct(good) && PointsFit(good) && b < size
    requires forall j | 0 <= j < |good| ::
               0 <= good[j] < |blocks| && blocks[good[j]].Some? && |blocks[good[j]].value| == size
    ensures Distinct(PointsOf(good)) && |DecodedBlock(blocks, good, size, i)| == size
    ensures DecodedBlock(blocks, good, size, i)[b]
            == Interpolate(PointsOf(good), SurvivorColumn(blocks, good, size, b), (i % 256) as bv8, |good|)
  {
    PointsDistinct(good);
  }

  // ------------------------------------------------------------------ any k of n

  /** Some blocks of an encoding, the others lost. */
  ghost predicate IsErasure(encoded: seq<Bytes>, received: seq<Option<Bytes>>) {
    |received| == |encoded| && forall i | 0 <= i < |encoded| :: received[i] == None || received[i] == Some(encoded[i])
  }

  /** Interpolating through any k survivors of an encoding gives back the message block. */
  lemma {:induction false} SurvivorsDetermineMessage(blocks: seq<Bytes>, size: nat, encoded: seq<Bytes>,
                                                     received: seq<Option<Bytes>>, good: seq<int>, i: nat)
    requires IsEncoding(blocks, size, encoded) && IsErasure(encoded, received)
    requires UniformSurvivors(received, size)
    requires |good| == |blocks| <= 256 && Distinct(good) && PointsFit(good) && i < |blocks|
    requires forall j | 0 <= j < |good| :: 0 <= good[j] < |received| && received[good[j]].Some?
    ensures DecodedBlock(received, good, size, i) == blocks[i]
  {
    hide Interpolate;
    PointsDistinct(good);
    forall b | 0 <= b < size ensures DecodedBlock(received, good, size, i)[b] == blocks[i][b] {
      SurvivorsDetermineByte(blocks, size, encoded, received, good, i, b);
    }
  }

  lemma {:induction false} SurvivorsDetermineByte(blocks: seq<Bytes>, size: nat, encoded: seq<Bytes>,
                                                  received: seq<Option<Bytes>>, good: seq<int>, i: nat, b: nat)
    requires IsEncoding(blocks, size, encoded) && IsErasure(encoded, received)
    requires UniformSurvivors(received, size)
    requires |good| == |blocks| <= 256 && Distinct(good) && PointsFit(good) && i < |blocks| && b < size
    requires forall j | 0 <= j < |good| :: 0 <= good[j] < |received| && received[good[j]].Some?
    ensures Distinct(PointsOf(good))
    ensures Interpolate(PointsOf(good), SurvivorColumn(received, good, size, b), Point(i), |good|) == blocks[i][b]
  {
    hide Interpolate, Symbol;
    var message := Column(blocks, b);
    var xs, us := PointsOf(FirstPositions(|blocks|)), PointsOf(good);
    var vs := SurvivorColumn(received, good, size, b);
    PointsDistinct(good);
    PointsDistinct(FirstPositions(|blocks|));
    forall j | 0 <= j < |us| ensures vs[j] == Interpolate(xs, message, us[j], |xs|) {
      SymbolInterpolates(message, good[j]);
      SurvivingByte(blocks, size, encoded, received, good[j], b);
    }
    InterpolationUnique(xs, message, us, vs, Point(i));
    SymbolInterpolates(message, i);
    MessageSymbol(message, i);
  }

  lemma {:induction false} SurvivingByte(blocks: seq<Bytes>, size: nat, encoded: seq<Bytes>,
                                         received: seq<Option<Bytes>>, j: nat, b: nat)
    requires IsEncoding(blocks, size, encoded) && IsErasure(encoded, received)
    requires j < |received| && received[j].Some? && b < size && |blocks| <= 256
    ensures |received[j].value| == size
    ensures received[j].value[b] == Symbol(Column(blocks, b), j)
  {
    assert received[j].value == EncodedBlock(blocks, size, j);
  }

  lemma {:induction false} MessageSymbol(message: Bytes, i: nat)
    requires i < |message| <= 256
    ensures Symbol(message, i) == message[i]
  {
  }

  /** Any k of n: with at least k survivors the decoding of an erased encoding is the message, on the systematic path
      and on the interpolation path alike. */
  lemma {:induction false} ErasureDecodes(blocks: seq<Bytes>, size: nat, encoded: seq<Bytes>,
                                          received: seq<Option<Bytes>>, message: seq<Bytes>)
    requires IsEncoding(blocks, size, encoded) && IsErasure(encoded, received)
    requires UniformSurvivors(received, size)
    requires SurvivorCount(received, 0) >= |blocks|
    requires IsDecoding(received, |blocks|, size, message)
    ensures message == blocks
  {
    hide Interpolate, DecodedBlock, EncodedBlock;
    var good := Survivors(received, |blocks|, 0);
    EnoughSurvivors(received, |blocks|, 0);
    if |good| == |received| { AllSurvivors(received, |blocks|, 0); }
    forall i | 0 <= i < |blocks| ensures message[i] == blocks[i] {
      MessageBlock(blocks, size, encoded, i);
      if exists j :: 0 <= j < |blocks| && received[j].None? {
        SurvivorsDetermineMessage(blocks, size, encoded, received, good, i);
      }
    }
  }

  lemma {:induction false} MessageBlock(blocks: seq<Bytes>, size: nat, encoded: seq<Bytes>, i: nat)
    requires IsEncoding(blocks, size, encoded) && i < |blocks|
    ensures encoded[i] == blocks[i]
  {
  }

  // ------------------------------------------------------------------ which codes work

  /** Any k symbols of a codeword of n determine the message. */
  ghost predicate AnyKDetermine(n: nat, k: nat)
    requires k <= 256
  {
    forall a: Bytes, b: Bytes, good: seq<int> ::
      |a| == |b| == |good| == k && Distinct(good) && Agree(n, a, b, good) ==> a == b
  }

  /** The codewords of two messages agree at these positions below n. */
  ghost predicate Agree(n: nat, a: Bytes, b: Bytes, good: seq<int>)
    requires |a| == |b| <= 256
  {
    forall j | 0 <= j < |good| :: 0 <= good[j] < n && Symbol(a, good[j]) == Symbol(b, good[j])
  }

  lemma {:induction false} AgreeingMessages(n: nat, a: Bytes, b: Bytes, good: seq<int>)
    requires |a| == |b| == |good| <= 256 && Distinct(good) && PointsFit(good) && Agree(n, a, b, good)
    ensures a == b
  {
    hide Interpolate, Symbol;
    var xs, us := PointsOf(FirstPositions(|a|)), PointsOf(good);
    var vs := seq(|good|, j requires 0 <= j < |good| => Symbol(a, good[j]));
    PointsDistinct(good);
    PointsDistinct(FirstPositions(|a|));
    forall j | 0 <= j < |us|
      ensures vs[j] == Interpolate(xs, a, us[j], |xs|) && vs[j] == Interpolate(xs, b, us[j], |xs|)
    {
      SymbolInterpolates(a, good[j]);
      SymbolInterpolates(b, good[j]);
    }
    forall i | 0 <= i < |a| ensures a[i] == b[i] {
      InterpolationUnique(xs, a, us, vs, Point(i));
      InterpolationUnique(xs, b, us, vs, Point(i));
      SymbolInterpolates(a, i);
      SymbolInterpolates(b, i);
      MessageSymbol(a, i);
      MessageSymbol(b, i);
    }
  }

  /** Symbol 256 is symbol 0 again. */
  lemma {:induction false} WrappedSymbol(message: Bytes)
    requires 1 <= |message| <= 256
    ensures Symbol(message, 256) == message[0]
  {
    SymbolInterpolates(message, 0);
    SymbolInterpolates(message, 256);
    MessageSymbol(message, 0);
  }

  /** Two messages that differ in symbol 1 alone, and k positions that do not include it. */
  lemma {:induction false} WrappedCode(n: nat, k: nat)
    requires 2 <= k <= 256 < n
    ensures !AnyKDetermine(n, k)
  {
    hide Symbol;
    var a: Bytes := seq(k, i => 0);
    var b := a[1 := 1];
    var good: seq<int> := seq(k, i => if i == 1 then 256 else i);
    WrappedSymbol(a);
    WrappedSymbol(b);
    forall j | 0 <= j < k ensures 0 <= good[j] < n && Symbol(a, good[j]) == Symbol(b, good[j]) {
      if j != 1 {
        MessageSymbol(a, j);
        MessageSymbol(b, j);
      }
    }
    assert a[1] != b[1] && Distinct(good) && Agree(n, a, b, good);
  }

  /** The exact limit of the code: any k of n symbols determine the message if and only if there is no parity, or one
      message symbol, or at most 256 symbols. */
  lemma {:induction false} AnyKOfN(n: nat, k: nat)
    requires 1 <= k <= n && k <= 256
    ensures AnyKDetermine(n, k) <==> ValidCode(n, k)
  {
    hide Symbol;
    if ValidCode(n, k) {
      forall a: Bytes, b: Bytes, good: seq<int>
        | |a| == |b| == |good| == k && Distinct(good) && Agree(n, a, b, good)
        ensures a == b
      {
        AgreeingMessages(n, a, b, good);
      }
    } else {
      WrappedCode(n, k);
    }
  }
}
