/** Passive extraction from witnessed Shacham-Waters proofs: one linear system per sector, then the block bytes. */
module SwExtraction {
  import opened ModArith
  import opened NumberTheory
  import opened LinearSystems
  import opened Gauss
  import opened SparseRows
  import opened ByteNumbers
  import opened Options
  import opened Pigeonhole
  import opened ChallengeDerivation
  import opened ShachamWaters

  // ------------------------------------------------------------------ equations

  /** What the seed of a challenge determines, and how many blocks it samples. */
  datatype SeedChallenge = SeedChallenge(rank: nat -> int, prf: nat -> int, count: nat)

  /** A challenge that both sides derive for n blocks. */
  ghost predicate IsDerived(chal: SeedChallenge, n: nat, P: int, c: Challenge)
    requires P > 0
  {
    && |c.coeffs| == |c.indices| == (if chal.count > n then n else chal.count)
    && IsSelection(c.indices, n, chal.rank)
    && forall t | 0 <= t < |c.coeffs| :: c.coeffs[t] == chal.prf(t) % P
  }

  /** Without ties there is only one. */
  lemma {:induction false} DerivedUnique(chal: SeedChallenge, n: nat, P: int, c: Challenge, c': Challenge)
    requires P > 0 && DistinctRanks(chal.rank, n) && IsDerived(chal, n, P, c) && IsDerived(chal, n, P, c')
    ensures c == c'
  {
    hide FullSort, DistinctRanks, IsSelection;
    SelectionIsSorted(c.indices, n, chal.rank);
    SelectionIsSorted(c'.indices, n, chal.rank);
    assert c.coeffs == c'.coeffs;
  }

  datatype Equation = Equation(chal: Challenge, rhs: seq<int>)

  /** Distinct positions below n with reduced coefficients, and a right-hand side for every sector. */
  ghost predicate ValidEquation(eq: Equation, n: nat, params: Params) {
    && ValidChallenge(eq.chal, n) && Distinct(eq.chal.indices) && |eq.rhs| == params.s
    && forall t | 0 <= t < |eq.chal.coeffs| :: 0 <= eq.chal.coeffs[t] < params.p
  }

  lemma {:induction false} DerivedValid(chal: SeedChallenge, n: nat, params: Params, c: Challenge, mu: seq<int>)
    requires params.p > 0 && IsDerived(chal, n, params.p, c) && |mu| == params.s
    ensures ValidEquation(Equation(c, mu), n, params)
  {
    forall i | 0 <= i < |c.indices| ensures c.indices[i] < n {
      assert c.indices[i] in c.indices;
    }
  }

  /** The coefficients of a challenge in the columns of its positions. */
  function ChallengeRow(chal: Challenge, n: nat): (r: seq<int>)
    requires ValidChallenge(chal, n)
    ensures |r| == n + 1
  {
    Scatter(chal.indices, chal.coeffs, |chal.indices|, n)
  }

  // ------------------------------------------------------------------ what the store says

  /** Sector j of every block: the solution the equations should have. */
  function TrueSectors(store: seq<Bytes>, j: nat, params: Params): (x: seq<int>)
    requires ValidParams(params)
    ensures |x| == |store|
    ensures forall i | 0 <= i < |store| :: x[i] == SectorElem(store[i], j, params.s, params.p)
    ensures IsVector(x, |store|, params.p)
  {
    seq(|store|, i requires 0 <= i < |store| => SectorElem(store[i], j, params.s, params.p))
  }

  /** The proof was computed from the store. */
  ghost predicate HonestEquation(eq: Equation, store: seq<Bytes>, params: Params)
    requires ValidParams(params) && ValidEquation(eq, |store|, params)
  {
    eq.rhs == Mus(store, eq.chal, params)
  }

  /** The matrix row of an equation for sector j. */
  function MatrixRow(eq: Equation, j: nat, n: nat): (r: seq<int>)
    requires ValidChallenge(eq.chal, n) && j < |eq.rhs|
    ensures |r| == n + 1
  {
    ChallengeRow(eq.chal, n)[n := eq.rhs[j]]
  }

  /** The sectors of the store solve an honest equation. */
  lemma {:induction false} HonestRow(eq: Equation, store: seq<Bytes>, params: Params, j: nat)
    requires ValidParams(params) && ValidEquation(eq, |store|, params)
    requires HonestEquation(eq, store, params) && j < params.s
    ensures var z := TrueSectors(store, j, params) + [-1]; Dot(MatrixRow(eq, j, |store|), z, |z|) % params.p == 0
  {
    hide Scatter, SectorElem;
    var n, P := |store|, params.p;
    var x := TrueSectors(store, j, params);
    var z := x + [-1];
    var row := MatrixRow(eq, j, n);
    var scattered := ChallengeRow(eq.chal, n);
    ScatterDot(eq.chal.indices, eq.chal.coeffs, |eq.chal.indices|, n, params.p, z);
    DotUpdate(scattered, n, eq.rhs[j], z, n);
    assert Gather(z, eq.chal.indices) == SectorColumn(store, eq.chal.indices, j, params);
    var d := Dot(SectorColumn(store, eq.chal.indices, j, params), eq.chal.coeffs, |eq.chal.indices|);
    assert Dot(row, z, n) == d;
    DotStep(row, z, n + 1);
    assert row[n] * z[n] == -(d % P);
    ModMod(d, P);
    ModAdd(d, d % P, d % P, d % P, P);
    ModSmall(0, P);
  }

  // ------------------------------------------------------------------ bytes of a block

  /** Rebuild one block from its sector values: each sector's low bytes, right-aligned over zeros. */
  method RebuildBlock(vals: seq<int>, blockLen: nat, S: nat) returns (block: Bytes)
    requires S >= 1 && |vals| == S && forall j | 0 <= j < S :: vals[j] >= 0
    ensures |block| == blockLen
    ensures forall j | 0 <= j < S :: SectorHolds(block, j, S, vals[j])
  {
    hide SectorHolds, SectorSize, MinBytes;
    var sectorSize := SectorSize(blockLen, S);
    block := Zeros(blockLen);
    for j := 0 to S
      invariant |block| == blockLen
      invariant forall k | 0 <= k < j :: SectorHolds(block, k, S, vals[k])
      invariant ZeroFrom(block, j, sectorSize)
    {
      SectorStart(blockLen, j, S);
      var start := j * sectorSize;
      ghost var before := block;
      if start >= blockLen {
        PastEnd(block, j, S, vals[j]);
        continue;
      }
      var end := start + sectorSize;
      if end > blockLen { end := blockLen; }
      var size := end - start;
      var b := MinBytes(vals[j]);
      if |b| > size { b := b[|b| - size..]; }
      block := block[..end - |b|] + b + block[end..];
      WriteSector(before, start, end, vals[j], b);
      SectorWritten(before, block, j, S, vals[j]);
      forall k | 0 <= k < j ensures SectorHolds(block, k, S, vals[k]) {
        EarlierSector(before, block, j, S, k);
        HoldsStill(before, block, k, S, vals[k]);
      }
    }
  }

  ghost predicate SectorHolds(block: Bytes, j: nat, S: nat, val: int)
    requires S >= 1
  {
    val >= 0 && Sector(block, j, S) == FixedBytes(val, |Sector(block, j, S)|)
  }

  /** Nothing is written yet from sector j on. */
  ghost predicate ZeroFrom(block: Bytes, j: nat, size: nat) {
    forall p | j * size <= p < |block| && 0 <= p :: block[p] == 0
  }

  lemma {:induction false} PastEnd(block: Bytes, j: nat, S: nat, val: int)
    requires S >= 1 && val >= 0 && j * SectorSize(|block|, S) >= |block|
    ensures SectorHolds(block, j, S, val)
    ensures ZeroFrom(block, j + 1, SectorSize(|block|, S))
  {
    hide SectorSize;
    NextSector(j, SectorSize(|block|, S));
  }

  lemma {:induction false} NextSector(j: nat, size: nat)
    ensures (j + 1) * size == j * size + size
  {
  }

  lemma {:induction false} SectorBefore(k: nat, j: nat, size: nat)
    requires k < j
    ensures k * size + size <= j * size
  {
    assert (j - k - 1) * size >= 0;
    assert j * size == k * size + size + (j - k - 1) * size;
  }

  /** What one step of the rebuilding writes. */
  ghost predicate Written(before: Bytes, block: Bytes, start: nat, end: nat, val: int) {
    && start <= end <= |before| == |block| && val >= 0
    && block[start..end] == FixedBytes(val, end - start)
    && block[..start] == before[..start] && block[end..] == before[end..]
  }

  lemma {:induction false} WriteSector(before: Bytes, start: nat, end: nat, val: int, b: Bytes)
    requires start <= end <= |before| && val >= 0
    requires forall p | start <= p < |before| :: before[p] == 0
    requires b == if |MinBytes(val)| > end - start then MinBytes(val)[|MinBytes(val)| - (end - start)..]
             else MinBytes(val)
    ensures Written(before, before[..end - |b|] + b + before[end..], start, end, val)
  {
    hide MinBytes;
    var block := before[..end - |b|] + b + before[end..];
    assert before[start..end - |b|] == Zeros(end - start - |b|);
    assert block[start..end] == before[start..end - |b|] + b;
  }

  lemma {:induction false} SectorWritten(before: Bytes, block: Bytes, j: nat, S: nat, val: int)
    requires S >= 1 && val >= 0 && ZeroFrom(before, j, SectorSize(|before|, S))
    requires 0 <= j * SectorSize(|before|, S) < |before|
    requires var size := SectorSize(|before|, S); var start := j * size;
             Written(before, block, start, if start + size > |before| then |before| else start + size, val)
    ensures |block| == |before| && SectorHolds(block, j, S, val)
    ensures ZeroFrom(block, j + 1, SectorSize(|block|, S))
  {
    hide SectorSize, FixedBytes;
    var size := SectorSize(|before|, S);
    var start := j * size;
    var end := if start + size > |before| then |before| else start + size;
    NextSector(j, size);
    assert Sector(block, j, S) == block[start..end];
    forall p | (j + 1) * size <= p < |block| && 0 <= p ensures block[p] == 0 {
      assert block[p] == block[end..][p - end] == before[end..][p - end] == before[p];
    }
  }

  /** Earlier sectors keep their bytes. */
  lemma {:induction false} EarlierSector(before: Bytes, block: Bytes, j: nat, S: nat, k: nat)
    requires S >= 1 && k < j && |block| == |before|
    requires 0 <= j * SectorSize(|before|, S) <= |before|
    requires block[..j * SectorSize(|before|, S)] == before[..j * SectorSize(|before|, S)]
    ensures Sector(block, k, S) == Sector(before, k, S)
  {
    hide SectorSize;
    var size := SectorSize(|before|, S);
    var start := j * size;
    SectorBefore(k, j, size);
    SectorStart(|before|, k, S);
    assert Sector(block, k, S) == block[..start][k * size..k * size + size];
    assert Sector(before, k, S) == before[..start][k * size..k * size + size];
  }

  lemma {:induction false} HoldsStill(before: Bytes, block: Bytes, k: nat, S: nat, val: int)
    requires S >= 1 && SectorHolds(before, k, S, val)
    requires Sector(block, k, S) == Sector(before, k, S)
    ensures SectorHolds(block, k, S, val)
  {
  }

  /** Sectors that fit below P come back byte for byte: leading zeros, short last sectors and sectors past the end
      alike. */
  lemma {:induction false} RebuiltBlock(block: Bytes, rebuilt: Bytes, params: Params)
    requires ValidParams(params) && ValidateP(params, |block|) && |rebuilt| == |block|
    requires forall j | 0 <= j < params.s :: SectorHolds(rebuilt, j, params.s, SectorElem(block, j, params.s, params.p))
    ensures rebuilt == block
  {
    hide SectorElem, Sector, SectorSize, ValidateP;
    var S, size := params.s, SectorSize(|block|, params.s);
    forall p | 0 <= p < |block| ensures rebuilt[p] == block[p] {
      var j := SectorOf(|block|, S, p);
      SectorRestored(block, rebuilt, params, j);
      SectorByte(block, j, S, p);
      SectorByte(rebuilt, j, S, p);
    }
  }

  lemma {:induction false} SectorOf(n: nat, S: nat, p: nat) returns (j: nat)
    requires S >= 1 && p < n
    ensures j < S && SectorSize(n, S) > 0
    ensures j * SectorSize(n, S) <= p < j * SectorSize(n, S) + SectorSize(n, S)
  {
    var a, size := n + S - 1, SectorSize(n, S);
    assert a == (a / S) * S + a % S;
    SomeSize(n, S, size);
    j := p / size;
    assert p == j * size + p % size;
    if j >= S { MulMono(S, j, size); }
  }

  lemma {:induction false} SomeSize(n: nat, S: nat, size: nat)
    requires n >= 1 && S >= 1 && n + S - 1 == size * S + (n + S - 1) % S
    ensures size >= 1 && size * S >= n
  {
    assert (n + S - 1) % S <= S - 1;
    MulMono(1, size, S);
  }

  lemma {:induction false} SectorByte(block: Bytes, j: nat, S: nat, p: nat)
    requires S >= 1 && p < |block|
    requires 0 <= j * SectorSize(|block|, S) <= p < j * SectorSize(|block|, S) + SectorSize(|block|, S)
    ensures var k := p - j * SectorSize(|block|, S); k < |Sector(block, j, S)| && Sector(block, j, S)[k] == block[p]
  {
    hide SectorSize;
  }

  lemma {:induction false} SectorRestored(block: Bytes, rebuilt: Bytes, params: Params, j: nat)
    requires ValidParams(params) && ValidateP(params, |block|) && |rebuilt| == |block|
    requires SectorHolds(rebuilt, j, params.s, SectorElem(block, j, params.s, params.p))
    ensures Sector(rebuilt, j, params.s) == Sector(block, j, params.s)
  {
    hide SectorSize, Sector;
    var S, P := params.s, params.p;
    var sector := Sector(block, j, S);
    SectorLength(block, rebuilt, j, S);
    SectorValue(block, params, j);
    FixedBytesInverse(sector);
  }

  lemma {:induction false} SectorLength(block: Bytes, rebuilt: Bytes, j: nat, S: nat)
    requires S >= 1 && |block| == |rebuilt|
    ensures |Sector(block, j, S)| == |Sector(rebuilt, j, S)|
  {
  }

  /** ValidateP makes the reduction of a sector lossless. */
  lemma {:induction false} SectorValue(block: Bytes, params: Params, j: nat)
    requires ValidParams(params) && ValidateP(params, |block|)
    ensures SectorElem(block, j, params.s, params.p) == SetBytes(Sector(block, j, params.s))
  {
    hide SectorSize, Pow, BitLen, Sector, SetBytes;
    var sector, size := Sector(block, j, params.s), SectorSize(|block|, params.s);
    SetBytesBound(sector);
    PowMono(256, |sector|, size);
    BitLenBytes(params.p, size);
    ModSmall(SetBytes(sector), params.p);
  }

  // ------------------------------------------------------------------ the extractor

  /** The coefficient matrix of the witnessed equations. */
  function CoefficientMatrix(rows: seq<Equation>, n: nat): (r: seq<seq<int>>)
    requires forall e | 0 <= e < |rows| :: ValidChallenge(rows[e].chal, n)
    ensures |r| == |rows|
    ensures forall e | 0 <= e < |rows| :: r[e] == ChallengeRow(rows[e].chal, n)
  {
    seq(|rows|, e requires 0 <= e < |rows| => ChallengeRow(rows[e].chal, n))
  }

  ghost predicate ValidRows(rows: seq<Equation>, n: nat, params: Params) {
    forall e | 0 <= e < |rows| :: ValidEquation(rows[e], n, params)
  }

  /** A store the client could have tagged and that answered every witnessed challenge. */
  ghost predicate WitnessedStore(rows: seq<Equation>, store: seq<Bytes>, blockLen: nat, params: Params)
    requires ValidParams(params) && ValidRows(rows, |store|, params)
  {
    && (forall i | 0 <= i < |store| :: |store[i]| == blockLen) && ValidateP(params, blockLen)
    && forall e | 0 <= e < |rows| :: HonestEquation(rows[e], store, params)
  }

  /** Every row holds its equation's coefficients; the last column is free. */
  ghost predicate MatrixReady(rows: seq<Equation>, aug: seq<seq<int>>, n: nat)
    requires forall e | 0 <= e < |rows| :: ValidChallenge(rows[e].chal, n)
  {
    |aug| == |rows| && forall r | 0 <= r < |rows| ::
        |aug[r]| == n + 1 && aug[r][..n] == ChallengeRow(rows[r].chal, n)[..n]
  }

  ghost predicate MatrixFor(rows: seq<Equation>, aug: seq<seq<int>>, j: nat, n: nat)
    requires forall e | 0 <= e < |rows| :: ValidChallenge(rows[e].chal, n) && j < |rows[e].rhs|
  {
    |aug| == |rows| && forall r | 0 <= r < |rows| :: |aug[r]| == n + 1 && aug[r] == MatrixRow(rows[r], j, n)
  }

  /** The solutions found are the sectors of any store that answered every witnessed challenge. */
  ghost predicate SolvedFor(rows: seq<Equation>, sectors: seq<seq<int>>, n: nat, blockLen: nat, params: Params)
    requires ValidParams(params) && ValidRows(rows, n, params)
  {
    forall store | |store| == n && WitnessedStore(rows, store, blockLen, params) ::
      forall k | 0 <= k < |sectors| :: sectors[k] == TrueSectors(store, k, params)
  }

  class Extractor {
    const params: Params
    const n: nat
    const blockLen: nat
    var rows: seq<Equation>

    ghost predicate Valid()
      reads this
    {
      ValidParams(params) && IsPrime(params.p) && ValidRows(rows, n, params)
    }

    constructor (params: Params, n: nat, blockLen: nat)
      requires ValidParams(params) && IsPrime(params.p)
      ensures Valid() && rows == [] && this.params == params && this.n == n
      ensures this.blockLen == blockLen
    {
      this.params := params;
      this.n := n;
      this.blockLen := blockLen;
      rows := [];
    }

    /** Record one verified proof; refused when it has the wrong number of sector sums. */
    method Witness(chal: SeedChallenge, mu: seq<int>) returns (ok: bool)
      requires Valid() && (chal.count >= 1 || n == 0)
      modifies this`rows
      ensures Valid() && (ok <==> |mu| == params.s)
      ensures !ok ==> rows == old(rows)
      ensures ok ==>
        && |rows| == |old(rows)| + 1 && rows[..|old(rows)|] == old(rows) && rows[|old(rows)|].rhs == mu
        && IsDerived(chal, n, params.p, rows[|old(rows)|].chal)
    {
      hide IsSelection, DistinctRanks, FullSort;
      if |mu| != params.s { return false; }
      var indices, coeffs := DeriveChallenge(chal.rank, chal.prf, n, chal.count, params.p);
      DerivedValid(chal, n, params, Challenge(indices, coeffs), mu);
      rows := rows + [Equation(Challenge(indices, coeffs), mu)];
      return true;
    }

    /** The matrix of coefficients, its last column still zero. */
    method Coefficients() returns (aug: array<seq<int>>)
      requires Valid()
      ensures fresh(aug) && aug[..] == CoefficientMatrix(rows, n)
    {
      hide Scatter, ChallengeRow;
      aug := new seq<int>[|rows|];
      for r := 0 to |rows|
        invariant forall e | 0 <= e < r :: aug[e] == ChallengeRow(rows[e].chal, n)
      {
        var row := ScatterRow(rows[r].chal, n);
        aug[r] := row;
      }
      assert aug[..] == CoefficientMatrix(rows, n);
    }

    static method ScatterRow(chal: Challenge, n: nat) returns (row: seq<int>)
      requires ValidChallenge(chal, n)
      ensures row == ChallengeRow(chal, n)
    {
      row := seq(n + 1, _ => 0);
      for k := 0 to |chal.indices|
        invariant row == Scatter(chal.indices, chal.coeffs, k, n)
      {
        row := row[chal.indices[k] := chal.coeffs[k]];
      }
    }

    /** Put the sector's right-hand sides into the last column. */
    method SetRightSide(aug: array<seq<int>>, j: nat)
      requires Valid() && j < params.s && MatrixReady(rows, aug[..], n)
      modifies aug
      ensures MatrixFor(rows, aug[..], j, n)
    {
      hide Scatter, ChallengeRow;
      for r := 0 to |rows|
        invariant forall e | 0 <= e < r :: aug[e] == MatrixRow(rows[e], j, n)
        invariant forall e | r <= e < |rows| :: |aug[e]| == n + 1 && aug[e][..n] == ChallengeRow(rows[e].chal, n)[..n]
      {
        OnlyLastColumn(aug[r], rows[r], j, n);
        aug[r] := aug[r][n := rows[r].rhs[j]];
      }
    }

    /** Solve for every sector of every block; nothing when the equations do not determine them. */
    method SolveSectors() returns (r: Option<seq<seq<int>>>)
      requires Valid() && n > 0
      ensures r.None? <==> HasKernel(CoefficientMatrix(rows, n), n, params.p)
      ensures r.Some? ==> |r.value| == params.s && forall j | 0 <= j < params.s :: IsVector(r.value[j], n, params.p)
      ensures r.Some? ==> SolvedFor(rows, r.value, n, blockLen, params)
    {
      hide Scatter, ChallengeRow, WitnessedStore, TrueSectors, HasKernel, Solves, MatrixReady, MatrixFor, SolvedFor;
      hide IsVector;
      var aug := Coefficients();
      ghost var matrix := aug[..];
      var sectors := [];
      NothingSolved(rows, matrix, n, blockLen, params);
      for j := 0 to params.s
        invariant |sectors| == j && forall k | 0 <= k < j :: IsVector(sectors[k], n, params.p)
        invariant j > 0 ==> !HasKernel(matrix, n, params.p)
        invariant MatrixReady(rows, aug[..], n)
        invariant SolvedFor(rows, sectors, n, blockLen, params)
      {
        SetRightSide(aug, j);
        MatrixFacts(rows, aug[..], j, n, params);
        var sol := GaussElimModP(aug, n, params.p);
        if sol.None? { return None; }
        OnlyTrueSectors(rows, aug[..], n, blockLen, j, params, sectors, sol.value);
        sectors := sectors + [sol.value];
      }
      return Some(sectors);
    }

    /** Extract: insufficient proofs exactly when the coefficients leave a kernel vector, otherwise the very bytes of
        any store that answered every witnessed challenge. */
    method Extract() returns (r: Option<seq<Bytes>>)
      requires Valid()
      ensures r.None? <==> n > 0 && HasKernel(CoefficientMatrix(rows, n), n, params.p)
      ensures forall store: seq<Bytes> {:trigger |store|} |
                && |store| == n && (forall i | 0 <= i < n :: |store[i]| == blockLen) && ValidateP(params, blockLen)
                && (forall e | 0 <= e < |rows| :: rows[e].rhs == Mus(store, rows[e].chal, params)) ::
                r.None? || r.value == store
    {
      hide HasKernel, TrueSectors, SectorHolds, ValidateP, Mus;
      r := ExtractWitnessed();
      forall store: seq<Bytes> |
        && |store| == n && (forall i | 0 <= i < n :: |store[i]| == blockLen) && ValidateP(params, blockLen)
        && (forall e | 0 <= e < |rows| :: rows[e].rhs == Mus(store, rows[e].chal, params))
        ensures WitnessedStore(rows, store, blockLen, params)
      {
      }
    }

    /** The extraction itself, for the witnessed stores as a predicate. */
    method ExtractWitnessed() returns (r: Option<seq<Bytes>>)
      requires Valid()
      ensures r.None? <==> n > 0 && HasKernel(CoefficientMatrix(rows, n), n, params.p)
      ensures forall store | r.Some? && |store| == n && WitnessedStore(rows, store, blockLen, params) ::
                r.value == store
    {
      hide WitnessedStore, HasKernel, TrueSectors, SectorHolds;
      if n == 0 { return Some([]); }
      var solved := SolveSectors();
      if solved.None? { return None; }
      var reconstructed := [];
      for i := 0 to n
        invariant |reconstructed| == i
        invariant forall store | |store| == n && WitnessedStore(rows, store, blockLen, params) ::
                    forall k | 0 <= k < i :: reconstructed[k] == store[k]
      {
        var vals := SectorValues(solved.value, i, n, params.p);
        var block := RebuildBlock(vals, blockLen, params.s);
        forall store | |store| == n && WitnessedStore(rows, store, blockLen, params) ensures block == store[i] {
          WitnessedBlock(rows, store, blockLen, params, i, solved.value, block);
        }
        reconstructed := reconstructed + [block];
      }
      return Some(reconstructed);
    }
  }

  /** What insufficient proofs are: some non-zero vector of residues, one for each block, that no witnessed challenge
      sees, so that adding it to the sectors of the store would not change any answer. */
  lemma {:induction false} InsufficientMeans(rows: seq<Equation>, n: nat, params: Params)
    requires params.p > 0 && ValidRows(rows, n, params)
    ensures HasKernel(CoefficientMatrix(rows, n), n, params.p) <==>
            exists y: seq<int> ::
              && |y| == n && (forall i | 0 <= i < n :: 0 <= y[i] < params.p) && (exists i :: 0 <= i < n && y[i] != 0)
              && forall e | 0 <= e < |rows| ::
                   Dot(Gather(y, rows[e].chal.indices), rows[e].chal.coeffs, |rows[e].chal.coeffs|) % params.p == 0
  {
    hide Dot, Scatter, HasKernel;
    HasKernelMeans(CoefficientMatrix(rows, n), n, params.p);
    forall y: seq<int>, e | |y| == n && 0 <= e < |rows|
      ensures Dot(CoefficientMatrix(rows, n)[e], y, n)
              == Dot(Gather(y, rows[e].chal.indices), rows[e].chal.coeffs, |rows[e].chal.coeffs|)
    {
      ScatterDot(rows[e].chal.indices, rows[e].chal.coeffs, |rows[e].chal.indices|, n, params.p, y);
    }
  }

  lemma {:induction false} WitnessedBlock(rows: seq<Equation>, store: seq<Bytes>, blockLen: nat, params: Params,
                                          i: nat, sectors: seq<seq<int>>, block: Bytes)
    requires ValidParams(params) && ValidRows(rows, |store|, params)
    requires WitnessedStore(rows, store, blockLen, params)
    requires i < |store| && |sectors| == params.s && |block| == blockLen
    requires forall j | 0 <= j < params.s :: sectors[j] == TrueSectors(store, j, params)
    requires forall j | 0 <= j < params.s :: |sectors[j]| == |store| && SectorHolds(block, j, params.s, sectors[j][i])
    ensures block == store[i]
  {
    hide SectorHolds, SectorElem, ValidateP;
    forall j | 0 <= j < params.s ensures SectorHolds(block, j, params.s, SectorElem(store[i], j, params.s, params.p)) {
      assert sectors[j][i] == TrueSectors(store, j, params)[i];
    }
    RebuiltBlock(store[i], block, params);
  }

  /** The sectors of block i. */
  function SectorValues(sectors: seq<seq<int>>, i: nat, n: nat, ghost P: int): (vals: seq<int>)
    requires i < n && forall j | 0 <= j < |sectors| :: IsVector(sectors[j], n, P)
    ensures |vals| == |sectors|
    ensures forall j | 0 <= j < |sectors| :: |sectors[j]| == n && vals[j] == sectors[j][i] && vals[j] >= 0
  {
    VectorEntries(sectors, n, P);
    seq(|sectors|, j requires 0 <= j < |sectors| => sectors[j][i])
  }

  lemma {:induction false} VectorEntries(sectors: seq<seq<int>>, n: nat, P: int)
    requires forall j | 0 <= j < |sectors| :: IsVector(sectors[j], n, P)
    ensures forall j | 0 <= j < |sectors| :: |sectors[j]| == n && forall i | 0 <= i < n :: sectors[j][i] >= 0
  {
    forall j | 0 <= j < |sectors| ensures |sectors[j]| == n && forall i | 0 <= i < n :: sectors[j][i] >= 0 {
      assert IsVector(sectors[j], n, P);
    }
  }

  lemma {:induction false} OnlyLastColumn(row: seq<int>, eq: Equation, j: nat, n: nat)
    requires ValidChallenge(eq.chal, n) && j < |eq.rhs| && |row| == n + 1
    requires row[..n] == ChallengeRow(eq.chal, n)[..n]
    ensures row[n := eq.rhs[j]] == MatrixRow(eq, j, n)
  {
    hide Scatter, ChallengeRow;
    var scattered := ChallengeRow(eq.chal, n);
    forall i | 0 <= i < n ensures row[i] == scattered[i] {
      assert row[..n][i] == scattered[..n][i];
    }
  }

  lemma {:induction false} NothingSolved(rows: seq<Equation>, matrix: seq<seq<int>>, n: nat, blockLen: nat,
                                         params: Params)
    requires ValidParams(params) && ValidRows(rows, n, params)
    requires matrix == CoefficientMatrix(rows, n)
    ensures MatrixReady(rows, matrix, n) && SolvedFor(rows, [], n, blockLen, params)
  {
    hide Scatter, ChallengeRow;
  }

  lemma {:induction false} MatrixFacts(rows: seq<Equation>, aug: seq<seq<int>>, j: nat, n: nat, params: Params)
    requires ValidRows(rows, n, params) && j < params.s && params.p > 0
    requires MatrixFor(rows, aug, j, n)
    ensures forall r, i | 0 <= r < |aug| && 0 <= i < n && i < |aug[r]| :: 0 <= aug[r][i] < params.p
    ensures HasKernel(aug, n, params.p) <==> HasKernel(CoefficientMatrix(rows, n), n, params.p)
    ensures MatrixReady(rows, aug, n)
  {
    hide Scatter, HasKernel;
    var matrix := CoefficientMatrix(rows, n);
    forall r | 0 <= r < |rows|
      ensures |aug[r]| == |matrix[r]| == n + 1
              && forall i | 0 <= i < n :: aug[r][i] == matrix[r][i] && 0 <= aug[r][i] < params.p
    {
      forall i | 0 <= i < n ensures aug[r][i] == matrix[r][i] && 0 <= aug[r][i] < params.p {
        ScatterEntries(rows[r].chal.indices, rows[r].chal.coeffs, |rows[r].chal.indices|, n, params.p, i);
      }
    }
    KernelIgnoresRightSide(matrix, aug, n, params.p);
    KernelIgnoresRightSide(aug, matrix, n, params.p);
  }

  lemma {:induction false} TrueSolution(rows: seq<Equation>, aug: seq<seq<int>>, store: seq<Bytes>, blockLen: nat,
                                        j: nat, params: Params)
    requires ValidParams(params) && ValidRows(rows, |store|, params)
    requires WitnessedStore(rows, store, blockLen, params) && j < params.s
    requires MatrixFor(rows, aug, j, |store|)
    ensures IsVector(TrueSectors(store, j, params), |store|, params.p)
    ensures Solves(aug, TrueSectors(store, j, params), |store|, params.p)
  {
    hide Dot, MatrixRow, TrueSectors;
    var n := |store|;
    var z := TrueSectors(store, j, params) + [-1];
    forall r | 0 <= r < |aug| ensures PaddedRows(aug, n)[r] == aug[r] && Dot(aug[r], z, |z|) % params.p == 0 {
      HonestRow(rows[r], store, params, j);
      assert Padded(aug[r], n) == aug[r];
    }
  }

  lemma {:induction false} OnlyTrueSectors(rows: seq<Equation>, aug: seq<seq<int>>, n: nat, blockLen: nat, j: nat,
                                           params: Params, sectors: seq<seq<int>>, sol: seq<int>)
    requires ValidParams(params) && ValidRows(rows, n, params) && j < params.s
    requires MatrixFor(rows, aug, j, n)
    requires forall x: seq<int> | IsVector(x, n, params.p) && Solves(aug, x, n, params.p) :: x == sol
    requires |sectors| == j && SolvedFor(rows, sectors, n, blockLen, params)
    ensures SolvedFor(rows, sectors + [sol], n, blockLen, params)
  {
    hide WitnessedStore, TrueSectors, Solves, IsVector, MatrixRow;
    forall store | |store| == n && WitnessedStore(rows, store, blockLen, params)
      ensures sol == TrueSectors(store, j, params)
    {
      TrueSolution(rows, aug, store, blockLen, j, params);
    }
  }
}
