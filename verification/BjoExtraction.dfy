/** Passive extraction from witnessed Bowers-Juels-Oprea proofs: solve for all encoded blocks, then decode and check
    the MAC. */
module BjoExtraction {
  import opened ModArith
  import opened NumberTheory
  import opened LinearSystems
  import opened SparseRows
  import opened Gauss
  import opened ByteNumbers
  import opened Options
  import opened Pigeonhole
  import opened ReedSolomon
  import opened AdversarialCode
  import opened InnerCode
  import opened PhaseOne
  import opened Retrievability

  /** One witnessed proof: the sampled positions, the column, and the answer as a number. */
  datatype Equation = Equation(blockPos: seq<nat>, u: nat, mj: nat)

  ghost predicate ValidEquation(eq: Equation, t: nat, ip: InnerParams) {
    |eq.blockPos| == ip.v && Distinct(eq.blockPos) && forall k | 0 <= k < ip.v :: eq.blockPos[k] < t
  }

  ghost predicate ValidRows(rows: seq<Equation>, t: nat, ip: InnerParams) {
    forall r | 0 <= r < |rows| :: ValidEquation(rows[r], t, ip)
  }

  /** The coefficients of an equation in the columns of its positions. */
  function EquationRow(eq: Equation, t: nat, ip: InnerParams): (r: seq<int>)
    requires ip.p > 0 && |eq.blockPos| == ip.v
    requires forall k | 0 <= k < ip.v :: eq.blockPos[k] < t
    ensures |r| == t + 1
  {
    Scatter(eq.blockPos, GenColumn(ip, eq.u), ip.v, t)
  }

  function CoefficientMatrix(rows: seq<Equation>, t: nat, ip: InnerParams): (A: seq<seq<int>>)
    requires ip.p > 0
    requires forall r | 0 <= r < |rows| ::
               |rows[r].blockPos| == ip.v && forall k | 0 <= k < ip.v :: rows[r].blockPos[k] < t
    ensures |A| == |rows|
    ensures forall r | 0 <= r < |rows| :: A[r] == EquationRow(rows[r], t, ip)
  {
    seq(|rows|, r requires 0 <= r < |rows| => EquationRow(rows[r], t, ip))
  }

  /** The answer was computed from the encoded blocks. */
  ghost predicate HonestEquation(eq: Equation, code: seq<Bytes>, ip: InnerParams)
    requires ip.p > 0 && ValidEquation(eq, |code|, ip)
  {
    eq.mj == Response(ip, Stored(code), eq.blockPos, eq.u)
  }

  /** The encoded blocks as field elements. */
  function TrueElements(code: seq<Bytes>, P: int): (x: seq<int>)
    requires P > 0
    ensures |x| == |code| && forall i | 0 <= i < |x| :: x[i] == SetBytes(code[i]) % P
    ensures IsVector(x, |code|, P)
  {
    seq(|code|, i requires 0 <= i < |code| => SetBytes(code[i]) % P)
  }

  lemma {:induction false} HonestRow(eq: Equation, code: seq<Bytes>, ip: InnerParams)
    requires ip.p > 0 && ValidEquation(eq, |code|, ip) && HonestEquation(eq, code, ip)
    ensures var z := TrueElements(code, ip.p) + [-1];
              Dot(EquationRow(eq, |code|, ip)[|code| := eq.mj], z, |z|) % ip.p == 0
  {
    hide Dot, Scatter, SetBytes, Element;
    var t, x := |code|, TrueElements(code, ip.p);
    var z := x + [-1];
    var scattered := EquationRow(eq, t, ip);
    var row := scattered[t := eq.mj];
    ScatterDot(eq.blockPos, GenColumn(ip, eq.u), ip.v, t, ip.p, z);
    DotUpdate(scattered, t, eq.mj, z, t);
    assert Gather(z, eq.blockPos) == FieldElements(Stored(code), eq.blockPos, ip.p);
    var d := Dot(FieldElements(Stored(code), eq.blockPos, ip.p), GenColumn(ip, eq.u), ip.v);
    DotStep(row, z, t + 1);
    assert row[t] * z[t] == -(d % ip.p);
    ModMod(d, ip.p);
    ModAdd(d, d % ip.p, d % ip.p, d % ip.p, ip.p);
    ModSmall(0, ip.p);
  }

  ghost predicate MatrixFor(rows: seq<Equation>, aug: seq<seq<int>>, t: nat, ip: InnerParams)
    requires ip.p > 0 && ValidRows(rows, t, ip)
  {
    |aug| == |rows| && forall r | 0 <= r < |rows| ::
        |aug[r]| == t + 1 && aug[r] == EquationRow(rows[r], t, ip)[t := rows[r].mj]
  }

  lemma {:induction false} MatrixFacts(rows: seq<Equation>, aug: seq<seq<int>>, t: nat, ip: InnerParams)
    requires ip.p > 0 && ValidRows(rows, t, ip) && MatrixFor(rows, aug, t, ip)
    ensures forall r, i | 0 <= r < |aug| && 0 <= i < t && i < |aug[r]| :: 0 <= aug[r][i] < ip.p
    ensures HasKernel(aug, t, ip.p) <==> HasKernel(CoefficientMatrix(rows, t, ip), t, ip.p)
  {
    hide Scatter, HasKernel, Element;
    var matrix := CoefficientMatrix(rows, t, ip);
    forall r | 0 <= r < |rows|
      ensures |aug[r]| == |matrix[r]| == t + 1
              && forall i | 0 <= i < t :: aug[r][i] == matrix[r][i] && 0 <= aug[r][i] < ip.p
    {
      forall i | 0 <= i < t ensures aug[r][i] == matrix[r][i] && 0 <= aug[r][i] < ip.p {
        ScatterEntries(rows[r].blockPos, GenColumn(ip, rows[r].u), ip.v, t, ip.p, i);
      }
    }
    KernelIgnoresRightSide(matrix, aug, t, ip.p);
    KernelIgnoresRightSide(aug, matrix, t, ip.p);
  }

  lemma {:induction false} TrueSolution(rows: seq<Equation>, aug: seq<seq<int>>, code: seq<Bytes>, ip: InnerParams)
    requires ip.p > 0 && ValidRows(rows, |code|, ip) && MatrixFor(rows, aug, |code|, ip)
    requires forall r | 0 <= r < |rows| :: HonestEquation(rows[r], code, ip)
    ensures IsVector(TrueElements(code, ip.p), |code|, ip.p)
    ensures Solves(aug, TrueElements(code, ip.p), |code|, ip.p)
  {
    hide Dot, TrueElements, EquationRow, HonestEquation;
    var z := TrueElements(code, ip.p) + [-1];
    forall r | 0 <= r < |aug| ensures PaddedRows(aug, |code|)[r] == aug[r] && Dot(aug[r], z, |z|) % ip.p == 0 {
      HonestRow(rows[r], code, ip);
      assert Padded(aug[r], |code|) == aug[r];
    }
  }

  /** A block that fits below P comes back from its field element. */
  lemma {:induction false} ElementBlock(block: Bytes, P: int)
    requires P > 0 && Pow(256, |block|) <= P
    ensures FixedBytes(SetBytes(block) % P, |block|) == block
  {
    hide SetBytes, FixedBytes, Pow;
    SetBytesBound(block);
    ModSmall(SetBytes(block), P);
    FixedBytesInverse(block);
  }

  datatype PassiveExtraction = InsufficientProofs | Extracted(result: Extraction)

  /** An encoded file whose blocks fit below P and answered every witnessed challenge. */
  ghost predicate WitnessedFile(mk: MasterKey, p: Params, rows: seq<Equation>, file: seq<Bytes>, ef: EncodedFile)
    requires Retrievability.ValidParams(p) && ValidMaster(mk, p)
  {
    && file != [] && SameLength(file, BlockSize(file)) && BlockSize(file) > 0 && Pow(256, BlockSize(file)) <= p.inner.p
    && IsEncodedFile(mk, p, file, ef)
    && ValidRows(rows, |ef.blocks|, p.inner)
        && forall r | 0 <= r < |rows| :: HonestEquation(rows[r], ef.blocks, p.inner)
  }

  class Extractor {
    const mk: MasterKey
    const p: Params
    const ef: EncodedFile
    const t: nat
    var rows: seq<Equation>

    ghost predicate Valid()
      reads this
    {
      && Retrievability.ValidParams(p) && ValidMaster(mk, p) && IsPrime(p.inner.p)
      && t == |ef.blocks| && 1 <= p.inner.v <= t && ValidRows(rows, t, p.inner)
    }

    constructor (mk: MasterKey, p: Params, ef: EncodedFile)
      requires Retrievability.ValidParams(p) && ValidMaster(mk, p)
      requires IsPrime(p.inner.p) && 1 <= p.inner.v <= |ef.blocks|
      ensures Valid() && rows == [] && this.mk == mk && this.p == p && this.ef == ef
    {
      this.mk := mk;
      this.p := p;
      this.ef := ef;
      t := |ef.blocks|;
      rows := [];
    }

    /** Record one verified proof. */
    method Witness(chal: Challenge, mj: Bytes)
      requires Valid() && IsPermutation(chal.order(t), t) && chal.u >= 0
      modifies this`rows
      ensures Valid()
      ensures rows == old(rows) + [Equation(Positions(Sampled(chal.order(t), p.inner.v)), chal.u, SetBytes(mj))]
    {
      SampledInRange(chal.order(t), t, p.inner.v);
      rows := rows + [Equation(Positions(Sampled(chal.order(t), p.inner.v)), chal.u, SetBytes(mj))];
    }

    /** The augmented matrix; contributions to one position are added up modulo P. */
    method BuildMatrix() returns (aug: array<seq<int>>)
      requires Valid()
      ensures fresh(aug) && MatrixFor(rows, aug[..], t, p.inner)
    {
      hide Scatter, EquationRow;
      aug := new seq<int>[|rows|];
      for r := 0 to |rows|
        invariant forall e | 0 <= e < r ::
                    |aug[e]| == t + 1 && aug[e] == EquationRow(rows[e], t, p.inner)[t := rows[e].mj]
      {
        var row := BuildRow(rows[r], t, p.inner);
        aug[r] := row[t := rows[r].mj];
      }
    }

    static method BuildRow(eq: Equation, t: nat, ip: InnerParams) returns (row: seq<int>)
      requires ip.p > 0 && ValidEquation(eq, t, ip)
      ensures row == EquationRow(eq, t, ip)
    {
      hide Element;
      row := seq(t + 1, _ => 0);
      ghost var column := GenColumn(ip, eq.u);
      for pos := 0 to |eq.blockPos|
        invariant row == Scatter(eq.blockPos, column, pos, t)
      {
        var idx := eq.blockPos[pos];
        var g := Element(ip, pos + 1, eq.u);
        ScatterEntries(eq.blockPos, column, pos, t, ip.p, idx);
        ModSmall(g, ip.p);
        row := row[idx := (row[idx] + g) % ip.p];
      }
    }

    /** The solved field elements as blocks of the stored length. */
    method RebuildBlocks(sol: seq<int>, blockLen: nat) returns (recovered: seq<Option<Bytes>>)
      requires forall i | 0 <= i < |sol| :: sol[i] >= 0
      ensures |recovered| == |sol|
      ensures forall i | 0 <= i < |sol| :: recovered[i] == Some(FixedBytes(sol[i], blockLen))
    {
      hide MinBytes;
      recovered := [];
      for i := 0 to |sol|
        invariant |recovered| == i && forall k | 0 <= k < i :: recovered[k] == Some(FixedBytes(sol[k], blockLen))
      {
        var b := MinBytes(sol[i]);
        if |b| > blockLen { b := b[|b| - blockLen..]; }
        assert Zeros(blockLen - |b|) + b == FixedBytes(sol[i], blockLen);
        recovered := recovered + [Some(Zeros(blockLen - |b|) + b)];
      }
    }

    /** Extract: insufficient proofs exactly when the coefficients leave a kernel vector; otherwise the original file
        with its MAC verified, for any file that was encoded and answered every witnessed challenge. */
    method Extract() returns (r: PassiveExtraction)
      requires Valid()
      ensures r.InsufficientProofs? <==> HasKernel(CoefficientMatrix(rows, t, p.inner), t, p.inner.p)
      ensures forall file: seq<Bytes> |
                && file != [] && file[0] != [] && (forall i | 0 <= i < |file| :: |file[i]| == |file[0]|)
                && Pow(256, |file[0]|) <= p.inner.p && IsEncodedFile(mk, p, file, ef)
                && (forall r | 0 <= r < |rows| ::
                      rows[r].mj == Response(p.inner, Stored(ef.blocks), rows[r].blockPos, rows[r].u)) ::
                r.InsufficientProofs? || r == Extracted(Recovered(file))
    {
      hide HasKernel, CoefficientMatrix, Pow, IsEncodedFile, Response;
      r := ExtractWitnessed();
      forall file: seq<Bytes> |
        && file != [] && file[0] != [] && (forall i | 0 <= i < |file| :: |file[i]| == |file[0]|)
        && Pow(256, |file[0]|) <= p.inner.p && IsEncodedFile(mk, p, file, ef)
        && (forall r | 0 <= r < |rows| ::
              rows[r].mj == Response(p.inner, Stored(ef.blocks), rows[r].blockPos, rows[r].u))
        ensures WitnessedFile(mk, p, rows, file, ef)
      {
      }
    }

    /** The extraction itself, for the witnessed files as a predicate. */
    method ExtractWitnessed() returns (r: PassiveExtraction)
      requires Valid()
      ensures r.InsufficientProofs? <==> HasKernel(CoefficientMatrix(rows, t, p.inner), t, p.inner.p)
      ensures forall file | WitnessedFile(mk, p, rows, file, ef) ::
                r.InsufficientProofs? || r == Extracted(Recovered(file))
    {
      hide HasKernel, Solves, WitnessedFile, CoefficientMatrix;
      var aug := BuildMatrix();
      MatrixFacts(rows, aug[..], t, p.inner);
      var sol := GaussElimModP(aug, t, p.inner.p);
      if sol.None? { return InsufficientProofs; }
      var recovered := RebuildBlocks(sol.value, |ef.blocks[0]|);
      var paramsCopy := p.(alpha := 0);
      UniformlyRebuilt(recovered, |ef.blocks[0]|);
      var result := Retrievability.Extract(mk, paramsCopy, recovered, ef.numMessage, ef.sentinels, ef.fileMac, []);
      forall file | WitnessedFile(mk, p, rows, file, ef) ensures result == Recovered(file) {
        FileExtracted(mk, p, rows, file, ef, aug[..], sol.value, recovered, result);
      }
      return Extracted(result);
    }
  }

  /** What insufficient proofs are: some non-zero vector of residues, one for each encoded block, that combines to zero
      at the sampled positions of every witnessed challenge, with the entries of its column as weights. */
  lemma {:induction false} InsufficientMeans(rows: seq<Equation>, t: nat, ip: InnerParams, weights: seq<seq<int>>)
    requires ip.p > 0 && ValidRows(rows, t, ip) && |weights| == |rows|
    requires forall r | 0 <= r < |rows| ::
               |weights[r]| == ip.v && forall k | 0 <= k < ip.v :: weights[r][k] == ip.gen(rows[r].u, k + 1) % ip.p
    ensures HasKernel(CoefficientMatrix(rows, t, ip), t, ip.p) <==>
            exists y: seq<int> ::
              && |y| == t && (forall i | 0 <= i < t :: 0 <= y[i] < ip.p) && (exists i :: 0 <= i < t && y[i] != 0)
              && forall r | 0 <= r < |rows| :: Dot(Gather(y, rows[r].blockPos), weights[r], ip.v) % ip.p == 0
  {
    hide Dot, Scatter, HasKernel;
    HasKernelMeans(CoefficientMatrix(rows, t, ip), t, ip.p);
    forall y: seq<int>, r | |y| == t && 0 <= r < |rows|
      ensures Dot(CoefficientMatrix(rows, t, ip)[r], y, t) == Dot(Gather(y, rows[r].blockPos), weights[r], ip.v)
    {
      assert weights[r] == GenColumn(ip, rows[r].u);
      ScatterDot(rows[r].blockPos, weights[r], ip.v, t, ip.p, y);
    }
  }

  function Positions(indices: seq<int>): (r: seq<nat>)
    requires forall k | 0 <= k < |indices| :: indices[k] >= 0
    ensures |r| == |indices| && forall k | 0 <= k < |r| :: r[k] == indices[k]
  {
    seq(|indices|, k requires 0 <= k < |indices| => indices[k])
  }

  lemma {:induction false} UniformlyRebuilt(recovered: seq<Option<Bytes>>, size: nat)
    requires recovered != []
    requires forall i | 0 <= i < |recovered| :: recovered[i].Some? && |recovered[i].value| == size
    ensures FirstSize(recovered) == size
    ensures UniformSurvivors(recovered, FirstSize(recovered))
  {
  }

  /** All encoded blocks are rebuilt exactly. */
  lemma {:induction false} CodeRebuilt(mk: MasterKey, p: Params, rows: seq<Equation>, file: seq<Bytes>,
                                       ef: EncodedFile, aug: seq<seq<int>>, sol: seq<int>,
                                       recovered: seq<Option<Bytes>>)
    requires Retrievability.ValidParams(p) && ValidMaster(mk, p)
    requires WitnessedFile(mk, p, rows, file, ef)
    requires MatrixFor(rows, aug, |ef.blocks|, p.inner) && |ef.blocks| > 0
    requires forall x: seq<int> | IsVector(x, |ef.blocks|, p.inner.p) && Solves(aug, x, |ef.blocks|, p.inner.p) ::
               x == sol
    requires IsVector(sol, |ef.blocks|, p.inner.p) && |recovered| == |sol|
    requires forall i | 0 <= i < |sol| :: recovered[i] == Some(FixedBytes(sol[i], |ef.blocks[0]|))
    ensures recovered == Stored(ef.blocks)
  {
    hide Solves, IsSentinels, SetBytes, FixedBytes, Pow, HonestEquation, MatrixFor, ParityTotal, EncryptedParity;
    TrueSolution(rows, aug, ef.blocks, p.inner);
    forall i | 0 <= i < |sol| ensures recovered[i] == Some(ef.blocks[i]) {
      CodeBlockSize(mk.outer, file, p.outerN, p.outerK, ef.blocks, i);
      CodeBlockSize(mk.outer, file, p.outerN, p.outerK, ef.blocks, 0);
      ElementBlock(ef.blocks[i], p.inner.p);
    }
  }

  /** From the rebuilt blocks Phase II recovers the file: nothing is missing, so no stripe is. */
  lemma {:induction false} FileExtracted(mk: MasterKey, p: Params, rows: seq<Equation>, file: seq<Bytes>,
                                         ef: EncodedFile, aug: seq<seq<int>>, sol: seq<int>,
                                         recovered: seq<Option<Bytes>>, result: Extraction)
    requires Retrievability.ValidParams(p) && ValidMaster(mk, p)
    requires WitnessedFile(mk, p, rows, file, ef)
    requires MatrixFor(rows, aug, |ef.blocks|, p.inner) && |ef.blocks| > 0
    requires forall x: seq<int> | IsVector(x, |ef.blocks|, p.inner.p) && Solves(aug, x, |ef.blocks|, p.inner.p) ::
               x == sol
    requires IsVector(sol, |ef.blocks|, p.inner.p) && |recovered| == |sol|
    requires forall i | 0 <= i < |sol| :: recovered[i] == Some(FixedBytes(sol[i], |ef.blocks[0]|))
    requires IsExtraction(mk, p.(alpha := 0), recovered, ef.numMessage, ef.sentinels, ef.fileMac, result)
    ensures result == Recovered(file)
  {
    hide Solves, HonestEquation, MatrixFor, IsCodeword, ParityOf, ParityTotal, Recoverable, IsSentinels, IsExtraction;
    hide EncryptedParity;
    CodeRebuilt(mk, p, rows, file, ef, aug, sol, recovered);
    var q := p.(alpha := 0);
    SameSentinels(mk, p, q, ef.blocks, ef.sentinels);
    ExtractionExact(mk, q, file, ef, recovered, [], result);
    AllPresentRecoverable(mk.outer, file, p.outerN, p.outerK, ef.blocks);
  }

  lemma {:induction false} SameSentinels(mk: MasterKey, p: Params, q: Params, code: seq<Bytes>, sentinels: seq<Bytes>)
    requires Retrievability.ValidParams(p) && ValidMaster(mk, p)
    requires p.inner.v <= |code| && IsSentinels(mk, p, code, p.q, sentinels)
    requires q == p.(alpha := 0)
    ensures ValidMaster(mk, q) && IsSentinels(mk, q, code, q.q, sentinels)
  {
    hide Response, MToBytes;
    forall j | 1 <= j <= q.q ensures sentinels[j - 1] == mk.seal(j, MToBytes(TrueResponse(mk, q, code, j), q.inner.p)) {
      assert TrueResponse(mk, q, code, j) == TrueResponse(mk, p, code, j);
    }
  }
}
