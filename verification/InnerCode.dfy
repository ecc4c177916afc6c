/** The inner code of the Bowers-Juels-Oprea scheme: responses that combine v blocks, and solving for the blocks. */
module InnerCode {
  import opened ModArith
  import opened NumberTheory
  import opened LinearSystems
  import opened SparseRows
  import opened Pigeonhole
  import opened Gauss
  import opened ByteNumbers
  import opened Options

  /** Message length v, codeword length w, modulus p, and the public PRF that fills the generator matrix. */
  datatype InnerParams = InnerParams(v: nat, w: nat, p: int, gen: (nat, nat) -> nat)

  /** Entry (row, u) of the generator matrix, both from 1. */
  function Element(ip: InnerParams, row: nat, u: nat): (r: int)
    requires ip.p > 0
    ensures 0 <= r < ip.p
  {
    ip.gen(u, row) % ip.p
  }

  /** Column u of the generator matrix. */
  function GenColumn(ip: InnerParams, u: nat): (r: seq<int>)
    requires ip.p > 0
    ensures |r| == ip.v && forall k | 0 <= k < ip.v :: r[k] == Element(ip, k + 1, u)
  {
    seq(ip.v, k requires 0 <= k < ip.v => Element(ip, k + 1, u))
  }

  predicate Present(blocks: seq<Option<Bytes>>, indices: seq<int>) {
    forall k | 0 <= k < |indices| :: 0 <= indices[k] < |blocks| && blocks[indices[k]].Some?
  }

  /** The challenged blocks as field elements. */
  function FieldElements(blocks: seq<Option<Bytes>>, indices: seq<int>, P: int): (x: seq<int>)
    requires P > 0 && Present(blocks, indices)
    ensures |x| == |indices|
    ensures forall k | 0 <= k < |x| :: x[k] == SetBytes(blocks[indices[k]].value) % P
  {
    seq(|indices|, k requires 0 <= k < |indices| => SetBytes(blocks[indices[k]].value) % P)
  }

  /** The combination of the challenged blocks with column u. */
  function Response(ip: InnerParams, blocks: seq<Option<Bytes>>, indices: seq<int>, u: nat): (r: int)
    requires ip.p > 0 && Present(blocks, indices) && |indices| == ip.v
    ensures 0 <= r < ip.p
  {
    Dot(FieldElements(blocks, indices, ip.p), GenColumn(ip, u), ip.v) % ip.p
  }

  lemma {:induction false} ResponseStep(x: seq<int>, g: seq<int>, k: nat, P: int)
    requires P > 0 && k < |x| && k < |g|
    ensures (Dot(x, g, k) % P + x[k] * g[k]) % P == Dot(x, g, k + 1) % P
  {
    ModMod(Dot(x, g, k), P);
    ModAdd(Dot(x, g, k) % P, Dot(x, g, k), x[k] * g[k], x[k] * g[k], P);
  }

  /** innerResponse: an error for a missing block, never a zero in its place. */
  method InnerResponse(ip: InnerParams, blocks: seq<Option<Bytes>>, indices: seq<int>, u: nat) returns (r: Option<int>)
    requires ip.p > 0 && |indices| == ip.v
    requires forall k | 0 <= k < |indices| :: 0 <= indices[k] < |blocks|
    ensures r.Some? <==> Present(blocks, indices)
    ensures r.Some? ==> r.value == Response(ip, blocks, indices, u)
  {
    hide Dot, SetBytes, Element;
    var M := 0;
    ghost var fs: seq<int>, gs: seq<int> := [], [];
    ModSmall(0, ip.p);
    DotEmpty(fs, gs);
    for pos := 0 to |indices|
      invariant |fs| == |gs| == pos && M == Dot(fs, gs, pos) % ip.p
      invariant forall k | 0 <= k < pos :: blocks[indices[k]].Some?
      invariant forall k | 0 <= k < pos ::
                  fs[k] == SetBytes(blocks[indices[k]].value) % ip.p && gs[k] == Element(ip, k + 1, u)
    {
      var data := blocks[indices[pos]];
      if data.None? { return None; }
      var Fi := SetBytes(data.value) % ip.p;
      var Gsu := Element(ip, pos + 1, u);
      ResponseStep(fs + [Fi], gs + [Gsu], pos, ip.p);
      DotPrefix(fs, fs + [Fi], gs, pos);
      DotSameRight(fs + [Fi], gs, gs + [Gsu], pos);
      fs, gs := fs + [Fi], gs + [Gsu];
      M := (M + Fi * Gsu) % ip.p;
    }
    assert fs == FieldElements(blocks, indices, ip.p) && gs == GenColumn(ip, u);
    return Some(M);
  }

  /** What one block contributes: with another block in its place the response is the same if and only if the difference
      of the two, times the entry of the generator matrix for its place and the column, vanishes modulo p. */
  lemma {:induction false} ChangedBlock(ip: InnerParams, blocks: seq<Option<Bytes>>, indices: seq<int>, u: nat, k: nat,
                                        b: Bytes)
    requires ip.p > 0 && Present(blocks, indices) && |indices| == ip.v && Distinct(indices) && k < ip.v
    ensures Present(blocks[indices[k] := Some(b)], indices)
    ensures Response(ip, blocks[indices[k] := Some(b)], indices, u) == Response(ip, blocks, indices, u)
            <==> ((SetBytes(blocks[indices[k]].value) - SetBytes(b)) * ip.gen(u, k + 1)) % ip.p == 0
  {
    hide Dot, SetBytes, GenColumn;
    var P, blocks' := ip.p, blocks[indices[k] := Some(b)];
    forall j | 0 <= j < |indices| ensures 0 <= indices[j] < |blocks'| && blocks'[indices[j]].Some? {
      assert blocks[indices[j]].Some?;
    }
    var x, x', g := FieldElements(blocks, indices, P), FieldElements(blocks', indices, P), GenColumn(ip, u);
    var a := SetBytes(blocks[indices[k]].value);
    forall j | 0 <= j < ip.v && j != k ensures x'[j] == x[j] {
      assert indices[j] != indices[k];
    }
    assert x' == x[k := SetBytes(b) % P];
    DotUpdate(x, k, SetBytes(b) % P, g, ip.v);
    var d := Dot(x, g, ip.v);
    var e := (SetBytes(b) % P - a % P) * g[k];
    ElementValue(ip, k + 1, u);
    DifferenceReduced(a, SetBytes(b), ip.gen(u, k + 1), P);
    if (d + e) % P == d % P {
      ModAdd(d + e, d, d, d, P);
    } else if e % P == 0 {
      ModSmall(0, P);
      ModAdd(d, d, e, 0, P);
    }
    ModSmall(0, P);
  }

  lemma {:induction false} ElementValue(ip: InnerParams, row: nat, u: nat)
    requires ip.p > 0
    ensures Element(ip, row, u) == ip.gen(u, row) % ip.p
  {
  }

  lemma {:induction false} DifferenceReduced(a: int, b: int, g: int, P: int)
    requires P > 0
    ensures ((b % P - a % P) * (g % P)) % P == 0 <==> ((a - b) * g) % P == 0
  {
    ModMod(a, P);
    ModMod(b, P);
    ModMod(g, P);
    ModAdd(b % P, b, a % P, a, P);
    ModMul(b % P - a % P, b - a, g % P, g, P);
    ModSmall(0, P);
    assert (b - a) * g == -((a - b) * g);
    ModAdd(0, 0, (b - a) * g, (b - a) * g, P);
    if ((b - a) * g) % P == 0 {
      ModAdd(0, 0, (b - a) * g, 0, P);
    }
    if ((a - b) * g) % P == 0 {
      ModAdd(0, 0, (a - b) * g, 0, P);
    }
  }

  lemma {:induction false} DotSwap(a: seq<int>, z: seq<int>, n: nat)
    requires n <= |a| && n <= |z|
    ensures Dot(a, z, n) == Dot(z, a, n)
  {
    if n > 0 { DotSwap(a, z, n - 1); }
  }

  // ------------------------------------------------------------------ fixed-length encoding

  /** mToBytes: a residue in as many bytes as the modulus needs. */
  function MToBytes(M: nat, P: nat): (r: Bytes)
    ensures |r| == (BitLen(P) + 7) / 8
  {
    FixedBytes(M, (BitLen(P) + 7) / 8)
  }

  /** It loses nothing, so equal encodings mean equal residues. */
  lemma {:induction false} MToBytesRoundTrip(M: nat, P: nat)
    requires M < P
    ensures SetBytes(MToBytes(M, P)) == M
  {
    hide Pow, SetBytes, FixedBytes, BitLen;
    ByteLengthHolds(P);
    FixedBytesValue(M, (BitLen(P) + 7) / 8);
  }

  // ------------------------------------------------------------------ solving for the blocks

  /** The coefficients of the first v responses. */
  function GenMatrix(ip: InnerParams): (A: seq<seq<int>>)
    requires ip.p > 0
    ensures |A| == ip.v
    ensures forall i | 0 <= i < ip.v :: A[i] == GenColumn(ip, i + 1) + [0]
  {
    seq(ip.v, i requires 0 <= i < ip.v => GenColumn(ip, i + 1) + [0])
  }

  /** The public matrix is singular if and only if some non-zero combination of rows vanishes in each of the first v
      columns. */
  lemma {:induction false} SingularMeans(ip: InnerParams, g: seq<seq<nat>>)
    requires ip.p > 0 && |g| == ip.v
    requires forall u | 0 <= u < ip.v :: |g[u]| == ip.v && forall k | 0 <= k < ip.v :: g[u][k] == ip.gen(u + 1, k + 1)
    ensures HasKernel(GenMatrix(ip), ip.v, ip.p) <==>
            exists y: seq<int> ::
              && |y| == ip.v && (forall k | 0 <= k < ip.v :: 0 <= y[k] < ip.p)
              && (exists k :: 0 <= k < ip.v && y[k] != 0)
              && forall u | 0 <= u < ip.v :: Dot(g[u], y, ip.v) % ip.p == 0
  {
    hide Dot;
    forall y: seq<int> | |y| == ip.v
      ensures InKernel(GenMatrix(ip), y, ip.v, ip.p) <==> forall u | 0 <= u < ip.v :: Dot(g[u], y, ip.v) % ip.p == 0
    {
      KernelMeans(GenMatrix(ip), y, ip.v, ip.p);
      forall u | 0 <= u < ip.v ensures Dot(GenMatrix(ip)[u], y, ip.v) % ip.p == Dot(g[u], y, ip.v) % ip.p {
        DotReduced(GenMatrix(ip)[u], g[u], y, ip.v, ip.p);
      }
    }
  }

  /** The first v responses are those of x. */
  ghost predicate Explains(ip: InnerParams, x: seq<int>, responses: seq<int>)
    requires ip.p > 0
  {
    |x| == ip.v <= |responses|
        && forall i | 0 <= i < ip.v :: Dot(x, GenColumn(ip, i + 1), ip.v) % ip.p == responses[i] % ip.p
  }

  /** solveInnerCode: fails with too few responses or a singular matrix, otherwise finds the only x they can come
      from. */
  method SolveInnerCode(ip: InnerParams, responses: seq<int>) returns (r: Option<seq<int>>)
    requires IsPrime(ip.p)
    ensures r.None? <==> |responses| < ip.v || HasKernel(GenMatrix(ip), ip.v, ip.p)
    ensures r.Some? ==> IsVector(r.value, ip.v, ip.p)
    ensures r.Some? ==> forall x: seq<int> | IsVector(x, ip.v, ip.p) && Explains(ip, x, responses) :: x == r.value
  {
    hide HasKernel, Explains, Solves, Element;
    if |responses| < ip.v { return None; }
    var A := new seq<int>[ip.v];
    for i := 0 to ip.v
      invariant forall k | 0 <= k < i :: A[k] == GenColumn(ip, k + 1) + [responses[k]]
    {
      var row := [];
      for col := 0 to ip.v
        invariant |row| == col && forall k | 0 <= k < col :: row[k] == Element(ip, k + 1, i + 1)
      {
        row := row + [Element(ip, col + 1, i + 1)];
      }
      assert row == GenColumn(ip, i + 1);
      A[i] := row + [responses[i]];
    }
    ghost var rows := A[..];
    SystemReduced(ip, rows, responses);
    r := SolveSquare(A, ip.v, ip.p);
    if r.Some? {
      forall x: seq<int> | IsVector(x, ip.v, ip.p) && Explains(ip, x, responses) ensures x == r.value {
        ExplanationSolves(ip, rows, responses, x);
      }
    }
  }

  lemma {:induction false} SystemReduced(ip: InnerParams, rows: seq<seq<int>>, responses: seq<int>)
    requires ip.p > 0 && ip.v <= |responses| && |rows| == ip.v
    requires forall i | 0 <= i < ip.v :: rows[i] == GenColumn(ip, i + 1) + [responses[i]]
    ensures Reduced(rows, ip.v, ip.p)
    ensures HasKernel(rows, ip.v, ip.p) <==> HasKernel(GenMatrix(ip), ip.v, ip.p)
  {
    hide HasKernel, Element;
    KernelIgnoresRightSide(rows, GenMatrix(ip), ip.v, ip.p);
    KernelIgnoresRightSide(GenMatrix(ip), rows, ip.v, ip.p);
  }

  lemma {:induction false} ExplanationSolves(ip: InnerParams, rows: seq<seq<int>>, responses: seq<int>, x: seq<int>)
    requires ip.p > 0 && |rows| == ip.v && |responses| >= ip.v
    requires forall i | 0 <= i < ip.v :: rows[i] == GenColumn(ip, i + 1) + [responses[i]]
    requires Explains(ip, x, responses)
    ensures Solves(rows, x, ip.v, ip.p)
  {
    hide Dot, Element;
    var v, z := ip.v, x + [-1];
    forall i | 0 <= i < v ensures PaddedRows(rows, v)[i] == rows[i] && Dot(rows[i], z, |z|) % ip.p == 0 {
      var g := GenColumn(ip, i + 1);
      assert Padded(rows[i], v) == rows[i];
      DotStep(rows[i], z, v + 1);
      DotPrefix(rows[i], g, z, v);
      DotSameRight(g, z, x, v);
      DotSwap(g, x, v);
      assert rows[i][v] * z[v] == -responses[i];
      ModAdd(Dot(x, g, v), responses[i], responses[i], responses[i], ip.p);
      ModSmall(0, ip.p);
    }
  }

  /** The blocks themselves explain the responses computed from them. */
  lemma {:induction false} BlocksExplain(ip: InnerParams, blocks: seq<Option<Bytes>>, indices: seq<int>,
                                         responses: seq<int>)
    requires ip.p > 0 && Present(blocks, indices) && |indices| == ip.v <= |responses|
    requires forall i | 0 <= i < ip.v :: responses[i] == Response(ip, blocks, indices, i + 1)
    ensures var x := FieldElements(blocks, indices, ip.p); IsVector(x, ip.v, ip.p) && Explains(ip, x, responses)
  {
    hide Dot, SetBytes;
    forall i | 0 <= i < ip.v
      ensures Dot(FieldElements(blocks, indices, ip.p), GenColumn(ip, i + 1), ip.v) % ip.p == responses[i] % ip.p {
      ModMod(Dot(FieldElements(blocks, indices, ip.p), GenColumn(ip, i + 1), ip.v), ip.p);
    }
  }
}
