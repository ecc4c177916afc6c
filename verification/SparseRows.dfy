/** Matrix rows that come from a challenge: a few coefficients, each in the column of its position. */
module SparseRows {
  import opened LinearSystems
  import opened Gauss
  import opened Pigeonhole

  /** The first t coefficients, each in the column of its position, and one more column for the right-hand side. */
  function Scatter(indices: seq<nat>, coeffs: seq<int>, t: nat, n: nat): (r: seq<int>)
    requires |coeffs| == |indices| && t <= |indices|
    requires forall u | 0 <= u < |indices| :: indices[u] < n
    ensures |r| == n + 1
  {
    if t == 0 then seq(n + 1, _ => 0) else Scatter(indices, coeffs, t - 1, n)[indices[t - 1] := coeffs[t - 1]]
  }

  /** The entries of x at the given positions. */
  function Gather(x: seq<int>, indices: seq<nat>): (r: seq<int>)
    requires forall t | 0 <= t < |indices| :: indices[t] < |x|
    ensures |r| == |indices| && forall t | 0 <= t < |r| :: r[t] == x[indices[t]]
  {
    seq(|indices|, t requires 0 <= t < |indices| => x[indices[t]])
  }

  lemma {:induction false} ScatterEntries(indices: seq<nat>, coeffs: seq<int>, t: nat, n: nat, P: int, i: nat)
    requires |coeffs| == |indices| && t <= |indices|
    requires forall u | 0 <= u < |indices| :: indices[u] < n
    requires i <= n && P > 0 && forall u | 0 <= u < |coeffs| :: 0 <= coeffs[u] < P
    ensures 0 <= Scatter(indices, coeffs, t, n)[i] < P
    ensures i !in indices[..t] ==> Scatter(indices, coeffs, t, n)[i] == 0
  {
    if t > 0 {
      ScatterEntries(indices, coeffs, t - 1, n, P, i);
      assert indices[..t] == indices[..t - 1] + [indices[t - 1]];
    }
  }

  lemma {:induction false} DotUpdate(row: seq<int>, i: nat, v: int, z: seq<int>, n: nat)
    requires i < |row| && n <= |row| && n <= |z|
    ensures Dot(row[i := v], z, n) == Dot(row, z, n) + if i < n then (v - row[i]) * z[i] else 0
  {
    if n > 0 {
      DotUpdate(row, i, v, z, n - 1);
      if i == n - 1 {
        assert v * z[i] == row[i] * z[i] + (v - row[i]) * z[i];
      }
    }
  }

  /** The scattered row against x is the sum over the challenged entries of x. */
  lemma {:induction false} ScatterDot(indices: seq<nat>, coeffs: seq<int>, t: nat, n: nat, P: int, x: seq<int>)
    requires |coeffs| == |indices| && t <= |indices|
    requires forall u | 0 <= u < |indices| :: indices[u] < n
    requires Distinct(indices) && |x| >= n && P > 0
    requires forall u | 0 <= u < |coeffs| :: 0 <= coeffs[u] < P
    ensures Dot(Scatter(indices, coeffs, t, n), x, n) == Dot(Gather(x, indices), coeffs, t)
  {
    if t == 0 {
      DotSparse(Scatter(indices, coeffs, 0, n), x, n, -1, -2);
    } else {
      var i, c := indices[t - 1], coeffs[t - 1];
      ScatterDot(indices, coeffs, t - 1, n, P, x);
      ScatterEntries(indices, coeffs, t - 1, n, P, i);
      DotUpdate(Scatter(indices, coeffs, t - 1, n), i, c, x, n);
      assert (c - 0) * x[i] == x[i] * c;
    }
  }

  /** A kernel vector does not see the right-hand sides. */
  lemma {:induction false} KernelIgnoresRightSide(a: seq<seq<int>>, b: seq<seq<int>>, n: nat, P: int)
    requires P > 0 && |a| == |b|
    requires forall r | 0 <= r < |a| :: |a[r]| == |b[r]| == n + 1 && forall i | 0 <= i < n :: a[r][i] == b[r][i]
    ensures HasKernel(a, n, P) ==> HasKernel(b, n, P)
  {
    hide Dot;
    if HasKernel(a, n, P) {
      var y: seq<int> :| IsVector(y, n, P) && NonZero(y) && InKernel(a, y, n, P);
      var z := y + [0];
      forall r | 0 <= r < |b| ensures Dot(Padded(b[r], n), z, |z|) % P == 0 {
        DotPrefix(Padded(a[r], n), Padded(b[r], n), z, n);
        DotStep(Padded(a[r], n), z, n + 1);
        DotStep(Padded(b[r], n), z, n + 1);
        assert Padded(a[r], n)[n] * z[n] == 0 == Padded(b[r], n)[n] * z[n];
        assert PaddedRows(a, n)[r] == Padded(a[r], n);
      }
      assert InKernel(b, y, n, P);
    }
  }

  /** A kernel vector is orthogonal to the coefficients of every row. */
  lemma {:induction false} KernelMeans(rows: seq<seq<int>>, y: seq<int>, n: nat, P: int)
    requires P > 0 && |y| == n && forall r | 0 <= r < |rows| :: |rows[r]| == n + 1
    ensures InKernel(rows, y, n, P) <==> forall r | 0 <= r < |rows| :: Dot(rows[r], y, n) % P == 0
  {
    hide Dot;
    var z := y + [0];
    forall r | 0 <= r < |rows| ensures PaddedRows(rows, n)[r] == rows[r] && Dot(rows[r], z, |z|) == Dot(rows[r], y, n) {
      assert Padded(rows[r], n) == rows[r];
      DotStep(rows[r], z, n + 1);
      DotSameRight(rows[r], z, y, n);
    }
  }

  lemma {:induction false} DotSameRight(a: seq<int>, z: seq<int>, z': seq<int>, n: nat)
    requires n <= |a| && n <= |z| && n <= |z'| && forall i | 0 <= i < n :: z[i] == z'[i]
    ensures Dot(a, z, n) == Dot(a, z', n)
  {
    if n > 0 { DotSameRight(a, z, z', n - 1); }
  }

  /** There is a kernel vector if and only if some non-zero vector of residues is orthogonal to every row. */
  lemma {:induction false} HasKernelMeans(rows: seq<seq<int>>, n: nat, P: int)
    requires P > 0 && forall r | 0 <= r < |rows| :: |rows[r]| == n + 1
    ensures HasKernel(rows, n, P) <==>
            exists y: seq<int> ::
              && |y| == n && (forall j | 0 <= j < n :: 0 <= y[j] < P) && (exists j :: 0 <= j < n && y[j] != 0)
              && forall r | 0 <= r < |rows| :: Dot(rows[r], y, n) % P == 0
  {
    hide Dot, InKernel;
    forall y: seq<int> | |y| == n
      ensures InKernel(rows, y, n, P) <==> forall r | 0 <= r < |rows| :: Dot(rows[r], y, n) % P == 0
    {
      KernelMeans(rows, y, n, P);
    }
  }
}
