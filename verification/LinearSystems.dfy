/** Linear systems modulo P: inner products, and what the row operations of Gauss-Jordan elimination preserve. */
module LinearSystems {
  import opened ModArith
  import opened NumberTheory
  import opened Options

  // ------------------------------------------------------------------ inner products

  /** The inner product of the first n entries. */
  function Dot(row: seq<int>, z: seq<int>, n: nat): int
    requires n <= |row| && n <= |z|
  {
    if n == 0 then 0 else Dot(row, z, n - 1) + row[n - 1] * z[n - 1]
  }

  lemma {:induction false} DotEmpty(x: seq<int>, g: seq<int>)
    ensures Dot(x, g, 0) == 0
  {
  }

  lemma {:induction false} DotStep(row: seq<int>, z: seq<int>, n: nat)
    requires 0 < n <= |row| && n <= |z|
    ensures Dot(row, z, n) == Dot(row, z, n - 1) + row[n - 1] * z[n - 1]
  {
  }

  /** Modulo P, inner products respect linear combinations of rows. */
  lemma {:induction false} DotCombine(out: seq<int>, a: seq<int>, b: seq<int>, e: int, f: int, z: seq<int>, n: nat,
                                      P: int)
    requires P > 0 && n <= |out| && n <= |a| && n <= |b| && n <= |z|
    requires forall j | 0 <= j < n :: out[j] % P == (e * a[j] + f * b[j]) % P
    ensures Dot(out, z, n) % P == (e * Dot(a, z, n) + f * Dot(b, z, n)) % P
  {
    if n > 0 {
      var o, x, y, w := out[n - 1], a[n - 1], b[n - 1], z[n - 1];
      DotCombine(out, a, b, e, f, z, n - 1, P);
      ModMul(o, e * x + f * y, w, w, P);
      ModAdd(Dot(out, z, n - 1), e * Dot(a, z, n - 1) + f * Dot(b, z, n - 1), o * w, (e * x + f * y) * w, P);
      Distribute(e, f, Dot(a, z, n - 1), Dot(b, z, n - 1), x, y, w);
    } else {
      assert e * 0 + f * 0 == 0;
    }
  }

  /** Reduced coefficients give the same inner product modulo P. */
  lemma {:induction false} DotReduced(a: seq<int>, b: seq<int>, z: seq<int>, n: nat, P: int)
    requires P > 0 && n <= |a| && n <= |b| && n <= |z| && forall j | 0 <= j < n :: a[j] == b[j] % P
    ensures Dot(a, z, n) % P == Dot(b, z, n) % P
  {
    if n > 0 {
      DotReduced(a, b, z, n - 1, P);
      ModMod(b[n - 1], P);
      ModMul(a[n - 1], b[n - 1], z[n - 1], z[n - 1], P);
      ModAdd(Dot(a, z, n - 1), Dot(b, z, n - 1), a[n - 1] * z[n - 1], b[n - 1] * z[n - 1], P);
    }
  }

  lemma {:induction false} Distribute(e: int, f: int, s: int, t: int, x: int, y: int, w: int)
    ensures (e * s + f * t) + (e * x + f * y) * w == e * (s + x * w) + f * (t + y * w)
  {
    assert (e * x + f * y) * w == e * (x * w) + f * (y * w);
    assert e * (s + x * w) == e * s + e * (x * w);
    assert f * (t + y * w) == f * t + f * (y * w);
  }

  lemma {:induction false} DotPrefix(a: seq<int>, b: seq<int>, z: seq<int>, n: nat)
    requires n <= |a| && n <= |b| && n <= |z| && forall i | 0 <= i < n :: a[i] == b[i]
    ensures Dot(a, z, n) == Dot(b, z, n)
  {
    if n > 0 { DotPrefix(a, b, z, n - 1); }
  }

  function Term(row: seq<int>, z: seq<int>, n: nat, i: int): int
    requires n <= |row| && n <= |z|
  {
    if 0 <= i < n then row[i] * z[i] else 0
  }

  /** An inner product with at most two non-zero terms. */
  lemma {:induction false} DotSparse(row: seq<int>, z: seq<int>, n: nat, i: int, k: int)
    requires n <= |row| && n <= |z| && i != k
    requires forall j | 0 <= j < n && j != i && j != k :: row[j] == 0 || z[j] == 0
    ensures Dot(row, z, n) == Term(row, z, n, i) + Term(row, z, n, k)
  {
    if n > 0 {
      DotSparse(row, z, n - 1, i, k);
    }
  }

  // ------------------------------------------------------------------ null vectors

  /** z is orthogonal to every row modulo P. */
  ghost predicate Null(rows: seq<seq<int>>, z: seq<int>, P: int) {
    P > 0 && forall r | 0 <= r < |rows| :: |rows[r]| == |z| && Dot(rows[r], z, |z|) % P == 0
  }

  ghost predicate SameNull(rows: seq<seq<int>>, rows': seq<seq<int>>, N: nat, P: int) {
    forall z: seq<int> | |z| == N + 1 :: Null(rows, z, P) <==> Null(rows', z, P)
  }

  lemma {:induction false} SameNullTrans(a: seq<seq<int>>, b: seq<seq<int>>, c: seq<seq<int>>, N: nat, P: int)
    requires SameNull(a, b, N, P) && SameNull(b, c, N, P)
    ensures SameNull(a, c, N, P)
  {
    forall z: seq<int> | |z| == N + 1 ensures Null(a, z, P) <==> Null(c, z, P) {
      assert Null(a, z, P) <==> Null(b, z, P);
    }
  }

  // ------------------------------------------------------------------ the three row operations

  /** All rows have N coefficients, reduced modulo P, and a right-hand side. */
  ghost predicate Reduced(rows: seq<seq<int>>, N: nat, P: int) {
    forall r | 0 <= r < |rows| :: |rows[r]| == N + 1 && forall j | 0 <= j < N :: 0 <= rows[r][j] < P
  }

  function Swapped(rows: seq<seq<int>>, i: nat, k: nat): (r: seq<seq<int>>)
    requires i < |rows| && k < |rows|
    ensures |r| == |rows|
  {
    rows[i := rows[k]][k := rows[i]]
  }

  /** The row times a constant, from column c on. */
  function Scaled(row: seq<int>, c: nat, inv: int, P: int): (r: seq<int>)
    requires P > 0
    ensures |r| == |row|
    ensures forall j | 0 <= j < |r| :: r[j] == if j < c then row[j] else (row[j] * inv) % P
  {
    seq(|row|, j requires 0 <= j < |row| => if j < c then row[j] else (row[j] * inv) % P)
  }

  /** The row minus a multiple of the pivot row, from column c on. */
  function Eliminated(row: seq<int>, pivot: seq<int>, c: nat, factor: int, P: int): (r: seq<int>)
    requires P > 0 && |pivot| == |row|
    ensures |r| == |row|
    ensures forall j | 0 <= j < |r| :: r[j] == if j < c then row[j] else (row[j] - factor * pivot[j]) % P
  {
    seq(|row|, j requires 0 <= j < |row| => if j < c then row[j] else (row[j] - factor * pivot[j]) % P)
  }

  /** Row r once column c is cleared by row p; a row with nothing to clear stays as it is. */
  function ClearedRow(rows: seq<seq<int>>, p: nat, c: nat, P: int, r: nat): seq<int>
    requires P > 0 && p < |rows| && r < |rows| && c < |rows[r]|
    requires |rows[p]| == |rows[r]|
  {
    if r == p || rows[r][c] == 0 then rows[r] else Eliminated(rows[r], rows[p], c, rows[r][c], P)
  }

  ghost predicate Cleared(rows: seq<seq<int>>, p: nat, c: nat, N: nat, P: int, rows': seq<seq<int>>)
    requires P > 0 && p < |rows| && c < N && Reduced(rows, N, P)
  {
    |rows'| == |rows| && forall r | 0 <= r < |rows| :: rows'[r] == ClearedRow(rows, p, c, P, r)
  }

  lemma {:induction false} SwapNull(rows: seq<seq<int>>, i: nat, k: nat, N: nat, P: int)
    requires i < |rows| && k < |rows|
    ensures SameNull(rows, Swapped(rows, i, k), N, P)
  {
    hide Dot;
    var rows' := Swapped(rows, i, k);
    forall z: seq<int> | |z| == N + 1 ensures Null(rows, z, P) <==> Null(rows', z, P) {
      if Null(rows', z, P) {
        forall r | 0 <= r < |rows| ensures |rows[r]| == |z| && Dot(rows[r], z, |z|) % P == 0 {
          var s := if r == i then k else if r == k then i else r;
          assert rows[r] == rows'[s];
        }
      }
    }
  }

  /** Zero before column c, so scaling from column c on scales the whole row. */
  lemma {:induction false} ScaleRow(row: seq<int>, c: nat, inv: int, P: int, z: seq<int>)
    requires P > 0 && c <= |row| == |z| && forall j | 0 <= j < c :: row[j] == 0
    ensures Dot(Scaled(row, c, inv, P), z, |z|) % P == (inv * Dot(row, z, |z|)) % P
  {
    hide Dot;
    var out := Scaled(row, c, inv, P);
    forall j | 0 <= j < |z| ensures out[j] % P == (inv * row[j] + 0 * row[j]) % P {
      assert row[j] * inv == inv * row[j] && 0 * row[j] == 0;
      if j < c { assert inv * 0 == 0; } else { ModMod(row[j] * inv, P); }
    }
    DotCombine(out, row, row, inv, 0, z, |z|, P);
    assert 0 * Dot(row, z, |z|) == 0;
  }

  lemma {:induction false} ScaleNull(rows: seq<seq<int>>, p: nat, c: nat, inv: int, N: nat, P: int)
    requires P > 1 && p < |rows| && |rows[p]| == N + 1 && c < N
    requires forall j | 0 <= j < c :: rows[p][j] == 0
    requires (rows[p][c] * inv) % P == 1
    ensures SameNull(rows, rows[p := Scaled(rows[p], c, inv, P)], N, P)
  {
    hide Dot;
    var rows' := rows[p := Scaled(rows[p], c, inv, P)];
    forall z: seq<int> | |z| == N + 1 ensures Null(rows, z, P) <==> Null(rows', z, P) {
      var d := Dot(rows[p], z, |z|);
      ScaleRow(rows[p], c, inv, P, z);
      ScaledZero(d, inv, rows[p][c], P);
      if Null(rows', z, P) {
        forall r | 0 <= r < |rows| ensures |rows[r]| == |z| && Dot(rows[r], z, |z|) % P == 0 {
          assert |rows'[r]| == |z| && Dot(rows'[r], z, |z|) % P == 0;
        }
      }
    }
  }

  lemma {:induction false} ScaledZero(d: int, inv: int, x: int, P: int)
    requires P > 1 && (x * inv) % P == 1
    ensures d % P == 0 <==> (inv * d) % P == 0
  {
    ModSmall(0, P);
    ModSmall(1, P);
    if d % P == 0 {
      ModMul(inv, inv, d, 0, P);
      assert inv * 0 == 0;
    }
    if (inv * d) % P == 0 {
      ModMul(x, x, inv * d, 0, P);
      ModMul(x * inv, 1, d, d, P);
      assert x * 0 == 0 && x * (inv * d) == (x * inv) * d && 1 * d == d;
    }
  }

  lemma {:induction false} EliminateRow(row: seq<int>, pivot: seq<int>, c: nat, factor: int, P: int, z: seq<int>)
    requires P > 0 && c <= |row| == |pivot| == |z|
    requires forall j | 0 <= j < c :: pivot[j] == 0
    requires Dot(pivot, z, |z|) % P == 0
    ensures Dot(Eliminated(row, pivot, c, factor, P), z, |z|) % P == Dot(row, z, |z|) % P
  {
    hide Dot;
    var out := Eliminated(row, pivot, c, factor, P);
    forall j | 0 <= j < |z| ensures out[j] % P == (1 * row[j] + (-factor) * pivot[j]) % P {
      assert row[j] - factor * pivot[j] == 1 * row[j] + (-factor) * pivot[j];
      if j < c { assert (-factor) * 0 == 0; } else { ModMod(row[j] - factor * pivot[j], P); }
    }
    DotCombine(out, row, pivot, 1, -factor, z, |z|, P);
    ModMul(-factor, -factor, Dot(pivot, z, |z|), 0, P);
    assert (-factor) * 0 == 0;
    ModAdd(1 * Dot(row, z, |z|), Dot(row, z, |z|), (-factor) * Dot(pivot, z, |z|), 0, P);
  }

  lemma {:induction false} ClearNull(rows: seq<seq<int>>, p: nat, c: nat, N: nat, P: int, rows': seq<seq<int>>)
    requires P > 1 && p < |rows| && c < N && Reduced(rows, N, P)
    requires forall j | 0 <= j < c :: rows[p][j] == 0
    requires Cleared(rows, p, c, N, P, rows')
    ensures SameNull(rows, rows', N, P)
  {
    hide Dot, Eliminated;
    forall z: seq<int> | |z| == N + 1 ensures Null(rows, z, P) <==> Null(rows', z, P) {
      assert rows'[p] == rows[p];
      if Dot(rows[p], z, |z|) % P == 0 {
        forall r | 0 <= r < |rows|
          ensures |rows'[r]| == |rows[r]| && Dot(rows'[r], z, |z|) % P == Dot(rows[r], z, |z|) % P
        {
          assert rows'[r] == ClearedRow(rows, p, c, P, r);
          if r != p && rows[r][c] != 0 {
            EliminateRow(rows[r], rows[p], c, rows[r][c], P, z);
          }
        }
      }
    }
  }
}
