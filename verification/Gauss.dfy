/** Gauss-Jordan elimination modulo a prime: a solution that every solution equals, or a non-zero kernel vector. */
module Gauss {
  import opened ModArith
  import opened NumberTheory
  import opened LinearSystems
  import opened Options

  // ------------------------------------------------------------------ what is solved

  /** A row of the augmented matrix as the solver reads it: N + 1 entries, zeros where the row is too short. */
  function Padded(row: seq<int>, N: nat): (r: seq<int>)
    ensures |r| == N + 1
    ensures forall j | 0 <= j <= N :: r[j] == if j < |row| then row[j] else 0
  {
    seq(N + 1, j requires 0 <= j <= N => if j < |row| then row[j] else 0)
  }

  function PaddedRows(rows: seq<seq<int>>, N: nat): (r: seq<seq<int>>)
    ensures |r| == |rows| && forall i | 0 <= i < |rows| :: r[i] == Padded(rows[i], N)
  {
    seq(|rows|, i requires 0 <= i < |rows| => Padded(rows[i], N))
  }

  ghost predicate IsVector(x: seq<int>, N: nat, P: int) {
    |x| == N && forall j | 0 <= j < N :: 0 <= x[j] < P
  }

  /** x solves every equation of the augmented matrix. */
  ghost predicate Solves(rows: seq<seq<int>>, x: seq<int>, N: nat, P: int) {
    |x| == N && Null(PaddedRows(rows, N), x + [-1], P)
  }

  /** y solves every equation with its right-hand side set to zero. */
  ghost predicate InKernel(rows: seq<seq<int>>, y: seq<int>, N: nat, P: int) {
    |y| == N && Null(PaddedRows(rows, N), y + [0], P)
  }

  ghost predicate NonZero(y: seq<int>) {
    exists j :: 0 <= j < |y| && y[j] != 0
  }

  ghost predicate HasKernel(rows: seq<seq<int>>, N: nat, P: int) {
    exists y: seq<int> :: IsVector(y, N, P) && NonZero(y) && InKernel(rows, y, N, P)
  }

  // ------------------------------------------------------------------ the shape that elimination builds

  /** Column c is 1 in row p and 0 in all others. */
  ghost predicate UnitColumn(rows: seq<seq<int>>, c: nat, p: nat, N: nat) {
    && c <= N && p < |rows| && |rows[p]| == N + 1 && rows[p][c] == 1
    && forall r | 0 <= r < |rows| && r != p :: |rows[r]| == N + 1 && rows[r][c] == 0
  }

  /** The first c columns are done: pivotAt says which row holds a column's pivot, colOf which column a pivot row
      serves. */
  ghost predicate Echelon(rows: seq<seq<int>>, pivotAt: seq<int>, colOf: seq<nat>, c: nat, N: nat, P: int) {
    && Reduced(rows, N, P) && |colOf| <= |rows| && |pivotAt| == N && c <= N
    && (forall r | 0 <= r < |colOf| :: colOf[r] < c && pivotAt[colOf[r]] == r && 0 <= rows[r][N] < P)
    && (forall d | 0 <= d < c :: PivotColumn(rows, pivotAt[d], colOf, d, N))
    && (forall d | c <= d < N :: pivotAt[d] == -1)
    && (forall r, d | |colOf| <= r < |rows| && 0 <= d < c :: rows[r][d] == 0)
  }

  ghost predicate PivotColumn(rows: seq<seq<int>>, p: int, colOf: seq<nat>, d: nat, N: nat) {
    p == -1 || (0 <= p < |colOf| && colOf[p] == d && UnitColumn(rows, d, p, N))
  }

  lemma {:induction false} FreeColumn(rows: seq<seq<int>>, pivotAt: seq<int>, colOf: seq<nat>, c: nat, N: nat, P: int)
    requires Echelon(rows, pivotAt, colOf, c, N, P) && c < N
    requires forall r | |colOf| <= r < |rows| :: rows[r][c] == 0
    ensures Echelon(rows, pivotAt, colOf, c + 1, N, P)
  {
    hide PivotColumn;
    assert PivotColumn(rows, pivotAt[c], colOf, c, N) by { assert pivotAt[c] == -1; ByDefault(rows, colOf, c, N); }
  }

  lemma {:induction false} ByDefault(rows: seq<seq<int>>, colOf: seq<nat>, d: nat, N: nat)
    ensures PivotColumn(rows, -1, colOf, d, N)
  {
  }

  /** One pivot step keeps the shape and adds a column to it. */
  lemma {:induction false} PivotStep(rows: seq<seq<int>>, pivotAt: seq<int>, colOf: seq<nat>, c: nat, N: nat, P: int,
                                     found: nat, inv: int, swapped: seq<seq<int>>, scaled: seq<seq<int>>,
                                     rows': seq<seq<int>>)
    requires P > 1 && Echelon(rows, pivotAt, colOf, c, N, P) && c < N
    requires |colOf| <= found < |rows|
    requires swapped == Swapped(rows, |colOf|, found) && (rows[found][c] * inv) % P == 1
    requires scaled == swapped[|colOf| := Scaled(swapped[|colOf|], c, inv, P)]
    requires Reduced(scaled, N, P) && Cleared(scaled, |colOf|, c, N, P, rows')
    ensures Echelon(rows', pivotAt[c := |colOf|], colOf + [c], c + 1, N, P)
  {
    hide PivotColumn, Cleared, Reduced, UnitColumn, Swapped;
    var p, pivotAt', colOf' := |colOf|, pivotAt[c := |colOf|], colOf + [c];
    SwapRows(rows, p, found, N, P);
    ClearedRows(scaled, p, c, N, P, rows');
    assert scaled[p][c] == 1 by { assert swapped[p] == rows[found]; }
    NewUnitColumn(scaled, p, c, N, P, rows');
    LeftOfPivot(rows, p, c, N, P, found, inv, swapped, scaled, rows');
    forall d | 0 <= d < c ensures PivotColumn(rows', pivotAt'[d], colOf', d, N) {
      OldPivotColumn(rows, pivotAt[d], colOf, c, N, P, d, swapped, scaled, rows');
    }
    forall r | 0 <= r < |colOf'| ensures colOf'[r] < c + 1 && pivotAt'[colOf'[r]] == r && 0 <= rows'[r][N] < P {
      RightSide(rows, pivotAt, colOf, c, N, P, found, inv, swapped, scaled, rows', r);
    }
    forall r, d | |colOf'| <= r < |rows'| && 0 <= d < c + 1 ensures rows'[r][d] == 0 {
      if d == c {
        ColumnZero(rows', c, p, N, r);
      } else {
        assert forall i | p <= i < |rows| :: |rows[i]| == N + 1;
        SwapEntry(rows, p, found, r, d);
      }
    }
    assert PivotColumn(rows', pivotAt'[c], colOf', c, N) by { IsPivotColumn(rows', p, colOf', c, N); }
  }

  /** The step changes nothing left of its column but the order of two rows. */
  lemma {:induction false} LeftOfPivot(rows: seq<seq<int>>, p: nat, c: nat, N: nat, P: int, found: nat, inv: int,
                                       swapped: seq<seq<int>>, scaled: seq<seq<int>>, rows': seq<seq<int>>)
    requires P > 1 && c < N && p < |rows| && found < |rows| && Reduced(rows, N, P)
    requires swapped == Swapped(rows, p, found)
    requires scaled == swapped[p := Scaled(swapped[p], c, inv, P)]
    requires Reduced(scaled, N, P) && Cleared(scaled, p, c, N, P, rows')
    ensures forall r | 0 <= r < |rows| :: |swapped[r]| == |scaled[r]| == |rows'[r]| == N + 1
    ensures forall r, d | 0 <= r < |rows| && 0 <= d < c :: scaled[r][d] == swapped[r][d] && rows'[r][d] == scaled[r][d]
  {
    hide Cleared;
    SwapRows(rows, p, found, N, P);
    ClearedRows(scaled, p, c, N, P, rows');
  }

  lemma {:induction false} IsPivotColumn(rows: seq<seq<int>>, p: nat, colOf: seq<nat>, d: nat, N: nat)
    requires p < |colOf| && colOf[p] == d && UnitColumn(rows, d, p, N)
    ensures PivotColumn(rows, p, colOf, d, N)
  {
  }

  lemma {:induction false} ColumnZero(rows: seq<seq<int>>, c: nat, p: nat, N: nat, r: nat)
    requires UnitColumn(rows, c, p, N) && r < |rows| && r != p
    ensures |rows[r]| == N + 1 && rows[r][c] == 0
  {
  }

  lemma {:induction false} SwapEntry(rows: seq<seq<int>>, p: nat, found: nat, r: nat, d: nat)
    requires p <= found < |rows| && p <= r < |rows|
    requires forall i | p <= i < |rows| :: d < |rows[i]| && rows[i][d] == 0
    ensures Swapped(rows, p, found)[r][d] == 0
  {
  }

  lemma {:induction false} SwapRows(rows: seq<seq<int>>, p: nat, found: nat, N: nat, P: int)
    requires p < |rows| && found < |rows| && Reduced(rows, N, P)
    ensures Reduced(Swapped(rows, p, found), N, P)
    ensures Swapped(rows, p, found)[p] == rows[found]
    ensures forall r | 0 <= r < |rows| && r != p && r != found :: Swapped(rows, p, found)[r] == rows[r]
    ensures forall r | 0 <= r < |rows| :: |Swapped(rows, p, found)[r]| == N + 1 && |rows[r]| == N + 1
  {
  }

  /** Clearing leaves the pivot row and everything before column c alone, and reduces what it changes. */
  lemma {:induction false} ClearedRows(rows: seq<seq<int>>, p: nat, c: nat, N: nat, P: int, rows': seq<seq<int>>)
    requires P > 0 && p < |rows| && c < N && Reduced(rows, N, P)
    requires Cleared(rows, p, c, N, P, rows')
    ensures Reduced(rows', N, P) && |rows'| == |rows| && rows'[p] == rows[p]
    ensures forall r, d | 0 <= r < |rows| && 0 <= d < c :: rows'[r][d] == rows[r][d]
    ensures forall r | 0 <= r < |rows| :: |rows'[r]| == N + 1 && (0 <= rows[r][N] < P ==> 0 <= rows'[r][N] < P)
  {
    forall r | 0 <= r < |rows| ensures |rows'[r]| == N + 1 && (forall j | 0 <= j < N :: 0 <= rows'[r][j] < P)
                                       && (forall d | 0 <= d < c :: rows'[r][d] == rows[r][d])
                                       && (0 <= rows[r][N] < P ==> 0 <= rows'[r][N] < P) {
      assert rows'[r] == ClearedRow(rows, p, c, P, r);
    }
  }

  lemma {:induction false} NewUnitColumn(rows: seq<seq<int>>, p: nat, c: nat, N: nat, P: int, rows': seq<seq<int>>)
    requires P > 1 && p < |rows| && c < N && Reduced(rows, N, P)
    requires Cleared(rows, p, c, N, P, rows') && rows[p][c] == 1
    ensures UnitColumn(rows', c, p, N)
  {
    forall r | 0 <= r < |rows| ensures |rows'[r]| == N + 1 && rows'[r][c] == if r == p then 1 else 0 {
      assert rows'[r] == ClearedRow(rows, p, c, P, r);
      if r != p && rows[r][c] != 0 {
        assert rows[r][c] - rows[r][c] * 1 == 0;
        ModSmall(0, P);
      }
    }
  }

  lemma {:induction false} OldPivotColumn(rows: seq<seq<int>>, q: int, colOf: seq<nat>, c: nat, N: nat, P: int,
                                          d: nat, swapped: seq<seq<int>>, scaled: seq<seq<int>>, rows': seq<seq<int>>)
    requires PivotColumn(rows, q, colOf, d, N) && d < c < N
    requires |rows'| == |scaled| == |swapped| == |rows|
    requires |colOf| < |rows|
    requires exists found :: |colOf| <= found < |rows| && swapped == Swapped(rows, |colOf|, found)
    requires forall r | 0 <= r < |rows| :: |swapped[r]| == |scaled[r]| == |rows'[r]| == N + 1
    requires forall r | 0 <= r < |rows| :: scaled[r][d] == swapped[r][d] && rows'[r][d] == scaled[r][d]
    ensures PivotColumn(rows', q, colOf + [c], d, N)
  {
    if q != -1 {
      var found :| |colOf| <= found < |rows| && swapped == Swapped(rows, |colOf|, found);
      forall r | 0 <= r < |rows| && r != q ensures rows'[r][d] == 0 {
        assert swapped[r] == rows[if r == |colOf| then found else if r == found then |colOf| else r];
      }
      assert swapped[q] == rows[q];
    }
  }

  lemma {:induction false} RightSide(rows: seq<seq<int>>, pivotAt: seq<int>, colOf: seq<nat>, c: nat, N: nat, P: int,
                                     found: nat, inv: int, swapped: seq<seq<int>>, scaled: seq<seq<int>>,
                                     rows': seq<seq<int>>, r: nat)
    requires P > 1 && Echelon(rows, pivotAt, colOf, c, N, P) && c < N
    requires |colOf| <= found < |rows|
    requires swapped == Swapped(rows, |colOf|, found) && |swapped[|colOf|]| == N + 1
    requires scaled == swapped[|colOf| := Scaled(swapped[|colOf|], c, inv, P)]
    requires Reduced(scaled, N, P) && Cleared(scaled, |colOf|, c, N, P, rows')
    requires r <= |colOf|
    ensures var pivotAt', colOf' := pivotAt[c := |colOf|], colOf + [c];
            colOf'[r] < c + 1 && pivotAt'[colOf'[r]] == r && |rows'[r]| == N + 1 && 0 <= rows'[r][N] < P
  {
    hide PivotColumn, Cleared;
    ClearedRows(scaled, |colOf|, c, N, P, rows');
    assert 0 <= scaled[r][N] < P;
  }

  // ------------------------------------------------------------------ what the finished shape says

  /** Every column has a pivot: a null vector is the right-hand side times minus its last entry. */
  lemma {:induction false} PivotDetermines(rows: seq<seq<int>>, pivotAt: seq<int>, colOf: seq<nat>, N: nat, P: int,
                                           z: seq<int>, c: nat)
    requires P > 1 && Echelon(rows, pivotAt, colOf, N, N, P) && c < N
    requires forall d | 0 <= d < N :: pivotAt[d] != -1
    requires |z| == N + 1 && Null(rows, z, P)
    ensures 0 <= pivotAt[c] < |rows| && (z[c] + rows[pivotAt[c]][N] * z[N]) % P == 0
  {
    hide Null, Dot;
    assert PivotColumn(rows, pivotAt[c], colOf, c, N);
    var row := rows[pivotAt[c]];
    forall d | 0 <= d < N && d != c && d != -1 ensures row[d] == 0 || z[d] == 0 {
      assert PivotColumn(rows, pivotAt[d], colOf, d, N);
    }
    DotSparse(row, z, N, c, -1);
    NullRow(rows, z, P, pivotAt[c]);
    DotStep(row, z, N + 1);
    assert row[c] * z[c] == z[c];
  }

  lemma {:induction false} NullRow(rows: seq<seq<int>>, z: seq<int>, P: int, r: nat)
    requires Null(rows, z, P) && r < |rows|
    ensures P > 0 && |rows[r]| == |z| && Dot(rows[r], z, |z|) % P == 0
  {
  }

  /** The null vector of a column without a pivot: 1 there, minus the column's entries at the pivots. */
  ghost function FreeVector(rows: seq<seq<int>>, pivotAt: seq<int>, free: nat, N: nat, P: int): (y: seq<int>)
    requires P > 1 && |pivotAt| == N && free < N && Reduced(rows, N, P)
    requires forall d | 0 <= d < N :: -1 <= pivotAt[d] < |rows|
    ensures IsVector(y, N, P)
  {
    seq(N, d requires 0 <= d < N =>
      if d == free then 1 else if pivotAt[d] == -1 then 0 else (-rows[pivotAt[d]][free]) % P)
  }

  lemma {:induction false} FreeVectorRow(rows: seq<seq<int>>, pivotAt: seq<int>, colOf: seq<nat>, c: nat, free: nat,
                                         N: nat, P: int, r: nat)
    requires P > 1 && Echelon(rows, pivotAt, colOf, c, N, P) && free < N
    requires pivotAt[free] == -1
    requires free < c || |colOf| == |rows|
    requires r < |rows| && forall d | 0 <= d < N :: -1 <= pivotAt[d] < |rows|
    ensures var z := FreeVector(rows, pivotAt, free, N, P) + [0]; |rows[r]| == |z| && Dot(rows[r], z, |z|) % P == 0
  {
    hide FreeVector, Dot;
    var y, row := FreeVector(rows, pivotAt, free, N, P), rows[r];
    var z := y + [0];
    var p := if r < |colOf| then colOf[r] else -1;
    FreeVectorEntries(rows, pivotAt, free, N, P);
    forall d | 0 <= d < N + 1 && d != free && d != p ensures row[d] == 0 || z[d] == 0 {
      if d < N && pivotAt[d] != -1 {
        OtherPivot(rows, pivotAt, colOf, c, N, P, r, d);
      }
    }
    DotSparse(row, z, N + 1, free, p);
    if r < |colOf| {
      OwnPivot(rows, pivotAt, colOf, c, N, P, r);
      assert row[p] * z[p] == z[p] && row[free] * z[free] == row[free];
      ModMod(-row[free], P);
      ModAdd(row[free], row[free], z[p], -row[free], P);
    } else {
      assert row[free] * z[free] == 0;
    }
    ModSmall(0, P);
  }

  lemma {:induction false} FreeVectorEntries(rows: seq<seq<int>>, pivotAt: seq<int>, free: nat, N: nat, P: int)
    requires P > 1 && |pivotAt| == N && free < N && Reduced(rows, N, P)
    requires forall d | 0 <= d < N :: -1 <= pivotAt[d] < |rows|
    ensures var y := FreeVector(rows, pivotAt, free, N, P);
      forall d | 0 <= d < N :: y[d] ==
          if d == free then 1 else if pivotAt[d] == -1 then 0 else (-rows[pivotAt[d]][free]) % P
  {
  }

  lemma {:induction false} OtherPivot(rows: seq<seq<int>>, pivotAt: seq<int>, colOf: seq<nat>, c: nat, N: nat, P: int,
                                      r: nat, d: nat)
    requires Echelon(rows, pivotAt, colOf, c, N, P) && r < |rows| && d < N
    requires pivotAt[d] != -1
    requires r < |colOf| ==> colOf[r] != d
    ensures rows[r][d] == 0
  {
    assert d < c && PivotColumn(rows, pivotAt[d], colOf, d, N);
  }

  lemma {:induction false} OwnPivot(rows: seq<seq<int>>, pivotAt: seq<int>, colOf: seq<nat>, c: nat, N: nat, P: int,
                                    r: nat)
    requires Echelon(rows, pivotAt, colOf, c, N, P) && r < |colOf|
    ensures colOf[r] < c && rows[r][colOf[r]] == 1 && pivotAt[colOf[r]] == r
  {
    assert PivotColumn(rows, pivotAt[colOf[r]], colOf, colOf[r], N);
  }

  /** A column without a pivot gives a non-zero kernel vector of the original matrix. */
  lemma {:induction false} RankDeficient(aug: seq<seq<int>>, rows: seq<seq<int>>, pivotAt: seq<int>, colOf: seq<nat>,
                                         c: nat, free: nat, N: nat, P: int)
    requires P > 1 && Echelon(rows, pivotAt, colOf, c, N, P) && free < N
    requires pivotAt[free] == -1
    requires free < c || |colOf| == |rows|
    requires SameNull(PaddedRows(aug, N), rows, N, P)
    ensures HasKernel(aug, N, P)
  {
    hide Dot, FreeVector, PaddedRows;
    forall d | 0 <= d < N ensures -1 <= pivotAt[d] < |rows| {
      if d < c { assert PivotColumn(rows, pivotAt[d], colOf, d, N); }
    }
    var y := FreeVector(rows, pivotAt, free, N, P);
    forall r | 0 <= r < |rows| ensures |rows[r]| == |y + [0]| && Dot(rows[r], y + [0], |y + [0]|) % P == 0 {
      FreeVectorRow(rows, pivotAt, colOf, c, free, N, P, r);
    }
    FreeVectorEntries(rows, pivotAt, free, N, P);
    assert Null(rows, y + [0], P) && y[free] == 1;
    assert InKernel(aug, y, N, P);
  }

  /** With a pivot in every column no kernel vector but zero is left, and any solution is the right-hand side. */
  lemma {:induction false} FullRank(aug: seq<seq<int>>, rows: seq<seq<int>>, pivotAt: seq<int>, colOf: seq<nat>,
                                    N: nat, P: int, sol: seq<int>)
    requires P > 1 && Echelon(rows, pivotAt, colOf, N, N, P)
    requires SameNull(PaddedRows(aug, N), rows, N, P)
    requires forall d | 0 <= d < N :: 0 <= pivotAt[d] < |rows|
    requires |sol| == N && forall d | 0 <= d < N :: sol[d] == rows[pivotAt[d]][N]
    ensures !HasKernel(aug, N, P) && IsVector(sol, N, P)
    ensures forall x: seq<int> | IsVector(x, N, P) && Solves(aug, x, N, P) :: x == sol
  {
    hide Null, Dot, PaddedRows, SameNull;
    forall d | 0 <= d < N ensures 0 <= sol[d] < P {
      assert PivotColumn(rows, pivotAt[d], colOf, d, N);
    }
    forall x: seq<int> | IsVector(x, N, P) && Solves(aug, x, N, P) ensures x == sol {
      NullTransfer(aug, rows, N, P, x + [-1]);
      forall c | 0 <= c < N ensures x[c] == sol[c] {
        PivotDetermines(rows, pivotAt, colOf, N, P, x + [-1], c);
        assert sol[c] * (-1) == -sol[c];
        SmallDifference(x[c], sol[c], P);
      }
    }
    forall y: seq<int> | IsVector(y, N, P) && InKernel(aug, y, N, P) ensures !NonZero(y) {
      NullTransfer(aug, rows, N, P, y + [0]);
      forall c | 0 <= c < N ensures y[c] == 0 {
        PivotDetermines(rows, pivotAt, colOf, N, P, y + [0], c);
        assert sol[c] * 0 == 0;
        SmallDifference(y[c], 0, P);
      }
    }
  }

  lemma {:induction false} NullTransfer(aug: seq<seq<int>>, rows: seq<seq<int>>, N: nat, P: int, z: seq<int>)
    requires SameNull(PaddedRows(aug, N), rows, N, P) && |z| == N + 1
    requires Null(PaddedRows(aug, N), z, P)
    ensures Null(rows, z, P)
  {
  }

  lemma {:induction false} SmallDifference(a: int, b: int, P: int)
    requires 0 <= a < P && 0 <= b < P && (a - b) % P == 0
    ensures a == b
  {
    ModSmall(a, P);
    ModSmall(b, P);
    ModSmall(0, P);
    ModAdd(a - b, 0, b, b, P);
  }

  // ------------------------------------------------------------------ the algorithm

  /** GaussElimModP. The caller's matrix is only read; the working copy is eliminated in place. */
  method GaussElimModP(aug: array<seq<int>>, N: nat, P: int) returns (sol: Option<seq<int>>)
    requires IsPrime(P)
    requires forall r, j | 0 <= r < aug.Length && 0 <= j < N && j < |aug[r]| :: 0 <= aug[r][j] < P
    ensures sol.None? <==> HasKernel(aug[..], N, P)
    ensures sol.Some? ==> IsVector(sol.value, N, P)
    ensures sol.Some? ==> forall x: seq<int> | IsVector(x, N, P) && Solves(aug[..], x, N, P) :: x == sol.value
  {
    hide Echelon, SameNull, HasKernel, Solves, InKernel;
    var a := DeepCopy(aug, N, P);
    var pivotRow := 0;
    var pivotAt := seq(N, _ => -1);
    ghost var colOf: seq<nat> := [];
    StartShape(a[..], pivotAt, N, P);
    var c := 0;
    while c < N && pivotRow < a.Length
      invariant 0 <= c <= N && 0 <= pivotRow <= a.Length && pivotRow == |colOf|
      invariant Echelon(a[..], pivotAt, colOf, c, N, P)
      invariant SameNull(PaddedRows(aug[..], N), a[..], N, P)
    {
      EchelonReduced(a[..], pivotAt, colOf, c, N, P);
      var found := FindPivot(a, pivotRow, c, N, P);
      if found == -1 {
        FreeColumn(a[..], pivotAt, colOf, c, N, P);
      } else {
        ghost var before := a[..];
        PivotColumnStep(a, pivotRow, found, c, c, N, P, pivotAt, colOf);
        SameNullTrans(PaddedRows(aug[..], N), before, a[..], N, P);
        pivotAt := pivotAt[c := pivotRow];
        colOf := colOf + [c];
        pivotRow := pivotRow + 1;
      }
      c := c + 1;
    }
    EchelonReduced(a[..], pivotAt, colOf, c, N, P);
    for d := 0 to N
      invariant forall e | 0 <= e < d :: pivotAt[e] != -1
    {
      if pivotAt[d] == -1 {
        RankDeficient(aug[..], a[..], pivotAt, colOf, c, d, N, P);
        return None;
      }
    }
    AllColumnsDone(a[..], pivotAt, colOf, c, N, P);
    var x := [];
    for d := 0 to N
      invariant |x| == d && forall e | 0 <= e < d :: x[e] == a[pivotAt[e]][N]
    {
      x := x + [a[pivotAt[d]][N]];
    }
    FullRank(aug[..], a[..], pivotAt, colOf, N, P, x);
    return Some(x);
  }

  lemma {:induction false} StartShape(rows: seq<seq<int>>, pivotAt: seq<int>, N: nat, P: int)
    requires Reduced(rows, N, P) && |pivotAt| == N
    requires forall d | 0 <= d < N :: pivotAt[d] == -1
    ensures Echelon(rows, pivotAt, [], 0, N, P) && SameNull(rows, rows, N, P)
  {
  }

  lemma {:induction false} EchelonReduced(rows: seq<seq<int>>, pivotAt: seq<int>, colOf: seq<nat>, c: nat, N: nat,
                                          P: int)
    requires Echelon(rows, pivotAt, colOf, c, N, P)
    ensures Reduced(rows, N, P) && |pivotAt| == N && |colOf| <= |rows|
    ensures forall r, d | |colOf| <= r < |rows| && 0 <= d < c :: rows[r][d] == 0
  {
  }

  lemma {:induction false} LaterColumn(rows: seq<seq<int>>, pivotAt: seq<int>, colOf: seq<nat>, c: nat, N: nat, P: int)
    requires Echelon(rows, pivotAt, colOf, c, N, P) && c < N
    ensures pivotAt[c] == -1
  {
  }

  /** If every column has a pivot then no column was left out by running out of rows. */
  lemma {:induction false} AllColumnsDone(rows: seq<seq<int>>, pivotAt: seq<int>, colOf: seq<nat>, c: nat, N: nat,
                                          P: int)
    requires Echelon(rows, pivotAt, colOf, c, N, P)
    requires forall d | 0 <= d < N :: pivotAt[d] != -1
    ensures c == N && forall d | 0 <= d < N :: 0 <= pivotAt[d] < |rows|
  {
    if c < N { LaterColumn(rows, pivotAt, colOf, c, N, P); }
    forall d | 0 <= d < N ensures 0 <= pivotAt[d] < |rows| {
      assert PivotColumn(rows, pivotAt[d], colOf, d, N);
    }
  }

  method DeepCopy(aug: array<seq<int>>, N: nat, ghost P: int) returns (a: array<seq<int>>)
    requires P > 0
    requires forall r, j | 0 <= r < aug.Length && 0 <= j < N && j < |aug[r]| :: 0 <= aug[r][j] < P
    ensures fresh(a) && a[..] == PaddedRows(aug[..], N) && Reduced(a[..], N, P)
  {
    a := new seq<int>[aug.Length];
    for i := 0 to aug.Length
      invariant forall k | 0 <= k < i :: a[k] == Padded(aug[k], N)
    {
      a[i] := Padded(aug[i], N);
    }
    assert a[..] == PaddedRows(aug[..], N);
  }

  method FindPivot(a: array<seq<int>>, pivotRow: nat, c: nat, ghost N: nat, ghost P: int) returns (found: int)
    requires Reduced(a[..], N, P) && c < N && pivotRow <= a.Length
    ensures if found == -1 then forall r | pivotRow <= r < a.Length :: |a[r]| == N + 1 && a[r][c] == 0
            else pivotRow <= found < a.Length && |a[found]| == N + 1 && a[found][c] != 0
  {
    assert forall r | 0 <= r < a.Length :: a[..][r] == a[r] && |a[r]| == N + 1;
    found := -1;
    for r := pivotRow to a.Length
      invariant found == -1 && forall k | pivotRow <= k < r :: a[k][c] == 0
    {
      if a[r][c] != 0 {
        found := r;
        break;
      }
    }
  }

  /** Swap the pivot row into place, scale it, clear the column everywhere else. */
  method PivotColumnStep(a: array<seq<int>>, pivotRow: nat, found: nat, c: nat, from: nat, N: nat, P: int,
                         ghost pivotAt: seq<int>, ghost colOf: seq<nat>)
    requires IsPrime(P) && from <= c < N && pivotRow == |colOf| <= found < a.Length
    requires Echelon(a[..], pivotAt, colOf, c, N, P) && |a[found]| == N + 1
    requires a[found][c] != 0
    modifies a
    ensures |pivotAt| == N
    ensures Echelon(a[..], pivotAt[c := pivotRow], colOf + [c], c + 1, N, P)
    ensures SameNull(old(a[..]), a[..], N, P)
  {
    hide Echelon, SameNull, Cleared, Reduced;
    ghost var rows := a[..];
    EchelonReduced(rows, pivotAt, colOf, c, N, P);
    a[pivotRow], a[found] := a[found], a[pivotRow];
    ghost var swapped := a[..];
    assert swapped == Swapped(rows, pivotRow, found);
    SwapNull(rows, pivotRow, found, N, P);
    PivotInvertible(rows, found, c, N, P);
    var inv := ModInverse(a[pivotRow][c], P).value;
    ScalePivotRow(a, pivotRow, c, inv, N, P);
    ghost var scaled := a[..];
    assert scaled == swapped[pivotRow := Scaled(swapped[pivotRow], c, inv, P)];
    ZeroBefore(rows, colOf, found, c, N);
    ScaleNull(swapped, pivotRow, c, inv, N, P);
    ScaledReduced(rows, pivotRow, found, c, inv, N, P);
    ClearColumn(a, pivotRow, c, from, N, P);
    ClearNull(scaled, pivotRow, c, N, P, a[..]);
    SameNullTrans(rows, swapped, scaled, N, P);
    SameNullTrans(rows, scaled, a[..], N, P);
    PivotStep(rows, pivotAt, colOf, c, N, P, found, inv, swapped, scaled, a[..]);
  }

  lemma {:induction false} PivotInvertible(rows: seq<seq<int>>, found: nat, c: nat, N: nat, P: int)
    requires IsPrime(P) && Reduced(rows, N, P) && found < |rows| && c < N
    requires rows[found][c] != 0
    ensures var i := ModInverse(rows[found][c], P); i.Some? && (rows[found][c] * i.value) % P == 1
  {
    ModSmall(rows[found][c], P);
    PrimeInverse(rows[found][c], P);
    ModSmall(1, P);
  }

  lemma {:induction false} ZeroBefore(rows: seq<seq<int>>, colOf: seq<nat>, found: nat, c: nat, N: nat)
    requires |colOf| <= found < |rows| && c < N
    requires forall r | 0 <= r < |rows| :: |rows[r]| == N + 1
    requires forall r, d | |colOf| <= r < |rows| && 0 <= d < c :: rows[r][d] == 0
    ensures forall d | 0 <= d < c :: rows[found][d] == 0
  {
  }

  lemma {:induction false} ScaledReduced(rows: seq<seq<int>>, p: nat, found: nat, c: nat, inv: int, N: nat, P: int)
    requires P > 0 && Reduced(rows, N, P) && p < |rows| && found < |rows|
    ensures var swapped := Swapped(rows, p, found);
      |swapped[p]| == N + 1 && Reduced(swapped[p := Scaled(swapped[p], c, inv, P)], N, P)
  {
  }

  method ScalePivotRow(a: array<seq<int>>, p: nat, c: nat, inv: int, N: nat, P: int)
    requires p < a.Length && |a[p]| == N + 1 && c <= N && P > 0
    modifies a
    ensures a[..] == old(a[..])[p := Scaled(old(a[p]), c, inv, P)]
  {
    for j := c to N + 1
      invariant |a[p]| == N + 1 && forall d | 0 <= d < j :: a[p][d] == Scaled(old(a[p]), c, inv, P)[d]
      invariant forall d | j <= d <= N :: a[p][d] == old(a[p])[d]
      invariant forall r | 0 <= r < a.Length && r != p :: a[r] == old(a[r])
    {
      a[p] := a[p][j := (a[p][j] * inv) % P];
    }
    assert a[p] == Scaled(old(a[p]), c, inv, P);
  }

  /** Clear column c everywhere but in row p; the columns before c need no work, whether they are visited or not. */
  method ClearColumn(a: array<seq<int>>, p: nat, c: nat, from: nat, N: nat, P: int)
    requires P > 0 && p < a.Length && from <= c < N && Reduced(a[..], N, P)
    requires |a[p]| == N + 1
    requires forall d | 0 <= d < c :: a[p][d] == 0
    modifies a
    ensures Cleared(old(a[..]), p, c, N, P, a[..])
  {
    hide Eliminated;
    ghost var rows := a[..];
    assert forall r | 0 <= r < a.Length ::
      rows[r] == a[r] && |a[r]| == N + 1 && forall d | 0 <= d < c :: 0 <= a[r][d] < P;
    for r := 0 to a.Length
      invariant forall k | 0 <= k < r :: a[k] == ClearedRow(rows, p, c, P, k)
      invariant forall k | r <= k < a.Length :: a[k] == rows[k]
      invariant a[p] == rows[p]
    {
      if r == p || a[r][c] == 0 { continue; }
      var row := EliminateLoop(a[r], a[p], c, from, a[r][c], N, P);
      a[r] := row;
    }
  }

  method EliminateLoop(row: seq<int>, pivot: seq<int>, c: nat, from: nat, factor: int, N: nat, P: int)
    returns (out: seq<int>)
    requires P > 0 && |row| == |pivot| == N + 1 && from <= c <= N
    requires forall d | 0 <= d < c :: pivot[d] == 0 && 0 <= row[d] < P
    ensures out == Eliminated(row, pivot, c, factor, P)
  {
    out := row;
    for j := from to N + 1
      invariant |out| == N + 1 && forall d | 0 <= d < j :: out[d] == Eliminated(row, pivot, c, factor, P)[d]
      invariant forall d | j <= d <= N :: out[d] == row[d]
    {
      if j < c {
        assert factor * 0 == 0;
        ModSmall(row[j], P);
      }
      out := out[j := (out[j] - factor * pivot[j]) % P];
    }
  }

  /** The square system of the inner code, solved the same way but giving up at the first column without a pivot. */
  method SolveSquare(A: array<seq<int>>, v: nat, P: int) returns (x: Option<seq<int>>)
    requires IsPrime(P) && A.Length == v && Reduced(A[..], v, P)
    modifies A
    ensures x.None? <==> HasKernel(old(A[..]), v, P)
    ensures x.Some? ==> IsVector(x.value, v, P)
    ensures x.Some? ==> forall z: seq<int> | IsVector(z, v, P) && Solves(old(A[..]), z, v, P) :: z == x.value
  {
    hide Echelon, SameNull, HasKernel, Solves, InKernel;
    ghost var aug := A[..];
    ghost var pivotAt := seq(v, _ => -1);
    ghost var colOf: seq<nat> := [];
    FullLength(aug, v, P);
    StartShape(aug, pivotAt, v, P);
    for col := 0 to v
      invariant |colOf| == col && |pivotAt| == v && forall d | 0 <= d < col :: colOf[d] == d && pivotAt[d] == d
      invariant Echelon(A[..], pivotAt, colOf, col, v, P) && SameNull(PaddedRows(aug, v), A[..], v, P)
    {
      EchelonReduced(A[..], pivotAt, colOf, col, v, P);
      var pivotRow := FindPivot(A, col, col, v, P);
      if pivotRow < 0 {
        LaterColumn(A[..], pivotAt, colOf, col, v, P);
        FreeColumn(A[..], pivotAt, colOf, col, v, P);
        RankDeficient(aug, A[..], pivotAt, colOf, col + 1, col, v, P);
        return None;
      }
      ghost var before := A[..];
      PivotColumnStep(A, col, pivotRow, col, 0, v, P, pivotAt, colOf);
      SameNullTrans(PaddedRows(aug, v), before, A[..], v, P);
      pivotAt := pivotAt[col := col];
      colOf := colOf + [col];
    }
    AllColumnsDone(A[..], pivotAt, colOf, v, v, P);
    EchelonReduced(A[..], pivotAt, colOf, v, v, P);
    var sol := ReadColumn(A, v, P);
    FullRank(aug, A[..], pivotAt, colOf, v, P, sol);
    return Some(sol);
  }

  lemma {:induction false} FullLength(rows: seq<seq<int>>, N: nat, P: int)
    requires Reduced(rows, N, P)
    ensures PaddedRows(rows, N) == rows
  {
    forall r | 0 <= r < |rows| ensures Padded(rows[r], N) == rows[r] {
    }
  }

  method ReadColumn(A: array<seq<int>>, v: nat, ghost P: int) returns (x: seq<int>)
    requires A.Length == v && Reduced(A[..], v, P)
    ensures |x| == v && forall d | 0 <= d < v :: |A[d]| == v + 1 && x[d] == A[d][v]
  {
    assert forall r | 0 <= r < v :: A[..][r] == A[r] && |A[r]| == v + 1;
    x := [];
    for d := 0 to v
      invariant |x| == d && forall e | 0 <= e < d :: x[e] == A[e][v]
    {
      x := x + [A[d][v]];
    }
  }
}
