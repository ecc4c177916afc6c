/** Powers modulo a prime and modulo a product of two safe primes: Fermat's theorem, and the order of the squares. */
module Fermat {
  import opened ModArith
  import opened NumberTheory
  import opened Options
  import opened Pigeonhole

  // ------------------------------------------------------------------ products

  function Product(s: seq<int>): int {
    if s == [] then 1 else Product(s[..|s| - 1]) * s[|s| - 1]
  }

  function Factorial(m: nat): int {
    if m == 0 then 1 else Factorial(m - 1) * m
  }

  lemma {:induction false} ProductRemove(s: seq<int>, k: nat)
    requires k < |s|
    ensures Product(s) == Product(s[..k] + s[k + 1..]) * s[k]
  {
    if k == |s| - 1 {
      assert s[..k] + s[k + 1..] == s[..k];
    } else {
      var front, last := s[..|s| - 1], s[|s| - 1];
      ProductRemove(front, k);
      var t := s[..k] + s[k + 1..];
      assert t[..|t| - 1] == front[..k] + front[k + 1..] && t[|t| - 1] == last;
      assert Product(front[..k] + front[k + 1..]) * s[k] * last == Product(front[..k] + front[k + 1..]) * last * s[k];
    }
  }

  /** m distinct numbers from 1 to m multiply to the factorial, in whatever order. */
  lemma {:induction false} ProductOfAll(s: seq<int>)
    requires Distinct(s) && forall i | 0 <= i < |s| :: 1 <= s[i] <= |s|
    ensures Product(s) == Factorial(|s|)
  {
    if s != [] {
      var k := FindLargest(s);
      var t := s[..k] + s[k + 1..];
      ProductRemove(s, k);
      forall i | 0 <= i < |t| ensures 1 <= t[i] <= |t| {
        var j := if i < k then i else i + 1;
        assert t[i] == s[j] && s[j] != s[k];
      }
      ProductOfAll(t);
    }
  }

  lemma {:induction false} FindLargest(s: seq<int>) returns (k: nat)
    requires s != [] && Distinct(s) && forall i | 0 <= i < |s| :: 1 <= s[i] <= |s|
    ensures k < |s| && s[k] == |s|
  {
    var t := seq(|s|, i requires 0 <= i < |s| => s[i] - 1);
    EveryNumberOccurs(t, |s| - 1);
    k :| 0 <= k < |t| && t[k] == |s| - 1;
  }

  /** The first n multiples of a, reduced. */
  function Multiples(a: int, p: int, n: nat): (s: seq<int>)
    requires p > 0
    ensures |s| == n && forall i | 0 <= i < n :: s[i] == (a * (i + 1)) % p
  {
    seq(n, i requires 0 <= i < n => (a * (i + 1)) % p)
  }

  lemma {:induction false} MultiplesProduct(a: int, p: int, n: nat)
    requires p > 0
    ensures Product(Multiples(a, p, n)) % p == (Pow(a, n) * Factorial(n)) % p
  {
    if n > 0 {
      var s := Multiples(a, p, n);
      MultiplesProduct(a, p, n - 1);
      assert s[..n - 1] == Multiples(a, p, n - 1);
      ModMod(a * n, p);
      ModMul(Product(s[..n - 1]), Pow(a, n - 1) * Factorial(n - 1), s[n - 1], a * n, p);
      Shuffle(Pow(a, n - 1), Factorial(n - 1), a, n);
      assert Pow(a, n - 1) * a == Pow(a, n);
    }
  }

  /** The multiples of a unit are the residues from 1 to p - 1 in some order. */
  lemma {:induction false} MultiplesPermute(a: int, p: int)
    requires IsPrime(p) && a % p != 0
    ensures var s := Multiples(a, p, p - 1); Distinct(s) && forall i | 0 <= i < |s| :: 1 <= s[i] <= |s|
  {
    var s := Multiples(a, p, p - 1);
    forall i | 0 <= i < |s| ensures 1 <= s[i] <= |s| {
      ModMod(a * (i + 1), p);
      ModSmall(i + 1, p);
      if s[i] == 0 { Euclid(a, i + 1, p); }
    }
    forall i, j | 0 <= i < j < |s| ensures s[i] != s[j] {
      MultiplesDiffer(a, i + 1, j + 1, p);
    }
  }

  lemma {:induction false} MultiplesDiffer(a: int, x: int, y: int, p: int)
    requires IsPrime(p) && a % p != 0 && 0 < x < y < p
    ensures (a * x) % p != (a * y) % p
  {
    ModSmall(0, p);
    ModSmall(y - x, p);
    assert a * y - a * x == a * (y - x);
    if (a * x) % p == (a * y) % p {
      ModAdd(a * y, a * y, a * x, a * y, p);
      Euclid(a, y - x, p);
    }
  }

  lemma {:induction false} FactorialUnit(m: nat, p: int)
    requires IsPrime(p) && m < p
    ensures Factorial(m) % p != 0
  {
    if m == 0 {
      ModSmall(1, p);
    } else {
      FactorialUnit(m - 1, p);
      ModSmall(m, p);
      if Factorial(m) % p == 0 { Euclid(Factorial(m - 1), m, p); }
    }
  }

  /** Fermat's little theorem. */
  lemma {:induction false} LittleFermat(a: int, p: int)
    requires IsPrime(p) && a % p != 0
    ensures Pow(a, p - 1) % p == 1
  {
    var n, f, x := p - 1, Factorial(p - 1), Pow(a, p - 1);
    MultiplesPermute(a, p);
    ProductOfAll(Multiples(a, p, n));
    MultiplesProduct(a, p, n);
    FactorialUnit(n, p);
    ModAdd(x * f, f, f, f, p);
    assert x * f - f == (x - 1) * f;
    ModSmall(0, p);
    Euclid(x - 1, f, p);
    ModAdd(x - 1, 0, 1, 1, p);
    ModSmall(1, p);
  }

  // ------------------------------------------------------------------ the squares modulo N

  /** Two safe primes, p = 2 pPrime + 1 and q = 2 qPrime + 1, and their distinctness. */
  datatype SafePrimes = SafePrimes(p: nat, pPrime: nat, q: nat, qPrime: nat)

  /** Two safe primes, drawn independently: nothing makes them distinct. */
  ghost predicate SafePair(s: SafePrimes) {
    && IsPrime(s.p) && IsPrime(s.q) && IsPrime(s.pPrime) && IsPrime(s.qPrime)
    && s.p == 2 * s.pPrime + 1 && s.q == 2 * s.qPrime + 1
  }

  ghost predicate ValidPrimes(s: SafePrimes) {
    SafePair(s) && s.p != s.q
  }

  function Modulus(s: SafePrimes): nat {
    s.p * s.q
  }

  /** The order of the group of squares. */
  function Order(s: SafePrimes): nat {
    s.pPrime * s.qPrime
  }

  lemma {:induction false} Sizes(s: SafePrimes)
    requires SafePair(s)
    ensures Modulus(s) > 1 && Order(s) > 1
  {
    MulMono(2, s.p, s.q);
    MulMono(2, s.pPrime, s.qPrime);
  }

  /** A square of a number that is a multiple of neither prime. */
  ghost predicate IsUnitSquare(x: int, s: SafePrimes)
    requires SafePair(s)
  {
    exists y: int :: y % s.p != 0 && y % s.q != 0 && SquareOf(x, y, s)
  }

  ghost predicate SquareOf(x: int, y: int, s: SafePrimes)
    requires SafePair(s)
  {
    Sizes(s);
    x % Modulus(s) == (y * y) % Modulus(s)
  }

  /** Distinct primes that divide a number both divide it. */
  lemma {:induction false} BothDivide(z: int, p: int, q: int)
    requires IsPrime(p) && IsPrime(q) && p != q && z % p == 0 && z % q == 0
    ensures p * q > 0 && z % (p * q) == 0
  {
    MulMono(1, p, q);
    ModSmall(0, p);
    ModSmall(0, q);
    var a := ModDiff(z, 0, p);
    Euclid(a, p, q);
    if p % q == 0 { PrimeDivisor(p, q); }
    var b := ModDiff(a, 0, q);
    assert z == b * q * p == b * (p * q);
    ModSmall(0, p * q);
    ModAddMultiple(0, b, p * q);
  }

  /** (y^2)^(half order) is 1 modulo one of the primes. */
  lemma {:induction false} SquareOrderOne(y: int, p: int, pPrime: nat, k: nat)
    requires IsPrime(p) && p == 2 * pPrime + 1 && y % p != 0
    ensures pPrime * k >= 0 && Pow(y * y, pPrime * k) % p == 1
  {
    hide Pow;
    MulMono(0, pPrime, k);
    LittleFermat(y, p);
    assert p - 1 == 2 * pPrime;
    PowMul(y, 2, pPrime);
    PowTwo(y);
    PowMul(y * y, pPrime, k);
    PowCong(Pow(y * y, pPrime), 1, k, p);
    PowOne(k);
    ModSmall(1, p);
  }

  lemma {:induction false} PowTwo(y: int)
    ensures Pow(y, 2) == y * y
  {
    assert Pow(y, 1) == y * Pow(y, 0) == y;
  }

  /** x^(p'q') = 1 modulo N for every square of a unit. */
  lemma {:induction false} SquareOrder(x: int, s: SafePrimes)
    requires ValidPrimes(s) && IsUnitSquare(x, s)
    ensures Modulus(s) > 1 && Order(s) > 1 && Pow(x, Order(s)) % Modulus(s) == 1
  {
    hide Pow;
    Sizes(s);
    var N, phi := Modulus(s), Order(s);
    var y: int :| y % s.p != 0 && y % s.q != 0 && SquareOf(x, y, s);
    SquareOrderOne(y, s.p, s.pPrime, s.qPrime);
    SquareOrderOne(y, s.q, s.qPrime, s.pPrime);
    assert s.qPrime * s.pPrime == phi;
    var z := Pow(y * y, phi);
    ModSmall(1, s.p);
    ModSmall(1, s.q);
    ModSmall(0, s.p);
    ModSmall(0, s.q);
    ModAdd(z, 1, 1, 1, s.p);
    ModAdd(z, 1, 1, 1, s.q);
    BothDivide(z - 1, s.p, s.q);
    ModAdd(z - 1, 0, 1, 1, N);
    ModSmall(0, N);
    ModSmall(1, N);
    PowCong(x, y * y, phi, N);
  }

  // ------------------------------------------------------------------ equal primes

  /** (1 + p)^k is 1 + k p modulo the square of p. */
  lemma {:induction false} PowerNearOne(p: nat, k: nat)
    requires p > 1
    ensures p * p > 0 && Pow(1 + p, k) % (p * p) == (1 + k * p) % (p * p)
  {
    hide Pow;
    MulMono(1, p, p);
    if k == 0 {
      PowZero(1 + p);
    } else {
      var j := k - 1;
      PowerNearOne(p, j);
      ModMul(1 + p, 1 + p, Pow(1 + p, j), 1 + j * p, p * p);
      PowAdd(1 + p, 1, j);
      PowerOfOne(1 + p);
      assert (1 + p) * (1 + j * p) == (1 + k * p) + j * (p * p) by { NearOneStep(p, j); }
      ModAddMultiple(1 + k * p, j, p * p);
    }
  }

  lemma {:induction false} PowerOfOne(x: int)
    ensures Pow(x, 1) == x
  {
    assert Pow(x, 1) == x * Pow(x, 0) == x;
  }

  lemma {:induction false} NearOneStep(p: nat, j: nat)
    ensures (1 + p) * (1 + j * p) == (1 + (j + 1) * p) + j * (p * p)
  {
    assert (1 + p) * (1 + j * p) == 1 + j * p + p + p * (j * p);
    assert p * (j * p) == j * (p * p);
    assert (j + 1) * p == j * p + p;
  }

  /** A safe prime does not divide twice the square of its half. */
  lemma {:induction false} HalfSquared(p: nat, half: nat)
    requires IsPrime(p) && p == 2 * half + 1
    ensures (2 * (half * half)) % p != 0
  {
    assert 2 * (half * half) == (2 * half) * half;
    if (2 * (half * half)) % p == 0 {
      Euclid(2 * half, half, p);
      ModSmall(2 * half, p);
      ModSmall(half, p);
    }
  }

  /** The order of the squares divides p'q' for every square of a unit if and only if the two primes are distinct: with
      equal primes the square of 1 + p is the exception. */
  lemma {:induction false} DistinctPrimesNeeded(s: SafePrimes)
    requires SafePair(s)
    ensures Modulus(s) > 1
    ensures (forall x: int | IsUnitSquare(x, s) :: Pow(x, Order(s)) % Modulus(s) == 1) <==> s.p != s.q
  {
    hide Pow;
    Sizes(s);
    if s.p != s.q {
      forall x: int | IsUnitSquare(x, s) ensures Pow(x, Order(s)) % Modulus(s) == 1 {
        SquareOrder(x, s);
      }
    } else {
      EqualPrimesFail(s);
    }
  }

  lemma {:induction false} EqualPrimesFail(s: SafePrimes)
    requires SafePair(s) && s.p == s.q
    ensures Modulus(s) > 1 && IsUnitSquare((1 + s.p) * (1 + s.p), s)
    ensures Pow((1 + s.p) * (1 + s.p), Order(s)) % Modulus(s) != 1
  {
    hide Pow;
    Sizes(s);
    var p, h, y := s.p, s.pPrime, 1 + s.p;
    ModAddMultiple(1, 1, p);
    ModSmall(1, p);
    assert SquareOf(y * y, y, s);
    PowTwo(y);
    PowMul(y, 2, h * h);
    var k := 2 * (h * h);
    PowerNearOne(p, k);
    HalfSquared(p, h);
    if (1 + k * p) % (p * p) == 1 {
      ModSmall(1, p * p);
      var m := ModDiff(1 + k * p, 1, p * p);
      assert k * p == (m * p) * p;
      CancelFactor(k, m * p, p);
      ModAddMultiple(0, m, p);
      ModSmall(0, p);
      assert false;
    }
  }

  lemma {:induction false} CancelFactor(a: int, b: int, p: int)
    requires p > 0 && a * p == b * p
    ensures a == b
  {
    assert (a - b) * p == 0;
  }
}
