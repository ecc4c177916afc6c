/** Greatest common divisors, inverses modulo n, and primes. */
module NumberTheory {
  import opened ModArith
  import opened Options

  ghost predicate Divides(d: int, a: int) {
    d != 0 && a % d == 0
  }

  ghost predicate IsPrime(p: int) {
    p > 1 && forall d | 1 < d < p :: !Divides(d, p)
  }

  /** Bezout coefficients: what the extended Euclidean algorithm computes. */
  datatype Bezout = Bezout(g: int, x: int, y: int)

  function ExtendedGcd(a: nat, b: nat): (r: Bezout)
    ensures r.g == r.x * a + r.y * b && r.g >= 0
    ensures a + b > 0 ==> r.g > 0 && Divides(r.g, a) && Divides(r.g, b)
    decreases b
  {
    if b == 0 then
      Bezout(a, 1, 0)
    else
      var s := ExtendedGcd(b, a % b);
      assert s.g == s.y * a + (s.x - s.y * (a / b)) * b by { Rearrange(a, b, s.x, s.y); }
      GcdStep(a, b, s.g);
      Bezout(s.g, s.y, s.x - s.y * (a / b))
  }

  lemma {:induction false} Rearrange(a: nat, b: nat, x: int, y: int)
    requires b > 0
    ensures x * b + y * (a % b) == y * a + (x - y * (a / b)) * b
  {
    assert a % b == a - (a / b) * b;
    assert y * ((a / b) * b) == (y * (a / b)) * b;
    assert y * (a - (a / b) * b) == y * a - y * ((a / b) * b);
  }

  lemma {:induction false} GcdStep(a: nat, b: nat, g: int)
    requires b > 0
    ensures g > 0 && Divides(g, b) && Divides(g, a % b) ==> Divides(g, a)
  {
    if g > 0 && Divides(g, b) && Divides(g, a % b) {
      DividesMultiple(g, b, a / b);
      ModAdd((a / b) * b, 0, a % b, 0, g);
      assert a == (a / b) * b + a % b;
    }
  }

  lemma {:induction false} DividesMultiple(d: int, a: int, k: int)
    requires d > 0 && Divides(d, a)
    ensures (k * a) % d == 0 && (a * k) % d == 0
  {
    ModMul(k, k, a, 0, d);
    assert k * 0 == 0;
    assert k * a == a * k;
  }

  /** big.Int's ModInverse: the inverse in [0, n), or nothing when a and n have a common divisor. */
  function ModInverse(a: int, n: int): (r: Option<int>)
    requires n > 0
    ensures r.Some? ==> 0 <= r.value < n && (a * r.value) % n == 1 % n && (r.value * a) % n == 1 % n
    ensures r.None? ==> exists d :: d > 1 && Divides(d, a) && Divides(d, n)
  {
    var b := ExtendedGcd(a % n, n);
    if b.g == 1 then
      InverseFromBezout(a, n, b.x, b.y);
      Some(b.x % n)
    else
      CommonDivisor(a, n, b.g);
      None
  }

  /** There is an inverse exactly when one is the only common divisor. */
  lemma {:induction false} InverseExists(a: int, n: int)
    requires n > 1
    ensures ModInverse(a, n).None? <==> exists d :: d > 1 && Divides(d, a) && Divides(d, n)
  {
    hide ModInverse;
    if ModInverse(a, n).Some? && exists d :: d > 1 && Divides(d, a) && Divides(d, n) {
      var d :| d > 1 && Divides(d, a) && Divides(d, n);
      var inv := ModInverse(a, n).value;
      ModSmall(1, n);
      var m := ModDiff(a * inv, 1, n);
      DividesMultiple(d, a, inv);
      DividesMultiple(d, n, m);
      ModSmall(0, d);
      ModAdd(a * inv, 0, m * n, 0, d);
      ModSmall(1, d);
    }
  }

  lemma {:induction false} InverseFromBezout(a: int, n: int, x: int, y: int)
    requires n > 0 && 1 == x * (a % n) + y * n
    ensures (a * (x % n)) % n == 1 % n && ((x % n) * a) % n == 1 % n
  {
    ModAddMultiple(1, -y, n);
    ModMod(a, n);
    ModMod(x, n);
    assert 1 + (-y) * n == x * (a % n);
    ModMul(x, x, a, a % n, n);
    ModMul(x % n, x, a, a, n);
    assert a * (x % n) == (x % n) * a;
  }

  lemma {:induction false} CommonDivisor(a: int, n: int, g: int)
    requires n > 0 && g > 1 && Divides(g, n)
    ensures Divides(g, a) <==> Divides(g, a % n)
  {
    DividesMultiple(g, n, a / n);
    assert a == (a / n) * n + a % n;
    ModSmall(0, g);
    if Divides(g, a) {
      ModAdd(a, 0, (a / n) * n, 0, g);
    }
    if Divides(g, a % n) {
      ModAdd((a / n) * n, 0, a % n, 0, g);
    }
  }

  /** A divisor of a prime is the prime itself. */
  lemma {:induction false} PrimeDivisor(p: int, d: int)
    requires IsPrime(p) && d > 1 && Divides(d, p)
    ensures d == p
  {
    if d > p { ModSmall(p, d); }
  }

  /** Modulo a prime everything but the multiples of the prime has an inverse. */
  lemma {:induction false} PrimeInverse(a: int, p: int)
    requires IsPrime(p) && a % p != 0
    ensures ModInverse(a, p).Some?
  {
    if ModInverse(a, p).None? {
      var d :| d > 1 && Divides(d, a) && Divides(d, p);
      PrimeDivisor(p, d);
    }
  }

  /** Euclid's lemma. */
  lemma {:induction false} Euclid(a: int, b: int, p: int)
    requires IsPrime(p) && (a * b) % p == 0
    ensures a % p == 0 || b % p == 0
  {
    if a % p != 0 {
      PrimeInverse(a, p);
      var i := ModInverse(a, p).value;
      ModMul(i * a, 1, b, b, p);
      ModMul(i, i, a * b, 0, p);
      assert i * 0 == 0 && 1 * b == b;
      assert (i * a) * b == i * (a * b);
      ModSmall(0, p);
    }
  }
}
