/** Residues modulo n, powers, and inverses: what math/big's Mod, Exp and ModInverse compute. */
module ModArith {

  lemma {:induction false} MulMono(a: nat, b: nat, k: nat)
    ensures a <= b ==> a * k <= b * k
  {
  }

  // ------------------------------------------------------------------ residues

  lemma {:induction false} ModUnique(a: int, q: int, r: int, n: int)
    requires n > 0 && a == q * n + r && 0 <= r < n
    ensures a % n == r && a / n == q
  {
    var d := a / n - q;
    assert d * n == r - a % n by {
      assert a == (a / n) * n + a % n;
    }
    assert d >= 1 ==> d * n >= n;
    assert d <= -1 ==> d * n <= -n;
  }

  lemma {:induction false} ModAddMultiple(a: int, k: int, n: int)
    requires n > 0
    ensures (a + k * n) % n == a % n
  {
    assert a + k * n == (a / n + k) * n + a % n by {
      assert a == (a / n) * n + a % n;
    }
    ModUnique(a + k * n, a / n + k, a % n, n);
  }

  /** Congruence as a witness: equal residues differ by a multiple. */
  lemma {:induction false} ModDiff(a: int, b: int, n: int) returns (k: int)
    requires n > 0 && a % n == b % n
    ensures a == b + k * n
  {
    k := a / n - b / n;
    assert a == (a / n) * n + a % n;
    assert b == (b / n) * n + b % n;
  }

  lemma {:induction false} ModAdd(a: int, a': int, b: int, b': int, n: int)
    requires n > 0 && a % n == a' % n && b % n == b' % n
    ensures (a + b) % n == (a' + b') % n && (a - b) % n == (a' - b') % n
  {
    var k := ModDiff(a, a', n);
    var m := ModDiff(b, b', n);
    assert a + b == (a' + b') + (k + m) * n;
    assert a - b == (a' - b') + (k - m) * n;
    ModAddMultiple(a' + b', k + m, n);
    ModAddMultiple(a' - b', k - m, n);
  }

  lemma {:induction false} ModMul(a: int, a': int, b: int, b': int, n: int)
    requires n > 0 && a % n == a' % n && b % n == b' % n
    ensures (a * b) % n == (a' * b') % n
  {
    var k := ModDiff(a, a', n);
    var m := ModDiff(b, b', n);
    Expand(a', k, b', m, n);
    ModAddMultiple(a' * b', a' * m + k * b' + k * m * n, n);
  }

  lemma {:induction false} Expand(a: int, k: int, b: int, m: int, n: int)
    ensures (a + k * n) * (b + m * n) == a * b + (a * m + k * b + k * m * n) * n
  {
    var x, y := k * n, m * n;
    assert (a + x) * (b + y) == a * b + a * y + x * b + x * y;
    assert a * y == (a * m) * n;
    assert x * b == (k * b) * n;
    assert x * y == (k * m * n) * n;
  }

  lemma {:induction false} ModSmall(a: int, n: int)
    requires 0 <= a < n
    ensures a % n == a
  {
    ModUnique(a, 0, a, n);
  }

  lemma {:induction false} ModMod(a: int, n: int)
    requires n > 0
    ensures 0 <= a % n < n && (a % n) % n == a % n
  {
    ModSmall(a % n, n);
  }

  // ------------------------------------------------------------------ powers

  function Pow(b: int, e: nat): int {
    if e == 0 then 1 else b * Pow(b, e - 1)
  }

  lemma {:induction false} PowAdd(b: int, x: nat, y: nat)
    ensures Pow(b, x + y) == Pow(b, x) * Pow(b, y)
  {
    if x > 0 {
      PowAdd(b, x - 1, y);
      assert Pow(b, x + y) == b * (Pow(b, x - 1) * Pow(b, y)) == (b * Pow(b, x - 1)) * Pow(b, y);
    }
  }

  lemma {:induction false} PowMul(b: int, x: nat, y: nat)
    ensures Pow(b, x * y) == Pow(Pow(b, x), y)
  {
    if y > 0 {
      PowMul(b, x, y - 1);
      assert x * y == x + x * (y - 1);
      PowAdd(b, x, x * (y - 1));
    } else {
      assert x * 0 == 0;
    }
  }

  lemma {:induction false} Shuffle(a: int, b: int, x: int, y: int)
    ensures (a * b) * (x * y) == (a * x) * (b * y)
  {
    assert (a * b) * (x * y) == a * (b * (x * y)) == a * (x * (b * y));
  }

  lemma {:induction false} PowProduct(a: int, b: int, e: nat)
    ensures Pow(a * b, e) == Pow(a, e) * Pow(b, e)
  {
    if e > 0 {
      PowProduct(a, b, e - 1);
      Shuffle(a, b, Pow(a, e - 1), Pow(b, e - 1));
    }
  }

  lemma {:induction false} PowOne(e: nat)
    ensures Pow(1, e) == 1
  {
    if e > 0 { PowOne(e - 1); }
  }

  lemma {:induction false} PowCong(a: int, b: int, e: nat, n: int)
    requires n > 0 && a % n == b % n
    ensures Pow(a, e) % n == Pow(b, e) % n
  {
    if e > 0 {
      PowCong(a, b, e - 1, n);
      ModMul(a, b, Pow(a, e - 1), Pow(b, e - 1), n);
    }
  }

  /** big.Int's Exp for a positive modulus. */
  function Exp(b: int, e: nat, n: int): (r: int)
    requires n > 0
    ensures 0 <= r < n
  {
    Pow(b, e) % n
  }

  lemma {:induction false} PowZero(b: int)
    ensures Pow(b, 0) == 1
  {
  }

  /** (b^x mod n)^y = b^(y x) mod n. */
  lemma {:induction false} ExpOfExp(b: int, x: nat, y: nat, n: int)
    requires n > 0
    ensures y * x >= 0 && Exp(Exp(b, x, n), y, n) == Exp(b, y * x, n)
  {
    hide Pow;
    ModMod(Pow(b, x), n);
    PowCong(Pow(b, x) % n, Pow(b, x), y, n);
    PowMul(b, x, y);
    assert x * y == y * x;
  }

  lemma {:induction false} ExpProduct(b: int, x: nat, y: nat, n: int)
    requires n > 0
    ensures (Exp(b, x, n) * Exp(b, y, n)) % n == Exp(b, x + y, n)
  {
    hide Pow;
    PowAdd(b, x, y);
    ModMod(Pow(b, x), n);
    ModMod(Pow(b, y), n);
    ModMul(Pow(b, x) % n, Pow(b, x), Pow(b, y) % n, Pow(b, y), n);
  }
}
