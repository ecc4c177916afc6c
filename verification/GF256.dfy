/** GF(2^8) with the polynomial x^8 + x^4 + x^3 + x + 1, multiplied through tables of the powers of 3. */
module GF256 {
  import opened Pigeonhole

  /** gfAdd, which is also subtraction. */
  function Add(a: bv8, b: bv8): bv8 {
    a ^ b
  }

  lemma {:induction false} AddComm(a: bv8, b: bv8)
    ensures Add(a, b) == Add(b, a)
  {
  }

  lemma {:induction false} AddAssoc(a: bv8, b: bv8, c: bv8)
    ensures Add(Add(a, b), c) == Add(a, Add(b, c))
  {
  }

  lemma {:induction false} AddZero(a: bv8)
    ensures Add(a, 0) == a && Add(0, a) == a && Add(a, a) == 0
  {
  }

  lemma {:induction false} AddCancel(a: bv8, b: bv8)
    ensures Add(a, b) == 0 <==> a == b
    ensures Add(a, Add(a, b)) == b
  {
  }

  // ------------------------------------------------------------------ the table-building step

  /** What multiplying by x overflows into. */
  function Carry(x: bv8): bv8 {
    if x & 0x80 != 0 then 0x1b else 0
  }

  /** One step of the table loop: {03} * x = xtime(x) XOR x. */
  function Times3(x: bv8): bv8 {
    ((x << 1) ^ Carry(x)) ^ x
  }

  /** The step applied i times. */
  function Iterate(i: nat, b: bv8): bv8 {
    if i == 0 then b else Times3(Iterate(i - 1, b))
  }

  /** 3^i, the contents of gfExp. */
  function Pow3(i: nat): bv8 {
    Iterate(i, 1)
  }

  lemma {:induction false} ShiftXor(a: bv8, b: bv8)
    ensures (a ^ b) << 1 == (a << 1) ^ (b << 1)
  {
  }

  lemma {:induction false} CarryXor(a: bv8, b: bv8)
    ensures Carry(a ^ b) == Carry(a) ^ Carry(b)
  {
  }

  lemma {:induction false} XorSwap(p: bv8, q: bv8, r: bv8, s: bv8)
    ensures (p ^ q) ^ (r ^ s) == (p ^ r) ^ (q ^ s)
  {
  }

  /** The step is linear over XOR. */
  lemma {:induction false} Times3Sum(a: bv8, b: bv8)
    ensures Times3(Add(a, b)) == Add(Times3(a), Times3(b))
  {
    hide Carry;
    ShiftXor(a, b);
    CarryXor(a, b);
    XorSwap(a << 1, b << 1, Carry(a), Carry(b));
    XorSwap((a << 1) ^ Carry(a), (b << 1) ^ Carry(b), a, b);
  }

  lemma {:induction false} Times3Injective(a: bv8, b: bv8)
    ensures Times3(a) == Times3(b) <==> a == b
    ensures Times3(0) == 0
  {
  }

  lemma {:induction false} IterateSum(i: nat, a: bv8, b: bv8)
    ensures Iterate(i, Add(a, b)) == Add(Iterate(i, a), Iterate(i, b))
  {
    hide Times3, Add;
    if i > 0 {
      IterateSum(i - 1, a, b);
      Times3Sum(Iterate(i - 1, a), Iterate(i - 1, b));
    }
  }

  lemma {:induction false} IterateAdd(i: nat, j: nat, b: bv8)
    ensures Iterate(i + j, b) == Iterate(i, Iterate(j, b))
  {
    hide Times3;
    if i > 0 {
      IterateAdd(i - 1, j, b);
    }
  }

  lemma {:induction false} IterateInjective(i: nat, a: bv8, b: bv8)
    ensures Iterate(i, a) == Iterate(i, b) <==> a == b
    ensures Iterate(i, 0) == 0
  {
    hide Times3;
    if i > 0 {
      IterateInjective(i - 1, a, b);
      Times3Injective(Iterate(i - 1, a), Iterate(i - 1, b));
    }
  }

  lemma {:induction false} Pow3Nonzero(i: nat)
    ensures Pow3(i) != 0
  {
    hide Iterate;
    IterateInjective(i, 1, 0);
  }

  // ------------------------------------------------------------------ 3 generates the multiplicative group

  lemma {:induction false} Iterate4(i: nat, b: bv8)
    ensures Iterate(i + 4, b) == Times3(Times3(Times3(Times3(Iterate(i, b)))))
  {
    hide Times3;
    assert Iterate(i + 2, b) == Times3(Times3(Iterate(i, b)));
  }

  /** Sixteen steps at once, on one value. */
  lemma {:induction false} Iterate16(i: nat, x: bv8, y: bv8)
    requires Pow3(i) == x
    requires var x1 := Times3(Times3(Times3(Times3(x)))); var x2 := Times3(Times3(Times3(Times3(x1))));
             var x3 := Times3(Times3(Times3(Times3(x2)))); y == Times3(Times3(Times3(Times3(x3))))
    ensures Pow3(i + 16) == y
  {
    hide Times3;
    Iterate4(i, 1);
    Iterate4(i + 4, 1);
    Iterate4(i + 8, 1);
    Iterate4(i + 12, 1);
  }

  /** The powers of 3 that settle its order. */
  lemma {:induction false} Checkpoints()
    ensures Pow3(15) == 0x35 && Pow3(51) == 0x0c && Pow3(85) == 0xbd
    ensures Pow3(255) == 0x01
  {
    hide Iterate;
    assert Pow3(0) == 0x01 by { Pow3Start(); }
    Iterate16(0, 0x01, 0x5f);
    Iterate16(16, 0x5f, 0xe5);
    Iterate16(32, 0xe5, 0x53);
    Iterate16(48, 0x53, 0x4c);
    Iterate16(64, 0x4c, 0x83);
    Iterate16(80, 0x83, 0xb5);
    Iterate16(96, 0xb5, 0xfe);
    Iterate16(112, 0xfe, 0xfb);
    Iterate16(128, 0xfb, 0xc3);
    Iterate16(144, 0xc3, 0x9f);
    Iterate16(160, 0x9f, 0x9b);
    Iterate16(176, 0x9b, 0xfc);
    Iterate16(192, 0xfc, 0x45);
    Iterate16(208, 0x45, 0x12);
    Iterate16(224, 0x12, 0x39);
    Iterate16(240, 0x39, 0x03);
    PowerBack(15);
    PowerBack(255);
    Pow3Next(48);
    Pow3Next(49);
    Pow3Next(50);
    Iterate4(80, 1);
    Pow3Next(84);
  }

  lemma {:induction false} Pow3Start()
    ensures Pow3(0) == 1
  {
  }

  lemma {:induction false} Pow3Next(i: nat)
    ensures Pow3(i + 1) == Times3(Pow3(i))
  {
  }

  /** One step back from a multiple of sixteen. */
  lemma {:induction false} PowerBack(i: nat)
    requires Pow3(i + 1) == if i == 15 then 0x5f else 0x03
    requires i == 15 || i == 255
    ensures Pow3(i) == if i == 15 then 0x35 else 0x01
  {
    Pow3Next(i);
    Times3Injective(Pow3(i), if i == 15 then 0x35 else 0x01);
  }

  /** Powers add: one period more changes nothing. */
  lemma {:induction false} Pow3Add(i: nat, j: nat)
    ensures Pow3(i + j) == Iterate(i, Pow3(j))
  {
    IterateAdd(i, j, 1);
  }

  lemma {:induction false} PeriodMinus(a: nat, b: nat)
    requires Pow3(a) == 1 && Pow3(b) == 1 && a >= b
    ensures Pow3(a - b) == 1
  {
    hide Iterate;
    Pow3Add(b, a - b);
    IterateInjective(b, Pow3(a - b), 1);
  }

  /** Euclid by subtraction: two periods have a common divisor that is a period. */
  lemma {:induction false} PeriodDivisor(a: nat, b: nat) returns (g: nat, x: nat, y: nat)
    requires a > 0 && b > 0 && Pow3(a) == 1 && Pow3(b) == 1
    ensures g > 0 && Pow3(g) == 1 && a == g * x && b == g * y && x > 0 && y > 0
    decreases a + b
  {
    hide Iterate, Pow3;
    if a == b {
      g, x, y := a, 1, 1;
    } else if a > b {
      PeriodMinus(a, b);
      g, x, y := PeriodDivisor(a - b, b);
      assert g * (x + y) == g * x + g * y;
      x := x + y;
    } else {
      PeriodMinus(b, a);
      g, x, y := PeriodDivisor(a, b - a);
      assert g * (x + y) == g * x + g * y;
      y := x + y;
    }
  }

  lemma {:induction false} PeriodMultiple(g: nat, m: nat)
    requires Pow3(g) == 1
    ensures Pow3(g * m) == 1
  {
    hide Iterate;
    if m == 0 {
      assert g * 0 == 0;
      Pow3Start();
    } else {
      PeriodMultiple(g, m - 1);
      assert g * m == g + g * (m - 1);
      Pow3Add(g, g * (m - 1));
    }
  }

  /** A proper divisor of 255 = 3 * 5 * 17 divides 85, 51 or 15. */
  lemma {:induction false} ProperDivisor(g: nat, x: nat) returns (m: nat)
    requires g * x == 255 && x > 1
    ensures g * m == 85 || g * m == 51 || g * m == 15
  {
    var small := if g <= x then g else x;
    assert small >= 16 ==> g * x >= 16 * 16 by {
      if small >= 16 { MulLower(g, x); }
    }
    if g <= x {
      SmallFactor(g, x);
      m := if g == 1 then 15 else if g == 3 then 5 else if g == 5 then 3 else 1;
    } else {
      SmallFactor(x, g);
      m := if x == 15 then 3 else 1;
    }
  }

  lemma {:induction false} MulLower(a: nat, b: nat)
    requires a >= 16 && b >= 16
    ensures a * b >= 16 * 16
  {
    assert a * b >= 16 * b;
  }

  lemma {:induction false} SmallFactor(a: nat, b: nat)
    requires 1 <= a <= 15 && a * b == 255
    ensures a == 1 || a == 3 || a == 5 || a == 15
  {
    assert a == 2 ==> 2 * b == 255;
    assert a == 4 ==> 4 * b == 255;
    assert a == 6 ==> 6 * b == 255;
    assert a == 7 ==> 7 * b == 255;
    assert a == 8 ==> 8 * b == 255;
    assert a == 9 ==> 9 * b == 255;
    assert a == 10 ==> 10 * b == 255;
    assert a == 11 ==> 11 * b == 255;
    assert a == 12 ==> 12 * b == 255;
    assert a == 13 ==> 13 * b == 255;
    assert a == 14 ==> 14 * b == 255;
  }

  /** 3 has order exactly 255. */
  lemma {:induction false} NoShorterPeriod(d: nat)
    requires 0 < d < 255
    ensures Pow3(d) != 1
  {
    hide Iterate, Pow3;
    Checkpoints();
    if Pow3(d) == 1 {
      var g, x, y := PeriodDivisor(255, d);
      assert g * y >= g;
      var m := ProperDivisor(g, x);
      PeriodMultiple(g, m);
    }
  }

  lemma {:induction false} PowersDistinct(i: nat, j: nat)
    requires i < j < 255
    ensures Pow3(i) != Pow3(j)
  {
    hide Iterate;
    if Pow3(i) == Pow3(j) {
      Pow3Add(i, j - i);
      Pow3Add(i, 0);
      Pow3Start();
      IterateInjective(i, Pow3(j - i), 1);
      NoShorterPeriod(j - i);
    }
  }

  /** Every non-zero byte is a power of 3. */
  lemma {:induction false} EveryByteIsPower(x: bv8) returns (i: nat)
    requires x != 0
    ensures i < 255 && Pow3(i) == x
  {
    hide Iterate, Pow3;
    var s := seq(255, k requires 0 <= k < 255 => Pow3(k) as int - 1);
    forall k | 0 <= k < 255 ensures 0 <= s[k] < 255 {
      Pow3Nonzero(k);
      ByteRange(Pow3(k));
    }
    forall k, m | 0 <= k < m < 255 ensures s[k] != s[m] {
      PowersDistinct(k, m);
      ByteInjective(Pow3(k), Pow3(m));
    }
    ByteRange(x);
    EveryNumberOccurs(s, x as int - 1);
    i :| 0 <= i < 255 && s[i] == x as int - 1;
    ByteInjective(Pow3(i), x);
  }

  lemma {:induction false} PowerExists(x: bv8)
    requires x != 0
    ensures exists i :: 0 <= i < 255 && Pow3(i) == x
  {
    var i := EveryByteIsPower(x);
  }

  lemma {:induction false} ByteRange(x: bv8)
    ensures 0 <= x as int < 256 && (x as int == 0 <==> x == 0)
  {
    ByteInjective(x, 0);
  }

  lemma {:induction false} ByteInjective(x: bv8, y: bv8)
    ensures x as int == y as int <==> x == y
  {
    assert (x as int) as bv8 == x && (y as int) as bv8 == y;
  }

  // ------------------------------------------------------------------ logarithm, multiplication, inverse

  function LogFrom(x: bv8, i: nat): (r: nat)
    requires exists k :: i <= k < 255 && Pow3(k) == x
    ensures i <= r < 255 && Pow3(r) == x
    decreases 255 - i
  {
    if Pow3(i) == x then i else LogFrom(x, i + 1)
  }

  /** gfLog. */
  function Log(x: bv8): (r: nat)
    requires x != 0
    ensures r < 255 && Pow3(r) == x
  {
    PowerExists(x);
    LogFrom(x, 0)
  }

  /** gfMul. */
  function Mul(a: bv8, b: bv8): bv8 {
    if a == 0 || b == 0 then 0 else Pow3(Log(a) + Log(b))
  }

  /** gfInv, which panics on zero. */
  function Inv(a: bv8): bv8
    requires a != 0
  {
    Pow3(255 - Log(a))
  }

  /** Multiplying by 3^i is the table step applied i times, whatever exponent names the factor. */
  lemma {:induction false} MulIsIterate(i: nat, b: bv8)
    ensures Mul(Pow3(i), b) == Iterate(i, b)
  {
    hide Iterate, Pow3, Log;
    Pow3Nonzero(i);
    IterateInjective(i, 0, 0);
    if b != 0 {
      var a := Pow3(i);
      IterateByValue(Log(a), i, b);
      Pow3Log(a);
      PowersCombine(Log(a), Log(b));
      Pow3Log(b);
    }
  }

  lemma {:induction false} Pow3Log(x: bv8)
    requires x != 0
    ensures Pow3(Log(x)) == x
  {
  }

  lemma {:induction false} PowersCombine(i: nat, j: nat)
    ensures Pow3(i + j) == Iterate(i, Pow3(j)) == Iterate(j, Pow3(i))
  {
    Pow3Add(i, j);
    Pow3Add(j, i);
  }

  lemma {:induction false} IterateByValue(m: nat, n: nat, b: bv8)
    requires Pow3(m) == Pow3(n)
    ensures Iterate(m, b) == Iterate(n, b)
  {
    hide Iterate, Pow3;
    if b == 0 {
      IterateInjective(m, 0, 0);
      IterateInjective(n, 0, 0);
    } else {
      Pow3Log(b);
      PowersCombine(m, Log(b));
      PowersCombine(n, Log(b));
    }
  }

  // ------------------------------------------------------------------ the field laws

  lemma {:induction false} MulComm(a: bv8, b: bv8)
    ensures Mul(a, b) == Mul(b, a)
  {
  }

  lemma {:induction false} MulSum(a: bv8, b: bv8, c: bv8)
    ensures Mul(a, Add(b, c)) == Add(Mul(a, b), Mul(a, c))
    ensures Mul(Add(b, c), a) == Add(Mul(b, a), Mul(c, a))
  {
    hide Iterate, Pow3, Mul, Add;
    MulComm(a, b);
    MulComm(a, c);
    MulComm(a, Add(b, c));
    if a == 0 {
      MulZero(b);
      MulZero(c);
      MulZero(Add(b, c));
      AddZero(0);
    } else {
      Pow3Log(a);
      MulIsIterate(Log(a), b);
      MulIsIterate(Log(a), c);
      MulIsIterate(Log(a), Add(b, c));
      IterateSum(Log(a), b, c);
    }
  }

  lemma {:induction false} MulZero(b: bv8)
    ensures Mul(0, b) == 0 && Mul(b, 0) == 0
  {
  }

  /** Doubling, in bits: a shift, reduced by the low byte of the field's polynomial when a bit falls out. Together with
      the laws this fixes the whole multiplication table. */
  lemma {:induction false} Doubling(x: bv8)
    ensures Mul(2, x) == if x & 0x80 != 0 then (x << 1) ^ 0x1b else x << 1
  {
    hide Mul, Pow3, Log;
    assert Pow3(1) == 3 == Add(2, 1) by { ThreeFirst(); }
    MulIsIterate(1, x);
    MulSum(x, 2, 1);
    MulOne(x);
    assert Iterate(1, x) == Times3(x) by { ThreeOnce(x); }
    DoubleBits(Mul(2, x), x);
  }

  lemma {:induction false} ThreeFirst()
    ensures Pow3(1) == 3
  {
    assert Iterate(0, 1) == 1;
  }

  lemma {:induction false} ThreeOnce(x: bv8)
    ensures Iterate(1, x) == Times3(x)
  {
    assert Iterate(0, x) == x;
  }

  lemma {:induction false} DoubleBits(d: bv8, x: bv8)
    requires Add(d, x) == Times3(x)
    ensures d == if x & 0x80 != 0 then (x << 1) ^ 0x1b else x << 1
  {
    assert d == Times3(x) ^ x;
    assert Times3(x) ^ x == (x << 1) ^ Carry(x);
  }

  lemma {:induction false} MulAssoc(a: bv8, b: bv8, c: bv8)
    ensures Mul(a, Mul(b, c)) == Mul(Mul(a, b), c)
  {
    hide Iterate, Pow3;
    if a != 0 && b != 0 {
      Pow3Log(a);
      Pow3Log(b);
      MulIsIterate(Log(b), c);
      MulIsIterate(Log(a), Mul(b, c));
      MulIsIterate(Log(a) + Log(b), c);
      IterateAdd(Log(a), Log(b), c);
    }
  }

  lemma {:induction false} MulOne(a: bv8)
    ensures Mul(a, 1) == a && Mul(1, a) == a
  {
    MulIsIterate(0, a);
    MulComm(a, 1);
  }

  lemma {:induction false} MulInverse(a: bv8)
    requires a != 0
    ensures Mul(a, Inv(a)) == 1 && Inv(a) != 0
  {
    hide Iterate, Pow3;
    Pow3Log(a);
    MulIsIterate(Log(a), Inv(a));
    PowersCombine(Log(a), 255 - Log(a));
    Checkpoints();
    Pow3Nonzero(255 - Log(a));
  }

  lemma {:induction false} NoZeroDivisors(a: bv8, b: bv8)
    ensures Mul(a, b) == 0 <==> a == 0 || b == 0
  {
    hide Iterate;
    if a != 0 && b != 0 {
      Pow3Nonzero(Log(a) + Log(b));
    }
  }

  // ------------------------------------------------------------------ the tables

  ghost predicate PowersStored(gfExp: array<bv8>, n: nat)
    reads gfExp
  {
    n <= gfExp.Length && forall i: nat | i < n :: gfExp[i] == Pow3(i)
  }

  ghost predicate LogsStored(gfLog: array<int>, n: nat)
    reads gfLog
  {
    gfLog.Length == 256 && forall i: nat | i < n :: Pow3(i) as int < 256 && gfLog[Pow3(i) as int] == i
  }

  /** The first table loop: powers and logarithms below the order of 3. */
  method FillPowers(gfExp: array<bv8>, gfLog: array<int>)
    requires gfExp.Length == 512 && gfLog.Length == 256
    modifies gfExp, gfLog
    ensures PowersStored(gfExp, 255) && LogsStored(gfLog, 255)
  {
    hide Iterate, Pow3, Times3;
    var x: bv8 := 1;
    Pow3Start();
    for i := 0 to 255
      invariant x == Pow3(i) && PowersStored(gfExp, i) && LogsStored(gfLog, i)
    {
      ByteRange(x);
      forall k: nat | k < i ensures Pow3(k) as int != x as int {
        PowersDistinct(k, i);
        ByteInjective(Pow3(k), x);
      }
      gfExp[i] := x;
      gfLog[x as int] := i;
      var previous := x;
      if x & 0x80 != 0 {
        x := (x << 1) ^ 0x1b;
      } else {
        x := x << 1;
      }
      x := x ^ previous;
      Times3Step(previous);
      Pow3Next(i);
    }
  }

  /** The second table loop: a copy of the powers, so that a sum of two logarithms needs no reduction. */
  method DuplicatePowers(gfExp: array<bv8>)
    requires gfExp.Length == 512 && PowersStored(gfExp, 255)
    modifies gfExp
    ensures PowersStored(gfExp, 512)
  {
    hide Iterate, Pow3;
    for i := 255 to 512
      invariant PowersStored(gfExp, i)
    {
      PowerPeriod(i - 255);
      gfExp[i] := gfExp[i - 255];
    }
  }

  /** The package's two tables, filled once at start-up. */
  class Tables {
    const gfExp: array<bv8>
    const gfLog: array<int>

    ghost predicate Valid()
      reads gfExp, gfLog
    {
      gfExp.Length == 512 && PowersStored(gfExp, 512) && LogsStored(gfLog, 255)
    }

    constructor ()
      ensures Valid() && fresh(gfExp) && fresh(gfLog)
    {
      gfExp, gfLog := new bv8[512], new int[256];
      new;
      FillPowers(gfExp, gfLog);
      DuplicatePowers(gfExp);
    }

    lemma {:induction false} Lookup(x: bv8)
      requires Valid() && x != 0
      ensures 0 <= x as int < 256 && gfLog[x as int] == Log(x)
    {
      hide Iterate, Pow3;
      Pow3Log(x);
      assert gfLog[Pow3(Log(x)) as int] == Log(x);
      ByteRange(x);
    }

    /** gfMul, by table lookup. */
    function TableMul(a: bv8, b: bv8): (r: bv8)
      requires Valid()
      reads gfExp, gfLog
      ensures r == Mul(a, b)
    {
      if a == 0 || b == 0 then 0
      else
        Lookup(a);
        Lookup(b);
        gfExp[gfLog[a as int] + gfLog[b as int]]
    }

    /** gfInv, by table lookup. */
    function TableInv(a: bv8): (r: bv8)
      requires Valid() && a != 0
      reads gfExp, gfLog
      ensures r == Inv(a)
    {
      Lookup(a);
      gfExp[255 - gfLog[a as int]]
    }
  }

  lemma {:induction false} Times3Step(x: bv8)
    ensures Times3(x) == (if x & 0x80 != 0 then (x << 1) ^ 0x1b else x << 1) ^ x
  {
  }

  lemma {:induction false} PowerPeriod(i: nat)
    ensures Pow3(i + 255) == Pow3(i)
  {
    hide Iterate;
    Checkpoints();
    PowersCombine(i, 255);
    PowersCombine(i, 0);
    Pow3Start();
  }
}
