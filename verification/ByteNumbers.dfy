/** Small numbers as bytes. */
module ByteValues {

  lemma {:induction false} ByteRoundTrip(j: int)
    requires 0 <= j < 256
    ensures (j as bv8) as int == j
  {
  }

  function Byte(j: int): (b: bv8)
    requires 0 <= j < 256
    ensures b as int == j
  {
    ByteRoundTrip(j);
    j as bv8
  }

  function ByteValue(b: bv8): (j: int)
    ensures 0 <= j < 256
  {
    b as int
  }

  lemma {:induction false} ByteOfValue(b: bv8, c: bv8)
    requires ByteValue(b) == ByteValue(c)
    ensures b == c
  {
  }
}

/** Byte strings as big-endian numbers: what big.Int's SetBytes, Bytes and BitLen do, and where they lose nothing. */
module ByteNumbers {
  import opened ModArith
  import opened ByteValues

  type Bytes = seq<bv8>

  // ------------------------------------------------------------------ numbers from bytes and back

  /** SetBytes: the big-endian value. */
  function SetBytes(b: Bytes): nat {
    if b == [] then 0 else SetBytes(b[..|b| - 1]) * 256 + ByteValue(b[|b| - 1])
  }

  /** Bytes: the shortest big-endian representation, empty for zero. */
  function MinBytes(x: nat): Bytes {
    if x == 0 then [] else MinBytes(x / 256) + [Byte(x % 256)]
  }

  function Zeros(size: nat): (z: Bytes)
    ensures |z| == size && forall i | 0 <= i < size :: z[i] == 0
  {
    seq(size, _ => 0)
  }

  lemma {:induction false} PowStep(n: nat)
    requires n > 0
    ensures Pow(256, n) == 256 * Pow(256, n - 1) && Pow(256, n - 1) > 0
  {
    PowPositive(256, n - 1);
  }

  lemma {:induction false} PowPositive(b: int, e: nat)
    requires b > 0
    ensures Pow(b, e) > 0
  {
    if e > 0 { PowPositive(b, e - 1); }
  }

  lemma {:induction false} PowMono(b: int, x: nat, y: nat)
    requires b > 0 && x <= y
    ensures Pow(b, x) <= Pow(b, y)
  {
    if x < y {
      PowMono(b, x, y - 1);
      PowPositive(b, y - 1);
    }
  }

  /** A string of n bytes is a number below 256^n. */
  lemma {:induction false} SetBytesBound(b: Bytes)
    ensures SetBytes(b) < Pow(256, |b|)
  {
    hide Pow;
    if b == [] {
      PowZero(256);
    } else {
      SetBytesBound(b[..|b| - 1]);
      PowStep(|b|);
    }
  }

  /** The bound is reached: n bytes that are all 255 are the number before it. */
  lemma {:induction false} LargestString(n: nat)
    ensures SetBytes(seq(n, _ => 255)) == Pow(256, n) - 1
  {
    hide Pow;
    var b: Bytes := seq(n, _ => 255);
    if n == 0 {
      PowZero(256);
    } else {
      LargestString(n - 1);
      assert b[..n - 1] == seq(n - 1, _ => 255);
      PowStep(n);
    }
  }

  /** Big-endian: the value of a string is made of the values of its parts. */
  lemma {:induction false} BigEndian(b: Bytes, c: Bytes)
    ensures SetBytes(b + c) == SetBytes(b) * Pow(256, |c|) + SetBytes(c)
  {
    hide Pow;
    if c == [] {
      PowZero(256);
      assert b + c == b;
    } else {
      var n := |c| - 1;
      BigEndian(b, c[..n]);
      assert (b + c)[..|b + c| - 1] == b + c[..n];
      PowStep(|c|);
      NextByte(SetBytes(b), Pow(256, n), SetBytes(c[..n]), ByteValue(c[n]));
    }
  }

  lemma {:induction false} NextByte(x: int, y: int, low: int, d: int)
    ensures (x * y + low) * 256 + d == x * (256 * y) + (low * 256 + d)
  {
    assert x * (256 * y) == 256 * (x * y);
  }

  lemma {:induction false} OneByte(x: bv8)
    ensures SetBytes([x]) == x as int && SetBytes([]) == 0
  {
    assert [x][..0] == [];
  }

  /** The shortest representation has no leading zero. */
  lemma {:induction false} NoLeadingZero(x: nat)
    ensures MinBytes(x) == [] <==> x == 0
    ensures x > 0 ==> MinBytes(x)[0] != 0
  {
    if x >= 256 {
      NoLeadingZero(x / 256);
    } else if x > 0 {
      assert MinBytes(x / 256) == [];
      assert Byte(x % 256) as int == x;
    }
  }

  /** A number below 256^n needs at most n bytes, and its shortest representation keeps its value. */
  lemma {:induction false} MinBytesValue(x: nat, n: nat)
    ensures SetBytes(MinBytes(x)) == x
    ensures x < Pow(256, n) ==> |MinBytes(x)| <= n
  {
    hide Pow;
    PowZero(256);
    if x > 0 {
      var b := MinBytes(x);
      assert b[..|b| - 1] == MinBytes(x / 256);
      if n > 0 {
        PowStep(n);
        MinBytesValue(x / 256, n - 1);
      } else {
        MinBytesValue(x / 256, 0);
      }
    }
  }

  /** Leading zeros do not change the value. */
  lemma {:induction false} LeadingZeros(k: nat, b: Bytes)
    ensures SetBytes(Zeros(k) + b) == SetBytes(b)
  {
    var z := Zeros(k) + b;
    if b == [] {
      if k > 0 {
        assert z[..|z| - 1] == Zeros(k - 1) + b;
        LeadingZeros(k - 1, b);
      }
    } else {
      assert z[..|z| - 1] == Zeros(k) + b[..|b| - 1];
      LeadingZeros(k, b[..|b| - 1]);
    }
  }

  /** Equally long strings with the same value are the same string. */
  lemma {:induction false} SetBytesInjective(b: Bytes, c: Bytes)
    requires |b| == |c| && SetBytes(b) == SetBytes(c)
    ensures b == c
  {
    if b != [] {
      var n := |b| - 1;
      assert SetBytes(b) == SetBytes(b[..n]) * 256 + ByteValue(b[n]);
      assert SetBytes(c) == SetBytes(c[..n]) * 256 + ByteValue(c[n]);
      ByteOfValue(b[n], c[n]);
      SetBytesInjective(b[..n], c[..n]);
      assert b == b[..n] + [b[n]] && c == c[..n] + [c[n]];
    }
  }

  /** The value written into n bytes from the right, as the copies into a fixed buffer do; the low bytes if it does
      not fit. */
  function FixedBytes(x: nat, n: nat): (r: Bytes)
    ensures |r| == n
  {
    var b := MinBytes(x);
    if |b| > n then b[|b| - n..] else Zeros(n - |b|) + b
  }

  /** Writing a value that fits into n bytes and reading it back. */
  lemma {:induction false} FixedBytesValue(x: nat, n: nat)
    requires x < Pow(256, n)
    ensures |MinBytes(x)| <= n && SetBytes(FixedBytes(x, n)) == x
  {
    hide Pow;
    MinBytesValue(x, n);
    LeadingZeros(n - |MinBytes(x)|, MinBytes(x));
  }

  /** A value that does not fit keeps its low bytes. */
  lemma {:induction false} FixedBytesLow(x: nat, n: nat)
    ensures Pow(256, n) > 0 && SetBytes(FixedBytes(x, n)) == x % Pow(256, n)
  {
    hide Pow, SetBytes, MinBytes;
    PowPositive(256, n);
    var b := MinBytes(x);
    MinBytesValue(x, n);
    if |b| > n {
      var k := |b| - n;
      assert b == b[..k] + b[k..];
      BigEndian(b[..k], b[k..]);
      SetBytesBound(b[k..]);
      ModUnique(x, SetBytes(b[..k]), SetBytes(b[k..]), Pow(256, n));
    } else {
      LeadingZeros(n - |b|, b);
      SetBytesBound(FixedBytes(x, n));
      ModSmall(x, Pow(256, n));
    }
  }

  /** Reading a string and writing its value back at the same length. */
  lemma {:induction false} FixedBytesInverse(b: Bytes)
    ensures FixedBytes(SetBytes(b), |b|) == b
  {
    hide Pow;
    SetBytesBound(b);
    FixedBytesValue(SetBytes(b), |b|);
    SetBytesInjective(FixedBytes(SetBytes(b), |b|), b);
  }

  // ------------------------------------------------------------------ bit lengths

  /** BitLen: the number of bits of a value. */
  function BitLen(x: nat): nat {
    if x == 0 then 0 else 1 + BitLen(x / 2)
  }

  lemma {:induction false} BitLenBound(x: nat, k: nat)
    ensures BitLen(x) > k <==> x >= Pow(2, k)
  {
    if x > 0 {
      if k > 0 {
        BitLenBound(x / 2, k - 1);
      }
    } else {
      PowPositive(2, k);
    }
  }

  /** More than 8 n bits: every string of n bytes is a smaller number. */
  lemma {:induction false} BitLenBytes(x: nat, n: nat)
    ensures BitLen(x) > 8 * n <==> x >= Pow(256, n)
  {
    hide Pow, BitLen;
    BitLenBound(x, 8 * n);
    PowMul(2, 8, n);
    PowTwoEight();
  }

  lemma {:induction false} PowTwoEight()
    ensures Pow(2, 8) == 256
  {
    PowAdd(2, 4, 4);
    PowAdd(2, 2, 2);
    assert Pow(2, 2) == 4;
  }

  /** The byte length of a bit length holds the value: big-endian encodings of residues modulo x fit. */
  lemma {:induction false} ByteLengthHolds(x: nat)
    ensures x < Pow(256, (BitLen(x) + 7) / 8)
  {
    hide Pow, BitLen;
    BitLenBytes(x, (BitLen(x) + 7) / 8);
  }
}
