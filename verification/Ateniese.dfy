/** The S-PDP scheme of Ateniese et al.: tags, proofs, and why honest proofs are accepted. */
module Ateniese {
  import opened ModArith
  import opened NumberTheory
  import opened ByteNumbers
  import opened Options
  import opened Pigeonhole
  import opened Fermat

  datatype PublicKey = PublicKey(n: int, g: int)

  datatype SecretKey = SecretKey(e: nat, d: nat, v: Bytes, phi: nat)

  /** Hashing into the squares modulo N, and the digest of the proof. */
  datatype Suite = Suite(id: int, hash: (Bytes, int) -> int, digest: Bytes -> Bytes)

  datatype Tag = Tag(suiteId: int, t: int)

  /** Suite, number of blocks, the order its first key determines, the coefficients of its second, and the blinded
      generator. */
  datatype Challenge = Challenge(suiteId: int, c: int, order: nat -> seq<int>, coeff: nat -> nat, gs: int)

  datatype Proof = Proof(t: int, rho: Bytes)

  // ------------------------------------------------------------------ keys

  ghost predicate Coprime(a: nat, b: nat) {
    ExtendedGcd(a, b).g == 1
  }

  /** e is coprime to phi, and no exponent drawn before it is. */
  ghost predicate FirstCoprime(draws: seq<nat>, phi: nat, e: nat) {
    exists i :: 0 <= i < |draws| && draws[i] == e && Coprime(e, phi) && forall k | 0 <= k < i :: !Coprime(draws[k], phi)
  }

  /** Coprime means that one is the only common divisor. */
  lemma {:induction false} CoprimeIff(a: nat, b: nat)
    requires b > 0
    ensures Coprime(a, b) <==> forall d :: d > 1 && Divides(d, a) ==> !Divides(d, b)
  {
    var r := ExtendedGcd(a, b);
    if Coprime(a, b) {
      forall d | d > 1 && Divides(d, a) ensures !Divides(d, b) {
        if Divides(d, b) {
          CombinationDivides(d, a, b, r.x, r.y);
          ModSmall(1, d);
        }
      }
    } else {
      assert r.g > 1 && Divides(r.g, a) && Divides(r.g, b);
    }
  }

  /** KeyGen once the primes are there: the first of the drawn exponents that is coprime to phi, and its inverse. */
  method KeyGen(s: SafePrimes, draws: seq<nat>, g: int, v: Bytes) returns (r: Option<(PublicKey, SecretKey)>)
    requires SafePair(s)
    ensures r.None? <==> forall i | 0 <= i < |draws| :: !Coprime(draws[i], Order(s))
    ensures r.Some? ==>
              && r.value.0 == PublicKey(Modulus(s), g) && r.value.1.v == v && r.value.1.phi == Order(s)
              && FirstCoprime(draws, Order(s), r.value.1.e) && (r.value.1.e * r.value.1.d) % Order(s) == 1
  {
    hide ExtendedGcd;
    Sizes(s);
    var N, phi := Modulus(s), Order(s);
    for i := 0 to |draws|
      invariant forall k | 0 <= k < i :: !Coprime(draws[k], phi)
    {
      var e := draws[i];
      if ExtendedGcd(e, phi).g == 1 {
        CoprimeInverse(e, phi);
        var d := ModInverse(e, phi);
        return Some((PublicKey(N, g), SecretKey(e, d.value, v, phi)));
      }
    }
    return None;
  }

  /** Coprime numbers have an inverse: the error after the loop cannot occur. */
  lemma {:induction false} CoprimeInverse(e: nat, phi: nat)
    requires phi > 1 && Coprime(e, phi)
    ensures ModInverse(e, phi).Some? && (e * ModInverse(e, phi).value) % phi == 1
  {
    ModSmall(1, phi);
    if ModInverse(e, phi).None? {
      var k :| k > 1 && Divides(k, e) && Divides(k, phi);
      var b := ExtendedGcd(e, phi);
      CombinationDivides(k, e, phi, b.x, b.y);
      ModSmall(1, k);
    }
  }

  lemma {:induction false} CombinationDivides(k: int, a: int, b: int, x: int, y: int)
    requires k > 1 && Divides(k, a) && Divides(k, b)
    ensures (x * a + y * b) % k == 0
  {
    DividesMultiple(k, a, x);
    DividesMultiple(k, b, y);
    ModSmall(0, k);
    ModAdd(x * a, 0, y * b, 0, k);
  }

  /** What key generation and hashing guarantee: a trapdoor over the squares modulo N, and only squares to work with. */
  ghost predicate GoodKey(s: SafePrimes, suite: Suite, pk: PublicKey, sk: SecretKey) {
    && ValidPrimes(s) && pk.n == Modulus(s) && sk.phi == Order(s) && sk.phi > 0 && (sk.e * sk.d) % sk.phi == 1
    && IsUnitSquare(pk.g, s) && forall w: Bytes :: IsUnitSquare(suite.hash(w, pk.n), s)
  }

  // ------------------------------------------------------------------ elements whose order divides phi

  ghost predicate OfOrder(x: int, phi: nat, N: int) {
    N > 1 && phi > 1 && Pow(x, phi) % N == 1
  }

  lemma {:induction false} OfOrderProduct(x: int, y: int, phi: nat, N: int)
    requires OfOrder(x, phi, N) && OfOrder(y, phi, N)
    ensures OfOrder(x * y, phi, N)
  {
    hide Pow;
    PowProduct(x, y, phi);
    ModSmall(1, N);
    ModMul(Pow(x, phi), 1, Pow(y, phi), 1, N);
  }

  lemma {:induction false} OfOrderPower(x: int, a: nat, phi: nat, N: int)
    requires OfOrder(x, phi, N)
    ensures OfOrder(Pow(x, a), phi, N)
  {
    hide Pow;
    PowMul(x, a, phi);
    PowMul(x, phi, a);
    assert a * phi == phi * a;
    ModSmall(1, N);
    PowCong(Pow(x, phi), 1, a, N);
    PowOne(a);
  }

  lemma {:induction false} OfOrderCong(x: int, y: int, phi: nat, N: int)
    requires OfOrder(x, phi, N) && x % N == y % N
    ensures OfOrder(y, phi, N)
  {
    PowCong(x, y, phi, N);
  }

  /** Exponents may be reduced modulo phi. */
  lemma {:induction false} ReduceExponent(x: int, a: nat, phi: nat, N: int)
    requires OfOrder(x, phi, N)
    ensures Pow(x, a) % N == Pow(x, a % phi) % N
  {
    hide Pow;
    var q, r := a / phi, a % phi;
    MulMono(0, phi, q);
    assert a == phi * q + r;
    PowAdd(x, phi * q, r);
    PowMul(x, phi, q);
    ModSmall(1, N);
    PowCong(Pow(x, phi), 1, q, N);
    PowOne(q);
    ModMul(Pow(Pow(x, phi), q), 1, Pow(x, r), Pow(x, r), N);
  }

  /** Raising to d and then to e gives the element back. */
  lemma {:induction false} Trapdoor(x: int, e: nat, d: nat, phi: nat, N: int)
    requires OfOrder(x, phi, N) && (e * d) % phi == 1
    ensures Pow(Pow(x, d), e) % N == x % N
  {
    MulMono(0, e, d);
    assert d * e == e * d;
    PowMul(x, d, e);
    ReduceExponent(x, d * e, phi, N);
    assert Pow(x, 1) == x * Pow(x, 0) == x;
  }

  /** Such an element is invertible. */
  lemma {:induction false} OfOrderInvertible(x: int, phi: nat, N: int)
    requires OfOrder(x, phi, N)
    ensures ModInverse(x, N).Some?
  {
    if ModInverse(x, N).None? {
      var k :| k > 1 && Divides(k, x) && Divides(k, N);
      NoCommonDivisor(x, phi, N, k);
    }
  }

  lemma {:induction false} NoCommonDivisor(x: int, phi: nat, N: int, k: int)
    requires OfOrder(x, phi, N) && k > 1 && Divides(k, N)
    ensures !Divides(k, x)
  {
    var z := Pow(x, phi);
    if Divides(k, x) {
      DividesMultiple(k, x, Pow(x, phi - 1));
      assert z == x * Pow(x, phi - 1);
      ModSmall(1, N);
      var m := ModDiff(1, z, N);
      DividesMultiple(k, N, m);
      ModSmall(0, k);
      ModAdd(z, 0, m * N, 0, k);
      ModSmall(1, k);
    }
  }

  // ------------------------------------------------------------------ tags

  /** The input of the hash. */
  function BlockW(v: Bytes, id: Bytes): Bytes {
    v + id
  }

  /** Different identifiers give the hash different inputs. */
  lemma {:induction false} BlockWInjective(v: Bytes, id: Bytes, id': Bytes)
    ensures BlockW(v, id) == BlockW(v, id') <==> id == id'
    ensures |BlockW(v, id)| == |v| + |id| && BlockW(v, id)[..|v|] == v
  {
    if BlockW(v, id) == BlockW(v, id') {
      assert id == BlockW(v, id)[|v|..] == BlockW(v, id')[|v|..] == id';
    }
  }

  /** What a block's tag is made of: its hashed identifier times g to its contents. */
  function TagBase(suite: Suite, pk: PublicKey, sk: SecretKey, m: Bytes, id: Bytes): int
    requires pk.n > 0
  {
    (Exp(pk.g, SetBytes(m), pk.n) * suite.hash(BlockW(sk.v, id), pk.n)) % pk.n
  }

  function TagBlock(suite: Suite, pk: PublicKey, sk: SecretKey, m: Bytes, id: Bytes): Tag
    requires pk.n > 0
  {
    Tag(suite.id, Exp(TagBase(suite, pk, sk, m, id), sk.d, pk.n))
  }

  // ------------------------------------------------------------------ proofs

  /** The product of the first c powers. */
  function PowProd(xs: seq<int>, exps: seq<nat>, c: nat): int
    requires c <= |xs| && c <= |exps|
  {
    if c == 0 then 1 else PowProd(xs, exps, c - 1) * Pow(xs[c - 1], exps[c - 1])
  }

  /** The sum of the first c products. */
  function WeightedSum(ms: seq<nat>, exps: seq<nat>, c: nat): nat
    requires c <= |ms| && c <= |exps|
  {
    if c == 0 then 0 else WeightedSum(ms, exps, c - 1) + exps[c - 1] * ms[c - 1]
  }

  /** What one entry contributes to the product: exchanging it exchanges its power. */
  lemma {:induction false} ExchangedFactor(xs: seq<int>, exps: seq<nat>, c: nat, j: nat, y: int)
    requires j < c <= |xs| && c <= |exps|
    ensures PowProd(xs[j := y], exps, c) * Pow(xs[j], exps[j]) == PowProd(xs, exps, c) * Pow(y, exps[j])
  {
    hide Pow;
    var p := PowProd(xs, exps, c - 1);
    if j == c - 1 {
      PowProdPrefix(xs[j := y], xs, exps, exps, c - 1);
      assert p * Pow(y, exps[j]) * Pow(xs[j], exps[j]) == p * Pow(xs[j], exps[j]) * Pow(y, exps[j]);
    } else {
      ExchangedFactor(xs, exps, c - 1, j, y);
      var q, a, b, z := PowProd(xs[j := y], exps, c - 1), Pow(xs[j], exps[j]), Pow(y, exps[j]),
          Pow(xs[c - 1], exps[c - 1]);
      assert q * z * a == (q * a) * z == (p * b) * z == p * z * b;
    }
  }

  /** Exchanging one entry of the sum changes it by the difference times its coefficient. */
  lemma {:induction false} ExchangedTerm(ms: seq<nat>, exps: seq<nat>, c: nat, j: nat, y: nat)
    requires j < c <= |ms| && c <= |exps|
    ensures WeightedSum(ms[j := y], exps, c) - WeightedSum(ms, exps, c) == exps[j] * (y - ms[j])
  {
    if j == c - 1 {
      WeightedSumPrefix(ms[j := y], ms, exps, c - 1);
    } else {
      ExchangedTerm(ms, exps, c - 1, j, y);
    }
  }

  lemma {:induction false} ProductStep(x: int, y: int, N: int)
    requires N > 0
    ensures ((x % N) * (y % N)) % N == (x * y) % N
  {
    ModMod(x, N);
    ModMod(y, N);
    ModMul(x % N, x, y % N, y, N);
  }

  /** The coefficients of positions 1 to c. */
  function Coeffs(chal: Challenge): (a: seq<nat>)
    ensures |a| == (if chal.c < 0 then 0 else chal.c)
    ensures forall j | 0 <= j < |a| :: a[j] == chal.coeff(j + 1)
  {
    seq(if chal.c < 0 then 0 else chal.c, j requires 0 <= j => chal.coeff(j + 1))
  }

  /** The challenge names some of n blocks and was made for this suite. */
  ghost predicate InRange(suite: Suite, chal: Challenge, n: nat) {
    chal.suiteId == suite.id && 1 <= chal.c <= n
  }

  /** Every sampled block has a tag of this suite. */
  ghost predicate Tagged(suite: Suite, chal: Challenge, n: nat, tags: map<int, Tag>)
    requires InRange(suite, chal, n) && IsPermutation(chal.order(n), n)
  {
    forall j | 0 <= j < chal.c :: HasTag(suite, tags, chal.order(n)[j])
  }

  ghost predicate HasTag(suite: Suite, tags: map<int, Tag>, i: int) {
    i in tags && tags[i].suiteId == suite.id
  }

  function TagValues(suite: Suite, chal: Challenge, n: nat, tags: map<int, Tag>): (ts: seq<int>)
    requires InRange(suite, chal, n) && IsPermutation(chal.order(n), n)
    requires Tagged(suite, chal, n, tags)
    ensures |ts| == chal.c
    ensures forall j | 0 <= j < |ts| :: HasTag(suite, tags, chal.order(n)[j]) && ts[j] == tags[chal.order(n)[j]].t
  {
    seq(chal.c, j requires 0 <= j < chal.c => assert HasTag(suite, tags, chal.order(n)[j]); tags[chal.order(n)[j]].t)
  }

  function BlockValues(chal: Challenge, store: seq<Bytes>): (ms: seq<nat>)
    requires 1 <= chal.c <= |store| && IsPermutation(chal.order(|store|), |store|)
    ensures |ms| == chal.c
    ensures forall j | 0 <= j < |ms| :: ms[j] == SetBytes(store[chal.order(|store|)[j]])
  {
    seq(chal.c, j requires 0 <= j < chal.c => SetBytes(store[chal.order(|store|)[j]]))
  }

  /** GenProof: refused for a wrong suite, a count out of range, or a sampled block without a tag of the suite. */
  method GenProof(suite: Suite, pk: PublicKey, store: seq<Bytes>, chal: Challenge, tags: map<int, Tag>)
    returns (r: Option<Proof>)
    requires pk.n > 0 && IsPermutation(chal.order(|store|), |store|)
    ensures r.Some? <==> InRange(suite, chal, |store|) && Tagged(suite, chal, |store|, tags)
    ensures r.Some? <==>
            && chal.suiteId == suite.id && 1 <= chal.c <= |store|
            && forall j | 0 <= j < chal.c :: var i := chal.order(|store|)[j]; i in tags && tags[i].suiteId == suite.id
    ensures r.Some? ==>
              r.value == Proof(PowProd(TagValues(suite, chal, |store|, tags), Coeffs(chal), chal.c) % pk.n,
                               suite.digest(MinBytes(Exp(chal.gs,
                                                         WeightedSum(BlockValues(chal, store), Coeffs(chal), chal.c),
                                                             pk.n))))
  {
    hide Exp, SetBytes, MinBytes, PowProd, WeightedSum, Coeffs, TagValues, BlockValues, IsPermutation;
    if chal.suiteId != suite.id { return None; }
    if chal.c < 1 || chal.c > |store| { return None; }
    var perm := chal.order(|store|);
    OrderBounds(perm, |store|);
    var T, mu := 1 % pk.n, 0;
    ghost var ts, ms, a := [], [], Coeffs(chal);
    EmptySums(ts, ms, a);
    for j := 0 to chal.c
      invariant |ts| == |ms| == j && T == PowProd(ts, a, j) % pk.n && mu == WeightedSum(ms, a, j)
      invariant forall k | 0 <= k < j ::
                  HasTag(suite, tags, perm[k]) && ts[k] == tags[perm[k]].t && ms[k] == SetBytes(store[perm[k]])
    {
      var ij := perm[j];
      if ij !in tags { return None; }
      var tag := tags[ij];
      if tag.suiteId != suite.id { return None; }
      var aj := chal.coeff(j + 1);
      ProductTerm(ts, a, j, tag.t, pk.n);
      SumTerm(ms, a, j, SetBytes(store[ij]));
      var term := Exp(tag.t, aj, pk.n);
      T := (T * term) % pk.n;
      mu := mu + aj * SetBytes(store[ij]);
      ts, ms := ts + [tag.t], ms + [SetBytes(store[ij])];
    }
    assert ts == TagValues(suite, chal, |store|, tags) && ms == BlockValues(chal, store);
    return Some(Proof(T, suite.digest(MinBytes(Exp(chal.gs, mu, pk.n)))));
  }

  lemma {:induction false} OrderBounds(order: seq<int>, n: nat)
    requires IsPermutation(order, n)
    ensures |order| == n && forall i | 0 <= i < n :: 0 <= order[i] < n
  {
  }

  lemma {:induction false} EmptySums(xs: seq<int>, ms: seq<nat>, a: seq<nat>)
    ensures PowProd(xs, a, 0) == 1 && WeightedSum(ms, a, 0) == 0
  {
  }

  lemma {:induction false} PowProdPrefix(xs: seq<int>, ys: seq<int>, a: seq<nat>, b: seq<nat>, c: nat)
    requires c <= |xs| && c <= |ys| && c <= |a| && c <= |b|
    requires forall i | 0 <= i < c :: xs[i] == ys[i] && a[i] == b[i]
    ensures PowProd(xs, a, c) == PowProd(ys, b, c)
  {
    if c > 0 { PowProdPrefix(xs, ys, a, b, c - 1); }
  }

  lemma {:induction false} WeightedSumPrefix(xs: seq<nat>, ys: seq<nat>, a: seq<nat>, c: nat)
    requires c <= |xs| && c <= |ys| && c <= |a|
    requires forall i | 0 <= i < c :: xs[i] == ys[i]
    ensures WeightedSum(xs, a, c) == WeightedSum(ys, a, c)
  {
    if c > 0 { WeightedSumPrefix(xs, ys, a, c - 1); }
  }

  /** One more reduced factor. */
  lemma {:induction false} ProductTerm(xs: seq<int>, a: seq<nat>, j: nat, x: int, N: int)
    requires N > 0 && j == |xs| < |a|
    ensures ((PowProd(xs, a, j) % N) * Exp(x, a[j], N)) % N == PowProd(xs + [x], a, j + 1) % N
  {
    hide Pow;
    PowProdPrefix(xs, xs + [x], a, a, j);
    ProductStep(PowProd(xs, a, j), Pow(x, a[j]), N);
  }

  lemma {:induction false} SumTerm(ms: seq<nat>, a: seq<nat>, j: nat, m: nat)
    requires j == |ms| < |a|
    ensures WeightedSum(ms, a, j) + a[j] * m == WeightedSum(ms + [m], a, j + 1)
  {
    WeightedSumPrefix(ms, ms + [m], a, j);
  }

  // ------------------------------------------------------------------ verification

  /** The hashes of the sampled identifiers. */
  function HashValues(suite: Suite, pk: PublicKey, sk: SecretKey, ids: seq<Bytes>, chal: Challenge): (hs: seq<int>)
    requires 1 <= chal.c <= |ids| && IsPermutation(chal.order(|ids|), |ids|)
    ensures |hs| == chal.c
    ensures forall j | 0 <= j < |hs| :: hs[j] == suite.hash(BlockW(sk.v, ids[chal.order(|ids|)[j]]), pk.n)
  {
    seq(chal.c, j requires 0 <= j < chal.c => suite.hash(BlockW(sk.v, ids[chal.order(|ids|)[j]]), pk.n))
  }

  /** The coefficients reduced modulo phi, as the verifier uses them. */
  function ReducedCoeffs(chal: Challenge, phi: nat): (a: seq<nat>)
    requires phi > 0
    ensures |a| == |Coeffs(chal)|
    ensures forall j | 0 <= j < |a| :: a[j] == Coeffs(chal)[j] % phi
  {
    seq(|Coeffs(chal)|, j requires 0 <= j < |Coeffs(chal)| => Coeffs(chal)[j] % phi)
  }

  /** The verdict once the product of the hashes is there. */
  function Verdict(suite: Suite, pk: PublicKey, sk: SecretKey, secret: nat, hprod: int, proof: Proof): Option<bool>
    requires pk.n > 0
  {
    var inverse := ModInverse(hprod, pk.n);
    if inverse.None? then None
    else
      var gmu := (Exp(proof.t, sk.e, pk.n) * inverse.value) % pk.n;
      Some(suite.digest(MinBytes(Exp(gmu, secret, pk.n))) == proof.rho)
  }

  /** x times the hashes to the secret is the aggregate to e and to the secret. */
  ghost predicate Opens(pk: PublicKey, sk: SecretKey, secret: nat, h: int, t: int, x: int)
    requires pk.n > 0
  {
    (x * Pow(h, secret)) % pk.n == Pow(Pow(t, sk.e), secret) % pk.n
  }

  /** The verdict without its inverse: an error exactly for a common divisor of the hashes and N, and otherwise
      whether the digest is that of the number below N that opens the claimed aggregate. There is exactly one. */
  lemma {:induction false} VerdictMeans(suite: Suite, pk: PublicKey, sk: SecretKey, secret: nat, h: int, proof: Proof)
    requires pk.n > 1
    ensures var verdict := Verdict(suite, pk, sk, secret, h % pk.n, proof);
            && (verdict.None? <==> exists d :: d > 1 && Divides(d, h) && Divides(d, pk.n))
            && (verdict.Some? ==> exists x: nat :: x < pk.n && Opens(pk, sk, secret, h, proof.t, x))
            && (verdict.Some? ==> forall x: nat | x < pk.n && Opens(pk, sk, secret, h, proof.t, x) ::
                  verdict.value <==> proof.rho == suite.digest(MinBytes(x)))
  {
    hide Pow, MinBytes, ModInverse;
    var N := pk.n;
    ModMod(h, N);
    InverseIff(h, N);
    if ModInverse(h % N, N).Some? {
      var inv := ModInverse(h % N, N).value;
      var gmu := (Exp(proof.t, sk.e, N) * inv) % N;
      ModMul(h % N, h, inv, inv, N);
      OpenedBy(pk, sk, secret, h, inv, proof.t, gmu);
      var y := Exp(gmu, secret, N);
      forall x: nat | x < N && Opens(pk, sk, secret, h, proof.t, x) ensures x == y {
        OnlyOpening(pk, sk, secret, h, inv, proof.t, x, y);
      }
    }
  }

  /** The same for one number, the equation written out. */
  lemma {:induction false} VerdictExplicit(suite: Suite, pk: PublicKey, sk: SecretKey, secret: nat, h: int,
                                           proof: Proof, x: nat)
    requires x < pk.n && pk.n > 1
    requires (x * Pow(h, secret)) % pk.n == Pow(Pow(proof.t, sk.e), secret) % pk.n
    ensures Verdict(suite, pk, sk, secret, h % pk.n, proof)
            == if exists d :: d > 1 && Divides(d, h) && Divides(d, pk.n) then None
               else Some(proof.rho == suite.digest(MinBytes(x)))
  {
    hide Pow, MinBytes, Verdict;
    VerdictMeans(suite, pk, sk, secret, h, proof);
    assert Opens(pk, sk, secret, h, proof.t, x);
  }

  /** A number has no inverse modulo N exactly if it shares a divisor with N. */
  lemma {:induction false} InverseIff(h: int, N: int)
    requires N > 1
    ensures ModInverse(h % N, N).None? <==> exists d :: d > 1 && Divides(d, h) && Divides(d, N)
  {
    hide ModInverse;
    InverseExists(h % N, N);
    forall d | d > 1 && Divides(d, N) ensures Divides(d, h) <==> Divides(d, h % N) {
      CommonDivisor(h, N, d);
    }
  }

  lemma {:induction false} OpenedBy(pk: PublicKey, sk: SecretKey, secret: nat, h: int, inv: int, t: int, gmu: int)
    requires pk.n > 1 && (h * inv) % pk.n == 1 % pk.n && gmu == (Exp(t, sk.e, pk.n) * inv) % pk.n
    ensures Opens(pk, sk, secret, h, t, Exp(gmu, secret, pk.n))
  {
    hide Pow;
    var N, te := pk.n, Pow(t, sk.e);
    ModMod(te, N);
    ModMul(te % N, te, inv, inv, N);
    ModMod(Exp(t, sk.e, N) * inv, N);
    PowCong(gmu, te * inv, secret, N);
    ModMod(Pow(gmu, secret), N);
    ModMul(Pow(gmu, secret) % N, Pow(te * inv, secret), Pow(h, secret), Pow(h, secret), N);
    PowProduct(te * inv, h, secret);
    assert te * inv * h == te * (h * inv);
    ModMul(te, te, h * inv, 1, N);
    PowCong(te * inv * h, te, secret, N);
  }

  lemma {:induction false} OnlyOpening(pk: PublicKey, sk: SecretKey, secret: nat, h: int, inv: int, t: int, x: int,
                                       y: int)
    requires pk.n > 1 && (h * inv) % pk.n == 1 % pk.n && 0 <= x < pk.n && 0 <= y < pk.n
    requires Opens(pk, sk, secret, h, t, x) && Opens(pk, sk, secret, h, t, y)
    ensures x == y
  {
    hide Pow;
    var N, k, i := pk.n, Pow(h, secret), Pow(inv, secret);
    PowProduct(h, inv, secret);
    PowCong(h * inv, 1, secret, N);
    PowOne(secret);
    ModMul(x * k, y * k, i, i, N);
    assert x * k * i == x * (k * i) && y * k * i == y * (k * i);
    ModMul(x, x, k * i, 1, N);
    ModMul(y, y, k * i, 1, N);
    ModSmall(x, N);
    ModSmall(y, N);
  }

  /** CheckProof: an error for a wrong suite, a count out of range, or a product of hashes that has no inverse. */
  method CheckProof(suite: Suite, pk: PublicKey, sk: SecretKey, secret: nat, ids: seq<Bytes>, chal: Challenge,
                    proof: Proof)
    returns (r: Option<bool>)
    requires pk.n > 0 && sk.phi > 0 && IsPermutation(chal.order(|ids|), |ids|)
    ensures r.Some? ==> chal.suiteId == suite.id && 1 <= chal.c <= |ids|
    ensures pk.n > 1 && chal.suiteId == suite.id && 1 <= chal.c <= |ids| ==>
              var h := PowProd(HashValues(suite, pk, sk, ids, chal), ReducedCoeffs(chal, sk.phi), chal.c);
              && (r.None? <==> exists d :: d > 1 && Divides(d, h) && Divides(d, pk.n))
              && (r.Some? ==> forall x: nat | x < pk.n && Opens(pk, sk, secret, h, proof.t, x) ::
                    r.value <==> proof.rho == suite.digest(MinBytes(x)))
    ensures r == if InRange(suite, chal, |ids|)
                 then Verdict(suite, pk, sk, secret,
                              PowProd(HashValues(suite, pk, sk, ids, chal), ReducedCoeffs(chal, sk.phi),
                                      chal.c) % pk.n, proof)
                 else None
  {
    hide Exp, Opens, Divides, MinBytes, PowProd, Coeffs, HashValues, IsPermutation;
    if chal.suiteId != suite.id { return None; }
    if chal.c < 1 || chal.c > |ids| { return None; }
    var perm := chal.order(|ids|);
    OrderBounds(perm, |ids|);
    var Hprod := 1 % pk.n;
    ghost var hs, a := [], ReducedCoeffs(chal, sk.phi);
    EmptySums(hs, [], a);
    for j := 0 to chal.c
      invariant |hs| == j && Hprod == PowProd(hs, a, j) % pk.n
      invariant forall k | 0 <= k < j :: hs[k] == suite.hash(BlockW(sk.v, ids[perm[k]]), pk.n)
    {
      var ij := perm[j];
      var aj := chal.coeff(j + 1) % sk.phi;
      var h := suite.hash(BlockW(sk.v, ids[ij]), pk.n);
      ProductTerm(hs, a, j, h, pk.n);
      var term := Exp(h, aj, pk.n);
      Hprod := (Hprod * term) % pk.n;
      hs := hs + [h];
    }
    assert hs == HashValues(suite, pk, sk, ids, chal);
    if pk.n > 1 {
      VerdictMeans(suite, pk, sk, secret, PowProd(hs, a, chal.c), proof);
    }
    var Te := Exp(proof.t, sk.e, pk.n);
    var Hinv := ModInverse(Hprod, pk.n);
    if Hinv.None? { return None; }
    var gmu := (Te * Hinv.value) % pk.n;
    var gsmu := Exp(gmu, secret, pk.n);
    return Some(suite.digest(MinBytes(gsmu)) == proof.rho);
  }

  // ------------------------------------------------------------------ completeness

  /** A tag raised to e is the block's hash times g to its contents. */
  lemma {:induction false} TagOpens(s: SafePrimes, suite: Suite, pk: PublicKey, sk: SecretKey, m: Bytes, id: Bytes)
    requires GoodKey(s, suite, pk, sk)
    ensures pk.n > 1
    ensures Pow(TagBlock(suite, pk, sk, m, id).t, sk.e) % pk.n
            == (Pow(pk.g, SetBytes(m)) * suite.hash(BlockW(sk.v, id), pk.n)) % pk.n
  {
    hide Pow, SetBytes, IsUnitSquare;
    var N, phi, h, x := pk.n, sk.phi, suite.hash(BlockW(sk.v, id), pk.n), SetBytes(m);
    SquareOrder(pk.g, s);
    SquareOrder(h, s);
    OfOrderPower(pk.g, x, phi, N);
    OfOrderProduct(Pow(pk.g, x), h, phi, N);
    var base := TagBase(suite, pk, sk, m, id);
    ModMod(Pow(pk.g, x), N);
    ModMul(Pow(pk.g, x) % N, Pow(pk.g, x), h, h, N);
    ModMod((Pow(pk.g, x) % N) * h, N);
    OfOrderCong(Pow(pk.g, x) * h, base, phi, N);
    ModMod(Pow(base, sk.d), N);
    PowCong(Pow(base, sk.d) % N, Pow(base, sk.d), sk.e, N);
    Trapdoor(base, sk.e, sk.d, phi, N);
  }

  /** The aggregated tag raised to e: the product of the hash powers times g to the weighted sum. */
  lemma {:induction false} AggregateOpens(g: int, N: int, e: nat, ts: seq<int>, hs: seq<int>, ms: seq<nat>,
                                          a: seq<nat>, c: nat)
    requires N > 1 && c <= |ts| && c <= |hs| && c <= |ms| && c <= |a|
    requires forall k | 0 <= k < c :: Pow(ts[k], e) % N == (Pow(g, ms[k]) * hs[k]) % N
    ensures Pow(PowProd(ts, a, c), e) % N == (PowProd(hs, a, c) * Pow(g, WeightedSum(ms, a, c))) % N
  {
    hide Pow;
    PowZero(g);
    if c == 0 {
      PowOne(e);
    } else {
      var t, h, m, x := ts[c - 1], hs[c - 1], ms[c - 1], a[c - 1];
      AggregateOpens(g, N, e, ts, hs, ms, a, c - 1);
      var pt, ph, w := PowProd(ts, a, c - 1), PowProd(hs, a, c - 1), WeightedSum(ms, a, c - 1);
      PowProduct(pt, Pow(t, x), e);
      FactorOpens(g, N, e, t, h, m, x);
      ModMul(Pow(pt, e), ph * Pow(g, w), Pow(Pow(t, x), e), Pow(g, x * m) * Pow(h, x), N);
      Regroup(ph, Pow(g, w), Pow(g, x * m), Pow(h, x));
      PowAdd(g, w, x * m);
    }
  }

  lemma {:induction false} Regroup(a: int, b: int, c: int, d: int)
    ensures (a * b) * (c * d) == (a * d) * (b * c)
  {
    assert (a * b) * (c * d) == a * (b * c) * d;
    assert (a * d) * (b * c) == a * (b * c) * d;
  }

  lemma {:induction false} FactorOpens(g: int, N: int, e: nat, t: int, h: int, m: nat, x: nat)
    requires N > 1 && Pow(t, e) % N == (Pow(g, m) * h) % N
    ensures x * m >= 0 && Pow(Pow(t, x), e) % N == (Pow(g, x * m) * Pow(h, x)) % N
  {
    hide Pow;
    PowMul(t, x, e);
    PowMul(t, e, x);
    assert x * e == e * x;
    PowCong(Pow(t, e), Pow(g, m) * h, x, N);
    PowProduct(Pow(g, m), h, x);
    PowMul(g, m, x);
    assert x * m == m * x;
  }

  /** Reducing the exponents modulo phi does not change the product of the hash powers. */
  lemma {:induction false} ReducedProduct(hs: seq<int>, a: seq<nat>, b: seq<nat>, phi: nat, N: int, c: nat)
    requires N > 1 && phi > 1 && c <= |hs| && c <= |a| && c <= |b|
    requires forall k | 0 <= k < c :: OfOrder(hs[k], phi, N) && b[k] == a[k] % phi
    ensures PowProd(hs, b, c) % N == PowProd(hs, a, c) % N
    ensures OfOrder(PowProd(hs, b, c), phi, N)
  {
    hide Pow, OfOrder;
    if c == 0 {
      OneOfOrder(phi, N);
    } else {
      ReducedProduct(hs, a, b, phi, N, c - 1);
      ReduceExponent(hs[c - 1], a[c - 1], phi, N);
      ModMul(PowProd(hs, b, c - 1), PowProd(hs, a, c - 1), Pow(hs[c - 1], b[c - 1]), Pow(hs[c - 1], a[c - 1]), N);
      OfOrderPower(hs[c - 1], b[c - 1], phi, N);
      OfOrderProduct(PowProd(hs, b, c - 1), Pow(hs[c - 1], b[c - 1]), phi, N);
    }
  }

  lemma {:induction false} OneOfOrder(phi: nat, N: int)
    requires N > 1 && phi > 1
    ensures OfOrder(1, phi, N)
  {
    PowOne(phi);
    ModSmall(1, N);
  }

  /** Dividing out the hashes leaves g to the weighted sum. */
  lemma {:induction false} DivideOut(te: int, h: int, hprod: int, inv: int, gmu: int, N: int)
    requires N > 1 && te % N == (h * gmu) % N && hprod % N == h % N
    requires (hprod * inv) % N == 1
    ensures (te * inv) % N == gmu % N
  {
    ModSmall(1, N);
    ModMul(te, h * gmu, inv, inv, N);
    ModMul(h, hprod, inv, inv, N);
    ModMul(h * inv, 1, gmu, gmu, N);
    assert (h * gmu) * inv == (h * inv) * gmu && 1 * gmu == gmu;
  }

  /** Tags of the sampled blocks as TagBlock makes them. */
  ghost predicate HonestTags(suite: Suite, pk: PublicKey, sk: SecretKey, store: seq<Bytes>, ids: seq<Bytes>,
                             chal: Challenge, tags: map<int, Tag>)
    requires pk.n > 0 && |ids| == |store| && 1 <= chal.c <= |store|
    requires IsPermutation(chal.order(|store|), |store|)
  {
    forall j | 0 <= j < chal.c ::
      var i := chal.order(|store|)[j]; i in tags && tags[i] == TagBlock(suite, pk, sk, store[i], ids[i])
  }

  /** CheckProof accepts every proof of GenProof over honestly tagged blocks, although only one side reduces the
      coefficients modulo phi; and its inversion never fails. */
  lemma {:induction false} HonestProofAccepted(s: SafePrimes, suite: Suite, pk: PublicKey, sk: SecretKey, secret: nat,
                                               store: seq<Bytes>, ids: seq<Bytes>, chal: Challenge, tags: map<int, Tag>)
    requires GoodKey(s, suite, pk, sk) && |ids| == |store|
    requires InRange(suite, chal, |store|)
    requires IsPermutation(chal.order(|store|), |store|)
    requires pk.n > 0 && chal.gs == Exp(pk.g, secret, pk.n)
    requires HonestTags(suite, pk, sk, store, ids, chal, tags)
    ensures Tagged(suite, chal, |store|, tags)
    ensures var proof := Proof(PowProd(TagValues(suite, chal, |store|, tags), Coeffs(chal), chal.c) % pk.n,
                               suite.digest(MinBytes(Exp(chal.gs,
                                                         WeightedSum(BlockValues(chal, store), Coeffs(chal), chal.c),
                                                             pk.n))));
            var hprod := PowProd(HashValues(suite, pk, sk, ids, chal), ReducedCoeffs(chal, sk.phi), chal.c) % pk.n;
            Verdict(suite, pk, sk, secret, hprod, proof) == Some(true)
  {
    hide Exp, Pow, PowProd, WeightedSum, TagBlock, SetBytes, MinBytes, ModInverse, Coeffs, IsUnitSquare, OfOrder;
    forall j | 0 <= j < chal.c ensures HasTag(suite, tags, chal.order(|store|)[j]) {
      TagSuite(suite, pk, sk, store[chal.order(|store|)[j]], ids[chal.order(|store|)[j]]);
    }
    var N, c, a, b := pk.n, chal.c, Coeffs(chal), ReducedCoeffs(chal, sk.phi);
    var ts, hs, ms := TagValues(suite, chal, |store|, tags), HashValues(suite, pk, sk, ids, chal),
        BlockValues(chal, store);
    var mu := WeightedSum(ms, a, c);
    SampledTagsOpen(s, suite, pk, sk, store, ids, chal, tags);
    AggregateOpens(pk.g, N, sk.e, ts, hs, ms, a, c);
    ReducedProduct(hs, a, b, sk.phi, N, c);
    AcceptedOpening(s, suite, pk, sk, secret, PowProd(ts, a, c), PowProd(hs, a, c), PowProd(hs, b, c), mu);
  }

  /** Over the honest aggregate only the honest digest passes. */
  lemma {:induction false} OnlyHonestDigest(s: SafePrimes, suite: Suite, pk: PublicKey, sk: SecretKey, secret: nat,
                                            store: seq<Bytes>, ids: seq<Bytes>, chal: Challenge, tags: map<int, Tag>,
                                            rho: Bytes)
    requires GoodKey(s, suite, pk, sk) && |ids| == |store|
    requires InRange(suite, chal, |store|)
    requires IsPermutation(chal.order(|store|), |store|)
    requires pk.n > 1 && chal.gs == Exp(pk.g, secret, pk.n)
    requires HonestTags(suite, pk, sk, store, ids, chal, tags) && Tagged(suite, chal, |store|, tags)
    ensures var t := PowProd(TagValues(suite, chal, |store|, tags), Coeffs(chal), chal.c) % pk.n;
            var mu := WeightedSum(BlockValues(chal, store), Coeffs(chal), chal.c);
            var hprod := PowProd(HashValues(suite, pk, sk, ids, chal), ReducedCoeffs(chal, sk.phi), chal.c) % pk.n;
            Verdict(suite, pk, sk, secret, hprod, Proof(t, rho))
            == Some(rho == suite.digest(MinBytes(Exp(chal.gs, mu, pk.n))))
  {
    hide Exp, PowProd, WeightedSum, MinBytes, ModInverse, Coeffs, GoodKey, HonestTags;
    HonestProofAccepted(s, suite, pk, sk, secret, store, ids, chal, tags);
  }

  /** With a digest that has no collisions, another aggregate passes with the honest digest if and only if it agrees
      with the honest one after raising both to e and to the secret. */
  lemma {:induction false} OtherAggregate(s: SafePrimes, suite: Suite, pk: PublicKey, sk: SecretKey, secret: nat,
                                          store: seq<Bytes>, ids: seq<Bytes>, chal: Challenge, tags: map<int, Tag>,
                                          other: int)
    requires GoodKey(s, suite, pk, sk) && |ids| == |store|
    requires InRange(suite, chal, |store|)
    requires IsPermutation(chal.order(|store|), |store|)
    requires pk.n > 1 && chal.gs == Exp(pk.g, secret, pk.n)
    requires HonestTags(suite, pk, sk, store, ids, chal, tags) && Tagged(suite, chal, |store|, tags)
    requires forall a: Bytes, b: Bytes :: suite.digest(a) == suite.digest(b) ==> a == b
    ensures var t := PowProd(TagValues(suite, chal, |store|, tags), Coeffs(chal), chal.c) % pk.n;
            var rho := suite.digest(MinBytes(Exp(chal.gs,
                                                 WeightedSum(BlockValues(chal, store), Coeffs(chal), chal.c), pk.n)));
            var hprod := PowProd(HashValues(suite, pk, sk, ids, chal), ReducedCoeffs(chal, sk.phi), chal.c) % pk.n;
            Verdict(suite, pk, sk, secret, hprod, Proof(other, rho)) == Some(true)
            <==> Pow(Pow(other, sk.e), secret) % pk.n == Pow(Pow(t, sk.e), secret) % pk.n
  {
    hide Exp, Pow, PowProd, WeightedSum, MinBytes, ModInverse, Coeffs, IsUnitSquare, HonestTags, Verdict;
    var h := PowProd(HashValues(suite, pk, sk, ids, chal), ReducedCoeffs(chal, sk.phi), chal.c);
    var t := PowProd(TagValues(suite, chal, |store|, tags), Coeffs(chal), chal.c) % pk.n;
    var rho := suite.digest(MinBytes(Exp(chal.gs, WeightedSum(BlockValues(chal, store), Coeffs(chal), chal.c), pk.n)));
    HonestProofAccepted(s, suite, pk, sk, secret, store, ids, chal, tags);
    VerdictMeans(suite, pk, sk, secret, h, Proof(t, rho));
    VerdictMeans(suite, pk, sk, secret, h, Proof(other, rho));
    var x: nat :| x < pk.n && Opens(pk, sk, secret, h, t, x);
    var y: nat :| y < pk.n && Opens(pk, sk, secret, h, other, y);
    MinBytesInjective(x, y);
  }

  lemma {:induction false} MinBytesInjective(x: nat, y: nat)
    ensures MinBytes(x) == MinBytes(y) ==> x == y
  {
    hide Pow, MinBytes;
    MinBytesValue(x, 0);
    MinBytesValue(y, 0);
  }

  lemma {:induction false} TagSuite(suite: Suite, pk: PublicKey, sk: SecretKey, m: Bytes, id: Bytes)
    requires pk.n > 0
    ensures TagBlock(suite, pk, sk, m, id).suiteId == suite.id
  {
  }

  lemma {:induction false} SampledTagsOpen(s: SafePrimes, suite: Suite, pk: PublicKey, sk: SecretKey,
                                           store: seq<Bytes>, ids: seq<Bytes>, chal: Challenge, tags: map<int, Tag>)
    requires GoodKey(s, suite, pk, sk) && |ids| == |store|
    requires InRange(suite, chal, |store|)
    requires IsPermutation(chal.order(|store|), |store|)
    requires pk.n > 0 && HonestTags(suite, pk, sk, store, ids, chal, tags)
    requires Tagged(suite, chal, |store|, tags)
    ensures var ts, hs, ms := TagValues(suite, chal, |store|, tags), HashValues(suite, pk, sk, ids, chal),
            BlockValues(chal, store);
      && pk.n > 1 && sk.phi > 1
      && (forall k | 0 <= k < chal.c :: Pow(ts[k], sk.e) % pk.n == (Pow(pk.g, ms[k]) * hs[k]) % pk.n)
      && (forall k | 0 <= k < chal.c :: OfOrder(hs[k], sk.phi, pk.n))
  {
    hide Pow, TagBlock, SetBytes, IsUnitSquare;
    var ts, hs, ms := TagValues(suite, chal, |store|, tags), HashValues(suite, pk, sk, ids, chal),
        BlockValues(chal, store);
    SquareOrder(pk.g, s);
    forall k | 0 <= k < chal.c
      ensures Pow(ts[k], sk.e) % pk.n == (Pow(pk.g, ms[k]) * hs[k]) % pk.n && OfOrder(hs[k], sk.phi, pk.n) {
      var i := chal.order(|store|)[k];
      TagOpens(s, suite, pk, sk, store[i], ids[i]);
      SquareOrder(hs[k], s);
    }
  }

  /** The verification equation from the opened aggregate. */
  lemma {:induction false} AcceptedOpening(s: SafePrimes, suite: Suite, pk: PublicKey, sk: SecretKey, secret: nat,
                                           t: int, h: int, reduced: int, mu: nat)
    requires GoodKey(s, suite, pk, sk) && pk.n > 1 && sk.phi > 1
    requires Pow(t, sk.e) % pk.n == (h * Pow(pk.g, mu)) % pk.n
    requires reduced % pk.n == h % pk.n && OfOrder(reduced, sk.phi, pk.n)
    ensures Verdict(suite, pk, sk, secret, reduced % pk.n,
                    Proof(t % pk.n, suite.digest(MinBytes(Exp(Exp(pk.g, secret, pk.n), mu, pk.n))))) == Some(true)
  {
    hide Pow, MinBytes, ModInverse, OfOrder, GoodKey;
    var N := pk.n;
    var hprod := reduced % N;
    ModMod(reduced, N);
    ModMod(t, N);
    OfOrderCong(reduced, hprod, sk.phi, N);
    OfOrderInvertible(hprod, sk.phi, N);
    ModSmall(1, N);
    var inv := ModInverse(hprod, N).value;
    var te := Exp(t % N, sk.e, N);
    PowCong(t % N, t, sk.e, N);
    ModMod(Pow(t % N, sk.e), N);
    DivideOut(te, h, hprod, inv, Pow(pk.g, mu), N);
    var gmu := (te * inv) % N;
    ModMod(te * inv, N);
    ModMod(Pow(pk.g, mu), N);
    PowCong(gmu, Pow(pk.g, mu), secret, N);
    PowMul(pk.g, mu, secret);
    ExpOfExp(pk.g, secret, mu, N);
    assert mu * secret == secret * mu;
  }
}
