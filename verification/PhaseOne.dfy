/** Phase I of extraction: groups of challenges solved one by one, and a majority vote on every block. */
module PhaseOne {
  import opened ModArith
  import opened NumberTheory
  import opened Gauss
  import opened ByteNumbers
  import opened Options
  import opened Pigeonhole
  import opened ReedSolomon
  import opened AdversarialCode
  import opened InnerCode

  // ------------------------------------------------------------------ the vote

  /** The votes for some candidates. */
  ghost function Votes(D: map<Bytes, nat>, keys: set<Bytes>): nat
    requires keys <= D.Keys
  {
    if keys == {} then 0 else var k :| k in keys; D[k] + Votes(D, keys - {k})
  }

  /** The candidates may be counted in any order. */
  lemma {:induction false} VotesSplit(D: map<Bytes, nat>, keys: set<Bytes>, k: Bytes)
    requires keys <= D.Keys && k in keys
    ensures Votes(D, keys) == D[k] + Votes(D, keys - {k})
    decreases |keys|
  {
    var j :| j in keys && Votes(D, keys) == D[j] + Votes(D, keys - {j});
    if j != k {
      VotesSplit(D, keys - {j}, k);
      VotesSplit(D, keys - {k}, j);
      assert keys - {j} - {k} == keys - {k} - {j};
    }
  }

  /** The candidate has the required share of the votes. */
  ghost predicate Wins(D: map<Bytes, nat>, k: Bytes, delta: real) {
    k in D && Votes(D, D.Keys) > 0 && D[k] as real / Votes(D, D.Keys) as real >= 0.5 + delta
  }

  /** Of two candidates one wins if and only if its votes make up the required share of all votes. */
  lemma {:induction false} TwoCandidates(j: Bytes, k: Bytes, a: nat, b: nat, delta: real)
    requires j != k && a + b > 0
    ensures Wins(map[j := a, k := b], j, delta) <==> a as real >= (0.5 + delta) * (a + b) as real
  {
    var D := map[j := a, k := b];
    VotesSplit(D, D.Keys, j);
    VotesSplit(D, D.Keys - {j}, k);
    assert D.Keys - {j} - {k} == {};
    assert Votes(D, D.Keys - {j} - {k}) == 0;
    ShareIs(a as real, (a + b) as real, 0.5 + delta);
  }

  lemma {:induction false} ShareIs(c: real, t: real, y: real)
    requires t > 0.0
    ensures c / t >= y <==> c >= y * t
  {
    var q := c / t;
    assert q * t == c;
    if q > y {
      RealMono(y, q, t);
    } else if q < y {
      RealMono(q, y, t);
    }
  }

  /** With a margin above one half there is at most one winner. */
  lemma {:induction false} OneWinner(D: map<Bytes, nat>, j: Bytes, k: Bytes, delta: real)
    requires delta > 0.0 && Wins(D, j, delta) && Wins(D, k, delta)
    ensures j == k
  {
    if j != k {
      VotesSplit(D, D.Keys, j);
      VotesSplit(D, D.Keys - {j}, k);
      var t := Votes(D, D.Keys);
      Share(D[j], t, delta);
      Share(D[k], t, delta);
    }
  }

  /** A winning share is more than half of the votes. */
  lemma {:induction false} Share(c: nat, t: nat, delta: real)
    requires t > 0 && delta > 0.0 && c as real / t as real >= 0.5 + delta
    ensures 2 * c > t
  {
    var x, q := t as real, c as real / t as real;
    assert q * x == c as real;
    assert q > 0.5;
    RealMono(0.5, q, x);
  }

  lemma {:induction false} RealMono(a: real, b: real, x: real)
    requires a < b && x > 0.0
    ensures a * x < b * x
  {
  }

  /** The share of the leading candidate is the largest. */
  lemma {:induction false} LargestShare(a: nat, b: nat, t: nat)
    requires t > 0 && a <= b
    ensures a as real / t as real <= b as real / t as real
  {
    var p, q, x := a as real / t as real, b as real / t as real, t as real;
    assert p * x == a as real && q * x == b as real;
    if p > q { RealMono(q, p, x); }
  }

  /** Majority vote over a map whose entries are visited in an arbitrary order: a leading candidate if one has the
      required share. With a positive margin the order does not matter, since at most one has. */
  method Majority(D: map<Bytes, nat>, delta: real) returns (r: Option<Bytes>)
    requires forall k | k in D :: D[k] > 0
    ensures r.None? <==> forall k: Bytes :: !Wins(D, k, delta)
    ensures r.Some? ==> Wins(D, r.value, delta) && forall k | k in D :: D[k] <= D[r.value]
    ensures delta > 0.0 ==> forall k: Bytes :: r == Some(k) <==> Wins(D, k, delta)
  {
    var total := CountVotes(D);
    if total == 0 { return None; }
    var best: Bytes := [];
    var bestCount := 0;
    var rest := D.Keys;
    while rest != {}
      invariant rest <= D.Keys
      invariant forall k | k in D.Keys - rest :: D[k] <= bestCount
      invariant bestCount > 0 ==> best in D && D[best] == bestCount
      decreases |rest|
    {
      var val :| val in rest;
      rest := rest - {val};
      if D[val] > bestCount {
        bestCount, best := D[val], val;
      }
    }
    SomeCandidate(D);
    forall k | k in D ensures Wins(D, k, delta) ==> Wins(D, best, delta) {
      LargestShare(D[k], bestCount, total);
    }
    if delta > 0.0 {
      forall k: Bytes | Wins(D, k, delta) ensures k == best {
        OneWinner(D, k, best, delta);
      }
    }
    if bestCount as real / total as real >= 0.5 + delta {
      return Some(best);
    }
    return None;
  }

  lemma {:induction false} SomeCandidate(D: map<Bytes, nat>)
    requires Votes(D, D.Keys) > 0
    ensures exists k :: k in D
  {
  }

  method CountVotes(D: map<Bytes, nat>) returns (total: nat)
    ensures total == Votes(D, D.Keys)
  {
    total := 0;
    var rest := D.Keys;
    while rest != {}
      invariant rest <= D.Keys && total + Votes(D, rest) == Votes(D, D.Keys)
      decreases |rest|
    {
      var k :| k in rest;
      VotesSplit(D, rest, k);
      total := total + D[k];
      rest := rest - {k};
    }
  }

  // ------------------------------------------------------------------ the groups

  /** How many groups are asked for; at least one. */
  function GroupCount(alpha: nat, t: nat, v: nat): nat
    requires v >= 1
  {
    var nc := alpha * t / v;
    if nc < 1 then 1 else nc
  }

  /** Alpha times the store in groups of v, rounded down, but not less than one. */
  lemma {:induction false} GroupCountIs(alpha: nat, t: nat, v: nat)
    requires v >= 1
    ensures var c := GroupCount(alpha, t, v);
            if alpha * t < v then c == 1 else c * v <= alpha * t < c * v + v
  {
    MulMono(0, alpha, t);
    var a := alpha * t;
    assert a == (a / v) * v + a % v;
    if a < v {
      ModUnique(a, 0, a, v);
    }
  }

  /** RespondExtract: the server's answer for a column in range. */
  method RespondExtract(ip: InnerParams, blocks: seq<Option<Bytes>>, indices: seq<int>, u: int)
    returns (r: Option<Bytes>)
    requires ip.p > 0 && |indices| == ip.v
    requires forall k | 0 <= k < |indices| :: 0 <= indices[k] < |blocks|
    ensures r.Some? <==> 1 <= u <= ip.w && Present(blocks, indices)
    ensures r.Some? ==> r.value == MToBytes(Response(ip, blocks, indices, u), ip.p)
  {
    hide FixedBytes;
    if u < 1 || u > ip.w { return None; }
    var M := InnerResponse(ip, blocks, indices, u);
    if M.None? { return None; }
    return Some(MToBytes(M.value, ip.p));
  }

  /** All w answers to one group, or nothing when a challenged block is missing. */
  method GroupResponses(ip: InnerParams, blocks: seq<Option<Bytes>>, indices: seq<int>) returns (r: Option<seq<int>>)
    requires ip.p > 0 && |indices| == ip.v
    requires forall k | 0 <= k < |indices| :: 0 <= indices[k] < |blocks|
    ensures r.None? <==> ip.w >= 1 && !Present(blocks, indices)
    ensures r.Some? ==> |r.value| == ip.w
    ensures r.Some? && Present(blocks, indices) ==> forall i | 0 <= i < ip.w ::
              r.value[i] == Response(ip, blocks, indices, i + 1)
  {
    hide Response, SetBytes, MToBytes;
    var responses := [];
    for u := 1 to ip.w + 1
      invariant |responses| == u - 1 && (u > 1 ==> Present(blocks, indices))
      invariant Present(blocks, indices) ==> forall i | 0 <= i < u - 1 ::
                  responses[i] == Response(ip, blocks, indices, i + 1)
    {
      var rb := RespondExtract(ip, blocks, indices, u);
      if rb.None? { return None; }
      MToBytesRoundTrip(Response(ip, blocks, indices, u), ip.p);
      responses := responses + [SetBytes(rb.value)];
    }
    return Some(responses);
  }

  /** The public matrix can be inverted and enough columns are asked for. */
  ghost predicate Decodable(ip: InnerParams)
    requires ip.p > 0
  {
    ip.v <= ip.w && !HasKernel(GenMatrix(ip), ip.v, ip.p)
  }

  /** One group: the blocks it challenges as numbers, or nothing. */
  method SolveGroup(ip: InnerParams, blocks: seq<Option<Bytes>>, indices: seq<int>) returns (r: Option<seq<int>>)
    requires IsPrime(ip.p) && ip.v >= 1 && |indices| == ip.v
    requires forall k | 0 <= k < |indices| :: 0 <= indices[k] < |blocks|
    ensures r.Some? <==> Decodable(ip) && Present(blocks, indices)
    ensures r.Some? ==> r.value == FieldElements(blocks, indices, ip.p)
  {
    hide HasKernel, FieldElements, Explains;
    var responses := GroupResponses(ip, blocks, indices);
    if responses.None? { return None; }
    r := SolveInnerCode(ip, responses.value);
    if r.Some? {
      BlocksExplain(ip, blocks, indices, responses.value);
    }
  }

  /** The candidate a block is voted for by. */
  function Candidate(block: Bytes, P: int): Bytes
    requires P > 0
  {
    MToBytes(SetBytes(block) % P, P)
  }

  /** Some group so far challenges the block together with blocks that are all present. */
  ghost predicate Covered(seeds: seq<Option<seq<int>>>, v: nat, blocks: seq<Option<Bytes>>, g: nat, i: nat)
    requires g <= |seeds|
  {
    exists s :: 0 <= s < g && seeds[s].Some? && CoveredBy(seeds[s].value, v, blocks, i)
  }

  ghost predicate CoveredBy(perm: seq<int>, v: nat, blocks: seq<Option<Bytes>>, i: nat) {
    v <= |perm| && i in perm[..v] && Present(blocks, perm[..v])
  }

  /** All votes for a block are for its true value, and there are some exactly if it is covered. */
  ghost predicate OnlyTrueVotes(D: map<Bytes, nat>, blocks: seq<Option<Bytes>>, i: nat, P: int, covered: bool)
    requires P > 0 && i < |blocks|
  {
    if covered then blocks[i].Some? && D.Keys == {Candidate(blocks[i].value, P)} && D[Candidate(blocks[i].value, P)] > 0
    else D == map[]
  }

  ghost predicate ValidSeeds(seeds: seq<Option<seq<int>>>, t: nat) {
    forall s | 0 <= s < |seeds| && seeds[s].Some? :: IsPermutation(seeds[s].value, t)
  }

  /** Count the values of one group. */
  method CountGroup(Di: array<map<Bytes, nat>>, vals: seq<int>, perm: seq<int>, ip: InnerParams,
                    blocks: seq<Option<Bytes>>, ghost before: seq<bool>)
    requires ip.p > 0 && IsPermutation(perm, |blocks|)
    requires ip.v <= |blocks| == Di.Length == |before|
    requires Present(blocks, perm[..ip.v])
    requires vals == FieldElements(blocks, perm[..ip.v], ip.p)
    requires forall i | 0 <= i < |blocks| :: OnlyTrueVotes(Di[i], blocks, i, ip.p, before[i])
    modifies Di
    ensures forall i | 0 <= i < |blocks| :: OnlyTrueVotes(Di[i], blocks, i, ip.p, before[i] || i in perm[..ip.v])
  {
    hide SetBytes, MToBytes;
    ghost var indices := perm[..ip.v];
    for s := 0 to ip.v
      invariant forall i | 0 <= i < |blocks| :: OnlyTrueVotes(Di[i], blocks, i, ip.p, before[i] || i in indices[..s])
    {
      var idx := perm[s];
      assert idx == indices[s];
      ghost var votes := Di[..];
      assert OnlyTrueVotes(votes[idx], blocks, idx, ip.p, before[idx] || idx in indices[..s]);
      var key := MToBytes(vals[s], ip.p);
      assert key == Candidate(blocks[idx].value, ip.p);
      Di[idx] := Di[idx][key := if key in Di[idx] then Di[idx][key] + 1 else 1];
      assert indices[..s + 1] == indices[..s] + [idx];
      forall i | 0 <= i < |blocks| ensures OnlyTrueVotes(Di[i], blocks, i, ip.p, before[i] || i in indices[..s + 1]) {
        if i != idx { assert OnlyTrueVotes(votes[i], blocks, i, ip.p, before[i] || i in indices[..s]); }
      }
    }
    assert indices[..ip.v] == indices;
  }

  /** What Phase I returns for a block: the stored block if some group decodes it and a unanimous vote can win. */
  ghost function Recovery(ip: InnerParams, delta: real, blocks: seq<Option<Bytes>>, seeds: seq<Option<seq<int>>>,
                          i: nat): Option<Bytes>
    requires ip.p > 0 && i < |blocks|
  {
    if FirstSize(blocks) > 0 && delta <= 0.5 && Decodable(ip)
        && Covered(seeds, ip.v, blocks, |seeds|, i) then blocks[i] else None
  }

  ghost function Recoveries(ip: InnerParams, delta: real, blocks: seq<Option<Bytes>>,
                            seeds: seq<Option<seq<int>>>): (r: seq<Option<Bytes>>)
    requires ip.p > 0
    ensures |r| == |blocks|
    ensures forall i | 0 <= i < |r| :: r[i] == Recovery(ip, delta, blocks, seeds, i)
  {
    seq(|blocks|, i requires 0 <= i < |blocks| => Recovery(ip, delta, blocks, seeds, i))
  }

  lemma {:induction false} CoveredNext(seeds: seq<Option<seq<int>>>, v: nat, blocks: seq<Option<Bytes>>, g: nat, i: nat)
    requires g < |seeds|
    ensures Covered(seeds, v, blocks, g + 1, i)
            <==> Covered(seeds, v, blocks, g, i) || (seeds[g].Some? && CoveredBy(seeds[g].value, v, blocks, i))
  {
    hide CoveredBy;
    if Covered(seeds, v, blocks, g, i) {
      var s :| 0 <= s < g && seeds[s].Some? && CoveredBy(seeds[s].value, v, blocks, i);
    }
  }

  /** The votes after the first g groups. */
  ghost predicate Counted(Di: seq<map<Bytes, nat>>, ip: InnerParams, blocks: seq<Option<Bytes>>,
                          seeds: seq<Option<seq<int>>>, g: nat)
    requires ip.p > 0 && g <= |seeds|
  {
    |Di| == |blocks| && forall i | 0 <= i < |blocks| ::
      OnlyTrueVotes(Di[i], blocks, i, ip.p, Decodable(ip) && Covered(seeds, ip.v, blocks, g, i))
  }

  /** The group loop. A failed random read skips its group. */
  method CountGroups(ip: InnerParams, blocks: seq<Option<Bytes>>, seeds: seq<Option<seq<int>>>)
    returns (Di: array<map<Bytes, nat>>)
    requires IsPrime(ip.p) && 1 <= ip.v <= |blocks| && ValidSeeds(seeds, |blocks|)
    ensures fresh(Di) && Counted(Di[..], ip, blocks, seeds, |seeds|)
  {
    hide Decodable, Covered, Present, OnlyTrueVotes, FieldElements;
    Di := new map<Bytes, nat>[|blocks|](_ => map[]);
    NothingCounted(Di[..], ip, blocks, seeds);
    for g := 0 to |seeds|
      invariant Counted(Di[..], ip, blocks, seeds, g)
    {
      ghost var before := seq(|blocks|, i requires 0 <= i < |blocks| => Decodable(ip)
          && Covered(seeds, ip.v, blocks, g, i));
      ghost var votes := Di[..];
      if seeds[g].None? {
        SkippedGroup(votes, ip, blocks, seeds, g);
        continue;
      }
      var perm := seeds[g].value;
      var blockVals := SolveGroup(ip, blocks, perm[..ip.v]);
      if blockVals.None? {
        SkippedGroup(votes, ip, blocks, seeds, g);
        continue;
      }
      assert forall i | 0 <= i < |blocks| :: Di[i] == votes[i];
      CountGroup(Di, blockVals.value, perm, ip, blocks, before);
      CountedGroup(Di[..], ip, blocks, seeds, g, before);
    }
  }

  lemma {:induction false} NothingCounted(Di: seq<map<Bytes, nat>>, ip: InnerParams, blocks: seq<Option<Bytes>>,
                                          seeds: seq<Option<seq<int>>>)
    requires ip.p > 0 && |Di| == |blocks| && forall i | 0 <= i < |Di| :: Di[i] == map[]
    ensures Counted(Di, ip, blocks, seeds, 0)
  {
  }

  lemma {:induction false} SkippedGroup(Di: seq<map<Bytes, nat>>, ip: InnerParams, blocks: seq<Option<Bytes>>,
                                        seeds: seq<Option<seq<int>>>, g: nat)
    requires ip.p > 0 && g < |seeds| && Counted(Di, ip, blocks, seeds, g)
    requires seeds[g].None? || !Decodable(ip) || (ip.v <= |seeds[g].value| && !Present(blocks, seeds[g].value[..ip.v]))
    ensures Counted(Di, ip, blocks, seeds, g + 1)
  {
    hide Decodable, Covered, Present, OnlyTrueVotes;
    forall i | 0 <= i < |blocks|
      ensures OnlyTrueVotes(Di[i], blocks, i, ip.p, Decodable(ip) && Covered(seeds, ip.v, blocks, g + 1, i)) {
      CoveredNext(seeds, ip.v, blocks, g, i);
      assert OnlyTrueVotes(Di[i], blocks, i, ip.p, Decodable(ip) && Covered(seeds, ip.v, blocks, g, i));
    }
  }

  lemma {:induction false} CountedGroup(Di: seq<map<Bytes, nat>>, ip: InnerParams, blocks: seq<Option<Bytes>>,
                                        seeds: seq<Option<seq<int>>>, g: nat, before: seq<bool>)
    requires ip.p > 0 && g < |seeds| && seeds[g].Some?
    requires |Di| == |blocks| == |before| && ip.v <= |seeds[g].value|
    requires Decodable(ip) && Present(blocks, seeds[g].value[..ip.v])
    requires forall i | 0 <= i < |blocks| :: before[i] == (Decodable(ip) && Covered(seeds, ip.v, blocks, g, i))
    requires forall i | 0 <= i < |blocks| ::
               OnlyTrueVotes(Di[i], blocks, i, ip.p, before[i] || i in seeds[g].value[..ip.v])
    ensures Counted(Di, ip, blocks, seeds, g + 1)
  {
    hide Decodable, Covered, Present, OnlyTrueVotes;
    forall i | 0 <= i < |blocks|
      ensures OnlyTrueVotes(Di[i], blocks, i, ip.p, Decodable(ip) && Covered(seeds, ip.v, blocks, g + 1, i)) {
      CoveredNext(seeds, ip.v, blocks, g, i);
    }
  }

  /** A unanimous vote wins exactly when the margin is at most one half. */
  lemma {:induction false} UnanimousVote(D: map<Bytes, nat>, k: Bytes, delta: real)
    requires D.Keys == {k} && D[k] > 0
    ensures forall j :: Wins(D, j, delta) <==> j == k && delta <= 0.5
  {
    VotesSplit(D, D.Keys, k);
    assert D.Keys - {k} == {};
    assert Votes(D, D.Keys) == D[k];
    var c := D[k] as real;
    assert c / c == 1.0;
  }

  /** Reading a candidate back and writing it at the block length gives the block, if the block fits below P. */
  lemma {:induction false} CandidateBlock(block: Bytes, P: int, size: nat)
    requires |block| == size && P >= Pow(256, size) && P > 0
    ensures FixedBytes(SetBytes(Candidate(block, P)), size) == block
    ensures |MinBytes(SetBytes(Candidate(block, P)))| <= size
  {
    hide SetBytes, FixedBytes, Pow, MToBytes;
    SetBytesBound(block);
    ModSmall(SetBytes(block), P);
    MToBytesRoundTrip(SetBytes(block), P);
    FixedBytesInverse(block);
    MinBytesValue(SetBytes(block), size);
  }

  /** extractPhaseI: exact on losses. For every choice of seeds each position comes back as the stored block or not at
      all, and it comes back exactly when some group challenges it among present blocks only. */
  method ExtractPhaseI(ip: InnerParams, delta: real, alpha: nat, blocks: seq<Option<Bytes>>,
                       seeds: seq<Option<seq<int>>>)
    returns (recovered: seq<Option<Bytes>>)
    requires IsPrime(ip.p) && 1 <= ip.v <= |blocks|
    requires UniformSurvivors(blocks, FirstSize(blocks))
    requires Pow(256, FirstSize(blocks)) <= ip.p
    requires |seeds| == GroupCount(alpha, |blocks|, ip.v) && ValidSeeds(seeds, |blocks|)
    ensures recovered == Recoveries(ip, delta, blocks, seeds)
    ensures |recovered| == |blocks|
    ensures forall i | 0 <= i < |blocks| ::
              recovered[i] ==
              if && delta <= 0.5 && ip.v <= ip.w && !HasKernel(GenMatrix(ip), ip.v, ip.p)
                 && (exists j :: 0 <= j < |blocks| && blocks[j].Some? && blocks[j].value != [])
                 && (exists g :: 0 <= g < |seeds| && seeds[g].Some? && i in seeds[g].value[..ip.v]
                                 && forall t | t in seeds[g].value[..ip.v] :: blocks[t].Some?)
              then blocks[i] else None
  {
    hide Decodable, Covered, SetBytes, FixedBytes, Candidate, Pow, Wins, UniformSurvivors, OnlyTrueVotes;
    var t := |blocks|;
    var blockSize := FindBlockSize(blocks);
    if blockSize == 0 {
      recovered := seq(t, _ => None);
      assert recovered == Recoveries(ip, delta, blocks, seeds);
      RecoveredMeans(ip, delta, blocks, seeds);
      return;
    }
    var Di := CountGroups(ip, blocks, seeds);
    recovered := [];
    for i := 0 to t
      invariant |recovered| == i && forall k | 0 <= k < i :: recovered[k] == Recovery(ip, delta, blocks, seeds, k)
      invariant Counted(Di[..], ip, blocks, seeds, |seeds|)
    {
      assert OnlyTrueVotes(Di[..][i], blocks, i, ip.p, Decodable(ip) && Covered(seeds, ip.v, blocks, |seeds|, i));
      var block := DecideBlock(ip, delta, Di[i], blocks, i, blockSize, Decodable(ip)
          && Covered(seeds, ip.v, blocks, |seeds|, i));
      recovered := recovered + [block];
    }
    RecoveredMeans(ip, delta, blocks, seeds);
  }

  /** What comes back, in full: a stored block exactly if the vote can be won, the public matrix can be inverted with
      the columns asked for, some present block is not empty, and some group challenges it among present blocks. */
  lemma {:induction false} RecoveredMeans(ip: InnerParams, delta: real, blocks: seq<Option<Bytes>>,
                                          seeds: seq<Option<seq<int>>>)
    requires ip.p > 0 && ip.v <= |blocks| && ValidSeeds(seeds, |blocks|)
    requires UniformSurvivors(blocks, FirstSize(blocks))
    ensures var recovered := Recoveries(ip, delta, blocks, seeds);
            forall i | 0 <= i < |blocks| ::
              recovered[i] ==
              if && delta <= 0.5 && ip.v <= ip.w && !HasKernel(GenMatrix(ip), ip.v, ip.p)
                 && (exists j :: 0 <= j < |blocks| && blocks[j].Some? && blocks[j].value != [])
                 && (exists g :: 0 <= g < |seeds| && seeds[g].Some? && i in seeds[g].value[..ip.v]
                                 && forall t | t in seeds[g].value[..ip.v] :: blocks[t].Some?)
              then blocks[i] else None
  {
    hide HasKernel, FirstSize, CoveredBy;
    SomeBytesPresent(blocks);
    forall i | 0 <= i < |blocks|
      ensures Covered(seeds, ip.v, blocks, |seeds|, i) <==>
              exists g :: 0 <= g < |seeds| && seeds[g].Some? && i in seeds[g].value[..ip.v]
                          && forall t | t in seeds[g].value[..ip.v] :: blocks[t].Some?
    {
      forall g | 0 <= g < |seeds| && seeds[g].Some?
        ensures CoveredBy(seeds[g].value, ip.v, blocks, i) <==>
                i in seeds[g].value[..ip.v] && forall t | t in seeds[g].value[..ip.v] :: blocks[t].Some?
      {
        CoveredByMeans(seeds[g].value, ip.v, blocks, i);
      }
    }
  }

  lemma {:induction false} CoveredByMeans(perm: seq<int>, v: nat, blocks: seq<Option<Bytes>>, i: nat)
    requires IsPermutation(perm, |blocks|) && v <= |blocks|
    ensures CoveredBy(perm, v, blocks, i) <==> i in perm[..v] && forall t | t in perm[..v] :: blocks[t].Some?
  {
    if forall t | t in perm[..v] :: blocks[t].Some? {
      forall k | 0 <= k < v ensures 0 <= perm[..v][k] < |blocks| && blocks[perm[..v][k]].Some? {
        assert perm[..v][k] in perm[..v];
      }
    }
    if CoveredBy(perm, v, blocks, i) {
      forall t | t in perm[..v] ensures blocks[t].Some? {
        var k :| 0 <= k < v && perm[..v][k] == t;
      }
    }
  }

  lemma {:induction false} SomeBytesPresent(blocks: seq<Option<Bytes>>)
    requires UniformSurvivors(blocks, FirstSize(blocks))
    ensures FirstSize(blocks) > 0 <==> exists j :: 0 <= j < |blocks| && blocks[j].Some? && blocks[j].value != []
  {
    FirstSizeFound(blocks, FirstSize(blocks));
    if FirstSize(blocks) > 0 {
      SomePresent(blocks);
    }
  }

  lemma {:induction false} SomePresent(blocks: seq<Option<Bytes>>)
    requires FirstSize(blocks) > 0
    ensures exists j :: 0 <= j < |blocks| && blocks[j].Some? && |blocks[j].value| == FirstSize(blocks)
  {
    if blocks[0].None? {
      SomePresent(blocks[1..]);
      var j :| 0 <= j < |blocks[1..]| && blocks[1..][j].Some? && |blocks[1..][j].value| == FirstSize(blocks[1..]);
      assert blocks[j + 1] == blocks[1..][j];
    }
  }

  /** A store that lost nothing, and whose positions all occur in some group, comes back whole. */
  lemma {:induction false} IntactComesBack(ip: InnerParams, delta: real, blocks: seq<Option<Bytes>>,
                                           seeds: seq<Option<seq<int>>>, group: seq<nat>)
    requires ip.p > 0 && ip.v <= |blocks| && ValidSeeds(seeds, |blocks|)
    requires delta <= 0.5 && ip.v <= ip.w && !HasKernel(GenMatrix(ip), ip.v, ip.p)
    requires forall i | 0 <= i < |blocks| :: blocks[i].Some? && |blocks[i].value| == FirstSize(blocks) > 0
    requires |group| == |blocks|
    requires forall i | 0 <= i < |blocks| ::
               group[i] < |seeds| && seeds[group[i]].Some? && i in seeds[group[i]].value[..ip.v]
    ensures Recoveries(ip, delta, blocks, seeds) == blocks
  {
    hide HasKernel, FirstSize, Recoveries;
    RecoveredMeans(ip, delta, blocks, seeds);
    var recovered := Recoveries(ip, delta, blocks, seeds);
    forall i | 0 <= i < |blocks| ensures recovered[i] == blocks[i] {
      assert blocks[i].value != [];
      var g := group[i];
      forall t | t in seeds[g].value[..ip.v] ensures blocks[t].Some? {
        var k :| 0 <= k < ip.v && seeds[g].value[..ip.v][k] == t;
      }
    }
    assert |recovered| == |blocks| by { RecoveryCount(ip, delta, blocks, seeds); }
  }

  lemma {:induction false} RecoveryCount(ip: InnerParams, delta: real, blocks: seq<Option<Bytes>>,
                                         seeds: seq<Option<seq<int>>>)
    requires ip.p > 0
    ensures |Recoveries(ip, delta, blocks, seeds)| == |blocks|
  {
  }

  /** The vote on one block. */
  method DecideBlock(ip: InnerParams, delta: real, D: map<Bytes, nat>, ghost blocks: seq<Option<Bytes>>, ghost i: nat,
                     blockSize: nat, ghost covered: bool) returns (r: Option<Bytes>)
    requires ip.p > 0 && i < |blocks|
    requires OnlyTrueVotes(D, blocks, i, ip.p, covered)
    requires UniformSurvivors(blocks, blockSize) && Pow(256, blockSize) <= ip.p
    ensures r == if delta <= 0.5 && covered then blocks[i] else None
  {
    hide SetBytes, FixedBytes, Candidate, Pow, Wins, MinBytes;
    var best := Majority(D, delta);
    if covered {
      UnanimousVote(D, Candidate(blocks[i].value, ip.p), delta);
      assert Wins(D, Candidate(blocks[i].value, ip.p), delta) <==> delta <= 0.5;
      CandidateBlock(blocks[i].value, ip.p, blockSize);
    } else {
      NoVote(D, delta);
    }
    if best.None? { return None; }
    assert Wins(D, best.value, delta);
    return Some(FixedBytes(SetBytes(best.value), blockSize));
  }

  lemma {:induction false} NoVote(D: map<Bytes, nat>, delta: real)
    requires D == map[]
    ensures forall k :: !Wins(D, k, delta)
  {
  }

  /** What Phase I returns never disagrees with the store, and a missing block never comes back. */
  lemma {:induction false} RecoveriesAreStored(ip: InnerParams, delta: real, blocks: seq<Option<Bytes>>,
                                               seeds: seq<Option<seq<int>>>, i: nat)
    requires ip.p > 0 && i < |blocks|
    ensures var r := Recoveries(ip, delta, blocks, seeds)[i]; r == blocks[i] || r == None
    ensures blocks[i].None? ==> Recoveries(ip, delta, blocks, seeds)[i].None?
  {
    hide Decodable, Covered;
  }
}
