/**
 Key generation: the rejection loops over a stream of primes, and what every
 pair that leaves them satisfies.
 */
module KeyGen {
  import opened BigNum
  import opened Keys
  import opened NumberTheory
  import opened Paillier
  import opened Wrappers

  const N_BIT_SIZE_MAX := 2048
  const N_BIT_SIZE_MIN := 200

  predicate SupportedLength(nLength: int) {
    N_BIT_SIZE_MIN <= nLength <= N_BIT_SIZE_MAX && nLength % 4 == 0
  }

  /** getPrimeDistance: a single bit set in a word vector. */
  method PrimeDistance(keySize: nat) returns (words: seq<Word>)
    requires N_BIT_SIZE_MIN <= keySize
    ensures WordsValue(words) == Pow(2, keySize / 2 - 100)
  {
    var count := keySize / 2 - 100;
    var ct32 := count / 32;
    var res := count % 32;
    SingleBit(res);
    words := Repeat<Word>(0, ct32 + 1);
    words := words[ct32 := Pow(2, res)];
    TopWords(words, ct32);
    assert words[ct32..] == [Pow(2, res)];
    assert WordsValue([Pow(2, res)][1..]) == 0;
    ZeroWords(words[..ct32]);
    PowAdd(2, 32 * ct32, res);
  }

  lemma {:induction false} ZeroWords(ws: seq<Word>)
    requires forall i :: 0 <= i < |ws| ==> ws[i] == 0
    ensures WordsValue(ws) == 0
  {
    if ws != [] {
      ZeroWords(ws[1..]);
    }
  }

  lemma SingleBit(res: nat)
    requires res < 32
    ensures 0 < Pow(2, res) < WORD_BASE
  {
    PowPositive(2, res);
    PowPositive(2, 31 - res);
    PowTwo();
    PowAdd(2, res, 31 - res);
    MulMonotone(Pow(2, res), 1, Pow(2, 31 - res));
  }

  /** isClosePrimeBN. */
  predicate ClosePrimes(p: int, q: int, distance: int) {
    (if p >= q then p - q else q - p) <= distance
  }

  /** TestBit(1). */
  predicate SecondBit(p: nat) {
    p / 2 % 2 == 1
  }

  /** The condition on which getNormalBN stops. */
  predicate AcceptsNormal(nLength: int, p: nat, q: nat, distance: int) {
    q != p && BitSize(p * q) == nLength && !ClosePrimes(p, q, distance)
  }

  /** The condition on which getDJNBN stops; both inner loops test p. */
  predicate AcceptsDjn(nLength: int, p: nat, q: nat, distance: int) {
    && SecondBit(p) && q != p
    && 0 < p && 0 < q && Gcd(p - 1, q - 1) == 2
    && BitSize(p * q) == nLength && !ClosePrimes(p, q, distance)
  }

  /** The condition on which either loop stops. */
  predicate Accepts(djn: bool, nLength: int, p: nat, q: nat, distance: int) {
    if djn then AcceptsDjn(nLength, p, q, distance) else AcceptsNormal(nLength, p, q, distance)
  }

  /**
   Either loop stops on two different numbers further apart than the distance whose
   product has the full length; with the DJN variant the second bit of the first must
   be set, and 1 and 2 must be the only common divisors of p - 1 and q - 1.
   */
  lemma AcceptsMeans(djn: bool, nLength: nat, p: nat, q: nat, distance: int)
    requires 2 <= nLength && 0 < p && 0 < q
    ensures Accepts(false, nLength, p, q, distance) <==>
      p != q && Pow(2, nLength - 1) <= p * q < Pow(2, nLength) && (p - q > distance || q - p > distance)
    ensures Accepts(true, nLength, p, q, distance) <==>
      && Accepts(false, nLength, p, q, distance) && p / 2 % 2 == 1
      && var a, b := p - 1, q - 1;
         a % 2 == 0 && b % 2 == 0 && forall d :: 2 < d ==> !(a % d == 0 && b % d == 0)
  {
    hide Gcd, BitSize, Pow;
    MulMonotone(p, 1, q);
    FullLength(p * q, nLength);
    if p != q {
      GcdIsTwo(p - 1, q - 1);
    }
  }

  lemma FullLength(v: nat, bits: nat)
    requires 0 < v && 0 < bits
    ensures BitSize(v) == bits <==> Pow(2, bits - 1) <= v < Pow(2, bits)
  {
    hide BitSize, Pow;
    BitSizeBounds(v, bits);
  }

  /** An odd number with the second bit set is 3 modulo 4. */
  lemma ThreeModuloFour(p: nat)
    requires p % 2 == 1
    ensures SecondBit(p) <==> p % 4 == 3
  {
  }

  lemma GcdIsTwo(a: nat, b: nat)
    requires 0 < a || 0 < b
    ensures Gcd(a, b) == 2 <==> a % 2 == 0 && b % 2 == 0 && forall d :: 2 < d ==> !(a % d == 0 && b % d == 0)
  {
    GcdDivides(a, b);
    if a % 2 == 0 && b % 2 == 0 {
      GcdGreatest(a, b, 2);
    }
    if Gcd(a, b) == 2 {
      forall d | 2 < d ensures !(a % d == 0 && b % d == 0) {
        if a % d == 0 && b % d == 0 {
          GcdGreatest(a, b, d);
          DivModUnique(2, 0, 2, d);
        }
      }
    }
  }

  // ---- the rounds of the loops, as a function of the stream of primes -------------------

  datatype Pair = Accepted(p: nat, q: nat, n: nat) | StillDrawing

  /** One round: the two primes it ends with and where it stops reading; Dry when the stream ends first. */
  datatype Round = Round(p: nat, q: nat, next: nat) | Dry

  /** The first position from `from` on of a number with the second bit set. */
  function NextThree(primes: seq<nat>, from: nat): (i: nat)
    requires from <= |primes|
    ensures from <= i <= |primes| && (i < |primes| ==> SecondBit(primes[i]))
    decreases |primes| - from
  {
    if from == |primes| || SecondBit(primes[from]) then from else NextThree(primes, from + 1)
  }

  /** The first position from `from` on of a number other than p. */
  function NextOther(primes: seq<nat>, from: nat, p: nat): (j: nat)
    requires from <= |primes|
    ensures from <= j <= |primes| && (j < |primes| ==> primes[j] != p)
    decreases |primes| - from
  {
    if from == |primes| || primes[from] != p then from else NextOther(primes, from + 1, p)
  }

  /** p is the next number, or the next with the second bit; q is the next different one. */
  function NextRound(primes: seq<nat>, from: nat, djn: bool): (r: Round)
    requires from <= |primes|
    ensures r.Round? ==> from < r.next <= |primes| && r.p in primes && r.q in primes && r.p != r.q
    ensures r.Round? && djn ==> SecondBit(r.p)
  {
    var i := if djn then NextThree(primes, from) else from;
    if i == |primes| then Dry
    else
      var j := NextOther(primes, i + 1, primes[i]);
      if j == |primes| then Dry else Round(primes[i], primes[j], j + 1)
  }

  /**
   A round by positions in the stream. p stands at i: the next number, or with the DJN
   variant the first from there whose second bit is set; q stands at j, the first after
   i that differs from p. Without two such positions the stream runs dry.
   */
  lemma RoundPositions(primes: seq<nat>, from: nat, djn: bool) returns (i: nat, j: nat)
    requires from <= |primes|
    ensures var r := NextRound(primes, from, djn);
      r.Round? ==>
        from <= i < j < |primes| && r.p == primes[i] && r.q == primes[j] && r.next == j + 1
        && (!djn ==> i == from)
        && (djn ==> primes[i] / 2 % 2 == 1 && forall k :: from <= k < i ==> primes[k] / 2 % 2 == 0)
        && primes[j] != primes[i] && forall k :: i < k < j ==> primes[k] == primes[i]
    ensures NextRound(primes, from, djn).Dry? && !djn ==>
      forall k :: from < k < |primes| ==> primes[k] == primes[from]
    ensures NextRound(primes, from, djn).Dry? && djn && (exists k :: from <= k < |primes| && primes[k] / 2 % 2 == 1) ==>
      from <= i < |primes| && primes[i] / 2 % 2 == 1 && (forall k :: from <= k < i ==> primes[k] / 2 % 2 == 0)
      && forall k :: i < k < |primes| ==> primes[k] == primes[i]
  {
    i := from;
    if djn {
      i := NextThree(primes, from);
      ThreeIsFirst(primes, from);
    }
    j := i;
    if i < |primes| {
      j := NextOther(primes, i + 1, primes[i]);
      OtherIsFirst(primes, i + 1, primes[i]);
    }
  }

  lemma {:induction false} ThreeIsFirst(primes: seq<nat>, from: nat)
    requires from <= |primes|
    ensures forall k :: from <= k < NextThree(primes, from) ==> primes[k] / 2 % 2 == 0
    decreases |primes| - from
  {
    if from < |primes| && !SecondBit(primes[from]) {
      ThreeIsFirst(primes, from + 1);
    }
  }

  lemma {:induction false} OtherIsFirst(primes: seq<nat>, from: nat, p: nat)
    requires from <= |primes|
    ensures forall k :: from <= k < NextOther(primes, from, p) ==> primes[k] == p
    decreases |primes| - from
  {
    if from < |primes| && primes[from] == p {
      OtherIsFirst(primes, from + 1, p);
    }
  }

  function Rounds(primes: seq<nat>, from: nat, djn: bool): (rs: seq<(nat, nat)>)
    requires from <= |primes|
    ensures forall k :: 0 <= k < |rs| ==> rs[k].0 in primes && rs[k].1 in primes && rs[k].0 != rs[k].1
    decreases |primes| - from
  {
    var r := NextRound(primes, from, djn);
    if r.Dry? then [] else [(r.p, r.q)] + Rounds(primes, r.next, djn)
  }

  /** Each round begins where the one before stopped reading, and after the last one the stream is dry. */
  lemma {:induction false} RoundsFollow(primes: seq<nat>, from: nat, djn: bool) returns (starts: seq<nat>)
    requires from <= |primes|
    ensures |starts| == |Rounds(primes, from, djn)| + 1 && starts[0] == from
    ensures forall k :: 0 <= k < |starts| ==> starts[k] <= |primes|
    ensures forall k :: 0 <= k < |starts| - 1 ==>
      NextRound(primes, starts[k], djn)
      == Round(Rounds(primes, from, djn)[k].0, Rounds(primes, from, djn)[k].1, starts[k + 1])
    ensures NextRound(primes, starts[|starts| - 1], djn).Dry?
    decreases |primes| - from
  {
    var r := NextRound(primes, from, djn);
    starts := [from];
    if r.Round? {
      var rest := RoundsFollow(primes, r.next, djn);
      starts := [from] + rest;
      hide NextRound;
    }
  }

  /** The first acceptable round, if there is one. */
  function FirstPair(rounds: seq<(nat, nat)>, djn: bool, nLength: int, distance: int): (pair: Pair)
    ensures pair.StillDrawing? <==>
      forall k :: 0 <= k < |rounds| ==> !Accepts(djn, nLength, rounds[k].0, rounds[k].1, distance)
    ensures pair.Accepted? ==> Accepts(djn, nLength, pair.p, pair.q, distance) && pair.n == pair.p * pair.q
    ensures pair.Accepted? ==> (pair.p, pair.q) in rounds
  {
    if rounds == [] then StillDrawing
    else if Accepts(djn, nLength, rounds[0].0, rounds[0].1, distance) then
      Accepted(rounds[0].0, rounds[0].1, rounds[0].0 * rounds[0].1)
    else
      assert forall k :: 1 <= k < |rounds| ==> rounds[k] == rounds[1..][k - 1];
      FirstPair(rounds[1..], djn, nLength, distance)
  }

  /** It is the first one: no earlier round is acceptable. */
  lemma {:induction false} FirstPairIsFirst(rounds: seq<(nat, nat)>, djn: bool, nLength: int, distance: int)
    returns (k: nat)
    requires FirstPair(rounds, djn, nLength, distance).Accepted?
    ensures var pair := FirstPair(rounds, djn, nLength, distance);
      k < |rounds| && rounds[k] == (pair.p, pair.q)
    ensures forall j :: 0 <= j < k ==> !Accepts(djn, nLength, rounds[j].0, rounds[j].1, distance)
  {
    if Accepts(djn, nLength, rounds[0].0, rounds[0].1, distance) {
      k := 0;
    } else {
      var rest := FirstPairIsFirst(rounds[1..], djn, nLength, distance);
      k := rest + 1;
      assert forall j :: 1 <= j < k ==> rounds[j] == rounds[1..][j - 1];
    }
  }

  lemma FirstPairStep(p: nat, q: nat, rounds: seq<(nat, nat)>, djn: bool, nLength: int, distance: int)
    ensures FirstPair([(p, q)] + rounds, djn, nLength, distance)
         == if Accepts(djn, nLength, p, q, distance) then Accepted(p, q, p * q)
            else FirstPair(rounds, djn, nLength, distance)
  {
    assert ([(p, q)] + rounds)[1..] == rounds;
  }

  /** What a key generation loop leaves with, given the stream of primes it draws. */
  function PairOf(primes: seq<nat>, djn: bool, nLength: int): (pair: Pair)
    requires N_BIT_SIZE_MIN <= nLength
  {
    FirstPair(Rounds(primes, 0, djn), djn, nLength, Pow(2, nLength / 2 - 100))
  }

  /** getNormalBN's inner part: reads primes from the stream until two different ones came. */
  method DrawDistinct(primes: seq<nat>, start: nat) returns (pair: Pair, next: nat)
    requires start <= |primes|
    ensures NextRound(primes, start, false).Dry? <==> pair.StillDrawing?
    ensures pair.Accepted? ==>
      NextRound(primes, start, false) == Round(pair.p, pair.q, next) && pair.n == pair.p * pair.q
  {
    next := start;
    if next == |primes| {
      return StillDrawing, next;
    }
    var p := primes[next];
    next := next + 1;
    var q := p;
    while q == p
      invariant start < next <= |primes|
      invariant q == p ==> NextOther(primes, start + 1, p) == NextOther(primes, next, p)
      invariant q != p ==> NextOther(primes, start + 1, p) == next - 1 && q == primes[next - 1]
      decreases |primes| - next
    {
      if next == |primes| {
        return StillDrawing, next;
      }
      q := primes[next];
      next := next + 1;
    }
    return Accepted(p, q, p * q), next;
  }

  method GetNormalBn(nLength: int, primes: seq<nat>, distance: int) returns (pair: Pair)
    requires 0 < nLength
    ensures pair == FirstPair(Rounds(primes, 0, false), false, nLength, distance)
  {
    hide BitSize, ClosePrimes, FirstPair;
    pair := StillDrawing;
    var len := 0;
    var next := 0;
    while len != nLength || ClosePrimes(pair.p, pair.q, distance)
      invariant next <= |primes| && (pair.StillDrawing? ==> len == 0)
      invariant pair.Accepted? ==> pair.n == pair.p * pair.q && len == BitSize(pair.n) && pair.p != pair.q
      invariant pair.StillDrawing? ==> next == 0
      invariant pair.Accepted? ==>
        FirstPair(Rounds(primes, 0, false), false, nLength, distance)
        == FirstPair([(pair.p, pair.q)] + Rounds(primes, next, false), false, nLength, distance)
      decreases |primes| - next
    {
      if pair.Accepted? {
        FirstPairStep(pair.p, pair.q, Rounds(primes, next, false), false, nLength, distance);
      }
      pair, next := DrawDistinct(primes, next);
      if pair.StillDrawing? {
        NoRounds(false, nLength, distance);
        return;
      }
      len := BitSize(pair.n);
    }
    FirstPairStep(pair.p, pair.q, Rounds(primes, next, false), false, nLength, distance);
  }

  lemma NoRounds(djn: bool, nLength: int, distance: int)
    ensures FirstPair([], djn, nLength, distance) == StillDrawing
  {
  }

  /** The two inner loops of getDJNBN; both of them test p. */
  method DrawThree(primes: seq<nat>, start: nat) returns (pair: Pair, next: nat)
    requires start <= |primes|
    ensures NextRound(primes, start, true).Dry? <==> pair.StillDrawing?
    ensures pair.Accepted? ==>
      NextRound(primes, start, true) == Round(pair.p, pair.q, next) && pair.n == pair.p * pair.q
  {
    var p: nat, q: nat := 0, 0;
    next := start;
    while !SecondBit(p)
      invariant start <= next <= |primes|
      invariant !SecondBit(p) ==> NextThree(primes, start) == NextThree(primes, next)
      invariant SecondBit(p) ==> start < next && NextThree(primes, start) == next - 1 && p == primes[next - 1]
      decreases |primes| - next
    {
      if next == |primes| {
        return StillDrawing, next;
      }
      p := primes[next];
      next := next + 1;
    }
    q := p;
    ghost var first := next;
    while q == p || !SecondBit(p)
      invariant start < first <= next <= |primes|
      invariant q == p ==> NextOther(primes, first, p) == NextOther(primes, next, p)
      invariant q != p ==> first < next && NextOther(primes, first, p) == next - 1 && q == primes[next - 1]
      decreases |primes| - next
    {
      if next == |primes| {
        return StillDrawing, next;
      }
      q := primes[next];
      next := next + 1;
    }
    return Accepted(p, q, p * q), next;
  }

  method GetDjnBn(nLength: int, primes: seq<nat>, distance: int) returns (pair: Pair)
    requires forall i :: 0 <= i < |primes| ==> 0 < primes[i]
    ensures pair == FirstPair(Rounds(primes, 0, true), true, nLength, distance)
  {
    hide BitSize, ClosePrimes, FirstPair, Gcd;
    var next := 0;
    while true
      invariant next <= |primes|
      invariant FirstPair(Rounds(primes, 0, true), true, nLength, distance)
             == FirstPair(Rounds(primes, next, true), true, nLength, distance)
      decreases |primes| - next
    {
      ghost var begin := next;
      pair, next := DrawThree(primes, next);
      if pair.StillDrawing? {
        NoRounds(true, nLength, distance);
        return;
      }
      FirstPairStep(pair.p, pair.q, Rounds(primes, next, true), true, nLength, distance);
      var gcd := Gcd(pair.p - 1, pair.q - 1);
      if !(gcd != 2 || BitSize(pair.n) != nLength || ClosePrimes(pair.p, pair.q, distance)) {
        return;
      }
    }
  }

  // ---- what the loops guarantee -------------------------------------------------------

  /** The promise of the prime generator: a prime of at most half the key's bits. */
  ghost predicate PrimeOfHalfLength(p: int, nLength: int) {
    Prime(p) && 0 <= nLength / 2 && p < Pow(2, nLength / 2)
  }

  /** Full length of the product forces full length of both factors. */
  lemma HalfLengths(nLength: nat, p: nat, q: nat)
    requires nLength % 2 == 0 && 2 <= nLength && BitSize(p * q) == nLength
    requires 0 < p < Pow(2, nLength / 2) && 0 < q < Pow(2, nLength / 2)
    ensures BitSize(p) == BitSize(q) == nLength / 2
    ensures Pow(2, nLength / 2 - 1) <= p && Pow(2, nLength / 2 - 1) <= q
  {
    hide Pow, BitSize;
    var h := nLength / 2;
    MulMonotone(p, 1, q);
    ProductFloor(p * q, h);
    LowerBound(p, q, Pow(2, h - 1), Pow(2, h), p * q);
    assert p * q == q * p;
    LowerBound(q, p, Pow(2, h - 1), Pow(2, h), q * p);
    BitSizeBounds(p, h);
    BitSizeBounds(q, h);
  }

  lemma ProductFloor(n: nat, h: nat)
    requires 0 < n && 0 < h && BitSize(n) == 2 * h
    ensures Pow(2, h - 1) * Pow(2, h) <= n
  {
    BitSizeBounds(n, 2 * h);
    PowAdd(2, h - 1, h);
  }

  lemma LowerBound(p: nat, q: nat, a: int, b: int, n: nat)
    requires q < b && n == p * q && a * b <= n
    ensures a <= p
  {
    if p < a {
      ProductBelow(p, q, a, b);
    }
  }

  lemma ProductBelow(p: nat, q: nat, a: nat, b: nat)
    requires p < a && q < b
    ensures p * q < a * b
  {
    MulMonotone(p, q, b);
    MulMonotone(b, p + 1, a);
    assert b * (p + 1) == b * p + b && b * p == p * b && b * a == a * b;
  }

  lemma OddPrime(p: int)
    requires Prime(p) && 2 < p
    ensures Odd(p)
  {
    assert p % 2 != 0;
  }

  /** Of two primes of equal length neither divides the other minus one. */
  lemma NotOneModulo(p: int, q: int, b: int)
    requires Prime(p) && Prime(q) && p != q && 2 < b <= p && q < 2 * b && b <= q
    ensures (q - 1) % p != 0
  {
    OddPrime(p);
    OddPrime(q);
    if (q - 1) % p == 0 {
      var j := (q - 1) / p;
      assert q - 1 == p * j;
      if j >= 2 {
        MulMonotone(p, 2, j);
      } else if j <= 0 {
        MulMonotone(p, j, 0);
      }
    }
  }

  lemma LcmAvoids(a: nat, b: nat, p: int)
    requires 0 < a && 0 < b && Prime(p) && a % p != 0 && b % p != 0
    ensures Coprime(Lcm(a, b), p)
  {
    var s, t := LcmMultiple(a, b);
    GcdDivides(a, b);
    PrimeUnit(Lcm(a, b), p);
    if Lcm(a, b) % p == 0 {
      EuclidLemma(a, s, p);
      EuclidLemma(b, t, p);
      LcmCofactor(a, b, s, t);
      EuclidLemma(Gcd(a, b), s, p);
    }
  }

  /** The cofactors of the least common multiple divide the other number. */
  lemma LcmCofactor(a: nat, b: nat, s: nat, t: nat)
    requires 0 < a && 0 < b && Lcm(a, b) == a * s
    ensures b == Gcd(a, b) * s
  {
    GcdDivides(a, b);
    CofactorOf(a, b, Gcd(a, b), b / Gcd(a, b), s);
  }

  lemma CofactorOf(a: nat, b: nat, g: nat, c: nat, s: nat)
    requires 0 < a && 0 < g && b == g * c && a * b / g == a * s
    ensures s == c
  {
    assert a * (g * c) == g * (a * c);
    DivModUnique(a * b, a * c, 0, g);
    FactorCancel(a, s, c);
  }

  /** Equal lengths make lambda a unit modulo n. */
  lemma EqualLengthsLambda(p: int, q: int, b: int)
    requires Prime(p) && Prime(q) && p != q && 2 < b <= p && p < 2 * b && b <= q && q < 2 * b
    ensures 0 < p * q && Coprime(Lcm(p - 1, q - 1), p * q)
  {
    NotOneModulo(p, q, b);
    NotOneModulo(q, p, b);
    DivModUnique(p - 1, 0, p - 1, p);
    DivModUnique(q - 1, 0, q - 1, q);
    LcmAvoids(p - 1, q - 1, p);
    LcmAvoids(p - 1, q - 1, q);
    MulMonotone(p, 1, q);
    CoprimeProduct(Lcm(p - 1, q - 1), p, q);
  }

  /** A prime beyond 65537 shares no factor with 4294967295 = 3 * 5 * 17 * 257 * 65537. */
  lemma LargePrimeUnit(p: int)
    requires Prime(p) && 65537 < p
    ensures Coprime(NEGATION_FACTOR, p)
  {
    assert NEGATION_FACTOR == 65535 * 65537 && 65535 == 255 * 257 && 255 == 15 * 17 && 15 == 3 * 5;
    EuclidLemma(65535, 65537, p);
    DivModUnique(65535, 0, 65535, p);
    DivModUnique(65537, 0, 65537, p);
    PrimeUnit(NEGATION_FACTOR, p);
  }

  lemma BigHalf(h: nat)
    requires 100 <= h
    ensures Pow(2, h - 1) >= 0x1_0000_0000 && Pow(2, h) == 2 * Pow(2, h - 1)
  {
    PowTwo();
    PowAdd(2, 32, h - 33);
    PowPositive(2, h - 33);
    MulMonotone(0x1_0000_0000, 1, Pow(2, h - 33));
  }

  /**
   Every pair the loops accept gives a key on which both decryption routes agree
   and whose DJN base is a unit.
   */
  lemma AcceptedPair(nLength: nat, p: nat, q: nat, n: nat)
    requires SupportedLength(nLength) && p != q && n == p * q && BitSize(n) == nLength
    requires PrimeOfHalfLength(p, nLength) && PrimeOfHalfLength(q, nLength)
    ensures BitSize(p) == BitSize(q) == nLength / 2
    ensures Odd(p) && Odd(q) && Odd(n)
    ensures Coprime(Lcm(p - 1, q - 1), n) && Coprime(NEGATION_FACTOR, n)
  {
    hide Prime, Pow, BitSize, Gcd, Lcm, Coprime, Odd;
    assert nLength == 2 * (nLength / 2);
    AcceptedHalves(nLength / 2, p, q, n);
  }

  lemma AcceptedHalves(h: nat, p: nat, q: nat, n: nat)
    requires 100 <= h && p != q && n == p * q && BitSize(n) == 2 * h
    requires Prime(p) && Prime(q) && p < Pow(2, h) && q < Pow(2, h)
    ensures BitSize(p) == BitSize(q) == h
    ensures Odd(p) && Odd(q) && Odd(n)
    ensures Coprime(Lcm(p - 1, q - 1), n) && Coprime(NEGATION_FACTOR, n)
  {
    assert 2 <= p && 2 <= q;
    hide Prime, Pow, BitSize, Gcd, Lcm, Coprime, Odd;
    assert 2 * h / 2 == h;
    HalfLengths(2 * h, p, q);
    BigHalf(h);
    BalancedPair(p, q, Pow(2, h - 1));
  }

  lemma BalancedPair(p: int, q: int, b: int)
    requires Prime(p) && Prime(q) && p != q && 65537 < b <= p && p < 2 * b && b <= q && q < 2 * b
    ensures Odd(p) && Odd(q) && Odd(p * q)
    ensures Coprime(Lcm(p - 1, q - 1), p * q)
    ensures Coprime(NEGATION_FACTOR, p * q)
  {
    OddPrime(p);
    OddPrime(q);
    OddTimesOdd(p, q);
    EqualLengthsLambda(p, q, b);
    LargePrimeUnit(p);
    LargePrimeUnit(q);
    CoprimeProduct(NEGATION_FACTOR, p, q);
  }

  /** The private key of such a pair: m_x inverts lambda, and enableCrt is invisible. */
  lemma AcceptedKey(nLength: nat, p: nat, q: nat, leftover: int)
    requires SupportedLength(nLength) && p != q && BitSize(p * q) == nLength
    requires PrimeOfHalfLength(p, nLength) && PrimeOfHalfLength(q, nLength)
    ensures 2 <= p * q
    ensures var k := MakePrivKey(p * q, p, q, leftover);
            ValidKey(k, leftover) && CrtReady(k) && 0 < k.nsquare
            && Cong(k.lambda * k.x, 1, k.n)
            && forall c :: Unit(k, c) ==> RawLane(k, c) == CrtLane(k, c)
  {
    assert ValidKey(MakePrivKey(p * q, p, q, leftover), leftover) by {
      AnyPrimesMakeKey(p, q, leftover);
    }
    assert 2 <= p * q && 2 <= p && 2 <= q by {
      MulMonotone(p, 1, q);
    }
    hide Prime, Pow, BitSize, Gcd, Lcm, Coprime, Odd, MakePrivKey, ValidKey, CrtLane, RawLane;
    AcceptedPair(nLength, p, q, p * q);
    KeyFields(p * q, p, q, leftover);
    LcmSymmetric(p - 1, q - 1);
    UnitLambda(MakePrivKey(p * q, p, q, leftover), leftover);
  }

  /** With lambda a unit, m_x inverts it and the two routes agree. */
  lemma UnitLambda(k: PrivKey, leftover: int)
    requires ValidKey(k, leftover) && 0 < k.n && Coprime(k.lambda, k.n)
    ensures CrtReady(k) && 0 < k.nsquare && 2 <= k.n && Cong(k.lambda * k.x, 1, k.n)
    ensures forall c :: Unit(k, c) ==> RawLane(k, c) == CrtLane(k, c)
  {
    KeyFacts(k, leftover);
    CrtSwitchInvisible(k, leftover);
    GeneratorFullLog(k, leftover);
    assert 2 <= k.n;
    var tg := FullLog(k.n + 1, k.lambda, k.n);
    assert k.x == InverseMul(k.n, tg, leftover);
    hide MakePrivKey, CrtLane, RawLane, InverseMul, FullLog;
    CoprimeCong(tg, k.lambda, k.n);
    CongMul(tg, k.lambda, k.x, k.x, k.n);
  }

  lemma LcmSymmetric(a: nat, b: nat)
    requires 0 < a && 0 < b
    ensures Lcm(a, b) == Lcm(b, a)
  {
    GcdSymmetric(a, b);
    assert a * b == b * a;
  }

  lemma GcdSymmetric(a: nat, b: nat)
    requires 0 < a && 0 < b
    ensures Gcd(a, b) == Gcd(b, a)
  {
    GcdDivides(a, b);
    GcdDivides(b, a);
    GcdGreatest(a, b, Gcd(b, a));
    GcdGreatest(b, a, Gcd(a, b));
    MutualDivisors(Gcd(a, b), Gcd(b, a));
  }

  lemma MutualDivisors(g: int, h: int)
    requires 0 < g && 0 < h && g % h == 0 && h % g == 0
    ensures g == h
  {
    if g < h {
      DivModUnique(g, 0, g, h);
    } else if h < g {
      DivModUnique(h, 0, h, g);
    }
  }

  ghost predicate DrawnFrom(stream: seq<nat>, primes: set<nat>) {
    forall i :: 0 <= i < |stream| ==> stream[i] in primes
  }

  /** The pair drawn from the stream breaks the promise that q is 3 modulo 4. */
  ghost predicate SecondFactorFails(stream: seq<nat>, nLength: int) {
    N_BIT_SIZE_MIN <= nLength && var pair := PairOf(stream, true, nLength);
    pair.Accepted? && pair.q % 4 != 3
  }

  ghost predicate Exposes(nLength: int, p: nat, q: nat) {
    N_BIT_SIZE_MIN <= nLength && AcceptsDjn(nLength, p, q, Pow(2, nLength / 2 - 100)) && q % 4 == 1
  }

  /**
   The second inner loop of getDJNBN tests p again. Over a set of primes, every stream
   leads to a second factor that is 3 modulo 4, as the comments promise, exactly when
   no two of them are an acceptable pair with a second factor that is 1 modulo 4.
   */
  lemma SecondFactorExactly(nLength: int, primes: set<nat>)
    requires N_BIT_SIZE_MIN <= nLength
    ensures (forall stream :: DrawnFrom(stream, primes) ==> !SecondFactorFails(stream, nLength))
       <==> (forall p, q :: p in primes && q in primes ==> !Exposes(nLength, p, q))
  {
    hide PairOf, AcceptsDjn;
    forall p, q | p in primes && q in primes && Exposes(nLength, p, q)
      ensures DrawnFrom([p, q], primes) && SecondFactorFails([p, q], nLength)
    {
      PairStream(nLength, p, q);
    }
    forall stream | DrawnFrom(stream, primes) && SecondFactorFails(stream, nLength)
      ensures exists p, q :: p in primes && q in primes && Exposes(nLength, p, q)
    {
      FailingPair(nLength, stream);
    }
  }

  lemma FailingPair(nLength: int, stream: seq<nat>)
    requires SecondFactorFails(stream, nLength)
    ensures var pair := PairOf(stream, true, nLength);
      pair.p in stream && pair.q in stream && Exposes(nLength, pair.p, pair.q)
  {
    hide AcceptsDjn, Rounds, FirstPair, Pow;
    var pair := PairOf(stream, true, nLength);
    assert (pair.p, pair.q) in Rounds(stream, 0, true);
    SecondFactorOdd(nLength, pair.p, pair.q, Pow(2, nLength / 2 - 100));
  }

  /** An acceptable second factor is odd, because gcd(p - 1, q - 1) is 2. */
  lemma SecondFactorOdd(nLength: int, p: nat, q: nat, distance: int)
    requires AcceptsDjn(nLength, p, q, distance)
    ensures q % 2 == 1
  {
    hide BitSize, ClosePrimes, SecondBit, Gcd;
    EvenByGcd(p - 1, q - 1);
  }

  lemma EvenByGcd(a: nat, b: nat)
    requires Gcd(a, b) == 2
    ensures b % 2 == 0
  {
    GcdDivides(a, b);
  }

  /** The stream that holds just an acceptable pair yields that pair. */
  lemma PairStream(nLength: int, p: nat, q: nat)
    requires N_BIT_SIZE_MIN <= nLength && AcceptsDjn(nLength, p, q, Pow(2, nLength / 2 - 100))
    ensures PairOf([p, q], true, nLength) == Accepted(p, q, p * q)
  {
    hide BitSize, Gcd, Pow, ClosePrimes;
    assert NextThree([p, q], 0) == 0 && NextOther([p, q], 1, p) == 1;
    assert NextRound([p, q], 0, true) == Round(p, q, 2);
    assert Rounds([p, q], 0, true)[0] == (p, q);
  }

  datatype Outcome = Generated(pk: PublicKey, sk: PrivateKey) | Rejected(message: string) | Waiting

  /** Full-length distinct odd primes that are far apart, and lambda a unit modulo n. */
  ghost predicate GoodKey(k: PrivKey, nLength: nat, enableDjn: bool, leftover: int) {
    && ValidKey(k, leftover) && Odd(k.p) && Odd(k.q) && Coprime(k.lambda, k.n)
    && BitSize(k.n) == nLength && BitSize(k.p) == BitSize(k.q) == nLength / 2
    && 100 <= nLength / 2 && !ClosePrimes(k.p, k.q, Pow(2, nLength / 2 - 100))
    && (enableDjn ==> (SecondBit(k.p) || SecondBit(k.q)) && Gcd(k.p - 1, k.q - 1) == 2)
  }

  /** A key holds its modulus, and its two factors in one order or the other. */
  lemma KeyFields(n: int, a: int, b: int, leftover: int)
    requires 2 <= n && 2 <= a && 2 <= b
    ensures var k := MakePrivKey(n, a, b, leftover);
      k.n == n && ((k.p == a && k.q == b) || (k.p == b && k.q == a))
      && k.lambda == Lcm(k.p - 1, k.q - 1) && k == MakePrivKey(k.n, k.p, k.q, leftover)
  {
    hide Hfun, FullLog, InverseMul, Lcm;
  }

  /** What is asked of the pair when p comes first. */
  ghost predicate GoodPair(nLength: nat, p: nat, q: nat, n: nat, enableDjn: bool) {
    && Prime(p) && Prime(q) && p != q && Odd(p) && Odd(q) && n == p * q && BitSize(n) == nLength
    && BitSize(p) == BitSize(q) == nLength / 2
    && 100 <= nLength / 2 && !ClosePrimes(p, q, Pow(2, nLength / 2 - 100))
    && Coprime(Lcm(p - 1, q - 1), n)
    && (enableDjn ==> (SecondBit(p) || SecondBit(q)) && Gcd(p - 1, q - 1) == 2)
  }

  lemma GoodPairSwaps(nLength: nat, p: nat, q: nat, n: nat, enableDjn: bool)
    requires GoodPair(nLength, p, q, n, enableDjn)
    ensures GoodPair(nLength, q, p, n, enableDjn)
  {
    hide Pow, BitSize, Gcd, Lcm, Coprime, SecondBit;
    LcmSymmetric(p - 1, q - 1);
    GcdSymmetric(p - 1, q - 1);
    assert p * q == q * p;
  }

  lemma GoodPairMakesKey(k: PrivKey, nLength: nat, enableDjn: bool, leftover: int)
    requires 0 <= k.p && 0 <= k.q && 2 <= k.n && GoodPair(nLength, k.p, k.q, k.n, enableDjn)
    requires k.lambda == Lcm(k.p - 1, k.q - 1) && k == MakePrivKey(k.n, k.p, k.q, leftover)
    ensures GoodKey(k, nLength, enableDjn, leftover)
  {
    hide Prime, Odd, Pow, BitSize, Gcd, Lcm, Coprime, SecondBit, ClosePrimes, MakePrivKey;
  }

  /** What a good key is in plain arithmetic. */
  lemma GoodKeyMeans(k: PrivKey, nLength: nat, enableDjn: bool, leftover: int)
    requires GoodKey(k, nLength, enableDjn, leftover)
    ensures Prime(k.p) && Prime(k.q) && k.p < k.q && k.n == k.p * k.q
    ensures 100 <= nLength / 2 && k.q - k.p > Pow(2, nLength / 2 - 100)
    ensures Pow(2, nLength - 1) <= k.n < Pow(2, nLength)
    ensures Pow(2, nLength / 2 - 1) <= k.p && k.q < Pow(2, nLength / 2)
    ensures enableDjn ==> (k.p % 4 == 3 || k.q % 4 == 3) && Gcd(k.p - 1, k.q - 1) == 2
  {
    hide ValidKey, Prime, Odd, Coprime, Gcd, BitSize, Pow, ClosePrimes, SecondBit;
    KeyNumbers(k, leftover);
    PrimeFactors(k, leftover);
    NumbersMean(nLength, k.p, k.q, k.n);
    OddMeans(k.p);
    OddMeans(k.q);
    ThreeModuloFour(k.p);
    ThreeModuloFour(k.q);
  }

  lemma PrimeFactors(k: PrivKey, leftover: int)
    requires ValidKey(k, leftover)
    ensures Prime(k.p) && Prime(k.q)
  {
    hide Prime, MakePrivKey;
  }

  lemma OddMeans(p: int)
    requires Odd(p)
    ensures p % 2 == 1
  {
  }

  lemma NumbersMean(nLength: nat, p: nat, q: nat, n: nat)
    requires 0 < p < q && n == p * q && 100 <= nLength / 2 && !ClosePrimes(p, q, Pow(2, nLength / 2 - 100))
    requires BitSize(n) == nLength && BitSize(p) == BitSize(q) == nLength / 2
    ensures q - p > Pow(2, nLength / 2 - 100)
    ensures Pow(2, nLength - 1) <= n < Pow(2, nLength)
    ensures Pow(2, nLength / 2 - 1) <= p && q < Pow(2, nLength / 2)
  {
    hide Pow, BitSize;
    MulMonotone(p, 1, q);
    BitSizeBounds(n, nLength);
    BitSizeBounds(p, nLength / 2);
    BitSizeBounds(q, nLength / 2);
  }

  lemma OddProductAtLeast(p: int, q: int)
    requires Odd(p) && Odd(q)
    ensures 3 <= p && 3 <= q && 3 <= p * q
  {
    MulMonotone(p, 1, q);
  }

  /** The private key of an accepted pair, whichever factor comes first. */
  lemma KeyOfPair(nLength: nat, p: nat, q: nat, n: nat, enableDjn: bool, leftover: int)
    requires SupportedLength(nLength) && p != q && n == p * q && BitSize(n) == nLength
    requires PrimeOfHalfLength(p, nLength) && PrimeOfHalfLength(q, nLength)
    requires !ClosePrimes(p, q, Pow(2, nLength / 2 - 100))
    requires enableDjn ==> SecondBit(p) && Gcd(p - 1, q - 1) == 2
    ensures 3 <= n && 3 <= p && 3 <= q && Odd(n) && Coprime(NEGATION_FACTOR, n)
    ensures var k := MakePrivKey(n, p, q, leftover);
      GoodKey(k, nLength, enableDjn, leftover) && k.n == n && {k.p, k.q} == {p, q}
  {
    hide Pow, Prime, Odd, BitSize, Gcd, Lcm, Coprime, SecondBit, ClosePrimes, MakePrivKey, GoodKey;
    AcceptedPair(nLength, p, q, n);
    OddProductAtLeast(p, q);
    assert GoodPair(nLength, p, q, n, enableDjn);
    hide GoodPair;
    GoodPairSwaps(nLength, p, q, n, enableDjn);
    KeyFields(n, p, q, leftover);
    GoodPairMakesKey(MakePrivKey(n, p, q, leftover), nLength, enableDjn, leftover);
  }

  /** The private key of the pair a stream of primes leads to. */
  lemma KeyOfStream(nLength: nat, primes: seq<nat>, enableDjn: bool, leftover: int)
    requires SupportedLength(nLength) && PairOf(primes, enableDjn, nLength).Accepted?
    requires forall i :: 0 <= i < |primes| ==> PrimeOfHalfLength(primes[i], nLength)
    ensures var pair := PairOf(primes, enableDjn, nLength);
      3 <= pair.n && 3 <= pair.p && 3 <= pair.q && Odd(pair.n) && Coprime(NEGATION_FACTOR, pair.n)
      && Odd(pair.p) && Odd(pair.q) && pair.p != pair.q && pair.n == pair.p * pair.q
      && var k := MakePrivKey(pair.n, pair.p, pair.q, leftover);
         GoodKey(k, nLength, enableDjn, leftover) && k.n == pair.n && {k.p, k.q} == {pair.p, pair.q}
  {
    hide GoodKey, Prime, Pow, BitSize, Gcd, Lcm, Rounds, FirstPair, Coprime, MakePrivKey, ClosePrimes, SecondBit;
    var pair := PairOf(primes, enableDjn, nLength);
    assert (pair.p, pair.q) in Rounds(primes, 0, enableDjn);
    assert PrimeOfHalfLength(pair.p, nLength) && PrimeOfHalfLength(pair.q, nLength);
    AcceptedPair(nLength, pair.p, pair.q, pair.n);
    KeyOfPair(nLength, pair.p, pair.q, pair.n, enableDjn, leftover);
  }

  /** generateKeypair on streams of primes and random numbers; Waiting when a stream runs dry. */
  method GenerateKeypair(nLength: int, enableDjn: bool, primes: seq<nat>, draws: seq<nat>, leftover: int)
    returns (o: Outcome)
    requires forall i :: 0 <= i < |primes| ==> PrimeOfHalfLength(primes[i], nLength)
    ensures o.Rejected? <==> nLength < 200 || nLength > 2048 || nLength % 4 != 0
    ensures SupportedLength(nLength) ==> var pair := PairOf(primes, enableDjn, nLength);
      (o.Waiting? <==> pair.StillDrawing? || (enableDjn && forall i :: 0 <= i < |draws| ==> !Coprime(draws[i], pair.n)))
      && (o.Generated? ==> o.pk.n == pair.n && {o.sk.p, o.sk.q} == {pair.p, pair.q})
    ensures o.Generated? ==> ValidPub(o.pk.View()) && o.pk.n == o.sk.n && o.pk.djn == enableDjn
    ensures o.Generated? ==> GoodKey(o.sk.View(), nLength, enableDjn, leftover) && o.sk.enableCrt
    ensures o.Generated? && enableDjn ==> forall rand: nat :: GoodDraw(o.pk.View(), rand)
    ensures o.Generated? ==> 100 <= nLength / 2 && o.sk.q - o.sk.p > Pow(2, nLength / 2 - 100)
    ensures o.Generated? && enableDjn ==> o.sk.p % 4 == 3 || o.sk.q % 4 == 3
  {
    if nLength > N_BIT_SIZE_MAX {
      return Rejected("generateKeyPair: key size exceed the range!!!");
    }
    if !(nLength >= N_BIT_SIZE_MIN && nLength % 4 == 0) {
      return Rejected("generateKeyPair: key size should >=200, and divisible by 4");
    }
    hide GoodKey, Prime, Pow, BitSize, Gcd, Lcm, WordsValue, Rounds, FirstPair, AcceptsDjn, AcceptsNormal,
         Coprime, GoodDraw, MakePrivKey;
    var words := PrimeDistance(nLength);
    var distance := WordsValue(words);
    var pair;
    if enableDjn {
      pair := GetDjnBn(nLength, primes, distance);
    } else {
      pair := GetNormalBn(nLength, primes, distance);
    }
    assert pair == PairOf(primes, enableDjn, nLength);
    hide PairOf;
    if pair.StillDrawing? {
      return Waiting;
    }
    KeyOfStream(nLength, primes, enableDjn, leftover);
    var pk := MakePublicKey(pair.n, nLength, enableDjn, draws);
    if pk == null {
      return Waiting;
    }
    var sk := PrivateKey.Create(pk, pair.p, pair.q, leftover);
    GoodKeyMeans(sk.value.View(), nLength, enableDjn, leftover);
    return Generated(pk, sk.value);
  }

  /** The public key of an accepted n; null when no random number was accepted. */
  method MakePublicKey(n: int, nLength: nat, enableDjn: bool, draws: seq<nat>) returns (pk: PublicKey?)
    requires Odd(n) && Coprime(NEGATION_FACTOR, n)
    ensures pk == null <==> enableDjn && forall i :: 0 <= i < |draws| ==> !Coprime(draws[i], n)
    ensures pk != null ==> fresh(pk) && ValidPub(pk.View()) && pk.n == n && pk.djn == enableDjn
    ensures pk != null && enableDjn ==> forall rand: nat :: GoodDraw(pk.View(), rand)
    ensures pk != null ==> pk.bits == nLength && 0 < pk.nsquare == n * n
    ensures pk != null && enableDjn ==> pk.randbits == nLength / 2 && 0 <= pk.hs < pk.nsquare
    ensures pk != null && enableDjn ==> exists i | 0 <= i < |draws| ::
      && Coprime(draws[i], n) && (forall j :: 0 <= j < i ==> !Coprime(draws[j], n))
      && Cong(pk.hs, Pow(4294967295 * draws[i] * draws[i], n), pk.nsquare)
  {
    pk := new PublicKey(n, nLength);
    if enableDjn {
      AcceptedDraw(draws, n);
      var accepted := pk.EnableDjn(draws);
      if !accepted {
        return null;
      }
      DjnBaseUnit(FirstUnit(draws, n).rand, n);
    }
  }

  /** The draw that the rejection loop keeps is a unit. */
  lemma {:induction false} AcceptedDraw(draws: seq<nat>, n: int)
    requires 0 < n
    ensures FirstUnit(draws, n).Drawn? ==> Coprime(FirstUnit(draws, n).rand, n)
    ensures FirstUnit(draws, n).Exhausted? <==> forall i :: 0 <= i < |draws| ==> !Coprime(draws[i], n)
  {
    if draws != [] {
      AcceptedDraw(draws[1..], n);
      assert forall i :: 1 <= i < |draws| ==> draws[i] == draws[1..][i - 1];
    }
  }
}
