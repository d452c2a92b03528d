/**
 The Paillier scheme on single values: the key record with its precomputed
 fields, the two decryption formulas, and the theorems that relate them.
 */
module Paillier {
  import opened NumberTheory

  /** ippsDiv_BN divides magnitudes, so the quotient is truncated toward zero. */
  function TruncDiv(a: int, b: int): int
    requires 0 < b
  {
    if a >= 0 then a / b else -((-a) / b)
  }

  /**
   ippsModInv_BN gives the inverse of a modulo m. Without an inverse it reports
   a status that the library ignores; what the result then holds is `leftover`.
   */
  function InverseMul(m: int, a: int, leftover: int): (r: int)
    requires 0 < m
    ensures Coprime(a, m) ==> 0 <= r < m && Cong(a * r, 1, m)
  {
    if Coprime(a, m) then
      InverseIsInverse(a, m);
      Inverse(a, m)
    else leftover
  }

  function Lfun(a: int, b: int): int
    requires 0 < b
  {
    TruncDiv(a - 1, b)
  }

  function Square(p: int): (s: int)
    ensures 0 < p ==> 0 < s
    ensures s == p * p
  {
    p * p
  }

  /** L of c^(p-1) modulo p*p: the logarithm one CRT half works with. */
  function HalfLog(c: int, p: int): int
    requires 2 <= p
  {
    Lfun(ModPow(c % Square(p), p - 1, Square(p)), p)
  }

  function Hfun(g: int, p: int, leftover: int): int
    requires 2 <= p
  {
    InverseMul(p, HalfLog(g, p), leftover)
  }

  function Lcm(a: nat, b: nat): (l: nat)
    requires 0 < a && 0 < b
  {
    GcdDivides(a, b);
    a * b / Gcd(a, b)
  }

  datatype PrivKey = PrivKey(
    n: int, nsquare: int, g: int, p: int, q: int,
    pminusone: int, qminusone: int, psquare: int, qsquare: int,
    pinverse: int, hp: int, hq: int, lambda: nat, x: int)

  /** L of c^lambda modulo n*n. */
  function FullLog(c: int, lambda: nat, n: int): int
    requires 2 <= n
  {
    Lfun(ModPow(c, lambda, Square(n)), n)
  }

  /** The fields a key derives from n and its factors p and q. */
  function AssembleKey(n: int, p: int, q: int, leftover: int): PrivKey
    requires 2 <= n && 2 <= p && 2 <= q
  {
    var lambda := Lcm(p - 1, q - 1);
    PrivKey(n, Square(n), n + 1, p, q, p - 1, q - 1, Square(p), Square(q),
            InverseMul(q, p, leftover),
            Hfun(n + 1, p, leftover), Hfun(n + 1, q, leftover),
            lambda,
            InverseMul(n, FullLog(n + 1, lambda, n), leftover))
  }

  /** The constructors put the smaller factor first. */
  function MakePrivKey(n: int, a: int, b: int, leftover: int): (k: PrivKey)
    requires 2 <= n && 2 <= a && 2 <= b
  {
    if b < a then AssembleKey(n, b, a, leftover) else AssembleKey(n, a, b, leftover)
  }

  /** A key built from distinct primes, whatever failed inverses left behind. */
  ghost predicate ValidKey(k: PrivKey, leftover: int) {
    && Prime(k.p) && Prime(k.q) && k.p != k.q
    && k.n == k.p * k.q && 2 <= k.n
    && k == MakePrivKey(k.n, k.p, k.q, leftover)
  }

  /** One lane of decryptRAW. */
  function RawLane(k: PrivKey, c: int): int
    requires 2 <= k.n && 0 < k.nsquare
  {
    TruncDiv(ModPow(c, k.lambda, k.nsquare) - 1, k.n) * k.x % k.n
  }

  predicate CrtReady(k: PrivKey) {
    2 <= k.p && 2 <= k.q && 0 < k.psquare && 0 < k.qsquare && 0 <= k.pminusone && 0 <= k.qminusone
  }

  function ComputeCrt(k: PrivKey, mp: int, mq: int): int
    requires 0 < k.q
  {
    mp + (mq - mp) * k.pinverse % k.q * k.p
  }

  /** One lane of decryptCRT. */
  function CrtLane(k: PrivKey, c: int): int
    requires CrtReady(k)
  {
    var dp := Lfun(ModPow(c % k.psquare, k.pminusone, k.psquare), k.p) * k.hp % k.p;
    var dq := Lfun(ModPow(c % k.qsquare, k.qminusone, k.qsquare), k.q) * k.hq % k.q;
    ComputeCrt(k, dp, dq)
  }

  // ---- one half: the logarithm modulo p -----------------------------------------

  /** L divides exactly: for a unit, c^(p-1) is 1 + p*HalfLog(c) modulo p*p. */
  lemma HalfLogExact(c: int, p: int)
    requires Prime(p) && Coprime(c, p)
    ensures 0 <= HalfLog(c, p) < p
    ensures Cong(Pow(c, p - 1), 1 + p * HalfLog(c, p), Square(p))
  {
    var s := Square(p);
    CongMod(c, s);
    CongPow(c % s, c, p - 1, s);
    var r := ModPow(c % s, p - 1, s);
    Fermat(c, p);
    CongFactor(r, Pow(c, p - 1), p, p);
    ExactLog(r, p);
  }

  /** A residue modulo m*m that is 1 modulo m is 1 + m*Lfun. */
  lemma ExactLog(r: int, m: int)
    requires 2 <= m && 0 <= r < m * m && Cong(r, 1, m)
    ensures 0 <= Lfun(r, m) < m && r == 1 + m * Lfun(r, m)
  {
    var k := CongQuotient(r, 1, m);
    SmallMultiple(m, k);
    DivModUnique(r - 1, k, 0, m);
    QuotientBelow(m, k, m);
  }

  /** The logarithm is determined modulo p. */
  lemma HalfLogUnique(c: int, t: int, p: int)
    requires Prime(p) && Coprime(c, p)
    requires Cong(Pow(c, p - 1), 1 + p * t, Square(p))
    ensures Cong(HalfLog(c, p), t, p)
  {
    HalfLogExact(c, p);
    DropOne(HalfLog(c, p), t, p);
  }

  /** The logarithm turns products into sums. */
  lemma HalfLogMul(c: int, d: int, p: int)
    requires Prime(p) && Coprime(c, p) && Coprime(d, p)
    ensures Coprime(c * d, p)
    ensures Cong(HalfLog(c * d, p), HalfLog(c, p) + HalfLog(d, p), p)
  {
    var i, j := HalfLog(c, p), HalfLog(d, p);
    CoprimeMul(c, d, p);
    HalfLogExact(c, p);
    HalfLogExact(d, p);
    PowMul(c, d, p - 1);
    CongMul(Pow(c, p - 1), 1 + p * i, Pow(d, p - 1), 1 + p * j, Square(p));
    TwoTerms(p, i, j);
    HalfLogUnique(c * d, i + j, p);
  }

  lemma TwoTerms(p: int, i: int, j: int)
    requires 0 < p
    ensures Cong((1 + p * i) * (1 + p * j), 1 + p * (i + j), Square(p))
  {
    assert (1 + p * i) * (1 + p * j) == 1 + p * (i + j) + (p * i) * (p * j);
    Shuffle(p, i, p, j);
    CongOfQuotient((1 + p * i) * (1 + p * j), 1 + p * (i + j), Square(p), i * j);
  }

  /** ... and powers into multiples. */
  lemma {:induction false} HalfLogPow(c: int, e: nat, p: int)
    requires Prime(p) && Coprime(c, p)
    ensures Coprime(Pow(c, e), p)
    ensures Cong(HalfLog(Pow(c, e), p), e * HalfLog(c, p), p)
  {
    if e == 0 {
      CoprimeByInverse(1, 1, p);
      PowOne(p - 1);
      assert p * 0 == 0;
      HalfLogUnique(1, 0, p);
    } else {
      HalfLogPow(c, e - 1, p);
      HalfLogMul(c, Pow(c, e - 1), p);
      CongAdd(HalfLog(c, p), HalfLog(c, p), HalfLog(Pow(c, e - 1), p), (e - 1) * HalfLog(c, p), p);
      assert HalfLog(c, p) + (e - 1) * HalfLog(c, p) == e * HalfLog(c, p);
    }
  }

  /** The logarithm of 1 + n*m, for n = p*q. */
  lemma HalfLogPlain(n: int, m: int, p: int, q: int)
    requires Prime(p) && n == p * q
    ensures Coprime(1 + n * m, p)
    ensures Cong(HalfLog(1 + n * m, p), (q * (p - 1)) * m, p)
  {
    assert (p * q) * m == p * (q * m);
    CongOfQuotient(1 + n * m, 1, p, q * m);
    CoprimeByInverse(1 + n * m, 1, p);
    PowOnePlus(p, q * m, p - 1);
    SwapLast(q, m, p - 1);
    HalfLogUnique(1 + n * m, (q * (p - 1)) * m, p);
  }

  lemma SwapLast(x: int, y: int, z: int)
    ensures (x * y) * z == (x * z) * y
  {
  }

  /** The generator's logarithm is a unit, so the precomputed inverse exists. */
  lemma HalfGenerator(n: int, p: int, q: int)
    requires Prime(p) && Prime(q) && p != q && n == p * q
    ensures Coprime(n + 1, p) && Cong(HalfLog(n + 1, p), q * (p - 1), p)
    ensures Coprime(HalfLog(n + 1, p), p)
  {
    HalfLogPlain(n, 1, p, q);
    DistinctPrimesCoprime(p, q);
    CongOfQuotient(p - 1, -1, p, 1);
    CoprimeByInverse(p - 1, -1, p) by {
      assert (p - 1) * -1 == 1 + p * -1;
      CongOfQuotient((p - 1) * -1, 1, p, -1);
    }
    CoprimeMul(q, p - 1, p);
    CoprimeCong(HalfLog(n + 1, p), q * (p - 1), p);
  }

  /** HalfLog(c) = m * HalfLog(g) says that the half decrypts to m modulo p, ... */
  lemma HalfDecrypts(x: int, m: int, y: int, h: int, p: int)
    requires 0 < p && Cong(y * h, 1, p) && Cong(x, m * y, p)
    ensures x * h % p == m % p
  {
    CongMul(x, m * y, h, h, p);
    CongMul(m, m, y * h, 1, p);
    assert (m * y) * h == m * (y * h);
  }

  /** ... and the other way round. */
  lemma LogOfHalf(x: int, d: int, y: int, h: int, p: int)
    requires 0 < p && Cong(y * h, 1, p) && d % p == x * h % p
    ensures Cong(x, d * y, p)
  {
    CongMul(d, x * h, y, y, p);
    CongMul(x, x, y * h, 1, p);
    assert (x * h) * y == x * (y * h);
  }

  // ---- Chinese remaindering -------------------------------------------------------

  /** What the constructor's fields are good for. */
  lemma KeyFacts(k: PrivKey, leftover: int)
    requires ValidKey(k, leftover)
    ensures CrtReady(k) && k.p * k.q == k.q * k.p == k.n && Square(k.n) == k.nsquare
    ensures k.psquare == Square(k.p) && k.qsquare == Square(k.q)
    ensures k.pminusone == k.p - 1 && k.qminusone == k.q - 1 && k.g == k.n + 1
    ensures Coprime(k.p, k.q) && Coprime(k.q, k.p)
    ensures Cong(k.p * k.pinverse, 1, k.q)
    ensures Cong(HalfLog(k.g, k.p) * k.hp, 1, k.p)
    ensures Cong(HalfLog(k.g, k.q) * k.hq, 1, k.q)
  {
    DistinctPrimesCoprime(k.p, k.q);
    HalfGenerator(k.n, k.p, k.q);
    HalfGenerator(k.n, k.q, k.p);
  }

  /** The constructors make such a key from any two distinct primes, in either order. */
  lemma AnyPrimesMakeKey(a: int, b: int, leftover: int)
    requires Prime(a) && Prime(b) && a != b
    ensures 2 <= a * b && ValidKey(MakePrivKey(a * b, a, b, leftover), leftover)
  {
    MulMonotone(a, 1, b);
    assert a * b == b * a;
  }

  /** computeCRT returns the number below n with the two given residues. */
  lemma CrtResidues(k: PrivKey, leftover: int, mp: int, mq: int)
    requires ValidKey(k, leftover) && 0 <= mp < k.p && 0 <= mq < k.q
    ensures 0 <= ComputeCrt(k, mp, mq) < k.n
    ensures ComputeCrt(k, mp, mq) % k.p == mp && ComputeCrt(k, mp, mq) % k.q == mq
  {
    KeyFacts(k, leftover);
    Garner(k.p, k.q, k.pinverse, mp, mq);
  }

  lemma Garner(p: int, q: int, i: int, mp: int, mq: int)
    requires 2 <= p && 2 <= q && 0 <= mp < p && 0 <= mq < q && Cong(p * i, 1, q)
    ensures var u := (mq - mp) * i % q;
            0 <= mp + u * p < p * q && (mp + u * p) % p == mp && (mp + u * p) % q == mq
  {
    var d := mq - mp;
    var u := d * i % q;
    CongMod(d * i, q);
    assert u * p == p * u;
    DivModUnique(mp + u * p, u, mp, p);
    GarnerRange(p, q, u);
    GarnerSecond(p, q, i, d, u);
    CongAdd(mp, mp, u * p, d, q);
    DivModUnique(mq, 0, mq, q);
  }

  lemma GarnerSecond(p: int, q: int, i: int, d: int, u: int)
    requires 0 < q && Cong(u, d * i, q) && Cong(p * i, 1, q)
    ensures Cong(u * p, d, q)
  {
    CongMul(u, d * i, p, p, q);
    CongMul(p * i, 1, d, d, q);
    assert (d * i) * p == (p * i) * d;
  }

  lemma GarnerRange(p: int, q: int, u: int)
    requires 0 < p && 0 <= u < q
    ensures 0 <= u * p <= p * q - p
  {
    MulMonotone(p, 0, u);
    MulMonotone(p, u, q - 1);
    assert p * (q - 1) == p * q - p;
    assert u * p == p * u;
  }

  /** Numbers below n are told apart by their residues. */
  lemma ResiduesDecide(k: PrivKey, leftover: int, d: int, m: int)
    requires ValidKey(k, leftover) && 0 <= d < k.n
    ensures d == m % k.n <==> d % k.p == m % k.p && d % k.q == m % k.q
  {
    KeyFacts(k, leftover);
    DivModUnique(d, 0, d, k.n);
    if Cong(d, m, k.p) && Cong(d, m, k.q) {
      CongProduct(d, m, k.p, k.q);
    }
    if d == m % k.n {
      CongFactor(d, m, k.p, k.q);
      CongFactor(d, m, k.q, k.p);
    }
  }

  ghost predicate Unit(k: PrivKey, c: int) {
    0 < k.n && Coprime(c, k.n)
  }

  lemma UnitHalves(k: PrivKey, leftover: int, c: int)
    requires ValidKey(k, leftover)
    ensures Unit(k, c) <==> Coprime(c, k.p) && Coprime(c, k.q)
  {
    CoprimeProduct(c, k.p, k.q);
  }

  /** c decrypts to m exactly when m is the logarithm of c to the base g in both halves. */
  lemma CrtLaneByLogs(k: PrivKey, leftover: int, c: int, m: int)
    requires ValidKey(k, leftover)
    requires Cong(HalfLog(c, k.p), m * HalfLog(k.g, k.p), k.p)
    requires Cong(HalfLog(c, k.q), m * HalfLog(k.g, k.q), k.q)
    ensures CrtReady(k) && CrtLane(k, c) == m % k.n
  {
    KeyFacts(k, leftover);
    HalfDecrypts(HalfLog(c, k.p), m, HalfLog(k.g, k.p), k.hp, k.p);
    HalfDecrypts(HalfLog(c, k.q), m, HalfLog(k.g, k.q), k.hq, k.q);
    CrtResidues(k, leftover, m % k.p, m % k.q);
    ResiduesDecide(k, leftover, CrtLane(k, c), m);
  }

  /** Decryption is the logarithm to the base g. */
  lemma LogsOfCrtLane(k: PrivKey, leftover: int, c: int)
    requires ValidKey(k, leftover)
    ensures CrtReady(k) && 0 <= CrtLane(k, c) < k.n
    ensures Cong(HalfLog(c, k.p), CrtLane(k, c) * HalfLog(k.g, k.p), k.p)
    ensures Cong(HalfLog(c, k.q), CrtLane(k, c) * HalfLog(k.g, k.q), k.q)
  {
    KeyFacts(k, leftover);
    var dp, dq := HalfLog(c, k.p) * k.hp % k.p, HalfLog(c, k.q) * k.hq % k.q;
    CrtResidues(k, leftover, dp, dq);
    LogOfHalf(HalfLog(c, k.p), CrtLane(k, c), HalfLog(k.g, k.p), k.hp, k.p);
    LogOfHalf(HalfLog(c, k.q), CrtLane(k, c), HalfLog(k.g, k.q), k.hq, k.q);
  }

  // ---- decryption is a homomorphism on all units ------------------------------------

  /** Only the residue modulo n*n matters. */
  lemma CrtLaneCong(k: PrivKey, leftover: int, c: int, d: int)
    requires ValidKey(k, leftover) && Cong(c, d, k.nsquare)
    ensures CrtReady(k) && CrtLane(k, c) == CrtLane(k, d) && Unit(k, c) == Unit(k, d)
  {
    KeyFacts(k, leftover);
    Shuffle(k.p, k.q, k.p, k.q);
    CongFactor(c, d, k.psquare, k.qsquare);
    CongFactor(c, d, k.qsquare, k.psquare);
    CongFactor(c, d, k.n, k.n);
  }

  /** CRT decryption sends products to sums, for every pair of units. */
  lemma DecryptMul(k: PrivKey, leftover: int, c: int, d: int)
    requires ValidKey(k, leftover) && Unit(k, c) && Unit(k, d)
    ensures CrtReady(k) && Unit(k, c * d % k.nsquare)
    ensures CrtLane(k, c * d % k.nsquare) == (CrtLane(k, c) + CrtLane(k, d)) % k.n
  {
    KeyFacts(k, leftover);
    UnitHalves(k, leftover, c);
    UnitHalves(k, leftover, d);
    UnitHalves(k, leftover, c * d);
    LogsOfCrtLane(k, leftover, c);
    LogsOfCrtLane(k, leftover, d);
    var i, j := CrtLane(k, c), CrtLane(k, d);
    LogSum(c, d, i, j, k.g, k.p);
    LogSum(c, d, i, j, k.g, k.q);
    CrtLaneByLogs(k, leftover, c * d, i + j);
    CongMod(c * d, k.nsquare);
    CrtLaneCong(k, leftover, c * d % k.nsquare, c * d);
  }

  lemma LogSum(c: int, d: int, i: int, j: int, g: int, p: int)
    requires Prime(p) && Coprime(c, p) && Coprime(d, p)
    requires Cong(HalfLog(c, p), i * HalfLog(g, p), p)
    requires Cong(HalfLog(d, p), j * HalfLog(g, p), p)
    ensures Coprime(c * d, p) && Cong(HalfLog(c * d, p), (i + j) * HalfLog(g, p), p)
  {
    HalfLogMul(c, d, p);
    SumCong(HalfLog(c, p), HalfLog(d, p), i, j, HalfLog(g, p), p);
  }

  lemma SumCong(x: int, z: int, i: int, j: int, y: int, p: int)
    requires 0 < p && Cong(x, i * y, p) && Cong(z, j * y, p)
    ensures Cong(x + z, (i + j) * y, p)
  {
    CongAdd(x, i * y, z, j * y, p);
    assert (i + j) * y == i * y + j * y;
  }

  /** ... and powers to multiples. */
  lemma DecryptPow(k: PrivKey, leftover: int, c: int, e: nat)
    requires ValidKey(k, leftover) && Unit(k, c)
    ensures CrtReady(k) && 0 < k.nsquare && Unit(k, ModPow(c, e, k.nsquare))
    ensures CrtLane(k, ModPow(c, e, k.nsquare)) == CrtLane(k, c) * e % k.n
  {
    KeyFacts(k, leftover);
    UnitHalves(k, leftover, c);
    UnitHalves(k, leftover, Pow(c, e));
    LogsOfCrtLane(k, leftover, c);
    LogMultiple(c, CrtLane(k, c), e, k.g, k.p);
    LogMultiple(c, CrtLane(k, c), e, k.g, k.q);
    CrtLaneByLogs(k, leftover, Pow(c, e), CrtLane(k, c) * e);
    CrtLaneCong(k, leftover, ModPow(c, e, k.nsquare), Pow(c, e));
  }

  lemma LogMultiple(c: int, i: int, e: nat, g: int, p: int)
    requires Prime(p) && Coprime(c, p)
    requires Cong(HalfLog(c, p), i * HalfLog(g, p), p)
    ensures Coprime(Pow(c, e), p) && Cong(HalfLog(Pow(c, e), p), (i * e) * HalfLog(g, p), p)
  {
    HalfLogPow(c, e, p);
    MultipleCong(HalfLog(c, p), i, e, HalfLog(g, p), p);
  }

  lemma MultipleCong(x: int, i: int, e: int, y: int, p: int)
    requires 0 < p && Cong(x, i * y, p)
    ensures Cong(e * x, (i * e) * y, p)
  {
    CongMul(e, e, x, i * y, p);
    assert e * (i * y) == (i * e) * y;
  }

  /** n*m + 1, the encryption of m without an obfuscator, decrypts to m modulo n. */
  lemma DecryptPlain(k: PrivKey, leftover: int, m: int)
    requires ValidKey(k, leftover)
    ensures CrtReady(k) && 0 < k.nsquare && Unit(k, (k.n * m + 1) % k.nsquare)
    ensures CrtLane(k, (k.n * m + 1) % k.nsquare) == m % k.n
  {
    KeyFacts(k, leftover);
    var c := 1 + k.n * m;
    PlainLog(k.n, m, k.g, k.p, k.q);
    PlainLog(k.n, m, k.g, k.q, k.p);
    UnitHalves(k, leftover, c);
    CrtLaneByLogs(k, leftover, c, m);
    CongMod(c, k.nsquare);
    CrtLaneCong(k, leftover, c % k.nsquare, c);
  }

  lemma PlainLog(n: int, m: int, g: int, p: int, q: int)
    requires Prime(p) && Prime(q) && p != q && n == p * q && g == n + 1
    ensures Coprime(1 + n * m, p) && Cong(HalfLog(1 + n * m, p), m * HalfLog(g, p), p)
  {
    HalfLogPlain(n, m, p, q);
    HalfGenerator(n, p, q);
    CongMul(q * (p - 1), HalfLog(g, p), m, m, p);
  }

  /** The n-th power of a unit decrypts to zero. */
  lemma DecryptNthPower(k: PrivKey, leftover: int, u: int)
    requires ValidKey(k, leftover) && Unit(k, u)
    ensures CrtReady(k) && 0 < k.nsquare && Unit(k, ModPow(u, k.n, k.nsquare))
    ensures CrtLane(k, ModPow(u, k.n, k.nsquare)) == 0
  {
    DecryptPow(k, leftover, u, k.n);
    KeyFacts(k, leftover);
    LogsOfCrtLane(k, leftover, u);
    DivModUnique(CrtLane(k, u) * k.n, CrtLane(k, u), 0, k.n);
  }

  /** Correctness: CRT decryption undoes encryption with any unit r. */
  lemma DecryptEncrypt(k: PrivKey, leftover: int, m: int, r: int)
    requires ValidKey(k, leftover) && Unit(k, r)
    ensures CrtReady(k) && 0 < k.nsquare
    ensures var c := (k.n * m + 1) % k.nsquare * ModPow(r, k.n, k.nsquare) % k.nsquare;
            Unit(k, c) && CrtLane(k, c) == m % k.n
  {
    DecryptPlain(k, leftover, m);
    DecryptNthPower(k, leftover, r);
    DecryptMul(k, leftover, (k.n * m + 1) % k.nsquare, ModPow(r, k.n, k.nsquare));
    CongMod(m, k.n);
  }

  // ---- the textbook formula agrees --------------------------------------------------

  lemma LcmMultiple(a: nat, b: nat) returns (s: nat, t: nat)
    requires 0 < a && 0 < b
    ensures Lcm(a, b) == a * s == b * t
  {
    GcdDivides(a, b);
    var g := Gcd(a, b);
    hide Gcd;
    s, t := b / g, a / g;
    Cofactors(a, b, g, s, t);
    DivModUnique(a * b, a * s, 0, g);
  }

  lemma Cofactors(a: int, b: int, g: int, s: int, t: int)
    requires a == g * t && b == g * s
    ensures a * b == g * (a * s) && a * s == b * t
  {
    assert a * (g * s) == g * (a * s);
    assert (g * t) * s == (g * s) * t;
  }

  /** The least common multiple divides every common multiple. */
  lemma LcmLeast(a: nat, b: nat, m: nat)
    requires 0 < a && 0 < b && m % a == 0 && m % b == 0
    ensures 0 < Lcm(a, b) && m % Lcm(a, b) == 0
  {
    GcdDivides(a, b);
    BezoutIdentity(a, b);
    var g, x, y := Gcd(a, b), Bezout(a, b).0, Bezout(a, b).1;
    hide Gcd, Bezout;
    LcmTimesGcd(a, b, g, b / g);
    CommonMultiple(a, b, g, x, y, m, m / a, m / b, Lcm(a, b));
    DivModUnique(m, (m / b) * x + (m / a) * y, 0, Lcm(a, b));
  }

  lemma LcmTimesGcd(a: nat, b: nat, g: int, c: int)
    requires 0 < a && 0 < b && 0 < g && b == g * c
    ensures a * b / g * g == a * b && 0 < a * b / g
  {
    QuotientBelow(g, 0, c);
    MulMonotone(a, 1, c);
    assert a * b == g * (a * c) && g * (a * c) == (a * c) * g by {
      assert a * (g * c) == g * (a * c);
    }
    DivModUnique(a * b, a * c, 0, g);
  }

  lemma CommonMultiple(a: int, b: int, g: int, x: int, y: int, m: int, u: int, v: int, l: int)
    requires 0 < g && a * x + b * y == g && m == a * u == b * v && l * g == a * b
    ensures m == l * (v * x + u * y)
  {
    calc {
      g * m;
      (a * x + b * y) * m;
      (a * x) * m + (b * y) * m;
      (a * x) * (b * v) + (b * y) * (a * u);
      { Shuffle(a, x, b, v); Shuffle(b, y, a, u); assert x * v == v * x && y * u == u * y && b * a == a * b; }
      (a * b) * (v * x) + (a * b) * (u * y);
      (a * b) * (v * x + u * y);
      (l * g) * (v * x + u * y);
      g * (l * (v * x + u * y));
    }
    FactorCancel(g, m, l * (v * x + u * y));
  }

  /** The fields that are plain arithmetic on the factors; the smaller factor comes first. */
  lemma KeyNumbers(k: PrivKey, leftover: int)
    requires ValidKey(k, leftover)
    ensures k.p < k.q && k.n == k.p * k.q && k.nsquare == k.n * k.n && k.g == k.n + 1
    ensures k.pminusone == k.p - 1 && k.qminusone == k.q - 1
    ensures k.psquare == k.p * k.p && k.qsquare == k.q * k.q
    ensures 2 <= k.p && k.lambda % (k.p - 1) == 0 && k.lambda % (k.q - 1) == 0
    ensures 0 < k.lambda && forall m: nat :: m % (k.p - 1) == 0 && m % (k.q - 1) == 0 ==> m % k.lambda == 0
  {
    hide Prime, Lcm, Hfun, FullLog, InverseMul;
    assert 2 <= k.p && 2 <= k.q && k.lambda == Lcm(k.p - 1, k.q - 1) by {
      KeyFacts(k, leftover);
    }
    LcmIsLeast(k.p - 1, k.q - 1);
  }

  lemma LcmIsLeast(a: nat, b: nat)
    requires 0 < a && 0 < b
    ensures 0 < Lcm(a, b) && Lcm(a, b) % a == 0 && Lcm(a, b) % b == 0
    ensures forall m: nat :: m % a == 0 && m % b == 0 ==> m % Lcm(a, b) == 0
  {
    var s, t := LcmMultiple(a, b);
    hide Lcm;
    DivModUnique(Lcm(a, b), s, 0, a);
    DivModUnique(Lcm(a, b), t, 0, b);
    LcmLeast(a, b, Lcm(a, b));
    forall m: nat | m % a == 0 && m % b == 0 ensures m % Lcm(a, b) == 0 {
      LcmLeast(a, b, m);
    }
  }

  /** c^lambda is 1 + n*FullLog(c) modulo n*n: again the division is exact. */
  lemma FullLogExact(k: PrivKey, leftover: int, c: int)
    requires ValidKey(k, leftover) && Unit(k, c)
    ensures Cong(Pow(c, k.lambda), 1 + k.n * FullLog(c, k.lambda, k.n), Square(k.n))
    ensures 0 <= FullLog(c, k.lambda, k.n) < k.n
  {
    KeyFacts(k, leftover);
    UnitHalves(k, leftover, c);
    var s, t := LcmMultiple(k.p - 1, k.q - 1);
    FermatMultiple(c, k.p, s);
    FermatMultiple(c, k.q, t);
    CongProduct(Pow(c, k.lambda), 1, k.p, k.q);
    var r := ModPow(c, k.lambda, Square(k.n));
    CongFactor(r, Pow(c, k.lambda), k.n, k.n);
    ExactLog(r, k.n);
  }

  lemma FermatMultiple(c: int, p: int, s: nat)
    requires Prime(p) && Coprime(c, p) && 0 <= (p - 1) * s
    ensures Cong(Pow(c, (p - 1) * s), 1, p)
  {
    Fermat(c, p);
    CongPow(Pow(c, p - 1), 1, s, p);
    PowPow(c, p - 1, s);
    PowOne(s);
  }

  /** The logarithm modulo n and the one modulo p are two views of the same power. */
  lemma FullAndHalf(k: PrivKey, leftover: int, c: int, p: int, q: int, s: nat)
    requires ValidKey(k, leftover) && Unit(k, c)
    requires Prime(p) && Coprime(c, p) && p * q == k.n && 0 < q && k.lambda == (p - 1) * s
    ensures Cong(q * FullLog(c, k.lambda, k.n), HalfLog(c, p) * s, p)
  {
    FullLogExact(k, leftover, c);
    HalfLogExact(c, p);
    PowPow(c, p - 1, s);
    SplitLog(Pow(c, p - 1), FullLog(c, k.lambda, k.n), HalfLog(c, p), p, q, s);
  }

  lemma SplitLog(y: int, t: int, l: int, p: int, q: int, s: nat)
    requires 0 < p && 0 < q && 0 < p * q
    requires Cong(Pow(y, s), 1 + (p * q) * t, Square(p * q)) && Cong(y, 1 + p * l, Square(p))
    ensures Cong(q * t, l * s, p)
  {
    Shuffle(p, q, p, q);
    CongFactor(Pow(y, s), 1 + (p * q) * t, Square(p), Square(q));
    CongPow(y, 1 + p * l, s, Square(p));
    PowOnePlus(p, l, s);
    assert (p * q) * t == p * (q * t);
    DropOne(q * t, l * s, p);
  }

  lemma DropOne(a: int, b: int, p: int)
    requires 0 < p && Cong(1 + p * a, 1 + p * b, Square(p))
    ensures Cong(a, b, p)
  {
    CongAdd(1 + p * a, 1 + p * b, 1, 1, Square(p));
    CongScale(a, b, p, p);
  }

  /** L of g^lambda is lambda, so m_x exists exactly when lambda is a unit modulo n. */
  lemma GeneratorFullLog(k: PrivKey, leftover: int)
    requires ValidKey(k, leftover)
    ensures Unit(k, k.n + 1) && Cong(FullLog(k.n + 1, k.lambda, k.n), k.lambda, k.n)
  {
    CongOfQuotient((k.n + 1) * 1, 1, k.n, 1);
    CoprimeByInverse(k.n + 1, 1, k.n);
    FullLogExact(k, leftover, k.n + 1);
    var t := FullLog(k.n + 1, k.lambda, k.n);
    PowOnePlus(k.n, 1, k.lambda);
    assert 1 + k.n * 1 == k.n + 1 && 1 * k.lambda == k.lambda;
    DropOne(t, k.lambda, k.n);
  }

  /** From the two views to the logarithm of c to the base g modulo p. */
  lemma RawHalf(tc: int, tg: int, lc: int, lg: int, q: int, s: int, x: int, p: int)
    requires 0 < p && Coprime(s, p) && Cong(tg * x, 1, p)
    requires Cong(q * tc, lc * s, p) && Cong(q * tg, lg * s, p)
    ensures Cong(lc, (tc * x) * lg, p)
  {
    CongMul(q * tg, lg * s, x * tc, x * tc, p);
    CongMul(tg * x, 1, q * tc, q * tc, p);
    assert (q * tg) * (x * tc) == (tg * x) * (q * tc) by {
      Shuffle(q, tg, tc, x);
    }
    assert (lg * s) * (x * tc) == s * ((tc * x) * lg) by {
      Shuffle(s, lg, 1, x * tc);
    }
    assert lc * s == s * lc;
    CongCancel(s, lc, (tc * x) * lg, p);
  }

  /** With lambda a unit modulo n, both routes agree on every unit ciphertext. */
  lemma RawEqualsCrt(k: PrivKey, leftover: int, c: int)
    requires ValidKey(k, leftover) && Unit(k, c) && Coprime(k.lambda, k.n)
    ensures CrtReady(k) && 0 < k.nsquare && RawLane(k, c) == CrtLane(k, c)
  {
    KeyFacts(k, leftover);
    UnitHalves(k, leftover, c);
    GeneratorFullLog(k, leftover);
    UnitHalves(k, leftover, k.n + 1);
    UnitHalves(k, leftover, k.lambda);
    var tc, tg := FullLog(c, k.lambda, k.n), FullLog(k.n + 1, k.lambda, k.n);
    CoprimeCong(tg, k.lambda, k.n);
    CongFactor(tg * k.x, 1, k.p, k.q);
    CongFactor(tg * k.x, 1, k.q, k.p);
    var s, t := LcmMultiple(k.p - 1, k.q - 1);
    RawHalfOf(k, leftover, c, k.p, k.q, s);
    RawHalfOf(k, leftover, c, k.q, k.p, t);
    CrtLaneByLogs(k, leftover, c, tc * k.x);
  }

  lemma RawHalfOf(k: PrivKey, leftover: int, c: int, p: int, q: int, s: nat)
    requires ValidKey(k, leftover) && Unit(k, c) && Unit(k, k.n + 1)
    requires Prime(p) && Coprime(c, p) && Coprime(k.n + 1, p) && p * q == k.n && 0 < q
    requires k.lambda == (p - 1) * s && Coprime(k.lambda, p)
    requires Cong(FullLog(k.n + 1, k.lambda, k.n) * k.x, 1, p)
    ensures Cong(HalfLog(c, p), (FullLog(c, k.lambda, k.n) * k.x) * HalfLog(k.n + 1, p), p)
  {
    CoprimeMul(p - 1, s, p);
    FullAndHalf(k, leftover, c, p, q, s);
    FullAndHalf(k, leftover, k.n + 1, p, q, s);
    RawHalf(FullLog(c, k.lambda, k.n), FullLog(k.n + 1, k.lambda, k.n),
            HalfLog(c, p), HalfLog(k.n + 1, p), q, s, k.x, p);
  }

  /**
   enableCRT never changes a result exactly when lambda is a unit modulo n.
   Otherwise m_x is whatever the failed inverse left, and no value of it helps.
   */
  lemma CrtSwitchInvisible(k: PrivKey, leftover: int)
    requires ValidKey(k, leftover)
    ensures CrtReady(k) && 0 < k.nsquare
    ensures (forall c :: Unit(k, c) ==> RawLane(k, c) == CrtLane(k, c)) <==> Coprime(k.lambda, k.n)
  {
    KeyFacts(k, leftover);
    if Coprime(k.lambda, k.n) {
      forall c | Unit(k, c) ensures RawLane(k, c) == CrtLane(k, c) {
        RawEqualsCrt(k, leftover, c);
      }
    } else {
      RawFailsOnGenerator(k, leftover);
    }
  }

  lemma RawFailsOnGenerator(k: PrivKey, leftover: int)
    requires ValidKey(k, leftover) && !Coprime(k.lambda, k.n)
    ensures CrtReady(k) && 0 < k.nsquare
    ensures Unit(k, k.n + 1) && RawLane(k, k.n + 1) != CrtLane(k, k.n + 1)
  {
    KeyFacts(k, leftover);
    GeneratorFullLog(k, leftover);
    var tg := FullLog(k.n + 1, k.lambda, k.n);
    CoprimeCong(tg, k.lambda, k.n);
    DecryptPlain(k, leftover, 1);
    CongMod(k.n + 1, k.nsquare);
    CrtLaneCong(k, leftover, (k.n + 1) % k.nsquare, k.n + 1);
    DivModUnique(1, 0, 1, k.n);
    if RawLane(k, k.n + 1) == CrtLane(k, k.n + 1) {
      CoprimeByInverse(tg, k.x, k.n);
    }
  }

  /** Such keys exist: n = 21 has lambda = 6, and the ciphertext 22 decrypts differently. */
  lemma SwitchMattersForTwentyOne(leftover: int)
    ensures var k := MakePrivKey(21, 3, 7, leftover);
      ValidKey(k, leftover) && !Coprime(k.lambda, k.n) && CrtReady(k) && 0 < k.nsquare && Unit(k, 22)
      && RawLane(k, 22) != CrtLane(k, 22)
  {
    var k := MakePrivKey(21, 3, 7, leftover);
    SmallPrimes();
    AnyPrimesMakeKey(3, 7, leftover);
    assert Gcd(2, 6) == Gcd(6, 2) == Gcd(2, 0) == 2;
    assert k.lambda == 6;
    assert Gcd(21, 6) == Gcd(6, 3) == Gcd(3, 0) == 3;
    RawFailsOnGenerator(k, leftover);
  }

  lemma SmallPrimes()
    ensures Prime(3) && Prime(5) && Prime(7)
  {
    assert 7 % 2 == 1 && 7 % 3 == 1 && 7 % 4 == 3 && 7 % 5 == 2 && 7 % 6 == 1;
    assert 5 % 2 == 1 && 5 % 3 == 2 && 5 % 4 == 1;
  }

  // ---- obfuscators ------------------------------------------------------------------

  /** Multiplying by the n-th power of a unit leaves every unit's decryption unchanged. */
  lemma ObfuscatorInvisible(k: PrivKey, leftover: int, c: int, u: int)
    requires ValidKey(k, leftover) && Unit(k, c) && Unit(k, u)
    ensures CrtReady(k) && 0 < k.nsquare
    ensures Unit(k, c * ModPow(u, k.n, k.nsquare) % k.nsquare)
    ensures CrtLane(k, c * ModPow(u, k.n, k.nsquare) % k.nsquare) == CrtLane(k, c)
  {
    DecryptNthPower(k, leftover, u);
    DecryptMul(k, leftover, c, ModPow(u, k.n, k.nsquare));
    LogsOfCrtLane(k, leftover, c);
    DivModUnique(CrtLane(k, c), 0, CrtLane(k, c), k.n);
  }

  /** A power of h^n is the n-th power of a power of h. */
  lemma DjnObfuscatorIsNthPower(k: PrivKey, leftover: int, h: int, r: nat)
    requires ValidKey(k, leftover) && Unit(k, h)
    ensures 0 < k.nsquare && Unit(k, ModPow(h, r, k.nsquare))
    ensures ModPow(ModPow(h, k.n, k.nsquare), r, k.nsquare) == ModPow(ModPow(h, r, k.nsquare), k.n, k.nsquare)
  {
    KeyFacts(k, leftover);
    DecryptPow(k, leftover, h, r);
    CongPow(ModPow(h, k.n, k.nsquare), Pow(h, k.n), r, k.nsquare);
    CongPow(ModPow(h, r, k.nsquare), Pow(h, r), k.n, k.nsquare);
    PowPow(h, k.n, r);
    PowPow(h, r, k.n);
    assert k.n * r == r * k.n;
  }

  /**
   getNormalObfuscator draws r from 1 to n-1 without asking whether r is a unit.
   Encryption with any r whatever decrypts to m exactly when each prime that
   divides r also divides m.
   */
  lemma DecryptAnyR(k: PrivKey, leftover: int, m: int, r: int)
    requires ValidKey(k, leftover)
    ensures CrtReady(k) && 0 < k.nsquare
    ensures var c := (k.n * m + 1) % k.nsquare * ModPow(r, k.n, k.nsquare) % k.nsquare;
            (CrtLane(k, c) == m % k.n) <==>
            ((r % k.p == 0 ==> m % k.p == 0) && (r % k.q == 0 ==> m % k.q == 0))
  {
    KeyFacts(k, leftover);
    var c := (k.n * m + 1) % k.nsquare * ModPow(r, k.n, k.nsquare) % k.nsquare;
    var d := (1 + k.n * m) * Pow(r, k.n);
    CongMod(1 + k.n * m, k.nsquare);
    CongMul((k.n * m + 1) % k.nsquare, 1 + k.n * m, ModPow(r, k.n, k.nsquare), Pow(r, k.n), k.nsquare);
    CongMod((k.n * m + 1) % k.nsquare * ModPow(r, k.n, k.nsquare), k.nsquare);
    CrtLaneCong(k, leftover, c, d);
    AnyRHalf(k.n, m, r, k.g, k.hp, k.p, k.q);
    AnyRHalf(k.n, m, r, k.g, k.hq, k.q, k.p);
    var dp, dq := HalfLog(d, k.p) * k.hp % k.p, HalfLog(d, k.q) * k.hq % k.q;
    CrtResidues(k, leftover, dp, dq);
    ResiduesDecide(k, leftover, CrtLane(k, d), m);
  }

  lemma AnyRHalf(n: int, m: int, r: int, g: int, h: int, p: int, q: int)
    requires Prime(p) && Prime(q) && p != q && n == p * q && 2 <= n && g == n + 1
    requires Cong(HalfLog(g, p) * h, 1, p)
    ensures HalfLog((1 + n * m) * Pow(r, n), p) * h % p == if r % p == 0 then 0 else m % p
  {
    if r % p == 0 {
      NonUnitLog(1 + n * m, r, n, p);
      DivModUnique(0, 0, 0, p);
    } else {
      PrimeUnit(r, p);
      PlainLog(n, m, g, p, q);
      HalfLogPow(r, n, p);
      NthPowerLog(n, HalfLog(r, p), HalfLog(Pow(r, n), p), HalfLog(g, p), p, q);
      LogSum(1 + n * m, Pow(r, n), m, 0, g, p);
      HalfDecrypts(HalfLog((1 + n * m) * Pow(r, n), p), m, HalfLog(g, p), h, p);
    }
  }

  lemma NthPowerLog(n: int, l: int, x: int, y: int, p: int, q: int)
    requires 0 < p && n == p * q && Cong(x, n * l, p)
    ensures Cong(x, 0 * y, p)
  {
    assert (p * q) * l == p * (q * l);
    CongOfQuotient(n * l, 0, p, q * l);
  }

  /** A value that both p and the exponent drive to zero modulo p*p has logarithm zero. */
  lemma NonUnitLog(a: int, r: int, n: int, p: int)
    requires 2 <= p && 2 <= n && r % p == 0
    ensures HalfLog(a * Pow(r, n), p) == 0
  {
    DivModUnique(0, 0, 0, p);
    var j := CongQuotient(r, 0, p);
    var rest := Pow(r, n - 2);
    assert Pow(r, n) == r * (r * rest);
    ZeroModSquare(a, p, j, rest);
    DivModUnique(0, 0, 0, Square(p));
    assert Pow(0, p - 1) == 0;
    DivModUnique(1, 0, 1, p);
  }

  lemma ZeroModSquare(a: int, p: int, j: int, rest: int)
    requires 0 < p
    ensures (a * ((p * j) * ((p * j) * rest))) % Square(p) == 0
  {
    calc {
      a * ((p * j) * ((p * j) * rest));
      { assert (p * j) * ((p * j) * rest) == ((p * j) * (p * j)) * rest; }
      a * (((p * j) * (p * j)) * rest);
      { Shuffle(p, j, p, j); }
      a * (((p * p) * (j * j)) * rest);
      { assert ((p * p) * (j * j)) * rest == (p * p) * ((j * j) * rest); }
      a * ((p * p) * ((j * j) * rest));
      (p * p) * (a * ((j * j) * rest));
    }
    DivModUnique(a * ((p * j) * ((p * j) * rest)), a * ((j * j) * rest), 0, Square(p));
  }
}
