/**
 Integer arithmetic the scheme rests on: residues, powers, greatest common
 divisors and inverses, primes, and Fermat's little theorem.
 */
module NumberTheory {

  // ---- residues -----------------------------------------------------------

  /** The only multiple of m strictly between -m and m is zero. */
  lemma SmallMultiple(m: int, d: int)
    requires 0 < m
    ensures d == 0 || m * d >= m || m * d <= -m
  {
    if d >= 1 {
      assert m * d == m * (d - 1) + m;
    } else if d <= -1 {
      assert m * d == m * (d + 1) - m;
    }
  }

  lemma {:induction false} MulMonotone(m: int, x: int, y: int)
    requires 0 <= m && x <= y
    ensures m * x <= m * y
    decreases y - x
  {
    if x < y {
      MulMonotone(m, x, y - 1);
      assert m * y == m * (y - 1) + m;
    }
  }

  lemma QuotientBelow(m: int, x: int, y: int)
    requires 0 < m && m * x < m * y
    ensures x < y
  {
    if y <= x {
      MulMonotone(m, y, x);
    }
  }

  /** Quotient and remainder are determined by the division equation. */
  lemma DivModUnique(a: int, q: int, r: int, m: int)
    requires 0 < m && 0 <= r < m && a == m * q + r
    ensures a / m == q && a % m == r
  {
    SmallMultiple(m, q - a / m);
    assert m * (q - a / m) == a % m - r;
  }

  /** Congruence modulo m. */
  predicate Cong(a: int, b: int, m: int)
    requires 0 < m
  {
    a % m == b % m
  }

  /** The multiple of m by which two congruent numbers differ. */
  function CongQuotient(a: int, b: int, m: int): (k: int)
    requires 0 < m && Cong(a, b, m)
    ensures a == b + m * k
  {
    assert a == m * (a / m) + a % m && b == m * (b / m) + b % m;
    a / m - b / m
  }

  lemma CongOfQuotient(a: int, b: int, m: int, k: int)
    requires 0 < m && a == b + m * k
    ensures Cong(a, b, m)
  {
    assert b == m * (b / m) + b % m;
    assert a == m * (b / m + k) + b % m;
    DivModUnique(a, b / m + k, b % m, m);
  }

  lemma CongMod(a: int, m: int)
    requires 0 < m
    ensures Cong(a % m, a, m) && 0 <= a % m < m
  {
    DivModUnique(a % m, 0, a % m, m);
  }

  lemma CongAdd(a: int, b: int, c: int, d: int, m: int)
    requires 0 < m && Cong(a, b, m) && Cong(c, d, m)
    ensures Cong(a + c, b + d, m) && Cong(a - c, b - d, m)
  {
    var k, l := CongQuotient(a, b, m), CongQuotient(c, d, m);
    assert m * (k + l) == m * k + m * l && m * (k - l) == m * k - m * l;
    CongOfQuotient(a + c, b + d, m, k + l);
    CongOfQuotient(a - c, b - d, m, k - l);
  }

  lemma CongMul(a: int, b: int, c: int, d: int, m: int)
    requires 0 < m && Cong(a, b, m) && Cong(c, d, m)
    ensures Cong(a * c, b * d, m)
  {
    var k, l := CongQuotient(a, b, m), CongQuotient(c, d, m);
    calc {
      a * c;
      (b + m * k) * (d + m * l);
      b * d + b * (m * l) + (m * k) * d + (m * k) * (m * l);
      { assert b * (m * l) == m * (b * l); assert (m * k) * d == m * (k * d);
        assert (m * k) * (m * l) == m * (k * (m * l)); }
      b * d + m * (b * l) + m * (k * d) + m * (k * (m * l));
      { Distribute3(m, b * l, k * d, k * (m * l)); }
      b * d + m * (b * l + k * d + k * (m * l));
    }
    CongOfQuotient(a * c, b * d, m, b * l + k * d + k * (m * l));
  }

  lemma Distribute3(m: int, x: int, y: int, z: int)
    ensures m * x + m * y + m * z == m * (x + y + z)
  {
  }

  /** A congruence modulo a product holds modulo each factor. */
  lemma CongFactor(a: int, b: int, m: int, f: int)
    requires 0 < m && 0 < f && Cong(a, b, m * f)
    ensures Cong(a, b, m)
  {
    var k := CongQuotient(a, b, m * f);
    assert (m * f) * k == m * (f * k);
    CongOfQuotient(a, b, m, f * k);
  }

  /** Scaling the modulus scales the congruence. */
  lemma CongScale(a: int, b: int, m: int, f: int)
    requires 0 < m && 0 < f && 0 < f * m
    ensures Cong(a, b, m) <==> Cong(f * a, f * b, f * m)
  {
    if Cong(a, b, m) {
      var k := CongQuotient(a, b, m);
      assert f * (m * k) == (f * m) * k;
      CongOfQuotient(f * a, f * b, f * m, k);
    }
    if Cong(f * a, f * b, f * m) {
      var k := CongQuotient(f * a, f * b, f * m);
      assert (f * m) * k == f * (m * k);
      FactorCancel(f, a - b, m * k);
      CongOfQuotient(a, b, m, k);
    }
  }

  lemma FactorCancel(f: int, x: int, y: int)
    requires 0 < f && f * x == f * y
    ensures x == y
  {
    SmallMultiple(f, x - y);
  }

  // ---- powers -------------------------------------------------------------

  function Pow(b: int, e: nat): int {
    if e == 0 then 1 else b * Pow(b, e - 1)
  }

  /** The modular exponentiation every engine of the library computes. */
  function ModPow(b: int, e: nat, m: int): (r: int)
    requires 0 < m
    ensures 0 <= r < m && Cong(r, Pow(b, e), m)
  {
    CongMod(Pow(b, e), m);
    Pow(b, e) % m
  }

  lemma {:induction false} PowAdd(b: int, i: nat, j: nat)
    ensures Pow(b, i + j) == Pow(b, i) * Pow(b, j)
  {
    if i > 0 {
      PowAdd(b, i - 1, j);
      assert b * (Pow(b, i - 1) * Pow(b, j)) == (b * Pow(b, i - 1)) * Pow(b, j);
    }
  }

  lemma {:induction false} PowOne(e: nat)
    ensures Pow(1, e) == 1
  {
    if e > 0 { PowOne(e - 1); }
  }

  lemma {:induction false} PowPow(b: int, i: nat, j: nat)
    ensures 0 <= i * j && Pow(Pow(b, i), j) == Pow(b, i * j)
  {
    if j == 0 {
      assert i * j == 0;
    } else {
      PowPow(b, i, j - 1);
      assert i * j == i + i * (j - 1);
      PowAdd(b, i, i * (j - 1));
    }
  }

  lemma {:induction false} PowMul(a: int, b: int, e: nat)
    ensures Pow(a * b, e) == Pow(a, e) * Pow(b, e)
  {
    if e > 0 {
      PowMul(a, b, e - 1);
      Shuffle(a, b, Pow(a, e - 1), Pow(b, e - 1));
    }
  }

  lemma Shuffle(a: int, b: int, x: int, y: int)
    ensures (a * b) * (x * y) == (a * x) * (b * y)
  {
    calc {
      (a * b) * (x * y);
      a * (b * (x * y));
      a * (x * (b * y));
      (a * x) * (b * y);
    }
  }

  lemma {:induction false} CongPow(a: int, b: int, e: nat, m: int)
    requires 0 < m && Cong(a, b, m)
    ensures Cong(Pow(a, e), Pow(b, e), m)
  {
    if e > 0 {
      CongPow(a, b, e - 1, m);
      CongMul(a, b, Pow(a, e - 1), Pow(b, e - 1), m);
    }
  }

  /** The binomial expansion modulo a square has only two terms. */
  lemma {:induction false} PowOnePlus(n: int, k: int, e: nat)
    requires 0 < n && 0 < n * n
    ensures Cong(Pow(1 + n * k, e), 1 + n * (k * e), n * n)
  {
    if e == 0 {
      assert n * (k * e) == 0;
    } else {
      var x := n * k;
      var y := n * (k * (e - 1));
      PowOnePlus(n, k, e - 1);
      CongMul(1 + x, 1 + x, Pow(1 + x, e - 1), 1 + y, n * n);
      assert y + x == n * (k * e) by {
        assert k * (e - 1) + k == k * e;
        assert n * (k * (e - 1)) + n * k == n * (k * (e - 1) + k);
      }
      assert x * y == (n * n) * (k * (k * (e - 1))) by {
        Shuffle(n, k, n, k * (e - 1));
      }
      assert (1 + x) * (1 + y) == 1 + (y + x) + x * y;
      CongOfQuotient((1 + x) * (1 + y), 1 + n * (k * e), n * n, k * (k * (e - 1)));
    }
  }

  lemma PowStepExpand(n: int, b: int, k: int, c: int, x: int)
    ensures (b + n * k) * (b * x + n * (k * (c * x)))
         == b * (b * x) + n * (k * ((c + 1) * (b * x))) + (n * n) * (k * (k * (c * x)))
  {
    var y, z := b * x, k * (c * x);
    assert (n * k) * (n * z) == (n * n) * (k * z) by { Shuffle(n, k, n, z); }
    assert b * (n * z) + (n * k) * y == n * (b * z + k * y);
    assert b * z == k * (c * y);
    assert k * (c * y) + k * y == k * (c * y + y) == k * ((c + 1) * y);
    assert (b + n * k) * (y + n * z) == b * y + (b * (n * z) + (n * k) * y) + (n * k) * (n * z);
  }

  /** The first two terms of the binomial expansion of (b + n*k)^(e+1). */
  ghost function FirstTwoTerms(n: int, b: int, k: int, e: nat): int {
    Pow(b, e + 1) + n * (k * ((e + 1) * Pow(b, e)))
  }

  lemma TwoTermsStep(n: int, b: int, k: int, a: int, e: nat, m: int)
    requires 0 < m == n * n && a == b + n * k
    ensures Cong(a * FirstTwoTerms(n, b, k, e), FirstTwoTerms(n, b, k, e + 1), m)
  {
    var x := Pow(b, e);
    PowStepExpand(n, b, k, e + 1, x);
    CongOfQuotient(a * FirstTwoTerms(n, b, k, e), FirstTwoTerms(n, b, k, e + 1), m, k * (k * ((e + 1) * x)));
  }

  lemma PowFirst(b: int)
    ensures Pow(b, 0) == 1 && Pow(b, 1) == b
  {
    assert Pow(b, 1) == b * Pow(b, 0);
  }

  lemma TwoTermsFirst(n: int, b: int, k: int)
    ensures FirstTwoTerms(n, b, k, 0) == b + n * k
  {
    PowFirst(b);
    hide Pow;
  }

  /** Modulo the square of n the other terms vanish. */
  lemma {:induction false} PowBinomial(n: int, b: int, k: int, a: int, e: nat, m: int)
    requires 0 < m == n * n && a == b + n * k
    ensures Cong(Pow(a, e + 1), FirstTwoTerms(n, b, k, e), m)
  {
    hide FirstTwoTerms;
    if e == 0 {
      TwoTermsFirst(n, b, k);
      PowFirst(a);
    } else {
      PowBinomial(n, b, k, a, e - 1, m);
      CongMul(a, a, Pow(a, e), FirstTwoTerms(n, b, k, e - 1), m);
      TwoTermsStep(n, b, k, a, e - 1, m);
    }
  }

  lemma TwoTermsLast(n: int, b: int, k: int, m: int)
    requires 0 < n && 0 < m == n * n
    ensures Cong(FirstTwoTerms(n, b, k, n - 1), Pow(b, n), m)
  {
    var x := Pow(b, n - 1);
    assert n * (k * (n * x)) == (n * n) * (k * x) by { Shuffle(n, n, k, x); }
    CongOfQuotient(FirstTwoTerms(n, b, k, n - 1), Pow(b, n), m, k * x);
  }

  /** Numbers congruent modulo n have congruent n-th powers modulo the square of n. */
  lemma CongPowSquare(a: int, b: int, n: int)
    requires 0 < n && 0 < n * n && Cong(a, b, n)
    ensures Cong(Pow(a, n), Pow(b, n), n * n)
  {
    hide FirstTwoTerms, Pow;
    var k := CongQuotient(a, b, n);
    PowBinomial(n, b, k, a, n - 1, n * n);
    TwoTermsLast(n, b, k, n * n);
  }

  // ---- greatest common divisors and inverses ---------------------------------

  function Gcd(a: nat, b: nat): nat
    decreases b
  {
    if b == 0 then a else Gcd(b, a % b)
  }

  predicate Coprime(a: int, m: int)
    requires 0 < m
  {
    Gcd(m, a % m) == 1
  }

  /** Bezout coefficients, by the extended Euclidean algorithm. */
  function Bezout(a: nat, b: nat): (int, int)
    decreases b
  {
    if b == 0 then (1, 0)
    else
      var (x, y) := Bezout(b, a % b);
      (y, x - (a / b) * y)
  }

  lemma BezoutStep(a: int, b: int, q: int, r: int, x: int, y: int)
    requires a == b * q + r
    ensures a * y + b * (x - q * y) == b * x + r * y
  {
    assert (b * q) * y == b * (q * y);
  }

  lemma {:induction false} BezoutIdentity(a: nat, b: nat)
    ensures a * Bezout(a, b).0 + b * Bezout(a, b).1 == Gcd(a, b)
    decreases b
  {
    if b > 0 {
      var (x, y) := Bezout(b, a % b);
      assert b * x + (a % b) * y == Gcd(a, b) by {
        BezoutIdentity(b, a % b);
      }
      assert Bezout(a, b) == (y, x - (a / b) * y);
      hide Bezout, Gcd;
      BezoutStep(a, b, a / b, a % b, x, y);
    }
  }

  lemma {:induction false} GcdDivides(a: nat, b: nat)
    requires 0 < a || 0 < b
    ensures 0 < Gcd(a, b) && a % Gcd(a, b) == 0 && b % Gcd(a, b) == 0
    decreases b
  {
    if b == 0 {
      DivModUnique(a, 1, 0, a);
      DivModUnique(0, 0, 0, a);
    } else {
      GcdDivides(b, a % b);
      var g := Gcd(b, a % b);
      assert a == b * (a / b) + a % b;
      DivModUnique(0, 0, 0, g);
      CongMul(b, 0, a / b, a / b, g);
      CongAdd(b * (a / b), 0, a % b, 0, g);
    }
  }

  /** Every common divisor divides the greatest one. */
  lemma GcdGreatest(a: nat, b: nat, d: int)
    requires 0 < d && a % d == 0 && b % d == 0
    ensures Gcd(a, b) % d == 0
  {
    var (x, y) := Bezout(a, b);
    BezoutIdentity(a, b);
    DivModUnique(0, 0, 0, d);
    CongMul(a, 0, x, x, d);
    CongMul(b, 0, y, y, d);
    CongAdd(a * x, 0, b * y, 0, d);
  }

  /** An inverse of a modulo m, when there is one. */
  function Inverse(a: int, m: int): (x: int)
    requires 0 < m
    ensures 0 <= x < m
  {
    Bezout(m, a % m).1 % m
  }

  lemma InverseIsInverse(a: int, m: int)
    requires 0 < m && Coprime(a, m)
    ensures Cong(a * Inverse(a, m), 1, m)
  {
    BezoutIdentity(m, a % m);
    InverseFromBezout(a, m, Bezout(m, a % m).0, Bezout(m, a % m).1);
  }

  lemma InverseFromBezout(a: int, m: int, x: int, y: int)
    requires 0 < m && m * x + (a % m) * y == 1
    ensures Cong(a * (y % m), 1, m)
  {
    assert m * -x == -(m * x);
    CongOfQuotient((a % m) * y, 1, m, -x);
    CongMod(a, m);
    CongMod(y, m);
    CongMul(a, a % m, y % m, y, m);
  }

  lemma CoprimeByInverse(a: int, x: int, m: int)
    requires 0 < m && Cong(a * x, 1, m)
    ensures Coprime(a, m)
  {
    CongMod(a, m);
    CongMul(a % m, a, x, x, m);
    var k := CongQuotient((a % m) * x, 1, m);
    GcdDivides(m, a % m);
    var g := Gcd(m, a % m);
    DivModUnique(0, 0, 0, g);
    CongMul(a % m, 0, x, x, g);
    CongMul(m, 0, k, k, g);
    CongAdd((a % m) * x, 0, m * k, 0, g);
    assert 1 == (a % m) * x - m * k;
    if g > 1 {
      DivModUnique(1, 0, 1, g);
      assert false;
    }
  }

  lemma CoprimeCong(a: int, b: int, m: int)
    requires 0 < m && Cong(a, b, m)
    ensures Coprime(a, m) == Coprime(b, m)
  {
  }

  lemma CoprimeMul(a: int, b: int, m: int)
    requires 0 < m
    ensures Coprime(a * b, m) <==> Coprime(a, m) && Coprime(b, m)
  {
    if Coprime(a, m) && Coprime(b, m) {
      InverseIsInverse(a, m);
      InverseIsInverse(b, m);
      InverseOfProduct(a, b, Inverse(a, m), Inverse(b, m), m);
    }
    if Coprime(a * b, m) {
      InverseIsInverse(a * b, m);
      InverseOfFactors(a, b, Inverse(a * b, m), m);
    }
  }

  lemma InverseOfProduct(a: int, b: int, x: int, y: int, m: int)
    requires 0 < m && Cong(a * x, 1, m) && Cong(b * y, 1, m)
    ensures Coprime(a * b, m)
  {
    CongMul(a * x, 1, b * y, 1, m);
    Shuffle(a, b, x, y);
    CoprimeByInverse(a * b, x * y, m);
  }

  lemma InverseOfFactors(a: int, b: int, x: int, m: int)
    requires 0 < m && Cong((a * b) * x, 1, m)
    ensures Coprime(a, m) && Coprime(b, m)
  {
    assert (a * b) * x == a * (b * x);
    CoprimeByInverse(a, b * x, m);
    assert (a * b) * x == b * (a * x);
    CoprimeByInverse(b, a * x, m);
  }

  lemma {:induction false} CoprimePow(a: int, e: nat, m: int)
    requires 0 < m && Coprime(a, m)
    ensures Coprime(Pow(a, e), m)
  {
    if e == 0 {
      CoprimeByInverse(1, 1, m);
    } else {
      CoprimePow(a, e - 1, m);
      CoprimeMul(a, Pow(a, e - 1), m);
    }
  }

  /** A unit modulo a product is a unit modulo each factor, and the other way round. */
  lemma CoprimeProduct(a: int, m: int, f: int)
    requires 0 < m && 0 < f && 0 < m * f
    ensures Coprime(a, m * f) <==> Coprime(a, m) && Coprime(a, f)
  {
    if Coprime(a, m * f) {
      InverseIsInverse(a, m * f);
      InverseModuloFactor(a, Inverse(a, m * f), m, f);
      assert m * f == f * m;
      InverseModuloFactor(a, Inverse(a, m * f), f, m);
    }
    if Coprime(a, m) && Coprime(a, f) {
      InverseIsInverse(a, m);
      InverseIsInverse(a, f);
      InverseModuloProduct(a, Inverse(a, m), Inverse(a, f), m, f);
    }
  }

  lemma InverseModuloFactor(a: int, x: int, m: int, f: int)
    requires 0 < m && 0 < f && Cong(a * x, 1, m * f)
    ensures Coprime(a, m)
  {
    CongFactor(a * x, 1, m, f);
    CoprimeByInverse(a, x, m);
  }

  /** 1 - a*z is the product of 1 - a*x and 1 - a*y for a suitable z. */
  lemma InverseModuloProduct(a: int, x: int, y: int, m: int, f: int)
    requires 0 < m && 0 < f && 0 < m * f && Cong(a * x, 1, m) && Cong(a * y, 1, f)
    ensures Coprime(a, m * f)
  {
    var k, l := CongQuotient(a * x, 1, m), CongQuotient(a * y, 1, f);
    var z := x + y - x * (a * y);
    calc {
      a * z - 1;
      { assert a * (x * (a * y)) == (a * x) * (a * y); }
      a * x + a * y - (a * x) * (a * y) - 1;
      -((a * x - 1) * (a * y - 1));
      -((m * k) * (f * l));
      { Shuffle(m, k, f, l); }
      (m * f) * -(k * l);
    }
    CongOfQuotient(a * z, 1, m * f, -(k * l));
    CoprimeByInverse(a, z, m * f);
  }

  /** Units cancel from a congruence. */
  lemma CongCancel(a: int, x: int, y: int, m: int)
    requires 0 < m && Coprime(a, m) && Cong(a * x, a * y, m)
    ensures Cong(x, y, m)
  {
    InverseIsInverse(a, m);
    var i := Inverse(a, m);
    CongMul(a * x, a * y, i, i, m);
    CongMul(a * i, 1, x, x, m);
    CongMul(a * i, 1, y, y, m);
    assert (a * x) * i == (a * i) * x && (a * y) * i == (a * i) * y;
  }

  /** Two residues determine a number modulo the product of coprime moduli. */
  lemma CongProduct(a: int, b: int, m: int, f: int)
    requires 0 < m && 0 < f && 0 < m * f && Coprime(m, f)
    requires Cong(a, b, m) && Cong(a, b, f)
    ensures Cong(a, b, m * f)
  {
    var k := CongQuotient(a, b, m);
    CongAdd(a, b, b, b, f);
    assert Cong(m * k, m * 0, f);
    CongCancel(m, k, 0, f);
    var l := CongQuotient(k, 0, f);
    assert m * (f * l) == (m * f) * l;
    CongOfQuotient(a, b, m * f, l);
  }

  // ---- primes -------------------------------------------------------------

  ghost predicate Prime(p: int) {
    2 <= p && forall d :: 2 <= d < p ==> p % d != 0
  }

  /** Modulo a prime, everything but the multiples of it is a unit. */
  lemma PrimeUnit(a: int, p: int)
    requires Prime(p)
    ensures Coprime(a, p) <==> a % p != 0
  {
    var g := Gcd(p, a % p);
    GcdDivides(p, a % p);
    if a % p == 0 {
      assert Gcd(p, 0) == p;
    } else {
      if g > p {
        DivModUnique(p, 0, p, g);
        assert false;
      }
      if g == p {
        DivModUnique(a % p, 0, a % p, p);
        assert false;
      }
    }
  }

  lemma EuclidLemma(a: int, b: int, p: int)
    requires Prime(p)
    ensures (a * b) % p == 0 <==> a % p == 0 || b % p == 0
  {
    PrimeUnit(a, p);
    PrimeUnit(b, p);
    PrimeUnit(a * b, p);
    CoprimeMul(a, b, p);
  }

  lemma DistinctPrimesCoprime(p: int, q: int)
    requires Prime(p) && Prime(q) && p != q
    ensures Coprime(p, q) && Coprime(q, p) && p % q != 0 && q % p != 0
  {
    PrimeUnit(p, q);
    PrimeUnit(q, p);
    if p < q {
      DivModUnique(p, 0, p, q);
      assert q % p != 0;
    } else {
      DivModUnique(q, 0, q, p);
      assert p % q != 0;
    }
  }

  // ---- Fermat's little theorem ----------------------------------------------

  lemma HasElement<T>(s: set<T>)
    ensures s == {} || exists x :: x in s
  {
    if forall x :: x !in s {
      assert s == {};
    }
  }

  ghost function Pick<T>(s: set<T>): (x: T)
    requires s != {}
    ensures x in s
  {
    HasElement(s);
    var x :| x in s;
    x
  }

  ghost function Prod(s: set<int>): int {
    if s == {} then 1 else Pick(s) * Prod(s - {Pick(s)})
  }

  lemma {:induction false} ProdRemove(s: set<int>, x: int)
    requires x in s
    ensures Prod(s) == x * Prod(s - {x})
  {
    var y := Pick(s);
    if y != x {
      var r := s - {x} - {y};
      assert s - {y} - {x} == r;
      assert Prod(s - {y}) == x * Prod(r) by {
        ProdRemove(s - {y}, x);
      }
      assert Prod(s - {x}) == y * Prod(r) by {
        ProdRemove(s - {x}, y);
      }
      assert y * (x * Prod(r)) == x * (y * Prod(r));
    }
  }

  /** The residues of a*i, for i in s. */
  ghost function Scaled(s: set<int>, a: int, p: int): set<int>
    requires 0 < p
  {
    set i | i in s :: (a * i) % p
  }

  /** Scaling by a unit is injective on the residues. */
  lemma ScaledApart(r: set<int>, x: int, a: int, p: int)
    requires Prime(p) && a % p != 0
    requires forall i :: i in r + {x} ==> 0 < i < p
    requires x !in r
    ensures (a * x) % p !in Scaled(r, a, p)
  {
    if (a * x) % p in Scaled(r, a, p) {
      var i :| i in r && (a * i) % p == (a * x) % p;
      PrimeUnit(a, p);
      assert i in r + {x} && x in r + {x};
      CongCancel(a, i, x, p);
      DivModUnique(i, 0, i, p);
      DivModUnique(x, 0, x, p);
    }
  }

  lemma ScaledInsert(r: set<int>, x: int, a: int, p: int)
    requires 0 < p
    ensures Scaled(r + {x}, a, p) == Scaled(r, a, p) + {(a * x) % p}
  {
    forall y | y in Scaled(r, a, p) + {(a * x) % p} ensures y in Scaled(r + {x}, a, p) {
      if y == (a * x) % p {
        assert x in r + {x};
      } else {
        var i :| i in r && y == (a * i) % p;
        assert i in r + {x};
      }
    }
  }

  lemma {:induction false} ProdScaled(s: set<int>, a: int, p: int)
    requires Prime(p) && a % p != 0
    requires forall i :: i in s ==> 0 < i < p
    ensures |Scaled(s, a, p)| == |s|
    ensures Cong(Prod(Scaled(s, a, p)), Pow(a, |s|) * Prod(s), p)
    decreases |s|
  {
    if s == {} {
      assert Scaled(s, a, p) == {};
    } else {
      var x := Pick(s);
      var r := s - {x};
      assert s == r + {x};
      ProdScaled(r, a, p);
      ScaledInsert(r, x, a, p);
      ScaledApart(r, x, a, p);
      ProdScaledStep(Scaled(r, a, p), (a * x) % p, r, x, a, p);
    }
  }

  lemma ProdScaledStep(t: set<int>, y: int, r: set<int>, x: int, a: int, p: int)
    requires 0 < p && x !in r && y !in t && y == (a * x) % p
    requires Cong(Prod(t), Pow(a, |r|) * Prod(r), p)
    ensures Cong(Prod(t + {y}), Pow(a, |r + {x}|) * Prod(r + {x}), p)
  {
    assert t + {y} - {y} == t && r + {x} - {x} == r;
    ProdRemove(t + {y}, y);
    ProdRemove(r + {x}, x);
    CongMod(a * x, p);
    CongMul(y, a * x, Prod(t), Pow(a, |r|) * Prod(r), p);
    Shuffle(a, x, Pow(a, |r|), Prod(r));
  }

  lemma {:induction false} ProdUnit(s: set<int>, p: int)
    requires Prime(p) && forall i :: i in s ==> 0 < i < p
    ensures Coprime(Prod(s), p)
    decreases |s|
  {
    if s == {} {
      CoprimeByInverse(1, 1, p);
    } else {
      var x := Pick(s);
      ProdRemove(s, x);
      ProdUnit(s - {x}, p);
      DivModUnique(x, 0, x, p);
      PrimeUnit(x, p);
      CoprimeMul(x, Prod(s - {x}), p);
    }
  }

  /** The numbers 1 to n. */
  ghost function Interval(n: nat): set<int> {
    if n == 0 then {} else Interval(n - 1) + {n}
  }

  lemma {:induction false} IntervalMembers(n: nat)
    ensures |Interval(n)| == n && forall i :: i in Interval(n) <==> 0 < i <= n
  {
    if n > 0 { IntervalMembers(n - 1); }
  }

  lemma SubsetOfEqualSize(s: set<int>, t: set<int>)
    requires s <= t && |s| == |t|
    ensures s == t
  {
    if t - s != {} {
      var x := Pick(t - s);
      SubsetSize(s, t - {x});
    } else {
      forall x | x in t ensures x in s {
        assert x !in t - s;
      }
    }
  }

  lemma {:induction false} SubsetSize(s: set<int>, t: set<int>)
    requires s <= t
    ensures |s| <= |t|
    decreases |s|
  {
    if s != {} {
      var x := Pick(s);
      SubsetSize(s - {x}, t - {x});
    }
  }

  /** Fermat's little theorem. */
  lemma Fermat(a: int, p: int)
    requires Prime(p) && Coprime(a, p)
    ensures Cong(Pow(a, p - 1), 1, p)
  {
    PrimeUnit(a, p);
    var s := Interval(p - 1);
    IntervalMembers(p - 1);
    ProdScaled(s, a, p);
    forall y | y in Scaled(s, a, p) ensures y in s {
      var i :| i in s && y == (a * i) % p;
      DivModUnique(i, 0, i, p);
      EuclidLemma(a, i, p);
    }
    SubsetOfEqualSize(Scaled(s, a, p), s);
    ProdUnit(s, p);
    assert Prod(s) * Pow(a, p - 1) == Pow(a, p - 1) * Prod(s) && Prod(s) * 1 == Prod(s);
    CongCancel(Prod(s), Pow(a, p - 1), 1, p);
  }
}
