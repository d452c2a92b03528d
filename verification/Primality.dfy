/**
 Certificates of primality: an element whose order is a large prime power leaves
 no room for a second prime factor.
 */
module Primality {
  import opened NumberTheory

  /** The least factor of n is prime, and small unless it is n itself. */
  lemma {:induction false} LeastFactor(n: int, d: int) returns (l: int)
    requires 2 <= d <= n && forall c :: 2 <= c < d ==> n % c != 0
    ensures Prime(l) && n % l == 0 && (l == n || l * l <= n)
    decreases n - d
  {
    if n % d == 0 {
      l := d;
      forall c | 2 <= c < d ensures d % c != 0 {
        if d % c == 0 {
          FactorOfFactor(n, d, c);
        }
      }
      if d < n {
        SmallFactor(n, d);
      }
    } else {
      DivModUnique(n, 1, 0, n);
      l := LeastFactor(n, d + 1);
    }
  }

  lemma FactorOfFactor(n: int, d: int, c: int)
    requires 0 < c && 0 < d && n % d == 0 && d % c == 0
    ensures n % c == 0
  {
    assert n == d * (n / d) && d == c * (d / c);
    assert (c * (d / c)) * (n / d) == c * ((d / c) * (n / d));
    DivModUnique(n, (d / c) * (n / d), 0, c);
  }

  lemma SmallFactor(n: int, d: int)
    requires 2 <= d < n && n % d == 0 && forall c :: 2 <= c < d ==> n % c != 0
    ensures d * d <= n
  {
    var e := n / d;
    assert n == d * e && d * e == e * d;
    if e < 2 {
      MulMonotone(d, e, 1);
    } else if e < d {
      DivModUnique(n, d, 0, e);
    } else {
      MulMonotone(d, d, e);
    }
  }

  lemma {:induction false} CoprimeToPower(t: int, r: int, k: nat)
    requires 0 < r && Coprime(t, r)
    ensures 0 < Pow(r, k) && Coprime(t, Pow(r, k))
  {
    if k == 0 {
      CoprimeByInverse(t, 0, 1);
    } else {
      CoprimeToPower(t, r, k - 1);
      MulMonotone(r, 1, Pow(r, k - 1));
      CoprimeProduct(t, r, Pow(r, k - 1));
    }
  }

  /** A value of which two coprime powers are 1 is 1. */
  lemma CoprimeExponents(c: int, t: nat, e: nat, l: int)
    requires 0 < l && 0 < e && Coprime(t, e)
    requires Cong(Pow(c, t), 1, l) && Cong(Pow(c, e), 1, l)
    ensures Cong(c, 1, l)
  {
    var u := Inverse(t, e);
    InverseIsInverse(t, e);
    var w := CongQuotient(t * u, 1, e);
    MulMonotone(t, 0, u);
    if w < 0 {
      MulMonotone(e, w, -1);
    }
    if w < 0 {
      assert t * u == 0 && e == 1;
      assert Pow(c, 1) == c;
    } else {
      PowPow(c, t, u);
      PowPow(c, e, w);
      CongPow(Pow(c, t), 1, u, l);
      CongPow(Pow(c, e), 1, w, l);
      PowOne(u);
      PowOne(w);
      CongMul(c, c, Pow(c, e * w), 1, l);
    }
  }

  /** If b^(f*t) and b^(f*e) are 1 with t and e coprime, so is b^(f*m). */
  lemma CommonExponent(b: int, f: nat, t: nat, e: nat, m: nat, ft: nat, fe: nat, fm: nat, l: int)
    requires 0 < l && 0 < e && Coprime(t, e) && ft == f * t && fe == f * e && fm == f * m
    requires Cong(Pow(b, ft), 1, l) && Cong(Pow(b, fe), 1, l)
    ensures Cong(Pow(b, fm), 1, l)
  {
    PowPow(b, f, t);
    PowPow(b, f, e);
    PowPow(b, f, m);
    CoprimeExponents(Pow(b, f), t, e, l);
    CongPow(Pow(b, f), 1, m, l);
    PowOne(m);
  }

  /** One more factor r of the group order. */
  lemma OrderStep(b: int, r: int, j: nat, i: nat, l: int)
    requires Prime(l) && Prime(r) && Coprime(b, l) && i < j
    requires 0 < Pow(r, i) && 0 < Pow(r, j) && 0 < Pow(r, j - 1) && (l - 1) % Pow(r, i) == 0
    requires Cong(Pow(b, Pow(r, j)), 1, l) && !Cong(Pow(b, Pow(r, j - 1)), 1, l)
    ensures (l - 1) / Pow(r, i) % r == 0
  {
    var f := Pow(r, i);
    var t := (l - 1) / f;
    assert l - 1 == f * t;
    hide Cong, Pow, Prime, Coprime;
    if t % r != 0 {
      PrimeUnit(t, r);
      CoprimeToPower(t, r, j - i);
      CoprimeToPower(t, r, j - 1 - i);
      Fermat(b, l);
      PowAdd(r, i, j - i);
      PowAdd(r, i, j - 1 - i);
      CommonExponent(b, f, t, Pow(r, j - i), Pow(r, j - 1 - i), l - 1, Pow(r, j), Pow(r, j - 1), l);
    }
  }

  /** The prime power divides the group order. */
  lemma {:induction false} OrderDivides(b: int, r: int, j: nat, i: nat, l: int)
    requires Prime(l) && Prime(r) && Coprime(b, l) && 0 < j && i <= j
    requires 0 < Pow(r, j) && 0 < Pow(r, j - 1)
    requires Cong(Pow(b, Pow(r, j)), 1, l) && !Cong(Pow(b, Pow(r, j - 1)), 1, l)
    ensures 0 < Pow(r, i) && (l - 1) % Pow(r, i) == 0
  {
    if i == 0 {
      DivModUnique(l - 1, l - 1, 0, 1);
    } else {
      OrderDivides(b, r, j, i - 1, l);
      OrderStep(b, r, j, i - 1, l);
      MulMonotone(r, 1, Pow(r, i - 1));
      NestedDivision(l - 1, Pow(r, i - 1), r);
    }
  }

  lemma NestedDivision(a: int, f: int, r: int)
    requires 0 < f && 0 < r && 0 < r * f && a % f == 0 && a / f % r == 0
    ensures a % (r * f) == 0
  {
    var t := a / f;
    assert a == f * t && t == r * (t / r);
    assert f * (r * (t / r)) == (r * f) * (t / r);
    DivModUnique(a, t / r, 0, r * f);
  }

  /** b raised to the i-th power of r is x modulo n. */
  ghost predicate Reaches(b: int, r: int, i: nat, x: int, n: int) {
    0 < n && 0 < Pow(r, i) && Cong(Pow(b, Pow(r, i)), x, n)
  }

  lemma ReachStart(b: int, r: int, n: int)
    requires 0 < n
    ensures Reaches(b, r, 0, b, n)
  {
    assert Pow(b, 1) == b;
  }

  /** Raising to the power r once more. */
  lemma ReachNext(b: int, r: nat, i: nat, x: int, n: int)
    requires 0 < r && Reaches(b, r, i, x, n)
    ensures Reaches(b, r, i + 1, Pow(x, r) % n, n)
  {
    CongPow(Pow(b, Pow(r, i)), x, r, n);
    PowPow(b, Pow(r, i), r);
    assert Pow(r, i + 1) == Pow(r, i) * r;
    MulMonotone(r, 1, Pow(r, i));
    CongMod(Pow(x, r), n);
  }

  /**
   A certificate: b has order r^j modulo every prime factor of n, because x - 1 is a
   unit for x = b^(r^(j-1)); when r^j exceeds the root of n that leaves only n itself.
   */
  lemma Certificate(n: int, b: int, r: int, j: nat, x: int, inverse: int)
    requires 2 <= n && Prime(r) && 0 < j && n < Pow(r, j) * Pow(r, j)
    requires Reaches(b, r, j, 1, n) && Reaches(b, r, j - 1, x, n) && Cong((x - 1) * inverse, 1, n)
    ensures Prime(n)
  {
    var l := LeastFactor(n, 2);
    assert Pow(b, Pow(r, j)) == b * Pow(b, Pow(r, j) - 1);
    assert 0 < Pow(r, j) && 0 < Pow(r, j - 1);
    assert Cong(Pow(b, Pow(r, j)), 1, n) && Cong(Pow(b, Pow(r, j - 1)), x, n);
    hide Pow, Reaches;
    if l != n {
      var e := n / l;
      assert n == l * e;
      FactorPositive(l, e);
      CongFactor(Pow(b, Pow(r, j)), 1, l, e);
      CongFactor(Pow(b, Pow(r, j - 1)), x, l, e);
      CongFactor((x - 1) * inverse, 1, l, e);
      NotOne(Pow(b, Pow(r, j - 1)), x, inverse, l);
      CoprimeByInverse(b, Pow(b, Pow(r, j) - 1), l);
      OrderDivides(b, r, j, j, l);
      LargeFactor(l, Pow(r, j));
    }
  }

  lemma FactorPositive(l: int, e: int)
    requires 0 < l && 0 < l * e
    ensures 0 < e
  {
    if e <= 0 {
      MulMonotone(l, e, 0);
    }
  }

  lemma NotOne(y: int, x: int, inverse: int, l: int)
    requires 2 <= l && Cong(y, x, l) && Cong((x - 1) * inverse, 1, l)
    ensures !Cong(y, 1, l)
  {
    if Cong(y, 1, l) {
      CongAdd(x, 1, 1, 1, l);
      CongMul(x - 1, 0, inverse, inverse, l);
      DivModUnique(0, 0, 0, l);
      DivModUnique(1, 0, 1, l);
    }
  }

  lemma LargeFactor(l: int, f: int)
    requires 2 <= l && 0 < f && (l - 1) % f == 0
    ensures f * f < l * l
  {
    var k := (l - 1) / f;
    assert l - 1 == f * k;
    FactorPositive(f, k);
    MulMonotone(f, 1, k);
    MulMonotone(f, f, l);
    MulMonotone(l, f + 1, l);
    assert f * l == l * f && l * (f + 1) == l * f + l;
  }
}
