/**
 The public and the private key objects: encryption, obfuscation and decryption
 of vectors, with the per-lane functions they compute and the round trip.
 */
module Keys {
  import opened ModExp
  import opened NumberTheory
  import opened Paillier
  import opened Wrappers

  predicate Odd(n: int) {
    3 <= n && n % 2 == 1
  }

  lemma OddSquare(n: int)
    requires Odd(n)
    ensures 0 < Square(n) && Square(n) % 2 == 1
  {
    var k := n / 2;
    assert n * n == (2 * k + 1) * (2 * k + 1) == 2 * (2 * (k * k) + 2 * k) + 1;
  }

  // ---- the public key -------------------------------------------------------------

  datatype PubKey = PubKey(n: int, nsquare: int, g: int, bits: nat, djn: bool, hs: int, randbits: nat)

  ghost predicate ValidPub(pk: PubKey) {
    Odd(pk.n) && pk.nsquare == Square(pk.n) && pk.g == pk.n + 1
  }

  /** -1 reaches the operator that takes an unsigned 32-bit factor. */
  const NEGATION_FACTOR := 4294967295

  /** h of enableDJN, from an accepted random draw. */
  function DjnBase(rand: nat, n: int): int
    requires 0 < n
  {
    var rmod := rand % n;
    rmod * rmod * NEGATION_FACTOR % n
  }

  /** hs depends on the draw through the n-th power of 4294967295 times its square. */
  lemma DjnPower(rand: nat, n: int)
    requires 0 < n && 0 < n * n
    ensures Cong(Pow(DjnBase(rand, n), n), Pow(4294967295 * rand * rand, n), n * n)
  {
    var rmod := rand % n;
    CongMod(rand, n);
    CongMul(rmod, rand, rmod, rand, n);
    CongMul(rmod * rmod, rand * rand, NEGATION_FACTOR, 4294967295, n);
    CongMod(rmod * rmod * NEGATION_FACTOR, n);
    assert rand * rand * 4294967295 == 4294967295 * rand * rand;
    CongPowSquare(DjnBase(rand, n), 4294967295 * rand * rand, n);
  }

  datatype Draw = Drawn(rand: nat) | Exhausted

  /** The rejection loop of enableDJN on a stream of random numbers. */
  function FirstUnit(draws: seq<nat>, n: int): Draw
    requires 0 < n
  {
    if draws == [] then Exhausted
    else if Coprime(draws[0], n) then Drawn(draws[0])
    else FirstUnit(draws[1..], n)
  }

  /** The obfuscator one lane is multiplied with, from that lane's random number. */
  function ObfuscatorOf(pk: PubKey, rand: nat): int
    requires 2 <= pk.n && 0 < pk.nsquare
  {
    if pk.djn then ModPow(pk.hs, rand, pk.nsquare)
    else ModPow(rand % (pk.n - 1) + 1, pk.n, pk.nsquare)
  }

  function PlainLane(pk: PubKey, m: int): int
    requires 0 < pk.nsquare
  {
    (pk.n * m + 1) % pk.nsquare
  }

  function EncryptLane(pk: PubKey, m: int, secure: bool, rand: nat): int
    requires 2 <= pk.n && 0 < pk.nsquare
  {
    if secure then PlainLane(pk, m) * ObfuscatorOf(pk, rand) % pk.nsquare else PlainLane(pk, m)
  }

  /** The power the obfuscator is, in either mode. */
  lemma ObfuscatorPower(pk: PubKey, rand: nat)
    requires 2 <= pk.n && 0 < pk.nsquare
    ensures 0 <= ObfuscatorOf(pk, rand) < pk.nsquare
    ensures pk.djn ==> Cong(ObfuscatorOf(pk, rand), Pow(pk.hs, rand), pk.nsquare)
    ensures !pk.djn ==> Cong(ObfuscatorOf(pk, rand), Pow(rand % (pk.n - 1) + 1, pk.n), pk.nsquare)
  {
  }

  /** c times an obfuscator, reduced, is c times the power it is. */
  lemma ObfuscatedPower(pk: PubKey, c: int, rand: nat)
    requires 2 <= pk.n && 0 < pk.nsquare
    ensures 0 <= c * ObfuscatorOf(pk, rand) % pk.nsquare < pk.nsquare
    ensures pk.djn ==> Cong(c * ObfuscatorOf(pk, rand) % pk.nsquare, c * Pow(pk.hs, rand), pk.nsquare)
    ensures !pk.djn ==>
      Cong(c * ObfuscatorOf(pk, rand) % pk.nsquare, c * Pow(rand % (pk.n - 1) + 1, pk.n), pk.nsquare)
  {
    hide ObfuscatorOf;
    ObfuscatorPower(pk, rand);
    CongMod(c * ObfuscatorOf(pk, rand), pk.nsquare);
    var power := if pk.djn then Pow(pk.hs, rand) else Pow(rand % (pk.n - 1) + 1, pk.n);
    CongMul(c, c, ObfuscatorOf(pk, rand), power, pk.nsquare);
  }

  /** An encrypted lane is (n*m + 1) times the n-th power, or the power of hs, of its own random number. */
  lemma EncryptLanePower(pk: PubKey, m: int, secure: bool, rand: nat)
    requires 2 <= pk.n && 0 < pk.nsquare
    ensures 0 <= EncryptLane(pk, m, secure, rand) < pk.nsquare
    ensures !secure ==> Cong(EncryptLane(pk, m, secure, rand), pk.n * m + 1, pk.nsquare)
    ensures secure && pk.djn ==>
      Cong(EncryptLane(pk, m, secure, rand), (pk.n * m + 1) * Pow(pk.hs, rand), pk.nsquare)
    ensures secure && !pk.djn ==>
      Cong(EncryptLane(pk, m, secure, rand), (pk.n * m + 1) * Pow(rand % (pk.n - 1) + 1, pk.n), pk.nsquare)
  {
    hide ObfuscatorOf, Pow;
    CongMod(pk.n * m + 1, pk.nsquare);
    ObfuscatedPower(pk, PlainLane(pk, m), rand);
    var power := if pk.djn then Pow(pk.hs, rand) else Pow(rand % (pk.n - 1) + 1, pk.n);
    CongMul(PlainLane(pk, m), pk.n * m + 1, power, power, pk.nsquare);
  }

  lemma ObfuscatedPowers(pk: PubKey, before: seq<int>, draws: seq<nat>, after: seq<int>)
    requires 2 <= pk.n && 0 < pk.nsquare && |draws| == |before| == |after|
    requires forall i :: 0 <= i < |draws| ==> after[i] == before[i] * ObfuscatorOf(pk, draws[i]) % pk.nsquare
    ensures forall i :: 0 <= i < |draws| ==> 0 <= after[i] < pk.nsquare
    ensures pk.djn ==> forall i :: 0 <= i < |draws| ==>
      Cong(after[i], before[i] * Pow(pk.hs, draws[i]), pk.nsquare)
    ensures !pk.djn ==> forall i :: 0 <= i < |draws| ==>
      Cong(after[i], before[i] * Pow(draws[i] % (pk.n - 1) + 1, pk.n), pk.nsquare)
  {
    hide ObfuscatorOf, Cong, Pow;
    forall i | 0 <= i < |draws| {
      ObfuscatedPower(pk, before[i], draws[i]);
    }
  }

  lemma RawEncryptPowers(pk: PubKey, pt: seq<int>, secure: bool, draws: seq<nat>, ct: seq<int>)
    requires 2 <= pk.n && 0 < pk.nsquare && |draws| == |pt| == |ct|
    requires forall i :: 0 <= i < |pt| ==> ct[i] == EncryptLane(pk, pt[i], secure, draws[i])
    ensures forall i :: 0 <= i < |pt| ==> 0 <= ct[i] < pk.nsquare
    ensures !secure ==> forall i :: 0 <= i < |pt| ==> Cong(ct[i], pk.n * pt[i] + 1, pk.nsquare)
    ensures secure && pk.djn ==>
      forall i :: 0 <= i < |pt| ==> Cong(ct[i], (pk.n * pt[i] + 1) * Pow(pk.hs, draws[i]), pk.nsquare)
    ensures secure && !pk.djn ==> forall i :: 0 <= i < |pt| ==>
      Cong(ct[i], (pk.n * pt[i] + 1) * Pow(draws[i] % (pk.n - 1) + 1, pk.n), pk.nsquare)
  {
    hide EncryptLane, Cong, Pow;
    forall i | 0 <= i < |pt| {
      EncryptLanePower(pk, pt[i], secure, draws[i]);
    }
  }

  class PublicKey {
    var n: int
    var g: int
    var nsquare: int
    var bits: nat
    var dwords: nat
    var djn: bool
    var hs: int
    var randbits: nat
    var isInitialized: bool

    function View(): PubKey
      reads this
    {
      PubKey(n, nsquare, g, bits, djn, hs, randbits)
    }

    /** An object that is not yet a key. */
    constructor Default()
      ensures !isInitialized
    {
      isInitialized := false;
    }

    /** Without the DJN variant, which EnableDjn adds. */
    constructor (n: int, bits: nat)
      ensures (Odd(n) ==> ValidPub(View())) && View() == PubKey(n, Square(n), n + 1, bits, false, 0, 0)
      ensures isInitialized && 64 * dwords >= 2 * bits > 64 * (dwords - 1)
    {
      this.n := n;
      this.g := n + 1;
      this.nsquare := n * n;
      this.bits := bits;
      this.dwords := (2 * bits + 63) / 64;
      this.djn := false;
      this.hs := 0;
      this.randbits := 0;
      this.isInitialized := true;
    }

    /** Draws until a unit comes; hs is then an n-th power by construction. */
    method EnableDjn(draws: seq<nat>) returns (accepted: bool)
      requires ValidPub(View())
      modifies this
      ensures ValidPub(View()) && accepted == FirstUnit(draws, n).Drawn?
      ensures isInitialized == old(isInitialized) && dwords == old(dwords)
      ensures !accepted ==> View() == old(View())
      ensures accepted ==>
        View() == old(View()).(djn := true, randbits := bits / 2,
                               hs := ModPow(DjnBase(FirstUnit(draws, n).rand, n), n, nsquare))
      ensures 0 < n && 0 < nsquare && n == old(n) && nsquare == n * n
      ensures !accepted <==> forall i :: 0 <= i < |draws| ==> !Coprime(draws[i], n)
      ensures accepted ==> djn && randbits == bits / 2 && 0 <= hs < nsquare
      ensures accepted ==> exists i | 0 <= i < |draws| ::
        && Coprime(draws[i], n) && (forall j :: 0 <= j < i ==> !Coprime(draws[j], n))
        && Cong(hs, Pow(4294967295 * draws[i] * draws[i], n), nsquare)
    {
      var i := 0;
      while i < |draws|
        invariant 0 <= i <= |draws|
        invariant FirstUnit(draws, n) == FirstUnit(draws[i..], n) && View() == old(View())
        invariant isInitialized == old(isInitialized) && dwords == old(dwords)
        invariant forall j :: 0 <= j < i ==> !Coprime(draws[j], n)
      {
        var rand := draws[i];
        var rmod := rand % n;
        var gcd := Gcd(rand, n);
        if gcd == 1 {
          var rmodSq := rmod * rmod;
          var rmodNeg := rmodSq * NEGATION_FACTOR;
          var h := rmodNeg % n;
          OddSquare(n);
          DjnPower(rand, n);
          hs := IppSbModExp(h, n, nsquare);
          randbits := bits / 2;
          djn := true;
          return true;
        }
        i := i + 1;
      }
      return false;
    }

    method GetDjnObfuscator(draws: seq<nat>) returns (o: seq<int>)
      requires ValidPub(View()) && djn
      ensures |o| == |draws| && forall i :: 0 <= i < |draws| ==> o[i] == ObfuscatorOf(View(), draws[i])
      ensures 0 < nsquare
      ensures forall i :: 0 <= i < |draws| ==> 0 <= o[i] < nsquare && Cong(o[i], Pow(hs, draws[i]), nsquare)
    {
      OddSquare(n);
      var base := Repeat(hs, |draws|);
      var sq := Repeat(nsquare, |draws|);
      o := IppModExp(base, draws, sq, true);
    }

    method GetNormalObfuscator(draws: seq<nat>) returns (o: seq<int>)
      requires ValidPub(View()) && !djn
      ensures |o| == |draws| && forall i :: 0 <= i < |draws| ==> o[i] == ObfuscatorOf(View(), draws[i])
      ensures 2 <= n && 0 < nsquare
      ensures forall i :: 0 <= i < |draws| ==>
        0 <= o[i] < nsquare && Cong(o[i], Pow(draws[i] % (n - 1) + 1, n), nsquare)
    {
      OddSquare(n);
      var r := new int[|draws|];
      var i := 0;
      while i < |draws|
        invariant 0 <= i <= |draws|
        invariant forall j :: 0 <= j < i ==> r[j] == draws[j] % (n - 1) + 1
      {
        r[i] := draws[i] % (n - 1) + 1;
        i := i + 1;
      }
      var sq := Repeat(nsquare, |draws|);
      var pown := Repeat<nat>(n, |draws|);
      o := IppModExp(r[..], pown, sq, true);
    }

    /** Multiplies every lane in place by its own obfuscator. */
    method ApplyObfuscator(ciphertext: array<int>, draws: seq<nat>)
      requires ValidPub(View()) && |draws| == ciphertext.Length
      modifies ciphertext
      ensures forall i :: 0 <= i < |draws| ==>
        ciphertext[i] == old(ciphertext[i]) * ObfuscatorOf(View(), draws[i]) % nsquare
      ensures 2 <= n && 0 < nsquare && forall i :: 0 <= i < |draws| ==> 0 <= ciphertext[i] < nsquare
      ensures djn ==> forall i :: 0 <= i < |draws| ==>
        Cong(ciphertext[i], old(ciphertext[i]) * Pow(hs, draws[i]), nsquare)
      ensures !djn ==> forall i :: 0 <= i < |draws| ==>
        Cong(ciphertext[i], old(ciphertext[i]) * Pow(draws[i] % (n - 1) + 1, n), nsquare)
    {
      hide ObfuscatorOf, Cong;
      OddSquare(n);
      ghost var before := ciphertext[..];
      var obfuscator;
      if djn {
        obfuscator := GetDjnObfuscator(draws);
      } else {
        obfuscator := GetNormalObfuscator(draws);
      }
      assert forall j :: 0 <= j < |draws| ==> ciphertext[j] == old(ciphertext[j]);
      var i := 0;
      while i < ciphertext.Length
        invariant 0 <= i <= ciphertext.Length
        invariant forall j :: 0 <= j < i ==> ciphertext[j] == old(ciphertext[j]) * obfuscator[j] % nsquare
        invariant forall j :: i <= j < ciphertext.Length ==> ciphertext[j] == old(ciphertext[j])
      {
        ciphertext[i] := ciphertext[i] * obfuscator[i] % nsquare;
        i := i + 1;
      }
      ObfuscatedPowers(View(), before, draws, ciphertext[..]);
    }

    method RawEncrypt(pt: seq<int>, makeSecure: bool, draws: seq<nat>) returns (ct: seq<int>)
      requires ValidPub(View()) && |draws| == |pt|
      ensures |ct| == |pt|
      ensures forall i :: 0 <= i < |pt| ==> ct[i] == EncryptLane(View(), pt[i], makeSecure, draws[i])
      ensures 2 <= n && 0 < nsquare
      ensures forall i :: 0 <= i < |pt| ==> 0 <= ct[i] < nsquare
      ensures !makeSecure ==>
        forall i :: 0 <= i < |pt| ==> Cong(ct[i], n * pt[i] + 1, nsquare)
      ensures makeSecure && djn ==>
        forall i :: 0 <= i < |pt| ==> Cong(ct[i], (n * pt[i] + 1) * Pow(hs, draws[i]), nsquare)
      ensures makeSecure && !djn ==>
        forall i :: 0 <= i < |pt| ==> Cong(ct[i], (n * pt[i] + 1) * Pow(draws[i] % (n - 1) + 1, n), nsquare)
    {
      OddSquare(n);
      var out := new int[|pt|];
      var i := 0;
      while i < |pt|
        invariant 0 <= i <= |pt|
        invariant forall j :: 0 <= j < i ==> out[j] == PlainLane(View(), pt[j])
      {
        out[i] := (n * pt[i] + 1) % nsquare;
        i := i + 1;
      }
      if makeSecure {
        ApplyObfuscator(out, draws);
      }
      ct := out[..];
      RawEncryptPowers(View(), pt, makeSecure, draws, ct);
    }

    method Encrypt(pt: seq<int>, makeSecure: bool, draws: seq<nat>) returns (r: Result<seq<int>>)
      requires (isInitialized ==> ValidPub(View())) && |draws| == |pt|
      ensures r.Ok? <==> isInitialized && |pt| > 0
      ensures r.Ok? ==> 2 <= n && 0 < nsquare && |r.value| == |pt|
      ensures r.Ok? ==> forall i :: 0 <= i < |pt| ==> r.value[i] == EncryptLane(View(), pt[i], makeSecure, draws[i])
      ensures r.Ok? ==> forall i :: 0 <= i < |pt| ==> 0 <= r.value[i] < nsquare
      ensures r.Ok? && !makeSecure ==>
        forall i :: 0 <= i < |pt| ==> Cong(r.value[i], n * pt[i] + 1, nsquare)
      ensures r.Ok? && makeSecure && djn ==>
        forall i :: 0 <= i < |pt| ==> Cong(r.value[i], (n * pt[i] + 1) * Pow(hs, draws[i]), nsquare)
      ensures r.Ok? && makeSecure && !djn ==>
        forall i :: 0 <= i < |pt| ==> Cong(r.value[i], (n * pt[i] + 1) * Pow(draws[i] % (n - 1) + 1, n), nsquare)
    {
      if !isInitialized {
        return Error("encrypt: Public key is NOT initialized.");
      }
      OddSquare(n);
      if |pt| == 0 {
        return Error("encrypt: Cannot encrypt empty PlainText");
      }
      var ct := RawEncrypt(pt, makeSecure, draws);
      return Ok(ct);
    }
  }

  // ---- the private key ------------------------------------------------------------

  /** computeHfun, for b the square of a. */
  method ComputeHfun(g: int, a: int, b: int, leftover: int) returns (h: int)
    requires Odd(a) && b == Square(a)
    ensures h == Hfun(g, a, leftover)
    ensures Coprime(HalfLog(g, a), a) ==> 0 <= h < a && Cong(HalfLog(g, a) * h, 1, a)
  {
    var xm := a - 1;
    var base := g % b;
    OddSquare(a);
    var pm := IppSbModExp(base, xm, b);
    var lcrt := Lfun(pm, a);
    return InverseMul(a, lcrt, leftover);
  }

  class PrivateKey {
    var n: int
    var nsquare: int
    var g: int
    var enableCrt: bool
    var p: int
    var q: int
    var pminusone: int
    var qminusone: int
    var psquare: int
    var qsquare: int
    var pinverse: int
    var hp: int
    var hq: int
    var lambda: nat
    var x: int
    var isInitialized: bool

    function View(): PrivKey
      reads this
    {
      PrivKey(n, nsquare, g, p, q, pminusone, qminusone, psquare, qsquare, pinverse, hp, hq, lambda, x)
    }

    /** An object that is not yet a key. */
    constructor Default()
      ensures !isInitialized
    {
      isInitialized := false;
    }

    /** The initialisers of the constructor that takes a public key. */
    constructor FromPublicKey(pk: PublicKey, a: int, b: int, leftover: int)
      requires ValidPub(pk.View()) && Odd(a) && Odd(b)
      ensures View() == MakePrivKey(pk.n, a, b, leftover) && enableCrt && !isInitialized
    {
      hide Hfun, InverseMul, Lcm, ModPow, TruncDiv;
      n := pk.n;
      nsquare := pk.nsquare;
      g := pk.g;
      enableCrt := true;
      var p0, q0 := if b < a then b else a, if b < a then a else b;
      p := p0;
      q := q0;
      pminusone := p0 - 1;
      qminusone := q0 - 1;
      psquare := Square(p0);
      qsquare := Square(q0);
      pinverse := InverseMul(q0, p0, leftover);
      var hp0 := ComputeHfun(pk.g, p0, Square(p0), leftover);
      hp := hp0;
      var hq0 := ComputeHfun(pk.g, q0, Square(q0), leftover);
      hq := hq0;
      var lambda0 := Lcm(p0 - 1, q0 - 1);
      lambda := lambda0;
      OddSquare(pk.n);
      var glambda := IppSbModExp(pk.g, lambda0, pk.nsquare);
      x := InverseMul(pk.n, TruncDiv(glambda - 1, pk.n), leftover);
      isInitialized := false;
    }

    /** The initialisers of the constructor that takes the modulus itself. */
    constructor (modulus: int, a: int, b: int, leftover: int)
      requires Odd(modulus) && Odd(a) && Odd(b)
      ensures View() == MakePrivKey(modulus, a, b, leftover) && enableCrt && !isInitialized
    {
      hide Hfun, InverseMul, Lcm, ModPow, TruncDiv;
      n := modulus;
      nsquare := Square(modulus);
      g := modulus + 1;
      enableCrt := true;
      var p0, q0 := if b < a then b else a, if b < a then a else b;
      p := p0;
      q := q0;
      pminusone := p0 - 1;
      qminusone := q0 - 1;
      psquare := Square(p0);
      qsquare := Square(q0);
      pinverse := InverseMul(q0, p0, leftover);
      var hp0 := ComputeHfun(modulus + 1, p0, Square(p0), leftover);
      hp := hp0;
      var hq0 := ComputeHfun(modulus + 1, q0, Square(q0), leftover);
      hq := hq0;
      var lambda0 := Lcm(p0 - 1, q0 - 1);
      lambda := lambda0;
      OddSquare(modulus);
      var glambda := IppSbModExp(modulus + 1, lambda0, Square(modulus));
      x := InverseMul(modulus, TruncDiv(glambda - 1, modulus), leftover);
      isInitialized := false;
    }

    /** The two checks that follow the initialisers. */
    method Finish() returns (r: Result<bool>)
      modifies this`isInitialized
      ensures r.Ok? <==> p * q == n && p != q
      ensures isInitialized == (old(isInitialized) || r.Ok?)
    {
      if p * q != n {
        return Error("PrivateKey ctor: Public key does not match p * q.");
      }
      if p == q {
        return Error("PrivateKey ctor: p and q are same");
      }
      isInitialized := true;
      return Ok(true);
    }

    /** The engine refuses even moduli, before the two checks are reached. */
    static method Create(pk: PublicKey, a: int, b: int, leftover: int) returns (r: Result<PrivateKey>)
      requires ValidPub(pk.View()) && 3 <= a && 3 <= b
      ensures r.Ok? <==> a % 2 == b % 2 == 1 && a * b == pk.n && a != b
      ensures r.Ok? ==> fresh(r.value) && r.value.enableCrt && r.value.isInitialized
      ensures r.Ok? ==> r.value.View() == MakePrivKey(pk.n, a, b, leftover)
    {
      hide Hfun, InverseMul, Lcm, FullLog;
      if a % 2 == 0 || b % 2 == 0 {
        return Error("ippMontExp: set Mont input error.");
      }
      var key := new PrivateKey.FromPublicKey(pk, a, b, leftover);
      assert key.p * key.q == a * b;
      var checked := key.Finish();
      if checked.Error? {
        return Error(checked.message);
      }
      return Ok(key);
    }

    static method CreateFromModulus(modulus: int, a: int, b: int, leftover: int) returns (r: Result<PrivateKey>)
      requires 3 <= modulus && 3 <= a && 3 <= b
      ensures r.Ok? <==> a % 2 == b % 2 == 1 && a * b == modulus && a != b
      ensures r.Ok? ==> fresh(r.value) && r.value.enableCrt && r.value.isInitialized
      ensures r.Ok? ==> r.value.View() == MakePrivKey(modulus, a, b, leftover)
    {
      hide Hfun, InverseMul, Lcm, FullLog;
      if a % 2 == 0 || b % 2 == 0 || modulus % 2 == 0 {
        EvenFactor(modulus, a, b);
        return Error("ippMontExp: set Mont input error.");
      }
      var key := new PrivateKey(modulus, a, b, leftover);
      assert key.p * key.q == a * b;
      var checked := key.Finish();
      if checked.Error? {
        return Error(checked.message);
      }
      return Ok(key);
    }

    /** The first half of load: the fields that are products and differences. */
    method LoadFactors(a: int, b: int)
      modifies `n, `nsquare, `g, `enableCrt, `p, `q, `pminusone, `qminusone, `psquare, `qsquare
      ensures n == a * b && nsquare == Square(n) && g == n + 1 && enableCrt
      ensures p == (if b < a then b else a) && q == (if b < a then a else b)
      ensures pminusone == p - 1 && qminusone == q - 1 && psquare == Square(p) && qsquare == Square(q)
    {
      n := a * b;
      nsquare := n * n;
      g := n + 1;
      enableCrt := true;
      p := if b < a then b else a;
      q := if b < a then a else b;
      pminusone := p - 1;
      qminusone := q - 1;
      psquare := p * p;
      qsquare := q * q;
    }

    /** The second half: inverses and lambda. */
    method LoadInverses(leftover: int)
      requires Odd(p) && Odd(q) && Odd(n) && pminusone == p - 1 && qminusone == q - 1
      requires psquare == Square(p) && qsquare == Square(q) && nsquare == Square(n)
      modifies `pinverse, `hp, `hq, `lambda, `x, `isInitialized
      ensures pinverse == InverseMul(q, p, leftover) && lambda == Lcm(p - 1, q - 1)
      ensures hp == Hfun(g, p, leftover) && hq == Hfun(g, q, leftover)
      ensures x == InverseMul(n, TruncDiv(ModPow(g, lambda, nsquare) - 1, n), leftover) && isInitialized
    {
      hide Hfun, InverseMul, Lcm, ModPow, TruncDiv;
      pinverse := InverseMul(q, p, leftover);
      hp := ComputeHfun(g, p, psquare, leftover);
      hq := ComputeHfun(g, q, qsquare, leftover);
      lambda := Lcm(pminusone, qminusone);
      OddSquare(n);
      var glambda := IppSbModExp(g, lambda, nsquare);
      x := InverseMul(n, TruncDiv(glambda - 1, n), leftover);
      isInitialized := true;
    }

    /** Deserialisation rebuilds every field from the two factors. */
    method Load(a: int, b: int, leftover: int)
      requires Odd(a) && Odd(b)
      modifies this
      ensures 2 <= a * b && View() == MakePrivKey(a * b, a, b, leftover) && enableCrt && isInitialized
    {
      OddTimesOdd(a, b);
      LoadFactors(a, b);
      hide Hfun, InverseMul, Lcm, ModPow, TruncDiv;
      LoadInverses(leftover);
    }

    method DecryptRaw(plaintext: array<int>, ciphertext: seq<int>)
      requires Odd(n) && nsquare == Square(n) && |ciphertext| == plaintext.Length
      modifies plaintext
      ensures forall i :: 0 <= i < |ciphertext| ==> plaintext[i] == RawLane(View(), ciphertext[i])
    {
      OddSquare(n);
      var size := plaintext.Length;
      var powLambda := Repeat<nat>(lambda, size);
      var modulo := Repeat(nsquare, size);
      var res := IppModExp(ciphertext, powLambda, modulo, true);
      var i := 0;
      while i < size
        invariant 0 <= i <= size
        invariant forall j :: 0 <= j < i ==> plaintext[j] == RawLane(View(), ciphertext[j])
      {
        var m := TruncDiv(res[i] - 1, n) * x;
        plaintext[i] := m % n;
        i := i + 1;
      }
    }

    method DecryptCrt(plaintext: array<int>, ciphertext: seq<int>)
      requires Odd(p) && Odd(q) && psquare == Square(p) && qsquare == Square(q)
      requires pminusone == p - 1 && qminusone == q - 1 && |ciphertext| == plaintext.Length
      modifies plaintext
      ensures CrtReady(View())
      ensures forall i :: 0 <= i < |ciphertext| ==> plaintext[i] == CrtLane(View(), ciphertext[i])
    {
      OddSquare(p);
      OddSquare(q);
      var size := plaintext.Length;
      var basep, baseq := new int[size], new int[size];
      var i := 0;
      while i < size
        invariant 0 <= i <= size
        invariant forall j :: 0 <= j < i ==> basep[j] == ciphertext[j] % psquare && baseq[j] == ciphertext[j] % qsquare
      {
        basep[i] := ciphertext[i] % psquare;
        baseq[i] := ciphertext[i] % qsquare;
        i := i + 1;
      }
      var resp := IppModExp(basep[..], Repeat<nat>(pminusone, size), Repeat(psquare, size), true);
      var resq := IppModExp(baseq[..], Repeat<nat>(qminusone, size), Repeat(qsquare, size), true);
      i := 0;
      while i < size
        invariant 0 <= i <= size
        invariant forall j :: 0 <= j < i ==> plaintext[j] == CrtLane(View(), ciphertext[j])
      {
        var dp := Lfun(resp[i], p) * hp % p;
        var dq := Lfun(resq[i], q) * hq % q;
        plaintext[i] := ComputeCrt(View(), dp, dq);
        i := i + 1;
      }
    }

    method Decrypt(ciphertext: seq<int>, publicN: int, ghost leftover: int) returns (r: Result<seq<int>>)
      requires isInitialized ==> Odd(p) && Odd(q) && DerivedKey(View(), leftover)
      ensures r.Ok? <==> isInitialized && publicN == n && |ciphertext| > 0
      ensures r.Ok? ==> |r.value| == |ciphertext| && CrtReady(View()) && 2 <= n && 0 < nsquare
      ensures r.Ok? ==> forall i :: 0 <= i < |ciphertext| ==>
        r.value[i] == if enableCrt then CrtLane(View(), ciphertext[i]) else RawLane(View(), ciphertext[i])
    {
      if !isInitialized {
        return Error("decrypt: Private key is NOT initialized.");
      }
      if publicN != n {
        return Error("decrypt: The value of N in public key mismatch.");
      }
      if |ciphertext| == 0 {
        return Error("decrypt: Cannot decrypt empty CipherText");
      }
      var pt := new int[|ciphertext|];
      OddProduct(View(), leftover);
      if enableCrt {
        DecryptCrt(pt, ciphertext);
      } else {
        DecryptRaw(pt, ciphertext);
      }
      return Ok(pt[..]);
    }
  }

  /** What the constructors and load leave, whether or not the factors are prime. */
  ghost predicate DerivedKey(k: PrivKey, leftover: int) {
    && 2 <= k.p && 2 <= k.q && 2 <= k.n && k.n == k.p * k.q
    && k == MakePrivKey(k.n, k.p, k.q, leftover)
  }

  lemma OddProduct(k: PrivKey, leftover: int)
    requires DerivedKey(k, leftover) && Odd(k.p) && Odd(k.q)
    ensures Odd(k.n)
    ensures k.psquare == Square(k.p) && k.qsquare == Square(k.q) && k.nsquare == Square(k.n)
    ensures k.pminusone == k.p - 1 && k.qminusone == k.q - 1
  {
    hide Hfun, InverseMul, Lcm, FullLog;
    OddTimesOdd(k.p, k.q);
  }

  lemma EvenFactor(n: int, a: int, b: int)
    requires a % 2 == 0 || b % 2 == 0 || n % 2 == 0
    ensures !(a % 2 == b % 2 == 1 && a * b == n)
  {
    if a % 2 == 1 && b % 2 == 1 {
      var i, j := a / 2, b / 2;
      assert (2 * i + 1) * (2 * j + 1) == 2 * (2 * (i * j) + i + j) + 1;
    }
  }

  lemma OddTimesOdd(p: int, q: int)
    requires Odd(p) && Odd(q)
    ensures Odd(p * q)
  {
    var j := q / 2;
    assert p * (2 * j + 1) == 2 * (p * j) + p;
    DivModUnique(p * q, p * j + p / 2, 1, 2);
    MulMonotone(p, 1, q);
  }

  /**
   Saving keeps only the factors; loading them gives every derived field back. The CRT
   switch is not saved: load turns it on.
   */
  lemma SaveLoad(n: int, a: int, b: int, leftover: int)
    requires 3 <= n && 3 <= a && 3 <= b && a * b == n
    ensures var k := MakePrivKey(n, a, b, leftover);
            2 <= k.p * k.q && MakePrivKey(k.p * k.q, k.p, k.q, leftover) == k
  {
    assert a * b == b * a;
  }

  // ---- the round trip -------------------------------------------------------------

  ghost predicate Matches(pk: PubKey, k: PrivKey) {
    pk.n == k.n && pk.nsquare == k.nsquare
  }

  /** The obfuscator of this random number is the n-th power of a unit. */
  ghost predicate GoodDraw(pk: PubKey, rand: nat) {
    && 2 <= pk.n && 0 < pk.nsquare
    && if pk.djn then exists h :: Coprime(h, pk.n) && pk.hs == ModPow(h, pk.n, pk.nsquare)
       else Coprime(rand % (pk.n - 1) + 1, pk.n)
  }

  lemma GoodObfuscator(pk: PubKey, k: PrivKey, leftover: int, rand: nat) returns (u: int)
    requires ValidKey(k, leftover) && Matches(pk, k) && GoodDraw(pk, rand)
    ensures 0 < k.nsquare && Unit(k, u) && ObfuscatorOf(pk, rand) == ModPow(u, k.n, k.nsquare)
  {
    KeyFacts(k, leftover);
    if pk.djn {
      var h :| Coprime(h, pk.n) && pk.hs == ModPow(h, pk.n, pk.nsquare);
      DjnObfuscatorIsNthPower(k, leftover, h, rand);
      u := ModPow(h, rand, k.nsquare);
    } else {
      u := rand % (pk.n - 1) + 1;
    }
  }

  /** Obfuscating a unit ciphertext, once more or for the first time, keeps its decryption. */
  lemma ObfuscateKeepsDecryption(pk: PubKey, k: PrivKey, leftover: int, c: int, rand: nat)
    requires ValidKey(k, leftover) && Matches(pk, k) && GoodDraw(pk, rand) && Unit(k, c)
    ensures CrtReady(k) && 0 < k.nsquare && Unit(k, c * ObfuscatorOf(pk, rand) % k.nsquare)
    ensures CrtLane(k, c * ObfuscatorOf(pk, rand) % k.nsquare) == CrtLane(k, c)
  {
    var u := GoodObfuscator(pk, k, leftover, rand);
    ObfuscatorInvisible(k, leftover, c, u);
  }

  /** c after obfuscations with each of the random numbers in turn. */
  function Obfuscated(pk: PubKey, c: int, draws: seq<nat>): int
    requires 2 <= pk.n && 0 < pk.nsquare
  {
    if draws == [] then c
    else Obfuscated(pk, c, draws[..|draws| - 1]) * ObfuscatorOf(pk, draws[|draws| - 1]) % pk.nsquare
  }

  /** Any number of obfuscations leaves the decryption unchanged. */
  lemma {:induction false} ObfuscatedKeepsDecryption(pk: PubKey, k: PrivKey, leftover: int, c: int, draws: seq<nat>)
    requires ValidKey(k, leftover) && Matches(pk, k) && Unit(k, c)
    requires 2 <= pk.n && 0 < pk.nsquare && forall i :: 0 <= i < |draws| ==> GoodDraw(pk, draws[i])
    ensures CrtReady(k) && Unit(k, Obfuscated(pk, c, draws))
    ensures CrtLane(k, Obfuscated(pk, c, draws)) == CrtLane(k, c)
  {
    KeyFacts(k, leftover);
    if draws != [] {
      var rest := draws[..|draws| - 1];
      ObfuscatedKeepsDecryption(pk, k, leftover, c, rest);
      ObfuscateKeepsDecryption(pk, k, leftover, Obfuscated(pk, c, rest), draws[|draws| - 1]);
    }
  }

  /** What either route of decrypt makes of one encrypted lane. */
  lemma EncryptDecrypt(pk: PubKey, k: PrivKey, leftover: int, m: int, secure: bool, rand: nat)
    requires ValidKey(k, leftover) && Matches(pk, k) && (secure ==> GoodDraw(pk, rand))
    ensures 2 <= pk.n && CrtReady(k) && 0 < k.nsquare && Unit(k, EncryptLane(pk, m, secure, rand))
    ensures CrtLane(k, EncryptLane(pk, m, secure, rand)) == m % k.n
    ensures Coprime(k.lambda, k.n) ==> RawLane(k, EncryptLane(pk, m, secure, rand)) == m % k.n
  {
    KeyFacts(k, leftover);
    DecryptPlain(k, leftover, m);
    if secure {
      ObfuscateKeepsDecryption(pk, k, leftover, PlainLane(pk, m), rand);
    }
    if Coprime(k.lambda, k.n) {
      RawEqualsCrt(k, leftover, EncryptLane(pk, m, secure, rand));
    }
  }

  // ---- when the default draw is a unit ------------------------------------------------

  /** The default mode decrypts every message exactly when the draw gives a unit, which is one gcd. */
  lemma NormalCorrectExactly(pk: PubKey, k: PrivKey, leftover: int, rand: nat)
    requires ValidKey(k, leftover) && Matches(pk, k) && !pk.djn
    ensures CrtReady(k) && 2 <= pk.n && 0 < pk.nsquare
    ensures (forall m :: CrtLane(k, EncryptLane(pk, m, true, rand)) == m % k.n) <==> GoodDraw(pk, rand)
  {
    KeyFacts(k, leftover);
    if GoodDraw(pk, rand) {
      forall m ensures CrtLane(k, EncryptLane(pk, m, true, rand)) == m % k.n {
        EncryptDecrypt(pk, k, leftover, m, true, rand);
      }
    } else {
      NormalFailsOnOne(pk, k, leftover, rand);
    }
  }

  lemma NormalFailsOnOne(pk: PubKey, k: PrivKey, leftover: int, rand: nat)
    requires ValidKey(k, leftover) && Matches(pk, k) && !pk.djn
    requires 2 <= pk.n && 0 < pk.nsquare && !GoodDraw(pk, rand)
    ensures CrtReady(k) && CrtLane(k, EncryptLane(pk, 1, true, rand)) != 1 % k.n
  {
    var r := rand % (pk.n - 1) + 1;
    KeyFacts(k, leftover);
    DecryptAnyR(k, leftover, 1, r);
    UnitHalves(k, leftover, r);
    PrimeUnit(r, k.p);
    PrimeUnit(r, k.q);
    DivModUnique(1, 0, 1, k.p);
    DivModUnique(1, 0, 1, k.q);
  }

  /** Every key has such a draw: p - 1 gives r = p, and the message 1 is lost. */
  lemma DrawOfFactorFails(pk: PubKey, k: PrivKey, leftover: int)
    requires ValidKey(k, leftover) && Matches(pk, k) && !pk.djn
    ensures CrtReady(k) && 2 <= pk.n && 0 < pk.nsquare && 2 <= k.p
    ensures CrtLane(k, EncryptLane(pk, 1, true, k.p - 1)) != 1 % k.n
  {
    KeyFacts(k, leftover);
    MulMonotone(k.p, 2, k.q);
    DivModUnique(k.p - 1, 0, k.p - 1, pk.n - 1);
    UnitHalves(k, leftover, k.p);
    PrimeUnit(k.p, k.p);
    DivModUnique(k.p, 1, 0, k.p);
    NormalFailsOnOne(pk, k, leftover, k.p - 1);
  }

  // ---- when enableDJN's base is a unit ----------------------------------------------

  /** The base is a unit exactly when the factor that stands in for -1 is one. */
  lemma DjnBaseUnit(rand: nat, n: int)
    requires 0 < n && Coprime(rand, n)
    ensures Coprime(DjnBase(rand, n), n) <==> Coprime(NEGATION_FACTOR, n)
  {
    var rmod := rand % n;
    CongMod(rand, n);
    CoprimeCong(rmod, rand, n);
    CoprimeMul(rmod, rmod, n);
    CoprimeMul(rmod * rmod, NEGATION_FACTOR, n);
    CongMod(rmod * rmod * NEGATION_FACTOR, n);
    CoprimeCong(DjnBase(rand, n), rmod * rmod * NEGATION_FACTOR, n);
  }

  /**
   A key with the DJN variant encrypts every message correctly, with any non-zero
   exponent, exactly when n has no factor in common with 4294967295.
   */
  lemma DjnCorrectExactly(pk: PubKey, k: PrivKey, leftover: int, source: nat, rand: nat)
    requires ValidKey(k, leftover) && Matches(pk, k) && pk.djn && 0 < rand
    requires Coprime(source, pk.n) && 0 < pk.n && 0 < pk.nsquare
    requires pk.hs == ModPow(DjnBase(source, pk.n), pk.n, pk.nsquare)
    ensures CrtReady(k) && 2 <= pk.n
    ensures (forall m :: CrtLane(k, EncryptLane(pk, m, true, rand)) == m % k.n)
       <==> Coprime(NEGATION_FACTOR, k.n)
  {
    KeyFacts(k, leftover);
    var h := DjnBase(source, pk.n);
    DjnBaseUnit(source, pk.n);
    if Coprime(NEGATION_FACTOR, k.n) {
      forall m ensures CrtLane(k, EncryptLane(pk, m, true, rand)) == m % k.n {
        EncryptDecrypt(pk, k, leftover, m, true, rand);
      }
    } else {
      DjnFailsOnOne(pk, k, leftover, h, rand);
    }
  }

  /** With a base that is no unit, the message 1 does not come back. */
  lemma DjnFailsOnOne(pk: PubKey, k: PrivKey, leftover: int, h: int, rand: nat)
    requires ValidKey(k, leftover) && Matches(pk, k) && pk.djn && 0 < rand
    requires 2 <= pk.n && 0 < pk.nsquare && !Coprime(h, pk.n) && pk.hs == ModPow(h, pk.n, pk.nsquare)
    ensures CrtReady(k) && CrtLane(k, EncryptLane(pk, 1, true, rand)) != 1 % k.n
  {
    KeyFacts(k, leftover);
    var u := Pow(h, rand);
    ObfuscatorAsPower(k, h, rand);
    DecryptAnyR(k, leftover, 1, u);
    UnitHalves(k, leftover, h);
    PrimeUnit(h, k.p);
    PrimeUnit(h, k.q);
    EuclidLemma(h, Pow(h, rand - 1), k.p);
    EuclidLemma(h, Pow(h, rand - 1), k.q);
    DivModUnique(1, 0, 1, k.p);
    DivModUnique(1, 0, 1, k.q);
  }

  /** Such keys exist: for n = 15 the accepted draw 1 gives a base that loses the message 1. */
  lemma DjnFailsForFifteen(bits: nat, leftover: int, rand: nat)
    requires 0 < rand
    ensures FirstUnit([1], 15) == Drawn(1)
    ensures var pk := PubKey(15, 225, 16, bits, true, ModPow(DjnBase(1, 15), 15, 225), bits / 2);
      var k := MakePrivKey(15, 3, 5, leftover);
      ValidPub(pk) && ValidKey(k, leftover) && Matches(pk, k) && CrtReady(k)
      && CrtLane(k, EncryptLane(pk, 1, true, rand)) != 1 % k.n
  {
    var pk := PubKey(15, 225, 16, bits, true, ModPow(DjnBase(1, 15), 15, 225), bits / 2);
    var k := MakePrivKey(15, 3, 5, leftover);
    SmallPrimes();
    AnyPrimesMakeKey(3, 5, leftover);
    FifteenBase();
    DjnFailsOnOne(pk, k, leftover, DjnBase(1, 15), rand);
  }

  lemma FifteenBase()
    ensures Coprime(1, 15) && FirstUnit([1], 15) == Drawn(1) && !Coprime(DjnBase(1, 15), 15)
  {
    assert Gcd(15, 1) == Gcd(1, 0) == 1;
    assert DjnBase(1, 15) == 0;
    assert Gcd(15, 0) == 15;
  }

  lemma ObfuscatorAsPower(k: PrivKey, h: int, rand: nat)
    requires 2 <= k.n && 0 < k.nsquare
    ensures ModPow(ModPow(h, k.n, k.nsquare), rand, k.nsquare) == ModPow(Pow(h, rand), k.n, k.nsquare)
  {
    CongPow(ModPow(h, k.n, k.nsquare), Pow(h, k.n), rand, k.nsquare);
    PowPow(h, k.n, rand);
    PowPow(h, rand, k.n);
    assert k.n * rand == rand * k.n;
  }
}
