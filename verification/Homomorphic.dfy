/**
 Ciphertext vectors: addition, addition of plaintexts, multiplication by
 plaintexts, and the theorem that every expression over them decrypts to the
 value of the same expression on plaintexts.
 */
module Homomorphic {
  import opened Keys
  import opened ModExp
  import opened NumberTheory
  import opened Paillier
  import opened Wrappers

  datatype CipherText = CipherText(pk: PubKey, texts: seq<int>)

  /** The second operand may be as long as the first, or a single value for every lane. */
  predicate Shapes(first: nat, second: nat) {
    first == second || second == 1
  }

  function Lane<T>(v: seq<T>, i: nat): T
    requires |v| == 1 || i < |v|
  {
    if |v| == 1 then v[0] else v[i]
  }

  function AddLane(pk: PubKey, a: int, b: int): int
    requires 0 < pk.nsquare
  {
    a * b % pk.nsquare
  }

  /** CT + CT as a function. */
  function AddSpec(a: CipherText, b: CipherText): Result<CipherText>
    requires 0 < a.pk.nsquare
  {
    if !Shapes(|a.texts|, |b.texts|) then Error("CT + CT error: Size mismatch!")
    else if a.pk.n != b.pk.n then Error("CT + CT error: 2 different public keys detected!")
    else Ok(CipherText(a.pk, seq(|a.texts|, i requires 0 <= i < |a.texts| =>
              AddLane(a.pk, a.texts[i], Lane(b.texts, i)))))
  }

  function EncodeSpec(pk: PubKey, pt: seq<int>): Result<CipherText>
    requires 0 < pk.nsquare
  {
    if |pt| == 0 then Error("encrypt: Cannot encrypt empty PlainText")
    else Ok(CipherText(pk, seq(|pt|, i requires 0 <= i < |pt| => PlainLane(pk, pt[i]))))
  }

  /** CT + PT: encrypt the plaintext without an obfuscator, then add. */
  function AddPlainSpec(a: CipherText, pt: seq<int>): Result<CipherText>
    requires 0 < a.pk.nsquare
  {
    var b := EncodeSpec(a.pk, pt);
    if b.Error? then b else AddSpec(a, b.value)
  }

  /** CT * PT: each lane raised to its scalar. */
  function MulSpec(a: CipherText, pt: seq<nat>): Result<CipherText>
    requires 0 < a.pk.nsquare
  {
    if !Shapes(|a.texts|, |pt|) then Error("CT * PT error: Size mismatch!")
    else Ok(CipherText(a.pk, seq(|a.texts|, i requires 0 <= i < |a.texts| =>
              ModPow(a.texts[i], Lane(pt, i), a.pk.nsquare))))
  }

  /** CT + CT. */
  method Add(a: CipherText, b: CipherText) returns (r: Result<CipherText>)
    requires ValidPub(a.pk)
    ensures r == AddSpec(a, b)
    ensures r.Ok? <==> (|a.texts| == |b.texts| || |b.texts| == 1) && a.pk.n == b.pk.n
    ensures r.Ok? ==> r.value.pk == a.pk && |r.value.texts| == |a.texts| && 0 < a.pk.nsquare
    ensures r.Ok? && |a.texts| == |b.texts| ==>
      forall i :: 0 <= i < |a.texts| ==> r.value.texts[i] == a.texts[i] * b.texts[i] % a.pk.nsquare
    ensures r.Ok? && |b.texts| == 1 ==>
      forall i :: 0 <= i < |a.texts| ==> r.value.texts[i] == a.texts[i] * b.texts[0] % a.pk.nsquare
  {
    var size := |a.texts|;
    if !(size == |b.texts| || |b.texts| == 1) {
      return Error("CT + CT error: Size mismatch!");
    }
    if a.pk.n != b.pk.n {
      return Error("CT + CT error: 2 different public keys detected!");
    }
    if size == 1 {
      r := Ok(CipherText(a.pk, [a.texts[0] * b.texts[0] % a.pk.nsquare]));
      assert r.value.texts == AddSpec(a, b).value.texts;
      return;
    }
    var sum := new int[size];
    var i := 0;
    if |b.texts| == 1 {
      while i < size
        invariant 0 <= i <= size
        invariant forall j :: 0 <= j < i ==> sum[j] == AddLane(a.pk, a.texts[j], b.texts[0])
      {
        sum[i] := a.texts[i] * b.texts[0] % a.pk.nsquare;
        i := i + 1;
      }
    } else {
      while i < size
        invariant 0 <= i <= size
        invariant forall j :: 0 <= j < i ==> sum[j] == AddLane(a.pk, a.texts[j], b.texts[j])
      {
        sum[i] := a.texts[i] * b.texts[i] % a.pk.nsquare;
        i := i + 1;
      }
    }
    assert sum[..] == AddSpec(a, b).value.texts;
    return Ok(CipherText(a.pk, sum[..]));
  }

  /** CT * PT. */
  method Mul(a: CipherText, pt: seq<nat>) returns (r: Result<CipherText>)
    requires ValidPub(a.pk)
    ensures r == MulSpec(a, pt)
    ensures r.Ok? <==> |a.texts| == |pt| || |pt| == 1
    ensures r.Ok? ==> r.value.pk == a.pk && |r.value.texts| == |a.texts| && 0 < a.pk.nsquare
    ensures r.Ok? ==> forall i :: 0 <= i < |a.texts| ==> 0 <= r.value.texts[i] < a.pk.nsquare
    ensures r.Ok? && |a.texts| == |pt| ==>
      forall i :: 0 <= i < |a.texts| ==> Cong(r.value.texts[i], Pow(a.texts[i], pt[i]), a.pk.nsquare)
    ensures r.Ok? && |pt| == 1 ==>
      forall i :: 0 <= i < |a.texts| ==> Cong(r.value.texts[i], Pow(a.texts[i], pt[0]), a.pk.nsquare)
  {
    var size := |a.texts|;
    if !(size == |pt| || |pt| == 1) {
      return Error("CT * PT error: Size mismatch!");
    }
    OddSquare(a.pk.n);
    if size == 1 {
      var product := IppSbModExp(a.texts[0], pt[0], a.pk.nsquare);
      r := Ok(CipherText(a.pk, [product]));
      assert r.value.texts == MulSpec(a, pt).value.texts;
      return;
    }
    var scalars := pt;
    if |pt| == 1 {
      scalars := Repeat(pt[0], size);
    }
    var product := IppModExp(a.texts, scalars, Repeat(a.pk.nsquare, size), true);
    assert product == MulSpec(a, pt).value.texts;
    return Ok(CipherText(a.pk, product));
  }

  // ---- expressions ----------------------------------------------------------------

  /** A computation on encrypted vectors; draws give each lane's random number. */
  datatype Expr =
    | Encrypted(values: seq<int>, draws: nat -> nat)
    | Sum(left: Expr, right: Expr)
    | PlusPlain(arg: Expr, plain: seq<int>)
    | TimesPlain(arg: Expr, scalars: seq<nat>)
    | Obfuscate(arg: Expr, draws: nat -> nat)

  /** Lane-wise sums; a single second value goes to every lane. */
  function Sums(a: seq<int>, b: seq<int>): (r: seq<int>)
    requires |b| == |a| || |b| == 1
    ensures |r| == |a|
    ensures |b| == |a| ==> forall i :: 0 <= i < |a| ==> r[i] == a[i] + b[i]
    ensures |b| == 1 ==> forall i :: 0 <= i < |a| ==> r[i] == a[i] + b[0]
  {
    seq(|a|, i requires 0 <= i < |a| => a[i] + if |b| == 1 then b[0] else b[i])
  }

  function Products(a: seq<int>, b: seq<nat>): (r: seq<int>)
    requires |b| == |a| || |b| == 1
    ensures |r| == |a|
    ensures |b| == |a| ==> forall i :: 0 <= i < |a| ==> r[i] == a[i] * b[i]
    ensures |b| == 1 ==> forall i :: 0 <= i < |a| ==> r[i] == a[i] * b[0]
  {
    seq(|a|, i requires 0 <= i < |a| => a[i] * if |b| == 1 then b[0] else b[i])
  }

  /** The same computation on plaintext vectors of integers. */
  function PlainEval(e: Expr): Result<seq<int>> {
    match e
    case Encrypted(values, _) =>
      if |values| == 0 then Error("encrypt: Cannot encrypt empty PlainText") else Ok(values)
    case Sum(l, r) =>
      var a, b := PlainEval(l), PlainEval(r);
      if a.Error? then a else if b.Error? then b
      else if |a.value| != |b.value| && |b.value| != 1 then Error("CT + CT error: Size mismatch!")
      else Ok(Sums(a.value, b.value))
    case PlusPlain(arg, plain) =>
      var a := PlainEval(arg);
      if a.Error? then a
      else if |plain| == 0 then Error("encrypt: Cannot encrypt empty PlainText")
      else if |a.value| != |plain| && |plain| != 1 then Error("CT + CT error: Size mismatch!")
      else Ok(Sums(a.value, plain))
    case TimesPlain(arg, scalars) =>
      var a := PlainEval(arg);
      if a.Error? then a
      else if |a.value| != |scalars| && |scalars| != 1 then Error("CT * PT error: Size mismatch!")
      else Ok(Products(a.value, scalars))
    case Obfuscate(arg, _) =>
      PlainEval(arg)
  }

  /** Every lane times the obfuscator of its own random number. */
  function ObfuscateSpec(pk: PubKey, cs: seq<int>, draws: nat -> nat): seq<int>
    requires 2 <= pk.n && 0 < pk.nsquare
  {
    seq(|cs|, i requires 0 <= i < |cs| => cs[i] * ObfuscatorOf(pk, draws(i)) % pk.nsquare)
  }

  function CipherEval(pk: PubKey, e: Expr): (r: Result<CipherText>)
    requires 2 <= pk.n && 0 < pk.nsquare
    ensures r.Ok? ==> r.value.pk == pk
  {
    match e
    case Encrypted(values, draws) =>
      if |values| == 0 then Error("encrypt: Cannot encrypt empty PlainText")
      else Ok(CipherText(pk, seq(|values|, i requires 0 <= i < |values| =>
                EncryptLane(pk, values[i], true, draws(i)))))
    case Sum(l, r) =>
      var a, b := CipherEval(pk, l), CipherEval(pk, r);
      if a.Error? then a else if b.Error? then b else AddSpec(a.value, b.value)
    case PlusPlain(arg, plain) =>
      var a := CipherEval(pk, arg);
      if a.Error? then a else AddPlainSpec(a.value, plain)
    case TimesPlain(arg, scalars) =>
      var a := CipherEval(pk, arg);
      if a.Error? then a else MulSpec(a.value, scalars)
    case Obfuscate(arg, draws) =>
      var a := CipherEval(pk, arg);
      if a.Error? then a
      else Ok(CipherText(pk, ObfuscateSpec(pk, a.value.texts, draws)))
  }

  ghost predicate GoodDraws(pk: PubKey, e: Expr) {
    match e
    case Encrypted(_, draws) => forall i: nat :: GoodDraw(pk, draws(i))
    case Sum(l, r) => GoodDraws(pk, l) && GoodDraws(pk, r)
    case PlusPlain(arg, _) => GoodDraws(pk, arg)
    case TimesPlain(arg, _) => GoodDraws(pk, arg)
    case Obfuscate(arg, draws) => GoodDraws(pk, arg) && forall i: nat :: GoodDraw(pk, draws(i))
  }

  /** One lane decrypts to m. */
  ghost predicate LaneDecrypts(k: PrivKey, c: int, m: int) {
    0 < k.n && CrtReady(k) && Unit(k, c) && CrtLane(k, c) == m % k.n
  }

  ghost predicate Decrypts(k: PrivKey, cs: seq<int>, ms: seq<int>) {
    |cs| == |ms| && forall i :: 0 <= i < |cs| ==> LaneDecrypts(k, cs[i], ms[i])
  }

  lemma AddLaneDecrypts(k: PrivKey, leftover: int, c: int, m: int, d: int, j: int)
    requires ValidKey(k, leftover) && LaneDecrypts(k, c, m) && LaneDecrypts(k, d, j)
    ensures 0 < k.nsquare && LaneDecrypts(k, c * d % k.nsquare, m + j)
  {
    KeyFacts(k, leftover);
    DecryptMul(k, leftover, c, d);
    CongMod(m, k.n);
    CongMod(j, k.n);
    CongAdd(m % k.n, m, j % k.n, j, k.n);
  }

  lemma MulLaneDecrypts(k: PrivKey, leftover: int, c: int, m: int, e: nat)
    requires ValidKey(k, leftover) && LaneDecrypts(k, c, m)
    ensures 0 < k.nsquare && LaneDecrypts(k, ModPow(c, e, k.nsquare), m * e)
  {
    DecryptPow(k, leftover, c, e);
    CongMod(m, k.n);
    CongMul(m % k.n, m, e, e, k.n);
  }

  /** CT + CT, lane by lane: with equal sizes, or with one value for every lane. */
  lemma AddDecrypts(k: PrivKey, leftover: int, a: CipherText, ms: seq<int>, b: CipherText, js: seq<int>)
    requires ValidKey(k, leftover) && Matches(a.pk, k) && b.pk == a.pk && 0 < a.pk.nsquare
    requires Decrypts(k, a.texts, ms) && Decrypts(k, b.texts, js)
    ensures AddSpec(a, b).Ok? <==> |ms| == |js| || |js| == 1
    ensures AddSpec(a, b).Ok? ==> |AddSpec(a, b).value.texts| == |ms|
    ensures AddSpec(a, b).Ok? && |ms| == |js| ==>
      forall i :: 0 <= i < |ms| ==> LaneDecrypts(k, AddSpec(a, b).value.texts[i], ms[i] + js[i])
    ensures AddSpec(a, b).Ok? && |js| == 1 ==>
      forall i :: 0 <= i < |ms| ==> LaneDecrypts(k, AddSpec(a, b).value.texts[i], ms[i] + js[0])
  {
    if |ms| == |js| || |js| == 1 {
      forall i | 0 <= i < |ms|
        ensures LaneDecrypts(k, AddSpec(a, b).value.texts[i], ms[i] + if |js| == 1 then js[0] else js[i])
      {
        var j := if |js| == 1 then 0 else i;
        AddLaneDecrypts(k, leftover, a.texts[i], ms[i], b.texts[j], js[j]);
      }
    }
  }

  lemma EncodeDecrypts(k: PrivKey, leftover: int, pk: PubKey, ms: seq<int>)
    requires ValidKey(k, leftover) && Matches(pk, k) && 0 < pk.nsquare && |ms| > 0
    ensures Decrypts(k, EncodeSpec(pk, ms).value.texts, ms)
  {
    forall i | 0 <= i < |ms| ensures LaneDecrypts(k, PlainLane(pk, ms[i]), ms[i]) {
      DecryptPlain(k, leftover, ms[i]);
    }
  }

  lemma EncryptedDecrypts(k: PrivKey, leftover: int, pk: PubKey, ms: seq<int>, draws: nat -> nat)
    requires ValidKey(k, leftover) && Matches(pk, k) && 2 <= pk.n && 0 < pk.nsquare && |ms| > 0
    requires forall i: nat :: GoodDraw(pk, draws(i))
    ensures Decrypts(k, CipherEval(pk, Encrypted(ms, draws)).value.texts, ms)
  {
    forall i | 0 <= i < |ms| ensures LaneDecrypts(k, EncryptLane(pk, ms[i], true, draws(i)), ms[i]) {
      EncryptDecrypt(pk, k, leftover, ms[i], true, draws(i));
    }
  }

  /** CT * PT, lane by lane: with equal sizes, or with one scalar for every lane. */
  lemma MulDecrypts(k: PrivKey, leftover: int, a: CipherText, ms: seq<int>, es: seq<nat>)
    requires ValidKey(k, leftover) && Matches(a.pk, k) && 0 < a.pk.nsquare && Decrypts(k, a.texts, ms)
    ensures MulSpec(a, es).Ok? <==> |ms| == |es| || |es| == 1
    ensures MulSpec(a, es).Ok? ==> |MulSpec(a, es).value.texts| == |ms|
    ensures MulSpec(a, es).Ok? && |ms| == |es| ==>
      forall i :: 0 <= i < |ms| ==> LaneDecrypts(k, MulSpec(a, es).value.texts[i], ms[i] * es[i])
    ensures MulSpec(a, es).Ok? && |es| == 1 ==>
      forall i :: 0 <= i < |ms| ==> LaneDecrypts(k, MulSpec(a, es).value.texts[i], ms[i] * es[0])
  {
    if |ms| == |es| || |es| == 1 {
      forall i | 0 <= i < |ms|
        ensures LaneDecrypts(k, MulSpec(a, es).value.texts[i], ms[i] * if |es| == 1 then es[0] else es[i])
      {
        MulLaneDecrypts(k, leftover, a.texts[i], ms[i], es[if |es| == 1 then 0 else i]);
      }
    }
  }

  lemma ObfuscateDecrypts(k: PrivKey, leftover: int, pk: PubKey, cs: seq<int>, ms: seq<int>, draws: nat -> nat)
    requires ValidKey(k, leftover) && Matches(pk, k) && 2 <= pk.n && 0 < pk.nsquare && Decrypts(k, cs, ms)
    requires forall i: nat :: GoodDraw(pk, draws(i))
    ensures Decrypts(k, ObfuscateSpec(pk, cs, draws), ms)
  {
    forall i | 0 <= i < |cs|
      ensures LaneDecrypts(k, cs[i] * ObfuscatorOf(pk, draws(i)) % pk.nsquare, ms[i])
    {
      ObfuscateKeepsDecryption(pk, k, leftover, cs[i], draws(i));
    }
  }

  // ---- what an expression decrypts to, operator by operator ---------------------------

  /** A sum of expressions decrypts to the sums of what they decrypt to. */
  lemma SumDecrypts(k: PrivKey, leftover: int, pk: PubKey, l: Expr, r: Expr, ms: seq<int>, js: seq<int>)
    requires ValidKey(k, leftover) && Matches(pk, k) && 2 <= pk.n && 0 < pk.nsquare
    requires CipherEval(pk, l).Ok? && Decrypts(k, CipherEval(pk, l).value.texts, ms)
    requires CipherEval(pk, r).Ok? && Decrypts(k, CipherEval(pk, r).value.texts, js)
    ensures var c := CipherEval(pk, Sum(l, r));
      (c.Ok? <==> |ms| == |js| || |js| == 1) && (c.Ok? ==> |c.value.texts| == |ms|)
      && (c.Ok? && |ms| == |js| ==> forall i :: 0 <= i < |ms| ==> LaneDecrypts(k, c.value.texts[i], ms[i] + js[i]))
      && (c.Ok? && |js| == 1 ==> forall i :: 0 <= i < |ms| ==> LaneDecrypts(k, c.value.texts[i], ms[i] + js[0]))
  {
    AddDecrypts(k, leftover, CipherEval(pk, l).value, ms, CipherEval(pk, r).value, js);
  }

  /** Adding a plaintext vector adds its lanes. */
  lemma PlusPlainDecrypts(k: PrivKey, leftover: int, pk: PubKey, e: Expr, ms: seq<int>, plain: seq<int>)
    requires ValidKey(k, leftover) && Matches(pk, k) && 2 <= pk.n && 0 < pk.nsquare
    requires CipherEval(pk, e).Ok? && Decrypts(k, CipherEval(pk, e).value.texts, ms)
    ensures var c := CipherEval(pk, PlusPlain(e, plain));
      (c.Ok? <==> |plain| > 0 && (|ms| == |plain| || |plain| == 1)) && (c.Ok? ==> |c.value.texts| == |ms|)
      && (c.Ok? && |ms| == |plain| ==>
            forall i :: 0 <= i < |ms| ==> LaneDecrypts(k, c.value.texts[i], ms[i] + plain[i]))
      && (c.Ok? && |plain| == 1 ==>
            forall i :: 0 <= i < |ms| ==> LaneDecrypts(k, c.value.texts[i], ms[i] + plain[0]))
  {
    if |plain| > 0 {
      EncodeDecrypts(k, leftover, pk, plain);
      AddDecrypts(k, leftover, CipherEval(pk, e).value, ms, EncodeSpec(pk, plain).value, plain);
    }
  }

  /** Multiplying by a plaintext vector multiplies by its lanes. */
  lemma TimesPlainDecrypts(k: PrivKey, leftover: int, pk: PubKey, e: Expr, ms: seq<int>, scalars: seq<nat>)
    requires ValidKey(k, leftover) && Matches(pk, k) && 2 <= pk.n && 0 < pk.nsquare
    requires CipherEval(pk, e).Ok? && Decrypts(k, CipherEval(pk, e).value.texts, ms)
    ensures var c := CipherEval(pk, TimesPlain(e, scalars));
      (c.Ok? <==> |ms| == |scalars| || |scalars| == 1) && (c.Ok? ==> |c.value.texts| == |ms|)
      && (c.Ok? && |ms| == |scalars| ==>
            forall i :: 0 <= i < |ms| ==> LaneDecrypts(k, c.value.texts[i], ms[i] * scalars[i]))
      && (c.Ok? && |scalars| == 1 ==>
            forall i :: 0 <= i < |ms| ==> LaneDecrypts(k, c.value.texts[i], ms[i] * scalars[0]))
  {
    MulDecrypts(k, leftover, CipherEval(pk, e).value, ms, scalars);
  }

  lemma LanesOfSums(k: PrivKey, cs: seq<int>, ms: seq<int>, js: seq<int>)
    requires |cs| == |ms| && (|js| == |ms| || |js| == 1)
    requires |js| == |ms| ==> forall i :: 0 <= i < |ms| ==> LaneDecrypts(k, cs[i], ms[i] + js[i])
    requires |js| == 1 ==> forall i :: 0 <= i < |ms| ==> LaneDecrypts(k, cs[i], ms[i] + js[0])
    ensures Decrypts(k, cs, Sums(ms, js))
  {
    hide LaneDecrypts;
  }

  lemma LanesOfProducts(k: PrivKey, cs: seq<int>, ms: seq<int>, es: seq<nat>)
    requires |cs| == |ms| && (|es| == |ms| || |es| == 1)
    requires |es| == |ms| ==> forall i :: 0 <= i < |ms| ==> LaneDecrypts(k, cs[i], ms[i] * es[i])
    requires |es| == 1 ==> forall i :: 0 <= i < |ms| ==> LaneDecrypts(k, cs[i], ms[i] * es[0])
    ensures Decrypts(k, cs, Products(ms, es))
  {
    hide LaneDecrypts;
  }

  /** Both evaluations fail, or the first decrypts to the second. */
  ghost predicate Agree(k: PrivKey, pk: PubKey, e: Expr)
    requires 2 <= pk.n && 0 < pk.nsquare
  {
    && (CipherEval(pk, e).Ok? <==> PlainEval(e).Ok?)
    && (CipherEval(pk, e).Ok? ==> Decrypts(k, CipherEval(pk, e).value.texts, PlainEval(e).value))
  }

  lemma SumAgrees(k: PrivKey, leftover: int, pk: PubKey, l: Expr, r: Expr)
    requires ValidKey(k, leftover) && Matches(pk, k) && 2 <= pk.n && 0 < pk.nsquare
    requires PlainEval(l).Ok? && Agree(k, pk, l) && PlainEval(r).Ok? && Agree(k, pk, r)
    ensures Agree(k, pk, Sum(l, r))
  {
    hide ValidKey, Matches, LaneDecrypts, AddSpec, Sums;
    var ms, js := PlainEval(l).value, PlainEval(r).value;
    SumDecrypts(k, leftover, pk, l, r, ms, js);
    if |ms| == |js| || |js| == 1 {
      LanesOfSums(k, CipherEval(pk, Sum(l, r)).value.texts, ms, js);
    }
  }

  lemma PlusPlainAgrees(k: PrivKey, leftover: int, pk: PubKey, e: Expr, plain: seq<int>)
    requires ValidKey(k, leftover) && Matches(pk, k) && 2 <= pk.n && 0 < pk.nsquare
    requires PlainEval(e).Ok? && Agree(k, pk, e)
    ensures Agree(k, pk, PlusPlain(e, plain))
  {
    hide ValidKey, Matches, LaneDecrypts, AddPlainSpec, Sums;
    var ms := PlainEval(e).value;
    PlusPlainDecrypts(k, leftover, pk, e, ms, plain);
    if |plain| > 0 && (|ms| == |plain| || |plain| == 1) {
      LanesOfSums(k, CipherEval(pk, PlusPlain(e, plain)).value.texts, ms, plain);
    }
  }

  lemma TimesPlainAgrees(k: PrivKey, leftover: int, pk: PubKey, e: Expr, scalars: seq<nat>)
    requires ValidKey(k, leftover) && Matches(pk, k) && 2 <= pk.n && 0 < pk.nsquare
    requires PlainEval(e).Ok? && Agree(k, pk, e)
    ensures Agree(k, pk, TimesPlain(e, scalars))
  {
    hide ValidKey, Matches, LaneDecrypts, MulSpec, Products;
    var ms := PlainEval(e).value;
    TimesPlainDecrypts(k, leftover, pk, e, ms, scalars);
    if |ms| == |scalars| || |scalars| == 1 {
      LanesOfProducts(k, CipherEval(pk, TimesPlain(e, scalars)).value.texts, ms, scalars);
    }
  }

  lemma ObfuscateAgrees(k: PrivKey, leftover: int, pk: PubKey, e: Expr, draws: nat -> nat)
    requires ValidKey(k, leftover) && Matches(pk, k) && 2 <= pk.n && 0 < pk.nsquare
    requires PlainEval(e).Ok? && Agree(k, pk, e) && forall i: nat :: GoodDraw(pk, draws(i))
    ensures Agree(k, pk, Obfuscate(e, draws))
  {
    hide ValidKey, Matches, Decrypts, GoodDraw, ObfuscateSpec;
    ObfuscateDecrypts(k, leftover, pk, CipherEval(pk, e).value.texts, PlainEval(e).value, draws);
  }

  lemma {:induction false} ExpressionAgrees(k: PrivKey, leftover: int, pk: PubKey, e: Expr)
    requires ValidKey(k, leftover) && Matches(pk, k) && 2 <= pk.n && 0 < pk.nsquare && GoodDraws(pk, e)
    ensures Agree(k, pk, e)
  {
    hide ValidKey, Matches, Decrypts, LaneDecrypts, AddSpec, EncodeSpec, MulSpec, EncryptLane, ObfuscatorOf;
    hide Sums, Products;
    match e
    case Encrypted(values, draws) =>
      if |values| > 0 {
        EncryptedDecrypts(k, leftover, pk, values, draws);
      }
    case Sum(l, r) =>
      ExpressionAgrees(k, leftover, pk, l);
      ExpressionAgrees(k, leftover, pk, r);
      if PlainEval(l).Ok? && PlainEval(r).Ok? {
        SumAgrees(k, leftover, pk, l, r);
      }
    case PlusPlain(arg, plain) =>
      ExpressionAgrees(k, leftover, pk, arg);
      if PlainEval(arg).Ok? {
        PlusPlainAgrees(k, leftover, pk, arg, plain);
      }
    case TimesPlain(arg, scalars) =>
      ExpressionAgrees(k, leftover, pk, arg);
      if PlainEval(arg).Ok? {
        TimesPlainAgrees(k, leftover, pk, arg, scalars);
      }
    case Obfuscate(arg, draws) =>
      ExpressionAgrees(k, leftover, pk, arg);
      if PlainEval(arg).Ok? {
        ObfuscateAgrees(k, leftover, pk, arg, draws);
      }
  }

  /**
   Evaluating an expression on ciphertexts fails exactly when evaluating it on
   plaintexts does, and otherwise decrypts lane by lane to the plaintext value
   modulo n.
   */
  lemma ExpressionDecrypts(k: PrivKey, leftover: int, pk: PubKey, e: Expr)
    requires ValidKey(k, leftover) && Matches(pk, k) && 2 <= pk.n && 0 < pk.nsquare && GoodDraws(pk, e)
    ensures CipherEval(pk, e).Ok? <==> PlainEval(e).Ok?
    ensures CrtReady(k) && 2 <= k.n
    ensures CipherEval(pk, e).Ok? ==>
      var cs, ms := CipherEval(pk, e).value.texts, PlainEval(e).value;
      |cs| == |ms| && forall i :: 0 <= i < |cs| ==> Unit(k, cs[i]) && CrtLane(k, cs[i]) == ms[i] % k.n
  {
    hide CipherEval, PlainEval, CrtLane;
    KeyFacts(k, leftover);
    ExpressionAgrees(k, leftover, pk, e);
    if CipherEval(pk, e).Ok? {
      var cs, ms := CipherEval(pk, e).value.texts, PlainEval(e).value;
      forall i | 0 <= i < |cs| ensures Unit(k, cs[i]) && CrtLane(k, cs[i]) == ms[i] % k.n {
        assert LaneDecrypts(k, cs[i], ms[i]);
      }
    }
  }

  /** With lambda a unit modulo n the textbook formula decrypts every expression just as well. */
  lemma ExpressionDecryptsRaw(k: PrivKey, leftover: int, pk: PubKey, e: Expr)
    requires ValidKey(k, leftover) && Matches(pk, k) && 2 <= pk.n && 0 < pk.nsquare && GoodDraws(pk, e)
    requires Coprime(k.lambda, k.n) && PlainEval(e).Ok?
    ensures CipherEval(pk, e).Ok? && 2 <= k.n && 0 < k.nsquare
    ensures var cs, ms := CipherEval(pk, e).value.texts, PlainEval(e).value;
      |cs| == |ms| && forall i :: 0 <= i < |cs| ==> RawLane(k, cs[i]) == ms[i] % k.n
  {
    ExpressionDecrypts(k, leftover, pk, e);
    var cs, ms := CipherEval(pk, e).value.texts, PlainEval(e).value;
    forall i | 0 <= i < |cs| ensures RawLane(k, cs[i]) == ms[i] % k.n {
      RawEqualsCrt(k, leftover, cs[i]);
    }
  }
}
