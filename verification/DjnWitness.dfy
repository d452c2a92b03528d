/**
 A pair of primes that getDJNBN accepts although the second factor is 1 modulo 4,
 with certificates of primality: p - 1 is a multiple of 5^22, q - 1 of 7^18.
 */
module DjnWitness {
  import opened BigNum
  import opened KeyGen
  import opened NumberTheory
  import opened Primality

  const FIRST := 1267650600227360725402832031251
  const SECOND := 1267650600227586701125594907677

  lemma FifthPower(b: int, i: nat, x: int, y: int, n: int)
    requires Reaches(b, 5, i, x, n) && 0 < n && x * x * x * x * x % n == y
    ensures Reaches(b, 5, i + 1, y, n)
  {
    FifthPowerOf(x);
    ReachNext(b, 5, i, x, n);
  }

  lemma PowStep(x: int, e: nat, y: int)
    requires Pow(x, e) == y
    ensures Pow(x, e + 1) == y * x
  {
  }

  lemma FifthPowerOf(x: int)
    ensures Pow(x, 5) == x * x * x * x * x
  {
    PowStep(x, 0, 1);
    PowStep(x, 1, x);
    PowStep(x, 2, x * x);
    PowStep(x, 3, x * x * x);
    PowStep(x, 4, x * x * x * x);
  }

  lemma SeventhPower(b: int, i: nat, x: int, y: int, n: int)
    requires Reaches(b, 7, i, x, n) && 0 < n && x * x * x * x * x * x * x % n == y
    ensures Reaches(b, 7, i + 1, y, n)
  {
    SeventhPowerOf(x);
    ReachNext(b, 7, i, x, n);
  }

  lemma SeventhPowerOf(x: int)
    ensures Pow(x, 7) == x * x * x * x * x * x * x
  {
    hide Pow;
    FifthPowerOf(x);
    PowStep(x, 5, x * x * x * x * x);
    PowStep(x, 6, x * x * x * x * x * x);
  }

  lemma PowFive()
    ensures Pow(5, 21) == 476837158203125 && Pow(5, 22) == 2384185791015625
  {
    assert Pow(5, 3) == 125;
    PowAdd(5, 3, 2);
    PowAdd(5, 5, 5);
    PowAdd(5, 10, 10);
  }

  lemma PowSeven()
    ensures Pow(7, 17) == 232630513987207 && Pow(7, 18) == 1628413597910449
  {
    assert Pow(7, 2) == 49;
    PowAdd(7, 2, 2);
    PowAdd(7, 4, 4);
    PowAdd(7, 8, 8);
    PowAdd(7, 16, 1);
  }

  // ---- powers of an element of order 5^22 modulo the first factor ---------------------

  const FIRST_ELEMENT := 694233919958199406289183782726

  lemma FirstLadder()
    ensures Reaches(FIRST_ELEMENT, 5, 21, 673516462683094737379936808793, FIRST)
    ensures Reaches(FIRST_ELEMENT, 5, 22, 1, FIRST)
  {
    hide Reaches;
    ReachStart(FIRST_ELEMENT, 5, FIRST);
    FifthPower(FIRST_ELEMENT, 0, FIRST_ELEMENT, 1257382150913177175671560519164, FIRST);
    FifthPower(FIRST_ELEMENT, 1, 1257382150913177175671560519164, 783368325935258622251251784965, FIRST);
    FifthPower(FIRST_ELEMENT, 2, 783368325935258622251251784965, 761612326908011268060275304205, FIRST);
    FifthPower(FIRST_ELEMENT, 3, 761612326908011268060275304205, 959245320639527638840708900922, FIRST);
    FifthPower(FIRST_ELEMENT, 4, 959245320639527638840708900922, 470668611843682153096496914497, FIRST);
    FifthPower(FIRST_ELEMENT, 5, 470668611843682153096496914497, 452886693695270056878457913159, FIRST);
    FifthPower(FIRST_ELEMENT, 6, 452886693695270056878457913159, 1084799870705872790868240876137, FIRST);
    FifthPower(FIRST_ELEMENT, 7, 1084799870705872790868240876137, 536032090848308550066132299568, FIRST);
    FifthPower(FIRST_ELEMENT, 8, 536032090848308550066132299568, 1169982645631539444303523799084, FIRST);
    FifthPower(FIRST_ELEMENT, 9, 1169982645631539444303523799084, 502828801288556990918819118046, FIRST);
    FifthPower(FIRST_ELEMENT, 10, 502828801288556990918819118046, 624820976700325765992820185236, FIRST);
    FifthPower(FIRST_ELEMENT, 11, 624820976700325765992820185236, 981551868197337634678026048878, FIRST);
    FifthPower(FIRST_ELEMENT, 12, 981551868197337634678026048878, 1003271287474332296449442823277, FIRST);
    FifthPower(FIRST_ELEMENT, 13, 1003271287474332296449442823277, 93132945078180685687576897634, FIRST);
    FifthPower(FIRST_ELEMENT, 14, 93132945078180685687576897634, 713622036039460547088956741560, FIRST);
    FifthPower(FIRST_ELEMENT, 15, 713622036039460547088956741560, 795246168862403219235311517105, FIRST);
    FifthPower(FIRST_ELEMENT, 16, 795246168862403219235311517105, 71078311625161300977428383580, FIRST);
    FifthPower(FIRST_ELEMENT, 17, 71078311625161300977428383580, 1111831144398164977989109291200, FIRST);
    FifthPower(FIRST_ELEMENT, 18, 1111831144398164977989109291200, 234634765256713417437213256138, FIRST);
    FifthPower(FIRST_ELEMENT, 19, 234634765256713417437213256138, 1237524259853551148176773518566, FIRST);
    FifthPower(FIRST_ELEMENT, 20, 1237524259853551148176773518566, 673516462683094737379936808793, FIRST);
    FifthPower(FIRST_ELEMENT, 21, 673516462683094737379936808793, 1, FIRST);
  }

  lemma FirstIsPrime()
    ensures Prime(FIRST)
  {
    FirstLadder();
    PowFive();
    hide Reaches, Pow;
    Certificate(FIRST, FIRST_ELEMENT, 5, 22, 673516462683094737379936808793, 857575619923712530703132082180);
  }

  // ---- powers of an element of order 7^18 modulo the second factor --------------------

  const SECOND_ELEMENT := 78366626733411540966329865102

  lemma SecondLadder()
    ensures Reaches(SECOND_ELEMENT, 7, 17, 332724109720338986125234047182, SECOND)
    ensures Reaches(SECOND_ELEMENT, 7, 18, 1, SECOND)
  {
    hide Reaches;
    ReachStart(SECOND_ELEMENT, 7, SECOND);
    SeventhPower(SECOND_ELEMENT, 0, SECOND_ELEMENT, 336159604561411575467931518409, SECOND);
    SeventhPower(SECOND_ELEMENT, 1, 336159604561411575467931518409, 932600994605112579924675883116, SECOND);
    SeventhPower(SECOND_ELEMENT, 2, 932600994605112579924675883116, 965714799834273688358319538367, SECOND);
    SeventhPower(SECOND_ELEMENT, 3, 965714799834273688358319538367, 540717245990050242917136846799, SECOND);
    SeventhPower(SECOND_ELEMENT, 4, 540717245990050242917136846799, 927217472376720384982798074418, SECOND);
    SeventhPower(SECOND_ELEMENT, 5, 927217472376720384982798074418, 17863427867333495535270004274, SECOND);
    SeventhPower(SECOND_ELEMENT, 6, 17863427867333495535270004274, 827572917475059773413546759393, SECOND);
    SeventhPower(SECOND_ELEMENT, 7, 827572917475059773413546759393, 384991198516818496622047707179, SECOND);
    SeventhPower(SECOND_ELEMENT, 8, 384991198516818496622047707179, 887568107168453205281706691475, SECOND);
    SeventhPower(SECOND_ELEMENT, 9, 887568107168453205281706691475, 292929136870475343148061488831, SECOND);
    SeventhPower(SECOND_ELEMENT, 10, 292929136870475343148061488831, 528290922162544857881343796822, SECOND);
    SeventhPower(SECOND_ELEMENT, 11, 528290922162544857881343796822, 876277089792583337884159972096, SECOND);
    SeventhPower(SECOND_ELEMENT, 12, 876277089792583337884159972096, 1197381091070906685144773547582, SECOND);
    SeventhPower(SECOND_ELEMENT, 13, 1197381091070906685144773547582, 235446796905124869477037069838, SECOND);
    SeventhPower(SECOND_ELEMENT, 14, 235446796905124869477037069838, 635518583724010311031144419256, SECOND);
    SeventhPower(SECOND_ELEMENT, 15, 635518583724010311031144419256, 1135071976984069753316958840298, SECOND);
    SeventhPower(SECOND_ELEMENT, 16, 1135071976984069753316958840298, 332724109720338986125234047182, SECOND);
    SeventhPower(SECOND_ELEMENT, 17, 332724109720338986125234047182, 1, SECOND);
  }

  lemma SecondIsPrime()
    ensures Prime(SECOND)
  {
    SecondLadder();
    PowSeven();
    hide Reaches, Pow;
    Certificate(SECOND, SECOND_ELEMENT, 7, 18, 332724109720338986125234047182, 478770532954727102322058877092);
  }

  // ---- the pair ------------------------------------------------------------------------

  lemma HundredBits()
    ensures Pow(2, 100) == 1267650600228229401496703205376
    ensures Pow(2, 199) == 803469022129495137770981046170581301261101496891396417650688
    ensures Pow(2, 200) == 1606938044258990275541962092341162602522202993782792835301376
  {
    PowTwo();
    PowAdd(2, 32, 32);
    PowAdd(2, 64, 32);
    assert Pow(2, 4) == 16;
    PowAdd(2, 96, 4);
    PowAdd(2, 100, 100);
    PowAdd(2, 1, 199);
  }

  /** Bezout's identity for the two predecessors. */
  lemma PredecessorsGcd()
    ensures Gcd(FIRST - 1, SECOND - 1) == 2
  {
    var a, b, g := FIRST - 1, SECOND - 1, Gcd(FIRST - 1, SECOND - 1);
    GcdDivides(a, b);
    GcdGreatest(a, b, 2);
    var s, t := -276097415851676542087074987475, 276097415851627324019344933402;
    assert a * s + b * t == 2;
    DivModUnique(0, 0, 0, g);
    CongMul(a, 0, s, s, g);
    CongMul(b, 0, t, t, g);
    CongAdd(a * s, 0, b * t, 0, g);
    if g > 2 {
      DivModUnique(2, 0, 2, g);
    }
  }

  /**
   Two primes of the length the generator draws, on which getDJNBN stops with a second
   factor that is 1 modulo 4.
   */
  lemma SecondFactorUnchecked()
    ensures PrimeOfHalfLength(FIRST, 200) && PrimeOfHalfLength(SECOND, 200)
    ensures PairOf([FIRST, SECOND], true, 200) == Accepted(FIRST, SECOND, FIRST * SECOND)
    ensures SECOND % 4 == 1 && SecondFactorFails([FIRST, SECOND], 200)
  {
    FirstIsPrime();
    SecondIsPrime();
    HundredBits();
    PredecessorsGcd();
    BitSizeBounds(FIRST * SECOND, 200);
    assert Pow(2, 0) == 1;
    hide Gcd, BitSize;
    PairStream(200, FIRST, SECOND);
  }
}
