/**
 Number representation of BigNumber: 32-bit little-endian word vectors, the
 hexadecimal text form, and the big-endian octet strings exchanged with the
 accelerator.
 */
module BigNum {
  import opened NumberTheory

  type Word = w: int | 0 <= w < 0x1_0000_0000
  type Octet = b: int | 0 <= b < 256

  const WORD_BASE := 0x1_0000_0000
  const HEX_DIGITS := "0123456789abcdef"

  function WordsValue(ws: seq<Word>): (v: nat) {
    if ws == [] then 0 else ws[0] + WORD_BASE * WordsValue(ws[1..])
  }

  // ---- hexadecimal text -------------------------------------------------------

  /** The canonical digits of v, most significant first; none for zero. */
  function HexOf(v: nat): string {
    if v == 0 then "" else HexOf(v / 16) + [HEX_DIGITS[v % 16]]
  }

  function Sign(negative: bool): string {
    if negative then "-" else ""
  }

  /** One more digit extends the text, unless everything so far is a zero head. */
  lemma HexStep(v: nat, d: nat)
    requires d < 16
    ensures HexOf(16 * v + d) == if v == 0 && d == 0 then "" else HexOf(v) + [HEX_DIGITS[d]]
  {
    assert (16 * v + d) / 16 == v && (16 * v + d) % 16 == d;
  }

  /** Printing a digit unless it belongs to the zero head appends the right text. */
  lemma PrintStep(head: string, v: nat, d: nat)
    requires d < 16
    ensures HEX_DIGITS[d] != '0' || v != 0 ==> head + HexOf(16 * v + d) == head + HexOf(v) + [HEX_DIGITS[d]]
    ensures !(HEX_DIGITS[d] != '0' || v != 0) ==> head + HexOf(16 * v + d) == head + HexOf(v)
    ensures HEX_DIGITS[d] != '0' || v != 0 <==> 16 * v + d != 0
  {
    HexStep(v, d);
    assert HEX_DIGITS[d] == '0' <==> d == 0;
  }

  lemma PowPositive(b: int, e: nat)
    requires 0 < b
    ensures 0 < Pow(b, e)
  {
  }

  /** Splitting one more hexadecimal digit off x. */
  lemma NibbleStep(x: nat, k: nat)
    ensures 0 < Pow(16, k) && 0 < Pow(16, k + 1)
    ensures x / Pow(16, k) == 16 * (x / Pow(16, k + 1)) + x / Pow(16, k) % 16
  {
    PowPositive(16, k);
    var p, y := Pow(16, k), x / Pow(16, k);
    var r := x % p;
    assert x == p * y + r && y == 16 * (y / 16) + y % 16;
    assert p * y == p * (16 * (y / 16)) + p * (y % 16);
    assert p * (16 * (y / 16)) == (16 * p) * (y / 16);
    MulMonotone(p, 0, y % 16);
    MulMonotone(p, y % 16, 15);
    DivModUnique(x, y / 16, p * (y % 16) + r, 16 * p);
  }

  lemma PowSixteen()
    ensures Pow(16, 8) == WORD_BASE
  {
    assert Pow(16, 2) == 256;
    PowAdd(16, 2, 2);
    PowAdd(16, 4, 4);
  }

  /** num2hex appends the sign, the prefix and the digits without a zero head. */
  method Num2Hex(words: seq<Word>, negative: bool, s0: string) returns (s: string)
    ensures s == s0 + Sign(negative) + "0x" + HexOf(WordsValue(words))
    ensures s == s0 + (if negative then "-0x" else "0x") + HexOf(WordsValue(words))
  {
    s := s0;
    if negative { s := s + "-"; }
    s := s + "0";
    s := s + "x";
    ghost var head := s;
    assert head == s0 + Sign(negative) + "0x";
    var firstNoZero := false;
    var n := |words|;
    while n > 0
      invariant 0 <= n <= |words|
      invariant s == head + HexOf(WordsValue(words[n..]))
      invariant firstNoZero <==> WordsValue(words[n..]) != 0
    {
      assert words[n - 1..][1..] == words[n..];
      s, firstNoZero := AppendWord(words[n - 1], firstNoZero, s, head, WordsValue(words[n..]));
      n := n - 1;
    }
    assert words[0..] == words;
  }

  /** The inner loop of num2hex: the eight digits of one word. */
  method AppendWord(x: Word, seen: bool, s0: string, ghost head: string, ghost high: nat)
    returns (s: string, firstNoZero: bool)
    requires s0 == head + HexOf(high) && (seen <==> high != 0)
    ensures s == head + HexOf(x + WORD_BASE * high)
    ensures firstNoZero <==> x + WORD_BASE * high != 0
  {
    s, firstNoZero := s0, seen;
    var nd := 8;
    DigitsDoneEnds(x, high);
    while nd > 0
      invariant 0 <= nd <= 8
      invariant s == head + HexOf(DigitsDone(x, high, nd))
      invariant firstNoZero <==> DigitsDone(x, high, nd) != 0
    {
      var d := DropNibbles(x, nd - 1) % 16;
      var c := HEX_DIGITS[d];
      DigitsDoneStep(x, high, nd);
      PrintStep(head, DigitsDone(x, high, nd), d);
      if c != '0' || firstNoZero {
        firstNoZero := true;
        s := s + [c];
      }
      nd := nd - 1;
    }
  }

  /** x without its k lowest hexadecimal digits. */
  function DropNibbles(x: nat, k: nat): (y: nat)
    ensures 0 < Pow(16, k) && y == x / Pow(16, k)
  {
    PowPositive(16, k);
    x / Pow(16, k)
  }

  /** high followed by k hexadecimal zeros. */
  function PadNibbles(high: nat, k: nat): (y: nat)
    ensures y == Pow(16, k) * high
  {
    PowPositive(16, k);
    MulMonotone(Pow(16, k), 0, high);
    Pow(16, k) * high
  }

  /** The number printed so far: the words above, then all but nd digits of x. */
  ghost function DigitsDone(x: nat, high: nat, nd: nat): nat
    requires nd <= 8
  {
    PadNibbles(high, 8 - nd) + DropNibbles(x, nd)
  }

  lemma DigitsDoneEnds(x: Word, high: nat)
    ensures DigitsDone(x, high, 8) == high
    ensures DigitsDone(x, high, 0) == x + WORD_BASE * high
  {
    PowSixteen();
  }

  lemma DigitsDoneStep(x: nat, high: nat, nd: nat)
    requires 0 < nd <= 8
    ensures DigitsDone(x, high, nd - 1) == 16 * DigitsDone(x, high, nd) + DropNibbles(x, nd - 1) % 16
  {
    NibbleStep(x, nd - 1);
    assert Pow(16, 9 - nd) == 16 * Pow(16, 8 - nd);
    assert (16 * Pow(16, 8 - nd)) * high == 16 * (Pow(16, 8 - nd) * high);
  }

  /** strcspn over the digit list: the position of c, or the length of the list. */
  function DigitOf(c: char): nat {
    if '0' <= c <= '9' then c as int - '0' as int
    else if 'a' <= c <= 'f' then c as int - 'a' as int + 10
    else 16
  }

  function Horner(s: string, base: nat): nat {
    if s == "" then 0 else Horner(s[..|s| - 1], base) * base + DigitOf(s[|s| - 1])
  }

  function ParseValue(text: string): int {
    var negative := text != "" && text[0] == '-';
    var t := if negative then text[1..] else text;
    var hex := |t| >= 2 && t[0] == '0' && (t[1] == 'x' || t[1] == 'X');
    var v := if hex then Horner(t[2..], 16) else Horner(t, 10);
    if negative then -v else v
  }

  /** The string constructor: optional sign, optional 0x, then digits by Horner's rule. */
  method Parse(text: string) returns (v: int)
    ensures v == ParseValue(text)
  {
    var s := text;
    var negative := s != "" && s[0] == '-';
    if negative { s := s[1..]; }
    var hex := |s| >= 2 && s[0] == '0' && (s[1] == 'x' || s[1] == 'X');
    var base := 10;
    if hex {
      s := s[2..];
      base := 16;
    }
    v := 0;
    var i := 0;
    while i < |s|
      invariant 0 <= i <= |s| && v == Horner(s[..i], base)
    {
      assert s[..i + 1][..i] == s[..i];
      v := v * base + DigitOf(s[i]);
      i := i + 1;
    }
    assert s[..|s|] == s;
    if negative { v := 0 - v; }
  }

  lemma {:induction false} HornerOfHex(v: nat)
    ensures Horner(HexOf(v), 16) == v
  {
    if v > 0 {
      HornerOfHex(v / 16);
      var d := v % 16;
      assert HexOf(v)[..|HexOf(v)| - 1] == HexOf(v / 16);
      assert DigitOf(HEX_DIGITS[d]) == d;
    }
  }

  // ---- texts and their values, position by position -----------------------------------

  /** The sixteen digits, and nothing else, have a value of their own. */
  lemma DigitValues(c: char)
    ensures forall d :: 0 <= d < 16 ==> DigitOf("0123456789abcdef"[d]) == d
    ensures c !in "0123456789abcdef" ==> DigitOf(c) == 16
  {
    if DigitOf(c) != 16 {
      assert c == "0123456789abcdef"[DigitOf(c)];
    }
  }

  /** Each digit weighted by the power of the base that its place stands for. */
  function PlaceValue(s: string, base: nat): nat {
    if s == "" then 0
    else
      PowNat(base, |s| - 1);
      MulMonotone(DigitOf(s[0]), 0, Pow(base, |s| - 1));
      DigitOf(s[0]) * Pow(base, |s| - 1) + PlaceValue(s[1..], base)
  }

  lemma {:induction false} PowNat(b: nat, e: nat)
    ensures 0 <= Pow(b, e)
  {
    if e > 0 {
      PowNat(b, e - 1);
      MulMonotone(b, 0, Pow(b, e - 1));
    }
  }

  lemma {:induction false} PlaceValueAppend(s: string, c: char, base: nat)
    ensures PlaceValue(s + [c], base) == PlaceValue(s, base) * base + DigitOf(c)
  {
    if s == "" {
      assert s + [c] == [c] && [c][1..] == "";
      assert Pow(base, 0) == 1;
    } else {
      PlaceValueAppend(s[1..], c, base);
      assert (s + [c])[1..] == s[1..] + [c];
      AppendWeights(DigitOf(s[0]), Pow(base, |s| - 1), PlaceValue(s[1..], base), base);
      assert Pow(base, |s|) == base * Pow(base, |s| - 1);
    }
  }

  lemma AppendWeights(d: int, p: int, rest: int, base: int)
    ensures (d * p + rest) * base == d * (base * p) + rest * base
  {
    assert (d * p) * base == d * (base * p);
  }

  /** Horner's rule computes the sum of the weighted digits. */
  lemma {:induction false} HornerPlaces(s: string, base: nat)
    ensures Horner(s, base) == PlaceValue(s, base)
  {
    if s != "" {
      HornerPlaces(s[..|s| - 1], base);
      PlaceValueAppend(s[..|s| - 1], s[|s| - 1], base);
      assert s[..|s| - 1] + [s[|s| - 1]] == s;
    }
  }

  lemma PrefixedValue(x: char, h: string)
    requires x == 'x' || x == 'X'
    ensures ParseValue(['0', x] + h) == Horner(h, 16) && ParseValue(['-', '0', x] + h) == 0 - Horner(h, 16)
  {
    assert (['0', x] + h)[2..] == h && (['-', '0', x] + h)[1..] == ['0', x] + h;
  }

  /** Either prefix selects base 16, with or without a sign. */
  lemma ParseHexPlaces(h: string)
    ensures ParseValue("0x" + h) == ParseValue("0X" + h) == PlaceValue(h, 16)
    ensures ParseValue("-0x" + h) == ParseValue("-0X" + h) == 0 - PlaceValue(h, 16)
  {
    HornerPlaces(h, 16);
    hide Horner, PlaceValue, ParseValue;
    PrefixedValue('x', h);
    PrefixedValue('X', h);
  }

  /** Every other text is read in base 10, after its sign. */
  lemma ParseDecPlaces(t: string)
    requires |t| < 2 || t[0] != '0' || (t[1] != 'x' && t[1] != 'X')
    ensures t == "" || t[0] != '-' ==> ParseValue(t) == PlaceValue(t, 10)
    ensures ParseValue("-" + t) == 0 - PlaceValue(t, 10)
  {
    HornerPlaces(t, 10);
    assert ("-" + t)[1..] == t;
  }

  /** The decimal digits of v, most significant first. */
  function DecOf(v: nat): string {
    if v < 10 then ["0123456789"[v]] else DecOf(v / 10) + ["0123456789"[v % 10]]
  }

  /** They are the quotients by the powers of ten. */
  lemma {:induction false} DecDigits(v: nat, i: nat)
    ensures 0 < Pow(10, i) && (i < |DecOf(v)| ==> DecOf(v)[|DecOf(v)| - 1 - i] == "0123456789"[v / Pow(10, i) % 10])
    ensures i >= |DecOf(v)| ==> v / Pow(10, i) == 0
  {
    PowPositive(10, i);
    if i == 0 {
      DecHead(v);
    } else {
      PowPositive(10, i - 1);
      QuotientOfQuotient(v, 10, Pow(10, i - 1));
      assert Pow(10, i) == 10 * Pow(10, i - 1);
      DecDigits(v / 10, i - 1);
      DivModUnique(0, 0, 0, Pow(10, i - 1));
      hide Pow;
    }
  }

  /** Without a zero head, except for zero itself. */
  lemma {:induction false} DecHead(v: nat)
    ensures |DecOf(v)| > 0 && (DecOf(v)[0] == '0' <==> v == 0)
  {
    if v >= 10 {
      DecHead(v / 10);
    }
  }

  lemma QuotientOfQuotient(v: nat, b: int, p: int)
    requires 0 < b && 0 < p
    ensures 0 < b * p && v / b / p == v / (b * p)
  {
    var q, r := v / b / p, v / b % p;
    assert v / b == p * q + r && v == b * (v / b) + v % b;
    assert b * (p * q + r) == (b * p) * q + b * r;
    MulMonotone(b, 0, r);
    MulMonotone(b, r, p - 1);
    assert b * (p - 1) == b * p - b;
    DivModUnique(v, q, b * r + v % b, b * p);
  }

  lemma {:induction false} HornerOfDec(v: nat)
    ensures Horner(DecOf(v), 10) == v
  {
    DigitValues('0');
    assert DecOf(v)[|DecOf(v)| - 1] == "0123456789abcdef"[v % 10];
    if v >= 10 {
      HornerOfDec(v / 10);
      assert DecOf(v)[..|DecOf(v)| - 1] == DecOf(v / 10);
    } else {
      assert DecOf(v)[..0] == "";
    }
  }

  /** Parsing the decimal digits of a number, with or without a sign, returns it. */
  lemma DecimalParse(v: nat)
    ensures ParseValue(DecOf(v)) == v && ParseValue("-" + DecOf(v)) == 0 - v
    ensures v == 0 ==> DecOf(v) == "0"
  {
    HornerOfDec(v);
    HornerPlaces(DecOf(v), 10);
    DecLetters(v);
    hide DecOf, Horner, ParseValue, PlaceValue;
    ParseDecPlaces(DecOf(v));
  }

  lemma {:induction false} DecLetters(v: nat)
    ensures forall i :: 0 <= i < |DecOf(v)| ==> '0' <= DecOf(v)[i] <= '9'
    ensures |DecOf(v)| > 0
  {
    if v >= 10 {
      DecLetters(v / 10);
    }
  }

  /** The hexadecimal digits of v are the quotients by the powers of sixteen. */
  lemma {:induction false} HexDigits(v: nat, i: nat)
    ensures 0 < Pow(16, i)
    ensures i < |HexOf(v)| ==> HexOf(v)[|HexOf(v)| - 1 - i] == "0123456789abcdef"[v / Pow(16, i) % 16]
    ensures i >= |HexOf(v)| ==> v / Pow(16, i) == 0
  {
    PowPositive(16, i);
    if i > 0 {
      PowPositive(16, i - 1);
      QuotientOfQuotient(v, 16, Pow(16, i - 1));
      if v > 0 {
        HexDigits(v / 16, i - 1);
      } else {
        DivModUnique(0, 0, 0, Pow(16, i));
      }
    }
  }

  /** The prefix selects base 16 and the sign is applied last. */
  lemma ParseHexText(h: string, negative: bool)
    ensures ParseValue(Sign(negative) + "0x" + h)
         == if negative then -(Horner(h, 16) as int) else Horner(h, 16)
  {
    var text := Sign(negative) + "0x" + h;
    var t := if negative then text[1..] else text;
    assert |t| == 2 + |h| && t[0] == '0' && t[1] == 'x';
    assert t[2..] == h;
  }

  /** Parsing the printed text returns the signed number, zero included. */
  lemma PrintParse(words: seq<Word>, negative: bool)
    ensures ParseValue(Sign(negative) + "0x" + HexOf(WordsValue(words)))
         == if negative then -(WordsValue(words) as int) else WordsValue(words)
  {
    HornerOfHex(WordsValue(words));
    ParseHexText(HexOf(WordsValue(words)), negative);
  }

  /** The text is canonical: no zero head, and only equal numbers share it. */
  lemma {:induction false} HexCanonical(v: nat, w: nat)
    ensures HexOf(v) != "" ==> HexOf(v)[0] != '0'
    ensures HexOf(v) == HexOf(w) <==> v == w
  {
    HexHead(v);
    HornerOfHex(v);
    HornerOfHex(w);
  }

  lemma {:induction false} HexHead(v: nat)
    ensures v == 0 <==> HexOf(v) == ""
    ensures v != 0 ==> HexOf(v)[0] != '0'
  {
    if v > 0 {
      HexHead(v / 16);
      if v / 16 == 0 {
        assert v % 16 == v;
        assert HEX_DIGITS[v] != '0';
      }
    }
  }

  // ---- bit length ---------------------------------------------------------------

  /** BitSize: one for zero and one, otherwise the length of the binary form. */
  function BitSize(v: nat): nat {
    if v < 2 then 1 else 1 + BitSize(v / 2)
  }

  /** The bit length of a positive number places it between two powers of two. */
  lemma {:induction false} BitSizeBounds(v: nat, bits: nat)
    ensures 1 <= BitSize(v) && v < Pow(2, BitSize(v))
    ensures v > 0 ==> Pow(2, BitSize(v) - 1) <= v
    ensures v > 0 && bits > 0 && Pow(2, bits - 1) <= v < Pow(2, bits) ==> bits == BitSize(v)
  {
    if v >= 2 {
      BitSizeBounds(v / 2, if bits > 0 then bits - 1 else 0);
    } else if bits > 1 {
      PowPositive(2, bits - 2);
    }
  }

  /** The inner loop of MSB: the leading zeros of a word. */
  method LeadingZeros(w: Word) returns (shift: nat)
    requires w != 0
    ensures shift <= 31 && 0x8000_0000 <= w * Pow(2, shift) < WORD_BASE
  {
    var x := w;
    shift := 0;
    PowTwo();
    while x < 0x8000_0000
      invariant 0 < x < WORD_BASE && shift <= 31
      invariant x == w * Pow(2, shift) && Pow(2, shift) <= x
      decreases WORD_BASE - x
    {
      x := 2 * x;
      shift := shift + 1;
    }
  }

  /** MSB: zero for zero, otherwise the position of the highest set bit. */
  method Msb(words: seq<Word>) returns (msb: int)
    ensures msb + 1 == BitSize(WordsValue(words))
    ensures WordsValue(words) != 0 ==> 0 <= msb && Pow(2, msb) <= WordsValue(words) < Pow(2, msb + 1)
  {
    if WordsValue(words) == 0 {
      return 0;
    }
    msb := |words| * 32 - 1;
    var i := |words|;
    while i > 0 && words[i - 1] == 0
      invariant 0 <= i <= |words| && msb == 32 * i - 1
      invariant WordsValue(words[i..]) == 0
    {
      assert words[i - 1..][1..] == words[i..];
      msb := msb - 32;
      i := i - 1;
    }
    assert words[0..] == words;
    var shift := LeadingZeros(words[i - 1]);
    msb := msb - shift;
    assert words[i - 1..][1..] == words[i..];
    TopWords(words, i - 1);
    LowWordsBound(words[..i - 1]);
    HighBit(words[i - 1], shift, i - 1, WordsValue(words[..i - 1]), msb);
    BitSizeBounds(WordsValue(words), msb + 1);
  }

  /** 2^31 <= w * 2^shift < 2^32 places the highest bit of low + w * 2^(32*i). */
  lemma HighBit(w: nat, shift: nat, i: nat, low: nat, msb: int)
    requires shift <= 31 && 0x8000_0000 <= w * Pow(2, shift) < WORD_BASE
    requires low < Pow(2, 32 * i) && msb == 32 * i + 31 - shift
    ensures Pow(2, msb) <= low + Pow(2, 32 * i) * w < Pow(2, msb + 1)
  {
    var t := Pow(2, 31 - shift);
    PowTwo();
    PowAdd(2, shift, 31 - shift);
    PowPositive(2, shift);
    Normalised(Pow(2, shift), t, w);
    PowAdd(2, 32 * i, 31 - shift);
    PowAdd(2, 32 * i, 32 - shift);
    Enclose(Pow(2, 32 * i), low, t, w);
  }

  lemma Normalised(s: int, t: int, w: int)
    requires 0 < s && s * t == 0x8000_0000 <= w * s < WORD_BASE
    ensures t <= w < 2 * t
  {
    assert w * s == s * w && s * (2 * t) == 2 * (s * t);
    QuotientOrder(s, t, w);
    QuotientBelow(s, w, 2 * t);
  }

  lemma Enclose(p: int, low: nat, t: int, w: int)
    requires low < p && t <= w < 2 * t
    ensures p * t <= low + p * w < p * (2 * t)
  {
    MulMonotone(p, t, w);
    MulMonotone(p, w, 2 * t - 1);
    assert p * (2 * t - 1) == p * (2 * t) - p;
  }

  lemma MulSucc(s: int, y: int)
    ensures s * (y + 1) == s * y + s
  {
  }

  lemma QuotientOrder(s: int, x: int, y: int)
    requires 0 < s && s * x <= s * y
    ensures x <= y
  {
    if y < x {
      MulMonotone(s, y + 1, x);
      MulSucc(s, y);
    }
  }

  lemma PowTwo()
    ensures Pow(2, 31) == 0x8000_0000 && Pow(2, 32) == WORD_BASE && Pow(2, 0) == 1
  {
    assert Pow(2, 4) == 16;
    PowAdd(2, 4, 4);
    PowAdd(2, 8, 8);
    PowAdd(2, 16, 16);
    assert Pow(2, 32) == 2 * Pow(2, 31);
  }

  lemma {:induction false} TopWords(ws: seq<Word>, i: nat)
    requires i <= |ws|
    ensures WordsValue(ws) == WordsValue(ws[..i]) + Pow(2, 32 * i) * WordsValue(ws[i..])
    decreases i
  {
    if i == 0 {
      assert ws[0..] == ws;
    } else {
      TopWords(ws[1..], i - 1);
      assert ws[..i][1..] == ws[1..][..i - 1] && ws[1..][i - 1..] == ws[i..];
      PowTwo();
      PowAdd(2, 32, 32 * (i - 1));
      Regroup(WORD_BASE, WordsValue(ws[1..][..i - 1]), Pow(2, 32 * (i - 1)), WordsValue(ws[i..]));
    }
  }

  lemma Regroup(b: int, l: int, p: int, t: int)
    ensures b * (l + p * t) == b * l + (b * p) * t
  {
    assert b * (p * t) == (b * p) * t;
  }

  lemma {:induction false} LowWordsBound(ws: seq<Word>)
    ensures WordsValue(ws) < Pow(2, 32 * |ws|)
  {
    if ws != [] {
      LowWordsBound(ws[1..]);
      PowTwo();
      PowAdd(2, 32, 32 * (|ws| - 1));
    }
  }

  /** The words are the digits of the number to the base 2^32, lowest first. */
  lemma WordDigits(ws: seq<Word>, i: nat)
    requires i < |ws|
    ensures 0 < Pow(2, 32 * i) && WordsValue(ws) / Pow(2, 32 * i) % 4294967296 == ws[i]
    ensures WordsValue(ws) < Pow(2, 32 * |ws|)
  {
    var p := Pow(2, 32 * i);
    PowPositive(2, 32 * i);
    LowWordsBound(ws);
    TopWords(ws, i);
    LowWordsBound(ws[..i]);
    DivModUnique(WordsValue(ws), WordsValue(ws[i..]), WordsValue(ws[..i]), p);
    assert ws[i..][0] == ws[i];
    DivModUnique(WordsValue(ws[i..]), WordsValue(ws[i..][1..]), ws[i], 4294967296);
  }

  // ---- octet strings ------------------------------------------------------------

  /** I2OSP, section 4.1 of RFC 3447: len octets, most significant first. */
  function I2osp(v: nat, len: nat): (s: seq<Octet>)
    ensures |s| == len
  {
    if len == 0 then [] else I2osp(v / 256, len - 1) + [v % 256]
  }

  /** Octet j of len is a digit of v to the base 256, the highest first. */
  lemma {:induction false} OctetDigits(v: nat, len: nat, j: nat)
    requires j < len
    ensures 0 < Pow(256, len - 1 - j) && I2osp(v, len)[j] == v / Pow(256, len - 1 - j) % 256
  {
    PowPositive(256, len - 1 - j);
    if j < len - 1 {
      PowPositive(256, len - 2 - j);
      OctetDigits(v / 256, len - 1, j);
      QuotientOfQuotient(v, 256, Pow(256, len - 2 - j));
    }
  }

  /** OS2IP, section 4.2 of RFC 3447. */
  function Os2ip(s: seq<Octet>): nat {
    if s == [] then 0 else Os2ip(s[..|s| - 1]) * 256 + s[|s| - 1]
  }

  /** n octets of v, least significant first. */
  function LeBytes(v: nat, n: nat): (s: seq<Octet>)
    ensures |s| == n
  {
    if n == 0 then [] else [v % 256] + LeBytes(v / 256, n - 1)
  }

  function LeValue(s: seq<Octet>): nat {
    if s == [] then 0 else s[0] + 256 * LeValue(s[1..])
  }

  /** A word vector as the octets of a little-endian machine's memory. */
  function Memory(ws: seq<Word>): (s: seq<Octet>)
    ensures |s| == 4 * |ws|
  {
    if ws == [] then [] else LeBytes(ws[0], 4) + Memory(ws[1..])
  }

  function Reversed(s: seq<Octet>): (r: seq<Octet>)
    ensures |r| == |s|
  {
    seq(|s|, i requires 0 <= i < |s| => s[|s| - 1 - i])
  }

  /** Octets of w + 256^k * v: those of w, then those of v. */
  lemma {:induction false} LeBytesSplit(w: nat, v: nat, k: nat, m: nat)
    requires w < Pow(256, k)
    ensures 0 <= w + Pow(256, k) * v
    ensures LeBytes(w + Pow(256, k) * v, k + m) == LeBytes(w, k) + LeBytes(v, m)
  {
    PowPositive(256, k);
    MulMonotone(Pow(256, k), 0, v);
    if k > 0 {
      var p := Pow(256, k - 1);
      assert (256 * p) * v == 256 * (p * v);
      var x := w + Pow(256, k) * v;
      PowPositive(256, k - 1);
      MulMonotone(p, 0, v);
      DivModUnique(x, w / 256 + p * v, w % 256, 256);
      LeBytesSplit(w / 256, v, k - 1, m);
    }
  }

  lemma {:induction false} MemoryIsLeBytes(ws: seq<Word>)
    ensures Memory(ws) == LeBytes(WordsValue(ws), 4 * |ws|)
  {
    if ws != [] {
      MemoryIsLeBytes(ws[1..]);
      PowAdd(256, 2, 2);
      assert Pow(256, 2) == 65536;
      LeBytesSplit(ws[0], WordsValue(ws[1..]), 4, 4 * (|ws| - 1));
    }
  }

  lemma {:induction false} LeBytesOfZero(n: nat)
    ensures forall i :: 0 <= i < n ==> LeBytes(0, n)[i] == 0
  {
    if n > 0 { LeBytesOfZero(n - 1); }
  }

  lemma {:induction false} BigEndianReverses(v: nat, n: nat)
    ensures I2osp(v, n) == Reversed(LeBytes(v, n))
  {
    if n > 0 {
      BigEndianReverses(v / 256, n - 1);
    }
  }

  lemma ReversedTwice(s: seq<Octet>)
    ensures Reversed(Reversed(s)) == s
  {
  }

  /** toBin into a zeroed buffer is I2OSP; the buffer must hold every word of the number. */
  method ToBin(data: array<Octet>, len: int, ws: seq<Word>) returns (ok: bool)
    requires len <= data.Length && (len > 0 ==> 4 * |ws| <= len)
    modifies data
    ensures ok <==> len > 0
    ensures !ok ==> data[..] == old(data[..])
    ensures ok ==> data[len..] == old(data[len..])
    ensures ok && (forall i :: 0 <= i < len ==> old(data[i]) == 0) ==> data[..len] == I2osp(WordsValue(ws), len)
    ensures forall k: nat :: 0 < Pow(256, k)
    ensures ok && (forall i :: 0 <= i < len ==> old(data[i]) == 0) ==>
      forall j :: 0 <= j < len ==> data[j] == WordsValue(ws) / Pow(256, len - 1 - j) % 256
  {
    forall k: nat ensures 0 < Pow(256, k) {
      PowPositive(256, k);
    }
    if len <= 0 {
      return false;
    }
    var bytes := Memory(ws);
    var i := 0;
    while i < 4 * |ws|
      invariant 0 <= i <= 4 * |ws|
      invariant forall j :: 0 <= j < i ==> data[len - 1 - j] == bytes[j]
      invariant forall j :: 0 <= j < data.Length && !(len - i <= j < len) ==> data[j] == old(data[j])
    {
      data[len - 1 - i] := bytes[i];
      i := i + 1;
    }
    ToBinContents(ws, len);
    forall j | 0 <= j < len {
      OctetDigits(WordsValue(ws), len, j);
    }
    return true;
  }

  lemma ToBinContents(ws: seq<Word>, len: nat)
    requires 4 * |ws| <= len
    ensures forall j :: 0 <= j < len ==>
      I2osp(WordsValue(ws), len)[len - 1 - j] == if j < 4 * |ws| then Memory(ws)[j] else 0
    ensures forall j :: 0 <= j < len ==>
      I2osp(WordsValue(ws), len)[j] == if len - 1 - j < 4 * |ws| then Memory(ws)[len - 1 - j] else 0
  {
    var v, k := WordsValue(ws), 4 * |ws|;
    MemoryIsLeBytes(ws);
    WordsBelow(ws);
    hide Pow, LeBytes, Memory, WordsValue, I2osp;
    LeBytesSplit(v, 0, k, len - k);
    LeBytesOfZero(len - k);
    BigEndianReverses(v, len);
  }

  lemma WordsBelow(ws: seq<Word>)
    ensures WordsValue(ws) < Pow(256, 4 * |ws|)
  {
    LowWordsBound(ws);
    assert Pow(2, 8) == 256 by { assert Pow(2, 4) == 16; PowAdd(2, 4, 4); }
    PowPow(2, 8, 4 * |ws|);
  }

  /** The memory word at position j of an octet string is zero. */
  predicate ZeroWord(data: seq<Octet>, j: nat)
    requires 4 * j + 4 <= |data|
  {
    data[4 * j] == 0 && data[4 * j + 1] == 0 && data[4 * j + 2] == 0 && data[4 * j + 3] == 0
  }

  /** Length a number keeps when its t words are stored: high zero words are dropped. */
  function Trimmed(data: seq<Octet>, t: nat): (r: nat)
    requires 4 * t <= |data|
    ensures r <= t && (t > 0 ==> r > 0)
  {
    if t > 1 && ZeroWord(data, t - 1) then Trimmed(data, t - 1) else t
  }

  /** v modulo 256^k. */
  function LowOctets(v: nat, k: nat): (r: nat)
    ensures r < Pow(256, k)
    ensures r == v <==> v < Pow(256, k)
  {
    PowPositive(256, k);
    CongMod(v, Pow(256, k));
    if v < Pow(256, k) then
      DivModUnique(v, 0, v, Pow(256, k));
      v % Pow(256, k)
    else
      v % Pow(256, k)
  }

  /** Words of storage fromBin reads back, for an engine with `chunk` words per digit. */
  function StoredWords(data: seq<Octet>, chunk: nat): (r: nat)
    requires 0 < chunk
    ensures r <= |data| / 4
  {
    var t := Trimmed(data, |data| / 4);
    var r := (t + chunk - 1) / chunk * chunk;
    if r <= |data| / 4 then r else |data| / 4
  }

  /** Sizing a number: high zero words go, whole engine digits stay. */
  method SizeOf(data: seq<Octet>, chunk: nat) returns (stored: nat)
    requires 0 < chunk && 4 <= |data|
    ensures stored == StoredWords(data, chunk)
  {
    var t := |data| / 4;
    while t > 1 && ZeroWord(data, t - 1)
      invariant 1 <= t <= |data| / 4
      invariant Trimmed(data, |data| / 4) == Trimmed(data, t)
    {
      t := t - 1;
    }
    stored := (t + chunk - 1) / chunk * chunk;
    if stored > |data| / 4 {
      stored := |data| / 4;
    }
  }

  /**
   fromBin sizes the number by the octets in their original order and then
   overwrites the storage with the reversed ones.
   */
  method FromBin(data: seq<Octet>, len: int, chunk: nat) returns (ok: bool, v: nat)
    requires len <= |data| && len % 4 == 0 && (chunk == 1 || chunk == 2)
    ensures ok <==> len > 0
    ensures ok ==> v == LowOctets(Os2ip(data[..len]), 4 * StoredWords(data[..len], chunk))
  {
    if len <= 0 {
      return false, 0;
    }
    var stored := SizeOf(data[..len], chunk);
    var storage := new Octet[len];
    var i := 0;
    while i < len
      invariant 0 <= i <= len
      invariant forall j :: 0 <= j < i ==> storage[j] == data[len - 1 - j]
    {
      storage[i] := data[len - 1 - i];
      i := i + 1;
    }
    assert storage[..] == Reversed(data[..len]);
    ReadBack(data[..len], 4 * stored);
    return true, LeValue(storage[..][..4 * stored]);
  }

  lemma ReadBack(octets: seq<Octet>, k: nat)
    requires k <= |octets|
    ensures LeValue(Reversed(octets)[..k]) == LowOctets(Os2ip(octets), k)
  {
    Os2ipInverse(octets);
    BigEndianReverses(Os2ip(octets), |octets|);
    ReversedTwice(LeBytes(Os2ip(octets), |octets|));
    LowBytes(Os2ip(octets), k, |octets|);
  }

  lemma {:induction false} Os2ipInverse(s: seq<Octet>)
    ensures I2osp(Os2ip(s), |s|) == s
  {
    if s != [] {
      Os2ipInverse(s[..|s| - 1]);
      assert s == s[..|s| - 1] + [s[|s| - 1]];
    }
  }

  lemma {:induction false} I2ospInverse(v: nat, n: nat)
    requires v < Pow(256, n)
    ensures Os2ip(I2osp(v, n)) == v
  {
    if n > 0 {
      I2ospInverse(v / 256, n - 1);
      assert I2osp(v, n)[..n - 1] == I2osp(v / 256, n - 1);
    }
  }

  /** The k low octets determine v modulo 256^k. */
  lemma {:induction false} LowBytes(v: nat, k: nat, n: nat)
    requires k <= n
    ensures LeValue(LeBytes(v, n)[..k]) == LowOctets(v, k)
  {
    PowPositive(256, k);
    if k == 0 {
      assert v % 1 == 0;
    } else {
      LowBytes(v / 256, k - 1, n - 1);
      assert LeBytes(v, n)[..k][1..] == LeBytes(v / 256, n - 1)[..k - 1];
      PowPositive(256, k - 1);
      LowStep(v, Pow(256, k - 1));
    }
  }

  lemma LowStep(v: nat, p: nat)
    requires 0 < p
    ensures v % (256 * p) == 256 * (v / 256 % p) + v % 256
  {
    var q, r := v / 256 / p, v / 256 % p;
    assert v / 256 == p * q + r;
    assert (256 * p) * q == 256 * (p * q);
    DivModUnique(v, q, 256 * r + v % 256, 256 * p);
  }

  /** What fromBin makes of the octets toBin wrote. */
  function OctetTrip(v: nat, words: nat, chunk: nat): nat
    requires 0 < chunk
  {
    var s := I2osp(v, 4 * words);
    LowOctets(Os2ip(s), 4 * StoredWords(s, chunk))
  }

  /** How many of its lowest 32-bit words are zero, of at most `words`. */
  function LowZeroWords(v: nat, words: nat): (z: nat)
    ensures z <= words
  {
    if words == 0 || v % WORD_BASE != 0 then 0 else 1 + LowZeroWords(v / WORD_BASE, words - 1)
  }

  /** The words fromBin keeps of a number: as many as are left without the low zero words, in whole engine digits. */
  function KeptWords(v: nat, words: nat, chunk: nat): (s: nat)
    requires 0 < chunk
    ensures s <= words
  {
    var z := LowZeroWords(v, words);
    var t := if z == words && 0 < words then 1 else words - z;
    var r := (t + chunk - 1) / chunk * chunk;
    if r <= words then r else words
  }

  /** z low zero words: v is a multiple of 2^(32*z), and unless z is all of them the next word is not zero. */
  lemma {:induction false} LowZeroWordsMeans(v: nat, words: nat)
    ensures var z := LowZeroWords(v, words);
      0 < Pow(2, 32 * z) && v % Pow(2, 32 * z) == 0
      && (z < words ==> v / Pow(2, 32 * z) % 4294967296 != 0)
  {
    PowPositive(2, 32 * LowZeroWords(v, words));
    PowTwo();
    if words > 0 && v % WORD_BASE == 0 {
      var z := LowZeroWords(v / WORD_BASE, words - 1);
      LowZeroWordsMeans(v / WORD_BASE, words - 1);
      PowAdd(2, 32, 32 * z);
      hide Pow;
      QuotientOfQuotient(v, WORD_BASE, Pow(2, 32 * z));
      MultipleOfProduct(v, WORD_BASE, Pow(2, 32 * z));
    } else {
      DivModUnique(v, v, 0, 1);
    }
  }

  lemma MultipleOfProduct(v: nat, b: int, p: int)
    requires 0 < b && 0 < p && v % b == 0 && v / b % p == 0
    ensures 0 < b * p && v % (b * p) == 0
  {
    var k := v / b / p;
    assert v == b * (v / b) && v / b == p * k;
    assert b * (p * k) == (b * p) * k;
    DivModUnique(v, k, 0, b * p);
  }

  /**
   One-word digits keep exactly the words above the low zero words, two-word digits
   one more when their number is odd and there is one; the last word is never dropped.
   */
  lemma KeptWordsMeans(v: nat, words: nat)
    ensures var z := LowZeroWords(v, words);
      z < words ==>
        KeptWords(v, words, 1) == words - z
        && KeptWords(v, words, 2) == if (words - z) % 2 == 0 || z == 0 then words - z else words - z + 1
    ensures 0 < words == LowZeroWords(v, words) ==>
      KeptWords(v, words, 1) == 1 && KeptWords(v, words, 2) == if words == 1 then 1 else 2
  {
  }

  lemma {:induction false} TrimmedPrefix(data: seq<Octet>, n: nat, t: nat)
    requires 4 * t <= n <= |data|
    ensures Trimmed(data[..n], t) == Trimmed(data, t)
  {
    if t > 1 {
      SameWord(data, n, t - 1);
      TrimmedPrefix(data, n, t - 1);
    }
  }

  /** Seen from the octets, the high zero words in memory are the low zero words of the number. */
  lemma {:induction false} TrimmedLowWords(v: nat, words: nat)
    requires 0 < words
    ensures var z := LowZeroWords(v, words);
      Trimmed(I2osp(v, 4 * words), words) == if z == words then 1 else words - z
  {
    LastWord(v, 4 * words - 4);
    if words > 1 && v % WORD_BASE == 0 {
      TrimmedPrefix(I2osp(v, 4 * words), 4 * words - 4, words - 1);
      TrimmedLowWords(v / WORD_BASE, words - 1);
    }
  }

  lemma StoredKept(v: nat, words: nat, chunk: nat)
    requires 0 < chunk
    ensures StoredWords(I2osp(v, 4 * words), chunk) == KeptWords(v, words, chunk)
  {
    if words > 0 {
      TrimmedLowWords(v, words);
    }
  }

  lemma WordPowers(s: nat)
    ensures Pow(256, 4 * s) == Pow(2, 32 * s)
  {
    assert Pow(2, 8) == 256 by { assert Pow(2, 4) == 16; PowAdd(2, 4, 4); }
    PowPow(2, 8, 4 * s);
  }

  /**
   The round trip returns the number exactly when it is below 2^(32*s), s being the
   number of words that remain without its low zero words, rounded up to whole engine
   digits.
   */
  lemma OctetRoundTrip(v: nat, words: nat, chunk: nat)
    requires 0 < chunk && v < Pow(256, 4 * words)
    ensures OctetTrip(v, words, chunk) == v <==> v < Pow(2, 32 * KeptWords(v, words, chunk))
  {
    I2ospInverse(v, 4 * words);
    StoredKept(v, words, chunk);
    WordPowers(KeptWords(v, words, chunk));
  }

  /** In particular whenever the lowest 32-bit word is not zero. */
  lemma OctetRoundTripLowWord(v: nat, words: nat, chunk: nat)
    requires 0 < chunk && 0 < words && v < Pow(256, 4 * words) && v % WORD_BASE != 0
    ensures OctetTrip(v, words, chunk) == v
  {
    hide KeptWords, Pow, OctetTrip;
    AllKept(v, words, chunk);
    WordPowers(words);
    OctetRoundTrip(v, words, chunk);
  }

  /** Without low zero words everything is kept. */
  lemma AllKept(v: nat, words: nat, chunk: nat)
    requires 0 < chunk && 0 < words && v % WORD_BASE != 0
    ensures KeptWords(v, words, chunk) == words
  {
    RoundUp(words, chunk);
  }

  lemma RoundUp(n: nat, chunk: nat)
    requires 0 < chunk
    ensures (n + chunk - 1) / chunk * chunk >= n
  {
    var q, r := (n + chunk - 1) / chunk, (n + chunk - 1) % chunk;
    assert n + chunk - 1 == chunk * q + r;
    assert q * chunk == chunk * q;
  }

  lemma LastOctets(v: nat, n: nat, a: nat, b: nat, c: nat, d: nat)
    requires a == v / 256 && b == a / 256 && c == b / 256 && d == c / 256
    ensures I2osp(v, n + 4) == I2osp(d, n) + [c % 256, b % 256, a % 256, v % 256]
  {
    assert I2osp(c, n + 1) == I2osp(d, n) + [c % 256];
    assert I2osp(b, n + 2) == I2osp(c, n + 1) + [b % 256];
    assert I2osp(a, n + 3) == I2osp(b, n + 2) + [a % 256];
    assert I2osp(v, n + 4) == I2osp(a, n + 3) + [v % 256];
  }

  /** The last word of the octets is zero exactly when the lowest word of the number is. */
  lemma LastWord(v: nat, n: nat)
    requires n % 4 == 0
    ensures I2osp(v, n + 4)[..n] == I2osp(v / WORD_BASE, n)
    ensures ZeroWord(I2osp(v, n + 4), n / 4) <==> v % WORD_BASE == 0
  {
    var a := v / 256;
    var b := a / 256;
    var c := b / 256;
    var d := c / 256;
    LastOctets(v, n, a, b, c, d);
    assert v == 256 * a + v % 256 && a == 256 * b + a % 256 && b == 256 * c + b % 256 && c == 256 * d + c % 256;
    assert v / WORD_BASE == d;
  }

  /** 2^64 in sixteen octets is read back as zero, whichever digit size the engine has. */
  lemma OctetTripLoses(chunk: nat)
    requires chunk == 1 || chunk == 2
    ensures OctetTrip(0x1_0000_0000_0000_0000, 4, chunk) == 0
  {
    var v := 0x1_0000_0000_0000_0000;
    PowAdd(256, 4, 4);
    PowAdd(256, 8, 8);
    PowWord();
    SixteenOctets(v, I2osp(v, 16), chunk);
    I2ospInverse(v, 16);
    DivModUnique(v, 1, 0, v);
  }

  /**
   2^127 + 2^32 in sixteen octets has three words above its low zero word: an engine with
   one-word digits keeps only three and loses the highest, one with two-word digits
   keeps all four.
   */
  lemma RoundingMatters()
    ensures OctetTrip(0x80000000_00000000_00000001_00000000, 4, 2) == 0x80000000_00000000_00000001_00000000
    ensures OctetTrip(0x80000000_00000000_00000001_00000000, 4, 1) == 0x1_00000000
  {
    var v := 0x80000000_00000000_00000001_00000000;
    FourWordPowers();
    assert KeptWords(v, 4, 1) == 3 && KeptWords(v, 4, 2) == 4 by {
      assert LowZeroWords(v, 4) == 1 + LowZeroWords(v / WORD_BASE, 3) == 1;
      KeptWordsMeans(v, 4);
    }
    hide Pow, I2osp, Os2ip, KeptWords, StoredWords;
    I2ospInverse(v, 16);
    StoredKept(v, 4, 1);
    StoredKept(v, 4, 2);
  }

  lemma FourWordPowers()
    ensures Pow(256, 12) == 0x1_00000000_00000000_00000000
    ensures Pow(256, 16) == 0x1_00000000_00000000_00000000_00000000
  {
    PowWord();
    PowAdd(256, 4, 4);
    PowAdd(256, 8, 4);
    PowAdd(256, 12, 4);
  }

  lemma PowWord()
    ensures Pow(256, 4) == WORD_BASE
  {
    assert Pow(256, 2) == 65536;
    PowAdd(256, 2, 2);
  }

  lemma SixteenOctets(v: nat, s: seq<Octet>, chunk: nat)
    requires v == WORD_BASE * WORD_BASE && s == I2osp(v, 16) && (chunk == 1 || chunk == 2)
    ensures StoredWords(s, chunk) == 2
  {
    LastWord(v, 12);
    assert v / WORD_BASE == WORD_BASE;
    LastWord(WORD_BASE, 8);
    LastWord(1, 4);
    var t := I2osp(WORD_BASE, 12);
    assert s[..12] == t && t[..8] == I2osp(1, 8);
    assert ZeroWord(s, 3);
    SameWord(s, 12, 2);
    SameWord(t, 8, 1);
    SameWord(s, 12, 1);
    TwoStored(s, chunk);
  }

  lemma SameWord(s: seq<Octet>, n: nat, j: nat)
    requires 4 * j + 4 <= n <= |s|
    ensures ZeroWord(s[..n], j) == ZeroWord(s, j)
  {
  }

  lemma TwoStored(s: seq<Octet>, chunk: nat)
    requires |s| == 16 && ZeroWord(s, 3) && ZeroWord(s, 2) && !ZeroWord(s, 1) && (chunk == 1 || chunk == 2)
    ensures StoredWords(s, chunk) == 2
  {
    assert Trimmed(s, 4) == Trimmed(s, 3) == Trimmed(s, 2) == 2;
  }
}
