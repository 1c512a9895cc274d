/** The numerals vprintf writes for %d, %u and %x, and what makes them the right ones. */
module Numerals {
  import opened Machine
  import opened Console

  const SLOTS := 11
  const MINUS: char8 := 0x2D

  /** A signed 32-bit value. */
  type int32 = x: int | -0x8000_0000 <= x < 0x8000_0000

  function Signed(w: uint32): (i: int32)
    ensures (i - w) % TWO32 == 0
  {
    if w < 0x8000_0000 then w else w - TWO32
  }

  /** The digit characters, lower case as in the string hex. */
  function Digit(d: int): char8
    requires 0 <= d < 16
  {
    if d < 10 then 0x30 + d else 0x61 + (d - 10)
  }

  /** The digits are the characters of the string hex. */
  lemma DigitIsHex(d: int)
    requires 0 <= d < 16
    ensures Digit(d) == "0123456789abcdef"[d] as int && DigitValue(Digit(d)) == d && MINUS == '-' as int
  {
  }

  /** %x takes its digits off with a mask and a shift. */
  lemma HexStepIsDivision(u: bv32)
    ensures u & 0xF == u % 16 && u >> 4 == u / 16
  {
  }

  function DigitValue(c: char8): int {
    if 0x30 <= c <= 0x39 then c - 0x30 else if 0x61 <= c <= 0x66 then c - 0x61 + 10 else -1
  }

  /** The base-b numeral of n, most significant digit first. */
  function Numeral(n: nat, b: int): (s: seq<char8>)
    requires 2 <= b <= 16
    ensures |s| > 0
    decreases n
  {
    if n < b then [Digit(n)] else Quotient(n, b); Numeral(n / b, b) + [Digit(n % b)]
  }

  lemma Quotient(n: nat, b: int)
    requires b >= 2 && n >= b
    ensures 0 < n / b < n
  {
  }

  /** Every character a digit of the base. */
  predicate AllDigits(s: seq<char8>, b: int) {
    forall i :: 0 <= i < |s| ==> 0 <= DigitValue(s[i]) < b
  }

  /** The number a digit string denotes, by Horner's rule. */
  function Parse(s: seq<char8>, b: int): int {
    if s == [] then 0 else Parse(s[..|s| - 1], b) * b + DigitValue(s[|s| - 1])
  }

  /** Digits of the base, without a zero in front of another digit. */
  predicate Canonical(s: seq<char8>, b: int) {
    |s| > 0 && AllDigits(s, b) && (DigitValue(s[0]) == 0 ==> |s| == 1)
  }

  lemma DigitRead(d: int)
    requires 0 <= d < 16
    ensures DigitValue(Digit(d)) == d
  {
  }

  lemma ParseNext(s: seq<char8>, c: char8, b: int)
    ensures Parse(s + [c], b) == Parse(s, b) * b + DigitValue(c)
  {
    assert (s + [c])[..|s + [c]| - 1] == s;
  }

  lemma CanonicalNext(s: seq<char8>, c: char8, b: int)
    requires Canonical(s, b) && DigitValue(s[0]) != 0 && 0 <= DigitValue(c) < b
    ensures Canonical(s + [c], b)
  {
    hide DigitValue;
  }

  /** The numeral is canonical and reads back as the number. */
  lemma {:induction false} NumeralParses(n: nat, b: int)
    requires 2 <= b <= 16
    ensures Canonical(Numeral(n, b), b) && Parse(Numeral(n, b), b) == n
    ensures DigitValue(Numeral(n, b)[0]) == 0 <==> n == 0
    decreases n
  {
    hide Digit, DigitValue, Parse, Canonical, AllDigits;
    DigitRead(n % b);
    if n < b {
      OneDigit(n, b);
    } else {
      Quotient(n, b);
      NumeralParses(n / b, b);
      var front := Numeral(n / b, b);
      ParseNext(front, Digit(n % b), b);
      CanonicalNext(front, Digit(n % b), b);
      assert (n / b) * b + n % b == n;
    }
  }

  lemma OneDigit(n: nat, b: int)
    requires n < b <= 16
    ensures Canonical([Digit(n)], b) && Parse([Digit(n)], b) == n && DigitValue(Digit(n)) == n
  {
  }

  /** It is the only canonical numeral of its value. */
  lemma {:induction false} NumeralIsUnique(s: seq<char8>, b: int)
    requires 2 <= b <= 16 && Canonical(s, b)
    ensures Parse(s, b) >= 0 && s == Numeral(Parse(s, b), b)
    ensures |s| > 1 ==> Parse(s, b) >= b
  {
    var front, last := s[..|s| - 1], s[|s| - 1];
    if |s| == 1 {
      assert Parse(s, b) == DigitValue(last);
      assert Digit(DigitValue(last)) == last;
    } else {
      assert DigitValue(s[0]) > 0;
      NumeralIsUnique(front, b);
      FrontPositive(front, b);
      Horner(Parse(front, b), DigitValue(last), b);
      assert Digit(DigitValue(last)) == last;
    }
  }

  lemma {:induction false} FrontPositive(s: seq<char8>, b: int)
    requires 2 <= b <= 16 && |s| > 0 && AllDigits(s, b) && DigitValue(s[0]) > 0
    ensures Parse(s, b) >= 1
  {
    if |s| == 1 {
      assert Parse(s, b) == DigitValue(s[0]);
    } else {
      FrontPositive(s[..|s| - 1], b);
      Horner(Parse(s[..|s| - 1], b), DigitValue(s[|s| - 1]), b);
    }
  }

  lemma Horner(q: int, d: int, b: int)
    requires q >= 1 && 0 <= d < b
    ensures q * b + d >= b && (q * b + d) / b == q && (q * b + d) % b == d
  {
    assert q * b >= b;
    DivIs(q, d, b);
  }

  lemma DivIs(q: int, d: int, b: int)
    requires 0 <= d < b
    ensures (q * b + d) / b == q && (q * b + d) % b == d
  {
    var n := q * b + d;
    Difference(n / b, q, b);
    Multiple(n / b - q, b);
  }

  lemma Difference(x: int, y: int, b: int)
    ensures (x - y) * b == x * b - y * b
  {
  }

  lemma Multiple(e: int, b: int)
    requires b > 0
    ensures (e >= 1 ==> e * b >= b) && (e <= -1 ==> e * b <= -b)
  {
  }

  function Power(b: nat, e: nat): nat {
    if e == 0 then 1 else b * Power(b, e - 1)
  }

  /** A numeral has at most e digits exactly when the value is below b to the e. */
  lemma {:induction false} LengthIff(n: nat, b: int, e: nat)
    requires 2 <= b <= 16 && e >= 1
    ensures |Numeral(n, b)| <= e <==> n < Power(b, e)
    decreases n
  {
    if n < b {
      PowerAtLeast(b, e);
    } else if e == 1 {
      Quotient(n, b);
      assert Power(b, 1) == b * Power(b, 0);
    } else {
      Quotient(n, b);
      LengthIff(n / b, b, e - 1);
      BelowProduct(n, b, Power(b, e - 1));
    }
  }

  lemma {:induction false} PowerAtLeast(b: nat, e: nat)
    requires b >= 2 && e >= 1
    ensures Power(b, e) >= b
  {
    if e > 1 {
      PowerAtLeast(b, e - 1);
      assert b * Power(b, e - 1) >= b * 1;
    } else {
      assert Power(b, 0) == 1;
    }
  }

  lemma BelowProduct(n: nat, b: int, p: nat)
    requires b >= 2
    ensures n / b < p <==> n < b * p
  {
    var q, r := n / b, n % b;
    assert n == q * b + r;
    if q < p {
      assert q + 1 <= p;
      assert (q + 1) * b <= p * b;
    } else {
      assert q * b >= p * b;
    }
  }

  /** What %d writes for a word. */
  function SignedNumeral(i: int): seq<char8> {
    if i < 0 then [MINUS] + Numeral(-i, 10) else Numeral(i, 10)
  }

  /** The magnitude vprintf works on is the 32-bit negation; it is right at the minimum too. */
  lemma NegationIsRight(w: uint32)
    requires Signed(w) < 0
    ensures Wrap(-(w as int)) == -(Signed(w) as int)
  {
  }

  /** Eleven slots always suffice for a word, in any of the three directives, and ten would
      not: %d needs the last one exactly from -1000000000 down. */
  lemma ElevenSlots(w: uint32)
    ensures |SignedNumeral(Signed(w))| <= SLOTS
    ensures |SignedNumeral(Signed(w))| == SLOTS <==> Signed(w) <= -1_000_000_000
    ensures |Numeral(w, 10)| <= SLOTS - 1 && |Numeral(w, 16)| <= SLOTS - 3
  {
    Powers();
    LengthIff(w, 10, 10);
    LengthIff(w, 16, 8);
    if Signed(w) < 0 {
      LengthIff(-(Signed(w) as int), 10, 10);
      LengthIff(-(Signed(w) as int), 10, 9);
    } else {
      LengthIff(Signed(w), 10, 10);
    }
  }

  lemma Powers()
    ensures Power(10, 9) == 1_000_000_000 && Power(10, 10) == 10_000_000_000 && Power(16, 8) == TWO32
  {
    assert Power(10, 3) == 1000;
    assert Power(10, 6) == 1000 * Power(10, 3);
    assert Power(10, 9) == 1000 * Power(10, 6);
    assert Power(16, 4) == 65536;
    assert Power(16, 8) == 65536 * Power(16, 4);
  }

  /** The value %d's text denotes. */
  function ParseSigned(s: seq<char8>): int {
    if |s| > 0 && s[0] == MINUS then -Parse(s[1..], 10) else Parse(s, 10)
  }

  lemma SignedParses(i: int)
    ensures ParseSigned(SignedNumeral(i)) == i
    ensures Canonical(if i < 0 then SignedNumeral(i)[1..] else SignedNumeral(i), 10)
  {
    NumeralParses(if i < 0 then -i else i, 10);
    if i < 0 {
      assert SignedNumeral(i)[1..] == Numeral(-i, 10);
    } else {
      assert DigitValue(Numeral(i, 10)[0]) != DigitValue(MINUS);
    }
  }
}
