/** format_FLOAT of FLOAT_vfprintf.c: a FLOAT in decimal with six digits after the point. */
module Format {
  import opened Int32

  // ----- decimal digits, as sprintf writes them -----

  function Digit(d: int): char
    requires 0 <= d <= 9
  {
    '0' + d as char
  }

  function DigitValue(c: char): int {
    c as int - '0' as int
  }

  predicate IsDigit(c: char) {
    '0' <= c <= '9'
  }

  predicate AllDigits(s: string) {
    forall i :: 0 <= i < |s| ==> IsDigit(s[i])
  }

  /** %u: decimal without leading zeros. */
  function Decimal(n: nat): (s: string)
    ensures |s| >= 1 && AllDigits(s)
    ensures s[0] == '0' ==> |s| == 1 && n == 0
  {
    if n < 10 then [Digit(n)] else Decimal(n / 10) + [Digit(n % 10)]
  }

  /** %0wu for a number of at most w digits. */
  function Padded(n: nat, w: nat): (s: string)
    ensures |s| == w && AllDigits(s)
  {
    if w == 0 then [] else Padded(n / 10, w - 1) + [Digit(n % 10)]
  }

  /** The number a digit string denotes. */
  function Parse(s: string): int {
    if s == [] then 0 else 10 * Parse(s[..|s| - 1]) + DigitValue(s[|s| - 1])
  }

  lemma {:induction false} ParseDecimal(n: nat)
    ensures Parse(Decimal(n)) == n
  {
    if n >= 10 {
      ParseDecimal(n / 10);
      assert Decimal(n)[..|Decimal(n)| - 1] == Decimal(n / 10);
    }
  }

  function Pow10(w: nat): nat {
    if w == 0 then 1 else 10 * Pow10(w - 1)
  }

  lemma {:induction false} ParsePadded(n: nat, w: nat)
    requires n < Pow10(w)
    ensures Parse(Padded(n, w)) == n
  {
    if w > 0 {
      ParsePadded(n / 10, w - 1);
      assert Padded(n, w)[..w - 1] == Padded(n / 10, w - 1);
    }
  }

  // ----- reading the text back -----

  /** The part before the decimal point, without the sign. */
  function IntegerPart(text: string): string {
    if text == [] || text[0] == '.' then [] else [text[0]] + IntegerPart(text[1..])
  }

  lemma {:induction false} IntegerPartOf(digits: string, rest: string)
    requires AllDigits(digits)
    ensures IntegerPart(digits + "." + rest) == digits
  {
    if digits == [] {
      assert digits + "." + rest == "." + rest;
    } else {
      assert (digits + "." + rest)[1..] == digits[1..] + "." + rest;
      IntegerPartOf(digits[1..], rest);
    }
  }

  predicate IsNegative(text: string) {
    text != [] && text[0] == '-'
  }

  function Unsigned(text: string): string {
    if IsNegative(text) then text[1..] else text
  }

  /** The integer part of the printed magnitude. */
  function Whole(text: string): int {
    Parse(IntegerPart(Unsigned(text)))
  }

  /** The six digits after the point, as a number of millionths. */
  function Millionths(text: string): int {
    var body := Unsigned(text);
    var n := |IntegerPart(body)|;
    if n + 1 <= |body| then Parse(body[n + 1..]) else 0
  }

  /** The printed number, in millionths. */
  function PrintedValue(text: string): int {
    var magnitude := 1000000 * Whole(text) + Millionths(text);
    if IsNegative(text) then -magnitude else magnitude
  }

  /** Digits without leading zeros, a point, and exactly six more digits. */
  predicate HasSixDecimals(text: string) {
    var body := Unsigned(text);
    var n := |IntegerPart(body)|;
    && 1 <= n && |body| == n + 7 && body[n] == '.'
    && AllDigits(body[..n]) && AllDigits(body[n + 1..])
    && (n > 1 ==> body[0] != '0')
  }

  lemma BodyParts(body: string, whole: nat, millionths: nat)
    requires body == Decimal(whole) + "." + Padded(millionths, 6)
    ensures IntegerPart(body) == Decimal(whole) && body[|Decimal(whole)| + 1..] == Padded(millionths, 6)
    ensures !IsNegative(body) && HasSixDecimals(body) && HasSixDecimals("-" + body)
  {
    var digits, six := Decimal(whole), Padded(millionths, 6);
    IntegerPartOf(digits, six);
    assert body[..|digits|] == digits && body[|digits| + 1..] == six;
    assert body[0] == digits[0];
    assert ("-" + body)[1..] == body;
    hide Decimal, Padded, IntegerPart;
  }

  lemma TextParts(whole: nat, millionths: nat, negative: bool)
    requires millionths < 1000000
    ensures var body := Decimal(whole) + "." + Padded(millionths, 6);
            var text := if negative then "-" + body else body;
            && IsNegative(text) == negative
            && Whole(text) == whole
            && Millionths(text) == millionths
            && HasSixDecimals(text)
  {
    var body := Decimal(whole) + "." + Padded(millionths, 6);
    BodyParts(body, whole, millionths);
    ParseDecimal(whole);
    assert Pow10(6) == 1000000;
    ParsePadded(millionths, 6);
    hide Decimal, Padded, Pow10, Parse, IntegerPart, HasSixDecimals;
    assert ("-" + body)[1..] == body;
  }

  // ----- format_FLOAT -----

  /** The FLOAT a text stands for: the least fraction of 2^16 that rounds down to the six digits. */
  function ReadBack(text: string): int {
    0x1_0000 * Whole(text) + (Millionths(text) * 0x1_0000 + 999999) / 1000000
  }

  lemma FractionFromMillionths(fraction: int)
    requires 0 <= fraction < 0x1_0000
    ensures 0 <= fraction * 1000000 / 0x1_0000 < 1000000
    ensures ((fraction * 1000000 / 0x1_0000) * 0x1_0000 + 999999) / 1000000 == fraction
  {
  }

  /** The text is f rounded down to six decimals, all six of them written. */
  predicate Shows(text: string, f: int32) {
    var error := f * 1000000 - PrintedValue(text) * 0x1_0000;
    && HasSixDecimals(text)
    && if f >= 0 then !IsNegative(text) && 0 <= error < 0x1_0000
       else IsNegative(text) && -0x1_0000 < error <= 0
  }

  lemma {:induction false} DecimalLength(n: nat, w: nat)
    requires 1 <= w && n < Pow10(w)
    ensures |Decimal(n)| <= w
  {
    if n >= 10 {
      if w > 1 {
        DecimalLength(n / 10, w - 1);
      }
    }
  }

  /** The text printed for f: a minus sign if f is negative, the high half as an unsigned short, a
      point, and the low half in millionths. */
  function FloatText(f: int32): string {
    var body := Decimal((f / 0x1_0000) % 0x1_0000) + "." + Padded((f % 0x1_0000) * 1000000 / 0x1_0000, 6);
    if f < 0 then "-" + body else body
  }

  lemma PartsMeaning(f: int32, text: string)
    requires HasSixDecimals(text) && (IsNegative(text) <==> f < 0)
    requires Whole(text) == (f / 0x1_0000) % 0x1_0000
    requires Millionths(text) == (f % 0x1_0000) * 1000000 / 0x1_0000
    ensures ReadBack(text) == if f >= 0 then f else f + 0x1_0000_0000
    ensures Shows(text, f) <==> f >= 0 || f == INT_MIN
  {
    hide IsNegative, Whole, Millionths, HasSixDecimals;
    FractionFromMillionths(f % 0x1_0000);
    assert f == (if f < 0 then Whole(text) - 0x1_0000 else Whole(text)) * 0x1_0000 + f % 0x1_0000;
  }

  lemma TextMeaning(f: int32, text: string)
    requires text == FloatText(f)
    ensures HasSixDecimals(text)
    ensures ReadBack(text) == if f >= 0 then f else f + 0x1_0000_0000
    ensures IsNegative(text) <==> f < 0
    ensures Shows(text, f) <==> f >= 0 || f == INT_MIN
    ensures |text| <= 13
  {
    var whole, millionths := (f / 0x1_0000) % 0x1_0000, (f % 0x1_0000) * 1000000 / 0x1_0000;
    FractionFromMillionths(f % 0x1_0000);
    assert Pow10(5) == 100000;
    DecimalLength(whole, 5);
    TextParts(whole, millionths, f < 0);
    hide Decimal, Padded, IsNegative, Whole, Millionths, HasSixDecimals, Pow10, ReadBack, Shows;
    PartsMeaning(f, text);
  }

  /** format_FLOAT.  The sign test compares with 1 and never holds, so a negative f is printed as
      a minus sign and the magnitude f + 2^32: only INT_MIN, which is its own negative, comes out
      right.  The text fits the 80 bytes of the buffer. */
  method FormatFloat(f0: int32) returns (text: string)
    ensures HasSixDecimals(text)
    ensures ReadBack(text) == if f0 >= 0 then f0 else f0 + 0x1_0000_0000
    ensures IsNegative(text) <==> f0 < 0
    ensures Shows(text, f0) <==> f0 >= 0 || f0 == INT_MIN
    ensures |text| < 80
    ensures text == FloatText(f0)
  {
    var f: int32 := f0;
    var sign := if f < 0 then INT_MIN else 0;
    if sign == 1 {
      f := Wrap(0 - f);
    }
    var round: int := (f / 0x1_0000) % 0x1_0000;
    var decimal: int := f % 0x1_0000;
    FractionFromMillionths(decimal);
    decimal := (decimal * 1000000) / 0x1_0000;
    if sign == 0 {
      text := Decimal(round) + "." + Padded(decimal, 6);
    } else {
      text := "-" + Decimal(round) + "." + Padded(decimal, 6);
      assert text == "-" + (Decimal(round) + "." + Padded(decimal, 6));
    }
    TextMeaning(f0, text);
  }

  // ----- the text is the only one -----

  lemma {:induction false} ParseBounds(s: string)
    requires AllDigits(s)
    ensures 0 <= Parse(s) < Pow10(|s|)
    ensures s != [] && s[0] != '0' ==> Pow10(|s| - 1) <= Parse(s)
  {
    if s != [] {
      ParseBounds(s[..|s| - 1]);
    }
  }

  lemma {:induction false} LastDigit(s: string)
    requires AllDigits(s) && s != []
    ensures var n := |s| - 1;
            && AllDigits(s[..n]) && s == s[..n] + [s[n]] && 0 <= DigitValue(s[n]) <= 9
            && Parse(s) == 10 * Parse(s[..n]) + DigitValue(s[n])
  {
    var n := |s| - 1;
    assert s == s[..n] + [s[n]];
    assert IsDigit(s[n]);
  }

  lemma {:induction false} SameDigits(s: string, t: string)
    requires AllDigits(s) && AllDigits(t) && |s| == |t| && Parse(s) == Parse(t)
    ensures s == t
  {
    if s != [] {
      var n := |s| - 1;
      LastDigit(s);
      LastDigit(t);
      hide Parse, AllDigits;
      SameDigits(s[..n], t[..n]);
    }
  }

  lemma {:induction false} Pow10Monotone(m: nat, n: nat)
    requires m <= n
    ensures Pow10(m) <= Pow10(n)
  {
    if m < n {
      Pow10Monotone(m, n - 1);
    }
  }

  lemma {:induction false} FewerDigits(s: string, t: string)
    requires AllDigits(s) && AllDigits(t) && |s| < |t| && t[0] != '0'
    ensures Parse(s) < Parse(t)
  {
    ParseBounds(s);
    ParseBounds(t);
    Pow10Monotone(|s|, |t| - 1);
  }

  /** Without leading zeros a number has one decimal representation only. */
  lemma {:induction false} SameNumber(s: string, t: string)
    requires AllDigits(s) && AllDigits(t) && |s| >= 1 && |t| >= 1 && Parse(s) == Parse(t)
    requires (|s| > 1 ==> s[0] != '0') && (|t| > 1 ==> t[0] != '0')
    ensures s == t
  {
    hide AllDigits, Parse;
    if |s| < |t| {
      FewerDigits(s, t);
    } else if |t| < |s| {
      FewerDigits(t, s);
    } else {
      SameDigits(s, t);
    }
  }

  lemma {:induction false} IntegerPartIsPrefix(text: string)
    ensures |IntegerPart(text)| <= |text|
    ensures IntegerPart(text) == text[..|IntegerPart(text)|]
  {
    if text != [] && text[0] != '.' {
      IntegerPartIsPrefix(text[1..]);
    }
  }

  lemma SplitAtPoint(body: string, n: nat)
    requires n < |body| && body[n] == '.'
    ensures body == body[..n] + "." + body[n + 1..]
  {
  }

  lemma PartsDetermine(s: string, t: string)
    requires HasSixDecimals(s) && HasSixDecimals(t) && IsNegative(s) == IsNegative(t)
    requires Whole(s) == Whole(t) && Millionths(s) == Millionths(t)
    ensures s == t
  {
    hide Parse, IntegerPart, AllDigits;
    var p, q := Unsigned(s), Unsigned(t);
    var m, n := |IntegerPart(p)|, |IntegerPart(q)|;
    IntegerPartIsPrefix(p);
    IntegerPartIsPrefix(q);
    assert Parse(p[..m]) == Parse(q[..n]) && Parse(p[m + 1..]) == Parse(q[n + 1..]);
    SameNumber(p[..m], q[..n]);
    SameDigits(p[m + 1..], q[n + 1..]);
    SplitAtPoint(p, m);
    SplitAtPoint(q, n);
    assert p == q;
    if IsNegative(s) {
      assert s == "-" + p && t == "-" + q;
    }
  }

  lemma MillionthsBounds(text: string)
    requires HasSixDecimals(text)
    ensures 0 <= Millionths(text) < 1000000 && 0 <= Whole(text)
  {
    var body := Unsigned(text);
    var n := |IntegerPart(body)|;
    IntegerPartIsPrefix(body);
    ParseBounds(body[..n]);
    ParseBounds(body[n + 1..]);
    assert Pow10(6) == 1000000;
  }

  /** Only one text shows f. */
  lemma ShownOnce(s: string, t: string, f: int32)
    requires Shows(s, f) && Shows(t, f)
    ensures s == t
  {
    MillionthsBounds(s);
    MillionthsBounds(t);
    assert Whole(s) == Whole(t) && Millionths(s) == Millionths(t) by {
      hide HasSixDecimals, Whole, Millionths, IsNegative;
    }
    PartsDetermine(s, t);
  }

  /** The two examples in the comment on format_FLOAT. */
  lemma DocumentedExamples()
    ensures FloatText(0x1_0000) == "1.000000"
    ensures FloatText(0x1_3333) == "1.199996"
  {
    hide *;
    ExampleText(0x1_0000, 1, 0);
    ExampleText(0x1_3333, 1, 199996);
    SixZeros();
    SixDigits();
  }

  lemma ExampleText(f: int32, whole: nat, millionths: nat)
    requires f >= 0 && f / 0x1_0000 == whole && (f % 0x1_0000) * 1000000 / 0x1_0000 == millionths
    ensures FloatText(f) == Decimal(whole) + "." + Padded(millionths, 6)
  {
    hide Decimal, Padded;
  }

  lemma SixZeros()
    ensures Decimal(1) == "1" && Padded(0, 6) == "000000"
  {
    assert Padded(0, 2) == "00";
    assert Padded(0, 4) == "00" + "00";
  }

  lemma SixDigits()
    ensures Padded(199996, 6) == "199996"
  {
    assert Padded(19, 2) == "19";
    assert Padded(1999, 4) == "19" + "99";
  }
}
