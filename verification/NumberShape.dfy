/**
  What the printed numbers look like (ctbrowser/lib/Core/number_format.cpp). Module
  NumberLayout says which number a text denotes; every notation denotes it, so here is
  which notation is picked, and where its point, its zeros and its exponent stand.
 */
module NumberShape {
  import opened Decimals
  import opened Lists
  import opened NumberRounding
  import opened ScientificDigits
  import opened NumberLayout

  /** No zero in front but zero itself. */
  predicate IsShortest(s: string) { s != "" && AreDigits(s) && (|s| > 1 ==> s[0] != '0') }

  /** No exponent; these digits before the point and those behind it, and no point without digits behind it. */
  predicate ShowsPlain(text: string, whole: string, fraction: string) {
    && 'e' !in text && Whole(text) == whole && Fraction(text) == fraction
    && ('.' in text <==> fraction != "")
  }

  /** The same, then an exponent with its sign and no more digits than it needs. */
  predicate ShowsExponent(text: string, whole: string, fraction: string, e: int) {
    var k := IndexOf(text, 'e');
    && k + 2 < |text|
    && ShowsPlain(text[..k], whole, fraction)
    && text[k + 1] == (if e < 0 then '-' else '+')
    && IsShortest(text[k + 2..]) && ToNat(text[k + 2..]) == Abs(e)
  }

  lemma LacksIs(s: string, c: char)
    ensures Lacks(s, c) <==> c !in s
  {
  }

  lemma PlainShows(whole: string, fraction: string)
    requires AreDigits(whole) && AreDigits(fraction)
    ensures ShowsPlain(whole + PointText(fraction), whole, fraction)
  {
    hide Whole, Fraction, AreDigits;
    BodyParts(whole, fraction);
    LacksIs(whole + PointText(fraction), 'e');
    DigitsLack(whole);
    LacksIs(whole, '.');
    if fraction != "" {
      assert (whole + ("." + fraction))[|whole|] == '.';
    }
  }

  lemma {:induction false} DigitsAreShortest(n: nat)
    ensures IsShortest(Digits(n, 1)) && ToNat(Digits(n, 1)) == n
  {
    DigitsSay(n, 1);
    hide ToNat;
    if n > 0 {
      FirstDigit(n);
    } else {
      assert Digits(0, 1) == [Digit(0)];
    }
  }

  /** A mantissa with an exponent behind it. */
  lemma ExponentBehind(body: string, whole: string, fraction: string, e: int)
    requires ShowsPlain(body, whole, fraction)
    ensures ShowsExponent(body + ExponentText(e), whole, fraction, e)
  {
    hide ShowsPlain, IsShortest, ToNat, Digits;
    var x := Digits(Abs(e), 1);
    PlainLacks(body, whole, fraction);
    FirstLetter(body, if e < 0 then '-' else '+', x);
    DigitsAreShortest(Abs(e));
    ShortestIsSome(x);
    assert ExponentText(e) == "e" + [if e < 0 then '-' else '+'] + x;
  }

  lemma FirstLetter(body: string, sign: char, x: string)
    requires 'e' !in body
    ensures var text := body + ("e" + [sign] + x);
            && IndexOf(text, 'e') == |body| && |text| == |body| + 2 + |x|
            && text[..|body|] == body && text[|body| + 1] == sign && text[|body| + 2..] == x
  {
    var text := body + ("e" + [sign] + x);
    assert forall j :: 0 <= j < |body| ==> text[j] == body[j];
    IndexIs(text, 'e', |body|);
  }

  lemma PlainLacks(body: string, whole: string, fraction: string)
    requires ShowsPlain(body, whole, fraction)
    ensures 'e' !in body
  {
  }

  lemma ShortestIsSome(x: string)
    requires IsShortest(x)
    ensures |x| > 0
  {
  }

  lemma ExponentialShows(s: string, e: int)
    requires s != "" && AreDigits(s)
    ensures ShowsExponent(Exponential(s, e), s[..1], s[1..], e)
  {
    hide ShowsExponent, ShowsPlain, PointText, ExponentText;
    SplitBack(s, 1);
    DigitsSplit(s[..1], s[1..]);
    PlainShows(s[..1], s[1..]);
    ExponentBehind(s[..1] + PointText(s[1..]), s[..1], s[1..], e);
  }

  lemma PointedShows(s: string, n: nat)
    requires n <= |s| && AreDigits(s)
    ensures ShowsPlain(s[..n] + PointText(s[n..]), s[..n], s[n..])
  {
    SplitBack(s, n);
    DigitsSplit(s[..n], s[n..]);
    PlainShows(s[..n], s[n..]);
  }

  lemma SmallShows(s: string, zeros: nat)
    requires s != "" && AreDigits(s)
    ensures ShowsPlain("0." + (Zeros(zeros) + s), "0", Zeros(zeros) + s)
  {
    hide ShowsPlain, Zeros;
    DigitsSplit(Zeros(zeros), s);
    assert AreDigits("0");
    PlainShows("0", Zeros(zeros) + s);
    PointedZero(Zeros(zeros) + s);
  }

  lemma WholeShows(s: string)
    requires AreDigits(s)
    ensures ShowsPlain(s, s, "")
  {
    hide ShowsPlain;
    PlainShows(s, "");
    assert s + PointText("") == s;
  }

  // --- toString -----------------------------------------------------------------------------

  /** The notation of ECMA-262 section 6.1.6.1.20 for the digits `s` of `0.s * 10^n`. */
  lemma LayoutShows(s: string, n: int)
    requires s != "" && AreDigits(s)
    ensures var text := Layout(s, n);
            && ('e' in text <==> n <= -6 || n > 21)
            && (n <= -6 || n > 21 ==> ShowsExponent(text, s[..1], s[1..], n - 1))
            && (|s| <= n <= 21 ==> ShowsPlain(text, s + Zeros(n - |s|), ""))
            && (0 < n < |s| && n <= 21 ==> ShowsPlain(text, s[..n], s[n..]))
            && (-6 < n <= 0 ==> ShowsPlain(text, "0", Zeros(-n) + s))
  {
    hide ShowsPlain, ShowsExponent, Layout, Exponential, Zeros, PointText;
    LayoutCases(s, n);
    if n <= -6 || n > 21 {
      ExponentialShows(s, n - 1);
      ExponentIsThere(Exponential(s, n - 1), s[..1], s[1..], n - 1);
    } else if |s| <= n {
      DigitsSplit(s, Zeros(n - |s|));
      WholeShows(s + Zeros(n - |s|));
      PlainLacks(s + Zeros(n - |s|), s + Zeros(n - |s|), "");
    } else if 0 < n {
      PointedShows(s, n);
      PlainLacks(s[..n] + PointText(s[n..]), s[..n], s[n..]);
    } else {
      SmallShows(s, -n);
      PlainLacks("0." + (Zeros(-n) + s), "0", Zeros(-n) + s);
    }
  }

  lemma ExponentIsThere(text: string, whole: string, fraction: string, e: int)
    requires ShowsExponent(text, whole, fraction, e)
    ensures 'e' in text
  {
  }

  // --- toPrecision and toExponential -------------------------------------------------------

  /** The notation of ECMA-262 section 21.1.3.5 for the digits `s` of `s[0].s[1..] * 10^e`. */
  lemma PrecisionShows(s: string, e: int)
    requires s != "" && AreDigits(s)
    ensures var text := Precision(s, e);
            && ('e' in text <==> e < -6 || e >= |s|)
            && (e < -6 || e >= |s| ==> ShowsExponent(text, s[..1], s[1..], e))
            && (0 <= e < |s| ==> ShowsPlain(text, s[..e + 1], s[e + 1..]))
            && (-6 <= e < 0 ==> ShowsPlain(text, "0", Zeros(-e - 1) + s))
  {
    hide ShowsPlain, ShowsExponent, Exponential, Zeros, PointText;
    if e < -6 || e >= |s| {
      ExponentialShows(s, e);
      ExponentIsThere(Exponential(s, e), s[..1], s[1..], e);
    } else if e >= 0 {
      PointedShows(s, e + 1);
      PlainLacks(s[..e + 1] + PointText(s[e + 1..]), s[..e + 1], s[e + 1..]);
    } else {
      SmallShows(s, -e - 1);
      PlainLacks("0." + (Zeros(-e - 1) + s), "0", Zeros(-e - 1) + s);
    }
  }

  /**
    toPrecision picks the exponent notation exactly when the rounded value's exponent is
    below -6 or not below the digits asked for; else it shows e + 1 digits before the point
    and all digits asked for, with a point only if digits are left behind it, or zeros
    behind "0." up to the first digit.
   */
  lemma PrecisionTextShows(x: Magnitude, sig: nat)
    requires sig > 0
    ensures var (n, e) := ScientificUp(x, sig);
            var (text, s) := (PrecisionText(x, sig), Digits(n, sig));
            && |s| == sig && ToNat(s) == n
            && ('e' in text <==> e < -6 || e >= sig)
            && (e < -6 || e >= sig ==> ShowsExponent(text, s[..1], s[1..], e))
            && (0 <= e < sig ==> ShowsPlain(text, s[..e + 1], s[e + 1..]))
            && (-6 <= e < 0 ==> ShowsPlain(text, "0", Zeros(-e - 1) + s))
  {
    hide ShowsPlain, ShowsExponent, ScientificUp, Precision, Digits, ToNat, Zeros;
    var (n, e) := ScientificUp(x, sig);
    DigitsOfUp(x, sig);
    DigitsSay(n, sig);
    PrecisionShows(Digits(n, sig), e);
  }

  /** toExponential shows one digit, as many more as were asked for, and the exponent. */
  lemma ExponentialTextShows(x: Magnitude, places: nat)
    ensures var (n, e) := ScientificUp(x, places + 1);
            var s := Digits(n, places + 1);
            && |s| == places + 1 && ToNat(s) == n
            && ShowsExponent(ExponentialText(x, places), s[..1], s[1..], e)
  {
    hide ShowsExponent, ScientificUp, Exponential, Digits, ToNat;
    var (n, e) := ScientificUp(x, places + 1);
    DigitsOfUp(x, places + 1);
    DigitsSay(n, places + 1);
    ExponentialShows(Digits(n, places + 1), e);
  }

  /** Without an argument it shows the digits there are. */
  lemma ShortestExponentialShows(x: Magnitude, digits: string, n: int)
    requires x.m > 0 && IsStripped(digits)
    ensures ShowsExponent(ShortestExponential(x, digits, n), digits[..1], digits[1..], n - 1)
  {
    hide ShowsExponent, Exponential;
    ExponentialShows(digits, n - 1);
  }

  // --- toFixed --------------------------------------------------------------------------------

  lemma {:induction false} OnlyNeededZeros(n: nat, width: nat)
    requires width > 0
    ensures |Digits(n, width)| > width ==> Digits(n, width)[0] != '0'
    decreases n + width
  {
    if n >= 10 || width > 1 {
      var w := width - 1;
      if w == 0 {
        FirstDigit(n / 10);
      } else {
        OnlyNeededZeros(n / 10, w);
      }
    }
  }

  /** toFixed shows exactly the places asked for, and before the point no zero it could spare. */
  lemma FixedShows(n: nat, places: nat)
    ensures var s := Digits(n, places + 1);
            var point := |s| - places;
            && ShowsPlain(FixedText(n, places), s[..point], s[point..])
            && IsShortest(s[..point]) && ToNat(s) == n
  {
    hide ShowsPlain, ToNat, Digits, PointText;
    var s := Digits(n, places + 1);
    var point := |s| - places;
    DigitsSay(n, places + 1);
    OnlyNeededZeros(n, places + 1);
    FixedParts(s, point);
    PointedShows(s, point);
    SplitBack(s, point);
    DigitsSplit(s[..point], s[point..]);
    assert |s[..point]| > 1 ==> s[..point][0] == s[0];
    assert IsShortest(s[..point]);
  }
}
