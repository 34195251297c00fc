/**
  Where the point goes: the layouts of number_to_string, number_to_precision and
  number_to_exponential (ctbrowser/lib/Core/number_format.cpp). A layout is proved against
  what a decimal literal means: whatever the notation, it denotes the digits it was given.
 */
module NumberLayout {
  import opened Decimals
  import opened Lists
  import opened NumberRounding
  import opened ScientificDigits

  // --- What a literal means -----------------------------------------------------------------

  function NatOf(s: string): (n: nat) { if AreDigits(s) then ToNat(s) else 0 }

  /** The digits before and after the point, if there is one. */
  function Whole(body: string): (s: string) { body[..IndexOf(body, '.')] }

  function Fraction(body: string): (s: string) {
    var p := IndexOf(body, '.');
    if p == |body| then "" else body[p + 1..]
  }

  /** A decimal literal as a number `r.0 * 10^r.1`. */
  function Meaning(s: string): (r: (nat, int)) {
    var k := IndexOf(s, 'e');
    var exponent := if k == |s| then 0 else ReadExponent(s[k + 1..]);
    (NatOf(Whole(s[..k]) + Fraction(s[..k])), exponent - |Fraction(s[..k])|)
  }

  /** `m * 10^e == n * 10^f`. */
  predicate SameValue(m: nat, e: int, n: nat, f: int) {
    if e <= f then m == n * Pow(10, f - e) else n == m * Pow(10, e - f)
  }

  /** A sign always, and the fewest digits (`append_exponent`). */
  function ExponentText(e: int): (s: string) { "e" + (if e < 0 then "-" else "+") + Digits(Abs(e), 1) }

  function PointText(fraction: string): (s: string) { if fraction == "" then "" else "." + fraction }

  predicate EndsAt(tail: string, e: int) {
    (tail == "" && e == 0) || (tail != "" && tail[0] == 'e' && ReadExponent(tail[1..]) == e)
  }

  predicate Lacks(s: string, c: char) { forall i :: 0 <= i < |s| ==> s[i] != c }

  lemma DigitsLack(s: string)
    requires AreDigits(s)
    ensures Lacks(s, 'e') && Lacks(s, '.')
  {
    assert forall i :: 0 <= i < |s| ==> IsDigit(s[i]);
  }

  lemma BodyParts(whole: string, fraction: string)
    requires AreDigits(whole) && AreDigits(fraction)
    ensures var body := whole + PointText(fraction);
            Lacks(body, 'e') && Whole(body) == whole && Fraction(body) == fraction
  {
    hide *;
    DigitsLack(whole);
    DigitsLack(fraction);
    PointSplits(whole, fraction);
  }

  lemma PointSplits(whole: string, fraction: string)
    requires Lacks(whole, '.') && Lacks(whole, 'e') && Lacks(fraction, 'e')
    ensures var body := whole + PointText(fraction);
            Lacks(body, 'e') && Whole(body) == whole && Fraction(body) == fraction
  {
    if fraction == "" {
      NoPoint(whole);
      IndexIs(whole, '.', |whole|);
    } else {
      PointedSplits(whole, fraction);
    }
  }

  lemma PointedSplits(whole: string, fraction: string)
    requires Lacks(whole, '.') && Lacks(whole, 'e') && Lacks(fraction, 'e')
    ensures var body := whole + ("." + fraction);
            Lacks(body, 'e') && Whole(body) == whole && Fraction(body) == fraction
  {
    var body := whole + ("." + fraction);
    assert forall i :: 0 <= i < |whole| ==> body[i] == whole[i];
    assert forall i :: 0 <= i < |fraction| ==> body[|whole| + 1 + i] == fraction[i];
    IndexIs(body, '.', |whole|);
    assert body[..|whole|] == whole;
    assert body[|whole| + 1..] == fraction;
  }

  lemma TailOff(body: string, tail: string, e: int)
    requires Lacks(body, 'e') && EndsAt(tail, e)
    ensures Meaning(body + tail) == (NatOf(Whole(body) + Fraction(body)), e - |Fraction(body)|)
  {
    hide Whole, Fraction, NatOf, ReadExponent;
    var s := body + tail;
    IndexIs(s, 'e', |body|);
    assert s[..|body|] == body;
    assert tail != "" ==> s[|body| + 1..] == tail[1..];
  }

  /** Digits, a point and digits, an exponent: what they mean together. */
  lemma MeaningOf(whole: string, fraction: string, tail: string, e: int)
    requires AreDigits(whole + fraction) && EndsAt(tail, e)
    ensures Meaning(whole + PointText(fraction) + tail) == (ToNat(whole + fraction), e - |fraction|)
  {
    DigitsSplit(whole, fraction);
    hide EndsAt, Meaning, ToNat, Whole, Fraction, PointText, AreDigits;
    BodyParts(whole, fraction);
    TailOff(whole + PointText(fraction), tail, e);
  }

  lemma MeaningPlain(whole: string, fraction: string)
    requires AreDigits(whole + fraction)
    ensures Meaning(whole + PointText(fraction)) == (ToNat(whole + fraction), -|fraction|)
  {
    hide Meaning, ToNat, PointText, AreDigits;
    MeaningOf(whole, fraction, "", 0);
    assert whole + PointText(fraction) + "" == whole + PointText(fraction);
  }

  lemma DigitsSplit(a: string, b: string)
    ensures AreDigits(a + b) <==> AreDigits(a) && AreDigits(b)
  {
    assert forall i :: 0 <= i < |a| ==> (a + b)[i] == a[i];
    assert forall i :: 0 <= i < |b| ==> (a + b)[|a| + i] == b[i];
  }

  lemma SignedDigits(e: int, digits: string)
    requires AreDigits(digits) && digits != "" && ToNat(digits) == Abs(e)
    ensures ReadExponent((if e < 0 then "-" else "+") + digits) == e
  {
    AllLeading(digits);
    hide ToNat;
    assert ("-" + digits)[1..] == digits && ("+" + digits)[1..] == digits;
    assert IsDigit(digits[0]);
  }

  lemma ExponentEnds(e: int)
    ensures EndsAt(ExponentText(e), e)
  {
    hide Digits, ReadExponent, ToNat;
    DigitsSay(Abs(e), 1);
    SignedDigits(e, Digits(Abs(e), 1));
    assert ExponentText(e)[1..] == (if e < 0 then "-" else "+") + Digits(Abs(e), 1);
  }

  // --- The five layouts of number_to_string ------------------------------------------------------

  /** `d.ddde+x`, the fewest exponent digits. */
  function Exponential(s: string, e: int): (text: string)
    requires s != ""
  {
    s[..1] + PointText(s[1..]) + ExponentText(e)
  }

  /** ECMA-262 section 6.1.6.1.20: the digits `s` of `0.s * 10^n`. */
  function Layout(s: string, n: int): (text: string)
    requires s != ""
  {
    if |s| <= n <= 21 then s + Zeros(n - |s|)
    else if 0 < n <= 21 then s[..n] + PointText(s[n..])
    else if -6 < n <= 0 then "0." + (Zeros(-n) + s)
    else Exponential(s, n - 1)
  }

  /** The printing half of `number_to_string`, from the shortest digits on. */
  method LayOut(s: string, n: int, negative: bool) returns (out: string)
    requires s != ""
    ensures out == if negative then "-" + Layout(s, n) else Layout(s, n)
  {
    hide Zeros, Digits, ExponentText;
    var k := |s|;
    var text := "";
    if k <= n && n <= 21 {
      text := s;
      text := text + Zeros(n - k);
    } else if 0 < n && n <= 21 {
      text := s[..n];
      text := text + ".";
      text := text + s[n..];
      Lists.Regroup(s[..n], ".", s[n..]);
    } else if -6 < n && n <= 0 {
      text := "0.";
      text := text + Zeros(-n);
      text := text + s;
      Lists.Regroup("0.", Zeros(-n), s);
    } else if k == 1 {
      text := s;
      text := text + ExponentText(n - 1);
      assert s[..1] + PointText(s[1..]) == s;
    } else {
      text := s[..1];
      text := text + ".";
      text := text + s[1..];
      text := text + ExponentText(n - 1);
      Lists.Regroup(s[..1], ".", s[1..]);
    }
    assert text == Layout(s, n);
    return if negative then "-" + text else text;
  }

  lemma SplitBack(s: string, n: nat)
    requires n <= |s|
    ensures s[..n] + s[n..] == s && |s[n..]| == |s| - n
  {
  }

  lemma LayoutCases(s: string, n: int)
    requires s != ""
    ensures |s| <= n <= 21 ==> Layout(s, n) == s + Zeros(n - |s|)
    ensures 0 < n <= 21 && n < |s| ==> Layout(s, n) == s[..n] + PointText(s[n..])
    ensures -6 < n <= 0 ==> Layout(s, n) == "0." + (Zeros(-n) + s)
    ensures n <= -6 || n > 21 ==> Layout(s, n) == Exponential(s, n - 1)
  {
  }

  lemma PointedMeans(s: string, n: nat)
    requires n <= |s| && AreDigits(s)
    ensures Meaning(s[..n] + PointText(s[n..])) == (ToNat(s), n - |s|)
  {
    hide *;
    SplitBack(s, n);
    MeaningPlain(s[..n], s[n..]);
  }

  lemma LayoutMeans(s: string, n: int)
    requires s != "" && AreDigits(s)
    ensures Meaning(Layout(s, n)) == if |s| <= n <= 21 then (ToNat(s) * Pow(10, n - |s|), 0) else (ToNat(s), n - |s|)
  {
    hide *;
    LayoutCases(s, n);
    if |s| <= n <= 21 {
      PaddedMeans(s, n - |s|);
    } else if 0 < n <= 21 {
      PointedMeans(s, n);
    } else if -6 < n <= 0 {
      SmallMeans(s, -n);
    } else {
      ExponentialDenotes(s, n - 1);
    }
  }

  /** Whatever the layout, the text denotes `0.s * 10^n`. */
  lemma LayoutDenotes(s: string, n: int)
    requires s != "" && AreDigits(s)
    ensures var (m, e) := Meaning(Layout(s, n)); SameValue(m, e, ToNat(s), n - |s|)
  {
    hide Layout, Meaning, ToNat, Pow, AreDigits;
    LayoutMeans(s, n);
    PowZero();
  }

  lemma ExponentialDenotes(s: string, e: int)
    requires s != "" && AreDigits(s)
    ensures Meaning(Exponential(s, e)) == (ToNat(s), e - |s| + 1)
  {
    hide Meaning, ToNat, PointText, AreDigits, EndsAt;
    ExponentEnds(e);
    SplitBack(s, 1);
    MeaningOf(s[..1], s[1..], ExponentText(e), e);
  }

  lemma NoPoint(s: string)
    ensures s + PointText("") == s && s + "" == s
  {
  }

  lemma WholeMeans(s: string)
    requires AreDigits(s)
    ensures Meaning(s) == (ToNat(s), 0)
  {
    hide Meaning, ToNat, PointText, AreDigits;
    NoPoint(s);
    MeaningPlain(s, "");
  }

  lemma PaddedMeans(s: string, zeros: nat)
    requires s != "" && AreDigits(s)
    ensures Meaning(s + Zeros(zeros)) == (ToNat(s) * Pow(10, zeros), 0)
  {
    hide Meaning, ToNat, Pow, AreDigits, Zeros;
    ToNatConcat(s, Zeros(zeros));
    ZerosSay(zeros);
    WholeMeans(s + Zeros(zeros));
  }

  lemma PointedZero(fraction: string)
    requires fraction != ""
    ensures "0." + fraction == "0" + PointText(fraction)
  {
  }

  lemma SmallMeans(s: string, zeros: nat)
    requires s != "" && AreDigits(s)
    ensures Meaning("0." + (Zeros(zeros) + s)) == (ToNat(s), -(zeros as int) - |s|)
  {
    hide *;
    ToNatConcat(Zeros(zeros), s);
    ZerosSay(zeros);
    var fraction := Zeros(zeros) + s;
    ZeroInFront(fraction);
    PointedZero(fraction);
    MeaningPlain("0", fraction);
  }

  // --- Distinct numbers, distinct texts ---------------------------------------------------------------

  /** As the shortest digits are: no zero in front, none at the end. */
  predicate IsStripped(s: string) { s != "" && AreDigits(s) && s[0] != '0' && s[|s| - 1] != '0' }

  lemma {:induction false} TensAreUnique(a: nat, i: nat, b: nat, j: nat)
    requires a % 10 != 0 && b % 10 != 0 && a * Pow(10, i) == b * Pow(10, j)
    ensures a == b && i == j
    decreases i
  {
    if i > 0 && j > 0 {
      MulAssoc(a, 10, Pow(10, i - 1));
      MulAssoc(b, 10, Pow(10, j - 1));
      MulAssoc(10, a, Pow(10, i - 1));
      MulAssoc(10, b, Pow(10, j - 1));
      TensAreUnique(a, i - 1, b, j - 1);
    } else if i > 0 {
      EvenTens(a, i);
    } else if j > 0 {
      EvenTens(b, j);
    }
  }

  lemma EvenTens(a: nat, i: nat)
    requires i > 0
    ensures a * Pow(10, i) % 10 == 0
  {
    var p := Pow(10, i - 1);
    assert Pow(10, i) == 10 * p;
    hide Pow;
    MulAssoc(a, 10, p);
    MulAssoc(10, a, p);
    TenTimes(a * p);
  }

  lemma TenTimes(n: nat)
    ensures 10 * n % 10 == 0
  {
  }

  /** A number has one form whose mantissa ends in no zero. */
  lemma StrippedFormIsUnique(m: nat, e: int, a: nat, x: int, b: nat, y: int)
    requires a % 10 != 0 && b % 10 != 0 && SameValue(m, e, a, x) && SameValue(m, e, b, y)
    ensures a == b && x == y
  {
    if e > x {
      EvenTens(m, e - x);
    } else if e > y {
      EvenTens(m, e - y);
    } else {
      TensAreUnique(a, x - e, b, y - e);
    }
  }

  lemma StrippedNumber(s: string)
    requires IsStripped(s)
    ensures ToNat(s) % 10 != 0 && Pow(10, |s| - 1) <= ToNat(s) < Pow(10, |s|)
  {
    ToNatBound(s);
    assert s == s[..1] + s[1..];
    FirstDigitCounts(s);
  }

  lemma FirstDigitCounts(s: string)
    requires s != "" && AreDigits(s) && s[0] != '0'
    ensures Pow(10, |s| - 1) <= ToNat(s)
  {
    var first, rest := s[..1], s[1..];
    assert s == first + rest;
    ToNatConcat(first, rest);
    assert first[..0] == "" && ToNat(first) >= 1;
    MulMono(1, ToNat(first), Pow(10, |rest|));
  }

  lemma SameLength(a: string, b: string)
    requires IsStripped(a) && IsStripped(b) && ToNat(a) == ToNat(b)
    ensures |a| == |b|
  {
    StrippedNumber(a);
    StrippedNumber(b);
    if |a| < |b| {
      PowGrows(10, |a|, |b| - 1);
    } else if |b| < |a| {
      PowGrows(10, |b|, |a| - 1);
    }
  }

  /** Two stripped digit strings laid out to one text are one number. */
  lemma LayoutIsInjective(s: string, n: int, t: string, m: int)
    requires IsStripped(s) && IsStripped(t) && Layout(s, n) == Layout(t, m)
    ensures s == t && n == m
  {
    hide Layout, Meaning, ToNat, SameValue, Pow;
    LayoutDenotes(s, n);
    LayoutDenotes(t, m);
    StrippedNumber(s);
    StrippedNumber(t);
    var (v, e) := Meaning(Layout(s, n));
    StrippedFormIsUnique(v, e, ToNat(s), n - |s|, ToNat(t), m - |t|);
    SameLength(s, t);
    SameNumberSameDigits(s, t);
  }

  // --- The integer fast path -----------------------------------------------------------------------------

  function WithoutZeros(s: string): (r: string)
    ensures |r| <= |s|
  {
    if s != "" && s[|s| - 1] == '0' then WithoutZeros(s[..|s| - 1]) else s
  }

  lemma {:induction false} ZerosBack(s: string)
    ensures s == WithoutZeros(s) + Zeros(|s| - |WithoutZeros(s)|)
    decreases |s|
  {
    var w := WithoutZeros(s);
    if s != "" && s[|s| - 1] == '0' {
      var front, more := s[..|s| - 1], |s| - 1 - |w|;
      ZerosBack(front);
      assert s == front + ['0'];
      OneMoreZero(w, more);
    } else {
      NoZeros(s);
    }
  }

  lemma OneMoreZero(w: string, more: nat)
    ensures w + Zeros(more) + ['0'] == w + Zeros(more + 1)
  {
    Lists.Regroup(w, Zeros(more), ['0']);
  }

  lemma NoZeros(s: string)
    ensures s + Zeros(0) == s
  {
  }

  lemma {:induction false} EndsInNoZero(s: string)
    ensures WithoutZeros(s) != "" ==> WithoutZeros(s)[|WithoutZeros(s)| - 1] != '0'
    decreases |s|
  {
    if s != "" && s[|s| - 1] == '0' {
      EndsInNoZero(s[..|s| - 1]);
    }
  }

  lemma MoreThanTen(n: nat, most: nat)
    requires 10 <= n < Pow(10, most)
    ensures most > 1
  {
    PowZero();
    PowTen(1);
  }

  lemma {:induction false} DigitsAtMost(n: nat, most: nat)
    requires most > 0 && n < Pow(10, most)
    ensures |Digits(n, 1)| <= most && |Digits(n, 0)| <= most
    decreases most
  {
    if n >= 10 {
      MoreThanTen(n, most);
      DigitsAtMost(n / 10, most - 1);
    }
  }

  lemma {:induction false} FirstDigit(n: nat)
    requires n > 0
    ensures Digits(n, 1)[0] != '0' && Digits(n, 0)[0] != '0'
    decreases n
  {
    if n >= 10 {
      FirstDigit(n / 10);
    }
  }

  lemma NotAllZeros(s: string)
    requires s != "" && s[0] != '0'
    ensures WithoutZeros(s) != ""
    decreases |s|
  {
    if s[|s| - 1] == '0' {
      NotAllZeros(s[..|s| - 1]);
    }
  }

  /** The digits of a positive integer without its trailing zeros. */
  lemma IntegerStrips(v: nat)
    requires 0 < v < Pow(10, 21)
    ensures var s := WithoutZeros(Digits(v, 1));
            IsStripped(s) && |Digits(v, 1)| <= 21 && Layout(s, |Digits(v, 1)|) == Digits(v, 1)
  {
    hide Digits, Pow;
    var all := Digits(v, 1);
    var s := WithoutZeros(all);
    FirstDigit(v);
    DigitsAtMost(v, 21);
    ZerosBack(all);
    EndsInNoZero(all);
    NotAllZeros(all);
    DigitsSplit(s, Zeros(|all| - |s|));
    assert s[0] == all[0];
  }

  /**
    An integer below 10^21, printed on the fast path, is what the general layout prints
    for whatever stripped digits denote it.
   */
  lemma FastPathAgrees(v: nat, digits: string, n: int)
    requires 0 < v < Pow(10, 21) && IsStripped(digits) && SameValue(ToNat(digits), n - |digits|, v, 0)
    ensures Layout(digits, n) == Digits(v, 1)
  {
    hide Digits, Pow, Layout, ToNat, Meaning, SameValue, WithoutZeros;
    IntegerStrips(v);
    var all := Digits(v, 1);
    var s := WithoutZeros(all);
    LayoutDenotes(s, |all|);
    IntegerMeans(v);
    StrippedNumber(s);
    StrippedNumber(digits);
    SameValueFlips(ToNat(digits), n - |digits|, v, 0);
    StrippedFormIsUnique(v, 0, ToNat(s), |all| - |s|, ToNat(digits), n - |digits|);
    SameLength(s, digits);
    SameNumberSameDigits(s, digits);
  }

  /** An integer the fast path takes. */
  predicate IsSmallInteger(x: Magnitude) { Num(x) % Den(x) == 0 && Num(x) / Den(x) < Pow(10, 15) }

  /**
    `number_to_string` of a finite value: `digits` and `n` are the shortest digits of
    `std::to_chars`, which for an integer below 10^15 denote the integer itself.
   */
  method NumberToString(x: Magnitude, negative: bool, digits: string, n: int) returns (out: string)
    requires x.m > 0 ==> IsStripped(digits)
    requires x.m > 0 && IsSmallInteger(x) ==> SameValue(ToNat(digits), n - |digits|, Num(x) / Den(x), 0)
    ensures out == if x.m == 0 then "0" else if negative then "-" + Layout(digits, n) else Layout(digits, n)
  {
    hide Layout, Digits, Pow, ToNat, SameValue;
    if x.m == 0 {
      return "0";
    }
    if IsSmallInteger(x) {
      var whole := Num(x) / Den(x);
      WholeIsPositive(Num(x), Den(x));
      PowGrows(10, 15, 21);
      FastPathAgrees(whole, digits, n);
      return if negative then "-" + Digits(whole, 1) else Digits(whole, 1);
    }
    out := LayOut(digits, n, negative);
  }

  lemma WholeIsPositive(a: nat, d: nat)
    requires d > 0 && a > 0 && a % d == 0
    ensures a / d > 0
  {
    assert a == a / d * d;
  }

  lemma IntegerMeans(v: nat)
    ensures Meaning(Digits(v, 1)) == (v, 0)
  {
    hide Meaning, Digits;
    DigitsSay(v, 1);
    WholeMeans(Digits(v, 1));
  }

  lemma SameValueFlips(m: nat, e: int, n: nat, f: int)
    requires SameValue(m, e, n, f)
    ensures SameValue(n, f, m, e)
  {
    PowZero();
  }

  // --- toPrecision, toExponential, toFixed ---------------------------------------------------------------

  /** ECMA-262 section 21.1.3.5: which notation is decided on the exponent. */
  function Precision(s: string, e: int): (text: string)
    requires s != ""
  {
    if e < -6 || e >= |s| then Exponential(s, e)
    else if e >= 0 then s[..e + 1] + PointText(s[e + 1..])
    else "0." + (Zeros(-e - 1) + s)
  }

  /** Either notation denotes `s[0].s[1..] * 10^e`, every digit that was asked for included. */
  lemma PrecisionDenotes(s: string, e: int)
    requires s != "" && AreDigits(s)
    ensures Meaning(Precision(s, e)) == (ToNat(s), e - |s| + 1)
  {
    hide Meaning, ToNat, Zeros, PointText, AreDigits, Exponential;
    if e < -6 || e >= |s| {
      ExponentialDenotes(s, e);
    } else if e >= 0 {
      PointedMeans(s, e + 1);
    } else {
      SmallMeans(s, -e - 1);
    }
  }

  /** The text of `n / 10^places` means that. */
  lemma FixedDenotes(n: nat, places: nat)
    ensures Meaning(FixedText(n, places)) == (n, -(places as int))
  {
    hide Meaning, Digits, AreDigits, ToNat;
    var s := Digits(n, places + 1);
    var point := |s| - places;
    DigitsSay(n, places + 1);
    SplitBack(s, point);
    MeaningPlain(s[..point], s[point..]);
    FixedParts(s, point);
  }

  lemma FixedParts(s: string, point: nat)
    requires point <= |s|
    ensures s[..point] + PointText(s[point..]) == if point == |s| then s else s[..point] + "." + s[point..]
  {
  }

  /** What toPrecision prints of a magnitude. */
  function PrecisionText(x: Magnitude, sig: nat): (s: string)
    requires sig > 0
  {
    var (n, e) := ScientificUp(x, sig);
    Precision(Digits(n, sig), e)
  }

  /** `number_to_precision`, of a finite value. */
  method NumberToPrecision(x: Magnitude, negative: bool, sig: nat) returns (out: string)
    requires IsDouble(x) && sig > 0
    ensures out == if negative then "-" + PrecisionText(x, sig) else PrecisionText(x, sig)
  {
    hide Digits, ScientificUp, Zeros, IsDouble, ExponentText;
    if x.m == 0 {
      var zero := "0";
      if sig > 1 {
        zero := zero + ".";
        zero := zero + Zeros(sig - 1);
        Lists.Regroup("0", ".", Zeros(sig - 1));
      }
      ZeroPrecision(x, sig);
      assert zero == "0" + PointText(Zeros(sig - 1));
      return if negative then "-" + zero else zero;
    }
    var significant, e := ScientificDigits.ScientificDigits(x, sig);
    DigitsOfUp(x, sig);
    var text := WritePrecision(significant, e, sig);
    return if negative then "-" + text else text;
  }

  /** The notation of `number_to_precision`. */
  method WritePrecision(significant: string, e: int, sig: nat) returns (text: string)
    requires |significant| == sig > 0
    ensures text == Precision(significant, e)
  {
    hide Zeros, ExponentText;
    if e < -6 || e >= sig {
      text := significant[..1];
      if |significant| > 1 {
        text := text + ".";
        text := text + significant[1..];
        Lists.Regroup(significant[..1], ".", significant[1..]);
      }
      assert text == significant[..1] + PointText(significant[1..]);
      text := text + ExponentText(e);
    } else if e >= 0 {
      text := significant[..e + 1];
      if |significant| > e + 1 {
        text := text + ".";
        text := text + significant[e + 1..];
        Lists.Regroup(significant[..e + 1], ".", significant[e + 1..]);
      }
    } else {
      text := "0.";
      text := text + Zeros(-e - 1);
      text := text + significant;
      Lists.Regroup("0.", Zeros(-e - 1), significant);
    }
  }

  /** As many digits as were asked for. */
  lemma DigitsOfUp(x: Magnitude, sig: nat)
    requires sig > 0
    ensures |Digits(ScientificUp(x, sig).0, sig)| == sig
  {
    hide Digits, Over, Under, DecadeOf, Pow, HalfUp;
    PowTen(sig);
    if x.m > 0 {
      OverInRange(x, sig);
      HalfUpInRange(Over(x, sig), Under(x, sig), 0, Pow(10, sig));
    }
    DigitsLength(ScientificUp(x, sig).0, sig);
  }

  lemma ZeroPrecision(x: Magnitude, sig: nat)
    requires sig > 0 && x.m == 0
    ensures PrecisionText(x, sig) == "0" + PointText(Zeros(sig - 1))
  {
    ZeroDigits(sig);
    var s := Digits(0, sig);
    hide Digits, Zeros;
    assert s[..1] == "0" && s[1..] == Zeros(sig - 1);
  }

  lemma {:induction false} ZeroDigits(width: nat)
    requires width > 0
    ensures Digits(0, width) == "0" + Zeros(width - 1)
    decreases width
  {
    if width > 1 {
      ZeroDigits(width - 1);
      assert "0" + (Zeros(width - 2) + ['0']) == ("0" + Zeros(width - 2)) + ['0'];
    }
  }

  /** What toExponential prints of a magnitude. */
  function ExponentialText(x: Magnitude, places: nat): (s: string) {
    var (n, e) := ScientificUp(x, places + 1);
    Exponential(Digits(n, places + 1), e)
  }

  /** What it prints without an argument, of the shortest digits `0.digits * 10^n`. */
  function ShortestExponential(x: Magnitude, digits: string, n: int): (s: string)
    requires x.m > 0 ==> digits != ""
  {
    if x.m == 0 then Exponential("0", 0) else Exponential(digits, n - 1)
  }

  /**
    `number_to_exponential`, of a finite value; no argument is `places` below zero. The
    shortest digits of `std::to_chars` are `shortest` and `pointAt`, as in `NumberToString`.
   */
  method NumberToExponential(x: Magnitude, negative: bool, places: int, shortest: string, pointAt: int)
    returns (out: string)
    requires IsDouble(x) && (x.m > 0 ==> IsStripped(shortest))
    ensures out == (if negative then "-" else "") +
                     if places < 0 then ShortestExponential(x, shortest, pointAt) else ExponentialText(x, places)
  {
    hide Digits, IsDouble, ExponentText, ScientificUp, IsStripped;
    assert x.m > 0 ==> shortest != "" by { StrippedIsSome(shortest); }
    var digits, n := shortest, pointAt;
    if places < 0 {
      if x.m == 0 {
        digits, n := "0", 1;
      }
    } else {
      var exponent;
      digits, exponent := ScientificDigits.ScientificDigits(x, places + 1);
      ZeroExponent(x, places + 1);
      n := exponent + 1;
    }
    var text := digits[..1];
    if |digits| > 1 {
      text := text + ".";
      text := text + digits[1..];
      Lists.Regroup(digits[..1], ".", digits[1..]);
    }
    assert text == digits[..1] + PointText(digits[1..]);
    text := text + ExponentText(if x.m == 0 then 0 else n - 1);
    return if negative then "-" + text else text;
  }

  lemma StrippedIsSome(s: string)
    ensures IsStripped(s) ==> s != ""
  {
  }

  /** Without an argument the text means what that of toString means, and zero is "0e+0". */
  lemma ShortestMeansTheSame(x: Magnitude, digits: string, n: int)
    requires x.m > 0 ==> IsStripped(digits)
    ensures x.m == 0 ==> ShortestExponential(x, digits, n) == "0e+0"
    ensures x.m > 0 ==>
              var (m, e) := Meaning(ShortestExponential(x, digits, n));
              && (m, e) == (ToNat(digits), n - |digits|)
              && var (l, f) := Meaning(Layout(digits, n)); SameValue(l, f, m, e)
  {
    hide Meaning, ToNat, Layout, Pow, SameValue, Exponential, Digits;
    ZeroExponential();
    if x.m > 0 {
      ExponentialDenotes(digits, n - 1);
      LayoutDenotes(digits, n);
    }
  }

  lemma ZeroExponential()
    ensures Exponential("0", 0) == "0e+0"
  {
    assert "0"[..1] == "0" && "0"[1..] == "";
    assert ExponentText(0) == "e+0";
  }

  lemma ZeroExponent(x: Magnitude, sig: nat)
    requires sig > 0
    ensures x.m == 0 ==> ScientificUp(x, sig).1 == 0
  {
  }

  /** Both print the rounded digits at their exponent, in whichever notation. */
  lemma PrintedDigitsMean(x: Magnitude, sig: nat)
    requires sig > 0
    ensures var (n, e) := ScientificUp(x, sig);
            && Meaning(PrecisionText(x, sig)) == (n, e - sig + 1)
            && Meaning(ExponentialText(x, sig - 1)) == (n, e - sig + 1)
  {
    hide Digits, ScientificUp, Meaning, Precision, Exponential, ToNat;
    var (n, e) := ScientificUp(x, sig);
    DigitsOfUp(x, sig);
    DigitsSay(n, sig);
    PrecisionDenotes(Digits(n, sig), e);
    ExponentialDenotes(Digits(n, sig), e);
  }

  /** toFixed prints the nearest multiple of `10^-places`, the larger of two. */
  lemma FixedIsNearest(x: Magnitude, places: nat)
    ensures var n := HalfUp(TimesTen(x, places), Den(x));
            && Meaning(FixedText(n, places)) == (n, -(places as int))
            && IsNearest(n, TimesTen(x, places), Den(x))
  {
    hide HalfUp, Meaning, FixedText, IsNearest, TimesTen;
    var n := HalfUp(TimesTen(x, places), Den(x));
    FixedDenotes(n, places);
    HalfUpIsNearest(n, TimesTen(x, places), Den(x));
  }
}
