/**
  The digits of toFixed, toPrecision and toExponential (ctbrowser/lib/Core/number_format.cpp).
  A double is the exact fraction it stands for, `std::to_chars` the function that rounds
  that fraction half to even; the code on top of it is proved to round half up.
 */
module NumberRounding {
  import opened Decimals
  import opened Lists

  /** A non-negative finite double: `m * 2^e`. */
  datatype Magnitude = Magnitude(m: nat, e: int)

  predicate IsDouble(x: Magnitude) { x.m < Pow(2, 53) && -1074 <= x.e <= 971 }

  function Num(x: Magnitude): (n: nat)
    ensures x.m > 0 ==> n > 0
  {
    if x.e >= 0 then TimesPositive(x.m, Pow(2, x.e)); x.m * Pow(2, x.e) else x.m
  }

  function Den(x: Magnitude): (n: nat)
    ensures n > 0
  {
    if x.e >= 0 then 1 else Pow(2, -x.e)
  }

  lemma TimesPositive(a: nat, b: nat)
    ensures a > 0 && b > 0 ==> a * b > 0
  {
  }

  // --- Halfway ---------------------------------------------------------------------------

  /** `std::frexp` and `std::ldexp`: 53 bits, the first of them set. */
  function Normal(m: nat, e: int): (r: (nat, int))
    requires m > 0
    ensures r.0 > 0
    decreases Pow(2, 52) - m
  {
    if m >= Pow(2, 52) then (m, e) else Normal(2 * m, e - 1)
  }

  /** `std::countr_zero`. */
  function TrailingZeros(m: nat): (n: nat)
    requires m > 0
  {
    if m % 2 == 1 then 0 else 1 + TrailingZeros(m / 2)
  }

  /** `halfway_exactly`, of a finite magnitude. */
  predicate HalfwayExactly(x: Magnitude, places: nat) {
    x.m != 0 &&
    var (mantissa, e) := Normal(x.m, x.e);
    e + TrailingZeros(mantissa) + places == -1
  }

  lemma {:induction false} NormalKeepsZeros(m: nat, e: int)
    requires m > 0
    ensures var r := Normal(m, e); r.1 + TrailingZeros(r.0) == e + TrailingZeros(m)
    decreases Pow(2, 52) - m
  {
    hide Pow;
    if m < Pow(2, 52) {
      NormalKeepsZeros(2 * m, e - 1);
    }
  }

  lemma {:induction false} OddPart(m: nat) returns (odd: nat)
    requires m > 0
    ensures odd % 2 == 1 && m == Pow(2, TrailingZeros(m)) * odd
    decreases m
  {
    if m % 2 == 1 {
      odd := m;
    } else {
      odd := OddPart(m / 2);
      MulAssoc(2, Pow(2, TrailingZeros(m / 2)), odd);
    }
  }

  lemma TieHasOdd(a: nat, d: nat) returns (odd: nat)
    requires d > 0 && IsTie(a, d)
    ensures odd % 2 == 1 && 2 * a == d * odd
  {
    var q := a / d;
    var p := q * d;
    assert a == p + a % d;
    odd := 2 * q + 1;
    Distribute(2 * q, 1, d);
    MulAssoc(2, q, d);
    Swap(odd, d);
  }

  lemma OddIsTie(a: nat, d: nat, odd: nat)
    requires d > 0 && odd % 2 == 1 && 2 * a == d * odd
    ensures IsTie(a, d)
  {
    var q := odd / 2;
    var p := q * d;
    assert odd == 2 * q + 1;
    Swap(odd, d);
    Distribute(2 * q, 1, d);
    MulAssoc(2, q, d);
    assert 2 * a == 2 * p + d;
    DivIs(a, d, q, a - p);
  }

  /** A power of two times an odd number is half an odd number of powers of two. */
  lemma TieOfPowers(t: nat, w: nat, n: nat, a: nat)
    requires w % 2 == 1 && a == Pow(2, t) * w
    ensures IsTie(a, Pow(2, n)) <==> t + 1 == n
  {
    DoublePower(t, w);
    hide Pow, IsTie;
    if IsTie(a, Pow(2, n)) {
      var odd := TieHasOdd(a, Pow(2, n));
      OddPartIsUnique(t + 1, w, n, odd);
    }
    if t + 1 == n {
      OddIsTie(a, Pow(2, n), w);
    }
  }

  lemma Swap(a: nat, b: nat)
    ensures a * b == b * a
  {
  }

  lemma DoublePower(t: nat, w: nat)
    ensures Pow(2, t + 1) * w == 2 * (Pow(2, t) * w)
  {
    MulAssoc(2, Pow(2, t), w);
  }

  /** `m * 10^places`, its powers of two gathered. */
  lemma GatheredTwos(m: nat, places: nat) returns (w: nat)
    requires m > 0
    ensures w % 2 == 1 && m * Pow(10, places) == Pow(2, TrailingZeros(m) + places) * w
  {
    var odd := OddPart(m);
    var z, five := TrailingZeros(m), Pow(5, places);
    PowProduct(2, 5, places);
    PowAdd(2, z, places);
    FivesAreOdd(places);
    OddTimesOdd(odd, five);
    w := odd * five;
    FourFactors(Pow(2, z), odd, Pow(2, places), five);
  }

  lemma FourFactors(a: nat, b: nat, c: nat, d: nat)
    ensures a * b * (c * d) == a * c * (b * d)
  {
    MulAssoc(a * b, c, d);
    MulAssoc(a, b, c);
    MulAssoc(a * c, b, d);
  }

  /** The test is exact: `magnitude * 10^places` is half an odd integer. */
  lemma HalfwayIsTie(x: Magnitude, places: nat)
    ensures HalfwayExactly(x, places) <==> IsTie(TimesTen(x, places), Den(x))
  {
    if x.m == 0 {
      assert Num(x) == 0;
    } else if x.e >= 0 {
      NormalKeepsZeros(x.m, x.e);
      WholeIsUntied(TimesTen(x, places));
    } else {
      hide Normal, TrailingZeros, Pow, IsTie;
      NormalKeepsZeros(x.m, x.e);
      var w := GatheredTwos(x.m, places);
      TieOfPowers(TrailingZeros(x.m) + places, w, -x.e, Num(x) * Pow(10, places));
    }
  }

  lemma WholeIsUntied(a: nat)
    ensures !IsTie(a, 1)
  {
  }

  /** `magnitude * 10^places`, over the same divisor. */
  function TimesTen(x: Magnitude, places: nat): (n: nat) { Num(x) * Pow(10, places) }

  // --- toFixed ------------------------------------------------------------------------------

  /** `n / 10^places`, written out. */
  function FixedText(n: nat, places: nat): (s: string) {
    var digits := Digits(n, places + 1);
    var point := |digits| - places;
    if places == 0 then digits else digits[..point] + "." + digits[point..]
  }

  /** `std::to_chars` with `chars_format::fixed`. */
  function ToCharsFixed(x: Magnitude, places: nat): (s: string) {
    FixedText(HalfEven(TimesTen(x, places), Den(x)), places)
  }

  /** At one place more a tie is exact and ends in five. */
  lemma TieExpands(a: nat, d: nat)
    requires d > 0 && IsTie(a, d)
    ensures HalfEven(10 * a, d) == 10 * (a / d) + 5 && HalfUp(a, d) == a / d + 1
  {
    var h := a / d;
    assert a == h * d + a % d;
    Distribute(10 * h, 5, d);
    MulAssoc(10, h, d);
    DivIs(10 * a, d, 10 * h + 5, 0);
  }

  lemma PointAt(digits: string, point: nat)
    requires AreDigits(digits) && point <= |digits|
    ensures var s := digits[..point] + "." + digits[point..];
            IndexOf(s, '.') == point && RemoveAt(s, point) == digits
  {
    var s := digits[..point] + "." + digits[point..];
    assert s[point] == '.';
    assert forall i :: 0 <= i < point ==> s[i] == digits[i] && IsDigit(digits[i]);
    assert s[..point] == digits[..point] && s[point + 1..] == digits[point..];
  }

  /** Zeros in front until the point has digits on both sides. */
  method LeadingZeros(body: string, places: nat) returns (padded: string)
    requires AreDigits(body)
    ensures AreDigits(padded) && ToNat(padded) == ToNat(body)
    ensures |padded| == if |body| > places then |body| else places + 1
    ensures |body| > places ==> padded == body
  {
    hide ToNat;
    padded := body;
    while |padded| <= places
      invariant AreDigits(padded) && ToNat(padded) == ToNat(body) && |body| <= |padded|
      invariant |padded| == |body| ==> padded == body
      invariant |padded| > |body| ==> |padded| <= places + 1
      decreases places - |padded|
    {
      ZeroInFront(padded);
      padded := "0" + padded;
    }
  }

  lemma ZeroInFront(s: string)
    requires AreDigits(s)
    ensures AreDigits("0" + s) && ToNat("0" + s) == ToNat(s)
  {
    assert "0"[..0] == "";
    ToNatConcat("0", s);
  }

  /** Without its point the text is the digits again, and without its last digit those of the tenth. */
  lemma PointOff(h: nat, places: nat)
    ensures var exact := FixedText(10 * h + 5, places + 1);
            var point := IndexOf(exact, '.');
            && point < |exact| && |RemoveAt(exact, point)| >= 1
            && RemoveAt(exact, point)[..|RemoveAt(exact, point)| - 1] == Digits(h, places + 1)
  {
    hide Digits;
    var s := Digits(10 * h + 5, places + 2);
    PointAt(s, |s| - (places + 1));
    LastDigitOff(h, places);
  }

  lemma FixedIs(n: nat, places: nat)
    ensures var s := Digits(n, places + 1);
            FixedText(n, places) == if places == 0 then s else s[..|s| - places] + "." + s[|s| - places..]
  {
    hide Digits;
  }

  /** The tie branch: the trailing five of the exact text goes, and the rest is rounded up. */
  method RoundTieUp(exact: string, places: nat, ghost h: nat) returns (text: string)
    requires exact == FixedText(10 * h + 5, places + 1)
    ensures text == FixedText(h + 1, places)
  {
    hide Digits, Pow, RoundedUp, RemoveAt, IndexOf, ToNat, AreDigits, IsDigit, Digit, DigitValue, FixedText;
    var body := exact;
    FixedIs(h + 1, places);
    PointOff(h, places);
    NextDigits(h, places + 1);
    var point := IndexOf(body, '.');
    if point != |body| {
      body := RemoveAt(body, point);
    }
    body := body[..|body| - 1];
    assert body == Digits(h, places + 1);
    if body == "" {
      body := "0";
    }
    var up, _ := RoundUpInPlace(body);
    body := up;
    assert body == Digits(h + 1, places + 1);
    if places > 0 {
      body := LeadingZeros(body, places);
      body := body[..|body| - places] + "." + body[|body| - places..];
    }
    text := body;
  }

  /** `fixed_digits`. */
  method FixedDigits(x: Magnitude, places: nat) returns (text: string)
    ensures text == FixedText(HalfUp(TimesTen(x, places), Den(x)), places)
  {
    hide FixedText, HalfEven, HalfUp, IsTie, HalfwayExactly, Pow;
    ghost var a, d := TimesTen(x, places), Den(x);
    HalfwayIsTie(x, places);
    if HalfwayExactly(x, places) {
      TieExpands(a, d);
      OneMorePlace(Num(x), places);
      var exact := ToCharsFixed(x, places + 1);
      text := RoundTieUp(exact, places, a / d);
      return;
    }
    SameOffTies(a, d);
    text := ToCharsFixed(x, places);
  }

  lemma OneMorePlace(n: nat, places: nat)
    ensures n * Pow(10, places + 1) == 10 * (n * Pow(10, places))
  {
    MulAssoc(n, 10, Pow(10, places));
    MulAssoc(10, n, Pow(10, places));
  }

  lemma LastDigitOff(h: nat, places: nat)
    ensures var s := Digits(10 * h + 5, places + 2); s[..|s| - 1] == Digits(h, places + 1)
  {
  }
}
