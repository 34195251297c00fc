/**
  `scientific_digits` of ctbrowser/lib/Core/number_format.cpp: so many significant digits
  and a decimal exponent, a tie rounded up. The tie is found in the exact expansion,
  which 781 digits hold for every double.
 */
module ScientificDigits {
  import opened Decimals
  import opened Lists
  import opened NumberRounding

  // --- Scaling by powers of ten ---------------------------------------------------------

  /** `num / den * 10^k`, as a fraction. */
  function Up(num: nat, k: int): (a: nat) { if k >= 0 then num * Pow(10, k) else num }

  function Down(den: nat, k: int): (d: nat)
    requires den > 0
    ensures d > 0
  {
    if k >= 0 then den else TimesPositive(den, Pow(10, -k)); den * Pow(10, -k)
  }

  /** A step of `t` more places is a factor of `10^t`. */
  lemma ScaleShift(num: nat, den: nat, k: int, t: nat)
    requires den > 0
    ensures Up(num, k + t) * Down(den, k) == Up(num, k) * Pow(10, t) * Down(den, k + t)
  {
    if k >= 0 {
      PowAdd(10, k, t);
      MulAssoc(num, Pow(10, k), Pow(10, t));
    } else if k + t <= 0 {
      PowAdd(10, -k - t, t);
      var p, q := Pow(10, -k - t), Pow(10, t);
      assert Pow(10, -k) == p * q;
      Swap4(num, den, p, q);
    } else {
      PowAdd(10, k + t, -k);
      var p, q := Pow(10, k + t), Pow(10, -k);
      assert Pow(10, t) == p * q;
      Swap4(num, den, p, q);
    }
  }

  lemma Swap4(n: nat, d: nat, p: nat, q: nat)
    ensures n * (d * (p * q)) == n * q * (d * p)
    ensures n * p * (d * q) == n * (p * q) * d
  {
    MulAssoc(d, p, q);
    MulAssoc(n, d * p, q);
    MulAssoc(n, p, d * q);
    MulAssoc(p, d, q);
    MulAssoc(n, p * q, d);
    MulAssoc(p, q, d);
    MulAssoc(n, q, d * p);
  }

  /** The power of ten at or below `num / den`. */
  function Decade(num: nat, den: nat): (e: int)
    requires num > 0 && den > 0
    decreases if num < den then 1 else 0, if num < den then den - num else num / den
  {
    if num >= 10 * den then MoreThanOnce(num, den); 1 + Decade(num, 10 * den)
    else if num < den then Decade(10 * num, den) - 1
    else 0
  }

  lemma MoreThanOnce(num: nat, den: nat)
    requires den > 0 && num >= 10 * den
    ensures num / (10 * den) < num / den
  {
    DivDiv(num, den, 10);
    FloorInRange(num, den, 10, 0);
  }

  /** `num / den` is at least `10^e`, and less than ten times that. */
  predicate InDecade(num: nat, den: nat, e: int)
    requires den > 0
  {
    Down(den, -e) <= Up(num, -e) < 10 * Down(den, -e)
  }

  lemma {:induction false} DecadeSign(num: nat, den: nat)
    requires num > 0 && den > 0
    ensures num >= den ==> Decade(num, den) >= 0
    ensures num < den ==> Decade(num, den) < 0
    decreases if num < den then 1 else 0, if num < den then den - num else num / den
  {
    if num >= 10 * den {
      MoreThanOnce(num, den);
      DecadeSign(num, 10 * den);
    } else if num < den {
      DecadeSign(10 * num, den);
      DecadeSmall(10 * num, den);
    }
  }

  lemma {:induction false} DecadeSmall(num: nat, den: nat)
    requires num > 0 && den > 0 && num < 10 * den
    ensures Decade(num, den) <= 0
    decreases den - num
  {
    if num < den {
      DecadeSmall(10 * num, den);
    }
  }

  /** The same fraction with ten times the divisor is one decade down. */
  lemma TenDeeper(num: nat, den: nat, e: int)
    requires den > 0 && InDecade(num, 10 * den, e) && e >= 0
    ensures InDecade(num, den, e + 1)
  {
    assert Down(10 * den, -e) == Down(den, -e - 1) && Up(num, -e) == Up(num, -e - 1) by {
      if e == 0 {
        assert Pow(10, 1) == 10 * Pow(10, 0);
      } else {
        MulAssoc(10, den, Pow(10, e));
        MulAssoc(den, 10, Pow(10, e));
        assert Pow(10, e + 1) == 10 * Pow(10, e);
      }
    }
  }

  lemma TenHigher(num: nat, den: nat, e: int)
    requires den > 0 && InDecade(10 * num, den, e) && e <= 0
    ensures InDecade(num, den, e - 1)
  {
    assert Up(10 * num, -e) == Up(num, -e + 1) && Down(den, -e) == Down(den, -e + 1) by {
      MulAssoc(10, num, Pow(10, -e));
      MulAssoc(num, 10, Pow(10, -e));
      assert Pow(10, -e + 1) == 10 * Pow(10, -e);
      if e == 0 {
        assert Pow(10, 0) == 1;
      }
    }
  }

  lemma {:induction false} DecadeBounds(num: nat, den: nat)
    requires num > 0 && den > 0
    ensures InDecade(num, den, Decade(num, den))
    decreases if num < den then 1 else 0, if num < den then den - num else num / den
  {
    hide InDecade, Pow;
    if num >= 10 * den {
      MoreThanOnce(num, den);
      DecadeBounds(num, 10 * den);
      DecadeSign(num, 10 * den);
      TenDeeper(num, den, Decade(num, 10 * den));
    } else if num < den {
      DecadeBounds(10 * num, den);
      DecadeSmall(10 * num, den);
      TenHigher(num, den, Decade(10 * num, den));
    } else {
      DecadeZero(num, den);
    }
  }

  lemma DecadeZero(num: nat, den: nat)
    requires 0 < den <= num < 10 * den
    ensures InDecade(num, den, 0)
  {
  }


  // --- So many significant digits -------------------------------------------------------------

  /** The decade of a magnitude. */
  function DecadeOf(x: Magnitude): (e: int)
    requires x.m > 0
  {
    Decade(Num(x), Den(x))
  }

  /** The magnitude with `sig` digits before the point: the dividend and the divisor. */
  function Over(x: Magnitude, sig: nat): (a: nat)
    requires x.m > 0
  {
    Up(Num(x), sig - 1 - DecadeOf(x))
  }

  function Under(x: Magnitude, sig: nat): (d: nat)
    requires x.m > 0
    ensures d > 0
  {
    Down(Den(x), sig - 1 - DecadeOf(x))
  }

  /** Rounding can lengthen the digits: then the exponent is one more. */
  function Carried(n: nat, e: int, sig: nat): (r: (nat, int))
    requires sig > 0
  {
    if n == Pow(10, sig) then (Pow(10, sig - 1), e + 1) else (n, e)
  }

  function ScientificEven(x: Magnitude, sig: nat): (r: (nat, int))
    requires sig > 0
  {
    if x.m == 0 then (0, 0) else Carried(HalfEven(Over(x, sig), Under(x, sig)), DecadeOf(x), sig)
  }

  function ScientificUp(x: Magnitude, sig: nat): (r: (nat, int))
    requires sig > 0
  {
    if x.m == 0 then (0, 0) else Carried(HalfUp(Over(x, sig), Under(x, sig)), DecadeOf(x), sig)
  }

  /** Between the first and the last number of so many digits. */
  lemma OverInRange(x: Magnitude, sig: nat)
    requires x.m > 0 && sig > 0
    ensures Pow(10, sig - 1) * Under(x, sig) <= Over(x, sig) < Pow(10, sig) * Under(x, sig)
  {
    var e := DecadeOf(x);
    var u, v := Up(Num(x), -e), Down(Den(x), -e);
    var a, d, p := Over(x, sig), Under(x, sig), Pow(10, sig - 1);
    DecadeBounds(Num(x), Den(x));
    ScaleShift(Num(x), Den(x), -e, sig - 1);
    hide Up, Down, Decade, Pow;
    assert a * v == u * p * d;
    RangeFrom(a, v, u, p, d);
    PowTen(sig);
    MulAssoc(10, p, d);
  }

  lemma PowTen(n: nat)
    requires n > 0
    ensures Pow(10, n) == 10 * Pow(10, n - 1)
  {
  }

  lemma RangeFrom(a: nat, v: nat, u: nat, p: nat, d: nat)
    requires v > 0 && p > 0 && d > 0 && a * v == u * p * d && v <= u < 10 * v
    ensures p * d <= a < 10 * (p * d)
  {
    var pd := p * d;
    TimesPositive(p, d);
    MulAssoc(u, p, d);
    assert a * v == u * pd;
    MulMono(v, u, pd);
    Swap(v, pd);
    CancelLess(pd, a, v);
    MulMono(u + 1, 10 * v, pd);
    Distribute(u, 1, pd);
    MulAssoc(10, v, pd);
    MulAssoc(10, pd, v);
    CancelLessStrictly(a, 10 * pd, v);
  }

  // --- The exact expansion ---------------------------------------------------------------------

  /** `5^3 < 2^7`. */
  lemma {:induction false} FivesBelowTwos(n: nat)
    ensures Pow(5, 3 * n) <= Pow(2, 7 * n)
    decreases n
  {
    if n > 0 {
      FivesBelowTwos(n - 1);
      FivesStep(3 * (n - 1));
      SevenMore(7 * (n - 1));
    }
  }

  lemma FivesStep(n: nat)
    ensures Pow(5, n + 3) == 125 * Pow(5, n)
  {
    assert Pow(5, n + 1) == 5 * Pow(5, n) && Pow(5, n + 2) == 5 * Pow(5, n + 1);
  }

  lemma TwosStep(n: nat)
    ensures Pow(2, n + 3) == 8 * Pow(2, n)
  {
    assert Pow(2, n + 1) == 2 * Pow(2, n) && Pow(2, n + 2) == 2 * Pow(2, n + 1);
  }

  lemma SevenMore(n: nat)
    ensures Pow(2, n + 7) == 128 * Pow(2, n)
  {
    TwosStep(n + 4);
    TwosStep(n + 1);
    assert Pow(2, n + 1) == 2 * Pow(2, n);
  }

  /** A double below one has no more than 781 significant digits. */
  lemma SmallEnough(n: nat)
    requires n <= 1074
    ensures Pow(2, 53) * Pow(5, n) <= Pow(10, 781)
  {
    hide Pow;
    PowProduct(2, 5, 781);
    if n <= 781 {
      PowGrows(2, 53, 781);
      PowGrows(5, n, 781);
      MulMono(Pow(2, 53), Pow(2, 781), Pow(5, n));
      MulMono(Pow(5, n), Pow(5, 781), Pow(2, 781));
    } else {
      PowAdd(5, n - 781, 781);
      PowGrows(5, n - 781, 3 * 98);
      FivesBelowTwos(98);
      PowGrows(2, 7 * 98, 728);
      PowAdd(2, 53, 728);
      MulMono(Pow(5, n - 781), Pow(2, 728), Pow(2, 53));
      MulAssoc(Pow(2, 53), Pow(5, n - 781), Pow(5, 781));
      MulMono(Pow(2, 53) * Pow(5, n - 781), Pow(2, 781), Pow(5, 781));
    }
  }

  /** A number below `10^j` that is at or above its decade is below the decade `j`. */
  lemma DecadeBelow(num: nat, den: nat, j: int)
    requires num > 0 && den > 0 && Up(num, -j) < Down(den, -j)
    ensures Decade(num, den) < j
  {
    var e := Decade(num, den);
    DecadeBounds(num, den);
    if e >= j {
      ScaleShift(num, den, -e, e - j);
      var u, v, p := Up(num, -e), Down(den, -e), Pow(10, e - j);
      var a, d := Up(num, -j), Down(den, -j);
      hide Up, Down, Decade, Pow;
      assert a * v == u * p * d;
      RangeFrom(a, v, u, p, d);
      MulMono(1, p, d);
    }
  }

  /** The whole of a double of at least one is below `10^342`. */
  lemma WholeBelow(x: Magnitude)
    requires IsDouble(x) && x.m > 0 && x.e >= 0
    ensures Decade(Num(x), 1) < 342
  {
    hide Pow;
    var num := Num(x);
    PowAdd(2, 53, x.e);
    PowGrows(2, 53 + x.e, 3 * 342);
    MulMono(x.m + 1, Pow(2, 53), Pow(2, x.e));
    Distribute(x.m, 1, Pow(2, x.e));
    EightsBelowTens(342);
    assert num < Pow(10, 342);
    assert Up(num, -342) == num && Down(1, -342) == 1 * Pow(10, 342);
    DecadeBelow(num, 1, 342);
  }

  lemma {:induction false} EightsBelowTens(n: nat)
    ensures Pow(2, 3 * n) <= Pow(10, n)
    decreases n
  {
    if n > 0 {
      EightsBelowTens(n - 1);
      TwosStep(3 * (n - 1));
    }
  }

  /** A double below one starts early enough for 781 digits to reach its last place. */
  lemma FractionBelow(x: Magnitude)
    requires IsDouble(x) && x.m > 0 && x.e < 0
    ensures Decade(Num(x), Den(x)) <= 780 + x.e
  {
    hide Pow;
    var n := -x.e;
    SmallEnough(n);
    PowProduct(2, 5, n);
    var two, five, big := Pow(2, n), Pow(5, n), Pow(10, 781);
    assert x.m * Pow(10, n) < big * two by {
      MulMono(x.m + 1, Pow(2, 53), five);
      Distribute(x.m, 1, five);
      assert x.m * five < big;
      MulMono(x.m * five + 1, big, two);
      Distribute(x.m * five, 1, two);
      MulAssoc(x.m, two, five);
      MulAssoc(x.m, five, two);
    }
    if n <= 781 {
      PowAdd(10, 781 - n, n);
      MulAssoc(Pow(10, 781 - n), Pow(10, n), two);
      MulAssoc(Pow(10, 781 - n), two, Pow(10, n));
      Swap(Pow(10, 781 - n), two);
      CancelLessStrictly(x.m, two * Pow(10, 781 - n), Pow(10, n));
      if n == 781 {
        NoPlaces(x.m, two);
      }
    } else {
      PowAdd(10, n - 781, 781);
      MulAssoc(x.m, Pow(10, n - 781), big);
      Swap(big, two);
      CancelLessStrictly(x.m * Pow(10, n - 781), two, big);
    }
    assert Up(x.m, -(781 - n)) < Down(two, -(781 - n));
    DecadeBelow(x.m, two, 781 - n);
  }

  lemma NoPlaces(m: nat, den: nat)
    requires den > 0
    ensures Up(m, 0) == m && Down(den, 0) == den && den * Pow(10, 0) == den
  {
    assert Pow(10, 0) == 1;
  }

  lemma PowersDivide(m: nat, k: nat, n: nat)
    requires n <= k
    ensures m * Pow(10, k) % Pow(2, n) == 0
  {
    hide Pow;
    PowProduct(2, 5, k);
    PowAdd(2, n, k - n);
    var more := Pow(2, k - n) * Pow(5, k);
    MulAssoc(Pow(2, n), Pow(2, k - n), Pow(5, k));
    Swap(Pow(2, n), more);
    MulAssoc(m, more, Pow(2, n));
    DivIs(m * Pow(10, k), Pow(2, n), m * more, 0);
  }

  /** 781 digits hold all of a double. */
  lemma ExpansionIsExact(x: Magnitude)
    requires IsDouble(x) && x.m > 0
    ensures Over(x, 781) % Under(x, 781) == 0
  {
    hide Pow, Decade, IsDouble;
    if x.e >= 0 {
      WholeBelow(x);
      assert Under(x, 781) == 1;
    } else {
      FractionBelow(x);
      PowersDivide(x.m, 780 - DecadeOf(x), -x.e);
    }
  }

  // --- Ties in the expansion -----------------------------------------------------------------------

  /** A fraction that is a whole number over `p` rounds as that one does. */
  lemma SameFraction(a: nat, d: nat, m: nat, p: nat)
    requires d > 0 && p > 0 && a * p == m * d
    ensures a / d == m / p && (IsTie(a, d) <==> IsTie(m, p))
  {
    var q, r := a / d, a % d;
    var t, s := m / p, m % p;
    Expand(q, r, d, p);
    Expand(t, s, p, d);
    MulAssoc(q, d, p);
    MulAssoc(t, p, d);
    SmallRest(r, d, p);
    SmallRest(s, p, d);
    Swap(d, p);
    SameSplit(q, r * p, t, s * d, d * p);
    CancelTie(r, d, p);
    CancelTie(s, p, d);
  }

  lemma Expand(q: nat, r: nat, d: nat, p: nat)
    ensures (q * d + r) * p == q * (d * p) + r * p
  {
    Distribute(q * d, r, p);
    MulAssoc(q, d, p);
  }

  lemma SmallRest(r: nat, d: nat, p: nat)
    requires r < d && p > 0
    ensures r * p < d * p
  {
    MulMono(r + 1, d, p);
    Distribute(r, 1, p);
  }

  lemma SameSplit(q: nat, x: nat, t: nat, y: nat, c: nat)
    requires q * c + x == t * c + y && x < c && y < c
    ensures q == t && x == y
  {
    DivIs(q * c + x, c, q, x);
    DivIs(q * c + x, c, t, y);
  }

  lemma CancelTie(r: nat, d: nat, p: nat)
    requires p > 0
    ensures 2 * (r * p) == d * p <==> 2 * r == d
  {
    MulAssoc(2, r, p);
    if 2 * (r * p) == d * p {
      CancelLess(2 * r, d, p);
      CancelLess(d, 2 * r, p);
    }
  }

  /** The whole number of 781 digits that is the exact expansion. */
  function Expansion(x: Magnitude): (m: nat)
    requires x.m > 0
  {
    Floor(Over(x, 781), Under(x, 781))
  }

  lemma ExpansionFacts(x: Magnitude)
    requires IsDouble(x) && x.m > 0
    ensures Over(x, 781) == Expansion(x) * Under(x, 781)
    ensures Pow(10, 780) <= Expansion(x) < Pow(10, 781)
    ensures ScientificEven(x, 781) == (Expansion(x), DecadeOf(x))
  {
    hide Pow, Over, Under, DecadeOf;
    ExpansionIsExact(x);
    OverInRange(x, 781);
    var m, d := Expansion(x), Under(x, 781);
    assert Over(x, 781) == m * d;
    CancelLess(Pow(10, 780), m, d);
    CancelLessStrictly(m, Pow(10, 781), d);
  }

  lemma CrossOut(m: nat, big: nat, d: nat, a: nat, p: nat)
    requires big > 0 && m * big * d == a * p * big
    ensures a * p == m * d
  {
    MulAssoc(m, big, d);
    MulAssoc(m, d, big);
    CancelLess(m * d, a * p, big);
    CancelLess(a * p, m * d, big);
  }

  lemma CrossOutAll(m: nat, big: nat, d: nat, a: nat, p: nat)
    requires big > 0 && a * big == m * big * p * d
    ensures a == m * p * d
  {
    MulAssoc(m, big, p);
    MulAssoc(m, p, big);
    MulAssoc(m * p, big, d);
    MulAssoc(m * p, d, big);
    CancelLess(a, m * p * d, big);
    CancelLess(m * p * d, a, big);
  }

  /** Rounded to fewer digits, the expansion stands for the number. */
  lemma FewerDigits(x: Magnitude, sig: nat)
    requires IsDouble(x) && x.m > 0 && 0 < sig <= 780
    ensures Over(x, sig) / Under(x, sig) == Shifted(Expansion(x), 781 - sig)
    ensures IsTie(Over(x, sig), Under(x, sig)) <==> IsTie(Expansion(x), Pow(10, 781 - sig))
  {
    var a, d, m, p := Over(x, sig), Under(x, sig), Expansion(x), Pow(10, 781 - sig);
    var big := Under(x, 781);
    ExpansionFacts(x);
    ScaleShift(Num(x), Den(x), sig - 1 - DecadeOf(x), 781 - sig);
    hide Pow, Over, Under, Expansion, Up, Down, DecadeOf;
    CrossOut(m, big, d, a, p);
    SameFraction(a, d, m, p);
  }

  /** With all the digits there are, nothing is left to round. */
  lemma MoreDigits(x: Magnitude, sig: nat)
    requires IsDouble(x) && x.m > 0 && sig > 780
    ensures !IsTie(Over(x, sig), Under(x, sig))
  {
    hide *;
    var m, p := Expansion(x), Pow(10, sig - 781);
    ExpansionFacts(x);
    FurtherDigits(x, sig);
    CrossOutAll(m, Under(x, 781), Under(x, sig), Over(x, sig), p);
    DivIs(Over(x, sig), Under(x, sig), m * p, 0);
    WholeIsNoTie(Over(x, sig), Under(x, sig));
  }

  lemma FurtherDigits(x: Magnitude, sig: nat)
    requires x.m > 0 && sig > 780
    ensures Over(x, sig) * Under(x, 781) == Over(x, 781) * Pow(10, sig - 781) * Under(x, sig)
  {
    hide Pow, Up, Down, DecadeOf, Num, Den;
    ScaleShift(Num(x), Den(x), 780 - DecadeOf(x), sig - 781);
  }

  lemma WholeIsNoTie(a: nat, d: nat)
    requires d > 0 && a % d == 0
    ensures !IsTie(a, d)
  {
  }

  /** The digits of a whole number show whether it is a tie: a five and zeros after the kept ones. */
  lemma TieShows(m: nat, w: nat, j: nat)
    requires 0 < j < w && Pow(10, w - 1) <= m < Pow(10, w)
    ensures var s := Digits(m, w);
            |s| == w && (IsTie(m, Pow(10, j)) <==> s[w - j..] == "5" + Zeros(j - 1))
  {
    var s := Digits(m, w);
    DigitsLength(m, w);
    DigitsSay(m, w);
    var front, back := s[..w - j], s[w - j..];
    assert s == front + back;
    ToNatConcat(front, back);
    ToNatBound(back);
    hide Digits, ToNat;
    DivIs(m, Pow(10, j), ToNat(front), ToNat(back));
    FiveAndZeros(j);
    if ToNat(back) == 5 * Pow(10, j - 1) {
      SameNumberSameDigits(back, "5" + Zeros(j - 1));
    }
  }

  lemma FiveAndZeros(j: nat)
    requires j > 0
    ensures AreDigits("5" + Zeros(j - 1)) && |"5" + Zeros(j - 1)| == j
    ensures ToNat("5" + Zeros(j - 1)) == 5 * Pow(10, j - 1) && Pow(10, j) == 10 * Pow(10, j - 1)
  {
    ZerosSay(j - 1);
    ToNatConcat("5", Zeros(j - 1));
    assert "5"[..0] == "" && ToNat("") == 0;
  }

  // --- The text of std::to_chars -----------------------------------------------------------------

  function Abs(e: int): (n: nat) { if e < 0 then -e else e }

  /** "d.ddde+XX": the point after the first digit, a sign and at least two digits in the exponent. */
  function ScientificText(digits: string, e: int): (s: string)
    requires digits != ""
  {
    digits[..1] + (if |digits| > 1 then "." + digits[1..] else "")
      + "e" + (if e < 0 then "-" else "+") + Digits(Abs(e), 2)
  }

  /** `std::to_chars` with `chars_format::scientific`. */
  function ToCharsScientific(x: Magnitude, precision: nat): (s: string) {
    var (n, e) := ScientificEven(x, precision + 1);
    ScientificText(Digits(n, precision + 1), e)
  }

  function LeadingDigits(s: string): (d: string)
    ensures AreDigits(d)
  {
    if s == "" || !IsDigit(s[0]) then "" else [s[0]] + LeadingDigits(s[1..])
  }

  /** `std::from_chars` of an int, which takes a minus sign and no plus sign. */
  function FromChars(s: string): (n: int) {
    if s != "" && s[0] == '-' then -(ToNat(LeadingDigits(s[1..])) as int) else ToNat(LeadingDigits(s))
  }

  /** `read_exponent`. */
  function ReadExponent(s: string): (n: int) { if s != "" && s[0] == '+' then FromChars(s[1..]) else FromChars(s) }

  function SplitOf(s: string): (r: (string, int)) {
    var k := IndexOf(s, 'e');
    (RemoveAll(s[..k], '.'), if k == |s| then 0 else ReadExponent(s[k + 1..]))
  }

  /** `split_scientific`. */
  method SplitScientific(s: string) returns (digits: string, exponent: int)
    ensures (digits, exponent) == SplitOf(s)
  {
    digits := "";
    var at := 0;
    while at < |s| && s[at] != 'e'
      invariant at <= |s| && digits == RemoveAll(s[..at], '.')
      invariant forall i :: 0 <= i < at ==> s[i] != 'e'
    {
      RemoveLast(s[..at], s[at], '.');
      assert s[..at + 1] == s[..at] + [s[at]];
      if s[at] != '.' {
        digits := digits + [s[at]];
      }
      at := at + 1;
    }
    IndexIs(s, 'e', at);
    exponent := if at == |s| then 0 else ReadExponent(s[at + 1..]);
  }

  lemma RemoveLast(s: string, c: char, x: char)
    ensures RemoveAll(s + [c], x) == RemoveAll(s, x) + if c == x then [] else [c]
  {
    RemoveFromConcat(s, [c], x);
    assert RemoveAll([c][1..], x) == [];
  }

  lemma {:induction false} AllLeading(s: string)
    requires AreDigits(s)
    ensures LeadingDigits(s) == s
    decreases |s|
  {
    if s != "" {
      AllLeading(s[1..]);
    }
  }

  lemma ExponentBack(e: int)
    ensures ReadExponent((if e < 0 then "-" else "+") + Digits(Abs(e), 2)) == e
  {
    var digits := Digits(Abs(e), 2);
    DigitsSay(Abs(e), 2);
    AllLeading(digits);
    hide Digits;
    assert ("-" + digits)[1..] == digits && ("+" + digits)[1..] == digits;
    assert IsDigit(digits[0]);
  }

  /** What was written is what is read back. */
  lemma SplitUndoes(digits: string, e: int)
    requires digits != "" && AreDigits(digits)
    ensures SplitOf(ScientificText(digits, e)) == (digits, e)
  {
    hide Digits;
    var sign, tail := if e < 0 then "-" else "+", Digits(Abs(e), 2);
    var head := digits[..1] + (if |digits| > 1 then "." + digits[1..] else "");
    var text := ScientificText(digits, e);
    assert text == head + "e" + (sign + tail);
    HeadHasNoE(digits);
    IndexIs(text, 'e', |head|);
    assert text[..|head|] == head && text[|head| + 1..] == sign + tail;
    ExponentBack(e);
    HeadPointOff(digits);
  }

  lemma HeadHasNoE(digits: string)
    requires digits != "" && AreDigits(digits)
    ensures var head := digits[..1] + (if |digits| > 1 then "." + digits[1..] else "");
            forall i :: 0 <= i < |head| ==> head[i] != 'e'
  {
    assert forall i :: 0 <= i < |digits| ==> IsDigit(digits[i]);
  }

  lemma HeadPointOff(digits: string)
    requires digits != "" && AreDigits(digits)
    ensures RemoveAll(digits[..1] + (if |digits| > 1 then "." + digits[1..] else ""), '.') == digits
  {
    var rest := digits[1..];
    assert IsDigit(digits[0]) && forall i :: 0 <= i < |rest| ==> IsDigit(rest[i]);
    RemoveAbsent(rest, '.');
    assert digits == digits[..1] + rest;
    if |digits| > 1 {
      var head := digits[..1] + ("." + rest);
      assert head[1..] == "." + rest && head[1..][1..] == rest;
    } else {
      assert digits[..1] + "" == digits && digits[1..] == "";
    }
  }

  // --- The digits ------------------------------------------------------------------------------------

  lemma OffTies(x: Magnitude, sig: nat)
    requires sig > 0
    ensures ScientificEven(x, sig) == ScientificUp(x, sig) || (x.m > 0 && IsTie(Over(x, sig), Under(x, sig)))
  {
    if x.m > 0 {
      SameOffTies(Over(x, sig), Under(x, sig));
    }
  }

  /** The exact text, as the tie test reads it. */
  lemma ExactText(x: Magnitude, sig: nat)
    requires IsDouble(x) && x.m > 0 && 0 < sig
    ensures var exact := Digits(Expansion(x), 781);
            && |exact| == 781 && SplitOf(ToCharsScientific(x, 780)) == (exact, DecadeOf(x))
            && (IsTie(Over(x, sig), Under(x, sig)) <==> sig < 781 && exact[sig] == '5' && AllZeros(exact[sig + 1..]))
  {
    hide Digits, Pow, Over, Under, Expansion, DecadeOf, SplitOf, ScientificText, IsTie, ScientificEven;
    var m := Expansion(x);
    var exact := Digits(m, 781);
    ExpansionFacts(x);
    SplitUndoes(exact, DecadeOf(x));
    DigitsLength(m, 781);
    if sig < 781 {
      FewerDigits(x, sig);
      TieShows(m, 781, 781 - sig);
      var tail, rest := exact[sig..], exact[sig + 1..];
      AllZerosAre(rest);
      assert tail == [exact[sig]] + rest;
      assert |rest| == 780 - sig;
    } else {
      MoreDigits(x, sig);
    }
  }

  /** A tie, rounded up in the digits of the expansion. */
  lemma TieRoundsUp(x: Magnitude, sig: nat)
    requires IsDouble(x) && x.m > 0 && 0 < sig < 781 && IsTie(Over(x, sig), Under(x, sig))
    ensures var exact := Digits(Expansion(x), 781);
            |exact| == 781 &&
            var up := RoundedUp(exact[..sig]);
            var (n, e) := ScientificUp(x, sig);
            if |up| > sig then up[..|up| - 1] == Digits(n, sig) && e == DecadeOf(x) + 1
            else up == Digits(n, sig) && e == DecadeOf(x)
  {
    hide Digits, Pow, Over, Under, Expansion, DecadeOf, IsTie;
    var m := Expansion(x);
    var h := Shifted(m, 781 - sig);
    ExpansionFacts(x);
    DigitsLength(m, 781);
    FewerDigits(x, sig);
    SameOffTies(Over(x, sig), Under(x, sig));
    DigitsPrefix(m, 781, 781 - sig);
    NextDigits(h, sig);
    var s := Digits(m, 781)[..sig];
    DigitsSay(h, sig);
    RoundedUpSays(s);
    assert HalfUp(Over(x, sig), Under(x, sig)) == h + 1;
    assert s == Digits(h, sig);
    if |RoundedUp(s)| > sig {
      assert h + 1 == Pow(10, sig);
      TenDigits(sig);
    }
  }

  /** One more than all nines, its last zero off. */
  lemma TenDigits(sig: nat)
    requires sig > 0
    ensures |Digits(Pow(10, sig), sig)| >= 1
    ensures Digits(Pow(10, sig), sig)[..|Digits(Pow(10, sig), sig)| - 1] == Digits(Pow(10, sig - 1), sig)
  {
    var n := Pow(10, sig - 1);
    PowTen(sig);
    var front := Digits(n, sig - 1);
    assert Digits(10 * n, sig) == front + [Digit(0)];
    if sig > 1 {
      PowTen(sig - 1);
      PowGrows(10, sig - 1, sig);
    }
    WidthToSpare(n, sig - 1);
  }

  /** Digits that fill one place more than asked need no zeros for it. */
  lemma {:induction false} WidthToSpare(n: nat, width: nat)
    requires n >= Pow(10, width)
    ensures Digits(n, width) == Digits(n, width + 1)
    decreases width
  {
    if width > 0 {
      WidthToSpare(n / 10, width - 1);
    }
  }

  /** `scientific_digits`. */
  method ScientificDigits(x: Magnitude, sig: nat) returns (digits: string, exponent: int)
    requires IsDouble(x) && sig > 0
    ensures (digits, exponent) == (Digits(ScientificUp(x, sig).0, sig), ScientificUp(x, sig).1)
  {
    hide Digits, IsDouble, RoundedUp, SplitOf, ScientificText, ScientificUp, Over, Under, DecadeOf, Expansion, IsTie;
    ghost var even := ScientificEven(x, sig);
    SplitUndoes(Digits(even.0, sig), even.1);
    OffTies(x, sig);
    hide ScientificEven;
    digits, exponent := SplitScientific(ToCharsScientific(x, sig - 1));
    if x.m == 0 {
      return;
    }
    ExactText(x, sig);
    var exact, exactExponent := SplitScientific(ToCharsScientific(x, 780));
    if |exact| <= sig || exact[sig] != '5' || !AllZeros(exact[sig + 1..]) {
      return;
    }
    TieRoundsUp(x, sig);
    digits := exact[..sig];
    var up, carried := RoundUpInPlace(digits);
    digits := up;
    if carried {
      digits := digits[..|digits| - 1];
      exactExponent := exactExponent + 1;
    }
    exponent := exactExponent;
  }
}
