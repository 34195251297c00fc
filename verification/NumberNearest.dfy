/**
  The digits of module ScientificDigits against ECMA-262 sections 21.1.3.2 and 21.1.3.5:
  of all numbers with so many significant digits the printed one is nearest to the value,
  the larger of two equally near.
 */
module NumberNearest {
  import opened Decimals
  import opened NumberRounding
  import opened ScientificDigits

  function Ten(k: int): (r: real)
    ensures r > 0.0
  {
    if k >= 0 then Pow(10, k) as real else 1.0 / (Pow(10, -k) as real)
  }

  /** The value a magnitude stands for. */
  function Value(x: Magnitude): (v: real) { Num(x) as real / Den(x) as real }

  /** `n * 10^(e - sig + 1)`: the digits `n`, the point after the first. */
  function Decimal(n: nat, e: int, sig: nat): (v: real) { n as real * Ten(e - sig + 1) }

  function Distance(a: real, b: real): (d: real) { if a < b then b - a else a - b }

  predicate HasDigits(n: nat, sig: nat)
    requires sig > 0
  {
    Pow(10, sig - 1) <= n < Pow(10, sig)
  }

  // --- Real arithmetic ----------------------------------------------------------------------

  lemma IntProduct(a: int, b: int)
    ensures (a * b) as real == a as real * b as real
  {
  }

  lemma RealAssoc(a: real, b: real, c: real)
    ensures a * (b * c) == a * b * c && a * b * c == a * c * b
  {
  }

  lemma MulLess(a: real, b: real, d: real)
    requires d > 0.0 && a < b
    ensures a * d < b * d
  {
    assert (b - a) * d > 0.0;
    assert (b - a) * d == b * d - a * d;
  }

  lemma DivideBy(a: real, b: real, d: real)
    requires d > 0.0
    ensures a * d <= b * d <==> a <= b
    ensures a * d < b * d <==> a < b
    ensures a * d == b * d <==> a == b
  {
    if a < b {
      MulLess(a, b, d);
    } else if b < a {
      MulLess(b, a, d);
    }
  }

  lemma TimesInverse(q: real, r: real)
    requires r > 0.0
    ensures 1.0 / r > 0.0 && r * (1.0 / r) == 1.0 && q * r * (1.0 / r) == q
  {
    var i := 1.0 / r;
    assert r * i == 1.0;
    RealAssoc(q, r, i);
  }

  lemma InverseProduct(p: real, q: real)
    requires p > 0.0 && q > 0.0
    ensures p * q > 0.0 && 1.0 / (p * q) == 1.0 / p * (1.0 / q)
    ensures q * (1.0 / (p * q)) == 1.0 / p
  {
    var i, j := 1.0 / p, 1.0 / q;
    TimesInverse(1.0, p);
    TimesInverse(1.0, q);
    var pq, ij := p * q, i * j;
    assert pq * ij == p * i * (q * j) by {
      RealAssoc(pq, i, j);
      RealAssoc(p, q, i);
      RealAssoc(p * i, q, j);
    }
    assert pq * ij == 1.0;
    TimesInverse(ij, pq);
    var k := 1.0 / pq;
    assert ij == k by {
      assert ij * pq == 1.0;
      assert ij * pq * k == k;
    }
    assert q * ij == i by {
      RealAssoc(q, i, j);
      RealAssoc(i, q, j);
    }
  }

  lemma RealSwap(a: real, b: real)
    ensures a * b == b * a
  {
  }

  lemma TenSum(k: int, j: int)
    ensures Ten(k + j) == Ten(k) * Ten(j)
  {
    hide Pow, Ten;
    if k >= 0 && j >= 0 {
      TenUp(k, j);
    } else if k < 0 && j < 0 {
      TenDown(-k, -j);
    } else if k >= 0 {
      TenMixed(k, -j);
    } else {
      TenMixed(j, -k);
      RealSwap(Ten(k), Ten(j));
    }
  }

  lemma TenUp(k: int, j: int)
    requires k >= 0 && j >= 0
    ensures Ten(k + j) == Ten(k) * Ten(j)
  {
    hide Pow;
    PowAdd(10, k, j);
    IntProduct(Pow(10, k), Pow(10, j));
  }

  lemma TenDown(k: int, j: int)
    requires k > 0 && j > 0
    ensures Ten(-k - j) == Ten(-k) * Ten(-j)
  {
    hide Pow;
    PowAdd(10, k, j);
    IntProduct(Pow(10, k), Pow(10, j));
    InverseProduct(Pow(10, k) as real, Pow(10, j) as real);
  }

  lemma TenMixed(k: int, j: int)
    requires k >= 0 && j > 0
    ensures Ten(k - j) == Ten(k) * Ten(-j)
  {
    hide Pow;
    if k >= j {
      PowAdd(10, k - j, j);
      IntProduct(Pow(10, k - j), Pow(10, j));
      TimesInverse(Pow(10, k - j) as real, Pow(10, j) as real);
    } else {
      PowAdd(10, j - k, k);
      IntProduct(Pow(10, j - k), Pow(10, k));
      InverseProduct(Pow(10, j - k) as real, Pow(10, k) as real);
    }
  }

  lemma QuotientTimes(n: real, d: real, p: real)
    requires d > 0.0
    ensures n * p / d == n / d * p
  {
    var q := n / d;
    assert q * d == n;
    RealAssoc(q, d, p);
    assert q * p * d == n * p;
    TimesInverse(q * p, d);
  }

  lemma QuotientOver(n: real, d: real, p: real)
    requires d > 0.0 && p > 0.0
    ensures d * p > 0.0 && n / (d * p) == n / d * (1.0 / p)
  {
    InverseProduct(d, p);
    var i, j := 1.0 / d, 1.0 / p;
    assert n / d == n * i;
    RealAssoc(n, i, j);
    assert n / (d * p) == n * (1.0 / (d * p));
  }

  /** The scaled fraction is the value times the power of ten. */
  lemma ScaledValue(num: nat, den: nat, k: int)
    requires den > 0
    ensures Up(num, k) as real / Down(den, k) as real == num as real / den as real * Ten(k)
  {
    hide Pow;
    if k >= 0 {
      IntProduct(num, Pow(10, k));
      QuotientTimes(num as real, den as real, Pow(10, k) as real);
    } else {
      ScaledDown(num, den, Pow(10, -k));
    }
  }

  lemma ScaledDown(num: nat, den: nat, p: nat)
    requires den > 0 && p > 0
    ensures den * p > 0 && num as real / (den * p) as real == num as real / den as real * (1.0 / p as real)
  {
    IntProduct(den, p);
    TimesPositive(den, p);
    QuotientOver(num as real, den as real, p as real);
  }

  // --- Nearest -----------------------------------------------------------------------------------

  /** No integer is nearer than the nearest, and one as near is smaller. */
  lemma NearestInteger(n: nat, a: nat, d: nat, c: int)
    requires d > 0 && IsNearest(n, a, d)
    ensures var v := a as real / d as real;
            && n as real - 0.5 <= v < n as real + 0.5
            && Distance(n as real, v) <= Distance(c as real, v)
            && (Distance(n as real, v) == Distance(c as real, v) ==> c <= n)
  {
    hide IsNearest;
    var v := a as real / d as real;
    HalfBounds(n, a, d);
    NearerThan(n as real, v, c);
  }

  lemma NearerThan(n: real, v: real, c: int)
    requires n - 0.5 <= v < n + 0.5 && n == n.Floor as real
    ensures Distance(n, v) <= Distance(c as real, v)
    ensures Distance(n, v) == Distance(c as real, v) ==> c as real <= n
  {
    var k := n.Floor;
    if c < k {
      assert c as real <= n - 1.0;
    } else if c > k {
      assert c as real >= n + 1.0;
    }
  }

  lemma QuotientBack(a: real, d: real)
    requires d > 0.0
    ensures a / d * d == a
  {
  }

  lemma HalfBoundsOf(n: real, a: real, d: real, v: real)
    requires d > 0.0 && v * d == a && (2.0 * n - 1.0) * d <= 2.0 * a < (2.0 * n + 1.0) * d
    ensures n - 0.5 <= v < n + 0.5
  {
    var w, low, high := 2.0 * v, 2.0 * n - 1.0, 2.0 * n + 1.0;
    assert w * d == 2.0 * a by { RealAssoc(2.0, v, d); }
    assert low * d <= w * d < high * d;
    DivideBy(low, w, d);
    DivideBy(w, high, d);
    assert low <= w < high;
  }

  lemma HalfBounds(n: nat, a: nat, d: nat)
    requires d > 0 && IsNearest(n, a, d)
    ensures n as real - 0.5 <= a as real / d as real < n as real + 0.5
  {
    QuotientBack(a as real, d as real);
    IntProduct(2 * n - 1, d);
    IntProduct(2 * n + 1, d);
    var low, high, mid := (2 * n - 1) * d, (2 * n + 1) * d, 2 * a;
    assert low <= mid < high;
    hide IsNearest;
    assert low as real <= mid as real < high as real;
    assert (2 * n - 1) as real == 2.0 * n as real - 1.0 && (2 * n + 1) as real == 2.0 * n as real + 1.0;
    HalfBoundsOf(n as real, a as real, d as real, a as real / d as real);
  }

  lemma ScaledDistance(a: real, b: real, t: real)
    requires t > 0.0
    ensures Distance(a * t, b * t) == Distance(a, b) * t
  {
    assert (a - b) * t == a * t - b * t && (b - a) * t == b * t - a * t;
    DivideBy(a, b, t);
  }

  /** What a candidate is, in units of the last printed place. */
  function InPlaces(x: Magnitude, n: nat, e: int): (c: real)
    requires x.m > 0
  {
    n as real * Ten(e - DecadeOf(x))
  }

  lemma InPlacesIs(x: Magnitude, n: nat, e: int, sig: nat)
    requires x.m > 0
    ensures Decimal(n, e, sig) == InPlaces(x, n, e) * Ten(DecadeOf(x) - sig + 1)
  {
    hide Ten;
    var k, t := e - DecadeOf(x), DecadeOf(x) - sig + 1;
    assert e - sig + 1 == k + t;
    TenSum(k, t);
    RealAssoc(n as real, Ten(k), Ten(t));
  }

  /** A candidate of a lower decade is below every number with the digits. */
  lemma LowerDecade(x: Magnitude, n: nat, e: int, sig: nat)
    requires x.m > 0 && sig > 0 && HasDigits(n, sig) && e < DecadeOf(x)
    ensures InPlaces(x, n, e) < Pow(10, sig - 1) as real
  {
    hide Pow, DecadeOf;
    var k := DecadeOf(x) - e;
    PowGrows(10, 1, k);
    PowTen(1);
    PowTen(sig);
    PowZero();
    FarBelow(n as real, Pow(10, sig - 1) as real, Pow(10, k) as real);
  }

  lemma FarBelow(n: real, top: real, p: real)
    requires 0.0 <= n < 10.0 * top && p >= 10.0
    ensures n * (1.0 / p) < top
  {
    TimesInverse(n, p);
    RealAssoc(n, 1.0 / p, p);
    DivideBy(10.0, p, top);
    RealSwap(top, p);
    DivideBy(n * (1.0 / p), top, p);
  }

  /** A candidate of the same or a higher decade is a whole number of places. */
  lemma HigherDecade(x: Magnitude, n: nat, e: int)
    requires x.m > 0 && e >= DecadeOf(x)
    ensures InPlaces(x, n, e) == (n * Pow(10, e - DecadeOf(x))) as real
  {
    IntProduct(n, Pow(10, e - DecadeOf(x)));
  }

  /** The number rounded to the last place, before any carry. */
  function Places(x: Magnitude, sig: nat): (n: nat)
    requires x.m > 0
  {
    HalfUp(Over(x, sig), Under(x, sig))
  }

  lemma CarryKeepsValue(x: Magnitude, sig: nat)
    requires x.m > 0 && sig > 0
    ensures var (n, e) := ScientificUp(x, sig);
            HasDigits(n, sig) && InPlaces(x, n, e) == Places(x, sig) as real
  {
    hide Over, Under, DecadeOf, HalfUp, Pow;
    var p := Places(x, sig);
    OverInRange(x, sig);
    PowTen(sig);
    HalfUpInRange(Over(x, sig), Under(x, sig), Pow(10, sig - 1), Pow(10, sig));
    assert p == HalfUp(Over(x, sig), Under(x, sig));
    assert ScientificUp(x, sig) == Carried(p, DecadeOf(x), sig);
    CarryStays(p, DecadeOf(x), sig);
  }

  lemma CarryStays(p: nat, decade: int, sig: nat)
    requires sig > 0 && Pow(10, sig - 1) <= p <= Pow(10, sig)
    ensures var (n, e) := Carried(p, decade, sig); HasDigits(n, sig) && n as real * Ten(e - decade) == p as real
  {
    PowTen(sig);
    PowTen(1);
    PowZero();
    assert Ten(0) == 1.0 && Ten(1) == 10.0;
    PowGrows(10, 0, sig - 1);
  }

  /**
    ECMA-262: of all numbers with `sig` significant digits the printed one is nearest to
    the value, and the larger one where two are equally near.
   */
  lemma PrintedIsNearest(x: Magnitude, sig: nat, n: nat, e: int)
    requires x.m > 0 && sig > 0 && HasDigits(n, sig)
    ensures var (best, exponent) := ScientificUp(x, sig);
            var (printed, other) := (Decimal(best, exponent, sig), Decimal(n, e, sig));
            && HasDigits(best, sig)
            && Distance(printed, Value(x)) <= Distance(other, Value(x))
            && (Distance(printed, Value(x)) == Distance(other, Value(x)) ==> other <= printed)
  {
    hide *;
    var (best, exponent) := ScientificUp(x, sig);
    var t := Ten(DecadeOf(x) - sig + 1);
    var v := Over(x, sig) as real / Under(x, sig) as real;
    CarryKeepsValue(x, sig);
    InPlacesIs(x, best, exponent, sig);
    InPlacesIs(x, n, e, sig);
    ValueInPlaces(x, sig);
    NearestInPlaces(x, sig, n, e);
    var p, c := Places(x, sig) as real, InPlaces(x, n, e);
    assert Decimal(best, exponent, sig) == p * t;
    assert Decimal(n, e, sig) == c * t;
    assert Value(x) == v * t;
    CompareScaled(p, c, v, t);
  }

  lemma CompareScaled(p: real, c: real, v: real, t: real)
    requires t > 0.0 && Distance(p, v) <= Distance(c, v) && (Distance(p, v) == Distance(c, v) ==> c <= p)
    ensures Distance(p * t, v * t) <= Distance(c * t, v * t)
    ensures Distance(p * t, v * t) == Distance(c * t, v * t) ==> c * t <= p * t
  {
    hide Distance;
    ScaledDistance(p, v, t);
    ScaledDistance(c, v, t);
    DivideBy(Distance(p, v), Distance(c, v), t);
    DivideBy(c, p, t);
  }

  lemma ValueInPlaces(x: Magnitude, sig: nat)
    requires x.m > 0
    ensures Value(x) == Over(x, sig) as real / Under(x, sig) as real * Ten(DecadeOf(x) - sig + 1)
  {
    hide Up, Down, Ten, DecadeOf;
    var k := sig - 1 - DecadeOf(x);
    ScaledValue(Num(x), Den(x), k);
    TenSum(k, -k);
    TenZero();
    RealAssoc(Value(x), Ten(k), Ten(-k));
    assert DecadeOf(x) - sig + 1 == -k;
  }

  lemma TenZero()
    ensures Ten(0) == 1.0
  {
  }

  lemma NearestInPlaces(x: Magnitude, sig: nat, n: nat, e: int)
    requires x.m > 0 && sig > 0 && HasDigits(n, sig)
    ensures var v := Over(x, sig) as real / Under(x, sig) as real;
            var (p, c) := (Places(x, sig) as real, InPlaces(x, n, e));
            Distance(p, v) <= Distance(c, v) && (Distance(p, v) == Distance(c, v) ==> c <= p)
  {
    hide Ten, Over, Under, DecadeOf, InPlaces, HalfUp, IsNearest, Pow;
    var a, d := Over(x, sig), Under(x, sig);
    var p := Places(x, sig);
    HalfUpIsNearest(p, a, d);
    if e >= DecadeOf(x) {
      HigherDecade(x, n, e);
      NearestInteger(p, a, d, n * Pow(10, e - DecadeOf(x)));
    } else {
      var low := Pow(10, sig - 1);
      LowerDecade(x, n, e, sig);
      NearestInteger(p, a, d, low);
      OverInRange(x, sig);
      AtLeastReal(a, d, low);
    }
  }

  lemma AtLeastReal(a: nat, d: nat, low: nat)
    requires d > 0 && low * d <= a
    ensures low as real <= a as real / d as real
  {
    QuotientBack(a as real, d as real);
    IntProduct(low, d);
    DivideBy(low as real, a as real / d as real, d as real);
  }
}
