/** Powers, decimal digit strings and rounding, as the number printers need them. */
module Decimals {
  import Lists


  // --- Powers ------------------------------------------------------------------------------

  function Pow(b: nat, n: nat): (r: nat)
    ensures b > 0 ==> r > 0
  {
    if n == 0 then 1
    else
      var rest := Pow(b, n - 1);
      assert b > 0 ==> b * rest > 0;
      b * rest
  }

  lemma PowZero()
    ensures Pow(10, 0) == 1
  {
  }

  lemma MulAssoc(a: int, b: int, c: int)
    ensures a * (b * c) == a * b * c && a * b * c == a * c * b
  {
  }

  lemma MulMono(a: nat, b: nat, c: nat)
    requires a <= b
    ensures a * c <= b * c && c * a <= c * b
  {
  }

  lemma {:induction false} PowAdd(b: nat, m: nat, n: nat)
    ensures Pow(b, m + n) == Pow(b, m) * Pow(b, n)
    decreases m
  {
    if m > 0 {
      PowAdd(b, m - 1, n);
      MulAssoc(b, Pow(b, m - 1), Pow(b, n));
      assert Pow(b, m + n) == b * Pow(b, m - 1 + n);
    }
  }

  lemma {:induction false} PowProduct(a: nat, b: nat, n: nat)
    ensures Pow(a * b, n) == Pow(a, n) * Pow(b, n)
    decreases n
  {
    if n > 0 {
      PowProduct(a, b, n - 1);
      var x, y := Pow(a, n - 1), Pow(b, n - 1);
      assert a * b * (x * y) == (a * x) * (b * y) by {
        MulAssoc(a * b, x, y);
        MulAssoc(a, b, x);
        MulAssoc(a * x, b, y);
      }
    }
  }

  lemma {:induction false} PowGrows(b: nat, m: nat, n: nat)
    requires b > 0 && m <= n
    ensures Pow(b, m) <= Pow(b, n)
    decreases n
  {
    if m < n {
      PowGrows(b, m, n - 1);
      MulMono(1, b, Pow(b, n - 1));
    }
  }

  lemma CancelLess(a: nat, b: nat, c: nat)
    requires c > 0 && a * c <= b * c
    ensures a <= b
  {
    if b < a {
      MulMono(b + 1, a, c);
      Distribute(b, 1, c);
    }
  }

  lemma CancelLessStrictly(a: nat, b: nat, c: nat)
    requires a * c < b * c
    ensures a < b
  {
    if b <= a {
      MulMono(b, a, c);
    }
  }

  // --- Odd parts -----------------------------------------------------------------------------

  lemma OddTimesOdd(x: nat, y: nat)
    requires x % 2 == 1 && y % 2 == 1
    ensures x * y % 2 == 1
  {
    var a, b := x / 2, y / 2;
    assert x * y == 2 * (a * y + b) + 1 by {
      assert x == 2 * a + 1 && y == 2 * b + 1;
      assert (2 * a + 1) * y == 2 * (a * y) + y by { MulAssoc(2, a, y); }
    }
  }

  lemma {:induction false} FivesAreOdd(n: nat)
    ensures Pow(5, n) % 2 == 1
    decreases n
  {
    if n > 0 {
      FivesAreOdd(n - 1);
      OddTimesOdd(5, Pow(5, n - 1));
    }
  }

  lemma EvenPower(n: nat, x: nat)
    requires n > 0
    ensures Pow(2, n) * x % 2 == 0
  {
    MulAssoc(2, Pow(2, n - 1), x);
    assert Pow(2, n) * x == 2 * (Pow(2, n - 1) * x);
  }

  /** A number has one odd part. */
  lemma {:induction false} OddPartIsUnique(a: nat, x: nat, b: nat, y: nat)
    requires x % 2 == 1 && y % 2 == 1 && Pow(2, a) * x == Pow(2, b) * y
    ensures a == b && x == y
    decreases a
  {
    if a == 0 && b > 0 {
      EvenPower(b, y);
    } else if a > 0 && b == 0 {
      EvenPower(a, x);
    } else if a > 0 {
      MulAssoc(2, Pow(2, a - 1), x);
      MulAssoc(2, Pow(2, b - 1), y);
      OddPartIsUnique(a - 1, x, b - 1, y);
    }
  }

  // --- Digit strings ---------------------------------------------------------------------------

  function Digit(d: nat): (c: char)
    requires d < 10
  {
    '0' + d as char
  }

  predicate IsDigit(c: char) { '0' <= c <= '9' }

  predicate AreDigits(s: string) { forall i :: 0 <= i < |s| ==> IsDigit(s[i]) }

  function DigitValue(c: char): (d: nat)
    requires IsDigit(c)
    ensures d < 10 && Digit(d) == c
  {
    (c - '0') as nat
  }

  lemma DigitBack(d: nat)
    requires d < 10
    ensures IsDigit(Digit(d)) && DigitValue(Digit(d)) == d
  {
  }

  /** The decimal digits of a number, with zeros in front up to a width. */
  function Digits(n: nat, width: nat): (s: string)
    ensures |s| >= 1 && |s| >= width && AreDigits(s)
    decreases n + width
  {
    if n < 10 && width <= 1 then [Digit(n)]
    else Digits(n / 10, if width > 0 then width - 1 else 0) + [Digit(n % 10)]
  }

  /** The number a digit string says. */
  function ToNat(s: string): (n: nat)
    requires AreDigits(s)
  {
    if s == "" then 0 else 10 * ToNat(s[..|s| - 1]) + DigitValue(s[|s| - 1])
  }

  lemma {:induction false} DigitsSay(n: nat, width: nat)
    ensures ToNat(Digits(n, width)) == n
    decreases n + width
  {
    hide Digit, AreDigits;
    if n < 10 && width <= 1 {
      SnocSays("", n);
      assert "" + [Digit(n)] == [Digit(n)];
    } else {
      var w := if width > 0 then width - 1 else 0;
      DigitsSay(n / 10, w);
      SnocSays(Digits(n / 10, w), n % 10);
    }
  }

  lemma SnocSays(s: string, d: nat)
    requires AreDigits(s) && d < 10
    ensures AreDigits(s + [Digit(d)]) && ToNat(s + [Digit(d)]) == 10 * ToNat(s) + d
    ensures ToNat("") == 0
  {
    DigitBack(d);
    assert (s + [Digit(d)])[..|s|] == s;
  }

  lemma {:induction false} ToNatConcat(a: string, b: string)
    requires AreDigits(a) && AreDigits(b)
    ensures AreDigits(a + b) && ToNat(a + b) == ToNat(a) * Pow(10, |b|) + ToNat(b)
    decreases |b|
  {
    if b == "" {
      assert a + b == a;
    } else {
      var front, last := b[..|b| - 1], b[|b| - 1];
      ToNatConcat(a, front);
      assert (a + b)[..|a + b| - 1] == a + front;
      MulAssoc(10, ToNat(a), Pow(10, |front|));
      MulAssoc(ToNat(a), 10, Pow(10, |front|));
    }
  }

  /** No wider than it must be. */
  lemma {:induction false} DigitsLength(n: nat, width: nat)
    requires width > 0 && n < Pow(10, width)
    ensures |Digits(n, width)| == width
    decreases width
  {
    if width > 1 {
      DigitsLength(n / 10, width - 1);
    } else {
      assert Pow(10, 1) == 10 * Pow(10, 0);
    }
  }

  function Zeros(n: nat): (s: string)
    ensures |s| == n && AreDigits(s)
  {
    if n == 0 then "" else Zeros(n - 1) + ['0']
  }

  predicate AllZeros(s: string) { forall i :: 0 <= i < |s| ==> s[i] == '0' }

  lemma {:induction false} AllZerosAre(s: string)
    ensures AllZeros(s) <==> s == Zeros(|s|)
    decreases |s|
  {
    if s != "" {
      var front := s[..|s| - 1];
      AllZerosAre(front);
      assert s == front + [s[|s| - 1]];
    }
  }

  lemma {:induction false} ZerosSay(n: nat)
    ensures ToNat(Zeros(n)) == 0
    decreases n
  {
    if n > 0 {
      ZerosSay(n - 1);
      assert Zeros(n)[..n - 1] == Zeros(n - 1);
    }
  }

  lemma {:induction false} ToNatBound(s: string)
    requires AreDigits(s)
    ensures ToNat(s) < Pow(10, |s|)
    decreases |s|
  {
    if s != "" {
      ToNatBound(s[..|s| - 1]);
    }
  }

  /** Two digit strings of one length that say the same are the same. */
  lemma {:induction false} SameNumberSameDigits(a: string, b: string)
    requires AreDigits(a) && AreDigits(b) && |a| == |b| && ToNat(a) == ToNat(b)
    ensures a == b
    decreases |a|
  {
    if a != "" {
      SameNumberSameDigits(a[..|a| - 1], b[..|b| - 1]);
      assert a == a[..|a| - 1] + [a[|a| - 1]] && b == b[..|b| - 1] + [b[|b| - 1]];
    }
  }

  /** A number without its last digits. */
  function Shifted(n: nat, j: nat): (r: nat) { n / Pow(10, j) }

  /** The last `j` digits cut off. */
  lemma {:induction false} DigitsPrefix(n: nat, width: nat, j: nat)
    requires j < width
    ensures |Digits(n, width)| - j >= 1
    ensures Digits(n, width)[..|Digits(n, width)| - j] == Digits(Shifted(n, j), width - j)
    decreases j
  {
    hide Digit, AreDigits, Digits, Pow, Shifted;
    var s := Digits(n, width);
    ShiftedTens(n, j);
    if j == 0 {
      assert s[..|s|] == s;
    } else {
      DigitsPrefix(n / 10, width - 1, j - 1);
      DigitsSnoc(n, width);
      var front := Digits(n / 10, width - 1);
      assert (front + [Digit(n % 10)])[..|front| - (j - 1)] == front[..|front| - (j - 1)];
    }
  }

  lemma DigitsSnoc(n: nat, width: nat)
    requires width > 1
    ensures Digits(n, width) == Digits(n / 10, width - 1) + [Digit(n % 10)]
  {
  }

  lemma ShiftedTens(n: nat, j: nat)
    ensures j == 0 ==> Shifted(n, j) == n
    ensures j > 0 ==> Shifted(n, j) == Shifted(n / 10, j - 1)
  {
    hide Digits;
    if j > 0 {
      DivDiv(n, 10, Pow(10, j - 1));
    }
  }

  lemma Split(n: nat, d: nat) returns (q: nat, r: nat)
    requires d > 0
    ensures n == q * d + r && r < d && q == n / d
  {
    q, r := n / d, n % d;
  }

  /** A quotient of a quotient, in products alone. */
  lemma Recompose(n: nat, a: nat, b: nat, m: nat, s: nat, q: nat, r: nat)
    requires n == m * a + s && m == q * b + r && s < a && r < b
    ensures n == q * (a * b) + (r * a + s) && r * a + s < a * b
  {
    Distribute(q * b, r, a);
    MulAssoc(q, b, a);
    MulAssoc(q, a, b);
    MulMono(r + 1, b, a);
    Distribute(r, 1, a);
  }

  lemma DivDiv(n: nat, a: nat, b: nat)
    requires a > 0 && b > 0
    ensures a * b > 0 && n / a / b == n / (a * b)
  {
    var m, s := Split(n, a);
    var q, r := Split(m, b);
    Recompose(n, a, b, m, s, q, r);
    DivIs(n, a * b, q, r * a + s);
  }

  lemma Distribute(a: int, b: int, c: int)
    ensures (a + b) * c == a * c + b * c
  {
  }

  lemma DivIs(n: nat, d: nat, q: nat, r: nat)
    requires d > 0 && n == q * d + r && r < d
    ensures n / d == q && n % d == r
  {
    var k := n / d;
    if k < q {
      MulMono(k + 1, q, d);
      Distribute(k, 1, d);
    } else if k > q {
      MulMono(q + 1, k, d);
      Distribute(q, 1, d);
    }
  }

  // --- Rounding up in the last place ---------------------------------------------------------------

  function RoundedUp(s: string): (r: string)
    requires AreDigits(s)
    ensures AreDigits(r) && |s| <= |r| <= |s| + 1
  {
    if s == "" then "1"
    else
      var front, last := s[..|s| - 1], s[|s| - 1];
      if last != '9' then front + [Digit(DigitValue(last) + 1)] else RoundedUp(front) + ['0']
  }

  /** The next number, in as many places or with one more when all were nines. */
  lemma {:induction false} RoundedUpSays(s: string)
    requires AreDigits(s)
    ensures ToNat(RoundedUp(s)) == ToNat(s) + 1
    ensures |RoundedUp(s)| > |s| <==> ToNat(s) + 1 == Pow(10, |s|)
    decreases |s|
  {
    if s == "" {
      assert RoundedUp(s)[..0] == "";
    } else {
      var front, last := s[..|s| - 1], s[|s| - 1];
      var r := RoundedUp(s);
      RoundedUpSays(front);
      ToNatBound(front);
      if last != '9' {
        assert r[..|r| - 1] == front;
        DigitBack(DigitValue(last) + 1);
      } else {
        assert r[..|r| - 1] == RoundedUp(front);
      }
    }
  }

  lemma NextOneDigit(n: nat, width: nat)
    requires n < 10 && width <= 1
    ensures RoundedUp(Digits(n, width)) == Digits(n + 1, width)
  {
    var s := Digits(n, width);
    assert s[..|s| - 1] == "" && s[0] == Digit(n);
    if n == 9 {
      assert Digits(10, width) == Digits(1, 0) + [Digit(0)];
    }
  }

  /** The digits of a number, rounded up, are the digits of the next one. */
  lemma {:induction false} NextDigits(n: nat, width: nat)
    ensures RoundedUp(Digits(n, width)) == Digits(n + 1, width)
    decreases n + width
  {
    hide RoundedUp, Digit;
    if n < 10 && width <= 1 {
      NextOneDigit(n, width);
    } else {
      var w := if width > 0 then width - 1 else 0;
      SnocRounds(Digits(n / 10, w), n % 10);
      TensOfNext(n);
      if n % 10 == 9 {
        NextDigits(n / 10, w);
      }
    }
  }

  lemma SnocRounds(s: string, d: nat)
    requires AreDigits(s) && d < 10
    ensures AreDigits(s + [Digit(d)])
    ensures RoundedUp(s + [Digit(d)]) == if d < 9 then s + [Digit(d + 1)] else RoundedUp(s) + [Digit(0)]
  {
    DigitBack(d);
    assert (s + [Digit(d)])[..|s|] == s;
  }

  lemma TensOfNext(n: nat)
    ensures n % 10 == 9 ==> (n + 1) / 10 == n / 10 + 1 && (n + 1) % 10 == 0
    ensures n % 10 < 9 ==> (n + 1) / 10 == n / 10 && (n + 1) % 10 == n % 10 + 1
  {
  }

  /** One turn of the loop that rounds up. */
  lemma RoundedUpStep(digits: string, at: nat)
    requires AreDigits(digits) && at < |digits|
    ensures RoundedUp(digits[..at + 1]) ==
            if digits[at] != '9' then digits[..at] + [Digit(DigitValue(digits[at]) + 1)]
            else RoundedUp(digits[..at]) + ['0']
  {
    assert digits[..at + 1][..at] == digits[..at];
  }

  lemma Overwritten(front: string, tail: string, at: nat, c: char)
    requires |front| == at + 1
    ensures (front + tail)[at := c] == front[..at] + ([c] + tail)
  {
  }

  /** `round_up_in_place`. */
  method RoundUpInPlace(digits: string) returns (up: string, carried: bool)
    requires AreDigits(digits)
    ensures up == RoundedUp(digits) && (carried <==> |up| > |digits|)
  {
    hide RoundedUp;
    up := digits;
    var at: nat := |up|;
    ghost var tail := "";
    NothingRoundedUp();
    assert digits[..at] == digits;
    while at > 0
      invariant at <= |up| == |digits|
      invariant up == digits[..at] + tail && RoundedUp(digits) == RoundedUp(digits[..at]) + tail
    {
      at := at - 1;
      RoundedUpStep(digits, at);
      Overwritten(digits[..at + 1], tail, at, if up[at] != '9' then Digit(DigitValue(digits[at]) + 1) else '0');
      assert digits[..at + 1][..at] == digits[..at];
      if up[at] != '9' {
        Lists.Regroup(digits[..at], [Digit(DigitValue(digits[at]) + 1)], tail);
        up := up[at := Digit(DigitValue(up[at]) + 1)];
        return up, false;
      }
      Lists.Regroup(RoundedUp(digits[..at]), "0", tail);
      up := up[at := '0'];
      tail := "0" + tail;
    }
    up := ['1'] + up;
    carried := true;
  }

  lemma NothingRoundedUp()
    ensures RoundedUp("") == "1"
  {
  }

  // --- Nearest integers ------------------------------------------------------------------------------

  function Floor(a: nat, d: nat): (n: nat)
    requires d > 0
  {
    a / d
  }

  /** `std::to_chars` takes the even one of two equally near. */
  function HalfEven(a: nat, d: nat): (n: nat)
    requires d > 0
  {
    var q, r := a / d, a % d;
    if 2 * r < d then q else if 2 * r > d then q + 1 else q + q % 2
  }

  /** The specification takes the larger one. */
  function HalfUp(a: nat, d: nat): (n: nat)
    requires d > 0
  {
    var q, r := a / d, a % d;
    if 2 * r < d then q else q + 1
  }

  /** `a / d` lies halfway between two integers. */
  predicate IsTie(a: nat, d: nat)
    requires d > 0
  {
    2 * (a % d) == d
  }

  /** The integer nearest to `a / d`, the larger of two. */
  predicate IsNearest(n: nat, a: nat, d: nat) {
    (2 * n - 1) * d <= 2 * a < (2 * n + 1) * d
  }

  /** Rounding up on ties gives the one nearest integer. */
  lemma HalfUpIsNearest(n: nat, a: nat, d: nat)
    requires d > 0
    ensures n == HalfUp(a, d) <==> IsNearest(n, a, d)
  {
    var q, r := a / d, a % d;
    assert a == q * d + r;
    var up := HalfUp(a, d);
    Distribute(2 * q, 1, d);
    Distribute(2 * q, 3, d);
    Distribute(2 * q, -1, d);
    MulAssoc(2, q, d);
    assert IsNearest(up, a, d);
    if n < up {
      MulMono(2 * n + 1, 2 * up - 1, d);
    } else if n > up {
      MulMono(2 * up + 1, 2 * n - 1, d);
    }
  }

  /** A quotient stays within whole bounds. */
  lemma FloorInRange(a: nat, d: nat, low: nat, high: nat)
    requires d > 0 && low * d <= a
    ensures low <= a / d && (a < high * d ==> a / d < high)
  {
    var q, r := Split(a, d);
    Distribute(q, 1, d);
    CancelLessStrictly(low, q + 1, d);
    if a < high * d {
      CancelLessStrictly(q, high, d);
    }
  }

  /** So does a rounded one. */
  lemma HalfUpInRange(a: nat, d: nat, low: nat, high: nat)
    requires d > 0 && low * d <= a < high * d
    ensures low <= a / d && HalfUp(a, d) <= high && low <= HalfUp(a, d)
  {
    FloorInRange(a, d, low, high);
    HalfUpNearFloor(a, d);
  }

  lemma HalfUpNearFloor(a: nat, d: nat)
    requires d > 0
    ensures a / d <= HalfUp(a, d) <= a / d + 1
  {
  }

  lemma SameOffTies(a: nat, d: nat)
    requires d > 0
    ensures HalfEven(a, d) == HalfUp(a, d) || (IsTie(a, d) && HalfUp(a, d) == a / d + 1)
    ensures !IsTie(a, d) ==> HalfEven(a, d) == HalfUp(a, d)
    ensures IsTie(a, d) ==> HalfUp(a, d) == a / d + 1
  {
  }
}
