/**
 * Integer helpers the resolution generator relies on: Euclid's greatest
 * common divisor (Python's `math.gcd` on non-negative arguments) and the
 * decimal rendering of a natural number (what an f-string does with an int).
 */
module Numbers {

  /** Greatest common divisor by Euclid's algorithm; Gcd(0, 0) == 0 as in Python. */
  function Gcd(a: nat, b: nat): nat
    decreases b
  {
    if b == 0 then a else Gcd(b, a % b)
  }

  /** x divides y, stated without an existential so that it can be computed. */
  predicate Divides(x: nat, y: nat) {
    if x == 0 then y == 0 else y % x == 0
  }

  /** Division with remainder has exactly one answer. */
  lemma DivModUnique(x: int, y: int, q: int, r: int)
    requires y > 0 && x == y * q + r && 0 <= r < y
    ensures x / y == q && x % y == r
  {
    var q', r' := x / y, x % y;
    assert x == y * q' + r';
    if q > q' {
      MulAtLeast(y, q - q');
    } else if q < q' {
      MulAtLeast(y, q' - q);
    }
  }

  lemma MulAtLeast(y: int, d: int)
    requires y > 0 && d >= 1
    ensures y * d >= y
  {
    assert y * d == y * (d - 1) + y;
    assert y * (d - 1) >= 0;
  }

  /** Scaling both operands scales the remainder. */
  lemma ModScale(k: nat, a: nat, b: nat)
    requires k > 0 && b > 0
    ensures (k * a) % (k * b) == k * (a % b)
    ensures (k * a) / (k * b) == a / b
  {
    var q, r := a / b, a % b;
    assert a == b * q + r;
    assert k * a == (k * b) * q + k * r;
    assert k * r < k * b;
    DivModUnique(k * a, k * b, q, k * r);
  }

  /** The gcd is homogeneous: Gcd(k*a, k*b) == k * Gcd(a, b). */
  lemma {:induction false} GcdScale(k: nat, a: nat, b: nat)
    requires k > 0
    ensures Gcd(k * a, k * b) == k * Gcd(a, b)
    decreases b
  {
    if b == 0 {
      assert k * b == 0;
    } else {
      assert k * b != 0;
      ModScale(k, a, b);
      GcdScale(k, b, a % b);
    }
  }

  /** The gcd does not depend on the order of its operands. */
  lemma GcdSymmetric(a: nat, b: nat)
    ensures Gcd(a, b) == Gcd(b, a)
  {
    if a == 0 || b == 0 || a == b {
    } else if a < b {
      DivModUnique(a, b, 0, a);
    } else {
      DivModUnique(b, a, 0, b);
    }
  }

  /** A multiple of g plus a multiple of g is a multiple of g. */
  lemma DividesCombination(g: nat, b: nat, k: nat, c: nat)
    requires g > 0 && b % g == 0 && c % g == 0
    ensures (b * k + c) % g == 0
  {
    var m, n := b / g, c / g;
    assert b == g * m && c == g * n;
    assert b * k + c == g * (m * k + n);
    DivModUnique(b * k + c, g, m * k + n, 0);
  }

  /** Gcd(a, b) divides both operands, and is positive unless both are 0. */
  lemma {:induction false} GcdDivides(a: nat, b: nat)
    ensures Divides(Gcd(a, b), a) && Divides(Gcd(a, b), b)
    ensures a > 0 || b > 0 ==> Gcd(a, b) > 0
    decreases b
  {
    if b > 0 {
      GcdDivides(b, a % b);
      EuclidStep(a, b, Gcd(b, a % b));
    } else if a > 0 {
      DivModUnique(a, a, 1, 0);
      DivModUnique(0, a, 0, 0);
    }
  }

  /** A divisor of b and of a % b divides a. */
  lemma EuclidStep(a: nat, b: nat, g: nat)
    requires b > 0 && g > 0 && b % g == 0 && (a % b) % g == 0
    ensures a % g == 0
  {
    var q, r := a / b, a % b;
    assert a == b * q + r;
    DividesCombination(g, b, q, r);
  }

  /** Any common divisor of a and b divides their gcd: it is the greatest. */
  lemma {:induction false} GcdGreatest(d: nat, a: nat, b: nat)
    requires d > 0 && a % d == 0 && b % d == 0
    ensures Gcd(a, b) % d == 0
    decreases b
  {
    if b > 0 {
      var x, y := a / d, b / d;
      assert a == d * x && b == d * y;
      GcdScale(d, x, y);
      var g := Gcd(x, y);
      assert Gcd(a, b) == d * g;
      DivModUnique(d * g, d, g, 0);
    }
  }

  /** An exact division multiplies back. */
  lemma ExactQuotient(x: nat, g: nat)
    requires g > 0 && x % g == 0
    ensures (x / g) * g == x
  {
  }

  /** Rearranging a triple product. */
  lemma CrossProduct(p: int, q: int, g: int)
    ensures p * (q * g) == q * (p * g)
  {
  }

  /** A positive common factor cancels. */
  lemma MulCancel(x: int, y: int, k: int)
    requires k > 0 && x * k == y * k
    ensures x == y
  {
    assert (x - y) * k == 0;
  }

  /** x and y are k times a coprime pair exactly when Gcd(x, y) == k. */
  lemma GcdOfMultiples(k: nat, a: nat, b: nat, x: nat, y: nat)
    requires k > 0 && Gcd(a, b) == 1 && x == k * a && y == k * b
    ensures Gcd(x, y) == k
  {
    GcdScale(k, a, b);
  }

  /** Gcd(0, q) == q. */
  lemma GcdZeroLeft(q: nat)
    ensures Gcd(0, q) == q
  {
    if q > 0 {
      assert 0 % q == 0;
    }
  }

  // ----- decimal rendering -----

  predicate IsDigitChar(c: char) {
    '0' <= c <= '9'
  }

  predicate AllDigits(s: string) {
    forall i :: 0 <= i < |s| ==> IsDigitChar(s[i])
  }

  /** A string of digits holds no ':'. */
  lemma AllDigitsNoColon(s: string)
    requires AllDigits(s)
    ensures ':' !in s
  {
  }

  function DigitChar(d: nat): (c: char)
    requires d < 10
    ensures IsDigitChar(c) && c as int - '0' as int == d
  {
    ('0' as int + d) as char
  }

  function DigitValue(c: char): nat
    requires IsDigitChar(c)
  {
    c as int - '0' as int
  }

  /** Decimal text of n without leading zeros, as `str(n)` / `f"{n}"` prints it. */
  function NatToString(n: nat): (s: string)
    ensures |s| > 0 && AllDigits(s)
    decreases n
  {
    if n < 10 then [DigitChar(n)] else NatToString(n / 10) + [DigitChar(n % 10)]
  }

  /** Value of a string of decimal digits, read most significant digit first. */
  function StringToNat(s: string): nat
    requires AllDigits(s)
    decreases |s|
  {
    if |s| == 0 then 0
    else StringToNat(s[..|s| - 1]) * 10 + DigitValue(s[|s| - 1])
  }

  /** A canonical numeral: non-empty digits, and no leading zero unless it is "0". */
  predicate IsCanonicalNumeral(s: string) {
    |s| > 0 && AllDigits(s) && (s[0] == '0' ==> |s| == 1)
  }

  /** Reading back the decimal text gives the number, and the text is canonical. */
  lemma {:induction false} NatToStringRoundTrip(n: nat)
    ensures StringToNat(NatToString(n)) == n
    ensures IsCanonicalNumeral(NatToString(n))
    decreases n
  {
    var s := NatToString(n);
    if n >= 10 {
      NatToStringRoundTrip(n / 10);
      var t := NatToString(n / 10);
      assert s[..|s| - 1] == t;
      assert s[0] == t[0];
      assert n / 10 > 0;
    }
  }

  /** Two numbers have the same decimal text only if they are equal. */
  lemma NatToStringInjective(m: nat, n: nat)
    requires NatToString(m) == NatToString(n)
    ensures m == n
  {
    NatToStringRoundTrip(m);
    NatToStringRoundTrip(n);
  }

  /** Rendering a canonical numeral's value gives the numeral back. */
  lemma {:induction false} CanonicalRoundTrip(s: string)
    requires IsCanonicalNumeral(s)
    ensures NatToString(StringToNat(s)) == s
    decreases |s|
  {
    var n := StringToNat(s);
    if |s| == 1 {
      assert s[..|s| - 1] == [];
      assert StringToNat(s[..|s| - 1]) == 0;
      assert n == DigitValue(s[0]);
      assert DigitChar(n) == s[0];
    } else {
      var t := s[..|s| - 1];
      assert t[0] == s[0];
      assert IsCanonicalNumeral(t);
      CanonicalRoundTrip(t);
      LeadingDigitPositive(t);
      assert n / 10 == StringToNat(t) && n % 10 == DigitValue(s[|s| - 1]);
      assert s == t + [s[|s| - 1]];
    }
  }

  /** A canonical numeral longer than one digit denotes a number of at least 10. */
  lemma {:induction false} LeadingDigitPositive(s: string)
    requires IsCanonicalNumeral(s) && s[0] != '0'
    ensures StringToNat(s) > 0
    ensures |s| > 1 ==> StringToNat(s) >= 10
    decreases |s|
  {
    if |s| > 1 {
      var t := s[..|s| - 1];
      assert t[0] == s[0];
      LeadingDigitPositive(t);
    }
  }
}
