/**
 Exact decimals (internal/domain/canonical.go, `writeNumber` and its two parsers).

 A JSON number literal is read by the grammar of section 6 of RFC 8259 and rewritten
 without exponent, leading zeroes or trailing zeroes, by moving digits only. The
 reference meaning of a literal is the real number it denotes.
 */
module Decimal {

  const MAX_DIGITS: nat := 0x10_0000
  const MAX_EXPONENT: int := 4096

  predicate IsDigit(c: char) { '0' <= c <= '9' }

  predicate AllDigits(s: string) { forall i | 0 <= i < |s| :: IsDigit(s[i]) }

  function DigitValue(c: char): nat { if IsDigit(c) then c as int - '0' as int else 0 }

  /** The number a digit string denotes. */
  function Nat(s: string): nat {
    if s == "" then 0 else 10 * Nat(s[..|s| - 1]) + DigitValue(s[|s| - 1])
  }

  function Pow10(n: nat): (p: nat)
    ensures p >= 1
  {
    if n == 0 then 1 else 10 * Pow10(n - 1)
  }

  /** m times ten to the power e. */
  function Scaled(m: nat, e: int): real {
    if e >= 0 then (m * Pow10(e)) as real else m as real / Pow10(-e) as real
  }

  function Zeros(n: nat): (s: string)
    ensures |s| == n && AllDigits(s) && forall i | 0 <= i < n :: s[i] == '0'
  {
    seq(n, _ => '0')
  }

  // ---------------------------------------------------------------- digit strings

  lemma {:induction false} NatConcat(a: string, b: string)
    ensures Nat(a + b) == Nat(a) * Pow10(|b|) + Nat(b)
  {
    if b == "" {
      assert a + b == a;
    } else {
      NatConcat(a, b[..|b| - 1]);
      assert (a + b)[..|a + b| - 1] == a + b[..|b| - 1];
      ShiftDigit(Nat(a), Pow10(|b| - 1), Nat(b[..|b| - 1]), DigitValue(b[|b| - 1]));
    }
  }

  lemma ShiftDigit(a: nat, p: nat, x: nat, d: nat)
    ensures 10 * (a * p + x) + d == a * (10 * p) + (10 * x + d)
  {
  }

  lemma {:induction false} NatZeros(n: nat)
    ensures Nat(Zeros(n)) == 0
  {
    if n > 0 {
      assert Zeros(n)[..n - 1] == Zeros(n - 1);
      NatZeros(n - 1);
    }
  }

  lemma {:induction false} NatBound(s: string)
    ensures Nat(s) < Pow10(|s|)
  {
    if s != "" { NatBound(s[..|s| - 1]); }
  }

  /** Digit strings of one length are told apart by their number. */
  lemma {:induction false} NatInjective(a: string, b: string)
    requires AllDigits(a) && AllDigits(b) && |a| == |b| && Nat(a) == Nat(b)
    ensures a == b
  {
    if a != "" {
      var x, y, c, d := a[..|a| - 1], b[..|b| - 1], a[|a| - 1], b[|b| - 1];
      assert IsDigit(c) && IsDigit(d);
      LastDigit(Nat(x), DigitValue(c), Nat(y), DigitValue(d));
      NatInjective(x, y);
      assert a == x + [c] && b == y + [d];
    }
  }

  lemma LastDigit(m: nat, c: nat, n: nat, d: nat)
    requires c < 10 && d < 10 && 10 * m + c == 10 * n + d
    ensures m == n && c == d
  {
  }

  /** A digit string that does not start with '0' is at least a power of ten. */
  lemma {:induction false} NatLower(s: string)
    requires AllDigits(s) && s != "" && s[0] != '0'
    ensures Nat(s) >= Pow10(|s| - 1)
  {
    if |s| > 1 {
      NatLower(s[..|s| - 1]);
    } else {
      assert Nat(s) == 10 * Nat(s[..0]) + DigitValue(s[0]);
    }
  }

  lemma {:induction false} Pow10Monotone(m: nat, n: nat)
    requires m <= n
    ensures Pow10(m) <= Pow10(n)
  {
    if m < n { Pow10Monotone(m, n - 1); }
  }

  lemma {:induction false} Pow10Add(m: nat, n: nat)
    ensures Pow10(m + n) == Pow10(m) * Pow10(n)
  {
    if m > 0 {
      Pow10Add(m - 1, n);
      Associate(10, Pow10(m - 1), Pow10(n));
    }
  }

  lemma Associate(a: int, b: int, c: int)
    ensures a * (b * c) == (a * b) * c
  {
  }

  /** An integer part as JSON allows it: "0", or digits that do not start with '0'. */
  predicate IntegerPart(s: string) {
    AllDigits(s) && s != "" && (s[0] == '0' ==> |s| == 1)
  }

  lemma IntegerPartLength(a: string, b: string)
    requires IntegerPart(a) && IntegerPart(b)
    ensures |a| < |b| ==> Nat(a) < Nat(b)
  {
    if |a| < |b| {
      NatBound(a);
      NatLower(b);
      Pow10Monotone(|a|, |b| - 1);
    }
  }

  lemma IntegerPartInjective(a: string, b: string)
    requires IntegerPart(a) && IntegerPart(b) && Nat(a) == Nat(b)
    ensures a == b
  {
    IntegerPartLength(a, b);
    IntegerPartLength(b, a);
    NatInjective(a, b);
  }

  // ---------------------------------------------------------------- plain decimals

  /** An exponent-free number: sign, integer part, fraction digits. */
  datatype Plain = Plain(negative: bool, whole: string, fraction: string)

  /** The one normal form of a number: no padding on either side and no minus zero. */
  predicate Normal(p: Plain) {
    && IntegerPart(p.whole)
    && AllDigits(p.fraction)
    && (p.fraction != "" ==> p.fraction[|p.fraction| - 1] != '0')
    && (p.negative ==> Nat(p.whole + p.fraction) != 0)
  }

  function PlainText(p: Plain): string {
    (if p.negative then "-" else "") + p.whole + (if p.fraction == "" then "" else "." + p.fraction)
  }

  function Signed(negative: bool, r: real): real { if negative then -r else r }

  /** The real number a plain decimal denotes. */
  function PlainValue(p: Plain): real {
    Signed(p.negative, Scaled(Nat(p.whole + p.fraction), -|p.fraction|))
  }

  lemma RatioEqual(m: int, n: int, p: int, q: int)
    requires p >= 1 && q >= 1 && m as real / p as real == n as real / q as real
    ensures m * q == n * p
  {
    CrossMultiply(m as real, n as real, p as real, q as real);
    assert (m * q) as real == m as real * q as real;
    assert (n * p) as real == n as real * p as real;
  }

  lemma CrossMultiply(m: real, n: real, p: real, q: real)
    requires p > 0.0 && q > 0.0 && m / p == n / q
    ensures m * q == n * p
  {
    var r := m / p;
    assert m == r * p && n == r * q;
  }

  lemma CancelFactor(x: int, y: int, p: int)
    requires p >= 1 && x * p == y * p
    ensures x == y
  {
    assert (x - y) * p == 0;
  }

  lemma TimesLess(a: int, b: int, p: nat)
    ensures a < b ==> a * p + p <= b * p
  {
    if a < b {
      Distribute(a, b - a - 1, p);
      assert (b - a - 1) * p >= 0;
    }
  }

  lemma Distribute(a: int, d: int, p: int)
    ensures (a + 1 + d) * p == a * p + p + d * p
  {
  }

  /** Equal magnitudes at two scales differ by the power of ten between the scales. */
  lemma ScaledEqual(m: nat, n: nat, e: nat, f: nat)
    requires e <= f && Scaled(m, 0 - e) == Scaled(n, 0 - f)
    ensures m * Pow10(f - e) == n
  {
    var pe, d := Pow10(e), Pow10(f - e);
    Pow10Add(f - e, e);
    assert Scaled(m, 0 - e) == m as real / pe as real;
    assert Scaled(n, 0 - f) == n as real / Pow10(f) as real;
    RatioEqual(m, n, pe, d * pe);
    Associate(m, d, pe);
    CancelFactor(m * d, n, pe);
  }

  lemma TrailingZero(s: string, k: nat, m: nat)
    requires AllDigits(s) && s != "" && k > 0 && Nat(s) == m * Pow10(k)
    ensures s[|s| - 1] == '0'
  {
    Associate(m, 10, Pow10(k - 1));
    Associate(10, m, Pow10(k - 1));
    var h := m * Pow10(k - 1);
    assert Nat(s) == 10 * h;
    assert 10 * Nat(s[..|s| - 1]) + DigitValue(s[|s| - 1]) == 10 * h;
  }

  lemma SplitEqual(a: nat, b: nat, x: nat, y: nat, p: nat)
    requires x < p && y < p && a * p + x == b * p + y
    ensures a == b && x == y
  {
    TimesLess(a, b, p);
    TimesLess(b, a, p);
  }

  /** Two plain decimals of one magnitude in normal form have the same digits. */
  lemma SameDigits(p: Plain, q: Plain)
    requires Normal(p) && Normal(q) && |p.fraction| <= |q.fraction|
    requires Scaled(Nat(p.whole + p.fraction), -|p.fraction|) == Scaled(Nat(q.whole + q.fraction), -|q.fraction|)
    ensures p.whole == q.whole && p.fraction == q.fraction
  {
    SameScale(p, q);
    NatConcat(p.whole, p.fraction);
    NatConcat(q.whole, q.fraction);
    NatBound(p.fraction);
    NatBound(q.fraction);
    SplitEqual(Nat(p.whole), Nat(q.whole), Nat(p.fraction), Nat(q.fraction), Pow10(|p.fraction|));
    NatInjective(p.fraction, q.fraction);
    IntegerPartInjective(p.whole, q.whole);
  }

  lemma SameScale(p: Plain, q: Plain)
    requires Normal(p) && Normal(q) && |p.fraction| <= |q.fraction|
    requires Scaled(Nat(p.whole + p.fraction), -|p.fraction|) == Scaled(Nat(q.whole + q.fraction), -|q.fraction|)
    ensures |p.fraction| == |q.fraction| && Nat(p.whole + p.fraction) == Nat(q.whole + q.fraction)
  {
    var m, k := Nat(p.whole + p.fraction), |q.fraction| - |p.fraction|;
    ScaledEqual(m, Nat(q.whole + q.fraction), |p.fraction|, |q.fraction|);
    if k > 0 {
      TrailingZero(q.whole + q.fraction, k, m);
      assert false;
    }
    assert m * Pow10(0) == m;
  }

  lemma ScaledPositive(m: nat, f: nat)
    ensures Scaled(m, 0 - f) >= 0.0
    ensures Scaled(m, 0 - f) == 0.0 ==> m == 0
  {
    var r, p := m as real / Pow10(f) as real, Pow10(f) as real;
    assert m as real == r * p;
  }

  /** A number has exactly one normal form. */
  lemma NormalUnique(p: Plain, q: Plain)
    requires Normal(p) && Normal(q) && PlainValue(p) == PlainValue(q)
    ensures p == q
  {
    ScaledPositive(Nat(p.whole + p.fraction), |p.fraction|);
    ScaledPositive(Nat(q.whole + q.fraction), |q.fraction|);
    if |p.fraction| <= |q.fraction| { SameDigits(p, q); } else { SameDigits(q, p); }
  }
}
