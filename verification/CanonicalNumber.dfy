/**
 Number canonicalisation (internal/domain/canonical.go, `writeNumber`): the output
 denotes the same real as the input, and it is the only text the writer emits for
 that real.
 */
module CanonicalNumber {
  import opened Bytes
  import opened Decimal
  import opened Number

  /** The integer an exponent denotes; an absent one is zero. */
  function ExponentValue(s: string): int {
    if s == "" then 0
    else if s[0] == '-' then -(Nat(s[1..]) as int)
    else if s[0] == '+' then Nat(s[1..])
    else Nat(s)
  }

  /** `parseDecimalExponent`: 64-bit overflow lies outside the supported range as well. */
  function DecimalExponent(s: string): Option<int> {
    var value := ExponentValue(s);
    if value > MAX_EXPONENT || value < -MAX_EXPONENT then None else Some(value)
  }

  /** The real number a literal denotes. */
  function LiteralValue(l: Literal): real {
    Signed(l.negative, Scaled(Nat(l.whole + l.fraction), ExponentValue(l.exponent) - |l.fraction|))
  }

  // ---------------------------------------------------------------- trimming

  function TrimRight(s: string): (r: string)
    ensures |r| <= |s|
  {
    if s != "" && s[|s| - 1] == '0' then TrimRight(s[..|s| - 1]) else s
  }

  function TrimLeft(s: string): (r: string)
    ensures |r| <= |s|
  {
    if s != "" && s[0] == '0' then TrimLeft(s[1..]) else s
  }

  lemma {:induction false} TrimRightParts(s: string)
    ensures var r := TrimRight(s);
            && s == r + Zeros(|s| - |r|)
            && (r != "" ==> r[|r| - 1] != '0')
            && (AllDigits(s) ==> AllDigits(r))
  {
    if s != "" && s[|s| - 1] == '0' {
      TrimRightParts(s[..|s| - 1]);
      assert s == s[..|s| - 1] + Zeros(1);
    } else {
      assert s + Zeros(0) == s;
    }
  }

  lemma {:induction false} TrimLeftParts(s: string)
    ensures var r := TrimLeft(s);
            && s == Zeros(|s| - |r|) + r
            && (r != "" ==> r[0] != '0' && r[|r| - 1] == s[|s| - 1])
            && (AllDigits(s) ==> AllDigits(r))
  {
    if s != "" && s[0] == '0' {
      TrimLeftParts(s[1..]);
      assert s == Zeros(1) + s[1..];
    } else {
      assert Zeros(0) + s == s;
    }
  }

  lemma {:induction false} TrimLeftOf(n: nat, d: string)
    requires d != "" ==> d[0] != '0'
    ensures TrimLeft(Zeros(n) + d) == d
  {
    if n == 0 {
      assert Zeros(0) + d == d;
    } else {
      assert (Zeros(n) + d)[1..] == Zeros(n - 1) + d;
      TrimLeftOf(n - 1, d);
    }
  }

  lemma NatPadRight(s: string, n: nat)
    ensures Nat(s + Zeros(n)) == Nat(s) * Pow10(n)
  {
    NatConcat(s, Zeros(n));
    NatZeros(n);
  }

  lemma NatPadLeft(n: nat, s: string)
    ensures Nat(Zeros(n) + s) == Nat(s)
  {
    NatConcat(Zeros(n), s);
    NatZeros(n);
  }

  /** The significant digits of a digit string, and how many zeroes followed them. */
  lemma TrimValue(all: string)
    ensures Nat(all) == Nat(TrimLeft(TrimRight(all))) * Pow10(|all| - |TrimRight(all)|)
  {
    TrimRightValue(all);
    TrimLeftValue(TrimRight(all));
  }

  lemma TrimRightValue(s: string)
    ensures Nat(s) == Nat(TrimRight(s)) * Pow10(|s| - |TrimRight(s)|)
  {
    TrimRightParts(s);
    NatPadRight(TrimRight(s), |s| - |TrimRight(s)|);
  }

  lemma TrimLeftValue(s: string)
    ensures Nat(s) == Nat(TrimLeft(s))
  {
    TrimLeftParts(s);
    NatPadLeft(|s| - |TrimLeft(s)|, TrimLeft(s));
  }

  // ---------------------------------------------------------------- layout

  /** Places the point `scale` digits from the right of `digits`, padding with zeroes. */
  function Layout(negative: bool, digits: string, scale: int): Plain {
    if scale <= 0 then Plain(negative, digits + Zeros(-scale), "")
    else if scale >= |digits| then Plain(negative, "0", Zeros(scale - |digits|) + digits)
    else Plain(negative, digits[..|digits| - scale], digits[|digits| - scale..])
  }

  /** Digits with no padding on either side. */
  predicate Significant(digits: string) {
    AllDigits(digits) && digits != "" && digits[0] != '0' && digits[|digits| - 1] != '0'
  }

  lemma SignificantPositive(digits: string)
    requires Significant(digits)
    ensures Nat(digits) > 0
  {
    NatLower(digits);
  }

  lemma LayoutNat(negative: bool, digits: string, scale: int)
    requires Significant(digits)
    ensures var p := Layout(negative, digits, scale);
            && (scale <= 0 ==> Nat(p.whole + p.fraction) == Nat(digits) * Pow10(-scale))
            && (scale > 0 ==> Nat(p.whole + p.fraction) == Nat(digits) && |p.fraction| == scale)
  {
    var p := Layout(negative, digits, scale);
    if scale <= 0 {
      assert p.whole + p.fraction == digits + Zeros(-scale);
      NatPadRight(digits, -scale);
    } else if scale >= |digits| {
      assert p.whole + p.fraction == Zeros(scale - |digits| + 1) + digits;
      NatPadLeft(scale - |digits| + 1, digits);
    } else {
      assert p.whole + p.fraction == digits;
    }
  }

  /** The layout is the normal form of digits times ten to the power -scale. */
  lemma LayoutNormal(negative: bool, digits: string, scale: int)
    requires Significant(digits)
    ensures Normal(Layout(negative, digits, scale))
    ensures PlainValue(Layout(negative, digits, scale)) == Signed(negative, Scaled(Nat(digits), -scale))
  {
    var p := Layout(negative, digits, scale);
    SignificantPositive(digits);
    LayoutNat(negative, digits, scale);
    assert IntegerPart(p.whole) && AllDigits(p.fraction);
    if scale <= 0 {
      assert Nat(digits) * Pow10(-scale) > 0;
      assert Scaled(Nat(p.whole + p.fraction), 0) == Nat(p.whole + p.fraction) as real;
    }
  }

  lemma DivideCancel(x: real, a: real, b: real)
    requires a > 0.0 && b > 0.0
    ensures (x * a) / (a * b) == x / b
  {
    var q := x / b;
    assert x == q * b;
    assert x * a == q * (a * b);
  }

  lemma RealProduct(a: int, b: int)
    ensures (a * b) as real == a as real * b as real
  {
  }

  /** Dropping k trailing zeroes raises the exponent by k. */
  lemma ScaledShift(m: nat, k: nat, e: int)
    ensures Scaled(m * Pow10(k), e) == Scaled(m, e + k)
  {
    if e >= 0 {
      Pow10Add(k, e);
      Associate(m, Pow10(k), Pow10(e));
    } else if e + k >= 0 {
      ShiftAcross(m, e + k, -e);
    } else {
      ShiftWithin(m, k, -e - k);
    }
  }

  lemma ShiftAcross(m: nat, a: nat, b: nat)
    ensures (m * Pow10(a + b)) as real / Pow10(b) as real == (m * Pow10(a)) as real
  {
    Pow10Add(a, b);
    Associate(m, Pow10(a), Pow10(b));
    DivideProduct(m * Pow10(a), Pow10(b));
  }

  lemma DivideProduct(x: int, p: int)
    requires p >= 1
    ensures (x * p) as real / p as real == x as real
  {
    RealProduct(x, p);
    DivideCancel(x as real, p as real, 1.0);
  }

  lemma ShiftWithin(m: nat, k: nat, b: nat)
    ensures (m * Pow10(k)) as real / Pow10(k + b) as real == m as real / Pow10(b) as real
  {
    Pow10Add(k, b);
    RealProduct(m, Pow10(k));
    RealProduct(Pow10(k), Pow10(b));
    DivideCancel(m as real, Pow10(k) as real, Pow10(b) as real);
  }

  // ---------------------------------------------------------------- writeNumber

  /** The size limits of the writer, stated on the text it would emit. */
  predicate Fits(p: Plain) {
    if p.fraction == "" then |p.whole| <= MAX_DIGITS
    else |p.fraction| <= MAX_DIGITS && |TrimLeft(p.whole + p.fraction)| + |p.fraction| <= MAX_DIGITS + 1
  }

  /** The text for non-zero digits, unless it would exceed the limits. */
  function WriteDigits(negative: bool, digits: string, scale: int): Option<string> {
    if scale <= 0 then
      if |digits| - scale > MAX_DIGITS then None
      else Some(Minus(negative) + digits + Zeros(-scale))
    else if scale > MAX_DIGITS || |digits| + scale > MAX_DIGITS + 1 then None
    else if scale >= |digits| then Some(Minus(negative) + "0." + Zeros(scale - |digits|) + digits)
    else Some(Minus(negative) + digits[..|digits| - scale] + "." + digits[|digits| - scale..])
  }

  function WriteLiteral(l: Literal): Option<string> {
    match DecimalExponent(l.exponent)
    case None => None
    case Some(exp) =>
      if |l.whole| + |l.fraction| > MAX_DIGITS + 1 then None
      else if Digits(l) == "" then Some("0")
      else WriteDigits(l.negative, Digits(l), |l.fraction| - exp - TrailingZeroes(l))
  }

  function TrailingZeroes(l: Literal): nat {
    |l.whole + l.fraction| - |TrimRight(l.whole + l.fraction)|
  }

  function Digits(l: Literal): string {
    TrimLeft(TrimRight(l.whole + l.fraction))
  }

  function WriteNumber(s: string): Option<string> {
    match ParseNumber(s)
    case None => None
    case Some(l) => WriteLiteral(l)
  }

  /** `writeNumber` on the shared buffer: all of the text, or an error and nothing. */
  method AppendNumber(b: Buffer, s: string) returns (ok: bool)
    modifies b
    ensures ok == WriteNumber(s).Some?
    ensures Appended(old(b.data), b.data, WriteNumber(s))
  {
    var parsed := ParseJSONNumber(s);
    if parsed.None? { return false; }
    ok := AppendLiteral(b, parsed.value);
  }

  method AppendLiteral(b: Buffer, l: Literal) returns (ok: bool)
    modifies b
    ensures ok == WriteLiteral(l).Some?
    ensures Appended(old(b.data), b.data, WriteLiteral(l))
  {
    var exponent := DecimalExponent(l.exponent);
    if exponent.None? { return false; }
    if |l.whole| + |l.fraction| > MAX_DIGITS + 1 { return false; }
    var digits := Digits(l);
    if digits == "" {
      b.WriteString("0");
      return true;
    }
    ok := AppendDigits(b, l.negative, digits, |l.fraction| - exponent.value - TrailingZeroes(l));
  }

  method AppendDigits(b: Buffer, negative: bool, digits: string, scale: int) returns (ok: bool)
    modifies b
    ensures ok == WriteDigits(negative, digits, scale).Some?
    ensures Appended(old(b.data), b.data, WriteDigits(negative, digits, scale))
  {
    ghost var before := b.data;
    if scale <= 0 && |digits| - scale > MAX_DIGITS { return false; }
    if scale > 0 && (scale > MAX_DIGITS || |digits| + scale > MAX_DIGITS + 1) { return false; }
    if negative {
      b.WriteString("-");
    }
    assert b.data == before + Minus(negative);
    ok := true;
    if scale <= 0 {
      b.WriteString(digits);
      b.WriteString(Zeros(-scale));
    } else if scale >= |digits| {
      b.WriteString("0.");
      b.WriteString(Zeros(scale - |digits|));
      b.WriteString(digits);
    } else {
      var point := |digits| - scale;
      b.WriteString(digits[..point]);
      b.WriteString(".");
      b.WriteString(digits[point..]);
    }
  }

  // ---------------------------------------------------------------- theorems

  /** The normal form of a literal: what the writer would emit were there no limits. */
  function NormalForm(l: Literal): Plain {
    if Digits(l) == "" then Plain(false, "0", "")
    else Layout(l.negative, Digits(l), |l.fraction| - ExponentValue(l.exponent) - TrailingZeroes(l))
  }

  lemma DigitsSignificant(l: Literal)
    requires AllDigits(l.whole) && AllDigits(l.fraction)
    ensures Digits(l) != "" ==> Significant(Digits(l))
  {
    TrimRightParts(l.whole + l.fraction);
    TrimLeftParts(TrimRight(l.whole + l.fraction));
  }

  lemma NormalFormCorrect(l: Literal)
    requires AllDigits(l.whole) && AllDigits(l.fraction)
    ensures Normal(NormalForm(l)) && PlainValue(NormalForm(l)) == LiteralValue(l)
  {
    var e := ExponentValue(l.exponent) - |l.fraction|;
    TrimValue(l.whole + l.fraction);
    ScaledShift(Nat(Digits(l)), TrailingZeroes(l), e);
    DigitsSignificant(l);
    if Digits(l) == "" {
      ZeroForm(e + TrailingZeroes(l));
    } else {
      LayoutNormal(l.negative, Digits(l), -(e + TrailingZeroes(l)));
    }
  }

  lemma ZeroForm(e: int)
    ensures Normal(Plain(false, "0", "")) && PlainValue(Plain(false, "0", "")) == 0.0 == Scaled(0, e)
  {
    assert "0" + "" == "0" && Nat("0") == 0;
    if e < 0 { assert 0.0 / Pow10(-e) as real == 0.0; }
  }

  /** What the writer emits for a normal form: its text, unless it is too long. */
  function Limited(p: Plain): Option<string> {
    if Fits(p) then Some(PlainText(p)) else None
  }

  lemma LayoutText(negative: bool, digits: string, scale: int)
    requires Significant(digits)
    ensures WriteDigits(negative, digits, scale) == Limited(Layout(negative, digits, scale))
  {
    if scale <= 0 {
      assert PlainText(Layout(negative, digits, scale)) == Minus(negative) + digits + Zeros(-scale);
    } else if scale >= |digits| {
      FractionText(negative, digits, scale);
    } else {
      MixedText(negative, digits, scale);
    }
  }

  lemma FractionText(negative: bool, digits: string, scale: int)
    requires Significant(digits) && scale >= |digits|
    ensures WriteDigits(negative, digits, scale) == Limited(Layout(negative, digits, scale))
  {
    var pad := Zeros(scale - |digits|);
    assert "0" + (pad + digits) == Zeros(scale - |digits| + 1) + digits;
    TrimLeftOf(scale - |digits| + 1, digits);
    assert Minus(negative) + "0." + pad + digits == Minus(negative) + "0" + ("." + (pad + digits));
  }

  lemma MixedText(negative: bool, digits: string, scale: int)
    requires Significant(digits) && 0 < scale < |digits|
    ensures WriteDigits(negative, digits, scale) == Limited(Layout(negative, digits, scale))
  {
    var point := |digits| - scale;
    assert digits[..point] + digits[point..] == digits == Zeros(0) + digits;
    TrimLeftOf(0, digits);
    assert Minus(negative) + digits[..point] + "." + digits[point..]
        == Minus(negative) + digits[..point] + ("." + digits[point..]);
  }

  /** The input limits: exponent and digit count. */
  predicate InRange(l: Literal) {
    -MAX_EXPONENT <= ExponentValue(l.exponent) <= MAX_EXPONENT && |l.whole| + |l.fraction| <= MAX_DIGITS + 1
  }

  lemma LiteralText(l: Literal)
    requires AllDigits(l.whole) && AllDigits(l.fraction)
    ensures WriteLiteral(l) == if InRange(l) then Limited(NormalForm(l)) else None
  {
    DigitsSignificant(l);
    if Digits(l) == "" {
      assert PlainText(Plain(false, "0", "")) == "0";
    } else {
      LayoutText(l.negative, Digits(l), |l.fraction| - ExponentValue(l.exponent) - TrailingZeroes(l));
    }
  }

  /**
   Exactness, and the exact set of accepted inputs: the writer accepts a literal iff its
   exponent and digit count are in range and the normal form fits, and then it emits that
   normal form, which denotes the same real as the literal.
   */
  lemma WriteNumberExact(s: string, l: Literal)
    requires Spells(l, s)
    ensures Normal(NormalForm(l)) && PlainValue(NormalForm(l)) == LiteralValue(l)
    ensures WriteNumber(s) == if InRange(l) && Fits(NormalForm(l)) then Some(PlainText(NormalForm(l))) else None
  {
    ParseComplete(s, l);
    NormalFormCorrect(l);
    LiteralText(l);
  }

  lemma RejectsNonNumbers(s: string)
    requires forall l :: !Spells(l, s)
    ensures WriteNumber(s).None?
  {
    ParseSound(s);
  }

  /** The text of a normal form is itself a literal with those parts. */
  lemma PlainSpells(p: Plain)
    requires Normal(p)
    ensures Spells(Literal(p.negative, p.whole, p.fraction, ""), PlainText(p))
    ensures LiteralValue(Literal(p.negative, p.whole, p.fraction, "")) == PlainValue(p)
  {
    var l := Literal(p.negative, p.whole, p.fraction, "");
    assert Mantissa(l) == PlainText(p);
  }

  lemma PlainTextInjective(p: Plain, q: Plain)
    requires Normal(p) && Normal(q) && PlainText(p) == PlainText(q)
    ensures p == q
  {
    PlainSpells(p);
    PlainSpells(q);
    ParseComplete(PlainText(p), Literal(p.negative, p.whole, p.fraction, ""));
    ParseComplete(PlainText(q), Literal(q.negative, q.whole, q.fraction, ""));
  }

  /** Two accepted literals get the same bytes iff they denote the same real. */
  lemma WriteNumberCanonical(s: string, t: string, l: Literal, m: Literal)
    requires Spells(l, s) && Spells(m, t)
    ensures WriteNumber(s).Some? && WriteNumber(t).Some? ==>
              (WriteNumber(s) == WriteNumber(t) <==> LiteralValue(l) == LiteralValue(m))
  {
    WriteNumberExact(s, l);
    WriteNumberExact(t, m);
    if WriteNumber(s).Some? && WriteNumber(s) == WriteNumber(t) {
      PlainTextInjective(NormalForm(l), NormalForm(m));
    }
    if LiteralValue(l) == LiteralValue(m) {
      NormalUnique(NormalForm(l), NormalForm(m));
    }
  }

  /** Rewriting the output changes nothing, and the output is exponent-free and within limits. */
  lemma WriteNumberIdempotent(s: string)
    requires WriteNumber(s).Some?
    ensures WriteNumber(WriteNumber(s).value) == WriteNumber(s)
    ensures var out := ParseNumber(WriteNumber(s).value);
            out.Some? && out.value.exponent == "" && |out.value.whole| + |out.value.fraction| <= MAX_DIGITS + 1
  {
    ParseSound(s);
    var l := ParseNumber(s).value;
    WriteNumberExact(s, l);
    var p := NormalForm(l);
    var out := Literal(p.negative, p.whole, p.fraction, "");
    PlainSpells(p);
    ParseComplete(PlainText(p), out);
    WriteNumberExact(PlainText(p), out);
    NormalUnique(NormalForm(out), p);
    FitsLength(p);
  }

  lemma FitsLength(p: Plain)
    requires Normal(p) && Fits(p)
    ensures |p.whole| + |p.fraction| <= MAX_DIGITS + 1
  {
    if p.fraction != "" && p.whole[0] != '0' {
      TrimLeftOf(0, p.whole + p.fraction);
      assert Zeros(0) + (p.whole + p.fraction) == p.whole + p.fraction;
    }
  }
}
