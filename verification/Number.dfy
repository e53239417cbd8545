/**
 JSON number literals (internal/domain/canonical.go, `parseJSONNumber`,
 `parseDecimalExponent` and `writeNumber`).
 */
module Number {
  import opened Bytes
  import opened Decimal

  // ---------------------------------------------------------------- grammar

  /** The parts of a literal; `exponent` keeps its sign and is empty when absent. */
  datatype Literal = Literal(negative: bool, whole: string, fraction: string, exponent: string)

  predicate IsSign(c: char) { c == '+' || c == '-' }

  predicate ExponentPart(s: string) {
    if s != "" && IsSign(s[0]) then |s| > 1 && AllDigits(s[1..]) else s != "" && AllDigits(s)
  }

  /** Nothing, or 'e' or 'E' and the exponent. */
  predicate ExponentSuffix(exponent: string, tail: string) {
    if exponent == "" then tail == ""
    else ExponentPart(exponent) && (tail == "e" + exponent || tail == "E" + exponent)
  }

  function Minus(negative: bool): string { if negative then "-" else "" }

  function Dotted(fraction: string): string { if fraction == "" then "" else "." + fraction }

  function Mantissa(l: Literal): string {
    Minus(l.negative) + l.whole + Dotted(l.fraction)
  }

  /** The grammar of section 6 of RFC 8259: `s` is written with the parts `l`. */
  predicate Spells(l: Literal, s: string) {
    && IntegerPart(l.whole) && AllDigits(l.fraction)
    && Mantissa(l) <= s && ExponentSuffix(l.exponent, s[|Mantissa(l)|..])
  }

  // ---------------------------------------------------------------- parsing

  /** Length of the longest digit prefix. */
  function Run(s: string): (n: nat)
    ensures n <= |s| && AllDigits(s[..n]) && (n < |s| ==> !IsDigit(s[n]))
  {
    if s != "" && IsDigit(s[0]) then 1 + Run(s[1..]) else 0
  }

  lemma {:induction false} RunOf(d: string, rest: string)
    requires AllDigits(d) && (rest != "" ==> !IsDigit(rest[0]))
    ensures Run(d + rest) == |d|
  {
    if d != "" {
      assert (d + rest)[1..] == d[1..] + rest;
      RunOf(d[1..], rest);
    } else {
      assert d + rest == rest;
    }
  }

  function Unsigned(s: string): string { if s != "" && s[0] == '-' then s[1..] else s }

  /** The integer part, and what follows it. */
  function ParseWhole(s: string): Option<(string, string)> {
    if s == "" || !IsDigit(s[0]) then None
    else
      var n := if s[0] == '0' then 1 else Run(s);
      Some((s[..n], s[n..]))
  }

  /** An optional '.' with at least one digit, and what follows it. */
  function ParseFraction(s: string): Option<(string, string)> {
    if s == "" || s[0] != '.' then Some(("", s))
    else
      var n := Run(s[1..]);
      if n == 0 then None else Some((s[1..1 + n], s[1 + n..]))
  }

  /** An optional exponent, and what follows it. */
  function ParseExponent(s: string): Option<(string, string)> {
    if s == "" || (s[0] != 'e' && s[0] != 'E') then Some(("", s))
    else
      var start := if |s| > 1 && IsSign(s[1]) then 2 else 1;
      var n := Run(s[start..]);
      if n == 0 then None else Some((s[1..start + n], s[start + n..]))
  }

  /** Everything after the integer part. */
  function ParseTail(negative: bool, whole: string, after: string): Option<Literal> {
    match ParseFraction(after)
    case None => None
    case Some((fraction, tail)) =>
      match ParseExponent(tail)
      case None => None
      case Some((exponent, rest)) =>
        if rest != "" then None else Some(Literal(negative, whole, fraction, exponent))
  }

  function ParseNumber(s: string): Option<Literal> {
    match ParseWhole(Unsigned(s))
    case None => None
    case Some((whole, after)) => ParseTail(s[0] == '-', whole, after)
  }

  lemma FractionSound(s: string)
    ensures ParseFraction(s).Some? ==>
              var (f, rest) := ParseFraction(s).value;
              AllDigits(f) && s == Dotted(f) + rest
  {
    if s != "" && s[0] == '.' && Run(s[1..]) > 0 {
      var n := Run(s[1..]);
      var f := s[1..1 + n];
      assert f == s[1..][..n];
      assert s == "." + f + s[1 + n..];
    }
  }

  lemma ExponentSound(s: string)
    ensures ParseExponent(s).Some? && ParseExponent(s).value.1 == "" ==>
              ExponentSuffix(ParseExponent(s).value.0, s)
  {
    if s != "" && (s[0] == 'e' || s[0] == 'E') {
      var start := if |s| > 1 && IsSign(s[1]) then 2 else 1;
      var n := Run(s[start..]);
      if n > 0 && start + n == |s| {
        var x := s[1..];
        assert s == [s[0]] + x && s[1..start + n] == x;
        assert x[start - 1..] == s[start..][..n];
        assert start == 2 ==> x[0] == s[1];
      }
    }
  }

  lemma TailSound(negative: bool, whole: string, after: string) returns (tail: string)
    requires ParseTail(negative, whole, after).Some?
    ensures var l := ParseTail(negative, whole, after).value;
            && l.negative == negative && l.whole == whole && AllDigits(l.fraction)
            && after == Dotted(l.fraction) + tail && ExponentSuffix(l.exponent, tail)
  {
    FractionSound(after);
    tail := ParseFraction(after).value.1;
    ExponentSound(tail);
  }

  lemma WholeSound(s: string)
    ensures ParseWhole(s).Some? ==>
              IntegerPart(ParseWhole(s).value.0) && s == ParseWhole(s).value.0 + ParseWhole(s).value.1
  {
  }

  lemma ParseSound(s: string)
    ensures ParseNumber(s).Some? ==> Spells(ParseNumber(s).value, s)
  {
    if ParseNumber(s).Some? {
      WholeSound(Unsigned(s));
      var (whole, after) := ParseWhole(Unsigned(s)).value;
      var tail := TailSound(s[0] == '-', whole, after);
      Assemble(ParseNumber(s).value, tail);
      assert s == Minus(s[0] == '-') + Unsigned(s);
    }
  }

  lemma Assemble(l: Literal, tail: string)
    ensures var s := Minus(l.negative) + (l.whole + (Dotted(l.fraction) + tail));
            Mantissa(l) <= s && s[|Mantissa(l)|..] == tail
  {
    assert Minus(l.negative) + (l.whole + (Dotted(l.fraction) + tail)) == Mantissa(l) + tail;
  }

  lemma FractionComplete(f: string, rest: string)
    requires AllDigits(f) && (rest != "" ==> !IsDigit(rest[0]) && rest[0] != '.')
    ensures ParseFraction(Dotted(f) + rest) == Some((f, rest))
  {
    if f == "" {
      assert "" + rest == rest;
    } else {
      var s := "." + f + rest;
      assert s[1..] == f + rest;
      RunOf(f, rest);
      assert s[1..1 + |f|] == f && s[1 + |f|..] == rest;
    }
  }

  lemma ExponentComplete(x: string, tail: string)
    requires ExponentSuffix(x, tail)
    ensures ParseExponent(tail) == Some((x, ""))
  {
    if x != "" {
      var start := if IsSign(x[0]) then 2 else 1;
      assert tail[1] == x[0];
      assert tail[start..] == x[start - 1..];
      RunOf(x[start - 1..], "");
      assert x[start - 1..] + "" == x[start - 1..];
      assert tail[1..|tail|] == x && tail[|tail|..] == "";
    }
  }

  lemma WholeComplete(w: string, after: string)
    requires IntegerPart(w) && (after != "" ==> !IsDigit(after[0]))
    ensures ParseWhole(w + after) == Some((w, after))
  {
    var s := w + after;
    if w[0] != '0' { RunOf(w, after); }
    assert s[..|w|] == w && s[|w|..] == after;
  }

  lemma Unassemble(l: Literal, s: string)
    requires IntegerPart(l.whole) && Mantissa(l) <= s
    ensures var after := Dotted(l.fraction) + s[|Mantissa(l)|..];
            && s != "" && (s[0] == '-' <==> l.negative)
            && Unsigned(s) == l.whole + after
  {
    var tail := s[|Mantissa(l)|..];
    assert s == Mantissa(l) + tail;
    Reassociate(Minus(l.negative), l.whole, Dotted(l.fraction), tail);
    UnsignedOf(l.negative, l.whole, Dotted(l.fraction) + tail);
  }

  lemma Reassociate(a: string, b: string, c: string, d: string)
    ensures (a + b + c) + d == a + (b + (c + d))
  {
  }

  lemma UnsignedOf(negative: bool, whole: string, after: string)
    requires IntegerPart(whole)
    ensures var s := Minus(negative) + (whole + after);
            s != "" && (s[0] == '-' <==> negative) && Unsigned(s) == whole + after
  {
    var s := Minus(negative) + (whole + after);
    if negative {
      assert s[1..] == whole + after;
    } else {
      assert s == whole + after && s[0] == whole[0];
    }
  }

  lemma ParseComplete(s: string, l: Literal)
    requires Spells(l, s)
    ensures ParseNumber(s) == Some(l)
  {
    Unassemble(l, s);
    var tail := s[|Mantissa(l)|..];
    WholeComplete(l.whole, Dotted(l.fraction) + tail);
    FractionComplete(l.fraction, tail);
    ExponentComplete(l.exponent, tail);
  }

  /** The parser decides the grammar, and finds the only reading there is. */
  lemma ParseIffSpells(s: string, l: Literal)
    ensures ParseNumber(s) == Some(l) <==> Spells(l, s)
  {
    ParseSound(s);
    if Spells(l, s) { ParseComplete(s, l); }
  }

  /** `for i < len(s) && isDigit(s[i]) { i++ }` */
  method SkipDigits(s: string, start: nat) returns (i: nat)
    requires start <= |s|
    ensures i == start + Run(s[start..])
    ensures start <= i <= |s|
  {
    i := start;
    while i < |s| && IsDigit(s[i])
      invariant start <= i <= |s|
      invariant start + Run(s[start..]) == i + Run(s[i..])
    {
      assert s[i..][1..] == s[i + 1..];
      i := i + 1;
    }
  }

  /** The integer scan, from the index after the sign. */
  method ScanWhole(s: string, start: nat) returns (ok: bool, i: nat)
    requires start <= |s|
    ensures start <= i <= |s| && ParseWhole(s[start..]) == if ok then Some((s[start..i], s[i..])) else None
  {
    i := start;
    if i >= |s| { return false, i; }
    if s[i] == '0' {
      i := i + 1;
    } else if '1' <= s[i] <= '9' {
      i := SkipDigits(s, i);
    } else {
      return false, i;
    }
    assert s[start..][..i - start] == s[start..i] && s[start..][i - start..] == s[i..];
    ok := true;
  }

  /** The fraction scan, from the index after the integer part. */
  method ScanFraction(s: string, start: nat) returns (ok: bool, fraction: string, i: nat)
    requires start <= |s|
    ensures i <= |s| && ParseFraction(s[start..]) == if ok then Some((fraction, s[i..])) else None
  {
    ok, fraction, i := true, "", start;
    if i < |s| && s[i] == '.' {
      i := i + 1;
      assert s[start..][1..] == s[i..];
      i := SkipDigits(s, i);
      if start + 1 == i { return false, "", i; }
      fraction := s[start + 1..i];
      assert s[start..][1..i - start] == fraction && s[start..][i - start..] == s[i..];
    }
  }

  /** The exponent scan, from the index after the fraction. */
  method ScanExponent(s: string, start: nat) returns (ok: bool, exponent: string, i: nat)
    requires start <= |s|
    ensures i <= |s| && ParseExponent(s[start..]) == if ok then Some((exponent, s[i..])) else None
  {
    ok, exponent, i := true, "", start;
    if i < |s| && (s[i] == 'e' || s[i] == 'E') {
      i := i + 1;
      if i < |s| && IsSign(s[i]) {
        i := i + 1;
      }
      var digitsStart := i;
      assert s[start..][digitsStart - start..] == s[digitsStart..];
      i := SkipDigits(s, i);
      if digitsStart == i { return false, "", i; }
      exponent := s[start + 1..i];
      assert s[start..][1..i - start] == exponent && s[start..][i - start..] == s[i..];
    }
  }

  /** `parseJSONNumber`, by index. */
  method ParseJSONNumber(s: string) returns (r: Option<Literal>)
    ensures r == ParseNumber(s)
  {
    if s == "" { return None; }
    var start := if s[0] == '-' then 1 else 0;
    assert s[start..] == Unsigned(s);
    var ok, i := ScanWhole(s, start);
    if !ok { return None; }
    r := ScanTail(s, s[0] == '-', s[start..i], i);
  }

  method ScanTail(s: string, negative: bool, whole: string, start: nat) returns (r: Option<Literal>)
    requires start <= |s|
    ensures r == ParseTail(negative, whole, s[start..])
  {
    var ok, fraction, i := ScanFraction(s, start);
    if !ok { return None; }
    var exponent, end;
    ok, exponent, end := ScanExponent(s, i);
    if !ok || end != |s| { return None; }
    return Some(Literal(negative, whole, fraction, exponent));
  }
}
