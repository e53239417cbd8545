/**
 The archive-key component code (internal/fsutil/fsutil.go, `EncodeKeyComponent` and
 `DecodeKeyComponent`): percent-encoding in the style of section 2.1 of RFC 3986, with a
 marker for the empty component and the dot components escaped.
 */
module KeyFraming {
  import opened Bytes

  predicate IsSafe(c: char) {
    'a' <= c <= 'z' || 'A' <= c <= 'Z' || '0' <= c <= '9' || c == '-' || c == '_' || c == '.'
  }

  const EMPTY_MARKER: string := "%"
  const HEX_UPPER: string := "0123456789ABCDEF"

  function EncodeByte(c: char): string {
    if IsSafe(c) then [c] else ['%', HEX_UPPER[(c as int / 16) % 16], HEX_UPPER[c as int % 16]]
  }

  function EncodeBytes(s: string): string {
    if s == "" then "" else EncodeBytes(s[..|s| - 1]) + EncodeByte(s[|s| - 1])
  }

  function Encode(s: string): string {
    if s == "" then EMPTY_MARKER
    else if s == "." then "%2E"
    else if s == ".." then "%2E%2E"
    else EncodeBytes(s)
  }

  method EncodeKeyComponent(value: string) returns (r: string)
    ensures r == Encode(value)
  {
    if value == "" { return EMPTY_MARKER; }
    if value == "." { return "%2E"; }
    if value == ".." { return "%2E%2E"; }
    r := "";
    for i := 0 to |value|
      invariant r == EncodeBytes(value[..i])
    {
      assert value[..i + 1][..i] == value[..i];
      var c := value[i];
      if IsSafe(c) {
        r := r + [c];
      } else {
        r := r + ['%', HEX_UPPER[(c as int / 16) % 16], HEX_UPPER[c as int % 16]];
      }
    }
    assert value[..|value|] == value;
  }

  // ---------------------------------------------------------------- decoding

  function HexDigitValue(c: char): Option<nat> {
    if '0' <= c <= '9' then Some(c as int - '0' as int)
    else if 'a' <= c <= 'f' then Some(c as int - 'a' as int + 10)
    else if 'A' <= c <= 'F' then Some(c as int - 'A' as int + 10)
    else None
  }

  /** The byte an escape stands for. */
  function Unescape(hi: char, lo: char): Option<char> {
    var h, l := HexDigitValue(hi), HexDigitValue(lo);
    if h.None? || l.None? || h.value > 15 || l.value > 15 then None else Some((h.value * 16 + l.value) as char)
  }

  function DecodeBytes(s: string): Option<string> {
    if s == "" then Some("")
    else if IsSafe(s[0]) then Prefixed(s[0], DecodeBytes(s[1..]))
    else if s[0] != '%' || |s| < 3 || Unescape(s[1], s[2]).None? then None
    else Prefixed(Unescape(s[1], s[2]).value, DecodeBytes(s[3..]))
  }

  function Prefixed(c: char, rest: Option<string>): Option<string> {
    if rest.None? then None else Some([c] + rest.value)
  }

  function Decode(s: string): Option<string> { if s == EMPTY_MARKER then Some("") else DecodeBytes(s) }

  method DecodeKeyComponent(value: string) returns (r: Option<string>)
    ensures r == Decode(value)
  {
    if value == EMPTY_MARKER { return Some(""); }
    var b := "";
    var i := 0;
    assert value[0..] == value;
    OntoEmpty(DecodeBytes(value));
    while i < |value|
      invariant 0 <= i <= |value|
      invariant DecodeBytes(value) == Onto(b, DecodeBytes(value[i..]))
    {
      var c := value[i];
      ghost var rest := value[i..];
      if IsSafe(c) {
        assert rest[1..] == value[i + 1..];
        OntoPrefixed(b, c, DecodeBytes(value[i + 1..]));
        b := b + [c];
      } else if c == '%' {
        if i + 2 >= |value| { return None; }
        var u := Unescape(value[i + 1], value[i + 2]);
        if u.None? { return None; }
        assert rest[3..] == value[i + 3..];
        OntoPrefixed(b, u.value, DecodeBytes(value[i + 3..]));
        b := b + [u.value];
        i := i + 2;
      } else {
        return None;
      }
      i := i + 1;
    }
    assert b + "" == b;
    return Some(b);
  }

  /** The decoded rest, after what is decoded already. */
  function Onto(b: string, rest: Option<string>): Option<string> { if rest.None? then None else Some(b + rest.value) }

  lemma OntoEmpty(rest: Option<string>)
    ensures Onto("", rest) == rest
  {
    if rest.Some? { assert "" + rest.value == rest.value; }
  }

  lemma OntoPrefixed(b: string, c: char, rest: Option<string>)
    ensures Onto(b, Prefixed(c, rest)) == Onto(b + [c], rest)
  {
    if rest.Some? { assert b + ([c] + rest.value) == (b + [c]) + rest.value; }
  }

  // ---------------------------------------------------------------- round trip

  lemma UnescapeHex(c: char)
    requires IsByte(c)
    ensures Unescape(HEX_UPPER[(c as int / 16) % 16], HEX_UPPER[c as int % 16]) == Some(c)
  {
    var h, l := c as int / 16, c as int % 16;
    assert 0 <= h < 16 && h % 16 == h && h * 16 + l == c as int;
    HexUpperValue(h);
    HexUpperValue(l);
  }

  lemma HexUpperValue(n: int)
    requires 0 <= n < 16
    ensures HexDigitValue(HEX_UPPER[n]) == Some(n)
  {
  }

  lemma DecodeEncodedByte(c: char, rest: string)
    requires IsByte(c)
    ensures DecodeBytes(EncodeByte(c) + rest) == Prefixed(c, DecodeBytes(rest))
  {
    var s := EncodeByte(c) + rest;
    if IsSafe(c) {
      assert s[1..] == rest;
    } else {
      UnescapeHex(c);
      assert s[0] == '%' && s[1] == HEX_UPPER[(c as int / 16) % 16] && s[2] == HEX_UPPER[c as int % 16];
      assert s[3..] == rest;
    }
  }

  lemma Reassociate(a: string, b: string, c: string)
    ensures (a + b) + c == a + (b + c)
  {
  }

  lemma {:induction false} DecodeEncoded(s: string, rest: string)
    requires IsBytes(s)
    ensures DecodeBytes(EncodeBytes(s) + rest) == Onto(s, DecodeBytes(rest))
  {
    if s == "" {
      assert "" + rest == rest;
      OntoEmpty(DecodeBytes(rest));
    } else {
      var init, last := s[..|s| - 1], s[|s| - 1];
      var tail := EncodeByte(last) + rest;
      Reassociate(EncodeBytes(init), EncodeByte(last), rest);
      assert EncodeBytes(s) + rest == EncodeBytes(init) + tail;
      DecodeEncoded(init, tail);
      DecodeEncodedByte(last, rest);
      OntoPrefixed(init, last, DecodeBytes(rest));
      assert init + [last] == s;
    }
  }

  /** Decoding undoes encoding, for every byte string. */
  lemma RoundTrip(s: string)
    requires IsBytes(s)
    ensures Decode(Encode(s)) == Some(s)
  {
    if s == "." {
      DecodeDot("");
      assert ['.'] + "" == "." && "%2E" + "" == "%2E";
    } else if s == ".." {
      DecodeDot("%2E");
      DecodeDot("");
      assert ['.'] + (['.'] + "") == ".." && "%2E" + "" == "%2E" && "%2E" + "%2E" == "%2E%2E";
    } else if s != "" {
      DecodeEncoded(s, "");
      assert EncodeBytes(s) + "" == EncodeBytes(s) && s + "" == s;
      NotMarker(s);
    }
  }

  lemma DecodeEscape(hi: char, lo: char, rest: string)
    requires Unescape(hi, lo).Some?
    ensures DecodeBytes(['%', hi, lo] + rest) == Prefixed(Unescape(hi, lo).value, DecodeBytes(rest))
  {
    var s := ['%', hi, lo] + rest;
    assert s[0] == '%' && s[1] == hi && s[2] == lo && s[3..] == rest;
  }

  lemma DecodeDot(rest: string)
    ensures DecodeBytes("%2E" + rest) == Prefixed('.', DecodeBytes(rest))
  {
    DecodeEscape('2', 'E', rest);
    assert ['%', '2', 'E'] == "%2E";
  }

  lemma NotMarker(s: string)
    requires s != ""
    ensures EncodeBytes(s) != EMPTY_MARKER && EncodeBytes(s) != ""
  {
    var e := EncodeByte(s[|s| - 1]);
    assert EncodeBytes(s)[|EncodeBytes(s)| - 1] == e[|e| - 1];
    assert e[|e| - 1] != '%';
  }

  /** Different components get different encodings. */
  lemma EncodeInjective(s: string, t: string)
    requires IsBytes(s) && IsBytes(t)
    ensures Encode(s) == Encode(t) <==> s == t
  {
    RoundTrip(s);
    RoundTrip(t);
  }

  // ---------------------------------------------------------------- shape

  predicate Plain(s: string) { forall i | 0 <= i < |s| :: IsSafe(s[i]) || s[i] == '%' }

  lemma {:induction false} EncodeBytesShape(s: string)
    ensures Plain(EncodeBytes(s)) && |EncodeBytes(s)| <= 3 * |s|
  {
    if s != "" {
      EncodeBytesShape(s[..|s| - 1]);
      EncodeByteShape(s[|s| - 1]);
      PlainConcat(EncodeBytes(s[..|s| - 1]), EncodeByte(s[|s| - 1]));
    }
  }

  lemma EncodeByteShape(c: char)
    ensures Plain(EncodeByte(c)) && 1 <= |EncodeByte(c)| <= 3
  {
    HexUpperSafe((c as int / 16) % 16);
    HexUpperSafe(c as int % 16);
  }

  lemma HexUpperSafe(n: int)
    requires 0 <= n < 16
    ensures IsSafe(HEX_UPPER[n])
  {
  }

  lemma PlainConcat(a: string, b: string)
    requires Plain(a) && Plain(b)
    ensures Plain(a + b)
  {
  }

  lemma {:induction false} EncodeBytesSafe(s: string)
    ensures '%' in EncodeBytes(s) || EncodeBytes(s) == s
  {
    if s != "" {
      var init, last := s[..|s| - 1], s[|s| - 1];
      EncodeBytesSafe(init);
      ByteSafe(last);
      EitherPart(EncodeBytes(init), EncodeByte(last));
      assert s == init + [last];
    }
  }

  lemma ByteSafe(c: char)
    ensures '%' in EncodeByte(c) || EncodeByte(c) == [c]
  {
    if !IsSafe(c) { assert EncodeByte(c)[0] == '%'; }
  }

  lemma EitherPart(a: string, b: string)
    ensures '%' in a || '%' in b ==> '%' in a + b
  {
  }

  lemma PlainHasNoSlash(s: string)
    requires Plain(s)
    ensures '/' !in s && '\\' !in s
  {
  }

  lemma {:induction false} EncodeGrows(s: string)
    ensures |Encode(s)| >= |s| && |EncodeBytes(s)| >= |s|
  {
    if s != "" { EncodeGrows(s[..|s| - 1]); }
  }

  /** An encoded component can stand as one path component, and grows at most threefold. */
  lemma EncodeShape(s: string)
    ensures var e := Encode(s);
            && e != "" && e != "." && e != ".." && '/' !in e && '\\' !in e
            && (s != "" ==> |e| <= 3 * |s|)
  {
    var e := Encode(s);
    if s == "" || s == "." || s == ".." {
      assert e[0] == '%';
    } else {
      EncodeBytesShape(s);
      EncodeBytesSafe(s);
      NotMarker(s);
      PlainHasNoSlash(e);
    }
  }

  // ---------------------------------------------------------------- what decodes

  /** A safe byte, or '%' and two hex digits of either case. */
  predicate Token(t: string) {
    (|t| == 1 && IsSafe(t[0])) || (|t| == 3 && t[0] == '%' && HexDigitValue(t[1]).Some? && HexDigitValue(t[2]).Some?)
  }

  function Concat(ts: seq<string>): string { if ts == [] then "" else ts[0] + Concat(ts[1..]) }

  predicate Tokens(ts: seq<string>) { forall i | 0 <= i < |ts| :: Token(ts[i]) }

  lemma UnescapeIff(hi: char, lo: char)
    ensures Unescape(hi, lo).Some? <==> HexDigitValue(hi).Some? && HexDigitValue(lo).Some?
  {
  }

  lemma {:induction false} TokensDecode(ts: seq<string>)
    requires Tokens(ts)
    ensures DecodeBytes(Concat(ts)).Some?
  {
    if ts != [] {
      var s := Concat(ts);
      TokensDecode(ts[1..]);
      if |ts[0]| == 1 {
        assert s[0] == ts[0][0] && s[1..] == Concat(ts[1..]);
      } else {
        assert s[0] == '%' && s[1] == ts[0][1] && s[2] == ts[0][2] && s[3..] == Concat(ts[1..]);
        UnescapeIff(s[1], s[2]);
      }
    }
  }

  lemma {:induction false} DecodesToTokens(s: string) returns (ts: seq<string>)
    requires DecodeBytes(s).Some?
    ensures Tokens(ts) && Concat(ts) == s
  {
    if s == "" {
      ts := [];
    } else {
      var n := if IsSafe(s[0]) then 1 else 3;
      if n == 3 { UnescapeIff(s[1], s[2]); }
      var rest := DecodesToTokens(s[n..]);
      ts := [s[..n]] + rest;
      assert ts[1..] == rest;
      assert s == s[..n] + s[n..];
    }
  }

  /** The decoder accepts exactly the marker and the sequences of tokens. */
  lemma DecodesIffTokens(s: string)
    ensures Decode(s).Some? <==> s == EMPTY_MARKER || exists ts :: Tokens(ts) && Concat(ts) == s
  {
    if s != EMPTY_MARKER && Decode(s).Some? {
      var ts := DecodesToTokens(s);
    }
    forall ts | Tokens(ts) && Concat(ts) == s ensures Decode(s).Some? { TokensDecode(ts); }
  }

  // ---------------------------------------------------------------- what is emitted

  predicate IsHexUpper(c: char) { '0' <= c <= '9' || 'A' <= c <= 'F' }

  /** A safe byte, or the upper-case escape of a byte that is not safe. */
  predicate EmittedToken(t: string) {
    || (|t| == 1 && IsSafe(t[0]))
    || (|t| == 3 && t[0] == '%' && IsHexUpper(t[1]) && IsHexUpper(t[2]) && Unescape(t[1], t[2]).Some?
        && !IsSafe(Unescape(t[1], t[2]).value))
  }

  predicate EmittedTokens(ts: seq<string>) { forall i | 0 <= i < |ts| :: EmittedToken(ts[i]) }

  lemma EncodeByteEmitted(c: char)
    requires IsByte(c)
    ensures EmittedToken(EncodeByte(c))
  {
    if !IsSafe(c) {
      UnescapeHex(c);
      HexUpperIs((c as int / 16) % 16);
      HexUpperIs(c as int % 16);
    }
  }

  lemma HexUpperIs(n: int)
    requires 0 <= n < 16
    ensures IsHexUpper(HEX_UPPER[n])
  {
  }

  lemma {:induction false} ConcatLast(ts: seq<string>, t: string)
    ensures Concat(ts + [t]) == Concat(ts) + t
  {
    if ts == [] {
      assert ([] + [t])[1..] == [];
      assert t + "" == t && "" + t == t;
    } else {
      assert (ts + [t])[1..] == ts[1..] + [t];
      ConcatLast(ts[1..], t);
      Reassociate(ts[0], Concat(ts[1..]), t);
    }
  }

  lemma {:induction false} EncodeBytesTokens(x: string) returns (ts: seq<string>)
    requires IsBytes(x)
    ensures EmittedTokens(ts) && Concat(ts) == EncodeBytes(x)
  {
    if x == "" {
      ts := [];
    } else {
      var init := EncodeBytesTokens(x[..|x| - 1]);
      ts := init + [EncodeByte(x[|x| - 1])];
      EncodeByteEmitted(x[|x| - 1]);
      ConcatLast(init, EncodeByte(x[|x| - 1]));
    }
  }

  lemma HexUpperInverse(c: char)
    requires IsHexUpper(c)
    ensures HexDigitValue(c).Some? && HexDigitValue(c).value < 16 && HEX_UPPER[HexDigitValue(c).value] == c
  {
  }

  /** The byte an emitted token stands for. */
  lemma TokenByte(t: string) returns (c: char)
    requires EmittedToken(t)
    ensures IsByte(c) && EncodeByte(c) == t
  {
    if |t| == 1 {
      c := t[0];
    } else {
      c := Unescape(t[1], t[2]).value;
      EscapeOf(t[1], t[2]);
      assert t == ['%', t[1], t[2]];
    }
  }

  lemma EscapeOf(hi: char, lo: char)
    requires IsHexUpper(hi) && IsHexUpper(lo) && Unescape(hi, lo).Some?
    ensures var c := Unescape(hi, lo).value;
            IsByte(c) && HEX_UPPER[(c as int / 16) % 16] == hi && HEX_UPPER[c as int % 16] == lo
  {
    HexUpperInverse(hi);
    HexUpperInverse(lo);
    SplitByte(HexDigitValue(hi).value, HexDigitValue(lo).value);
  }

  lemma SplitByte(h: nat, l: nat)
    requires h < 16 && l < 16
    ensures (h * 16 + l) / 16 % 16 == h && (h * 16 + l) % 16 == l
  {
  }

  lemma {:induction false} TokensEncode(ts: seq<string>) returns (x: string)
    requires EmittedTokens(ts)
    ensures IsBytes(x) && EncodeBytes(x) == Concat(ts)
  {
    if ts == [] {
      x := "";
    } else {
      var init, last := ts[..|ts| - 1], ts[|ts| - 1];
      var y := TokensEncode(init);
      var c := TokenByte(last);
      x := y + [c];
      assert x[..|x| - 1] == y;
      ConcatLast(init, last);
      assert init + [last] == ts;
    }
  }

  ghost predicate Emitted(s: string) {
    || s == "%" || s == "%2E" || s == "%2E%2E"
    || (s != "" && s != "." && s != ".." && exists ts :: EmittedTokens(ts) && Concat(ts) == s)
  }

  /**
   The encoder emits exactly the marker, the two escaped dot components, and the other
   non-empty sequences of safe bytes and upper-case escapes of bytes that are not safe.
   */
  lemma EmittedIff(s: string)
    ensures (exists x :: IsBytes(x) && Encode(x) == s) <==> Emitted(s)
  {
    forall x | IsBytes(x) && Encode(x) == s ensures Emitted(s) { EncodeIsEmitted(x); }
    if Emitted(s) {
      var x := EmittedBy(s);
      assert IsBytes(x) && Encode(x) == s;
    }
  }

  lemma EncodeIsEmitted(x: string)
    requires IsBytes(x)
    ensures Emitted(Encode(x))
  {
    EncodeShape(x);
    if x != "" && x != "." && x != ".." { var ts := EncodeBytesTokens(x); }
  }

  lemma EmittedBy(s: string) returns (x: string)
    requires Emitted(s)
    ensures IsBytes(x) && Encode(x) == s
  {
    if s == "%" {
      x := "";
    } else if s == "%2E" {
      x := ".";
    } else if s == "%2E%2E" {
      x := "..";
    } else {
      var ts :| EmittedTokens(ts) && Concat(ts) == s;
      x := TokensEncode(ts);
      EncodedAsBytes(x, s);
    }
  }

  lemma EncodedAsBytes(x: string, s: string)
    requires EncodeBytes(x) == s && s != "" && s != "." && s != ".."
    ensures Encode(x) == s
  {
    DotsPlain();
  }

  lemma DotsPlain()
    ensures EncodeBytes(".") == "." && EncodeBytes("..") == ".."
  {
    assert "."[..0] == "" && ".."[..1] == ".";
    assert EncodeBytes(".") == EncodeBytes("."[..0]) + EncodeByte('.') == "" + "." == ".";
    assert EncodeBytes("..") == EncodeBytes(".."[..1]) + EncodeByte('.') == "." + "." == "..";
  }

  /** The decoder accepts more: an escaped safe byte, the empty string and the bare dot components are never emitted. */
  lemma DecodesOutsideImage()
    ensures Decode("%41") == Some("A") && Decode("") == Some("") && Decode(".") == Some(".")
        && Decode("..") == Some("..")
    ensures forall x | IsBytes(x) :: Encode(x) != "%41" && Encode(x) != "" && Encode(x) != "." && Encode(x) != ".."
  {
    DecodeLetter();
    DecodeDots();
    EncodeSafeByte('A');
    assert ['A'] == "A";
    forall x | IsBytes(x) ensures Encode(x) != "%41" && Encode(x) != "" && Encode(x) != "." && Encode(x) != ".." {
      EncodeShape(x);
      RoundTrip(x);
    }
  }

  lemma DecodeDots()
    ensures Decode(".") == Some(".") && Decode("..") == Some("..")
  {
    assert "."[1..] == "" && ".."[1..] == ".";
    assert DecodeBytes(".") == Prefixed('.', DecodeBytes("")) && ['.'] + "" == ".";
    assert DecodeBytes("..") == Prefixed('.', DecodeBytes(".")) && ['.'] + "." == "..";
  }

  lemma DecodeLetter()
    ensures Decode("%41") == Some("A")
  {
    DecodeEscape('4', '1', "");
    assert Unescape('4', '1') == Some('A');
    assert ['%', '4', '1'] + "" == "%41" && ['A'] + "" == "A";
  }

  lemma EncodeSafeByte(c: char)
    requires IsSafe(c) && c != '.'
    ensures Encode([c]) == [c]
  {
    var s := [c];
    assert s[..0] == "" && s[0] == c;
    assert EncodeBytes(s) == EncodeBytes(s[..0]) + EncodeByte(c) == "" + [c] == [c];
    assert s != ".." && s != ".";
  }
}
