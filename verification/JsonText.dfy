/**
 JSON strings (internal/domain/canonical.go, `writeString`, which hands the text to
 encoding/json with its HTML escaping on). A Go string is any byte string. The encoder
 reads it as UTF-8 (section 4 of RFC 3629), one rune at a time; a byte that is not part of a valid
 rune is replaced by an escape of U+FFFD.
 */
module JsonText {
  import opened Bytes

  /** One step of the UTF-8 reader: the bytes of a rune, or one byte that fits none. */
  datatype Unit = Rune(bytes: string) | Invalid

  predicate Between(lo: int, c: char, hi: int) { lo <= c as int <= hi }

  /** The second byte, whose range excludes overlong forms, surrogates and code points past U+10FFFF. */
  predicate SecondByte(lead: char, c: char) {
    match lead as int
    case 0xE0 => Between(0xA0, c, 0xBF)
    case 0xED => Between(0x80, c, 0x9F)
    case 0xF0 => Between(0x90, c, 0xBF)
    case 0xF4 => Between(0x80, c, 0x8F)
    case _ => Between(0x80, c, 0xBF)
  }

  /**
   How many bytes a lead byte announces; zero for a byte that cannot lead. A character that is
   no byte stands alone.
   */
  function Announced(lead: char): nat {
    if Between(0, lead, 0x7F) || !IsByte(lead) then 1
    else if Between(0xC2, lead, 0xDF) then 2
    else if Between(0xE0, lead, 0xEF) then 3
    else if Between(0xF0, lead, 0xF4) then 4
    else 0
  }

  /** Length of the valid rune at the front, or zero. */
  function RuneLength(s: string): (n: nat)
    requires s != ""
    ensures n <= |s|
  {
    var n := Announced(s[0]);
    if && n <= |s| && (n >= 2 ==> SecondByte(s[0], s[1]))
       && (n >= 3 ==> Between(0x80, s[2], 0xBF)) && (n >= 4 ==> Between(0x80, s[3], 0xBF))
    then n else 0
  }

  function Scan(s: string): seq<Unit> {
    if s == "" then []
    else
      var n := RuneLength(s);
      if n == 0 then [Invalid] + Scan(s[1..]) else [Rune(s[..n])] + Scan(s[n..])
  }

  predicate ValidUtf8(s: string) { Invalid !in Scan(s) }

  // ---------------------------------------------------------------- escaping

  const HEX: string := "0123456789abcdef"

  function Hex(n: nat): char { HEX[n % 16] }

  function EscapeAscii(c: char): string {
    if c == '"' || c == '\\' then ['\\', c]
    else if c == '\U{08}' then "\\b"
    else if c == '\U{0C}' then "\\f"
    else if c == '\n' then "\\n"
    else if c == '\r' then "\\r"
    else if c == '\t' then "\\t"
    else if c < ' ' || c == '<' || c == '>' || c == '&' then "\\u00" + [Hex(c as int / 16), Hex(c as int)]
    else [c]
  }

  const LINE_SEPARATOR: string := ['\U{E2}', '\U{80}', '\U{A8}']
  const PARAGRAPH_SEPARATOR: string := ['\U{E2}', '\U{80}', '\U{A9}']

  function EscapeUnit(u: Unit): string {
    match u
    case Invalid => "\\ufffd"
    case Rune(r) =>
      if |r| == 1 then EscapeAscii(r[0])
      else if r == LINE_SEPARATOR then "\\u2028"
      else if r == PARAGRAPH_SEPARATOR then "\\u2029"
      else r
  }

  function Escape(us: seq<Unit>): string {
    if us == [] then "" else EscapeUnit(us[0]) + Escape(us[1..])
  }

  function QuoteUnits(us: seq<Unit>): string { "\"" + Escape(us) + "\"" }

  /** The JSON text of a Go string. */
  function Quote(s: string): string { QuoteUnits(Scan(s)) }

  // ---------------------------------------------------------------- unambiguity

  predicate ValidUnit(u: Unit) { u.Rune? ==> u.bytes != "" && RuneLength(u.bytes) == |u.bytes| }

  lemma {:induction false} ScanValid(s: string)
    ensures forall u | u in Scan(s) :: ValidUnit(u)
  {
    if s != "" {
      var n := RuneLength(s);
      if n == 0 { ScanValid(s[1..]); } else {
        assert RuneLength(s[..n]) == n;
        ScanValid(s[n..]);
      }
    }
  }

  function HexValue(c: char): int {
    if '0' <= c <= '9' then c as int - '0' as int
    else if 'a' <= c <= 'f' then c as int - 'a' as int + 10 else 0
  }

  /** Reads back the first unit of an escaped text. */
  function FirstUnit(s: string): Unit
    requires s != ""
  {
    if s[0] != '\\' then Rune(s[..if Announced(s[0]) <= |s| then Announced(s[0]) else 0])
    else if |s| < 2 then Invalid
    else if s[1] == 'b' then Rune(['\U{08}'])
    else if s[1] == 'f' then Rune(['\U{0C}'])
    else if s[1] == 'n' then Rune(['\n'])
    else if s[1] == 'r' then Rune(['\r'])
    else if s[1] == 't' then Rune(['\t'])
    else if s[1] != 'u' || |s| < 6 then Rune([s[1]])
    else if s[2] == 'f' then Invalid
    else if s[2] == '2' then Rune(if s[5] == '8' then LINE_SEPARATOR else PARAGRAPH_SEPARATOR)
    else
      var code := HexValue(s[4]) * 16 + HexValue(s[5]);
      if 0 <= code < 0x80 then Rune([code as char]) else Invalid
  }

  lemma HexRoundTrip(n: nat)
    requires n < 16
    ensures HexValue(Hex(n)) == n
  {
  }

  lemma FirstHex(c: char, x: string)
    requires Between(0, c, 0x7F)
    ensures FirstUnit("\\u00" + [Hex(c as int / 16), Hex(c as int)] + x) == Rune([c])
  {
    var s := "\\u00" + [Hex(c as int / 16), Hex(c as int)] + x;
    HexRoundTrip(c as int / 16);
    HexRoundTrip(c as int % 16);
    assert s[0] == '\\' && s[1] == 'u' && s[2] == '0' && |s| >= 6;
    assert s[4] == Hex(c as int / 16) && s[5] == Hex(c as int);
  }

  lemma FirstAscii(c: char, x: string)
    requires Between(0, c, 0x7F)
    ensures FirstUnit(EscapeAscii(c) + x) == Rune([c])
  {
    var s := EscapeAscii(c) + x;
    if |EscapeAscii(c)| == 6 {
      FirstHex(c, x);
    } else if |EscapeAscii(c)| == 1 {
      assert s[0] == c && s[..1] == [c];
    } else {
      assert s[0] == '\\' && s[1] == EscapeAscii(c)[1];
    }
  }

  lemma FirstUnitOf(u: Unit, x: string)
    requires ValidUnit(u)
    ensures EscapeUnit(u) != "" && EscapeUnit(u)[0] != '"' && FirstUnit(EscapeUnit(u) + x) == u
  {
    var s := EscapeUnit(u) + x;
    match u {
      case Invalid =>
        assert s[0] == '\\' && s[1] == 'u' && s[2] == 'f';
      case Rune(r) =>
        if |r| == 1 && !IsByte(r[0]) {
          assert s[0] == r[0] && s[..1] == r;
        } else if |r| == 1 {
          FirstAscii(r[0], x);
        } else if r == LINE_SEPARATOR || r == PARAGRAPH_SEPARATOR {
          assert s[0] == '\\' && s[1] == 'u' && s[2] == '2' && (s[5] == '8' <==> r == LINE_SEPARATOR);
        } else {
          assert s[0] == r[0] && s[..|r|] == r;
        }
    }
  }

  /** Escaped units, their closing quote, and what follows. */
  function Closed(us: seq<Unit>, rest: string): string { Escape(us) + ("\"" + rest) }

  lemma ClosedStep(us: seq<Unit>, rest: string)
    requires forall u | u in us :: ValidUnit(u)
    ensures us == [] ==> Closed(us, rest) == "\"" + rest
    ensures us != [] ==>
              && Closed(us, rest) == EscapeUnit(us[0]) + Closed(us[1..], rest)
              && EscapeUnit(us[0]) != "" && Closed(us, rest)[0] != '"'
              && FirstUnit(Closed(us, rest)) == us[0]
  {
    if us != [] { FirstUnitOf(us[0], Closed(us[1..], rest)); }
  }

  /** An escaped text ends at its first bare quote, and its units can be read back. */
  lemma {:induction false} EscapeCancels(us: seq<Unit>, vs: seq<Unit>, x: string, y: string)
    requires forall u | u in us :: ValidUnit(u)
    requires forall v | v in vs :: ValidUnit(v)
    requires Closed(us, x) == Closed(vs, y)
    ensures us == vs && x == y
  {
    ClosedStep(us, x);
    ClosedStep(vs, y);
    if us == [] {
      assert x == Closed(us, x)[1..] == y;
    } else {
      var k := |EscapeUnit(us[0])|;
      assert Closed(us, x)[k..] == Closed(us[1..], x) && Closed(vs, y)[k..] == Closed(vs[1..], y);
      EscapeCancels(us[1..], vs[1..], x, y);
      assert us == [us[0]] + us[1..] && vs == [vs[0]] + vs[1..];
    }
  }

  lemma QuoteClosed(us: seq<Unit>, x: string)
    ensures (QuoteUnits(us) + x)[1..] == Closed(us, x)
  {
  }

  lemma QuoteUnitsCancel(us: seq<Unit>, vs: seq<Unit>, x: string, y: string)
    requires forall u | u in us :: ValidUnit(u)
    requires forall v | v in vs :: ValidUnit(v)
    requires QuoteUnits(us) + x == QuoteUnits(vs) + y
    ensures us == vs && x == y
  {
    QuoteClosed(us, x);
    QuoteClosed(vs, y);
    EscapeCancels(us, vs, x, y);
  }

  /** Quoted text is self-delimiting, and determines exactly what the UTF-8 reader saw. */
  lemma QuoteCancels(s: string, t: string, x: string, y: string)
    requires Quote(s) + x == Quote(t) + y
    ensures Scan(s) == Scan(t) && x == y
  {
    ScanValid(s);
    ScanValid(t);
    QuoteUnitsCancel(Scan(s), Scan(t), x, y);
  }

  /** How far the reader gets in one step. */
  function FirstLength(s: string): nat
    requires s != ""
  {
    if RuneLength(s) == 0 then 1 else RuneLength(s)
  }

  function FirstRead(s: string): Unit
    requires s != ""
  {
    if RuneLength(s) == 0 then Invalid else Rune(s[..RuneLength(s)])
  }

  lemma ScanStep(s: string)
    requires s != ""
    ensures 1 <= FirstLength(s) <= |s|
    ensures Scan(s) != [] && Scan(s)[0] == FirstRead(s) && Scan(s)[1..] == Scan(s[FirstLength(s)..])
  {
  }

  /** A valid rune is read from its own bytes only. */
  lemma FirstTells(s: string, t: string)
    requires s != "" && t != "" && FirstRead(s) == FirstRead(t) != Invalid
    ensures FirstLength(s) == FirstLength(t) && s[..FirstLength(s)] == t[..FirstLength(t)]
  {
    assert |s[..RuneLength(s)]| == RuneLength(s) && |t[..RuneLength(t)]| == RuneLength(t);
  }

  lemma {:induction false} ReadingTells(s: string, t: string)
    requires ValidUtf8(s) && Scan(s) == Scan(t)
    ensures s == t
    decreases |s|
  {
    if s != "" && t != "" {
      ScanStep(s);
      ScanStep(t);
      var n := FirstLength(s);
      assert Scan(s)[0] in Scan(s);
      FirstTells(s, t);
      assert forall u | u in Scan(s)[1..] :: u in Scan(s);
      ReadingTells(s[n..], t[n..]);
      assert s == s[..n] + s[n..] && t == t[..n] + t[n..];
    }
  }

  /** A text in valid UTF-8 is quoted differently from every other text. */
  lemma QuoteInjective(s: string, t: string)
    requires ValidUtf8(s)
    ensures Quote(s) == Quote(t) <==> s == t
  {
    if Quote(s) == Quote(t) {
      QuoteCancels(s, t, "", "");
      ReadingTells(s, t);
    }
  }

  /** The first rune is decided by its own bytes. */
  lemma SameRune(s: string, t: string, n: nat)
    requires s != "" && n == RuneLength(s) && 0 < n <= |t| && t[..n] == s[..n]
    ensures RuneLength(t) == n
  {
    assert forall i | 0 <= i < n :: t[i] == t[..n][i] == s[i];
  }

  /** Any other byte string has a twin: every byte that is not UTF-8 is written alike. */
  lemma {:induction false} Twin(s: string) returns (t: string)
    requires !ValidUtf8(s)
    ensures t != s && Scan(t) == Scan(s) && Quote(t) == Quote(s) && t != ""
  {
    var n := RuneLength(s);
    if n == 0 {
      t := [if s[0] == '\U{FF}' then '\U{FE}' else '\U{FF}'] + s[1..];
      assert t[0] != s[0] && RuneLength(t) == 0 && t[1..] == s[1..];
    } else {
      assert Scan(s)[1..] == Scan(s[n..]);
      var rest := Twin(s[n..]);
      t := s[..n] + rest;
      assert t[..n] == s[..n] && t[n..] == rest;
      SameRune(s, t, n);
    }
  }

  /** Exactly the valid UTF-8 texts are told apart from every other text. */
  lemma QuoteExactIff(s: string)
    ensures ValidUtf8(s) <==> forall t :: Quote(t) == Quote(s) ==> t == s
  {
    if ValidUtf8(s) {
      forall t | Quote(t) == Quote(s) ensures t == s {
        QuoteCancels(s, t, "", "");
        QuoteInjective(s, t);
      }
    } else {
      var t := Twin(s);
      assert Quote(t) == Quote(s) && t != s;
    }
  }

  /** What reads like a byte string is one. */
  lemma {:induction false} SameReadingBytes(s: string, t: string)
    requires Scan(s) == Scan(t) && IsBytes(s)
    ensures IsBytes(t)
    decreases |t|
  {
    if s != "" && t != "" {
      ScanStep(s);
      ScanStep(t);
      var n := FirstLength(t);
      assert FirstLength(s) == n && (RuneLength(t) > 0 ==> s[..n] == t[..n]);
      SameReadingBytes(s[n..], t[n..]);
      assert t == t[..n] + t[n..];
    }
  }

  predicate IsAscii(s: string) { forall c | c in s :: c as int < 0x80 }

  lemma {:induction false} AsciiScan(s: string)
    requires IsAscii(s)
    ensures |Scan(s)| == |s| && forall i | 0 <= i < |s| :: Scan(s)[i] == Rune([s[i]])
  {
    if s != "" {
      assert s[0] in s && forall c | c in s[1..] :: c in s;
      assert RuneLength(s) == 1 && s[..1] == [s[0]];
      AsciiScan(s[1..]);
    }
  }

  lemma AsciiValid(s: string)
    requires IsAscii(s)
    ensures ValidUtf8(s)
  {
    AsciiScan(s);
  }
}
