/**
 JSON texts and what they mean, as sections 2 to 7 of RFC 8259 define them: a relation
 between a text and the value it spells. Every rule of the grammar is there, with optional
 blanks and with every escape; a lone surrogate escape means nothing. The grammar is
 unambiguous: no text spells two values.

 A text is a byte string. A character that is no byte stands alone, for a code outside
 Unicode.
 */
module JsonGrammar {
  import opened Bytes
  import opened Decimal
  import opened Number
  import opened CanonicalNumber
  import opened Utf8

  /** A JSON value; text is a list of code points, and a number is the real it denotes. */
  datatype Json =
    | JNull
    | JBool(b: bool)
    | JNumber(number: real)
    | JString(text: seq<int>)
    | JArray(items: seq<Json>)
    | JObject(members: seq<Pair>)

  datatype Pair = Pair(key: seq<int>, value: Json)

  // ---------------------------------------------------------------- blanks and runs

  const BLANKS: set<char> := {' ', '\t', '\n', '\r'}
  const NUMERIC: set<char> := {'0', '1', '2', '3', '4', '5', '6', '7', '8', '9', '-', '+', '.', 'e', 'E'}

  const CLOSING: set<char> := {']', '}'}

  predicate Only(chars: set<char>, s: string) { forall i | 0 <= i < |s| :: s[i] in chars }

  /** Nothing that could continue a run of these characters. */
  predicate Ends(chars: set<char>, rest: string) { rest == "" || rest[0] !in chars }

  lemma {:induction false} RunCancels(chars: set<char>, s: string, t: string, x: string, y: string)
    requires Only(chars, s) && Only(chars, t) && Ends(chars, x) && Ends(chars, y) && s + x == t + y
    ensures s == t && x == y
  {
    assert s != "" ==> (s + x)[0] == s[0];
    assert t != "" ==> (t + y)[0] == t[0];
    if s == "" || t == "" {
      assert s + x == x || t + y == y;
    } else {
      assert (s + x)[1..] == s[1..] + x && (t + y)[1..] == t[1..] + y;
      RunCancels(chars, s[1..], t[1..], x, y);
      assert s == [s[0]] + s[1..] && t == [t[0]] + t[1..];
    }
  }

  // ---------------------------------------------------------------- strings (section 7)

  const OUTSIDE: int := 0x110000

  predicate Unescaped(c: int, s: string) {
    || (Scalar(c) && c >= 0x20 && c != 0x22 && c != 0x5C && s == Encoded(c))
    || (|s| == 1 && !IsByte(s[0]) && c == OUTSIDE + s[0] as int)
  }

  predicate ShortEscape(c: int, s: string) {
    |s| == 2 && s[0] == '\\' &&
    match s[1]
    case '"' => c == 0x22
    case '\\' => c == 0x5C
    case '/' => c == 0x2F
    case 'b' => c == 0x08
    case 'f' => c == 0x0C
    case 'n' => c == 0x0A
    case 'r' => c == 0x0D
    case 't' => c == 0x09
    case _ => false
  }

  predicate HexDigit(h: char) { '0' <= h <= '9' || 'a' <= h <= 'f' || 'A' <= h <= 'F' }

  function HexDigitValue(h: char): int {
    if '0' <= h <= '9' then h as int - '0' as int
    else if 'a' <= h <= 'f' then h as int - 'a' as int + 10
    else h as int - 'A' as int + 10
  }

  /** `\u` and four hexadecimal digits. */
  predicate CodeEscape(code: int, s: string) {
    && |s| == 6 && s[0] == '\\' && s[1] == 'u'
    && HexDigit(s[2]) && HexDigit(s[3]) && HexDigit(s[4]) && HexDigit(s[5])
    && code == HexDigitValue(s[2]) * 0x1000 + HexDigitValue(s[3]) * 0x100 + HexDigitValue(s[4]) * 0x10
               + HexDigitValue(s[5])
  }

  predicate Surrogate(code: int) { 0xD800 <= code < 0xE000 }

  /** A code point past the Basic Multilingual Plane, as the escapes of its surrogates. */
  predicate PairEscape(c: int, s: string) {
    && |s| == 12 && 0x10000 <= c < 0x110000
    && CodeEscape(0xD800 + (c - 0x10000) / 0x400, s[..6]) && CodeEscape(0xDC00 + (c - 0x10000) % 0x400, s[6..])
  }

  predicate Character(c: int, s: string) {
    Unescaped(c, s) || ShortEscape(c, s) || (CodeEscape(c, s) && !Surrogate(c)) || PairEscape(c, s)
  }

  predicate Characters(text: seq<int>, s: string) {
    if text == [] then s == ""
    else exists n | 0 < n <= |s| :: Character(text[0], s[..n]) && Characters(text[1..], s[n..])
  }

  predicate Quoted(text: seq<int>, s: string) {
    |s| >= 2 && s[0] == '"' && s[|s| - 1] == '"' && Characters(text, s[1..|s| - 1])
  }

  lemma CharacterHead(c: int, s: string)
    requires Character(c, s)
    ensures s != "" && s[0] != '"' && (s[0] == '\\' <==> !Unescaped(c, s))
  {
    if Scalar(c) && s == Encoded(c) { PayloadOf(c); LengthShows(c); }
    if PairEscape(c, s) { assert s[0] == s[..6][0]; }
  }

  lemma UnescapedCancels(c: int, d: int, s: string, t: string, x: string, y: string)
    requires Unescaped(c, s) && Unescaped(d, t) && s + x == t + y
    ensures c == d && s == t
  {
    assert s != "" && t != "" && (s + x)[0] == s[0] && (t + y)[0] == t[0];
    if Scalar(c) && s == Encoded(c) { LengthShows(c); }
    if Scalar(d) && t == Encoded(d) { LengthShows(d); }
    if IsByte(s[0]) { EncodedCancels(c, d, x, y); }
  }

  lemma CodeEscapeUnique(c: int, d: int, s: string)
    requires CodeEscape(c, s) && CodeEscape(d, s)
    ensures c == d
  {
  }

  lemma EscapeCancels(c: int, d: int, s: string, t: string, x: string, y: string)
    requires Character(c, s) && Character(d, t) && !Unescaped(c, s) && !Unescaped(d, t) && s + x == t + y
    ensures c == d && s == t
  {
    EscapeForm(c, s);
    EscapeForm(d, t);
    assert (s + x)[1] == s[1] && (t + y)[1] == t[1];
    if s[1] == 'u' {
      CodesCancel(c, d, s, t, x, y);
    } else {
      assert s == (s + x)[..2] && t == (t + y)[..2];
    }
  }

  lemma CodesCancel(c: int, d: int, s: string, t: string, x: string, y: string)
    requires Character(c, s) && !Unescaped(c, s) && !ShortEscape(c, s)
    requires Character(d, t) && !Unescaped(d, t) && !ShortEscape(d, t)
    requires s + x == t + y
    ensures c == d && s == t
  {
    FirstCode(c, s);
    FirstCode(d, t);
    assert (s + x)[..6] == s[..6] && (t + y)[..6] == t[..6];
    CodeEscapeUnique(First(c, s), First(d, t), s[..6]);
    assert s == (s + x)[..|s|] && t == (t + y)[..|t|];
    if |s| == 12 { PairUnique(c, d, s); }
  }

  lemma EscapeForm(c: int, s: string)
    requires Character(c, s) && !Unescaped(c, s)
    ensures |s| >= 2 && s[0] == '\\' && (s[1] == 'u' <==> !ShortEscape(c, s)) && (s[1] != 'u' ==> |s| == 2)
    ensures s[1] == 'u' ==> |s| == 6 || |s| == 12
  {
    if PairEscape(c, s) { assert s[0] == s[..6][0] && s[1] == s[..6][1]; }
  }

  /** The first code of an escape: the code point itself, or a high surrogate. */
  function First(c: int, s: string): int { if |s| == 12 then 0xD800 + (c - 0x10000) / 0x400 else c }

  lemma FirstCode(c: int, s: string)
    requires Character(c, s) && !Unescaped(c, s) && !ShortEscape(c, s)
    ensures (|s| == 6 || |s| == 12) && CodeEscape(First(c, s), s[..6]) && (Surrogate(First(c, s)) <==> |s| == 12)
    ensures |s| == 12 ==> PairEscape(c, s)
  {
    if |s| == 6 { assert s[..6] == s; }
  }

  lemma PairUnique(c: int, d: int, s: string)
    requires PairEscape(c, s) && PairEscape(d, s)
    ensures c == d
  {
    CodeEscapeUnique(0xD800 + (c - 0x10000) / 0x400, 0xD800 + (d - 0x10000) / 0x400, s[..6]);
    CodeEscapeUnique(0xDC00 + (c - 0x10000) % 0x400, 0xDC00 + (d - 0x10000) % 0x400, s[6..]);
  }

  lemma CharacterCancels(c: int, d: int, s: string, t: string, x: string, y: string)
    requires Character(c, s) && Character(d, t) && s + x == t + y
    ensures c == d && s == t
  {
    CharacterHead(c, s);
    CharacterHead(d, t);
    assert (s + x)[0] == s[0] && (t + y)[0] == t[0];
    if Unescaped(c, s) { UnescapedCancels(c, d, s, t, x, y); } else { EscapeCancels(c, d, s, t, x, y); }
  }

  lemma CharactersSplit(text: seq<int>, s: string) returns (n: nat)
    requires Characters(text, s) && text != []
    ensures 0 < n <= |s| && Character(text[0], s[..n]) && Characters(text[1..], s[n..]) && s[0] != '"'
  {
    n :| 0 < n <= |s| && Character(text[0], s[..n]) && Characters(text[1..], s[n..]);
    CharacterHead(text[0], s[..n]);
  }

  /** A text ends at its first bare quote, and spells one list of code points. */
  lemma {:induction false} CharactersCancel(a: seq<int>, b: seq<int>, s: string, t: string, x: string, y: string)
    requires Characters(a, s) && Characters(b, t) && s + ("\"" + x) == t + ("\"" + y)
    ensures a == b && s == t
  {
    assert s != "" ==> (s + ("\"" + x))[0] == s[0];
    assert t != "" ==> (t + ("\"" + y))[0] == t[0];
    if a == [] || b == [] {
      if a != [] { var _ := CharactersSplit(a, s); }
      if b != [] { var _ := CharactersSplit(b, t); }
    } else {
      var n := CharactersSplit(a, s);
      var m := CharactersSplit(b, t);
      Cut(s, n, "\"" + x);
      Cut(t, m, "\"" + y);
      CharacterCancels(a[0], b[0], s[..n], t[..m], s[n..] + ("\"" + x), t[m..] + ("\"" + y));
      Advance(s[..n], t[..m], s[n..] + ("\"" + x), t[m..] + ("\"" + y));
      CharactersCancel(a[1..], b[1..], s[n..], t[m..], x, y);
      SameList(a, b);
      SameParts(s, n, t, m);
    }
  }

  lemma Cut(s: string, n: nat, x: string)
    requires n <= |s|
    ensures s + x == s[..n] + (s[n..] + x)
  {
    assert s == s[..n] + s[n..];
  }

  lemma Advance(a: string, b: string, x: string, y: string)
    requires |a| == |b| && a + x == b + y
    ensures a == b && x == y
  {
    assert (a + x)[..|a|] == a && (b + y)[..|b|] == b;
    assert (a + x)[|a|..] == x && (b + y)[|b|..] == y;
  }

  lemma QuotedCancels(a: seq<int>, b: seq<int>, s: string, t: string, x: string, y: string)
    requires Quoted(a, s) && Quoted(b, t) && s + x == t + y
    ensures a == b && s == t
  {
    Inside(s, t, x, y, '"');
    CharactersCancel(a, b, s[1..|s| - 1], t[1..|t| - 1], x, y);
    Wrapped(s, t);
  }

  /** What stands between the first character and the last, and what follows. */
  lemma Inside(s: string, t: string, x: string, y: string, close: char)
    requires |s| >= 2 && |t| >= 2 && s[0] == t[0] && s[|s| - 1] == t[|t| - 1] == close && s + x == t + y
    ensures s[1..|s| - 1] + ([close] + x) == t[1..|t| - 1] + ([close] + y)
  {
    assert (s + x)[1..] == s[1..|s| - 1] + ([close] + x);
    assert (t + y)[1..] == t[1..|t| - 1] + ([close] + y);
  }

  lemma Wrapped(s: string, t: string)
    requires |s| >= 2 && |t| >= 2 && s[0] == t[0] && s[|s| - 1] == t[|t| - 1] && s[1..|s| - 1] == t[1..|t| - 1]
    ensures s == t
  {
    assert s == [s[0]] + s[1..|s| - 1] + [s[|s| - 1]] && t == [t[0]] + t[1..|t| - 1] + [t[|t| - 1]];
  }

  lemma SameParts<T>(a: seq<T>, n: nat, b: seq<T>, m: nat)
    requires n <= |a| && m <= |b| && a[..n] == b[..m] && a[n..] == b[m..]
    ensures a == b
  {
    assert a == a[..n] + a[n..] && b == b[..m] + b[m..];
  }

  lemma SameList<T>(a: seq<T>, b: seq<T>)
    requires a != [] && b != [] && a[0] == b[0] && a[1..] == b[1..]
    ensures a == b
  {
    assert a[..1] == [a[0]] && b[..1] == [b[0]];
    SameParts(a, 1, b, 1);
  }

  // ---------------------------------------------------------------- values (sections 3 to 6)

  ghost predicate Numeral(x: real, s: string) { exists l :: Spells(l, s) && LiteralValue(l) == x }

  /** The text spells the value, with no blanks around it; `ws` are the characters that count as blanks. */
  ghost predicate Spelling(ws: set<char>, j: Json, s: string)
    decreases j, 0
  {
    match j
    case JNull => s == "null"
    case JBool(b) => s == if b then "true" else "false"
    case JNumber(x) => Numeral(x, s)
    case JString(text) => Quoted(text, s)
    case JArray(items) =>
      |s| >= 2 && s[0] == '[' && s[|s| - 1] == ']' && Elements(ws, items, s[1..|s| - 1])
    case JObject(members) =>
      |s| >= 2 && s[0] == '{' && s[|s| - 1] == '}' && KeyValues(ws, members, s[1..|s| - 1])
  }

  /** The text spells the value, with blanks before and after it. */
  ghost predicate Padded(ws: set<char>, j: Json, s: string)
    decreases j, 1
  {
    exists a, b | 0 <= a <= b <= |s| :: Only(ws, s[..a]) && Spelling(ws, j, s[a..b]) && Only(ws, s[b..])
  }

  /** What stands between the brackets of an array. */
  ghost predicate Elements(ws: set<char>, items: seq<Json>, s: string)
    decreases items, 1
  {
    if items == [] then Only(ws, s)
    else exists n | 0 <= n <= |s| :: Padded(ws, items[0], s[..n]) && MoreElements(ws, items[1..], s[n..])
  }

  /** Nothing, or a comma and the further elements. */
  ghost predicate MoreElements(ws: set<char>, items: seq<Json>, s: string)
    decreases items, 2
  {
    if items == [] then s == "" else s != "" && s[0] == ',' && Elements(ws, items, s[1..])
  }

  predicate PaddedKey(ws: set<char>, key: seq<int>, s: string) {
    exists a, b | 0 <= a <= b <= |s| :: Only(ws, s[..a]) && Quoted(key, s[a..b]) && Only(ws, s[b..])
  }

  /** A key, a colon, and a value. */
  ghost predicate KeyValue(ws: set<char>, m: Pair, s: string)
    decreases m, 2
  {
    exists n | 0 <= n < |s| :: PaddedKey(ws, m.key, s[..n]) && s[n] == ':' && Padded(ws, m.value, s[n..][1..])
  }

  /** What stands between the braces of an object. */
  ghost predicate KeyValues(ws: set<char>, ms: seq<Pair>, s: string)
    decreases ms, 3
  {
    if ms == [] then Only(ws, s)
    else exists n | 0 <= n <= |s| :: KeyValue(ws, ms[0], s[..n]) && MoreKeyValues(ws, ms[1..], s[n..])
  }

  ghost predicate MoreKeyValues(ws: set<char>, ms: seq<Pair>, s: string)
    decreases ms, 4
  {
    if ms == [] then s == "" else s != "" && s[0] == ',' && KeyValues(ws, ms, s[1..])
  }

  /** A JSON text (section 2): a value with blanks around it. */
  ghost predicate Reads(s: string, j: Json) { Padded(BLANKS, j, s) }

  /** The same, with no blank anywhere. */
  ghost predicate ReadsCompact(s: string, j: Json) { Padded({}, j, s) }

  // ---------------------------------------------------------------- no text has two readings

  /** The kind of value a first character announces. */
  predicate Announces(c: char, j: Json) {
    match j
    case JNull => c == 'n'
    case JBool(b) => c == if b then 't' else 'f'
    case JNumber(_) => c == '-' || IsDigit(c)
    case JString(_) => c == '"'
    case JArray(_) => c == '['
    case JObject(_) => c == '{'
  }

  lemma NumberHead(x: real, s: string)
    requires Numeral(x, s)
    ensures s != "" && (s[0] == '-' || IsDigit(s[0]))
  {
    var l :| Spells(l, s) && LiteralValue(l) == x;
    Unassemble(l, s);
    if !l.negative { assert s[0] == l.whole[0]; }
  }

  lemma SpellingHead(j: Json, s: string)
    requires Spelling(BLANKS, j, s)
    ensures s != "" && Announces(s[0], j) && s[0] !in BLANKS && s[0] !in CLOSING
  {
    if j.JNumber? { NumberHead(j.number, s); }
  }

  lemma NumberOnly(l: Literal, s: string)
    requires Spells(l, s)
    ensures Only(NUMERIC, s)
  {
    var tail := s[|Mantissa(l)|..];
    assert s == Mantissa(l) + tail;
    MantissaOnly(l);
    ExponentOnly(l.exponent, tail);
  }

  lemma MantissaOnly(l: Literal)
    requires AllDigits(l.whole) && AllDigits(l.fraction)
    ensures Only(NUMERIC, Mantissa(l))
  {
    DigitsOnly(l.whole);
    DigitsOnly(l.fraction);
  }

  lemma DigitsOnly(s: string)
    requires AllDigits(s)
    ensures Only(NUMERIC, s)
  {
  }

  lemma ExponentOnly(exponent: string, tail: string)
    requires ExponentSuffix(exponent, tail)
    ensures Only(NUMERIC, tail)
  {
    if exponent != "" {
      DigitsOnly(if IsSign(exponent[0]) then exponent[1..] else exponent);
      assert Only(NUMERIC, exponent) by {
        if IsSign(exponent[0]) { assert exponent == [exponent[0]] + exponent[1..]; }
      }
      assert tail == [tail[0]] + exponent;
    }
  }

  lemma NumberCancels(v: real, w: real, s: string, t: string, x: string, y: string)
    requires Numeral(v, s) && Numeral(w, t) && Ends(NUMERIC, x) && Ends(NUMERIC, y) && s + x == t + y
    ensures v == w && s == t
  {
    var l :| Spells(l, s) && LiteralValue(l) == v;
    var m :| Spells(m, t) && LiteralValue(m) == w;
    NumberOnly(l, s);
    NumberOnly(m, t);
    RunCancels(NUMERIC, s, t, x, y);
    ParseIffSpells(s, l);
    ParseIffSpells(s, m);
  }

  /** Blanks before and after something that begins with none can be told from it. */
  lemma PaddingCancels(s: string, a: nat, b: nat, t: string, c: nat, d: nat, x: string, y: string)
    requires a < b <= |s| && c < d <= |t| && s + x == t + y
    requires Only(BLANKS, s[..a]) && Only(BLANKS, t[..c]) && s[a] !in BLANKS && t[c] !in BLANKS
    ensures s[..a] == t[..c] && s[a..b] + (s[b..] + x) == t[c..d] + (t[d..] + y)
  {
    Cut(s, a, x);
    Cut(t, c, y);
    assert (s[a..] + x)[0] == s[a] && (t[c..] + y)[0] == t[c];
    RunCancels(BLANKS, s[..a], t[..c], s[a..] + x, t[c..] + y);
    Cut(s[a..], b - a, x);
    Cut(t[c..], d - c, y);
    assert s[a..][..b - a] == s[a..b] && s[a..][b - a..] == s[b..];
    assert t[c..][..d - c] == t[c..d] && t[c..][d - c..] == t[d..];
  }

  /** The trailing blanks. */
  lemma TailCancels(s: string, a: nat, b: nat, t: string, c: nat, d: nat, x: string, y: string)
    requires a <= b <= |s| && c <= d <= |t| && s[..a] == t[..c] && s[a..b] == t[c..d]
    requires Only(BLANKS, s[b..]) && Only(BLANKS, t[d..]) && Ends(BLANKS, x) && Ends(BLANKS, y)
    requires s[b..] + x == t[d..] + y
    ensures s == t && x == y
  {
    RunCancels(BLANKS, s[b..], t[d..], x, y);
    assert s == s[..a] + s[a..b] + s[b..] && t == t[..c] + t[c..d] + t[d..];
  }

  /** What may follow a value inside a text: the end, or a structural character. */
  predicate Stops(x: string) { x == "" || x[0] in {',', ':', ']', '}'} }

  lemma TailEnds(tail: string, x: string)
    requires Only(BLANKS, tail) && Stops(x)
    ensures Ends(NUMERIC, tail + x) && Ends(BLANKS, x)
  {
    if tail != "" { assert (tail + x)[0] == tail[0]; } else { assert tail + x == x; }
  }

  lemma {:induction false} SpellingCancels(j: Json, k: Json, s: string, t: string, x: string, y: string)
    requires Spelling(BLANKS, j, s) && Spelling(BLANKS, k, t) && Ends(NUMERIC, x) && Ends(NUMERIC, y) && s + x == t + y
    ensures j == k && s == t
    decreases j, 0
  {
    SpellingHead(j, s);
    SpellingHead(k, t);
    assert (s + x)[0] == s[0] && (t + y)[0] == t[0];
    match j {
      case JNull => Advance(s, t, x, y);
      case JBool(_) => Advance(s, t, x, y);
      case JNumber(v) => NumberCancels(v, k.number, s, t, x, y);
      case JString(text) => QuotedCancels(text, k.text, s, t, x, y);
      case JArray(items) =>
        Inside(s, t, x, y, ']');
        ElementsCancel(items, k.items, s[1..|s| - 1], t[1..|t| - 1], "]" + x, "]" + y);
        Wrapped(s, t);
      case JObject(ms) =>
        Inside(s, t, x, y, '}');
        KeyValuesCancel(ms, k.members, s[1..|s| - 1], t[1..|t| - 1], "}" + x, "}" + y);
        Wrapped(s, t);
    }
  }

  lemma {:induction false} PaddedCancels(j: Json, k: Json, s: string, t: string, x: string, y: string)
    requires Padded(BLANKS, j, s) && Padded(BLANKS, k, t) && Stops(x) && Stops(y) && s + x == t + y
    ensures j == k && s == t
    decreases j, 1
  {
    var a, b :| 0 <= a <= b <= |s| && Only(BLANKS, s[..a]) && Spelling(BLANKS, j, s[a..b]) && Only(BLANKS, s[b..]);
    var c, d :| 0 <= c <= d <= |t| && Only(BLANKS, t[..c]) && Spelling(BLANKS, k, t[c..d]) && Only(BLANKS, t[d..]);
    SpellingHead(j, s[a..b]);
    SpellingHead(k, t[c..d]);
    PaddingCancels(s, a, b, t, c, d, x, y);
    TailEnds(s[b..], x);
    TailEnds(t[d..], y);
    SpellingCancels(j, k, s[a..b], t[c..d], s[b..] + x, t[d..] + y);
    Advance(s[a..b], t[c..d], s[b..] + x, t[d..] + y);
    TailCancels(s, a, b, t, c, d, x, y);
  }

  lemma KeyCancels(j: seq<int>, k: seq<int>, s: string, t: string, x: string, y: string)
    requires PaddedKey(BLANKS, j, s) && PaddedKey(BLANKS, k, t) && Stops(x) && Stops(y) && s + x == t + y
    ensures j == k && s == t
  {
    var a, b :| 0 <= a <= b <= |s| && Only(BLANKS, s[..a]) && Quoted(j, s[a..b]) && Only(BLANKS, s[b..]);
    var c, d :| 0 <= c <= d <= |t| && Only(BLANKS, t[..c]) && Quoted(k, t[c..d]) && Only(BLANKS, t[d..]);
    assert s[a] == s[a..b][0] && t[c] == t[c..d][0];
    PaddingCancels(s, a, b, t, c, d, x, y);
    TailEnds(s[b..], x);
    TailEnds(t[d..], y);
    QuotedCancels(j, k, s[a..b], t[c..d], s[b..] + x, t[d..] + y);
    Advance(s[a..b], t[c..d], s[b..] + x, t[d..] + y);
    TailCancels(s, a, b, t, c, d, x, y);
  }

  /** Where the blanks at the front of a text end, at something that closes nothing. */
  predicate Begins(s: string, a: nat) { a < |s| && Only(BLANKS, s[..a]) && s[a] !in BLANKS && s[a] !in CLOSING }

  lemma PaddedBegins(j: Json, s: string) returns (a: nat)
    requires Padded(BLANKS, j, s)
    ensures Begins(s, a)
  {
    var b;
    a, b :| 0 <= a <= b <= |s| && Only(BLANKS, s[..a]) && Spelling(BLANKS, j, s[a..b]) && Only(BLANKS, s[b..]);
    SpellingHead(j, s[a..b]);
  }

  lemma KeyBegins(key: seq<int>, s: string) returns (a: nat)
    requires PaddedKey(BLANKS, key, s)
    ensures Begins(s, a)
  {
    var b;
    a, b :| 0 <= a <= b <= |s| && Only(BLANKS, s[..a]) && Quoted(key, s[a..b]) && Only(BLANKS, s[b..]);
    assert s[a] == s[a..b][0];
  }

  lemma NotClosing(s: string, a: nat, x: string, t: string, y: string)
    requires Begins(s, a) && Only(BLANKS, t) && s + x == t + y && y != "" && y[0] !in BLANKS
    ensures y[0] !in CLOSING
  {
    Cut(s, a, x);
    assert (s[a..] + x)[0] == s[a];
    RunCancels(BLANKS, s[..a], t, s[a..] + x, y);
  }

  predicate Closes(x: string, c: char) { x != "" && x[0] == c }

  /** The first element, and what follows it. */
  lemma ElementsSplit(items: seq<Json>, s: string, x: string) returns (n: nat)
    requires items != [] && Elements(BLANKS, items, s) && Closes(x, ']')
    ensures n <= |s| && Padded(BLANKS, items[0], s[..n]) && MoreElements(BLANKS, items[1..], s[n..])
    ensures s + x == s[..n] + (s[n..] + x) && Stops(s[n..] + x)
  {
    n :| 0 <= n <= |s| && Padded(BLANKS, items[0], s[..n]) && MoreElements(BLANKS, items[1..], s[n..]);
    Cut(s, n, x);
  }

  lemma SomeElements(items: seq<Json>, s: string, x: string, t: string, y: string)
    requires items != [] && Elements(BLANKS, items, s) && Closes(x, ']') && Only(BLANKS, t) && s + x == t + y
    ensures !Closes(y, ']')
  {
    var n := ElementsSplit(items, s, x);
    var a := PaddedBegins(items[0], s[..n]);
    if Closes(y, ']') { NotClosing(s[..n], a, s[n..] + x, t, y); }
  }

  lemma {:induction false} ElementsCancel(a: seq<Json>, b: seq<Json>, s: string, t: string, x: string, y: string)
    requires Elements(BLANKS, a, s) && Elements(BLANKS, b, t) && s + x == t + y && Closes(x, ']') && Closes(y, ']')
    ensures a == b && s == t
    decreases a, 2
  {
    if a == [] && b == [] {
      RunCancels(BLANKS, s, t, x, y);
    } else if a == [] {
      SomeElements(b, t, y, s, x);
    } else if b == [] {
      SomeElements(a, s, x, t, y);
    } else {
      var n := ElementsSplit(a, s, x);
      var m := ElementsSplit(b, t, y);
      PaddedCancels(a[0], b[0], s[..n], t[..m], s[n..] + x, t[m..] + y);
      Advance(s[..n], t[..m], s[n..] + x, t[m..] + y);
      MoreElementsCancel(a[1..], b[1..], s[n..], t[m..], x, y);
      SameList(a, b);
      SameParts(s, n, t, m);
    }
  }

  lemma {:induction false} MoreElementsCancel(a: seq<Json>, b: seq<Json>, s: string, t: string, x: string, y: string)
    requires MoreElements(BLANKS, a, s) && MoreElements(BLANKS, b, t)
    requires s + x == t + y && Closes(x, ']') && Closes(y, ']')
    ensures a == b && s == t
    decreases a, 3
  {
    assert (s + x)[0] == (if a == [] then ']' else ',') && (t + y)[0] == (if b == [] then ']' else ',');
    if a != [] {
      Step(s, x);
      Step(t, y);
      ElementsCancel(a, b, s[1..], t[1..], x, y);
      SameList(s, t);
    }
  }

  lemma Step(s: string, x: string)
    requires s != ""
    ensures (s + x)[1..] == s[1..] + x
  {
  }

  /** The key, and what follows the colon. */
  lemma KeyValueSplit(m: Pair, s: string) returns (key: string, value: string)
    requires KeyValue(BLANKS, m, s)
    ensures PaddedKey(BLANKS, m.key, key) && Padded(BLANKS, m.value, value) && s == key + (":" + value)
  {
    var n :| 0 <= n < |s| && PaddedKey(BLANKS, m.key, s[..n]) && s[n] == ':' && Padded(BLANKS, m.value, s[n..][1..]);
    key, value := s[..n], s[n..][1..];
    At(s, n);
  }

  lemma At(s: string, n: nat)
    requires n < |s|
    ensures s == s[..n] + ([s[n]] + s[n..][1..])
  {
    assert s == s[..n] + s[n..] && s[n..] == [s[n]] + s[n..][1..];
  }

  lemma {:induction false} KeyValueCancels(m: Pair, n: Pair, s: string, t: string, x: string, y: string)
    requires KeyValue(BLANKS, m, s) && KeyValue(BLANKS, n, t) && Stops(x) && Stops(y) && s + x == t + y
    ensures m == n && s == t
    decreases m, 2
  {
    var k, v := KeyValueSplit(m, s);
    var l, w := KeyValueSplit(n, t);
    Pieces(k, v, x);
    Pieces(l, w, y);
    KeyCancels(m.key, n.key, k, l, ":" + (v + x), ":" + (w + y));
    Advance(k, l, ":" + (v + x), ":" + (w + y));
    Advance(":", ":", v + x, w + y);
    PaddedCancels(m.value, n.value, v, w, x, y);
  }

  lemma Pieces(key: string, value: string, x: string)
    ensures (key + (":" + value)) + x == key + (":" + (value + x))
  {
  }

  lemma KeyValuesSplit(ms: seq<Pair>, s: string, x: string) returns (n: nat)
    requires ms != [] && KeyValues(BLANKS, ms, s) && Closes(x, '}')
    ensures n <= |s| && KeyValue(BLANKS, ms[0], s[..n]) && MoreKeyValues(BLANKS, ms[1..], s[n..])
    ensures s + x == s[..n] + (s[n..] + x) && Stops(s[n..] + x)
  {
    n :| 0 <= n <= |s| && KeyValue(BLANKS, ms[0], s[..n]) && MoreKeyValues(BLANKS, ms[1..], s[n..]);
    Cut(s, n, x);
  }

  lemma SomeKeyValues(ms: seq<Pair>, s: string, x: string, t: string, y: string)
    requires ms != [] && KeyValues(BLANKS, ms, s) && Closes(x, '}') && Only(BLANKS, t) && s + x == t + y
    ensures !Closes(y, '}')
  {
    var n := KeyValuesSplit(ms, s, x);
    var k, v := KeyValueSplit(ms[0], s[..n]);
    Pieces(k, v, s[n..] + x);
    var a := KeyBegins(ms[0].key, k);
    if Closes(y, '}') { NotClosing(k, a, ":" + (v + (s[n..] + x)), t, y); }
  }

  lemma {:induction false} KeyValuesCancel(a: seq<Pair>, b: seq<Pair>, s: string, t: string, x: string, y: string)
    requires KeyValues(BLANKS, a, s) && KeyValues(BLANKS, b, t) && s + x == t + y && Closes(x, '}') && Closes(y, '}')
    ensures a == b && s == t
    decreases a, 3
  {
    if a == [] && b == [] {
      RunCancels(BLANKS, s, t, x, y);
    } else if a == [] {
      SomeKeyValues(b, t, y, s, x);
    } else if b == [] {
      SomeKeyValues(a, s, x, t, y);
    } else {
      var n := KeyValuesSplit(a, s, x);
      var m := KeyValuesSplit(b, t, y);
      KeyValueCancels(a[0], b[0], s[..n], t[..m], s[n..] + x, t[m..] + y);
      Advance(s[..n], t[..m], s[n..] + x, t[m..] + y);
      MoreKeyValuesCancel(a[1..], b[1..], s[n..], t[m..], x, y);
      SameList(a, b);
      SameParts(s, n, t, m);
    }
  }

  lemma {:induction false} MoreKeyValuesCancel(a: seq<Pair>, b: seq<Pair>, s: string, t: string, x: string, y: string)
    requires MoreKeyValues(BLANKS, a, s) && MoreKeyValues(BLANKS, b, t)
    requires s + x == t + y && Closes(x, '}') && Closes(y, '}')
    ensures a == b && s == t
    decreases a, 4
  {
    assert (s + x)[0] == (if a == [] then '}' else ',') && (t + y)[0] == (if b == [] then '}' else ',');
    if a != [] {
      Step(s, x);
      Step(t, y);
      KeyValuesCancel(a, b, s[1..], t[1..], x, y);
      SameList(s, t);
    }
  }

  /** No text has two readings. */
  lemma ReadingUnique(s: string, j: Json, k: Json)
    requires Reads(s, j) && Reads(s, k)
    ensures j == k
  {
    PaddedCancels(j, k, s, s, "", "");
  }
}
