/**
 What the canonical writer writes is JSON: read by the grammar of RFC 8259, the bytes of an
 accepted value spell the JSON value that it stands for, and nothing else.
 */
module CanonicalReading {
  import opened Bytes
  import opened Decimal
  import opened CanonicalNumber
  import opened JsonText
  import opened Utf8
  import opened JsonGrammar
  import opened CanonicalJson
  import CanonicalUnique

  // ---------------------------------------------------------------- text

  const REPLACEMENT: int := 0xFFFD

  /** The code point of a rune; a byte that belongs to none counts as U+FFFD. */
  function Code(u: Unit): int {
    match u
    case Invalid => REPLACEMENT
    case Rune(r) => if |r| == 1 && !IsByte(r[0]) then OUTSIDE + r[0] as int else Payload(r)
  }

  function Codes(us: seq<Unit>): seq<int> { seq(|us|, i requires 0 <= i < |us| => Code(us[i])) }

  lemma HexDigits(n: nat)
    requires n < 16
    ensures HexDigit(Hex(n)) && HexDigitValue(Hex(n)) == n
  {
  }

  lemma AsciiCharacter(c: char)
    requires c as int < 0x80
    ensures Character(c as int, EscapeAscii(c))
  {
    var s := EscapeAscii(c);
    if |s| == 6 {
      HexDigits(c as int / 16);
      HexDigits(c as int % 16);
      assert CodeEscape(c as int, s);
    } else if |s| == 1 {
      assert Encoded(c as int) == [c];
      assert Unescaped(c as int, s);
    } else {
      assert ShortEscape(c as int, s);
    }
  }

  /** Every rune is written as one character of a JSON string, which spells its code point. */
  lemma UnitCharacter(u: Unit)
    requires ValidUnit(u)
    ensures EscapeUnit(u) != "" && Character(Code(u), EscapeUnit(u))
  {
    match u {
      case Invalid => assert CodeEscape(REPLACEMENT, "\\ufffd");
      case Rune(r) =>
        if |r| == 1 {
          RuneCharacter(r);
        } else if r == LINE_SEPARATOR {
          assert Payload(r) == 0x2028 && CodeEscape(0x2028, "\\u2028");
        } else if r == PARAGRAPH_SEPARATOR {
          assert Payload(r) == 0x2029 && CodeEscape(0x2029, "\\u2029");
        } else {
          RuneIsEncoding(r);
          assert Unescaped(Payload(r), r);
        }
    }
  }

  lemma RuneCharacter(r: string)
    requires |r| == 1 && ValidUnit(Rune(r))
    ensures EscapeUnit(Rune(r)) != "" && Character(Code(Rune(r)), EscapeUnit(Rune(r)))
  {
    if IsByte(r[0]) {
      AsciiCharacter(r[0]);
    } else {
      assert EscapeAscii(r[0]) == r && Unescaped(OUTSIDE + r[0] as int, r);
    }
  }

  lemma {:induction false} EscapeReads(us: seq<Unit>)
    requires ValidUnits(us)
    ensures Characters(Codes(us), Escape(us))
  {
    if us != [] {
      var piece, rest := EscapeUnit(us[0]), Escape(us[1..]);
      UnitCharacter(us[0]);
      EscapeReads(us[1..]);
      assert Codes(us)[1..] == Codes(us[1..]);
      var n := |piece|;
      assert (piece + rest)[..n] == piece && (piece + rest)[n..] == rest;
    }
  }

  lemma QuoteReads(us: seq<Unit>)
    requires ValidUnits(us)
    ensures Quoted(Codes(us), QuoteUnits(us))
  {
    EscapeReads(us);
    var s := QuoteUnits(us);
    assert s[1..|s| - 1] == Escape(us);
  }

  // ---------------------------------------------------------------- documents

  function Meaning(d: Doc): Json
    decreases d
  {
    match d
    case Null => JNull
    case Truth(b) => JBool(b)
    case Number(p) => JNumber(PlainValue(p))
    case Runes(us) => JString(Codes(us))
    case Array(items) => JArray(seq(|items|, i requires 0 <= i < |items| => Meaning(items[i])))
    case Object(ms) =>
      JObject(seq(|ms|, i requires 0 <= i < |ms| => Pair(Codes(ms[i].key), Meaning(ms[i].doc))))
  }

  function ItemMeanings(items: seq<Doc>): seq<Json> {
    seq(|items|, i requires 0 <= i < |items| => Meaning(items[i]))
  }

  function MemberMeanings(ms: seq<Member>): seq<Pair> {
    seq(|ms|, i requires 0 <= i < |ms| => Pair(Codes(ms[i].key), Meaning(ms[i].doc)))
  }

  lemma Bare(ws: set<char>, j: Json, s: string)
    requires Spelling(ws, j, s)
    ensures Padded(ws, j, s)
  {
    assert s[..0] == "" && s[0..|s|] == s && s[|s|..] == "";
  }

  lemma BareKey(ws: set<char>, key: seq<int>, s: string)
    requires Quoted(key, s)
    ensures PaddedKey(ws, key, s)
  {
    assert s[..0] == "" && s[0..|s|] == s && s[|s|..] == "";
  }

  /** A printed document reads as what it means. */
  lemma {:induction false} PrintReads(ws: set<char>, d: Doc)
    requires WellFormed(d)
    ensures Spelling(ws, Meaning(d), Print(d))
    decreases d, 0
  {
    match d {
      case Null =>
      case Truth(_) =>
      case Number(p) => PlainSpells(p);
      case Runes(us) => QuoteReads(us);
      case Array(items) =>
        var inner := ItemsRead(ws, items, true);
        Enclosed("[", inner, "]");
        assert Meaning(d).items == ItemMeanings(items);
      case Object(ms) =>
        var inner := MembersRead(ws, ms, true);
        Enclosed("{", inner, "}");
        assert Meaning(d).members == MemberMeanings(ms);
    }
  }

  lemma Enclosed(open: string, inner: string, close: string)
    requires |open| == 1 && |close| == 1
    ensures var s := open + (inner + close);
            |s| >= 2 && s[0] == open[0] && s[|s| - 1] == close[0] && s[1..|s| - 1] == inner
  {
  }

  /** The rest of an array, as far as its bracket. */
  lemma {:induction false} ItemsRead(ws: set<char>, items: seq<Doc>, first: bool) returns (inner: string)
    requires forall i | 0 <= i < |items| :: WellFormed(items[i])
    ensures PrintItems(items, first) == inner + "]"
    ensures if first then Elements(ws, ItemMeanings(items), inner) else MoreElements(ws, ItemMeanings(items), inner)
    decreases items, 1
  {
    if items == [] {
      inner := "";
    } else {
      PrintReads(ws, items[0]);
      Bare(ws, Meaning(items[0]), Print(items[0]));
      var rest := ItemsRead(ws, items[1..], false);
      assert ItemMeanings(items)[1..] == ItemMeanings(items[1..]);
      var text := Print(items[0]) + rest;
      FirstElement(ws, ItemMeanings(items), Print(items[0]), rest);
      inner := if first then text else "," + text;
      Comma(first, Print(items[0]), rest, "]");
      FurtherElements(ws, ItemMeanings(items), text);
    }
  }

  lemma FirstElement(ws: set<char>, items: seq<Json>, head: string, rest: string)
    requires items != [] && Padded(ws, items[0], head) && MoreElements(ws, items[1..], rest)
    ensures Elements(ws, items, head + rest)
  {
    var n := |head|;
    assert (head + rest)[..n] == head && (head + rest)[n..] == rest;
  }

  lemma Comma(first: bool, head: string, rest: string, close: string)
    ensures (if first then "" else ",") + head + (rest + close)
         == (if first then head + rest else "," + (head + rest)) + close
  {
  }

  lemma {:induction false} MemberReads(ws: set<char>, m: Member)
    requires ValidUnits(m.key) && WellFormed(m.doc)
    ensures KeyValue(ws, Pair(Codes(m.key), Meaning(m.doc)), PrintMember(m))
    decreases m, 1
  {
    var key, value := QuoteUnits(m.key), Print(m.doc);
    QuoteReads(m.key);
    BareKey(ws, Codes(m.key), key);
    PrintReads(ws, m.doc);
    Bare(ws, Meaning(m.doc), value);
    ColonJoins(ws, Pair(Codes(m.key), Meaning(m.doc)), key, value);
  }

  lemma ColonJoins(ws: set<char>, m: Pair, key: string, value: string)
    requires PaddedKey(ws, m.key, key) && Padded(ws, m.value, value)
    ensures KeyValue(ws, m, key + (":" + value))
  {
    var s, n := key + (":" + value), |key|;
    assert s[..n] == key && s[n] == ':' && s[n..] == ":" + value && s[n..][1..] == value;
  }

  lemma {:induction false} MembersRead(ws: set<char>, ms: seq<Member>, first: bool) returns (inner: string)
    requires forall i | 0 <= i < |ms| :: ValidUnits(ms[i].key) && WellFormed(ms[i].doc)
    ensures PrintMembers(ms, first) == inner + "}"
    ensures if first then KeyValues(ws, MemberMeanings(ms), inner) else MoreKeyValues(ws, MemberMeanings(ms), inner)
    decreases ms, 2
  {
    if ms == [] {
      inner := "";
    } else {
      MemberReads(ws, ms[0]);
      var rest := MembersRead(ws, ms[1..], false);
      assert MemberMeanings(ms)[1..] == MemberMeanings(ms[1..]);
      var text := PrintMember(ms[0]) + rest;
      FirstMember(ws, MemberMeanings(ms), PrintMember(ms[0]), rest);
      inner := if first then text else "," + text;
      Comma(first, PrintMember(ms[0]), rest, "}");
      FurtherMembers(ws, MemberMeanings(ms), text);
    }
  }

  lemma FurtherElements(ws: set<char>, items: seq<Json>, text: string)
    requires items != [] && Elements(ws, items, text)
    ensures MoreElements(ws, items, "," + text)
  {
    assert ("," + text)[1..] == text;
  }

  lemma FurtherMembers(ws: set<char>, ms: seq<Pair>, text: string)
    requires ms != [] && KeyValues(ws, ms, text)
    ensures MoreKeyValues(ws, ms, "," + text)
  {
    assert ("," + text)[1..] == text;
  }

  lemma FirstMember(ws: set<char>, ms: seq<Pair>, head: string, rest: string)
    requires ms != [] && KeyValue(ws, ms[0], head) && MoreKeyValues(ws, ms[1..], rest)
    ensures KeyValues(ws, ms, head + rest)
  {
    var n := |head|;
    assert (head + rest)[..n] == head && (head + rest)[n..] == rest;
  }

  /** The bytes of a document are a JSON text with no blank in it, and with that reading only. */
  lemma PrintIsJson(d: Doc, j: Json)
    requires WellFormed(d)
    ensures Reads(Print(d), j) <==> j == Meaning(d)
    ensures ReadsCompact(Print(d), Meaning(d))
  {
    PrintReads(BLANKS, d);
    Bare(BLANKS, Meaning(d), Print(d));
    PrintReads({}, d);
    Bare({}, Meaning(d), Print(d));
    if Reads(Print(d), j) { ReadingUnique(Print(d), j, Meaning(d)); }
  }

  // ---------------------------------------------------------------- no markup, no control characters

  predicate Harmless(s: string) { forall i | 0 <= i < |s| :: s[i] >= ' ' && s[i] !in {'<', '>', '&'} }

  lemma UnitHarmless(u: Unit)
    requires ValidUnit(u)
    ensures Harmless(EscapeUnit(u))
  {
    if u.Rune? && |u.bytes| > 1 {
      LongHarmless(u.bytes);
    } else if u.Rune? {
      AsciiHarmless(u.bytes[0]);
    }
  }

  lemma LongHarmless(r: string)
    requires r != "" && RuneLength(r) == |r| > 1
    ensures Harmless(r)
  {
  }

  lemma AsciiHarmless(c: char)
    ensures Harmless(EscapeAscii(c))
  {
  }

  lemma {:induction false} EscapeHarmless(us: seq<Unit>)
    requires ValidUnits(us)
    ensures Harmless(Escape(us)) && Harmless(QuoteUnits(us))
  {
    if us != [] {
      UnitHarmless(us[0]);
      EscapeHarmless(us[1..]);
    }
  }

  /** HTML escaping is on: no printed document holds an angle bracket, an ampersand or a control character. */
  lemma {:induction false} PrintHarmless(d: Doc)
    requires WellFormed(d)
    ensures Harmless(Print(d))
    decreases d, 0
  {
    match d {
      case Null =>
      case Truth(_) =>
      case Number(p) => NumberHarmless(p);
      case Runes(us) => EscapeHarmless(us);
      case Array(items) => ItemsHarmless(items, true);
      case Object(ms) => MembersHarmless(ms, true);
    }
  }

  lemma NumberHarmless(p: Plain)
    requires Normal(p)
    ensures Harmless(PlainText(p))
  {
    CanonicalUnique.PlainTextChars(p);
    assert forall i | 0 <= i < |PlainText(p)| :: PlainText(p)[i] in PlainText(p);
  }

  lemma {:induction false} ItemsHarmless(items: seq<Doc>, first: bool)
    requires forall i | 0 <= i < |items| :: WellFormed(items[i])
    ensures Harmless(PrintItems(items, first))
    decreases items, 1
  {
    if items != [] {
      PrintHarmless(items[0]);
      ItemsHarmless(items[1..], false);
    }
  }

  lemma {:induction false} MembersHarmless(ms: seq<Member>, first: bool)
    requires forall i | 0 <= i < |ms| :: ValidUnits(ms[i].key) && WellFormed(ms[i].doc)
    ensures Harmless(PrintMembers(ms, first))
    decreases ms, 1
  {
    if ms != [] {
      EscapeHarmless(ms[0].key);
      PrintHarmless(ms[0].doc);
      MembersHarmless(ms[1..], false);
    }
  }

  // ---------------------------------------------------------------- values

  /** The JSON value that a value stands for; the members of an object are in byte order of their keys. */
  function JsonOf(v: Value): Json
    decreases v, 1
  {
    match v
    case Ref(t) => JsonOf(t)
    case Time(utc) => JString(Codes(Scan(utc)))
    case Text(s) => JString(Codes(Scan(s)))
    case Bool(b) => JBool(b)
    case Numeral(_) => JNumber(CanonicalUnique.Magnitude(v))
    case Int(_) => JNumber(CanonicalUnique.Magnitude(v))
    case Real(_) => JNumber(CanonicalUnique.Magnitude(v))
    case List(items) => JArray(seq(|items|, i requires 0 <= i < |items| => JsonOf(items[i])))
    case Dict(_) => JsonObject(v)
    case Struct(_) => JsonObject(v)
    case _ => JNull
  }

  function JsonObject(v: Value): Json
    requires v.Dict? || v.Struct?
    decreases v, 0
  {
    var m := Members(v);
    var keys := Sort(m.Keys);
    JObject(seq(|keys|, i requires 0 <= i < |keys| =>
      assert keys[i] in keys; Pair(Codes(Scan(keys[i])), JsonOf(m[keys[i]]))))
  }

  lemma {:induction false} DocumentMeans(v: Value)
    requires Accepted(v)
    ensures Meaning(Document(v)) == JsonOf(v)
    decreases v, 1
  {
    match v {
      case Ref(t) => DocumentMeans(t);
      case Numeral(_) => CanonicalUnique.NumberFormNormal(v);
      case Int(_) => CanonicalUnique.NumberFormNormal(v);
      case Real(_) => CanonicalUnique.NumberFormNormal(v);
      case List(items) =>
        forall i | 0 <= i < |items| ensures Meaning(Document(items[i])) == JsonOf(items[i]) { DocumentMeans(items[i]); }
      case Dict(_) => ObjectMeans(v);
      case Struct(_) => ObjectMeans(v);
      case _ =>
    }
  }

  lemma {:induction false} ObjectMeans(v: Value)
    requires (v.Dict? || v.Struct?) && Accepted(v)
    ensures Meaning(ObjectOf(v)) == JsonObject(v)
    decreases v, 0
  {
    ObjectAccepted(v);
    var m := Members(v);
    forall k | k in m ensures Meaning(Document(m[k])) == JsonOf(m[k]) { DocumentMeans(m[k]); }
    var docs := DocsOf(v, m, Sort(m.Keys));
    var pairs := PairsOf(v, m, Sort(m.Keys));
    PairsMean(m, Sort(m.Keys), docs, pairs);
  }

  lemma DocsOf(v: Value, m: map<string, Value>, keys: seq<string>) returns (docs: seq<Member>)
    requires (v.Dict? || v.Struct?) && m == Members(v) && keys == Sort(m.Keys)
    ensures AllIn(m, keys) && ObjectOf(v) == Object(docs) && |docs| == |keys|
    ensures forall i | 0 <= i < |keys| :: docs[i] == Member(Scan(keys[i]), Document(m[keys[i]]))
  {
    assert forall i | 0 <= i < |keys| :: keys[i] in keys;
    docs := ObjectOf(v).members;
  }

  lemma PairsOf(v: Value, m: map<string, Value>, keys: seq<string>) returns (pairs: seq<Pair>)
    requires (v.Dict? || v.Struct?) && m == Members(v) && keys == Sort(m.Keys)
    ensures AllIn(m, keys) && JsonObject(v) == JObject(pairs) && |pairs| == |keys|
    ensures forall i | 0 <= i < |keys| :: pairs[i] == Pair(Codes(Scan(keys[i])), JsonOf(m[keys[i]]))
  {
    assert forall i | 0 <= i < |keys| :: keys[i] in keys;
    pairs := JsonObject(v).members;
  }

  predicate AllIn(m: map<string, Value>, keys: seq<string>) { forall i | 0 <= i < |keys| :: keys[i] in m }

  lemma PairsMean(m: map<string, Value>, keys: seq<string>, docs: seq<Member>, pairs: seq<Pair>)
    requires AllIn(m, keys) && |docs| == |keys| == |pairs|
    requires forall k | k in m :: Meaning(Document(m[k])) == JsonOf(m[k])
    requires forall i | 0 <= i < |keys| :: docs[i] == Member(Scan(keys[i]), Document(m[keys[i]]))
    requires forall i | 0 <= i < |keys| :: pairs[i] == Pair(Codes(Scan(keys[i])), JsonOf(m[keys[i]]))
    ensures Meaning(Object(docs)) == JObject(pairs)
  {
    forall i | 0 <= i < |keys| ensures MemberMeanings(docs)[i] == pairs[i] {
    }
    assert MemberMeanings(docs) == pairs;
  }

  /** The canonical bytes of an accepted value are a JSON text that spells that value and no other. */
  lemma CanonicalIsJson(v: Value, j: Json)
    requires Accepted(v)
    ensures Reads(Print(Document(v)), j) <==> j == JsonOf(v)
    ensures ReadsCompact(Print(Document(v)), JsonOf(v))
  {
    CanonicalUnique.DocumentWellFormed(v);
    DocumentMeans(v);
    PrintIsJson(Document(v), j);
  }
}
