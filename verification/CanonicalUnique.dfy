/**
 The canonical writer is unambiguous: a document can be read back from its bytes, so two
 accepted values are written alike iff they mean the same document.
 */
module CanonicalUnique {
  import opened Bytes
  import opened Decimal
  import opened Number
  import opened CanonicalNumber
  import opened JsonText
  import opened CanonicalJson

  // ---------------------------------------------------------------- well-formed documents

  lemma {:induction false} DecimalDigitsValue(n: nat)
    ensures IntegerPart(DecimalDigits(n)) && Nat(DecimalDigits(n)) == n
    ensures n > 0 ==> DecimalDigits(n)[0] != '0'
  {
    if n >= 10 {
      DecimalDigitsValue(n / 10);
      var s := DecimalDigits(n);
      assert s[..|s| - 1] == DecimalDigits(n / 10);
    } else {
      assert Nat(DecimalDigits(n)) == 10 * Nat(DecimalDigits(n)[..0]) + n;
    }
  }

  lemma IntFormNormal(i: int)
    ensures Normal(IntForm(i)) && PlainValue(IntForm(i)) == i as real
  {
    var p := IntForm(i);
    DecimalDigitsValue(if i < 0 then -i else i);
    assert p.whole + p.fraction == p.whole;
  }

  /** The real number a numeric value denotes. */
  function Magnitude(v: Value): real {
    match v
    case Numeral(s) => (match ParseNumber(s) case Some(l) => LiteralValue(l) case None => 0.0)
    case Int(i) => i as real
    case Real(Finite(negative, digits, scale)) => Signed(negative, Scaled(Nat(digits), -scale))
    case _ => 0.0
  }

  predicate IsNumber(v: Value) { v.Numeral? || v.Int? || v.Real? }

  lemma NumberFormNormal(v: Value)
    requires IsNumber(v) && Accepted(v)
    ensures Normal(NumberForm(v)) && PlainValue(NumberForm(v)) == Magnitude(v)
  {
    match v {
      case Numeral(s) =>
        ParseSound(s);
        NormalFormCorrect(ParseNumber(s).value);
      case Int(i) => IntFormNormal(i);
      case Real(f) =>
        if f.Finite? {
          LayoutNormal(f.negative, f.digits, f.scale);
        } else {
          ZeroForm(0);
        }
    }
  }

  /** An accepted literal is written as its normal form. */
  lemma ParseAccepted(s: string)
    ensures WriteNumber(s).Some? ==>
              ParseNumber(s).Some? && WriteNumber(s).value == PlainText(NormalForm(ParseNumber(s).value))
  {
    if WriteNumber(s).Some? {
      ParseSound(s);
      WriteNumberExact(s, ParseNumber(s).value);
    }
  }

  lemma {:induction false} DocumentWellFormed(v: Value)
    requires Accepted(v)
    ensures WellFormed(Document(v))
    decreases v
  {
    match v {
      case Ref(t) => DocumentWellFormed(t);
      case Time(s) => ScanValid(s);
      case Text(s) => ScanValid(s);
      case Numeral(_) => NumberFormNormal(v);
      case Int(_) => NumberFormNormal(v);
      case Real(_) => NumberFormNormal(v);
      case List(items) =>
        forall i | 0 <= i < |items| ensures WellFormed(Document(items[i])) { DocumentWellFormed(items[i]); }
      case Dict(_) => ObjectWellFormed(v);
      case Struct(_) => ObjectWellFormed(v);
      case _ =>
    }
  }

  lemma {:induction false} ObjectWellFormed(v: Value)
    requires (v.Dict? || v.Struct?) && Accepted(v)
    ensures WellFormed(ObjectOf(v))
    decreases v, 0
  {
    var m := Members(v);
    var keys := Sort(m.Keys);
    forall i | 0 <= i < |keys|
      ensures ValidUnits(Scan(keys[i])) && keys[i] in m && WellFormed(Document(m[keys[i]]))
    {
      ScanValid(keys[i]);
      assert keys[i] in keys;
      DocumentWellFormed(m[keys[i]]);
    }
  }

  // ---------------------------------------------------------------- reading a document back

  predicate NumberChar(c: char) { IsDigit(c) || c == '-' || c == '.' }

  /** What may follow a value: nothing that could continue a number. */
  predicate Boundary(rest: string) { rest == "" || !NumberChar(rest[0]) }

  lemma {:induction false} NumberRunCancels(s: string, t: string, x: string, y: string)
    requires (forall c | c in s :: NumberChar(c)) && (forall c | c in t :: NumberChar(c))
    requires Boundary(x) && Boundary(y) && s + x == t + y
    ensures s == t && x == y
  {
    assert s != "" ==> (s + x)[0] == s[0] && s[0] in s;
    assert t != "" ==> (t + y)[0] == t[0] && t[0] in t;
    if s == "" || t == "" {
      assert s + x == x || t + y == y;
    } else {
      assert (s + x)[0] == s[0] == t[0];
      assert (s + x)[1..] == s[1..] + x && (t + y)[1..] == t[1..] + y;
      NumberRunCancels(s[1..], t[1..], x, y);
      assert s == [s[0]] + s[1..] && t == [t[0]] + t[1..];
    }
  }

  lemma PlainTextChars(p: Plain)
    requires Normal(p)
    ensures forall c | c in PlainText(p) :: NumberChar(c)
    ensures PlainText(p) != "" && NumberChar(PlainText(p)[0])
  {
    var s := PlainText(p);
    forall i | 0 <= i < |s| ensures NumberChar(s[i]) {
    }
  }

  lemma PlainCancels(p: Plain, q: Plain, x: string, y: string)
    requires Normal(p) && Normal(q) && Boundary(x) && Boundary(y)
    requires PlainText(p) + x == PlainText(q) + y
    ensures p == q && x == y
  {
    PlainTextChars(p);
    PlainTextChars(q);
    NumberRunCancels(PlainText(p), PlainText(q), x, y);
    PlainTextInjective(p, q);
  }

  /** The first character tells which kind of document follows. */
  function Kind(c: char): nat {
    match c
    case 'n' => 0
    case 't' => 1
    case 'f' => 2
    case '"' => 3
    case '[' => 4
    case '{' => 5
    case _ => 6
  }

  function DocKind(d: Doc): nat {
    match d
    case Null => 0
    case Truth(b) => if b then 1 else 2
    case Runes(_) => 3
    case Array(_) => 4
    case Object(_) => 5
    case Number(_) => 6
  }

  lemma PrintKind(d: Doc)
    requires WellFormed(d)
    ensures Print(d) != "" && Kind(Print(d)[0]) == DocKind(d)
  {
    if d.Number? { PlainTextChars(d.plain); }
  }

  lemma Advance(a: string, b: string, x: string, y: string)
    requires |a| == |b| && a + x == b + y
    ensures a == b && x == y
  {
    assert (a + x)[..|a|] == a && (b + y)[..|b|] == b;
    assert (a + x)[|a|..] == x && (b + y)[|b|..] == y;
  }

  /** A document can be read off the front of a text, and in one way only. */
  lemma {:induction false} PrintCancels(d: Doc, e: Doc, x: string, y: string)
    requires WellFormed(d) && WellFormed(e) && Boundary(x) && Boundary(y)
    requires Print(d) + x == Print(e) + y
    ensures d == e && x == y
    decreases d, 0
  {
    SameKind(d, e, x, y);
    match d {
      case Null => Advance(Print(d), Print(e), x, y);
      case Truth(b) => Advance(Print(d), Print(e), x, y);
      case Number(p) => PlainCancels(p, e.plain, x, y);
      case Runes(us) => QuoteUnitsCancel(us, e.units, x, y);
      case Array(items) =>
        Shift("[", PrintItems(items, true), PrintItems(e.items, true), x, y);
        ItemsCancel(items, e.items, true, x, y);
      case Object(ms) =>
        Shift("{", PrintMembers(ms, true), PrintMembers(e.members, true), x, y);
        MembersCancel(ms, e.members, true, x, y);
    }
  }

  lemma SameKind(d: Doc, e: Doc, x: string, y: string)
    requires WellFormed(d) && WellFormed(e) && Print(d) + x == Print(e) + y
    ensures DocKind(d) == DocKind(e)
  {
    PrintKind(d);
    PrintKind(e);
    assert (Print(d) + x)[0] == Print(d)[0] && (Print(e) + y)[0] == Print(e)[0];
  }

  lemma Shift(open: string, a: string, b: string, x: string, y: string)
    requires (open + a) + x == (open + b) + y
    ensures a + x == b + y
  {
    assert (open + a) + x == open + (a + x) && (open + b) + y == open + (b + y);
    Advance(open, open, a + x, b + y);
  }

  /** The first item of an array, after its comma, and the rest. */
  lemma ItemsStep(items: seq<Doc>, first: bool, x: string)
    requires items != [] ==> WellFormed(items[0])
    ensures items == [] ==> PrintItems(items, first) + x == "]" + x
    ensures items != [] ==>
              && PrintItems(items, first) + x
                 == (if first then "" else ",") + (Print(items[0]) + (PrintItems(items[1..], false) + x))
              && (PrintItems(items, first) + x)[0] != ']'
  {
    if items != [] {
      PrintKind(items[0]);
      Joined(if first then "" else ",", Print(items[0]), PrintItems(items[1..], false), x);
    }
  }

  lemma Joined(comma: string, a: string, rest: string, x: string)
    ensures (comma + a + rest) + x == comma + (a + (rest + x))
    ensures a != "" ==> ((comma + a + rest) + x)[0] == (if comma == "" then a[0] else comma[0])
  {
    assert (comma + a + rest) + x == comma + (a + (rest + x));
  }

  lemma ItemsBoundary(items: seq<Doc>, x: string)
    ensures Boundary(PrintItems(items, false) + x)
  {
    assert PrintItems(items, false)[0] == if items == [] then ']' else ',';
  }

  lemma {:induction false} ItemsCancel(a: seq<Doc>, b: seq<Doc>, first: bool, x: string, y: string)
    requires forall i | 0 <= i < |a| :: WellFormed(a[i])
    requires forall i | 0 <= i < |b| :: WellFormed(b[i])
    requires PrintItems(a, first) + x == PrintItems(b, first) + y
    ensures a == b && x == y
    decreases a, 1
  {
    ItemsStep(a, first, x);
    ItemsStep(b, first, y);
    if a == [] {
      Advance("]", "]", x, y);
    } else {
      var comma := if first then "" else ",";
      var restA, restB := PrintItems(a[1..], false) + x, PrintItems(b[1..], false) + y;
      Advance(comma, comma, Print(a[0]) + restA, Print(b[0]) + restB);
      ItemsBoundary(a[1..], x);
      ItemsBoundary(b[1..], y);
      PrintCancels(a[0], b[0], restA, restB);
      ItemsCancel(a[1..], b[1..], false, x, y);
      assert a == [a[0]] + a[1..] && b == [b[0]] + b[1..];
    }
  }

  predicate WellFormedMember(m: Member) { ValidUnits(m.key) && WellFormed(m.doc) }

  lemma MembersStep(ms: seq<Member>, first: bool, x: string)
    ensures ms == [] ==> PrintMembers(ms, first) + x == "}" + x
    ensures ms != [] ==>
              && PrintMembers(ms, first) + x
                 == (if first then "" else ",") + (PrintMember(ms[0]) + (PrintMembers(ms[1..], false) + x))
              && (PrintMembers(ms, first) + x)[0] != '}'
  {
    if ms != [] { Joined(if first then "" else ",", PrintMember(ms[0]), PrintMembers(ms[1..], false), x); }
  }

  lemma MembersBoundary(ms: seq<Member>, x: string)
    ensures Boundary(PrintMembers(ms, false) + x)
  {
    assert PrintMembers(ms, false)[0] == if ms == [] then '}' else ',';
  }

  lemma {:induction false} MemberCancels(m: Member, n: Member, x: string, y: string)
    requires WellFormedMember(m) && WellFormedMember(n) && Boundary(x) && Boundary(y)
    requires PrintMember(m) + x == PrintMember(n) + y
    ensures m == n && x == y
    decreases m, 1
  {
    var a, b := ":" + Print(m.doc), ":" + Print(n.doc);
    assert PrintMember(m) + x == QuoteUnits(m.key) + (a + x);
    assert PrintMember(n) + y == QuoteUnits(n.key) + (b + y);
    QuoteUnitsCancel(m.key, n.key, a + x, b + y);
    Shift(":", Print(m.doc), Print(n.doc), x, y);
    PrintCancels(m.doc, n.doc, x, y);
  }

  lemma {:induction false} MembersCancel(a: seq<Member>, b: seq<Member>, first: bool, x: string, y: string)
    requires forall i | 0 <= i < |a| :: WellFormedMember(a[i])
    requires forall i | 0 <= i < |b| :: WellFormedMember(b[i])
    requires PrintMembers(a, first) + x == PrintMembers(b, first) + y
    ensures a == b && x == y
    decreases a, 2
  {
    MembersStep(a, first, x);
    MembersStep(b, first, y);
    if a == [] {
      Advance("}", "}", x, y);
    } else {
      var comma := if first then "" else ",";
      var restA, restB := PrintMembers(a[1..], false) + x, PrintMembers(b[1..], false) + y;
      Advance(comma, comma, PrintMember(a[0]) + restA, PrintMember(b[0]) + restB);
      MembersBoundary(a[1..], x);
      MembersBoundary(b[1..], y);
      MemberCancels(a[0], b[0], restA, restB);
      MembersCancel(a[1..], b[1..], false, x, y);
      assert a == [a[0]] + a[1..] && b == [b[0]] + b[1..];
    }
  }

  /** Two accepted values have the same canonical bytes iff they mean the same document. */
  lemma CanonicalUnambiguous(v: Value, w: Value)
    requires Accepted(v) && Accepted(w)
    ensures Print(Document(v)) == Print(Document(w)) <==> Document(v) == Document(w)
  {
    DocumentWellFormed(v);
    DocumentWellFormed(w);
    if Print(Document(v)) == Print(Document(w)) {
      PrintCancels(Document(v), Document(w), "", "");
    }
  }
}
