/**
 Archive keys (internal/archive/archive_secure_common.go, `validateArchiveKey` and
 `checkKeyLength`, and internal/service/archive_fallback.go, `eventArchiveKey`): lexical
 containment of a key, and the injective layout of event keys.
 */
module ArchiveKey {
  import opened Bytes
  import opened Decimal
  import opened CanonicalJson
  import opened CanonicalUnique
  import opened KeyFraming

  // ---------------------------------------------------------------- splitting at slashes

  /** `strings.Split(s, "/")` */
  function Split(s: string): (parts: seq<string>)
    ensures parts != []
  {
    if s == "" then [""]
    else
      var rest := Split(s[1..]);
      if s[0] == '/' then [""] + rest else [[s[0]] + rest[0]] + rest[1..]
  }

  /** `strings.Join(parts, "/")` */
  function Join(parts: seq<string>): string {
    if parts == [] then "" else if |parts| == 1 then parts[0] else parts[0] + "/" + Join(parts[1..])
  }

  predicate NoSlash(parts: seq<string>) { forall i | 0 <= i < |parts| :: '/' !in parts[i] }

  lemma {:induction false} SplitNoSlash(s: string)
    ensures NoSlash(Split(s))
  {
    if s != "" { SplitNoSlash(s[1..]); }
  }

  lemma {:induction false} SplitWord(w: string)
    requires '/' !in w
    ensures Split(w) == [w]
  {
    if w != "" {
      assert w[0] in w;
      assert forall c | c in w[1..] :: c in w;
      SplitWord(w[1..]);
      assert [w[0]] + w[1..] == w;
    }
  }

  lemma {:induction false} SplitWordSlash(w: string, rest: string)
    requires '/' !in w
    ensures Split(w + "/" + rest) == [w] + Split(rest)
  {
    var s := w + "/" + rest;
    if w == "" {
      assert s[1..] == rest;
    } else {
      assert w[0] in w;
      assert forall c | c in w[1..] :: c in w;
      assert s[1..] == w[1..] + "/" + rest;
      SplitWordSlash(w[1..], rest);
      assert [w[0]] + w[1..] == w;
      assert ([w[1..]] + Split(rest))[1..] == Split(rest);
    }
  }

  /** Splitting undoes joining. */
  lemma {:induction false} SplitJoin(parts: seq<string>)
    requires parts != [] && NoSlash(parts)
    ensures Split(Join(parts)) == parts
  {
    if |parts| == 1 {
      SplitWord(parts[0]);
      assert parts == [parts[0]];
    } else {
      SplitJoin(parts[1..]);
      SplitWordSlash(parts[0], Join(parts[1..]));
      assert parts == [parts[0]] + parts[1..];
    }
  }

  // ---------------------------------------------------------------- cleaning

  /** The effect of the components from left to right on the components kept so far. */
  function Resolve(parts: seq<string>, rooted: bool): seq<string> {
    if parts == [] then []
    else
      var kept, last := Resolve(parts[..|parts| - 1], rooted), parts[|parts| - 1];
      if last == "" || last == "." then kept
      else if last != ".." then kept + [last]
      else if kept != [] && kept[|kept| - 1] != ".." then kept[..|kept| - 1]
      else if rooted then kept
      else kept + [".."]
  }

  /** `filepath.Clean` on Linux. */
  function Clean(path: string): string {
    var rooted := path != "" && path[0] == '/';
    var kept := Resolve(Split(path), rooted);
    if rooted then "/" + Join(kept) else if kept == [] then "." else Join(kept)
  }

  /** The cleaned key, or None when the key escapes the archive directory. */
  function ValidateArchiveKey(dir: string, key: string): Option<string> {
    if dir == "" then None
    else
      var clean := Clean(key);
      if clean == "." || (clean != "" && clean[0] == '/') || clean == ".." || "../" <= clean then None else Some(clean)
  }

  predicate Component(c: string) { c != "" && c != "." && c != ".." && '/' !in c }

  /** What cleaning keeps: climbs first, then proper components. */
  predicate Climbing(kept: seq<string>, n: nat) {
    && n <= |kept| && (forall i | 0 <= i < n :: kept[i] == "..") && forall i | n <= i < |kept| :: Component(kept[i])
  }

  lemma {:induction false} ResolveShape(parts: seq<string>, rooted: bool) returns (n: nat)
    requires NoSlash(parts)
    ensures Climbing(Resolve(parts, rooted), n)
  {
    if parts == [] {
      n := 0;
    } else {
      n := ResolveShape(parts[..|parts| - 1], rooted);
      var kept, last := Resolve(parts[..|parts| - 1], rooted), parts[|parts| - 1];
      if last == ".." && (kept == [] || kept[|kept| - 1] == "..") && !rooted {
        assert n == |kept|;
        n := n + 1;
      }
    }
  }

  lemma JoinHead(parts: seq<string>)
    requires parts != []
    ensures parts[0] <= Join(parts)
    ensures |parts| > 1 ==> parts[0] + "/" <= Join(parts)
  {
  }

  /** An accepted key is exactly a relative one that keeps something and does not begin by climbing. */
  lemma AcceptedIff(dir: string, key: string)
    ensures var rooted := key != "" && key[0] == '/';
            var kept := Resolve(Split(key), rooted);
            && (ValidateArchiveKey(dir, key).Some? <==> dir != "" && !rooted && kept != [] && kept[0] != "..")
            && (ValidateArchiveKey(dir, key).Some? ==> ValidateArchiveKey(dir, key).value == Join(kept))
  {
    var rooted := key != "" && key[0] == '/';
    var kept := Resolve(Split(key), rooted);
    SplitNoSlash(key);
    var n := ResolveShape(Split(key), rooted);
    if !rooted && kept != [] {
      JoinHead(kept);
      HeadTells(kept, n);
    }
  }

  lemma ClimbingPrefix(s: string)
    requires "../" <= s
    ensures s == ".." + "/" + s[3..]
  {
    assert s[..3] == "../" == ".." + "/";
    assert s == s[..3] + s[3..];
  }

  lemma HeadTells(kept: seq<string>, n: nat)
    requires kept != [] && Climbing(kept, n)
    ensures var clean := Join(kept);
            && clean != "" && clean != "." && clean[0] != '/'
            && (kept[0] == ".." <==> clean == ".." || "../" <= clean)
  {
    var clean := Join(kept);
    SplitJoin(kept);
    SplitWord("");
    SplitWord(".");
    SplitWord("..");
    JoinHead(kept);
    if "../" <= clean {
      ClimbingPrefix(clean);
      SplitWordSlash("..", clean[3..]);
    }
  }

  /** An accepted key cleans to a path of proper components, so it stays under the archive directory. */
  lemma AcceptedIsContained(dir: string, key: string)
    requires ValidateArchiveKey(dir, key).Some?
    ensures var parts := Split(ValidateArchiveKey(dir, key).value);
            parts != [] && forall i | 0 <= i < |parts| :: Component(parts[i])
  {
    AcceptedIff(dir, key);
    SplitNoSlash(key);
    var kept := Resolve(Split(key), false);
    var n := ResolveShape(Split(key), false);
    assert n == 0;
    SplitJoin(kept);
  }

  lemma {:induction false} ResolveProper(parts: seq<string>)
    requires forall i | 0 <= i < |parts| :: Component(parts[i])
    ensures Resolve(parts, false) == parts
  {
    if parts != [] {
      ResolveProper(parts[..|parts| - 1]);
      assert parts == parts[..|parts| - 1] + [parts[|parts| - 1]];
    }
  }

  /** A key made of proper components is accepted as it stands. */
  lemma ProperAccepted(dir: string, parts: seq<string>)
    requires dir != "" && parts != [] && forall i | 0 <= i < |parts| :: Component(parts[i])
    ensures ValidateArchiveKey(dir, Join(parts)) == Some(Join(parts))
  {
    SplitJoin(parts);
    ResolveProper(parts);
    HeadTells(parts, 0);
    AcceptedIff(dir, Join(parts));
  }

  // ---------------------------------------------------------------- encoded components

  function EncodeAll(xs: seq<string>): seq<string> { seq(|xs|, i requires 0 <= i < |xs| => Encode(xs[i])) }

  /** Joined encoded components are accepted unchanged. */
  lemma EncodedAccepted(dir: string, xs: seq<string>)
    requires dir != "" && xs != []
    ensures ValidateArchiveKey(dir, Join(EncodeAll(xs))) == Some(Join(EncodeAll(xs)))
  {
    forall i | 0 <= i < |xs| ensures Component(EncodeAll(xs)[i]) { EncodeShape(xs[i]); }
    ProperAccepted(dir, EncodeAll(xs));
  }

  /** And different lists give different keys. */
  lemma EncodedInjective(xs: seq<string>, ys: seq<string>)
    requires xs != [] && ys != []
    requires (forall i | 0 <= i < |xs| :: IsBytes(xs[i])) && forall i | 0 <= i < |ys| :: IsBytes(ys[i])
    ensures Join(EncodeAll(xs)) == Join(EncodeAll(ys)) <==> xs == ys
  {
    if Join(EncodeAll(xs)) == Join(EncodeAll(ys)) {
      forall i | 0 <= i < |xs| ensures '/' !in EncodeAll(xs)[i] { EncodeShape(xs[i]); }
      forall i | 0 <= i < |ys| ensures '/' !in EncodeAll(ys)[i] { EncodeShape(ys[i]); }
      SplitJoin(EncodeAll(xs));
      SplitJoin(EncodeAll(ys));
      assert |xs| == |EncodeAll(xs)| == |EncodeAll(ys)| == |ys|;
      forall i | 0 <= i < |xs| ensures xs[i] == ys[i] {
        assert EncodeAll(xs)[i] == EncodeAll(ys)[i];
        EncodeInjective(xs[i], ys[i]);
      }
    }
  }

  // ---------------------------------------------------------------- lengths

  const MAX_KEY_BYTES: nat := 1024
  const MAX_COMPONENT_BYTES: nat := 255
  const MAX_ARCHIVE_COMPONENT_BYTES: nat := 85

  /** `checkKeyLength` */
  predicate KeyLengthOk(key: string) {
    |key| <= MAX_KEY_BYTES && var parts := Split(key); forall i | 0 <= i < |parts| :: |parts[i]| <= MAX_COMPONENT_BYTES
  }

  /** A component within the archive bound still fits a path component when every byte is escaped. */
  lemma ComponentFits(x: string)
    requires |x| <= MAX_ARCHIVE_COMPONENT_BYTES
    ensures |Encode(x)| <= MAX_COMPONENT_BYTES
  {
    EncodeShape(x);
  }

  // ---------------------------------------------------------------- event keys

  /** A 64-bit integer. */
  predicate IsInt64(n: int) { -0x8000_0000_0000_0000 <= n < 0x8000_0000_0000_0000 }

  function Filled(m: nat, width: nat): string {
    var d := DecimalDigits(m);
    Zeros(if |d| <= width then width - |d| else 0) + d
  }

  /** `%020d`: sign and digits, filled with zeroes to twenty characters. */
  function Padded(n: int): string { if n < 0 then "-" + Filled(-n, 19) else Filled(n, 20) }

  function FileName(sequence: int, eventID: string): string { Padded(sequence) + "-" + Encode(eventID) + ".json" }

  /** `eventArchiveKey` */
  function EventArchiveKey(tenantID: string, streamID: string, sequence: int, eventID: string): string {
    Join(["events", Encode(tenantID), Encode(streamID), FileName(sequence, eventID)])
  }

  lemma DigitsWidth(n: nat)
    requires n <= 0x8000_0000_0000_0000
    ensures |DecimalDigits(n)| <= 19
  {
    DecimalDigitsValue(n);
    var d := DecimalDigits(n);
    if |d| > 19 {
      NatLower(d);
      Pow10Monotone(19, |d| - 1);
      TenToNineteen();
      assert false;
    }
  }

  lemma TenToNineteen()
    ensures Pow10(19) == 10_000_000_000_000_000_000
  {
    assert Pow10(5) == 100_000;
    Pow10Add(5, 5);
    Pow10Add(10, 5);
    assert Pow10(4) == 10_000;
    Pow10Add(15, 4);
  }

  lemma FilledShape(m: nat, width: nat)
    requires m <= 0x8000_0000_0000_0000 && width >= 19
    ensures var f := Filled(m, width); |f| == width && AllDigits(f) && Nat(f) == m
  {
    DigitsWidth(m);
    DecimalDigitsValue(m);
    ZerosBefore(width - |DecimalDigits(m)|, DecimalDigits(m));
  }

  lemma ZerosBefore(n: nat, d: string)
    requires AllDigits(d)
    ensures AllDigits(Zeros(n) + d) && Nat(Zeros(n) + d) == Nat(d)
  {
    NatConcat(Zeros(n), d);
    NatZeros(n);
  }

  lemma PaddedShape(n: int)
    requires IsInt64(n)
    ensures |Padded(n)| == 20 && forall i | 0 <= i < 20 :: Padded(n)[i] == '-' || IsDigit(Padded(n)[i])
  {
    if n < 0 { FilledShape(-n, 19); } else { FilledShape(n, 20); }
  }

  lemma PaddedSign(n: int)
    requires IsInt64(n)
    ensures Padded(n) != "" && (Padded(n)[0] == '-' <==> n < 0)
  {
    if n >= 0 { FilledShape(n, 20); }
  }

  lemma PaddedInjective(m: int, n: int)
    requires IsInt64(m) && IsInt64(n) && Padded(m) == Padded(n)
    ensures m == n
  {
    PaddedSign(m);
    PaddedSign(n);
    if m < 0 {
      assert Padded(m)[1..] == Filled(-m, 19) && Padded(n)[1..] == Filled(-n, 19);
      FilledShape(-m, 19);
      FilledShape(-n, 19);
    } else {
      FilledShape(m, 20);
      FilledShape(n, 20);
    }
  }

  lemma FileNameShape(sequence: int, eventID: string)
    requires IsInt64(sequence)
    ensures Component(FileName(sequence, eventID)) && |FileName(sequence, eventID)| == 26 + |Encode(eventID)|
  {
    PaddedShape(sequence);
    EncodeShape(eventID);
    var p, e := Padded(sequence), Encode(eventID);
    assert '/' !in p;
    assert '/' !in p + "-" + e + ".json";
  }

  lemma FileNameInjective(m: int, n: int, x: string, y: string)
    requires IsInt64(m) && IsInt64(n) && IsBytes(x) && IsBytes(y)
    ensures FileName(m, x) == FileName(n, y) ==> m == n && x == y
  {
    PaddedShape(m);
    PaddedShape(n);
    var f := FileName(m, x);
    if f == FileName(n, y) {
      assert f[..20] == Padded(m) && f[..20] == Padded(n);
      PaddedInjective(m, n);
      assert f[21..|f| - 5] == Encode(x) && f[21..|f| - 5] == Encode(y);
      EncodeInjective(x, y);
    }
  }

  function EventParts(tenantID: string, streamID: string, sequence: int, eventID: string): seq<string> {
    ["events", Encode(tenantID), Encode(streamID), FileName(sequence, eventID)]
  }

  lemma EventPartsProper(tenantID: string, streamID: string, sequence: int, eventID: string)
    requires IsInt64(sequence)
    ensures forall i | 0 <= i < 4 :: Component(EventParts(tenantID, streamID, sequence, eventID)[i])
    ensures Split(EventArchiveKey(tenantID, streamID, sequence, eventID))
         == EventParts(tenantID, streamID, sequence, eventID)
  {
    EncodeShape(tenantID);
    EncodeShape(streamID);
    FileNameShape(sequence, eventID);
    assert Component("events");
    SplitJoin(EventParts(tenantID, streamID, sequence, eventID));
  }

  /** An event key is accepted as it stands, and names its tenant, stream, sequence and event and no other. */
  lemma EventKeyInjective(t: string, st: string, m: int, e: string, t': string, st': string, m': int, e': string)
    requires IsInt64(m) && IsInt64(m')
    requires IsBytes(t) && IsBytes(st) && IsBytes(e) && IsBytes(t') && IsBytes(st') && IsBytes(e')
    ensures EventArchiveKey(t, st, m, e) == EventArchiveKey(t', st', m', e') <==>
        t == t' && st == st' && m == m' && e == e'
  {
    EventPartsProper(t, st, m, e);
    EventPartsProper(t', st', m', e');
    if EventArchiveKey(t, st, m, e) == EventArchiveKey(t', st', m', e') {
      var a, b := EventParts(t, st, m, e), EventParts(t', st', m', e');
      assert a[1] == b[1] && a[2] == b[2] && a[3] == b[3];
      EncodeInjective(t, t');
      EncodeInjective(st, st');
      FileNameInjective(m, m', e, e');
    }
  }

  function SignedValue(s: string): int
    requires s != ""
  {
    if s[0] == '-' then -(Nat(s[1..]) as int) else Nat(s)
  }

  lemma PaddedValue(n: int)
    requires IsInt64(n)
    ensures |Padded(n)| == 20 && SignedValue(Padded(n)) == n
  {
    PaddedShape(n);
    PaddedSign(n);
    if n < 0 {
      FilledShape(-n, 19);
      assert Padded(n)[1..] == Filled(-n, 19);
    } else {
      FilledShape(n, 20);
    }
  }

  /** A file name gives back its sequence and event. */
  lemma FileNameReadsBack(m: int, e: string)
    requires IsInt64(m) && IsBytes(e)
    ensures var f := FileName(m, e);
            && |f| >= 26 && SignedValue(f[..20]) == m && f[20] == '-' && Decode(f[21..|f| - 5]) == Some(e)
            && f[|f| - 5..] == ".json"
  {
    PaddedValue(m);
    RoundTrip(e);
    var f := FileName(m, e);
    assert f[..20] == Padded(m) && f[21..|f| - 5] == Encode(e);
  }

  /** From a key its tenant, stream, sequence and event can be read, each at its own place. */
  lemma EventKeyReadsBack(t: string, st: string, m: int, e: string)
    requires IsInt64(m) && IsBytes(t) && IsBytes(st) && IsBytes(e)
    ensures var p := Split(EventArchiveKey(t, st, m, e));
            && |p| == 4 && p[0] == "events" && Decode(p[1]) == Some(t) && Decode(p[2]) == Some(st)
            && |p[3]| >= 26 && SignedValue(p[3][..20]) == m && p[3][20] == '-'
            && Decode(p[3][21..|p[3]| - 5]) == Some(e) && p[3][|p[3]| - 5..] == ".json"
  {
    EventPartsProper(t, st, m, e);
    RoundTrip(t);
    RoundTrip(st);
    FileNameReadsBack(m, e);
  }

  lemma {:induction false} LessAfter(p: string, a: string, b: string)
    requires Less(a, b)
    ensures Less(p + a, p + b)
  {
    if p == "" {
      assert p + a == a && p + b == b;
    } else {
      LessAfter(p[1..], a, b);
      assert (p + a)[1..] == p[1..] + a && (p + b)[1..] == p[1..] + b;
    }
  }

  lemma LeadingDigit(s: string)
    requires AllDigits(s) && s != ""
    ensures Nat(s) == DigitValue(s[0]) * Pow10(|s| - 1) + Nat(s[1..]) && Nat(s[1..]) < Pow10(|s| - 1)
  {
    assert s == [s[0]] + s[1..];
    NatConcat([s[0]], s[1..]);
    NatBound(s[1..]);
    OneDigit(s[0]);
  }

  lemma OneDigit(c: char)
    ensures Nat([c]) == DigitValue(c)
  {
    assert [c][..0] == "";
  }

  lemma LargerDigit(c: nat, d: nat, p: nat, x: nat, y: nat)
    requires c * p + x < d * p + y && x < p && y < p
    ensures c <= d
  {
    if c > d { WholeStep(c, d, p); }
  }

  lemma WholeStep(c: nat, d: nat, p: nat)
    requires c > d
    ensures c * p >= d * p + p
  {
    assert c * p == d * p + (c - d) * p;
    assert (c - d) * p == (c - d - 1) * p + p;
  }

  /** Numbers of one width are in the order of their digits. */
  lemma {:induction false} DigitsOrder(a: string, b: string, x: string, y: string)
    requires AllDigits(a) && AllDigits(b) && |a| == |b| && Nat(a) < Nat(b)
    ensures Less(a + x, b + y)
  {
    if a != "" {
      LeadingDigit(a);
      LeadingDigit(b);
      LargerDigit(DigitValue(a[0]), DigitValue(b[0]), Pow10(|a| - 1), Nat(a[1..]), Nat(b[1..]));
      assert IsDigit(a[0]) && IsDigit(b[0]);
      if a[0] == b[0] {
        DigitsOrder(a[1..], b[1..], x, y);
        assert (a + x)[1..] == a[1..] + x && (b + y)[1..] == b[1..] + y;
      }
    }
  }

  lemma FileNameParts(m: int, x: string)
    ensures FileName(m, x) == Padded(m) + ("-" + Encode(x) + ".json")
  {
    Regroup(Padded(m), "-", Encode(x), ".json");
  }

  lemma Regroup(a: string, b: string, c: string, d: string)
    ensures a + b + c + d == a + (b + c + d)
  {
  }

  /** The keys of a stream's events are in the byte order of their sequences. */
  lemma KeysInSequence(t: string, st: string, m: int, n: int, x: string, y: string)
    requires IsInt64(m) && IsInt64(n) && 0 <= m < n
    ensures Less(EventArchiveKey(t, st, m, x), EventArchiveKey(t, st, n, y))
  {
    FilledShape(m, 20);
    FilledShape(n, 20);
    FileNameParts(m, x);
    FileNameParts(n, y);
    DigitsOrder(Padded(m), Padded(n), "-" + Encode(x) + ".json", "-" + Encode(y) + ".json");
    JoinAbove("events", Encode(t), Encode(st), FileName(m, x));
    JoinAbove("events", Encode(t), Encode(st), FileName(n, y));
    LessAfter(Above("events", Encode(t), Encode(st)), FileName(m, x), FileName(n, y));
  }

  /** Three components, each with its slash. */
  function Above(a: string, b: string, c: string): string { a + "/" + (b + "/" + (c + "/")) }

  lemma JoinAbove(a: string, b: string, c: string, d: string)
    ensures Join([a, b, c, d]) == Above(a, b, c) + d
  {
    assert [a, b, c, d][1..] == [b, c, d] && [b, c, d][1..] == [c, d] && [c, d][1..] == [d];
    assert Join([c, d]) == c + "/" + d;
    assert Join([b, c, d]) == b + "/" + (c + "/" + d);
  }

  lemma EventKeyContained(dir: string, t: string, st: string, m: int, e: string)
    requires dir != "" && IsInt64(m)
    ensures ValidateArchiveKey(dir, EventArchiveKey(t, st, m, e)) == Some(EventArchiveKey(t, st, m, e))
  {
    EventPartsProper(t, st, m, e);
    ProperAccepted(dir, EventParts(t, st, m, e));
  }

  lemma JoinFour(a: string, b: string, c: string, d: string)
    ensures |Join([a, b, c, d])| == |a| + |b| + |c| + |d| + 3
  {
    assert [a, b, c, d][1..] == [b, c, d] && [b, c, d][1..] == [c, d] && [c, d][1..] == [d];
    assert |Join([d])| == |d|;
    assert |Join([c, d])| == |c| + 1 + |Join([d])|;
    assert |Join([b, c, d])| == |b| + 1 + |Join([c, d])|;
  }

  /** Exactly which event keys are short enough: the file name adds 26 bytes to the encoded event id. */
  lemma EventKeyFitsIff(t: string, st: string, m: int, e: string)
    requires IsInt64(m)
    ensures KeyLengthOk(EventArchiveKey(t, st, m, e)) <==>
              |Encode(t)| <= MAX_COMPONENT_BYTES && |Encode(st)| <= MAX_COMPONENT_BYTES
                  && |Encode(e)| <= MAX_COMPONENT_BYTES - 26
  {
    EventPartsProper(t, st, m, e);
    FileNameShape(m, e);
    JoinFour("events", Encode(t), Encode(st), FileName(m, e));
    var parts := EventParts(t, st, m, e);
    assert |parts[0]| == 6 && |parts[1]| == |Encode(t)| && |parts[2]| == |Encode(st)| && |parts[3]| == 26 + |Encode(e)|;
  }

  function Bangs(n: nat): string { seq(n, _ => '!') }

  lemma {:induction false} EncodedBangs(n: nat)
    ensures |EncodeBytes(Bangs(n))| == 3 * n
  {
    if n > 0 {
      assert Bangs(n)[..n - 1] == Bangs(n - 1);
      EncodedBangs(n - 1);
    }
  }

  /** An event id of up to 76 bytes never makes its key too long. */
  lemma ShortEventIdFits(e: string)
    requires |e| <= 76
    ensures |Encode(e)| <= MAX_COMPONENT_BYTES - 26
  {
    EncodeShape(e);
  }
}
