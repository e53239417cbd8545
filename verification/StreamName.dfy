/**
 Ledger stream names (internal/domain/models.go, `Event.Stream`) and the identifier rules
 they rest on (internal/domain/identifiers.go and the identifier checks of
 `Event.ValidateBasic`).
 */
module StreamName {
  import opened JsonText
  import opened KeyFraming
  import opened ArchiveKey
  import opened EventDigest

  // ---------------------------------------------------------------- identifier rules

  function CodePoint(rune: string): int {
    if |rune| == 1 then rune[0] as int
    else if |rune| == 2 then (rune[0] as int - 0xC0) * 0x40 + (rune[1] as int - 0x80)
    else if |rune| == 3 then (rune[0] as int - 0xE0) * 0x1000 + (rune[1] as int - 0x80) * 0x40 + (rune[2] as int - 0x80)
    else if |rune| == 4 then
      (rune[0] as int - 0xF0) * 0x40000 + (rune[1] as int - 0x80) * 0x1000
      + (rune[2] as int - 0x80) * 0x40 + (rune[3] as int - 0x80)
    else 0xFFFD
  }

  /** `unicode.IsControl` */
  predicate IsControl(r: int) { 0 <= r < 0x20 || 0x7F <= r < 0xA0 }

  /** `unicode.IsSpace` */
  predicate IsSpace(r: int) {
    0x09 <= r <= 0x0D || r in {0x20, 0x85, 0xA0, 0x1680, 0x2028, 0x2029, 0x202F, 0x205F, 0x3000}
        || 0x2000 <= r <= 0x200A
  }

  /** Characters an identifier must not hold; a byte that is not UTF-8 reads as U+FFFD, which is allowed. */
  predicate Refused(u: Unit) {
    u.Rune? && var r := CodePoint(u.bytes); IsControl(r) || IsSpace(r) || r == '/' as int || r == '\\' as int
  }

  /** `ValidKeyComponent` */
  predicate ValidKeyComponent(value: string) {
    forall u | u in Scan(value) :: !Refused(u)
  }

  /** `ValidArchiveComponentLength` */
  predicate ValidArchiveComponentLength(value: string) { |value| <= MAX_ARCHIVE_COMPONENT_BYTES }

  /** `ValidStreamComponent` and `ValidTenantIDComponent` */
  predicate ValidStreamComponent(value: string) {
    ValidKeyComponent(value) && ':' !in value && ValidArchiveComponentLength(value)
  }

  /** The identifier checks of `ValidateBasic`; the aggregate and operation ids are optional. */
  predicate IdentifiersValid(e: Event) {
    && ValidKeyComponent(e.eventID) && ValidKeyComponent(e.sourceSystem)
    && ValidArchiveComponentLength(e.eventID) && ValidArchiveComponentLength(e.sourceSystem)
    && (e.aggregateType != "" ==> ValidStreamComponent(e.aggregateType))
    && (e.aggregateID != "" ==> ValidStreamComponent(e.aggregateID))
    && (e.operationID != "" ==> ValidKeyComponent(e.operationID) && ValidArchiveComponentLength(e.operationID))
  }

  /** Bytes below 0x80 that the rule refuses: controls, blanks and both slashes. */
  predicate RefusedByte(c: char) { c as int <= 0x20 || c as int == 0x7F || c == '/' || c == '\\' }

  /** An ASCII byte is a character of its own wherever it stands, even among bytes that are not UTF-8. */
  lemma {:induction false} AsciiScanned(s: string, i: nat)
    requires i < |s| && s[i] as int < 0x80
    ensures Rune([s[i]]) in Scan(s)
  {
    var n := RuneLength(s);
    if i == 0 {
      assert n == 1 && s[..1] == [s[0]];
    } else if n == 0 {
      AsciiScanned(s[1..], i - 1);
    } else {
      assert i >= n;
      AsciiScanned(s[n..], i - n);
    }
  }

  lemma RefusedAscii(c: char)
    requires c as int < 0x80
    ensures Refused(Rune([c])) <==> RefusedByte(c)
  {
  }

  /** No refused byte gets through, so no identifier holds the key separator 0x1F. */
  lemma KeyComponentBytes(value: string)
    requires ValidKeyComponent(value)
    ensures forall i | 0 <= i < |value| :: !RefusedByte(value[i])
  {
    forall i | 0 <= i < |value| && value[i] as int < 0x80 ensures !RefusedByte(value[i]) {
      AsciiScanned(value, i);
      RefusedAscii(value[i]);
    }
  }

  /** On ASCII text the rule is exactly the absence of those bytes. */
  lemma AsciiComponentIff(s: string)
    requires IsAscii(s)
    ensures ValidKeyComponent(s) <==> forall i | 0 <= i < |s| :: !RefusedByte(s[i])
  {
    AsciiScan(s);
    forall i | 0 <= i < |s| ensures Refused(Scan(s)[i]) <==> RefusedByte(s[i]) {
      assert s[i] in s;
      RefusedAscii(s[i]);
    }
    if ValidKeyComponent(s) { KeyComponentBytes(s); }
  }

  // ---------------------------------------------------------------- streams

  /** `Event.Stream` */
  function Stream(e: Event): string {
    if e.streamID != "" then e.streamID
    else if e.aggregateType != "" && e.aggregateID != "" then
      e.tenantID + ":aggregate:" + e.aggregateType + ":" + e.aggregateID
    else if e.operationID != "" then e.tenantID + ":operation:" + e.operationID
    else e.tenantID + ":source:" + e.sourceSystem
  }

  /** What an event's stream is about. */
  datatype Subject = Aggregate(kind: string, id: string) | Operation(id: string) | Source(system: string)

  function SubjectOf(e: Event): Subject {
    if e.aggregateType != "" && e.aggregateID != "" then Aggregate(e.aggregateType, e.aggregateID)
    else if e.operationID != "" then Operation(e.operationID)
    else Source(e.sourceSystem)
  }

  function Branch(s: Subject): string {
    match s
    case Aggregate(_, _) => "aggregate"
    case Operation(_) => "operation"
    case Source(_) => "source"
  }

  function Components(s: Subject): string {
    match s
    case Aggregate(kind, id) => kind + ":" + id
    case Operation(id) => id
    case Source(system) => system
  }

  function Frame(s: Subject): string { Branch(s) + ":" + Components(s) }

  lemma StreamFrame(e: Event)
    requires e.streamID == ""
    ensures Stream(e) == e.tenantID + ":" + Frame(SubjectOf(e))
  {
    var t := e.tenantID;
    assert t + ":aggregate:" + e.aggregateType + ":" + e.aggregateID
        == t + ":" + ("aggregate" + ":" + (e.aggregateType + ":" + e.aggregateID));
    assert t + ":operation:" + e.operationID == t + ":" + ("operation" + ":" + e.operationID);
    assert t + ":source:" + e.sourceSystem == t + ":" + ("source" + ":" + e.sourceSystem);
  }

  function FirstColon(s: string): nat { if s == "" || s[0] == ':' then 0 else 1 + FirstColon(s[1..]) }

  lemma {:induction false} ColonAt(a: string, x: string)
    requires ':' !in a
    ensures FirstColon(a + ":" + x) == |a|
  {
    var s := a + ":" + x;
    if a != "" {
      assert s[0] == a[0] && s[1..] == a[1..] + ":" + x;
      ColonAt(a[1..], x);
    }
  }

  /** The first colon divides a text in one way. */
  lemma ColonDivides(a: string, x: string, b: string, y: string)
    requires ':' !in a && ':' !in b && a + ":" + x == b + ":" + y
    ensures a == b && x == y
  {
    ColonAt(a, x);
    ColonAt(b, y);
    var s := a + ":" + x;
    assert s[..|a|] == a && s[..|a|] == b && s[|a| + 1..] == x && s[|a| + 1..] == y;
  }

  predicate PlainKind(s: Subject) { s.Aggregate? ==> ':' !in s.kind }

  lemma FrameInjective(s: Subject, t: Subject)
    requires PlainKind(s) && PlainKind(t) && Frame(s) == Frame(t)
    ensures s == t
  {
    ColonDivides(Branch(s), Components(s), Branch(t), Components(t));
    assert |Branch(s)| == |Branch(t)| && Branch(s)[0] == Branch(t)[0];
    if s.Aggregate? { ColonDivides(s.kind, s.id, t.kind, t.id); }
  }

  /** Two validated events share a stream exactly when tenant and subject agree. */
  lemma StreamInjective(e: Event, f: Event)
    requires e.streamID == "" && f.streamID == "" && IdentifiersValid(e) && IdentifiersValid(f)
    requires ValidStreamComponent(e.tenantID) && ValidStreamComponent(f.tenantID)
    ensures Stream(e) == Stream(f) <==> e.tenantID == f.tenantID && SubjectOf(e) == SubjectOf(f)
  {
    StreamFrame(e);
    StreamFrame(f);
    if Stream(e) == Stream(f) {
      ColonDivides(e.tenantID, Frame(SubjectOf(e)), f.tenantID, Frame(SubjectOf(f)));
      FrameInjective(SubjectOf(e), SubjectOf(f));
    }
  }

  /** Without the colon rule any aggregate type with an inner colon shares its stream with another aggregate. */
  lemma ColonCollides(e: Event, x: string, y: string)
    requires e.streamID == "" && x != "" && e.aggregateType == x + ":" + y && e.aggregateID != ""
    ensures var f := e.(aggregateType := x, aggregateID := y + ":" + e.aggregateID);
            SubjectOf(f) != SubjectOf(e) && Stream(f) == Stream(e)
  {
    var f := e.(aggregateType := x, aggregateID := y + ":" + e.aggregateID);
    StreamFrame(e);
    StreamFrame(f);
    assert x + ":" + (y + ":" + e.aggregateID) == (x + ":" + y) + ":" + e.aggregateID;
    assert |f.aggregateType| < |e.aggregateType|;
  }

  // ---------------------------------------------------------------- archive keys of events

  /** A validated event is archivable exactly when its stream and event id encode short enough. */
  lemma ArchivableIff(e: Event, n: int)
    requires IsInt64(n) && ValidStreamComponent(e.tenantID)
    ensures KeyLengthOk(EventArchiveKey(e.tenantID, Stream(e), n, e.eventID)) <==>
              |Encode(Stream(e))| <= MAX_COMPONENT_BYTES && |Encode(e.eventID)| <= MAX_COMPONENT_BYTES - 26
  {
    ComponentFits(e.tenantID);
    EventKeyFitsIff(e.tenantID, Stream(e), n, e.eventID);
  }

  /** From 77 bytes on, some event id that the service accepts makes its key too long whatever else it names. */
  lemma LongEventIdRejected(t: string, st: string, m: int, n: nat)
    requires IsInt64(m) && 77 <= n <= MAX_ARCHIVE_COMPONENT_BYTES
    ensures ValidKeyComponent(Bangs(n)) && ValidArchiveComponentLength(Bangs(n))
    ensures !KeyLengthOk(EventArchiveKey(t, st, m, Bangs(n)))
  {
    AsciiComponentIff(Bangs(n));
    EventKeyFitsIff(t, st, m, Bangs(n));
    EncodedBangs(n);
  }

  /** The component bound does not bound the stream name, and an overlong one is unarchivable. */
  lemma LongStreamRejected(e: Event, n: int)
    requires IsInt64(n) && ValidStreamComponent(e.tenantID) && |Stream(e)| > MAX_COMPONENT_BYTES
    ensures !KeyLengthOk(EventArchiveKey(e.tenantID, Stream(e), n, e.eventID))
  {
    ArchivableIff(e, n);
    EncodeGrows(Stream(e));
  }

  function Letters(n: nat): string { seq(n, _ => 'a') }

  lemma LettersValid(n: nat)
    requires n <= MAX_ARCHIVE_COMPONENT_BYTES
    ensures ValidStreamComponent(Letters(n))
  {
    AsciiComponentIff(Letters(n));
  }

  /** Every validated event becomes such a one, still validated, with three identifiers of the largest size. */
  lemma LongStreamExists(e: Event, n: int)
    requires IsInt64(n) && IdentifiersValid(e) && e.streamID == ""
    ensures var f := e.(tenantID := Letters(85), aggregateType := Letters(85), aggregateID := Letters(85));
            && ValidStreamComponent(f.tenantID) && IdentifiersValid(f)
            && !KeyLengthOk(EventArchiveKey(f.tenantID, Stream(f), n, f.eventID))
  {
    LettersValid(85);
    var f := e.(tenantID := Letters(85), aggregateType := Letters(85), aggregateID := Letters(85));
    StreamFrame(f);
    LongStreamRejected(f, n);
  }
}
