/**
 Which JSON member each part of an event is written under (internal/domain/models.go, the
 tags of `Event`, `Actor`, `Target` and `FieldChange`), and that the preimage of an event
 reads as the JSON value with those members.
 */
module EventReading {
  import opened Bytes
  import opened JsonText
  import opened JsonGrammar
  import opened CanonicalJson
  import opened CanonicalReading
  import opened CanonicalEquality
  import opened EventDigest

  /** The code points of a plain ASCII name. */
  function Ascii(s: string): seq<int> { seq(|s|, i requires 0 <= i < |s| => s[i] as int) }

  lemma AsciiCodes(s: string)
    requires IsAscii(s)
    ensures Codes(Scan(s)) == Ascii(s)
  {
    AsciiScan(s);
    assert forall i | 0 <= i < |s| :: s[i] in s;
  }

  predicate HasMember(j: Json, name: string, value: Json) { j.JObject? && Pair(Ascii(name), value) in j.members }

  /** A struct or map has this value under this name. */
  predicate Under(v: Value, name: string, w: Value) { name in Members(v) && Members(v)[name] == w }

  /** What is under a name is read under that name. */
  lemma UnderReads(v: Value, name: string, w: Value)
    requires (v.Struct? || v.Dict?) && Under(v, name, w) && IsAscii(name)
    ensures HasMember(JsonOf(v), name, JsonOf(w))
  {
    var m := Members(v);
    var keys := Sort(m.Keys);
    var pairs := PairsOf(v, m, keys);
    assert name in keys;
    var k :| 0 <= k < |keys| && keys[k] == name;
    AsciiCodes(name);
    assert pairs[k] == Pair(Ascii(name), JsonOf(w));
  }

  /** A field is under its own name, unless it is left out. */
  lemma FieldUnder(v: Value, i: nat)
    requires v.Struct? && DistinctNames(v.fields) && i < |v.fields|
    ensures if Omitted(v.fields[i]) then v.fields[i].name !in Members(v)
            else Under(v, v.fields[i].name, v.fields[i].value)
  {
    KeptAt(v, 0, i);
  }

  /** Under the name if it is to be written, and otherwise no such member. */
  predicate Tagged(v: Value, name: string, written: bool, w: Value) {
    if written then Under(v, name, w) else name !in Members(v)
  }

  /** Before and after are not exchanged; an absent one has no member. */
  lemma ChangeMembers(c: FieldChange)
    ensures Tagged(ChangeValue(c), "before", c.before.Some?, AnyValue(c.before))
    ensures Tagged(ChangeValue(c), "after", c.after.Some?, AnyValue(c.after))
  {
    FieldUnder(ChangeValue(c), 0);
    FieldUnder(ChangeValue(c), 1);
  }

  lemma TargetMembers(t: Target)
    ensures Tagged(TargetValue(t), "type", true, Text(t.kind))
    ensures Tagged(TargetValue(t), "id", true, Text(t.id))
    ensures Tagged(TargetValue(t), "name", t.name != "", Text(t.name))
  {
    FieldUnder(TargetValue(t), 0);
    FieldUnder(TargetValue(t), 1);
    FieldUnder(TargetValue(t), 2);
  }

  lemma ActorMembers(a: Actor)
    ensures Tagged(ActorValue(a), "id", true, Text(a.id))
    ensures Tagged(ActorValue(a), "type", a.kind != "", Text(a.kind))
    ensures Tagged(ActorValue(a), "name", a.name != "", Text(a.name))
    ensures Tagged(ActorValue(a), "department", a.department != "", Text(a.department))
    ensures Tagged(ActorValue(a), "roles", Listed(a.roles) != [], RolesValue(a.roles))
  {
    FieldUnder(ActorValue(a), 0);
    FieldUnder(ActorValue(a), 1);
    FieldUnder(ActorValue(a), 2);
    FieldUnder(ActorValue(a), 3);
    FieldUnder(ActorValue(a), 4);
  }

  lemma EventNames(e: Event)
    ensures DistinctNames(EventValue(e).fields)
  {
    forall i, j | 0 <= i < j < FIELD_COUNT ensures EventValue(e).fields[i].name != EventValue(e).fields[j].name {
      assert Named(NameAt(i), i) && Named(NameAt(j), j);
    }
  }

  lemma EventMember(e: Event, i: nat)
    requires i < FIELD_COUNT
    ensures Tagged(EventValue(e), NameAt(i), !Omitted(FieldAt(e, i)), ValueAt(e, i))
  {
    EventNames(e);
    FieldUnder(EventValue(e), i);
  }

  /** A JSON name, whether it is written, and what is under it. */
  datatype Tag = Tag(name: string, written: bool, value: Value)

  /** The tags of `Event`, in order of the names. */
  function TagAt(e: Event, i: nat): Tag {
    if i < 7 then Tags0(e, i)
    else if i < 14 then Tags7(e, i)
    else if i < 21 then Tags14(e, i)
    else if i < 28 then Tags21(e, i)
    else Tags28(e, i)
  }

  function Tags0(e: Event, i: nat): Tag {
    match i
    case 0 => Tag("action", true, Text(e.action))
    case 1 => Tag("actor", true, ActorValue(e.actor))
    case 2 => Tag("aggregate_id", e.aggregateID != "", Text(e.aggregateID))
    case 3 => Tag("aggregate_type", e.aggregateType != "", Text(e.aggregateType))
    case 4 => Tag("aggregate_version", e.aggregateVersion != 0, Int(e.aggregateVersion))
    case 5 => Tag("causation_id", e.causationID != "", Text(e.causationID))
    case _ => Tag("changed_fields", Mapped(e.changedFields) != map[], ChangesValue(e.changedFields))
  }

  function Tags7(e: Event, i: nat): Tag {
    match i
    case 7 => Tag("correlation_id", e.correlationID != "", Text(e.correlationID))
    case 8 => Tag("data_classification", true, Text(e.dataClassification))
    case 9 => Tag("event_id", true, Text(e.eventID))
    case 10 => Tag("event_type", true, Text(e.eventType))
    case 11 => Tag("execution_run_id", e.executionRunID != "", Text(e.executionRunID))
    case 12 => Tag("hash", e.hash != "", Text(e.hash))
    case _ => Tag("idempotency_key", true, Text(e.idempotencyKey))
  }

  function Tags14(e: Event, i: nat): Tag {
    match i
    case 14 => Tag("occurred_at", true, Time(e.occurredAt))
    case 15 => Tag("operation_id", e.operationID != "", Text(e.operationID))
    case 16 => Tag("outcome", true, Text(e.outcome))
    case 17 => Tag("payload", Mapped(e.payload) != map[], PayloadValue(e.payload))
    case 18 => Tag("payload_ref", e.payloadRef != "", Text(e.payloadRef))
    case 19 => Tag("prev_hash", e.prevHash != "", Text(e.prevHash))
    case _ => Tag("reason", e.reason != "", Text(e.reason))
  }

  function Tags21(e: Event, i: nat): Tag {
    match i
    case 21 => Tag("received_at", true, Time(e.receivedAt))
    case 22 => Tag("retention_class", true, Text(e.retentionClass))
    case 23 => Tag("schema_id", true, Text(e.schemaID))
    case 24 => Tag("schema_version", true, Int(e.schemaVersion))
    case 25 => Tag("sequence", e.sequence != 0, Int(e.sequence))
    case 26 => Tag("server_version", e.serverVersion != "", Text(e.serverVersion))
    case _ => Tag("source_digest", e.sourceDigest != "", Text(e.sourceDigest))
  }

  function Tags28(e: Event, i: nat): Tag {
    match i
    case 28 => Tag("source_system", true, Text(e.sourceSystem))
    case 29 => Tag("span_id", e.spanID != "", Text(e.spanID))
    case 30 => Tag("stream_id", e.streamID != "", Text(e.streamID))
    case 31 => Tag("targets", Listed(e.targets) != [], TargetsValue(e.targets))
    case 32 => Tag("tenant_id", true, Text(e.tenantID))
    case 33 => Tag("trace_id", e.traceID != "", Text(e.traceID))
    case _ => Tag("workflow_instance_id", e.workflowInstanceID != "", Text(e.workflowInstanceID))
  }

  lemma TagNames(e: Event, i: nat)
    requires i < FIELD_COUNT
    ensures TagAt(e, i).name == NameAt(i)
  {
  }

  lemma TagValues(e: Event, i: nat)
    requires i < FIELD_COUNT
    ensures TagAt(e, i).value == ValueAt(e, i)
  {
  }

  lemma TagMarks(e: Event, i: nat)
    requires i < FIELD_COUNT
    ensures TagAt(e, i).written <==> i in REQUIRED || !Empty(ValueAt(e, i))
  {
    EmptyMeans(e);
  }

  lemma EmptyMeans(e: Event)
    ensures Empty(TargetsValue(e.targets)) <==> Listed(e.targets) == []
    ensures Empty(ChangesValue(e.changedFields)) <==> Mapped(e.changedFields) == map[]
    ensures Empty(PayloadValue(e.payload)) <==> Mapped(e.payload) == map[]
  {
    if k :| k in Mapped(e.changedFields) { assert k in ChangesValue(e.changedFields).entries; }
    if k :| k in Mapped(e.payload) { assert k in PayloadValue(e.payload).entries; }
  }

  predicate TagHolds(e: Event, t: Tag) { Tagged(EventValue(e), t.name, t.written, t.value) }

  /**
   Every field of an event is under its own JSON name, unless it may be left out and is empty:
   then there is no such member.
   */
  lemma EventMembers(e: Event, i: nat)
    requires i < FIELD_COUNT
    ensures TagHolds(e, TagAt(e, i))
  {
    EventMember(e, i);
    TagNames(e, i);
    TagValues(e, i);
    TagMarks(e, i);
  }

  /** An event has no other members. */
  lemma NoOtherMembers(e: Event, k: string)
    requires k in Members(EventValue(e))
    ensures exists i | 0 <= i < FIELD_COUNT :: TagAt(e, i).name == k
  {
    KeptFrom(EventValue(e), 0, k);
    var j :| 0 <= j < FIELD_COUNT && EventValue(e).fields[j].name == k;
    TagNames(e, j);
  }

  /** The preimage of an event is a compact JSON text, and reads as the JSON value of its content only. */
  lemma PreimageReads(e: Event, j: Json)
    requires Preimage(e).Some?
    ensures Reads(Preimage(e).value, j) <==> j == JsonOf(ContentValue(e))
    ensures ReadsCompact(Preimage(e).value, JsonOf(ContentValue(e)))
  {
    CanonicalIsJson(ContentValue(e), j);
  }
}
