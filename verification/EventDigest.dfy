/**
 The event digest preimage (internal/domain/canonical.go, `EventContentDigest`, over the
 `Event` of internal/domain/models.go): the canonical JSON of the event with its seven
 processing fields set to zero. SHA-256 of the preimage is not modelled.
 */
module EventDigest {
  import opened Bytes
  import opened JsonText
  import opened CanonicalJson
  import opened CanonicalEquality

  // ---------------------------------------------------------------- the event

  datatype Actor = Actor(id: string, kind: string, name: string, department: string, roles: Option<seq<string>>)

  datatype Target = Target(kind: string, id: string, name: string)

  /** Two `any` values; None is a nil interface. */
  datatype FieldChange = FieldChange(before: Option<Value>, after: Option<Value>)

  /** Times are their RFC 3339 text in UTC; None is a nil slice or map. */
  datatype Event = Event(
    eventID: string,
    tenantID: string,
    sourceSystem: string,
    eventType: string,
    schemaID: string,
    schemaVersion: int,
    occurredAt: string,
    receivedAt: string,
    operationID: string,
    causationID: string,
    correlationID: string,
    traceID: string,
    spanID: string,
    actor: Actor,
    targets: Option<seq<Target>>,
    aggregateType: string,
    aggregateID: string,
    aggregateVersion: int,
    workflowInstanceID: string,
    executionRunID: string,
    action: string,
    outcome: string,
    reason: string,
    changedFields: Option<map<string, FieldChange>>,
    payload: Option<map<string, Option<Value>>>,
    payloadRef: string,
    sourceDigest: string,
    dataClassification: string,
    retentionClass: string,
    idempotencyKey: string,
    streamID: string,
    sequence: int,
    prevHash: string,
    hash: string,
    serverVersion: string)

  // ---------------------------------------------------------------- as the writer sees it

  function AnyValue(v: Option<Value>): Value { if v.None? then NilRef else Ref(v.value) }

  function Listed<T>(items: Option<seq<T>>): seq<T> { if items.None? then [] else items.value }

  function Mapped<T>(entries: Option<map<string, T>>): map<string, T> { if entries.None? then map[] else entries.value }

  function RolesValue(roles: Option<seq<string>>): Value {
    if roles.None? then NilList else List(seq(|roles.value|, i requires 0 <= i < |roles.value| => Text(roles.value[i])))
  }

  function ActorValue(a: Actor): Value {
    Struct([
      Field("department", true, Text(a.department)), Field("id", false, Text(a.id)), Field("name", true, Text(a.name)),
      Field("roles", true, RolesValue(a.roles)), Field("type", true, Text(a.kind))])
  }

  function TargetValue(t: Target): Value {
    Struct([Field("id", false, Text(t.id)), Field("name", true, Text(t.name)), Field("type", false, Text(t.kind))])
  }

  function TargetsValue(targets: Option<seq<Target>>): Value {
    if targets.None? then NilList
    else List(seq(|targets.value|, i requires 0 <= i < |targets.value| => TargetValue(targets.value[i])))
  }

  function ChangeValue(c: FieldChange): Value {
    Struct([Field("after", true, AnyValue(c.after)), Field("before", true, AnyValue(c.before))])
  }

  function ChangesValue(changes: Option<map<string, FieldChange>>): Value {
    if changes.None? then NilDict else Dict(map k | k in changes.value :: ChangeValue(changes.value[k]))
  }

  function PayloadValue(payload: Option<map<string, Option<Value>>>): Value {
    if payload.None? then NilDict else Dict(map k | k in payload.value :: AnyValue(payload.value[k]))
  }

  const FIELD_COUNT: nat := 35

  /**
   The JSON names, in order. Each is plain ASCII, and its length, second and last character
   tell it from the others: `IndexOf` finds its place from them alone.
   */
  function NameAt(i: nat): (n: string)
    ensures i < FIELD_COUNT ==> Named(n, i)
  {
    if i < 7 then Names0(i)
    else if i < 14 then Names7(i)
    else if i < 21 then Names14(i)
    else if i < 28 then Names21(i)
    else Names28(i)
  }

  predicate Named(n: string, i: nat) { IsAscii(n) && |n| >= 2 && IndexOf(|n|, n[1], n[|n| - 1]) == i }

  function Names0(i: nat): (n: string)
    ensures 0 <= i < 7 ==> Named(n, i)
  {
    match i
    case 0 => "action"
    case 1 => "actor"
    case 2 => "aggregate_id"
    case 3 => "aggregate_type"
    case 4 => "aggregate_version"
    case 5 => "causation_id"
    case _ => "changed_fields"
  }

  function Names7(i: nat): (n: string)
    ensures 7 <= i < 14 ==> Named(n, i)
  {
    match i
    case 7 => "correlation_id"
    case 8 => "data_classification"
    case 9 => "event_id"
    case 10 => "event_type"
    case 11 => "execution_run_id"
    case 12 => "hash"
    case _ => "idempotency_key"
  }

  function Names14(i: nat): (n: string)
    ensures 14 <= i < 21 ==> Named(n, i)
  {
    match i
    case 14 => "occurred_at"
    case 15 => "operation_id"
    case 16 => "outcome"
    case 17 => "payload"
    case 18 => "payload_ref"
    case 19 => "prev_hash"
    case _ => "reason"
  }

  function Names21(i: nat): (n: string)
    ensures 21 <= i < 28 ==> Named(n, i)
  {
    match i
    case 21 => "received_at"
    case 22 => "retention_class"
    case 23 => "schema_id"
    case 24 => "schema_version"
    case 25 => "sequence"
    case 26 => "server_version"
    case _ => "source_digest"
  }

  function Names28(i: nat): (n: string)
    ensures 28 <= i < 35 ==> Named(n, i)
  {
    match i
    case 28 => "source_system"
    case 29 => "span_id"
    case 30 => "stream_id"
    case 31 => "targets"
    case 32 => "tenant_id"
    case 33 => "trace_id"
    case _ => "workflow_instance_id"
  }

  /** The place of the name with this length, second and last character. */
  function IndexOf(length: nat, second: char, last: char): nat {
    match length
    case 4 => 12
    case 5 => 1
    case 6 => if second == 'c' then 0 else 20
    case 7 =>
      if second == 'u' then 16 else if second == 'a' && last == 'd' then 17 else if second == 'p' then 29 else 31
    case 8 => if second == 'v' then 9 else if second == 'e' then 25 else 33
    case 9 => if second == 'r' then 19 else if second == 'c' then 23 else if second == 't' then 30 else 32
    case 10 => 10
    case 11 => if second == 'c' then 14 else if second == 'a' then 18 else 21
    case 12 => if second == 'g' then 2 else if second == 'a' then 5 else 15
    case 13 => if second == 'o' && last == 't' then 27 else 28
    case 14 =>
      if second == 'g' then 3
      else if second == 'h' then 6
      else if second == 'o' then 7
      else if second == 'c' then 24
      else 26
    case 15 => if second == 'd' then 13 else 22
    case 16 => 11
    case 17 => 4
    case 19 => 8
    case 20 => 34
    case _ => 0
  }

  function ValueAt(e: Event, i: nat): Value {
    match i
    case 0 => Text(e.action)
    case 1 => ActorValue(e.actor)
    case 2 => Text(e.aggregateID)
    case 3 => Text(e.aggregateType)
    case 4 => Int(e.aggregateVersion)
    case 5 => Text(e.causationID)
    case 6 => ChangesValue(e.changedFields)
    case 7 => Text(e.correlationID)
    case 8 => Text(e.dataClassification)
    case 9 => Text(e.eventID)
    case 10 => Text(e.eventType)
    case 11 => Text(e.executionRunID)
    case 12 => Text(e.hash)
    case 13 => Text(e.idempotencyKey)
    case 14 => Time(e.occurredAt)
    case 15 => Text(e.operationID)
    case 16 => Text(e.outcome)
    case 17 => PayloadValue(e.payload)
    case 18 => Text(e.payloadRef)
    case 19 => Text(e.prevHash)
    case 20 => Text(e.reason)
    case 21 => Time(e.receivedAt)
    case 22 => Text(e.retentionClass)
    case 23 => Text(e.schemaID)
    case 24 => Int(e.schemaVersion)
    case 25 => Int(e.sequence)
    case 26 => Text(e.serverVersion)
    case 27 => Text(e.sourceDigest)
    case 28 => Text(e.sourceSystem)
    case 29 => Text(e.spanID)
    case 30 => Text(e.streamID)
    case 31 => TargetsValue(e.targets)
    case 32 => Text(e.tenantID)
    case 33 => Text(e.traceID)
    case _ => Text(e.workflowInstanceID)
  }

  /** The fields without an omitempty mark. */
  const REQUIRED: set<nat> := {0, 1, 8, 9, 10, 13, 14, 16, 21, 22, 23, 24, 28, 32}

  /** The exported fields with their JSON names and omitempty marks, in name order. */
  function FieldAt(e: Event, i: nat): Field { Field(NameAt(i), i !in REQUIRED, ValueAt(e, i)) }

  function EventValue(e: Event): Value {
    Struct(seq(FIELD_COUNT, i requires 0 <= i < FIELD_COUNT => FieldAt(e, i)))
  }

  /** The text of Go's zero time, which keeps its place in the preimage. */
  const ZERO_TIME: string := "0001-01-01T00:00:00Z"

  function WithoutProcessing(e: Event): Event {
    e.(sourceDigest := "", receivedAt := ZERO_TIME, serverVersion := "",
       hash := "", prevHash := "", sequence := 0, streamID := "")
  }

  function ContentValue(e: Event): Value { EventValue(WithoutProcessing(e)) }

  /** What is hashed; None when some part of the event cannot be written. */
  function Preimage(e: Event): Option<string> {
    if Accepted(ContentValue(e)) then Some(Print(Document(ContentValue(e)))) else None
  }

  // ---------------------------------------------------------------- equal content

  predicate SameActor(a: Actor, b: Actor) {
    a.id == b.id && a.kind == b.kind && a.name == b.name && a.department == b.department
        && Listed(a.roles) == Listed(b.roles)
  }

  predicate SameAny(a: Option<Value>, b: Option<Value>) { a.Some? == b.Some? && (a.Some? ==> Same(a.value, b.value)) }

  predicate SameChanges(a: Option<map<string, FieldChange>>, b: Option<map<string, FieldChange>>) {
    var m, n := Mapped(a), Mapped(b);
    m.Keys == n.Keys && forall k | k in m :: SameAny(m[k].before, n[k].before) && SameAny(m[k].after, n[k].after)
  }

  /** Inside the payload a nil and a value that is written as null are alike. */
  predicate SamePayload(a: Option<map<string, Option<Value>>>, b: Option<map<string, Option<Value>>>) {
    var m, n := Mapped(a), Mapped(b);
    m.Keys == n.Keys && forall k | k in m :: Same(AnyValue(m[k]), AnyValue(n[k]))
  }

  predicate SameHead(e: Event, f: Event) {
    && e.action == f.action
    && SameActor(e.actor, f.actor)
    && e.aggregateID == f.aggregateID
    && e.aggregateType == f.aggregateType
    && e.aggregateVersion == f.aggregateVersion
    && e.causationID == f.causationID
    && SameChanges(e.changedFields, f.changedFields)
    && e.correlationID == f.correlationID
    && e.dataClassification == f.dataClassification
    && e.eventID == f.eventID
    && e.eventType == f.eventType
  }

  predicate SameMiddle(e: Event, f: Event) {
    && e.executionRunID == f.executionRunID
    && e.idempotencyKey == f.idempotencyKey
    && e.occurredAt == f.occurredAt
    && e.operationID == f.operationID
    && e.outcome == f.outcome
    && SamePayload(e.payload, f.payload)
    && e.payloadRef == f.payloadRef
    && e.reason == f.reason
  }

  predicate SameRear(e: Event, f: Event) {
    && e.retentionClass == f.retentionClass
    && e.schemaID == f.schemaID
    && e.schemaVersion == f.schemaVersion
    && e.sourceSystem == f.sourceSystem
  }

  predicate SameTail(e: Event, f: Event) {
    && e.spanID == f.spanID
    && Listed(e.targets) == Listed(f.targets)
    && e.tenantID == f.tenantID
    && e.traceID == f.traceID
    && e.workflowInstanceID == f.workflowInstanceID
  }

  /** The two events agree on every field that is not a processing field. */
  predicate SameContent(e: Event, f: Event) { SameHead(e, f) && SameMiddle(e, f) && SameRear(e, f) && SameTail(e, f) }

  // ---------------------------------------------------------------- distinct names

  lemma EventsSameType(e: Event, f: Event)
    ensures SameType(EventValue(e), EventValue(f))
  {
    assert forall i | 0 <= i < FIELD_COUNT :: Named(NameAt(i), i);
  }

  // ---------------------------------------------------------------- field by field

  /** What it takes for field i to be written alike. */
  predicate SameAt(e: Event, f: Event, i: nat) {
    match i
    case 0 => e.action == f.action
    case 1 => SameActor(e.actor, f.actor)
    case 2 => e.aggregateID == f.aggregateID
    case 3 => e.aggregateType == f.aggregateType
    case 4 => e.aggregateVersion == f.aggregateVersion
    case 5 => e.causationID == f.causationID
    case 6 => SameChanges(e.changedFields, f.changedFields)
    case 7 => e.correlationID == f.correlationID
    case 8 => e.dataClassification == f.dataClassification
    case 9 => e.eventID == f.eventID
    case 10 => e.eventType == f.eventType
    case 11 => e.executionRunID == f.executionRunID
    case 12 => e.hash == f.hash
    case 13 => e.idempotencyKey == f.idempotencyKey
    case 14 => e.occurredAt == f.occurredAt
    case 15 => e.operationID == f.operationID
    case 16 => e.outcome == f.outcome
    case 17 => SamePayload(e.payload, f.payload)
    case 18 => e.payloadRef == f.payloadRef
    case 19 => e.prevHash == f.prevHash
    case 20 => e.reason == f.reason
    case 21 => e.receivedAt == f.receivedAt
    case 22 => e.retentionClass == f.retentionClass
    case 23 => e.schemaID == f.schemaID
    case 24 => e.schemaVersion == f.schemaVersion
    case 25 => e.sequence == f.sequence
    case 26 => e.serverVersion == f.serverVersion
    case 27 => e.sourceDigest == f.sourceDigest
    case 28 => e.sourceSystem == f.sourceSystem
    case 29 => e.spanID == f.spanID
    case 30 => e.streamID == f.streamID
    case 31 => Listed(e.targets) == Listed(f.targets)
    case 32 => e.tenantID == f.tenantID
    case 33 => e.traceID == f.traceID
    case _ => e.workflowInstanceID == f.workflowInstanceID
  }

  lemma TextField(f: Field, g: Field)
    requires f.value.Text? && g.value.Text? && f.omitEmpty == g.omitEmpty
    ensures SameField(f, g) <==> f.value.text == g.value.text
  {
  }

  lemma IntField(f: Field, g: Field)
    requires f.value.Int? && g.value.Int? && f.omitEmpty == g.omitEmpty
    ensures SameField(f, g) <==> f.value.number == g.value.number
  {
  }

  lemma RolesField(f: Field, g: Field, p: Option<seq<string>>, q: Option<seq<string>>)
    requires f.value == RolesValue(p) && g.value == RolesValue(q) && f.omitEmpty && g.omitEmpty
    ensures SameField(f, g) <==> Listed(p) == Listed(q)
  {
    var a, b := Listed(p), Listed(q);
    if a != [] && b != [] {
      var v, w := f.value, g.value;
      assert Same(v, w) <==> |a| == |b| && forall i | 0 <= i < |a| :: Same(v.items[i], w.items[i]);
      assert |a| == |b| ==> forall i | 0 <= i < |a| :: Same(v.items[i], w.items[i]) <==> a[i] == b[i];
    }
  }

  lemma ActorField(a: Actor, b: Actor)
    ensures Same(ActorValue(a), ActorValue(b)) <==> SameActor(a, b)
  {
    var v, w := ActorValue(a), ActorValue(b);
    ActorNames();
    StructsSame(v, w);
    TextField(v.fields[0], w.fields[0]);
    TextField(v.fields[1], w.fields[1]);
    TextField(v.fields[2], w.fields[2]);
    RolesField(v.fields[3], w.fields[3], a.roles, b.roles);
    TextField(v.fields[4], w.fields[4]);
  }

  lemma ActorNames()
    ensures forall a: Actor :: DistinctNames(ActorValue(a).fields)
  {
    assert "department"[0] == 'd' && "id"[0] == 'i' && "name"[0] == 'n' && "roles"[0] == 'r' && "type"[0] == 't';
  }

  lemma TargetSame(t: Target, u: Target)
    ensures Same(TargetValue(t), TargetValue(u)) <==> t == u
  {
    var v, w := TargetValue(t), TargetValue(u);
    assert "id"[0] == 'i' && "name"[0] == 'n' && "type"[0] == 't';
    StructsSame(v, w);
    TextField(v.fields[0], w.fields[0]);
    TextField(v.fields[1], w.fields[1]);
    TextField(v.fields[2], w.fields[2]);
  }

  lemma TargetsField(f: Field, g: Field, p: Option<seq<Target>>, q: Option<seq<Target>>)
    requires f.value == TargetsValue(p) && g.value == TargetsValue(q) && f.omitEmpty && g.omitEmpty
    ensures SameField(f, g) <==> Listed(p) == Listed(q)
  {
    var a, b := Listed(p), Listed(q);
    if a != [] && b != [] && |a| == |b| {
      var v, w := f.value, g.value;
      forall i | 0 <= i < |a| ensures Same(v.items[i], w.items[i]) <==> a[i] == b[i] {
        TargetSame(a[i], b[i]);
      }
      assert Same(v, w) <==> forall i | 0 <= i < |a| :: Same(v.items[i], w.items[i]);
    }
  }

  lemma ChangeSame(c: FieldChange, d: FieldChange)
    ensures Same(ChangeValue(c), ChangeValue(d)) <==> SameAny(c.before, d.before) && SameAny(c.after, d.after)
  {
    var v, w := ChangeValue(c), ChangeValue(d);
    assert "after"[0] == 'a' && "before"[0] == 'b';
    StructsSame(v, w);
    AnyField(v.fields[0], w.fields[0], c.after, d.after);
    AnyField(v.fields[1], w.fields[1], c.before, d.before);
  }

  lemma AnyField(f: Field, g: Field, p: Option<Value>, q: Option<Value>)
    requires f.value == AnyValue(p) && g.value == AnyValue(q) && f.omitEmpty && g.omitEmpty
    ensures SameField(f, g) <==> SameAny(p, q)
  {
    if p.Some? && q.Some? { SameThroughRefs(p.value, q.value); }
  }

  /** The members of a map field, none for a nil map. */
  function Entries(v: Value): map<string, Value> { if v.Dict? then v.entries else map[] }

  predicate SameEntries(a: map<string, Value>, b: map<string, Value>) {
    a.Keys == b.Keys && forall k | k in a :: Same(a[k], b[k])
  }

  lemma DictField(f: Field, g: Field)
    requires (f.value.Dict? || f.value.NilDict?) && (g.value.Dict? || g.value.NilDict?) && f.omitEmpty && g.omitEmpty
    ensures SameField(f, g) <==> SameEntries(Entries(f.value), Entries(g.value))
  {
    var a, b := Entries(f.value), Entries(g.value);
    assert Omitted(f) <==> a.Keys == {};
    assert Omitted(g) <==> b.Keys == {};
    if !Omitted(f) && !Omitted(g) {
      assert Members(f.value) == a && Members(g.value) == b;
      assert Same(f.value, g.value) <==> SameMembers(f.value, g.value);
    }
  }

  lemma ChangesField(f: Field, g: Field, p: Option<map<string, FieldChange>>, q: Option<map<string, FieldChange>>)
    requires f.value == ChangesValue(p) && g.value == ChangesValue(q) && f.omitEmpty && g.omitEmpty
    ensures SameField(f, g) <==> SameChanges(p, q)
  {
    DictField(f, g);
    var m, n := Mapped(p), Mapped(q);
    var a, b := Entries(f.value), Entries(g.value);
    assert a.Keys == m.Keys && b.Keys == n.Keys;
    forall k | k in m && k in n
      ensures Same(a[k], b[k]) <==> SameAny(m[k].before, n[k].before) && SameAny(m[k].after, n[k].after)
    {
      ChangeSame(m[k], n[k]);
    }
  }

  lemma PayloadField(f: Field, g: Field, p: Option<map<string, Option<Value>>>, q: Option<map<string, Option<Value>>>)
    requires f.value == PayloadValue(p) && g.value == PayloadValue(q) && f.omitEmpty && g.omitEmpty
    ensures SameField(f, g) <==> SamePayload(p, q)
  {
    DictField(f, g);
    var m, n := Mapped(p), Mapped(q);
    var a, b := Entries(f.value), Entries(g.value);
    assert a.Keys == m.Keys && b.Keys == n.Keys;
    assert forall k | k in m :: a[k] == AnyValue(m[k]);
    assert forall k | k in n :: b[k] == AnyValue(n[k]);
  }

  lemma FieldsSame(e: Event, f: Event, i: nat)
    requires i < FIELD_COUNT
    ensures SameField(FieldAt(e, i), FieldAt(f, i)) <==> SameAt(e, f, i)
  {
    var a, b := FieldAt(e, i), FieldAt(f, i);
    if i == 1 { ActorField(e.actor, f.actor); }
    else if i == 6 { ChangesField(a, b, e.changedFields, f.changedFields); }
    else if i == 17 { PayloadField(a, b, e.payload, f.payload); }
    else if i == 31 { TargetsField(a, b, e.targets, f.targets); }
    else if i == 14 || i == 21 { }
    else if i == 4 || i == 24 || i == 25 { IntField(a, b); }
    else { TextField(a, b); }
  }

  lemma HeadByField(x: Event, y: Event)
    requires forall i | 0 <= i < 12 :: SameAt(x, y, i)
    ensures SameHead(x, y)
  {
    assert SameAt(x, y, 0) && SameAt(x, y, 1) && SameAt(x, y, 2) && SameAt(x, y, 3) && SameAt(x, y, 4)
        && SameAt(x, y, 5);
    assert SameAt(x, y, 6) && SameAt(x, y, 7) && SameAt(x, y, 8) && SameAt(x, y, 9) && SameAt(x, y, 10);
  }

  lemma MiddleByField(x: Event, y: Event)
    requires forall i | 11 <= i < 21 :: SameAt(x, y, i)
    ensures SameMiddle(x, y)
  {
    assert SameAt(x, y, 11) && SameAt(x, y, 13) && SameAt(x, y, 14) && SameAt(x, y, 15) && SameAt(x, y, 16);
    assert SameAt(x, y, 17) && SameAt(x, y, 18) && SameAt(x, y, 20);
  }

  lemma RearByField(x: Event, y: Event)
    requires forall i | 21 <= i < 29 :: SameAt(x, y, i)
    ensures SameRear(x, y)
  {
    assert SameAt(x, y, 22) && SameAt(x, y, 23) && SameAt(x, y, 24) && SameAt(x, y, 28);
  }

  lemma TailByField(x: Event, y: Event)
    requires forall i | 29 <= i < FIELD_COUNT :: SameAt(x, y, i)
    ensures SameTail(x, y)
  {
    assert SameAt(x, y, 29) && SameAt(x, y, 31) && SameAt(x, y, 32) && SameAt(x, y, 33) && SameAt(x, y, 34);
  }

  /** Agreement on the fields of the zeroed events is agreement on content. */
  lemma ContentByField(e: Event, f: Event)
    ensures (forall i | 0 <= i < FIELD_COUNT :: SameAt(WithoutProcessing(e), WithoutProcessing(f), i)) <==>
        SameContent(e, f)
  {
    if forall i | 0 <= i < FIELD_COUNT :: SameAt(WithoutProcessing(e), WithoutProcessing(f), i) {
      var x, y := WithoutProcessing(e), WithoutProcessing(f);
      HeadByField(x, y);
      MiddleByField(x, y);
      RearByField(x, y);
      TailByField(x, y);
    }
  }

  /** An exact event has the preimage of exactly the writable events with its content. */
  lemma PreimageIffSameContent(e: Event, f: Event)
    requires Preimage(e).Some? && Exact(ContentValue(e))
    ensures Preimage(f) == Preimage(e) <==> Preimage(f).Some? && SameContent(e, f)
  {
    if Preimage(f).Some? {
      CanonicalIffSame(ContentValue(e), ContentValue(f));
      ContentSame(e, f);
    }
  }

  /** The contents are equal as JSON iff the events agree field by field. */
  lemma ContentSame(e: Event, f: Event)
    ensures Same(ContentValue(e), ContentValue(f)) <==> SameContent(e, f)
  {
    var x, y := WithoutProcessing(e), WithoutProcessing(f);
    EventsSameType(x, y);
    StructsSame(EventValue(x), EventValue(y));
    forall i | 0 <= i < FIELD_COUNT
      ensures SameField(EventValue(x).fields[i], EventValue(y).fields[i]) <==> SameAt(x, y, i)
    {
      FieldsSame(x, y, i);
    }
    ContentByField(e, f);
  }

  /** The seven processing fields never reach the preimage. */
  lemma ProcessingFieldsIgnored(e: Event, digest: string, received: string, server: string, hash: string, prev: string,
                                sequence: int, stream: string)
    ensures Preimage(e.(sourceDigest := digest, receivedAt := received, serverVersion := server, hash := hash,
                        prevHash := prev, sequence := sequence, streamID := stream)) == Preimage(e)
  {
    assert WithoutProcessing(e.(sourceDigest := digest, receivedAt := received, serverVersion := server, hash := hash,
                                prevHash := prev, sequence := sequence, streamID := stream)) == WithoutProcessing(e);
  }
}
