/**
 The failing half of the digest law: an event that is not exact, because of a text in a
 field of its own or inside its actor, targets, changes or payload, or because of a key of
 its changes or payload, shares its preimage with an event of different content.
 */
module EventTwins {
  import opened Bytes
  import opened JsonText
  import opened CanonicalJson
  import opened CanonicalEquality
  import opened CanonicalTwins
  import opened EventDigest

  // ---------------------------------------------------------------- names

  lemma StructFixed(v: Value)
    requires v.Struct? && forall i | 0 <= i < |v.fields| :: IsAscii(v.fields[i].name)
    ensures Fixed(Sort(Members(v).Keys))
  {
    forall k | k in Members(v) ensures ValidUtf8(k) {
      KeptFrom(v, 0, k);
      AsciiValid(k);
    }
    ValidKeysFixed(Members(v).Keys);
  }

  lemma EventFixed(e: Event)
    ensures Fixed(Sort(Members(EventValue(e)).Keys))
  {
    assert forall i | 0 <= i < FIELD_COUNT :: EventValue(e).fields[i].name == NameAt(i);
    StructFixed(EventValue(e));
  }

  // ---------------------------------------------------------------- text fields

  /** The event with the text of field i replaced. */
  function WithText(e: Event, i: nat, s: string): Event {
    match i
    case 0 => e.(action := s)
    case 2 => e.(aggregateID := s)
    case 3 => e.(aggregateType := s)
    case 5 => e.(causationID := s)
    case 7 => e.(correlationID := s)
    case 8 => e.(dataClassification := s)
    case 9 => e.(eventID := s)
    case 10 => e.(eventType := s)
    case 11 => e.(executionRunID := s)
    case 13 => e.(idempotencyKey := s)
    case 15 => e.(operationID := s)
    case 16 => e.(outcome := s)
    case 18 => e.(payloadRef := s)
    case 20 => e.(reason := s)
    case 22 => e.(retentionClass := s)
    case 23 => e.(schemaID := s)
    case 28 => e.(sourceSystem := s)
    case 29 => e.(spanID := s)
    case 32 => e.(tenantID := s)
    case 33 => e.(traceID := s)
    case 34 => e.(workflowInstanceID := s)
    case _ => e
  }

  const TEXT_FIELDS: set<nat> := {0, 2, 3, 5, 7, 8, 9, 10, 11, 13, 15, 16, 18, 20, 22, 23, 28, 29, 32, 33, 34}

  predicate OnlyAt(e: Event, i: nat, s: string, j: nat) {
    ValueAt(WithText(e, i, s), j) == if j == i then Text(s) else ValueAt(e, j)
  }

  lemma WithTextLow(e: Event, i: nat, s: string, j: nat)
    requires i in TEXT_FIELDS && i < 10 && j < FIELD_COUNT
    ensures OnlyAt(e, i, s, j)
  {
  }

  lemma WithTextMiddle(e: Event, i: nat, s: string, j: nat)
    requires i in TEXT_FIELDS && 10 <= i < 20 && j < FIELD_COUNT
    ensures OnlyAt(e, i, s, j)
  {
  }

  lemma WithTextHigh(e: Event, i: nat, s: string, j: nat)
    requires i in TEXT_FIELDS && i >= 20 && j < FIELD_COUNT
    ensures OnlyAt(e, i, s, j)
  {
  }

  /** Only field i is changed. */
  lemma WithTextAt(e: Event, i: nat, s: string, j: nat)
    requires i in TEXT_FIELDS && j < FIELD_COUNT
    ensures OnlyAt(e, i, s, j)
  {
    if i < 10 {
      WithTextLow(e, i, s, j);
    } else if i < 20 {
      WithTextMiddle(e, i, s, j);
    } else {
      WithTextHigh(e, i, s, j);
    }
  }

  // ---------------------------------------------------------------- actor, targets, changes, payload

  lemma RolesTwin(p: Option<seq<string>>) returns (q: Option<seq<string>>)
    requires !Exact(RolesValue(p))
    ensures Twins(RolesValue(p), RolesValue(q))
  {
    var items := RolesValue(p).items;
    var i :| 0 <= i < |items| && !Exact(items[i]);
    var t := TextTwin(p.value[i]);
    ListTwins(items, i, Text(t));
    q := Some(p.value[i := t]);
    assert RolesValue(q).items == items[i := Text(t)];
  }

  function ActorWithText(a: Actor, j: nat, t: string): Actor {
    if j == 0 then a.(department := t)
    else if j == 1 then a.(id := t)
    else if j == 2 then a.(name := t)
    else a.(kind := t)
  }

  lemma ActorWithTextAt(a: Actor, j: nat, t: string)
    requires j < 5 && j != 3
    ensures ActorValue(ActorWithText(a, j, t)) == WithField(ActorValue(a), j, Text(t))
  {
    assert ActorValue(ActorWithText(a, j, t)).fields == WithField(ActorValue(a), j, Text(t)).fields;
  }

  lemma ActorWithRolesAt(a: Actor, q: Option<seq<string>>)
    ensures ActorValue(a.(roles := q)) == WithField(ActorValue(a), 3, RolesValue(q))
  {
    assert ActorValue(a.(roles := q)).fields == WithField(ActorValue(a), 3, RolesValue(q)).fields;
  }

  lemma ActorFlaw(a: Actor) returns (j: nat)
    ensures !Exact(ActorValue(a)) ==> Leading(ActorValue(a), j) && !Exact(ActorValue(a).fields[j].value)
  {
    j := 0;
    if !Exact(ActorValue(a)) {
      ActorFixed(a);
      j := FlawedField(ActorValue(a));
    }
  }

  lemma ActorFixed(a: Actor)
    ensures Fixed(Sort(Members(ActorValue(a)).Keys))
  {
    StructFixed(ActorValue(a));
  }

  lemma ActorTwin(a: Actor) returns (b: Actor)
    ensures !Exact(ActorValue(a)) ==> Twins(ActorValue(a), ActorValue(b))
  {
    b := a;
    if !Exact(ActorValue(a)) {
      var j := ActorFlaw(a);
      b := ActorFieldAt(a, j);
    }
  }

  lemma ActorFieldAt(a: Actor, j: nat) returns (b: Actor)
    requires Leading(ActorValue(a), j) && !Exact(ActorValue(a).fields[j].value)
    ensures Twins(ActorValue(a), ActorValue(b))
  {
    var v := ActorValue(a);
    if j == 3 {
      var q := RolesTwin(a.roles);
      ActorWithRolesAt(a, q);
      StructTwins(v, 3, RolesValue(q));
      b := a.(roles := q);
    } else {
      var t := TextTwin(v.fields[j].value.text);
      ActorWithTextAt(a, j, t);
      StructTwins(v, j, Text(t));
      b := ActorWithText(a, j, t);
    }
  }

  lemma TargetTwin(a: Target) returns (b: Target)
    ensures !Exact(TargetValue(a)) ==> Twins(TargetValue(a), TargetValue(b))
  {
    b := a;
    if !Exact(TargetValue(a)) {
      TargetFixed(a);
      var j := FlawedField(TargetValue(a));
      b := TargetFieldAt(a, j);
    }
  }

  lemma TargetFixed(a: Target)
    ensures Fixed(Sort(Members(TargetValue(a)).Keys))
  {
    StructFixed(TargetValue(a));
  }

  function TargetWithText(a: Target, j: nat, t: string): Target {
    if j == 0 then a.(id := t) else if j == 1 then a.(name := t) else a.(kind := t)
  }

  lemma TargetWithTextAt(a: Target, j: nat, t: string)
    requires j < 3
    ensures TargetValue(TargetWithText(a, j, t)) == WithField(TargetValue(a), j, Text(t))
  {
    assert TargetValue(TargetWithText(a, j, t)).fields == WithField(TargetValue(a), j, Text(t)).fields;
  }

  lemma TargetFieldAt(a: Target, j: nat) returns (b: Target)
    requires Leading(TargetValue(a), j) && !Exact(TargetValue(a).fields[j].value)
    ensures Twins(TargetValue(a), TargetValue(b))
  {
    var v := TargetValue(a);
    var t := TextTwin(v.fields[j].value.text);
    TargetWithTextAt(a, j, t);
    StructTwins(v, j, Text(t));
    b := TargetWithText(a, j, t);
  }

  lemma TargetsTwin(p: Option<seq<Target>>) returns (q: Option<seq<Target>>)
    requires !Exact(TargetsValue(p))
    ensures Twins(TargetsValue(p), TargetsValue(q))
  {
    var i := TargetsFlaw(p);
    var u := TargetTwin(p.value[i]);
    TargetsWith(p.value, i, u);
    ListTwins(TargetsValue(p).items, i, TargetValue(u));
    q := Some(p.value[i := u]);
  }

  lemma TargetsFlaw(p: Option<seq<Target>>) returns (i: nat)
    requires !Exact(TargetsValue(p))
    ensures p.Some? && i < |p.value| && !Exact(TargetValue(p.value[i]))
  {
    var items := TargetsValue(p).items;
    i :| 0 <= i < |items| && !Exact(items[i]);
  }

  lemma TargetsWith(ts: seq<Target>, i: nat, u: Target)
    requires i < |ts|
    ensures TargetsValue(Some(ts[i := u])) == List(TargetsValue(Some(ts)).items[i := TargetValue(u)])
  {
    assert TargetsValue(Some(ts[i := u])).items == TargetsValue(Some(ts)).items[i := TargetValue(u)];
  }

  lemma AnyTwin(p: Option<Value>) returns (q: Option<Value>)
    requires !Exact(AnyValue(p))
    ensures Twins(AnyValue(p), AnyValue(q))
  {
    var w := ValueTwin(p.value);
    RefTwins(p.value, w);
    q := Some(w);
  }

  lemma ChangeTwin(c: FieldChange) returns (d: FieldChange)
    ensures !Exact(ChangeValue(c)) ==> Twins(ChangeValue(c), ChangeValue(d))
  {
    d := c;
    if !Exact(ChangeValue(c)) {
      ChangeFixed(c);
      var j := FlawedField(ChangeValue(c));
      d := ChangeFieldAt(c, j);
    }
  }

  lemma ChangeFixed(c: FieldChange)
    ensures Fixed(Sort(Members(ChangeValue(c)).Keys))
  {
    StructFixed(ChangeValue(c));
  }

  lemma ChangeFieldAt(c: FieldChange, j: nat) returns (d: FieldChange)
    requires Leading(ChangeValue(c), j) && !Exact(ChangeValue(c).fields[j].value)
    ensures Twins(ChangeValue(c), ChangeValue(d))
  {
    var v := ChangeValue(c);
    var q := AnyTwin(if j == 0 then c.after else c.before);
    d := if j == 0 then c.(after := q) else c.(before := q);
    StructTwins(v, j, AnyValue(q));
    assert ChangeValue(d).fields == WithField(v, j, AnyValue(q)).fields;
  }

  /** Where a map is not exact: a key that can move, or an entry that is not exact. */
  datatype Flaw = Key(k: string, l: string) | Entry(k: string)

  lemma DictFlaw(entries: map<string, Value>) returns (flaw: Flaw)
    requires !Exact(Dict(entries))
    ensures match flaw
            case Key(k, l) => k in entries && Twins(Dict(entries), Dict(Moved(entries, k, l)))
            case Entry(k) => k in entries && !Exact(entries[k])
  {
    if Fixed(Sort(entries.Keys)) {
      var k :| k in entries && !Exact(entries[k]);
      flaw := Entry(k);
    } else {
      var ks := Sort(entries.Keys);
      var i: nat, l: string :| Movable(ks, i, l);
      KeyTwins(Dict(entries), ks, i, l);
      flaw := Key(ks[i], l);
    }
  }

  function ChangeEntries(m: map<string, FieldChange>): map<string, Value> { map k | k in m :: ChangeValue(m[k]) }

  lemma ChangesTwin(p: Option<map<string, FieldChange>>) returns (q: Option<map<string, FieldChange>>)
    requires !Exact(ChangesValue(p))
    ensures Twins(ChangesValue(p), ChangesValue(q))
  {
    var m := p.value;
    assert ChangesValue(p) == Dict(ChangeEntries(m));
    var flaw := DictFlaw(ChangeEntries(m));
    match flaw {
      case Key(k, l) => q := ChangesKeyTwin(m, k, l);
      case Entry(k) => q := ChangesEntryTwin(m, k);
    }
  }

  lemma ChangesKeyTwin(m: map<string, FieldChange>, k: string, l: string) returns (q: Option<map<string, FieldChange>>)
    requires k in ChangeEntries(m) && Twins(Dict(ChangeEntries(m)), Dict(Moved(ChangeEntries(m), k, l)))
    ensures Twins(Dict(ChangeEntries(m)), ChangesValue(q))
  {
    ChangesMoved(m, k, l);
    q := Some(Moved(m, k, l));
  }

  lemma ChangesMoved(m: map<string, FieldChange>, k: string, l: string)
    requires k in m
    ensures ChangesValue(Some(Moved(m, k, l))) == Dict(Moved(ChangeEntries(m), k, l))
  {
    assert ChangesValue(Some(Moved(m, k, l))).entries == Moved(ChangeEntries(m), k, l);
  }

  lemma ChangesEntryTwin(m: map<string, FieldChange>, k: string) returns (q: Option<map<string, FieldChange>>)
    requires k in m && !Exact(ChangeValue(m[k]))
    ensures Twins(Dict(ChangeEntries(m)), ChangesValue(q))
  {
    var d := ChangeTwin(m[k]);
    DictTwins(ChangeEntries(m), k, ChangeValue(d));
    q := Some(m[k := d]);
    assert ChangesValue(q).entries == ChangeEntries(m)[k := ChangeValue(d)];
  }

  function AnyEntries(m: map<string, Option<Value>>): map<string, Value> { map k | k in m :: AnyValue(m[k]) }

  lemma PayloadTwin(p: Option<map<string, Option<Value>>>) returns (q: Option<map<string, Option<Value>>>)
    requires !Exact(PayloadValue(p))
    ensures Twins(PayloadValue(p), PayloadValue(q))
  {
    var m := p.value;
    assert PayloadValue(p) == Dict(AnyEntries(m));
    var flaw := DictFlaw(AnyEntries(m));
    match flaw {
      case Key(k, l) => q := PayloadKeyTwin(m, k, l);
      case Entry(k) => q := PayloadEntryTwin(m, k);
    }
  }

  lemma PayloadKeyTwin(m: map<string, Option<Value>>, k: string, l: string)
    returns (q: Option<map<string, Option<Value>>>)
    requires k in AnyEntries(m) && Twins(Dict(AnyEntries(m)), Dict(Moved(AnyEntries(m), k, l)))
    ensures Twins(Dict(AnyEntries(m)), PayloadValue(q))
  {
    PayloadMoved(m, k, l);
    q := Some(Moved(m, k, l));
  }

  lemma PayloadMoved(m: map<string, Option<Value>>, k: string, l: string)
    requires k in m
    ensures PayloadValue(Some(Moved(m, k, l))) == Dict(Moved(AnyEntries(m), k, l))
  {
    assert PayloadValue(Some(Moved(m, k, l))).entries == Moved(AnyEntries(m), k, l);
  }

  lemma PayloadEntryTwin(m: map<string, Option<Value>>, k: string) returns (q: Option<map<string, Option<Value>>>)
    requires k in m && !Exact(AnyValue(m[k]))
    ensures Twins(Dict(AnyEntries(m)), PayloadValue(q))
  {
    var d := AnyTwin(m[k]);
    DictTwins(AnyEntries(m), k, AnyValue(d));
    q := Some(m[k := d]);
    assert PayloadValue(q).entries == AnyEntries(m)[k := AnyValue(d)];
  }

  // ---------------------------------------------------------------- events

  /** The events differ in field i alone, and there they are twins. */
  predicate TwinAt(x: Event, y: Event, i: nat) {
    && i < FIELD_COUNT && Twins(ValueAt(x, i), ValueAt(y, i))
    && forall j | 0 <= j < FIELD_COUNT && j != i :: ValueAt(y, j) == ValueAt(x, j)
  }

  lemma TwinAtField(x: Event, y: Event, i: nat, v: Value, w: Value)
    requires i < FIELD_COUNT && ValueAt(x, i) == v && ValueAt(y, i) == w && Twins(v, w)
    requires forall j | 0 <= j < FIELD_COUNT && j != i :: ValueAt(y, j) == ValueAt(x, j)
    ensures TwinAt(x, y, i)
  {
  }

  predicate Unprocessed(e: Event) { WithoutProcessing(e) == e }

  lemma OnlyActor(x: Event, a: Actor, j: nat)
    requires j != 1
    ensures ValueAt(x.(actor := a), j) == ValueAt(x, j)
  {
  }

  lemma ActorFieldTwin(x: Event) returns (y: Event)
    requires Unprocessed(x)
    ensures Unprocessed(y) && (!Exact(ActorValue(x.actor)) ==> TwinAt(x, y, 1))
  {
    var a := ActorTwin(x.actor);
    y := x.(actor := a);
    if !Exact(ActorValue(x.actor)) { ActorTwinAt(x, a); }
  }

  lemma ActorTwinAt(x: Event, a: Actor)
    requires Twins(ActorValue(x.actor), ActorValue(a))
    ensures TwinAt(x, x.(actor := a), 1)
  {
    var y := x.(actor := a);
    forall j | 0 <= j < FIELD_COUNT && j != 1 ensures ValueAt(y, j) == ValueAt(x, j) { OnlyActor(x, a, j); }
    TwinAtField(x, y, 1, ActorValue(x.actor), ActorValue(a));
  }

  lemma OnlyChanges(x: Event, q: Option<map<string, FieldChange>>, j: nat)
    requires j != 6
    ensures ValueAt(x.(changedFields := q), j) == ValueAt(x, j)
  {
  }

  lemma ChangesFieldTwin(x: Event) returns (y: Event)
    requires Unprocessed(x) && !Exact(ChangesValue(x.changedFields))
    ensures Unprocessed(y) && TwinAt(x, y, 6)
  {
    var q := ChangesTwin(x.changedFields);
    ChangesTwinAt(x, q);
    y := x.(changedFields := q);
  }

  lemma ChangesTwinAt(x: Event, q: Option<map<string, FieldChange>>)
    requires Twins(ChangesValue(x.changedFields), ChangesValue(q))
    ensures TwinAt(x, x.(changedFields := q), 6)
  {
    var y := x.(changedFields := q);
    forall j | 0 <= j < FIELD_COUNT && j != 6 ensures ValueAt(y, j) == ValueAt(x, j) { OnlyChanges(x, q, j); }
    TwinAtField(x, y, 6, ChangesValue(x.changedFields), ChangesValue(q));
  }

  lemma OnlyPayload(x: Event, q: Option<map<string, Option<Value>>>, j: nat)
    requires j != 17
    ensures ValueAt(x.(payload := q), j) == ValueAt(x, j)
  {
  }

  lemma PayloadFieldTwin(x: Event) returns (y: Event)
    requires Unprocessed(x) && !Exact(PayloadValue(x.payload))
    ensures Unprocessed(y) && TwinAt(x, y, 17)
  {
    var q := PayloadTwin(x.payload);
    PayloadTwinAt(x, q);
    y := x.(payload := q);
  }

  lemma PayloadTwinAt(x: Event, q: Option<map<string, Option<Value>>>)
    requires Twins(PayloadValue(x.payload), PayloadValue(q))
    ensures TwinAt(x, x.(payload := q), 17)
  {
    var y := x.(payload := q);
    forall j | 0 <= j < FIELD_COUNT && j != 17 ensures ValueAt(y, j) == ValueAt(x, j) { OnlyPayload(x, q, j); }
    TwinAtField(x, y, 17, PayloadValue(x.payload), PayloadValue(q));
  }

  lemma OnlyTargets(x: Event, q: Option<seq<Target>>, j: nat)
    requires j != 31
    ensures ValueAt(x.(targets := q), j) == ValueAt(x, j)
  {
  }

  lemma TargetsFieldTwin(x: Event) returns (y: Event)
    requires Unprocessed(x) && !Exact(TargetsValue(x.targets))
    ensures Unprocessed(y) && TwinAt(x, y, 31)
  {
    var q := TargetsTwin(x.targets);
    TargetsTwinAt(x, q);
    y := x.(targets := q);
  }

  lemma TargetsTwinAt(x: Event, q: Option<seq<Target>>)
    requires Twins(TargetsValue(x.targets), TargetsValue(q))
    ensures TwinAt(x, x.(targets := q), 31)
  {
    var y := x.(targets := q);
    forall j | 0 <= j < FIELD_COUNT && j != 31 ensures ValueAt(y, j) == ValueAt(x, j) { OnlyTargets(x, q, j); }
    TwinAtField(x, y, 31, TargetsValue(x.targets), TargetsValue(q));
  }

  lemma ZeroedValid()
    ensures ValidUtf8("") && ValidUtf8(ZERO_TIME)
  {
    AsciiValid(ZERO_TIME);
  }

  lemma OnlyOccurredAt(x: Event, t: string, j: nat)
    requires j != 14
    ensures ValueAt(x.(occurredAt := t), j) == ValueAt(x, j)
  {
  }

  lemma InstantFieldTwin(x: Event) returns (y: Event)
    requires Unprocessed(x) && !Exact(Time(x.occurredAt))
    ensures Unprocessed(y) && TwinAt(x, y, 14)
  {
    var t := TextTwin(x.occurredAt);
    y := x.(occurredAt := t);
    forall j | 0 <= j < FIELD_COUNT && j != 14 ensures ValueAt(y, j) == ValueAt(x, j) { OnlyOccurredAt(x, t, j); }
    TwinAtField(x, y, 14, Time(x.occurredAt), Time(t));
  }

  /** What the other fields hold once processing fields are zeroed. */
  lemma PlainField(x: Event, i: nat)
    requires Unprocessed(x) && i < FIELD_COUNT && i != 1 && i != 6 && i != 14 && i != 17 && i != 31
    ensures if i in TEXT_FIELDS then ValueAt(x, i).Text?
            else ValueAt(x, i) == Text("") || ValueAt(x, i) == Time(ZERO_TIME) || ValueAt(x, i).Int?
  {
  }

  /** Of those only a text can be flawed, and not one that is zeroed. */
  lemma FlawedText(x: Event, i: nat)
    requires Unprocessed(x) && i < FIELD_COUNT && !Exact(ValueAt(x, i))
    requires i != 1 && i != 6 && i != 14 && i != 17 && i != 31
    ensures i in TEXT_FIELDS && ValueAt(x, i).Text?
  {
    PlainField(x, i);
    ZeroedValid();
    assert Exact(Text("")) && Exact(Time(ZERO_TIME));
  }

  lemma TextKeepsProcessing(x: Event, i: nat, s: string)
    requires Unprocessed(x)
    ensures Unprocessed(WithText(x, i, s))
  {
  }

  lemma TextTwinAt(x: Event, i: nat, t: string)
    requires i in TEXT_FIELDS && Twins(ValueAt(x, i), Text(t))
    ensures TwinAt(x, WithText(x, i, t), i)
  {
    var y := WithText(x, i, t);
    forall j | 0 <= j < FIELD_COUNT ensures ValueAt(y, j) == if j == i then Text(t) else ValueAt(x, j) {
      WithTextAt(x, i, t, j);
    }
  }

  lemma TextFieldTwin(x: Event, i: nat) returns (y: Event)
    requires Unprocessed(x) && i in TEXT_FIELDS && ValueAt(x, i).Text? && !Exact(ValueAt(x, i))
    ensures Unprocessed(y) && TwinAt(x, y, i)
  {
    var t := TextTwin(ValueAt(x, i).text);
    TextTwinAt(x, i, t);
    TextKeepsProcessing(x, i, t);
    y := WithText(x, i, t);
  }

  lemma FieldTwin(x: Event, i: nat) returns (y: Event)
    requires Unprocessed(x) && i < FIELD_COUNT && !Exact(ValueAt(x, i))
    ensures Unprocessed(y) && TwinAt(x, y, i)
  {
    if i == 1 {
      y := ActorFieldTwin(x);
    } else if i == 6 {
      y := ChangesFieldTwin(x);
    } else if i == 17 {
      y := PayloadFieldTwin(x);
    } else if i == 31 {
      y := TargetsFieldTwin(x);
    } else if i == 14 {
      y := InstantFieldTwin(x);
    } else {
      FlawedText(x, i);
      y := TextFieldTwin(x, i);
    }
  }

  /** An event that is not exact shares its preimage with an event of different content. */
  lemma InexactShares(e: Event) returns (f: Event)
    requires !Exact(ContentValue(e))
    ensures Preimage(f) == Preimage(e) && !SameContent(e, f)
  {
    var x := WithoutProcessing(e);
    EventFixed(x);
    var i := FlawedField(EventValue(x));
    f := FieldTwin(x, i);
    TwinEvents(x, f, i);
    ContentSame(e, f);
  }

  lemma TwinEvents(x: Event, y: Event, i: nat)
    requires TwinAt(x, y, i) && Leading(EventValue(x), i)
    ensures Alike(EventValue(x), EventValue(y)) && !Same(EventValue(x), EventValue(y))
  {
    var v := EventValue(x);
    StructTwins(v, i, ValueAt(y, i));
    assert EventValue(y).fields == WithField(v, i, ValueAt(y, i)).fields;
  }

  /** An event is known by its preimage iff its content is exact. */
  lemma PreimageExactIff(e: Event)
    requires Preimage(e).Some?
    ensures Exact(ContentValue(e)) <==> forall f | Preimage(f) == Preimage(e) :: SameContent(e, f)
  {
    if Exact(ContentValue(e)) {
      forall f | Preimage(f) == Preimage(e) ensures SameContent(e, f) { PreimageIffSameContent(e, f); }
    } else {
      var f := InexactShares(e);
    }
  }
}
