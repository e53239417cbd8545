/**
 The writer itself (internal/domain/canonical.go, `CanonicalJSON`, `writeCanonical` and
 `writeStruct`): it appends to a shared buffer as it walks the value, and stops at the
 first part it cannot write.
 */
module CanonicalWriter {
  import opened Bytes
  import opened Decimal
  import opened CanonicalNumber
  import opened JsonText
  import opened CanonicalJson
  import CanonicalReading
  import CanonicalUnique
  import opened JsonGrammar

  /** The bytes are a compact JSON text that spells the value, with the keys of every object in byte order. */
  method CanonicalJSON(v: Value) returns (r: Option<string>)
    ensures r == if Accepted(v) then Some(Print(Document(v))) else None
    ensures r.Some? ==> ReadsCompact(r.value, CanonicalReading.JsonOf(v))
    ensures r.Some? ==> forall j :: Reads(r.value, j) <==> j == CanonicalReading.JsonOf(v)
  {
    var b := new Buffer();
    var ok := WriteCanonical(b, v);
    if !ok { return None; }
    assert "" + Print(Document(v)) == Print(Document(v));
    CanonicalReading.CanonicalIsJson(v, JNull);
    forall j ensures Reads(Print(Document(v)), j) <==> j == CanonicalReading.JsonOf(v) {
      CanonicalReading.CanonicalIsJson(v, j);
    }
    return Some(b.data);
  }

  /** Appends the bytes of the document, or fails and leaves what was there before as a prefix. */
  method WriteCanonical(b: Buffer, v: Value) returns (ok: bool)
    modifies b
    ensures ok == Accepted(v)
    ensures ok ==> b.data == old(b.data) + Print(Document(v))
    ensures old(b.data) <= b.data
    decreases v, 1
  {
    ok := true;
    match v {
      case Ref(t) => ok := WriteCanonical(b, t);
      case Time(utc) => b.WriteString(Quote(utc));
      case Text(s) => b.WriteString(Quote(s));
      case Bool(truth) => b.WriteString(if truth then "true" else "false");
      case Numeral(s) =>
        NumeralText(s);
        ok := AppendNumber(b, s);
      case Int(i) =>
        b.WriteString(PlainText(IntForm(i)));
      case Real(f) =>
        match f {
          case NonFinite => ok := false;
          case Zero => b.WriteString("0");
          case Finite(negative, digits, scale) => b.WriteString(PlainText(Layout(negative, digits, scale)));
        }
      case List(_) => ok := WriteList(b, v);
      case Dict(_) => ok := WriteObject(b, v);
      case Struct(_) => ok := WriteObject(b, v);
      case Unsupported => ok := false;
      case NilRef => b.WriteString("null");
      case NilList => b.WriteString("null");
      case NilDict => b.WriteString("null");
    }
  }

  lemma NumeralText(s: string)
    ensures WriteNumber(s).Some? ==> WriteNumber(s).value == PlainText(NumberForm(Numeral(s)))
  {
    CanonicalUnique.ParseAccepted(s);
  }

  method WriteList(b: Buffer, v: Value) returns (ok: bool)
    requires v.List?
    modifies b
    ensures ok == Accepted(v)
    ensures ok ==> b.data == old(b.data) + Print(Document(v))
    ensures old(b.data) <= b.data
    decreases v, 0
  {
    b.WriteString("[");
    ok := WriteItems(b, v.items, Document(v).items);
    Opened(old(b.data), "[", PrintItems(Document(v).items, true));
  }

  /** The items in order, and the closing bracket. */
  method WriteItems(b: Buffer, items: seq<Value>, ghost docs: seq<Doc>) returns (ok: bool)
    requires |docs| == |items| && forall i | 0 <= i < |items| :: docs[i] == Document(items[i])
    modifies b
    ensures ok == forall i | 0 <= i < |items| :: Accepted(items[i])
    ensures ok ==> b.data == old(b.data) + PrintItems(docs, true)
    ensures old(b.data) <= b.data
    decreases items, 0
  {
    ghost var before := b.data;
    assert docs[0..] == docs;
    var i := 0;
    while i < |items|
      invariant 0 <= i <= |items|
      invariant forall j | 0 <= j < i :: Accepted(items[j])
      invariant b.data + PrintItems(docs[i..], i == 0) == before + PrintItems(docs, true)
      invariant before <= b.data
    {
      ghost var start := b.data;
      if i > 0 { b.WriteString(","); }
      ghost var comma := if i > 0 then "," else "";
      assert b.data == start + comma;
      ok := WriteCanonical(b, items[i]);
      if !ok { return; }
      assert docs[i..][1..] == docs[i + 1..];
      Regroup(start, comma, Print(docs[i]), PrintItems(docs[i + 1..], false));
      i := i + 1;
    }
    b.WriteString("]");
    ok := true;
  }

  lemma Regroup(start: string, comma: string, item: string, rest: string)
    ensures start + (comma + item + rest) == ((start + comma) + item) + rest
  {
  }

  method WriteObject(b: Buffer, v: Value) returns (ok: bool)
    requires v.Dict? || v.Struct?
    modifies b
    ensures ok == Accepted(v)
    ensures ok ==> b.data == old(b.data) + Print(Document(v))
    ensures old(b.data) <= b.data
    decreases v, 0
  {
    var m := Members(v);
    var keys := Sort(m.Keys);
    ghost var docs := ObjectParts(v, m, keys);
    b.WriteString("{");
    ok := WriteEntries(b, v, m, keys, docs);
    Opened(old(b.data), "{", PrintMembers(docs, true));
  }

  lemma Opened(start: string, open: string, rest: string)
    ensures (start + open) + rest == start + (open + rest)
  {
  }

  lemma ObjectParts(v: Value, m: map<string, Value>, keys: seq<string>) returns (docs: seq<Member>)
    requires (v.Dict? || v.Struct?) && m == Members(v) && keys == Sort(m.Keys)
    ensures forall i | 0 <= i < |keys| :: keys[i] in m && m[keys[i]] < v
    ensures |docs| == |keys| && forall i | 0 <= i < |keys| :: docs[i] == Member(Scan(keys[i]), Document(m[keys[i]]))
    ensures Accepted(v) <==> forall i | 0 <= i < |keys| :: Accepted(m[keys[i]])
    ensures Print(Document(v)) == "{" + PrintMembers(docs, true)
  {
    docs := ObjectDocs(v, m, keys);
    AllListed(m, keys);
    ObjectAccepted(v);
  }

  lemma ObjectDocs(v: Value, m: map<string, Value>, keys: seq<string>) returns (docs: seq<Member>)
    requires (v.Dict? || v.Struct?) && m == Members(v) && keys == Sort(m.Keys)
    ensures forall i | 0 <= i < |keys| :: keys[i] in m && m[keys[i]] < v
    ensures |docs| == |keys| && forall i | 0 <= i < |keys| :: docs[i] == Member(Scan(keys[i]), Document(m[keys[i]]))
    ensures Print(Document(v)) == "{" + PrintMembers(docs, true)
  {
    docs := ObjectMembers(v, m, keys);
    PrintObject(v);
  }

  lemma ObjectMembers(v: Value, m: map<string, Value>, keys: seq<string>) returns (docs: seq<Member>)
    requires (v.Dict? || v.Struct?) && m == Members(v) && keys == Sort(m.Keys)
    ensures forall i | 0 <= i < |keys| :: keys[i] in m && m[keys[i]] < v
    ensures docs == ObjectOf(v).members && |docs| == |keys|
    ensures forall i | 0 <= i < |keys| :: docs[i] == Member(Scan(keys[i]), Document(m[keys[i]]))
  {
    assert forall i | 0 <= i < |keys| :: keys[i] in keys;
    docs := ObjectOf(v).members;
  }

  lemma PrintObject(v: Value)
    requires v.Dict? || v.Struct?
    ensures Print(Document(v)) == "{" + PrintMembers(ObjectOf(v).members, true)
  {
    assert Document(v) == ObjectOf(v);
  }

  lemma AllListed(m: map<string, Value>, keys: seq<string>)
    requires forall k :: k in keys <==> k in m
    ensures forall i | 0 <= i < |keys| :: keys[i] in m
    ensures (forall k | k in m :: Accepted(m[k])) <==> forall i | 0 <= i < |keys| :: Accepted(m[keys[i]])
  {
    assert forall i | 0 <= i < |keys| :: keys[i] in keys;
    if forall i | 0 <= i < |keys| :: Accepted(m[keys[i]]) {
      forall k | k in m ensures Accepted(m[k]) {
        assert k in keys;
      }
    }
  }

  /** The members under `keys`, in that order, and the closing brace. */
  method WriteEntries(b: Buffer, ghost v: Value, m: map<string, Value>, keys: seq<string>, ghost docs: seq<Member>)
    returns (ok: bool)
    requires forall i | 0 <= i < |keys| :: keys[i] in m && m[keys[i]] < v
    requires |docs| == |keys| && forall i | 0 <= i < |keys| :: docs[i] == Member(Scan(keys[i]), Document(m[keys[i]]))
    modifies b
    ensures ok == forall i | 0 <= i < |keys| :: Accepted(m[keys[i]])
    ensures ok ==> b.data == old(b.data) + PrintMembers(docs, true)
    ensures old(b.data) <= b.data
    decreases v, 0, 0
  {
    ghost var before := b.data;
    var i := 0;
    assert docs[0..] == docs;
    while i < |keys|
      invariant 0 <= i <= |keys|
      invariant forall j | 0 <= j < i :: Accepted(m[keys[j]])
      invariant b.data + PrintMembers(docs[i..], i == 0) == before + PrintMembers(docs, true)
      invariant before <= b.data
    {
      ghost var start := b.data;
      if i > 0 { b.WriteString(","); }
      ghost var comma := if i > 0 then "," else "";
      assert b.data == start + comma;
      ok := WriteMember(b, keys[i], m[keys[i]]);
      if !ok { return; }
      assert docs[i..][1..] == docs[i + 1..];
      Regroup(start, comma, PrintMember(docs[i]), PrintMembers(docs[i + 1..], false));
      i := i + 1;
    }
    b.WriteString("}");
    ok := true;
  }

  method WriteMember(b: Buffer, key: string, value: Value) returns (ok: bool)
    modifies b
    ensures ok == Accepted(value)
    ensures ok ==> b.data == old(b.data) + PrintMember(Member(Scan(key), Document(value)))
    ensures old(b.data) <= b.data
    decreases value, 2
  {
    b.WriteString(Quote(key));
    b.WriteString(":");
    ok := WriteCanonical(b, value);
    Grouped(old(b.data), Quote(key), Print(Document(value)));
  }

  lemma Grouped(start: string, key: string, doc: string)
    ensures ((start + key) + ":") + doc == start + (key + (":" + doc))
  {
  }
}
