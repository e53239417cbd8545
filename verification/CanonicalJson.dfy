/**
 Canonical JSON (internal/domain/canonical.go, `CanonicalJSON`, `writeCanonical`,
 `writeStruct` and `jsonIsEmptyValue`): the hash preimage of the ledger.

 `Value` is what the writer can be handed, as reflection shows it. `Doc` is the JSON
 document that the written bytes spell: numbers as normal forms, text as the runes the
 encoder read, object members in key order.
 */
module CanonicalJson {
  import opened Bytes
  import opened Decimal
  import opened Number
  import opened CanonicalNumber
  import opened JsonText

  // ---------------------------------------------------------------- values

  type SignificantDigits = s: string | Significant(s) witness "1"

  /** A float, known by the shortest decimal that reads back as it (digits times ten to the -scale). */
  datatype Float = NonFinite | Zero | Finite(negative: bool, digits: SignificantDigits, scale: int)

  datatype Value =
    | NilRef                                  // a nil interface or pointer, or no value at all
    | Ref(target: Value)                      // a non-nil interface or pointer
    | Time(utc: string)                       // an instant, as its RFC 3339 text in UTC
    | Numeral(literal: string)                // json.Number
    | Text(text: string)
    | Bool(truth: bool)
    | Int(number: int)                        // every signed and unsigned integer kind
    | Real(float: Float)
    | NilList
    | List(items: seq<Value>)                 // slices and arrays
    | NilDict
    | Dict(entries: map<string, Value>)       // maps with string keys
    | Struct(fields: seq<Field>)
    | Unsupported                             // functions, channels, complex numbers, other map keys

  datatype Field = Field(name: string, omitEmpty: bool, value: Value)

  /** `jsonIsEmptyValue` */
  predicate Empty(v: Value) {
    match v
    case List(items) => items == []
    case Dict(entries) => entries == map[]
    case NilList => true
    case NilDict => true
    case NilRef => true
    case Text(s) => s == ""
    case Numeral(s) => s == ""
    case Bool(b) => !b
    case Int(i) => i == 0
    case Real(f) => f.Zero?
    case _ => false
  }

  predicate Omitted(f: Field) { f.omitEmpty && Empty(f.value) }

  /** The fields of a struct that are written, by name, from index i on. */
  function Kept(v: Value, i: nat): (m: map<string, Value>)
    requires v.Struct? && i <= |v.fields|
    ensures forall k | k in m :: m[k] < v
    decreases |v.fields| - i
  {
    if i == |v.fields| then map[]
    else
      var f := v.fields[i];
      if Omitted(f) then Kept(v, i + 1) else Kept(v, i + 1)[f.name := f.value]
  }

  /** The members of the object a map or struct is written as. */
  function Members(v: Value): (m: map<string, Value>)
    ensures forall k | k in m :: m[k] < v
  {
    match v
    case Dict(entries) => entries
    case Struct(_) => Kept(v, 0)
    case _ => map[]
  }

  // ---------------------------------------------------------------- documents

  datatype Doc =
    | Null
    | Truth(b: bool)
    | Number(plain: Plain)
    | Runes(units: seq<Unit>)
    | Array(items: seq<Doc>)
    | Object(members: seq<Member>)

  datatype Member = Member(key: seq<Unit>, doc: Doc)

  predicate ValidUnits(us: seq<Unit>) { forall u | u in us :: ValidUnit(u) }

  predicate WellFormed(d: Doc) {
    match d
    case Number(p) => Normal(p)
    case Runes(us) => ValidUnits(us)
    case Array(items) => forall i | 0 <= i < |items| :: WellFormed(items[i])
    case Object(ms) => forall i | 0 <= i < |ms| :: ValidUnits(ms[i].key) && WellFormed(ms[i].doc)
    case _ => true
  }

  /** The bytes that spell a document. */
  function Print(d: Doc): string
    decreases d, 0
  {
    match d
    case Null => "null"
    case Truth(b) => if b then "true" else "false"
    case Number(p) => PlainText(p)
    case Runes(us) => QuoteUnits(us)
    case Array(items) => "[" + PrintItems(items, true)
    case Object(ms) => "{" + PrintMembers(ms, true)
  }

  /** The rest of an array from some item on; a comma goes before all but the first. */
  function PrintItems(items: seq<Doc>, first: bool): string
    decreases items, 1
  {
    if items == [] then "]"
    else (if first then "" else ",") + Print(items[0]) + PrintItems(items[1..], false)
  }

  function PrintMembers(ms: seq<Member>, first: bool): string
    decreases ms, 1
  {
    if ms == [] then "}"
    else (if first then "" else ",") + PrintMember(ms[0]) + PrintMembers(ms[1..], false)
  }

  function PrintMember(m: Member): string
    decreases m, 1
  {
    QuoteUnits(m.key) + (":" + Print(m.doc))
  }

  // ---------------------------------------------------------------- the document of a value

  /** `strconv.FormatInt` in base ten. */
  function DecimalDigits(n: nat): (s: string)
    ensures s != ""
  {
    if n < 10 then [('0' as int + n) as char] else DecimalDigits(n / 10) + [('0' as int + n % 10) as char]
  }

  function IntForm(i: int): Plain {
    if i < 0 then Plain(true, DecimalDigits(-i), "") else Plain(false, DecimalDigits(i), "")
  }

  /** The writer's verdict on a value. */
  predicate Accepted(v: Value) {
    match v
    case Ref(t) => Accepted(t)
    case Numeral(s) => WriteNumber(s).Some?
    case Real(f) => !f.NonFinite?
    case List(items) => forall i | 0 <= i < |items| :: Accepted(items[i])
    case Dict(entries) => forall k | k in entries :: Accepted(entries[k])
    case Struct(fields) => var m := Members(v); forall k | k in m :: Accepted(m[k])
    case Unsupported => false
    case _ => true
  }

  function NumberForm(v: Value): Plain {
    match v
    case Numeral(s) => (match ParseNumber(s) case Some(l) => NormalForm(l) case None => Plain(false, "0", ""))
    case Real(Finite(negative, digits, scale)) => Layout(negative, digits, scale)
    case Int(i) => IntForm(i)
    case _ => Plain(false, "0", "")
  }

  function ObjectOf(v: Value): Doc
    requires v.Dict? || v.Struct?
    decreases v, 0
  {
    var m := Members(v);
    var keys := Sort(m.Keys);
    Object(seq(|keys|, i requires 0 <= i < |keys| =>
      assert keys[i] in keys; Member(Scan(keys[i]), Document(m[keys[i]]))))
  }

  /** The document a value means; it is what an accepted value is written as. */
  function Document(v: Value): Doc
    decreases v, 1
  {
    match v
    case Ref(t) => Document(t)
    case Time(utc) => Runes(Scan(utc))
    case Text(s) => Runes(Scan(s))
    case Bool(b) => Truth(b)
    case Numeral(_) => Number(NumberForm(v))
    case Int(_) => Number(NumberForm(v))
    case Real(_) => Number(NumberForm(v))
    case List(items) => Array(seq(|items|, i requires 0 <= i < |items| => Document(items[i])))
    case Dict(_) => ObjectOf(v)
    case Struct(_) => ObjectOf(v)
    case _ => Null
  }

  lemma ObjectAccepted(v: Value)
    requires v.Dict? || v.Struct?
    ensures Accepted(v) <==> forall k | k in Members(v) :: Accepted(Members(v)[k])
  {
    var m := Members(v);
    if v.Dict? {
      assert m == v.entries;
    } else {
      assert Accepted(v) <==> forall k | k in m :: Accepted(m[k]);
    }
  }
}
