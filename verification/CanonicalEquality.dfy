/**
 What it takes for two values to be written alike, said on the values: references are
 looked through, numbers count by their real value whatever their Go type or spelling,
 instants by their text, objects by their members in any order.
 */
module CanonicalEquality {
  import opened Bytes
  import opened Decimal
  import opened JsonText
  import opened CanonicalJson
  import opened CanonicalUnique

  /** All text in the value is valid UTF-8. */
  predicate Utf8(v: Value) {
    match v
    case Ref(t) => Utf8(t)
    case Time(s) => ValidUtf8(s)
    case Text(s) => ValidUtf8(s)
    case List(items) => forall i | 0 <= i < |items| :: Utf8(items[i])
    case Dict(entries) => forall k | k in entries :: ValidUtf8(k) && Utf8(entries[k])
    case Struct(_) => var m := Members(v); forall k | k in m :: ValidUtf8(k) && Utf8(m[k])
    case _ => true
  }

  /** Another text that reads as the i-th key does and fits between the keys beside it. */
  predicate Movable(ks: seq<string>, i: nat, l: string) {
    && i < |ks| && l != ks[i] && Scan(l) == Scan(ks[i])
    && (i > 0 ==> Less(ks[i - 1], l)) && (i + 1 < |ks| ==> Less(l, ks[i + 1]))
  }

  /** No key of the list can be exchanged for another. */
  ghost predicate Fixed(ks: seq<string>) { forall i: nat, l: string :: !Movable(ks, i, l) }

  /**
   All text in the value is valid UTF-8, except that a map key need only be fixed by how it
   reads and where it stands.
   */
  ghost predicate Exact(v: Value) {
    match v
    case Ref(t) => Exact(t)
    case Time(s) => ValidUtf8(s)
    case Text(s) => ValidUtf8(s)
    case List(items) => forall i | 0 <= i < |items| :: Exact(items[i])
    case Dict(entries) => Fixed(Sort(entries.Keys)) && forall k | k in entries :: Exact(entries[k])
    case Struct(_) => var m := Members(v); Fixed(Sort(m.Keys)) && forall k | k in m :: Exact(m[k])
    case _ => true
  }

  lemma ValidFixed(ks: seq<string>)
    requires forall i | 0 <= i < |ks| :: ValidUtf8(ks[i])
    ensures Fixed(ks)
  {
    forall i: nat, l: string | i < |ks| && Scan(l) == Scan(ks[i]) ensures l == ks[i] {
      QuoteInjective(ks[i], l);
    }
  }

  lemma ValidKeysFixed(keys: set<string>)
    requires forall k | k in keys :: ValidUtf8(k)
    ensures Fixed(Sort(keys))
  {
    var ks := Sort(keys);
    assert forall i | 0 <= i < |ks| :: ks[i] in ks;
    ValidFixed(ks);
  }

  /** Valid UTF-8 throughout is one way to be exact. */
  lemma {:induction false} Utf8IsExact(v: Value)
    requires Utf8(v)
    ensures Exact(v)
    decreases v
  {
    match v {
      case Ref(t) => Utf8IsExact(t);
      case List(items) =>
        forall i | 0 <= i < |items| ensures Exact(items[i]) { Utf8IsExact(items[i]); }
      case Dict(entries) =>
        ValidKeysFixed(entries.Keys);
        forall k | k in entries ensures Exact(entries[k]) { Utf8IsExact(entries[k]); }
      case Struct(_) =>
        var m := Members(v);
        ValidKeysFixed(m.Keys);
        forall k | k in m ensures Exact(m[k]) { Utf8IsExact(m[k]); }
      case _ =>
    }
  }

  predicate IsText(v: Value) { v.Text? || v.Time? }

  function TextOf(v: Value): string
    requires IsText(v)
  {
    if v.Text? then v.text else v.utc
  }

  predicate IsObject(v: Value) { v.Dict? || v.Struct? }

  predicate IsNull(v: Value) { v.NilRef? || v.NilList? || v.NilDict? }

  /** Equal as JSON values. */
  predicate Same(v: Value, w: Value)
    decreases v, w
  {
    if v.Ref? then Same(v.target, w)
    else if w.Ref? then Same(v, w.target)
    else if IsNull(v) then IsNull(w)
    else if IsText(v) then IsText(w) && TextOf(v) == TextOf(w)
    else if IsNumber(v) then IsNumber(w) && Magnitude(v) == Magnitude(w)
    else if v.Bool? then v == w
    else if v.List? then
      w.List? && |v.items| == |w.items| && forall i | 0 <= i < |v.items| :: Same(v.items[i], w.items[i])
    else if IsObject(v) then
      IsObject(w) && SameMembers(v, w)
    else w == v
  }

  predicate SameMembers(v: Value, w: Value)
    requires IsObject(v) && IsObject(w)
    decreases v, w, 0
  {
    var m, n := Members(v), Members(w);
    m.Keys == n.Keys && forall k | k in m :: Same(m[k], n[k])
  }

  /** The kind of document a value is written as. */
  function KindOf(v: Value): nat {
    if IsNull(v) then 0
    else if v.Bool? then (if v.truth then 1 else 2)
    else if IsText(v) then 3
    else if v.List? then 4
    else if IsObject(v) then 5
    else 6
  }

  lemma DocumentKind(v: Value)
    requires Accepted(v) && !v.Ref?
    ensures DocKind(Document(v)) == KindOf(v)
  {
  }

  lemma KindsDiffer(v: Value, w: Value)
    requires Accepted(v) && Accepted(w) && !v.Ref? && !w.Ref? && KindOf(v) != KindOf(w)
    ensures Document(v) != Document(w) && !Same(v, w)
  {
    DocumentKind(v);
    DocumentKind(w);
    SameKinds(v, w);
  }

  lemma SameKinds(v: Value, w: Value)
    requires !v.Ref? && !w.Ref?
    ensures Same(v, w) ==> KindOf(v) == KindOf(w)
  {
  }

  lemma {:induction false} SameIffDocument(v: Value, w: Value)
    requires Accepted(v) && Accepted(w) && Exact(v)
    ensures Document(v) == Document(w) <==> Same(v, w)
    decreases v, w
  {
    if v.Ref? {
      SameIffDocument(v.target, w);
    } else if w.Ref? {
      SameIffDocument(v, w.target);
    } else if KindOf(v) != KindOf(w) {
      KindsDiffer(v, w);
    } else if KindOf(v) < 3 {
    } else if KindOf(v) == 3 {
      SameTexts(v, w);
    } else if KindOf(v) == 4 {
      SameLists(v, w);
    } else if KindOf(v) == 5 {
      SameObjects(v, w);
    } else {
      SameNumber(v, w);
    }
  }

  lemma SameTexts(v: Value, w: Value)
    requires IsText(v) && IsText(w) && Exact(v)
    ensures Document(v) == Document(w) <==> Same(v, w)
  {
    QuoteInjective(TextOf(v), TextOf(w));
  }

  lemma SameNumber(v: Value, w: Value)
    requires IsNumber(v) && IsNumber(w)
    ensures Accepted(v) && Accepted(w) ==> (Document(v) == Document(w) <==> Same(v, w))
  {
    if Accepted(v) && Accepted(w) {
      NumberFormNormal(v);
      NumberFormNormal(w);
      SameForms(NumberForm(v), NumberForm(w));
      NumberDocument(v);
      NumberDocument(w);
      NumbersSame(v, w);
    }
  }

  lemma NumberDocument(v: Value)
    requires IsNumber(v)
    ensures Document(v) == Number(NumberForm(v))
  {
  }

  lemma NumbersSame(v: Value, w: Value)
    requires IsNumber(v) && IsNumber(w)
    ensures Same(v, w) <==> Magnitude(v) == Magnitude(w)
  {
  }

  lemma SameForms(p: Plain, q: Plain)
    requires Normal(p) && Normal(q)
    ensures p == q <==> PlainValue(p) == PlainValue(q)
  {
    if PlainValue(p) == PlainValue(q) { NormalUnique(p, q); }
  }

  lemma {:induction false} SameLists(v: Value, w: Value)
    requires v.List? && w.List? && Accepted(v) && Accepted(w) && Exact(v)
    ensures Document(v) == Document(w) <==> Same(v, w)
    decreases v, w, 0
  {
    var a, b := Document(v).items, Document(w).items;
    if |v.items| == |w.items| {
      forall i | 0 <= i < |v.items| ensures a[i] == b[i] <==> Same(v.items[i], w.items[i]) {
        SameIffDocument(v.items[i], w.items[i]);
      }
      assert a == b <==> forall i | 0 <= i < |a| :: a[i] == b[i];
    } else {
      assert |a| != |b|;
    }
  }

  lemma {:induction false} SameObjects(v: Value, w: Value)
    requires IsObject(v) && IsObject(w) && Accepted(v) && Accepted(w) && Exact(v)
    ensures Document(v) == Document(w) <==> Same(v, w)
    decreases v, w, 0
  {
    var m, n := Members(v), Members(w);
    forall k | k in m && k in n ensures Document(m[k]) == Document(n[k]) <==> Same(m[k], n[k]) {
      SameIffDocument(m[k], n[k]);
    }
    assert Same(v, w) <==> AgreeByKey(m, n);
    if AgreeByKey(m, n) { ObjectsAgree(v, w); }
    if ObjectOf(v) == ObjectOf(w) { ObjectsEqual(v, w); }
  }

  ghost predicate AgreeByKey(m: map<string, Value>, n: map<string, Value>) {
    m.Keys == n.Keys && forall k | k in m :: Document(m[k]) == Document(n[k])
  }

  lemma ObjectsAgree(v: Value, w: Value)
    requires IsObject(v) && IsObject(w) && AgreeByKey(Members(v), Members(w))
    ensures ObjectOf(v) == ObjectOf(w)
  {
    var m, n := Members(v), Members(w);
    var ks := Sort(m.Keys);
    var a, b := ObjectOf(v).members, ObjectOf(w).members;
    forall i | 0 <= i < |ks| ensures a[i] == b[i] {
      assert ks[i] in ks;
    }
  }

  /** Equal objects, the first with fixed keys, agree key by key. */
  lemma ObjectsEqual(v: Value, w: Value)
    requires IsObject(v) && IsObject(w) && ObjectOf(v) == ObjectOf(w)
    requires Fixed(Sort(Members(v).Keys))
    ensures AgreeByKey(Members(v), Members(w))
  {
    var m, n := Members(v), Members(w);
    var ks, ls := Sort(m.Keys), Sort(n.Keys);
    var a := ObjectOf(v).members;
    MembersListed(v);
    MembersListed(w);
    SameKeys(ks, ls, a);
    AgreeByList(m, n, ks, a);
  }

  lemma AgreeByList(m: map<string, Value>, n: map<string, Value>, ks: seq<string>, a: seq<Member>)
    requires (forall k :: k in ks <==> k in m) && (forall k :: k in ks <==> k in n) && |a| == |ks|
    requires forall i | 0 <= i < |ks| :: ks[i] in m && a[i].doc == Document(m[ks[i]])
    requires forall i | 0 <= i < |ks| :: ks[i] in n && a[i].doc == Document(n[ks[i]])
    ensures AgreeByKey(m, n)
  {
    assert m.Keys == n.Keys;
    forall k | k in m ensures Document(m[k]) == Document(n[k]) {
      assert k in ks;
      var i :| 0 <= i < |ks| && ks[i] == k;
      assert a[i].doc == Document(m[k]);
    }
  }

  lemma MembersListed(v: Value)
    requires IsObject(v)
    ensures var ks, a := Sort(Members(v).Keys), ObjectOf(v).members;
            |a| == |ks| && forall i | 0 <= i < |ks| ::
              ks[i] in Members(v) && a[i] == Member(Scan(ks[i]), Document(Members(v)[ks[i]]))
  {
    var ks := Sort(Members(v).Keys);
    assert forall i | 0 <= i < |ks| :: ks[i] in ks;
  }

  /** Key lists that read alike are equal when the first is fixed. */
  lemma SameKeys(ks: seq<string>, ls: seq<string>, a: seq<Member>)
    requires Sorted(ks) && Sorted(ls) && |ks| == |ls| == |a| && Fixed(ks)
    requires forall i | 0 <= i < |ks| :: a[i].key == Scan(ks[i]) == Scan(ls[i])
    ensures ks == ls
  {
    if ks != ls {
      var i, l := OneMoves(ks, ls);
      assert false;
    }
  }

  /** Where two increasing lists read alike and differ, one key of the first can move on its own. */
  lemma OneMoves(ks: seq<string>, ls: seq<string>) returns (i: nat, l: string)
    requires Sorted(ks) && Sorted(ls) && |ks| == |ls| && ks != ls
    requires forall j | 0 <= j < |ks| :: Scan(ks[j]) == Scan(ls[j])
    ensures Movable(ks, i, l)
  {
    if j :| 0 <= j < |ks| && Less(ks[j], ls[j]) {
      i := LastUp(ks, ls, j);
      UpMoves(ks, ls, i);
    } else {
      var j :| 0 <= j < |ks| && ks[j] != ls[j];
      LessTotal(ks[j], ls[j]);
      i := FirstDown(ks, ls, j);
      DownMoves(ks, ls, i);
    }
    l := ls[i];
  }

  lemma {:induction false} LastUp(ks: seq<string>, ls: seq<string>, j: nat) returns (i: nat)
    requires |ks| == |ls| && j < |ks| && Less(ks[j], ls[j])
    ensures i < |ks| && Less(ks[i], ls[i]) && (i + 1 < |ks| ==> !Less(ks[i + 1], ls[i + 1]))
    decreases |ks| - j
  {
    i := j;
    if j + 1 < |ks| && Less(ks[j + 1], ls[j + 1]) { i := LastUp(ks, ls, j + 1); }
  }

  lemma {:induction false} FirstDown(ks: seq<string>, ls: seq<string>, j: nat) returns (i: nat)
    requires |ks| == |ls| && j < |ks| && Less(ls[j], ks[j])
    ensures i < |ks| && Less(ls[i], ks[i]) && (i > 0 ==> !Less(ls[i - 1], ks[i - 1]))
    decreases j
  {
    i := j;
    if j > 0 && Less(ls[j - 1], ks[j - 1]) { i := FirstDown(ks, ls, j - 1); }
  }

  lemma UpMoves(ks: seq<string>, ls: seq<string>, i: nat)
    requires Sorted(ks) && Sorted(ls) && |ks| == |ls| && i < |ks| && Scan(ks[i]) == Scan(ls[i])
    requires Less(ks[i], ls[i]) && (i + 1 < |ks| ==> !Less(ks[i + 1], ls[i + 1]))
    ensures Movable(ks, i, ls[i])
  {
    LessIrreflexive(ks[i]);
    if i > 0 { LessTransitive(ks[i - 1], ks[i], ls[i]); }
    if i + 1 < |ks| {
      LessTotal(ks[i + 1], ls[i + 1]);
      if ls[i + 1] != ks[i + 1] { LessTransitive(ls[i], ls[i + 1], ks[i + 1]); }
    }
  }

  lemma DownMoves(ks: seq<string>, ls: seq<string>, i: nat)
    requires Sorted(ks) && Sorted(ls) && |ks| == |ls| && i < |ks| && Scan(ks[i]) == Scan(ls[i])
    requires Less(ls[i], ks[i]) && (i > 0 ==> !Less(ls[i - 1], ks[i - 1]))
    ensures Movable(ks, i, ls[i])
  {
    LessIrreflexive(ks[i]);
    if i + 1 < |ks| { LessTransitive(ls[i], ks[i], ks[i + 1]); }
    if i > 0 {
      LessTotal(ks[i - 1], ls[i - 1]);
      if ls[i - 1] != ks[i - 1] { LessTransitive(ks[i - 1], ls[i - 1], ls[i]); }
    }
  }

  /** The main law: an exact value has the bytes of exactly the values it is equal to. */
  lemma CanonicalIffSame(v: Value, w: Value)
    requires Accepted(v) && Accepted(w) && Exact(v)
    ensures Print(Document(v)) == Print(Document(w)) <==> Same(v, w)
  {
    CanonicalUnambiguous(v, w);
    SameIffDocument(v, w);
  }

  lemma {:induction false} SameThroughRefs(v: Value, w: Value)
    ensures Same(Ref(v), Ref(w)) <==> Same(v, w)
    decreases v
  {
    if v.Ref? { SameThroughRefs(v.target, w); }
  }

  // ---------------------------------------------------------------- structs

  predicate DistinctNames(fields: seq<Field>) {
    forall i, j | 0 <= i < j < |fields| :: fields[i].name != fields[j].name
  }

  /** Two values of one struct type. */
  predicate SameType(v: Value, w: Value) {
    && v.Struct? && w.Struct? && |v.fields| == |w.fields| && DistinctNames(v.fields) && DistinctNames(w.fields)
    && forall i | 0 <= i < |v.fields| :: v.fields[i].name == w.fields[i].name
  }

  /** Both left out, or both written and equal. */
  predicate SameField(f: Field, g: Field) {
    Omitted(f) == Omitted(g) && (!Omitted(f) ==> Same(f.value, g.value))
  }

  lemma {:induction false} KeptAt(v: Value, i: nat, j: nat)
    requires v.Struct? && i <= j < |v.fields| && DistinctNames(v.fields)
    ensures v.fields[j].name in Kept(v, i) <==> !Omitted(v.fields[j])
    ensures !Omitted(v.fields[j]) ==> Kept(v, i)[v.fields[j].name] == v.fields[j].value
    decreases j - i
  {
    if i < j {
      KeptAt(v, i + 1, j);
    } else {
      KeptAbsent(v, j + 1, j);
    }
  }

  lemma {:induction false} KeptAbsent(v: Value, i: nat, j: nat)
    requires v.Struct? && j < i <= |v.fields| && DistinctNames(v.fields)
    ensures v.fields[j].name !in Kept(v, i)
    decreases |v.fields| - i
  {
    if i < |v.fields| { KeptAbsent(v, i + 1, j); }
  }

  lemma {:induction false} KeptFrom(v: Value, i: nat, k: string)
    requires v.Struct? && i <= |v.fields| && k in Kept(v, i)
    ensures exists j :: i <= j < |v.fields| && v.fields[j].name == k
    decreases |v.fields| - i
  {
    if i < |v.fields| && k != v.fields[i].name { KeptFrom(v, i + 1, k); }
  }

  /** Structs are equal iff every field is. */
  lemma StructsSame(v: Value, w: Value)
    requires SameType(v, w)
    ensures Same(v, w) <==> forall i | 0 <= i < |v.fields| :: SameField(v.fields[i], w.fields[i])
  {
    if SameMembers(v, w) {
      forall i | 0 <= i < |v.fields| ensures SameField(v.fields[i], w.fields[i]) {
        StructField(v, w, i);
      }
    }
    if forall i | 0 <= i < |v.fields| :: SameField(v.fields[i], w.fields[i]) {
      StructMembers(v, w);
    }
  }

  lemma StructField(v: Value, w: Value, i: nat)
    requires SameType(v, w) && SameMembers(v, w) && i < |v.fields|
    ensures SameField(v.fields[i], w.fields[i])
  {
    KeptAt(v, 0, i);
    KeptAt(w, 0, i);
    assert v.fields[i].name in Members(v).Keys <==> v.fields[i].name in Members(w).Keys;
  }

  lemma StructMembers(v: Value, w: Value)
    requires SameType(v, w)
    requires forall i | 0 <= i < |v.fields| :: SameField(v.fields[i], w.fields[i])
    ensures SameMembers(v, w)
  {
    var m, n := Members(v), Members(w);
    forall k | k in m ensures k in n && Same(m[k], n[k]) {
      KeptFrom(v, 0, k);
      var j :| 0 <= j < |v.fields| && v.fields[j].name == k;
      KeptAt(v, 0, j);
      KeptAt(w, 0, j);
    }
    forall k | k in n ensures k in m {
      KeptFrom(w, 0, k);
      var j :| 0 <= j < |w.fields| && w.fields[j].name == k;
      KeptAt(v, 0, j);
      KeptAt(w, 0, j);
    }
  }

  lemma MembersAlike(v: Value, w: Value)
    requires IsObject(v) && IsObject(w) && Members(v).Keys == Members(w).Keys
    requires forall k | k in Members(v) :: Alike(Members(v)[k], Members(w)[k])
    ensures Alike(v, w)
  {
    assert AgreeByKey(Members(v), Members(w));
    ObjectsAgree(v, w);
    ObjectAccepted(v);
    ObjectAccepted(w);
  }

  predicate Alike(v: Value, w: Value) { Document(v) == Document(w) && (Accepted(v) <==> Accepted(w)) }
}
