/**
 The failing half of the canonical JSON law: a value that is not exact, because of a text
 that is not valid UTF-8 or a map key that can be exchanged, has the bytes of another.
 */
module CanonicalTwins {
  import opened Bytes
  import opened JsonText
  import opened CanonicalJson
  import opened CanonicalEquality

  /** Written alike, yet not equal. */
  predicate Twins(v: Value, w: Value) { Alike(v, w) && !Same(v, w) && !Empty(w) }

  lemma ReadAlike(s: string, t: string)
    requires s != t && Scan(s) == Scan(t) && t != ""
    ensures Twins(Text(s), Text(t)) && Twins(Time(s), Time(t))
  {
  }

  lemma TextTwin(s: string) returns (t: string)
    requires !ValidUtf8(s)
    ensures t != s && Twins(Text(s), Text(t)) && Twins(Time(s), Time(t))
  {
    t := Twin(s);
    ReadAlike(s, t);
  }

  lemma RefTwins(v: Value, w: Value)
    requires Twins(v, w)
    ensures Twins(Ref(v), Ref(w))
  {
    SameThroughRefs(v, w);
  }

  lemma ListTwins(items: seq<Value>, i: nat, w: Value)
    requires i < |items| && Twins(items[i], w)
    ensures Twins(List(items), List(items[i := w]))
  {
    var after := items[i := w];
    assert Document(List(items)).items == Document(List(after)).items;
    assert forall k | 0 <= k < |items| && k != i :: after[k] == items[k];
    assert after[i] == w;
  }

  lemma ObjectTwins(v: Value, w: Value, k: string)
    requires IsObject(v) && IsObject(w) && !Empty(w) && k in Members(v) && k in Members(w)
    requires Members(w) == Members(v)[k := Members(w)[k]] && Twins(Members(v)[k], Members(w)[k])
    ensures Twins(v, w)
  {
    var m, n := Members(v), Members(w);
    assert m.Keys == n.Keys;
    MembersAlike(v, w);
    NotSameMembers(v, w, k);
  }

  lemma NotSameMembers(v: Value, w: Value, k: string)
    requires IsObject(v) && IsObject(w) && k in Members(v) && k in Members(w) && !Same(Members(v)[k], Members(w)[k])
    ensures !Same(v, w)
  {
    assert !SameMembers(v, w);
  }

  lemma DictTwins(entries: map<string, Value>, k: string, w: Value)
    requires k in entries && Twins(entries[k], w)
    ensures Twins(Dict(entries), Dict(entries[k := w]))
  {
    var after := entries[k := w];
    assert k in after && after[k] == w && Members(Dict(entries)) == entries && Members(Dict(after)) == after;
    ObjectTwins(Dict(entries), Dict(after), k);
  }

  // ---------------------------------------------------------------- keys

  /** The entry of one key under another. */
  function Moved<T>(m: map<string, T>, k: string, l: string): map<string, T>
    requires k in m
  {
    (m - {k})[l := m[k]]
  }

  /** The keys in increasing order. */
  ghost predicate Lists(ks: seq<string>, keys: set<string>) { Sorted(ks) && forall k :: k in ks <==> k in keys }

  lemma SortIs(keys: set<string>, ks: seq<string>)
    requires Lists(ks, keys)
    ensures Sort(keys) == ks
  {
    SortedUnique(Sort(keys), ks);
  }

  lemma MovedLists(keys: set<string>, ks: seq<string>, i: nat, l: string)
    requires Lists(ks, keys) && Movable(ks, i, l)
    ensures l !in keys && Lists(ks[i := l], keys - {ks[i]} + {l})
  {
    MovedAscends(ks, i, l);
    MovedElements(ks, i, l);
    forall k ensures k in ks[i := l] <==> k in keys - {ks[i]} + {l} {
      assert k in ks <==> k in keys;
    }
  }

  lemma MovedKeys<T>(m: map<string, T>, k: string, l: string)
    requires k in m
    ensures Moved(m, k, l).Keys == m.Keys - {k} + {l}
  {
  }

  lemma MovedSort(v: Value, w: Value, ks: seq<string>, i: nat, l: string)
    requires IsObject(v) && w.Dict? && Lists(ks, Members(v).Keys) && Movable(ks, i, l)
    requires ks[i] in Members(v) && w.entries == Moved(Members(v), ks[i], l)
    ensures Sort(Members(w).Keys) == ks[i := l] && l !in Members(v)
  {
    MovedLists(Members(v).Keys, ks, i, l);
    MovedKeys(Members(v), ks[i], l);
    assert Members(w) == w.entries;
    SortIs(Members(w).Keys, ks[i := l]);
  }

  lemma MovedAscends(ks: seq<string>, i: nat, l: string)
    requires Sorted(ks) && Movable(ks, i, l)
    ensures Sorted(ks[i := l]) && l !in ks
  {
    forall j | 0 <= j < i ensures Less(ks[j], l) {
      if j < i - 1 { LessTransitive(ks[j], ks[i - 1], l); }
    }
    forall j | i < j < |ks| ensures Less(l, ks[j]) {
      if j > i + 1 { LessTransitive(l, ks[i + 1], ks[j]); }
    }
    LessIrreflexive(l);
  }

  /** Said of the whole list: it is fixed iff no other increasing list reads alike. */
  lemma FixedIff(ks: seq<string>)
    requires Sorted(ks)
    ensures Fixed(ks) <==>
              forall ls | Sorted(ls) && |ls| == |ks|
                  && (forall j | 0 <= j < |ks| :: Scan(ks[j]) == Scan(ls[j])) :: ls == ks
  {
    if Fixed(ks) {
      forall ls | Sorted(ls) && |ls| == |ks| && (forall j | 0 <= j < |ks| :: Scan(ks[j]) == Scan(ls[j]))
        ensures ls == ks
      {
        if ls != ks { var i, l := OneMoves(ks, ls); }
      }
    } else {
      var i: nat, l: string :| Movable(ks, i, l);
      MovedAscends(ks, i, l);
      var ls := ks[i := l];
      assert forall j | 0 <= j < |ks| :: Scan(ks[j]) == Scan(ls[j]);
      assert ls[i] != ks[i];
    }
  }

  lemma MovedElements(ks: seq<string>, i: nat, l: string)
    requires Sorted(ks) && i < |ks|
    ensures forall k :: k in ks[i := l] <==> k == l || (k in ks && k != ks[i])
  {
    var after := ks[i := l];
    LessIrreflexive(ks[i]);
    assert after[i] == l;
    assert forall j | 0 <= j < |ks| && j != i :: after[j] == ks[j] && ks[j] != ks[i];
    forall k | k in ks && k != ks[i] ensures k in after {
      var j :| 0 <= j < |ks| && ks[j] == k;
      assert after[j] == k;
    }
  }

  lemma MovedMembers(v: Value, w: Value, ks: seq<string>, i: nat, l: string)
    requires IsObject(v) && w.Dict? && ks == Sort(Members(v).Keys) && Movable(ks, i, l)
    requires ks[i] in Members(v) && w.entries == Moved(Members(v), ks[i], l)
    ensures ObjectOf(v).members == ObjectOf(w).members
  {
    MovedSort(v, w, ks, i, l);
    MembersListed(v);
    MembersListed(w);
    MovedMembersEqual(Members(v), Members(w), ks, i, l, ObjectOf(v).members, ObjectOf(w).members);
  }

  lemma MovedMembersEqual(m: map<string, Value>, n: map<string, Value>, ks: seq<string>, i: nat, l: string,
                          a: seq<Member>, b: seq<Member>)
    requires Sorted(ks) && i < |ks| && ks[i] in m && n == Moved(m, ks[i], l) && Scan(l) == Scan(ks[i]) && l !in m
    requires |a| == |ks| && forall j | 0 <= j < |ks| :: ks[j] in m && a[j] == Member(Scan(ks[j]), Document(m[ks[j]]))
    requires var after := ks[i := l];
             |b| == |after| && forall j | 0 <= j < |after| ::
               after[j] in n && b[j] == Member(Scan(after[j]), Document(n[after[j]]))
    ensures a == b
  {
    forall j | 0 <= j < |a| ensures a[j] == b[j] { MovedMember(m, n, ks, i, l, j); }
  }

  lemma MovedMember(m: map<string, Value>, n: map<string, Value>, ks: seq<string>, i: nat, l: string, j: nat)
    requires Sorted(ks) && i < |ks| && j < |ks| && ks[i] in m && ks[j] in m && n == Moved(m, ks[i], l)
    requires Scan(l) == Scan(ks[i]) && l !in m
    ensures var k := ks[i := l][j]; k in n && n[k] == m[ks[j]] && Scan(k) == Scan(ks[j])
  {
    if j != i {
      LessIrreflexive(ks[i]);
      assert ks[j] != ks[i] && ks[j] != l;
    }
  }

  /** An object with a key that can move is written like the map in which it has moved. */
  lemma KeyTwins(v: Value, ks: seq<string>, i: nat, l: string)
    requires IsObject(v) && ks == Sort(Members(v).Keys) && Movable(ks, i, l)
    ensures ks[i] in Members(v) && Twins(v, Dict(Moved(Members(v), ks[i], l)))
  {
    var m := Members(v);
    var k := ks[i];
    assert k in ks;
    MovedLists(m.Keys, ks, i, l);
    var w := Dict(Moved(m, k, l));
    MovedMembers(v, w, ks, i, l);
    MovedAccepted(v, w, k, l);
    MovedDiffers(v, w, l);
  }

  lemma MovedDiffers(v: Value, w: Value, l: string)
    requires IsObject(v) && IsObject(w) && l !in Members(v) && l in Members(w)
    ensures !Same(v, w)
  {
    assert !SameMembers(v, w);
  }

  lemma MovedAccepted(v: Value, w: Value, k: string, l: string)
    requires IsObject(v) && w.Dict? && k in Members(v) && l !in Members(v) && w.entries == Moved(Members(v), k, l)
    ensures Accepted(v) <==> Accepted(w)
  {
    ObjectAccepted(v);
    ObjectAccepted(w);
    var m, n := Members(v), Members(w);
    assert n == w.entries && n[l] == m[k];
    assert forall j | j in m && j != k :: j in n && n[j] == m[j];
    assert forall j | j in n && j != l :: j in m && n[j] == m[j];
  }

  // ---------------------------------------------------------------- structs

  /** The field is written, and no earlier one takes its name. */
  predicate Leading(v: Value, j: nat) {
    && v.Struct? && j < |v.fields| && !Omitted(v.fields[j])
    && forall i | 0 <= i < j :: v.fields[i].name == v.fields[j].name ==> Omitted(v.fields[i])
  }

  function WithField(v: Value, j: nat, w: Value): Value
    requires v.Struct? && j < |v.fields|
  {
    Struct(v.fields[j := v.fields[j].(value := w)])
  }

  lemma {:induction false} KeptWithField(v: Value, j: nat, w: Value, i: nat)
    requires Leading(v, j) && !Empty(w) && i <= |v.fields|
    ensures Kept(WithField(v, j, w), i) == if i <= j then Kept(v, i)[v.fields[j].name := w] else Kept(v, i)
    decreases |v.fields| - i
  {
    if i < |v.fields| { KeptWithField(v, j, w, i + 1); }
  }

  lemma {:induction false} KeptLeading(v: Value, i: nat, k: string) returns (j: nat)
    requires v.Struct? && i <= |v.fields| && k in Kept(v, i)
    ensures i <= j < |v.fields| && v.fields[j].name == k && !Omitted(v.fields[j]) && Kept(v, i)[k] == v.fields[j].value
    ensures forall l | i <= l < j && v.fields[l].name == k :: Omitted(v.fields[l])
    decreases |v.fields| - i
  {
    if !Omitted(v.fields[i]) && v.fields[i].name == k {
      j := i;
    } else {
      j := KeptLeading(v, i + 1, k);
    }
  }

  lemma StructTwins(v: Value, j: nat, w: Value)
    requires Leading(v, j) && Twins(v.fields[j].value, w)
    ensures Twins(v, WithField(v, j, w))
  {
    var k := v.fields[j].name;
    KeptWithField(v, j, w, 0);
    LeadingMember(v, 0, j);
    ObjectTwins(v, WithField(v, j, w), k);
  }

  lemma {:induction false} LeadingMember(v: Value, i: nat, j: nat)
    requires Leading(v, j) && i <= j
    ensures v.fields[j].name in Kept(v, i) && Kept(v, i)[v.fields[j].name] == v.fields[j].value
    decreases j - i
  {
    if i < j { LeadingMember(v, i + 1, j); }
  }

  /** A struct that is not exact, though its keys are fixed, has a written field that is not. */
  lemma FlawedField(v: Value) returns (j: nat)
    requires v.Struct? && Fixed(Sort(Members(v).Keys)) && !Exact(v)
    ensures Leading(v, j) && !Exact(v.fields[j].value) && v.fields[j].value < v
  {
    var m := Members(v);
    var k :| k in m && !Exact(m[k]);
    j := KeptLeading(v, 0, k);
  }

  // ---------------------------------------------------------------- values

  lemma {:induction false} ValueTwin(v: Value) returns (w: Value)
    requires !Exact(v)
    ensures Twins(v, w)
    decreases v
  {
    match v {
      case Ref(t) =>
        var u := ValueTwin(t);
        RefTwins(t, u);
        w := Ref(u);
      case Time(s) =>
        var t := TextTwin(s);
        w := Time(t);
      case Text(s) =>
        var t := TextTwin(s);
        w := Text(t);
      case List(items) =>
        var i :| 0 <= i < |items| && !Exact(items[i]);
        var u := ValueTwin(items[i]);
        ListTwins(items, i, u);
        w := List(items[i := u]);
      case Dict(entries) =>
        if Fixed(Sort(entries.Keys)) {
          var k :| k in entries && !Exact(entries[k]);
          var u := ValueTwin(entries[k]);
          DictTwins(entries, k, u);
          w := Dict(entries[k := u]);
        } else {
          w := ObjectTwin(v);
        }
      case Struct(_) =>
        if Fixed(Sort(Members(v).Keys)) {
          var j := FlawedField(v);
          var u := ValueTwin(v.fields[j].value);
          StructTwins(v, j, u);
          w := WithField(v, j, u);
        } else {
          w := ObjectTwin(v);
        }
    }
  }

  lemma ObjectTwin(v: Value) returns (w: Value)
    requires IsObject(v) && !Fixed(Sort(Members(v).Keys))
    ensures Twins(v, w)
  {
    var ks := Sort(Members(v).Keys);
    var i: nat, l: string :| Movable(ks, i, l);
    KeyTwins(v, ks, i, l);
    w := Dict(Moved(Members(v), ks[i], l));
  }

  /** A value is known by its bytes iff it is exact. */
  lemma CanonicalExactIff(v: Value)
    requires Accepted(v)
    ensures Exact(v) <==> forall w | Accepted(w) && Print(Document(w)) == Print(Document(v)) :: Same(v, w)
  {
    if Exact(v) {
      forall w | Accepted(w) && Print(Document(w)) == Print(Document(v)) ensures Same(v, w) { CanonicalIffSame(v, w); }
    } else {
      var w := ValueTwin(v);
      assert Accepted(w) && Print(Document(w)) == Print(Document(v)) && !Same(v, w);
    }
  }
}
