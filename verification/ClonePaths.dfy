/**
 When a graph can be cloned, said without the traversal: by the paths that lead from its
 root, and by the tree it unfolds to.
 */
module ClonePaths {
  import opened CloneGraph

  datatype Step = Follow | Key(key: string) | Index(index: nat)

  /** Cloning is refused here: the value is unsupported, or its reference is already being followed. */
  predicate Refused(active: set<Visit>, v: Value) {
    match v
    case Unsupported => true
    case Struct(_, _, hidden) => hidden
    case Pointer(at) => at in active
    case MapRef(at) => at in active
    case SliceRef(at, _) => at in active
    case _ => false
  }

  /** The path leads from `v` to a refusal; `active` are the references followed on the way. */
  predicate Fails(h: Heap, active: set<Visit>, v: Value, path: seq<Step>)
    decreases path
  {
    if path == [] then Refused(active, v)
    else
      var rest := path[1..];
      match (v, path[0])
      case (Iface(_, inner), Follow) => Fails(h, active, inner, rest)
      case (Pointer(at), Follow) => at in h && h[at].PointerCell? && Fails(h, active + {at}, h[at].target, rest)
      case (MapRef(at), Key(k)) => at in h && h[at].MapCell? && k in h[at].entries
          && Fails(h, active + {at}, h[at].entries[k], rest)
      case (SliceRef(at, len), Index(i)) => at in h && h[at].SliceCell? && i < len <= |h[at].items|
          && Fails(h, active + {at}, h[at].items[i], rest)
      case (Array(_, items), Index(i)) => i < |items| && Fails(h, active, items[i], rest)
      case (Struct(_, fields, _), Index(i)) => i < |fields| && Fails(h, active, fields[i], rest)
      case _ => false
  }

  /** A refusal anywhere on a path spoils the root. */
  lemma {:induction false} FailsSpoils(h: Heap, active: set<Visit>, v: Value, path: seq<Step>)
    requires Fails(h, active, v, path)
    ensures !Clonable(h, active, v)
    decreases path
  {
    if path != [] {
      var rest := path[1..];
      match (v, path[0]) {
        case (Iface(_, inner), Follow) => FailsSpoils(h, active, inner, rest);
        case (Pointer(at), Follow) => FailsSpoils(h, active + {at}, h[at].target, rest);
        case (MapRef(at), Key(k)) => FailsSpoils(h, active + {at}, h[at].entries[k], rest);
        case (SliceRef(at, len), Index(i)) => FailsSpoils(h, active + {at}, h[at].items[i], rest);
        case (Array(_, items), Index(i)) => FailsSpoils(h, active, items[i], rest);
        case (Struct(_, fields, _), Index(i)) => FailsSpoils(h, active, fields[i], rest);
      }
    }
  }

  /** And a root that cannot be cloned has such a path. */
  lemma {:induction false} FindFailure(h: Heap, active: set<Visit>, v: Value) returns (path: seq<Step>)
    requires WellFormed(h) && Resolves(h, v) && !Clonable(h, active, v)
    ensures Fails(h, active, v, path)
    decreases h.Keys - active, v
  {
    path := [];
    if !Refused(active, v) {
      match v {
        case Iface(_, inner) =>
          path := FindFailure(h, active, inner);
          path := [Follow] + path;
        case Pointer(at) =>
          assert CellResolves(h, h[at]);
          path := FindFailure(h, active + {at}, h[at].target);
          path := [Follow] + path;
        case MapRef(at) =>
          assert CellResolves(h, h[at]);
          var k :| k in h[at].entries && !Clonable(h, active + {at}, h[at].entries[k]);
          path := FindFailure(h, active + {at}, h[at].entries[k]);
          path := [Key(k)] + path;
        case SliceRef(at, len) =>
          assert CellResolves(h, h[at]);
          var i :| 0 <= i < len && !Clonable(h, active + {at}, h[at].items[i]);
          path := FindFailure(h, active + {at}, h[at].items[i]);
          path := [Index(i)] + path;
        case Array(_, items) =>
          var i :| 0 <= i < |items| && !Clonable(h, active, items[i]);
          path := FindFailure(h, active, items[i]);
          path := [Index(i)] + path;
        case Struct(_, fields, _) =>
          var i :| 0 <= i < |fields| && !Clonable(h, active, fields[i]);
          path := FindFailure(h, active, fields[i]);
          path := [Index(i)] + path;
      }
    }
  }

  /** A value can be cloned iff no path from it leads to a refusal. */
  lemma {:induction false} ClonableIffNoFailingPath(h: Heap, active: set<Visit>, v: Value)
    requires WellFormed(h) && Resolves(h, v)
    ensures Clonable(h, active, v) <==> forall path :: !Fails(h, active, v, path)
  {
    if !Clonable(h, active, v) {
      var path := FindFailure(h, active, v);
      assert exists path :: Fails(h, active, v, path);
    } else {
      forall path ensures !Fails(h, active, v, path) {
        if Fails(h, active, v, path) { FailsSpoils(h, active, v, path); }
      }
    }
  }

  // ---------------------------------------------------------------- finite trees

  /** Every slice reference in the value spans its whole cell. */
  predicate FullSlices(h: Heap, v: Value) {
    match v
    case Iface(_, inner) => FullSlices(h, inner)
    case SliceRef(at, len) => at in h && h[at].SliceCell? && len == |h[at].items|
    case Array(_, items) => forall i | 0 <= i < |items| :: FullSlices(h, items[i])
    case Struct(_, fields, _) => forall i | 0 <= i < |fields| :: FullSlices(h, fields[i])
    case _ => true
  }

  predicate CellFull(h: Heap, c: Cell) {
    match c
    case PointerCell(v) => FullSlices(h, v)
    case MapCell(m) => forall k | k in m :: FullSlices(h, m[k])
    case SliceCell(items) => forall i | 0 <= i < |items| :: FullSlices(h, items[i])
  }

  predicate AllFull(h: Heap) { forall a | a in h :: CellFull(h, h[a]) }

  /** The reference that spans the cell at `a`. */
  function RefTo(h: Heap, a: Visit): Value
    requires a in h
  {
    match h[a]
    case PointerCell(_) => Pointer(a)
    case MapCell(_) => MapRef(a)
    case SliceCell(items) => SliceRef(a, |items|)
  }

  /** The references being followed, each with its tree, of which `t` is a proper part. */
  ghost predicate Above(h: Heap, active: map<Visit, Tree>, t: Tree) {
    forall a | a in active :: a in h && Unfolds(h, RefTo(h, a), active[a]) && t < active[a]
  }

  /** A finite tree never meets its own reference again, so the traversal gets through. */
  lemma {:induction false} TreeClonable(h: Heap, active: map<Visit, Tree>, v: Value, t: Tree)
    requires AllFull(h) && FullSlices(h, v) && Unfolds(h, v, t) && Above(h, active, t)
    ensures Clonable(h, active.Keys, v)
    decreases t
  {
    match v {
      case Iface(_, inner) => TreeClonable(h, active, inner, t.inner);
      case Pointer(at) =>
        NotAgain(h, active, v, t);
        var deeper := Deeper(h, active, v, t);
        assert CellFull(h, h[at]);
        TreeClonable(h, deeper, h[at].target, t.inner);
      case MapRef(at) =>
        NotAgain(h, active, v, t);
        var deeper := Deeper(h, active, v, t);
        assert CellFull(h, h[at]);
        forall k | k in h[at].entries ensures Clonable(h, deeper.Keys, h[at].entries[k]) {
          TreeClonable(h, deeper, h[at].entries[k], t.entries[k]);
        }
      case SliceRef(at, len) =>
        NotAgain(h, active, v, t);
        var deeper := Deeper(h, active, v, t);
        assert CellFull(h, h[at]);
        forall i | 0 <= i < len ensures Clonable(h, deeper.Keys, h[at].items[i]) {
          TreeClonable(h, deeper, h[at].items[i], t.items[i]);
        }
      case Array(_, items) =>
        forall i | 0 <= i < |items| ensures Clonable(h, active.Keys, items[i]) {
          TreeClonable(h, active, items[i], t.items[i]);
        }
      case Struct(_, fields, _) =>
        forall i | 0 <= i < |fields| ensures Clonable(h, active.Keys, fields[i]) {
          TreeClonable(h, active, fields[i], t.fields[i]);
        }
      case _ =>
    }
  }

  predicate IsRef(v: Value) { v.Pointer? || v.MapRef? || v.SliceRef? }

  lemma NotAgain(h: Heap, active: map<Visit, Tree>, v: Value, t: Tree)
    requires IsRef(v) && FullSlices(h, v) && Unfolds(h, v, t) && Above(h, active, t)
    ensures v.at !in active && v.at in h && RefTo(h, v.at) == v
  {
    if v.at in active {
      UnfoldsUnique(h, v, t, active[v.at]);
      assert false;
    }
  }

  lemma Deeper(h: Heap, active: map<Visit, Tree>, v: Value, t: Tree) returns (deeper: map<Visit, Tree>)
    requires IsRef(v) && Unfolds(h, v, t) && v.at in h && RefTo(h, v.at) == v && Above(h, active, t)
    ensures deeper.Keys == active.Keys + {v.at}
    ensures forall part: Tree | part < t :: Above(h, deeper, part)
  {
    deeper := active[v.at := t];
  }

  /**
   Where no slice shares its first element with a slice of another length, a value can be
   cloned iff it unfolds to a finite tree of supported parts: exactly the cycles fail.
   */
  lemma {:induction false} ClonableIffFiniteTree(h: Heap, v: Value)
    requires AllFull(h) && FullSlices(h, v)
    ensures Clonable(h, {}, v) <==> exists t :: Unfolds(h, v, t)
  {
    if Clonable(h, {}, v) {
      TreeOfUnfolds(h, {}, v);
      assert exists t :: Unfolds(h, v, t);
    }
    forall t | Unfolds(h, v, t) ensures Clonable(h, {}, v) {
      var none: map<Visit, Tree> := map[];
      TreeClonable(h, none, v, t);
      assert none.Keys == {} && Clonable(h, none.Keys, v);
    }
  }

  /** A slice that holds its own empty prefix is a finite tree, and is refused as a cycle. */
  lemma OwnPrefixRefused()
    ensures exists h: Heap, v: Value, t: Tree ::
              WellFormed(h) && Resolves(h, v) && Unfolds(h, v, t) && !Clonable(h, {}, v)
  {
    var at := Visit("[]any", 1);
    var inner := Iface("any", SliceRef(at, 0));
    var h: Heap := map[at := SliceCell([inner])];
    var v := SliceRef(at, 1);
    var t := Listing("[]any", [Boxed("any", Listing("[]any", []))]);
    assert Unfolds(h, SliceRef(at, 0), Listing("[]any", []));
    assert Unfolds(h, inner, t.items[0]);
    assert Unfolds(h, v, t);
    assert Resolves(h, h[at].items[0]) && WellFormed(h);
    assert !Clonable(h, {} + {at}, h[at].items[0]);
    assert !Clonable(h, {}, v);
  }
}
