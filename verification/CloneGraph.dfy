/**
 The object graph that `CloneEvent` walks (internal/domain/clone.go). References are
 explicit: a pointer, map or slice is a typed address, and the heap holds the cell behind
 it. The graph may share cells and may be cyclic. What a value means is the tree it
 unfolds to.
 */
module CloneGraph {

  /** `cloneVisit`: the type and the address of a reference. */
  datatype Visit = Visit(typ: string, ptr: nat)

  datatype Value =
    | Scalar(typ: string, text: string)           // booleans, numbers, strings and time.Time
    | Nil(typ: string)                            // a nil interface, pointer, map or slice
    | Iface(typ: string, inner: Value)
    | Pointer(at: Visit)
    | MapRef(at: Visit)
    | SliceRef(at: Visit, len: nat)               // `at` is the address of the first element
    | Array(typ: string, items: seq<Value>)
    | Struct(typ: string, fields: seq<Value>, hidden: bool)   // hidden: it has an unexported field
    | Unsupported                                 // functions, channels, other map keys, and the like

  datatype Cell =
    | PointerCell(target: Value)
    | MapCell(entries: map<string, Value>)
    | SliceCell(items: seq<Value>)

  type Heap = map<Visit, Cell>

  /** The references in a value resolve to cells of their kind: what Go's types guarantee. */
  predicate Resolves(h: Heap, v: Value) {
    match v
    case Iface(_, inner) => Resolves(h, inner)
    case Pointer(at) => at in h && h[at].PointerCell?
    case MapRef(at) => at in h && h[at].MapCell?
    case SliceRef(at, len) => at in h && h[at].SliceCell? && len <= |h[at].items|
    case Array(_, items) => forall i | 0 <= i < |items| :: Resolves(h, items[i])
    case Struct(_, fields, _) => forall i | 0 <= i < |fields| :: Resolves(h, fields[i])
    case _ => true
  }

  predicate CellResolves(h: Heap, c: Cell) {
    match c
    case PointerCell(v) => Resolves(h, v)
    case MapCell(m) => forall k | k in m :: Resolves(h, m[k])
    case SliceCell(items) => forall i | 0 <= i < |items| :: Resolves(h, items[i])
  }

  predicate WellFormed(h: Heap) {
    forall a | a in h :: CellResolves(h, h[a])
  }

  // ---------------------------------------------------------------- unfolding

  datatype Tree =
    | Leaf(value: Value)
    | Boxed(typ: string, inner: Tree)
    | Target(typ: string, inner: Tree)
    | Mapping(typ: string, entries: map<string, Tree>)
    | Listing(typ: string, items: seq<Tree>)
    | Fixed(typ: string, items: seq<Tree>)
    | Record(typ: string, fields: seq<Tree>)

  /** `t` is the finite tree that `v` unfolds to, with every part supported. */
  predicate Unfolds(h: Heap, v: Value, t: Tree)
    decreases t
  {
    match v
    case Scalar(_, _) => t == Leaf(v)
    case Nil(_) => t == Leaf(v)
    case Iface(typ, inner) => t.Boxed? && t.typ == typ && Unfolds(h, inner, t.inner)
    case Pointer(at) =>
      t.Target? && t.typ == at.typ && at in h && h[at].PointerCell? && Unfolds(h, h[at].target, t.inner)
    case MapRef(at) =>
      && t.Mapping? && t.typ == at.typ && at in h && h[at].MapCell? && t.entries.Keys == h[at].entries.Keys
      && forall k | k in t.entries :: Unfolds(h, h[at].entries[k], t.entries[k])
    case SliceRef(at, len) =>
      && t.Listing? && t.typ == at.typ && at in h && h[at].SliceCell? && |t.items| == len <= |h[at].items|
      && forall i | 0 <= i < len :: Unfolds(h, h[at].items[i], t.items[i])
    case Array(typ, items) =>
      t.Fixed? && t.typ == typ && |t.items| == |items|
          && forall i | 0 <= i < |items| :: Unfolds(h, items[i], t.items[i])
    case Struct(typ, fields, hidden) =>
      && t.Record? && t.typ == typ && !hidden && |t.fields| == |fields|
      && forall i | 0 <= i < |fields| :: Unfolds(h, fields[i], t.fields[i])
    case Unsupported => false
  }

  /** A value unfolds in one way at most. */
  lemma {:induction false} UnfoldsUnique(h: Heap, v: Value, t: Tree, u: Tree)
    requires Unfolds(h, v, t) && Unfolds(h, v, u)
    ensures t == u
    decreases t
  {
    match v {
      case Scalar(_, _) =>
      case Nil(_) =>
      case Iface(_, inner) => UnfoldsUnique(h, inner, t.inner, u.inner);
      case Pointer(at) => UnfoldsUnique(h, h[at].target, t.inner, u.inner);
      case MapRef(at) =>
        forall k | k in t.entries ensures t.entries[k] == u.entries[k] {
          UnfoldsUnique(h, h[at].entries[k], t.entries[k], u.entries[k]);
        }
      case SliceRef(at, len) =>
        forall i | 0 <= i < len ensures t.items[i] == u.items[i] {
          UnfoldsUnique(h, h[at].items[i], t.items[i], u.items[i]);
        }
      case Array(_, items) =>
        forall i | 0 <= i < |items| ensures t.items[i] == u.items[i] {
          UnfoldsUnique(h, items[i], t.items[i], u.items[i]);
        }
      case Struct(_, fields, _) =>
        forall i | 0 <= i < |fields| ensures t.fields[i] == u.fields[i] {
          UnfoldsUnique(h, fields[i], t.fields[i], u.fields[i]);
        }
    }
  }

  // ---------------------------------------------------------------- what can be cloned

  /**
   No unsupported value is reached, and no reference is met again while it is being
   followed. The measure is the set of addresses not yet being followed.
   */
  predicate Clonable(h: Heap, active: set<Visit>, v: Value)
    decreases h.Keys - active, v
  {
    match v
    case Scalar(_, _) => true
    case Nil(_) => true
    case Iface(_, inner) => Clonable(h, active, inner)
    case Pointer(at) =>
      at !in active && at in h && h[at].PointerCell? && Clonable(h, active + {at}, h[at].target)
    case MapRef(at) =>
      && at !in active && at in h && h[at].MapCell?
      && forall k | k in h[at].entries :: Clonable(h, active + {at}, h[at].entries[k])
    case SliceRef(at, len) =>
      && at !in active && at in h && h[at].SliceCell? && len <= |h[at].items|
      && forall i | 0 <= i < len :: Clonable(h, active + {at}, h[at].items[i])
    case Array(_, items) => forall i | 0 <= i < |items| :: Clonable(h, active, items[i])
    case Struct(_, fields, hidden) => !hidden && forall i | 0 <= i < |fields| :: Clonable(h, active, fields[i])
    case Unsupported => false
  }

  /** The tree of a clonable value. */
  function TreeOf(h: Heap, active: set<Visit>, v: Value): Tree
    requires Clonable(h, active, v)
    decreases h.Keys - active, v
  {
    match v
    case Iface(typ, inner) => Boxed(typ, TreeOf(h, active, inner))
    case Pointer(at) => Target(at.typ, TreeOf(h, active + {at}, h[at].target))
    case MapRef(at) =>
      Mapping(at.typ, map k | k in h[at].entries :: TreeOf(h, active + {at}, h[at].entries[k]))
    case SliceRef(at, len) =>
      Listing(at.typ, seq(len, i requires 0 <= i < len => TreeOf(h, active + {at}, h[at].items[i])))
    case Array(typ, items) =>
      Fixed(typ, seq(|items|, i requires 0 <= i < |items| => TreeOf(h, active, items[i])))
    case Struct(typ, fields, _) =>
      Record(typ, seq(|fields|, i requires 0 <= i < |fields| => TreeOf(h, active, fields[i])))
    case _ => Leaf(v)
  }

  lemma {:induction false} TreeOfUnfolds(h: Heap, active: set<Visit>, v: Value)
    requires Clonable(h, active, v)
    ensures Unfolds(h, v, TreeOf(h, active, v))
    decreases h.Keys - active, v
  {
    var t := TreeOf(h, active, v);
    match v {
      case Iface(_, inner) => TreeOfUnfolds(h, active, inner);
      case Pointer(at) => TreeOfUnfolds(h, active + {at}, h[at].target);
      case MapRef(at) =>
        forall k | k in h[at].entries ensures Unfolds(h, h[at].entries[k], t.entries[k]) {
          TreeOfUnfolds(h, active + {at}, h[at].entries[k]);
        }
      case SliceRef(at, len) =>
        forall i | 0 <= i < len ensures Unfolds(h, h[at].items[i], t.items[i]) {
          TreeOfUnfolds(h, active + {at}, h[at].items[i]);
        }
      case Array(_, items) =>
        forall i | 0 <= i < |items| ensures Unfolds(h, items[i], t.items[i]) {
          TreeOfUnfolds(h, active, items[i]);
        }
      case Struct(_, fields, _) =>
        forall i | 0 <= i < |fields| ensures Unfolds(h, fields[i], t.fields[i]) {
          TreeOfUnfolds(h, active, fields[i]);
        }
      case _ =>
    }
  }
}
