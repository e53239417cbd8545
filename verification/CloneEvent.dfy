/**
 The deep copy itself (internal/domain/clone.go, `CloneEvent`, `cloneValue` and
 `enterCloneVisit`). A fresh cell enters the heap when it is complete.
 */
module CloneEvent {
  import opened Bytes
  import opened CloneGraph
  import opened ClonePaths

  // ---------------------------------------------------------------- what a copy may touch

  /** The references in a value, looking through interfaces, arrays and structs. */
  function Refs(v: Value): set<Visit> {
    match v
    case Iface(_, inner) => Refs(inner)
    case Pointer(at) => {at}
    case MapRef(at) => {at}
    case SliceRef(at, _) => {at}
    case Array(_, items) => set i, a | 0 <= i < |items| && a in Refs(items[i]) :: a
    case Struct(_, fields, _) => set i, a | 0 <= i < |fields| && a in Refs(fields[i]) :: a
    case _ => {}
  }

  function CellRefs(c: Cell): set<Visit> {
    match c
    case PointerCell(v) => Refs(v)
    case MapCell(m) => set k, a | k in m && a in Refs(m[k]) :: a
    case SliceCell(items) => set i, a | 0 <= i < |items| && a in Refs(items[i]) :: a
  }

  /** The cells of `h` are still there, unchanged. */
  predicate Extends(h: Heap, h': Heap) {
    h.Keys <= h'.Keys && forall a | a in h :: h'[a] == h[a]
  }

  /** No cell of the region refers out of it. */
  predicate Isolated(h: Heap, region: set<Visit>) {
    forall a | a in region :: a in h && CellRefs(h[a]) <= region
  }

  /** `c` is a copy made of cells that are new since `h`, and it unfolds to `t`. */
  predicate Copied(h: Heap, h': Heap, c: Value, t: Tree) {
    && Extends(h, h') && Isolated(h', h'.Keys - h.Keys)
    && Refs(c) <= h'.Keys - h.Keys && Unfolds(h', c, t)
  }

  /** What a value unfolds to depends only on an isolated region that holds its references. */
  lemma {:induction false} UnfoldsFrame(h: Heap, h': Heap, region: set<Visit>, v: Value, t: Tree)
    requires Isolated(h, region) && Refs(v) <= region && (forall a | a in region :: a in h' && h'[a] == h[a])
    requires Unfolds(h, v, t)
    ensures Unfolds(h', v, t)
    decreases t
  {
    match v {
      case Iface(_, inner) => UnfoldsFrame(h, h', region, inner, t.inner);
      case Pointer(at) =>
        assert CellRefs(h[at]) <= region;
        UnfoldsFrame(h, h', region, h[at].target, t.inner);
      case MapRef(at) =>
        assert CellRefs(h[at]) <= region;
        forall k | k in t.entries ensures Unfolds(h', h[at].entries[k], t.entries[k]) {
          UnfoldsFrame(h, h', region, h[at].entries[k], t.entries[k]);
        }
      case SliceRef(at, len) =>
        assert CellRefs(h[at]) <= region;
        forall i | 0 <= i < len ensures Unfolds(h', h[at].items[i], t.items[i]) {
          UnfoldsFrame(h, h', region, h[at].items[i], t.items[i]);
        }
      case Array(_, items) =>
        forall i | 0 <= i < |items| ensures Unfolds(h', items[i], t.items[i]) {
          UnfoldsFrame(h, h', region, items[i], t.items[i]);
        }
      case Struct(_, fields, _) =>
        forall i | 0 <= i < |fields| ensures Unfolds(h', fields[i], t.fields[i]) {
          UnfoldsFrame(h, h', region, fields[i], t.fields[i]);
        }
      case _ =>
    }
  }

  lemma UnfoldsStays(h: Heap, h1: Heap, h2: Heap, c: Value, t: Tree)
    requires Copied(h, h1, c, t) && Extends(h1, h2)
    ensures Unfolds(h2, c, t)
  {
    UnfoldsFrame(h1, h2, h1.Keys - h.Keys, c, t);
  }

  /** A copy survives further allocation. */
  lemma CopiedStays(h: Heap, h1: Heap, h2: Heap, c: Value, t: Tree)
    requires Copied(h, h1, c, t) && Extends(h1, h2) && Isolated(h2, h2.Keys - h1.Keys)
    ensures Copied(h, h2, c, t)
  {
    UnfoldsFrame(h1, h2, h1.Keys - h.Keys, c, t);
    IsolatedJoin(h, h1, h2);
  }

  lemma IsolatedJoin(h: Heap, h1: Heap, h2: Heap)
    requires Extends(h, h1) && Extends(h1, h2)
    requires Isolated(h1, h1.Keys - h.Keys) && Isolated(h2, h2.Keys - h1.Keys)
    ensures Isolated(h2, h2.Keys - h.Keys)
  {
    forall a | a in h2.Keys - h.Keys ensures a in h2 && CellRefs(h2[a]) <= h2.Keys - h.Keys {
      if a in h1 {
        assert CellRefs(h1[a]) <= h1.Keys - h.Keys;
      }
    }
  }

  /** A copy made later, counted from an earlier heap. */
  lemma CopiedLater(h: Heap, h1: Heap, h2: Heap, c: Value, t: Tree)
    requires Extends(h, h1) && Isolated(h1, h1.Keys - h.Keys) && Copied(h1, h2, c, t)
    ensures Copied(h, h2, c, t)
  {
    IsolatedJoin(h, h1, h2);
  }

  /** A fresh cell over copied parts. */
  lemma CellAdded(h: Heap, h1: Heap, at: Visit, cell: Cell)
    requires Extends(h, h1) && Isolated(h1, h1.Keys - h.Keys) && at !in h1
    requires CellRefs(cell) <= h1.Keys - h.Keys
    ensures var h2 := h1[at := cell];
            Extends(h, h2) && Extends(h1, h2) && Isolated(h2, h2.Keys - h.Keys)
  {
    var h2 := h1[at := cell];
    forall a | a in h2.Keys - h.Keys ensures CellRefs(h2[a]) <= h2.Keys - h.Keys {
      if a != at { assert CellRefs(h1[a]) <= h1.Keys - h.Keys; }
    }
  }

  function Trees(h: Heap, active: set<Visit>, items: seq<Value>, n: nat): (ts: seq<Tree>)
    requires n <= |items| && forall i | 0 <= i < n :: Clonable(h, active, items[i])
    ensures |ts| == n && forall i | 0 <= i < n :: ts[i] == TreeOf(h, active, items[i])
  {
    seq(n, i requires 0 <= i < n => TreeOf(h, active, items[i]))
  }

  function TreeMap(h: Heap, active: set<Visit>, entries: map<string, Value>): (ts: map<string, Tree>)
    requires forall k | k in entries :: Clonable(h, active, entries[k])
    ensures ts.Keys == entries.Keys && forall k | k in entries :: ts[k] == TreeOf(h, active, entries[k])
  {
    map k | k in entries :: TreeOf(h, active, entries[k])
  }

  /** Entering and releasing a reference leaves the table as it was. */
  lemma EnterRelease(active: map<Visit, nat>, at: Visit)
    requires at !in active
    ensures active[at := 1].Keys == active.Keys + {at}
    ensures active[at := 1] - {at} == active
  {
  }

  lemma PointerAdded(h: Heap, h1: Heap, at: Visit, c: Value, t: Tree)
    requires Copied(h, h1, c, t) && at !in h1
    ensures Copied(h, h1[at := PointerCell(c)], Pointer(at), Target(at.typ, t))
  {
    CellAdded(h, h1, at, PointerCell(c));
    UnfoldsStays(h, h1, h1[at := PointerCell(c)], c, t);
  }

  lemma SliceAdded(h: Heap, h1: Heap, at: Visit, cs: seq<Value>, ts: seq<Tree>)
    requires Extends(h, h1) && Isolated(h1, h1.Keys - h.Keys) && at !in h1
    requires |cs| == |ts| && forall i | 0 <= i < |cs| :: Copied(h, h1, cs[i], ts[i])
    ensures Copied(h, h1[at := SliceCell(cs)], SliceRef(at, |cs|), Listing(at.typ, ts))
  {
    CellAdded(h, h1, at, SliceCell(cs));
    forall i | 0 <= i < |cs| ensures Unfolds(h1[at := SliceCell(cs)], cs[i], ts[i]) {
      UnfoldsStays(h, h1, h1[at := SliceCell(cs)], cs[i], ts[i]);
    }
  }

  lemma MapAdded(h: Heap, h1: Heap, at: Visit, cs: map<string, Value>, ts: map<string, Tree>)
    requires Extends(h, h1) && Isolated(h1, h1.Keys - h.Keys) && at !in h1
    requires cs.Keys == ts.Keys && forall k | k in cs :: Copied(h, h1, cs[k], ts[k])
    ensures Copied(h, h1[at := MapCell(cs)], MapRef(at), Mapping(at.typ, ts))
  {
    CellAdded(h, h1, at, MapCell(cs));
    forall k | k in cs ensures Unfolds(h1[at := MapCell(cs)], cs[k], ts[k]) {
      UnfoldsStays(h, h1, h1[at := MapCell(cs)], cs[k], ts[k]);
    }
  }

  // ---------------------------------------------------------------- the traversal

  class CloneState {
    ghost const source: Heap       // the graph as the caller handed it over
    var active: map<Visit, nat>    // the references being followed
    var heap: Heap                 // the graph and the cells made so far
    var next: nat                  // every address in use is below it

    ghost predicate Valid()
      reads this
    {
      && WellFormed(source) && Extends(source, heap)
      && active.Keys <= source.Keys && (forall a | a in active :: active[a] > 0)
      && forall a | a in heap :: a.ptr < next
    }

    constructor (h: Heap, bound: nat)
      requires WellFormed(h) && forall a | a in h :: a.ptr < bound
      ensures Valid() && source == h && heap == h && active == map[]
    {
      source := h;
      heap := h;
      active := map[];
      next := bound;
    }

    /** `enterCloneVisit`: refuses a reference that is already being followed. */
    method EnterVisit(at: Visit) returns (ok: bool)
      requires Valid() && at in source
      modifies this`active
      ensures Valid() && ok == (at !in old(active))
      ensures active == if ok then old(active)[at := 1] else old(active)
    {
      var count := if at in active then active[at] else 0;
      if count > 0 { return false; }
      active := active[at := count + 1];
      return true;
    }

    /** The deferred release. */
    method Release(at: Visit)
      requires Valid() && at in active
      modifies this`active
      ensures Valid()
      ensures active == if old(active)[at] == 1 then old(active) - {at} else old(active)[at := old(active)[at] - 1]
    {
      if active[at] - 1 == 0 {
        active := active - {at};
      } else {
        active := active[at := active[at] - 1];
      }
    }

    method Allocate(typ: string, cell: Cell) returns (at: Visit)
      requires Valid()
      modifies this`heap, this`next
      ensures Valid() && at == Visit(typ, old(next)) && at !in old(heap) && heap == old(heap)[at := cell]
    {
      at := Visit(typ, next);
      heap := heap[at := cell];
      next := next + 1;
    }

    /** What every call of the traversal keeps, whether it succeeds or not. */
    twostate predicate Kept()
      reads this
    {
      && Valid() && active == old(active)
      && Extends(old(heap), heap) && Isolated(heap, heap.Keys - old(heap).Keys)
    }

    /** `cloneValue` */
    method CloneValue(v: Value) returns (r: Option<Value>)
      requires Valid() && Resolves(source, v)
      modifies this
      ensures Kept()
      ensures r.Some? <==> Clonable(source, old(active).Keys, v)
      ensures r.Some? ==> Copied(old(heap), heap, r.value, TreeOf(source, old(active).Keys, v))
      decreases source.Keys - active.Keys, v, 2
    {
      match v {
        case Scalar(_, _) => r := Some(v);
        case Nil(_) => r := Some(v);
        case Unsupported => r := None;
        case Iface(typ, inner) =>
          var c := CloneValue(inner);
          r := if c.Some? then Some(Iface(typ, c.value)) else None;
        case Pointer(at) => r := ClonePointer(at);
        case MapRef(at) => r := CloneMap(at);
        case SliceRef(at, len) => r := CloneSlice(at, len);
        case Array(typ, items) =>
          var c := CloneItems(items, |items|);
          r := if c.Some? then Some(Array(typ, c.value)) else None;
        case Struct(typ, fields, hidden) =>
          if hidden { return None; }
          var c := CloneItems(fields, |fields|);
          r := if c.Some? then Some(Struct(typ, c.value, false)) else None;
      }
    }

    method ClonePointer(at: Visit) returns (r: Option<Value>)
      requires Valid() && Resolves(source, Pointer(at))
      modifies this
      ensures Kept()
      ensures r.Some? <==> Clonable(source, old(active).Keys, Pointer(at))
      ensures r.Some? ==> Copied(old(heap), heap, r.value, TreeOf(source, old(active).Keys, Pointer(at)))
      decreases source.Keys - active.Keys, Pointer(at), 1
    {
      var ok := EnterVisit(at);
      if !ok { return None; }
      EnterRelease(old(active), at);
      r := PointerInside(at);
      Release(at);
    }

    /** The copy of what a pointer points to, and the pointer to it. */
    method PointerInside(at: Visit) returns (r: Option<Value>)
      requires Valid() && at in active && Resolves(source, Pointer(at))
      modifies this
      ensures Kept()
      ensures r.Some? <==> Clonable(source, old(active).Keys, source[at].target)
      ensures r.Some? ==> Copied(old(heap), heap, r.value,
          Target(at.typ, TreeOf(source, old(active).Keys, source[at].target)))
      decreases source.Keys - active.Keys, source[at], 3
    {
      assert CellResolves(source, source[at]) && heap[at] == source[at];
      var c := CloneValue(heap[at].target);
      if c.None? { return None; }
      PointerAdded(old(heap), heap, Visit(at.typ, next), c.value, TreeOf(source, old(active).Keys, source[at].target));
      var copy := Allocate(at.typ, PointerCell(c.value));
      return Some(Pointer(copy));
    }

    method CloneSlice(at: Visit, len: nat) returns (r: Option<Value>)
      requires Valid() && Resolves(source, SliceRef(at, len))
      modifies this
      ensures Kept()
      ensures r.Some? <==> Clonable(source, old(active).Keys, SliceRef(at, len))
      ensures r.Some? ==> Copied(old(heap), heap, r.value, TreeOf(source, old(active).Keys, SliceRef(at, len)))
      decreases source.Keys - active.Keys, SliceRef(at, len), 1
    {
      var ok := EnterVisit(at);
      if !ok { return None; }
      EnterRelease(old(active), at);
      r := SliceInside(at, len);
      Release(at);
    }

    method SliceInside(at: Visit, len: nat) returns (r: Option<Value>)
      requires Valid() && at in active && Resolves(source, SliceRef(at, len))
      modifies this
      ensures Kept()
      ensures r.Some? <==> forall i | 0 <= i < len :: Clonable(source, old(active).Keys, source[at].items[i])
      ensures r.Some? ==> Copied(old(heap), heap, r.value,
          Listing(at.typ, Trees(source, old(active).Keys, source[at].items, len)))
      decreases source.Keys - active.Keys, source[at], 3
    {
      assert CellResolves(source, source[at]) && heap[at] == source[at];
      var c := CloneItems(heap[at].items, len);
      if c.None? { return None; }
      SliceAdded(old(heap), heap, Visit(at.typ, next), c.value, Trees(source, old(active).Keys, source[at].items, len));
      var copy := Allocate(at.typ, SliceCell(c.value));
      return Some(SliceRef(copy, len));
    }

    method CloneMap(at: Visit) returns (r: Option<Value>)
      requires Valid() && Resolves(source, MapRef(at))
      modifies this
      ensures Kept()
      ensures r.Some? <==> Clonable(source, old(active).Keys, MapRef(at))
      ensures r.Some? ==> Copied(old(heap), heap, r.value, TreeOf(source, old(active).Keys, MapRef(at)))
      decreases source.Keys - active.Keys, MapRef(at), 1
    {
      var ok := EnterVisit(at);
      if !ok { return None; }
      EnterRelease(old(active), at);
      r := MapInside(at);
      Release(at);
    }

    method MapInside(at: Visit) returns (r: Option<Value>)
      requires Valid() && at in active && Resolves(source, MapRef(at))
      modifies this
      ensures Kept()
      ensures r.Some? <==> forall k | k in source[at].entries ::
          Clonable(source, old(active).Keys, source[at].entries[k])
      ensures r.Some? ==> Copied(old(heap), heap, r.value,
          Mapping(at.typ, TreeMap(source, old(active).Keys, source[at].entries)))
      decreases source.Keys - active.Keys, source[at], 3
    {
      assert CellResolves(source, source[at]) && heap[at] == source[at];
      var entries := heap[at].entries;
      var c := CloneEntries(entries);
      if c.None? { return None; }
      MapAdded(old(heap), heap, Visit(at.typ, next), c.value, TreeMap(source, old(active).Keys, entries));
      var copy := Allocate(at.typ, MapCell(c.value));
      return Some(MapRef(copy));
    }

    /** The entries of a map, in whatever order they come. */
    method CloneEntries(entries: map<string, Value>) returns (r: Option<map<string, Value>>)
      requires Valid() && forall k | k in entries :: Resolves(source, entries[k])
      modifies this
      ensures Kept()
      ensures r.Some? <==> forall k | k in entries :: Clonable(source, old(active).Keys, entries[k])
      ensures r.Some? ==> r.value.Keys == entries.Keys && forall k | k in entries ::
                            Copied(old(heap), heap, r.value[k], TreeOf(source, old(active).Keys, entries[k]))
      decreases source.Keys - active.Keys, MapCell(entries), 1
    {
      var copies: map<string, Value> := map[];
      var todo := entries.Keys;
      while todo != {}
        invariant todo <= entries.Keys && copies.Keys == entries.Keys - todo
        invariant Kept()
        invariant forall k | k in copies :: Clonable(source, old(active).Keys, entries[k])
        invariant forall k | k in copies ::
            Copied(old(heap), heap, copies[k], TreeOf(source, old(active).Keys, entries[k]))
        decreases todo
      {
        var k :| k in todo;
        ghost var before := heap;
        var c := CloneValue(entries[k]);
        IsolatedJoin(old(heap), before, heap);
        if c.None? { return None; }
        forall j | j in copies
          ensures Copied(old(heap), heap, copies[j], TreeOf(source, old(active).Keys, entries[j]))
        {
          CopiedStays(old(heap), before, heap, copies[j], TreeOf(source, old(active).Keys, entries[j]));
        }
        CopiedLater(old(heap), before, heap, c.value, TreeOf(source, old(active).Keys, entries[k]));
        copies := copies[k := c.value];
        todo := todo - {k};
      }
      return Some(copies);
    }

    /** The first n elements in order; one failure fails them all. */
    method CloneItems(items: seq<Value>, n: nat) returns (r: Option<seq<Value>>)
      requires Valid() && n <= |items| && forall i | 0 <= i < n :: Resolves(source, items[i])
      modifies this
      ensures Kept()
      ensures r.Some? <==> forall i | 0 <= i < n :: Clonable(source, old(active).Keys, items[i])
      ensures r.Some? ==> |r.value| == n && forall i | 0 <= i < n ::
                            Copied(old(heap), heap, r.value[i], TreeOf(source, old(active).Keys, items[i]))
      decreases source.Keys - active.Keys, items, 1
    {
      var copies: seq<Value> := [];
      var i := 0;
      while i < n
        invariant 0 <= i <= n && |copies| == i
        invariant Kept()
        invariant forall j | 0 <= j < i :: Clonable(source, old(active).Keys, items[j])
        invariant forall j | 0 <= j < i ::
            Copied(old(heap), heap, copies[j], TreeOf(source, old(active).Keys, items[j]))
      {
        ghost var before := heap;
        var c := CloneValue(items[i]);
        IsolatedJoin(old(heap), before, heap);
        if c.None? { return None; }
        forall j | 0 <= j < i
          ensures Copied(old(heap), heap, copies[j], TreeOf(source, old(active).Keys, items[j]))
        {
          CopiedStays(old(heap), before, heap, copies[j], TreeOf(source, old(active).Keys, items[j]));
        }
        CopiedLater(old(heap), before, heap, c.value, TreeOf(source, old(active).Keys, items[i]));
        copies := copies + [c.value];
        i := i + 1;
      }
      return Some(copies);
    }
  }

  // ---------------------------------------------------------------- CloneEvent

  /**
   The whole copy: it succeeds iff no path from the event is refused, leaves every cell of
   the source as it was, and on success returns a graph of new cells with the same tree.
   */
  method Clone(h: Heap, bound: nat, event: Value) returns (r: Option<Value>, h': Heap)
    requires WellFormed(h) && Resolves(h, event) && forall a | a in h :: a.ptr < bound
    ensures r.Some? <==> Clonable(h, {}, event)
    ensures Extends(h, h')
    ensures r.Some? ==> Copied(h, h', r.value, TreeOf(h, {}, event))
  {
    var state := new CloneState(h, bound);
    assert state.active.Keys == {};
    r := state.CloneValue(event);
    h' := state.heap;
  }

  /** The path leads from `v` to `w`. */
  predicate Leads(h: Heap, v: Value, path: seq<Step>, w: Value)
    decreases path
  {
    if path == [] then v == w
    else
      var rest := path[1..];
      match (v, path[0])
      case (Iface(_, inner), Follow) => Leads(h, inner, rest, w)
      case (Pointer(at), Follow) => at in h && h[at].PointerCell? && Leads(h, h[at].target, rest, w)
      case (MapRef(at), Key(k)) => at in h && h[at].MapCell? && k in h[at].entries
          && Leads(h, h[at].entries[k], rest, w)
      case (SliceRef(at, len), Index(i)) => at in h && h[at].SliceCell? && i < len <= |h[at].items|
          && Leads(h, h[at].items[i], rest, w)
      case (Array(_, items), Index(i)) => i < |items| && Leads(h, items[i], rest, w)
      case (Struct(_, fields, _), Index(i)) => i < |fields| && Leads(h, fields[i], rest, w)
      case _ => false
  }

  lemma {:induction false} StaysInside(h: Heap, region: set<Visit>, v: Value, path: seq<Step>, w: Value)
    requires Isolated(h, region) && Refs(v) <= region && Leads(h, v, path, w)
    ensures Refs(w) <= region
    decreases path
  {
    if path != [] {
      var rest := path[1..];
      match (v, path[0]) {
        case (Iface(_, inner), Follow) => StaysInside(h, region, inner, rest, w);
        case (Pointer(at), Follow) =>
          assert CellRefs(h[at]) <= region;
          StaysInside(h, region, h[at].target, rest, w);
        case (MapRef(at), Key(k)) =>
          assert CellRefs(h[at]) <= region;
          StaysInside(h, region, h[at].entries[k], rest, w);
        case (SliceRef(at, len), Index(i)) =>
          assert CellRefs(h[at]) <= region;
          StaysInside(h, region, h[at].items[i], rest, w);
        case (Array(_, items), Index(i)) => StaysInside(h, region, items[i], rest, w);
        case (Struct(_, fields, _), Index(i)) => StaysInside(h, region, fields[i], rest, w);
      }
    }
  }

  /** No path from the copy reaches a cell of the source. */
  lemma CopySharesNothing(h: Heap, h': Heap, c: Value, t: Tree, path: seq<Step>, w: Value)
    requires Copied(h, h', c, t) && Leads(h', c, path, w)
    ensures Refs(w) !! h.Keys
  {
    StaysInside(h', h'.Keys - h.Keys, c, path, w);
  }
}
