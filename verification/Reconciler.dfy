/**
 The ledgered-publication reconciler (cmd/audit-api/ledgered_reconcile.go). Each timer pass
 serves one tenant: the first in byte order after the one served last, wrapping round.
 The catalogue read and the per-tenant page are parameters of a pass: a pass is given the
 tenants it found (None for a failed read) and the answer to every possible page request.
 A nil cursor map is an empty one.
 */
module Reconciler {
  import opened Bytes

  datatype Cursor = Cursor(after: int, through: int)

  datatype Page = Page(scanned: int, repaired: int, failed: int, next: Cursor, done: bool)

  /** What a page request gives: a page, and whether an error came with it. */
  datatype Attempt = Attempt(page: Page, failed: bool)

  const START := Cursor(0, 0)
  const NOTHING := Page(0, 0, 0, START, false)

  // ---------------------------------------------------------------- whose turn it is

  function After(tenants: set<string>, last: string): set<string> { set t | t in tenants && Less(last, t) }

  /** The next tenant in byte order, wrapping to the first. */
  function Turn(tenants: set<string>, last: string): (t: string)
    requires tenants != {}
    ensures t in tenants
  {
    if After(tenants, last) != {} then Least(After(tenants, last)) else Least(tenants)
  }

  /** The tenant a pass serves, if it gets so far. */
  function Served(read: Option<set<string>>, last: string): Option<string> {
    if read.None? || read.value == {} then None else Some(Turn(read.value, last))
  }

  function LastAfter(read: Option<set<string>>, last: string): string {
    if Served(read, last).Some? then Served(read, last).value else last
  }

  function CursorOf(cursors: map<string, Cursor>, t: string): Cursor { if t in cursors then cursors[t] else START }

  function Kept(cursors: map<string, Cursor>, tenants: set<string>): map<string, Cursor> {
    map k | k in cursors && k in tenants :: cursors[k]
  }

  /** The tenant served moves to its next page, or back to the start after its last; an error leaves it. */
  function Moved(cursors: map<string, Cursor>, t: string, a: Attempt): map<string, Cursor> {
    if a.failed then cursors else cursors[t := if a.page.done then START else a.page.next]
  }

  class LedgeredReconciler {
    var cursors: map<string, Cursor>
    var lastTenant: string

    constructor ()
      ensures cursors == map[] && lastTenant == ""
    {
      cursors := map[];
      lastTenant := "";
    }

    method Advance(known: set<string>) returns (tenant: string)
      requires known != {}
      modifies this`lastTenant
      ensures tenant == lastTenant == Turn(known, old(lastTenant))
    {
      var tenants := Sort(known);
      var index := Search(tenants, lastTenant);
      SearchIsTurn(known, lastTenant, index);
      if index == |tenants| { index := 0; }
      tenant := tenants[index];
      lastTenant := tenant;
    }

    method Record(tenant: string, a: Attempt)
      modifies this`cursors
      ensures cursors == Moved(old(cursors), tenant, a)
    {
      if !a.failed {
        cursors := cursors[tenant := a.page.next];
        if a.page.done { cursors := cursors[tenant := START]; }
      }
    }

    /** `next` */
    method Next(configured: bool, read: Option<set<string>>, request: (string, Cursor) -> Attempt)
      returns (result: Page, failed: bool)
      modifies this
      ensures !configured ==> !failed && result.done && unchanged(this)
      ensures configured && read.None? ==> failed && unchanged(this)
      ensures configured && read == Some({}) ==> !failed && result.done && cursors == map[]
      ensures configured ==> lastTenant == LastAfter(read, old(lastTenant))
      ensures configured && read.Some? ==> cursors.Keys <= read.value
      ensures configured && Served(read, old(lastTenant)).Some? ==>
                var kept := Kept(old(cursors), read.value);
                var a := request(lastTenant, CursorOf(kept, lastTenant));
                result == a.page && failed == a.failed && cursors == Moved(kept, lastTenant, a)
    {
      if !configured { return NOTHING.(done := true), false; }
      if read.None? { return NOTHING, true; }
      cursors := Kept(cursors, read.value);
      if read.value == {} { return NOTHING.(done := true), false; }
      var tenant := Advance(read.value);
      var attempt := request(tenant, CursorOf(cursors, tenant));
      Record(tenant, attempt);
      return attempt.page, attempt.failed;
    }
  }

  /** `sort.Search` for the first tenant after the last one. */
  method Search(tenants: seq<string>, last: string) returns (index: nat)
    requires Sorted(tenants)
    ensures index <= |tenants|
    ensures forall i | 0 <= i < index :: !Less(last, tenants[i])
    ensures forall i | index <= i < |tenants| :: Less(last, tenants[i])
  {
    var lo, hi := 0, |tenants|;
    while lo < hi
      invariant 0 <= lo <= hi <= |tenants|
      invariant forall i | 0 <= i < lo :: !Less(last, tenants[i])
      invariant forall i | hi <= i < |tenants| :: Less(last, tenants[i])
    {
      var mid := (lo + hi) / 2;
      SearchStep(tenants, last, mid);
      if Less(last, tenants[mid]) { hi := mid; } else { lo := mid + 1; }
    }
    return lo;
  }

  lemma SearchStep(tenants: seq<string>, last: string, mid: nat)
    requires Sorted(tenants) && mid < |tenants|
    ensures Less(last, tenants[mid]) ==> forall i | mid <= i < |tenants| :: Less(last, tenants[i])
    ensures !Less(last, tenants[mid]) ==> forall i | 0 <= i <= mid :: !Less(last, tenants[i])
  {
    forall i | mid < i < |tenants| && Less(last, tenants[mid]) ensures Less(last, tenants[i]) {
      LessTransitive(last, tenants[mid], tenants[i]);
    }
    forall i | 0 <= i < mid && Less(last, tenants[i]) ensures Less(last, tenants[mid]) {
      LessTransitive(last, tenants[i], tenants[mid]);
    }
  }

  lemma SearchIsTurn(known: set<string>, last: string, index: nat)
    requires known != {} && index <= |known|
    requires forall i | 0 <= i < index :: !Less(last, Sort(known)[i])
    requires forall i | index <= i < |known| :: Less(last, Sort(known)[i])
    ensures Turn(known, last) == Sort(known)[if index == |known| then 0 else index]
  {
    var tenants := Sort(known);
    if index < |known| {
      FirstIsLeast(tenants, index, After(known, last));
    } else {
      assert After(known, last) == {};
      FirstIsLeast(tenants, 0, known);
    }
  }

  lemma FirstIsLeast(tenants: seq<string>, from: nat, keys: set<string>)
    requires Sorted(tenants) && from < |tenants| && tenants[from] in keys
    requires forall k | k in keys :: exists i :: from <= i < |tenants| && tenants[i] == k
    ensures keys != {} && Least(keys) == tenants[from]
  {
    assert IsLeast(tenants[from], keys);
    LeastUnique(tenants[from], Least(keys), keys);
  }

  // ---------------------------------------------------------------- runs

  /** The tenant served by each pass of a run, None where the read failed or found nobody. */
  function Turns(found: seq<Option<set<string>>>, last: string): (ts: seq<Option<string>>)
    ensures |ts| == |found|
  {
    if found == [] then [] else [Served(found[0], last)] + Turns(found[1..], LastAfter(found[0], last))
  }

  /** A whole run of configured passes: the tenants the passes leave behind are those `Turns` names. */
  method Run(r: LedgeredReconciler, found: seq<Option<set<string>>>, requests: seq<(string, Cursor) -> Attempt>)
    returns (ghost served: seq<Option<string>>)
    requires |requests| == |found|
    modifies r
    ensures served == Turns(found, old(r.lastTenant))
    ensures found != [] && found[|found| - 1].Some? ==> r.cursors.Keys <= found[|found| - 1].value
  {
    served := [];
    for i := 0 to |found|
      invariant served + Turns(found[i..], r.lastTenant) == Turns(found, old(r.lastTenant))
      invariant i > 0 && found[i - 1].Some? ==> r.cursors.Keys <= found[i - 1].value
    {
      ghost var last := r.lastTenant;
      var _, _ := r.Next(true, found[i], requests[i]);
      ghost var pass := if found[i].Some? && found[i].value != {} then Some(r.lastTenant) else None;
      TurnsFrom(found, i, last, served);
      served := served + [pass];
    }
  }

  lemma TurnsFrom(found: seq<Option<set<string>>>, i: nat, last: string, served: seq<Option<string>>)
    requires i < |found|
    ensures served + Turns(found[i..], last)
         == (served + [Served(found[i], last)]) + Turns(found[i + 1..], LastAfter(found[i], last))
  {
    assert found[i..][1..] == found[i + 1..];
  }

  function Successes(found: seq<Option<set<string>>>): nat {
    if found == [] then 0 else (if found[0].Some? then 1 else 0) + Successes(found[1..])
  }

  /** Every read that succeeds finds `t`, and nobody outside `all`. */
  predicate Stays(t: string, all: set<string>, found: seq<Option<set<string>>>) {
    forall i | 0 <= i < |found| && found[i].Some? :: t in found[i].value && found[i].value <= all
  }

  // ---------------------------------------------------------------- fairness

  /** Those whose turn can come from `last` up to and including `t`, going round. */
  function Ahead(all: set<string>, last: string, t: string): set<string> {
    set u | u in all && if Less(last, t) then Less(last, u) && !Less(t, u) else Less(last, u) || !Less(t, u)
  }

  lemma Ordered(a: string, b: string, c: string)
    ensures !Less(a, a)
    ensures Less(a, b) && Less(b, c) ==> Less(a, c)
    ensures a == b || Less(a, b) || Less(b, a)
    ensures Less(a, b) ==> !Less(b, a)
  {
    LessIrreflexive(a);
    LessTotal(a, b);
    if Less(a, b) && Less(b, c) { LessTransitive(a, b, c); }
    if Less(a, b) && Less(b, a) { LessTransitive(a, b, a); }
  }

  /** A turn that is not yet `t`'s brings `t` strictly nearer, whoever else comes and goes. */
  lemma TurnNearer(all: set<string>, tenants: set<string>, last: string, t: string)
    requires t in tenants && tenants <= all
    ensures var u := Turn(tenants, last);
            u in Ahead(all, last, t) && (u != t ==> Ahead(all, u, t) <= Ahead(all, last, t) - {u})
  {
    var u := Turn(tenants, last);
    TurnAhead(all, tenants, last, t);
    if u != t {
      forall v | v in Ahead(all, u, t) ensures v in Ahead(all, last, t) - {u} {
        Ordered(u, t, v);
        Ordered(last, u, v);
        Ordered(u, t, u);
        Ordered(last, u, t);
        Ordered(t, last, u);
        Ordered(t, last, v);
      }
    }
  }

  lemma TurnAhead(all: set<string>, tenants: set<string>, last: string, t: string)
    requires t in tenants && tenants <= all
    ensures Turn(tenants, last) in Ahead(all, last, t)
  {
    var u := Turn(tenants, last);
    var after := After(tenants, last);
    Ordered(u, t, u);
    if after != {} {
      assert IsLeast(u, after);
      assert Less(last, t) ==> t in after;
    } else {
      assert IsLeast(u, tenants);
      assert t !in after;
    }
  }

  /** A tenant that stays is served before the successful reads outnumber those ahead of it. */
  lemma {:induction false} ServedWithin(t: string, all: set<string>, found: seq<Option<set<string>>>, last: string)
    requires Stays(t, all, found) && t in all && Successes(found) >= |Ahead(all, last, t)|
    ensures Some(t) in Turns(found, last)
  {
    TInAhead(all, last, t);
    assert Successes(found) > 0;
    var rest := found[1..];
    if found[0].None? {
      ServedWithin(t, all, rest, last);
    } else {
      TurnNearer(all, found[0].value, last, t);
      var u := Turn(found[0].value, last);
      assert Turns(found, last)[0] == Some(u);
      if u != t {
        Smaller(Ahead(all, u, t), Ahead(all, last, t), u);
        ServedWithin(t, all, rest, u);
      }
    }
  }

  lemma TInAhead(all: set<string>, last: string, t: string)
    requires t in all
    ensures t in Ahead(all, last, t) && |Ahead(all, last, t)| > 0
  {
    Ordered(t, t, t);
    assert t in Ahead(all, last, t);
  }

  lemma Smaller(a: set<string>, b: set<string>, u: string)
    requires u in b && a <= b - {u}
    ensures |a| < |b|
  {
    Fewer(a, b - {u});
  }

  lemma {:induction false} Fewer(a: set<string>, b: set<string>)
    requires a <= b
    ensures |a| <= |b|
    decreases a
  {
    if a != {} {
      var x :| x in a;
      Fewer(a - {x}, b - {x});
    }
  }

  /** A tenant that stays in the catalogue is served within as many successful reads as there are tenants. */
  lemma Fair(t: string, all: set<string>, found: seq<Option<set<string>>>, last: string)
    requires Stays(t, all, found) && t in all && Successes(found) >= |all|
    ensures Some(t) in Turns(found, last)
  {
    Fewer(Ahead(all, last, t), all);
    ServedWithin(t, all, found, last);
  }

  // ---------------------------------------------------------------- a fixed catalogue

  lemma {:induction false} FixedReads(tenants: set<string>, n: nat)
    ensures Successes(seq(n, _ => Some(tenants))) == n
  {
    if n > 0 {
      assert seq(n, _ => Some(tenants))[1..] == seq(n - 1, _ => Some(tenants));
      FixedReads(tenants, n - 1);
    }
  }

  lemma {:induction false} TurnsAre(found: seq<Option<set<string>>>, last: string, i: nat)
    requires i < |found| && found[i].Some? && found[i].value != {}
    ensures Turns(found, last)[i].Some? && Turns(found, last)[i].value in found[i].value
  {
    if i > 0 { TurnsAre(found[1..], LastAfter(found[0], last), i - 1); }
  }

  /** With a fixed catalogue of n tenants any n passes serve each of them exactly once. */
  lemma EachOnce(tenants: set<string>, last: string)
    ensures var turns := Turns(seq(|tenants|, _ => Some(tenants)), last);
            && (forall t | t in tenants :: Some(t) in turns)
            && (forall i | 0 <= i < |turns| :: turns[i].Some? && turns[i].value in tenants)
            && (forall i, j | 0 <= i < j < |turns| :: turns[i] != turns[j])
  {
    var found := seq(|tenants|, _ => Some(tenants));
    var turns := Turns(found, last);
    FixedReads(tenants, |tenants|);
    forall t | t in tenants ensures Some(t) in turns { Fair(t, tenants, found, last); }
    forall i | 0 <= i < |turns| ensures turns[i].Some? && turns[i].value in tenants { TurnsAre(found, last, i); }
    forall i, j | 0 <= i < j < |turns| ensures turns[i] != turns[j] { CoverIsDistinct(turns, tenants, i, j); }
  }

  /** A list no longer than the set it covers repeats nothing. */
  lemma CoverIsDistinct(turns: seq<Option<string>>, tenants: set<string>, i: nat, j: nat)
    requires |turns| == |tenants| && (forall t | t in tenants :: Some(t) in turns)
    requires i < j < |turns|
    ensures turns[i] != turns[j]
  {
    if turns[i] == turns[j] {
      var fewer := turns[..j] + turns[j + 1..];
      forall t | t in tenants ensures Some(t) in fewer {
        var k :| 0 <= k < |turns| && turns[k] == Some(t);
        assert k < j ==> fewer[k] == Some(t);
        assert k > j ==> fewer[k - 1] == Some(t);
        assert fewer[i] == turns[i];
      }
      Covered(fewer, tenants);
      assert false;
    }
  }

  lemma {:induction false} Covered(turns: seq<Option<string>>, tenants: set<string>)
    requires forall t | t in tenants :: Some(t) in turns
    ensures |tenants| <= |turns|
  {
    if turns != [] {
      var rest := if turns[0].Some? then tenants - {turns[0].value} else tenants;
      forall t | t in rest ensures Some(t) in turns[1..] {
        var k :| 0 <= k < |turns| && turns[k] == Some(t);
        assert turns[1..][k - 1] == Some(t);
      }
      Covered(turns[1..], rest);
    } else {
      assert tenants == {};
    }
  }

  // ---------------------------------------------------------------- a tenant's pages

  /** A pass that served a tenant: the catalogue it found, whose turn it was, and what the page request gave. */
  datatype Pass = Pass(found: set<string>, tenant: string, attempt: Attempt)

  /** The cursors that the passes leave behind, each pass doing what `Next` does. */
  function CursorsAfter(passes: seq<Pass>): map<string, Cursor> {
    if passes == [] then map[]
    else
      var p := passes[|passes| - 1];
      Moved(Kept(CursorsAfter(passes[..|passes| - 1]), p.found), p.tenant, p.attempt)
  }

  /**
   Where the tenant's next page begins, going by its own history: after its last page that gave no
   error, and at the start if that was the last one, if there is none, or if the tenant was gone since.
   */
  function Resume(passes: seq<Pass>, t: string): Cursor {
    if passes == [] then START
    else
      var p := passes[|passes| - 1];
      if p.tenant == t && !p.attempt.failed then (if p.attempt.page.done then START else p.attempt.page.next)
      else if t in p.found then Resume(passes[..|passes| - 1], t)
      else START
  }

  lemma {:induction false} CursorIsResume(passes: seq<Pass>, t: string)
    ensures CursorOf(CursorsAfter(passes), t) == Resume(passes, t)
  {
    if passes != [] { CursorIsResume(passes[..|passes| - 1], t); }
  }

  /** The pages of one tenant, by the cursors they begin at: each leads to the next, and the last says it is. */
  predicate Paged(request: Cursor -> Attempt, chain: seq<Cursor>) {
    && chain != [] && chain[0] == START
    && (forall i | 0 <= i < |chain| :: !request(chain[i]).failed)
    && (forall i | 0 <= i < |chain| :: request(chain[i]).page.done <==> i == |chain| - 1)
    && (forall i | 0 <= i < |chain| - 1 :: request(chain[i]).page.next == chain[i + 1])
  }

  /** The tenant is always found, and its pages are asked for at its cursor; any request may fail. */
  predicate Asks(passes: seq<Pass>, t: string, request: Cursor -> Attempt) {
    forall k | 0 <= k < |passes| ::
      && t in passes[k].found
      && (passes[k].tenant == t ==>
            passes[k].attempt.failed
            || passes[k].attempt == request(CursorOf(CursorsAfter(passes[..k]), t)))
  }

  /** How many pages the tenant has had. */
  function Pages(passes: seq<Pass>, t: string): nat {
    if passes == [] then 0
    else
      var p := passes[|passes| - 1];
      Pages(passes[..|passes| - 1], t) + if p.tenant == t && !p.attempt.failed then 1 else 0
  }

  /**
   However the turns of other tenants and failed requests fall between, the pages of a tenant that
   stays are asked for one after the other to the last, and then from the start again.
   */
  lemma {:induction false} PagesInOrder(passes: seq<Pass>, t: string, request: Cursor -> Attempt, chain: seq<Cursor>)
    requires Paged(request, chain) && Asks(passes, t, request)
    ensures CursorOf(CursorsAfter(passes), t) == chain[Pages(passes, t) % |chain|]
  {
    CursorIsResume(passes, t);
    if passes == [] {
      Remainder(0, |chain|, 0, 0);
    } else {
      var init, p := passes[..|passes| - 1], passes[|passes| - 1];
      assert forall k | 0 <= k < |init| :: init[k] == passes[k] && init[..k] == passes[..k];
      PagesInOrder(init, t, request, chain);
      CursorIsResume(init, t);
      NextTurn(Pages(init, t), |chain|);
      if p.tenant == t && !p.attempt.failed {
        var n := Pages(init, t) % |chain|;
        assert p.attempt == request(chain[n]);
        assert Pages(passes, t) == Pages(init, t) + 1;
        assert Resume(passes, t) == if p.attempt.page.done then START else p.attempt.page.next;
        assert Resume(passes, t) == if n == |chain| - 1 then chain[0] else chain[n + 1];
      }
    }
  }

  lemma NextTurn(n: nat, m: nat)
    requires m > 0
    ensures (n + 1) % m == if n % m == m - 1 then 0 else n % m + 1
  {
    var q, r := n / m, n % m;
    if r == m - 1 {
      assert (q + 1) * m == q * m + m;
      Remainder(n + 1, m, q + 1, 0);
    } else {
      Remainder(n + 1, m, q, r + 1);
    }
  }

  lemma Remainder(x: nat, m: nat, q: nat, r: nat)
    requires r < m && x == q * m + r
    ensures x % m == r
  {
    var p := x / m;
    assert x == p * m + x % m && (q - p) * m == q * m - p * m;
    if q > p { Wider(q - p, m); }
    if q < p {
      assert (p - q) * m == p * m - q * m;
      Wider(p - q, m);
    }
  }

  lemma Wider(k: nat, m: nat)
    requires k > 0
    ensures k * m >= m
  {
    assert k * m == (k - 1) * m + m;
  }
}
