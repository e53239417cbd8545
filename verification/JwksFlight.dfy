/**
 The single-flight protocol of the JWKS cache under concurrent requests
 (internal/auth/verifier.go, `cachedJWKS`, `beginFetch`, `finishFetch`,
 `clearFetchFailure` and the budget section of `refreshForMissingKid`).

 A step is one lock section, one channel operation, or the return of a fetch. Any number
 of threads interleave in any order; fetches may fail or panic, waiters may be cancelled,
 and clock readings are arbitrary.
 */
module JwksFlight {
  import opened Bytes
  import opened JwksModel

  type Thread = nat

  datatype Result = Success(keys: KeySet) | Failure

  /**
   `fetchOutcome`: `fetched` is what the leader's fetch gave, `published` what is visible,
   `closes` counts channel closes.
   */
  datatype Outcome = Outcome(leader: Thread, fetched: Option<Result>, published: Option<Result>, closes: nat)

  datatype Return = Keys(keys: KeySet) | Error | Cancelled | Panicked

  datatype Pc =
    | Idle
    | Entered(force: bool)              // inside cachedJWKS, before the freshness section
    | Starting                          // about to call beginFetch
    | Fetching(flight: nat)             // leader, fetch under way
    | Finishing(flight: nat)            // leader, fetch returned, finishFetch due
    | Unwinding(flight: nat)            // leader, fetch panicked, finishFetch due
    | Clearing(flight: nat)             // leader, outcome published, clearFetchFailure due
    | Waiting(flight: nat)              // joiner, at the select
    | Reading(flight: nat)              // outcome seen as done, result section due
    | Returned(value: Return)

  /** `jwksCacheEntry`, as far as the protocol uses it; `stamps` are the successive values of forcedAt. */
  datatype Entry = Entry(keys: Option<KeySet>, fetchedAt: Option<int>, lastFailureAt: Option<int>,
                         inflight: Option<nat>, stamps: seq<int>)

  datatype State = State(ttl: int, entry: Entry, outcomes: seq<Outcome>, pcs: map<Thread, Pc>)

  datatype Action =
    | Call(t: Thread)                   // cachedJWKS(ctx, false)
    | Stamp(t: Thread, now: int)        // the budget section, then cachedJWKS(ctx, true)
    | Check(t: Thread, now: int)
    | Begin(t: Thread)
    | FetchReturns(t: Thread, result: Result)
    | FetchPanics(t: Thread)
    | Finish(t: Thread, now: int)
    | Clear(t: Thread)
    | Join(t: Thread)
    | Cancel(t: Thread)
    | Read(t: Thread, now: int)

  function PcOf(s: State, t: Thread): Pc { if t in s.pcs then s.pcs[t] else Idle }

  function Goto(s: State, t: Thread, pc: Pc): State { s.(pcs := s.pcs[t := pc]) }

  function Initial(ttl: int): State { State(ttl, Entry(None, None, None, None, []), [], map[]) }

  // ---------------------------------------------------------------- steps

  /** The first read section of `cachedJWKS`: cooldown, then freshness, else go on to fetch. */
  function AfterCheck(s: State, force: bool, now: int): Pc {
    var e := s.entry;
    if e.lastFailureAt.Some? && Sub(now, e.lastFailureAt.value) < s.ttl then
      if e.keys.Some? && StaleAgeWithinGrace(e.fetchedAt, s.ttl, now) then Returned(Keys(e.keys.value))
      else Returned(Error)
    else if !force && e.keys.Some? && e.fetchedAt.Some? && Sub(now, e.fetchedAt.value) < s.ttl then
      Returned(Keys(e.keys.value))
    else Starting
  }

  /** `beginFetch`: claim the slot, or join the flight that holds it. */
  function BeginFetch(s: State, t: Thread): State {
    match s.entry.inflight
    case Some(o) => Goto(s, t, Waiting(o))
    case None =>
      var o := |s.outcomes|;
      var claimed := s.(entry := s.entry.(inflight := Some(o)), outcomes := s.outcomes + [Outcome(t, None, None, 0)]);
      Goto(claimed, t, Fetching(o))
  }

  /** `finishFetch`: publish, store on success only, release the slot, close the channel. */
  function FinishFetch(s: State, o: nat, result: Result, now: int): State
    requires o < |s.outcomes|
  {
    var out := s.outcomes[o];
    var stored := match result
      case Success(ks) => s.entry.(keys := Some(ks), fetchedAt := Some(now), lastFailureAt := None)
      case Failure => s.entry.(lastFailureAt := Some(now));
    s.(entry := stored.(inflight := None),
       outcomes := s.outcomes[o := out.(published := Some(result), closes := out.closes + 1)])
  }

  /** The last read section: the outcome, or on an error the stored set within its grace. */
  function AfterRead(s: State, result: Result, now: int): Return {
    match result
    case Success(ks) => Keys(ks)
    case Failure =>
      if s.entry.keys.Some? && StaleAgeWithinGrace(s.entry.fetchedAt, s.ttl, now) then Keys(s.entry.keys.value)
      else Error
  }

  function LastStamp(e: Entry): Option<int> { if e.stamps == [] then None else Some(e.stamps[|e.stamps| - 1]) }

  /** The state after an action, or None when the action is not enabled. */
  function Step(s: State, a: Action): Option<State> {
    match (a, PcOf(s, a.t))
    case (Call(t), Idle) => Some(Goto(s, t, Entered(false)))
    case (Call(t), Returned(_)) => Some(Goto(s, t, Entered(false)))
    case (Stamp(t, now), Idle) => StampStep(s, t, now)
    case (Stamp(t, now), Returned(_)) => StampStep(s, t, now)
    case (Check(t, now), Entered(force)) => Some(Goto(s, t, AfterCheck(s, force, now)))
    case (Begin(t), Starting) => Some(BeginFetch(s, t))
    case (FetchReturns(t, r), Fetching(o)) =>
      if o < |s.outcomes| then Some(Goto(Noted(s, o, r), t, Finishing(o))) else None
    case (FetchPanics(t), Fetching(o)) =>
      if o < |s.outcomes| then Some(Goto(Noted(s, o, Failure), t, Unwinding(o))) else None
    case (Finish(t, now), Finishing(o)) =>
      if o < |s.outcomes| && s.outcomes[o].fetched.Some? then
        Some(Goto(FinishFetch(s, o, s.outcomes[o].fetched.value, now), t, Reading(o))) else None
    case (Finish(t, now), Unwinding(o)) =>
      if o < |s.outcomes| then Some(Goto(FinishFetch(s, o, Failure, now), t, Clearing(o))) else None
    case (Clear(t), Clearing(_)) => Some(Goto(s.(entry := s.entry.(lastFailureAt := None)), t, Returned(Panicked)))
    case (Join(t), Waiting(o)) =>
      if o < |s.outcomes| && s.outcomes[o].closes > 0 then Some(Goto(s, t, Reading(o))) else None
    case (Cancel(t), Waiting(_)) => Some(Goto(s, t, Returned(Cancelled)))
    case (Read(t, now), Reading(o)) =>
      if o < |s.outcomes| && s.outcomes[o].published.Some? then
        Some(Goto(s, t, Returned(AfterRead(s, s.outcomes[o].published.value, now)))) else None
    case _ => None
  }

  /** What the leader's fetch gave, noted before it is published. */
  function Noted(s: State, o: nat, r: Result): State
    requires o < |s.outcomes|
  {
    s.(outcomes := s.outcomes[o := s.outcomes[o].(fetched := Some(r))])
  }

  /** `forcedBudgetLocked` and the assignment to forcedAt, in one lock section. */
  function StampStep(s: State, t: Thread, now: int): Option<State> {
    var last := LastStamp(s.entry);
    if last.Some? && Sub(now, last.value) < s.ttl then Some(s)
    else Some(Goto(s.(entry := s.entry.(stamps := s.entry.stamps + [now])), t, Entered(true)))
  }

  /** The state after a run, or None when some action was not enabled. */
  function Run(s: State, actions: seq<Action>): Option<State>
    decreases |actions|
  {
    if actions == [] then Some(s)
    else
      match Step(s, actions[0])
      case None => None
      case Some(s') => Run(s', actions[1..])
  }

  // ---------------------------------------------------------------- the invariant

  /** The thread holds the slot of flight o. */
  predicate Leads(pc: Pc, o: nat) {
    (pc.Fetching? || pc.Finishing? || pc.Unwinding?) && pc.flight == o
  }

  predicate Flying(pc: Pc) { pc.Fetching? || pc.Finishing? || pc.Unwinding? }

  /** A flight that is over: what its leader fetched was published, and its channel closed, once. */
  predicate Landed(out: Outcome) {
    out.published.Some? && out.published == out.fetched && out.closes == 1
  }

  /** A flight under way: nothing visible yet. */
  predicate Open(out: Outcome) {
    out.published.None? && out.closes == 0
  }

  /** The slot is held exactly while its leader is flying; every other flight has landed. */
  predicate SlotInv(s: State) {
    && (s.entry.inflight.Some? ==>
          && s.entry.inflight.value < |s.outcomes| && Open(s.outcomes[s.entry.inflight.value])
          && Leads(PcOf(s, s.outcomes[s.entry.inflight.value].leader), s.entry.inflight.value))
    && forall o | 0 <= o < |s.outcomes| && s.entry.inflight != Some(o) :: Landed(s.outcomes[o])
  }

  /** Where a thread may be, given the flights. */
  predicate PcInv(s: State, t: Thread, pc: Pc) {
    && (Flying(pc) ==>
          s.entry.inflight == Some(pc.flight) && pc.flight < |s.outcomes| && s.outcomes[pc.flight].leader == t)
    && (pc.Finishing? ==> s.outcomes[pc.flight].fetched.Some?)
    && (pc.Unwinding? ==> s.outcomes[pc.flight].fetched == Some(Failure))
    && (pc.Waiting? ==> pc.flight < |s.outcomes|)
    && (pc.Reading? || pc.Clearing? ==> pc.flight < |s.outcomes| && Landed(s.outcomes[pc.flight]))
  }

  predicate Inv(s: State) {
    && 0 < s.ttl <= MAX_DURATION && SlotInv(s) && Spaced(s.entry.stamps, s.ttl)
    && forall t | t in s.pcs :: PcInv(s, t, s.pcs[t])
  }

  lemma InitialInv(ttl: int)
    requires 0 < ttl <= MAX_DURATION
    ensures Inv(Initial(ttl))
  {
  }

  lemma BeginKeeps(s: State, t: Thread)
    requires Inv(s) && PcOf(s, t).Starting?
    ensures Inv(BeginFetch(s, t))
  {
    var s' := BeginFetch(s, t);
    if s.entry.inflight.None? {
      forall u | u in s'.pcs ensures PcInv(s', u, s'.pcs[u]) {
        if u != t { assert PcInv(s, u, s.pcs[u]); }
      }
    } else {
      forall u | u in s'.pcs ensures PcInv(s', u, s'.pcs[u]) {
        if u != t { assert PcInv(s, u, s.pcs[u]); }
      }
    }
  }

  lemma NoteKeeps(s: State, t: Thread, o: nat, r: Result, pc: Pc)
    requires Inv(s) && PcOf(s, t) == Fetching(o)
    requires pc == Finishing(o) || (pc == Unwinding(o) && r == Failure)
    ensures o < |s.outcomes| && Inv(Goto(Noted(s, o, r), t, pc))
  {
    assert PcInv(s, t, s.pcs[t]);
    var s' := Goto(Noted(s, o, r), t, pc);
    forall u | u in s'.pcs ensures PcInv(s', u, s'.pcs[u]) {
      if u != t { assert PcInv(s, u, s.pcs[u]); }
    }
  }

  lemma FinishKeeps(s: State, t: Thread, o: nat, r: Result, now: int, pc: Pc)
    requires Inv(s) && Leads(PcOf(s, t), o) && o < |s.outcomes| && s.outcomes[o].fetched == Some(r)
    requires pc == Reading(o) || pc == Clearing(o)
    ensures Inv(Goto(FinishFetch(s, o, r, now), t, pc))
  {
    assert PcInv(s, t, s.pcs[t]);
    var s' := Goto(FinishFetch(s, o, r, now), t, pc);
    forall u | u in s'.pcs ensures PcInv(s', u, s'.pcs[u]) {
      if u != t { assert PcInv(s, u, s.pcs[u]); }
    }
  }

  /** A step that only moves a thread which is not flying. */
  lemma MoveKeeps(s: State, e: Entry, t: Thread, pc: Pc)
    requires Inv(s) && !Flying(PcOf(s, t)) && e.inflight == s.entry.inflight && Spaced(e.stamps, s.ttl)
    requires PcInv(s, t, pc) && !Flying(pc)
    ensures Inv(Goto(s.(entry := e), t, pc))
  {
    var s' := Goto(s.(entry := e), t, pc);
    forall u | u in s'.pcs ensures PcInv(s', u, s'.pcs[u]) {
      if u != t { assert PcInv(s, u, s.pcs[u]); }
    }
  }

  lemma StampSpaced(s: State, now: int)
    requires Inv(s)
    ensures LastStamp(s.entry).None? || Sub(now, LastStamp(s.entry).value) >= s.ttl ==>
        Spaced(s.entry.stamps + [now], s.ttl)
  {
  }

  /** Every step keeps the invariant. */
  lemma StepKeeps(s: State, a: Action)
    requires Inv(s) && Step(s, a).Some?
    ensures Inv(Step(s, a).value)
  {
    var pc := PcOf(s, a.t);
    assert a.t in s.pcs ==> PcInv(s, a.t, pc);
    match (a, pc) {
      case (Call(t), _) => MoveKeeps(s, s.entry, t, Entered(false));
      case (Stamp(t, now), _) =>
        StampSpaced(s, now);
        if Step(s, a).value != s {
          MoveKeeps(s, s.entry.(stamps := s.entry.stamps + [now]), t, Entered(true));
        }
      case (Check(t, now), Entered(force)) => MoveKeeps(s, s.entry, t, AfterCheck(s, force, now));
      case (Begin(t), Starting) => BeginKeeps(s, t);
      case (FetchReturns(t, r), Fetching(o)) => NoteKeeps(s, t, o, r, Finishing(o));
      case (FetchPanics(t), Fetching(o)) => NoteKeeps(s, t, o, Failure, Unwinding(o));
      case (Finish(t, now), Finishing(o)) => FinishKeeps(s, t, o, s.outcomes[o].fetched.value, now, Reading(o));
      case (Finish(t, now), Unwinding(o)) => FinishKeeps(s, t, o, Failure, now, Clearing(o));
      case (Clear(t), Clearing(_)) => MoveKeeps(s, s.entry.(lastFailureAt := None), t, Returned(Panicked));
      case (Join(t), Waiting(o)) => MoveKeeps(s, s.entry, t, Reading(o));
      case (Cancel(t), Waiting(_)) => MoveKeeps(s, s.entry, t, Returned(Cancelled));
      case (Read(t, now), Reading(o)) =>
        MoveKeeps(s, s.entry, t, Returned(AfterRead(s, s.outcomes[o].published.value, now)));
    }
  }

  /** The invariant holds in every state of every run. */
  lemma {:induction false} RunKeeps(s: State, actions: seq<Action>)
    requires Inv(s) && Run(s, actions).Some?
    ensures Inv(Run(s, actions).value)
    decreases actions
  {
    if actions != [] {
      StepKeeps(s, actions[0]);
      RunKeeps(Step(s, actions[0]).value, actions[1..]);
    }
  }

  // ---------------------------------------------------------------- what the invariant gives

  /** In every interleaving at most one fetch is in flight. */
  lemma SingleFlight(ttl: int, actions: seq<Action>, t: Thread, u: Thread)
    requires 0 < ttl <= MAX_DURATION && Run(Initial(ttl), actions).Some?
    requires Flying(PcOf(Run(Initial(ttl), actions).value, t)) && Flying(PcOf(Run(Initial(ttl), actions).value, u))
    ensures t == u
  {
    RunKeeps(Initial(ttl), actions);
    var s := Run(Initial(ttl), actions).value;
    assert PcInv(s, t, s.pcs[t]) && PcInv(s, u, s.pcs[u]);
  }

  /** The slot is held iff some thread is flying. */
  lemma SlotHeldIffFlying(s: State)
    requires Inv(s)
    ensures s.entry.inflight.Some? <==> exists t :: Flying(PcOf(s, t))
  {
    if s.entry.inflight.Some? {
      assert Flying(PcOf(s, s.outcomes[s.entry.inflight.value].leader));
    }
    forall t | Flying(PcOf(s, t)) ensures s.entry.inflight.Some? {
      assert PcInv(s, t, s.pcs[t]);
    }
  }

  /** A waiter is never stranded: its flight has landed, or its leader is still flying. */
  lemma WaiterNotStranded(s: State, t: Thread)
    requires Inv(s) && PcOf(s, t).Waiting?
    ensures var o := PcOf(s, t).flight;
            o < |s.outcomes| && (Step(s, Join(t)).Some? || Leads(PcOf(s, s.outcomes[o].leader), o))
  {
    assert PcInv(s, t, s.pcs[t]);
  }

  /** The stored set and its stamp change only when a successful fetch is published, to that fetch's set. */
  lemma StoredSetChanges(s: State, a: Action)
    requires Inv(s) && Step(s, a).Some?
    requires var e, e' := s.entry, Step(s, a).value.entry; e.keys != e'.keys || e.fetchedAt != e'.fetchedAt
    ensures a.Finish? && PcOf(s, a.t).Finishing?
    ensures var o, e' := PcOf(s, a.t).flight, Step(s, a).value.entry;
            && o < |s.outcomes| && s.outcomes[o].leader == a.t
            && s.outcomes[o].fetched.Some? && s.outcomes[o].fetched.value.Success?
            && e'.keys == Some(s.outcomes[o].fetched.value.keys) && e'.fetchedAt == Some(a.now)
  {
    assert PcInv(s, a.t, PcOf(s, a.t));
  }

  /** A flight keeps its leader, and what it fetched or published never changes. */
  lemma StepOutcome(s: State, a: Action, o: nat)
    requires Inv(s) && Step(s, a).Some? && o < |s.outcomes|
    ensures var before, after := s.outcomes, Step(s, a).value.outcomes;
            && |before| <= |after| && after[o].leader == before[o].leader
            && (before[o].published.Some? ==> after[o] == before[o])
            && after[o].closes <= 1
  {
    StepKeeps(s, a);
    if a.t in s.pcs { assert PcInv(s, a.t, s.pcs[a.t]); }
  }

  /** Once published, an outcome stays as it is through the rest of any run, its channel closed once. */
  lemma {:induction false} PublishedForGood(s: State, actions: seq<Action>, o: nat)
    requires Inv(s) && Run(s, actions).Some? && o < |s.outcomes| && s.outcomes[o].published.Some?
    ensures var s' := Run(s, actions).value;
            o < |s'.outcomes| && s'.outcomes[o] == s.outcomes[o] && s.outcomes[o].closes == 1
    decreases actions
  {
    if actions != [] {
      StepKeeps(s, actions[0]);
      StepOutcome(s, actions[0], o);
      PublishedForGood(Step(s, actions[0]).value, actions[1..], o);
    }
  }

  // ---------------------------------------------------------------- the slot is always released

  function StepsOf(actions: seq<Action>, t: Thread): nat {
    if actions == [] then 0 else (if actions[0].t == t then 1 else 0) + StepsOf(actions[1..], t)
  }

  /** How many steps a leader is from releasing the slot. */
  function Due(pc: Pc): nat { if pc.Fetching? then 2 else if pc.Finishing? || pc.Unwinding? then 1 else 0 }

  /**
   The holder of the slot can always take its next step: the fetch may give anything or panic,
   and finishing is never barred.
   */
  lemma LeaderEnabled(s: State, r: Result, now: int)
    requires Inv(s) && s.entry.inflight.Some?
    ensures var t := s.outcomes[s.entry.inflight.value].leader;
            var pc := PcOf(s, t);
            && 1 <= Due(pc) <= 2
            && (pc.Fetching? ==> Step(s, FetchReturns(t, r)).Some? && Step(s, FetchPanics(t)).Some?)
            && (!pc.Fetching? ==> Step(s, Finish(t, now)).Some?)
  {
    var t := s.outcomes[s.entry.inflight.value].leader;
    assert PcInv(s, t, s.pcs[t]);
  }

  /**
   A step of the leader brings the release nearer or is the release; a step of anyone else
   leaves the flight alone.
   */
  lemma LeaderAdvances(s: State, a: Action, o: nat)
    requires Inv(s) && Step(s, a).Some? && s.entry.inflight == Some(o)
    ensures o < |s.outcomes| && o < |Step(s, a).value.outcomes|
    ensures var t, s' := s.outcomes[o].leader, Step(s, a).value;
            && s'.outcomes[o].leader == t
            && (a.t != t ==> s'.entry.inflight == Some(o) && PcOf(s', t) == PcOf(s, t))
            && (a.t == t && Due(PcOf(s, t)) == 2 ==> s'.entry.inflight == Some(o) && Due(PcOf(s', t)) == 1)
            && (a.t == t && Due(PcOf(s, t)) == 1 ==> s'.outcomes[o].published.Some?)
  {
    var t := s.outcomes[o].leader;
    assert PcInv(s, t, s.pcs[t]);
    if a.t in s.pcs { assert PcInv(s, a.t, s.pcs[a.t]); }
  }

  /**
   In every run, with anything interleaved, a flight has left the slot and is published iff its
   leader took its due steps.
   */
  lemma {:induction false} SlotReleased(s: State, actions: seq<Action>, o: nat)
    requires Inv(s) && Run(s, actions).Some? && s.entry.inflight == Some(o)
    ensures o < |s.outcomes| && o < |Run(s, actions).value.outcomes|
    ensures var t, s' := s.outcomes[o].leader, Run(s, actions).value;
            && (s'.entry.inflight != Some(o) <==> StepsOf(actions, t) >= Due(PcOf(s, t)))
            && (s'.outcomes[o].published.Some? <==> StepsOf(actions, t) >= Due(PcOf(s, t)))
    decreases |actions|
  {
    var t := s.outcomes[o].leader;
    assert PcInv(s, t, s.pcs[t]);
    if actions != [] {
      var s1 := Step(s, actions[0]).value;
      LeaderAdvances(s, actions[0], o);
      StepKeeps(s, actions[0]);
      if s1.entry.inflight == Some(o) {
        SlotReleased(s1, actions[1..], o);
      } else {
        PublishedForGood(s1, actions[1..], o);
        RunKeeps(s1, actions[1..]);
      }
    }
  }

  /** Every channel is closed at most once in every run, and exactly once when its flight is over. */
  lemma ClosedOnce(ttl: int, actions: seq<Action>, o: nat)
    requires 0 < ttl <= MAX_DURATION && Run(Initial(ttl), actions).Some?
    requires o < |Run(Initial(ttl), actions).value.outcomes|
    ensures var s := Run(Initial(ttl), actions).value;
            s.outcomes[o].closes == if s.entry.inflight == Some(o) then 0 else 1
  {
    RunKeeps(Initial(ttl), actions);
  }

  // ---------------------------------------------------------------- what a request gets

  /** What the fetch of flight o gave, going by the actions alone; a panic counts as a failure. */
  function Gave(s: State, actions: seq<Action>, o: nat, given: Option<Result>): Option<Result>
    decreases |actions|
  {
    if actions == [] || Step(s, actions[0]).None? then given
    else
      var a := actions[0];
      Gave(Step(s, a).value, actions[1..], o, AfterFetch(s, a, o, given))
  }

  function AfterFetch(s: State, a: Action, o: nat, given: Option<Result>): Option<Result> {
    if PcOf(s, a.t) != Fetching(o) then given else if a.FetchReturns? then Some(a.result) else Some(Failure)
  }

  /** A set with the moment it was stored. */
  datatype Stored = Stored(keys: KeySet, at: int)

  /** The set of the last flight that landed with a success, going by what the flights fetched. */
  function LastLanding(s: State, actions: seq<Action>, last: Option<Stored>): Option<Stored>
    decreases |actions|
  {
    if actions == [] || Step(s, actions[0]).None? then last
    else
      var a := actions[0];
      LastLanding(Step(s, a).value, actions[1..], AfterLanding(s, a, last))
  }

  /** The action lands a flight whose fetch succeeded. */
  predicate Succeeds(s: State, a: Action) {
    a.Finish? && PcOf(s, a.t).Finishing? && Fetch(s, a).Success?
  }

  function Fetch(s: State, a: Action): Result
    requires PcOf(s, a.t).Finishing?
  {
    var o := PcOf(s, a.t).flight;
    if o < |s.outcomes| && s.outcomes[o].fetched.Some? then s.outcomes[o].fetched.value else Failure
  }

  function AfterLanding(s: State, a: Action, last: Option<Stored>): Option<Stored> {
    if Succeeds(s, a) then Some(Stored(Fetch(s, a).keys, a.now)) else last
  }

  /** The entry holds this set, stored at this moment. */
  predicate Holds(e: Entry, stored: Option<Stored>) {
    if stored.None? then e.keys.None? && e.fetchedAt.None?
    else e.keys == Some(stored.value.keys) && e.fetchedAt == Some(stored.value.at)
  }

  /** An outcome of the run records what its fetch gave. */
  lemma {:induction false} OutcomeIsGiven(s: State, actions: seq<Action>, o: nat, given: Option<Result>)
    requires Inv(s) && Run(s, actions).Some? && o < |Run(s, actions).value.outcomes|
    requires given == if o < |s.outcomes| then s.outcomes[o].fetched else None
    ensures Run(s, actions).value.outcomes[o].fetched == Gave(s, actions, o, given)
    decreases |actions|
  {
    if actions != [] {
      StepKeeps(s, actions[0]);
      GivenStep(s, actions[0], o);
      OutcomeIsGiven(Step(s, actions[0]).value, actions[1..], o, AfterFetch(s, actions[0], o, given));
    }
  }

  lemma GivenStep(s: State, a: Action, o: nat)
    requires Inv(s) && Step(s, a).Some?
    ensures var before, after := s.outcomes, Step(s, a).value.outcomes;
            (if o < |after| then after[o].fetched else None)
            == AfterFetch(s, a, o, if o < |before| then before[o].fetched else None)
  {
    if a.t in s.pcs { assert PcInv(s, a.t, s.pcs[a.t]); }
  }

  /** The entry always holds the set of the last flight that landed with a success. */
  lemma {:induction false} StoredIsLastLanding(s: State, actions: seq<Action>, last: Option<Stored>)
    requires Inv(s) && Run(s, actions).Some? && Holds(s.entry, last)
    ensures Holds(Run(s, actions).value.entry, LastLanding(s, actions, last))
    decreases |actions|
  {
    if actions != [] {
      var a := actions[0];
      if a.t in s.pcs { assert PcInv(s, a.t, s.pcs[a.t]); }
      StepKeeps(s, a);
      StoredIsLastLanding(Step(s, a).value, actions[1..], AfterLanding(s, a, last));
    }
  }

  /** A stored set may serve in an outage for three intervals, or for ever when three intervals pass 64 bits. */
  predicate Serves(stored: Option<Stored>, ttl: int, now: int) {
    stored.Some? && (now - stored.value.at <= 3 * ttl || 3 * ttl > MAX_DURATION)
  }

  function InOutage(stored: Option<Stored>, ttl: int, now: int): Return {
    if Serves(stored, ttl, now) then Keys(stored.value.keys) else Error
  }

  lemma GraceOf(e: Entry, stored: Option<Stored>, ttl: int, now: int)
    requires Holds(e, stored) && 0 < ttl <= MAX_DURATION
    ensures e.keys.Some? && StaleAgeWithinGrace(e.fetchedAt, ttl, now) <==> Serves(stored, ttl, now)
  {
    if stored.Some? { GraceExact(stored.value.at, ttl, now); }
  }

  /**
   Leader and joiners of one flight get what its fetch gave: its set, or after a failure the set
   of the last flight that succeeded while that is within its grace, and otherwise an error.
   */
  lemma JoinersSeeLeader(ttl: int, actions: seq<Action>, t: Thread, o: nat, now: int)
    requires 0 < ttl <= MAX_DURATION && Run(Initial(ttl), actions).Some?
    requires PcOf(Run(Initial(ttl), actions).value, t) == Reading(o)
    ensures var s := Run(Initial(ttl), actions).value;
            var given, stored := Gave(Initial(ttl), actions, o, None), LastLanding(Initial(ttl), actions, None);
            && o < |s.outcomes| && given.Some? && s.outcomes[o].fetched == given
            && Step(s, Read(t, now)) == Some(Goto(s, t, Returned(
                 match given.value
                 case Success(keys) => Keys(keys)
                 case Failure => InOutage(stored, ttl, now))))
  {
    var s := Run(Initial(ttl), actions).value;
    RunKeeps(Initial(ttl), actions);
    RunTtl(Initial(ttl), actions);
    assert PcInv(s, t, s.pcs[t]);
    OutcomeIsGiven(Initial(ttl), actions, o, None);
    StoredIsLastLanding(Initial(ttl), actions, None);
    GraceOf(s.entry, LastLanding(Initial(ttl), actions, None), ttl, now);
  }

  /**
   A request's first look: less than an interval after a failure it gets what an outage leaves it;
   else, unless forced, a set less than an interval old; else it goes on to fetch.
   */
  lemma CheckDecides(ttl: int, actions: seq<Action>, t: Thread, force: bool, now: int)
    requires 0 < ttl <= MAX_DURATION && Run(Initial(ttl), actions).Some?
    requires PcOf(Run(Initial(ttl), actions).value, t) == Entered(force)
    ensures var s := Run(Initial(ttl), actions).value;
            var stored, failed := LastLanding(Initial(ttl), actions, None), s.entry.lastFailureAt;
            Step(s, Check(t, now)) == Some(Goto(s, t,
              if failed.Some? && now - failed.value < ttl then Returned(InOutage(stored, ttl, now))
              else if !force && stored.Some? && now - stored.value.at < ttl then Returned(Keys(stored.value.keys))
              else Starting))
  {
    var s := Run(Initial(ttl), actions).value;
    RunKeeps(Initial(ttl), actions);
    RunTtl(Initial(ttl), actions);
    StoredIsLastLanding(Initial(ttl), actions, None);
    GraceOf(s.entry, LastLanding(Initial(ttl), actions, None), ttl, now);
  }

  /** A failed landing is stamped; a success or the clearing of a panic wipes the stamp, and nothing else moves it. */
  lemma FailureStamp(s: State, a: Action)
    requires Inv(s) && Step(s, a).Some?
    ensures Step(s, a).value.entry.lastFailureAt ==
            if a.Finish? && !Succeeds(s, a) then Some(a.now)
            else if a.Finish? || a.Clear? then None
            else s.entry.lastFailureAt
  {
    if a.t in s.pcs { assert PcInv(s, a.t, s.pcs[a.t]); }
  }

  // ---------------------------------------------------------------- cooldown and panics

  /** Every flight that lands in the run lands with a success. */
  predicate NoneFails(s: State, actions: seq<Action>)
    decreases |actions|
  {
    actions != [] && Step(s, actions[0]).Some? ==>
      && (actions[0].Finish? ==>
            var pc := PcOf(s, actions[0].t);
            && pc.Finishing? && pc.flight < |s.outcomes|
            && s.outcomes[pc.flight].fetched.Some? && s.outcomes[pc.flight].fetched.value.Success?)
      && NoneFails(Step(s, actions[0]).value, actions[1..])
  }

  lemma {:induction false} NoCooldownStays(s: State, actions: seq<Action>)
    requires s.entry.lastFailureAt.None? && Run(s, actions).Some? && NoneFails(s, actions)
    ensures Run(s, actions).value.entry.lastFailureAt.None?
    decreases |actions|
  {
    if actions != [] { NoCooldownStays(Step(s, actions[0]).value, actions[1..]); }
  }

  /**
   Once a panic is cleared, and until a flight fails, no check is barred: it goes on to fetch,
   or finds the stored set fresh.
   */
  lemma RecoveryNotSuppressed(s: State, t: Thread, actions: seq<Action>, u: Thread, now: int)
    requires PcOf(s, t).Clearing?
    requires Run(Step(s, Clear(t)).value, actions).Some? && NoneFails(Step(s, Clear(t)).value, actions)
    requires PcOf(Run(Step(s, Clear(t)).value, actions).value, u).Entered?
    ensures var s' := Run(Step(s, Clear(t)).value, actions).value;
            var e, pc := s'.entry, PcOf(Step(s', Check(u, now)).value, u);
            pc == Starting
            || (!PcOf(s', u).force && e.keys.Some? && pc == Returned(Keys(e.keys.value))
                && e.fetchedAt.Some? && Sub(now, e.fetchedAt.value) < s'.ttl)
  {
    NoCooldownStays(Step(s, Clear(t)).value, actions);
  }

  predicate SomeoneClearing(s: State) { exists t | t in s.pcs :: s.pcs[t].Clearing? }

  /** No flight lands in the run. */
  predicate NoneLands(actions: seq<Action>) { forall i | 0 <= i < |actions| :: !actions[i].Finish? }

  lemma {:induction false} CooldownStays(s: State, actions: seq<Action>)
    requires !SomeoneClearing(s) && NoneLands(actions) && Run(s, actions).Some?
    ensures Run(s, actions).value.entry.lastFailureAt == s.entry.lastFailureAt
    decreases |actions|
  {
    if actions != [] {
      var s' := Step(s, actions[0]).value;
      assert forall t | t in s'.pcs :: t in s.pcs || t == actions[0].t;
      CooldownStays(s', actions[1..]);
    }
  }

  /**
   The cooldown after a failure can be wiped before any further flight lands iff a panicked
   leader has yet to clear, whichever flight's failure it then clears.
   */
  lemma CooldownLostIff(s: State)
    requires s.entry.lastFailureAt.Some?
    ensures SomeoneClearing(s) <==>
              exists actions :: NoneLands(actions) && Run(s, actions).Some?
                  && Run(s, actions).value.entry.lastFailureAt.None?
  {
    if SomeoneClearing(s) {
      var t :| t in s.pcs && s.pcs[t].Clearing?;
      var actions := [Clear(t)];
      RunThen(s, Clear(t), []);
      assert actions == [Clear(t)] + [];
      assert NoneLands(actions) && Run(s, actions).value.entry.lastFailureAt.None?;
    } else {
      forall actions | NoneLands(actions) && Run(s, actions).Some?
        ensures Run(s, actions).value.entry.lastFailureAt.Some?
      {
        CooldownStays(s, actions);
      }
    }
  }

  lemma RunThen(s: State, a: Action, rest: seq<Action>)
    requires Step(s, a).Some?
    ensures Run(s, [a] + rest) == Run(Step(s, a).value, rest)
  {
    assert ([a] + rest)[1..] == rest;
  }

  /** Thread t panics; thread u, already past its check, leads the next flight, which fails in earnest. */
  function PanicThenFailure(t: Thread, u: Thread, now: int): seq<Action> {
    [Call(t)] + ([Check(t, now)] + ([Begin(t)] + ([Call(u)] + ([Check(u, now)] + PanicTail(t, u, now)))))
  }

  function PanicTail(t: Thread, u: Thread, now: int): seq<Action> {
    [FetchPanics(t)] + ([Finish(t, now)] + FailureTail(u, now))
  }

  function FailureTail(u: Thread, now: int): seq<Action> {
    [Begin(u)] + ([FetchReturns(u, Failure)] + ([Finish(u, now)] + []))
  }

  lemma CheckPasses(s: State, t: Thread, now: int, rest: seq<Action>) returns (s': State)
    requires PcOf(s, t).Idle? && s.entry.keys == None && s.entry.lastFailureAt == None
    ensures Run(s, [Call(t)] + ([Check(t, now)] + rest)) == Run(s', rest)
    ensures s'.entry == s.entry && s'.outcomes == s.outcomes && PcOf(s', t) == Starting
    ensures forall u | u != t :: PcOf(s', u) == PcOf(s, u)
  {
    RunThen(s, Call(t), [Check(t, now)] + rest);
    s' := Step(s, Call(t)).value;
    RunThen(s', Check(t, now), rest);
    s' := Step(s', Check(t, now)).value;
  }

  lemma FlightPanics(s: State, t: Thread, o: nat, now: int, rest: seq<Action>) returns (s': State)
    requires PcOf(s, t) == Fetching(o) && o < |s.outcomes|
    ensures Run(s, [FetchPanics(t)] + ([Finish(t, now)] + rest)) == Run(s', rest)
    ensures s'.entry.inflight == None && |s'.outcomes| == |s.outcomes| && PcOf(s', t) == Clearing(o)
    ensures forall u | u != t :: PcOf(s', u) == PcOf(s, u)
  {
    RunThen(s, FetchPanics(t), [Finish(t, now)] + rest);
    s' := Step(s, FetchPanics(t)).value;
    RunThen(s', Finish(t, now), rest);
    s' := Step(s', Finish(t, now)).value;
  }

  /** So a genuine failure's cooldown is not safe: from the start, the panicked leader of an earlier flight wipes it. */
  lemma PanicWipesFailure(ttl: int, t: Thread, u: Thread, now: int) returns (s: State)
    requires 0 < ttl <= MAX_DURATION && t != u
    ensures Run(Initial(ttl), PanicThenFailure(t, u, now)) == Some(s)
    ensures s.entry.lastFailureAt == Some(now) && |s.outcomes| == 2 && s.outcomes[1].leader == u
    ensures s.outcomes[1].published == Some(Failure) && PcOf(s, u) == Reading(1)
    ensures Step(s, Clear(t)).Some? && Step(s, Clear(t)).value.entry.lastFailureAt == None
  {
    s := BothPastCheck(ttl, t, u, now);
    s := FailureAfterPanic(s, t, u, now);
  }

  lemma BothPastCheck(ttl: int, t: Thread, u: Thread, now: int) returns (s: State)
    requires t != u
    ensures Run(Initial(ttl), PanicThenFailure(t, u, now)) == Run(s, PanicTail(t, u, now))
    ensures PcOf(s, t) == Fetching(0) && PcOf(s, u) == Starting && |s.outcomes| == 1
  {
    s := CheckPasses(Initial(ttl), t, now, [Begin(t)] + ([Call(u)] + ([Check(u, now)] + PanicTail(t, u, now))));
    s := FlightBegins(s, t, [Call(u)] + ([Check(u, now)] + PanicTail(t, u, now)));
    s := CheckPasses(s, u, now, PanicTail(t, u, now));
  }

  lemma FailureAfterPanic(s: State, t: Thread, u: Thread, now: int) returns (s': State)
    requires t != u && PcOf(s, t) == Fetching(0) && PcOf(s, u) == Starting && |s.outcomes| == 1
    ensures Run(s, PanicTail(t, u, now)) == Some(s') && PcOf(s', t) == Clearing(0) && PcOf(s', u) == Reading(1)
    ensures s'.entry.lastFailureAt == Some(now) && |s'.outcomes| == 2
    ensures s'.outcomes[1].leader == u && s'.outcomes[1].published == Some(Failure)
  {
    s' := FlightPanics(s, t, 0, now, FailureTail(u, now));
    s' := FlightBegins(s', u, [FetchReturns(u, Failure)] + ([Finish(u, now)] + []));
    s' := FlightFails(s', u, 1, now, []);
  }

  lemma FlightBegins(s: State, t: Thread, rest: seq<Action>) returns (s': State)
    requires PcOf(s, t).Starting? && s.entry.inflight == None
    ensures Run(s, [Begin(t)] + rest) == Run(s', rest)
    ensures s'.outcomes == s.outcomes + [Outcome(t, None, None, 0)] && PcOf(s', t) == Fetching(|s.outcomes|)
    ensures s'.entry.(inflight := None) == s.entry
    ensures forall u | u != t :: PcOf(s', u) == PcOf(s, u)
  {
    RunThen(s, Begin(t), rest);
    s' := Step(s, Begin(t)).value;
  }

  lemma FlightFails(s: State, t: Thread, o: nat, now: int, rest: seq<Action>) returns (s': State)
    requires PcOf(s, t) == Fetching(o) && o < |s.outcomes|
    ensures Run(s, [FetchReturns(t, Failure)] + ([Finish(t, now)] + rest)) == Run(s', rest)
    ensures s'.entry.lastFailureAt == Some(now) && |s'.outcomes| == |s.outcomes| && PcOf(s', t) == Reading(o)
    ensures s'.outcomes[o].leader == s.outcomes[o].leader && s'.outcomes[o].published == Some(Failure)
    ensures forall u | u != t :: PcOf(s', u) == PcOf(s, u)
  {
    RunThen(s, FetchReturns(t, Failure), [Finish(t, now)] + rest);
    s' := Step(s, FetchReturns(t, Failure)).value;
    RunThen(s', Finish(t, now), rest);
    s' := Step(s', Finish(t, now)).value;
  }

  /** In any schedule, with any clock readings, forced-refresh stamps are an interval apart, so a window holds few. */
  lemma StampsBounded(ttl: int, actions: seq<Action>, lo: int, hi: int)
    requires 0 < ttl <= MAX_DURATION && Run(Initial(ttl), actions).Some? && lo <= hi
    ensures CountIn(Run(Initial(ttl), actions).value.entry.stamps, lo, hi) <= (hi - lo) / ttl + 1
  {
    RunKeeps(Initial(ttl), actions);
    RunTtl(Initial(ttl), actions);
    SpacedCount(Run(Initial(ttl), actions).value.entry.stamps, ttl, lo, hi);
  }

  lemma {:induction false} RunTtl(s: State, actions: seq<Action>)
    requires Run(s, actions).Some?
    ensures Run(s, actions).value.ttl == s.ttl
    decreases actions
  {
    if actions != [] { RunTtl(Step(s, actions[0]).value, actions[1..]); }
  }
}
