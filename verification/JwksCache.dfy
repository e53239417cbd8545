/**
 The JWKS cache of one URL, driven by one request at a time (internal/auth/verifier.go,
 `remoteVerificationKey`, `cachedJWKS`, `finishFetch` and `refreshForMissingKid`). The
 clock is the process's monotone clock: it may advance between any two readings, and its
 readings fit in 64 bits. A fetch may return any key set, or fail.

 Each fetch is logged with the moment it is sent and with what it returned, and each
 spending of the forced-refresh budget with its stamp and with how often the stored set
 held the kid at that moment.
 */
module JwksCache {
  import opened Bytes
  import opened JwksModel

  /** What a request gets. */
  datatype Answer =
    | Served(key: Key)
    | Unknown           // the kid is in no key
    | NotUnique         // the kid is in several keys
    | Unavailable       // no set that may be trusted
    | Refused           // the token or the key is not acceptable

  class JwksEntry {
    const ttl: int
    var keys: Option<KeySet>
    var fetchedAt: Option<int>
    var negatives: Negatives
    var forcedAt: Option<int>
    var lastFailureAt: Option<int>
    var clock: int

    ghost var sent: seq<int>          // when each fetch was sent
    ghost var fetches: Fetches        // what each of them returned
    ghost var refreshes: seq<int>     // the unforced ones among them
    ghost var stamps: seq<int>        // the successive values of forcedAt
    ghost var held: seq<Option<nat>>  // how often the stored set, if any, held the kid at each stamp

    ghost predicate Valid()
      reads this
    {
      Fetching() && Answered() && Kept()
    }

    /** All of `Valid` except that the outcome of the last fetch may still be open. */
    ghost predicate Fetching()
      reads this
    {
      && 0 < ttl <= MAX_DURATION && 0 <= clock <= MAX_DURATION
      && Timely() && WellKept(negatives) && Paced() && Stamped()
    }

    /** Stamps lie in the past, and a set is stored exactly when it was fetched. */
    ghost predicate Timely()
      reads this
    {
      && (keys.Some? <==> fetchedAt.Some?)
      && (fetchedAt.Some? ==> 0 <= fetchedAt.value <= clock)
      && (lastFailureAt.Some? ==> 0 <= lastFailureAt.value <= clock)
      && (forcedAt.Some? ==> 0 <= forcedAt.value <= clock)
    }

    /** Any three fetches span an interval, and any two unforced ones. */
    ghost predicate Paced()
      reads this
    {
      Pacing(sent, forcedAt, clock, ttl) && Refreshing(sent, refreshes, ttl)
    }

    /** The outcome of the last fetch is stamped as what it was, no earlier than it was sent. */
    ghost predicate Answered()
      reads this
    {
      && FetchCount(fetches) == |sent|
      && (sent == [] ==> lastFailureAt.None?)
      && (sent != [] ==> Stamps(sent[|sent| - 1], fetches.result))
    }

    ghost predicate Stamps(since: int, result: Option<KeySet>)
      reads this
    {
      if result.Some? then fetchedAt.Some? && fetchedAt.value >= since && lastFailureAt.None?
      else lastFailureAt.Some? && lastFailureAt.value >= since
    }

    /** The stored set is the last one that a fetch returned. */
    ghost predicate Kept()
      reads this
    {
      keys == LastGood(fetches)
    }

    /** Budget stamps are an interval apart, and forcedAt is the last of them. */
    ghost predicate Stamped()
      reads this
    {
      && Spaced(stamps, ttl) && |held| == |stamps|
      && (if stamps == [] then forcedAt == None else forcedAt == Some(stamps[|stamps| - 1]))
    }

    /** The budget was only ever spent on a kid that a stored set lacked. */
    ghost predicate WellSpent()
      reads this
    {
      forall i | 0 <= i < |held| :: held[i] == Some(0)
    }

    /** The last stamp is later than every fetch, and an interval later than the last but one. */
    ghost predicate FreshStamp()
      reads this
    {
      forcedAt.Some? && forcedAt.value <= clock && Later(sent, forcedAt.value, ttl)
    }

    constructor (configured: int)
      requires configured <= MAX_DURATION
      ensures Valid() && keys == None && negatives == Negatives(map[], []) && sent == [] && stamps == [] && WellSpent()
      ensures ttl == RefreshInterval(configured)
    {
      ttl := RefreshInterval(configured);
      keys, fetchedAt, forcedAt, lastFailureAt := None, None, None, None;
      negatives := Negatives(map[], []);
      clock := 0;
      fetches := NoFetch;
      sent, refreshes, stamps, held := [], [], [], [];
    }

    /** `time.Now()`: some reading no earlier than the last. */
    method Now() returns (t: int)
      requires Fetching()
      modifies this`clock
      ensures Fetching() && clock == t >= old(clock)
      ensures old(Answered()) ==> Answered()
      ensures old(Kept()) ==> Kept()
    {
      var elapsed :| elapsed >= 0;
      t := if clock + elapsed <= MAX_DURATION then clock + elapsed else MAX_DURATION;
      PacingClock(sent, forcedAt, ttl, clock, t);
      clock := t;
    }

    /** `fetchJWKS`: any set, or an error. It is sent at some moment from now on. */
    method Fetch(force: bool) returns (r: Option<KeySet>)
      requires Valid() && (if force then FreshStamp() else sent != [] ==> clock - sent[|sent| - 1] >= ttl)
      modifies this`clock, this`sent, this`fetches, this`refreshes
      ensures Fetching() && Landing(r) && SendsOne() && sent[|sent| - 1] == clock >= old(clock)
      ensures refreshes == if force then old(refreshes) else old(refreshes) + [clock]
    {
      var _ := Now();
      r := *;
      LogSend(force, r);
    }

    /** The last fetch returned this, and nothing has been done with it yet. */
    ghost predicate Landing(result: Option<KeySet>)
      reads this
    {
      && fetches.Fetched? && fetches.result == result && LastGood(fetches.before) == keys
      && FetchCount(fetches) == |sent| && sent[|sent| - 1] <= clock
    }

    ghost method LogSend(force: bool, result: Option<KeySet>)
      requires Valid() && (if force then FreshStamp() else sent != [] ==> clock - sent[|sent| - 1] >= ttl)
      modifies this`sent, this`fetches, this`refreshes
      ensures Fetching() && Landing(result) && SendsOne() && sent[|sent| - 1] == clock
      ensures refreshes == if force then old(refreshes) else old(refreshes) + [clock]
    {
      PacingSend(sent, forcedAt, ttl, clock, force);
      RefreshingSend(sent, refreshes, ttl, clock, force);
      var moreSent, moreRefreshes := sent + [clock], if force then refreshes else refreshes + [clock];
      assert Pacing(moreSent, forcedAt, clock, ttl) && Refreshing(moreSent, moreRefreshes, ttl);
      sent, fetches, refreshes := moreSent, Fetched(fetches, result), moreRefreshes;
    }

    /** `finishFetch`: only a success touches the set and its stamp; the forced budget is never touched. */
    method FinishFetch(result: Option<KeySet>)
      requires Fetching() && Landing(result)
      modifies this`keys, this`fetchedAt, this`lastFailureAt, this`clock
      ensures Valid() && clock >= old(clock)
      ensures result.Some? ==> keys == result && fetchedAt == Some(clock) && lastFailureAt == None
      ensures result.None? ==> keys == old(keys) && fetchedAt == old(fetchedAt) && lastFailureAt == Some(clock)
    {
      var now := Now();
      if result.Some? {
        keys := result;
        fetchedAt := Some(now);
        lastFailureAt := None;
      } else {
        lastFailureAt := Some(now);
      }
    }

    /** The fields a request may not touch unless it says so. */
    twostate predicate BudgetAndNegativesKept()
      reads this
    {
      forcedAt == old(forcedAt) && stamps == old(stamps) && held == old(held) && negatives == old(negatives)
    }

    /** The stored set may be trusted at the reading. */
    ghost predicate Trusted(r: Option<KeySet>, asOf: int)
      reads this
    {
      r.Some? ==> keys == r && fetchedAt.Some? && asOf <= clock && 0 <= asOf - fetchedAt.value <= 3 * ttl
    }

    /** There is a set, and at the reading it is at most three intervals old. */
    ghost predicate Usable(asOf: int)
      reads this
    {
      keys.Some? && fetchedAt.Some? && asOf - fetchedAt.value <= 3 * ttl
    }

    /** A fetch failed less than an interval before the reading, or since. */
    ghost predicate Outage(since: int)
      reads this
    {
      lastFailureAt.Some? && lastFailureAt.value > since - ttl
    }

    /** At most one fetch is sent, after the call began. */
    twostate predicate SendsAtMostOne()
      reads this
    {
      (sent == old(sent) && fetches == old(fetches)) || SendsOne()
    }

    twostate predicate SendsOne()
      reads this
    {
      && sent != [] && sent[|sent| - 1] >= old(clock) && sent == old(sent) + [sent[|sent| - 1]]
      && fetches.Fetched? && fetches.before == old(fetches)
    }

    /** With no fetch, or a failed one, the set and its stamp stand; a fetched set is stored and returned. */
    twostate predicate Adopts(r: Option<KeySet>)
      reads this
    {
      if fetches == old(fetches) || fetches.NoFetch? || fetches.result.None? then
        keys == old(keys) && fetchedAt == old(fetchedAt)
      else r == keys == fetches.result && fetchedAt.Some? && fetchedAt.value >= old(clock)
    }

    /** The call ends less than an interval after the failure that was last when it began. */
    twostate predicate Cooling()
      reads this
    {
      old(lastFailureAt).Some? && clock - old(lastFailureAt).value < ttl
    }

    /** The call ends less than an interval after the set it found was fetched. */
    twostate predicate Fresh()
      reads this
    {
      old(keys).Some? && old(fetchedAt).Some? && clock - old(fetchedAt).value < ttl
    }

    /** A set that is missing or an interval old at the reading has a failed fetch for its excuse. */
    ghost predicate Excused(asOf: int, since: int)
      reads this
    {
      keys.None? || fetchedAt.None? || asOf - fetchedAt.value >= ttl ==> Outage(since)
    }

    /** The last-known-good set, within its grace. */
    method StaleFallback() returns (r: Option<KeySet>, ghost asOf: int)
      requires Valid()
      modifies this`clock
      ensures Valid() && clock >= old(clock) && Trusted(r, asOf) && asOf >= old(clock)
      ensures r.Some? <==> Usable(asOf)
    {
      var now := Now();
      GraceHere(now);
      asOf := now;
      r := if keys.Some? && StaleAgeWithinGrace(fetchedAt, ttl, now) then keys else None;
    }

    /**
     `cachedJWKS`. The stored set is returned exactly when at the reading `asOf`, taken
     during the call, it was at most three intervals old. Unless it was fresh then, a fetch
     has failed within the last interval or in this call.
     */
    method CachedJWKS(force: bool) returns (r: Option<KeySet>, ghost asOf: int)
      requires Valid()
      requires force ==> FreshStamp()
      modifies this`keys, this`fetchedAt, this`lastFailureAt, this`clock, this`sent, this`fetches, this`refreshes
      ensures Valid() && clock >= old(clock)
      ensures Trusted(r, asOf) && asOf >= old(clock)
      ensures r.Some? <==> Usable(asOf)
      ensures Excused(asOf, old(clock))
      ensures SendsAtMostOne() && Adopts(r)
      ensures force && sent == old(sent) ==> Outage(old(clock))
      ensures Cooling() || (!force && Fresh()) ==> sent == old(sent)
    {
      var now := Now();
      if lastFailureAt.Some? && now - lastFailureAt.value < ttl {
        r, asOf := StaleFallback();
      } else {
        r, asOf := FreshOrFetched(force);
      }
    }

    /** The part after the cooldown test. */
    method FreshOrFetched(force: bool) returns (r: Option<KeySet>, ghost asOf: int)
      requires Valid() && (lastFailureAt.Some? ==> clock - lastFailureAt.value >= ttl)
      requires force ==> FreshStamp()
      modifies this`keys, this`fetchedAt, this`lastFailureAt, this`clock, this`sent, this`fetches, this`refreshes
      ensures Valid() && clock >= old(clock)
      ensures Trusted(r, asOf) && asOf >= old(clock)
      ensures r.Some? <==> Usable(asOf)
      ensures Excused(asOf, old(clock))
      ensures SendsAtMostOne() && Adopts(r)
      ensures force ==> SendsOne()
      ensures !force && Fresh() ==> sent == old(sent)
    {
      var now := Now();
      if !force && keys.Some? && now - fetchedAt.value < ttl {
        r, asOf := keys, now;
      } else {
        r, asOf := FetchSet(force);
      }
    }

    /** The leader's part: begin, fetch, finish, and fall back when the fetch failed. */
    method FetchSet(force: bool) returns (r: Option<KeySet>, ghost asOf: int)
      requires Valid() && (if force then FreshStamp() else sent != [] ==> clock - sent[|sent| - 1] >= ttl)
      modifies this`keys, this`fetchedAt, this`lastFailureAt, this`clock, this`sent, this`fetches, this`refreshes
      ensures Valid() && clock >= old(clock)
      ensures Trusted(r, asOf) && asOf >= old(clock)
      ensures r.Some? <==> Usable(asOf)
      ensures Excused(asOf, old(clock))
      ensures SendsOne() && Adopts(r)
    {
      var result := Fetch(force);
      r, asOf := Land(result);
    }

    /** The outcome of a fetch is stored, and a failure falls back on the stored set. */
    method Land(result: Option<KeySet>) returns (r: Option<KeySet>, ghost asOf: int)
      requires Fetching() && Landing(result)
      modifies this`keys, this`fetchedAt, this`lastFailureAt, this`clock
      ensures Valid() && clock >= old(clock)
      ensures Trusted(r, asOf) && asOf >= old(clock)
      ensures r.Some? <==> Usable(asOf)
      ensures Excused(asOf, old(clock))
      ensures if result.None? then keys == old(keys) && fetchedAt == old(fetchedAt)
              else r == keys == result && fetchedAt.Some? && fetchedAt.value >= old(clock)
    {
      FinishFetch(result);
      if result.Some? { return result, clock; }
      r, asOf := StaleFallback();
    }

    lemma GraceHere(now: int)
      requires Valid() && now == clock
      ensures fetchedAt.Some? ==> (StaleAgeWithinGrace(fetchedAt, ttl, now) <==> now - fetchedAt.value <= 3 * ttl)
    {
      if fetchedAt.Some? { GraceExact(fetchedAt.value, ttl, now); }
    }

    // -------------------------------------------------------------- the kid-miss path

    /** `negatedLocked` */
    predicate Negated(kid: string, now: int)
      reads this
    {
      OnRecord(negatives, kid, now)
    }

    /** `forcedBudgetLocked` */
    predicate ForcedBudget(now: int)
      reads this
    {
      BudgetOpen(forcedAt, now, ttl)
    }

    /** `negateLocked`, for a kid that the stored set lacks. */
    method RecordMissing(kid: string, now: int)
      requires Valid()
      modifies this`negatives
      ensures Valid() && negatives == Negate(old(negatives), kid, now + ttl)
      ensures forall k | k in negatives.expiry && k !in old(negatives).expiry :: k == kid
    {
      var next := Negate(negatives, kid, now + ttl);
      NegateKeeps(negatives, kid, now + ttl);
      negatives := next;
    }

    /** The answer agrees with the stored set, which may be trusted at `asOf` when it serves a key. */
    ghost predicate Honest(kid: string, a: Answer, asOf: int)
      reads this
    {
      && (a.Served? ==> keys.Some? && a.key in keys.value && HasKid(a.key, kid) && Trusted(keys, asOf))
      && (a.Served? ==> Occurrences(keys, kid) == 1)
      && (a.Unknown? ==> Occurrences(keys, kid) == 0)
      && (a.NotUnique? ==> Occurrences(keys, kid) > 1)
      && (a.Unavailable? ==> !Usable(asOf))
    }

    /**
     A kid reported unknown is on record unless it is too long to keep: until an interval from
     now if it had no record, and otherwise until its old record ends. No other answer records.
     */
    twostate predicate Recorded(kid: string, a: Answer)
      reads this
    {
      && (!a.Unknown? ==> negatives == old(negatives))
      && (a.Unknown? && |kid| <= MAX_NEGATED_KID_BYTES ==>
            kid in negatives.expiry
            && negatives.expiry[kid]
               == if kid in old(negatives).expiry then old(negatives).expiry[kid] else clock + ttl)
    }

    /** On record as missing before the call, and still so at its end. */
    twostate predicate KnownMissing(kid: string)
      reads this
    {
      kid in old(negatives).expiry && clock < old(negatives).expiry[kid]
    }

    /** Only a kid that the stored set lacks is newly recorded as missing. */
    twostate predicate NegatesOnly(kid: string)
      reads this
    {
      forall k | k in negatives.expiry && k !in old(negatives).expiry :: k == kid && Occurrences(keys, kid) == 0
    }

    /** Nothing but the clock has moved. */
    twostate predicate Untouched()
      reads this
    {
      && keys == old(keys) && fetchedAt == old(fetchedAt) && lastFailureAt == old(lastFailureAt)
      && BudgetAndNegativesKept() && sent == old(sent) && fetches == old(fetches)
    }

    /** An open budget and a kid on no record lead to a fetch, unless one has just failed. */
    twostate predicate Tried(kid: string)
      reads this
    {
      BudgetOpen(old(forcedAt), old(clock), ttl) && !OnRecord(old(negatives), kid, old(clock)) ==>
        |sent| > |old(sent)| || Outage(old(clock))
    }

    /** `refreshForMissingKid`; a kid on record as missing is rejected with nothing fetched or spent. */
    method RefreshForMissingKid(kid: string) returns (a: Answer, ghost asOf: int)
      requires Valid()
      modifies this
      ensures Valid() && clock >= old(clock)
      ensures Occurrences(old(keys), kid) == 0 ==> Honest(kid, a, asOf) && NegatesOnly(kid) && Recorded(kid, a)
      ensures old(keys).Some? && Occurrences(old(keys), kid) == 0 && old(WellSpent()) ==> WellSpent()
      ensures KnownMissing(kid) ==> a.Unknown? && Untouched()
      ensures Occurrences(old(keys), kid) == 0 && (a.Served? || a.Unavailable?) ==> Excused(asOf, old(clock))
      ensures a.Unknown? ==> Tried(kid)
      ensures |sent| >= |old(sent)| && (Occurrences(old(keys), kid) == 0 && a.Served? ==> |sent| > |old(sent)|)
      ensures asOf >= old(clock) && (old(keys).Some? ==> keys.Some?) && !a.Refused?
    {
      var now := Now();
      asOf := now;
      if Negated(kid, now) { return Unknown, asOf; }
      if !ForcedBudget(now) {
        a := BudgetExhausted(kid, now);
      } else {
        a, asOf := SpendAndRefresh(kid, now);
      }
    }

    /** The budget is open: it is spent, and one forced refresh follows. */
    method SpendAndRefresh(kid: string, now: int) returns (a: Answer, ghost asOf: int)
      requires Valid() && now == clock && ForcedBudget(now)
      modifies this
      ensures Valid() && clock >= old(clock)
      ensures Honest(kid, a, asOf) && NegatesOnly(kid) && Recorded(kid, a)
      ensures old(keys).Some? && Occurrences(old(keys), kid) == 0 && old(WellSpent()) ==> WellSpent()
      ensures asOf >= old(clock) && (old(keys).Some? ==> keys.Some?) && !a.Refused?
      ensures Excused(asOf, old(clock)) && SendsAtMostOne() && (sent == old(sent) ==> Outage(old(clock)))
    {
      Spend(kid, now);
      a, asOf := ForcedRefresh(kid);
    }

    /** The window is opened, and no later miss resets it. */
    method Spend(kid: string, now: int)
      requires Valid() && now == clock && ForcedBudget(now)
      modifies this`forcedAt, this`stamps, this`held
      ensures Valid() && FreshStamp() && forcedAt == Some(now)
      ensures stamps == old(stamps) + [now]
      ensures held == old(held) + [if keys.None? then None else Some(Occurrences(keys, kid))]
    {
      SpacedAppend(stamps, now, ttl);
      PacingStamp(sent, forcedAt, ttl, now);
      forcedAt := Some(now);
      stamps := stamps + [now];
      held := held + [if keys.None? then None else Some(Occurrences(keys, kid))];
    }

    /** The stored set is consulted once more, and a kid it lacks is recorded. */
    method BudgetExhausted(kid: string, now: int) returns (a: Answer)
      requires Valid() && now == clock
      modifies this`negatives
      ensures Valid() && !a.Refused?
      ensures Occurrences(keys, kid) == 0 ==> a.Unknown? && NegatesOnly(kid) && Recorded(kid, a)
      ensures Occurrences(keys, kid) == 1 ==> a.Served? && a.key in keys.value && HasKid(a.key, kid)
      ensures Occurrences(keys, kid) > 1 ==> a.Unknown?
      ensures Occurrences(keys, kid) > 0 ==> negatives == old(negatives)
    {
      var found := UniqueKey(keys, kid);
      match found {
        case Found(key) => a := Served(key);
        case Ambiguous => a := Unknown;
        case Missing =>
          RecordMissing(kid, now);
          a := Unknown;
      }
    }

    /** The part after the budget is spent. */
    method ForcedRefresh(kid: string) returns (a: Answer, ghost asOf: int)
      requires Valid() && FreshStamp()
      modifies this
      ensures Valid() && clock >= old(clock) && forcedAt == old(forcedAt) && held == old(held)
      ensures Honest(kid, a, asOf) && NegatesOnly(kid) && Recorded(kid, a)
      ensures asOf >= old(clock) && (old(keys).Some? ==> keys.Some?) && !a.Refused?
      ensures Excused(asOf, old(clock)) && SendsAtMostOne() && (sent == old(sent) ==> Outage(old(clock)))
    {
      var current;
      current, asOf := CachedJWKS(true);
      if current.None? { return Unavailable, asOf; }
      var found := UniqueKey(current, kid);
      match found {
        case Found(key) => a := Served(key);
        case Ambiguous => a := NotUnique;
        case Missing =>
          var now := Now();
          RecordMissing(kid, now);
          a := Unknown;
      }
    }

    // -------------------------------------------------------------- a request

    /** The one key of the kid is not acceptable. */
    ghost predicate Unfit(kid: string, acceptable: Key -> bool)
      reads this
    {
      keys.Some? && Occurrences(keys, kid) == 1 && exists k | k in keys.value :: HasKid(k, kid) && !acceptable(k)
    }

    /**
     `remoteVerificationKey`. The answer always agrees with the stored set: a kid that
     occurs once is served or its key is unfit, whatever the negative cache says, unless
     the set is too old. A kid that occurs once in a fresh set is answered with nothing
     fetched, and one that already occurs several times with nothing spent or recorded.
     */
    method RemoteVerificationKey(kid: string, asymmetric: bool, acceptable: Key -> bool)
      returns (a: Answer, ghost asOf: int)
      requires Valid()
      modifies this
      ensures Valid() && clock >= old(clock) && (old(WellSpent()) ==> WellSpent())
      ensures Honest(kid, a, asOf) && NegatesOnly(kid) && Recorded(kid, a)
      ensures a.Served? ==> asOf >= old(clock) && acceptable(a.key)
      ensures !asymmetric || kid == "" ==> a.Refused? && Untouched()
      ensures a.Refused? && asymmetric && kid != "" ==> Unfit(kid, acceptable)
      ensures a.Served? || a.Unavailable? ==> Excused(asOf, old(clock))
      ensures a.Unknown? ==> Tried(kid)
      ensures asymmetric && kid != "" && Occurrences(old(keys), kid) == 1 && clock - old(fetchedAt).value < ttl ==>
          Untouched()
      ensures asymmetric && kid != "" && Occurrences(old(keys), kid) > 1 ==> a.NotUnique? && Untouched()
    {
      if !asymmetric || kid == "" { return Refused, clock; }
      a, asOf := CheckedKey(kid, acceptable);
    }

    /** The part after the header is checked. */
    method CheckedKey(kid: string, acceptable: Key -> bool) returns (a: Answer, ghost asOf: int)
      requires Valid()
      modifies this
      ensures Valid() && clock >= old(clock) && (old(WellSpent()) ==> WellSpent())
      ensures Honest(kid, a, asOf) && NegatesOnly(kid) && Recorded(kid, a)
      ensures a.Served? ==> asOf >= old(clock) && acceptable(a.key)
      ensures a.Refused? ==> Unfit(kid, acceptable)
      ensures (a.Served? || a.Unavailable? ==> Excused(asOf, old(clock))) && (a.Unknown? ==> Tried(kid))
      ensures Occurrences(old(keys), kid) == 1 && clock - old(fetchedAt).value < ttl ==> Untouched()
      ensures Occurrences(old(keys), kid) > 1 ==> a.NotUnique? && Untouched()
    {
      var now := Now();
      asOf := now;
      var isFresh := keys.Some? && now - fetchedAt.value < ttl;
      var found := UniqueKey(keys, kid);
      if found.Found? && isFresh {
        a := if acceptable(found.key) then Served(found.key) else Refused;
      } else if found.Ambiguous? {
        a := NotUnique;
      } else {
        a, asOf := Resolve(kid, found.Missing?, acceptable);
      }
    }

    /** Not answered at once: a missing kid goes the miss path first, and what is present is refreshed when due. */
    method Resolve(kid: string, missing: bool, acceptable: Key -> bool) returns (a: Answer, ghost asOf: int)
      requires Valid() && (missing ==> Occurrences(keys, kid) == 0)
      modifies this
      ensures Valid() && clock >= old(clock) && (old(WellSpent()) ==> WellSpent())
      ensures Honest(kid, a, asOf) && NegatesOnly(kid) && Recorded(kid, a)
      ensures a.Served? ==> asOf >= old(clock) && acceptable(a.key)
      ensures a.Refused? ==> Unfit(kid, acceptable)
      ensures (a.Served? || a.Unavailable? ==> Excused(asOf, old(clock))) && (a.Unknown? ==> Tried(kid))
    {
      if missing {
        a, asOf := ResolveMiss(kid);
        if !a.Served? { return; }
      }
      a, asOf := ServeRefreshed(kid, acceptable);
    }

    /** A genuine miss: prime an empty cache first, then run the gated miss path. */
    method ResolveMiss(kid: string) returns (a: Answer, ghost asOf: int)
      requires Valid() && Occurrences(keys, kid) == 0
      modifies this
      ensures Valid() && clock >= old(clock) && (old(WellSpent()) ==> WellSpent())
      ensures Honest(kid, a, asOf) && NegatesOnly(kid) && Recorded(kid, a) && asOf >= old(clock) && !a.Refused?
      ensures (a.Served? || a.Unavailable? ==> Excused(asOf, old(clock))) && (a.Unknown? ==> Tried(kid))
      ensures |sent| >= |old(sent)| && (a.Served? ==> |sent| > |old(sent)|)
    {
      if keys.None? {
        a, asOf := CurrentKey(kid);
        if !a.Unknown? { return; }
      }
      a, asOf := RefreshForMissingKid(kid);
    }

    /** The ordinary refresh when due, and the gated miss path if it dropped the kid; then the key is validated. */
    method ServeRefreshed(kid: string, acceptable: Key -> bool) returns (a: Answer, ghost asOf: int)
      requires Valid()
      modifies this
      ensures Valid() && clock >= old(clock) && (old(WellSpent()) ==> WellSpent())
      ensures Honest(kid, a, asOf) && NegatesOnly(kid) && Recorded(kid, a)
      ensures a.Served? ==> asOf >= old(clock) && acceptable(a.key)
      ensures a.Refused? ==> Unfit(kid, acceptable)
      ensures (a.Served? || a.Unavailable? ==> Excused(asOf, old(clock))) && (a.Unknown? ==> Tried(kid))
      ensures |sent| >= |old(sent)|
    {
      a, asOf := RefreshedKey(kid);
      if a.Served? && !acceptable(a.key) { a := Refused; }
    }

    method RefreshedKey(kid: string) returns (a: Answer, ghost asOf: int)
      requires Valid()
      modifies this
      ensures Valid() && clock >= old(clock) && (old(WellSpent()) ==> WellSpent())
      ensures Honest(kid, a, asOf) && NegatesOnly(kid) && Recorded(kid, a) && asOf >= old(clock) && !a.Refused?
      ensures (a.Served? || a.Unavailable? ==> Excused(asOf, old(clock))) && (a.Unknown? ==> Tried(kid))
      ensures |sent| >= |old(sent)|
    {
      a, asOf := CurrentKey(kid);
      if a.Unknown? { a, asOf := RefreshForMissingKid(kid); }
    }

    /** The kid in the set that an unforced `cachedJWKS` gives; a miss is not recorded. */
    method CurrentKey(kid: string) returns (a: Answer, ghost asOf: int)
      requires Valid()
      modifies this`keys, this`fetchedAt, this`lastFailureAt, this`clock, this`sent, this`fetches, this`refreshes
      ensures Valid() && clock >= old(clock)
      ensures Honest(kid, a, asOf) && asOf >= old(clock) && !a.Refused?
      ensures Excused(asOf, old(clock)) && (a.Unknown? ==> keys.Some?)
      ensures |sent| >= |old(sent)| && (a.Served? && Occurrences(old(keys), kid) == 0 ==> |sent| > |old(sent)|)
    {
      var current;
      current, asOf := CachedJWKS(false);
      if current.None? { return Unavailable, asOf; }
      var found := UniqueKey(current, kid);
      match found {
        case Found(key) => a := Served(key);
        case Ambiguous => a := NotUnique;
        case Missing => a := Unknown;
      }
    }
  }

  // ---------------------------------------------------------------- whole runs

  /** A window of length W sees at most twice W/ttl + 1 fetches sent. */
  lemma FetchBound(e: JwksEntry, lo: int, hi: int)
    requires e.Valid() && lo <= hi
    ensures CountIn(e.sent, lo, hi) <= 2 * ((hi - lo) / e.ttl + 1)
  {
    TwoApartCount(e.sent, e.ttl, lo, hi);
  }

  /** Any run of requests, however many unknown kids it carries, keeps to the bound in every window. */
  method Serve(configured: int, kids: seq<string>, acceptable: Key -> bool) returns (e: JwksEntry, answers: seq<Answer>)
    requires configured <= MAX_DURATION
    ensures fresh(e) && e.Valid() && |answers| == |kids|
    ensures e.ttl == RefreshInterval(configured) && e.WellSpent()
    ensures e.keys == LastGood(e.fetches) && FetchCount(e.fetches) == |e.sent|
    ensures forall lo, hi | lo <= hi :: CountIn(e.sent, lo, hi) <= 2 * ((hi - lo) / e.ttl + 1)
    ensures forall k | k in e.negatives.expiry :: k in kids && |k| <= MAX_NEGATED_KID_BYTES
  {
    e := new JwksEntry(configured);
    answers := [];
    for i := 0 to |kids|
      invariant fresh(e) && e.Valid() && e.WellSpent() && |answers| == i
      invariant e.ttl == RefreshInterval(configured)
      invariant forall k | k in e.negatives.expiry :: k in kids
    {
      var a;
      ghost var asOf;
      a, asOf := e.RemoteVerificationKey(kids[i], true, acceptable);
      answers := answers + [a];
    }
    forall lo, hi | lo <= hi ensures CountIn(e.sent, lo, hi) <= 2 * ((hi - lo) / e.ttl + 1) {
      FetchBound(e, lo, hi);
    }
  }
}
