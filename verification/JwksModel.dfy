/**
 The pure parts of the JWKS cache (internal/auth/verifier.go): key lookup, the stale-grace
 test with its 64-bit arithmetic, the negative cache, and the counting of stamps that are
 a refresh interval apart.
 */
module JwksModel {
  import opened Bytes

  // ---------------------------------------------------------------- key sets

  /** A key of a JWK set; the kid of section 4.5 of RFC 7517 is optional. */
  datatype Key = Key(kid: Option<string>, material: string)

  type KeySet = seq<Key>

  datatype Lookup = Missing | Ambiguous | Found(key: Key)

  predicate HasKid(key: Key, kid: string) { key.kid == Some(kid) }

  /** How many keys of the set carry the kid. */
  function Matches(keys: KeySet, kid: string): nat {
    if keys == [] then 0
    else Matches(keys[..|keys| - 1], kid) + if HasKid(keys[|keys| - 1], kid) then 1 else 0
  }

  /** The number of matches in the stored set, none when there is no set. */
  function Occurrences(keys: Option<KeySet>, kid: string): nat {
    if keys.None? then 0 else Matches(keys.value, kid)
  }

  /** What the fetches so far returned, the latest outermost. */
  datatype Fetches = NoFetch | Fetched(before: Fetches, result: Option<KeySet>)

  function FetchCount(f: Fetches): nat { if f.NoFetch? then 0 else FetchCount(f.before) + 1 }

  /** The last set that a fetch returned. */
  function LastGood(f: Fetches): Option<KeySet> {
    if f.NoFetch? then None else if f.result.Some? then f.result else LastGood(f.before)
  }

  lemma {:induction false} MatchesNone(keys: KeySet, kid: string)
    ensures Matches(keys, kid) == 0 <==> forall k | k in keys :: !HasKid(k, kid)
  {
    if keys != [] {
      MatchesNone(keys[..|keys| - 1], kid);
      assert keys == keys[..|keys| - 1] + [keys[|keys| - 1]];
    }
  }

  /** `uniqueKey` and `lookupLocked`: the kid must identify exactly one key. */
  method UniqueKey(keys: Option<KeySet>, kid: string) returns (r: Lookup)
    ensures r.Missing? <==> Occurrences(keys, kid) == 0
    ensures r.Ambiguous? <==> Occurrences(keys, kid) > 1
    ensures r.Found? ==>
              && r.key in keys.value && HasKid(r.key, kid)
              && forall k | k in keys.value && HasKid(k, kid) :: k == r.key
  {
    if keys.None? { return Missing; }
    var set_ := keys.value;
    var found: Option<Key> := None;
    var matches := 0;
    var index := 0;
    while index < |set_|
      invariant 0 <= index <= |set_|
      invariant matches == Matches(set_[..index], kid)
      invariant matches > 0 ==> found.Some? && found.value in set_ && HasKid(found.value, kid)
      invariant matches == 0 ==> forall k | k in set_[..index] :: !HasKid(k, kid)
      invariant matches == 1 ==> forall k | k in set_[..index] && HasKid(k, kid) :: k == found.value
    {
      assert set_[..index + 1][..index] == set_[..index];
      assert set_[..index + 1] == set_[..index] + [set_[index]];
      var key := set_[index];
      if HasKid(key, kid) {
        found := Some(key);
        matches := matches + 1;
      }
      index := index + 1;
    }
    assert set_[..index] == set_;
    if matches == 0 { return Missing; }
    if matches > 1 { return Ambiguous; }
    return Found(found.value);
  }

  // ---------------------------------------------------------------- stale grace

  const MAX_DURATION: int := 0x7FFF_FFFF_FFFF_FFFF
  const MAX_STALE_FACTOR: int := 3
  const DEFAULT_REFRESH_INTERVAL: int := 600_000_000_000

  /** `jwksRefreshInterval` */
  function RefreshInterval(configured: int): int {
    if configured > 0 then configured else DEFAULT_REFRESH_INTERVAL
  }

  /** `Time.Sub`: the difference, kept within 64 bits. */
  function Sub(a: int, b: int): int {
    if a - b > MAX_DURATION then MAX_DURATION
    else if a - b < -MAX_DURATION - 1 then -MAX_DURATION - 1
    else a - b
  }

  /** `staleAgeWithinGrace`; None is the zero time. */
  function StaleAgeWithinGrace(fetchedAt: Option<int>, ttl: int, now: int): bool {
    if fetchedAt.None? || ttl <= 0 then false
    else
      var age := Sub(now, fetchedAt.value);
      if age < 0 then true
      else
        var maxAge := if ttl <= MAX_DURATION / MAX_STALE_FACTOR then ttl * MAX_STALE_FACTOR else MAX_DURATION;
        age <= maxAge
  }

  /** The saturating test is the unbounded one, age <= 3*ttl, except that a limit past 64 bits admits every age. */
  lemma GraceExact(fetchedAt: int, ttl: int, now: int)
    requires 0 < ttl <= MAX_DURATION
    ensures StaleAgeWithinGrace(Some(fetchedAt), ttl, now) <==> now - fetchedAt <= 3 * ttl || 3 * ttl > MAX_DURATION
  {
  }

  /** So the two tests differ iff age > 3*ttl > the largest duration, and here they do. */
  lemma GraceDiffers(fetchedAt: int, ttl: int, now: int)
    requires 0 < ttl <= MAX_DURATION
    ensures (StaleAgeWithinGrace(Some(fetchedAt), ttl, now) <==> now - fetchedAt <= 3 * ttl)
            <==> !(now - fetchedAt > 3 * ttl > MAX_DURATION)
    ensures StaleAgeWithinGrace(Some(0), MAX_DURATION, 3 * MAX_DURATION + 1)
        && !(3 * MAX_DURATION + 1 - 0 <= 3 * MAX_DURATION)
  {
    GraceExact(fetchedAt, ttl, now);
    GraceExact(0, MAX_DURATION, 3 * MAX_DURATION + 1);
  }

  // ---------------------------------------------------------------- negative cache

  const NEGATIVE_CACHE_CAP: nat := 256
  const MAX_NEGATED_KID_BYTES: nat := 64

  /** Missing kids with the expiry of that knowledge, and their insertion order. */
  datatype Negatives = Negatives(expiry: map<string, int>, order: seq<string>)

  predicate NoDuplicates(s: seq<string>) { forall i, j | 0 <= i < j < |s| :: s[i] != s[j] }

  /** The list names each kid of the map once, both are bounded, and so is every kid. */
  ghost predicate WellKept(n: Negatives) {
    && NoDuplicates(n.order) && (forall k :: k in n.order <==> k in n.expiry)
    && |n.order| <= NEGATIVE_CACHE_CAP && forall k | k in n.expiry :: |k| <= MAX_NEGATED_KID_BYTES
  }

  lemma {:induction false} OrderLength(s: seq<string>, keys: set<string>)
    requires NoDuplicates(s) && forall k :: k in s <==> k in keys
    ensures |s| == |keys|
  {
    if s == [] {
      assert keys == {};
    } else {
      var last := s[|s| - 1];
      var rest := s[..|s| - 1];
      assert s == rest + [last];
      assert last !in rest;
      forall k ensures k in rest <==> k in keys - {last} {
        assert k in s <==> k in rest || k == last;
      }
      OrderLength(rest, keys - {last});
    }
  }

  /** `negateLocked`: oversized and known kids are ignored, and a full cache forgets its oldest. */
  function Negate(n: Negatives, kid: string, until: int): Negatives
    requires WellKept(n)
  {
    if |kid| > MAX_NEGATED_KID_BYTES || kid in n.expiry then n
    else
      OrderLength(n.order, n.expiry.Keys);
      var kept := if |n.expiry| >= NEGATIVE_CACHE_CAP then Negatives(n.expiry - {n.order[0]}, n.order[1..]) else n;
      Negatives(kept.expiry[kid := until], kept.order + [kid])
  }

  /** The kid is known to be missing at the reading. */
  predicate OnRecord(n: Negatives, kid: string, now: int) { kid in n.expiry && now < n.expiry[kid] }

  /** The budget is open at the reading. */
  predicate BudgetOpen(forcedAt: Option<int>, now: int, ttl: int) { forcedAt.None? || now - forcedAt.value >= ttl }

  /**
   A kid reported missing is known to be for a whole interval iff it had no earlier record: a
   record is never renewed.
   */
  lemma RecordHoldsIff(n: Negatives, kid: string, now: int, ttl: int)
    requires WellKept(n) && |kid| <= MAX_NEGATED_KID_BYTES && ttl > 0
    ensures var m := Negate(n, kid, now + ttl);
            (forall t | now <= t < now + ttl :: OnRecord(m, kid, t)) <==> kid !in n.expiry || n.expiry[kid] >= now + ttl
  {
    NegateKeeps(n, kid, now + ttl);
    var m := Negate(n, kid, now + ttl);
    assert m.expiry[kid] == if kid in n.expiry then n.expiry[kid] else now + ttl;
    assert OnRecord(m, kid, now + ttl - 1) <==> m.expiry[kid] >= now + ttl;
  }

  /**
   So a repeated miss can cause a fetch within the interval: `kid` is recorded at 0, `other` spends
   the budget at ttl, `kid` is reported missing again at 2*ttl - 1, and at 2*ttl it is on no
   record while the budget is open. A kid first reported at 2*ttl - 1 is still on record then.
   */
  lemma StaleRecordSpends(kid: string, other: string, newcomer: string, ttl: int)
    requires ttl > 1 && kid != other && kid != newcomer && other != newcomer
    requires |kid| <= MAX_NEGATED_KID_BYTES && |other| <= MAX_NEGATED_KID_BYTES && |newcomer| <= MAX_NEGATED_KID_BYTES
    ensures var first := Negate(Negate(Negatives(map[], []), kid, ttl), other, ttl + ttl);
            var again, anew := Negate(first, kid, 2 * ttl - 1 + ttl), Negate(first, newcomer, 2 * ttl - 1 + ttl);
            && !OnRecord(first, kid, 2 * ttl - 1) && !BudgetOpen(Some(ttl), 2 * ttl - 1, ttl)
            && BudgetOpen(Some(ttl), 2 * ttl, ttl)
            && !OnRecord(again, kid, 2 * ttl) && OnRecord(anew, newcomer, 2 * ttl)
  {
    var none := Negatives(map[], []);
    NegateKeeps(none, kid, ttl);
    NegateKeeps(Negate(none, kid, ttl), other, ttl + ttl);
  }

  /** A new kid joins the end of the queue; only a full queue gives up its head, and every other expiry stands. */
  lemma NegateFifo(n: Negatives, kid: string, until: int)
    requires WellKept(n) && |kid| <= MAX_NEGATED_KID_BYTES && kid !in n.expiry
    ensures var m := Negate(n, kid, until);
            var kept := n.order[if |n.order| == NEGATIVE_CACHE_CAP then 1 else 0..];
            && m.order == kept + [kid] && kid in m.expiry && m.expiry[kid] == until
            && forall k | k in kept :: k in m.expiry && m.expiry[k] == n.expiry[k]
  {
    OrderLength(n.order, n.expiry.Keys);
    NegateKeeps(n, kid, until);
    var kept := n.order[if |n.order| == NEGATIVE_CACHE_CAP then 1 else 0..];
    assert forall k | k in kept :: k in n.order;
  }

  lemma NegateKeeps(n: Negatives, kid: string, until: int)
    requires WellKept(n)
    ensures WellKept(Negate(n, kid, until))
    ensures forall k | k in Negate(n, kid, until).expiry && k !in n.expiry :: k == kid
    ensures |kid| <= MAX_NEGATED_KID_BYTES ==> kid in Negate(n, kid, until).expiry
  {
    OrderLength(n.order, n.expiry.Keys);
    assert |n.expiry| == |n.expiry.Keys|;
    if |kid| <= MAX_NEGATED_KID_BYTES && kid !in n.expiry {
      if |n.expiry| >= NEGATIVE_CACHE_CAP {
        EvictOldest(n);
      }
      var kept := if |n.expiry| >= NEGATIVE_CACHE_CAP then Negatives(n.expiry - {n.order[0]}, n.order[1..]) else n;
      AppendKid(kept, kid, until);
    }
  }

  lemma EvictOldest(n: Negatives)
    requires WellKept(n) && n.order != []
    ensures WellKept(Negatives(n.expiry - {n.order[0]}, n.order[1..]))
  {
    var first, rest := n.order[0], n.order[1..];
    assert n.order == [first] + rest;
    assert first !in rest;
    forall k ensures k in rest <==> k in n.expiry - {first} {
      assert k in n.order <==> k == first || k in rest;
    }
  }

  lemma AppendKid(n: Negatives, kid: string, until: int)
    requires WellKept(n) && kid !in n.expiry && |kid| <= MAX_NEGATED_KID_BYTES && |n.order| < NEGATIVE_CACHE_CAP
    ensures WellKept(Negatives(n.expiry[kid := until], n.order + [kid]))
  {
  }

  // ---------------------------------------------------------------- stamps an interval apart

  predicate Spaced(s: seq<int>, ttl: int) {
    forall i | 0 < i < |s| :: s[i] - s[i - 1] >= ttl
  }

  lemma SpacedAppend(s: seq<int>, x: int, ttl: int)
    requires Spaced(s, ttl) && (s != [] ==> x - s[|s| - 1] >= ttl)
    ensures Spaced(s + [x], ttl)
  {
  }

  /** How many stamps fall in the window from lo to hi. */
  function CountIn(s: seq<int>, lo: int, hi: int): nat {
    if s == [] then 0
    else CountIn(s[..|s| - 1], lo, hi) + if lo <= s[|s| - 1] <= hi then 1 else 0
  }

  lemma {:induction false} SpacedOrder(s: seq<int>, ttl: int, i: nat)
    requires Spaced(s, ttl) && ttl > 0 && i < |s|
    ensures s[i] <= s[|s| - 1]
    decreases |s|
  {
    if i < |s| - 1 {
      SpacedOrder(s[..|s| - 1], ttl, i);
    }
  }

  lemma {:induction false} CountBelow(s: seq<int>, lo: int, hi: int, top: int)
    requires forall i | 0 <= i < |s| :: s[i] <= top
    requires top <= hi
    ensures CountIn(s, lo, hi) == CountIn(s, lo, top)
    ensures top < lo ==> CountIn(s, lo, hi) == 0
  {
    if s != [] { CountBelow(s[..|s| - 1], lo, hi, top); }
  }

  /** The stamps in a window, less one, take up an interval each. */
  lemma {:induction false} SpacedSpan(s: seq<int>, ttl: int, lo: int, hi: int)
    requires Spaced(s, ttl) && ttl > 0 && lo <= hi
    ensures CountIn(s, lo, hi) * ttl <= hi - lo + ttl
    decreases |s|
  {
    if s != [] {
      var last, rest := s[|s| - 1], s[..|s| - 1];
      if lo <= last <= hi {
        var top := last - ttl;
        forall i | 0 <= i < |rest| ensures rest[i] <= top { SpacedOrder(rest, ttl, i); }
        CountBelow(rest, lo, hi, top);
        if lo <= top { SpacedSpan(rest, ttl, lo, top); }
        OneMore(CountIn(rest, lo, hi), ttl);
      } else {
        SpacedSpan(rest, ttl, lo, hi);
      }
    }
  }

  lemma OneMore(n: int, ttl: int)
    ensures (n + 1) * ttl == n * ttl + ttl
  {
  }

  /** A window of length W holds at most W/ttl + 1 stamps that are ttl apart. */
  lemma SpacedCount(s: seq<int>, ttl: int, lo: int, hi: int)
    requires Spaced(s, ttl) && ttl > 0 && lo <= hi
    ensures CountIn(s, lo, hi) <= (hi - lo) / ttl + 1
  {
    SpacedSpan(s, ttl, lo, hi);
    QuotientBound(CountIn(s, lo, hi) - 1, hi - lo, ttl);
  }

  /** Any three successive stamps span an interval. */
  predicate TwoApart(s: seq<int>, ttl: int) {
    forall i | 2 <= i < |s| :: s[i] - s[i - 2] >= ttl
  }

  lemma TwoApartAppend(s: seq<int>, x: int, ttl: int)
    requires TwoApart(s, ttl) && (|s| >= 2 ==> x - s[|s| - 2] >= ttl)
    ensures TwoApart(s + [x], ttl)
  {
  }

  /** The reading is later than every fetch, and an interval later than the last but one. */
  predicate Later(sent: seq<int>, stamp: int, ttl: int) {
    (sent != [] ==> stamp >= sent[|sent| - 1]) && (|sent| >= 2 ==> stamp - sent[|sent| - 2] >= ttl)
  }

  /** Any three fetches span an interval; two closer ones have a budget stamp between them. */
  predicate Pacing(sent: seq<int>, forcedAt: Option<int>, clock: int, ttl: int) {
    && TwoApart(sent, ttl) && (sent != [] ==> sent[|sent| - 1] <= clock)
    && (|sent| >= 2 ==>
          var before, last := sent[|sent| - 2], sent[|sent| - 1];
          before <= last && (last - before >= ttl || (forcedAt.Some? && forcedAt.value >= before)))
  }

  lemma PacingSend(sent: seq<int>, forcedAt: Option<int>, ttl: int, now: int, force: bool)
    requires Pacing(sent, forcedAt, now, ttl) && ttl > 0
    requires if force then forcedAt.Some? && forcedAt.value <= now && Later(sent, forcedAt.value, ttl)
             else sent != [] ==> now - sent[|sent| - 1] >= ttl
    ensures Pacing(sent + [now], forcedAt, now, ttl)
  {
    TwoApartAppend(sent, now, ttl);
  }

  /** The unforced fetches among them are an interval apart. */
  predicate Refreshing(sent: seq<int>, refreshes: seq<int>, ttl: int) {
    Spaced(refreshes, ttl) && (refreshes != [] ==> sent != [] && refreshes[|refreshes| - 1] <= sent[|sent| - 1])
  }

  lemma RefreshingSend(sent: seq<int>, refreshes: seq<int>, ttl: int, now: int, force: bool)
    requires Refreshing(sent, refreshes, ttl)
    requires if force then sent != [] ==> now >= sent[|sent| - 1] else sent != [] ==> now - sent[|sent| - 1] >= ttl
    ensures Refreshing(sent + [now], if force then refreshes else refreshes + [now], ttl)
  {
    if !force { SpacedAppend(refreshes, now, ttl); }
  }

  lemma PacingClock(sent: seq<int>, forcedAt: Option<int>, ttl: int, clock: int, now: int)
    requires Pacing(sent, forcedAt, clock, ttl) && clock <= now
    ensures Pacing(sent, forcedAt, now, ttl)
  {
  }

  lemma PacingStamp(sent: seq<int>, forcedAt: Option<int>, ttl: int, now: int)
    requires Pacing(sent, forcedAt, now, ttl) && (forcedAt.None? || now - forcedAt.value >= ttl > 0)
    ensures Pacing(sent, Some(now), now, ttl) && Later(sent, now, ttl)
  {
  }

  /** Every other stamp, ending with the last. */
  function Alternate(s: seq<int>): seq<int> {
    if |s| < 2 then s else Alternate(s[..|s| - 2]) + [s[|s| - 1]]
  }

  lemma {:induction false} AlternateSpaced(s: seq<int>, ttl: int)
    requires TwoApart(s, ttl)
    ensures Spaced(Alternate(s), ttl)
    ensures s != [] ==> Alternate(s) != [] && Alternate(s)[|Alternate(s)| - 1] == s[|s| - 1]
    decreases |s|
  {
    if |s| >= 2 {
      var rest := s[..|s| - 2];
      AlternateSpaced(rest, ttl);
      SpacedAppend(Alternate(rest), s[|s| - 1], ttl);
    }
  }

  lemma CountAppend(s: seq<int>, x: int, lo: int, hi: int)
    ensures CountIn(s + [x], lo, hi) == CountIn(s, lo, hi) + if lo <= x <= hi then 1 else 0
  {
    assert (s + [x])[..|s|] == s;
  }

  lemma {:induction false} AlternateCount(s: seq<int>, lo: int, hi: int)
    requires s != []
    ensures CountIn(s, lo, hi) == CountIn(Alternate(s), lo, hi) + CountIn(Alternate(s[..|s| - 1]), lo, hi)
    decreases |s|
  {
    if |s| >= 2 {
      var init := s[..|s| - 1];
      AlternateCount(init, lo, hi);
      assert init[..|init| - 1] == s[..|s| - 2];
      CountAppend(Alternate(s[..|s| - 2]), s[|s| - 1], lo, hi);
    }
  }

  /** Stamps of which any three span an interval number at most twice as many as spaced ones. */
  lemma TwoApartCount(s: seq<int>, ttl: int, lo: int, hi: int)
    requires TwoApart(s, ttl) && ttl > 0 && lo <= hi
    ensures CountIn(s, lo, hi) <= 2 * ((hi - lo) / ttl + 1)
  {
    if s == [] {
      SpacedCount(s, ttl, lo, hi);
    } else {
      AlternateCount(s, lo, hi);
      AlternateSpaced(s, ttl);
      AlternateSpaced(s[..|s| - 1], ttl);
      SpacedCount(Alternate(s), ttl, lo, hi);
      SpacedCount(Alternate(s[..|s| - 1]), ttl, lo, hi);
    }
  }

  lemma QuotientBound(n: int, w: int, ttl: int)
    requires ttl > 0 && (n + 1) * ttl <= w + ttl
    ensures n <= w / ttl
  {
    OneMore(n, ttl);
    var q := w / ttl;
    assert w < q * ttl + ttl;
    OneMore(q, ttl);
    TimesMonotone(q + 1, n, ttl);
  }

  lemma TimesMonotone(a: int, b: int, ttl: int)
    requires ttl > 0
    ensures a <= b ==> a * ttl <= b * ttl
  {
  }
}
