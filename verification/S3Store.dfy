/**
 The S3 archive (internal/archive/archive.go, `S3Store.Put`, `readBack`,
 `verifyExistingObject` and `verifyAfterWrite`).

 A step is one request to the bucket. Puts of any number of processes interleave, and
 foreign writers may replace or remove objects between any two steps. Any request may
 fail; a failed upload may still have landed.
 */
module S3Store {
  import opened Bytes
  import ArchiveKey

  type Process = nat

  datatype Reply = Nil | TooLong | Conflict | Failed

  datatype Pc =
    | Idle
    | Stating(key: string, data: string)
    | Uploading(key: string, data: string)                 // the key was seen to be absent
    | Verifying(key: string, data: string, wrote: bool)    // read the object back
    | Done(key: string, data: string, reply: Reply)

  datatype Receipt = Receipt(key: string, data: string, reply: Reply)

  datatype State = State(objects: map<string, string>, pcs: map<Process, Pc>, log: seq<Receipt>)

  datatype Action =
    | Start(p: Process, key: string, data: string)
    | Stat(p: Process)
    | Upload(p: Process)
    | ReadBack(p: Process)
    | Fail(p: Process, landed: bool)
    | Foreign(key: string, content: Option<string>)

  function PcOf(s: State, p: Process): Pc { if p in s.pcs then s.pcs[p] else Idle }

  function Goto(s: State, p: Process, pc: Pc): State { s.(pcs := s.pcs[p := pc]) }

  predicate Putting(pc: Pc) { pc.Stating? || pc.Uploading? || pc.Verifying? }

  function Finish(s: State, p: Process, reply: Reply): State
    requires Putting(PcOf(s, p))
  {
    var pc := PcOf(s, p);
    Goto(s.(log := s.log + [Receipt(pc.key, pc.data, reply)]), p, Done(pc.key, pc.data, reply))
  }

  /** `strings.TrimPrefix(key, "/")` */
  function TrimSlash(key: string): string { if key != "" && key[0] == '/' then key[1..] else key }

  /** `io.LimitReader`: at most n bytes of the object. */
  function Limited(content: string, n: nat): string { if |content| <= n then content else content[..n] }

  /** The verdict of a read-back; a mismatch is a conflict only where the object was there before. */
  function Verdict(objects: map<string, string>, key: string, data: string, wrote: bool): Reply {
    if key !in objects then Failed
    else if Limited(objects[key], |data| + 1) == data then Nil
    else if wrote then Failed
    else Conflict
  }

  function Step(s: State, a: Action): Option<State> {
    match a
    case Start(p, key, data) =>
      var pc := PcOf(s, p);
      var k := TrimSlash(key);
      if !pc.Idle? && !pc.Done? then None
      else if !ArchiveKey.KeyLengthOk(k) then
        Some(Goto(s.(log := s.log + [Receipt(k, data, TooLong)]), p, Done(k, data, TooLong)))
      else Some(Goto(s, p, Stating(k, data)))
    case Stat(p) =>
      var pc := PcOf(s, p);
      if pc.Stating? then
        Some(Goto(s, p, if pc.key in s.objects then Verifying(pc.key, pc.data, false) else Uploading(pc.key, pc.data)))
      else None
    case Upload(p) =>
      var pc := PcOf(s, p);
      if pc.Uploading? then
        Some(Goto(s.(objects := s.objects[pc.key := pc.data]), p, Verifying(pc.key, pc.data, true)))
      else None
    case ReadBack(p) =>
      var pc := PcOf(s, p);
      if pc.Verifying? then Some(Finish(s, p, Verdict(s.objects, pc.key, pc.data, pc.wrote))) else None
    case Fail(p, landed) =>
      var pc := PcOf(s, p);
      if !Putting(pc) then None
      else if landed && pc.Uploading? then Some(Finish(s.(objects := s.objects[pc.key := pc.data]), p, Failed))
      else Some(Finish(s, p, Failed))
    case Foreign(key, content) =>
      Some(s.(objects := if content.None? then s.objects - {key} else s.objects[key := content.value]))
  }

  function Run(s: State, actions: seq<Action>): Option<State>
    decreases |actions|
  {
    if actions == [] then Some(s)
    else
      match Step(s, actions[0])
      case None => None
      case Some(s') => Run(s', actions[1..])
  }

  // ---------------------------------------------------------------- any writers

  /** Reading one byte more than the data is enough to tell equal from longer. */
  lemma LimitedReadExact(content: string, data: string)
    ensures Limited(content, |data| + 1) == data <==> content == data
  {
  }

  /** Whatever other writers do, Nil means the object was the data, byte for byte, when it was read back. */
  lemma NilMeansEqual(s: State, p: Process)
    requires PcOf(s, p).Verifying?
    ensures var pc := PcOf(s, p);
            PcOf(Step(s, ReadBack(p)).value, p) == Done(pc.key, pc.data, Nil) <==>
                pc.key in s.objects && s.objects[pc.key] == pc.data
  {
    var pc := PcOf(s, p);
    if pc.key in s.objects { LimitedReadExact(s.objects[pc.key], pc.data); }
  }

  /** The state after the first n actions of a run. */
  function Point(s: State, actions: seq<Action>, n: nat): Option<State>
    requires n <= |actions|
  {
    Run(s, actions[..n])
  }

  lemma PointNext(s: State, actions: seq<Action>, n: nat)
    requires actions != [] && n < |actions| && Step(s, actions[0]).Some?
    ensures Point(s, actions, n + 1) == Point(Step(s, actions[0]).value, actions[1..], n)
  {
    assert actions[..n + 1][1..] == actions[1..][..n];
  }

  lemma {:induction false} PointStep(s: State, actions: seq<Action>, n: nat)
    requires n < |actions| && Point(s, actions, n + 1).Some?
    ensures Point(s, actions, n).Some? && Point(s, actions, n + 1) == Step(Point(s, actions, n).value, actions[n])
    decreases n
  {
    if n > 0 {
      PointNext(s, actions, n);
      PointNext(s, actions, n - 1);
      PointStep(Step(s, actions[0]).value, actions[1..], n - 1);
    } else {
      RunStep(s, actions[0], []);
      assert actions[..1] == [actions[0]] + [];
    }
  }

  /** The n-th action is a read-back that finds the object equal to the data. */
  predicate FoundEqual(s: State, actions: seq<Action>, n: nat, key: string, data: string) {
    && n < |actions| && actions[n].ReadBack? && Point(s, actions, n).Some?
    && var s' := Point(s, actions, n).value;
       && PcOf(s', actions[n].p).Verifying? && PcOf(s', actions[n].p).key == key && PcOf(s', actions[n].p).data == data
       && key in s'.objects && s'.objects[key] == data
  }

  lemma LogGrows(s: State, a: Action)
    requires Step(s, a).Some?
    ensures var log := Step(s, a).value.log;
            && |s.log| <= |log| <= |s.log| + 1 && log[..|s.log|] == s.log
            && (|log| > |s.log| && log[|s.log|].reply == Nil ==>
                FoundEqual(s, [a], 0, log[|s.log|].key, log[|s.log|].data))
  {
    assert [a][..0] == [];
    if a.ReadBack? && PcOf(s, a.p).Verifying? { NilMeansEqual(s, a.p); }
  }

  /**
   In every run, foreign writers included, every Nil receipt was read back from an object that
   equalled its data then.
   */
  lemma {:induction false} NilWasEqual(s: State, actions: seq<Action>, i: nat) returns (n: nat)
    requires Run(s, actions).Some? && |s.log| <= i < |Run(s, actions).value.log|
        && Run(s, actions).value.log[i].reply == Nil
    ensures var r := Run(s, actions).value.log[i]; FoundEqual(s, actions, n, r.key, r.data)
    decreases |actions|
  {
    var s1 := Step(s, actions[0]).value;
    LogGrows(s, actions[0]);
    if i < |s1.log| {
      LogKept(s1, actions[1..], i);
      n := 0;
      assert [actions[0]][..0] == actions[..0];
    } else {
      var rest := NilWasEqual(s1, actions[1..], i);
      n := rest + 1;
      PointNext(s, actions, rest);
    }
  }

  lemma {:induction false} LogKept(s: State, actions: seq<Action>, i: nat)
    requires Run(s, actions).Some? && i < |s.log|
    ensures i < |Run(s, actions).value.log| && Run(s, actions).value.log[i] == s.log[i]
    decreases |actions|
  {
    if actions != [] {
      LogGrows(s, actions[0]);
      LogKept(Step(s, actions[0]).value, actions[1..], i);
    }
  }

  /** The action is one of process p. */
  predicate By(a: Action, p: Process) { !a.Foreign? && a.p == p }

  /** The m-th action is p's Stat of the key, which was absent then; p does nothing more before the n-th. */
  predicate SawAbsence(s: State, actions: seq<Action>, m: nat, n: nat, p: Process, key: string, data: string) {
    && m < n <= |actions| && actions[m] == Stat(p) && Point(s, actions, m).Some?
    && PcOf(Point(s, actions, m).value, p) == Stating(key, data) && key !in Point(s, actions, m).value.objects
    && forall i | m < i < n :: !By(actions[i], p)
  }

  /** In every run a Put about to upload has seen its key absent, in a Stat that was its last step. */
  lemma {:induction false} UploadSawAbsence(s: State, actions: seq<Action>, n: nat, p: Process) returns (m: nat)
    requires n <= |actions| && Point(s, actions, n).Some? && !PcOf(s, p).Uploading?
    requires PcOf(Point(s, actions, n).value, p).Uploading?
    ensures var pc := PcOf(Point(s, actions, n).value, p); SawAbsence(s, actions, m, n, p, pc.key, pc.data)
    decreases n
  {
    assert actions[..0] == [];
    PointStep(s, actions, n - 1);
    var before := Point(s, actions, n - 1).value;
    if By(actions[n - 1], p) {
      m := n - 1;
    } else {
      assert PcOf(before, p) == PcOf(Point(s, actions, n).value, p);
      m := UploadSawAbsence(s, actions, n - 1, p);
    }
  }

  /**
   In every run, whatever foreign writers do, a Put changes the bucket only by uploading its
   data under a key it saw absent.
   */
  lemma WritesOnlyAfterAbsence(s: State, actions: seq<Action>, n: nat) returns (m: nat)
    requires n < |actions| && Point(s, actions, n + 1).Some? && Point(s, actions, n).Some? && !actions[n].Foreign?
    requires !PcOf(s, actions[n].p).Uploading?
    requires Point(s, actions, n + 1).value.objects != Point(s, actions, n).value.objects
    ensures var before, after := Point(s, actions, n).value, Point(s, actions, n + 1).value;
            var pc := PcOf(before, actions[n].p);
            && pc.Uploading? && after.objects == before.objects[pc.key := pc.data]
            && SawAbsence(s, actions, m, n, actions[n].p, pc.key, pc.data)
  {
    PointStep(s, actions, n);
    m := UploadSawAbsence(s, actions, n, actions[n].p);
  }

  // ---------------------------------------------------------------- write-once, and exactly when

  /** Two Puts that are between Stat and upload on one key carry the same data. */
  predicate WindowsAgree(s: State) {
    forall p, q |
      && p in s.pcs && q in s.pcs && s.pcs[p].Uploading? && s.pcs[q].Uploading?
      && s.pcs[p].key == s.pcs[q].key ::
      s.pcs[p].data == s.pcs[q].data
  }

  /** It holds in every state of the run, and there is no foreign writer. */
  predicate Agreed(s: State, actions: seq<Action>)
    decreases |actions|
  {
    && WindowsAgree(s)
    && (actions != [] ==>
          !actions[0].Foreign? && Step(s, actions[0]).Some? && Agreed(Step(s, actions[0]).value, actions[1..]))
  }

  /** A Put that is about to upload over something stored carries the stored data. */
  predicate LandedAgree(s: State) {
    forall p | p in s.pcs && s.pcs[p].Uploading? && s.pcs[p].key in s.objects ::
      s.objects[s.pcs[p].key] == s.pcs[p].data
  }

  predicate Inv(s: State) {
    && LandedAgree(s)
    && forall i | 0 <= i < |s.log| :: Borne(s, s.log[i])
  }

  /** The bucket bears out the receipt: nil for what is stored, a conflict for anything else. */
  predicate Borne(s: State, r: Receipt) {
    && (r.reply == Nil ==> r.key in s.objects && s.objects[r.key] == r.data)
    && (r.reply == Conflict ==> r.key in s.objects && s.objects[r.key] != r.data)
  }

  predicate Kept(s: State, s': State) {
    forall k | k in s.objects :: k in s'.objects && s'.objects[k] == s.objects[k]
  }

  lemma StepKeeps(s: State, a: Action)
    requires Inv(s) && WindowsAgree(s) && !a.Foreign? && Step(s, a).Some?
    ensures Inv(Step(s, a).value) && Kept(s, Step(s, a).value)
  {
    var s' := Step(s, a).value;
    var pc := PcOf(s, a.p);
    if pc.Verifying? { NilMeansEqual(s, a.p); }
    LogGrows(s, a);
    forall i | 0 <= i < |s'.log| ensures Borne(s', s'.log[i]) {
      if i < |s.log| { assert s'.log[i] == s'.log[..|s.log|][i] == s.log[i] && Borne(s, s.log[i]); }
    }
  }

  /** Then the first content wins for good, and all Puts that succeeded on a key carried it. */
  lemma {:induction false} AgreedWriteOnce(s: State, actions: seq<Action>)
    requires Inv(s) && Agreed(s, actions)
    ensures Run(s, actions).Some? && Inv(Run(s, actions).value) && Kept(s, Run(s, actions).value)
    decreases |actions|
  {
    if actions != [] {
      StepKeeps(s, actions[0]);
      AgreedWriteOnce(Step(s, actions[0]).value, actions[1..]);
    }
  }

  /** Puts that are past their Stat go on, and no other looks. */
  predicate Settling(actions: seq<Action>) {
    forall i | 0 <= i < |actions| :: actions[i].Upload? || actions[i].ReadBack? || actions[i].Fail?
  }

  /** Every step of the run, as far as it goes, keeps what is stored. */
  predicate KeptThroughout(s: State, actions: seq<Action>)
    decreases |actions|
  {
    actions != [] && Step(s, actions[0]).Some? ==>
      Kept(s, Step(s, actions[0]).value) && KeptThroughout(Step(s, actions[0]).value, actions[1..])
  }

  lemma SettlingStep(s: State, a: Action)
    requires LandedAgree(s) && WindowsAgree(s) && (a.Upload? || a.ReadBack? || a.Fail?) && Step(s, a).Some?
    ensures Kept(s, Step(s, a).value) && LandedAgree(Step(s, a).value) && WindowsAgree(Step(s, a).value)
  {
  }

  lemma {:induction false} AgreeSettles(s: State, actions: seq<Action>)
    requires LandedAgree(s) && WindowsAgree(s) && Settling(actions)
    ensures KeptThroughout(s, actions)
    decreases |actions|
  {
    if actions != [] && Step(s, actions[0]).Some? {
      SettlingStep(s, actions[0]);
      AgreeSettles(Step(s, actions[0]).value, actions[1..]);
    }
  }

  lemma ClashReplaces(s: State, p: Process, q: Process)
    requires p in s.pcs && q in s.pcs && s.pcs[p].Uploading? && s.pcs[q].Uploading?
    requires s.pcs[p].key == s.pcs[q].key && s.pcs[p].data != s.pcs[q].data
    ensures Settling([Upload(p), Upload(q)]) && !KeptThroughout(s, [Upload(p), Upload(q)])
  {
    var actions := [Upload(p), Upload(q)];
    var s1 := Step(s, actions[0]).value;
    var s2 := Step(s1, Upload(q)).value;
    assert actions[1..] == [Upload(q)];
    assert s1.objects[s.pcs[p].key] != s2.objects[s.pcs[p].key];
    assert !Kept(s1, s2);
    assert !KeptThroughout(s1, [Upload(q)]);
  }

  lemma LandedReplaces(s: State, p: Process)
    requires p in s.pcs && s.pcs[p].Uploading? && s.pcs[p].key in s.objects && s.objects[s.pcs[p].key] != s.pcs[p].data
    ensures Settling([Upload(p)]) && !KeptThroughout(s, [Upload(p)])
  {
    assert !Kept(s, Step(s, [Upload(p)][0]).value);
  }

  /**
   In any state, the Puts under way keep what is stored, however they end, iff those
   between Stat and upload on one key agree with one another and with what is stored there.
   */
  lemma WriteOnceIffWindowsAgree(s: State)
    ensures WindowsAgree(s) && LandedAgree(s) <==> forall actions | Settling(actions) :: KeptThroughout(s, actions)
  {
    if !LandedAgree(s) {
      var p :| p in s.pcs && s.pcs[p].Uploading? && s.pcs[p].key in s.objects
          && s.objects[s.pcs[p].key] != s.pcs[p].data;
      LandedReplaces(s, p);
    } else if !WindowsAgree(s) {
      var p, q :| p in s.pcs && q in s.pcs && s.pcs[p].Uploading? && s.pcs[q].Uploading? && s.pcs[p].key == s.pcs[q].key
                  && s.pcs[p].data != s.pcs[q].data;
      ClashReplaces(s, p, q);
    } else {
      forall actions | Settling(actions) ensures KeptThroughout(s, actions) { AgreeSettles(s, actions); }
    }
  }

  lemma SucceededPutsAgree(objects: map<string, string>, actions: seq<Action>, i: nat, j: nat)
    requires Agreed(State(objects, map[], []), actions) && Run(State(objects, map[], []), actions).Some?
    requires var log := Run(State(objects, map[], []), actions).value.log;
             i < |log| && j < |log| && log[i].key == log[j].key && log[i].reply == Nil && log[j].reply == Nil
    ensures var log := Run(State(objects, map[], []), actions).value.log; log[i].data == log[j].data
  {
    AgreedWriteOnce(State(objects, map[], []), actions);
  }

  // ---------------------------------------------------------------- one Put at a time

  /** At most one Put is under way. */
  predicate AtMostOne(s: State) {
    forall p, q | p in s.pcs && q in s.pcs && Putting(s.pcs[p]) && Putting(s.pcs[q]) :: p == q
  }

  /** It is so in every state of the run, and there is no foreign writer. */
  predicate Sequential(s: State, actions: seq<Action>)
    decreases |actions|
  {
    && AtMostOne(s)
    && (actions != [] ==>
          !actions[0].Foreign? && Step(s, actions[0]).Some? && Sequential(Step(s, actions[0]).value, actions[1..]))
  }

  lemma {:induction false} SequentialIsAgreed(s: State, actions: seq<Action>)
    requires Sequential(s, actions)
    ensures Agreed(s, actions)
    decreases |actions|
  {
    if actions != [] { SequentialIsAgreed(Step(s, actions[0]).value, actions[1..]); }
  }

  /**
   In a sequential run the first content wins: it stays, Puts of it return nil, and Puts of
   anything else conflict.
   */
  lemma FirstContentWins(objects: map<string, string>, actions: seq<Action>)
    requires Sequential(State(objects, map[], []), actions)
    ensures Run(State(objects, map[], []), actions).Some?
    ensures var s := Run(State(objects, map[], []), actions).value;
            Kept(State(objects, map[], []), s) && forall i | 0 <= i < |s.log| :: Borne(s, s.log[i])
  {
    SequentialIsAgreed(State(objects, map[], []), actions);
    AgreedWriteOnce(State(objects, map[], []), actions);
  }

  // ---------------------------------------------------------------- windows that overlap

  function Uploads(p: Process, q: Process): seq<Action> {
    [Upload(p)] + ([ReadBack(p)] + ([Upload(q)] + ([ReadBack(q)] + [])))
  }

  lemma RunStep(s: State, a: Action, rest: seq<Action>)
    requires Step(s, a).Some?
    ensures Run(s, [a] + rest) == Run(Step(s, a).value, rest)
  {
    assert ([a] + rest)[1..] == rest;
  }

  /** An upload and its read-back, undisturbed, succeed whatever the key held. */
  lemma UploadSucceeds(s: State, p: Process, rest: seq<Action>) returns (s': State)
    requires PcOf(s, p).Uploading?
    ensures Run(s, [Upload(p)] + ([ReadBack(p)] + rest)) == Run(s', rest)
    ensures var pc := PcOf(s, p);
            && s'.objects == s.objects[pc.key := pc.data] && s'.log == s.log + [Receipt(pc.key, pc.data, Nil)]
            && forall q | q != p :: PcOf(s', q) == PcOf(s, q)
  {
    RunStep(s, Upload(p), [ReadBack(p)] + rest);
    s' := Step(s, Upload(p)).value;
    NilMeansEqual(s', p);
    RunStep(s', ReadBack(p), rest);
    s' := Step(s', ReadBack(p)).value;
  }

  /** Wherever two windows overlap on a key, both Puts can succeed, and the second replaces the first. */
  lemma OverlapLoses(s: State, p: Process, q: Process)
    requires p != q && PcOf(s, p).Uploading? && PcOf(s, q).Uploading? && PcOf(s, p).key == PcOf(s, q).key
    ensures var k, first, second := PcOf(s, p).key, PcOf(s, p).data, PcOf(s, q).data;
            var r := Run(s, Uploads(p, q));
            && r.Some? && r.value.objects == s.objects[k := second]
            && r.value.log == s.log + [Receipt(k, first, Nil), Receipt(k, second, Nil)]
  {
    var s1 := UploadSucceeds(s, p, [Upload(q)] + ([ReadBack(q)] + []));
    var s2 := UploadSucceeds(s1, q, []);
    var k := PcOf(s, p).key;
    assert s.objects[k := PcOf(s, p).data][k := PcOf(s, q).data] == s.objects[k := PcOf(s, q).data];
    assert s2.log == s.log + [Receipt(k, PcOf(s, p).data, Nil)] + [Receipt(k, PcOf(s, q).data, Nil)];
  }

  const EMPTY: State := State(map[], map[], [])

  /** Such a state needs no more than two Puts that look before either writes. */
  lemma OverlapReachable(key: string, first: string, second: string, rest: seq<Action>) returns (s: State)
    requires ArchiveKey.KeyLengthOk(TrimSlash(key))
    ensures Run(EMPTY, [Start(0, key, first)] + ([Start(1, key, second)] + ([Stat(0)] + ([Stat(1)] + rest))))
         == Run(s, rest)
    ensures PcOf(s, 0) == Uploading(TrimSlash(key), first) && PcOf(s, 1) == Uploading(TrimSlash(key), second)
    ensures s.pcs.Keys == {0, 1} && (first != second ==> !WindowsAgree(s))
  {
    s := EMPTY;
    RunStep(s, Start(0, key, first), [Start(1, key, second)] + ([Stat(0)] + ([Stat(1)] + rest)));
    s := Step(s, Start(0, key, first)).value;
    RunStep(s, Start(1, key, second), [Stat(0)] + ([Stat(1)] + rest));
    s := Step(s, Start(1, key, second)).value;
    RunStep(s, Stat(0), [Stat(1)] + rest);
    s := Step(s, Stat(0)).value;
    RunStep(s, Stat(1), rest);
    s := Step(s, Stat(1)).value;
    assert s.pcs[0] == Uploading(TrimSlash(key), first) && s.pcs[1] == Uploading(TrimSlash(key), second);
  }

  /** Once one of the two has uploaded, no windows disagree any more, yet the other can still replace what is stored. */
  lemma LandedReachable(key: string, first: string, second: string) returns (s: State)
    requires ArchiveKey.KeyLengthOk(TrimSlash(key)) && first != second
    ensures Run(EMPTY,
              [Start(0, key, first)] + ([Start(1, key, second)] + ([Stat(0)] + ([Stat(1)] + ([Upload(1)] + [])))))
         == Some(s)
    ensures WindowsAgree(s) && !LandedAgree(s)
  {
    var before := OverlapReachable(key, first, second, [Upload(1)] + []);
    RunStep(before, Upload(1), []);
    s := Step(before, Upload(1)).value;
    assert s.pcs.Keys == {0, 1} && !s.pcs[1].Uploading?;
    assert s.pcs[0] == Uploading(TrimSlash(key), first);
  }

  // ---------------------------------------------------------------- one Put on its own

  /** The steps of a Put that nobody disturbs. */
  function Alone(objects: map<string, string>, key: string, data: string): seq<Action> {
    if !ArchiveKey.KeyLengthOk(TrimSlash(key)) then [Start(0, key, data)] + []
    else if TrimSlash(key) in objects then [Start(0, key, data)] + ([Stat(0)] + ([ReadBack(0)] + []))
    else [Start(0, key, data)] + ([Stat(0)] + ([Upload(0)] + ([ReadBack(0)] + [])))
  }

  /**
   It stores under a free key, confirms equal data, and refuses other data or an overlong key,
   leaving the bucket as it is.
   */
  lemma PutAlone(objects: map<string, string>, key: string, data: string)
    ensures var r := Run(State(objects, map[], []), Alone(objects, key, data));
            var k := TrimSlash(key);
            var short := ArchiveKey.KeyLengthOk(k);
            && r.Some?
            && r.value.objects == (if k in objects || !short then objects else objects[k := data])
            && var reply := if !short then TooLong else if k in objects && objects[k] != data then Conflict else Nil;
               r.value.log == [Receipt(k, data, reply)]
  {
    var k := TrimSlash(key);
    var s := State(objects, map[], []);
    if ArchiveKey.KeyLengthOk(k) {
      PutShortAlone(objects, key, data);
    } else {
      RunStep(s, Start(0, key, data), []);
    }
  }

  lemma PutShortAlone(objects: map<string, string>, key: string, data: string)
    requires ArchiveKey.KeyLengthOk(TrimSlash(key))
    ensures var r := Run(State(objects, map[], []), Alone(objects, key, data));
            var k := TrimSlash(key);
            && r.Some?
            && r.value.objects == (if k in objects then objects else objects[k := data])
            && r.value.log == [Receipt(k, data, if k in objects && objects[k] != data then Conflict else Nil)]
  {
    var k := TrimSlash(key);
    var s := State(objects, map[], []);
    var rest := if k in objects then [ReadBack(0)] + [] else [Upload(0)] + ([ReadBack(0)] + []);
    RunStep(s, Start(0, key, data), [Stat(0)] + rest);
    s := Step(s, Start(0, key, data)).value;
    RunStep(s, Stat(0), rest);
    s := Step(s, Stat(0)).value;
    if k !in objects {
      RunStep(s, Upload(0), [ReadBack(0)] + []);
      s := Step(s, Upload(0)).value;
    }
    NilMeansEqual(s, 0);
    RunStep(s, ReadBack(0), []);
  }
}
