/**
 The local write-once archive (internal/archive/archive_secure_linux.go, `FileStore.Put`,
 `FileStore.Get`, `writeArchiveFile` and `verifyExistingAt`), shared by any number of
 processes.

 A step is one system call. Writes and reads may be short, any call may fail, and the
 processes interleave in any order; the per-store mutex only removes interleavings. Keys
 are cleaned keys. An object becomes visible by linking a file that had no name while it
 was written.
 */
module FileStore {
  import opened Bytes

  type Process = nat

  datatype Reply = Nil | Conflict | Failed | Contents(data: string)

  datatype Pc =
    | Idle
    | PutOpen(key: string, data: string)                            // look for an existing object
    | PutWrite(key: string, data: string, ino: nat, written: nat)   // fill the unnamed file
    | PutLink(key: string, data: string, ino: nat)                  // file complete and synced
    | PutReopen(key: string, data: string)                          // the name was taken meanwhile
    | PutCompare(key: string, data: string, ino: nat, got: string)  // read the existing object
    | PutSyncDirs(key: string, data: string)                        // linked, directory sync due
    | GetOpen(key: string)
    | GetRead(key: string, ino: nat, got: string)
    | Done(reply: Reply)

  /** A finished Put. */
  datatype Receipt = Receipt(key: string, data: string, reply: Reply)

  /** File contents by inode, names, processes, the Puts started so far (key and data), and the finished ones. */
  datatype State = State(files: seq<string>, names: map<string, nat>, pcs: map<Process, Pc>,
                         offered: set<(string, string)>, log: seq<Receipt>)

  datatype Action =
    | StartPut(p: Process, key: string, data: string)
    | StartGet(p: Process, key: string)
    | Open(p: Process)
    | Write(p: Process, n: nat)
    | SyncFile(p: Process)
    | Link(p: Process)
    | Read(p: Process, n: nat)
    | EndOfFile(p: Process)
    | SyncDirs(p: Process)
    | Fail(p: Process)

  const INITIAL: State := State([], map[], map[], {}, [])

  function PcOf(s: State, p: Process): Pc { if p in s.pcs then s.pcs[p] else Idle }

  function Goto(s: State, p: Process, pc: Pc): State { s.(pcs := s.pcs[p := pc]) }

  predicate Putting(pc: Pc) {
    pc.PutOpen? || pc.PutWrite? || pc.PutLink? || pc.PutReopen? || pc.PutCompare? || pc.PutSyncDirs?
  }

  /** The Put of process p returns. */
  function Finish(s: State, p: Process, reply: Reply): State
    requires Putting(PcOf(s, p))
  {
    var pc := PcOf(s, p);
    Goto(s.(log := s.log + [Receipt(pc.key, pc.data, reply)]), p, Done(reply))
  }

  function Start(s: State, p: Process, key: string, data: string): State {
    Goto(s.(offered := s.offered + {(key, data)}), p, PutOpen(key, data))
  }

  function Min(a: nat, b: nat): nat { if a <= b then a else b }

  /** What has been read after a read of at most n more bytes. */
  function Longer(file: string, got: string, n: nat): string
    requires |got| < |file|
  {
    got + file[|got|..Min(|got| + n, |file|)]
  }

  /** The state after the owner of file ino has written its data up to `upto`. */
  function Extended(s: State, p: Process, key: string, data: string, ino: nat, written: nat, upto: nat): State
    requires ino < |s.files| && written <= upto <= |data|
  {
    Goto(s.(files := s.files[ino := s.files[ino] + data[written..upto]]), p, PutWrite(key, data, ino, upto))
  }

  function Step(s: State, a: Action): Option<State> {
    match (a, PcOf(s, a.p))
    case (StartPut(p, key, data), Idle) => Some(Start(s, p, key, data))
    case (StartPut(p, key, data), Done(_)) => Some(Start(s, p, key, data))
    case (StartGet(p, key), Idle) => Some(Goto(s, p, GetOpen(key)))
    case (StartGet(p, key), Done(_)) => Some(Goto(s, p, GetOpen(key)))
    case (Open(p), PutOpen(key, data)) =>
      if key in s.names then Some(Goto(s, p, PutCompare(key, data, s.names[key], "")))
      else Some(Goto(s.(files := s.files + [""]), p, PutWrite(key, data, |s.files|, 0)))
    case (Open(p), PutReopen(key, data)) =>
      if key in s.names then Some(Goto(s, p, PutCompare(key, data, s.names[key], ""))) else Some(Finish(s, p, Failed))
    case (Open(p), GetOpen(key)) =>
      if key in s.names then Some(Goto(s, p, GetRead(key, s.names[key], ""))) else Some(Goto(s, p, Done(Failed)))
    case (Write(p, n), PutWrite(key, data, ino, written)) =>
      if ino < |s.files| && written < |data| && n > 0 then
        Some(Extended(s, p, key, data, ino, written, Min(written + n, |data|)))
      else None
    case (SyncFile(p), PutWrite(key, data, ino, written)) =>
      if written == |data| then Some(Goto(s, p, PutLink(key, data, ino))) else None
    case (Link(p), PutLink(key, data, ino)) =>
      if key in s.names then Some(Goto(s, p, PutReopen(key, data)))
      else Some(Goto(s.(names := s.names[key := ino]), p, PutSyncDirs(key, data)))
    case (Read(p, n), PutCompare(key, data, ino, got)) =>
      if ino < |s.files| && |got| < |s.files[ino]| && n > 0 then
        Some(Goto(s, p, PutCompare(key, data, ino, Longer(s.files[ino], got, n))))
      else None
    case (EndOfFile(p), PutCompare(key, data, ino, got)) =>
      if ino < |s.files| && |got| >= |s.files[ino]| then Some(Finish(s, p, if got == data then Nil else Conflict))
      else None
    case (Read(p, n), GetRead(key, ino, got)) =>
      if ino < |s.files| && |got| < |s.files[ino]| && n > 0 then
        Some(Goto(s, p, GetRead(key, ino, Longer(s.files[ino], got, n))))
      else None
    case (EndOfFile(p), GetRead(key, ino, got)) =>
      if ino < |s.files| && |got| >= |s.files[ino]| then Some(Goto(s, p, Done(Contents(got)))) else None
    case (SyncDirs(p), PutSyncDirs(key, data)) => Some(Finish(s, p, Nil))
    case (Fail(p), pc) =>
      if Putting(pc) then Some(Finish(s, p, Failed))
      else if pc.GetOpen? || pc.GetRead? then Some(Goto(s, p, Done(Failed))) else None
    case _ => None
  }

  function Run(s: State, actions: seq<Action>): Option<State>
    decreases |actions|
  {
    if actions == [] then Some(s)
    else
      match Step(s, actions[0])
      case None => None
      case Some(s') => Run(s', actions[1..])
  }

  // ---------------------------------------------------------------- the invariant

  /** The object at a key is there, whole, and equal to the data. */
  predicate Holds(s: State, key: string, data: string) {
    key in s.names && s.names[key] < |s.files| && s.files[s.names[key]] == data
  }

  /** The object at a key is there, and differs from the data. */
  predicate HoldsOther(s: State, key: string, data: string) {
    key in s.names && s.names[key] < |s.files| && s.files[s.names[key]] != data
  }

  /** A success has stored its data, and a conflict has met other data. */
  predicate Borne(s: State, r: Receipt) {
    (r.reply == Nil ==> Holds(s, r.key, r.data)) && (r.reply == Conflict ==> HoldsOther(s, r.key, r.data))
  }

  predicate Owns(pc: Pc, ino: nat) { (pc.PutWrite? || pc.PutLink?) && pc.ino == ino }

  /** No name leads to the file, and no other process writes it. */
  predicate Private(s: State, p: Process, ino: nat) {
    && ino < |s.files| && (forall k | k in s.names :: s.names[k] != ino)
    && forall q | q in s.pcs && q != p :: !Owns(s.pcs[q], ino)
  }

  /** What has been read so far is a prefix of the object at the key. */
  predicate ReadPrefix(s: State, key: string, ino: nat, got: string) {
    key in s.names && s.names[key] == ino && ino < |s.files| && got <= s.files[ino]
  }

  predicate PcInv(s: State, p: Process, pc: Pc) {
    && (Putting(pc) ==> (pc.key, pc.data) in s.offered)
    && match pc
    case PutWrite(_, data, ino, written) => Private(s, p, ino) && written <= |data| && s.files[ino] == data[..written]
    case PutLink(_, data, ino) => Private(s, p, ino) && s.files[ino] == data
    case PutReopen(key, _) => key in s.names
    case PutCompare(key, _, ino, got) => ReadPrefix(s, key, ino, got)
    case PutSyncDirs(key, data) => Holds(s, key, data)
    case GetRead(key, ino, got) => ReadPrefix(s, key, ino, got)
    case _ => true
  }

  predicate Inv(s: State) {
    && (forall k | k in s.names :: s.names[k] < |s.files| && (k, s.files[s.names[k]]) in s.offered)
    && (forall p | p in s.pcs :: PcInv(s, p, s.pcs[p]))
    && forall i | 0 <= i < |s.log| :: Borne(s, s.log[i])
  }

  /** Every name still leads to the same file with the same contents. */
  predicate Immutable(s: State, s': State) {
    forall k | k in s.names ::
      k in s'.names && s'.names[k] == s.names[k] && s.names[k] < |s.files| && s.names[k] < |s'.files|
      && s'.files[s.names[k]] == s.files[s.names[k]]
  }

  lemma InitialInv()
    ensures Inv(INITIAL)
  {
  }

  /** A step that moves one process and may add a receipt that is borne out. */
  lemma MoveKeeps(s: State, p: Process, pc: Pc, log: seq<Receipt>)
    requires Inv(s) && PcInv(s, p, pc) && (forall ino | Owns(pc, ino) :: Owns(PcOf(s, p), ino))
    requires forall i | 0 <= i < |log| :: Borne(s, log[i])
    ensures Inv(Goto(s.(log := log), p, pc)) && Immutable(s, Goto(s.(log := log), p, pc))
  {
    var s' := Goto(s.(log := log), p, pc);
    forall q | q in s'.pcs ensures PcInv(s', q, s'.pcs[q]) {
      if q != p {
        assert PcInv(s, q, s.pcs[q]);
        OthersKeep(s, s', p, q);
      } else {
        SelfKeeps(s, s', p, pc);
      }
    }
  }

  lemma OthersKeep(s: State, s': State, p: Process, q: Process)
    requires p != q && q in s.pcs && PcInv(s, q, s.pcs[q])
    requires s'.files == s.files && s'.names == s.names && s'.offered == s.offered && p in s'.pcs
        && s'.pcs == s.pcs[p := s'.pcs[p]]
    requires forall ino | Owns(s'.pcs[p], ino) :: Owns(PcOf(s, p), ino)
    ensures PcInv(s', q, s.pcs[q])
  {
  }

  lemma SelfKeeps(s: State, s': State, p: Process, pc: Pc)
    requires PcInv(s, p, pc)
    requires s'.files == s.files && s'.names == s.names && s'.offered == s.offered && s'.pcs == s.pcs[p := pc]
    ensures PcInv(s', p, pc)
  {
  }

  lemma FinishKeeps(s: State, p: Process, reply: Reply)
    requires Inv(s) && Putting(PcOf(s, p))
    requires Borne(s, Receipt(PcOf(s, p).key, PcOf(s, p).data, reply))
    ensures Inv(Finish(s, p, reply)) && Immutable(s, Finish(s, p, reply))
  {
    var pc := PcOf(s, p);
    MoveKeeps(s, p, Done(reply), s.log + [Receipt(pc.key, pc.data, reply)]);
  }

  lemma StartKeeps(s: State, p: Process, key: string, data: string)
    requires Inv(s) && !Putting(PcOf(s, p))
    ensures Inv(Start(s, p, key, data)) && Immutable(s, Start(s, p, key, data))
  {
    var s' := Start(s, p, key, data);
    forall q | q in s'.pcs ensures PcInv(s', q, s'.pcs[q]) {
      if q != p { assert PcInv(s, q, s.pcs[q]); }
    }
  }

  /** A new unnamed file disturbs nobody. */
  lemma CreateKeeps(s: State, p: Process, key: string, data: string)
    requires Inv(s) && PcOf(s, p) == PutOpen(key, data)
    ensures var s' := Goto(s.(files := s.files + [""]), p, PutWrite(key, data, |s.files|, 0));
            Inv(s') && Immutable(s, s')
  {
    var s' := Goto(s.(files := s.files + [""]), p, PutWrite(key, data, |s.files|, 0));
    forall q | q in s'.pcs ensures PcInv(s', q, s'.pcs[q]) {
      if q != p { assert PcInv(s, q, s.pcs[q]); }
    }
  }

  /** Only the owner's file grows, and no name leads to it. */
  lemma WriteKeeps(s: State, p: Process, key: string, data: string, ino: nat, written: nat, upto: nat)
    requires Inv(s) && PcOf(s, p) == PutWrite(key, data, ino, written) && written <= upto <= |data|
    ensures ino < |s.files|
    ensures var s' := Extended(s, p, key, data, ino, written, upto); Inv(s') && Immutable(s, s')
  {
    assert PcInv(s, p, s.pcs[p]);
    var s' := Extended(s, p, key, data, ino, written, upto);
    assert data[..written] + data[written..upto] == data[..upto];
    forall q | q in s'.pcs ensures PcInv(s', q, s'.pcs[q]) {
      if q != p { assert PcInv(s, q, s.pcs[q]); }
    }
  }

  /** Linking publishes a whole file under a free name. */
  lemma LinkKeeps(s: State, p: Process, key: string, data: string, ino: nat)
    requires Inv(s) && PcOf(s, p) == PutLink(key, data, ino) && key !in s.names
    ensures var s' := Goto(s.(names := s.names[key := ino]), p, PutSyncDirs(key, data));
            Inv(s') && Immutable(s, s') && Holds(s', key, data)
  {
    assert PcInv(s, p, s.pcs[p]);
    var s' := Goto(s.(names := s.names[key := ino]), p, PutSyncDirs(key, data));
    forall q | q in s'.pcs ensures PcInv(s', q, s'.pcs[q]) {
      if q != p { assert PcInv(s, q, s.pcs[q]); }
    }
  }

  lemma PrefixGrows(file: string, got: string, n: nat)
    requires got <= file && |got| < |file|
    ensures Longer(file, got, n) <= file
  {
    assert got + file[|got|..Min(|got| + n, |file|)] == file[..Min(|got| + n, |file|)];
  }

  lemma OpenKeeps(s: State, a: Action)
    requires a.Open? && Inv(s) && Step(s, a).Some?
    ensures Inv(Step(s, a).value) && Immutable(s, Step(s, a).value)
  {
    var p := a.p;
    assert PcInv(s, p, s.pcs[p]);
    match PcOf(s, p) {
      case PutOpen(key, data) =>
        if key in s.names {
          MoveKeeps(s, p, PutCompare(key, data, s.names[key], ""), s.log);
        } else {
          CreateKeeps(s, p, key, data);
        }
      case PutReopen(key, data) => MoveKeeps(s, p, PutCompare(key, data, s.names[key], ""), s.log);
      case GetOpen(key) =>
        MoveKeeps(s, p, if key in s.names then GetRead(key, s.names[key], "") else Done(Failed), s.log);
    }
  }

  lemma ReadKeeps(s: State, a: Action)
    requires a.Read? && Inv(s) && Step(s, a).Some?
    ensures Inv(Step(s, a).value) && Immutable(s, Step(s, a).value)
  {
    var p := a.p;
    assert PcInv(s, p, s.pcs[p]);
    match PcOf(s, p) {
      case PutCompare(key, data, ino, got) =>
        PrefixGrows(s.files[ino], got, a.n);
        MoveKeeps(s, p, PutCompare(key, data, ino, Longer(s.files[ino], got, a.n)), s.log);
      case GetRead(key, ino, got) =>
        PrefixGrows(s.files[ino], got, a.n);
        MoveKeeps(s, p, GetRead(key, ino, Longer(s.files[ino], got, a.n)), s.log);
    }
  }

  lemma EndOfFileKeeps(s: State, a: Action)
    requires a.EndOfFile? && Inv(s) && Step(s, a).Some?
    ensures Inv(Step(s, a).value) && Immutable(s, Step(s, a).value)
  {
    var p := a.p;
    assert PcInv(s, p, s.pcs[p]);
    match PcOf(s, p) {
      case PutCompare(key, data, ino, got) => FinishKeeps(s, p, if got == data then Nil else Conflict);
      case GetRead(key, ino, got) => MoveKeeps(s, p, Done(Contents(got)), s.log);
    }
  }

  lemma LinkStepKeeps(s: State, a: Action)
    requires (a.SyncFile? || a.Link? || a.SyncDirs?) && Inv(s) && Step(s, a).Some?
    ensures Inv(Step(s, a).value) && Immutable(s, Step(s, a).value)
  {
    var p := a.p;
    assert PcInv(s, p, s.pcs[p]);
    match PcOf(s, p) {
      case PutWrite(key, data, ino, written) =>
        assert data[..written] == data;
        MoveKeeps(s, p, PutLink(key, data, ino), s.log);
      case PutLink(key, data, ino) =>
        if key in s.names { MoveKeeps(s, p, PutReopen(key, data), s.log); } else { LinkKeeps(s, p, key, data, ino); }
      case PutSyncDirs(key, data) => FinishKeeps(s, p, Nil);
    }
  }

  lemma WriteStep(s: State, a: Action)
    requires a.Write? && Step(s, a).Some?
    ensures var pc := PcOf(s, a.p);
            && pc.PutWrite? && pc.ino < |s.files| && pc.written < |pc.data|
            && var upto := Min(pc.written + a.n, |pc.data|);
               Step(s, a).value == Extended(s, a.p, pc.key, pc.data, pc.ino, pc.written, upto)
  {
  }

  lemma WriteStepKeeps(s: State, a: Action)
    requires a.Write? && Inv(s) && Step(s, a).Some?
    ensures Inv(Step(s, a).value) && Immutable(s, Step(s, a).value)
  {
    WriteStep(s, a);
    var pc := PcOf(s, a.p);
    WriteKeeps(s, a.p, pc.key, pc.data, pc.ino, pc.written, Min(pc.written + a.n, |pc.data|));
  }

  lemma FailKeeps(s: State, a: Action)
    requires a.Fail? && Inv(s) && Step(s, a).Some?
    ensures Inv(Step(s, a).value) && Immutable(s, Step(s, a).value)
  {
    if Putting(PcOf(s, a.p)) { FinishKeeps(s, a.p, Failed); } else { MoveKeeps(s, a.p, Done(Failed), s.log); }
  }

  /** Every step keeps the invariant and every visible object. */
  lemma StepKeeps(s: State, a: Action)
    requires Inv(s) && Step(s, a).Some?
    ensures Inv(Step(s, a).value) && Immutable(s, Step(s, a).value)
  {
    match a {
      case StartPut(p, key, data) => StartKeeps(s, p, key, data);
      case StartGet(p, key) => MoveKeeps(s, p, GetOpen(key), s.log);
      case Open(_) => OpenKeeps(s, a);
      case Write(_, _) => WriteStepKeeps(s, a);
      case SyncFile(_) => LinkStepKeeps(s, a);
      case Link(_) => LinkStepKeeps(s, a);
      case SyncDirs(_) => LinkStepKeeps(s, a);
      case Read(_, _) => ReadKeeps(s, a);
      case EndOfFile(_) => EndOfFileKeeps(s, a);
      case Fail(_) => FailKeeps(s, a);
    }
  }

  // ---------------------------------------------------------------- whole runs

  lemma ImmutableTransitive(s: State, t: State, u: State)
    requires Immutable(s, t) && Immutable(t, u)
    ensures Immutable(s, u)
  {
  }

  /** Through any run the invariant holds and no visible object ever changes or vanishes. */
  lemma {:induction false} RunKeeps(s: State, actions: seq<Action>)
    requires Inv(s) && Run(s, actions).Some?
    ensures Inv(Run(s, actions).value) && Immutable(s, Run(s, actions).value)
    decreases actions
  {
    if actions != [] {
      var t := Step(s, actions[0]).value;
      StepKeeps(s, actions[0]);
      RunKeeps(t, actions[1..]);
      ImmutableTransitive(s, t, Run(t, actions[1..]).value);
    }
  }

  /**
   All Puts on one key that succeeded, in any run of any number of processes, carried the same
   bytes: those at the key.
   */
  lemma WriteOnce(actions: seq<Action>, i: nat, j: nat)
    requires Run(INITIAL, actions).Some?
    requires var log := Run(INITIAL, actions).value.log;
             i < |log| && j < |log| && log[i].key == log[j].key && log[i].reply == Nil && log[j].reply == Nil
    ensures var s := Run(INITIAL, actions).value;
            s.log[i].data == s.log[j].data && Holds(s, s.log[i].key, s.log[i].data)
  {
    InitialInv();
    RunKeeps(INITIAL, actions);
  }

  /** Once a Put has succeeded the key holds its bytes for ever, whatever happens next. */
  lemma SuccessIsForGood(before: seq<Action>, after: seq<Action>, i: nat)
    requires Run(INITIAL, before).Some? && Run(Run(INITIAL, before).value, after).Some?
    requires i < |Run(INITIAL, before).value.log| && Run(INITIAL, before).value.log[i].reply == Nil
    ensures var r := Run(INITIAL, before).value.log[i];
            Holds(Run(Run(INITIAL, before).value, after).value, r.key, r.data)
  {
    InitialInv();
    RunKeeps(INITIAL, before);
    RunKeeps(Run(INITIAL, before).value, after);
  }

  /** A Get returns the whole object, never part of it: all the data of some Put on that key. */
  lemma GetReturnsWhole(actions: seq<Action>, p: Process)
    requires Run(INITIAL, actions).Some? && PcOf(Run(INITIAL, actions).value, p).GetRead?
    ensures var s := Run(INITIAL, actions).value;
            var key, s' := PcOf(s, p).key, Step(s, EndOfFile(p));
            s'.Some? ==>
              && PcOf(s'.value, p).Done? && PcOf(s'.value, p).reply.Contents?
              && var data := PcOf(s'.value, p).reply.data; Holds(s, key, data) && (key, data) in s.offered
  {
    InitialInv();
    RunKeeps(INITIAL, actions);
    var s := Run(INITIAL, actions).value;
    assert PcInv(s, p, s.pcs[p]);
  }

  /** A Put that finds the key taken answers exactly by comparing the whole object with its data. */
  lemma CompareIsExact(actions: seq<Action>, p: Process)
    requires Run(INITIAL, actions).Some? && PcOf(Run(INITIAL, actions).value, p).PutCompare?
    ensures var s := Run(INITIAL, actions).value;
            var pc, s' := PcOf(s, p), Step(s, EndOfFile(p));
            s'.Some? ==> PcOf(s'.value, p) == Done(if Holds(s, pc.key, pc.data) then Nil else Conflict)
  {
    InitialInv();
    RunKeeps(INITIAL, actions);
    var s := Run(INITIAL, actions).value;
    assert PcInv(s, p, s.pcs[p]);
  }

  // ---------------------------------------------------------------- no failure out of nothing

  /** Every conflict, in any run, has met other data at its key, which is there still. */
  lemma ConflictIsReal(actions: seq<Action>, i: nat)
    requires Run(INITIAL, actions).Some?
    requires i < |Run(INITIAL, actions).value.log| && Run(INITIAL, actions).value.log[i].reply == Conflict
    ensures var s := Run(INITIAL, actions).value; HoldsOther(s, s.log[i].key, s.log[i].data)
  {
    InitialInv();
    RunKeeps(INITIAL, actions);
    assert Borne(Run(INITIAL, actions).value, Run(INITIAL, actions).value.log[i]);
  }

  function Failures(log: seq<Receipt>): nat {
    if log == [] then 0 else Failures(log[..|log| - 1]) + if log[|log| - 1].reply == Failed then 1 else 0
  }

  /** How many calls failed on behalf of a Put. */
  function FailedCalls(s: State, actions: seq<Action>): nat
    decreases |actions|
  {
    if actions == [] || Step(s, actions[0]).None? then 0
    else
      (if actions[0].Fail? && Putting(PcOf(s, actions[0].p)) then 1 else 0)
      + FailedCalls(Step(s, actions[0]).value, actions[1..])
  }

  lemma FailuresAppend(log: seq<Receipt>, r: Receipt)
    ensures Failures(log + [r]) == Failures(log) + if r.reply == Failed then 1 else 0
  {
    assert (log + [r])[..|log|] == log;
  }

  lemma StepFailures(s: State, a: Action)
    requires Inv(s) && Step(s, a).Some?
    ensures Failures(Step(s, a).value.log) ==
            Failures(s.log) + if a.Fail? && Putting(PcOf(s, a.p)) then 1 else 0
  {
    var pc := PcOf(s, a.p);
    if a.p in s.pcs { assert PcInv(s, a.p, pc); }
    if Putting(pc) {
      FailuresAppend(s.log, Receipt(pc.key, pc.data, Nil));
      FailuresAppend(s.log, Receipt(pc.key, pc.data, Conflict));
      FailuresAppend(s.log, Receipt(pc.key, pc.data, Failed));
    }
  }

  lemma {:induction false} RunFailures(s: State, actions: seq<Action>)
    requires Inv(s) && Run(s, actions).Some?
    ensures Failures(Run(s, actions).value.log) == Failures(s.log) + FailedCalls(s, actions)
    decreases |actions|
  {
    if actions != [] {
      StepKeeps(s, actions[0]);
      StepFailures(s, actions[0]);
      RunFailures(Step(s, actions[0]).value, actions[1..]);
    }
  }

  lemma {:induction false} FailedCounts(log: seq<Receipt>)
    ensures Failures(log) > 0 <==> exists r :: r in log && r.reply == Failed
  {
    if log != [] {
      FailedCounts(log[..|log| - 1]);
      assert log == log[..|log| - 1] + [log[|log| - 1]];
      assert forall r :: r in log <==> r in log[..|log| - 1] || r == log[|log| - 1];
    }
  }

  /**
   In any run of any number of processes as many Puts fail as had a call fail, so a run in which
   no call fails has every finished Put succeed or meet other data.
   */
  lemma PutsFailOnlyByCalls(actions: seq<Action>)
    requires Run(INITIAL, actions).Some?
    ensures Failures(Run(INITIAL, actions).value.log) == FailedCalls(INITIAL, actions)
    ensures FailedCalls(INITIAL, actions) == 0 <==>
            forall r | r in Run(INITIAL, actions).value.log :: r.reply != Failed
  {
    InitialInv();
    RunFailures(INITIAL, actions);
    FailedCounts(Run(INITIAL, actions).value.log);
  }

  // ---------------------------------------------------------------- an undisturbed call

  /** Steps of one process in one call, none of them failing. */
  predicate Alone(p: Process, actions: seq<Action>) {
    forall a | a in actions :: a.p == p && !a.Fail? && !a.StartPut? && !a.StartGet?
  }

  predicate Busy(pc: Pc) { !pc.Idle? && !pc.Done? }

  function Size(s: State, key: string): nat {
    if key in s.names && s.names[key] < |s.files| then |s.files[s.names[key]]| else 0
  }

  /** From a complete file on: link and sync, or link, reopen and compare. */
  function LinkLeft(s: State, key: string): nat { if key in s.names then Size(s, key) + 3 else 2 }

  /** How many steps a call can still take when nobody else moves. */
  function Left(s: State, pc: Pc): nat {
    match pc
    case Idle => 0
    case Done(_) => 0
    case PutOpen(key, data) => if key in s.names then Size(s, key) + 2 else |data| + 4
    case PutWrite(key, data, _, written) => |data| - Min(written, |data|) + 1 + LinkLeft(s, key)
    case PutLink(key, _, _) => LinkLeft(s, key)
    case PutReopen(key, _) => Size(s, key) + 2
    case PutCompare(key, _, _, got) => Size(s, key) - Min(|got|, Size(s, key)) + 1
    case PutSyncDirs(_, _) => 1
    case GetOpen(key) => if key in s.names then Size(s, key) + 2 else 1
    case GetRead(key, _, got) => Size(s, key) - Min(|got|, Size(s, key)) + 1
  }

  /** A step that is always open to a call in progress. */
  function Next(s: State, p: Process, n: nat): Action {
    match PcOf(s, p)
    case PutWrite(_, data, _, written) => if written < |data| then Write(p, n) else SyncFile(p)
    case PutLink(_, _, _) => Link(p)
    case PutCompare(key, _, _, got) => if |got| < Size(s, key) then Read(p, n) else EndOfFile(p)
    case PutSyncDirs(_, _) => SyncDirs(p)
    case GetRead(key, _, got) => if |got| < Size(s, key) then Read(p, n) else EndOfFile(p)
    case _ => Open(p)
  }

  lemma NextEnabled(s: State, p: Process, n: nat)
    requires Inv(s) && Busy(PcOf(s, p)) && n > 0
    ensures Alone(p, [Next(s, p, n)]) && Step(s, Next(s, p, n)).Some?
  {
    assert PcInv(s, p, s.pcs[p]);
  }

  lemma NeverStuck(s: State, p: Process)
    requires Inv(s) && Busy(PcOf(s, p))
    ensures forall n: nat | n > 0 :: Step(s, Next(s, p, n)).Some?
  {
    forall n: nat | n > 0 ensures Step(s, Next(s, p, n)).Some? { NextEnabled(s, p, n); }
  }

  lemma StepNearer(s: State, a: Action)
    requires Inv(s) && Step(s, a).Some? && Alone(a.p, [a])
    ensures Left(Step(s, a).value, PcOf(Step(s, a).value, a.p)) < Left(s, PcOf(s, a.p))
  {
    assert a in [a];
    assert PcInv(s, a.p, s.pcs[a.p]);
  }

  /** What a Put must answer, going by the store it finds. */
  function PutReply(s: State, key: string, data: string): Reply {
    if key !in s.names || Holds(s, key, data) then Nil else Conflict
  }

  function GetReply(s: State, key: string): Reply
    requires Inv(s)
  {
    if key in s.names then Contents(s.files[s.names[key]]) else Failed
  }

  /** Where an undisturbed Put can be, having found the store s0. */
  predicate PutPoint(s0: State, s: State, pc: Pc, key: string, data: string) {
    && (Putting(pc) ==> pc.key == key && pc.data == data)
    && (if key in s0.names then pc.PutOpen? || pc.PutCompare? || pc.Done?
        else if key in s.names then Holds(s, key, data) && (pc.PutSyncDirs? || pc.Done?)
        else pc.PutOpen? || pc.PutWrite? || pc.PutLink?)
    && s.names.Keys <= s0.names.Keys + {key} && s0.names.Keys <= s.names.Keys
    && (pc.Done? ==> pc.reply == PutReply(s0, key, data))
  }

  lemma PutPointStep(s0: State, s: State, a: Action, key: string, data: string)
    requires Inv(s) && Immutable(s0, s) && Step(s, a).Some? && Alone(a.p, [a])
    requires PutPoint(s0, s, PcOf(s, a.p), key, data)
    ensures var s' := Step(s, a).value; PutPoint(s0, s', PcOf(s', a.p), key, data)
  {
    assert a in [a];
    var pc := s.pcs[a.p];
    assert PcInv(s, a.p, pc);
    if pc.PutCompare? && |pc.got| >= |s.files[pc.ino]| { assert pc.got == s.files[pc.ino]; }
  }

  lemma {:induction false} PutContinues(s0: State, s: State, p: Process, key: string, data: string,
                                        actions: seq<Action>)
    requires Inv(s) && Immutable(s0, s) && PutPoint(s0, s, PcOf(s, p), key, data)
    requires Alone(p, actions) && Run(s, actions).Some?
    ensures var s' := Run(s, actions).value;
            && PutPoint(s0, s', PcOf(s', p), key, data)
            && |actions| + Left(s', PcOf(s', p)) <= Left(s, PcOf(s, p))
    decreases |actions|
  {
    if actions != [] {
      var a, s1 := actions[0], Step(s, actions[0]).value;
      assert a in actions && Alone(p, [a]) && Alone(p, actions[1..]);
      StepKeeps(s, a);
      StepNearer(s, a);
      PutPointStep(s0, s, a, key, data);
      ImmutableTransitive(s0, s, s1);
      PutContinues(s0, s1, p, key, data, actions[1..]);
    }
  }

  lemma PutEnds(s0: State, s: State, pc: Pc, key: string, data: string)
    requires Immutable(s0, s) && PutPoint(s0, s, pc, key, data) && pc.Done?
    ensures s.names.Keys == s0.names.Keys + {key} && (pc.reply == Nil <==> Holds(s, key, data))
  {
  }

  lemma RunThen(s: State, a: Action, rest: seq<Action>)
    requires Step(s, a).Some?
    ensures Run(s, [a] + rest) == Run(Step(s, a).value, rest)
  {
    assert ([a] + rest)[1..] == rest;
  }

  /**
   A Put that nobody disturbs and no call fails, with writes and reads of any size, stops only when
   it is done, after a bounded number of steps. It is then a success with its data stored iff the
   key was free or held that data, and otherwise a conflict.
   */
  lemma PutAlone(s: State, p: Process, key: string, data: string, actions: seq<Action>)
    requires Inv(s) && !Busy(PcOf(s, p)) && Alone(p, actions) && Run(s, [StartPut(p, key, data)] + actions).Some?
    ensures var s' := Run(s, [StartPut(p, key, data)] + actions).value;
            && |actions| <= (if key in s.names then Size(s, key) + 2 else |data| + 4)
            && (PcOf(s', p).Done? || forall n: nat | n > 0 :: Step(s', Next(s', p, n)).Some?)
            && (PcOf(s', p).Done? ==>
                  && PcOf(s', p).reply == PutReply(s, key, data) && s'.names.Keys == s.names.Keys + {key}
                  && (PcOf(s', p).reply == Nil <==> Holds(s', key, data)))
            && Inv(s') && Immutable(s, s')
  {
    RunThen(s, StartPut(p, key, data), actions);
    var s1 := Start(s, p, key, data);
    StartKeeps(s, p, key, data);
    PutContinues(s, s1, p, key, data, actions);
    RunKeeps(s1, actions);
    var s' := Run(s1, actions).value;
    ImmutableTransitive(s, s1, s');
    if PcOf(s', p).Done? { PutEnds(s, s', PcOf(s', p), key, data); } else { NeverStuck(s', p); }
  }

  /** Where an undisturbed Get can be. */
  predicate GetPoint(s0: State, s: State, pc: Pc, key: string)
    requires Inv(s0)
  {
    && s.names == s0.names && s.files == s0.files
    && (pc == GetOpen(key) || (pc.GetRead? && pc.key == key) || pc == Done(GetReply(s0, key)))
  }

  lemma GetPointStep(s0: State, s: State, a: Action, key: string)
    requires Inv(s0) && Inv(s) && GetPoint(s0, s, PcOf(s, a.p), key) && Step(s, a).Some? && Alone(a.p, [a])
    ensures GetPoint(s0, Step(s, a).value, PcOf(Step(s, a).value, a.p), key)
  {
    assert a in [a];
    var pc := s.pcs[a.p];
    assert PcInv(s, a.p, pc);
    if pc.GetRead? && |pc.got| >= |s.files[pc.ino]| { assert pc.got == s.files[pc.ino]; }
  }

  lemma {:induction false} GetContinues(s0: State, s: State, p: Process, key: string, actions: seq<Action>)
    requires Inv(s0) && Inv(s) && GetPoint(s0, s, PcOf(s, p), key) && Alone(p, actions) && Run(s, actions).Some?
    ensures var s' := Run(s, actions).value;
            && GetPoint(s0, s', PcOf(s', p), key) && |actions| + Left(s', PcOf(s', p)) <= Left(s, PcOf(s, p))
    decreases |actions|
  {
    if actions != [] {
      var a := actions[0];
      assert a in actions && Alone(p, [a]) && Alone(p, actions[1..]);
      StepKeeps(s, a);
      StepNearer(s, a);
      GetPointStep(s0, s, a, key);
      GetContinues(s0, Step(s, a).value, p, key, actions[1..]);
    }
  }

  /** Such a Get changes nothing, and is done when it has the whole object, or when there is none. */
  lemma GetAlone(s: State, p: Process, key: string, actions: seq<Action>)
    requires Inv(s) && !Busy(PcOf(s, p)) && Alone(p, actions) && Run(s, [StartGet(p, key)] + actions).Some?
    ensures var s' := Run(s, [StartGet(p, key)] + actions).value;
            && |actions| <= Size(s, key) + 2 && s'.names == s.names && s'.files == s.files
            && (PcOf(s', p).Done? || forall n: nat | n > 0 :: Step(s', Next(s', p, n)).Some?)
            && (PcOf(s', p).Done? ==> PcOf(s', p).reply == GetReply(s, key))
  {
    RunThen(s, StartGet(p, key), actions);
    var s1 := Goto(s, p, GetOpen(key));
    StepKeeps(s, StartGet(p, key));
    GetContinues(s, s1, p, key, actions);
    RunKeeps(s1, actions);
    var s' := Run(s1, actions).value;
    if !PcOf(s', p).Done? { NeverStuck(s', p); }
  }
}
