/**
 The batch write protocol (internal/grpcapi/server.go, `WriteBatch`). Authentication, the
 conversion of an envelope and the answer of `Service.Ingest` are parameters: conversion is
 any function of the item, and the service answers its k-th call in any way that may depend
 on k and the event. Rejection codes are carried, not interpreted.
 */
module WriteBatch {
  import opened Bytes

  datatype Envelope = Envelope(eventID: string, content: string)

  /** `domain.EventReceipt`, as far as the protocol looks at it. */
  datatype Receipt = Receipt(eventID: string, status: string, conflict: bool, rest: string)

  datatype Converted<E> = Event(event: E) | Malformed(code: string)

  /** A receipt, and the code of the error that came with it. */
  datatype Answer = Answer(receipt: Receipt, error: Option<string>)

  datatype Status = Committed(receipt: Receipt) | Rejected(code: string) | NotAttempted

  datatype Outcome = Outcome(inputIndex: nat, eventID: string, status: Status)

  datatype Response = Response(outcomes: seq<Outcome>, receipts: seq<Receipt>)

  datatype Reply = Answered(response: Response) | Unauthenticated | InvalidArgument

  const MAX_BATCH_EVENTS: nat := 500

  /** `hasDurableReceipt` */
  predicate HasDurableReceipt(r: Receipt) { r.eventID != "" && r.status != "" && !r.conflict }

  /** `batchEventID` */
  function BatchEventID(item: Option<Envelope>): string { if item.None? then "" else item.value.eventID }

  class Service<E> {
    var calls: seq<E>
    const answers: (nat, E) -> Answer

    constructor (answers: (nat, E) -> Answer)
      ensures calls == [] && this.answers == answers
    {
      this.answers := answers;
      calls := [];
    }

    method Ingest(event: E) returns (a: Answer)
      modifies this
      ensures calls == old(calls) + [event]
      ensures a == answers(|old(calls)|, event)
    {
      a := answers(|calls|, event);
      calls := calls + [event];
    }
  }

  // ---------------------------------------------------------------- specification

  /** What becomes of an attempted item, and whether the batch goes on after it. */
  datatype Verdict = Verdict(status: Status, goesOn: bool)

  function Judge<E>(c: Converted<E>, call: nat, answers: (nat, E) -> Answer): Verdict {
    if c.Malformed? then Verdict(Rejected(c.code), false)
    else
      var answer := answers(call, c.event);
      if answer.error.None? then Verdict(Committed(answer.receipt), true)
      else if HasDurableReceipt(answer.receipt) then Verdict(Committed(answer.receipt), false)
      else Verdict(Rejected(answer.error.value), false)
  }

  /** A batch and everything its collaborators would say about it. */
  datatype Batch<!E> = Batch(items: seq<Option<Envelope>>, convert: Option<Envelope> -> Converted<E>, first: nat,
                             answers: (nat, E) -> Answer)
  {
    function At(i: nat): Verdict
      requires i < |items|
    {
      Judge(convert(items[i]), first + i, answers)
    }

    /** The first index from `i` on after which the batch does not go on. */
    function Stop(i: nat): (s: nat)
      requires i <= |items|
      ensures i <= s <= |items|
      ensures forall k | i <= k < s :: At(k).goesOn
      ensures s < |items| ==> !At(s).goesOn
      decreases |items| - i
    {
      if i == |items| || !At(i).goesOn then i else Stop(i + 1)
    }

    function StatusAt(i: nat): Status
      requires i < |items|
    {
      if i <= Stop(0) then At(i).status else NotAttempted
    }

    /**
     One outcome for each input so far, at its own index and under its own id, and the receipts
     of those committed.
     */
    predicate Reports(r: Response) {
      && |r.outcomes| <= |items|
      && (forall i | 0 <= i < |r.outcomes| :: r.outcomes[i] == Outcome(i, BatchEventID(items[i]), StatusAt(i)))
      && r.receipts == CommittedReceipts(r.outcomes)
    }

    /** The events among the first `n` items, in order. */
    function Events(n: nat): seq<E>
      requires n <= |items|
    {
      if n == 0 then []
      else Events(n - 1) + (if convert(items[n - 1]).Event? then [convert(items[n - 1]).event] else [])
    }

    /** How many items are looked at. */
    function Attempted(): nat { if Stop(0) < |items| then Stop(0) + 1 else |items| }
  }

  /** The receipts of the committed outcomes, in order. */
  function CommittedReceipts(outcomes: seq<Outcome>): seq<Receipt> {
    if outcomes == [] then []
    else
      var last := outcomes[|outcomes| - 1].status;
      CommittedReceipts(outcomes[..|outcomes| - 1]) + (if last.Committed? then [last.receipt] else [])
  }

  lemma ReceiptsAppend(outcomes: seq<Outcome>, o: Outcome)
    ensures CommittedReceipts(outcomes + [o])
         == CommittedReceipts(outcomes) + (if o.status.Committed? then [o.status.receipt] else [])
  {
    assert (outcomes + [o])[..|outcomes|] == outcomes;
  }

  /** Nothing after the stop is ingested, and all before it is: one call for each item that went on. */
  lemma {:induction false} CallsOfBatch<E>(b: Batch<E>, n: nat)
    requires n <= b.Stop(0)
    ensures |b.Events(n)| == n && forall i | 0 <= i < n :: b.convert(b.items[i]) == Event(b.Events(n)[i])
  {
    if n > 0 {
      CallsOfBatch(b, n - 1);
      assert b.At(n - 1).goesOn;
    }
  }

  lemma EventsGrow<E>(b: Batch<E>, n: nat, before: seq<E>)
    requires n < |b.items|
    ensures var c := b.convert(b.items[n]);
            before + b.Events(n + 1) == (before + b.Events(n)) + (if c.Event? then [c.event] else [])
  {
  }

  // ---------------------------------------------------------------- the method

  /** `appendUnattemptedOutcomes` */
  method AppendUnattempted(outcomes: seq<Outcome>, items: seq<Option<Envelope>>, start: nat) returns (r: seq<Outcome>)
    requires start <= |items|
    ensures |r| == |outcomes| + |items| - start && r[..|outcomes|] == outcomes
    ensures forall i | start <= i < |items| ::
        r[|outcomes| + i - start] == Outcome(i, BatchEventID(items[i]), NotAttempted)
    ensures CommittedReceipts(r) == CommittedReceipts(outcomes)
  {
    r := outcomes;
    for index := start to |items|
      invariant |r| == |outcomes| + index - start && r[..|outcomes|] == outcomes
      invariant forall i | start <= i < index ::
          r[|outcomes| + i - start] == Outcome(i, BatchEventID(items[i]), NotAttempted)
      invariant CommittedReceipts(r) == CommittedReceipts(outcomes)
    {
      ReceiptsAppend(r, Outcome(index, BatchEventID(items[index]), NotAttempted));
      r := r + [Outcome(index, BatchEventID(items[index]), NotAttempted)];
    }
  }

  /** One turn of the loop: convert and ingest. */
  method Attempt<E>(item: Option<Envelope>, convert: Option<Envelope> -> Converted<E>, svc: Service<E>)
    returns (v: Verdict)
    modifies svc
    ensures v == Judge(convert(item), |old(svc.calls)|, svc.answers)
    ensures svc.calls == old(svc.calls) + (if convert(item).Event? then [convert(item).event] else [])
  {
    var converted := convert(item);
    if converted.Malformed? { return Verdict(Rejected(converted.code), false); }
    var answer := svc.Ingest(converted.event);
    if answer.error.Some? {
      if HasDurableReceipt(answer.receipt) { return Verdict(Committed(answer.receipt), false); }
      return Verdict(Rejected(answer.error.value), false);
    }
    return Verdict(Committed(answer.receipt), true);
  }

  /** `appendCommittedOutcome` and `appendRejectedOutcome` */
  method AppendOutcome<E>(ghost b: Batch<E>, response: Response, outcome: Outcome) returns (r: Response)
    requires var n := |response.outcomes|;
             && b.Reports(response) && n < |b.items|
             && outcome == Outcome(n, BatchEventID(b.items[n]), b.StatusAt(n))
    ensures b.Reports(r) && |r.outcomes| == |response.outcomes| + 1
  {
    ReceiptsAppend(response.outcomes, outcome);
    r := response.(outcomes := response.outcomes + [outcome]);
    if outcome.status.Committed? { r := r.(receipts := r.receipts + [outcome.status.receipt]); }
  }

  /** The batch stops: everything after `index` is reported as not attempted. */
  method Abandon<E>(ghost b: Batch<E>, items: seq<Option<Envelope>>, index: nat, response: Response)
    returns (r: Response)
    requires items == b.items && index < |items| && b.Stop(0) == index
    requires |response.outcomes| == index + 1 && b.Reports(response)
    ensures |r.outcomes| == |items| && b.Reports(r)
  {
    var outcomes := AppendUnattempted(response.outcomes, items, index + 1);
    assert forall i | 0 <= i <= index :: outcomes[i] == outcomes[..index + 1][i];
    r := response.(outcomes := outcomes);
  }

  method Process<E>(ghost b: Batch<E>, items: seq<Option<Envelope>>, convert: Option<Envelope> -> Converted<E>,
      svc: Service<E>)
    returns (r: Response)
    requires items == b.items && convert == b.convert && svc.answers == b.answers && b.first == |svc.calls|
    modifies svc
    ensures |r.outcomes| == |items| && b.Reports(r)
    ensures svc.calls == old(svc.calls) + b.Events(b.Attempted())
  {
    r := Response([], []);
    var index := 0;
    assert svc.calls == old(svc.calls) + b.Events(0);
    while index < |items|
      invariant 0 <= index <= b.Stop(0)
      invariant |r.outcomes| == index && b.Reports(r)
      invariant svc.calls == old(svc.calls) + b.Events(index)
    {
      CallsOfBatch(b, index);
      var v := Attempt(items[index], convert, svc);
      assert v == b.At(index);
      r := AppendOutcome(b, r, Outcome(index, BatchEventID(items[index]), v.status));
      EventsGrow(b, index, old(svc.calls));
      if !v.goesOn {
        r := Abandon(b, items, index, r);
        return;
      }
      index := index + 1;
    }
  }

  /** `WriteBatch` */
  method WriteBatch<E>(authenticated: bool, items: seq<Option<Envelope>>, convert: Option<Envelope> -> Converted<E>,
      svc: Service<E>)
    returns (reply: Reply)
    modifies svc
    ensures !authenticated ==> reply == Unauthenticated
    ensures authenticated && !(0 < |items| <= MAX_BATCH_EVENTS) ==> reply == InvalidArgument
    ensures !reply.Answered? ==> svc.calls == old(svc.calls)
    ensures authenticated && 0 < |items| <= MAX_BATCH_EVENTS ==>
              var b := Batch(items, convert, |old(svc.calls)|, svc.answers);
              && reply.Answered? && |reply.response.outcomes| == |items| && b.Reports(reply.response)
              && svc.calls == old(svc.calls) + b.Events(b.Attempted())
  {
    if !authenticated { return Unauthenticated; }
    if items == [] { return InvalidArgument; }
    if |items| > MAX_BATCH_EVENTS { return InvalidArgument; }
    var response := Process(Batch(items, convert, |svc.calls|, svc.answers), items, convert, svc);
    return Answered(response);
  }

  // ---------------------------------------------------------------- the shape of the reply

  /** Committed outcomes, then at most one rejected, then only unattempted ones. */
  predicate Shaped(outcomes: seq<Outcome>, committed: nat) {
    && committed <= |outcomes|
    && (forall i | 0 <= i < committed :: outcomes[i].status.Committed?)
    && (committed < |outcomes| ==> !outcomes[committed].status.Committed?)
    && (forall i | committed < i < |outcomes| :: outcomes[i].status.NotAttempted?)
  }

  /** There are as many receipts as committed outcomes, and they are those outcomes' own. */
  lemma {:induction false} ReceiptsOfShape(outcomes: seq<Outcome>, committed: nat)
    requires Shaped(outcomes, committed)
    ensures |CommittedReceipts(outcomes)| == committed
    ensures forall i | 0 <= i < committed :: CommittedReceipts(outcomes)[i] == outcomes[i].status.receipt
  {
    if outcomes != [] {
      var n := |outcomes| - 1;
      ReceiptsOfShape(outcomes[..n], if committed == |outcomes| then n else committed);
    }
  }

  /** The whole reply: its shape, the receipts in order, and where the committed part ends. */
  lemma ReplyShape<E>(b: Batch<E>, r: Response)
    requires |r.outcomes| == |b.items| && b.Reports(r)
    ensures Shaped(r.outcomes, |r.receipts|) && (|r.receipts| == b.Stop(0) || |r.receipts| == b.Stop(0) + 1)
    ensures forall i | 0 <= i < |r.receipts| :: r.outcomes[i].status == Committed(r.receipts[i])
  {
    var s := b.Stop(0);
    var committed := if s < |b.items| && b.At(s).status.Committed? then s + 1 else s;
    assert forall i | 0 <= i < s :: b.At(i).status.Committed?;
    assert Shaped(r.outcomes, committed);
    ReceiptsOfShape(r.outcomes, committed);
  }

  /**
   The item at which the batch stops: an error leaves it committed iff the receipt that came with
   it names the event, has a status and reports no conflict, and then with that receipt. Without
   that, and for an item that is no event, it is rejected with its own code.
   */
  lemma StoppedItem<E>(b: Batch<E>, r: Response)
    requires |r.outcomes| == |b.items| && b.Reports(r) && b.Stop(0) < |b.items|
    ensures var s := b.Stop(0);
            match b.convert(b.items[s])
            case Malformed(code) => r.outcomes[s].status == Rejected(code)
            case Event(event) =>
              var a := b.answers(b.first + s, event);
              && a.error.Some?
              && r.outcomes[s].status ==
                 if a.receipt.eventID == "" || a.receipt.status == "" || a.receipt.conflict
                 then Rejected(a.error.value) else Committed(a.receipt)
  {
    assert !b.At(b.Stop(0)).goesOn;
  }

  /** What is reported for the first items depends on those items alone. */
  lemma PrefixDetermined<E>(b: Batch<E>, c: Batch<E>, n: nat)
    requires n <= |b.items| && n <= |c.items| && b.items[..n] == c.items[..n]
    requires b.convert == c.convert && b.first == c.first && b.answers == c.answers
    ensures forall i | 0 <= i < n :: b.StatusAt(i) == c.StatusAt(i)
  {
    assert forall i | 0 <= i < n :: b.items[i] == b.items[..n][i] == c.items[i];
    assert forall i | 0 <= i < n :: b.At(i) == c.At(i);
    SameStop(b, c, 0, n);
  }

  lemma {:induction false} SameStop<E>(b: Batch<E>, c: Batch<E>, i: nat, n: nat)
    requires i <= n <= |b.items| && n <= |c.items| && forall k | 0 <= k < n :: b.At(k) == c.At(k)
    ensures b.Stop(i) == c.Stop(i) || (b.Stop(i) >= n && c.Stop(i) >= n)
    decreases n - i
  {
    if i < n && b.At(i).goesOn { SameStop(b, c, i + 1, n); }
  }
}
