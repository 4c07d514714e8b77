/**
The queue of asynchronous requests of the DesignWare MMC host driver: requests are queued by
PassThru, and completed by timer ticks, removal of the card, reset, or driver stop.
*/
module MmcQueue {

  datatype Status =
    Success | NotReady | NoMedia | Timeout | Aborted | InvalidParameter | OutOfResources | DeviceError

  datatype Slot = Slot(enabled: bool, mediaPresent: bool)

  // A transfer request block. The packet's time limit is the caller's and does not change; the block
  // has its own copy, which is counted down. Limit 0 means to wait for ever.
  datatype Trb = Trb(slot: nat, limit: nat, timeout: nat, started: bool)

  datatype Request = Request(id: nat, trb: Trb)

  // An event signalled, with the transaction status its packet had at that moment.
  datatype Completion = Completion(id: nat, status: Status)

  // Requests are numbered in the order they are queued; next is the number of the next one.
  datatype State = State(slots: seq<Slot>, pending: seq<Request>, done: seq<Completion>, next: nat)

  // What the hardware answers during one tick.
  datatype Answers = Answers(ready: Status, executed: Status, result: Status)

  datatype Event =
    | Submit(slot: nat, limit: nat, created: bool)
    | Tick(answers: Answers)
    | RemoveCard
    | InsertCard
    | Reset(slot: nat)
    | Stop

  // ----- the queue as a state machine

  predicate MayQueue(s: State, slot: nat, created: bool) {
    slot < |s.slots| && s.slots[slot].enabled && s.slots[slot].mediaPresent && created
  }

  // The status one tick finds for a request, and whether the request is started by then.
  function Poll(t: Trb, media: bool, a: Answers): (Status, bool) {
    if !media then (NoMedia, t.started)
    else if t.started then (a.result, true)
    else if a.ready != Success then (a.ready, false)
    else if a.executed != Success then (a.executed, true)
    else (a.result, true)
  }

  // What a tick does to the first request: complete it, or leave it with a lower timeout.
  datatype Verdict = Complete(status: Status) | Keep(trb: Trb)

  function Judge(t: Trb, media: bool, a: Answers): Verdict {
    var (status, started) := Poll(t, media, a);
    if status != NotReady then Complete(status)
    else if t.limit == 0 then Keep(t.(started := started))
    else if t.timeout == 0 then Complete(Timeout)
    else Keep(t.(started := started, timeout := t.timeout - 1))
  }

  function All(requests: seq<Request>, status: Status): (d: seq<Completion>)
    ensures |d| == |requests|
  {
    seq(|requests|, k requires 0 <= k < |requests| => Completion(requests[k].id, status))
  }

  // The requests for the slot, or those for other slots, in order.
  function Chosen(requests: seq<Request>, slot: nat, ofSlot: bool): seq<Request> {
    if requests == [] then [] else
      var last := requests[|requests| - 1];
      Chosen(requests[..|requests| - 1], slot, ofSlot)
      + if (last.trb.slot == slot) == ofSlot then [last] else []
  }

  predicate WellFormed(s: State) {
    |s.slots| >= 1 && forall k :: 0 <= k < |s.pending| ==> s.pending[k].trb.slot < |s.slots|
  }

  function Step(s: State, e: Event): State
    requires WellFormed(s)
  {
    match e
    case Submit(slot, limit, created) =>
      if MayQueue(s, slot, created)
      then s.(pending := s.pending + [Request(s.next, Trb(slot, limit, limit, false))], next := s.next + 1)
      else s
    case Tick(a) =>
      if s.pending == [] then s else
        var head := s.pending[0];
        (match Judge(head.trb, s.slots[head.trb.slot].mediaPresent, a)
         case Complete(status) =>
           s.(pending := s.pending[1..], done := s.done + [Completion(head.id, status)])
         case Keep(trb) => s.(pending := [Request(head.id, trb)] + s.pending[1..]))
    case RemoveCard =>
      if s.slots[0].enabled && s.slots[0].mediaPresent
      then s.(slots := s.slots[0 := s.slots[0].(mediaPresent := false)],
              pending := Chosen(s.pending, 0, false),
              done := s.done + All(Chosen(s.pending, 0, true), NoMedia))
      else s
    case InsertCard =>
      if s.slots[0].enabled then s.(slots := s.slots[0 := s.slots[0].(mediaPresent := true)]) else s
    case Reset(slot) =>
      if MayQueue(s, slot, true) then s.(pending := [], done := s.done + All(s.pending, Aborted)) else s
    case Stop => s.(pending := [], done := s.done + All(s.pending, Aborted))
  }

  // ----- what every step keeps

  function Ids(requests: seq<Request>): (ids: seq<nat>)
    ensures |ids| == |requests|
  {
    seq(|requests|, k requires 0 <= k < |requests| => requests[k].id)
  }

  function DoneIds(done: seq<Completion>): (ids: seq<nat>)
    ensures |ids| == |done|
  {
    seq(|done|, k requires 0 <= k < |done| => done[k].id)
  }

  // Where each request is: pending, completed, or both counts together.
  function Places(s: State): multiset<nat> {
    multiset(Ids(s.pending)) + multiset(DoneIds(s.done))
  }

  // Every request that was ever queued is in one place, once; nothing else is anywhere.
  ghost predicate EachOnce(s: State) {
    forall id: nat :: Places(s)[id] == if id < s.next then 1 else 0
  }

  ghost predicate OnlyHeadStarted(s: State) {
    forall k :: 1 <= k < |s.pending| ==> !s.pending[k].trb.started
  }

  // The pending requests are in the order in which they were queued.
  ghost predicate InOrder(s: State) {
    forall j, k :: 0 <= j < k < |s.pending| ==> s.pending[j].id < s.pending[k].id
  }

  ghost predicate TimeoutsWithinLimit(s: State) {
    forall k :: 0 <= k < |s.pending| ==> s.pending[k].trb.timeout <= s.pending[k].trb.limit
  }

  ghost predicate Inv(s: State) {
    WellFormed(s) && EachOnce(s) && OnlyHeadStarted(s) && InOrder(s) && TimeoutsWithinLimit(s)
  }

  lemma IdsConcat(a: seq<Request>, b: seq<Request>)
    ensures Ids(a + b) == Ids(a) + Ids(b)
  {
  }

  lemma DoneIdsConcat(a: seq<Completion>, b: seq<Completion>)
    ensures DoneIds(a + b) == DoneIds(a) + DoneIds(b)
  {
  }

  lemma DoneIdsOfAll(r: seq<Request>, status: Status)
    ensures DoneIds(All(r, status)) == Ids(r)
  {
  }

  lemma {:induction false} SplitBySlot(r: seq<Request>, slot: nat)
    ensures multiset(Ids(r)) == multiset(Ids(Chosen(r, slot, false))) + multiset(Ids(Chosen(r, slot, true)))
  {
    if r != [] {
      var most, last := r[..|r| - 1], r[|r| - 1];
      SplitBySlot(most, slot);
      assert r == most + [last];
      IdsConcat(most, [last]);
      IdsConcat(Chosen(most, slot, true), [last]);
      IdsConcat(Chosen(most, slot, false), [last]);
      assert Chosen(most, slot, false) + [] == Chosen(most, slot, false);
      assert Chosen(most, slot, true) + [] == Chosen(most, slot, true);
    }
  }

  // The requests that stay are a subsequence: idx tells where each one was.
  lemma {:induction false} ChosenIndexed(r: seq<Request>, slot: nat, ofSlot: bool) returns (idx: seq<nat>)
    ensures |idx| == |Chosen(r, slot, ofSlot)|
    ensures forall k :: 0 <= k < |idx| ==> idx[k] < |r| && Chosen(r, slot, ofSlot)[k] == r[idx[k]]
    ensures forall j, k :: 0 <= j < k < |idx| ==> idx[j] < idx[k]
  {
    idx := [];
    if r != [] {
      idx := ChosenIndexed(r[..|r| - 1], slot, ofSlot);
      if (r[|r| - 1].trb.slot == slot) == ofSlot {
        idx := idx + [|r| - 1];
      }
    }
  }

  function Added(s: State, e: Event): multiset<nat> {
    if e.Submit? && MayQueue(s, e.slot, e.created) then multiset{s.next} else multiset{}
  }

  // What a completion of all the requests in r does to the places.
  lemma MovedToDone(s: State, rest: seq<Request>, r: seq<Request>, status: Status)
    requires multiset(Ids(s.pending)) == multiset(Ids(rest)) + multiset(Ids(r))
    ensures Places(s.(pending := rest, done := s.done + All(r, status))) == Places(s)
  {
    DoneIdsOfAll(r, status);
    DoneIdsConcat(s.done, All(r, status));
  }

  lemma TickKeepsPlaces(s: State, a: Answers)
    requires WellFormed(s) && s.pending != []
    ensures Places(Step(s, Tick(a))) == Places(s)
  {
    var head, rest := s.pending[0], s.pending[1..];
    assert s.pending == [head] + rest;
    IdsConcat([head], rest);
    match Judge(head.trb, s.slots[head.trb.slot].mediaPresent, a)
    case Complete(status) =>
      assert All([head], status) == [Completion(head.id, status)];
      MovedToDone(s, rest, [head], status);
    case Keep(trb) =>
      IdsConcat([Request(head.id, trb)], rest);
      assert Ids([Request(head.id, trb)]) == Ids([head]);
  }

  // No step loses a request or makes one up.
  lemma PlacesKept(s: State, e: Event)
    requires WellFormed(s)
    ensures Places(Step(s, e)) == Places(s) + Added(s, e)
  {
    match e
    case Submit(slot, limit, created) =>
      IdsConcat(s.pending, [Request(s.next, Trb(slot, limit, limit, false))]);
    case Tick(a) =>
      if s.pending != [] {
        TickKeepsPlaces(s, a);
      }
    case RemoveCard =>
      SplitBySlot(s.pending, 0);
      MovedToDone(s, Chosen(s.pending, 0, false), Chosen(s.pending, 0, true), NoMedia);
    case InsertCard =>
    case Reset(_) => MovedToDone(s, [], s.pending, Aborted);
    case Stop => MovedToDone(s, [], s.pending, Aborted);
  }

  lemma PendingBelowNext(s: State, k: nat)
    requires EachOnce(s) && k < |s.pending|
    ensures s.pending[k].id < s.next
  {
    assert Ids(s.pending)[k] in multiset(Ids(s.pending));
    assert Places(s)[s.pending[k].id] > 0;
  }

  // What the list of pending requests alone satisfies.
  ghost predicate Queued(pending: seq<Request>, slots: nat) {
    && (forall k :: 0 <= k < |pending| ==> pending[k].trb.slot < slots && pending[k].trb.timeout <= pending[k].trb.limit)
    && (forall k :: 1 <= k < |pending| ==> !pending[k].trb.started)
    && (forall j, k :: 0 <= j < k < |pending| ==> pending[j].id < pending[k].id)
  }

  lemma QueuedSubsequence(pending: seq<Request>, part: seq<Request>, idx: seq<nat>, slots: nat)
    requires Queued(pending, slots) && |idx| == |part|
    requires forall k :: 0 <= k < |idx| ==> idx[k] < |pending| && part[k] == pending[idx[k]]
    requires forall j, k :: 0 <= j < k < |idx| ==> idx[j] < idx[k]
    ensures Queued(part, slots)
  {
    forall k | 1 <= k < |part|
      ensures !part[k].trb.started
    {
      assert idx[0] < idx[k];
    }
  }

  lemma TickKeepsQueue(s: State, a: Answers)
    requires WellFormed(s) && Queued(s.pending, |s.slots|)
    ensures |Step(s, Tick(a)).slots| == |s.slots| && Queued(Step(s, Tick(a)).pending, |s.slots|)
  {
    if s.pending != [] {
      assert s.pending == [s.pending[0]] + s.pending[1..];
    }
  }

  lemma RemovalKeepsQueue(s: State)
    requires WellFormed(s) && Queued(s.pending, |s.slots|)
    ensures |Step(s, RemoveCard).slots| == |s.slots| && Queued(Step(s, RemoveCard).pending, |s.slots|)
  {
    hide Queued, Chosen;
    var idx := ChosenIndexed(s.pending, 0, false);
    QueuedSubsequence(s.pending, Chosen(s.pending, 0, false), idx, |s.slots|);
  }

  lemma SubmitKeepsQueue(s: State, slot: nat, limit: nat, created: bool)
    requires Inv(s)
    ensures |Step(s, Submit(slot, limit, created)).slots| == |s.slots|
    ensures Queued(Step(s, Submit(slot, limit, created)).pending, |s.slots|)
  {
    forall k | 0 <= k < |s.pending|
      ensures s.pending[k].id < s.next
    {
      PendingBelowNext(s, k);
    }
  }

  lemma StepKeepsQueue(s: State, e: Event)
    requires Inv(s)
    ensures |Step(s, e).slots| == |s.slots| && Queued(Step(s, e).pending, |s.slots|)
  {
    assert Queued(s.pending, |s.slots|);
    match e
    case Submit(slot, limit, created) => SubmitKeepsQueue(s, slot, limit, created);
    case Tick(a) => TickKeepsQueue(s, a);
    case RemoveCard => RemovalKeepsQueue(s);
    case _ =>
  }

  lemma StepKeepsEachOnce(s: State, e: Event)
    requires WellFormed(s) && EachOnce(s)
    ensures EachOnce(Step(s, e))
  {
    PlacesKept(s, e);
    hide Places, Chosen, All;
  }

  lemma StepKeepsInv(s: State, e: Event)
    requires Inv(s)
    ensures Inv(Step(s, e))
  {
    StepKeepsQueue(s, e);
    StepKeepsEachOnce(s, e);
    hide Step, EachOnce;
  }

  function Run(s: State, events: seq<Event>): (r: State)
    requires WellFormed(s)
    decreases |events|
  {
    if events == [] then s else
      var before := Run(s, events[..|events| - 1]);
      if WellFormed(before) then Step(before, events[|events| - 1]) else before
  }

  /** Over any run of submissions, ticks, card changes, resets and stops: each request queued is
      pending once or completed once, only the head has been started, and the order is kept. */
  lemma {:induction false} RunKeepsInv(s: State, events: seq<Event>)
    requires Inv(s)
    ensures Inv(Run(s, events))
    decreases |events|
  {
    if events != [] {
      RunKeepsInv(s, events[..|events| - 1]);
      StepKeepsInv(Run(s, events[..|events| - 1]), events[|events| - 1]);
    }
  }

  // ----- the order of completions

  // The requests that a tick completes.
  function TickedNow(s: State, e: Event): seq<nat>
    requires WellFormed(s)
  {
    if e.Tick? && s.pending != []
       && Judge(s.pending[0].trb, s.slots[s.pending[0].trb.slot].mediaPresent, e.answers).Complete?
    then [s.pending[0].id] else []
  }

  // The requests that ticks complete during a run, in the order of their completion.
  function Ticked(s: State, events: seq<Event>): seq<nat>
    requires WellFormed(s)
    decreases |events|
  {
    if events == [] then [] else
      var before := Run(s, events[..|events| - 1]);
      Ticked(s, events[..|events| - 1]) + if WellFormed(before) then TickedNow(before, events[|events| - 1]) else []
  }

  lemma TickedIsDone(s: State, a: Answers)
    requires WellFormed(s)
    ensures DoneIds(Step(s, Tick(a)).done) == DoneIds(s.done) + TickedNow(s, Tick(a))
  {
    if s.pending != [] {
      match Judge(s.pending[0].trb, s.slots[s.pending[0].trb.slot].mediaPresent, a)
      case Complete(status) => DoneIdsConcat(s.done, [Completion(s.pending[0].id, status)]);
      case Keep(_) =>
    }
  }

  ghost predicate Increasing(ids: seq<nat>) {
    forall j, k :: 0 <= j < k < |ids| ==> ids[j] < ids[k]
  }

  // All these requests were queued before those that are pending.
  ghost predicate Earlier(ids: seq<nat>, s: State) {
    && (forall k :: 0 <= k < |ids| ==> ids[k] < s.next)
    && (forall j, k :: 0 <= j < |ids| && 0 <= k < |s.pending| ==> ids[j] < s.pending[k].id)
  }

  lemma EarlierSubsequence(ids: seq<nat>, s: State, t: State, idx: seq<nat>)
    requires Earlier(ids, s) && s.next <= t.next && |idx| == |t.pending|
    requires forall k :: 0 <= k < |idx| ==> idx[k] < |s.pending| && t.pending[k].id == s.pending[idx[k]].id
    ensures Earlier(ids, t)
  {
  }

  // Whatever happens, the requests ticked so far stay earlier than those that are pending.
  lemma StepKeepsEarlier(s: State, e: Event, ids: seq<nat>)
    requires Inv(s) && Earlier(ids, s) && Increasing(ids)
    ensures Earlier(ids + TickedNow(s, e), Step(s, e)) && Increasing(ids + TickedNow(s, e))
  {
    match e
    case Submit(_, _, _) =>
    case Tick(_) =>
      if s.pending != [] {
        PendingBelowNext(s, 0);
      }
    case RemoveCard =>
      var idx := ChosenIndexed(s.pending, 0, false);
      if s.slots[0].enabled && s.slots[0].mediaPresent {
        EarlierSubsequence(ids, s, Step(s, e), idx);
      }
    case _ =>
  }

  /** Over any run, card changes, resets and stops included, ticks complete requests in the order in
      which they were queued, and before any that is still pending. */
  lemma {:induction false} TicksAreFifo(s: State, events: seq<Event>)
    requires Inv(s)
    ensures Increasing(Ticked(s, events)) && Earlier(Ticked(s, events), Run(s, events))
    decreases |events|
  {
    if events != [] {
      TicksAreFifo(s, events[..|events| - 1]);
      RunKeepsInv(s, events[..|events| - 1]);
      StepKeepsEarlier(Run(s, events[..|events| - 1]), events[|events| - 1], Ticked(s, events[..|events| - 1]));
    }
  }

  // The numbers of all requests, completed ones first.
  function History(s: State): seq<nat> {
    DoneIds(s.done) + Ids(s.pending)
  }

  /** As long as requests are only queued and ticked, no number is missing either: they complete in
      exactly the order they were queued. */
  lemma {:induction false} HistoryIsComplete(s: State, events: seq<Event>)
    requires Inv(s) && History(s) == seq(s.next, k => k)
    requires forall k :: 0 <= k < |events| ==> events[k].Submit? || events[k].Tick?
    ensures History(Run(s, events)) == seq(Run(s, events).next, k => k)
    decreases |events|
  {
    if events != [] {
      var most, last := events[..|events| - 1], events[|events| - 1];
      HistoryIsComplete(s, most);
      RunKeepsInv(s, most);
      StepKeepsHistory(Run(s, most), last);
    }
  }

  lemma StepKeepsHistory(s: State, e: Event)
    requires WellFormed(s) && (e.Submit? || e.Tick?)
    ensures History(Step(s, e)) ==
      History(s) + if e.Submit? && MayQueue(s, e.slot, e.created) then [s.next] else []
  {
    match e
    case Submit(slot, limit, created) =>
      IdsConcat(s.pending, [Request(s.next, Trb(slot, limit, limit, false))]);
    case Tick(a) =>
      if s.pending != [] {
        var head, rest := s.pending[0], s.pending[1..];
        assert s.pending == [head] + rest;
        IdsConcat([head], rest);
        match Judge(head.trb, s.slots[head.trb.slot].mediaPresent, a)
        case Complete(status) => DoneIdsConcat(s.done, [Completion(head.id, status)]);
        case Keep(trb) => IdsConcat([Request(head.id, trb)], rest);
      }
  }

  // A completion is never taken back or changed.
  lemma {:induction false} DoneOnlyGrows(s: State, events: seq<Event>, k: nat)
    requires Inv(s) && k <= |events|
    ensures Run(s, events[..k]).done <= Run(s, events).done
    decreases |events|
  {
    if k == |events| {
      assert events[..k] == events;
    } else {
      var most := events[..|events| - 1];
      assert most[..k] == events[..k];
      DoneOnlyGrows(s, most, k);
      RunKeepsInv(s, most);
      StepGrowsDone(Run(s, most), events[|events| - 1]);
    }
  }

  lemma StepGrowsDone(s: State, e: Event)
    requires WellFormed(s)
    ensures s.done <= Step(s, e).done
  {
  }

  // ----- progress

  // How many ticks the requests can wait for, all together.
  function Budget(pending: seq<Request>): nat {
    if pending == [] then 0 else pending[0].trb.timeout + 1 + Budget(pending[1..])
  }

  ghost predicate AllFinite(s: State) {
    forall k :: 0 <= k < |s.pending| ==> s.pending[k].trb.limit != 0
  }

  // How many of the events are ticks.
  function TickCount(events: seq<Event>): nat
    decreases |events|
  {
    if events == [] then 0 else TickCount(events[..|events| - 1]) + if events[|events| - 1].Tick? then 1 else 0
  }

  lemma {:induction false} BudgetConcat(a: seq<Request>, b: seq<Request>)
    ensures Budget(a + b) == Budget(a) + Budget(b)
  {
    if a == [] {
      assert a + b == b;
    } else {
      assert (a + b)[1..] == a[1..] + b;
      BudgetConcat(a[1..], b);
    }
  }

  lemma {:induction false} BudgetOfChosen(r: seq<Request>, slot: nat, ofSlot: bool)
    ensures Budget(Chosen(r, slot, ofSlot)) <= Budget(r)
  {
    if r != [] {
      var most, last := r[..|r| - 1], r[|r| - 1];
      BudgetOfChosen(most, slot, ofSlot);
      assert r == most + [last];
      BudgetConcat(most, [last]);
      BudgetConcat(Chosen(most, slot, ofSlot), [last]);
      assert Chosen(most, slot, ofSlot) + [] == Chosen(most, slot, ofSlot);
    }
  }

  // No event but a submission lets the queue wait for longer, and a tick shortens the wait.
  lemma StepSpendsBudget(s: State, e: Event)
    requires Inv(s) && AllFinite(s) && !e.Submit?
    ensures AllFinite(Step(s, e)) && Budget(Step(s, e).pending) <= Budget(s.pending)
    ensures e.Tick? && s.pending != [] ==> Budget(Step(s, e).pending) < Budget(s.pending)
  {
    match e
    case RemoveCard =>
      var idx := ChosenIndexed(s.pending, 0, false);
      BudgetOfChosen(s.pending, 0, false);
    case _ =>
  }

  lemma {:induction false} RunSpendsBudget(s: State, events: seq<Event>)
    requires Inv(s) && AllFinite(s) && forall k :: 0 <= k < |events| ==> !events[k].Submit?
    ensures Inv(Run(s, events)) && AllFinite(Run(s, events))
    ensures Run(s, events).pending == [] || Budget(Run(s, events).pending) + TickCount(events) <= Budget(s.pending)
    decreases |events|
  {
    if events != [] {
      var most, last := events[..|events| - 1], events[|events| - 1];
      RunSpendsBudget(s, most);
      StepKeepsInv(Run(s, most), last);
      StepSpendsBudget(Run(s, most), last);
      NothingComesBack(Run(s, most), last);
    }
  }

  lemma NothingComesBack(s: State, e: Event)
    requires WellFormed(s) && !e.Submit?
    ensures s.pending == [] ==> Step(s, e).pending == []
  {
  }

  /** Whatever the hardware answers and whatever happens between the ticks, as long as nothing new is
      queued: a queue of requests with finite time limits is empty after as many ticks as the timeouts
      add up to, one more for each request. */
  lemma QueueDrains(s: State, events: seq<Event>)
    requires Inv(s) && AllFinite(s) && forall k :: 0 <= k < |events| ==> !events[k].Submit?
    requires TickCount(events) >= Budget(s.pending)
    ensures Run(s, events).pending == []
  {
    RunSpendsBudget(s, events);
    BudgetIsPositive(Run(s, events).pending);
  }

  lemma BudgetIsPositive(pending: seq<Request>)
    ensures pending != [] ==> Budget(pending) > 0
  {
  }

  const BUSY := Tick(Answers(NotReady, NotReady, NotReady))

  // The limit must be finite: a request with limit 0 stays as long as the hardware is not ready.
  lemma {:induction false} UnlimitedRequestWaits(s: State, n: nat)
    requires WellFormed(s) && s.pending != [] && s.pending[0].trb.limit == 0
    requires s.slots[s.pending[0].trb.slot].mediaPresent
    ensures Run(s, seq(n, _ => BUSY)) == s
    decreases n
  {
    if n > 0 {
      var events := seq(n, _ => BUSY);
      assert events[..n - 1] == seq(n - 1, _ => BUSY);
      UnlimitedRequestWaits(s, n - 1);
      assert [s.pending[0]] + s.pending[1..] == s.pending;
      assert Step(s, BUSY) == s;
    }
  }

  // ----- the driver

  // The queued numbers are different, have packets and blocks, and nothing else has a block.
  ghost predicate Listed(queue: seq<nat>, pool: map<nat, Trb>, packets: set<nat>, next: nat, slots: nat) {
    && (forall k :: 0 <= k < |queue| ==> queue[k] in pool && queue[k] in packets && queue[k] < next)
    && (forall k :: 0 <= k < |queue| ==> pool[queue[k]].slot < slots)
    && (forall j, k :: 0 <= j < k < |queue| ==> queue[j] != queue[k])
    && (forall id :: id in pool ==> id in queue)
  }

  ghost function Gather(queue: seq<nat>, pool: map<nat, Trb>): (r: seq<Request>)
    requires forall k :: 0 <= k < |queue| ==> queue[k] in pool
    ensures |r| == |queue|
  {
    seq(|queue|, k requires 0 <= k < |queue| && queue[k] in pool => Request(queue[k], pool[queue[k]]))
  }

  lemma ListedWithout(queue: seq<nat>, pool: map<nat, Trb>, packets: set<nat>, next: nat, slots: nat, i: nat)
    requires Listed(queue, pool, packets, next, slots) && i < |queue|
    ensures Listed(queue[..i] + queue[i + 1..], pool - {queue[i]}, packets, next, slots)
    ensures Gather(queue[..i] + queue[i + 1..], pool - {queue[i]}) ==
      Gather(queue, pool)[..i] + Gather(queue, pool)[i + 1..]
  {
    GatherWithout(queue, pool, i);
    hide Gather;
    var rest, left := queue[..i] + queue[i + 1..], pool - {queue[i]};
    forall id | id in left
      ensures id in rest
    {
      var j :| 0 <= j < |queue| && queue[j] == id;
      assert rest[if j < i then j else j - 1] == id;
    }
    DistinctWithout(queue, i);
  }

  lemma GatherWithout(queue: seq<nat>, pool: map<nat, Trb>, i: nat)
    requires i < |queue| && forall k :: 0 <= k < |queue| ==> queue[k] in pool
    requires forall j, k :: 0 <= j < k < |queue| ==> queue[j] != queue[k]
    ensures
      var rest, left := queue[..i] + queue[i + 1..], pool - {queue[i]};
      (forall j :: 0 <= j < |rest| ==> rest[j] == queue[if j < i then j else j + 1] && rest[j] in left)
      && Gather(rest, left) == Gather(queue, pool)[..i] + Gather(queue, pool)[i + 1..]
  {
    var rest, left := queue[..i] + queue[i + 1..], pool - {queue[i]};
    forall j | 0 <= j < |rest|
      ensures rest[j] == queue[if j < i then j else j + 1] && rest[j] in left
    {
    }
  }

  lemma IdsOfGather(queue: seq<nat>, pool: map<nat, Trb>)
    requires forall k :: 0 <= k < |queue| ==> queue[k] in pool
    ensures Ids(Gather(queue, pool)) == queue
  {
  }

  lemma DistinctWithout(queue: seq<nat>, i: nat)
    requires i < |queue| && forall j, k :: 0 <= j < k < |queue| ==> queue[j] != queue[k]
    ensures
      var rest := queue[..i] + queue[i + 1..];
      forall j, k :: 0 <= j < k < |rest| ==> rest[j] != rest[k]
  {
  }

  lemma ListedUpdate(queue: seq<nat>, pool: map<nat, Trb>, packets: set<nat>, next: nat, slots: nat, trb: Trb)
    requires Listed(queue, pool, packets, next, slots) && queue != [] && trb.slot < slots
    ensures Listed(queue, pool[queue[0] := trb], packets, next, slots)
    ensures Gather(queue, pool[queue[0] := trb]) == [Request(queue[0], trb)] + Gather(queue, pool)[1..]
  {
  }

  lemma ListedAppend(queue: seq<nat>, pool: map<nat, Trb>, packets: set<nat>, next: nat, slots: nat, trb: Trb)
    requires Listed(queue, pool, packets, next, slots) && trb.slot < slots
    ensures Listed(queue + [next], pool[next := trb], packets + {next}, next + 1, slots)
    ensures Gather(queue + [next], pool[next := trb]) == Gather(queue, pool) + [Request(next, trb)]
  {
    assert next !in queue && next !in pool;
  }

  /** The driver's own data. A block is in the pool from its allocation until it is freed; using it
      before or after is an error that cannot happen. A packet outlives its block. */
  class MmcHost {
    var slots: seq<Slot>
    var queue: seq<nat>
    var pool: map<nat, Trb>
    var packets: map<nat, Status>
    var signals: seq<Completion>
    var next: nat

    ghost predicate Valid()
      reads this
    {
      |slots| >= 1 && Listed(queue, pool, packets.Keys, next, |slots|)
    }

    ghost function Pending(): (r: seq<Request>)
      requires Valid()
      reads this
      ensures |r| == |queue|
    {
      Gather(queue, pool)
    }

    ghost function Abs(): (s: State)
      requires Valid()
      reads this
      ensures WellFormed(s)
    {
      State(slots, Pending(), signals, next)
    }

    constructor (slots: seq<Slot>)
      requires |slots| >= 1
      ensures Valid() && Abs() == State(slots, [], [], 0) && Inv(Abs())
    {
      this.slots, queue, pool, packets, signals, next := slots, [], map[], map[], [], 0;
      new;
      assert Places(Abs()) == multiset{};
    }

    // The status the packet holds at the moment of the signal is what the waiter will read.
    method SignalEvent(id: nat)
      requires id in packets
      modifies this`signals
      ensures signals == old(signals) + [Completion(id, packets[id])]
    {
      signals := signals + [Completion(id, packets[id])];
    }

    method RemoveEntry(i: nat)
      requires i < |queue|
      modifies this`queue
      ensures queue == old(queue)[..i] + old(queue)[i + 1..]
    {
      queue := queue[..i] + queue[i + 1..];
    }

    method FreeTrb(id: nat)
      requires id in pool
      modifies this`pool
      ensures pool == old(pool) - {id}
    {
      pool := pool - {id};
    }

    /** Queues an asynchronous request; status is that of the call. */
    method PassThru(slot: nat, limit: nat, created: bool, transactionStatus: Status) returns (status: Status)
      requires Valid() && slot < |slots|
      modifies this`queue, this`pool, this`packets, this`next
      ensures Valid() && Abs() == Step(old(Abs()), Submit(slot, limit, created))
      ensures status == Success ==> Pending() == old(Pending()) + [Request(old(next), Trb(slot, limit, limit, false))]
      ensures status != Success ==> Abs() == old(Abs())
      ensures status ==
        if !slots[slot].enabled then InvalidParameter
        else if !slots[slot].mediaPresent then NoMedia
        else if !created then OutOfResources else Success
    {
      if !slots[slot].enabled {
        return InvalidParameter;
      }
      if !slots[slot].mediaPresent {
        return NoMedia;
      }
      if !created {
        return OutOfResources;
      }
      ListedAppend(queue, pool, packets.Keys, next, |slots|, Trb(slot, limit, limit, false));
      pool := pool[next := Trb(slot, limit, limit, false)];
      packets := packets[next := transactionStatus];
      assert packets.Keys == old(packets.Keys) + {next};
      queue := queue + [next];
      next := next + 1;
      return Success;
    }

    /** One timer tick, for the first request in the queue. */
    method ProcessAsyncTaskList(a: Answers)
      requires Valid()
      modifies this`queue, this`pool, this`packets, this`signals
      ensures Valid() && Abs() == Step(old(Abs()), Tick(a))
    {
      if queue == [] {
        return;
      }
      hide Listed, Gather;
      ghost var head, rest := Pending()[0], Pending()[1..];
      var status := PollHead(a);
      assert Pending()[1..] == rest;
      if status == NotReady {
        CountDown();
      } else {
        Finish(status);
      }
    }

    // The first request is not done: it times out, or waits for another tick.
    method CountDown()
      requires Valid() && queue != []
      modifies this`queue, this`pool, this`packets, this`signals
      ensures Valid()
      ensures
        var t := old(Pending())[0].trb;
        var rest, kept := old(Pending())[1..], if t.limit == 0 || t.timeout == 0 then t else t.(timeout := t.timeout - 1);
        if t.limit != 0 && t.timeout == 0
        then Pending() == rest && signals == old(signals) + [Completion(old(queue[0]), Timeout)]
        else Pending() == [Request(old(queue[0]), kept)] + rest && signals == old(signals)
    {
      var id := queue[0];
      assert Pending() == [Request(id, pool[id])] + Pending()[1..];
      if pool[id].limit != 0 {
        if pool[id].timeout == 0 {
          Finish(Timeout);
        } else {
          UpdateHead(pool[id].(timeout := pool[id].timeout - 1));
        }
      }
    }

    // Writes the block of the first request.
    method UpdateHead(trb: Trb)
      requires Valid() && queue != [] && trb.slot < |slots|
      modifies this`pool
      ensures Valid() && Pending() == [Request(queue[0], trb)] + old(Pending())[1..]
    {
      ListedUpdate(queue, pool, packets.Keys, next, |slots|, trb);
      pool := pool[queue[0] := trb];
    }

    // Starts the first request if it has not been started, and asks the hardware about it.
    method PollHead(a: Answers) returns (status: Status)
      requires Valid() && queue != []
      modifies this`pool
      ensures Valid() && |Pending()| == |old(Pending())|
      ensures
        var head := old(Pending())[0];
        var (answer, started) := Poll(head.trb, slots[head.trb.slot].mediaPresent, a);
        status == answer
        && Pending() == [Request(head.id, head.trb.(started := started))] + old(Pending())[1..]
    {
      var id := queue[0];
      assert Pending() == [Request(id, pool[id])] + Pending()[1..];
      if !slots[pool[id].slot].mediaPresent {
        return NoMedia;
      }
      if !pool[id].started {
        status := a.ready;
        if status != Success {
          return;
        }
        UpdateHead(pool[id].(started := true));
        status := a.executed;
        if status != Success {
          return;
        }
      }
      status := a.result;
    }

    // The first request completes: its block is freed before its event is signalled.
    method Finish(status: Status)
      requires Valid() && queue != []
      modifies this`queue, this`pool, this`packets, this`signals
      ensures Valid() && Pending() == old(Pending())[1..]
      ensures signals == old(signals) + [Completion(old(queue[0]), status)]
    {
      hide Listed, Gather;
      ListedWithout(queue, pool, packets.Keys, next, |slots|, 0);
      var id := QueuedAt(0);
      RemoveEntry(0);
      packets := packets[id := status];
      assert packets.Keys == old(packets.Keys);
      FreeTrb(id);
      SignalEvent(id);
    }

    /** The card is gone: every request for slot 0 completes, the others stay. */
    method CardRemoved()
      requires Valid()
      modifies this`slots, this`queue, this`pool, this`packets, this`signals
      ensures Valid() && Abs() == Step(old(Abs()), RemoveCard)
    {
      if !slots[0].enabled || !slots[0].mediaPresent {
        return;
      }
      hide Chosen, All, Listed, Gather;
      slots := slots[0 := slots[0].(mediaPresent := false)];
      Sweep();
    }

    // Takes the requests for slot 0 out of the queue.
    method Sweep()
      requires Valid()
      modifies this`queue, this`pool, this`packets, this`signals
      ensures Valid() && Pending() == Chosen(old(Pending()), 0, false)
      ensures signals == old(signals) + All(Chosen(old(Pending()), 0, true), NoMedia)
    {
      hide Chosen, All, Listed, Gather;
      ghost var before, done := Pending(), signals;
      var link: nat := 0;
      ghost var k: nat := 0;
      NothingChosen(before);
      while link < |queue|
        invariant Sweeping(before, done, link, k)
        decreases |before| - k
      {
        link := SweepOne(before, done, link, k);
        k := k + 1;
      }
      assert k == |before|;
      NothingLeft(before, Chosen(before, 0, false));
    }

    // The first k of the requests that were there have been looked at; link is the next one's place.
    ghost predicate Sweeping(before: seq<Request>, done: seq<Completion>, link: nat, k: nat)
      reads this
    {
      && Valid() && link <= |queue| && k <= |before| && |queue| - link == |before| - k
      && Pending() == Chosen(before[..k], 0, false) + before[k..]
      && link == |Chosen(before[..k], 0, false)|
      && signals == done + All(Chosen(before[..k], 0, true), NoMedia)
    }

    lemma NothingLeft(r: seq<Request>, stay: seq<Request>)
      ensures r[..|r|] == r && stay + r[|r|..] == stay
    {
    }

    lemma NothingChosen(r: seq<Request>)
      ensures r[..0] == [] && Chosen(r[..0], 0, false) == [] == Chosen(r[..0], 0, true)
      ensures All([], NoMedia) == []
    {
    }

    lemma AllOfNothing(status: Status)
      ensures All([], status) == []
    {
    }

    lemma AllConcat(a: seq<Request>, r: Request, status: Status)
      ensures All(a + [r], status) == All(a, status) + [Completion(r.id, status)]
    {
    }

    method SweepOne(ghost before: seq<Request>, ghost done: seq<Completion>, link: nat, ghost k: nat)
      returns (next: nat)
      requires Sweeping(before, done, link, k) && link < |queue|
      modifies this`queue, this`pool, this`packets, this`signals
      ensures Sweeping(before, done, next, k + 1)
    {
      hide Chosen, All, Listed, Gather;
      ghost var stay, gone := Chosen(before[..k], 0, false), Chosen(before[..k], 0, true);
      ChosenNext(before, 0, k);
      InTheMiddle(stay, before, k);
      AllConcat(gone, before[k], NoMedia);
      next := link;
      var slot := SlotAt(link);
      if slot == 0 {
        Abort(link, NoMedia);
        Regrouped(done, All(gone, NoMedia), Completion(before[k].id, NoMedia));
      } else {
        next := next + 1;
      }
    }

    // The next request to look at stands behind those that stay.
    lemma InTheMiddle(stay: seq<Request>, before: seq<Request>, k: nat)
      requires k < |before|
      ensures
        var now := stay + before[k..];
        && now[|stay|] == before[k]
        && now[..|stay|] + now[|stay| + 1..] == stay + before[k + 1..]
        && (stay + [before[k]]) + before[k + 1..] == now
    {
    }

    lemma Regrouped(done: seq<Completion>, gone: seq<Completion>, one: Completion)
      ensures (done + gone) + [one] == done + (gone + [one])
    {
    }

    method SlotAt(i: nat) returns (slot: nat)
      requires Valid() && i < |queue|
      ensures slot == Pending()[i].trb.slot
    {
      slot := pool[queue[i]].slot;
    }

    lemma ChosenNext(r: seq<Request>, slot: nat, k: nat)
      requires k < |r|
      ensures forall b :: Chosen(r[..k + 1], slot, b) ==
                          if (r[k].trb.slot == slot) == b then Chosen(r[..k], slot, b) + [r[k]]
                          else Chosen(r[..k], slot, b)
    {
      assert r[..k + 1][..k] == r[..k];
    }

    // One request is taken out of the queue: its event is signalled before its block is freed.
    method Abort(i: nat, status: Status)
      requires Valid() && i < |queue|
      modifies this`queue, this`pool, this`packets, this`signals
      ensures Valid() && Pending() == old(Pending())[..i] + old(Pending())[i + 1..]
      ensures signals == old(signals) + [Completion(old(Pending())[i].id, status)]
    {
      hide Listed, Gather;
      ListedWithout(queue, pool, packets.Keys, next, |slots|, i);
      var id := QueuedAt(i);
      RemoveEntry(i);
      packets := packets[id := status];
      assert packets.Keys == old(packets.Keys);
      SignalEvent(id);
      FreeTrb(id);
    }

    // The block of a queued request is in the pool.
    method QueuedAt(i: nat) returns (id: nat)
      requires Valid() && i < |queue|
      ensures id == queue[i] == Pending()[i].id && id in pool && id in packets
    {
      id := queue[i];
    }

    // All requests are aborted, first to last.
    method Drain()
      requires Valid()
      modifies this`queue, this`pool, this`packets, this`signals
      ensures Valid() && queue == []
      ensures signals == old(signals) + All(old(Pending()), Aborted)
    {
      hide All, Listed, Gather;
      ghost var before := Pending();
      ghost var k := 0;
      AllOfNothing(Aborted);
      assert before[..0] == [];
      while |queue| > 0
        invariant Valid() && k <= |before| && Pending() == before[k..]
        invariant signals == old(signals) + All(before[..k], Aborted)
        decreases |queue|
      {
        assert before[..k + 1] == before[..k] + [before[k]];
        AllConcat(before[..k], before[k], Aborted);
        Abort(0, Aborted);
        k := k + 1;
      }
      assert before[..k] == before;
    }

    method CardInserted()
      requires Valid()
      modifies this`slots
      ensures Valid() && Abs() == Step(old(Abs()), InsertCard)
    {
      if slots[0].enabled {
        slots := slots[0 := slots[0].(mediaPresent := true)];
      }
    }

    method ResetDevice(slot: nat) returns (status: Status)
      requires Valid() && slot < |slots|
      modifies this`queue, this`pool, this`packets, this`signals
      ensures Valid() && Abs() == Step(old(Abs()), Reset(slot))
      ensures status ==
        if !slots[slot].enabled then InvalidParameter
        else if !slots[slot].mediaPresent then NoMedia else Success
    {
      if !slots[slot].enabled {
        return InvalidParameter;
      }
      if !slots[slot].mediaPresent {
        return NoMedia;
      }
      Drain();
      return Success;
    }

    method DriverStop()
      requires Valid()
      modifies this`queue, this`pool, this`packets, this`signals
      ensures Valid() && Abs() == Step(old(Abs()), Stop)
    {
      Drain();
    }

    method Do(e: Event)
      requires Valid()
      requires (e.Submit? || e.Reset?) ==> e.slot < |slots|
      modifies this
      ensures Valid() && |slots| == |old(slots)| && Abs() == Step(old(Abs()), e)
    {
      match e
      case Submit(slot, limit, created) => var _ := PassThru(slot, limit, created, Success);
      case Tick(a) => ProcessAsyncTaskList(a);
      case RemoveCard => CardRemoved();
      case InsertCard => CardInserted();
      case Reset(slot) => var _ := ResetDevice(slot);
      case Stop => DriverStop();
    }

    /** Any run of events: the driver is where the state machine is, so each request is pending or was
        signalled once, and the blocks allocated are those of the pending requests. */
    method DoAll(events: seq<Event>)
      requires Valid() && Inv(Abs())
      requires forall e :: e in events && (e.Submit? || e.Reset?) ==> e.slot < |slots|
      modifies this
      ensures Valid() && Abs() == Run(old(Abs()), events) && Inv(Abs())
      ensures forall id :: id in pool <==> id in Ids(Abs().pending)
    {
      hide Step, Inv;
      for i := 0 to |events|
        invariant Valid() && |slots| == |old(slots)|
        invariant Abs() == Run(old(Abs()), events[..i])
      {
        assert events[..i + 1][..i] == events[..i] && events[i] in events;
        Do(events[i]);
      }
      assert events[..|events|] == events;
      RunKeepsInv(old(Abs()), events);
      IdsOfGather(queue, pool);
    }
  }
}
