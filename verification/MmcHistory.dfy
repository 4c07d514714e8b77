/**
What the queue of requests does, told from the events alone: what was submitted, how often a request has
been the first in the queue when the timer ticked, and what the hardware answered.
*/
module MmcHistory {
  import opened MmcQueue

  datatype Submission = Submission(slot: nat, limit: nat)

  ghost predicate Fresh(s: State) {
    WellFormed(s) && s.pending == [] && s.done == [] && s.next == 0
  }

  // The requests queued during a run, in the order of their numbers: those for a slot that is enabled and
  // has a card at the time, if a block could be created.
  function Submissions(s: State, events: seq<Event>): seq<Submission>
    requires WellFormed(s)
    decreases |events|
  {
    if events == [] then []
    else
      var before, last := events[..|events| - 1], events[|events| - 1];
      var slots := Run(s, before).slots;
      Submissions(s, before)
      + if last.Submit? && last.slot < |slots| && slots[last.slot].enabled && slots[last.slot].mediaPresent && last.created
        then [Submission(last.slot, last.limit)] else []
  }

  predicate IsHead(s: State, id: nat) {
    s.pending != [] && s.pending[0].id == id
  }

  // How many ticks found the request first in the queue.
  function HeadTicks(s: State, events: seq<Event>, id: nat): nat
    requires WellFormed(s)
    decreases |events|
  {
    if events == [] then 0
    else
      var before, last := events[..|events| - 1], events[|events| - 1];
      HeadTicks(s, before, id) + if last.Tick? && IsHead(Run(s, before), id) then 1 else 0
  }

  // One of these ticks found the card there and its lines ready.
  predicate Begun(s: State, events: seq<Event>, id: nat)
    requires WellFormed(s)
    decreases |events|
  {
    if events == [] then false
    else
      var before, last := events[..|events| - 1], events[|events| - 1];
      || Begun(s, before, id)
      || (last.Tick? && last.answers.ready == Success && IsHead(Run(s, before), id)
          && Run(s, before).pending[0].trb.slot < |Run(s, before).slots|
          && Run(s, before).slots[Run(s, before).pending[0].trb.slot].mediaPresent)
  }

  // ----- the blocks remember what happened

  // The k-th pending request is as it was submitted; only the first has been waited for.
  ghost predicate Remembers(s: State, events: seq<Event>, k: nat)
    requires WellFormed(s) && k < |Run(s, events).pending|
  {
    var r := Run(s, events).pending[k];
    && r.id < |Submissions(s, events)|
    && Submissions(s, events)[r.id] == Submission(r.trb.slot, r.trb.limit)
    && r.trb.started == Begun(s, events, r.id)
    && (r.trb.limit > 0 ==> r.trb.timeout + HeadTicks(s, events, r.id) == r.trb.limit)
    && (k > 0 ==> HeadTicks(s, events, r.id) == 0 && !Begun(s, events, r.id))
  }

  ghost predicate Tracked(s: State, events: seq<Event>) {
    && WellFormed(s) && Inv(Run(s, events)) && WellFormed(Run(s, events)) && |Run(s, events).slots| == |s.slots|
    && |Submissions(s, events)| == Run(s, events).next
    && (forall id: nat :: id >= Run(s, events).next ==> HeadTicks(s, events, id) == 0 && !Begun(s, events, id))
    && forall k :: 0 <= k < |Run(s, events).pending| ==> Remembers(s, events, k)
  }

  lemma FreshInv(s: State)
    requires Fresh(s)
    ensures Inv(s)
  {
    assert Places(s) == multiset{};
  }

  lemma {:induction false} RunNext(s: State, events: seq<Event>, e: Event)
    requires WellFormed(s) && WellFormed(Run(s, events))
    ensures Run(s, events + [e]) == Step(Run(s, events), e)
    ensures forall id :: HeadTicks(s, events + [e], id) ==
                         HeadTicks(s, events, id) + if e.Tick? && IsHead(Run(s, events), id) then 1 else 0
    ensures forall id :: Begun(s, events + [e], id) ==
                         (Begun(s, events, id)
                          || (e.Tick? && e.answers.ready == Success && IsHead(Run(s, events), id)
                              && Run(s, events).slots[Run(s, events).pending[0].trb.slot].mediaPresent))
    ensures Submissions(s, events + [e]) ==
            Submissions(s, events)
            + (if e.Submit? && MayQueue(Run(s, events), e.slot, e.created) then [Submission(e.slot, e.limit)] else [])
  {
    assert (events + [e])[..|events|] == events;
  }

  // A request that stays where others go, or that is not touched by the event.
  lemma {:induction false} StillRemembered(s: State, events: seq<Event>, e: Event, k: nat, j: nat)
    requires Tracked(s, events) && Tracked1(s, events, e)
    requires j < |Run(s, events).pending| && k < |Run(s, events + [e]).pending| && k <= j
    requires Run(s, events + [e]).pending[k] == Run(s, events).pending[j]
    requires !e.Tick? || j > 0
    ensures Remembers(s, events + [e], k)
  {
    hide Inv, Step, Run, HeadTicks, Begun, Submissions;
    RunNext(s, events, e);
    assert Remembers(s, events, j);
    HeadIsOne(Run(s, events), j);
    var r := Run(s, events).pending[j];
    assert e.Tick? ==> !IsHead(Run(s, events), r.id);
  }

  // Numbers are different: another request is not the head.
  lemma HeadIsOne(s: State, j: nat)
    requires Inv(s) && j < |s.pending|
    ensures j > 0 ==> !IsHead(s, s.pending[j].id)
    ensures s.pending[j].id < s.next
  {
    PendingBelowNext(s, j);
  }

  // The state after one more event is well-formed too.
  ghost predicate Tracked1(s: State, events: seq<Event>, e: Event) {
    WellFormed(s) && WellFormed(Run(s, events)) && WellFormed(Run(s, events + [e]))
  }

  lemma {:induction false} TrackRequests(s: State, events: seq<Event>, e: Event, k: nat)
    requires Tracked(s, events) && Tracked1(s, events, e) && k < |Run(s, events + [e]).pending|
    ensures Remembers(s, events + [e], k)
  {
    var t := Run(s, events);
    RunNext(s, events, e);
    match e
    case Submit(slot, limit, created) =>
      if k < |t.pending| {
        StillRemembered(s, events, e, k, k);
      } else {
        hide Run, HeadTicks, Begun, Submissions, Inv;
        assert HeadTicks(s, events, t.next) == 0 && !Begun(s, events, t.next);
      }
    case Tick(a) =>
      TrackTick(s, events, a, k);
    case RemoveCard =>
      if t.slots[0].enabled && t.slots[0].mediaPresent {
        var idx := ChosenIndexed(t.pending, 0, false);
        IndexGrows(idx, k);
        StillRemembered(s, events, e, k, idx[k]);
      } else {
        StillRemembered(s, events, e, k, k);
      }
    case InsertCard => StillRemembered(s, events, e, k, k);
    case Reset(slot) => StillRemembered(s, events, e, k, k);
    case Stop =>
  }

  lemma {:induction false} IndexGrows(idx: seq<nat>, k: nat)
    requires k < |idx| && forall i, j :: 0 <= i < j < |idx| ==> idx[i] < idx[j]
    ensures k <= idx[k]
  {
    if k > 0 {
      IndexGrows(idx, k - 1);
    }
  }

  lemma {:induction false} TrackTick(s: State, events: seq<Event>, a: Answers, k: nat)
    requires Tracked(s, events) && Tracked1(s, events, Tick(a)) && k < |Run(s, events + [Tick(a)]).pending|
    ensures Remembers(s, events + [Tick(a)], k)
  {
    var t := Run(s, events);
    RunNext(s, events, Tick(a));
    AfterTick(t, a);
    hide Run, HeadTicks, Begun, Submissions, Inv, Step, Remembers;
    if |Run(s, events + [Tick(a)]).pending| < |t.pending| {
      StillRemembered(s, events, Tick(a), k, k + 1);
    } else if k > 0 {
      StillRemembered(s, events, Tick(a), k, k);
    } else {
      TrackHead(s, events, a);
    }
  }

  // The head that a tick has left waiting has been waited for once more.
  lemma {:induction false} TrackHead(s: State, events: seq<Event>, a: Answers)
    requires Tracked(s, events) && Tracked1(s, events, Tick(a)) && Run(s, events).pending != []
    requires |Run(s, events + [Tick(a)]).pending| == |Run(s, events).pending|
    ensures Remembers(s, events + [Tick(a)], 0)
  {
    RunNext(s, events, Tick(a));
    hide Run, HeadTicks, Begun, Submissions, Inv, Step;
    assert Remembers(s, events, 0);
    KeptHead(Run(s, events), a);
  }

  // A tick takes the head of the queue or leaves all others where they are.
  lemma AfterTick(t: State, a: Answers)
    requires WellFormed(t)
    ensures
      var u := Step(t, Tick(a));
      if |u.pending| < |t.pending| then u.pending == t.pending[1..]
      else |u.pending| == |t.pending| && forall k :: 0 < k < |t.pending| ==> u.pending[k] == t.pending[k]
  {
  }

  // The head of the queue after a tick that left it there.
  lemma KeptHead(t: State, a: Answers)
    requires WellFormed(t) && t.pending != [] && |Step(t, Tick(a)).pending| == |t.pending|
    ensures
      var old', new' := t.pending[0], Step(t, Tick(a)).pending[0];
      && new'.id == old'.id && new'.trb.slot == old'.trb.slot && new'.trb.limit == old'.trb.limit
      && t.slots[old'.trb.slot].mediaPresent
      && new'.trb.started == (old'.trb.started || a.ready == Success)
      && (old'.trb.limit > 0 ==> new'.trb.timeout + 1 == old'.trb.timeout)
  {
  }

  lemma {:induction false} TrackCounts(s: State, events: seq<Event>, e: Event)
    requires Tracked(s, events) && Tracked1(s, events, e)
    ensures |Submissions(s, events + [e])| == Run(s, events + [e]).next
    ensures forall id: nat :: id >= Run(s, events + [e]).next ==>
              HeadTicks(s, events + [e], id) == 0 && !Begun(s, events + [e], id)
  {
    RunNext(s, events, e);
    var t := Run(s, events);
    assert t.next <= Step(t, e).next;
    if t.pending != [] {
      HeadIsOne(t, 0);
    }
    hide Run, HeadTicks, Begun, Submissions, Inv;
  }

  lemma {:induction false} RunIsTracked(s: State, events: seq<Event>)
    requires Fresh(s)
    ensures Tracked(s, events)
    decreases |events|
  {
    FreshInv(s);
    if events != [] {
      var before, last := events[..|events| - 1], events[|events| - 1];
      RunIsTracked(s, before);
      assert before + [last] == events;
      RunNext(s, before, last);
      StepKeepsInv(Run(s, before), last);
      TrackCounts(s, before, last);
      hide Inv, Step, HeadTicks, Begun, Submissions, Remembers;
      forall k | 0 <= k < |Run(s, events).pending|
        ensures Remembers(s, events, k)
      {
        TrackRequests(s, before, last, k);
      }
      SlotsStay(Run(s, before), last);
    }
  }

  lemma SlotsStay(s: State, e: Event)
    requires WellFormed(s)
    ensures |Step(s, e).slots| == |s.slots|
  {
  }

  // ----- what a tick does

  // The hardware's own answer to a request, which is started when its lines are ready.
  function HardwareAnswer(begun: bool, a: Answers): Status {
    if !begun && a.ready != Success then a.ready
    else if !begun && a.executed != Success then a.executed
    else a.result
  }

  /** After any run, what one tick does to the request that is first in the queue, told from the events:
      without its card it completes so; with any answer but not ready it completes with that answer; when it
      is not ready it completes with a timeout just when it was submitted with a limit and has been first for
      as many ticks as the limit says, and else it stays first. Nothing else completes. */
  lemma {:induction false} TickOnHead(s: State, events: seq<Event>, a: Answers)
    requires Fresh(s)
    ensures WellFormed(Run(s, events)) && Tracked(s, events)
    ensures Run(s, events).pending == [] ==> Run(s, events + [Tick(a)]) == Run(s, events)
    ensures Run(s, events).pending != [] ==>
      var t, u := Run(s, events), Run(s, events + [Tick(a)]);
      var id := t.pending[0].id;
      && id < |Submissions(s, events)| && Submissions(s, events)[id].slot < |t.slots|
      && var sub, waited := Submissions(s, events)[id], HeadTicks(s, events, id);
         var answer := HardwareAnswer(Begun(s, events, id), a);
         && (sub.limit > 0 ==> waited <= sub.limit)
         && (if !t.slots[sub.slot].mediaPresent then Completes(t, u, NoMedia)
             else if answer != NotReady then Completes(t, u, answer)
             else if sub.limit > 0 && waited == sub.limit then Completes(t, u, Timeout)
             else u.done == t.done && Ids(u.pending) == Ids(t.pending))
  {
    RunIsTracked(s, events);
    RunNext(s, events, Tick(a));
    var t := Run(s, events);
    if t.pending != [] {
      HeadVerdict(t, a);
      hide Run, HeadTicks, Begun, Submissions, Inv, Step, Completes;
      assert Remembers(s, events, 0);
    }
  }

  // The same, told from the first block.
  lemma HeadVerdict(t: State, a: Answers)
    requires WellFormed(t) && t.pending != []
    ensures
      var u, trb := Step(t, Tick(a)), t.pending[0].trb;
      var answer := HardwareAnswer(trb.started, a);
      if !t.slots[trb.slot].mediaPresent then Completes(t, u, NoMedia)
      else if answer != NotReady then Completes(t, u, answer)
      else if trb.limit > 0 && trb.timeout == 0 then Completes(t, u, Timeout)
      else u.done == t.done && Ids(u.pending) == Ids(t.pending)
  {
    TickIds(t, a);
  }

  // The first request completes with the status, and nothing else happens.
  ghost predicate Completes(t: State, u: State, status: Status) {
    t.pending != [] && u == t.(pending := t.pending[1..], done := t.done + [Completion(t.pending[0].id, status)])
  }

  lemma TickIds(t: State, a: Answers)
    requires WellFormed(t) && t.pending != []
    ensures |Step(t, Tick(a)).pending| == |t.pending| ==> Ids(Step(t, Tick(a)).pending) == Ids(t.pending)
  {
  }

  /** A request submitted with a limit is first in the queue for one tick more than the limit says before it
      can time out, and never for longer. */
  lemma {:induction false} NeverLonger(s: State, events: seq<Event>, id: nat)
    requires Fresh(s) && id < |Submissions(s, events)| && Submissions(s, events)[id].limit > 0
    ensures HeadTicks(s, events, id) <= Submissions(s, events)[id].limit + 1
    decreases |events|
  {
    if events != [] {
      var before, last := events[..|events| - 1], events[|events| - 1];
      RunIsTracked(s, before);
      assert before + [last] == events;
      RunNext(s, before, last);
      if id < |Submissions(s, before)| {
        NeverLonger(s, before, id);
        if IsHead(Run(s, before), id) {
          assert Remembers(s, before, 0);
        }
      }
    }
  }

  // ----- what the other events do

  /** Submitting: the request goes to the end of the queue, or nothing happens. */
  lemma SubmitEffect(s: State, slot: nat, limit: nat, created: bool)
    requires WellFormed(s)
    ensures
      var t := Step(s, Submit(slot, limit, created));
      if slot < |s.slots| && s.slots[slot].enabled && s.slots[slot].mediaPresent && created then
        && t.slots == s.slots && t.done == s.done && t.next == s.next + 1
        && Ids(t.pending) == Ids(s.pending) + [s.next]
      else t == s
  {
  }

  /** The card goes: the requests for slot 0 complete, with no media, in order, and the others stay. */
  lemma RemovalEffect(s: State) returns (gone: seq<nat>, stay: seq<nat>)
    requires WellFormed(s) && s.slots[0].enabled && s.slots[0].mediaPresent
    ensures
      var t := Step(s, RemoveCard);
      && t.next == s.next && t.slots == s.slots[0 := Slot(true, false)]
      && |t.done| == |s.done| + |gone| && t.done[..|s.done|] == s.done && |t.pending| == |stay|
      && (forall k :: 0 <= k < |gone| ==>
            gone[k] < |s.pending| && t.done[|s.done| + k] == Completion(s.pending[gone[k]].id, NoMedia))
      && (forall k :: 0 <= k < |stay| ==> stay[k] < |s.pending| && t.pending[k] == s.pending[stay[k]])
      && (forall j, k :: 0 <= j < k < |gone| ==> gone[j] < gone[k])
      && (forall j, k :: 0 <= j < k < |stay| ==> stay[j] < stay[k])
      && (forall k :: 0 <= k < |s.pending| ==> if s.pending[k].trb.slot == 0 then k in gone else k in stay)
  {
    gone := ChosenWhere(s.pending, 0, true);
    stay := ChosenWhere(s.pending, 0, false);
    hide Chosen;
  }

  lemma {:induction false} ChosenWhere(r: seq<Request>, slot: nat, ofSlot: bool) returns (idx: seq<nat>)
    ensures |idx| == |Chosen(r, slot, ofSlot)|
    ensures forall k :: 0 <= k < |idx| ==> idx[k] < |r| && Chosen(r, slot, ofSlot)[k] == r[idx[k]]
    ensures forall j, k :: 0 <= j < k < |idx| ==> idx[j] < idx[k]
    ensures forall k :: 0 <= k < |r| && (r[k].trb.slot == slot) == ofSlot ==> k in idx
  {
    idx := [];
    if r != [] {
      idx := ChosenWhere(r[..|r| - 1], slot, ofSlot);
      if (r[|r| - 1].trb.slot == slot) == ofSlot {
        idx := idx + [|r| - 1];
      }
    }
  }

  /** A card that comes changes its slot only, and a removal or reset without a card changes nothing. */
  lemma OthersKeepRequests(s: State, slot: nat)
    requires WellFormed(s)
    ensures Step(s, InsertCard) ==
            if s.slots[0].enabled then s.(slots := s.slots[0 := Slot(true, true)]) else s
    ensures !s.slots[0].enabled || !s.slots[0].mediaPresent ==> Step(s, RemoveCard) == s
    ensures slot >= |s.slots| || !s.slots[slot].enabled || !s.slots[slot].mediaPresent ==> Step(s, Reset(slot)) == s
  {
  }

  /** A stop, and a reset of a slot that is enabled and has a card, abort every request, in order. */
  lemma AbortEffect(s: State, e: Event)
    requires WellFormed(s)
    requires e.Stop? || (e.Reset? && e.slot < |s.slots| && s.slots[e.slot].enabled && s.slots[e.slot].mediaPresent)
    ensures
      var t := Step(s, e);
      && t.pending == [] && t.slots == s.slots && t.next == s.next
      && |t.done| == |s.done| + |s.pending| && t.done[..|s.done|] == s.done
      && forall k :: 0 <= k < |s.pending| ==> t.done[|s.done| + k] == Completion(s.pending[k].id, Aborted)
  {
  }
}
