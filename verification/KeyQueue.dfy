/**
Reading keys from several keyboards through one queue: the keyboards are polled when the queue is
empty, and all their keys are given the same merged state.
*/
module KeyQueue {
  import opened Keys

  // What a keyboard answers to one read: a key, no key but perhaps a state, or an error.
  datatype Answer = Pressed(data: KeyData) | NotReady(data: KeyData) | Broken

  const SILENT := NotReady(KeyData(NO_KEY, NO_STATE))

  datatype Outcome = Got(data: KeyData) | Nothing(state: KeyState)

  // One read: what the keyboards would answer, and whether partial keystrokes are wanted.
  datatype Poll = Poll(answers: seq<Answer>, exported: bool)

  predicate Wanted(a: Answer, exported: bool) {
    a.Pressed? && (exported || a.data.key.scanCode != 0 || a.data.key.unicodeChar != 0)
  }

  // The keys of the first k keyboards that go into the queue.
  function Accepted(answers: seq<Answer>, exported: bool, k: nat): (keys: seq<KeyData>)
    requires k <= |answers|
    ensures |keys| <= k
  {
    if k == 0 then []
    else if Wanted(answers[k - 1], exported) then Accepted(answers, exported, k - 1) + [answers[k - 1].data]
    else Accepted(answers, exported, k - 1)
  }

  predicate ShiftValid(shift: bv32) {
    shift & SHIFT_STATE_VALID != 0
  }

  predicate ToggleValid(toggle: bv8) {
    toggle & TOGGLE_STATE_VALID != 0
  }

  function EitherShift(a: bv32, b: bv32): bv32 {
    a | b
  }

  function EitherToggle(a: bv8, b: bv8): bv8 {
    a | b
  }

  function AddShift(merged: bv32, shift: bv32): bv32 {
    if ShiftValid(shift) then EitherShift(merged, shift) else merged
  }

  function AddToggle(merged: bv8, toggle: bv8): bv8 {
    if ToggleValid(toggle) then EitherToggle(merged, toggle) else merged
  }

  function AddState(merged: KeyState, a: Answer): KeyState {
    if a.Broken? then merged
    else KeyState(AddShift(merged.shift, a.data.state.shift), AddToggle(merged.toggle, a.data.state.toggle))
  }

  function Merged(answers: seq<Answer>, k: nat): KeyState
    requires k <= |answers|
  {
    if k == 0 then NO_STATE else AddState(Merged(answers, k - 1), answers[k - 1])
  }

  function Stamped(keys: seq<KeyData>, state: KeyState): (stamped: seq<KeyData>)
    ensures |stamped| == |keys|
  {
    seq(|keys|, i requires 0 <= i < |keys| => KeyData(keys[i].key, state))
  }

  // The keys that one poll brings in.
  function Fetched(poll: Poll): seq<KeyData> {
    Stamped(Accepted(poll.answers, poll.exported, |poll.answers|), Merged(poll.answers, |poll.answers|))
  }

  // ----- what the merged state means

  function BothShift(a: bv32, b: bv32): bv32 {
    a & b
  }

  predicate HoldsShift(shift: bv32, bits: bv32) {
    BothShift(shift, bits) != 0
  }

  function BothToggle(a: bv8, b: bv8): bv8 {
    a & b
  }

  predicate HoldsToggle(toggle: bv8, bits: bv8) {
    BothToggle(toggle, bits) != 0
  }

  predicate ShowsShift(a: Answer, bits: bv32) {
    !a.Broken? && ShiftValid(a.data.state.shift) && HoldsShift(a.data.state.shift, bits)
  }

  predicate ShowsToggle(a: Answer, bits: bv8) {
    !a.Broken? && ToggleValid(a.data.state.toggle) && HoldsToggle(a.data.state.toggle, bits)
  }

  lemma ShiftDistributes(a: bv32, b: bv32, bits: bv32)
    ensures BothShift(EitherShift(a, b), bits) == EitherShift(BothShift(a, bits), BothShift(b, bits))
  {
  }

  lemma EitherShiftZero(a: bv32, b: bv32)
    ensures EitherShift(a, b) == 0 <==> a == 0 && b == 0
  {
  }

  lemma EitherShiftHolds(a: bv32, b: bv32, bits: bv32)
    ensures HoldsShift(EitherShift(a, b), bits) <==> HoldsShift(a, bits) || HoldsShift(b, bits)
  {
    hide EitherShift, BothShift;
    ShiftDistributes(a, b, bits);
    EitherShiftZero(BothShift(a, bits), BothShift(b, bits));
  }

  lemma ShiftAdded(merged: bv32, shift: bv32, bits: bv32)
    ensures HoldsShift(AddShift(merged, shift), bits) <==>
            HoldsShift(merged, bits) || (ShiftValid(shift) && HoldsShift(shift, bits))
  {
    hide ShiftValid, HoldsShift, EitherShift;
    if ShiftValid(shift) {
      EitherShiftHolds(merged, shift, bits);
    }
  }

  lemma ToggleDistributes(a: bv8, b: bv8, bits: bv8)
    ensures BothToggle(EitherToggle(a, b), bits) == EitherToggle(BothToggle(a, bits), BothToggle(b, bits))
  {
  }

  lemma EitherToggleZero(a: bv8, b: bv8)
    ensures EitherToggle(a, b) == 0 <==> a == 0 && b == 0
  {
  }

  lemma EitherToggleHolds(a: bv8, b: bv8, bits: bv8)
    ensures HoldsToggle(EitherToggle(a, b), bits) <==> HoldsToggle(a, bits) || HoldsToggle(b, bits)
  {
    hide EitherToggle, BothToggle;
    ToggleDistributes(a, b, bits);
    EitherToggleZero(BothToggle(a, bits), BothToggle(b, bits));
  }

  lemma ToggleAdded(merged: bv8, toggle: bv8, bits: bv8)
    ensures HoldsToggle(AddToggle(merged, toggle), bits) <==>
            HoldsToggle(merged, bits) || (ToggleValid(toggle) && HoldsToggle(toggle, bits))
  {
    hide ToggleValid, HoldsToggle, EitherToggle;
    if ToggleValid(toggle) {
      EitherToggleHolds(merged, toggle, bits);
    }
  }

  lemma StateAdded(merged: KeyState, a: Answer, shiftBits: bv32, toggleBits: bv8)
    ensures HoldsShift(AddState(merged, a).shift, shiftBits) <==>
            HoldsShift(merged.shift, shiftBits) || ShowsShift(a, shiftBits)
    ensures HoldsToggle(AddState(merged, a).toggle, toggleBits) <==>
            HoldsToggle(merged.toggle, toggleBits) || ShowsToggle(a, toggleBits)
  {
    hide HoldsShift, HoldsToggle, ShiftValid, ToggleValid, AddShift, AddToggle;
    if !a.Broken? {
      ShiftAdded(merged.shift, a.data.state.shift, shiftBits);
      ToggleAdded(merged.toggle, a.data.state.toggle, toggleBits);
    }
  }

  lemma NothingHeld(shiftBits: bv32, toggleBits: bv8)
    ensures !HoldsShift(0, shiftBits) && !HoldsToggle(0, toggleBits)
  {
  }

  /** A modifier or a lock is held in the merged state just when one of the keyboards that answered
      with a valid state holds it. */
  lemma {:induction false} HeldSomewhere(answers: seq<Answer>, k: nat, shiftBits: bv32, toggleBits: bv8)
    requires k <= |answers|
    ensures HoldsShift(Merged(answers, k).shift, shiftBits) <==>
            exists i :: 0 <= i < k && ShowsShift(answers[i], shiftBits)
    ensures HoldsToggle(Merged(answers, k).toggle, toggleBits) <==>
            exists i :: 0 <= i < k && ShowsToggle(answers[i], toggleBits)
  {
    hide HoldsShift, HoldsToggle, ShowsShift, ShowsToggle, AddState;
    if k == 0 {
      NothingHeld(shiftBits, toggleBits);
    } else {
      HeldSomewhere(answers, k - 1, shiftBits, toggleBits);
      StateAdded(Merged(answers, k - 1), answers[k - 1], shiftBits, toggleBits);
    }
  }

  /** The same bit by bit: a state is valid with its highest bit set. */
  lemma HeldBits(answers: seq<Answer>, shiftBits: bv32, toggleBits: bv8)
    ensures Merged(answers, |answers|).shift & shiftBits != 0 <==>
            exists i :: && 0 <= i < |answers| && !answers[i].Broken?
                        && answers[i].data.state.shift & 0x8000_0000 != 0
                        && answers[i].data.state.shift & shiftBits != 0
    ensures Merged(answers, |answers|).toggle & toggleBits != 0 <==>
            exists i :: && 0 <= i < |answers| && !answers[i].Broken?
                        && answers[i].data.state.toggle & 0x80 != 0
                        && answers[i].data.state.toggle & toggleBits != 0
  {
    hide Merged;
    HeldSomewhere(answers, |answers|, shiftBits, toggleBits);
  }

  // ----- which keys a poll brings in, and in which order

  // These keys are those of the keyboards listed, in the keyboards' order, all with one state; listed are
  // the keyboards that answer with a key, unless it is a partial keystroke and those are not exported.
  ghost predicate Brings(poll: Poll, state: KeyState, who: seq<nat>, keys: seq<KeyData>) {
    && |keys| == |who|
    && (forall n, m :: 0 <= n < m < |who| ==> who[n] < who[m])
    && (forall n :: 0 <= n < |who| ==>
          && who[n] < |poll.answers| && poll.answers[who[n]].Pressed?
          && keys[n] == KeyData(poll.answers[who[n]].data.key, state))
    && (forall i :: 0 <= i < |poll.answers| ==>
          (i in who <==> poll.answers[i].Pressed?
                         && (poll.exported || poll.answers[i].data.key.scanCode != 0
                             || poll.answers[i].data.key.unicodeChar != 0)))
  }

  lemma {:induction false} AcceptedFrom(answers: seq<Answer>, exported: bool, k: nat) returns (who: seq<nat>)
    requires k <= |answers|
    ensures |who| == |Accepted(answers, exported, k)|
    ensures forall n, m :: 0 <= n < m < |who| ==> who[n] < who[m]
    ensures forall n :: 0 <= n < |who| ==>
              who[n] < k && answers[who[n]].Pressed? && Accepted(answers, exported, k)[n] == answers[who[n]].data
    ensures forall i :: 0 <= i < k ==>
              (i in who <==> answers[i].Pressed?
                             && (exported || answers[i].data.key.scanCode != 0 || answers[i].data.key.unicodeChar != 0))
  {
    who := [];
    if k > 0 {
      who := AcceptedFrom(answers, exported, k - 1);
      if Wanted(answers[k - 1], exported) {
        who := who + [k - 1];
      }
    }
  }

  // The key that a read delivers and those that it leaves in the queue.
  function DeliveredAndLeft(outcome: Outcome, rest: seq<KeyData>): seq<KeyData> {
    (if outcome.Got? then [outcome.data] else []) + rest
  }

  lemma FetchedFrom(poll: Poll) returns (who: seq<nat>)
    ensures Brings(poll, Merged(poll.answers, |poll.answers|), who, Fetched(poll))
  {
    hide Merged, Accepted, Wanted;
    who := AcceptedFrom(poll.answers, poll.exported, |poll.answers|);
  }

  lemma BringsCount(poll: Poll, state: KeyState, who: seq<nat>, keys: seq<KeyData>)
    requires Brings(poll, state, who, keys)
    ensures |who| == |keys|
  {
  }

  lemma FirstAndRest(keys: seq<KeyData>)
    ensures keys != [] ==> DeliveredAndLeft(Got(keys[0]), keys[1..]) == keys
  {
  }

  /** A read from an empty queue delivers or queues the key of every keyboard that has one to give, in the
      keyboards' order and with one state, and nothing else; it delivers the first. */
  lemma ReadFromEmpty(poll: Poll) returns (who: seq<nat>)
    ensures
      var (rest, outcome) := Read([], poll);
      var state := Merged(poll.answers, |poll.answers|);
      && Brings(poll, state, who, DeliveredAndLeft(outcome, rest))
      && (outcome.Got? <==> who != []) && (outcome.Nothing? ==> outcome.state == state && rest == [])
  {
    who := FetchedFrom(poll);
    FirstAndRest(Fetched(poll));
    BringsCount(poll, Merged(poll.answers, |poll.answers|), who, Fetched(poll));
    hide Merged, Fetched, Brings;
  }

  /** A read from a queue that is not empty delivers its first key. */
  lemma ReadFromQueue(queue: seq<KeyData>, poll: Poll)
    requires queue != []
    ensures Read(queue, poll) == (queue[1..], Got(queue[0]))
  {
  }

  // How many of the first k keyboards have a wanted key.
  function Rank(answers: seq<Answer>, exported: bool, k: nat): (n: nat)
    requires k <= |answers|
  {
    if k == 0 then 0 else Rank(answers, exported, k - 1) + if Wanted(answers[k - 1], exported) then 1 else 0
  }

  /** No wanted key is lost and the keyboards' order is kept: the key of keyboard i comes after those
      of the keyboards before it, and there are no other keys. */
  lemma {:induction false} AcceptedInOrder(answers: seq<Answer>, exported: bool, k: nat, i: nat)
    requires i < k <= |answers| && Wanted(answers[i], exported)
    ensures |Accepted(answers, exported, k)| == Rank(answers, exported, k)
    ensures Rank(answers, exported, i) < Rank(answers, exported, k)
    ensures Accepted(answers, exported, k)[Rank(answers, exported, i)] == answers[i].data
  {
    AcceptedCount(answers, exported, k - 1);
    if i < k - 1 {
      AcceptedInOrder(answers, exported, k - 1, i);
    }
  }

  lemma {:induction false} AcceptedCount(answers: seq<Answer>, exported: bool, k: nat)
    requires k <= |answers|
    ensures |Accepted(answers, exported, k)| == Rank(answers, exported, k)
  {
    if k > 0 {
      AcceptedCount(answers, exported, k - 1);
    }
  }

  // ----- one read and a series of reads

  function Read(queue: seq<KeyData>, poll: Poll): (r: (seq<KeyData>, Outcome))
  {
    var keys := if queue == [] then Fetched(poll) else queue;
    if keys == [] then ([], Nothing(Merged(poll.answers, |poll.answers|))) else (keys[1..], Got(keys[0]))
  }

  function Queued(queue: seq<KeyData>, polls: seq<Poll>): seq<KeyData>
    decreases |polls|
  {
    if polls == [] then queue else Read(Queued(queue, polls[..|polls| - 1]), polls[|polls| - 1]).0
  }

  // The keys delivered to the caller, in order.
  function Delivered(queue: seq<KeyData>, polls: seq<Poll>): seq<KeyData>
    decreases |polls|
  {
    if polls == [] then []
    else
      var before := polls[..|polls| - 1];
      var last := Read(Queued(queue, before), polls[|polls| - 1]).1;
      if last.Got? then Delivered(queue, before) + [last.data] else Delivered(queue, before)
  }

  // The keys taken from the keyboards, in order: a keyboard is asked only when the queue is empty.
  function Taken(queue: seq<KeyData>, polls: seq<Poll>): seq<KeyData>
    decreases |polls|
  {
    if polls == [] then []
    else
      var before := polls[..|polls| - 1];
      if Queued(queue, before) == [] then Taken(queue, before) + Fetched(polls[|polls| - 1])
      else Taken(queue, before)
  }

  // How many times a keyboard is asked for a key.
  function Asked(queue: seq<KeyData>, polls: seq<Poll>): nat
    decreases |polls|
  {
    if polls == [] then 0
    else
      var before, last := polls[..|polls| - 1], polls[|polls| - 1];
      Asked(queue, before) + if Queued(queue, before) == [] then |last.answers| else 0
  }

  /** Keys are neither lost nor reordered nor invented, whatever the series of reads. */
  lemma {:induction false} NothingLost(queue: seq<KeyData>, polls: seq<Poll>)
    ensures Delivered(queue, polls) + Queued(queue, polls) == queue + Taken(queue, polls)
    decreases |polls|
  {
    hide Fetched;
    if polls == [] {
      assert Delivered(queue, polls) + Queued(queue, polls) == queue + Taken(queue, polls);
    } else {
      var before, last := polls[..|polls| - 1], polls[|polls| - 1];
      NothingLost(queue, before);
      OneRead(Delivered(queue, before), Queued(queue, before), queue + Taken(queue, before), last);
      if Queued(queue, before) == [] {
        assert (queue + Taken(queue, before)) + Fetched(last) == queue + (Taken(queue, before) + Fetched(last));
      }
    }
  }

  lemma OneRead(delivered: seq<KeyData>, queue: seq<KeyData>, all: seq<KeyData>, poll: Poll)
    requires delivered + queue == all
    ensures
      var (rest, outcome) := Read(queue, poll);
      (if outcome.Got? then delivered + [outcome.data] else delivered) + rest ==
      if queue == [] then all + Fetched(poll) else all
  {
    hide Fetched;
    var keys := if queue == [] then Fetched(poll) else queue;
    if keys != [] {
      assert [keys[0]] + keys[1..] == keys;
      assert (delivered + [keys[0]]) + keys[1..] == delivered + keys;
    }
  }
}
