/**
The virtual keyboard as a state machine: what registrations, withdrawals, keyboards that come and reads
make of the notifications, of the registrations on the physical keyboards and of the queue of keys.
*/
module TextInput {
  import opened Keys
  import opened KeyNotify
  import opened KeyQueue

  const ALLOC_UNIT := 32

  // The keyboards managed and how many there is room for, the notifications and the next one's
  // identity, the registrations live on all keyboards, the queue, and whether partial keystrokes are
  // wanted.
  datatype Input = Input(devices: seq<int>, room: nat, rows: seq<Notify>, next: int,
                         live: map<int, Registration>, queue: seq<KeyData>, exported: bool)

  datatype Op =
    | Register(key: KeyData, fn: int, memory: bool, handles: seq<int>)
    | Unregister(id: int)
    | AddDevice(device: int, allocations: nat, handles: seq<int>)
    | ReadKey(answers: seq<Answer>)
    | ExposePartialKeys(on: bool)

  // What the first keyboards answer, as many as there are; a keyboard with nothing to say is silent.
  function Padded(answers: seq<Answer>, count: nat): (padded: seq<Answer>)
    ensures |padded| == count
  {
    seq(count, i requires 0 <= i < count => if i < |answers| then answers[i] else SILENT)
  }

  ghost function Registered(s: Input, key: KeyData, fn: int, memory: bool, handles: seq<int>): Input {
    if FirstMatching(s.rows, key, fn) < |s.rows| then s
    else if memory && Grants(s.live, handles, |s.devices|) then
      s.(rows := s.rows + [Notify(s.next, key, fn, handles[..|s.devices|])], next := s.next + 1,
         live := Granted(s.live, ForAllDevices(s.devices, key, fn), handles, |s.devices|))
    else s
  }

  ghost function Unregistered(s: Input, id: int): Input {
    var at := RowOf(s.rows, id);
    if at < |s.rows| then
      s.(rows := s.rows[..at] + s.rows[at + 1..], live := Withdrawn(s.live, s.rows[at].handles, |s.rows[at].handles|))
    else s
  }

  // Room for one more keyboard: every list grows by one unit, or the count stays.
  ghost function Grown(s: Input, allocations: nat): Input {
    if |s.devices| >= s.room && allocations >= |s.rows| + 2 then s.(room := s.room + ALLOC_UNIT) else s
  }

  // A keyboard that is already managed is not started again.
  ghost function Added(s: Input, device: int, allocations: nat, handles: seq<int>): Input {
    var g := Grown(s, allocations);
    if device in s.devices then s
    else if |s.devices| < g.room && Grants(s.live, handles, |s.rows|) then
      g.(devices := s.devices + [device], rows := Extended(s.rows, handles),
         live := Granted(s.live, ForAllRows(device, s.rows), handles, |s.rows|))
    else g
  }

  // The keyboards that are asked, and the flag in force, when a read finds the queue empty.
  ghost function PollNow(s: Input, answers: seq<Answer>): Poll {
    Poll(Padded(answers, |s.devices|), s.exported)
  }

  ghost function Step(s: Input, op: Op): Input {
    match op
    case Register(key, fn, memory, handles) => Registered(s, key, fn, memory, handles)
    case Unregister(id) => Unregistered(s, id)
    case AddDevice(device, allocations, handles) => Added(s, device, allocations, handles)
    case ReadKey(answers) => s.(queue := Read(s.queue, PollNow(s, answers)).0)
    case ExposePartialKeys(on) => s.(exported := on)
  }

  ghost function Run(s: Input, ops: seq<Op>): Input
    decreases |ops|
  {
    if ops == [] then s else Step(Run(s, ops[..|ops| - 1]), ops[|ops| - 1])
  }

  // The reads of a run.
  ghost function Polls(s: Input, ops: seq<Op>): seq<Poll>
    decreases |ops|
  {
    if ops == [] then []
    else
      var before, last := ops[..|ops| - 1], ops[|ops| - 1];
      Polls(s, before) + if last.ReadKey? then [PollNow(Run(s, before), last.answers)] else []
  }

  lemma OneMoreOp(s: Input, ops: seq<Op>, i: nat)
    requires i < |ops|
    ensures Run(s, ops[..i + 1]) == Step(Run(s, ops[..i]), ops[i])
    ensures Polls(s, ops[..i + 1]) ==
            Polls(s, ops[..i]) + if ops[i].ReadKey? then [PollNow(Run(s, ops[..i]), ops[i].answers)] else []
  {
    assert ops[..i + 1][..i] == ops[..i];
  }

  lemma OneMoreRead(queue: seq<KeyData>, polls: seq<Poll>, poll: Poll)
    ensures
      var before := Queued(queue, polls);
      var r := Read(before, poll);
      && Queued(queue, polls + [poll]) == r.0
      && Delivered(queue, polls + [poll]) ==
         (if r.1.Got? then Delivered(queue, polls) + [r.1.data] else Delivered(queue, polls))
      && Asked(queue, polls + [poll]) == Asked(queue, polls) + if before == [] then |poll.answers| else 0
  {
    hide Read;
    assert (polls + [poll])[..|polls|] == polls;
  }

  /** The queue after a run is the one that its reads leave. */
  lemma {:induction false} QueueOfRun(s: Input, ops: seq<Op>)
    ensures Run(s, ops).queue == Queued(s.queue, Polls(s, ops))
    decreases |ops|
  {
    if ops != [] {
      var before, last := ops[..|ops| - 1], ops[|ops| - 1];
      QueueOfRun(s, before);
      if last.ReadKey? {
        OneMoreRead(s.queue, Polls(s, before), PollNow(Run(s, before), last.answers));
      } else {
        OthersKeepQueue(Run(s, before), last);
        assert Polls(s, before) + [] == Polls(s, before);
      }
    }
  }

  lemma OthersKeepQueue(s: Input, op: Op)
    requires !op.ReadKey?
    ensures Step(s, op).queue == s.queue
  {
    hide Matrix, Granted, Grants, Withdrawn, FirstMatching, RowOf;
  }

  // ----- what the operations do, without their own words

  // A notification that is there already answers for the key: the same function and the same key, and no
  // shift or toggle state of its own or the same.
  ghost predicate Covers(row: Notify, key: KeyData, fn: int) {
    && row.fn == fn
    && row.key.key.scanCode == key.key.scanCode && row.key.key.unicodeChar == key.key.unicodeChar
    && (row.key.state.shift == 0 || row.key.state.shift == key.state.shift)
    && (row.key.state.toggle == 0 || row.key.state.toggle == key.state.toggle)
  }

  // The n-th row is the first that covers the key.
  ghost predicate CoveredFirst(rows: seq<Notify>, key: KeyData, fn: int, n: int) {
    0 <= n < |rows| && Covers(rows[n], key, fn) && forall m :: 0 <= m < n ==> !Covers(rows[m], key, fn)
  }

  lemma FirstMatchingCovers(rows: seq<Notify>, key: KeyData, fn: int)
    ensures var n := FirstMatching(rows, key, fn);
      && ((exists m :: CoveredFirst(rows, key, fn, m)) <==> n < |rows|)
      && (n < |rows| ==> CoveredFirst(rows, key, fn, n))
  {
    forall m | 0 <= m < |rows|
      ensures Covers(rows[m], key, fn) <==> IsKeyRegistered(rows[m].key, key) && rows[m].fn == fn
    {
    }
    var n := FirstMatching(rows, key, fn);
    if n < |rows| {
      assert CoveredFirst(rows, key, fn, n);
    }
  }

  // The live registrations are the old ones and these new ones, each on its keyboard.
  ghost predicate OnlyNew(live: map<int, Registration>, live': map<int, Registration>, handles: seq<int>) {
    && (forall h :: h in handles ==> h !in live)
    && (forall h :: h in live' <==> h in live || h in handles)
    && (forall h :: h in live ==> h in live' && live'[h] == live[h])
  }

  /** A new notification: the last in the list, with the key and function given, registered once on each
      keyboard. */
  ghost predicate NewNotification(s: Input, t: Input, key: KeyData, fn: int, id: int) {
    && t.devices == s.devices && t.room == s.room && t.queue == s.queue && t.exported == s.exported
    && |t.rows| == |s.rows| + 1 && t.rows[..|s.rows|] == s.rows
    && var row := t.rows[|s.rows|];
       && row.id == id && row.key == key && row.fn == fn && |row.handles| == |s.devices|
       && OnlyNew(s.live, t.live, row.handles)
       && forall i :: 0 <= i < |s.devices| ==>
            row.handles[i] in t.live && t.live[row.handles[i]] == Registration(s.devices[i], key, fn)
  }

  lemma GrantedOnlyNew(live: map<int, Registration>, requests: seq<Registration>, answers: seq<int>, k: nat)
    requires k <= |requests| && Grants(live, answers, k)
    ensures OnlyNew(live, Granted(live, requests, answers, k), answers[..k])
    ensures forall j :: 0 <= j < k ==>
              answers[j] in Granted(live, requests, answers, k)
              && Granted(live, requests, answers, k)[answers[j]] == requests[j]
  {
    hide Granted;
    forall h: int
      ensures h in Granted(live, requests, answers, k) <==> h in live || h in answers[..k]
      ensures h in live && h !in answers[..k] ==> Granted(live, requests, answers, k)[h] == live[h]
    {
      InGranted(live, requests, answers, k, h);
    }
    forall j | 0 <= j < k
      ensures answers[j] in Granted(live, requests, answers, k)
      ensures Granted(live, requests, answers, k)[answers[j]] == requests[j]
    {
      GrantedAt(live, requests, answers, k, j);
    }
  }

  /** Registering: a covered key changes nothing; any other is a new notification if storage suffices and
      every keyboard gives out a new handle, and changes nothing otherwise. */
  lemma RegisterEffect(s: Input, key: KeyData, fn: int, memory: bool, handles: seq<int>)
    ensures
      var t := Registered(s, key, fn, memory, handles);
      if (exists n :: CoveredFirst(s.rows, key, fn, n)) then t == s
      else if memory && Grants(s.live, handles, |s.devices|) then NewNotification(s, t, key, fn, s.next)
      else t == s
  {
    hide Granted, IsKeyRegistered, Covers, OnlyNew;
    FirstMatchingCovers(s.rows, key, fn);
    if FirstMatching(s.rows, key, fn) == |s.rows| && memory && Grants(s.live, handles, |s.devices|) {
      GrantedOnlyNew(s.live, ForAllDevices(s.devices, key, fn), handles, |s.devices|);
    }
  }

  // The rows that are left are the old ones but for those with this identity, in order.
  ghost predicate LeftOver(rows: seq<Notify>, left: seq<Notify>, id: int, kept: seq<nat>) {
    && |kept| == |left|
    && (forall n, m :: 0 <= n < m < |kept| ==> kept[n] < kept[m])
    && (forall n :: 0 <= n < |kept| ==> kept[n] < |rows| && left[n] == rows[kept[n]] && left[n].id != id)
    && (forall m :: 0 <= m < |rows| && rows[m].id != id ==> m in kept)
  }

  ghost predicate HandleOf(rows: seq<Notify>, id: int, h: int) {
    exists n :: 0 <= n < |rows| && rows[n].id == id && h in rows[n].handles
  }

  /** A notification withdrawn: it is gone, with all its registrations, and nothing else is. */
  ghost predicate WithdrawnOnly(s: Input, t: Input, id: int) {
    && t == s.(rows := t.rows, live := t.live)
    && (exists kept :: LeftOver(s.rows, t.rows, id, kept))
    && (forall h :: h in t.live <==> h in s.live && !HandleOf(s.rows, id, h))
    && (forall h :: h in t.live ==> t.live[h] == s.live[h])
  }

  ghost predicate DistinctIds(rows: seq<Notify>) {
    forall n, m :: 0 <= n < m < |rows| ==> rows[n].id != rows[m].id
  }

  lemma LeftOverOne(rows: seq<Notify>, at: nat)
    requires DistinctIds(rows) && at < |rows|
    ensures
      var left := rows[..at] + rows[at + 1..];
      exists kept :: LeftOver(rows, left, rows[at].id, kept)
  {
    var left := rows[..at] + rows[at + 1..];
    var kept := seq(|left|, n requires 0 <= n => if n < at then n else n + 1);
    forall m | 0 <= m < |rows| && rows[m].id != rows[at].id
      ensures m in kept
    {
      assert kept[if m < at then m else m - 1] == m;
    }
    assert LeftOver(rows, left, rows[at].id, kept);
  }

  lemma OneHandleOf(rows: seq<Notify>, at: nat, h: int)
    requires DistinctIds(rows) && at < |rows|
    ensures HandleOf(rows, rows[at].id, h) <==> h in rows[at].handles
  {
  }

  lemma UnregisterEffect(s: Input, id: int)
    requires DistinctIds(s.rows)
    ensures
      if (exists n :: 0 <= n < |s.rows| && s.rows[n].id == id) then WithdrawnOnly(s, Unregistered(s, id), id)
      else Unregistered(s, id) == s
  {
    hide Withdrawn, LeftOver, HandleOf;
    var at := RowOf(s.rows, id);
    if at < |s.rows| {
      LeftOverOne(s.rows, at);
      var handles := s.rows[at].handles;
      assert handles[..|handles|] == handles;
      forall h: int
        ensures h in Withdrawn(s.live, handles, |handles|) <==> h in s.live && !HandleOf(s.rows, id, h)
        ensures h in Withdrawn(s.live, handles, |handles|) ==> Withdrawn(s.live, handles, |handles|)[h] == s.live[h]
      {
        InWithdrawn(s.live, handles, |handles|, h);
        OneHandleOf(s.rows, at, h);
      }
    }
  }

  /** A keyboard added: every notification has one more handle, which is live on the new keyboard. */
  ghost predicate KeyboardAdded(s: Input, t: Input, device: int, handles: seq<int>) {
    && t.devices == s.devices + [device] && t.next == s.next && t.queue == s.queue && t.exported == s.exported
    && |t.rows| == |s.rows| == |handles| && OnlyNew(s.live, t.live, handles)
    && forall n :: 0 <= n < |s.rows| ==>
         && t.rows[n].id == s.rows[n].id && t.rows[n].key == s.rows[n].key && t.rows[n].fn == s.rows[n].fn
         && t.rows[n].handles == s.rows[n].handles + [handles[n]]
         && handles[n] in t.live && t.live[handles[n]] == Registration(device, s.rows[n].key, s.rows[n].fn)
  }

  /** Adding a keyboard: it needs room, or storage for as many lists as there are notifications and two
      more, and a new handle for every notification; without them nothing but the room may change. */
  lemma AddEffect(s: Input, device: int, allocations: nat, handles: seq<int>)
    requires device !in s.devices && |s.devices| <= s.room
    ensures
      var t := Added(s, device, allocations, handles);
      var full := |s.devices| == s.room;
      && (if (full ==> allocations >= |s.rows| + 2) && Grants(s.live, handles, |s.rows|)
          then KeyboardAdded(s, t, device, handles[..|s.rows|]) else t == s.(room := t.room))
      && t.room == s.room + if full && allocations >= |s.rows| + 2 then 32 else 0
  {
    hide Granted, OnlyNew;
    if Grants(s.live, handles, |s.rows|) {
      GrantedOnlyNew(s.live, ForAllRows(device, s.rows), handles, |s.rows|);
    }
  }

  // ----- what every step keeps

  ghost predicate Inv(s: Input, foreign: map<int, Registration>) {
    && |s.queue| <= s.room && |s.devices| <= s.room
    && Distinct(s.devices) && Unshadowed(s.rows) && Matrix(s.live, foreign, s.devices, s.rows)
  }

  lemma StaysUnshadowed(rows: seq<Notify>, row: Notify)
    requires Unshadowed(rows) && FirstMatching(rows, row.key, row.fn) == |rows|
    ensures Unshadowed(rows + [row])
  {
  }

  lemma RemovalStaysUnshadowed(rows: seq<Notify>, at: nat)
    requires Unshadowed(rows) && at < |rows|
    ensures Unshadowed(rows[..at] + rows[at + 1..])
  {
  }

  lemma ExtendedStaysUnshadowed(rows: seq<Notify>, answers: seq<int>)
    requires Unshadowed(rows) && |rows| <= |answers|
    ensures Unshadowed(Extended(rows, answers))
  {
  }

  lemma DistinctWith(devices: seq<int>, device: int)
    requires Distinct(devices) && device !in devices
    ensures Distinct(devices + [device])
  {
  }

  lemma RegisterKeepsInv(s: Input, foreign: map<int, Registration>, key: KeyData, fn: int, memory: bool,
      handles: seq<int>)
    requires Inv(s, foreign)
    ensures Inv(Registered(s, key, fn, memory, handles), foreign)
  {
    hide Matrix, Unshadowed, Granted, IsKeyRegistered;
    if FirstMatching(s.rows, key, fn) == |s.rows| && memory && Grants(s.live, handles, |s.devices|) {
      WithRow(s.live, foreign, s.devices, s.rows, s.next, key, fn, handles);
      StaysUnshadowed(s.rows, Notify(s.next, key, fn, handles[..|s.devices|]));
    }
  }

  lemma UnregisterKeepsInv(s: Input, foreign: map<int, Registration>, id: int)
    requires Inv(s, foreign)
    ensures Inv(Unregistered(s, id), foreign)
  {
    var at := RowOf(s.rows, id);
    if at < |s.rows| {
      assert |s.rows[at].handles| == |s.devices|;
      hide Matrix, Unshadowed, Withdrawn, IsKeyRegistered;
      WithoutRow(s.live, foreign, s.devices, s.rows, at);
      RemovalStaysUnshadowed(s.rows, at);
    }
  }

  lemma AddKeepsInv(s: Input, foreign: map<int, Registration>, device: int, allocations: nat, handles: seq<int>)
    requires Inv(s, foreign)
    ensures Inv(Added(s, device, allocations, handles), foreign)
  {
    hide Matrix, Unshadowed, Granted, IsKeyRegistered, Distinct;
    if device !in s.devices && Grants(s.live, handles, |s.rows|) {
      WithDevice(s.live, foreign, s.devices, s.rows, device, handles);
      ExtendedStaysUnshadowed(s.rows, handles);
      DistinctWith(s.devices, device);
    }
  }

  lemma ReadFits(queue: seq<KeyData>, poll: Poll, room: nat)
    requires |queue| <= room && |poll.answers| <= room
    ensures |Read(queue, poll).0| <= room
  {
  }

  /** Over any run the registrations on the keyboards are those of other clients and one for each
      notification and keyboard, no notification is useless, and the queue has room for all keys. */
  lemma {:induction false} RunKeepsInv(s: Input, foreign: map<int, Registration>, ops: seq<Op>)
    requires Inv(s, foreign)
    ensures Inv(Run(s, ops), foreign)
    decreases |ops|
  {
    hide Matrix, Unshadowed, Distinct, Registered, Unregistered, Added, Read;
    if ops != [] {
      RunKeepsInv(s, foreign, ops[..|ops| - 1]);
      var before := Run(s, ops[..|ops| - 1]);
      match ops[|ops| - 1]
      case Register(key, fn, memory, handles) => RegisterKeepsInv(before, foreign, key, fn, memory, handles);
      case Unregister(id) => UnregisterKeepsInv(before, foreign, id);
      case AddDevice(device, allocations, handles) => AddKeepsInv(before, foreign, device, allocations, handles);
      case ReadKey(answers) => ReadFits(before.queue, PollNow(before, answers), before.room);
      case ExposePartialKeys(_) =>
    }
  }
}
