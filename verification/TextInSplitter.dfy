/**
The extended text-input side of the console splitter: one virtual keyboard in front of several
physical ones. Key notifications are registered on all of them, keys are read through one queue.
*/
module TextInSplitter {
  import opened Keys
  import opened KeyNotify
  import opened KeyQueue
  import opened TextInput

  datatype Status = Success | OutOfResources | DeviceError | InvalidParameter | NotFound

  /** The physical keyboards: the registrations that are live on them, by handle, and how many times
      one of them was asked for a key. */
  class Keyboards {
    var live: map<int, Registration>
    var asked: nat

    method ReadKeyStrokeEx(answer: Answer) returns (a: Answer)
      modifies this`asked
      ensures a == answer && asked == old(asked) + 1
    {
      asked := asked + 1;
      return answer;
    }

    // The keyboard refuses, or gives out a handle that is not in use.
    method RegisterKeyNotify(device: int, key: KeyData, fn: int, answer: seq<int>) returns (ok: bool, handle: int)
      modifies this`live
      ensures ok == (|answer| == 1 && answer[0] !in old(live))
      ensures ok ==> handle == answer[0] && live == old(live)[handle := Registration(device, key, fn)]
      ensures !ok ==> live == old(live)
    {
      if |answer| != 1 || answer[0] in live {
        return false, 0;
      }
      handle := answer[0];
      live := live[handle := Registration(device, key, fn)];
      return true, handle;
    }

    method UnregisterKeyNotify(device: int, handle: int)
      modifies this`live
      ensures live == if handle in old(live) && old(live)[handle].device == device then old(live) - {handle}
                      else old(live)
    {
      if handle in live && live[handle].device == device {
        live := live - {handle};
      }
    }
  }

  // What is left when a keyboard goes, and all it knew with it.
  ghost function AfterLoss(s: Input, device: int): Input {
    s.(live := Without(s.live, device))
  }

  function AnswerTo(answers: seq<int>, k: nat): seq<int> {
    if k < |answers| then [answers[k]] else []
  }

  class TextInSplitter {
    const keyboards: Keyboards
    var textInExList: seq<int>
    var textInExListCount: nat
    var notifyList: seq<Notify>
    var nextId: int
    var keyQueue: array<KeyData>
    var currentNumberOfKeys: nat
    var virtualKeyStateExported: bool

    // Registrations that other clients made on the keyboards.
    ghost var foreign: map<int, Registration>

    // The notifications, each with the handles of the managed keyboards.
    ghost function Notifications(): (rows: seq<Notify>)
      requires forall n :: 0 <= n < |notifyList| ==> |textInExList| <= |notifyList[n].handles|
      reads this
    {
      Cut(notifyList, |textInExList|)
    }

    ghost function Queue(): (keys: seq<KeyData>)
      requires currentNumberOfKeys <= keyQueue.Length
      reads this, keyQueue
    {
      keyQueue[..currentNumberOfKeys]
    }

    ghost predicate Shape()
      reads this, keyQueue
    {
      && |textInExList| <= textInExListCount
      && currentNumberOfKeys <= textInExListCount <= keyQueue.Length
      && (forall n :: 0 <= n < |notifyList| ==> textInExListCount <= |notifyList[n].handles|)
      && (forall n :: 0 <= n < |notifyList| ==> notifyList[n].id < nextId)
      && (forall n, m :: 0 <= n < m < |notifyList| ==> notifyList[n].id != notifyList[m].id)
    }

    ghost function Abs(): Input
      requires Shape()
      reads this, keyQueue, keyboards
    {
      Input(textInExList, textInExListCount, Notifications(), nextId, keyboards.live, Queue(), virtualKeyStateExported)
    }

    ghost predicate Valid()
      reads this, keyQueue, keyboards
    {
      Shape() && Inv(Abs(), foreign)
    }

    constructor (keyboards: Keyboards)
      ensures Valid() && fresh(keyQueue) && this.keyboards == keyboards
      ensures Abs() == Input([], ALLOC_UNIT, [], 0, keyboards.live, [], false) && foreign == keyboards.live
    {
      this.keyboards := keyboards;
      textInExList := [];
      textInExListCount := ALLOC_UNIT;
      notifyList := [];
      nextId := 0;
      keyQueue := new KeyData[ALLOC_UNIT](_ => KeyData(NO_KEY, NO_STATE));
      currentNumberOfKeys := 0;
      virtualKeyStateExported := false;
      foreign := keyboards.live;
    }

    // ----- notifications

    /** A notification that is already covered is answered with the earlier one. A new one is
        registered on every keyboard, and when one of them refuses it is on none. */
    method RegisterKeyNotify(key: KeyData, fn: int, memory: bool, answers: seq<int>)
      returns (status: Status, id: int)
      requires Valid()
      modifies this`notifyList, this`nextId, keyboards`live
      ensures Valid() && Abs() == Registered(old(Abs()), key, fn, memory, answers)
      ensures
        var s := old(Abs());
        if (exists n :: CoveredFirst(s.rows, key, fn, n)) then
          && status == Success && Abs() == s
          && exists n :: CoveredFirst(s.rows, key, fn, n) && s.rows[n].id == id
        else if memory && Grants(s.live, answers, |s.devices|) then
          && status == Success && NewNotification(s, Abs(), key, fn, id)
          && forall n :: 0 <= n < |s.rows| ==> s.rows[n].id != id
        else status != Success && Abs() == s
    {
      hide Inv, Granted, Grants, IsKeyRegistered, ForAllDevices, NewNotification, CoveredFirst, Registered;
      RegisterKeepsInv(Abs(), foreign, key, fn, memory, answers);
      RegisterEffect(Abs(), key, fn, memory, answers);
      FirstMatchingCovers(Notifications(), key, fn);
      CoveredStays(Abs(), key, fn, memory, answers);
      var link := FindMatching(key, fn);
      if link < |notifyList| {
        return Success, notifyList[link].id;
      }
      status, id := RegisterNew(key, fn, memory, answers);
    }

    lemma CoveredStays(s: Input, key: KeyData, fn: int, memory: bool, handles: seq<int>)
      ensures FirstMatching(s.rows, key, fn) < |s.rows| ==> Registered(s, key, fn, memory, handles) == s
    {
    }

    // A notification that is not covered: it needs storage and the consent of every keyboard.
    method RegisterNew(key: KeyData, fn: int, memory: bool, answers: seq<int>) returns (status: Status, id: int)
      requires Shape() && FirstMatching(Notifications(), key, fn) == |notifyList|
      modifies this`notifyList, this`nextId, keyboards`live
      ensures Shape() && Abs() == Registered(old(Abs()), key, fn, memory, answers)
      ensures if memory && Grants(old(keyboards.live), answers, |textInExList|)
        then status == Success && id == old(nextId) && forall n :: 0 <= n < |old(notifyList)| ==> old(notifyList)[n].id != id
        else status != Success && Abs() == old(Abs())
    {
      hide Granted, IsKeyRegistered, ForAllDevices;
      if !memory {
        return OutOfResources, 0;
      }
      ghost var rows := Notifications();
      var ok, handles := RegisterOnAll(key, fn, answers);
      if !ok {
        return DeviceError, 0;
      }
      notifyList := notifyList + [Notify(nextId, key, fn, handles)];
      id := nextId;
      nextId := nextId + 1;
      assert Notifications() == rows + [Notify(id, key, fn, answers[..|textInExList|])];
      return Success, id;
    }

    method FindMatching(key: KeyData, fn: int) returns (link: nat)
      requires Shape()
      ensures link == FirstMatching(Notifications(), key, fn)
    {
      hide IsKeyRegistered;
      link := 0;
      while link < |notifyList| && !(IsKeyRegistered(notifyList[link].key, key) && notifyList[link].fn == fn)
        invariant 0 <= link <= |notifyList|
        invariant forall m :: 0 <= m < link ==>
                                !(IsKeyRegistered(notifyList[m].key, key) && notifyList[m].fn == fn)
      {
        link := link + 1;
      }
      FirstIs(Notifications(), key, fn, link);
    }

    // The new handle list has room for as many keyboards as the list of keyboards has.
    method RegisterOnAll(key: KeyData, fn: int, answers: seq<int>) returns (ok: bool, handles: seq<int>)
      requires |textInExList| <= textInExListCount
      modifies keyboards`live
      ensures ok <==> Grants(old(keyboards.live), answers, |textInExList|)
      ensures ok ==> |handles| == textInExListCount && handles[..|textInExList|] == answers[..|textInExList|]
      ensures keyboards.live ==
              if ok then Granted(old(keyboards.live), ForAllDevices(textInExList, key, fn), answers, |textInExList|)
              else old(keyboards.live)
    {
      hide Granted;
      ghost var live, requests := keyboards.live, ForAllDevices(textInExList, key, fn);
      handles := seq(textInExListCount, _ => 0);
      NoneGranted(live, requests, answers);
      var index := 0;
      while index < |textInExList|
        invariant 0 <= index <= |textInExList| && |handles| == textInExListCount
        invariant Grants(live, answers, index) && handles[..index] == answers[..index]
        invariant keyboards.live == Granted(live, requests, answers, index)
      {
        var granted, handle := keyboards.RegisterKeyNotify(textInExList[index], key, fn, AnswerTo(answers, index));
        NextAnswer(live, requests, answers, index);
        if !granted {
          while index != 0
            invariant 0 <= index < |textInExList| && |handles| == textInExListCount
            invariant Grants(live, answers, index) && handles[..index] == answers[..index]
            invariant keyboards.live == Granted(live, requests, answers, index)
          {
            TakeBack(live, requests, answers, index);
            index := index - 1;
            assert handles[index] == handles[..index + 1][index] == answers[..index + 1][index];
            keyboards.UnregisterKeyNotify(textInExList[index], handles[index]);
          }
          NoneGranted(live, requests, answers);
          return false, [];
        }
        handles := handles[index := handle];
        index := index + 1;
      }
      return true, handles;
    }

    method UnregisterKeyNotify(id: int) returns (status: Status)
      requires Valid()
      modifies this`notifyList, keyboards`live
      ensures Valid() && Abs() == Unregistered(old(Abs()), id)
      ensures
        if (exists n :: 0 <= n < |old(notifyList)| && old(notifyList)[n].id == id) then
          status == Success && WithdrawnOnly(old(Abs()), Abs(), id)
        else status == InvalidParameter && Abs() == old(Abs())
    {
      hide Matrix, Unshadowed, Distinct, Withdrawn, RowOf, WithdrawnOnly;
      UnregisterEffect(Abs(), id);
      SameIds(notifyList, Notifications(), id);
      UnregisterKeepsInv(Abs(), foreign, id);
      ghost var rows := Notifications();
      var link := FindRow(id);
      if link == |notifyList| {
        return InvalidParameter;
      }
      WithdrawFromAll(link);
      RemoveRow(link);
      return Success;
    }

    method RemoveRow(link: nat)
      requires Shape() && link < |notifyList|
      modifies this`notifyList
      ensures Shape() && Notifications() == old(Notifications())[..link] + old(Notifications())[link + 1..]
    {
      var list := notifyList;
      notifyList := list[..link] + list[link + 1..];
      assert forall n :: 0 <= n < |notifyList| ==> notifyList[n] == list[if n < link then n else n + 1];
    }

    method FindRow(id: int) returns (link: nat)
      requires Shape()
      ensures link == RowOf(Notifications(), id)
    {
      link := 0;
      while link < |notifyList| && notifyList[link].id != id
        invariant 0 <= link <= |notifyList|
        invariant forall m :: 0 <= m < link ==> notifyList[m].id != id
      {
        link := link + 1;
      }
      RowIs(Notifications(), id, link);
    }

    method WithdrawFromAll(link: nat)
      requires Valid() && link < |notifyList|
      modifies keyboards`live
      ensures |Notifications()[link].handles| == |textInExList|
      ensures keyboards.live == Withdrawn(old(keyboards.live), Notifications()[link].handles, |textInExList|)
    {
      hide Unshadowed, IsKeyRegistered;
      ghost var live, handles := keyboards.live, Notifications()[link].handles;
      var index := 0;
      while index < |textInExList|
        invariant 0 <= index <= |textInExList|
        invariant keyboards.live == Withdrawn(live, handles, index)
      {
        assert Holds(live, foreign, textInExList, Notifications(), link, index);
        forall j | 0 <= j < index
          ensures handles[j] != handles[index]
        {
          assert Holds(live, foreign, textInExList, Notifications(), link, j);
        }
        InWithdrawn(live, handles, index, handles[index]);
        assert notifyList[link].handles[index] == handles[index];
        keyboards.UnregisterKeyNotify(textInExList[index], notifyList[link].handles[index]);
        index := index + 1;
      }
    }

    // ----- keyboards that come and go

    /** Every notification is registered on a keyboard that comes, and when the keyboard refuses one,
        or storage runs out, none is. */
    method TextInExAddDevice(device: int, allocations: nat, answers: seq<int>) returns (status: Status)
      requires Valid() && device !in textInExList
      modifies this`textInExList, this`textInExListCount, this`notifyList, this`keyQueue, keyboards`live
      ensures Valid() && Abs() == Added(old(Abs()), device, allocations, answers)
      ensures keyQueue == old(keyQueue) || fresh(keyQueue)
      ensures status == Success ==> |old(notifyList)| <= |answers|
      ensures status == Success <==>
        && (old(|textInExList| == textInExListCount) ==> allocations >= |old(notifyList)| + 2)
        && Grants(old(keyboards.live), answers, |old(notifyList)|)
      ensures status == Success ==> KeyboardAdded(old(Abs()), Abs(), device, answers[..|old(notifyList)|])
      ensures status != Success ==> Abs() == old(Abs()).(room := textInExListCount)
    {
      hide Matrix, Unshadowed, Distinct, Granted, IsKeyRegistered, KeyboardAdded;
      AddEffect(Abs(), device, allocations, answers);
      AddKeepsInv(Abs(), foreign, device, allocations, answers);
      ghost var rows := Notifications();
      if |textInExList| >= textInExListCount {
        var grown := Grow(allocations);
        if !grown {
          return OutOfResources;
        }
      }
      var ok := RegisterEveryRow(device, answers);
      if !ok {
        return DeviceError;
      }
      textInExList := textInExList + [device];
      assert Notifications() == Extended(rows, answers);
      return Success;
    }

    // All lists grow together. When storage runs out on the way, those that have grown stay so, and
    // the common count of what they have room for does not change.
    method Grow(allocations: nat) returns (ok: bool)
      requires Shape() && |textInExList| == textInExListCount
      modifies this`notifyList, this`keyQueue, this`textInExListCount
      ensures Shape() && ok == (allocations >= |notifyList| + 2)
      ensures textInExListCount == old(textInExListCount) + if ok then ALLOC_UNIT else 0
      ensures Notifications() == old(Notifications())
      ensures Queue() == old(Queue()) && (keyQueue == old(keyQueue) || fresh(keyQueue))
    {
      GrowHandleLists(allocations);
      if allocations < |notifyList| {
        return false;
      }
      if allocations < |notifyList| + 1 {
        return false;
      }
      keyQueue := new KeyData[textInExListCount + ALLOC_UNIT](i requires 0 <= i reads this, keyQueue =>
        if i < textInExListCount && i < keyQueue.Length then keyQueue[i] else KeyData(NO_KEY, NO_STATE));
      if allocations < |notifyList| + 2 {
        return false;
      }
      textInExListCount := textInExListCount + ALLOC_UNIT;
      return true;
    }

    method GrowHandleLists(allocations: nat)
      requires Shape() && |textInExList| == textInExListCount
      modifies this`notifyList
      ensures Shape() && |notifyList| == |old(notifyList)| && Notifications() == old(Notifications())
      ensures forall n :: 0 <= n < |notifyList| && n < allocations ==>
                            |notifyList[n].handles| == textInExListCount + ALLOC_UNIT
    {
      ghost var list, rows := notifyList, Notifications();
      var link := 0;
      while link < |notifyList| && link < allocations
        invariant 0 <= link <= |notifyList| == |list|
        invariant Shape() && Notifications() == rows
        invariant forall n :: 0 <= n < link ==> |notifyList[n].handles| == textInExListCount + ALLOC_UNIT
      {
        var wider := notifyList[link].handles[..textInExListCount] + seq(ALLOC_UNIT, _ => 0);
        SameCut(notifyList, link, wider, textInExListCount);
        notifyList := notifyList[link := notifyList[link].(handles := wider)];
        link := link + 1;
      }
    }

    method RegisterEveryRow(device: int, answers: seq<int>) returns (ok: bool)
      requires Shape() && |textInExList| < textInExListCount
      modifies this`notifyList, keyboards`live
      ensures Shape() && Notifications() == old(Notifications())
      ensures |notifyList| == |old(notifyList)|
      ensures ok <==> Grants(old(keyboards.live), answers, |notifyList|)
      ensures ok ==> Cut(notifyList, |textInExList| + 1) == Extended(old(Notifications()), answers)
      ensures keyboards.live ==
              if ok then
                Granted(old(keyboards.live), ForAllRows(device, old(Notifications())), answers, |notifyList|)
              else old(keyboards.live)
    {
      hide Granted, Grants, Extended;
      ghost var live, rows, requests := keyboards.live, Notifications(), ForAllRows(device, Notifications());
      var column := |textInExList|;
      var link := 0;
      NoneGranted(live, requests, answers);
      while link < |notifyList|
        invariant 0 <= link <= |notifyList| == |rows|
        invariant Shape() && Notifications() == rows
        invariant link <= |answers| && Grants(live, answers, link)
        invariant forall n :: 0 <= n < link ==> notifyList[n].handles[column] == answers[n]
        invariant keyboards.live == Granted(live, requests, answers, link)
      {
        var granted := RegisterRow(device, answers, link, live, requests);
        if !granted {
          RollBack(device, live, requests, answers, link);
          return false;
        }
        link := link + 1;
      }
      WiderCut(notifyList, rows, answers, column);
      return true;
    }

    // One row: the keyboard is asked, and its handle goes into the new column.
    method RegisterRow(device: int, answers: seq<int>, link: nat, ghost live: map<int, Registration>,
        ghost requests: seq<Registration>) returns (granted: bool)
      requires Shape() && |textInExList| < textInExListCount && link < |notifyList| == |requests|
      requires requests[link] == Registration(device, notifyList[link].key, notifyList[link].fn)
      requires link <= |answers| && Grants(live, answers, link)
      requires keyboards.live == Granted(live, requests, answers, link)
      modifies this`notifyList, keyboards`live
      ensures Shape() && Notifications() == old(Notifications()) && |notifyList| == |old(notifyList)|
      ensures forall n :: 0 <= n < |notifyList| && n != link ==> notifyList[n] == old(notifyList)[n]
      ensures granted <==> Grants(live, answers, link + 1)
      ensures granted ==>
                link + 1 <= |answers| && notifyList[link].handles[|textInExList|] == answers[link]
                && keyboards.live == Granted(live, requests, answers, link + 1)
      ensures !granted ==> keyboards.live == old(keyboards.live) && !Grants(live, answers, |notifyList|)
    {
      hide Granted, Grants, Cut;
      NextAnswer(live, requests, answers, link);
      var handle;
      granted, handle :=
        keyboards.RegisterKeyNotify(device, notifyList[link].key, notifyList[link].fn, AnswerTo(answers, link));
      if granted {
        SetHandle(link, handle);
      }
    }

    // The slot is beyond those that count until the keyboard is in the list.
    method SetHandle(link: nat, handle: int)
      requires Shape() && |textInExList| < textInExListCount && link < |notifyList|
      modifies this`notifyList
      ensures Shape() && Notifications() == old(Notifications()) && |notifyList| == |old(notifyList)|
      ensures notifyList[link].handles[|textInExList|] == handle
      ensures forall n :: 0 <= n < |notifyList| && n != link ==> notifyList[n] == old(notifyList)[n]
    {
      var handles := notifyList[link].handles[|textInExList| := handle];
      SameCut(notifyList, link, handles, |textInExList|);
      notifyList := notifyList[link := notifyList[link].(handles := handles)];
    }

    method RollBack(device: int, ghost live: map<int, Registration>, ghost requests: seq<Registration>,
        ghost answers: seq<int>, last: nat)
      requires Shape() && |textInExList| < textInExListCount && last <= |notifyList| == |requests|
      requires forall n :: 0 <= n < last ==> requests[n].device == device
      requires Grants(live, answers, last) && keyboards.live == Granted(live, requests, answers, last)
      requires forall n :: 0 <= n < last ==> notifyList[n].handles[|textInExList|] == answers[n]
      modifies keyboards`live
      ensures keyboards.live == live
    {
      hide Granted;
      var link := last;
      while link != 0
        invariant 0 <= link <= last
        invariant Grants(live, answers, link)
        invariant keyboards.live == Granted(live, requests, answers, link)
      {
        TakeBack(live, requests, answers, link);
        link := link - 1;
        keyboards.UnregisterKeyNotify(device, notifyList[link].handles[|textInExList|]);
      }
      NoneGranted(live, requests, answers);
    }

    /** A keyboard is dropped from the list. Nothing is taken back on it, and the rows of handles do
        not close up with the list: the state stays valid just when there is no notification, and, in
        case the keyboard goes too and all it knew with it, when it was the last in the list. */
    method TextInExDeleteDevice(device: int) returns (status: Status)
      requires Valid()
      modifies this`textInExList
      ensures Shape() && status == if device in old(textInExList) then Success else NotFound
      ensures status == NotFound ==> Valid() && Abs() == old(Abs())
      ensures status == Success ==>
                exists k :: && 0 <= k < |old(textInExList)| && old(textInExList)[k] == device
                            && textInExList == old(textInExList)[..k] + old(textInExList)[k + 1..]
                            && (Valid() <==> notifyList == [])
                            && (Inv(AfterLoss(Abs(), device), Without(foreign, device)) <==>
                                k == |old(textInExList)| - 1 || notifyList == [])
    {
      hide Matrix, Unshadowed, Distinct;
      var index := 0;
      while index < |textInExList| && textInExList[index] != device
        invariant 0 <= index <= |textInExList| && device !in textInExList[..index]
      {
        index := index + 1;
      }
      if index == |textInExList| {
        return NotFound;
      }
      ghost var devices, rows := textInExList, Notifications();
      RemovalKeepsMatrix(keyboards.live, foreign, devices, rows, index);
      LossKeepsMatrix(keyboards.live, foreign, devices, rows, index);
      CutAgain(notifyList, |devices|, |devices| - 1);
      RemovalStaysDistinct(devices, index);
      CutStaysUnshadowed(rows, |devices| - 1);
      CloseUp(index);
      return Success;
    }

    method CloseUp(k: nat)
      requires k < |textInExList|
      modifies this`textInExList
      ensures textInExList == old(textInExList)[..k] + old(textInExList)[k + 1..]
    {
      ghost var devices := textInExList;
      var index := k;
      while index < |textInExList| - 1
        invariant k <= index < |textInExList| == |devices|
        invariant textInExList == devices[..k] + devices[k + 1..index + 1] + devices[index..]
      {
        textInExList := textInExList[index := textInExList[index + 1]];
        index := index + 1;
        assert devices[k + 1..index + 1] == devices[k + 1..index] + [devices[index]];
      }
      textInExList := textInExList[..|textInExList| - 1];
    }

    // ----- keys

    method DequeueKey() returns (outcome: seq<KeyData>)
      requires Shape()
      modifies this`currentNumberOfKeys, keyQueue
      ensures Shape()
      ensures old(Queue()) == [] ==> outcome == [] && Queue() == []
      ensures old(Queue()) != [] ==> outcome == [old(Queue())[0]] && Queue() == old(Queue())[1..]
    {
      if currentNumberOfKeys == 0 {
        return [];
      }
      outcome := [keyQueue[0]];
      currentNumberOfKeys := currentNumberOfKeys - 1;
      forall i | 0 <= i < currentNumberOfKeys {
        keyQueue[i] := keyQueue[i + 1];
      }
    }

    /** One read, as of the queue: the keyboards are asked only when the queue is empty, and all keys
        of one poll get the same state. */
    method ReadKeyStrokeEx(answers: seq<Answer>) returns (outcome: Outcome)
      requires Shape() && |answers| == |textInExList|
      modifies this`currentNumberOfKeys, keyQueue, keyboards`asked
      ensures keyboards.asked == old(keyboards.asked) + if old(Queue()) == [] then |textInExList| else 0
      ensures Shape() && (Queue(), outcome) == Read(old(Queue()), Poll(answers, virtualKeyStateExported))
      ensures old(Queue()) != [] ==> outcome == Got(old(Queue())[0]) && Queue() == old(Queue())[1..]
      ensures old(Queue()) == [] ==>
        exists who :: Brings(Poll(answers, virtualKeyStateExported), Merged(answers, |answers|), who,
                             DeliveredAndLeft(outcome, Queue()))
    {
      hide Accepted, Merged, Stamped, Brings;
      ghost var who := ReadFromEmpty(Poll(answers, virtualKeyStateExported));
      var first := DequeueKey();
      if first != [] {
        return Got(first[0]);
      }
      var state := PollKeyboards(answers);
      StampKeys(state);
      first := DequeueKey();
      if first != [] {
        return Got(first[0]);
      }
      return Nothing(state);
    }

    method PollKeyboards(answers: seq<Answer>) returns (state: KeyState)
      requires Shape() && currentNumberOfKeys == 0 && |answers| == |textInExList|
      modifies this`currentNumberOfKeys, keyQueue, keyboards`asked
      ensures Shape() && Queue() == Accepted(answers, virtualKeyStateExported, |answers|)
      ensures state == Merged(answers, |answers|)
      ensures keyboards.asked == old(keyboards.asked) + |textInExList|
    {
      hide AddState, Wanted;
      state := NO_STATE;
      var index := 0;
      while index < |textInExList|
        invariant 0 <= index <= |textInExList| && Shape()
        invariant Queue() == Accepted(answers, virtualKeyStateExported, index)
        invariant state == Merged(answers, index)
        invariant keyboards.asked == old(keyboards.asked) + index
      {
        var answer := keyboards.ReadKeyStrokeEx(answers[index]);
        state := AddAnswer(state, answer);
        index := index + 1;
      }
    }

    method AddAnswer(before: KeyState, answer: Answer) returns (state: KeyState)
      requires Shape() && currentNumberOfKeys < textInExListCount
      modifies this`currentNumberOfKeys, keyQueue
      ensures Shape() && state == AddState(before, answer)
      ensures Queue() == old(Queue()) + if Wanted(answer, virtualKeyStateExported) then [answer.data] else []
    {
      hide EitherShift, EitherToggle, ShiftValid, ToggleValid;
      state := before;
      if answer.Broken? {
        return state;
      }
      if ShiftValid(answer.data.state.shift) {
        state := state.(shift := EitherShift(state.shift, answer.data.state.shift));
      }
      if ToggleValid(answer.data.state.toggle) {
        state := state.(toggle := EitherToggle(state.toggle, answer.data.state.toggle));
      }
      if answer.Pressed? {
        if virtualKeyStateExported || answer.data.key.scanCode != 0 || answer.data.key.unicodeChar != 0 {
          keyQueue[currentNumberOfKeys] := answer.data;
          currentNumberOfKeys := currentNumberOfKeys + 1;
        }
      }
    }

    method StampKeys(state: KeyState)
      requires Shape()
      modifies keyQueue
      ensures Shape() && Queue() == Stamped(old(Queue()), state)
    {
      var index := 0;
      while index < currentNumberOfKeys
        invariant 0 <= index <= currentNumberOfKeys
        invariant forall i :: 0 <= i < index ==> keyQueue[i] == KeyData(old(keyQueue[i]).key, state)
        invariant forall i :: index <= i < currentNumberOfKeys ==> keyQueue[i] == old(keyQueue[i])
      {
        keyQueue[index] := keyQueue[index].(state := state);
        index := index + 1;
      }
    }

    // ----- any run

    /** Any run of registrations, withdrawals, keyboards added and reads: the driver is where the state
        machine is, each read asks the keyboards managed at the time, and only when the queue is empty,
        and the keys delivered and queued are those taken from them, in order. */
    method DoAll(ops: seq<Op>) returns (delivered: seq<KeyData>)
      requires Valid()
      modifies this, keyboards, keyQueue
      ensures Valid() && foreign == old(foreign) && Abs() == Run(old(Abs()), ops)
      ensures delivered == Delivered(old(Queue()), Polls(old(Abs()), ops))
      ensures delivered + Queue() == old(Queue()) + Taken(old(Queue()), Polls(old(Abs()), ops))
      ensures keyboards.asked == old(keyboards.asked) + Asked(old(Queue()), Polls(old(Abs()), ops))
    {
      hide Inv, Step, Run, Polls, Queued, Delivered, Asked;
      ghost var start, asked := Abs(), keyboards.asked;
      delivered := [];
      NothingDone(start);
      for i := 0 to |ops|
        invariant Valid() && foreign == old(foreign) && Abs() == Run(start, ops[..i])
        invariant keyQueue == old(keyQueue) || fresh(keyQueue)
        invariant delivered == Delivered(start.queue, Polls(start, ops[..i]))
        invariant keyboards.asked == asked + Asked(start.queue, Polls(start, ops[..i]))
      {
        OneMoreOp(start, ops, i);
        QueueOfRun(start, ops[..i]);
        match ops[i]
        case ReadKey(answers) =>
          OneMoreRead(start.queue, Polls(start, ops[..i]), PollNow(Abs(), answers));
          var key := DoRead(answers);
          delivered := delivered + key;
        case _ =>
          assert Polls(start, ops[..i]) + [] == Polls(start, ops[..i]);
          DoOther(ops[i]);
      }
      assert ops[..|ops|] == ops;
      QueueOfRun(start, ops);
      NothingLost(start.queue, Polls(start, ops));
    }

    lemma NothingDone(s: Input)
      ensures Run(s, []) == s && Polls(s, []) == []
      ensures Delivered(s.queue, []) == [] && Asked(s.queue, []) == 0
    {
    }

    method DoRead(answers: seq<Answer>) returns (key: seq<KeyData>)
      requires Valid()
      modifies this`currentNumberOfKeys, keyQueue, keyboards`asked
      ensures Valid() && Abs() == Step(old(Abs()), ReadKey(answers))
      ensures
        var (rest, outcome) := Read(old(Queue()), PollNow(old(Abs()), answers));
        key == if outcome.Got? then [outcome.data] else []
      ensures keyboards.asked == old(keyboards.asked) + if old(Queue()) == [] then |textInExList| else 0
    {
      hide Matrix, Unshadowed, Distinct, Read;
      ReadFits(Queue(), PollNow(Abs(), answers), textInExListCount);
      var outcome := ReadKeyStrokeEx(Padded(answers, |textInExList|));
      return if outcome.Got? then [outcome.data] else [];
    }

    // A keyboard that is already managed is not started again.
    method DoOther(op: Op)
      requires Valid() && !op.ReadKey?
      modifies this`textInExList, this`textInExListCount, this`notifyList, this`nextId, this`keyQueue,
               this`virtualKeyStateExported, keyboards`live
      ensures Valid() && Abs() == Step(old(Abs()), op)
      ensures keyQueue == old(keyQueue) || fresh(keyQueue)
    {
      hide Matrix, Unshadowed, Distinct;
      match op
      case Register(key, fn, memory, handles) =>
        var _, _ := RegisterKeyNotify(key, fn, memory, handles);
      case Unregister(id) =>
        var _ := UnregisterKeyNotify(id);
      case AddDevice(device, allocations, handles) =>
        if device !in textInExList {
          var _ := TextInExAddDevice(device, allocations, handles);
        }
      case ExposePartialKeys(on) =>
        virtualKeyStateExported := on;
    }
  }

  // ----- lemmas for the loops above

  lemma NoneGranted(live: map<int, Registration>, requests: seq<Registration>, answers: seq<int>)
    ensures Granted(live, requests, answers, 0) == live && Grants(live, answers, 0)
  {
  }

  lemma NextAnswer(live: map<int, Registration>, requests: seq<Registration>, answers: seq<int>, k: nat)
    requires k < |requests| && Grants(live, answers, k)
    ensures Grants(live, answers, k + 1) <==>
            k < |answers| && answers[k] !in Granted(live, requests, answers, k)
    ensures Grants(live, answers, k + 1) ==> k + 1 <= |answers|
    ensures !Grants(live, answers, k + 1) ==> forall n :: k < n ==> !Grants(live, answers, n)
    ensures Grants(live, answers, k + 1) ==>
              Granted(live, requests, answers, k + 1) ==
              Granted(live, requests, answers, k)[answers[k] := requests[k]]
  {
    if k < |answers| {
      InGranted(live, requests, answers, k, answers[k]);
    }
  }

  lemma {:induction false} FirstIs(rows: seq<Notify>, key: KeyData, fn: int, link: nat)
    requires link <= |rows|
    requires forall m :: 0 <= m < link ==> !(IsKeyRegistered(rows[m].key, key) && rows[m].fn == fn)
    requires link < |rows| ==> IsKeyRegistered(rows[link].key, key) && rows[link].fn == fn
    ensures FirstMatching(rows, key, fn) == link
  {
    if link > 0 {
      FirstIs(rows[1..], key, fn, link - 1);
    }
  }

  lemma {:induction false} RowIs(rows: seq<Notify>, id: int, link: nat)
    requires link <= |rows|
    requires forall m :: 0 <= m < link ==> rows[m].id != id
    requires link < |rows| ==> rows[link].id == id
    ensures RowOf(rows, id) == link
  {
    if link > 0 {
      RowIs(rows[1..], id, link - 1);
    }
  }

  lemma SameIds(list: seq<Notify>, rows: seq<Notify>, id: int)
    requires |rows| == |list| && forall n :: 0 <= n < |list| ==> rows[n].id == list[n].id
    ensures (exists n :: 0 <= n < |list| && list[n].id == id) <==> exists n :: 0 <= n < |rows| && rows[n].id == id
  {
  }

  // A handle list that changes beyond the columns that count.
  lemma SameCut(list: seq<Notify>, link: nat, handles: seq<int>, count: nat)
    requires link < |list| && (forall n :: 0 <= n < |list| ==> count <= |list[n].handles|)
    requires count <= |handles| && handles[..count] == list[link].handles[..count]
    ensures Cut(list[link := list[link].(handles := handles)], count) == Cut(list, count)
  {
  }

  lemma RemovalStaysDistinct(devices: seq<int>, k: nat)
    requires Distinct(devices) && k < |devices|
    ensures Distinct(devices[..k] + devices[k + 1..])
  {
  }

  lemma CutAgain(list: seq<Notify>, count: nat, fewer: nat)
    requires fewer <= count && forall n :: 0 <= n < |list| ==> count <= |list[n].handles|
    ensures Cut(list, fewer) == Cut(Cut(list, count), fewer)
  {
    forall n | 0 <= n < |list|
      ensures list[n].handles[..fewer] == list[n].handles[..count][..fewer]
    {
    }
  }

  lemma CutStaysUnshadowed(rows: seq<Notify>, fewer: nat)
    requires Unshadowed(rows) && forall n :: 0 <= n < |rows| ==> fewer <= |rows[n].handles|
    ensures Unshadowed(Cut(rows, fewer))
  {
  }

  lemma WiderCut(list: seq<Notify>, rows: seq<Notify>, answers: seq<int>, column: nat)
    requires forall n :: 0 <= n < |list| ==> column < |list[n].handles|
    requires Cut(list, column) == rows && |list| <= |answers|
    requires forall n :: 0 <= n < |list| ==> list[n].handles[column] == answers[n]
    ensures Cut(list, column + 1) == Extended(rows, answers)
  {
    forall n | 0 <= n < |list|
      ensures Cut(list, column + 1)[n] == Extended(rows, answers)[n]
    {
      assert rows[n] == list[n].(handles := list[n].handles[..column]);
      assert list[n].handles[..column + 1] == list[n].handles[..column] + [answers[n]];
    }
  }
}
