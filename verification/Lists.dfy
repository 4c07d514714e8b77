/** Taking a device out of a list of devices: the first entry that is it goes, the others close up. */
module Lists {

  function RemoveFirst<T(==)>(list: seq<T>, x: T): seq<T> {
    if list == [] then [] else if list[0] == x then list[1..] else [list[0]] + RemoveFirst(list[1..], x)
  }

  // Removing the device that was added last leads back to the list before.
  lemma {:induction false} AddThenRemove<T>(list: seq<T>, x: T)
    requires x !in list
    ensures RemoveFirst(list + [x], x) == list
  {
    if list != [] {
      assert (list + [x])[1..] == list[1..] + [x];
      AddThenRemove(list[1..], x);
    }
  }

  lemma {:induction false} RemovedIsWithin<T>(list: seq<T>, x: T, y: T)
    requires y in RemoveFirst(list, x)
    ensures y in list
  {
    if list[0] != x && y != list[0] {
      RemovedIsWithin(list[1..], x, y);
    }
  }

  lemma {:induction false} RemoveFirstAt<T>(list: seq<T>, x: T, index: nat)
    requires index <= |list| && x !in list[..index] && (index < |list| ==> list[index] == x)
    ensures RemoveFirst(list, x) == if index < |list| then list[..index] + list[index + 1..] else list
    ensures x in list <==> index < |list|
  {
    if list != [] && index > 0 {
      assert list[0] in list[..index] && list[0] != x;
      assert forall y :: y in list[1..][..index - 1] ==> y in list[..index];
      RemoveFirstAt(list[1..], x, index - 1);
      if index < |list| {
        assert list[..index] + list[index + 1..] ==
          [list[0]] + (list[1..][..index - 1] + list[1..][index..]);
      }
    }
  }
}
