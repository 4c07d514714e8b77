/**
The matrix of key notifications: every notification of the virtual keyboard is registered on every
physical one, and the handles that the physical keyboards gave out are kept, a row a notification
and a column a keyboard.
*/
module KeyNotify {
  import opened Keys

  // What a physical keyboard remembers of a registration.
  datatype Registration = Registration(device: int, key: KeyData, fn: int)

  datatype Notify = Notify(id: int, key: KeyData, fn: int, handles: seq<int>)

  // ----- a series of registrations and its withdrawal

  // The first k requests are granted: the keyboards hand out k handles that are new and distinct.
  ghost predicate Grants(live: map<int, Registration>, answers: seq<int>, k: nat) {
    && k <= |answers|
    && (forall j :: 0 <= j < k ==> answers[j] !in live)
    && (forall i, j :: 0 <= i < j < k ==> answers[i] != answers[j])
  }

  ghost function Granted(live: map<int, Registration>, requests: seq<Registration>, answers: seq<int>, k: nat)
    : map<int, Registration>
    requires k <= |requests| && k <= |answers|
  {
    if k == 0 then live else Granted(live, requests, answers, k - 1)[answers[k - 1] := requests[k - 1]]
  }

  lemma {:induction false} InGranted(live: map<int, Registration>, requests: seq<Registration>, answers: seq<int>,
      k: nat, h: int)
    requires k <= |requests| && k <= |answers|
    ensures h in Granted(live, requests, answers, k) <==> h in live || h in answers[..k]
    ensures h in live && h !in answers[..k] ==> Granted(live, requests, answers, k)[h] == live[h]
  {
    if k > 0 {
      InGranted(live, requests, answers, k - 1, h);
      assert answers[..k] == answers[..k - 1] + [answers[k - 1]];
    }
  }

  lemma {:induction false} GrantedAt(live: map<int, Registration>, requests: seq<Registration>, answers: seq<int>,
      k: nat, j: nat)
    requires k <= |requests| && Grants(live, answers, k) && j < k
    ensures answers[j] in Granted(live, requests, answers, k)
    ensures Granted(live, requests, answers, k)[answers[j]] == requests[j]
  {
    if j < k - 1 {
      GrantedAt(live, requests, answers, k - 1, j);
    }
  }

  // Taking the last registration back.
  lemma TakeBack(live: map<int, Registration>, requests: seq<Registration>, answers: seq<int>, k: nat)
    requires 0 < k <= |requests| && Grants(live, answers, k)
    ensures answers[k - 1] in Granted(live, requests, answers, k)
    ensures Granted(live, requests, answers, k)[answers[k - 1]] == requests[k - 1]
    ensures Granted(live, requests, answers, k) - {answers[k - 1]} == Granted(live, requests, answers, k - 1)
  {
    InGranted(live, requests, answers, k - 1, answers[k - 1]);
  }

  ghost function Withdrawn(live: map<int, Registration>, handles: seq<int>, k: nat): map<int, Registration>
    requires k <= |handles|
  {
    if k == 0 then live else Withdrawn(live, handles, k - 1) - {handles[k - 1]}
  }

  lemma {:induction false} InWithdrawn(live: map<int, Registration>, handles: seq<int>, k: nat, h: int)
    requires k <= |handles|
    ensures h in Withdrawn(live, handles, k) <==> h in live && h !in handles[..k]
    ensures h in Withdrawn(live, handles, k) ==> Withdrawn(live, handles, k)[h] == live[h]
  {
    if k > 0 {
      InWithdrawn(live, handles, k - 1, h);
      assert handles[..k] == handles[..k - 1] + [handles[k - 1]];
    }
  }

  // ----- the requests

  ghost function ForAllDevices(devices: seq<int>, key: KeyData, fn: int): (rs: seq<Registration>)
    ensures |rs| == |devices|
  {
    seq(|devices|, i requires 0 <= i < |devices| => Registration(devices[i], key, fn))
  }

  ghost function ForAllRows(device: int, rows: seq<Notify>): (rs: seq<Registration>)
    ensures |rs| == |rows|
  {
    seq(|rows|, n requires 0 <= n < |rows| => Registration(device, rows[n].key, rows[n].fn))
  }

  // ----- the rows as far as there are keyboards

  // The handle lists are longer than there are keyboards; only the start counts.
  ghost function Cut(list: seq<Notify>, count: nat): (rows: seq<Notify>)
    requires forall n :: 0 <= n < |list| ==> count <= |list[n].handles|
    ensures |rows| == |list|
  {
    seq(|list|, n requires 0 <= n < |list| => list[n].(handles := list[n].handles[..count]))
  }

  ghost function Extended(rows: seq<Notify>, answers: seq<int>): (wider: seq<Notify>)
    requires |rows| <= |answers|
    ensures |wider| == |rows|
  {
    seq(|rows|, n requires 0 <= n < |rows| => rows[n].(handles := rows[n].handles + [answers[n]]))
  }

  // Where the first row is that answers for this key and function; the length if there is none.
  function FirstMatching(rows: seq<Notify>, key: KeyData, fn: int): (n: nat)
    ensures n <= |rows|
    ensures n < |rows| ==> IsKeyRegistered(rows[n].key, key) && rows[n].fn == fn
    ensures forall m :: 0 <= m < n ==> !(IsKeyRegistered(rows[m].key, key) && rows[m].fn == fn)
  {
    if rows == [] then 0
    else if IsKeyRegistered(rows[0].key, key) && rows[0].fn == fn then 0
    else 1 + FirstMatching(rows[1..], key, fn)
  }

  // Where the row is that was given out under this id; the length if there is none.
  function RowOf(rows: seq<Notify>, id: int): (n: nat)
    ensures n <= |rows|
    ensures n < |rows| ==> rows[n].id == id
    ensures forall m :: 0 <= m < n ==> rows[m].id != id
  {
    if rows == [] then 0 else if rows[0].id == id then 0 else 1 + RowOf(rows[1..], id)
  }

  // No row is made useless by an earlier one.
  ghost predicate Unshadowed(rows: seq<Notify>) {
    forall n, m :: 0 <= n < m < |rows| ==> !(IsKeyRegistered(rows[n].key, rows[m].key) && rows[n].fn == rows[m].fn)
  }

  ghost predicate Distinct(devices: seq<int>) {
    forall i, j :: 0 <= i < j < |devices| ==> devices[i] != devices[j]
  }

  // ----- the matrix

  ghost predicate At(rows: seq<Notify>, n: int, i: int, h: int) {
    0 <= n < |rows| && 0 <= i < |rows[n].handles| && rows[n].handles[i] == h
  }

  // The registration behind a handle of the matrix.
  ghost predicate Holds(live: map<int, Registration>, foreign: map<int, Registration>, devices: seq<int>,
      rows: seq<Notify>, n: int, i: int)
    requires 0 <= n < |rows| && 0 <= i < |devices| && i < |rows[n].handles|
  {
    var h := rows[n].handles[i];
    h in live && h !in foreign && live[h] == Registration(devices[i], rows[n].key, rows[n].fn)
  }

  // The live registrations are those of other clients and those of the matrix, and no more.
  ghost predicate Matrix(live: map<int, Registration>, foreign: map<int, Registration>, devices: seq<int>,
      rows: seq<Notify>)
  {
    && (forall n :: 0 <= n < |rows| ==> |rows[n].handles| == |devices|)
    && (forall n, i :: 0 <= n < |rows| && 0 <= i < |devices| ==> Holds(live, foreign, devices, rows, n, i))
    && (forall h :: h in foreign ==> h in live && live[h] == foreign[h])
    && (forall h :: h in live && h !in foreign ==> exists n, i :: At(rows, n, i, h))
  }

  /** Every keyboard has exactly one registration for every notification, the one whose handle is
      kept. */
  lemma ExactlyOne(live: map<int, Registration>, foreign: map<int, Registration>, devices: seq<int>,
      rows: seq<Notify>, n: nat, i: nat, h: int)
    requires Matrix(live, foreign, devices, rows) && Unshadowed(rows) && Distinct(devices)
    requires n < |rows| && i < |devices|
    ensures |rows[n].handles| == |devices|
    ensures h in live && h !in foreign && live[h] == Registration(devices[i], rows[n].key, rows[n].fn) <==>
            h == rows[n].handles[i]
  {
    assert Holds(live, foreign, devices, rows, n, i);
    if h in live && h !in foreign && live[h] == Registration(devices[i], rows[n].key, rows[n].fn) {
      var m, j :| At(rows, m, j, h);
      assert Holds(live, foreign, devices, rows, m, j);
      assert IsKeyRegistered(rows[m].key, rows[n].key);
      assert IsKeyRegistered(rows[n].key, rows[m].key);
      assert m == n && j == i;
    }
  }

  // The virtual keyboard leaves nothing on a keyboard that it does not manage.
  lemma NothingElsewhere(live: map<int, Registration>, foreign: map<int, Registration>, devices: seq<int>,
      rows: seq<Notify>, h: int)
    requires Matrix(live, foreign, devices, rows) && h in live && h !in foreign
    ensures live[h].device in devices
  {
    var n, i :| At(rows, n, i, h);
    assert Holds(live, foreign, devices, rows, n, i);
  }

  lemma WithRow(live: map<int, Registration>, foreign: map<int, Registration>, devices: seq<int>,
      rows: seq<Notify>, id: int, key: KeyData, fn: int, answers: seq<int>)
    requires Matrix(live, foreign, devices, rows) && Grants(live, answers, |devices|)
    ensures Matrix(Granted(live, ForAllDevices(devices, key, fn), answers, |devices|), foreign, devices,
                   rows + [Notify(id, key, fn, answers[..|devices|])])
  {
    hide Granted;
    var requests := ForAllDevices(devices, key, fn);
    var live' := Granted(live, requests, answers, |devices|);
    var rows' := rows + [Notify(id, key, fn, answers[..|devices|])];
    forall n, i | 0 <= n < |rows'| && 0 <= i < |devices|
      ensures Holds(live', foreign, devices, rows', n, i)
    {
      if n < |rows| {
        assert Holds(live, foreign, devices, rows, n, i);
        InGranted(live, requests, answers, |devices|, rows[n].handles[i]);
      } else {
        GrantedAt(live, requests, answers, |devices|, i);
      }
    }
    forall h | h in foreign
      ensures h in live' && live'[h] == foreign[h]
    {
      InGranted(live, requests, answers, |devices|, h);
    }
    forall h | h in live' && h !in foreign
      ensures exists n, i :: At(rows', n, i, h)
    {
      InGranted(live, requests, answers, |devices|, h);
      if h in live {
        var n, i :| At(rows, n, i, h);
        assert At(rows', n, i, h);
      } else {
        var i :| 0 <= i < |devices| && answers[i] == h;
        assert At(rows', |rows|, i, h);
      }
    }
  }

  lemma WithDevice(live: map<int, Registration>, foreign: map<int, Registration>, devices: seq<int>,
      rows: seq<Notify>, device: int, answers: seq<int>)
    requires Matrix(live, foreign, devices, rows) && Grants(live, answers, |rows|)
    ensures Matrix(Granted(live, ForAllRows(device, rows), answers, |rows|), foreign, devices + [device],
                   Extended(rows, answers))
  {
    hide Granted;
    var requests := ForAllRows(device, rows);
    var live' := Granted(live, requests, answers, |rows|);
    var rows' := Extended(rows, answers);
    forall n, i | 0 <= n < |rows'| && 0 <= i < |devices + [device]|
      ensures Holds(live', foreign, devices + [device], rows', n, i)
    {
      if i < |devices| {
        assert Holds(live, foreign, devices, rows, n, i);
        InGranted(live, requests, answers, |rows|, rows[n].handles[i]);
      } else {
        GrantedAt(live, requests, answers, |rows|, n);
      }
    }
    forall h | h in foreign
      ensures h in live' && live'[h] == foreign[h]
    {
      InGranted(live, requests, answers, |rows|, h);
    }
    forall h | h in live' && h !in foreign
      ensures exists n, i :: At(rows', n, i, h)
    {
      InGranted(live, requests, answers, |rows|, h);
      if h in live {
        var n, i :| At(rows, n, i, h);
        assert At(rows', n, i, h);
      } else {
        var n :| 0 <= n < |rows| && answers[n] == h;
        assert At(rows', n, |devices|, h);
      }
    }
  }

  lemma WithoutRow(live: map<int, Registration>, foreign: map<int, Registration>, devices: seq<int>,
      rows: seq<Notify>, at: nat)
    requires Matrix(live, foreign, devices, rows) && Unshadowed(rows) && at < |rows|
    ensures Matrix(Withdrawn(live, rows[at].handles, |devices|), foreign, devices, rows[..at] + rows[at + 1..])
  {
    hide Withdrawn, Unshadowed, IsKeyRegistered;
    var handles := rows[at].handles;
    var live' := Withdrawn(live, handles, |devices|);
    var rows' := rows[..at] + rows[at + 1..];
    forall n, i | 0 <= n < |rows'| && 0 <= i < |devices|
      ensures Holds(live', foreign, devices, rows', n, i)
    {
      var m := if n < at then n else n + 1;
      assert Holds(live, foreign, devices, rows, m, i);
      InWithdrawn(live, handles, |devices|, rows[m].handles[i]);
      OtherRow(live, foreign, devices, rows, at, m, i);
    }
    forall h | h in foreign
      ensures h in live' && live'[h] == foreign[h]
    {
      InWithdrawn(live, handles, |devices|, h);
      forall i | 0 <= i < |devices|
        ensures handles[i] != h
      {
        assert Holds(live, foreign, devices, rows, at, i);
      }
    }
    forall h | h in live' && h !in foreign
      ensures exists n, i :: At(rows', n, i, h)
    {
      InWithdrawn(live, handles, |devices|, h);
      var n, i :| At(rows, n, i, h);
      assert n != at;
      assert At(rows', if n < at then n else n - 1, i, h);
    }
  }

  // Two rows have no handle in common.
  lemma OtherRow(live: map<int, Registration>, foreign: map<int, Registration>, devices: seq<int>,
      rows: seq<Notify>, n: nat, m: nat, i: nat)
    requires Matrix(live, foreign, devices, rows) && Unshadowed(rows)
    requires n < |rows| && m < |rows| && n != m && i < |devices|
    ensures |rows[n].handles| == |rows[m].handles| == |devices|
    ensures rows[m].handles[i] !in rows[n].handles
  {
    assert Holds(live, foreign, devices, rows, m, i);
    forall j | 0 <= j < |devices|
      ensures rows[n].handles[j] != rows[m].handles[i]
    {
      assert Holds(live, foreign, devices, rows, n, j);
    }
  }

  // ----- a keyboard that goes away

  // What a keyboard knew is gone with it.
  ghost function Without(live: map<int, Registration>, device: int): map<int, Registration> {
    map h | h in live && live[h].device != device :: live[h]
  }

  /** The device list closes up when a keyboard is dropped from it, and nothing is taken back. With
      the keyboard still there, the matrix holds afterwards just when there is no notification. */
  lemma RemovalKeepsMatrix(live: map<int, Registration>, foreign: map<int, Registration>, devices: seq<int>,
      rows: seq<Notify>, k: nat)
    requires Matrix(live, foreign, devices, rows) && Distinct(devices) && k < |devices|
    ensures Matrix(live, foreign, devices[..k] + devices[k + 1..], Cut(rows, |devices| - 1)) <==> rows == []
  {
    var devices' := devices[..k] + devices[k + 1..];
    var rows' := Cut(rows, |devices| - 1);
    if rows != [] {
      assert Holds(live, foreign, devices, rows, 0, k);
      if Matrix(live, foreign, devices', rows') {
        NothingElsewhere(live, foreign, devices', rows', rows[0].handles[k]);
        assert false;
      }
    }
  }

  /** When the keyboard itself goes, what it knew goes too. The rows of handles do not close up with
      the list: the matrix holds afterwards just when the keyboard was the last in the list, or there
      is no notification. */
  lemma LossKeepsMatrix(live: map<int, Registration>, foreign: map<int, Registration>, devices: seq<int>,
      rows: seq<Notify>, k: nat)
    requires Matrix(live, foreign, devices, rows) && Distinct(devices) && k < |devices|
    ensures Matrix(Without(live, devices[k]), Without(foreign, devices[k]), devices[..k] + devices[k + 1..],
                   Cut(rows, |devices| - 1)) <==>
            (k == |devices| - 1 || rows == [])
  {
    var live', foreign' := Without(live, devices[k]), Without(foreign, devices[k]);
    var devices' := devices[..k] + devices[k + 1..];
    var rows' := Cut(rows, |devices| - 1);
    if k == |devices| - 1 || rows == [] {
      forall n, i | 0 <= n < |rows'| && 0 <= i < |devices'|
        ensures Holds(live', foreign', devices', rows', n, i)
      {
        assert Holds(live, foreign, devices, rows, n, i);
      }
      forall h | h in live' && h !in foreign'
        ensures exists n, i :: At(rows', n, i, h)
      {
        var n, i :| At(rows, n, i, h);
        assert Holds(live, foreign, devices, rows, n, i);
        assert At(rows', n, i, h);
      }
    } else {
      assert Holds(live, foreign, devices, rows, 0, k);
      assert !Holds(live', foreign', devices', rows', 0, k);
    }
  }

  // Two keyboards, numbers 1 and 2, and one notification, with a handle on each.
  function TwoLive(key: KeyData, fn: int): map<int, Registration> {
    map[10 := Registration(1, key, fn), 20 := Registration(2, key, fn)]
  }

  function OneRow(key: KeyData, fn: int): (rows: seq<Notify>)
    ensures |rows| == 1 && |rows[0].handles| == 2
  {
    [Notify(0, key, fn, [10, 20])]
  }

  lemma TwoKeyboardsMatrix(key: KeyData, fn: int)
    ensures Matrix(TwoLive(key, fn), map[], [1, 2], OneRow(key, fn))
  {
    assert At(OneRow(key, fn), 0, 0, 10) && At(OneRow(key, fn), 0, 1, 20);
  }

  // Dropping the first keyboard spoils the matrix whether or not the keyboard goes too; dropping the
  // second does only when the keyboard stays.
  lemma TwoKeyboards(key: KeyData, fn: int)
    ensures
      var live, rows := TwoLive(key, fn), OneRow(key, fn);
      && Matrix(live, map[], [1, 2], rows)
      && !Matrix(live, map[], [2], Cut(rows, 1)) && !Matrix(Without(live, 1), map[], [2], Cut(rows, 1))
      && !Matrix(live, map[], [1], Cut(rows, 1)) && Matrix(Without(live, 2), map[], [1], Cut(rows, 1))
  {
    hide Matrix, TwoLive;
    var live, rows := TwoLive(key, fn), OneRow(key, fn);
    TwoKeyboardsMatrix(key, fn);
    var none: map<int, Registration> := map[];
    assert Without(none, 1) == none && Without(none, 2) == none;
    assert [1, 2][..0] + [1, 2][1..] == [2] && [1, 2][..1] + [1, 2][2..] == [1];
    RemovalKeepsMatrix(live, none, [1, 2], rows, 0);
    RemovalKeepsMatrix(live, none, [1, 2], rows, 1);
    LossKeepsMatrix(live, none, [1, 2], rows, 0);
    LossKeepsMatrix(live, none, [1, 2], rows, 1);
  }
}
