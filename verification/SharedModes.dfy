/**
The list of text modes that several consoles share, as a function of their mode tables alone.
*/
module SharedModes {

  datatype Size = Size(columns: nat, rows: nat)

  const NO_SIZE := Size(0, 0)

  // What a console answers when it is queried for one of its modes.
  datatype ModeInfo = Offered(size: Size) | Failing

  type ModeTable = seq<ModeInfo>

  // Every console has mode 0; the one query that may fail is that for mode 1. Modes are counted in
  // 32 bits with a sign.
  predicate Conforming(d: ModeTable) {
    1 <= |d| <= 0x7FFF_FFFF && forall m :: 0 <= m < |d| && d[m].Failing? ==> m == 1
  }

  function SizeOf(i: ModeInfo): Size {
    if i.Offered? then i.size else NO_SIZE
  }

  function FirstSizes(d: ModeTable): (s: seq<Size>)
    ensures |s| == |d|
  {
    seq(|d|, m requires 0 <= m < |d| => SizeOf(d[m]))
  }

  // Row 1 loses its size when the console's query for mode 1 fails.
  function ClearMode1(sizes: seq<Size>, d: ModeTable): (s: seq<Size>)
    ensures |s| == |sizes|
    ensures forall n :: 0 <= n < |s| && n != 1 ==> s[n] == sizes[n]
  {
    if |d| > 1 && d[1].Failing? && |sizes| > 1 then sizes[1 := NO_SIZE] else sizes
  }

  // The rows as they are when the console's mode m is looked up: row 1 is cleared after mode 0.
  function SizesFor(sizes: seq<Size>, d: ModeTable, m: nat): (s: seq<Size>)
    ensures |s| == |sizes|
  {
    if m == 0 then sizes else ClearMode1(sizes, d)
  }

  function FirstMatch(sizes: seq<Size>, z: Size): (n: nat)
    ensures n <= |sizes|
    ensures n < |sizes| ==> sizes[n] == z
    ensures forall k :: 0 <= k < n ==> sizes[k] != z
  {
    if sizes == [] then 0 else if sizes[0] == z then 0 else 1 + FirstMatch(sizes[1..], z)
  }

  // Mode m of the console is the one row n is mapped to, if no later mode is.
  predicate Serves(sizes: seq<Size>, d: ModeTable, m: nat, n: nat) {
    m < |d| && d[m].Offered? && FirstMatch(SizesFor(sizes, d, m), d[m].size) == n
  }

  // One of the console's first k modes serves row n.
  predicate ServedBelow(sizes: seq<Size>, d: ModeTable, n: nat, k: nat) {
    exists m: nat :: m < k && Serves(sizes, d, m, n)
  }

  predicate Served(sizes: seq<Size>, d: ModeTable, n: nat) {
    ServedBelow(sizes, d, n, |d|)
  }

  // Rows 2..hi that the console serves.
  function KeepServed(sizes: seq<Size>, d: ModeTable, hi: nat): seq<Size>
    requires hi <= |sizes|
  {
    if hi <= 2 then []
    else KeepServed(sizes, d, hi - 1) + if Served(sizes, d, hi - 1) then [sizes[hi - 1]] else []
  }

  // The shared modes after one more console.
  function Sync(sizes: seq<Size>, d: ModeTable): seq<Size> {
    var s := ClearMode1(sizes, d);
    if |s| <= 2 then s else s[..2] + KeepServed(sizes, d, |s|)
  }

  // The number that the current mode has after one more console: that of its row, -1 when its row goes.
  function Followed(sizes: seq<Size>, d: ModeTable, mode: int): int {
    if mode < 2 then mode
    else if mode < |sizes| then if Served(sizes, d, mode) then 2 + |KeepServed(sizes, d, mode)| else -1
    else mode - |sizes| + |Sync(sizes, d)|
  }

  // The shared modes of a list of consoles; without any, the one default mode.
  function Shared(ds: seq<ModeTable>): seq<Size> {
    if |ds| == 0 then [Size(80, 25)]
    else if |ds| == 1 then FirstSizes(ds[0])
    else Sync(Shared(ds[..|ds| - 1]), ds[|ds| - 1])
  }

  // ----- meaning

  predicate Offers(d: ModeTable, z: Size) {
    Offered(z) in d
  }

  lemma {:induction false} InKeepServed(sizes: seq<Size>, d: ModeTable, hi: nat, z: Size)
    requires hi <= |sizes|
    ensures z in KeepServed(sizes, d, hi) <==>
      exists n :: 2 <= n < hi && sizes[n] == z && Served(sizes, d, n)
  {
    if hi > 2 {
      InKeepServed(sizes, d, hi - 1, z);
    }
  }

  // Among rows from 2 on, one that is served is the only one of its size, and its size is offered.
  lemma ServedIsOffered(sizes: seq<Size>, d: ModeTable, n: nat)
    requires 2 <= n < |sizes| && Served(sizes, d, n)
    ensures Offers(d, sizes[n])
  {
    var m: nat :| m < |d| && Serves(sizes, d, m, n);
    assert d[m] == Offered(sizes[n]);
  }

  // A size that neither row 0 nor row 1 has survives a console just when the console offers it.
  lemma SyncFilters(sizes: seq<Size>, d: ModeTable, z: Size)
    requires z != NO_SIZE && (forall n :: 0 <= n < |sizes| && n < 2 ==> sizes[n] != z)
    ensures |Sync(sizes, d)| >= (if |sizes| < 2 then |sizes| else 2)
    ensures forall n :: 0 <= n < |Sync(sizes, d)| && n < 2 ==> Sync(sizes, d)[n] in [sizes[n], NO_SIZE]
    ensures z in Sync(sizes, d) <==> z in sizes && Offers(d, z)
  {
    var s := ClearMode1(sizes, d);
    if |s| > 2 {
      InKeepServed(sizes, d, |s|, z);
      if z in sizes && Offers(d, z) {
        var m: nat :| m < |d| && d[m] == Offered(z);
        var row := FirstMatch(SizesFor(sizes, d, m), z);
        assert Serves(sizes, d, m, row);
        var k :| 0 <= k < |sizes| && sizes[k] == z;
        assert SizesFor(sizes, d, m)[k] == z;
        assert sizes[row] == z && Served(sizes, d, row);
      }
      if z in KeepServed(sizes, d, |s|) {
        var n :| 2 <= n < |s| && sizes[n] == z && Served(sizes, d, n);
        ServedIsOffered(sizes, d, n);
      }
    }
  }

  // What a list of shared modes says about a size that the first console's modes 0 and 1 do not have.
  ghost predicate SharesExactly(sizes: seq<Size>, first: ModeTable, ds: seq<ModeTable>, z: Size) {
    && |sizes| >= (if |first| < 2 then |first| else 2)
    && (forall n :: 0 <= n < |sizes| && n < 2 ==> sizes[n] != z)
    && (z in sizes <==> forall d :: d in ds ==> Offers(d, z))
  }

  lemma SharedByOne(d: ModeTable, z: Size)
    requires z != NO_SIZE && forall n :: 0 <= n < |d| && n < 2 ==> SizeOf(d[n]) != z
    ensures SharesExactly(FirstSizes(d), d, [d], z)
  {
    if Offers(d, z) {
      var m :| 0 <= m < |d| && d[m] == Offered(z);
      assert FirstSizes(d)[m] == z;
    }
  }

  lemma SharedByOneMore(sizes: seq<Size>, first: ModeTable, ds: seq<ModeTable>, d: ModeTable, z: Size)
    requires z != NO_SIZE && SharesExactly(sizes, first, ds, z)
    ensures SharesExactly(Sync(sizes, d), first, ds + [d], z)
  {
    hide Sync, Offers;
    SyncFilters(sizes, d, z);
  }

  lemma {:induction false} SharedRows(ds: seq<ModeTable>, z: Size)
    requires |ds| > 0 && z != NO_SIZE
    requires forall n :: 0 <= n < |ds[0]| && n < 2 ==> SizeOf(ds[0][n]) != z
    ensures SharesExactly(Shared(ds), ds[0], ds, z)
    decreases |ds|
  {
    hide SharesExactly, FirstSizes, Sync;
    if |ds| == 1 {
      SharedByOne(ds[0], z);
      assert ds == [ds[0]];
    } else {
      var before, last := ds[..|ds| - 1], ds[|ds| - 1];
      SharedRows(before, z);
      SharedByOneMore(Shared(before), ds[0], before, last, z);
      assert ds == before + [last];
    }
  }

  /** The shared modes are the intersection: any size that is not that of the first console's modes 0
      and 1 is shared exactly when every console offers it. */
  lemma SharedIsIntersection(ds: seq<ModeTable>, z: Size)
    requires |ds| > 0 && z != NO_SIZE
    requires forall n :: 0 <= n < |ds[0]| && n < 2 ==> SizeOf(ds[0][n]) != z
    ensures z in Shared(ds) <==> forall d :: d in ds ==> Offers(d, z)
  {
    SharedRows(ds, z);
  }

  predicate SomeMode1Fails(ds: seq<ModeTable>) {
    exists k :: 0 <= k < |ds| && |ds[k]| > 1 && ds[k][1].Failing?
  }

  lemma SyncLowRows(sizes: seq<Size>, d: ModeTable)
    requires |sizes| >= 1
    ensures |Sync(sizes, d)| >= 1 && Sync(sizes, d)[0] == sizes[0]
    ensures |Sync(sizes, d)| >= 2 <==> |sizes| >= 2
    ensures |sizes| >= 2 ==>
      Sync(sizes, d)[1] == if |d| > 1 && d[1].Failing? then NO_SIZE else sizes[1]
  {
  }

  // Modes 0 and 1 are the first console's; mode 1 has lost its size just when some console's query
  // for mode 1 failed.
  lemma {:induction false} SharedLowModes(ds: seq<ModeTable>)
    requires |ds| > 0 && |ds[0]| >= 1
    ensures |Shared(ds)| >= 1 && Shared(ds)[0] == SizeOf(ds[0][0])
    ensures |Shared(ds)| >= 2 <==> |ds[0]| >= 2
    ensures |ds[0]| >= 2 ==>
      Shared(ds)[1] == (if SomeMode1Fails(ds) then NO_SIZE else SizeOf(ds[0][1]))
    decreases |ds|
  {
    if |ds| > 1 {
      var before, last := ds[..|ds| - 1], ds[|ds| - 1];
      SharedLowModes(before);
      SyncLowRows(Shared(before), last);
      hide Sync;
      if SomeMode1Fails(before) {
        var k :| 0 <= k < |before| && |before[k]| > 1 && before[k][1].Failing?;
        assert ds[k] == before[k];
      }
    }
  }

  // A console that has no mode 1 at all does not clear it: the query is never made.
  lemma Mode1KeptThoughMissing()
    ensures
      var one, two := [Offered(Size(80, 25)), Offered(Size(80, 50))], [Offered(Size(80, 25))];
      Conforming(one) && Conforming(two) && !Offers(two, Size(80, 50))
      && Shared([one, two]) == [Size(80, 25), Size(80, 50)]
  {
    var one, two := [Offered(Size(80, 25)), Offered(Size(80, 50))], [Offered(Size(80, 25))];
    assert [one, two][..1] == [one];
    assert Shared([one]) == FirstSizes(one) == [Size(80, 25), Size(80, 50)];
  }

  // ----- order

  // The elements of a are in b in the same order, with others between them.
  predicate Subsequence<T(==)>(a: seq<T>, b: seq<T>) {
    || a == []
    || (b != [] && Subsequence(a, b[..|b| - 1]))
    || (b != [] && a[|a| - 1] == b[|b| - 1] && Subsequence(a[..|a| - 1], b[..|b| - 1]))
  }

  lemma {:induction false} SubsequenceOfSubsequence<T>(a: seq<T>, b: seq<T>, c: seq<T>)
    requires Subsequence(a, b) && Subsequence(b, c)
    ensures Subsequence(a, c)
    decreases |c|
  {
    if a != [] {
      var b', c' := b[..|b| - 1], c[..|c| - 1];
      if Subsequence(b, c') {
        SubsequenceOfSubsequence(a, b, c');
      } else if Subsequence(a, b') {
        SubsequenceOfSubsequence(a, b', c');
      } else {
        SubsequenceOfSubsequence(a[..|a| - 1], b', c');
      }
    }
  }

  lemma {:induction false} SubsequenceLonger<T>(a: seq<T>, b: seq<T>, x: T)
    requires Subsequence(a, b)
    ensures Subsequence(a, b + [x]) && Subsequence(a + [x], b + [x])
  {
    assert (a + [x])[..|a|] == a && (b + [x])[..|b|] == b;
  }

  lemma {:induction false} KeptInOrder(sizes: seq<Size>, d: ModeTable, hi: nat)
    requires 2 <= hi <= |sizes|
    ensures Subsequence(KeepServed(sizes, d, hi), sizes[2..hi])
  {
    if hi > 2 {
      hide Subsequence, Served;
      KeptInOrder(sizes, d, hi - 1);
      SubsequenceLonger(KeepServed(sizes, d, hi - 1), sizes[2..hi - 1], sizes[hi - 1]);
      assert sizes[2..hi] == sizes[2..hi - 1] + [sizes[hi - 1]];
      assert KeepServed(sizes, d, hi - 1) + [] == KeepServed(sizes, d, hi - 1);
    }
  }

  // A row that is served is the first of its size, but for a row 1 that is being cleared.
  lemma ServedIsFirst(sizes: seq<Size>, d: ModeTable, n: nat, k: nat)
    requires n < |sizes| && Served(sizes, d, n) && k < n && sizes[k] == sizes[n] && n >= 2
    ensures k == 1 && |d| > 1 && d[1].Failing?
  {
    var m: nat :| m < |d| && Serves(sizes, d, m, n);
    assert SizesFor(sizes, d, m)[n] == sizes[n];
  }

  lemma {:induction false} KeptDiffer(sizes: seq<Size>, d: ModeTable, hi: nat)
    requires hi <= |sizes|
    ensures var kept := KeepServed(sizes, d, hi);
      && (forall i, j :: 0 <= i < j < |kept| ==> kept[i] != kept[j])
      && (|sizes| > 0 ==> sizes[0] !in kept)
      && (|sizes| > 1 && !(|d| > 1 && d[1].Failing?) ==> sizes[1] !in kept)
  {
    if hi > 2 {
      KeptDiffer(sizes, d, hi - 1);
      if Served(sizes, d, hi - 1) {
        var z := sizes[hi - 1];
        InKeepServed(sizes, d, hi - 1, z);
        forall k: nat | k < hi - 1 && sizes[k] == z
          ensures k == 1 && |d| > 1 && d[1].Failing?
        {
          ServedIsFirst(sizes, d, hi - 1, k);
        }
      }
    }
  }

  lemma SyncTail(sizes: seq<Size>, d: ModeTable)
    requires |sizes| >= 2
    ensures |Sync(sizes, d)| >= 2
    ensures Sync(sizes, d)[2..] == KeepServed(sizes, d, |sizes|)
  {
    var s, kept := ClearMode1(sizes, d), KeepServed(sizes, d, |sizes|);
    assert (s[..2] + kept)[2..] == kept;
    assert |s| == 2 ==> s[2..] == [];
  }

  // From mode 2 on the shared modes are modes of the first console, in its order.
  lemma {:induction false} SharedInOrder(ds: seq<ModeTable>)
    requires |ds| > 0 && |ds[0]| >= 2
    ensures |Shared(ds)| >= 2
    ensures Subsequence(Shared(ds)[2..], FirstSizes(ds[0])[2..])
    decreases |ds|
  {
    if |ds| == 1 {
      SubsequenceOfItself(FirstSizes(ds[0])[2..]);
    } else {
      var sizes, d := Shared(ds[..|ds| - 1]), ds[|ds| - 1];
      SharedInOrder(ds[..|ds| - 1]);
      KeptInOrder(sizes, d, |sizes|);
      assert sizes[2..|sizes|] == sizes[2..];
      SyncTail(sizes, d);
      SubsequenceOfSubsequence(Shared(ds)[2..], sizes[2..], FirstSizes(ds[0])[2..]);
    }
  }

  lemma {:induction false} SubsequenceOfItself<T>(a: seq<T>)
    ensures Subsequence(a, a)
  {
    if a != [] {
      SubsequenceOfItself(a[..|a| - 1]);
    }
  }

  // Two consoles or more share no size twice from mode 2 on, nor one that mode 0 or 1 has.
  lemma SharedDiffer(ds: seq<ModeTable>, i: nat, j: nat)
    requires |ds| >= 2 && |ds[0]| >= 1
    requires i < j < |Shared(ds)| && j >= 2 && Shared(ds)[i] == Shared(ds)[j]
    ensures i == 1 && Shared(ds)[1] == NO_SIZE
  {
    var sizes, d := Shared(ds[..|ds| - 1]), ds[|ds| - 1];
    SharedLowModes(ds[..|ds| - 1]);
    assert Shared(ds) == Sync(sizes, d);
    hide Shared, Sync, KeepServed;
    SyncLowRows(sizes, d);
    SyncTail(sizes, d);
    KeptDiffer(sizes, d, |sizes|);
    var tail := Shared(ds)[2..];
    assert forall k :: 2 <= k < |Shared(ds)| ==> Shared(ds)[k] == tail[k - 2];
  }

  // ----- modes 0 and 1, console by console

  // The size that mode 0 or 1 has when the console has been looked up: the first console's, and none for
  // mode 1 as soon as a query for it has failed.
  function LowSize(ds: seq<ModeTable>, c: nat, n: nat): Size
    requires c < |ds| && n < 2
  {
    if n >= |ds[0]| then NO_SIZE
    else if n == 0 then SizeOf(ds[0][0])
    else if SomeMode1Fails(ds[..c + 1]) then NO_SIZE
    else SizeOf(ds[0][1])
  }

  // The console can set a mode of its own.
  predicate Settable(d: ModeTable, m: int) {
    0 <= m < |d| && d[m].Offered?
  }

  // The console has a mode for mode 0 or 1: the first console its own, any other one of the size that the
  // mode has then. When its query for mode 1 fails, only its modes from 2 on are looked up for mode 1.
  predicate CanShow(ds: seq<ModeTable>, c: nat, n: nat)
    requires c < |ds| && n < 2
  {
    var d, z := ds[c], LowSize(ds, c, n);
    if c == 0 then Settable(d, n)
    else if n == 0 then Offers(d, z)
    else
      && z != LowSize(ds, c, 0)
      && if |d| > 1 && d[1].Failing? then exists m :: 2 <= m < |d| && d[m] == Offered(z) else Offers(d, z)
  }

  lemma LowPrefix(ds: seq<ModeTable>, d: ModeTable, c: nat, n: nat)
    requires c < |ds| && n < 2
    ensures LowSize(ds + [d], c, n) == LowSize(ds, c, n)
    ensures CanShow(ds + [d], c, n) == CanShow(ds, c, n)
  {
    assert (ds + [d])[..c + 1] == ds[..c + 1];
  }

  lemma NextLowSize(ds: seq<ModeTable>, d: ModeTable, n: nat)
    requires |ds| > 0 && n < 2 && n < |ds[0]|
    ensures LowSize(ds + [d], |ds|, n) ==
            if n == 1 && |d| > 1 && d[1].Failing? then NO_SIZE else LowSize(ds, |ds| - 1, n)
  {
    assert (ds + [d])[..|ds| + 1] == ds + [d] && ds[..|ds| - 1 + 1] == ds;
    if n == 1 {
      if SomeMode1Fails(ds) {
        var k :| 0 <= k < |ds| && |ds[k]| > 1 && ds[k][1].Failing?;
        assert (ds + [d])[k] == ds[k];
      }
      if |d| > 1 && d[1].Failing? {
        assert (ds + [d])[|ds|] == d;
      }
    }
  }

  // The entry that the search leaves in row 0 or 1, after the console's first k modes: the last mode that
  // serves the row, and for row 1 the mode whose query failed.
  function LastEntry(sizes: seq<Size>, d: ModeTable, n: nat, k: nat): int
    requires k <= |d|
  {
    if k == 0 then -1
    else if d[k - 1].Failing? then if n == 1 then k - 1 else LastEntry(sizes, d, n, k - 1)
    else if Serves(sizes, d, k - 1, n) then k - 1
    else LastEntry(sizes, d, n, k - 1)
  }

  predicate OffersBelow(d: ModeTable, lo: nat, k: nat, z: Size)
    requires k <= |d|
  {
    exists m :: lo <= m < k && d[m] == Offered(z)
  }

  lemma FirstRowFirst(sizes: seq<Size>, z: Size)
    requires |sizes| > 0
    ensures FirstMatch(sizes, z) == 0 <==> sizes[0] == z
    ensures |sizes| > 1 ==> (FirstMatch(sizes, z) == 1 <==> sizes[1] == z && sizes[0] != z)
  {
  }

  lemma {:induction false} LastEntryOfRow0(sizes: seq<Size>, d: ModeTable, k: nat)
    requires |sizes| > 0 && k <= |d|
    ensures if OffersBelow(d, 0, k, sizes[0])
            then 0 <= LastEntry(sizes, d, 0, k) < k && d[LastEntry(sizes, d, 0, k)] == Offered(sizes[0])
            else LastEntry(sizes, d, 0, k) == -1
  {
    if k > 0 {
      LastEntryOfRow0(sizes, d, k - 1);
      if d[k - 1].Offered? {
        FirstRowFirst(SizesFor(sizes, d, k - 1), d[k - 1].size);
      }
      OffersNext(d, 0, k, sizes[0]);
    }
  }

  lemma OffersNext(d: ModeTable, lo: nat, k: nat, z: Size)
    requires 0 < k <= |d|
    ensures OffersBelow(d, lo, k, z) <==> OffersBelow(d, lo, k - 1, z) || (lo <= k - 1 && d[k - 1] == Offered(z))
  {
    if lo <= k - 1 && d[k - 1] == Offered(z) {
      assert lo <= k - 1 < k;
    }
  }

  lemma {:induction false} LastEntryOfRow1(sizes: seq<Size>, d: ModeTable, k: nat)
    requires |sizes| > 1 && k <= |d| && !(|d| > 1 && d[1].Failing?)
    requires forall m :: 0 <= m < |d| && d[m].Failing? ==> m == 1
    ensures if OffersBelow(d, 0, k, sizes[1]) && sizes[1] != sizes[0]
            then 0 <= LastEntry(sizes, d, 1, k) < k && d[LastEntry(sizes, d, 1, k)] == Offered(sizes[1])
            else LastEntry(sizes, d, 1, k) == -1
  {
    if k > 0 {
      LastEntryOfRow1(sizes, d, k - 1);
      assert d[k - 1].Offered? && SizesFor(sizes, d, k - 1) == sizes;
      FirstRowFirst(sizes, d[k - 1].size);
      OffersNext(d, 0, k, sizes[1]);
    }
  }

  lemma {:induction false} LastEntryAfterFailure(sizes: seq<Size>, d: ModeTable, k: nat)
    requires |sizes| > 1 && 2 <= k <= |d| && d[1].Failing?
    requires forall m :: 0 <= m < |d| && d[m].Failing? ==> m == 1
    ensures if OffersBelow(d, 2, k, NO_SIZE) && NO_SIZE != sizes[0]
            then 2 <= LastEntry(sizes, d, 1, k) < k && d[LastEntry(sizes, d, 1, k)] == Offered(NO_SIZE)
            else LastEntry(sizes, d, 1, k) == 1
  {
    if k > 2 {
      LastEntryAfterFailure(sizes, d, k - 1);
      assert d[k - 1].Offered? && SizesFor(sizes, d, k - 1) == sizes[1 := NO_SIZE];
      FirstRowFirst(sizes[1 := NO_SIZE], d[k - 1].size);
      OffersNext(d, 2, k, NO_SIZE);
    }
  }
}
