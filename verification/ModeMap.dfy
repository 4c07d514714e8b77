/**
What the mode map of a splitter means: row n tells, console by console, which of the console's own
modes stands for shared mode n.
*/
module ModeMap {
  import opened FlatTable
  import opened SharedModes

  // The sizes that QueryMode reports: those of the first console's modes in column 0.
  ghost function Sizes(t: seq<seq<int>>, q: seq<Size>): (s: seq<Size>)
    requires forall n :: 0 <= n < |t| ==> |t[n]| > 0 && 0 <= t[n][0] < |q|
    ensures |s| == |t|
  {
    seq(|t|, n requires 0 <= n < |t| => q[t[n][0]])
  }

  // Column 0 lists modes of the first console in increasing order, modes 0 and 1 first.
  ghost predicate FirstColumn(t: seq<seq<int>>, q: seq<Size>) {
    && (forall n :: 0 <= n < |t| ==> |t[n]| > 0 && 0 <= t[n][0] < |q|)
    && (forall n :: 0 <= n < |t| && n < 2 ==> t[n][0] == n)
    && (forall m, n :: 0 <= m < n < |t| ==> t[m][0] < t[n][0])
  }

  // The entry of row n for a console is a mode of the console that has the row's size.
  ghost predicate EntryFits(d: ModeTable, mode: int, z: Size) {
    0 <= mode < |d| && d[mode] == Offered(z)
  }

  ghost predicate Mapped(t: seq<seq<int>>, q: seq<Size>, ds: seq<ModeTable>, step: nat) {
    && 0 < |ds| <= step
    && FirstColumn(t, q)
    && (forall n :: 0 <= n < |t| ==> |t[n]| == step)
    && (forall n, c :: 2 <= n < |t| && 0 <= c < |ds| ==> EntryFits(ds[c], t[n][c], q[t[n][0]]))
    && (forall n, c :: 0 <= n < |t| && |ds| <= c < step ==> t[n][c] == -1)
  }

  // The table after the column of one more console was filled in.
  ghost function WithColumn(t: seq<seq<int>>, c: nat, col: seq<int>): (r: seq<seq<int>>)
    requires |col| == |t| && forall n :: 0 <= n < |t| ==> c < |t[n]|
    ensures |r| == |t|
  {
    seq(|t|, n requires 0 <= n < |t| => t[n][c := col[n]])
  }

  // What the search leaves in the new console's column, after the console's first k modes.
  ghost predicate Scanned(col: seq<int>, sizes: seq<Size>, d: ModeTable, k: nat) {
    && |col| == |sizes|
    && (forall n :: 2 <= n < |col| ==> (col[n] != -1 <==> ServedBelow(sizes, d, n, k)))
    && (forall n :: 2 <= n < |col| && col[n] != -1 ==> 0 <= col[n] && Serves(sizes, d, col[n], n))
  }

  // Query data after the console's mode 1 was looked at.
  ghost function Cleared(q: seq<Size>, d: ModeTable): (r: seq<Size>)
    requires |q| >= 2
    ensures |r| == |q|
  {
    if |d| > 1 && d[1].Failing? then q[1 := NO_SIZE] else q
  }

  lemma SizesCleared(t: seq<seq<int>>, q: seq<Size>, d: ModeTable)
    requires FirstColumn(t, q) && |q| >= 2
    ensures FirstColumn(t, Cleared(q, d))
    ensures Sizes(t, Cleared(q, d)) == ClearMode1(Sizes(t, q), d)
  {
    if |t| > 1 {
      assert t[1][0] == 1;
    }
  }

  // ----- which rows survive

  lemma {:induction false} KeepIndexed<T>(rows: seq<T>, flags: seq<int>, hi: nat) returns (idx: seq<nat>)
    requires hi <= |rows| && hi <= |flags|
    ensures |idx| == |Keep(rows, flags, 2, hi)|
    ensures forall k :: 0 <= k < |idx| ==> 2 <= idx[k] < hi && flags[idx[k]] != -1
    ensures forall k :: 0 <= k < |idx| ==> Keep(rows, flags, 2, hi)[k] == rows[idx[k]]
    ensures forall j, k :: 0 <= j < k < |idx| ==> idx[j] < idx[k]
  {
    idx := [];
    if hi > 2 {
      idx := KeepIndexed(rows, flags, hi - 1);
      if flags[hi - 1] != -1 {
        idx := idx + [hi - 1];
      }
    }
  }

  lemma IntersectAt<T>(rows: seq<T>, flags: seq<int>, k: nat)
    requires |rows| == |flags| && |rows| > 2 && k < |Keep(rows, flags, 2, |rows|)| + 2
    ensures |Intersect(rows, flags)| == |Keep(rows, flags, 2, |rows|)| + 2
    ensures Intersect(rows, flags)[k] == if k < 2 then rows[k] else Keep(rows, flags, 2, |rows|)[k - 2]
  {
    hide Keep;
  }

  lemma {:induction false} RowsOfKept<T>(rows: seq<T>, flags: seq<int>, kept: seq<nat>)
    requires |rows| == |flags| && |rows| > 2 && |kept| == |Keep(rows, flags, 2, |rows|)|
    requires forall k :: 0 <= k < |kept| ==>
      2 <= kept[k] < |rows| && Keep(rows, flags, 2, |rows|)[k] == rows[kept[k]]
    ensures |Intersect(rows, flags)| == |kept| + 2
    ensures forall k :: 0 <= k < |kept| + 2 ==>
      var i := ([0, 1] + kept)[k];
      i < |rows| && Intersect(rows, flags)[k] == rows[i]
  {
    hide Keep, Intersect;
    IntersectAt(rows, flags, 0);
    forall k: nat | k < |kept| + 2
      ensures ([0, 1] + kept)[k] < |rows| && Intersect(rows, flags)[k] == rows[([0, 1] + kept)[k]]
    {
      IntersectAt(rows, flags, k);
    }
  }

  lemma {:induction false} IntersectIndexed<T>(rows: seq<T>, flags: seq<int>) returns (idx: seq<nat>)
    requires |rows| == |flags|
    ensures |idx| == |Intersect(rows, flags)|
    ensures forall k :: 0 <= k < |idx| ==> idx[k] < |rows| && Intersect(rows, flags)[k] == rows[idx[k]]
    ensures forall k :: 0 <= k < |idx| ==> if k < 2 then idx[k] == k else idx[k] >= 2 && flags[idx[k]] != -1
    ensures forall j, k :: 0 <= j < k < |idx| ==> idx[j] < idx[k]
  {
    if |rows| <= 2 {
      idx := seq(|rows|, i => i);
    } else {
      hide Keep, Intersect;
      var kept := KeepIndexed(rows, flags, |rows|);
      RowsOfKept(rows, flags, kept);
      idx := [0, 1] + kept;
    }
  }

  lemma {:induction false} KeepServedIsKeep(sizes: seq<Size>, s: seq<Size>, d: ModeTable, flags: seq<int>, hi: nat)
    requires hi <= |sizes| == |s| == |flags|
    requires forall n :: 2 <= n < |s| ==> s[n] == sizes[n] && (flags[n] != -1 <==> Served(sizes, d, n))
    ensures KeepServed(sizes, d, hi) == Keep(s, flags, 2, hi)
  {
    if hi > 2 {
      KeepServedIsKeep(sizes, s, d, flags, hi - 1);
    }
  }

  lemma {:induction false} SizesOfKeep(t: seq<seq<int>>, q: seq<Size>, flags: seq<int>, hi: nat)
    requires hi <= |t| == |flags| && FirstColumn(t, q)
    requires forall r :: r in Keep(t, flags, 2, hi) ==> |r| > 0 && 0 <= r[0] < |q|
    ensures Sizes(Keep(t, flags, 2, hi), q) == Keep(Sizes(t, q), flags, 2, hi)
  {
    if hi > 2 {
      SizesOfKeep(t, q, flags, hi - 1);
    }
  }

  lemma SizesConcat(t: seq<seq<int>>, u: seq<seq<int>>, q: seq<Size>)
    requires forall n :: 0 <= n < |t| ==> |t[n]| > 0 && 0 <= t[n][0] < |q|
    requires forall n :: 0 <= n < |u| ==> |u[n]| > 0 && 0 <= u[n][0] < |q|
    ensures Sizes(t + u, q) == Sizes(t, q) + Sizes(u, q)
  {
  }

  lemma FirstColumnOfIntersect(t: seq<seq<int>>, q: seq<Size>, flags: seq<int>)
    requires |t| == |flags| && FirstColumn(t, q)
    ensures FirstColumn(Intersect(t, flags), q)
  {
    hide Intersect;
    var idx := IntersectIndexed(t, flags);
  }

  lemma SizesOfIntersect(t: seq<seq<int>>, q: seq<Size>, flags: seq<int>)
    requires |t| == |flags| && FirstColumn(t, q)
    ensures FirstColumn(Intersect(t, flags), q)
    ensures Sizes(Intersect(t, flags), q) == Intersect(Sizes(t, q), flags)
  {
    FirstColumnOfIntersect(t, q, flags);
    if |t| > 2 {
      hide Keep;
      var kept := Keep(t, flags, 2, |t|);
      assert forall k :: 0 <= k < |kept| ==> kept[k] == Intersect(t, flags)[k + 2];
      SizesOfKeep(t, q, flags, |t|);
      SizesConcat(t[..2], kept, q);
      assert Sizes(t, q)[..2] == Sizes(t[..2], q);
    }
  }

  // Compaction keeps a mapped table mapped.
  lemma MappedIntersect(t: seq<seq<int>>, q: seq<Size>, ds: seq<ModeTable>, step: nat, flags: seq<int>)
    requires Mapped(t, q, ds, step) && |flags| == |t|
    ensures Mapped(Intersect(t, flags), q, ds, step)
    ensures Sizes(Intersect(t, flags), q) == Intersect(Sizes(t, q), flags)
  {
    var idx := IntersectIndexed(t, flags);
    SizesOfIntersect(t, q, flags);
    var u := Intersect(t, flags);
    forall n, c | 2 <= n < |u| && 0 <= c < |ds|
      ensures EntryFits(ds[c], u[n][c], q[u[n][0]])
    {
      assert u[n] == t[idx[n]] && idx[n] >= 2;
    }
  }

  // ----- the effect of one more console

  // In every row from 2 on that stays, the new console's entry is one of its modes, of the row's size.
  lemma ScannedFits(t: seq<seq<int>>, q: seq<Size>, d: ModeTable, col: seq<int>, n: nat)
    requires FirstColumn(t, q) && |q| >= 2 && Scanned(col, Sizes(t, q), d, |d|)
    requires 2 <= n < |t| && col[n] != -1
    ensures EntryFits(d, col[n], Cleared(q, d)[t[n][0]])
    ensures Cleared(q, d)[t[n][0]] == q[t[n][0]]
  {
    assert t[1][0] == 1 < t[n][0];
    assert Serves(Sizes(t, q), d, col[n], n);
    assert SizesFor(Sizes(t, q), d, col[n])[n] == Sizes(t, q)[n];
  }

  lemma WithColumnSizes(t: seq<seq<int>>, q: seq<Size>, c: nat, col: seq<int>)
    requires FirstColumn(t, q) && |col| == |t| && c > 0
    requires forall n :: 0 <= n < |t| ==> c < |t[n]|
    ensures FirstColumn(WithColumn(t, c, col), q)
    ensures Sizes(WithColumn(t, c, col), q) == Sizes(t, q)
  {
  }

  lemma AfterSyncSizes(t: seq<seq<int>>, q: seq<Size>, c: nat, d: ModeTable, col: seq<int>)
    requires FirstColumn(t, q) && c > 0 && |q| >= 2
    requires forall n :: 0 <= n < |t| ==> c < |t[n]|
    requires Scanned(col, Sizes(t, q), d, |d|)
    ensures FirstColumn(Intersect(WithColumn(t, c, col), col), Cleared(q, d))
    ensures Sizes(Intersect(WithColumn(t, c, col), col), Cleared(q, d)) == Sync(Sizes(t, q), d)
  {
    hide Keep, KeepServed, Cleared, WithColumn;
    var w, sizes := WithColumn(t, c, col), Sizes(t, q);
    WithColumnSizes(t, q, c, col);
    SizesCleared(w, q, d);
    SizesOfIntersect(w, Cleared(q, d), col);
    KeepServedIsKeep(sizes, ClearMode1(sizes, d), d, col, |sizes|);
  }

  // The compaction gives the current mode the number that it has among the shared modes.
  lemma FollowedIsRenumber(sizes: seq<Size>, d: ModeTable, col: seq<int>, mode: int)
    requires Scanned(col, sizes, d, |d|)
    ensures Renumber(col, mode) == Followed(sizes, d, mode)
  {
    if mode >= 2 {
      var hi := if mode < |sizes| then mode else |sizes|;
      KeepServedIsKeep(sizes, sizes, d, col, hi);
      KeepLength(sizes, col, col, hi);
      assert mode >= |sizes| > 2 ==> |ClearMode1(sizes, d)| == |sizes|;
      if mode >= |sizes| {
        KeepServedIsKeep(sizes, ClearMode1(sizes, d), d, col, |sizes|);
      }
    }
  }

  // One row of a mapped table, apart from its first entry.
  ghost predicate RowMapped(row: seq<int>, n: nat, q: seq<Size>, ds: seq<ModeTable>, step: nat) {
    && |row| == step && 0 < |ds| <= step
    && (forall c :: |ds| <= c < step ==> row[c] == -1)
    && (n >= 2 ==> 0 <= row[0] < |q| && forall c :: 0 <= c < |ds| ==> EntryFits(ds[c], row[c], q[row[0]]))
  }

  lemma MappedRow(t: seq<seq<int>>, q: seq<Size>, ds: seq<ModeTable>, step: nat, n: nat)
    requires Mapped(t, q, ds, step) && n < |t|
    ensures RowMapped(t[n], n, q, ds, step)
  {
  }

  lemma MappedFromRows(t: seq<seq<int>>, q: seq<Size>, ds: seq<ModeTable>, step: nat)
    requires FirstColumn(t, q) && 0 < |ds| <= step
    requires forall n :: 0 <= n < |t| ==> RowMapped(t[n], n, q, ds, step)
    ensures Mapped(t, q, ds, step)
  {
  }

  lemma RowAfterSync(t: seq<seq<int>>, q: seq<Size>, ds: seq<ModeTable>, step: nat, d: ModeTable,
                     col: seq<int>, n: nat)
    requires Mapped(t, q, ds, step) && |ds| < step && |q| >= 2
    requires Scanned(col, Sizes(t, q), d, |d|)
    requires n < |t| && (n >= 2 ==> col[n] != -1)
    ensures RowMapped(t[n][|ds| := col[n]], n, Cleared(q, d), ds + [d], step)
  {
    MappedRow(t, q, ds, step, n);
    if n >= 2 {
      ScannedFits(t, q, d, col, n);
    }
    hide Mapped, Scanned, Cleared, Sizes;
  }

  // The filled and compacted table is mapped for one more console, and its sizes are those that the
  // consoles share.
  lemma AfterSync(t: seq<seq<int>>, q: seq<Size>, ds: seq<ModeTable>, step: nat, d: ModeTable, col: seq<int>)
    requires Mapped(t, q, ds, step) && |ds| < step && |q| >= 2
    requires Scanned(col, Sizes(t, q), d, |d|)
    ensures
      var u := Intersect(WithColumn(t, |ds|, col), col);
      Mapped(u, Cleared(q, d), ds + [d], step)
      && Sizes(u, Cleared(q, d)) == Sync(Sizes(t, q), d)
  {
    AfterSyncSizes(t, q, |ds|, d, col);
    var w := WithColumn(t, |ds|, col);
    hide Intersect, Cleared, Scanned, Sync, Sizes, RowMapped;
    var u := Intersect(w, col);
    var idx := IntersectIndexed(w, col);
    forall n | 0 <= n < |u|
      ensures RowMapped(u[n], n, Cleared(q, d), ds + [d], step)
    {
      RowAfterSync(t, q, ds, step, d, col, idx[n]);
      RowMappedLower(u[n], idx[n], n, Cleared(q, d), ds + [d], step);
    }
    MappedFromRows(u, Cleared(q, d), ds + [d], step);
  }

  // What a row satisfies at place m it satisfies at place n, if that is a place after row 1 only when
  // m was.
  lemma RowMappedLower(row: seq<int>, m: nat, n: nat, q: seq<Size>, ds: seq<ModeTable>, step: nat)
    requires RowMapped(row, m, q, ds, step) && (n >= 2 ==> m >= 2)
    ensures RowMapped(row, n, q, ds, step)
  {
  }

  // ----- one step of the search

  // Mode k of the console was looked up; it serves row n, or no row when n is past the end.
  lemma ScanOffered(col: seq<int>, sizes: seq<Size>, d: ModeTable, k: nat, n: nat)
    requires Scanned(col, sizes, d, k) && k < |d| && d[k].Offered?
    requires n == FirstMatch(SizesFor(sizes, d, k), d[k].size)
    ensures Scanned(if n < |col| then col[n := k] else col, sizes, d, k + 1)
  {
    var next := if n < |col| then col[n := k] else col;
    forall r | 2 <= r < |col|
      ensures next[r] != -1 <==> ServedBelow(sizes, d, r, k + 1)
      ensures next[r] != -1 ==> 0 <= next[r] && Serves(sizes, d, next[r], r)
    {
      ScanOne(sizes, d, k, r);
      assert Serves(sizes, d, k, r) <==> r == n;
      assert next[r] == if r == n then k else col[r];
    }
  }

  lemma ScanFailing(col: seq<int>, sizes: seq<Size>, d: ModeTable, k: nat)
    requires Scanned(col, sizes, d, k) && k < |d| && d[k].Failing?
    ensures Scanned(col, sizes, d, k + 1)
    ensures |col| > 1 ==> Scanned(col[1 := k], sizes, d, k + 1)
  {
    forall r | 2 <= r < |col|
      ensures ServedBelow(sizes, d, r, k + 1) <==> ServedBelow(sizes, d, r, k)
    {
      ScanOne(sizes, d, k, r);
    }
  }

  lemma ScanOne(sizes: seq<Size>, d: ModeTable, k: nat, r: nat)
    ensures ServedBelow(sizes, d, r, k + 1) <==> ServedBelow(sizes, d, r, k) || Serves(sizes, d, k, r)
  {
    if Serves(sizes, d, k, r) {
      assert k < k + 1;
    } else if ServedBelow(sizes, d, r, k) {
      var m: nat :| m < k && Serves(sizes, d, m, r);
      assert m < k + 1;
    }
  }

  // ----- rows 0 and 1

  // The entry of a console in row 0 or 1: one of its modes of the row's size if it has one, and else none
  // that it can set.
  ghost predicate LowEntry(ds: seq<ModeTable>, c: nat, n: nat, e: int)
    requires c < |ds| && n < 2
  {
    if CanShow(ds, c, n) then EntryFits(ds[c], e, LowSize(ds, c, n)) else !Settable(ds[c], e)
  }

  ghost predicate LowRow(row: seq<int>, q: seq<Size>, ds: seq<ModeTable>, n: nat)
    requires |ds| > 0 && n < 2
  {
    && n < |q| && q[n] == LowSize(ds, |ds| - 1, n) && |ds| <= |row|
    && forall c :: 0 <= c < |ds| ==> LowEntry(ds, c, n, row[c])
  }

  ghost predicate LowMapped(t: seq<seq<int>>, q: seq<Size>, ds: seq<ModeTable>) {
    && 0 < |ds| && (|t| >= 1 <==> |ds[0]| >= 1) && (|t| >= 2 <==> |ds[0]| >= 2)
    && forall n :: 0 <= n < |t| && n < 2 ==> LowRow(t[n], q, ds, n)
  }

  // What the search leaves in rows 0 and 1 of the new console's column.
  ghost predicate LowScanned(col: seq<int>, sizes: seq<Size>, d: ModeTable, k: nat)
    requires k <= |d|
  {
    |col| == |sizes| && forall n :: 0 <= n < |col| && n < 2 ==> col[n] == LastEntry(sizes, d, n, k)
  }

  lemma LowScanOffered(col: seq<int>, sizes: seq<Size>, d: ModeTable, k: nat, n: nat)
    requires k < |d| && LowScanned(col, sizes, d, k) && d[k].Offered?
    requires n == FirstMatch(SizesFor(sizes, d, k), d[k].size)
    ensures LowScanned(if n < |col| then col[n := k] else col, sizes, d, k + 1)
  {
    forall r | 0 <= r < |col| && r < 2
      ensures LastEntry(sizes, d, r, k + 1) == if r == n then k else col[r]
    {
      assert Serves(sizes, d, k, r) <==> r == n;
    }
  }

  lemma LowScanFailing(col: seq<int>, sizes: seq<Size>, d: ModeTable, k: nat)
    requires k < |d| && LowScanned(col, sizes, d, k) && d[k].Failing?
    ensures LowScanned(if |col| > 1 then col[1 := k] else col, sizes, d, k + 1)
  {
  }

  // The entry of the new console.
  lemma NewLowEntry(sizes: seq<Size>, ds: seq<ModeTable>, d: ModeTable, n: nat)
    requires |ds| > 0 && n < 2 && n < |sizes| && n < |ds[0]| && Conforming(d)
    requires forall i :: 0 <= i < |sizes| && i < 2 ==> i < |ds[0]| && sizes[i] == LowSize(ds, |ds| - 1, i)
    ensures LowEntry(ds + [d], |ds|, n, LastEntry(sizes, d, n, |d|))
  {
    NextLowSize(ds, d, 0);
    if n == 0 {
      LastEntryOfRow0(sizes, d, |d|);
      OffersAll(d, sizes[0]);
    } else {
      NextLowSize(ds, d, 1);
      if |d| > 1 && d[1].Failing? {
        LastEntryAfterFailure(sizes, d, |d|);
      } else {
        LastEntryOfRow1(sizes, d, |d|);
        OffersAll(d, sizes[1]);
      }
    }
  }

  lemma OffersAll(d: ModeTable, z: Size)
    ensures OffersBelow(d, 0, |d|, z) <==> Offers(d, z)
  {
  }

  lemma LowOfFirst(t: seq<seq<int>>, q: seq<Size>, d: ModeTable, step: nat)
    requires Mapped(t, q, [d], step) && Sizes(t, q) == FirstSizes(d) && |q| >= 2 && Conforming(d)
    ensures LowMapped(t, q, [d])
  {
    forall n | 0 <= n < |t| && n < 2
      ensures LowRow(t[n], q, [d], n)
    {
      assert t[n][0] == n && Sizes(t, q)[n] == q[n] == SizeOf(d[n]);
      assert [d][..1] == [d];
      if n == 1 && d[1].Failing? {
        assert [d][0] == d && SomeMode1Fails([d]);
      }
      if n == 1 && !d[1].Failing? {
        assert !SomeMode1Fails([d]);
      }
    }
  }

  // Compaction leaves rows 0 and 1 as they are.
  lemma LowOfIntersect(t: seq<seq<int>>, q: seq<Size>, ds: seq<ModeTable>, flags: seq<int>)
    requires LowMapped(t, q, ds) && |flags| == |t|
    ensures LowMapped(Intersect(t, flags), q, ds)
  {
    KeptLow(t, flags);
    hide Intersect, LowRow;
  }

  lemma KeptLow<T>(rows: seq<T>, flags: seq<int>)
    requires |rows| == |flags|
    ensures (|rows| >= 1 <==> |Intersect(rows, flags)| >= 1) && (|rows| >= 2 <==> |Intersect(rows, flags)| >= 2)
    ensures forall n :: 0 <= n < |rows| && n < 2 ==> n < |Intersect(rows, flags)| && Intersect(rows, flags)[n] == rows[n]
  {
  }

  // One more console.
  lemma LowOfColumn(t: seq<seq<int>>, q: seq<Size>, ds: seq<ModeTable>, step: nat, d: ModeTable, col: seq<int>)
    requires Mapped(t, q, ds, step) && LowMapped(t, q, ds) && |ds| < step && |q| >= 2 && Conforming(d)
    requires LowScanned(col, Sizes(t, q), d, |d|)
    ensures LowMapped(WithColumn(t, |ds|, col), Cleared(q, d), ds + [d])
  {
    var w := WithColumn(t, |ds|, col);
    MappedShape(t, q, ds, step);
    hide Mapped, LowRow, LastEntry, Conforming, Cleared;
    forall n | 0 <= n < |w| && n < 2
      ensures LowRow(w[n], Cleared(q, d), ds + [d], n)
    {
      LowSizes(t, q, ds);
      LowOfRow(t[n], q, ds, d, n, Sizes(t, q));
    }
  }

  lemma LowSizes(t: seq<seq<int>>, q: seq<Size>, ds: seq<ModeTable>)
    requires FirstColumn(t, q) && LowMapped(t, q, ds)
    ensures forall i :: 0 <= i < |t| && i < 2 ==> i < |ds[0]| && Sizes(t, q)[i] == LowSize(ds, |ds| - 1, i)
  {
    hide LowSize, LowEntry;
  }

  lemma {:induction false} LowOfRow(row: seq<int>, q: seq<Size>, ds: seq<ModeTable>, d: ModeTable, n: nat, sizes: seq<Size>)
    requires |ds| > 0 && n < 2 && n < |sizes| && n < |ds[0]| && |ds| < |row| && Conforming(d) && |q| >= 2
    requires LowRow(row, q, ds, n)
    requires forall i :: 0 <= i < |sizes| && i < 2 ==> i < |ds[0]| && sizes[i] == LowSize(ds, |ds| - 1, i)
    ensures LowRow(row[|ds| := LastEntry(sizes, d, n, |d|)], Cleared(q, d), ds + [d], n)
  {
    NextLowSize(ds, d, n);
    NewLowEntry(sizes, ds, d, n);
    hide LowEntry, LowSize, LastEntry, Conforming;
    var wide := row[|ds| := LastEntry(sizes, d, n, |d|)];
    forall c | 0 <= c < |ds + [d]|
      ensures LowEntry(ds + [d], c, n, wide[c])
    {
      if c < |ds| {
        LowEntryStays(ds, d, c, n, row[c]);
      }
    }
  }

  lemma {:induction false} LowEntryStays(ds: seq<ModeTable>, d: ModeTable, c: nat, n: nat, e: int)
    requires c < |ds| && n < 2 && LowEntry(ds, c, n, e)
    ensures LowEntry(ds + [d], c, n, e)
  {
    LowPrefix(ds, d, c, n);
  }

  lemma MappedShape(t: seq<seq<int>>, q: seq<Size>, ds: seq<ModeTable>, step: nat)
    requires Mapped(t, q, ds, step)
    ensures FirstColumn(t, q) && |ds| > 0
    ensures forall n :: 0 <= n < |t| ==> |t[n]| == step
    ensures forall n :: 0 <= n < |t| && n < 2 ==> t[n][0] == n && Sizes(t, q)[n] == q[n]
  {
  }
}
