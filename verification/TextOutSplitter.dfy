/**
The text-output side of the console splitter: adding and removing consoles, querying and setting
modes, and the flat mode map behind them.
*/
module TextOutSplitter {
  import opened FlatTable
  import opened Lists
  import opened SharedModes
  import opened ModeMap

  const ALLOC_UNIT := 32

  datatype Status = Success | Unsupported | NotFound

  // A console: its fixed table of modes and the mode it is in.
  class TextOut {
    const modes: ModeTable
    var mode: int

    constructor (modes: ModeTable)
      requires Conforming(modes)
      ensures this.modes == modes && mode == 0
    {
      this.modes := modes;
      mode := 0;
    }

    method SetMode(n: int) returns (status: Status)
      modifies this`mode
      ensures status == if 0 <= n < |modes| && modes[n].Offered? then Success else Unsupported
      ensures mode == if status == Success then n else old(mode)
    {
      if 0 <= n < |modes| && modes[n].Offered? {
        mode := n;
        return Success;
      }
      return Unsupported;
    }
  }

  ghost function Tables(list: seq<TextOut>): (ds: seq<ModeTable>)
    ensures |ds| == |list|
  {
    seq(|list|, i requires 0 <= i < |list| => list[i].modes)
  }

  // Every console is in a mode of that size.
  ghost predicate AllShow(list: seq<TextOut>, z: Size)
    reads list
  {
    forall d :: d in list ==> EntryFits(d.modes, d.mode, z)
  }

  // The modes that the consoles are in.
  ghost function ModesOf(list: seq<TextOut>): (modes: seq<int>)
    reads list
    ensures |modes| == |list|
  {
    seq(|list|, c requires 0 <= c < |list| reads list => list[c].mode)
  }

  // The console is in the list once.
  ghost predicate Once(list: seq<TextOut>, c: int) {
    0 <= c < |list| && forall i :: 0 <= i < |list| && i != c ==> list[i] != list[c]
  }

  // What an attempt to set shared mode n does to the modes that the consoles are in. From mode 2 on every
  // console goes into a mode of the shared size. For modes 0 and 1 every console that has a mode for it goes
  // into such a mode, the first into its own mode of that number, and the others stay as they are. The
  // current mode, and a number out of range, change nothing.
  ghost predicate Attempt(list: seq<TextOut>, sizes: seq<Size>, before: seq<int>, after: seq<int>, n: nat, current: int)
    requires |before| == |after| == |list|
  {
    if n >= |sizes| || current == n then after == before
    else if n >= 2 then Showing(list, after, |list|, sizes[n])
    else forall c :: Once(list, c) ==> LowAttempt(list, before[c], after[c], n, c)
  }

  ghost predicate LowAttempt(list: seq<TextOut>, before: int, after: int, n: nat, c: nat)
    requires n < 2 && c < |list|
  {
    if CanShow(Tables(list), c, n)
    then EntryFits(list[c].modes, after, LowSize(Tables(list), c, n)) && (c == 0 ==> after == n)
    else after == before
  }

  ghost predicate Succeeds(list: seq<TextOut>, sizes: seq<Size>, n: nat, current: int) {
    && n < |sizes|
    && (current == n || n >= 2 || forall c :: 0 <= c < |list| ==> CanShow(Tables(list), c, n))
  }

  // The entries of the consoles in the row of shared mode n.
  ghost predicate RowMeans(list: seq<TextOut>, sizes: seq<Size>, entries: seq<int>, n: nat)
    requires |entries| == |list|
  {
    && n < |sizes|
    && (n >= 2 ==> Showing(list, entries, |list|, sizes[n]))
    && (n < 2 ==> forall c :: 0 <= c < |list| ==> LowEntry(Tables(list), c, n, entries[c]))
    && (n < 2 && |list| > 0 ==> entries[0] == n)
  }

  // The first consoles have been set to their entries, as far as they can be.
  ghost predicate Applied(list: seq<TextOut>, entries: seq<int>, before: seq<int>, after: seq<int>, k: nat)
    requires |entries| == |before| == |after| == |list|
  {
    forall c :: Once(list, c) ==>
      after[c] == if c < k && Settable(list[c].modes, entries[c]) then entries[c] else before[c]
  }

  lemma AppliedAttempt(list: seq<TextOut>, sizes: seq<Size>, entries: seq<int>, before: seq<int>, after: seq<int>,
      n: nat, current: int)
    requires |entries| == |before| == |after| == |list| && current != n
    requires RowMeans(list, sizes, entries, n) && Applied(list, entries, before, after, |list|)
    requires n >= 2 ==> Showing(list, after, |list|, sizes[n])
    ensures Attempt(list, sizes, before, after, n, current)
    ensures Succeeds(list, sizes, n, current) <==> AllSettable(list, entries, |list|)
  {
    hide CanShow, LowSize;
    if n < 2 {
      forall c | 0 <= c < |list|
        ensures CanShow(Tables(list), c, n) <==> Settable(list[c].modes, entries[c])
      {
        assert LowEntry(Tables(list), c, n, entries[c]);
      }
    }
  }

  ghost predicate AllSettable(list: seq<TextOut>, entries: seq<int>, k: nat)
    requires k <= |list| == |entries|
  {
    forall c :: 0 <= c < k ==> Settable(list[c].modes, entries[c])
  }

  lemma FitsIsSettable(d: ModeTable, e: int, z: Size)
    ensures EntryFits(d, e, z) ==> Settable(d, e)
  {
  }

  lemma AttemptOfNothing(list: seq<TextOut>, sizes: seq<Size>, modes: seq<int>, n: nat, current: int)
    requires |modes| == |list|
    ensures n >= |sizes| || current == n ==> Attempt(list, sizes, modes, modes, n, current)
    ensures n >= |sizes| ==> !Succeeds(list, sizes, n, current)
    ensures n < |sizes| && (current == n || n >= 2) ==> Succeeds(list, sizes, n, current)
  {
  }

  lemma AllShowMore(list: seq<TextOut>, d: TextOut)
    ensures forall z :: AllShow(list + [d], z) <==> AllShow(list, z) && EntryFits(d.modes, d.mode, z)
  {
    hide EntryFits;
    forall z: Size
      ensures AllShow(list + [d], z) <==> AllShow(list, z) && EntryFits(d.modes, d.mode, z)
    {
      assert (list + [d])[|list|] == d;
      assert forall x :: x in list + [d] <==> x in list || x == d;
    }
  }

  // An attempt at a mode from 2 on.
  lemma AttemptShows(list: seq<TextOut>, sizes: seq<Size>, before: seq<int>, after: seq<int>, n: nat, current: int)
    requires |before| == |after| == |list| && Attempt(list, sizes, before, after, n, current)
    ensures 2 <= n < |sizes| ==>
      (Showing(list, after, |list|, sizes[n]) <==> current != n || Showing(list, before, |list|, sizes[n]))
    ensures n >= |sizes| || current == n ==> after == before
  {
    hide EntryFits;
  }

  lemma RowsOfLarge(list: seq<TextOut>, sizes: seq<Size>, entries: seq<int>, n: nat)
    requires |entries| == |list|
    ensures RowMeans(list, sizes, entries, n) && n >= 2 ==>
              n < |sizes| && AllSettable(list, entries, |list|)
              && Showing(list, entries, |list|, sizes[n])
  {
  }

  lemma NothingSet(list: seq<TextOut>, entries: seq<int>, modes: seq<int>, z: Size)
    requires |entries| == |modes| == |list|
    ensures Applied(list, entries, modes, modes, 0) && AllSettable(list, entries, 0) && Showing(list, modes, 0, z)
  {
  }

  lemma ModesShow(list: seq<TextOut>, z: Size)
    ensures AllShow(list, z) <==> Showing(list, ModesOf(list), |list|, z)
  {
    hide EntryFits;
  }

  ghost function EntryAt(t: seq<seq<int>>, n: nat, c: nat): int {
    if n < |t| && c < |t[n]| then t[n][c] else -1
  }

  // The first entries of a row.
  ghost function Entries(t: seq<seq<int>>, n: nat, count: nat): (entries: seq<int>)
    ensures |entries| == count
    ensures forall c :: 0 <= c < count ==> entries[c] == EntryAt(t, n, c)
  {
    seq(count, c requires 0 <= c => EntryAt(t, n, c))
  }

  // The consoles are in modes that they offer.
  ghost predicate OwnModes(list: seq<TextOut>, modes: seq<int>)
    requires |modes| == |list|
  {
    forall c :: 0 <= c < |list| ==> Settable(list[c].modes, modes[c])
  }

  // The first consoles are in modes of that size.
  ghost predicate Showing(list: seq<TextOut>, modes: seq<int>, k: nat, z: Size)
    requires |modes| == |list| && k <= |list|
  {
    forall c :: 0 <= c < k ==> EntryFits(list[c].modes, modes[c], z)
  }

  // One console was set to its entry, as far as it can be; it may be in the list more than once.
  ghost predicate OneSet(list: seq<TextOut>, before: seq<int>, after: seq<int>, k: nat, entry: int)
    requires |before| == |after| == |list| && k < |list|
  {
    forall c :: 0 <= c < |list| ==>
      after[c] == if list[c] == list[k] && Settable(list[k].modes, entry) then entry else before[c]
  }

  lemma RoundDone(list: seq<TextOut>, entries: seq<int>, start: seq<int>, before: seq<int>, after: seq<int>, k: nat, z: Size)
    requires |entries| == |start| == |before| == |after| == |list| && k < |list|
    requires OneSet(list, before, after, k, entries[k])
    ensures Applied(list, entries, start, before, k) ==> Applied(list, entries, start, after, k + 1)
    ensures OwnModes(list, before) ==> OwnModes(list, after)
    ensures Showing(list, entries, |list|, z) && Showing(list, before, k, z) ==> Showing(list, after, k + 1, z)
    ensures AllSettable(list, entries, k + 1) <==> AllSettable(list, entries, k) && Settable(list[k].modes, entries[k])
  {
  }

  // What setting the first k consoles to their entries has done; while a console is being added, one that
  // is in its entry's mode counts as set.
  ghost predicate SetSoFar(list: seq<TextOut>, entries: seq<int>, start: seq<int>, modes: seq<int>, k: nat, z: Size,
      all: bool, adding: bool)
    requires |entries| == |start| == |modes| == |list| && k <= |list|
  {
    && (AllSettable(list, entries, k) ==> all)
    && (!adding || OwnModes(list, start) ==> (all <==> AllSettable(list, entries, k)))
    && (OwnModes(list, start) ==> OwnModes(list, modes))
    && Applied(list, entries, start, modes, k)
    && (Showing(list, entries, |list|, z) ==> Showing(list, modes, k, z))
  }

  lemma OneMoreSet(list: seq<TextOut>, entries: seq<int>, start: seq<int>, before: seq<int>, after: seq<int>, k: nat,
      z: Size, all: bool, adding: bool, ok: bool)
    requires |entries| == |start| == |before| == |after| == |list| && k < |list|
    requires SetSoFar(list, entries, start, before, k, z, all, adding)
    requires OneSet(list, before, after, k, entries[k]) && (Settable(list[k].modes, entries[k]) ==> ok)
    requires !adding || OwnModes(list, before) ==> (ok <==> Settable(list[k].modes, entries[k]))
    ensures SetSoFar(list, entries, start, after, k + 1, z, all && ok, adding)
  {
    hide Applied, OwnModes, Showing, AllSettable, OneSet, Settable;
    RoundDone(list, entries, start, before, after, k, z);
  }

  // A row without any entry.
  ghost function NoRow(step: nat): (row: seq<int>)
    ensures |row| == step
  {
    seq(step, _ => -1)
  }

  // The first count entries of a row, moved to a wider table.
  ghost function WiderRow(row: seq<int>, count: nat, step: nat): (wide: seq<int>)
    requires count <= |row| && count <= step
    ensures |wide| == step
  {
    row[..count] + NoRow(step - count)
  }

  // At least as large in both directions, and larger in one.
  predicate Exceeds(a: Size, b: Size) {
    a.columns >= b.columns && a.rows >= b.rows && a != b
  }

  // Among these sizes, p is the configured one, or, with none configured, one that is not exceeded;
  // 0xFF when there is none.
  ghost predicate Preferred(sizes: seq<Size>, column: nat, row: nat, p: nat) {
    if column != 0 && row != 0 then
      if Size(column, row) in sizes then p < |sizes| && sizes[p] == Size(column, row) else p == 0xFF
    else if exists n :: 0 <= n < |sizes| && sizes[n] != NO_SIZE then
      && p < |sizes| && sizes[p] != NO_SIZE
      && forall n :: 0 <= n < |sizes| ==> !Exceeds(sizes[n], sizes[p])
    else p == 0xFF
  }

  // The mode to fall back on.
  ghost predicate Fallback(sizes: seq<Size>, b: nat) {
    if exists n :: 0 <= n < |sizes| && sizes[n] == Size(90, 80) then b < |sizes| && sizes[b] == Size(90, 80)
    else b == 0xFF
  }

  // The scan for the preferred mode, as far as the sizes seen so far.
  ghost predicate Best(sizes: seq<Size>, n: nat, column: nat, row: nat, p: nat, most: Size)
    requires n <= |sizes|
  {
    && Preferred(sizes[..n], column, row, p)
    && (column == 0 || row == 0 ==>
          if exists k :: 0 <= k < n && sizes[k] != NO_SIZE then p < n && sizes[p] == most && most != NO_SIZE
          else most == NO_SIZE)
  }

  lemma NothingBest(sizes: seq<Size>, column: nat, row: nat)
    ensures Best(sizes, 0, column, row, 0xFF, Size(0, 0))
  {
  }

  lemma BestIsPreferred(sizes: seq<Size>, column: nat, row: nat, p: nat, most: Size)
    requires Best(sizes, |sizes|, column, row, p, most)
    ensures Preferred(sizes, column, row, p)
  {
    assert sizes[..|sizes|] == sizes;
  }

  lemma BestNext(sizes: seq<Size>, n: nat, column: nat, row: nat, p: nat, most: Size)
    requires n < |sizes| && Best(sizes, n, column, row, p, most)
    ensures
      var z := sizes[n];
      var take := z != NO_SIZE &&
        (if column != 0 && row != 0 then z == Size(column, row) else z.columns >= most.columns && z.rows >= most.rows);
      var grown := take && (column == 0 || row == 0);
      Best(sizes, n + 1, column, row, if take then n else p, if grown then z else most)
  {
    var before, after := sizes[..n], sizes[..n + 1];
    assert after == before + [sizes[n]];
    if exists k :: 0 <= k < |before| && before[k] != NO_SIZE {
      var k :| 0 <= k < |before| && before[k] != NO_SIZE;
      assert after[k] != NO_SIZE;
    }
    assert after[n] == sizes[n];
  }

  datatype Change = Add(console: TextOut, column: nat, row: nat) | Delete(console: TextOut)

  ghost function Changed(list: seq<TextOut>, c: Change): seq<TextOut> {
    match c
    case Add(d, _, _) => list + [d]
    case Delete(d) => RemoveFirst(list, d)
  }

  ghost function After(list: seq<TextOut>, changes: seq<Change>): seq<TextOut>
    decreases |changes|
  {
    if changes == [] then list
    else Changed(After(list, changes[..|changes| - 1]), changes[|changes| - 1])
  }

  lemma AfterNext(list: seq<TextOut>, changes: seq<Change>, i: nat)
    requires i < |changes|
    ensures After(list, changes[..i + 1]) == Changed(After(list, changes[..i]), changes[i])
  {
    assert changes[..i + 1][..i] == changes[..i];
  }

  lemma RemoveFirstShrinks(list: seq<TextOut>, x: TextOut)
    ensures forall d :: d in RemoveFirst(list, x) ==> d in list
  {
  }

  // A console that comes and goes leaves the list of shared modes as it was.
  lemma AddThenDelete(list: seq<TextOut>, d: TextOut, column: nat, row: nat)
    requires d !in list
    ensures After(list, [Add(d, column, row), Delete(d)]) == list
  {
    var both := [Add(d, column, row), Delete(d)];
    assert both[..1] == [Add(d, column, row)] && both[..1][..0] == [];
    assert After(list, []) == list && After(list, both[..1]) == list + [d];
    AddThenRemove(list, d);
  }

  class TextOutSplitter {
    var textOutList: seq<TextOut>
    var currentNumberOfConsoles: nat
    var textOutListCount: nat
    var queryData: array<Size>
    var modeMap: array?<int>
    var maxMode: nat
    var mode: int
    var addingConOutDevice: bool

    ghost function LiveRows(): seq<seq<int>>
      requires modeMap != null && Offset(maxMode, textOutListCount) <= modeMap.Length
      reads this, modeMap
    {
      Rows(modeMap[..], textOutListCount, maxMode)
    }

    ghost function Consoles(): seq<ModeTable>
      requires currentNumberOfConsoles <= |textOutList|
      reads this
    {
      Tables(textOutList[..currentNumberOfConsoles])
    }

    // The storage: sizes and strides fit together.
    ghost predicate Shape()
      reads this, queryData, modeMap
    {
      && ALLOC_UNIT <= textOutListCount
      && ALLOC_UNIT <= queryData.Length
      && currentNumberOfConsoles <= textOutListCount
      && currentNumberOfConsoles <= |textOutList|
      && (forall d :: d in textOutList ==> Conforming(d.modes))
      && 1 <= maxMode <= queryData.Length && maxMode <= 0x7FFF_FFFF
      && (modeMap != null ==>
           && modeMap.Length == Offset(queryData.Length, textOutListCount)
           && Offset(maxMode, textOutListCount) <= modeMap.Length)
    }

    ghost predicate Valid()
      reads this, queryData, modeMap
    {
      && Shape()
      && |textOutList| == currentNumberOfConsoles
      && (currentNumberOfConsoles == 0 ==>
           maxMode == 1 && queryData[0] == Size(80, 25)
           && (modeMap != null ==> modeMap.Length > 0 && modeMap[0] == 0))
      && (currentNumberOfConsoles > 0 ==>
           && modeMap != null && Mapped(LiveRows(), queryData[..], Consoles(), textOutListCount)
           && LowMapped(LiveRows(), queryData[..], Consoles()))
    }

    // What QueryMode reports, mode by mode.
    ghost function Reported(): seq<Size>
      requires Valid()
      reads this, queryData, modeMap
    {
      if currentNumberOfConsoles == 0 then [queryData[0]] else Sizes(LiveRows(), queryData[..])
    }

    constructor ()
      ensures Valid() && fresh(queryData) && (modeMap != null ==> fresh(modeMap))
      ensures textOutList == [] && Reported() == Shared([]) && mode == 0 && Consoles() == []
    {
      textOutList, currentNumberOfConsoles, textOutListCount := [], 0, ALLOC_UNIT;
      queryData := new Size[ALLOC_UNIT](_ => Size(80, 25));
      modeMap, maxMode, mode, addingConOutDevice := null, 1, 0, false;
    }

    // Entries n.. of a row: count of them, from one array into another.
    method CopyCells(to: array<int>, dst: nat, from: array<int>, src: nat, count: nat)
      requires to != from && dst + count <= to.Length && (count > 0 ==> src + count <= from.Length)
      modifies to
      ensures forall p :: 0 <= p < to.Length ==>
        to[p] == if dst <= p < dst + count then from[p - dst + src] else old(to[p])
    {
      for i := 0 to count
        invariant forall p :: 0 <= p < to.Length ==>
          to[p] == if dst <= p < dst + i then from[p - dst + src] else old(to[p])
      {
        to[dst + i] := from[src + i];
      }
    }

    lemma NoRows(a: seq<int>, step: nat, n: nat, r: nat)
      requires Offset(n, step) <= |a| && r < n
      requires forall p :: 0 <= p < |a| ==> a[p] == -1
      ensures Rows(a, step, n)[r] == NoRow(step)
    {
      RowInBounds(r, n, step);
      RowAt(a, step, n, r);
    }

    /** Allocates the mode map anew for the current capacity. When consoles are mapped already, the
        capacity has just grown by one unit and their entries are copied, row by row. */
    method GrowMapTable()
      requires ALLOC_UNIT <= textOutListCount && maxMode <= queryData.Length
      requires modeMap != null && currentNumberOfConsoles > 0 ==>
        && currentNumberOfConsoles <= textOutListCount - ALLOC_UNIT
        && modeMap.Length == Offset(queryData.Length, textOutListCount - ALLOC_UNIT)
      modifies this`modeMap
      ensures modeMap != null && fresh(modeMap)
      ensures modeMap.Length == Offset(queryData.Length, textOutListCount)
      ensures forall r :: 0 <= r < queryData.Length ==>
        Rows(modeMap[..], textOutListCount, queryData.Length)[r] ==
          if old(modeMap) != null && currentNumberOfConsoles > 0 && r < maxMode
          then WiderRow(
                 old(Rows(modeMap[..], textOutListCount - ALLOC_UNIT, queryData.Length)[r]),
                 currentNumberOfConsoles, textOutListCount)
          else NoRow(textOutListCount)
    {
      hide Rows, Offset;
      var newStepSize, rows := textOutListCount, queryData.Length;
      var newMap := new int[Offset(rows, newStepSize)](_ => -1);
      forall r | 0 <= r < rows
        ensures Rows(newMap[..], newStepSize, rows)[r] == NoRow(newStepSize)
      {
        NoRows(newMap[..], newStepSize, rows, r);
      }
      if modeMap != null {
        CopyRows(newMap, modeMap);
      }
      modeMap := newMap;
    }

    // Row by row, the entries of the consoles there are go from the old map into the new one.
    method CopyRows(newMap: array<int>, oldMap: array<int>)
      requires newMap != oldMap && ALLOC_UNIT <= textOutListCount && maxMode <= queryData.Length
      requires newMap.Length == Offset(queryData.Length, textOutListCount)
      requires currentNumberOfConsoles > 0 ==>
        && currentNumberOfConsoles <= textOutListCount - ALLOC_UNIT
        && oldMap.Length == Offset(queryData.Length, textOutListCount - ALLOC_UNIT)
      requires forall r :: 0 <= r < queryData.Length ==>
        Rows(newMap[..], textOutListCount, queryData.Length)[r] == NoRow(textOutListCount)
      modifies newMap
      ensures forall r :: 0 <= r < queryData.Length ==>
        Rows(newMap[..], textOutListCount, queryData.Length)[r] ==
          if currentNumberOfConsoles > 0 && r < maxMode
          then WiderRow(Rows(oldMap[..], textOutListCount - ALLOC_UNIT, queryData.Length)[r],
                        currentNumberOfConsoles, textOutListCount)
          else NoRow(textOutListCount)
    {
      hide Rows, Offset;
      var newStepSize, size := textOutListCount, currentNumberOfConsoles;
      var oldStepSize := newStepSize - ALLOC_UNIT;
      var index, dst, src := 0, 0, 0;
      NoRowsBefore(newStepSize);
      NoRowsBefore(oldStepSize);
      while index < maxMode
        invariant 0 <= index <= maxMode
        invariant dst == Offset(index, newStepSize) && src == Offset(index, oldStepSize)
        invariant forall r :: 0 <= r < queryData.Length ==>
          Rows(newMap[..], newStepSize, queryData.Length)[r] ==
            if size > 0 && r < index
            then WiderRow(Rows(oldMap[..], oldStepSize, queryData.Length)[r], size, newStepSize)
            else NoRow(newStepSize)
      {
        RowInBounds(index, queryData.Length, newStepSize);
        OffsetNext(index, newStepSize);
        OffsetNext(index, oldStepSize);
        CopyOneRow(newMap, dst, oldMap, src, size, oldStepSize, newStepSize, queryData.Length, index);
        dst := dst + newStepSize;
        src := src + oldStepSize;
        index := index + 1;
      }
    }

    lemma NoRowsBefore(step: nat)
      ensures Offset(0, step) == 0
    {
    }

    method CopyOneRow(newMap: array<int>, dst: nat, oldMap: array<int>, src: nat, size: nat,
                      ghost oldStep: nat, ghost newStep: nat, ghost rows: nat, ghost index: nat)
      requires newMap != oldMap && index < rows && size <= newStep
      requires newMap.Length == Offset(rows, newStep)
      requires dst == Offset(index, newStep) && src == Offset(index, oldStep)
      requires size > 0 ==> oldMap.Length == Offset(rows, oldStep) && size <= oldStep
      requires Rows(newMap[..], newStep, rows)[index] == NoRow(newStep)
      modifies newMap
      ensures Rows(newMap[..], newStep, rows) == old(Rows(newMap[..], newStep, rows))[index :=
        if size > 0 then WiderRow(Rows(oldMap[..], oldStep, rows)[index], size, newStep) else NoRow(newStep)]
    {
      hide Rows, Offset;
      ghost var before := newMap[..];
      RowInBounds(index, rows, newStep);
      RowAt(before, newStep, rows, index);
      if size > 0 {
        RowInBounds(index, rows, oldStep);
        RowAt(oldMap[..], oldStep, rows, index);
      }
      CopyCells(newMap, dst, oldMap, src, size);
      RowsChangeRow(before, newMap[..], newStep, rows, index);
      if size > 0 {
        var wide := WiderRow(oldMap[src..src + oldStep], size, newStep);
        forall k | 0 <= k < newStep
          ensures newMap[dst + k] == wide[k]
        {
          assert before[dst + k] == before[dst..dst + newStep][k];
        }
        assert newMap[dst..dst + newStep] == wide;
      } else {
        assert newMap[dst..dst + newStep] == before[dst..dst + newStep];
      }
    }

    method GrowQueryData()
      modifies this`queryData
      ensures fresh(queryData) && queryData.Length == old(queryData.Length) + ALLOC_UNIT
      ensures queryData[..old(queryData.Length)] == old(queryData[..])
    {
      var buffer := queryData;
      var grown := new Size[buffer.Length + ALLOC_UNIT](_ => NO_SIZE);
      for i := 0 to buffer.Length
        invariant forall k :: 0 <= k < i ==> grown[k] == buffer[k]
      {
        grown[i] := buffer[i];
      }
      queryData := grown;
    }

    method GrowQueryDataTo(n: nat)
      modifies this`queryData
      ensures queryData == old(queryData) || fresh(queryData)
      ensures n <= queryData.Length && old(queryData.Length) <= queryData.Length
    {
      while n > queryData.Length
        invariant queryData == old(queryData) || fresh(queryData)
        invariant old(queryData.Length) <= queryData.Length
        decreases n - queryData.Length
      {
        GrowQueryData();
      }
    }

    /** The first console: its own modes are the shared ones. */
    method AddOutputMode(d: TextOut)
      requires Conforming(d.modes) && ALLOC_UNIT <= textOutListCount && ALLOC_UNIT <= queryData.Length
      requires modeMap == null || currentNumberOfConsoles == 0
      modifies this`maxMode, this`queryData, this`modeMap, queryData
      ensures queryData == old(queryData) || fresh(queryData)
      ensures modeMap != null && fresh(modeMap) && ALLOC_UNIT <= queryData.Length
      ensures modeMap.Length == Offset(queryData.Length, textOutListCount)
      ensures 1 <= maxMode <= queryData.Length && maxMode <= 0x7FFF_FFFF
      ensures Offset(maxMode, textOutListCount) <= modeMap.Length
      ensures Mapped(LiveRows(), queryData[..], [d.modes], textOutListCount)
      ensures LowMapped(LiveRows(), queryData[..], [d.modes])
      ensures Sizes(LiveRows(), queryData[..]) == FirstSizes(d.modes)
    {
      hide Rows, Offset, Mapped, LowMapped, Sizes, FirstSizes;
      maxMode := |d.modes|;
      GrowQueryDataTo(maxMode);
      GrowMapTable();
      FillFirstColumn(d);
      FirstMapped(LiveRows(), queryData[..], d.modes, textOutListCount);
      LowOfFirst(LiveRows(), queryData[..], d.modes, textOutListCount);
    }

    // The rows of a map that holds one console only.
    ghost predicate FirstRows(rows: seq<seq<int>>, step: nat, k: nat) {
      && (forall r :: 0 <= r < |rows| && r < k ==> rows[r] == OneEntry(r, step))
      && (forall r :: k <= r < |rows| ==> rows[r] == NoRow(step))
    }

    ghost function OneEntry(r: nat, step: nat): (row: seq<int>) {
      if step == 0 then [] else [r] + NoRow(step - 1)
    }

    lemma FirstMapped(t: seq<seq<int>>, q: seq<Size>, d: ModeTable, step: nat)
      requires Conforming(d) && 0 < step && |t| == |d| <= |q|
      requires FirstRows(t, step, |t|) && forall r :: 0 <= r < |d| ==> q[r] == SizeOf(d[r])
      ensures Mapped(t, q, [d], step) && Sizes(t, q) == FirstSizes(d)
    {
    }

    method FillFirstColumn(d: TextOut)
      requires Conforming(d.modes) && ALLOC_UNIT <= textOutListCount && modeMap != null
      requires maxMode == |d.modes| <= queryData.Length
      requires modeMap.Length == Offset(queryData.Length, textOutListCount)
      requires FirstRows(Rows(modeMap[..], textOutListCount, queryData.Length), textOutListCount, 0)
      modifies modeMap, queryData
      ensures Offset(maxMode, textOutListCount) <= modeMap.Length
      ensures FirstRows(LiveRows(), textOutListCount, maxMode)
      ensures forall r :: 0 <= r < maxMode ==> queryData[r] == SizeOf(d.modes[r])
    {
      hide Rows, Offset;
      var k, index := 0, 0;
      NoRowsBefore(textOutListCount);
      while k < maxMode
        invariant 0 <= k <= maxMode && index == Offset(k, textOutListCount)
        invariant FirstRows(Rows(modeMap[..], textOutListCount, queryData.Length), textOutListCount, k)
        invariant forall r :: 0 <= r < k ==> queryData[r] == SizeOf(d.modes[r])
      {
        queryData[k] := if d.modes[k].Offered? then d.modes[k].size else NO_SIZE;
        RowsSetCell(modeMap[..], textOutListCount, queryData.Length, k, 0, k);
        OffsetNext(k, textOutListCount);
        ghost var before := modeMap[..];
        modeMap[index] := k;
        assert modeMap[..] == before[index := k];
        k := k + 1;
        index := index + textOutListCount;
      }
      RowsTake(modeMap[..], textOutListCount, queryData.Length, maxMode);
    }

    // The first row, among the live ones, whose size is z.
    method Search(z: Size) returns (index: nat)
      requires modeMap != null && 0 < textOutListCount
      requires Offset(maxMode, textOutListCount) <= modeMap.Length
      requires FirstColumn(LiveRows(), queryData[..])
      ensures index == FirstMatch(Sizes(LiveRows(), queryData[..]), z)
    {
      hide Rows, Offset;
      index := 0;
      ghost var sizes := Sizes(LiveRows(), queryData[..]);
      while index < maxMode
        invariant 0 <= index <= maxMode
        invariant forall k :: 0 <= k < index ==> sizes[k] != z
      {
        RowInBounds(index, maxMode, textOutListCount);
        RowAt(modeMap[..], textOutListCount, maxMode, index);
        var queryMode := modeMap[Offset(index, textOutListCount)];
        assert queryMode == LiveRows()[index][0] && sizes[index] == queryData[queryMode];
        if queryData[queryMode] == z {
          return;
        }
        index := index + 1;
      }
    }

    // Writes one entry of the map.
    method SetEntry(r: nat, c: nat, v: int)
      requires modeMap != null && r < queryData.Length && c < textOutListCount
      requires modeMap.Length == Offset(queryData.Length, textOutListCount)
      requires Offset(maxMode, textOutListCount) <= modeMap.Length
      modifies modeMap
      ensures r < maxMode ==> LiveRows() == old(LiveRows())[r := old(LiveRows())[r][c := v]]
      ensures r >= maxMode ==> LiveRows() == old(LiveRows())
    {
      hide Rows, Offset;
      ghost var before := modeMap[..];
      RowInBounds(r, queryData.Length, textOutListCount);
      modeMap[c + Offset(r, textOutListCount)] := v;
      assert modeMap[..] == before[Offset(r, textOutListCount) + c := v];
      if r < maxMode {
        RowsSetCell(before, textOutListCount, maxMode, r, c, v);
      } else {
        if maxMode < r {
          RowInBounds(maxMode, r, textOutListCount);
        }
        RowsOfPrefix(before, modeMap[..], textOutListCount, maxMode);
      }
    }

    // The new console's column, c, while its modes below k have been looked up.
    ghost predicate Filling(rows: seq<seq<int>>, q: seq<Size>, c: nat, d: ModeTable, col: seq<int>, k: nat)
      requires modeMap != null && Offset(maxMode, textOutListCount) <= modeMap.Length
      requires FirstColumn(rows, q) && |q| >= 2 && |col| == |rows| && k <= |d|
      requires forall n :: 0 <= n < |rows| ==> c < |rows[n]|
      reads this, queryData, modeMap
    {
      && LiveRows() == WithColumn(rows, c, col)
      && queryData[..] == (if k < 2 then q else Cleared(q, d))
      && Scanned(col, Sizes(rows, q), d, k) && LowScanned(col, Sizes(rows, q), d, k)
    }

    /** Looks up every mode of the new console among the shared ones, and notes it in the console's
        column of the map. */
    method FillColumn(d: TextOut) returns (ghost col: seq<int>)
      requires Conforming(d.modes) && Shape() && modeMap != null
      requires 0 < currentNumberOfConsoles < textOutListCount
      requires Mapped(LiveRows(), queryData[..], Consoles(), textOutListCount)
      modifies modeMap, queryData
      ensures Scanned(col, old(Sizes(LiveRows(), queryData[..])), d.modes, |d.modes|)
      ensures LowScanned(col, old(Sizes(LiveRows(), queryData[..])), d.modes, |d.modes|)
      ensures |col| == maxMode
      ensures LiveRows() == WithColumn(old(LiveRows()), currentNumberOfConsoles, col)
      ensures queryData[..] == Cleared(old(queryData[..]), d.modes)
    {
      hide Rows, Offset, Scanned, LowScanned, Cleared, Mapped;
      ghost var rows, q, c := LiveRows(), queryData[..], currentNumberOfConsoles;
      MappedFacts(rows, q, Consoles(), textOutListCount);
      col := NoRow(|rows|);
      NothingScanned(rows, q, c, d.modes, col);
      for k := 0 to |d.modes|
        invariant |col| == |rows| && Filling(rows, q, c, d.modes, col, k)
      {
        col := LookUp(d, k, rows, q, col);
      }
      ClearedEarly(q, d.modes);
    }

    lemma MappedFacts(t: seq<seq<int>>, q: seq<Size>, ds: seq<ModeTable>, step: nat)
      requires Mapped(t, q, ds, step)
      ensures FirstColumn(t, q) && forall n :: 0 <= n < |t| ==> |t[n]| == step
      ensures forall n, c :: 0 <= n < |t| && |ds| <= c < step ==> t[n][c] == -1
    {
    }

    lemma NothingScanned(t: seq<seq<int>>, q: seq<Size>, c: nat, d: ModeTable, col: seq<int>)
      requires FirstColumn(t, q) && col == NoRow(|t|)
      requires forall n :: 0 <= n < |t| ==> c < |t[n]| && t[n][c] == -1
      ensures WithColumn(t, c, col) == t && Scanned(col, Sizes(t, q), d, 0) && LowScanned(col, Sizes(t, q), d, 0)
    {
      forall n | 0 <= n < |t|
        ensures WithColumn(t, c, col)[n] == t[n]
      {
        assert t[n][c := -1] == t[n];
      }
    }

    lemma ClearedEarly(q: seq<Size>, d: ModeTable)
      requires |q| >= 2
      ensures |d| < 2 || d[1].Offered? ==> Cleared(q, d) == q
    {
    }

    lemma WithColumnUpdate(t: seq<seq<int>>, c: nat, col: seq<int>, n: nat, v: int)
      requires |col| == |t| && n < |t| && forall r :: 0 <= r < |t| ==> c < |t[r]|
      ensures WithColumn(t, c, col)[n := WithColumn(t, c, col)[n][c := v]] == WithColumn(t, c, col[n := v])
    {
      assert t[n][c := col[n]][c := v] == t[n][c := v];
    }

    // One mode of the new console.
    method LookUp(d: TextOut, k: nat, ghost rows: seq<seq<int>>, ghost q: seq<Size>, ghost col: seq<int>)
      returns (ghost newCol: seq<int>)
      requires Conforming(d.modes) && Shape() && modeMap != null && k < |d.modes|
      requires 0 < currentNumberOfConsoles < textOutListCount
      requires |col| == |rows| == maxMode && |q| == queryData.Length && FirstColumn(rows, q)
      requires forall n :: 0 <= n < |rows| ==> currentNumberOfConsoles < |rows[n]|
      requires Filling(rows, q, currentNumberOfConsoles, d.modes, col, k)
      modifies modeMap, queryData
      ensures |newCol| == |rows|
      ensures Filling(rows, q, currentNumberOfConsoles, d.modes, newCol, k + 1)
    {
      hide Rows, Offset, Scanned, LowScanned, Mapped;
      ghost var c, sizes := currentNumberOfConsoles, Sizes(rows, q);
      newCol := col;
      if d.modes[k].Failing? {
        ScanFailing(col, sizes, d.modes, k);
        LowScanFailing(col, sizes, d.modes, k);
        SetEntry(1, currentNumberOfConsoles, k);
        queryData[1] := NO_SIZE;
        if maxMode > 1 {
          newCol := col[1 := k];
          WithColumnUpdate(rows, c, col, 1, k);
        }
      } else {
        WithColumnSizes(rows, queryData[..], c, col);
        SizesCleared(rows, q, d.modes);
        var index := Search(d.modes[k].size);
        ScanOffered(col, sizes, d.modes, k, index);
        LowScanOffered(col, sizes, d.modes, k, index);
        if index < maxMode {
          newCol := col[index := k];
          WithColumnUpdate(rows, c, col, index, k);
          SetEntry(index, currentNumberOfConsoles, k);
        }
      }
    }

    /** One more console: its modes are looked up, and the rows it does not serve are dropped. */
    method SyncOutputMode(d: TextOut)
      requires Conforming(d.modes) && Shape() && modeMap != null
      requires 0 < currentNumberOfConsoles < textOutListCount
      requires Mapped(LiveRows(), queryData[..], Consoles(), textOutListCount)
      requires LowMapped(LiveRows(), queryData[..], Consoles())
      modifies modeMap, queryData, this`maxMode, this`mode
      ensures Shape()
      ensures Mapped(LiveRows(), queryData[..], Consoles() + [d.modes], textOutListCount)
      ensures LowMapped(LiveRows(), queryData[..], Consoles() + [d.modes])
      ensures Sizes(LiveRows(), queryData[..]) == Sync(old(Sizes(LiveRows(), queryData[..])), d.modes)
      ensures mode == Followed(old(Sizes(LiveRows(), queryData[..])), d.modes, old(mode))
    {
      hide Rows, Offset, Scanned, LowScanned, Mapped, LowMapped, Sync, Intersect, Renumber, Cleared, Sizes, WithColumn, Followed;
      ghost var rows, q, ds := LiveRows(), queryData[..], Consoles();
      MappedFacts(rows, q, ds, textOutListCount);
      ghost var col := FillColumn(d);
      ghost var filled := modeMap[..];
      ColumnInBounds(maxMode, queryData.Length, textOutListCount, currentNumberOfConsoles);
      FilledColumn(filled, textOutListCount, maxMode, rows, currentNumberOfConsoles, col);
      maxMode, mode := GetIntersection(modeMap, modeMap, currentNumberOfConsoles,
        textOutListCount, textOutListCount, maxMode, mode);
      LowOfColumn(rows, q, ds, textOutListCount, d.modes, col);
      LowOfIntersect(WithColumn(rows, currentNumberOfConsoles, col), Cleared(q, d.modes), ds + [d.modes], col);
      AfterSync(rows, q, ds, textOutListCount, d.modes, col);
      FollowedIsRenumber(Sizes(rows, q), d.modes, col, old(mode));
      IntersectLength(WithColumn(rows, currentNumberOfConsoles, col), col);
    }

    lemma IntersectLength(rows: seq<seq<int>>, flags: seq<int>)
      requires |rows| == |flags| >= 1
      ensures |Intersect(rows, flags)| >= 1
    {
    }

    lemma ColumnInBounds(n: nat, rows: nat, step: nat, c: nat)
      requires 0 < n <= rows && c < step
      ensures c + Offset(n - 1, step) < Offset(n, step) <= Offset(rows, step)
    {
      RowInBounds(n - 1, n, step);
      if n < rows {
        RowInBounds(n, rows, step);
      }
    }

    lemma FilledColumn(a: seq<int>, step: nat, n: nat, rows: seq<seq<int>>, c: nat, col: seq<int>)
      requires 0 < n == |rows| == |col| && c < step && Offset(n, step) <= |a|
      requires forall r :: 0 <= r < n ==> |rows[r]| == step
      requires Rows(a, step, n) == WithColumn(rows, c, col)
      requires c + Offset(n - 1, step) < |a|
      ensures Column(a, c, step, n) == col
    {
      hide Rows, Offset, Column;
      forall r | 0 <= r < n
        ensures Column(a, c, step, n)[r] == col[r]
      {
        RowAt(a, step, n, r);
        ColumnAt(a, c, step, n, r);
        assert Rows(a, step, n)[r][c] == col[r];
      }
    }

    ghost predicate Supports(n: nat)
      requires Valid()
      reads this, queryData, modeMap
    {
      n < |Reported()| && Reported()[n] != NO_SIZE
    }

    /** Reports one shared mode; both dimensions zero stand for a mode that is not supported. */
    method QueryMode(modeNumber: nat) returns (status: Status, size: Size)
      requires Valid()
      ensures maxMode == |Reported()|
      ensures modeNumber < |Reported()| ==> size == Reported()[modeNumber]
      ensures status == if Supports(modeNumber) then Success else Unsupported
    {
      hide Rows, Offset;
      status, size := Unsupported, NO_SIZE;
      if modeNumber > 0x7FFF_FFFF {
        return;
      }
      if modeNumber >= maxMode {
        return;
      }
      if modeMap != null {
        var currentMode := ReadFirstEntry(modeNumber);
        size := queryData[currentMode];
      } else {
        size := queryData[modeNumber];
      }
      if size.columns <= 0 && size.rows <= 0 {
        return;
      }
      status := Success;
    }

    // The entry of the first console in a live row.
    method ReadFirstEntry(n: nat) returns (entry: nat)
      requires Valid() && modeMap != null && n < maxMode
      ensures entry < queryData.Length && queryData[entry] == Reported()[n]
    {
      if currentNumberOfConsoles == 0 {
        entry := modeMap[Offset(n, textOutListCount)];
        return;
      }
      MappedFacts(LiveRows(), queryData[..], Consoles(), textOutListCount);
      hide Rows, Offset, Mapped;
      RowInBounds(n, maxMode, textOutListCount);
      RowAt(modeMap[..], textOutListCount, maxMode, n);
      assert modeMap[Offset(n, textOutListCount)] == LiveRows()[n][0];
      entry := modeMap[Offset(n, textOutListCount)];
    }

    /** Sets the mode on every console, by the entry of the map: see Attempt. It succeeds when every console
        has a mode for it. For the current mode the screens are cleared and nothing is set. */
    method SetMode(modeNumber: nat) returns (status: Status)
      requires Valid()
      modifies this`mode, (set d | d in textOutList)`mode
      ensures Valid() && Reported() == old(Reported())
      ensures Attempt(textOutList, Reported(), old(ModesOf(textOutList)), ModesOf(textOutList), modeNumber, old(mode))
      ensures mode == if modeNumber < |Reported()| then modeNumber else old(mode)
      ensures modeNumber >= 2 || !addingConOutDevice || old(OwnModes(textOutList, ModesOf(textOutList))) ==>
        status == if Succeeds(textOutList, Reported(), modeNumber, old(mode)) then Success else Unsupported
      ensures old(OwnModes(textOutList, ModesOf(textOutList))) ==> OwnModes(textOutList, ModesOf(textOutList))
    {
      hide Valid, Reported, LiveEntries, CanShow, EntryFits, Attempt, Succeeds, Applied, OwnModes, Showing, AllSettable, RowMeans;
      AttemptOfNothing(textOutList, Reported(), ModesOf(textOutList), modeNumber, mode);
      ReportedLength();
      if modeNumber > 0x7FFF_FFFF {
        return Unsupported;
      }
      if modeNumber >= maxMode {
        return Unsupported;
      }
      if mode == modeNumber {
        return Success; // the screens are cleared
      }
      ghost var entries, z := LiveEntries(modeNumber), Reported()[modeNumber];
      LiveEntriesMean(modeNumber);
      RowsOfLarge(textOutList, Reported(), entries, modeNumber);
      status := SetAll(modeNumber, entries, z);
      ModesShow(textOutList, z);
      AppliedAttempt(textOutList, Reported(), entries, old(ModesOf(textOutList)), ModesOf(textOutList), modeNumber, mode);
      NoteMode(modeNumber);
    }

    method NoteMode(n: nat)
      requires Valid()
      modifies this`mode
      ensures Valid() && mode == n && Reported() == old(Reported())
    {
      hide Rows, Offset, Mapped, LowMapped, Sizes;
      mode := n;
    }

    // The consoles' entries in a live row.
    ghost function LiveEntries(n: nat): (entries: seq<int>)
      requires Valid() && n < maxMode
      ensures |entries| == |textOutList|
      reads this, queryData, modeMap
    {
      if textOutList == [] then [] else Entries(LiveRows(), n, |textOutList|)
    }

    // Sets every console to its entry, as far as it can.
    method SetAll(n: nat, ghost entries: seq<int>, ghost z: Size) returns (status: Status)
      requires Valid() && n < maxMode && entries == LiveEntries(n)
      modifies (set d | d in textOutList)`mode
      ensures Valid() && Reported() == old(Reported())
      ensures Applied(textOutList, entries, old(ModesOf(textOutList)), ModesOf(textOutList), |textOutList|)
      ensures status == Success || status == Unsupported
      ensures AllSettable(textOutList, entries, |textOutList|) ==> status == Success
      ensures Showing(textOutList, entries, |textOutList|, z) ==>
        Showing(textOutList, ModesOf(textOutList), |textOutList|, z)
      ensures !addingConOutDevice || OwnModes(textOutList, old(ModesOf(textOutList))) ==>
        (status == Success <==> AllSettable(textOutList, entries, |textOutList|))
      ensures OwnModes(textOutList, old(ModesOf(textOutList))) ==> OwnModes(textOutList, ModesOf(textOutList))
    {
      hide Valid, Reported, LiveEntries, EntryFits, Applied, OwnModes, Showing, AllSettable, OneSet, ModesOf;
      ghost var start := ModesOf(textOutList);
      status := Success;
      NothingSet(textOutList, entries, start, z);
      ConsolesCounted();
      for index := 0 to currentNumberOfConsoles
        invariant Valid() && (status == Success || status == Unsupported)
        invariant SetSoFar(textOutList, entries, start, ModesOf(textOutList), index, z, status == Success, addingConOutDevice)
      {
        hide SetSoFar;
        ghost var before, all := ModesOf(textOutList), status == Success;
        var entry := ReadEntry(n, index);
        var ok := SetOne(textOutList[index], index, entry);
        OneMoreSet(textOutList, entries, start, before, ModesOf(textOutList), index, z, all, addingConOutDevice, ok);
        if !ok {
          status := Unsupported;
        }
      }
    }

    lemma ConsolesCounted()
      requires Valid()
      ensures currentNumberOfConsoles == |textOutList|
    {
    }

    // While a console is being added, a console that is in the mode already is left alone.
    method SetOne(d: TextOut, ghost index: nat, entry: int) returns (ok: bool)
      requires index < |textOutList| && textOutList[index] == d
      modifies d`mode
      ensures OneSet(textOutList, old(ModesOf(textOutList)), ModesOf(textOutList), index, entry)
      ensures Settable(d.modes, entry) ==> ok
      ensures !addingConOutDevice || OwnModes(textOutList, old(ModesOf(textOutList))) ==>
        (ok <==> Settable(d.modes, entry))
    {
      if addingConOutDevice && entry == d.mode {
        return true;
      }
      var status := d.SetMode(entry);
      return status == Success;
    }

    lemma ReportedLength()
      requires Valid()
      ensures |Reported()| == maxMode <= 0x7FFF_FFFF
    {
    }

    // The entry of one console in a live row.
    method ReadEntry(n: nat, c: nat) returns (entry: int)
      requires Valid() && n < maxMode && c < currentNumberOfConsoles
      ensures entry == LiveEntries(n)[c]
    {
      MappedEntry(LiveRows(), queryData[..], Consoles(), textOutListCount, n, c);
      hide Rows, Offset, Mapped, LowMapped;
      RowInBounds(n, maxMode, textOutListCount);
      RowAt(modeMap[..], textOutListCount, maxMode, n);
      entry := modeMap[Offset(n, textOutListCount) + c];
      assert LiveRows()[n][c] == entry;
      hide EntryAt;
      assert LiveEntries(n)[c] == EntryAt(LiveRows(), n, c);
    }

    lemma MappedEntry(t: seq<seq<int>>, q: seq<Size>, ds: seq<ModeTable>, step: nat, n: nat, c: nat)
      requires Mapped(t, q, ds, step) && n < |t| && c < |ds|
      ensures FirstColumn(t, q) && |t[n]| == step > c && EntryAt(t, n, c) == t[n][c]
      ensures n >= 2 ==> EntryFits(ds[c], t[n][c], Sizes(t, q)[n])
      ensures n < 2 ==> EntryAt(t, n, 0) == n
    {
    }

    lemma LowMappedEntry(t: seq<seq<int>>, q: seq<Size>, ds: seq<ModeTable>, n: nat, c: nat)
      requires LowMapped(t, q, ds) && n < |t| && n < 2 && c < |ds|
      ensures LowEntry(ds, c, n, EntryAt(t, n, c))
    {
      hide LowEntry, LowSize;
    }

    // What the entries of a live row are.
    lemma LiveEntriesMean(n: nat)
      requires Valid() && n < maxMode
      ensures n < |Reported()| && RowMeans(textOutList, Reported(), LiveEntries(n), n)
    {
      ReportedLength();
      assert textOutList[..currentNumberOfConsoles] == textOutList;
      forall c | 0 <= c < |textOutList|
        ensures n >= 2 ==> EntryFits(textOutList[c].modes, LiveEntries(n)[c], Reported()[n])
        ensures n < 2 ==> LowEntry(Tables(textOutList), c, n, LiveEntries(n)[c])
        ensures n < 2 ==> LiveEntries(n)[0] == n
      {
        EntryMeans(n, c);
      }
      hide Mapped, LowMapped, Rows, Offset, Sizes, LowEntry, EntryFits;
    }

    lemma EntryMeans(n: nat, c: nat)
      requires Valid() && n < maxMode && c < |textOutList| && |Reported()| == maxMode
      ensures n >= 2 ==> EntryFits(textOutList[c].modes, LiveEntries(n)[c], Reported()[n])
      ensures n < 2 ==> LowEntry(Tables(textOutList), c, n, LiveEntries(n)[c])
      ensures n < 2 ==> LiveEntries(n)[0] == n
    {
      hide Mapped, LowMapped, Rows, Offset, LowEntry, EntryFits, LowSize, CanShow;
      assert textOutList[..currentNumberOfConsoles] == textOutList;
      MappedEntry(LiveRows(), queryData[..], Consoles(), textOutListCount, n, c);
      assert LiveEntries(n)[c] == EntryAt(LiveRows(), n, c);
      assert LiveEntries(n)[0] == EntryAt(LiveRows(), n, 0);
      if n < 2 {
        LowMappedEntry(LiveRows(), queryData[..], Consoles(), n, c);
      }
    }

    // ----- the preferred mode

    /** Finds the mode that a new console makes the splitter switch to, and the one to fall back on. */
    method PreferredMode(column: nat, row: nat) returns (preferMode: nat, baseMode: nat)
      requires Valid()
      ensures Preferred(Reported(), column, row, preferMode)
      ensures Fallback(Reported(), baseMode)
    {
      hide Rows, Offset, Mapped, LowMapped, Sizes, Best;
      NothingBest(Reported(), column, row);
      preferMode, baseMode := 0xFF, 0xFF;
      var most := Size(0, 0);
      ghost var sizes := Reported();
      ReportedLength();
      for n := 0 to maxMode
        invariant Best(sizes, n, column, row, preferMode, most)
        invariant if exists k :: 0 <= k < n && sizes[k] == Size(90, 80)
          then baseMode < n && sizes[baseMode] == Size(90, 80) else baseMode == 0xFF
      {
        BestNext(sizes, n, column, row, preferMode, most);
        var status, size := QueryMode(n);
        if status == Success {
          if column != 0 && row != 0 {
            if size == Size(column, row) {
              preferMode := n;
            }
          } else if size.columns >= most.columns && size.rows >= most.rows {
            most := size;
            preferMode := n;
          }
          if size == Size(90, 80) {
            baseMode := n;
          }
        }
      }
      BestIsPreferred(sizes, column, row, preferMode, most);
    }

    /** Sets the preferred mode, and, when some console has no mode for that, the one to fall back on; middle
        is what the consoles are in between. A preferred mode from 2 on that is the current one already is not
        set on the consoles: they all show it just when they all did before. */
    method SetConsoleOutMode(column: nat, row: nat)
      returns (ghost preferMode: nat, ghost baseMode: nat, ghost ok: bool, ghost middle: seq<int>)
      requires Valid()
      modifies this`mode, (set d | d in textOutList)`mode
      ensures Valid() && Reported() == old(Reported())
      ensures Preferred(Reported(), column, row, preferMode) && Fallback(Reported(), baseMode)
      ensures |middle| == |textOutList|
      ensures Attempt(textOutList, Reported(), old(ModesOf(textOutList)), middle, preferMode, old(mode))
      ensures preferMode >= 2 || !addingConOutDevice || old(OwnModes(textOutList, ModesOf(textOutList))) ==>
        (ok <==> Succeeds(textOutList, Reported(), preferMode, old(mode)))
      ensures var first := if preferMode < |Reported()| then preferMode else old(mode);
        if ok then mode == first && ModesOf(textOutList) == middle
        else
          && mode == (if baseMode < |Reported()| then baseMode else first)
          && Attempt(textOutList, Reported(), middle, ModesOf(textOutList), baseMode, first)
      ensures 2 <= preferMode < |Reported()| ==>
        var z := Reported()[preferMode];
        (AllShow(textOutList, z) <==> old(mode) != preferMode || old(AllShow(textOutList, z)))
    {
      hide Valid, Reported, Preferred, Fallback, Attempt, Succeeds, OwnModes, AllShow;
      ghost var sizes, before, current := Reported(), ModesOf(textOutList), mode;
      var prefer, base := PreferredMode(column, row);
      preferMode, baseMode := prefer, base;
      var status := SetMode(prefer);
      ok, middle := status == Success, ModesOf(textOutList);
      AttemptShows(textOutList, sizes, before, middle, prefer, current);
      ghost var z := if prefer < |sizes| then sizes[prefer] else NO_SIZE;
      ModesShow(textOutList, z);
      AttemptOfNothing(textOutList, sizes, before, prefer, current);
      if status != Success {
        status := SetMode(base);
      }
    }

    // ----- adding and removing consoles

    // A mapped table stays mapped when its rows are moved to a wider table.
    lemma MappedWider(t: seq<seq<int>>, wide: seq<seq<int>>, q: seq<Size>, ds: seq<ModeTable>, step: nat, newStep: nat)
      requires Mapped(t, q, ds, step) && step <= newStep && |wide| == |t|
      requires forall r :: 0 <= r < |t| ==> |ds| <= |t[r]| && wide[r] == WiderRow(t[r], |ds|, newStep)
      ensures Mapped(wide, q, ds, newStep) && Sizes(wide, q) == Sizes(t, q)
    {
    }

    lemma LowWider(t: seq<seq<int>>, wide: seq<seq<int>>, q: seq<Size>, ds: seq<ModeTable>, newStep: nat)
      requires LowMapped(t, q, ds) && |ds| <= newStep && |wide| == |t|
      requires forall r :: 0 <= r < |t| ==> |ds| <= |t[r]| && wide[r] == WiderRow(t[r], |ds|, newStep)
      ensures LowMapped(wide, q, ds)
    {
      forall n | 0 <= n < |wide| && n < 2
        ensures LowRow(wide[n], q, ds, n)
      {
        LowRowWider(t[n], q, ds, n, newStep);
      }
    }

    lemma LowRowWider(row: seq<int>, q: seq<Size>, ds: seq<ModeTable>, n: nat, newStep: nat)
      requires |ds| > 0 && n < 2 && LowRow(row, q, ds, n) && |ds| <= newStep
      ensures LowRow(WiderRow(row, |ds|, newStep), q, ds, n)
    {
      hide LowEntry, LowSize;
    }

    // Room for one more console, in the list and in the map.
    method EnsureCapacity()
      requires Valid()
      modifies this`textOutListCount, this`modeMap
      ensures Valid() && currentNumberOfConsoles < textOutListCount
      ensures modeMap == old(modeMap) || fresh(modeMap)
      ensures Reported() == old(Reported())
    {
      while currentNumberOfConsoles >= textOutListCount
        invariant Valid() && Reported() == old(Reported())
        invariant modeMap == old(modeMap) || fresh(modeMap)
        decreases currentNumberOfConsoles - textOutListCount
      {
        GrowOnce();
      }
    }

    method GrowOnce()
      requires Valid() && currentNumberOfConsoles == textOutListCount
      modifies this`textOutListCount, this`modeMap
      ensures Valid() && Reported() == old(Reported()) && fresh(modeMap)
      ensures textOutListCount == old(textOutListCount) + ALLOC_UNIT
    {
      hide Rows, Offset, Sizes;
      ghost var rows, all, step := LiveRows(), Rows(modeMap[..], textOutListCount, queryData.Length), textOutListCount;
      RowsTake(modeMap[..], textOutListCount, queryData.Length, maxMode);
      textOutListCount := textOutListCount + ALLOC_UNIT;
      GrowMapTable();
      RowsTake(modeMap[..], textOutListCount, queryData.Length, maxMode);
      MappedWider(rows, LiveRows(), queryData[..], Consoles(), step, textOutListCount);
      LowWider(rows, LiveRows(), queryData[..], Consoles(), textOutListCount);
    }

    lemma SharedOne(ds: seq<ModeTable>, d: ModeTable)
      ensures Shared(ds + [d]) == if |ds| == 0 then FirstSizes(d) else Sync(Shared(ds), d)
    {
      assert (ds + [d])[..|ds|] == ds;
    }

    /** A new console: its modes are merged in, the current mode follows its row, and the preferred mode
        is set as SetConsoleOutMode does. The new console is left in the mode it came with when the preferred
        mode is current already. */
    method AddDevice(d: TextOut, column: nat, row: nat)
      returns (ghost preferMode: nat, ghost current: int, ghost baseMode: nat, ghost ok: bool, ghost middle: seq<int>)
      requires Valid() && Conforming(d.modes)
      modifies this, modeMap, queryData, (set x | x in textOutList + [d])`mode
      ensures Valid() && textOutList == old(textOutList) + [d]
      ensures modeMap != null && (modeMap == old(modeMap) || fresh(modeMap))
      ensures queryData == old(queryData) || fresh(queryData)
      ensures old(Reported() == Shared(Consoles())) ==> Reported() == Shared(Consoles())
      ensures Reported() == MergedSizes(old(textOutList), old(Reported()), d.modes)
      ensures current == MergedMode(old(textOutList), old(Reported()), d.modes, old(mode))
      ensures Preferred(Reported(), column, row, preferMode) && Fallback(Reported(), baseMode)
      ensures |middle| == |textOutList|
      ensures
        var before := old(ModesOf(textOutList)) + [old(d.mode)];
        && Attempt(textOutList, Reported(), before, middle, preferMode, current)
        && (preferMode >= 2 || OwnModes(textOutList, before) ==>
              (ok <==> Succeeds(textOutList, Reported(), preferMode, current)))
      ensures var first := if preferMode < |Reported()| then preferMode else current;
        if ok then mode == first && ModesOf(textOutList) == middle
        else
          && mode == (if baseMode < |Reported()| then baseMode else first)
          && Attempt(textOutList, Reported(), middle, ModesOf(textOutList), baseMode, first)
      ensures 2 <= preferMode < |Reported()| ==>
        var z := Reported()[preferMode];
        && ok && mode == preferMode
        && (AllShow(textOutList, z) <==>
            (current != preferMode || (old(AllShow(textOutList, z)) && EntryFits(d.modes, old(d.mode), z))))
    {
      hide Rows, Offset, Sizes, Mapped, LowMapped, Shared, Preferred, Fallback, MergedSizes, MergedMode, EntryFits;
      hide Conforming, Attempt, Succeeds, OwnModes, AllShow, Valid, Reported;
      ghost var list, before := textOutList, ModesOf(textOutList) + [d.mode];
      StartAdding();
      Attach(d);
      current := mode;
      assert ModesOf(textOutList) == before;
      AllShowMore(list, d);
      preferMode, baseMode, ok, middle := SetConsoleOutMode(column, row);
      AttemptOfNothing(textOutList, Reported(), before, preferMode, current);
      StopAdding();
    }

    method StartAdding()
      requires Valid()
      modifies this`addingConOutDevice
      ensures Valid() && Reported() == old(Reported()) && Consoles() == old(Consoles()) && addingConOutDevice
    {
      hide Rows, Offset, Mapped, LowMapped, Sizes;
      addingConOutDevice := true;
    }

    method StopAdding()
      requires Valid()
      modifies this`addingConOutDevice
      ensures Valid() && Reported() == old(Reported()) && Consoles() == old(Consoles()) && !addingConOutDevice
    {
      hide Rows, Offset, Mapped, LowMapped, Sizes;
      addingConOutDevice := false;
    }

    // What one more console makes of the reported modes and of the current one.
    ghost function MergedSizes(list: seq<TextOut>, sizes: seq<Size>, d: ModeTable): seq<Size> {
      if list == [] then FirstSizes(d) else Sync(sizes, d)
    }

    ghost function MergedMode(list: seq<TextOut>, sizes: seq<Size>, d: ModeTable, mode: int): int {
      if list == [] then mode else Followed(sizes, d, mode)
    }

    method Attach(d: TextOut)
      requires Valid() && Conforming(d.modes)
      modifies this, modeMap, queryData
      ensures Valid() && textOutList == old(textOutList) + [d]
      ensures modeMap != null && (modeMap == old(modeMap) || fresh(modeMap))
      ensures queryData == old(queryData) || fresh(queryData)
      ensures old(Reported() == Shared(Consoles())) ==> Reported() == Shared(Consoles())
      ensures Reported() == MergedSizes(old(textOutList), old(Reported()), d.modes)
      ensures mode == MergedMode(old(textOutList), old(Reported()), d.modes, old(mode))
    {
      hide Rows, Offset, Sizes, Mapped, LowMapped, Sync, FirstSizes, Shared, Followed;
      ghost var list, ds, sizes := textOutList, Consoles(), Reported();
      EnsureCapacity();
      textOutList := textOutList[..currentNumberOfConsoles] + [d];
      assert textOutList[..currentNumberOfConsoles] == list;
      if currentNumberOfConsoles == 0 {
        AddOutputMode(d);
        assert ds + [d.modes] == [d.modes];
      } else {
        SyncOutputMode(d);
      }
      currentNumberOfConsoles := currentNumberOfConsoles + 1;
      assert textOutList[..currentNumberOfConsoles] == textOutList;
      assert Consoles() == ds + [d.modes];
      SharedOne(ds, d.modes);
    }

    /** Takes a console out. The map and the query data are built anew from the consoles that stay. */
    method DeleteDevice(d: TextOut) returns (status: Status)
      requires Valid()
      modifies this, modeMap, queryData
      ensures Valid()
      ensures modeMap == old(modeMap) || fresh(modeMap)
      ensures queryData == old(queryData) || fresh(queryData)
      ensures textOutList == RemoveFirst(old(textOutList), d)
      ensures status == if d in old(textOutList) then Success else NotFound
      ensures status == NotFound ==> Reported() == old(Reported()) && Consoles() == old(Consoles())
      ensures status == Success ==> Reported() == Shared(Consoles())
    {
      hide Rows, Offset, Sizes, Mapped, LowMapped, Shared;
      var index := 0;
      while index < currentNumberOfConsoles && textOutList[index] != d
        invariant 0 <= index <= currentNumberOfConsoles && d !in textOutList[..index]
      {
        index := index + 1;
      }
      RemoveFirstAt(textOutList, d, index);
      if index == currentNumberOfConsoles {
        return NotFound;
      }
      var remaining := textOutList[..index] + textOutList[index + 1..];
      if currentNumberOfConsoles - 1 == 0 {
        Reset();
      } else {
        Rebuild(remaining);
      }
      return Success;
    }

    // The last console is gone. The old map is left in place.
    method Reset()
      requires Valid() && currentNumberOfConsoles == 1
      modifies this`textOutList, this`currentNumberOfConsoles, this`maxMode, this`mode, queryData
      ensures Valid() && textOutList == [] && Reported() == Shared(Consoles())
    {
      MappedEntry(LiveRows(), queryData[..], Consoles(), textOutListCount, 0, 0);
      hide Rows, Offset, Sizes, Mapped;
      NoRowsBefore(textOutListCount);
      RowInBounds(0, maxMode, textOutListCount);
      RowAt(modeMap[..], textOutListCount, maxMode, 0);
      OffsetNext(0, textOutListCount);
      assert modeMap[0] == LiveRows()[0][0];
      textOutList := [];
      currentNumberOfConsoles := 0;
      maxMode := 1;
      queryData[0] := Size(80, 25);
      mode := 0;
    }

    // The map is that of the first consoles in the list, as many as were counted.
    ghost predicate Current()
      reads this, queryData, modeMap
    {
      && Shape() && modeMap != null
      && Mapped(LiveRows(), queryData[..], Consoles(), textOutListCount)
      && LowMapped(LiveRows(), queryData[..], Consoles())
      && Sizes(LiveRows(), queryData[..]) == Shared(Consoles())
    }

    method Rebuild(remaining: seq<TextOut>)
      requires Valid() && 1 <= |remaining| <= textOutListCount
      requires forall d :: d in remaining ==> Conforming(d.modes)
      modifies this, modeMap, queryData
      ensures Valid() && fresh(modeMap) && (queryData == old(queryData) || fresh(queryData))
      ensures textOutList == remaining && Reported() == Shared(Consoles())
    {
      hide Rows, Offset, Sizes, Mapped, LowMapped, Shared, Sync, FirstSizes;
      textOutList := remaining;
      forall i | 0 <= i < queryData.Length {
        queryData[i] := NO_SIZE;
      }
      modeMap := null;
      AddOutputMode(textOutList[0]);
      currentNumberOfConsoles := 1;
      SharedOne([], textOutList[0].modes);
      assert Consoles() == [] + [textOutList[0].modes] == [textOutList[0].modes];
      while currentNumberOfConsoles < |textOutList|
        invariant 1 <= currentNumberOfConsoles <= |textOutList| && textOutList == remaining
        invariant textOutListCount == old(textOutListCount)
        invariant modeMap != null && fresh(modeMap)
        invariant queryData == old(queryData) || fresh(queryData)
        invariant Current()
      {
        SyncNext();
      }
      assert textOutList[..currentNumberOfConsoles] == textOutList;
    }

    method SyncNext()
      requires Current() && 0 < currentNumberOfConsoles < |textOutList|
      requires currentNumberOfConsoles < textOutListCount
      modifies modeMap, queryData, this`maxMode, this`mode, this`currentNumberOfConsoles
      ensures Current() && currentNumberOfConsoles == old(currentNumberOfConsoles) + 1
    {
      hide Rows, Offset, Sizes, Mapped, LowMapped, Shared, Sync;
      ghost var ds, next := Consoles(), textOutList[currentNumberOfConsoles].modes;
      SyncOutputMode(textOutList[currentNumberOfConsoles]);
      currentNumberOfConsoles := currentNumberOfConsoles + 1;
      assert Consoles() == ds + [next];
      SharedOne(ds, next);
    }

    // ----- any run of changes

    /** Whatever the history, the modes reported are those shared by the consoles there now. */
    method DoAll(changes: seq<Change>, ghost universe: set<TextOut>)
      requires Valid() && Reported() == Shared(Consoles())
      requires forall d :: d in textOutList ==> d in universe
      requires forall c :: c in changes ==> c.console in universe && (c.Add? ==> Conforming(c.console.modes))
      modifies this, modeMap, queryData, universe`mode
      ensures Valid() && textOutList == After(old(textOutList), changes)
      ensures Reported() == Shared(Tables(After(old(textOutList), changes)))
    {
      hide Rows, Offset, Sizes, Mapped, LowMapped, Shared, Changed;
      for i := 0 to |changes|
        invariant Valid() && Reported() == Shared(Consoles())
        invariant textOutList == After(old(textOutList), changes[..i])
        invariant forall d :: d in textOutList ==> d in universe
        invariant modeMap == old(modeMap) || fresh(modeMap)
        invariant queryData == old(queryData) || fresh(queryData)
      {
        AfterNext(old(textOutList), changes, i);
        assert changes[i] in changes;
        Do(changes[i]);
      }
      assert changes[..|changes|] == changes;
      assert textOutList[..currentNumberOfConsoles] == textOutList;
    }

    method Do(change: Change)
      requires Valid() && Reported() == Shared(Consoles())
      requires change.Add? ==> Conforming(change.console.modes)
      modifies this, modeMap, queryData, (set d | d in textOutList + [change.console])`mode
      ensures Valid() && Reported() == Shared(Consoles())
      ensures textOutList == Changed(old(textOutList), change)
      ensures forall d :: d in textOutList ==> d in old(textOutList) + [change.console]
      ensures modeMap == old(modeMap) || fresh(modeMap)
      ensures queryData == old(queryData) || fresh(queryData)
    {
      RemoveFirstShrinks(textOutList, change.console);
      match change
      case Add(d, column, row) => var _, _, _, _, _ := AddDevice(d, column, row);
      case Delete(d) => var _ := DeleteDevice(d);
    }
  }

  // ----- a console that is left behind

  const THREE_MODES: ModeTable := [Offered(Size(80, 25)), Offered(Size(80, 50)), Offered(Size(100, 60))]
  const THREE_SIZES: seq<Size> := [Size(80, 25), Size(80, 50), Size(100, 60)]

  lemma SameModesShared()
    ensures FirstSizes(THREE_MODES) == THREE_SIZES && Conforming(THREE_MODES)
    ensures Sync(THREE_SIZES, THREE_MODES) == THREE_SIZES && Followed(THREE_SIZES, THREE_MODES, 2) == 2
  {
    assert THREE_SIZES[1..] == [Size(80, 50), Size(100, 60)];
    assert THREE_SIZES[1..][1..] == [Size(100, 60)];
    assert FirstMatch(THREE_SIZES[1..][1..], Size(100, 60)) == 0;
    assert FirstMatch(THREE_SIZES[1..], Size(100, 60)) == 1;
    assert Serves(THREE_SIZES, THREE_MODES, 2, 2);
    assert KeepServed(THREE_SIZES, THREE_MODES, 2) == [];
    assert KeepServed(THREE_SIZES, THREE_MODES, 3) == [Size(100, 60)];
    assert THREE_SIZES[..2] + [Size(100, 60)] == THREE_SIZES;
  }

  lemma LargestIsPreferred(p: nat)
    requires Preferred(THREE_SIZES, 0, 0, p)
    ensures p == 2
  {
    assert THREE_SIZES[2] != NO_SIZE && Exceeds(THREE_SIZES[2], THREE_SIZES[0]) && Exceeds(THREE_SIZES[2], THREE_SIZES[1]);
  }

  lemma ShowsLargest(list: seq<TextOut>, d: TextOut)
    requires AllShow(list, THREE_SIZES[2]) && d in list && d.modes == THREE_MODES
    ensures d.mode == 2
  {
  }

  lemma ModeAt(list: seq<TextOut>, c: nat)
    requires c < |list|
    ensures ModesOf(list)[c] == list[c].mode
  {
  }

  /** Two consoles of the same kind, one after the other: the first is switched to the largest mode, the
      second stays in its mode 0, although the splitter is in that largest mode. */
  method SecondConsoleLeftBehind() returns (splitter: TextOutSplitter, first: TextOut, second: TextOut)
    ensures first.modes == second.modes == THREE_MODES
    ensures splitter.Valid() && splitter.textOutList == [first, second]
    ensures splitter.Reported() == THREE_SIZES && splitter.mode == 2
    ensures first.mode == 2 && second.mode == 0
  {
    SameModesShared();
    hide FirstSizes, Sync, Followed, Preferred, Fallback, Conforming, AllShow, EntryFits, Attempt, Succeeds, OwnModes;
    hide TextOutSplitter.Valid, TextOutSplitter.Reported, TextOutSplitter.Consoles, Shared, ModesOf;
    splitter := new TextOutSplitter();
    first := new TextOut(THREE_MODES);
    second := new TextOut(THREE_MODES);
    ghost var p, current, base, ok, middle := splitter.AddDevice(first, 0, 0);
    LargestIsPreferred(p);
    ShowsLargest(splitter.textOutList, first);
    assert splitter.textOutList == [first];
    ModeAt(splitter.textOutList, 0);
    ghost var before := ModesOf(splitter.textOutList) + [second.mode];
    p, current, base, ok, middle := splitter.AddDevice(second, 0, 0);
    LargestIsPreferred(p);
    AttemptShows(splitter.textOutList, THREE_SIZES, before, middle, p, current);
    ModeAt(splitter.textOutList, 0);
    ModeAt(splitter.textOutList, 1);
  }
}
