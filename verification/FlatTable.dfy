/**
A two-dimensional table kept in a flat array, row after row, and its compaction in place.
*/
module FlatTable {

  // Where row r begins, rows being step entries long.
  function Offset(r: nat, step: nat): nat {
    r * step
  }

  // The first n rows of the table.
  ghost function Rows(a: seq<int>, step: nat, n: nat): (t: seq<seq<int>>)
    requires Offset(n, step) <= |a|
    ensures |t| == n && forall r :: 0 <= r < n ==> |t[r]| == step
    decreases n
  {
    if n == 0 then [] else
      OffsetNext(n - 1, step);
      Rows(a, step, n - 1) + [a[Offset(n - 1, step)..Offset(n, step)]]
  }

  // One entry of each of n rows: rows are step apart and the first entry is at off.
  ghost function Column(a: seq<int>, off: nat, step: nat, n: nat): (c: seq<int>)
    requires n > 0 ==> off + Offset(n - 1, step) < |a|
    ensures |c| == n
    decreases n
  {
    if n == 0 then [] else
      (if n > 1 then OffsetNext(n - 2, step); Column(a, off, step, n - 1) else [])
      + [a[off + Offset(n - 1, step)]]
  }

  lemma OffsetNext(r: nat, step: nat)
    ensures Offset(r + 1, step) == Offset(r, step) + step
  {
  }

  lemma RowInBounds(r: nat, n: nat, step: nat)
    requires r < n
    ensures Offset(r, step) + step <= Offset(n, step)
  {
    assert (n - r - 1) * step >= 0;
    assert n * step == r * step + step + (n - r - 1) * step;
  }

  lemma RowAt(a: seq<int>, step: nat, n: nat, r: nat)
    requires Offset(n, step) <= |a| && r < n
    ensures Offset(r, step) + step <= |a|
    ensures Rows(a, step, n)[r] == a[Offset(r, step)..Offset(r, step) + step]
    decreases n
  {
    OffsetNext(n - 1, step);
    if r < n - 1 {
      RowAt(a, step, n - 1, r);
    }
  }

  lemma ColumnAt(a: seq<int>, off: nat, step: nat, n: nat, r: nat)
    requires r < n && off + Offset(n - 1, step) < |a|
    ensures off + Offset(r, step) < |a|
    ensures Column(a, off, step, n)[r] == a[off + Offset(r, step)]
    decreases n
  {
    if r < n - 1 {
      OffsetNext(n - 2, step);
      ColumnAt(a, off, step, n - 1, r);
    }
  }

  lemma CellsApart(r: nat, u: nat, step: nat, c: nat, d: nat)
    requires c < step && d < step && (r != u || c != d)
    ensures Offset(r, step) + c != Offset(u, step) + d
  {
    if r < u {
      RowInBounds(r, u, step);
    } else if u < r {
      RowInBounds(u, r, step);
    }
  }

  lemma RowsSetCell(a: seq<int>, step: nat, n: nat, r: nat, c: nat, v: int)
    requires Offset(n, step) <= |a| && r < n && c < step
    ensures Offset(r, step) + c < |a| && |Rows(a, step, n)[r]| == step
    ensures Rows(a, step, n)[r][c] == a[Offset(r, step) + c]
    ensures Rows(a[Offset(r, step) + c := v], step, n) ==
      Rows(a, step, n)[r := Rows(a, step, n)[r][c := v]]
  {
    hide Offset;
    RowInBounds(r, n, step);
    RowAt(a, step, n, r);
    var b := a[Offset(r, step) + c := v];
    forall u | 0 <= u < n
      ensures |Rows(a, step, n)[u]| == step
      ensures Rows(b, step, n)[u] == if u == r then Rows(a, step, n)[r][c := v] else Rows(a, step, n)[u]
    {
      RowAt(a, step, n, u);
      RowAt(b, step, n, u);
      forall d | 0 <= d < step
        ensures Rows(b, step, n)[u][d] == if u == r && d == c then v else Rows(a, step, n)[u][d]
      {
        RowInBounds(u, n, step);
        if u != r || d != c {
          CellsApart(u, r, step, d, c);
        }
      }
    }
  }

  lemma SliceOfPrefix(a: seq<int>, b: seq<int>, m: nat, lo: nat, hi: nat)
    requires m <= |a| && m <= |b| && a[..m] == b[..m] && lo <= hi <= m
    ensures a[lo..hi] == b[lo..hi]
  {
    forall p | lo <= p < hi
      ensures a[p] == b[p]
    {
      assert a[..m][p] == b[..m][p];
    }
  }

  lemma RowsOfPrefix(a: seq<int>, b: seq<int>, step: nat, n: nat)
    requires Offset(n, step) <= |a| && Offset(n, step) <= |b|
    requires a[..Offset(n, step)] == b[..Offset(n, step)]
    ensures Rows(a, step, n) == Rows(b, step, n)
  {
    hide Offset, Rows;
    var m := Offset(n, step);
    forall r | 0 <= r < n
      ensures Rows(a, step, n)[r] == Rows(b, step, n)[r]
    {
      RowInBounds(r, n, step);
      RowAt(a, step, n, r);
      RowAt(b, step, n, r);
      SliceOfPrefix(a, b, m, Offset(r, step), Offset(r, step) + step);
    }
  }

  lemma SlicesAgree(a: seq<int>, b: seq<int>, lo: nat, hi: nat)
    requires lo <= hi <= |a| == |b| && forall p :: lo <= p < hi ==> a[p] == b[p]
    ensures a[lo..hi] == b[lo..hi]
  {
  }

  // A change inside row r changes that row and no other.
  lemma RowsChangeRow(a: seq<int>, b: seq<int>, step: nat, n: nat, r: nat)
    requires Offset(n, step) <= |a| == |b| && r < n
    requires forall p :: 0 <= p < |a| && !(Offset(r, step) <= p < Offset(r, step) + step) ==> a[p] == b[p]
    ensures Offset(r, step) + step <= |b|
    ensures Rows(b, step, n) == Rows(a, step, n)[r := b[Offset(r, step)..Offset(r, step) + step]]
  {
    hide Offset;
    RowInBounds(r, n, step);
    forall u | 0 <= u < n
      ensures u == r ==> Rows(b, step, n)[u] == b[Offset(r, step)..Offset(r, step) + step]
      ensures u != r ==> Rows(b, step, n)[u] == Rows(a, step, n)[u]
    {
      RowInBounds(u, n, step);
      RowAt(a, step, n, u);
      RowAt(b, step, n, u);
      if u < r {
        RowInBounds(u, r, step);
      } else if r < u {
        RowInBounds(r, u, step);
      }
    }
  }

  lemma RowsTake(a: seq<int>, step: nat, n: nat, k: nat)
    requires k <= n && Offset(n, step) <= |a|
    ensures Offset(k, step) <= Offset(n, step) && Rows(a, step, k) == Rows(a, step, n)[..k]
  {
    if k < n {
      OffsetNext(n - 1, step);
      RowsTake(a, step, n - 1, k);
    }
  }

  // ----- the intersection, on values

  // Those of elements lo..hi whose flag is not -1, in order.
  function Keep<T>(rows: seq<T>, flags: seq<int>, lo: nat, hi: nat): (kept: seq<T>)
    requires hi <= |rows| && hi <= |flags|
    ensures |kept| <= if hi <= lo then 0 else hi - lo
  {
    if hi <= lo then []
    else Keep(rows, flags, lo, hi - 1) + if flags[hi - 1] != -1 then [rows[hi - 1]] else []
  }

  // Rows 0 and 1 always stay.
  function Intersect<T>(rows: seq<T>, flags: seq<int>): (kept: seq<T>)
    requires |rows| == |flags|
    ensures |kept| <= |rows|
  {
    if |rows| <= 2 then rows else rows[..2] + Keep(rows, flags, 2, |rows|)
  }

  // What becomes of row number mode: -1 when the row is dropped.
  function Renumber(flags: seq<int>, mode: int): int {
    if mode < 2 then mode
    else if mode < |flags| then
      if flags[mode] == -1 then -1 else 2 + |Keep(flags, flags, 2, mode)|
    else mode - |flags| + |Intersect(flags, flags)|
  }

  lemma {:induction false} KeepLength<T, U>(rows: seq<T>, other: seq<U>, flags: seq<int>, hi: nat)
    requires hi <= |rows| && hi <= |other| && hi <= |flags|
    ensures |Keep(rows, flags, 2, hi)| == |Keep(other, flags, 2, hi)|
  {
    if hi > 2 {
      KeepLength(rows, other, flags, hi - 1);
    }
  }

  lemma {:induction false} KeptAt<T>(rows: seq<T>, flags: seq<int>, k: nat, hi: nat)
    requires 2 <= k < hi <= |rows| && hi <= |flags| && flags[k] != -1
    ensures |Keep(rows, flags, 2, k)| < |Keep(rows, flags, 2, hi)|
    ensures Keep(rows, flags, 2, hi)[|Keep(rows, flags, 2, k)|] == rows[k]
  {
    if k + 1 < hi {
      KeptAt(rows, flags, k, hi - 1);
    }
  }

  // The current mode keeps its row: a mode whose row stays is renumbered to that row, a dropped one
  // becomes -1, and a number that named no row still names none.
  lemma CurrentModeFollowsItsRow<T>(rows: seq<T>, flags: seq<int>, mode: int)
    requires |rows| == |flags|
    ensures 0 <= mode < |rows| && (mode < 2 || flags[mode] != -1) ==>
      0 <= Renumber(flags, mode) < |Intersect(rows, flags)|
      && Intersect(rows, flags)[Renumber(flags, mode)] == rows[mode]
    ensures 2 <= mode < |rows| && flags[mode] == -1 ==> Renumber(flags, mode) == -1
    ensures mode >= |rows| ==> Renumber(flags, mode) >= |Intersect(rows, flags)|
    ensures mode < 0 ==> Renumber(flags, mode) == mode
  {
    KeepLength(rows, flags, flags, |rows|);
    if 2 <= mode < |rows| && flags[mode] != -1 {
      KeepLength(rows, flags, flags, mode);
      KeptAt(rows, flags, mode, |rows|);
    }
  }

  // ----- the intersection, in place

  method CopyRow(table: array<int>, dst: nat, src: nat, n: nat)
    requires dst + n <= src && src + n <= table.Length
    modifies table
    ensures table[dst..dst + n] == old(table[src..src + n])
    ensures forall p :: 0 <= p < table.Length && !(dst <= p < dst + n) ==> table[p] == old(table[p])
  {
    for i := 0 to n
      invariant forall p :: 0 <= p < table.Length ==>
        table[p] == if dst <= p < dst + i then old(table[p - dst + src]) else old(table[p])
    {
      table[dst + i] := table[src + i];
    }
  }

  // One round of the compaction, the row staying: row index goes to place kept, unless it is there.
  method MoveRow(table: array<int>, next: nat, current: nat, step: nat, ghost kept: nat, ghost index: nat)
    requires kept <= index && next == Offset(kept, step) && current == Offset(index, step)
    requires current + step <= table.Length
    modifies table
    ensures Offset(kept + 1, step) == next + step <= current + step
    ensures next <= current
    ensures Rows(table[..], step, kept + 1) ==
      old(Rows(table[..], step, kept) + [table[current..current + step]])
    ensures forall p :: current <= p < table.Length ==> table[p] == old(table[p])
  {
    ghost var before := table[..];
    if kept < index {
      RowInBounds(kept, index, step);
    }
    if current != next {
      CopyRow(table, next, current, step);
    }
    OffsetNext(kept, step);
    assert before[..next] == table[..][..next];
    RowsOfPrefix(before, table[..], step, kept);
  }

  // Renumber when only the rows below index were looked at.
  ghost function RenumberBelow(flags: seq<int>, mode: int, index: nat): int
    requires 2 <= index <= |flags|
  {
    if mode < 2 then mode
    else if mode < index then if flags[mode] == -1 then -1 else 2 + |Keep(flags, flags, 2, mode)|
    else mode - index + 2 + |Keep(flags, flags, 2, index)|
  }

  // What dropping or keeping row index does to the current mode's number.
  method NextMode(index: nat, mode: int, current: int, stays: bool, ghost flags: seq<int>)
    returns (next: int)
    requires 2 <= index < |flags| && stays == (flags[index] != -1)
    requires current == RenumberBelow(flags, mode, index)
    ensures next == RenumberBelow(flags, mode, index + 1)
  {
    next := current;
    if !stays {
      if index == mode {
        next := -1;
      } else if index < mode {
        next := next - 1;
      }
    }
  }

  lemma FirstAndLastRound<T>(flags: seq<int>, rows: seq<T>, mode: int)
    requires 2 < |flags| == |rows|
    ensures Keep(rows, flags, 2, 2) == [] && RenumberBelow(flags, mode, 2) == mode
    ensures rows[..2] + Keep(rows, flags, 2, |rows|) == Intersect(rows, flags)
    ensures RenumberBelow(flags, mode, |flags|) == Renumber(flags, mode)
  {
  }

  lemma FewRows<T>(flags: seq<int>, rows: seq<T>, mode: int)
    requires |flags| == |rows| <= 2
    ensures Intersect(rows, flags) == rows && Renumber(flags, mode) == mode
  {
  }

  // One round of the compaction: the row at current, number index, stays or goes.
  method CompactRow(table: array<int>, stays: bool, next: nat, current: nat, step: nat,
                    ghost rows: seq<seq<int>>, ghost flags: seq<int>, ghost kept: nat, ghost index: nat)
    returns (newNext: nat, ghost newKept: nat)
    requires 2 <= kept <= index < |flags| == |rows| && stays == (flags[index] != -1)
    requires next == Offset(kept, step) && current == Offset(index, step) && next <= current
    requires current + step <= table.Length && table[current..current + step] == rows[index]
    requires Rows(table[..], step, kept) == rows[..2] + Keep(rows, flags, 2, index)
    modifies table
    ensures newKept == (if stays then kept + 1 else kept)
    ensures newNext == Offset(newKept, step) <= current + step && newKept <= index + 1
    ensures Rows(table[..], step, newKept) == rows[..2] + Keep(rows, flags, 2, index + 1)
    ensures forall p :: current <= p < table.Length ==> table[p] == old(table[p])
  {
    newNext, newKept := next, kept;
    if stays {
      MoveRow(table, next, current, step, kept, index);
      newNext, newKept := next + step, kept + 1;
    }
  }

  lemma TwoRows(step: nat)
    ensures Offset(2, step) == step * 2
  {
  }

  /** Drops the rows from 2 on whose entry in the new map is -1. The new map may be a column of the
      very table that is being compacted. */
  method GetIntersection(modeMap: array<int>, newMap: array<int>, newOff: nat, step: nat, newStep: nat,
                         maxMode: nat, mode: int) returns (newMaxMode: nat, newMode: int)
    requires Offset(maxMode, step) <= modeMap.Length
    requires maxMode > 0 ==> newOff + Offset(maxMode - 1, newStep) < newMap.Length
    requires newMap == modeMap ==> newStep == step && newOff < step
    modifies modeMap
    ensures newMaxMode <= maxMode && Offset(newMaxMode, step) <= modeMap.Length
    ensures Rows(modeMap[..], step, newMaxMode) ==
      old(Intersect(Rows(modeMap[..], step, maxMode), Column(newMap[..], newOff, newStep, maxMode)))
    ensures newMode == old(Renumber(Column(newMap[..], newOff, newStep, maxMode), mode))
    ensures forall p :: Offset(maxMode, step) <= p < modeMap.Length ==> modeMap[p] == old(modeMap[p])
  {
    hide Offset, Rows, Column, Keep, Intersect, Renumber, RenumberBelow;
    ghost var table, entries := modeMap[..], newMap[..];
    ghost var rows := Rows(table, step, maxMode);
    ghost var flags := Column(entries, newOff, newStep, maxMode);
    newMaxMode, newMode := maxMode, mode;
    if maxMode <= 2 {
      FewRows(flags, rows, mode);
      return;
    }
    TwoRows(step);
    TwoRows(newStep);
    var index, current, next, entry := 2, step * 2, step * 2, newOff + newStep * 2;
    ghost var kept := 2;
    RowsTake(table, step, maxMode, 2);
    FirstAndLastRound(flags, rows, mode);
    while index < maxMode
      invariant 2 <= kept <= index <= maxMode
      invariant newMaxMode == maxMode - index + kept
      invariant current == Offset(index, step) <= Offset(maxMode, step)
      invariant next == Offset(kept, step) <= current
      invariant entry == newOff + Offset(index, newStep)
      invariant Rows(modeMap[..], step, kept) == rows[..2] + Keep(rows, flags, 2, index)
      invariant forall p :: current <= p < modeMap.Length ==> modeMap[p] == table[p]
      invariant newMode == RenumberBelow(flags, mode, index)
    {
      RowInBounds(index, maxMode, step);
      OffsetNext(index, step);
      OffsetNext(index, newStep);
      RowAt(table, step, maxMode, index);
      ColumnAt(entries, newOff, newStep, maxMode, index);
      var stays := newMap[entry] != -1;
      newMode := NextMode(index, mode, newMode, stays, flags);
      SlicesAgree(modeMap[..], table, current, current + step);
      next, kept := CompactRow(modeMap, stays, next, current, step, rows, flags, kept, index);
      newMaxMode := if stays then newMaxMode else newMaxMode - 1;
      current := current + step;
      entry := entry + newStep;
      index := index + 1;
    }
  }
}
