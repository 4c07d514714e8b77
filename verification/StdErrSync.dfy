/**
Consoles that belong to both the output and the error splitter: the two splitters then drop every
mode that the other one does not have.
*/
module StdErrSync {
  import opened FlatTable
  import opened SharedModes
  import opened ModeMap
  import opened TextOutSplitter

  // Which rows of a are marked: those with a row of equal size in b.
  ghost predicate MarksOut(flags: seq<int>, a: seq<Size>, b: seq<Size>, k: nat) {
    && |flags| == |a|
    && forall i :: 0 <= i < |a| ==> (flags[i] != -1 <==> i < k && a[i] in b)
  }

  // Which rows of b are marked: those that are the first match of one of a's first k rows.
  ghost predicate MarksErr(flags: seq<int>, a: seq<Size>, b: seq<Size>, k: nat) {
    && |flags| == |b|
    && forall j :: 0 <= j < |b| ==> (flags[j] != -1 <==> exists i :: 0 <= i < k && i < |a| && FirstMatch(b, a[i]) == j)
  }

  lemma MarkOne(outFlags: seq<int>, errFlags: seq<int>, a: seq<Size>, b: seq<Size>, k: nat)
    requires MarksOut(outFlags, a, b, k) && MarksErr(errFlags, a, b, k) && k < |a|
    ensures
      var j := FirstMatch(b, a[k]);
      if j < |b| then MarksOut(outFlags[k := 1], a, b, k + 1) && MarksErr(errFlags[j := 1], a, b, k + 1)
      else MarksOut(outFlags, a, b, k + 1) && MarksErr(errFlags, a, b, k + 1)
  {
    var j := FirstMatch(b, a[k]);
    var newErr := if j < |b| then errFlags[j := 1] else errFlags;
    forall r | 0 <= r < |b|
      ensures newErr[r] != -1 <==> exists i :: 0 <= i < k + 1 && i < |a| && FirstMatch(b, a[i]) == r
    {
      if errFlags[r] != -1 {
        var i :| 0 <= i < k && i < |a| && FirstMatch(b, a[i]) == r;
        assert i < k + 1;
      }
      if r == j {
        assert FirstMatch(b, a[k]) == r && 0 <= k < k + 1;
      }
    }
  }

  // After both compactions, every mode from 2 on of either list has its like in the other.
  lemma MutualModes(a: seq<Size>, b: seq<Size>, outFlags: seq<int>, errFlags: seq<int>)
    requires MarksOut(outFlags, a, b, |a|) && MarksErr(errFlags, a, b, |a|)
    ensures forall i :: 2 <= i < |Intersect(a, outFlags)| ==> Intersect(a, outFlags)[i] in Intersect(b, errFlags)
    ensures forall j :: 2 <= j < |Intersect(b, errFlags)| ==> Intersect(b, errFlags)[j] in Intersect(a, outFlags)
  {
    hide Intersect;
    var a', b' := Intersect(a, outFlags), Intersect(b, errFlags);
    var ia := IntersectIndexed(a, outFlags);
    var ib := IntersectIndexed(b, errFlags);
    forall i | 2 <= i < |a'|
      ensures a'[i] in b'
    {
      var j := FirstMatch(b, a[ia[i]]);
      assert j < |b| && errFlags[j] != -1 && b[j] == a'[i];
      SurvivorIsThere(b, errFlags, j);
    }
    forall j | 2 <= j < |b'|
      ensures b'[j] in a'
    {
      var i :| 0 <= i < |a| && FirstMatch(b, a[i]) == ib[j];
      assert a[i] == b'[j] && a[i] in b;
      SurvivorIsThere(a, outFlags, i);
    }
  }

  // A size that both lists have is in both afterwards.
  lemma CommonSurvive(a: seq<Size>, b: seq<Size>, outFlags: seq<int>, errFlags: seq<int>)
    requires MarksOut(outFlags, a, b, |a|) && MarksErr(errFlags, a, b, |a|)
    ensures forall z :: z in a && z in b ==> z in Intersect(a, outFlags) && z in Intersect(b, errFlags)
  {
    hide Intersect;
    forall z | z in a && z in b
      ensures z in Intersect(a, outFlags) && z in Intersect(b, errFlags)
    {
      var i :| 0 <= i < |a| && a[i] == z;
      SurvivorIsThere(a, outFlags, i);
      var j := FirstMatch(b, a[i]);
      assert j < |b| && errFlags[j] != -1;
      SurvivorIsThere(b, errFlags, j);
    }
  }

  lemma SurvivorIsThere<T>(rows: seq<T>, flags: seq<int>, n: nat)
    requires |rows| == |flags| && n < |rows| && (n < 2 || flags[n] != -1)
    ensures rows[n] in Intersect(rows, flags)
  {
    CurrentModeFollowsItsRow(rows, flags, n);
  }

  lemma WholeColumn(a: seq<int>, n: nat)
    requires n <= |a|
    ensures n > 0 ==> Offset(n - 1, 1) < |a|
    ensures Column(a, 0, 1, n) == a[..n]
  {
    if n > 0 {
      WholeColumn(a, n - 1);
    }
  }

  // The current mode keeps its row; without one, mode 0 becomes the current mode.
  function FollowedOrFirst(flags: seq<int>, mode: int): int {
    if Renumber(flags, mode) < 0 then 0 else Renumber(flags, mode)
  }

  /** Drops the unmarked modes of one splitter; when that drops the current mode, mode 0 is set. */
  method Compact(s: TextOutSplitter, marks: array<int>)
    requires s.Valid() && s.modeMap != null && s.currentNumberOfConsoles > 0
    requires marks != s.modeMap && marks.Length == s.maxMode
    modifies s.modeMap, s`maxMode, s`mode, (set d | d in s.textOutList)`mode
    ensures s.Valid() && |old(s.Reported())| == marks.Length
    ensures s.Reported() == Intersect(old(s.Reported()), marks[..])
    ensures s.mode == FollowedOrFirst(marks[..], old(s.mode))
    // A current mode whose row stays keeps its size; for one whose row goes, mode 0 is set on the consoles.
    ensures 0 <= old(s.mode) < marks.Length && (old(s.mode) < 2 || marks[old(s.mode)] != -1) ==>
      0 <= s.mode < |s.Reported()| && s.Reported()[s.mode] == old(s.Reported())[old(s.mode)]
      && ModesOf(s.textOutList) == old(ModesOf(s.textOutList))
    ensures 2 <= old(s.mode) < marks.Length && marks[old(s.mode)] == -1 ==>
      s.mode == 0
      && Attempt(s.textOutList, s.Reported(), old(ModesOf(s.textOutList)), ModesOf(s.textOutList), 0, -1)
  {
    hide Rows, Offset, Mapped, LowMapped, Intersect, Renumber, Sizes, Column, Attempt;
    CurrentModeFollowsItsRow(s.Reported(), marks[..], s.mode);
    ghost var rows, q, ds := s.LiveRows(), s.queryData[..], s.Consoles();
    WholeColumn(marks[..], s.maxMode);
    assert marks[..][..s.maxMode] == marks[..];
    MappedIntersect(rows, q, ds, s.textOutListCount, marks[..]);
    LowOfIntersect(rows, q, ds, marks[..]);
    TableNotEmpty(rows, marks[..]);
    s.maxMode, s.mode := GetIntersection(s.modeMap, marks, 0, s.textOutListCount, 1, s.maxMode, s.mode);
    if s.mode < 0 {
      var _ := s.SetMode(0);
    }
  }

  lemma TableNotEmpty(rows: seq<seq<int>>, flags: seq<int>)
    requires |rows| == |flags| >= 1
    ensures |Intersect(rows, flags)| >= 1
  {
  }

  // Marks, in two fresh tables, the modes that each splitter shares with the other.
  method MarkShared(conOut: TextOutSplitter, stdErr: TextOutSplitter)
    returns (conOutTable: array<int>, stdErrTable: array<int>)
    requires conOut.Valid() && conOut.currentNumberOfConsoles > 0 && conOut.modeMap != null
    requires stdErr.Valid() && stdErr.currentNumberOfConsoles > 0 && stdErr.modeMap != null
    ensures fresh(conOutTable) && fresh(stdErrTable) && conOutTable != stdErrTable
    ensures conOutTable.Length == conOut.maxMode && stdErrTable.Length == stdErr.maxMode
    ensures MarksOut(conOutTable[..], conOut.Reported(), stdErr.Reported(), |conOut.Reported()|)
    ensures MarksErr(stdErrTable[..], conOut.Reported(), stdErr.Reported(), |conOut.Reported()|)
  {
    conOut.ReportedLength();
    stdErr.ReportedLength();
    hide TextOutSplitter.Valid, TextOutSplitter.Reported, FirstMatch, MarksOut, MarksErr;
    conOutTable := new int[conOut.maxMode](_ => -1);
    stdErrTable := new int[stdErr.maxMode](_ => -1);
    ghost var a, b := conOut.Reported(), stdErr.Reported();
    NothingMarked(conOutTable[..], stdErrTable[..], a, b);
    for mode := 0 to conOut.maxMode
      invariant MarksOut(conOutTable[..], a, b, mode) && MarksErr(stdErrTable[..], a, b, mode)
    {
      MarkMode(conOut, stdErr, conOutTable, stdErrTable, mode, a, b);
    }
  }

  lemma NothingMarked(outFlags: seq<int>, errFlags: seq<int>, a: seq<Size>, b: seq<Size>)
    requires |outFlags| == |a| && |errFlags| == |b|
    requires (forall i :: 0 <= i < |a| ==> outFlags[i] == -1) && forall j :: 0 <= j < |b| ==> errFlags[j] == -1
    ensures MarksOut(outFlags, a, b, 0) && MarksErr(errFlags, a, b, 0)
  {
  }

  // Marks one mode of the output splitter and the first mode of the error splitter that equals it.
  method MarkMode(conOut: TextOutSplitter, stdErr: TextOutSplitter,
                  conOutTable: array<int>, stdErrTable: array<int>, mode: nat, ghost a: seq<Size>, ghost b: seq<Size>)
    requires conOut.Valid() && conOut.modeMap != null
    requires stdErr.Valid() && stdErr.currentNumberOfConsoles > 0 && stdErr.modeMap != null
    requires conOutTable != stdErrTable && mode < conOut.maxMode
    requires conOutTable.Length == conOut.maxMode && stdErrTable.Length == stdErr.maxMode
    requires a == conOut.Reported() && b == stdErr.Reported() && |a| == conOut.maxMode && |b| == stdErr.maxMode
    requires MarksOut(conOutTable[..], a, b, mode) && MarksErr(stdErrTable[..], a, b, mode)
    modifies conOutTable, stdErrTable
    ensures MarksOut(conOutTable[..], a, b, mode + 1) && MarksErr(stdErrTable[..], a, b, mode + 1)
  {
    stdErr.MappedFacts(stdErr.LiveRows(), stdErr.queryData[..], stdErr.Consoles(), stdErr.textOutListCount);
    hide Rows, Offset, Mapped, LowMapped, Sizes, FirstMatch, MarksOut, MarksErr;
    MarkOne(conOutTable[..], stdErrTable[..], a, b, mode);
    var entry := conOut.ReadFirstEntry(mode);
    var index := stdErr.Search(conOut.queryData[entry]);
    if index < stdErr.maxMode {
      conOutTable[mode] := 1;
      stdErrTable[index] := 1;
    }
  }

  /** The sync of the two splitters, once a console that belongs to both was found. */
  method SyncSharedModes(conOut: TextOutSplitter, stdErr: TextOutSplitter)
    requires conOut != stdErr && conOut.modeMap != stdErr.modeMap && conOut.queryData != stdErr.queryData
    requires conOut.Valid() && conOut.currentNumberOfConsoles > 0 && conOut.modeMap != null
    requires stdErr.Valid() && stdErr.currentNumberOfConsoles > 0 && stdErr.modeMap != null
    modifies conOut.modeMap, conOut`maxMode, conOut`mode, (set d | d in conOut.textOutList)`mode
    modifies stdErr.modeMap, stdErr`maxMode, stdErr`mode, (set d | d in stdErr.textOutList)`mode
    ensures conOut.Valid() && stdErr.Valid()
    // Every mode from 2 on of either splitter is a mode of the other, and no size that both had is lost.
    ensures forall z :: z in old(conOut.Reported()) && z in old(stdErr.Reported()) ==>
      z in conOut.Reported() && z in stdErr.Reported()
    ensures forall i :: 2 <= i < |conOut.Reported()| ==> conOut.Reported()[i] in stdErr.Reported()
    ensures forall j :: 2 <= j < |stdErr.Reported()| ==> stdErr.Reported()[j] in conOut.Reported()
    // Modes 0 and 1 stay, what survives is in the old order, and the current modes follow their rows.
    ensures exists flags ::
      MarksOut(flags, old(conOut.Reported()), old(stdErr.Reported()), |flags|)
      && conOut.Reported() == Intersect(old(conOut.Reported()), flags)
      && conOut.mode == FollowedOrFirst(flags, old(conOut.mode))
    ensures exists flags ::
      MarksErr(flags, old(conOut.Reported()), old(stdErr.Reported()), |old(conOut.Reported())|)
      && stdErr.Reported() == Intersect(old(stdErr.Reported()), flags)
      && stdErr.mode == FollowedOrFirst(flags, old(stdErr.mode))
  {
    hide Rows, Offset, Mapped, LowMapped, Intersect, Renumber, Sizes;
    ghost var a, b := conOut.Reported(), stdErr.Reported();
    var conOutTable, stdErrTable := MarkShared(conOut, stdErr);
    MutualModes(a, b, conOutTable[..], stdErrTable[..]);
    CommonSurvive(a, b, conOutTable[..], stdErrTable[..]);
    ghost var outFlags, errFlags := conOutTable[..], stdErrTable[..];
    Compact(conOut, conOutTable);
    Compact(stdErr, stdErrTable);
    assert MarksOut(outFlags, a, b, |outFlags|) && MarksErr(errFlags, a, b, |a|);
  }
}
