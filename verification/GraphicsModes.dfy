/**
The graphics side of the console splitter: one virtual graphics output in front of several physical
ones, with a list of the resolutions that they share.
*/
module GraphicsModes {
  import opened Lists

  datatype Resolution = Resolution(horizontal: nat, vertical: nat)

  datatype Option<T> = None | Some(value: T)

  const DEFAULT_RESOLUTION := Resolution(800, 600)

  // A physical graphics output: its fixed list of modes and the mode it is in.
  class GraphicsOutput {
    const modes: seq<Resolution>
    var mode: nat

    ghost predicate Valid()
      reads this
    {
      mode < |modes|
    }

    function Current(): Resolution
      requires Valid()
      reads this
    {
      modes[mode]
    }

    constructor (modes: seq<Resolution>, mode: nat)
      requires mode < |modes|
      ensures Valid() && this.modes == modes && this.mode == mode
    {
      this.modes := modes;
      this.mode := mode;
    }

    method SetMode(n: nat) returns (ok: bool)
      modifies this`mode
      ensures ok == (n < |modes|)
      ensures mode == if ok then n else old(mode)
    {
      if n < |modes| {
        mode := n;
        return true;
      }
      return false;
    }

    // The first mode with the resolution; the number of modes if there is none.
    method Find(r: Resolution) returns (n: nat)
      ensures n <= |modes| && (n < |modes| <==> r in modes)
      ensures n < |modes| ==> modes[n] == r && r !in modes[..n]
    {
      n := 0;
      while n < |modes| && modes[n] != r
        invariant 0 <= n <= |modes| && r !in modes[..n]
      {
        n := n + 1;
      }
    }
  }

  // ----- what two lists have in common

  // Of the first k resolutions, those that are offered, each once and in the old order.
  function Common(buffer: seq<Resolution>, offered: seq<Resolution>, k: nat): (c: seq<Resolution>)
    requires k <= |buffer|
    ensures |c| <= k
  {
    if k == 0 then []
    else
      var before, r := Common(buffer, offered, k - 1), buffer[k - 1];
      if r in offered && r !in before then before + [r] else before
  }

  lemma {:induction false} CommonIsIntersection(buffer: seq<Resolution>, offered: seq<Resolution>, k: nat, r: Resolution)
    requires k <= |buffer|
    ensures r in Common(buffer, offered, k) <==> r in buffer[..k] && r in offered
  {
    if k > 0 {
      CommonIsIntersection(buffer, offered, k - 1, r);
      assert buffer[..k] == buffer[..k - 1] + [buffer[k - 1]];
      CommonIsIntersection(buffer, offered, k - 1, buffer[k - 1]);
    }
  }

  lemma CommonMembers(buffer: seq<Resolution>, offered: seq<Resolution>)
    ensures forall r :: r in Common(buffer, offered, |buffer|) <==> r in buffer && r in offered
  {
    hide Common;
    forall r: Resolution
      ensures r in Common(buffer, offered, |buffer|) <==> r in buffer && r in offered
    {
      CommonIsIntersection(buffer, offered, |buffer|, r);
      assert buffer[..|buffer|] == buffer;
    }
  }

  function FirstAt(buffer: seq<Resolution>, r: Resolution): (n: nat)
    ensures n <= |buffer| && (n < |buffer| <==> r in buffer)
    ensures n < |buffer| ==> buffer[n] == r
    ensures r !in buffer[..n]
  {
    if buffer == [] then 0 else if buffer[0] == r then 0 else 1 + FirstAt(buffer[1..], r)
  }

  lemma FirstAtIs(buffer: seq<Resolution>, n: nat)
    requires n < |buffer| && buffer[n] !in buffer[..n]
    ensures FirstAt(buffer, buffer[n]) == n
  {
    var m := FirstAt(buffer, buffer[n]);
    forall i | 0 <= i < m
      ensures buffer[i] != buffer[n]
    {
      assert buffer[..m][i] in buffer[..m];
    }
    forall i | 0 <= i < n
      ensures buffer[i] != buffer[n]
    {
      assert buffer[..n][i] in buffer[..n];
    }
  }

  /** The common list has no resolution twice, and its order is that in which its resolutions first
      come in the old list. */
  lemma {:induction false} CommonInOrder(buffer: seq<Resolution>, offered: seq<Resolution>, k: nat, i: nat, j: nat)
    requires k <= |buffer| && i < j < |Common(buffer, offered, k)|
    ensures FirstAt(buffer, Common(buffer, offered, k)[i]) < FirstAt(buffer, Common(buffer, offered, k)[j]) < k
    ensures Common(buffer, offered, k)[i] != Common(buffer, offered, k)[j]
  {
    hide FirstAt;
    var before, r := Common(buffer, offered, k - 1), buffer[k - 1];
    if j < |before| {
      CommonInOrder(buffer, offered, k - 1, i, j);
    } else {
      CommonIsIntersection(buffer, offered, k - 1, before[i]);
      CommonIsIntersection(buffer, offered, k - 1, r);
      FirstAtIs(buffer, k - 1);
      FoundBefore(buffer, before[i], k - 1);
    }
  }

  lemma FoundBefore(buffer: seq<Resolution>, r: Resolution, k: nat)
    requires k <= |buffer| && r in buffer[..k]
    ensures FirstAt(buffer, r) < k
  {
    var first := FirstAt(buffer, r);
    forall i | 0 <= i < first
      ensures buffer[i] != r
    {
      assert buffer[..first][i] in buffer[..first];
    }
  }

  // ----- the list of modes as a function of the history

  datatype Change = Add(gop: GraphicsOutput) | Delete(gop: GraphicsOutput) | Set(n: nat)

  // The outputs that are managed, and the resolutions that are listed.
  datatype Listing = Listing(gops: seq<GraphicsOutput>, modes: seq<Resolution>)

  // An output that is already managed is not started again. Nothing is listed anew when one goes.
  ghost function Changed(l: Listing, c: Change): Listing {
    match c
    case Add(g) =>
      if g in l.gops then l
      else if l.gops == [] then Listing([g], g.modes)
      else Listing(l.gops + [g], Common(l.modes, g.modes, |l.modes|))
    case Delete(g) => Listing(RemoveFirst(l.gops, g), l.modes)
    case Set(_) => l
  }

  ghost function After(l: Listing, changes: seq<Change>): Listing
    decreases |changes|
  {
    if changes == [] then l else Changed(After(l, changes[..|changes| - 1]), changes[|changes| - 1])
  }

  lemma AfterNext(l: Listing, changes: seq<Change>, i: nat)
    requires i < |changes|
    ensures After(l, changes[..i + 1]) == Changed(After(l, changes[..i]), changes[i])
  {
    assert changes[..i + 1][..i] == changes[..i];
  }

  // Every resolution that is listed is offered by every output that is managed.
  ghost predicate OfferedByAll(l: Listing) {
    forall g, r :: g in l.gops && r in l.modes ==> r in g.modes
  }

  lemma ChangedStaysOffered(l: Listing, c: Change)
    requires OfferedByAll(l)
    ensures OfferedByAll(Changed(l, c))
  {
    var l' := Changed(l, c);
    forall g, r | g in l'.gops && r in l'.modes
      ensures r in g.modes
    {
      if c.Add? && l' != l && l.gops != [] {
        CommonIsIntersection(l.modes, c.gop.modes, |l.modes|, r);
        assert l.modes[..|l.modes|] == l.modes;
      }
      if c.Delete? {
        RemovedIsWithin(l.gops, c.gop, g);
      }
    }
  }

  /** Over any run of outputs coming and going, every listed resolution is offered by all of them. */
  lemma {:induction false} AlwaysOffered(l: Listing, changes: seq<Change>)
    requires OfferedByAll(l)
    ensures OfferedByAll(After(l, changes))
    decreases |changes|
  {
    if changes != [] {
      AlwaysOffered(l, changes[..|changes| - 1]);
      ChangedStaysOffered(After(l, changes[..|changes| - 1]), changes[|changes| - 1]);
    }
  }

  // ----- asking for a mode and setting it

  // What the virtual output answers: with one physical output it passes the question on.
  ghost function Reported(l: Listing, n: nat): Option<Resolution> {
    if n >= |l.modes| then None
    else if |l.gops| == 1 then if n < |l.gops[0].modes| then Some(l.gops[0].modes[n]) else None
    else Some(l.modes[n])
  }

  // The mode that is reported under a number is the one that is set under it.
  ghost predicate ReportsWhatItSets(l: Listing) {
    forall n :: 0 <= n < |l.modes| ==> Reported(l, n) == Some(l.modes[n])
  }

  /** When an output goes, and another one stays, the numbers mean the listed modes to SetMode and the
      modes of the output that stays to QueryMode. */
  lemma NumbersComeApart(a: GraphicsOutput, b: GraphicsOutput)
    requires a != b
    requires a.modes == [Resolution(640, 480), DEFAULT_RESOLUTION] && b.modes == [DEFAULT_RESOLUTION]
    ensures
      var l := After(Listing([], [DEFAULT_RESOLUTION]), [Add(a), Add(b), Delete(b)]);
      && l == Listing([a], [DEFAULT_RESOLUTION])
      && Reported(l, 0) == Some(Resolution(640, 480)) && !ReportsWhatItSets(l)
  {
    var start, changes := Listing([], [DEFAULT_RESOLUTION]), [Add(a), Add(b), Delete(b)];
    assert changes[..0] == [] && changes[..3] == changes;
    AfterNext(start, changes, 0);
    AfterNext(start, changes, 1);
    AfterNext(start, changes, 2);
    var first := Listing([a], a.modes);
    assert After(start, changes[..1]) == first;
    assert Common(a.modes, b.modes, 1) == [];
    assert Common(a.modes, b.modes, 2) == [DEFAULT_RESOLUTION];
    assert [a, b][0] == a && [a, b][1..] == [b] && [b][1..] == [];
    assert RemoveFirst([b], b) == [];
    assert RemoveFirst([a, b], b) == [a];
    var l := After(start, changes);
    assert l == Listing([a], [DEFAULT_RESOLUTION]);
    assert Reported(l, 0) != Some(l.modes[0]);
  }

  /** The numbers agree just when there is not one output, or the list is a first part of its own. */
  lemma NumbersAgree(l: Listing)
    ensures ReportsWhatItSets(l) <==> |l.gops| != 1 || l.modes <= l.gops[0].modes
  {
    if ReportsWhatItSets(l) && |l.gops| == 1 {
      forall n | 0 <= n < |l.modes|
        ensures n < |l.gops[0].modes| && l.modes[n] == l.gops[0].modes[n]
      {
        assert Reported(l, n) == Some(l.modes[n]);
      }
      if l.modes != [] {
        assert Reported(l, |l.modes| - 1) == Some(l.modes[|l.modes| - 1]);
      }
    }
  }

  /** When one of two outputs goes, the numbers agree afterwards just when what the two have in common is
      a first part of the modes of the one that stays. */
  lemma NumbersAgreeAfterRemoval(modes: seq<Resolution>, a: GraphicsOutput, b: GraphicsOutput, goes: GraphicsOutput)
    requires a != b && goes in [a, b]
    ensures
      var stays := if goes == a then b else a;
      ReportsWhatItSets(After(Listing([], modes), [Add(a), Add(b), Delete(goes)])) <==>
      Common(a.modes, b.modes, |a.modes|) <= stays.modes
  {
    var start, changes := Listing([], modes), [Add(a), Add(b), Delete(goes)];
    assert changes[..0] == [] && changes[..3] == changes;
    AfterNext(start, changes, 0);
    AfterNext(start, changes, 1);
    AfterNext(start, changes, 2);
    assert [a, b][1..] == [b] && [b][1..] == [];
    assert After(start, changes[..2]) == Listing([a] + [b], Common(a.modes, b.modes, |a.modes|));
    assert [a] + [b] == [a, b];
    assert RemoveFirst([b], goes) == (if goes == b then [] else [b]);
    NumbersAgree(After(start, changes));
  }

  // The mode that was set last, as long as no other output has come since.
  ghost function LastSet(l: Listing, changes: seq<Change>): Option<nat>
    decreases |changes|
  {
    if changes == [] then None
    else
      var before, last := changes[..|changes| - 1], changes[|changes| - 1];
      match last
      case Set(n) => if n < |After(l, before).modes| then Some(n) else LastSet(l, before)
      case Add(g) => if g in After(l, before).gops then LastSet(l, before) else None
      case Delete(_) => LastSet(l, before)
  }

  lemma NothingSet(l: Listing)
    ensures After(l, []) == l && LastSet(l, []) == None
  {
  }

  lemma LastSetNext(l: Listing, changes: seq<Change>, i: nat)
    requires i < |changes|
    ensures
      var before := After(l, changes[..i]);
      LastSet(l, changes[..i + 1]) ==
      match changes[i]
      case Set(n) => if n < |before.modes| then Some(n) else LastSet(l, changes[..i])
      case Add(g) => if g in before.gops then LastSet(l, changes[..i]) else None
      case Delete(_) => LastSet(l, changes[..i])
  {
    assert changes[..i + 1][..i] == changes[..i];
  }

  /** As long as no output goes, the numbers agree. */
  lemma {:induction false} NumbersAgreeWithoutRemoval(l: Listing, changes: seq<Change>)
    requires |l.gops| != 1 || l.modes <= l.gops[0].modes
    requires forall c :: c in changes ==> !c.Delete?
    ensures ReportsWhatItSets(After(l, changes))
    ensures var l' := After(l, changes); |l'.gops| != 1 || l'.modes <= l'.gops[0].modes
    decreases |changes|
  {
    if changes != [] {
      NumbersAgreeWithoutRemoval(l, changes[..|changes| - 1]);
    }
    NumbersAgree(After(l, changes));
  }

  // The resolution that all outputs are put into when one in this resolution comes.
  function Preferred(current: Resolution, modes: seq<Resolution>): Resolution
    requires modes != []
  {
    if current in modes then current
    else if DEFAULT_RESOLUTION in modes then DEFAULT_RESOLUTION
    else modes[0]
  }

  // ----- the virtual output

  class GraphicsSplitter {
    var gops: seq<GraphicsOutput>
    var modeBuffer: array<Resolution>
    var maxMode: nat
    var mode: int
    var info: Resolution

    ghost function Listed(): Listing
      requires maxMode <= modeBuffer.Length
      reads this, modeBuffer
    {
      Listing(gops, modeBuffer[..maxMode])
    }

    ghost predicate Shape()
      reads this, modeBuffer, gops
    {
      && 1 <= modeBuffer.Length && maxMode <= modeBuffer.Length
      && forall g :: g in gops ==> g.Valid()
    }

    // While there is a shared mode, all outputs are in the mode that the virtual output says it is in.
    ghost predicate Agreed()
      reads this, modeBuffer, gops
    {
      maxMode > 0 ==>
        && 0 <= mode < maxMode <= modeBuffer.Length && modeBuffer[mode] == info
        && forall g :: g in gops ==> g.Valid() && g.Current() == info
    }

    ghost predicate Valid()
      reads this, modeBuffer, gops
    {
      Shape() && OfferedByAll(Listed()) && Agreed()
    }

    constructor ()
      ensures Valid() && fresh(modeBuffer) && Listed() == Listing([], [DEFAULT_RESOLUTION])
    {
      gops := [];
      modeBuffer := new Resolution[] [DEFAULT_RESOLUTION];
      maxMode := 1;
      mode := 0;
      info := DEFAULT_RESOLUTION;
    }

    method QueryMode(n: nat) returns (r: Option<Resolution>)
      requires Valid()
      ensures r == Reported(Listed(), n)
      ensures r.None? <==> n >= maxMode || (|gops| == 1 && n >= |gops[0].modes|)
      ensures r.Some? ==> r.value == if |gops| == 1 then gops[0].modes[n] else modeBuffer[n]
    {
      if n >= maxMode {
        return None;
      }
      if |gops| == 1 {
        return if n < |gops[0].modes| then Some(gops[0].modes[n]) else None;
      }
      return Some(modeBuffer[n]);
    }

    /** Setting a listed mode succeeds on every output. */
    method SetMode(n: nat) returns (ok: bool)
      requires Shape() && OfferedByAll(Listed())
      modifies this`mode, this`info, (set g | g in gops)`mode
      ensures ok == (n < maxMode)
      ensures ok ==> Valid() && mode == n && info == modeBuffer[n]
      ensures !ok ==> Shape() && info == old(info) && mode == old(mode)
      ensures !ok ==> forall g :: g in gops ==> g.mode == old(g.mode)
    {
      if n >= maxMode {
        return false;
      }
      var r := modeBuffer[n];
      assert r in Listed().modes;
      ok := true;
      var index := 0;
      while index < |gops|
        invariant 0 <= index <= |gops| && Shape() && ok
        invariant forall i :: 0 <= i < index ==> gops[i].Valid() && gops[i].Current() == r
      {
        var done := SetTo(gops[index], r);
        ok := ok && done;
        index := index + 1;
      }
      mode := n;
      if |gops| == 1 {
        info := gops[0].Current();
      } else {
        info := r;
      }
    }

    method SetTo(g: GraphicsOutput, r: Resolution) returns (ok: bool)
      requires r in g.modes
      modifies g`mode
      ensures ok && g.Valid() && g.Current() == r
    {
      var number := g.Find(r);
      ok := g.SetMode(number);
    }

    method Find(r: Resolution) returns (n: nat)
      requires maxMode <= modeBuffer.Length
      ensures n <= maxMode && (n < maxMode <==> r in modeBuffer[..maxMode])
      ensures n < maxMode ==> modeBuffer[n] == r
    {
      n := 0;
      while n < maxMode && modeBuffer[n] != r
        invariant 0 <= n <= maxMode && r !in modeBuffer[..n]
      {
        n := n + 1;
      }
    }

    method CopyModes(g: GraphicsOutput)
      requires g.Valid()
      modifies this`modeBuffer, this`maxMode, this`mode, this`info
      ensures fresh(modeBuffer) && 1 <= modeBuffer.Length && maxMode <= modeBuffer.Length
      ensures modeBuffer[..maxMode] == g.modes && info == g.Current()
    {
      maxMode := |g.modes|;
      mode := g.mode;
      info := g.Current();
      modeBuffer := new Resolution[maxMode];
      var index := 0;
      while index < |g.modes|
        invariant 0 <= index <= |g.modes| == maxMode == modeBuffer.Length && fresh(modeBuffer)
        invariant modeBuffer[..index] == g.modes[..index] && info == g.Current()
      {
        modeBuffer[index] := g.modes[index];
        index := index + 1;
      }
    }

    // Keeps the listed modes that the output offers.
    method IntersectModes(g: GraphicsOutput)
      requires maxMode <= modeBuffer.Length
      modifies this`modeBuffer, this`maxMode
      ensures fresh(modeBuffer) && 1 <= modeBuffer.Length && maxMode <= modeBuffer.Length
      ensures modeBuffer[..maxMode] == Common(old(modeBuffer[..maxMode]), g.modes, old(maxMode))
    {
      ghost var listed := modeBuffer[..maxMode];
      var buffer := new Resolution[if maxMode == 0 then 1 else maxMode];
      var matched := 0;
      var index := 0;
      while index < maxMode
        invariant 0 <= matched <= index <= maxMode <= buffer.Length
        invariant maxMode == old(maxMode) && modeBuffer == old(modeBuffer) && maxMode <= modeBuffer.Length
        invariant fresh(buffer) && modeBuffer[..maxMode] == listed
        invariant buffer[..matched] == Common(listed, g.modes, index)
      {
        var r := modeBuffer[index];
        var number := g.Find(r);
        if number < |g.modes| {
          var exists' := 0;
          while exists' < matched && buffer[exists'] != r
            invariant 0 <= exists' <= matched && r !in buffer[..exists']
          {
            exists' := exists' + 1;
          }
          if exists' == matched {
            buffer[matched] := r;
            matched := matched + 1;
          }
        }
        index := index + 1;
      }
      modeBuffer := buffer;
      maxMode := matched;
    }

    // The listed mode to use: the new output's own if it is listed, else the default, else the first.
    method Choose(g: GraphicsOutput) returns (index: nat)
      requires g.Valid() && 1 <= modeBuffer.Length && maxMode <= modeBuffer.Length
      ensures maxMode > 0 ==> index < maxMode
      ensures index < modeBuffer.Length
      ensures maxMode > 0 ==> modeBuffer[index] == Preferred(g.Current(), modeBuffer[..maxMode])
    {
      index := Find(g.Current());
      if index >= maxMode {
        index := Find(DEFAULT_RESOLUTION);
        if index >= maxMode {
          index := 0;
        }
      }
    }

    /** A new output narrows the list down to what it offers too, and all outputs are put into one
        listed mode. */
    method AddGraphicsOutputMode(g: GraphicsOutput) returns (ok: bool)
      requires Valid() && g.Valid() && g !in gops
      modifies this, modeBuffer, (set h | h in gops + [g])`mode
      ensures Valid() && (modeBuffer == old(modeBuffer) || fresh(modeBuffer))
      ensures Listed() == Changed(old(Listed()), Add(g))
      ensures maxMode > 0 ==> ok && info == Preferred(old(g.Current()), Listed().modes)
      ensures gops == old(gops) + [g]
      ensures old(gops) == [] ==> Listed().modes == g.modes
      ensures old(gops) != [] ==> forall r :: r in Listed().modes <==> r in old(Listed()).modes && r in g.modes
      // The mode that all outputs are in: the new one's if it is listed, else 800 by 600, else the first.
      ensures old(g.Current()) in Listed().modes ==> info == old(g.Current())
      ensures old(g.Current()) !in Listed().modes && Resolution(800, 600) in Listed().modes ==>
        info == Resolution(800, 600)
      ensures old(g.Current()) !in Listed().modes && Resolution(800, 600) !in Listed().modes && maxMode > 0 ==>
        info == Listed().modes[0]
    {
      CommonMembers(Listed().modes, g.modes);
      ChangedStaysOffered(Listed(), Add(g));
      if |gops| == 0 {
        CopyModes(g);
      } else {
        IntersectModes(g);
      }
      var index := Choose(g);
      gops := gops + [g];
      ok := ForceMode(g, index);
    }

    // The outputs that were there before are in the mode of the virtual output.
    method ForceMode(g: GraphicsOutput, index: nat) returns (ok: bool)
      requires Shape() && OfferedByAll(Listed()) && index < modeBuffer.Length && g in gops
      requires maxMode > 0 ==> index < maxMode
      requires maxMode > 0 ==> forall h :: h in gops && h != g ==> h.Current() == info
      modifies this`mode, this`info, modeBuffer, (set h | h in gops)`mode
      ensures Valid() && Listed() == old(Listed())
      ensures maxMode > 0 ==> ok && mode == index && info == old(modeBuffer[index])
    {
      var r := modeBuffer[index];
      if r == info {
        mode := index;
        ok := true;
        if r != g.Current() {
          assert maxMode > 0 ==> r in Listed().modes;
          var number := g.Find(r);
          ok := g.SetMode(number);
        }
      } else {
        mode := 0xffff;
        ok := SetMode(index);
        if !ok {
          modeBuffer[0] := DEFAULT_RESOLUTION;
          ok := SetMode(0);
        }
      }
    }

    /** An output goes. The list stays as it was. */
    method Delete(g: GraphicsOutput)
      requires Valid()
      modifies this`gops
      ensures Valid() && Listed() == Changed(old(Listed()), Change.Delete(g))
    {
      ChangedStaysOffered(Listed(), Change.Delete(g));
      var index := 0;
      while index < |gops| && gops[index] != g
        invariant 0 <= index <= |gops| && g !in gops[..index]
      {
        index := index + 1;
      }
      RemoveFirstAt(gops, g, index);
      if index < |gops| {
        gops := gops[..index] + gops[index + 1..];
      }
    }

    /** Over any run, what is listed is a function of the outputs that came and went, every output
        offers all of it, and all outputs are in the same listed mode: the one set last, as long as no
        other output has come since. */
    method DoAll(changes: seq<Change>, ghost universe: set<GraphicsOutput>)
      requires Valid() && forall g :: g in gops ==> g in universe
      requires forall g :: g in universe ==> g.Valid()
      requires forall c :: c in changes && !c.Set? ==> c.gop in universe
      modifies this, modeBuffer, universe`mode
      ensures Valid() && Listed() == After(old(Listed()), changes)
      ensures LastSet(old(Listed()), changes).Some? ==>
        var n := LastSet(old(Listed()), changes).value;
        mode == n < maxMode && info == modeBuffer[n] && forall g :: g in gops ==> g.Current() == modeBuffer[n]
    {
      hide OfferedByAll, Changed, After, LastSet;
      NothingSet(Listed());
      ghost var start := Listed();
      for i := 0 to |changes|
        invariant Valid() && Listed() == After(start, changes[..i])
        invariant LastSet(start, changes[..i]).Some? ==> mode == LastSet(start, changes[..i]).value < maxMode
        invariant modeBuffer == old(modeBuffer) || fresh(modeBuffer)
        invariant forall g :: g in gops ==> g in universe
        invariant forall g :: g in universe ==> g.Valid()
      {
        AfterNext(start, changes, i);
        LastSetNext(start, changes, i);
        assert changes[i] in changes;
        Do(changes[i], universe);
      }
      assert changes[..|changes|] == changes;
    }

    method Do(c: Change, ghost universe: set<GraphicsOutput>)
      requires Valid() && forall g :: g in gops ==> g in universe
      requires forall g :: g in universe ==> g.Valid()
      requires !c.Set? ==> c.gop in universe
      modifies this, modeBuffer, universe`mode
      ensures Valid() && (modeBuffer == old(modeBuffer) || fresh(modeBuffer))
      ensures Listed() == Changed(old(Listed()), c)
      ensures !c.Add? || c.gop in old(gops) ==>
        maxMode == old(maxMode) && mode == if c.Set? && c.n < maxMode then c.n else old(mode)
      ensures forall g :: g in gops ==> g in universe
      ensures forall g :: g in universe ==> g.Valid()
    {
      hide OfferedByAll, Common;
      match c
      case Add(g) =>
        if g !in gops {
          var _ := AddGraphicsOutputMode(g);
        }
      case Delete(g) =>
        forall h | h in RemoveFirst(gops, g)
          ensures h in gops
        {
          RemovedIsWithin(gops, g, h);
        }
        Delete(g);
      case Set(n) =>
        var _ := SetMode(n);
    }
  }
}
