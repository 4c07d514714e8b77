/** The table of text modes that the graphics console offers at one graphics resolution. */
module TextModes {
  import opened Screen

  datatype Size = Size(columns: nat, rows: nat)

  datatype ModeRecord = ModeRecord(size: Size, gopWidth: nat, gopHeight: nat, deltaX: nat, deltaY: nat)

  const WORD := 0x1_0000_0000_0000_0000

  // The modes fixed in the driver; the full screen mode is appended to them.
  const DEFINED_MODES: seq<Size> := [Size(100, 31), Size(128, 40), Size(160, 42), Size(240, 56)]

  function Candidates(width: nat, height: nat): seq<Size> {
    DEFINED_MODES + [Size(width / GLYPH_WIDTH, height / GLYPH_HEIGHT)]
  }

  predicate Fits(z: Size, width: nat, height: nat) {
    && 0 < z.columns <= width / GLYPH_WIDTH
    && 0 < z.rows <= height / GLYPH_HEIGHT
  }

  // (extent - cells * unit) >> 1 on 64-bit words
  function Margin(extent: nat, cells: nat, unit: nat): nat {
    (extent - cells * unit) % WORD / 2
  }

  function Record(z: Size, width: nat, height: nat): ModeRecord {
    ModeRecord(z, width, height,
      Margin(width, z.columns, GLYPH_WIDTH), Margin(height, z.rows, GLYPH_HEIGHT))
  }

  // Every cell of the text window lies on the screen, and the window is centred to the pixel.
  ghost predicate OnScreen(m: ModeRecord, width: nat, height: nat) {
    && (forall c: nat :: c < m.size.columns ==>
         m.deltaX + c * GLYPH_WIDTH + GLYPH_WIDTH <= width)
    && (forall r: nat :: r < m.size.rows ==>
         m.deltaY + r * GLYPH_HEIGHT + GLYPH_HEIGHT <= height)
    && 0 <= width - m.size.columns * GLYPH_WIDTH - 2 * m.deltaX <= 1
    && 0 <= height - m.size.rows * GLYPH_HEIGHT - 2 * m.deltaY <= 1
  }

  predicate Listed(z: Size, modes: seq<ModeRecord>) {
    exists k :: 0 <= k < |modes| && modes[k].size == z
  }

  lemma FittingModeIsOnScreen(z: Size, width: nat, height: nat)
    requires Fits(z, width, height) && width < 0x1_0000_0000 && height < 0x1_0000_0000
    ensures OnScreen(Record(z, width, height), width, height)
  {
    var dx := width - z.columns * GLYPH_WIDTH;
    assert 0 <= dx < WORD && dx % WORD == dx;
    var dy := height - z.rows * GLYPH_HEIGHT;
    assert 0 <= dy < WORD && dy % WORD == dy;
  }

  // The table after the first candidates: modes 0 and 1, then those candidates that fit, each once.
  ghost predicate TableOf(modes: seq<ModeRecord>, candidates: seq<Size>, k: nat, width: nat, height: nat)
    requires k <= |candidates|
  {
    && (forall n :: 0 <= n < |modes| ==> modes[n].gopWidth == width && modes[n].gopHeight == height)
    && 2 <= |modes| <= k + 2 && modes[0].size == Size(50, 120) && modes[1].size == Size(0, 0)
    && (forall n :: 2 <= n < |modes| ==>
          && modes[n].size in candidates && Fits(modes[n].size, width, height)
          && modes[n] == Record(modes[n].size, width, height))
    && (forall j, n :: 0 <= j < n < |modes| && n >= 2 ==> modes[j].size != modes[n].size)
    && (forall i :: 0 <= i < k && Fits(candidates[i], width, height) ==> Listed(candidates[i], modes))
  }

  lemma FirstRecords(modes: seq<ModeRecord>, candidates: seq<Size>, width: nat, height: nat)
    requires |modes| == 2 && modes[0] == Record(Size(50, 120), width, height)
    requires modes[1] == ModeRecord(Size(0, 0), width, height, 0, 0)
    ensures TableOf(modes, candidates, 0, width, height)
  {
  }

  lemma NextCandidate(modes: seq<ModeRecord>, candidates: seq<Size>, k: nat, width: nat, height: nat)
    requires k < |candidates| && TableOf(modes, candidates, k, width, height)
    ensures !Fits(candidates[k], width, height) || Listed(candidates[k], modes) ==>
              TableOf(modes, candidates, k + 1, width, height)
    ensures Fits(candidates[k], width, height) && !Listed(candidates[k], modes) ==>
              TableOf(modes + [Record(candidates[k], width, height)], candidates, k + 1, width, height)
  {
    hide Fits, Margin;
    var more := modes + [Record(candidates[k], width, height)];
    forall z | Listed(z, modes)
      ensures Listed(z, more)
    {
      var n :| 0 <= n < |modes| && modes[n].size == z;
      assert more[n].size == z;
    }
    assert more[|modes|].size == candidates[k];
  }

  // The table as the source promises it, when all candidates were looked at.
  lemma WholeTable(modes: seq<ModeRecord>, candidates: seq<Size>, width: nat, height: nat)
    requires width < 0x1_0000_0000 && height < 0x1_0000_0000
    requires TableOf(modes, candidates, |candidates|, width, height)
    ensures 2 <= |modes| <= |candidates| + 2 && modes[0].size == Size(50, 120) && modes[1].size == Size(0, 0)
    ensures forall n :: 0 <= n < |modes| ==> modes[n].gopWidth == width && modes[n].gopHeight == height
    ensures forall j, n :: 0 <= j < n < |modes| && n >= 2 ==> modes[j].size != modes[n].size
    ensures forall n :: 2 <= n < |modes| ==>
              modes[n].size in candidates && Fits(modes[n].size, width, height) && OnScreen(modes[n], width, height)
    ensures forall z :: z in candidates && Fits(z, width, height) ==> Listed(z, modes)
  {
    hide Fits, OnScreen, Record;
    forall n | 2 <= n < |modes|
      ensures OnScreen(modes[n], width, height)
    {
      FittingModeIsOnScreen(modes[n].size, width, height);
    }
  }

  lemma FixedModes(modes: seq<ModeRecord>, candidates: seq<Size>, width: nat, height: nat)
    requires TableOf(modes, candidates, |candidates|, width, height) && candidates == Candidates(width, height)
    ensures forall z :: z in [Size(100, 31), Size(128, 40), Size(160, 42), Size(240, 56)] ==>
              (Listed(z, modes) <==> z.columns * 8 <= width && z.rows * 19 <= height)
  {
    hide Record;
    forall z | z in [Size(100, 31), Size(128, 40), Size(160, 42), Size(240, 56)]
      ensures Listed(z, modes) <==> z.columns * 8 <= width && z.rows * 19 <= height
    {
      assert DEFINED_MODES[0] == Size(100, 31) && DEFINED_MODES[1] == Size(128, 40);
      assert DEFINED_MODES[2] == Size(160, 42) && DEFINED_MODES[3] == Size(240, 56);
      assert forall i :: 0 <= i < 4 ==> candidates[i] == DEFINED_MODES[i];
      var i :| 0 <= i < 4 && DEFINED_MODES[i] == z;
      assert candidates[i] == z;
      assert Fits(z, width, height) <==> z.columns * 8 <= width && z.rows * 19 <= height;
      if Listed(z, modes) {
        var n :| 0 <= n < |modes| && modes[n].size == z;
        assert n >= 2;
      }
    }
  }

  method FindSize(modes: array<ModeRecord>, validCount: nat, z: Size) returns (validIndex: nat)
    requires validCount <= modes.Length
    ensures validIndex <= validCount && (validIndex < validCount <==> Listed(z, modes[..validCount]))
  {
    validIndex := 0;
    while validIndex < validCount
      invariant 0 <= validIndex <= validCount
      invariant forall k :: 0 <= k < validIndex ==> modes[k].size != z
    {
      if modes[validIndex].size == z {
        assert modes[..validCount][validIndex].size == z;
        break;
      }
      validIndex := validIndex + 1;
    }
  }

  method InitializeTextModes(width: nat, height: nat)
    returns (modes: array<ModeRecord>, validCount: nat)
    requires GLYPH_WIDTH <= width < 0x1_0000_0000 && GLYPH_HEIGHT <= height < 0x1_0000_0000
    ensures modes.Length == |DEFINED_MODES| + 3 && 2 <= validCount <= modes.Length
    // Modes 0 and 1 are fixed, whatever the resolution.
    ensures modes[0].size == Size(50, 120) && modes[1].size == Size(0, 0)
    // The modes from 2 on are candidates that fit, are centred on the screen and new.
    ensures forall k :: 2 <= k < validCount ==>
      && modes[k].size in Candidates(width, height)
      && Fits(modes[k].size, width, height)
      && OnScreen(modes[k], width, height)
    ensures forall k :: 0 <= k < validCount ==> modes[k].gopWidth == width && modes[k].gopHeight == height
    ensures forall j, k :: 0 <= j < k < validCount && k >= 2 ==> modes[j].size != modes[k].size
    // Each of the four fixed modes is in the table just when it fits.
    ensures forall z :: z in [Size(100, 31), Size(128, 40), Size(160, 42), Size(240, 56)] ==>
      (Listed(z, modes[..validCount]) <==> z.columns * 8 <= width && z.rows * 19 <= height)
    // No candidate that fits is missing; the full screen mode is one.
    ensures forall z :: z in Candidates(width, height) && Fits(z, width, height) ==>
      Listed(z, modes[..validCount])
    ensures Listed(Size(width / GLYPH_WIDTH, height / GLYPH_HEIGHT), modes[..validCount])
  {
    hide OnScreen, Listed, Record, TableOf;
    var modeBuffer := Candidates(width, height);
    var count := |modeBuffer|;
    modes := new ModeRecord[count + 2](_ => ModeRecord(Size(0, 0), 0, 0, 0, 0));
    modes[0] := Record(Size(50, 120), width, height);
    modes[1] := ModeRecord(Size(0, 0), width, height, 0, 0);
    validCount := 2;
    FirstRecords(modes[..2], modeBuffer, width, height);
    for index := 0 to count
      invariant 2 <= validCount <= index + 2
      invariant TableOf(modes[..validCount], modeBuffer, index, width, height)
    {
      NextCandidate(modes[..validCount], modeBuffer, index, width, height);
      var z := modeBuffer[index];
      if z.columns == 0 || z.rows == 0 || z.columns > width / GLYPH_WIDTH || z.rows > height / GLYPH_HEIGHT {
        continue;
      }
      var validIndex := FindSize(modes, validCount, z);
      if validIndex == validCount {
        ghost var before := modes[..validCount];
        modes[validCount] := Record(z, width, height);
        validCount := validCount + 1;
        assert modes[..validCount] == before + [Record(z, width, height)];
      }
    }
    WholeTable(modes[..validCount], modeBuffer, width, height);
    FixedModes(modes[..validCount], modeBuffer, width, height);
    assert modeBuffer[count - 1] == Size(width / GLYPH_WIDTH, height / GLYPH_HEIGHT);
    forall k | 0 <= k < validCount
      ensures modes[k] == modes[..validCount][k]
    {
    }
  }
}
