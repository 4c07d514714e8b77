/** The clock divisor that the DesignWare MMC driver picks for a card clock, in kHz. */
module ClockDivisor {

  // With divisor 0 the card runs at the base clock, else at the base clock divided by twice that.
  // The card clock does not exceed the wanted frequency:
  predicate SlowEnough(base: nat, freq: nat, divisor: nat) {
    if divisor == 0 then base <= freq else base <= 2 * divisor * freq
  }

  lemma Monotone(d: nat, x: nat, y: nat)
    requires x <= y
    ensures d * x <= d * y
  {
    assert d * y == d * x + d * (y - x);
  }

  lemma Rounded(base: nat, d: nat, q: nat, r: nat, freq: nat)
    requires base == d * q + r && r < d
    ensures q < freq || (q == freq && r == 0) <==> base <= d * freq
  {
    if q < freq {
      Monotone(d, q + 1, freq);
      assert d * (q + 1) == d * q + d;
    } else if q > freq {
      Monotone(d, freq, q - 1);
      assert d * q == d * (q - 1) + d;
    }
  }

  lemma Quotient(base: nat, d: nat, freq: nat)
    requires d > 0
    ensures 0 <= base / d
    ensures base / d < freq || (base / d == freq && base % d == 0) <==> base <= d * freq
  {
    Rounded(base, d, base / d, base % d, freq);
  }

  lemma LargeDivisor(base: nat, freq: nat, d: nat)
    requires freq > 0 && 2 * d >= base
    ensures base <= 2 * d * freq
  {
    assert 2 * d * (freq - 1) >= 0;
    assert 2 * d * freq == 2 * d + 2 * d * (freq - 1);
  }

  ghost predicate Least(base: nat, freq: nat, divisor: nat) {
    && SlowEnough(base, freq, divisor)
    && forall d :: 0 <= d < divisor ==> !SlowEnough(base, freq, d)
  }

  // One pair of frequencies needs a divisor whose double leaves 32 bits, and no other does. With
  // that pair the driver's loop divides by zero.
  lemma DoubledDivisorFits(base: nat, freq: nat, divisor: nat)
    requires 0 < base < 0x1_0000_0000 && 0 < freq
    requires Least(base, freq, divisor)
    ensures 2 * divisor < 0x1_0000_0000 <==> !(base == 0xFFFF_FFFF && freq == 1)
  {
    if divisor > 0 {
      assert !SlowEnough(base, freq, divisor - 1);
      StillTooFast(base, freq, divisor - 1);
      if freq > 1 && divisor > 1 {
        Monotone(2 * (divisor - 1), 2, freq);
      }
    }
  }

  /** The least divisor with which the card clock does not exceed the wanted frequency; no divisor
      for the frequency zero. */
  method FindDivisor(base: nat, clockFreq: nat) returns (ok: bool, divisor: nat)
    requires 0 < base < 0x1_0000_0000
    requires !(base == 0xFFFF_FFFF && clockFreq == 1)
    ensures ok <==> clockFreq != 0
    ensures ok ==> (divisor == 0 <==> clockFreq >= base)
    ensures ok ==> Least(base, clockFreq, divisor)
    ensures ok && divisor > 0 ==> base <= 2 * divisor * clockFreq
    ensures ok ==> forall d :: 0 < d < divisor ==> 2 * d * clockFreq < base
    ensures ok ==> 2 * divisor < 0x1_0000_0000
  {
    hide SlowEnough, Least;
    if clockFreq == 0 {
      return false, 0;
    }
    ok := true;
    var freq := if clockFreq > base then base else clockFreq;
    var settingFreq := base;
    divisor := 0;
    Undivided(base, clockFreq, freq);
    while freq < settingFreq
      invariant NoneBefore(base, freq, divisor)
      invariant freq < settingFreq <==> !SlowEnough(base, freq, divisor)
      invariant 2 * divisor < 0x1_0000_0000
      decreases base - divisor
    {
      StillTooFast(base, freq, divisor);
      AnotherTooFast(base, freq, divisor);
      divisor := divisor + 1;
      Divided(base, freq, divisor);
      settingFreq := base / (2 * divisor);
      var remainder := base % (2 * divisor);
      if freq == settingFreq && remainder == 0 {
        break;
      }
      if freq == settingFreq && remainder != 0 {
        settingFreq := settingFreq + 1;
      }
    }
    Found(base, clockFreq, freq, divisor);
    LeastMeans(base, clockFreq, divisor);
  }

  lemma LeastMeans(base: nat, freq: nat, divisor: nat)
    requires Least(base, freq, divisor)
    ensures divisor > 0 ==> base <= 2 * divisor * freq
    ensures forall d :: 0 < d < divisor ==> 2 * d * freq < base
  {
    forall d | 0 < d < divisor
      ensures 2 * d * freq < base
    {
      assert !SlowEnough(base, freq, d);
    }
  }

  ghost predicate NoneBefore(base: nat, freq: nat, divisor: nat) {
    forall d :: 0 <= d < divisor ==> !SlowEnough(base, freq, d)
  }

  lemma AnotherTooFast(base: nat, freq: nat, divisor: nat)
    requires 0 < base < 0x1_0000_0000 && 0 < freq && !(base == 0xFFFF_FFFF && freq == 1)
    requires NoneBefore(base, freq, divisor) && !SlowEnough(base, freq, divisor)
    ensures NoneBefore(base, freq, divisor + 1)
    ensures 2 * (divisor + 1) < 0x1_0000_0000
  {
    StillTooFast(base, freq, divisor);
    if freq > 1 && divisor > 0 {
      Monotone(2 * divisor, 2, freq);
    }
  }

  lemma Found(base: nat, clockFreq: nat, freq: nat, divisor: nat)
    requires base > 0 && freq == if clockFreq > base then base else clockFreq
    requires NoneBefore(base, freq, divisor) && SlowEnough(base, freq, divisor)
    ensures Least(base, clockFreq, divisor)
    ensures divisor == 0 <==> clockFreq >= base
  {
    if divisor > 0 {
      assert !SlowEnough(base, freq, 0);
    }
  }

  lemma Undivided(base: nat, clockFreq: nat, freq: nat)
    requires freq == if clockFreq > base then base else clockFreq
    ensures freq < base <==> !SlowEnough(base, freq, 0)
    ensures SlowEnough(base, clockFreq, 0) <==> clockFreq >= base
  {
  }

  lemma Divided(base: nat, freq: nat, divisor: nat)
    requires divisor > 0
    ensures 0 <= base / (2 * divisor) && 0 <= base % (2 * divisor)
    ensures SlowEnough(base, freq, divisor) <==>
      base / (2 * divisor) < freq || (base / (2 * divisor) == freq && base % (2 * divisor) == 0)
  {
    Quotient(base, 2 * divisor, freq);
  }

  lemma StillTooFast(base: nat, freq: nat, divisor: nat)
    requires freq > 0 && !SlowEnough(base, freq, divisor)
    ensures 2 * divisor < base
  {
    if 2 * divisor >= base && divisor > 0 {
      LargeDivisor(base, freq, divisor);
    }
  }
}
