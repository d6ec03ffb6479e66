/** The floating-point time code of IGMPv3 (section 4.1.1 of RFC 3376). */
module Igmp {
  import opened Bytes

  function Pow2(n: nat): (p: nat)
    ensures p > 0
  {
    if n == 0 then 1 else 2 * Pow2(n - 1)
  }

  /** What a receiver makes of a code: below 128 the value itself, otherwise four bits of mantissa with an
      implicit leading one and three bits of exponent. */
  function Decoded(code: Byte): nat {
    if code < 128 then code else (16 + code % 16) * Pow2(code / 16 % 8 + 3)
  }

  /** The largest code up to c that does not exceed d. */
  function Largest(d: real, c: Byte): (r: Byte)
    ensures r <= c
  {
    if c == 0 || Decoded(c) as real <= d then c else Largest(d, c - 1)
  }

  function TimeCode(d: real): Byte {
    Largest(d, 255)
  }

  // ------------------------------------------------------------------------------------------
  // The code
  // ------------------------------------------------------------------------------------------

  lemma CodeFields(e: nat, m: nat)
    requires e < 8 && 16 <= m < 32
    ensures var code := 128 + 16 * e + (m - 16);
            128 <= code < 256 && code / 16 == 8 + e && code / 16 % 8 == e && code % 16 == m - 16
  {
    assert 128 + 16 * e + (m - 16) == 16 * (8 + e) + (m - 16);
  }

  lemma ThreeMore(e: nat)
    ensures Pow2(e + 1) == 2 * Pow2(e) && Pow2(e + 3) == 8 * Pow2(e)
  {
    assert Pow2(e + 3) == 2 * Pow2(e + 2) && Pow2(e + 2) == 2 * Pow2(e + 1);
  }

  /** Decoding with the exponent and mantissa spelled out. */
  lemma DecodedParts(e: nat, m: nat)
    requires e < 8 && 16 <= m < 32
    ensures 128 <= 128 + 16 * e + (m - 16) < 256 && Decoded(128 + 16 * e + (m - 16)) == 8 * (m * Pow2(e))
  {
    hide Pow2;
    CodeFields(e, m);
    ThreeMore(e);
    Times8(m, Pow2(e));
  }

  lemma Times8(m: nat, p: nat)
    ensures m * (8 * p) == 8 * (m * p)
  {
  }

  /** The distance to the next code is one unit of the mantissa. */
  lemma NextCode(code: Byte)
    requires code < 255
    ensures code < 127 ==> Decoded(code + 1) == Decoded(code) + 1
    ensures code == 127 ==> Decoded(code + 1) == Decoded(code) + 1
    ensures code >= 128 ==> Decoded(code + 1) == Decoded(code) + 8 * Pow2(code / 16 - 8)
    ensures code >= 128 ==> Decoded(code) >= 16 * (8 * Pow2(code / 16 - 8))
  {
    if code >= 127 {
      hide Decoded, Pow2;
      if code == 127 {
        FirstLargeCode();
      } else {
        NextLargeCode(code / 16 - 8, 16 + code % 16);
      }
    }
  }

  lemma FirstLargeCode()
    ensures Decoded(127) == 127 && Decoded(128) == 128
  {
    DecodedParts(0, 16);
  }

  lemma NextLargeCode(e: nat, m: nat)
    requires e < 8 && 16 <= m < 32 && !(e == 7 && m == 31)
    ensures var code := 128 + 16 * e + (m - 16);
            code < 255 && Decoded(code + 1) == Decoded(code) + 8 * Pow2(e) && Decoded(code) >= 16 * (8 * Pow2(e))
  {
    hide Decoded, Pow2;
    var p := Pow2(e);
    DecodedParts(e, m);
    OneMoreUnit(m, p);
    AtLeastSixteen(m, p);
    if m < 31 {
      DecodedParts(e, m + 1);
    } else {
      DecodedParts(e + 1, 16);
      ThreeMore(e);
    }
  }

  lemma AtLeastSixteen(m: nat, p: nat)
    requires m >= 16
    ensures m * p >= 16 * p
  {
  }

  /** Larger codes mean larger times. */
  lemma {:induction false} DecodedIncreases(c: Byte, k: Byte)
    requires c < k
    ensures Decoded(c) < Decoded(k)
    decreases k
  {
    hide Decoded;
    NextCode(k - 1);
    if c < k - 1 {
      DecodedIncreases(c, k - 1);
    }
  }

  /** The time code is the one code that does not exceed d while the next one does. */
  lemma {:induction false} LargestUnique(d: real, c: Byte, r: Byte)
    requires r <= c && Decoded(r) as real <= d && (r < c ==> d < Decoded(r + 1) as real)
    ensures Largest(d, c) == r
  {
    hide Decoded;
    if r < c {
      if r + 1 < c {
        DecodedIncreases(r + 1, c);
      }
      LargestUnique(d, c - 1, r);
    }
  }

  lemma {:induction false} LargestBounds(d: real, c: Byte)
    requires d >= 0.0
    ensures Decoded(Largest(d, c)) as real <= d
    ensures forall k: Byte | Largest(d, c) < k <= c :: d < Decoded(k) as real
  {
    if !(c == 0 || Decoded(c) as real <= d) {
      LargestBounds(d, c - 1);
    } else if c == 0 {
      assert Decoded(0) == 0;
    }
  }

  lemma TimeCodeIsLargest(d: real)
    requires d >= 0.0
    ensures Decoded(TimeCode(d)) as real <= d
    ensures forall k: Byte :: Decoded(k) as real <= d ==> k <= TimeCode(d)
  {
    hide Decoded;
    LargestBounds(d, 255);
  }

  lemma TimeCodeMonotone(d: real, e: real)
    requires 0.0 <= d <= e
    ensures TimeCode(d) <= TimeCode(e)
  {
    hide Decoded, TimeCode;
    TimeCodeIsLargest(d);
    TimeCodeIsLargest(e);
  }

  /** Encoding undoes decoding on every code. */
  lemma TimeCodeInvertsDecoding(c: Byte)
    ensures TimeCode(Decoded(c) as real) == c
  {
    hide Decoded;
    if c < 255 {
      DecodedIncreases(c, c + 1);
    }
    LargestUnique(Decoded(c) as real, 255, c);
  }

  /** From 128 on the relative error stays below one sixteenth exactly up to 16/15 of the largest time. */
  lemma ErrorSmallExactlyWhen(d: real)
    requires d >= 128.0
    ensures d - Decoded(TimeCode(d)) as real < d / 16.0 <==> 15.0 * d < 16.0 * 31744.0
  {
    hide Decoded, TimeCode;
    var c := TimeCode(d);
    TimeCodeIsLargest(d);
    Landmarks();
    assert c >= 128;
    if c < 255 {
      NextCode(c);
      assert d < Decoded(c + 1) as real;
      var unit := 8 * Pow2(c / 16 - 8);
      assert Decoded(c) as real >= 16.0 * unit as real;
      DecodedBelow(c);
    }
  }

  lemma Landmarks()
    ensures Decoded(128) == 128 && Decoded(255) == 31744
  {
    DecodedParts(0, 16);
    DecodedParts(7, 31);
    assert Pow2(7) == 2 * Pow2(6) && Pow2(6) == 2 * Pow2(5) && Pow2(5) == 2 * Pow2(4) && Pow2(4) == 2 * Pow2(3);
    assert Pow2(3) == 8;
  }

  lemma DecodedBelow(c: Byte)
    requires c < 255
    ensures Decoded(c + 1) <= 31744
  {
    hide Decoded;
    Landmarks();
    if c + 1 < 255 {
      DecodedIncreases(c + 1, 255);
    }
  }

  // ------------------------------------------------------------------------------------------
  // The program's conversion
  // ------------------------------------------------------------------------------------------

  /** Conversion to an integer drops the fraction. */
  method FloatToTime(d: real) returns (code: Byte)
    requires d >= 0.0
    ensures code == TimeCode(d)
  {
    hide Decoded, TimeCode;
    if d < 128.0 {
      code := d.Floor;
      SmallCode(d);
    } else if d >= 31744.0 {
      code := 255;
      Landmarks();
      TimeCodeIsLargest(d);
    } else {
      var exp, mant := 0, d.Floor;
      mant := mant / 8;
      while mant > 31
        invariant mant >= 16
        invariant 8 * (mant * Pow2(exp)) <= d.Floor < 8 * ((mant + 1) * Pow2(exp))
        decreases mant
      {
        Halve(mant, exp);
        exp := exp + 1;
        mant := mant / 2;
      }
      ExponentFits(mant, exp, d.Floor);
      code := 0x80 + exp % 8 * 16 + mant % 16;
      LargeCode(d, exp, mant);
    }
  }

  lemma Halve(mant: nat, exp: nat)
    ensures mant / 2 * Pow2(exp + 1) <= mant * Pow2(exp)
    ensures (mant + 1) * Pow2(exp) <= (mant / 2 + 1) * Pow2(exp + 1)
  {
    var p, h := Pow2(exp), mant / 2;
    assert h * (2 * p) == 2 * h * p;
    assert 2 * h * p <= mant * p;
    assert (h + 1) * (2 * p) == (2 * h + 2) * p;
    assert (mant + 1) * p <= (2 * h + 2) * p;
  }

  lemma {:induction false} Pow2Grows(m: nat, n: nat)
    requires m <= n
    ensures Pow2(m) <= Pow2(n)
  {
    if m < n {
      Pow2Grows(m, n - 1);
    }
  }

  lemma ExponentFits(mant: nat, exp: nat, n: nat)
    requires mant >= 16 && 8 * (mant * Pow2(exp)) <= n < 31744
    ensures exp < 8
  {
    if exp >= 8 {
      Pow2Grows(8, exp);
      assert Pow2(8) == 256 by { Landmarks256(); }
      ProductAtLeast(mant, Pow2(exp));
    }
  }

  lemma ProductAtLeast(m: nat, p: nat)
    ensures m >= 16 && p >= 256 ==> m * p >= 4096
  {
  }

  lemma Landmarks256()
    ensures Pow2(8) == 256
  {
    assert Pow2(3) == 8 && Pow2(6) == 64;
  }

  lemma SmallCode(d: real)
    requires 0.0 <= d < 128.0
    ensures 0 <= d.Floor < 128 && TimeCode(d) == d.Floor
  {
    var c := d.Floor;
    Landmarks();
    assert Decoded(c) == c && Decoded(c + 1) == c + 1;
    LargestUnique(d, 255, c);
  }

  lemma LargeCode(d: real, exp: nat, mant: nat)
    requires exp < 8 && 16 <= mant <= 31
    requires 8 * (mant * Pow2(exp)) <= d.Floor < 8 * ((mant + 1) * Pow2(exp))
    ensures 0x80 + exp % 8 * 16 + mant % 16 < 256 && TimeCode(d) == 0x80 + exp % 8 * 16 + mant % 16
  {
    hide Decoded, Pow2, TimeCode;
    CodeFields(exp, mant);
    DecodedParts(exp, mant);
    OneMoreUnit(mant, Pow2(exp));
    var c := 128 + 16 * exp + (mant - 16);
    if c < 255 {
      NextLargeCode(exp, mant);
    }
    BetweenCodes(d, c, 8 * (mant * Pow2(exp)), 8 * Pow2(exp));
  }

  lemma BetweenCodes(d: real, c: Byte, low: nat, unit: nat)
    requires Decoded(c) == low <= d.Floor < low + unit
    requires c < 255 ==> Decoded(c + 1) == low + unit
    ensures TimeCode(d) == c
  {
    hide Decoded, Largest;
    FloorBetween(d, low);
    FloorBetween(d, low + unit);
    LargestUnique(d, 255, c);
  }

  lemma FloorBetween(d: real, n: nat)
    ensures n <= d.Floor ==> n as real <= d
    ensures d.Floor < n ==> d < n as real
  {
  }

  lemma OneMoreUnit(m: nat, p: nat)
    ensures (m + 1) * p == m * p + p
  {
  }
}
