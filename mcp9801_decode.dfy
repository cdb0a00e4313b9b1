/**
 * The register map of the MCP9801 and the arithmetic the driver performs on
 * the words it reads and the bytes it writes (py-pi-mcp9801.py:31-39, 60-63,
 * 69 and 73-76), as pure functions of those words, with what each computes
 * proved about it.
 */
module Mcp9801Decode {
  import opened PyInt

  /** The addresses the class lists as valid; only the first is ever used, as the default. */
  const ValidAddresses: seq<int> := [0x4F]

  const RegAmbientTemp := 0x00
  const RegConfig := 0x01
  /** Declared by the class, never read or written by it. */
  const RegTempHyst := 0x02
  /** Declared by the class, never read or written by it. */
  const RegTempLimit := 0x03

  /** The configuration byte written on reset: resolution bits 5-6 both set. */
  const ConfigDefault := 0x60

  /** A 16-bit word from its most and its least significant byte. */
  function WordOfBytes(msb: nat, lsb: nat): nat
    requires msb < 0x100 && lsb < 0x100
  {
    msb * 0x100 + lsb
  }

  /**
   * The byte swap applied to the word read from the temperature register:
   * `((raw & 0xff) << 8) | ((raw >> 8) & 0xff)`. The result fits in 16 bits
   * whatever the raw value.
   */
  function SwapBytes(raw: int): (r: nat)
    ensures r < 0x10000
  {
    var high := Shl(And(raw, 0xFF), 8);
    var low := And(Shr(raw, 8), 0xFF);
    Pow2Values();
    ShlBelow(And(raw, 0xFF), 8, 8);
    OrBelow(high, low, 16);
    Or(high, low)
  }

  /** The high byte of the swapped word carries bits 0-7 of the raw value. */
  lemma SwappedHighBit(raw: int, i: nat)
    ensures Bit(Shl(And(raw, 0xFF), 8), i) == if 8 <= i < 16 then Bit(raw, i - 8) else 0
  {
    ShlBit(And(raw, 0xFF), 8, i);
    if i >= 8 {
      Pow2Values();
      AndBit(raw, 0xFF, i - 8);
      LowMaskBit(8, i - 8);
    }
  }

  /** The low byte of the swapped word carries bits 8-15 of the raw value. */
  lemma SwappedLowBit(raw: int, i: nat)
    ensures Bit(And(Shr(raw, 8), 0xFF), i) == if i < 8 then Bit(raw, i + 8) else 0
  {
    Pow2Values();
    AndBit(Shr(raw, 8), 0xFF, i);
    LowMaskBit(8, i);
    ShrBit(raw, 8, i);
  }

  /** Bit by bit, the swap exchanges bits 0-7 with bits 8-15 and clears everything above. */
  lemma SwapBytesBit(raw: int, i: nat)
    ensures Bit(SwapBytes(raw), i) == if i < 8 then Bit(raw, i + 8) else if i < 16 then Bit(raw, i - 8) else 0
  {
    var high := Shl(And(raw, 0xFF), 8);
    var low := And(Shr(raw, 8), 0xFF);
    var z := Bit(Or(high, low), i);
    OrBit(high, low, i);
    BitEitherOf(z, Bit(high, i), Bit(low, i));
    SwappedHighBit(raw, i);
    SwappedLowBit(raw, i);
    var fromLow := if i < 8 then Bit(raw, i + 8) else 0;
    var fromHigh := if 8 <= i < 16 then Bit(raw, i - 8) else 0;
    assert z == if i < 8 then fromLow else fromHigh;
    assert SwapBytes(raw) == Or(high, low);
  }

  /** Bit i of a word is bit i of its low byte below 8 and bit i-8 of its high byte from there on. */
  lemma WordBit(msb: nat, lsb: nat, i: nat)
    requires msb < 0x100 && lsb < 0x100
    ensures Bit(WordOfBytes(msb, lsb), i) == if i < 8 then Bit(lsb, i) else Bit(msb, i - 8)
  {
    Pow2Values();
    BitOfConcat(msb, lsb, 8, i);
  }

  /** The swap turns the word with bytes (msb, lsb) into the word with bytes (lsb, msb). */
  lemma SwapBytesOfWord(msb: nat, lsb: nat)
    requires msb < 0x100 && lsb < 0x100
    ensures SwapBytes(WordOfBytes(msb, lsb)) == WordOfBytes(lsb, msb)
  {
    forall i: nat
      ensures Bit(SwapBytes(WordOfBytes(msb, lsb)), i) == Bit(WordOfBytes(lsb, msb), i)
    {
      SwapBytesBit(WordOfBytes(msb, lsb), i);
      WordBit(lsb, msb, i);
      if i < 8 {
        WordBit(msb, lsb, i + 8);
      } else if i < 16 {
        WordBit(msb, lsb, i - 8);
      } else {
        Pow2Values();
        BitAbove(lsb, 8, i - 8);
      }
    }
    BitsDetermine(SwapBytes(WordOfBytes(msb, lsb)), WordOfBytes(lsb, msb));
  }

  /** Swapping twice gives back any 16-bit word. */
  lemma SwapBytesInvolutive(w: int)
    requires 0 <= w < 0x10000
    ensures SwapBytes(SwapBytes(w)) == w
  {
    var msb, lsb := w / 0x100, w % 0x100;
    assert w == WordOfBytes(msb, lsb);
    SwapBytesOfWord(msb, lsb);
    SwapBytesOfWord(lsb, msb);
  }

  /** Bit i of the swap is the same for the raw value and for its low 16 bits. */
  lemma SwapBytesLow16Bit(raw: int, i: nat)
    ensures Bit(SwapBytes(raw), i) == Bit(SwapBytes(raw % 0x10000), i)
  {
    Pow2Values();
    SwapBytesBit(raw, i);
    SwapBytesBit(raw % Pow2(16), i);
    if i < 8 {
      ModPow2Bit(raw, 16, i + 8);
    } else if i < 16 {
      ModPow2Bit(raw, 16, i - 8);
    }
  }

  /** The swap reads only the low 16 bits of the raw value, whatever its sign or size. */
  lemma SwapBytesLow16(raw: int)
    ensures SwapBytes(raw) == SwapBytes(raw % 0x10000)
  {
    forall i: nat
      ensures Bit(SwapBytes(raw), i) == Bit(SwapBytes(raw % 0x10000), i)
    {
      SwapBytesLow16Bit(raw, i);
    }
    BitsDetermine(SwapBytes(raw), SwapBytes(raw % 0x10000));
  }

  /** On a 16-bit word the sign test `s & 0x8000` is non-zero exactly when s is at least 0x8000. */
  lemma SignBitTest(s: nat)
    requires s < 0x10000
    ensures And(s, 0x8000) != 0 <==> s >= 0x8000
  {
    Pow2Values();
    AndTopBit(s, 15);
  }

  /**
   * The sign step on the swapped word: `s - 0x8000` when `s & 0x8000` is
   * non-zero, s otherwise. On a 16-bit word the test is "s is at least
   * 0x8000", so the step only clears bit 15.
   */
  function SignStep(s: int): (c: int)
    requires 0 <= s < 0x10000
    ensures s < 0x8000 ==> c == s
    ensures s >= 0x8000 ==> c == s - 0x8000
  {
    SignBitTest(s);
    if And(s, 0x8000) != 0 then s - 0x8000 else s
  }

  /** The count of 1/256 degrees decoded from a raw temperature word: always in [0, 0x7FFF]. */
  function Count(raw: int): (c: int)
    ensures 0 <= c < 0x8000
  {
    SignStep(SwapBytes(raw))
  }

  /** The count is the swapped word with bit 15 cleared: the swapped word modulo 0x8000. */
  lemma CountIsSwappedModulo(raw: int)
    ensures Count(raw) == SwapBytes(raw) % 0x8000
  {
    ClearsBit15(SwapBytes(raw), Count(raw));
  }

  lemma ClearsBit15(s: int, c: int)
    requires 0 <= s < 0x10000
    requires s < 0x8000 ==> c == s
    requires s >= 0x8000 ==> c == s - 0x8000
    ensures c == s % 0x8000
  {
  }

  /**
   * The temperature in degrees Celsius: the count divided by 256, taken as
   * an exact real. It is never negative and never above 0x7FFF / 256.
   */
  function Celsius(raw: int): (t: real)
    ensures 0.0 <= t <= 0x7FFF as real / 256.0
  {
    Count(raw) as real / 256.0
  }

  /** The 16-bit two's-complement reading of a word, for comparison with `Count`. */
  function TwosComplement16(s: int): int
    requires 0 <= s < 0x10000
  {
    if s >= 0x8000 then s - 0x10000 else s
  }

  /**
   * Where the swapped word is non-negative in two's complement the count is
   * that value; where it is negative the count is exactly 0x8000 (128 degrees)
   * above it.
   */
  lemma CountVersusTwosComplement(raw: int)
    ensures var s := SwapBytes(raw);
      Count(raw) == if s < 0x8000 then TwosComplement16(s) else TwosComplement16(s) + 0x8000
  {
  }

  /** The raw word 0x2C01 swaps to 0x012C = 300, which decodes to 300/256 = 1.171875 degrees. */
  lemma DecodeExample()
    ensures SwapBytes(0x2C01) == 0x012C
    ensures Count(0x2C01) == 300
    ensures Celsius(0x2C01) == 1.171875
  {
    assert WordOfBytes(0x2C, 0x01) == 0x2C01;
    SwapBytesOfWord(0x2C, 0x01);
  }

  /**
   * What the resolution getter returns for the word it reads:
   * `data & 0b01100000 >> 5`, where `>>` binds tighter than `&`, so the mask
   * is 0b11.
   */
  function ResolutionOf(data: int): (r: nat)
    ensures r <= 3
  {
    Pow2Values();
    assert Shr(0x60, 5) == 3;
    And(data, Shr(0x60, 5))
  }

  /** The getter reports the two LOW bits of the word, data mod 4, not bits 5-6. */
  lemma ResolutionOfIsLowBits(data: int)
    ensures ResolutionOf(data) == data % 4
    ensures ResolutionOf(data) <= 3
  {
    Pow2Values();
    assert Shr(0x60, 5) == Pow2(2) - 1;
    AndLowMask(data, 2);
  }

  /** The mode the setter keeps, `mode & 0x03`: mode mod 4 for every integer. */
  lemma EffectiveMode(mode: int)
    ensures And(mode, 0x03) == mode % 4
  {
    Pow2Values();
    AndLowMask(mode, 2);
  }

  /**
   * The byte the resolution setter writes back for the word `data` it read:
   * `(data & 0b10011111) | ((mode & 0x03) << 5)`. It always fits in a byte.
   */
  function ConfigWithResolution(data: int, mode: int): (b: nat)
    ensures b < 0x100
  {
    var kept := And(data, 0x9F);
    var bits := Shl(And(mode, 0x03), 5);
    Pow2Values();
    OrBelow(kept, bits, 8);
    Or(kept, bits)
  }

  /** Bit i of 0x9F: set for bits 0-4 and 7, clear elsewhere. */
  lemma KeptMaskBit(i: nat)
    ensures Bit(0x9F, i) == if i < 5 || i == 7 then 1 else 0
  {
    if i >= 8 {
      Pow2Values();
      BitAbove(0x9F, 8, i);
    } else {
      assert Bit(0x9F, i) == if i < 5 || i == 7 then 1 else 0 by {
        if i == 0 {} else if i == 1 {} else if i == 2 {} else if i == 3 {}
        else if i == 4 {} else if i == 5 {} else if i == 6 {} else {}
      }
    }
  }

  /** The part of the word read that the setter keeps: bits 0-4 and 7. */
  lemma KeptBit(data: int, i: nat)
    ensures Bit(And(data, 0x9F), i) == if i < 5 || i == 7 then Bit(data, i) else 0
  {
    AndBit(data, 0x9F, i);
    KeptMaskBit(i);
  }

  /** The shifted mode occupies bits 5-6 and carries bits 0-1 of the mode. */
  lemma ShiftedModeBit(mode: int, i: nat)
    ensures Bit(Shl(And(mode, 0x03), 5), i) == if i == 5 || i == 6 then Bit(mode, i - 5) else 0
  {
    ShlBit(And(mode, 0x03), 5, i);
    if i >= 5 {
      AndBit(mode, 0x03, i - 5);
      Pow2Values();
      LowMaskBit(2, i - 5);
    }
  }

  /**
   * The written byte bit by bit: bits 5-6 are bits 0-1 of the mode, bits 0-4
   * and 7 are those of the word read, and every bit from 8 up is clear.
   */
  lemma ConfigWithResolutionBit(data: int, mode: int, i: nat)
    ensures Bit(ConfigWithResolution(data, mode), i) ==
      if i == 5 || i == 6 then Bit(mode, i - 5) else if i < 8 then Bit(data, i) else 0
  {
    var kept := And(data, 0x9F);
    var bits := Shl(And(mode, 0x03), 5);
    OrBit(kept, bits, i);
    BitEitherOf(Bit(Or(kept, bits), i), Bit(kept, i), Bit(bits, i));
    KeptBit(data, i);
    ShiftedModeBit(mode, i);
    assert ConfigWithResolution(data, mode) == Or(kept, bits);
  }

  /** Setting a resolution over a previous one gives the same byte as setting it directly: the last mode wins. */
  lemma ConfigWithResolutionOverwrites(data: int, first: int, second: int)
    ensures ConfigWithResolution(ConfigWithResolution(data, first), second) == ConfigWithResolution(data, second)
  {
    var once := ConfigWithResolution(data, first);
    forall i: nat
      ensures Bit(ConfigWithResolution(once, second), i) == Bit(ConfigWithResolution(data, second), i)
    {
      ConfigWithResolutionBit(once, second, i);
      ConfigWithResolutionBit(data, second, i);
      ConfigWithResolutionBit(data, first, i);
    }
    BitsDetermine(ConfigWithResolution(once, second), ConfigWithResolution(data, second));
  }

  /** Bit i of 0x03: set for bits 0 and 1 only. */
  lemma TwoBitMaskBit(i: nat)
    ensures Bit(0x03, i) == if i < 2 then 1 else 0
  {
    Pow2Values();
    LowMaskBit(2, i);
  }

  /** Bit i of `(b >> 5) & 0x03`, for the byte b the setter writes, is bit i of `mode & 0x03`. */
  lemma ModeStoredBit(data: int, mode: int, i: nat)
    ensures Bit(And(Shr(ConfigWithResolution(data, mode), 5), 0x03), i) == Bit(And(mode, 0x03), i)
  {
    var b := ConfigWithResolution(data, mode);
    AndBitValue(Shr(b, 5), 0x03, i);
    AndBitValue(mode, 0x03, i);
    TwoBitMaskBit(i);
    if i < 2 {
      ShrBit(b, 5, i);
      ConfigWithResolutionBit(data, mode, i + 5);
    }
  }

  /** The mode does land in bits 5-6: shifting the written byte right by 5 and masking with 3 gives mode mod 4. */
  lemma ModeStoredInBits5And6(data: int, mode: int)
    ensures And(Shr(ConfigWithResolution(data, mode), 5), 0x03) == mode % 4
  {
    var b := ConfigWithResolution(data, mode);
    forall i: nat
      ensures Bit(And(Shr(b, 5), 0x03), i) == Bit(And(mode, 0x03), i)
    {
      ModeStoredBit(data, mode, i);
    }
    BitsDetermine(And(Shr(b, 5), 0x03), And(mode, 0x03));
    EffectiveMode(mode);
  }

  /** Bit i of what the getter reports is the same before and after the setter's write. */
  lemma ResolutionUnchangedBit(data: int, mode: int, i: nat)
    ensures Bit(ResolutionOf(ConfigWithResolution(data, mode)), i) == Bit(ResolutionOf(data), i)
  {
    var b := ConfigWithResolution(data, mode);
    Pow2Values();
    assert Shr(0x60, 5) == Pow2(2) - 1;
    AndBit(b, Pow2(2) - 1, i);
    AndBit(data, Pow2(2) - 1, i);
    LowMaskBit(2, i);
    ConfigWithResolutionBit(data, mode, i);
  }

  /**
   * Reading the resolution back after setting it reports the low two bits of
   * the word read before the write, whatever mode was set: set then get is
   * not a round trip.
   */
  lemma ResolutionUnchangedBySetting(data: int, mode: int)
    ensures ResolutionOf(ConfigWithResolution(data, mode)) == ResolutionOf(data)
  {
    var b := ConfigWithResolution(data, mode);
    forall i: nat
      ensures Bit(ResolutionOf(b), i) == Bit(ResolutionOf(data), i)
    {
      ResolutionUnchangedBit(data, mode, i);
    }
    BitsDetermine(ResolutionOf(b), ResolutionOf(data));
  }

  /** Setting a resolution and reading it back reports the word's low two bits from before the write. */
  lemma SetThenGetReadsLowBits(data: int, mode: int)
    ensures ResolutionOf(ConfigWithResolution(data, mode)) == data % 4
  {
    ResolutionUnchangedBySetting(data, mode);
    ResolutionOfIsLowBits(data);
  }
}
