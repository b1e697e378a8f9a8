/** The check value that CRC-32 over the IEEE polynomial is known by. */
module Crc32Laws {
  import opened Codec
  import opened Words
  import opened Crc32Spec
  import opened Crc32

  /** The characters 1 to 9. */
  const DIGITS: seq<bv8> := [0x31, 0x32, 0x33, 0x34, 0x35, 0x36, 0x37, 0x38, 0x39]

  lemma AdvanceRecurrence(poly: bv32)
    ensures forall c, n: nat {:trigger Advance(poly, c, n)} ::
      Advance(poly, c, n) == if n == 0 then c else Advance(poly, ShiftBit(poly, c), n - 1)
  {
    hide ShiftBit;
  }

  lemma DigitSteps()
    ensures ByteStep(IEEE, 0xFFFFFFFF, 0x31) == 0x7C231048
    ensures ByteStep(IEEE, 0x7C231048, 0x32) == 0xB0ACBB32
    ensures ByteStep(IEEE, 0xB0ACBB32, 0x33) == 0x77B79C2D
    ensures ByteStep(IEEE, 0x77B79C2D, 0x34) == 0x641C1F5C
    ensures ByteStep(IEEE, 0x641C1F5C, 0x35) == 0x340AC5E3
    ensures ByteStep(IEEE, 0x340AC5E3, 0x36) == 0xF68D2C9E
    ensures ByteStep(IEEE, 0xF68D2C9E, 0x37) == 0xAFFC9660
    ensures ByteStep(IEEE, 0xAFFC9660, 0x38) == 0x651F2550
    ensures ByteStep(IEEE, 0x651F2550, 0x39) == 0x340BC6D9
  {
    AdvanceRecurrence(IEEE);
    hide Advance;
  }

  lemma StepsRecurrence(poly: bv32, p: seq<bv8>)
    ensures forall c, k: nat {:trigger ByteSteps(poly, c, p[k..])} :: k <= |p| ==>
      ByteSteps(poly, c, p[k..]) == if k == |p| then c else ByteSteps(poly, ByteStep(poly, c, p[k]), p[k + 1..])
  {
    hide ByteStep;
    forall c, k: nat | k < |p|
      ensures ByteSteps(poly, c, p[k..]) == ByteSteps(poly, ByteStep(poly, c, p[k]), p[k + 1..])
    {
      assert p[k..][1..] == p[k + 1..];
    }
  }

  /** The register after the nine digits. */
  lemma CheckValue()
    ensures Crc(IEEE, 0, DIGITS) == 0xCBF43926
  {
    DigitSteps();
    StepsRecurrence(IEEE, DIGITS);
    CrcBytewise(IEEE, 0, DIGITS);
    assert DIGITS[0..] == DIGITS;
    hide ByteStep, ByteSteps, Crc;
  }
}
