/** What the byte tables of CRC-32 hold, and why looking them up divides: one byte
    at a time, or eight. */
module Crc32Tables {
  import opened Words
  import opened Crc32Spec

  /** The entry of table k for byte b: the byte pushed through k + 1 zero bytes'
      worth of division. */
  function Entry(poly: bv32, k: nat, b: bv8): bv32 {
    Advance(poly, Widen(b), 8 * (k + 1))
  }

  ghost predicate IsTable(poly: bv32, k: nat, t: seq<bv32>) {
    |t| == 256 && forall b: bv8 :: t[Value(b)] == Entry(poly, k, b)
  }

  // ------------------------------------------------------------ shifting zeros

  /** The n low bits of w are zero. */
  predicate EvenBits(w: bv32, n: nat)
    decreases n
  {
    n == 0 || (!Odd(w) && EvenBits(Half(w), n - 1))
  }

  function Halves(w: bv32, n: nat): bv32
    decreases n
  {
    if n == 0 then w else Halves(Half(w), n - 1)
  }

  /** While only zeros fall out, the polynomial plays no part. */
  lemma {:induction false} AdvanceEven(poly: bv32, w: bv32, n: nat)
    requires EvenBits(w, n)
    ensures Advance(poly, w, n) == Halves(w, n)
    decreases n
  {
    hide Odd, Half, Xor;
    if n > 0 {
      AdvanceEven(poly, Half(w), n - 1);
    }
  }

  lemma HalvesEight(w: bv32)
    ensures Halves(w, 8) == w >> 8
  {
    hide Half;
    HalfEight(w);
    calc {
      Halves(w, 8);
      Halves(Half(w), 7);
      Halves(Half(Half(w)), 6);
      Halves(Half(Half(Half(w))), 5);
      Halves(Half(Half(Half(Half(w)))), 4);
      Halves(Half(Half(Half(Half(Half(w))))), 3);
      Halves(Half(Half(Half(Half(Half(Half(w)))))), 2);
      Halves(Half(Half(Half(Half(Half(Half(Half(w))))))), 1);
      Halves(Half(Half(Half(Half(Half(Half(Half(Half(w)))))))), 0);
    }
  }

  lemma HalfLow(w: bv32, m: bv32)
    ensures w & ((m << 1) | 1) == 0 && !(m > 0x7FFF_FFFF) ==> !Odd(w) && Half(w) & m == 0
  {}

  lemma EvenBitsEight(w: bv32)
    requires w & 0xFF == 0
    ensures EvenBits(w, 8)
  {
    hide Half, Odd;
    var w1 := Half(w);
    var w2 := Half(w1);
    var w3 := Half(w2);
    var w4 := Half(w3);
    var w5 := Half(w4);
    var w6 := Half(w5);
    var w7 := Half(w6);
    HalfLow(w, 0x7F);
    HalfLow(w1, 0x3F);
    HalfLow(w2, 0x1F);
    HalfLow(w3, 0xF);
    HalfLow(w4, 0x7);
    HalfLow(w5, 0x3);
    HalfLow(w6, 0x1);
    HalfLow(w7, 0);
    calc {
      EvenBits(w, 8);
      EvenBits(w1, 7);
      EvenBits(w2, 6);
      EvenBits(w3, 5);
      EvenBits(w4, 4);
      EvenBits(w5, 3);
      EvenBits(w6, 2);
      EvenBits(w7, 1);
      true;
    }
  }

  lemma AdvanceZeroByte(poly: bv32, w: bv32)
    requires w & 0xFF == 0
    ensures Advance(poly, w, 8) == w >> 8
  {
    hide Advance, EvenBits, Halves;
    EvenBitsEight(w);
    AdvanceEven(poly, w, 8);
    HalvesEight(w);
  }

  // ----------------------------------------------------------------- one byte

  lemma SplitLowByteBits(c: bv32, v: bv8)
    ensures c ^ (v as bv32) == (((c & 0xFF) as bv8 ^ v) as bv32) ^ (c & 0xFFFF_FF00)
    ensures (c & 0xFFFF_FF00) & 0xFF == 0
    ensures (c & 0xFFFF_FF00) >> 8 == c >> 8
  {}

  lemma SplitLowByte(c: bv32, v: bv8) returns (high: bv32)
    ensures Xor(c, Widen(v)) == Xor(Widen(LowByte(c) ^ v), high)
    ensures high & 0xFF == 0
    ensures high >> 8 == c >> 8
  {
    high := c & 0xFFFF_FF00;
    SplitLowByteBits(c, v);
  }

  /** The simple algorithm's step: one table lookup divides a byte. */
  lemma TableStep(poly: bv32, c: bv32, v: bv8)
    ensures Xor(Entry(poly, 0, LowByte(c) ^ v), c >> 8) == ByteStep(poly, c, v)
  {
    hide Xor, Widen, LowByte, Advance;
    var high := SplitLowByte(c, v);
    AdvanceXor(poly, Widen(LowByte(c) ^ v), high, 8);
    AdvanceZeroByte(poly, high);
  }

  /** The step that fills table k from table k - 1. */
  lemma NextEntry(poly: bv32, k: nat, b: bv8)
    ensures Xor(Entry(poly, 0, LowByte(Entry(poly, k, b))), Entry(poly, k, b) >> 8) == Entry(poly, k + 1, b)
  {
    hide Xor, Widen, LowByte, Advance;
    var c := Entry(poly, k, b);
    TableStep(poly, c, 0);
    NoByte(c);
    AdvanceSum(poly, Widen(b), 8 * (k + 1), 8);
  }

  lemma NoByte(c: bv32)
    ensures LowByte(c) ^ 0 == LowByte(c)
    ensures Xor(c, Widen(0)) == c
  {}

  // -------------------------------------------------------------- eight bytes

  /** What the bytes p add to the register by the time all of them are divided. */
  function Contribution(poly: bv32, p: seq<bv8>): bv32 {
    if p == [] then 0
    else Xor(Advance(poly, Widen(p[0]), 8 * |p|), Contribution(poly, p[1..]))
  }

  /** Superposition: the start value and the message are divided independently. */
  lemma {:induction false} ByteStepsSuperpose(poly: bv32, c: bv32, p: seq<bv8>)
    ensures ByteSteps(poly, c, p) == Xor(Advance(poly, c, 8 * |p|), Contribution(poly, p))
    decreases |p|
  {
    hide Xor, Widen, ShiftBit;
    if p == [] {
      XorZero(c);
    } else {
      var x := Xor(c, Widen(p[0]));
      var n := 8 * (|p| - 1);
      ByteStepsSuperpose(poly, Advance(poly, x, 8), p[1..]);
      AdvanceSum(poly, x, 8, n);
      AdvanceXor(poly, c, Widen(p[0]), 8 + n);
      XorAssoc(Advance(poly, c, 8 * |p|), Advance(poly, Widen(p[0]), 8 * |p|), Contribution(poly, p[1..]));
    }
  }

  /** Four bytes as a word, the first one lowest. */
  function LittleEndian(b0: bv8, b1: bv8, b2: bv8, b3: bv8): bv32 {
    Xor(Widen(b0), Up(Xor(Widen(b1), Up(Xor(Widen(b2), Up(Widen(b3)))))))
  }

  function Up(w: bv32): bv32 { w << 8 }

  lemma UpLow(w: bv32)
    ensures Up(w) & 0xFF == 0
    ensures w >> 24 == 0 ==> Up(w) >> 8 == w
  {}

  lemma AdvanceUp(poly: bv32, w: bv32, n: nat)
    requires w >> 24 == 0
    ensures Advance(poly, Up(w), 8 + n) == Advance(poly, w, n)
  {
    hide Up, Advance;
    UpLow(w);
    AdvanceZeroByte(poly, Up(w));
    AdvanceSum(poly, Up(w), 8, n);
  }

  lemma AdvanceLowest(poly: bv32, b: bv8, w: bv32, n: nat)
    requires w >> 24 == 0
    ensures Advance(poly, Xor(Widen(b), Up(w)), 8 + n) == Xor(Advance(poly, Widen(b), 8 + n), Advance(poly, w, n))
  {
    hide Xor, Widen, Up, Advance;
    AdvanceXor(poly, Widen(b), Up(w), 8 + n);
    AdvanceUp(poly, w, n);
  }

  lemma SmallWords(b1: bv8, b2: bv8, b3: bv8)
    ensures Widen(b3) >> 24 == 0
    ensures Xor(Widen(b2), Up(Widen(b3))) >> 24 == 0
    ensures Xor(Widen(b1), Up(Xor(Widen(b2), Up(Widen(b3))))) >> 24 == 0
  {}

  /** A word's bytes contribute as if they had been sent one after another. */
  lemma WordContribution(poly: bv32, b0: bv8, b1: bv8, b2: bv8, b3: bv8, n: nat)
    ensures Advance(poly, LittleEndian(b0, b1, b2, b3), n + 32)
         == Xor(Advance(poly, Widen(b0), n + 32),
            Xor(Advance(poly, Widen(b1), n + 24),
            Xor(Advance(poly, Widen(b2), n + 16),
                Advance(poly, Widen(b3), n + 8))))
  {
    hide Xor, Widen, Up, Advance;
    SmallWords(b1, b2, b3);
    AdvanceLowest(poly, b0, Xor(Widen(b1), Up(Xor(Widen(b2), Up(Widen(b3))))), n + 24);
    AdvanceLowest(poly, b1, Xor(Widen(b2), Up(Widen(b3))), n + 16);
    AdvanceLowest(poly, b2, Widen(b3), n + 8);
  }

  lemma WordOfBytes(w: bv32)
    ensures w == LittleEndian(WordByte(w, 0), WordByte(w, 1), WordByte(w, 2), WordByte(w, 3))
  {}

  /** The eight lookups of slicing-by-8, as an expression over the table entries. */
  function EightLookups(poly: bv32, w: bv32, p: seq<bv8>): bv32
    requires |p| == 8
  {
    Xor(Xor(Entry(poly, 7, WordByte(w, 0)),
        Xor(Entry(poly, 6, WordByte(w, 1)),
        Xor(Entry(poly, 5, WordByte(w, 2)),
            Entry(poly, 4, WordByte(w, 3))))),
        Xor(Entry(poly, 3, p[4]),
        Xor(Entry(poly, 2, p[5]),
        Xor(Entry(poly, 1, p[6]),
            Entry(poly, 0, p[7])))))
  }

  lemma LastFour(poly: bv32, p: seq<bv8>)
    requires |p| == 4
    ensures Contribution(poly, p)
         == Xor(Entry(poly, 3, p[0]), Xor(Entry(poly, 2, p[1]), Xor(Entry(poly, 1, p[2]), Entry(poly, 0, p[3]))))
  {
    hide Xor, Widen, Advance;
    assert p[1..][1..][1..] == [p[3]];
    XorZero(Entry(poly, 0, p[3]));
    calc {
      Contribution(poly, p);
      Xor(Entry(poly, 3, p[0]), Contribution(poly, p[1..]));
      Xor(Entry(poly, 3, p[0]), Xor(Entry(poly, 2, p[1]), Contribution(poly, p[1..][1..])));
      Xor(Entry(poly, 3, p[0]), Xor(Entry(poly, 2, p[1]), Xor(Entry(poly, 1, p[2]), Contribution(poly, [p[3]]))));
      Xor(Entry(poly, 3, p[0]), Xor(Entry(poly, 2, p[1]),
        Xor(Entry(poly, 1, p[2]), Xor(Entry(poly, 0, p[3]), Contribution(poly, [])))));
    }
  }

  /** Slicing-by-8: xoring the first four bytes into the register and looking up
      eight entries divides eight bytes. */
  lemma SliceStep(poly: bv32, c: bv32, p: seq<bv8>)
    requires |p| == 8
    ensures EightLookups(poly, Xor(c, LittleEndian(p[0], p[1], p[2], p[3])), p) == ByteSteps(poly, c, p)
  {
    hide Xor, Widen, WordByte, Advance, LittleEndian, ByteStep, ByteSteps, Contribution;
    var first, last := p[..4], p[4..];
    var le := LittleEndian(p[0], p[1], p[2], p[3]);
    var w := Xor(c, le);
    WordOfBytes(w);
    WordContribution(poly, WordByte(w, 0), WordByte(w, 1), WordByte(w, 2), WordByte(w, 3), 32);
    LastFour(poly, last);
    assert p == first + last;
    FirstFour(poly, c, first);
    var mid := ByteSteps(poly, c, first);
    ByteStepsConcat(poly, c, first, last);
    ByteStepsSuperpose(poly, mid, last);
    AdvanceSum(poly, w, 32, 32);
  }

  /** After four bytes the register is what the xored word would have become. */
  lemma FirstFour(poly: bv32, c: bv32, p: seq<bv8>)
    requires |p| == 4
    ensures ByteSteps(poly, c, p) == Advance(poly, Xor(c, LittleEndian(p[0], p[1], p[2], p[3])), 32)
  {
    hide Xor, Widen, Advance, LittleEndian, ByteStep, ByteSteps, Contribution;
    var le := LittleEndian(p[0], p[1], p[2], p[3]);
    ByteStepsSuperpose(poly, c, p);
    AdvanceXor(poly, c, le, 32);
    WordContribution(poly, p[0], p[1], p[2], p[3], 0);
    LastFour(poly, p);
  }
}
