/** CRC-32 as division of the message by a polynomial, one message bit at a time
    (the appendix in section 8 of RFC 1952), and the laws of that division from
    which the table-driven forms follow. */
module Crc32Spec {
  import opened Words

  predicate Odd(c: bv32) { c & 1 == 1 }
  function Half(c: bv32): bv32 { c >> 1 }

  /** Multiplies the remainder by x. The coefficient of the highest power is bit 0,
      so the register shifts right and the polynomial is subtracted when a term
      falls out. */
  function ShiftBit(poly: bv32, c: bv32): bv32 {
    if Odd(c) then Xor(Half(c), poly) else Half(c)
  }

  function Advance(poly: bv32, c: bv32, n: nat): bv32
    decreases n
  {
    if n == 0 then c else Advance(poly, ShiftBit(poly, c), n - 1)
  }

  function BitWord(bit: bool): bv32 { if bit then 1 else 0 }

  /** Divides a sequence of message bits, first bit first. */
  function DivideBits(poly: bv32, c: bv32, bits: seq<bool>): bv32
    decreases |bits|
  {
    if bits == [] then c else DivideBits(poly, ShiftBit(poly, Xor(c, BitWord(bits[0]))), bits[1..])
  }

  /** The n low bits of a word, least significant first: the order in which the
      bits of a byte are sent. */
  function LowBits(w: bv32, n: nat): seq<bool>
    decreases n
  {
    if n == 0 then [] else [Odd(w)] + LowBits(Half(w), n - 1)
  }

  function MessageBits(p: seq<bv8>): seq<bool> {
    if p == [] then [] else LowBits(Widen(p[0]), 8) + MessageBits(p[1..])
  }

  function Not(c: bv32): bv32 { !c }

  /** The CRC register after the message p: complement, divide, complement. */
  function Crc(poly: bv32, crc: bv32, p: seq<bv8>): bv32 {
    Not(DivideBits(poly, Not(crc), MessageBits(p)))
  }

  // ---------------------------------------------------------------- linearity

  lemma {:induction false} AdvanceSum(poly: bv32, c: bv32, m: nat, n: nat)
    ensures Advance(poly, c, m + n) == Advance(poly, Advance(poly, c, m), n)
    decreases m
  {
    hide Xor, ShiftBit;
    if m > 0 {
      AdvanceSum(poly, ShiftBit(poly, c), m - 1, n);
    }
  }

  lemma OddXor(a: bv32, b: bv32)
    ensures Odd(Xor(a, b)) <==> Odd(a) != Odd(b)
  {}

  lemma HalfXorBits(a: bv32, b: bv32)
    ensures (a ^ b) >> 1 == (a >> 1) ^ (b >> 1)
  {}

  lemma HalfXor(a: bv32, b: bv32)
    ensures Half(Xor(a, b)) == Xor(Half(a), Half(b))
  {
    HalfXorBits(a, b);
  }

  lemma ShiftBitXor(poly: bv32, a: bv32, b: bv32)
    ensures ShiftBit(poly, Xor(a, b)) == Xor(ShiftBit(poly, a), ShiftBit(poly, b))
  {
    hide Xor, Odd, Half;
    var x, y := Half(a), Half(b);
    OddXor(a, b);
    HalfXor(a, b);
    XorCancel(x, y, poly);
    XorAssoc(x, y, poly);
    XorComm(y, poly);
    XorAssoc(x, poly, y);
  }

  /** The register is linear in its start value. */
  lemma {:induction false} AdvanceXor(poly: bv32, a: bv32, b: bv32, n: nat)
    ensures Advance(poly, Xor(a, b), n) == Xor(Advance(poly, a, n), Advance(poly, b, n))
    decreases n
  {
    hide Xor, ShiftBit;
    if n > 0 {
      ShiftBitXor(poly, a, b);
      AdvanceXor(poly, ShiftBit(poly, a), ShiftBit(poly, b), n - 1);
    }
  }

  // ---------------------------------------------------------------- one byte

  /** Divides the eight bits of one message byte at once. */
  function ByteStep(poly: bv32, c: bv32, b: bv8): bv32 {
    Advance(poly, Xor(c, Widen(b)), 8)
  }

  /** No bit of w is set at position n or above. */
  predicate Fits(w: bv32, n: nat)
    decreases n
  {
    if n == 0 then w == 0 else Fits(Half(w), n - 1)
  }

  lemma FitsByteBits(b: bv8)
    ensures (b as bv32) >> 8 == 0
  {}

  lemma HalfEight(w: bv32)
    ensures Half(Half(Half(Half(Half(Half(Half(Half(w)))))))) == w >> 8
  {}

  lemma FitsByte(b: bv8)
    ensures Fits(Widen(b), 8)
  {
    hide Half;
    var w := Widen(b);
    FitsByteBits(b);
    HalfEight(w);
    calc {
      Fits(w, 8);
      Fits(Half(w), 7);
      Fits(Half(Half(w)), 6);
      Fits(Half(Half(Half(w))), 5);
      Fits(Half(Half(Half(Half(w)))), 4);
      Fits(Half(Half(Half(Half(Half(w))))), 3);
      Fits(Half(Half(Half(Half(Half(Half(w)))))), 2);
      Fits(Half(Half(Half(Half(Half(Half(Half(w))))))), 1);
      Fits(Half(Half(Half(Half(Half(Half(Half(Half(w)))))))), 0);
    }
  }

  lemma SplitLowBit(w: bv32) returns (even: bv32)
    ensures w == Xor(BitWord(Odd(w)), even) && !Odd(even) && Half(even) == Half(w)
  {
    even := w & 0xFFFF_FFFE;
  }

  /** One message bit takes its part of the word and leaves the rest for the next. */
  lemma ShiftBitSplit(poly: bv32, c: bv32, w: bv32)
    ensures ShiftBit(poly, Xor(c, w)) == Xor(ShiftBit(poly, Xor(c, BitWord(Odd(w)))), Half(w))
  {
    hide Xor, Odd, Half, BitWord;
    var even := SplitLowBit(w);
    XorAssoc(c, BitWord(Odd(w)), even);
    ShiftBitXor(poly, Xor(c, BitWord(Odd(w))), even);
  }

  /** Adding n message bits at once and then shifting n times is dividing them one
      by one. */
  lemma {:induction false} AdvanceIsDivide(poly: bv32, c: bv32, w: bv32, n: nat)
    requires Fits(w, n)
    ensures Advance(poly, Xor(c, w), n) == DivideBits(poly, c, LowBits(w, n))
    decreases n
  {
    hide Xor, Odd, Half, BitWord, ShiftBit;
    if n == 0 {
      XorZero(c);
    } else {
      var bits := LowBits(w, n);
      assert bits[0] == Odd(w) && bits[1..] == LowBits(Half(w), n - 1);
      ShiftBitSplit(poly, c, w);
      AdvanceIsDivide(poly, ShiftBit(poly, Xor(c, BitWord(Odd(w)))), Half(w), n - 1);
    }
  }

  lemma {:induction false} DivideBitsConcat(poly: bv32, c: bv32, a: seq<bool>, b: seq<bool>)
    ensures DivideBits(poly, c, a + b) == DivideBits(poly, DivideBits(poly, c, a), b)
    decreases |a|
  {
    hide Xor, BitWord, ShiftBit;
    if a == [] {
      assert a + b == b;
    } else {
      assert (a + b)[1..] == a[1..] + b;
      DivideBitsConcat(poly, ShiftBit(poly, Xor(c, BitWord(a[0]))), a[1..], b);
    }
  }

  /** The register after the bytes p, eight bits at a time. */
  function ByteSteps(poly: bv32, c: bv32, p: seq<bv8>): bv32
    decreases |p|
  {
    if p == [] then c else ByteSteps(poly, ByteStep(poly, c, p[0]), p[1..])
  }

  lemma {:induction false} ByteStepsIsDivide(poly: bv32, c: bv32, p: seq<bv8>)
    ensures ByteSteps(poly, c, p) == DivideBits(poly, c, MessageBits(p))
    decreases |p|
  {
    hide Xor, ShiftBit, LowBits, Widen, Fits, DivideBits, Advance;
    if p == [] {
      assert DivideBits(poly, c, []) == c by { DivideNothing(poly, c); }
    } else {
      var bits := LowBits(Widen(p[0]), 8);
      FitsByte(p[0]);
      AdvanceIsDivide(poly, c, Widen(p[0]), 8);
      ByteStepsIsDivide(poly, DivideBits(poly, c, bits), p[1..]);
      DivideBitsConcat(poly, c, bits, MessageBits(p[1..]));
    }
  }

  lemma DivideNothing(poly: bv32, c: bv32)
    ensures DivideBits(poly, c, []) == c
  {}

  lemma {:induction false} ByteStepsConcat(poly: bv32, c: bv32, p: seq<bv8>, q: seq<bv8>)
    ensures ByteSteps(poly, c, p + q) == ByteSteps(poly, ByteSteps(poly, c, p), q)
    decreases |p|
  {
    hide ByteStep;
    if p == [] {
      assert p + q == q;
    } else {
      assert (p + q)[1..] == p[1..] + q;
      ByteStepsConcat(poly, ByteStep(poly, c, p[0]), p[1..], q);
    }
  }

  lemma NotNot(c: bv32)
    ensures Not(Not(c)) == c
  {}

  /** The register of a whole message, computed byte by byte. */
  lemma CrcBytewise(poly: bv32, crc: bv32, p: seq<bv8>)
    ensures Crc(poly, crc, p) == Not(ByteSteps(poly, Not(crc), p))
  {
    hide Not, ByteSteps, DivideBits, MessageBits;
    ByteStepsIsDivide(poly, Not(crc), p);
  }

  /** Streaming: the register after two pieces is the register after their
      concatenation. */
  lemma CrcConcat(poly: bv32, crc: bv32, p: seq<bv8>, q: seq<bv8>)
    ensures Crc(poly, Crc(poly, crc, p), q) == Crc(poly, crc, p + q)
  {
    hide Not, ByteSteps, Crc;
    var mid := ByteSteps(poly, Not(crc), p);
    CrcBytewise(poly, crc, p);
    CrcBytewise(poly, Crc(poly, crc, p), q);
    CrcBytewise(poly, crc, p + q);
    ByteStepsConcat(poly, Not(crc), p, q);
    NotNot(mid);
  }

  lemma CrcNothing(poly: bv32, crc: bv32)
    ensures Crc(poly, crc, []) == crc
  {
    hide Not, DivideBits;
    DivideNothing(poly, Not(crc));
    NotNot(crc);
  }
}
