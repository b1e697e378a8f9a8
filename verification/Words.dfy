/** Exclusive-or on 32-bit words as a named function, so that proofs can use its
    laws instead of its bits, and bytes as table indices. */
module Words {
  function Xor(a: bv32, b: bv32): bv32 { a ^ b }

  lemma XorComm(a: bv32, b: bv32)
    ensures Xor(a, b) == Xor(b, a)
  {}

  lemma XorAssocBits(a: bv32, b: bv32, c: bv32)
    ensures (a ^ b) ^ c == a ^ (b ^ c)
  {}

  lemma XorAssoc(a: bv32, b: bv32, c: bv32)
    ensures Xor(Xor(a, b), c) == Xor(a, Xor(b, c))
  {
    XorAssocBits(a, b, c);
  }

  lemma XorSelf(a: bv32)
    ensures Xor(a, a) == 0
  {}

  lemma XorZero(a: bv32)
    ensures Xor(a, 0) == a
  {}

  /** The middle-four exchange law. */
  lemma XorSwap(a: bv32, b: bv32, c: bv32, d: bv32)
    ensures Xor(Xor(a, b), Xor(c, d)) == Xor(Xor(a, c), Xor(b, d))
  {
    hide *;
    XorAssoc(a, b, Xor(c, d));
    XorAssoc(b, c, d);
    XorComm(b, c);
    XorAssoc(c, b, d);
    XorAssoc(a, c, Xor(b, d));
  }

  lemma XorCancel(a: bv32, b: bv32, p: bv32)
    ensures Xor(Xor(a, p), Xor(b, p)) == Xor(a, b)
  {
    hide *;
    XorSwap(a, p, b, p);
    XorSelf(p);
    XorZero(Xor(a, b));
  }

  /** A byte as the low byte of a word. */
  function Widen(b: bv8): bv32 { b as bv32 }

  function LowByte(w: bv32): bv8 { (w & 0xFF) as bv8 }

  /** The number a byte stands for; also its index in a table of 256 entries. */
  function Value(b: bv8): (n: int)
    ensures 0 <= n < 256
  {
    b as int
  }

  function ToByte(n: int): bv8
    requires 0 <= n < 256
  {
    n as bv8
  }

  lemma ConvertModulo(n: int)
    requires 0 <= n < 256
    ensures ((n as bv8) as int) % 256 == n % 256
  {}

  lemma ValueModulo(n: int)
    requires 0 <= n < 256
    ensures Value(ToByte(n)) % 256 == n % 256
  {
    ConvertModulo(n);
  }

  lemma ValueOfByte(n: int)
    requires 0 <= n < 256
    ensures Value(ToByte(n)) == n
  {
    hide Value, ToByte;
    ValueModulo(n);
  }

  lemma ByteOfValue(b: bv8)
    ensures ToByte(Value(b)) == b
  {}

  lemma WidenByte(n: int)
    requires 0 <= n < 256
    ensures Widen(ToByte(n)) == n as bv32
  {}

  /** Byte k of a word, counted from the lowest. */
  function WordByte(w: bv32, k: nat): bv8
    requires k < 4
  {
    if k == 0 then LowByte(w)
    else if k == 1 then LowByte(w >> 8)
    else if k == 2 then LowByte(w >> 16)
    else LowByte(w >> 24)
  }
}
