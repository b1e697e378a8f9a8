/** SHA-1 as RFC 3174 defines it: padding (section 4), functions and constants
    (section 5), and the digest by the 80-word schedule (section 6.1). */
module Sha1Spec {
  import opened Codec
  import opened Words

  const CHUNK := 64

  function Add(a: bv32, b: bv32): bv32 { a + b }

  function Rotl1(x: bv32): bv32 { (x << 1) | (x >> 31) }
  function Rotl5(x: bv32): bv32 { (x << 5) | (x >> 27) }
  function Rotl30(x: bv32): bv32 { (x << 30) | (x >> 2) }

  function Choose(b: bv32, c: bv32, d: bv32): bv32 { (b & c) | (!b & d) }
  function Parity(b: bv32, c: bv32, d: bv32): bv32 { b ^ c ^ d }
  function Majority(b: bv32, c: bv32, d: bv32): bv32 { (b & c) | (b & d) | (c & d) }

  function F(t: nat, b: bv32, c: bv32, d: bv32): bv32 {
    if t < 20 then Choose(b, c, d)
    else if t < 40 then Parity(b, c, d)
    else if t < 60 then Majority(b, c, d)
    else Parity(b, c, d)
  }

  function K(t: nat): bv32 {
    if t < 20 then 0x5A827999
    else if t < 40 then 0x6ED9EBA1
    else if t < 60 then 0x8F1BBCDC
    else 0xCA62C1D6
  }

  datatype Registers = Registers(a: bv32, b: bv32, c: bv32, d: bv32, e: bv32)

  const INITIAL := Registers(0x67452301, 0xEFCDAB89, 0x98BADCFE, 0x10325476, 0xC3D2E1F0)

  /** Word t of the 80-word message schedule. */
  function W(chunk: seq<bv8>, t: nat): bv32
    requires |chunk| == CHUNK
  {
    if t < 16 then BytesWord(chunk[4 * t..4 * t + 4])
    else Rotl1(Xor(Xor(Xor(W(chunk, t - 3), W(chunk, t - 8)), W(chunk, t - 14)), W(chunk, t - 16)))
  }

  function Round(t: nat, w: bv32, r: Registers): Registers {
    Registers(Add(Add(Add(Add(Rotl5(r.a), F(t, r.b, r.c, r.d)), r.e), w), K(t)), r.a, Rotl30(r.b), r.c, r.d)
  }

  /** The registers after the first n rounds. */
  function Rounds(chunk: seq<bv8>, r: Registers, n: nat): Registers
    requires |chunk| == CHUNK
  {
    if n == 0 then r else Round(n - 1, W(chunk, n - 1), Rounds(chunk, r, n - 1))
  }

  function Compress(h: Registers, chunk: seq<bv8>): Registers
    requires |chunk| == CHUNK
  {
    var r := Rounds(chunk, h, 80);
    Registers(Add(h.a, r.a), Add(h.b, r.b), Add(h.c, r.c), Add(h.d, r.d), Add(h.e, r.e))
  }

  function CompressAll(h: Registers, p: seq<bv8>): Registers
    requires |p| % CHUNK == 0
    decreases |p|
  {
    if p == [] then h else CompressAll(Compress(h, p[..CHUNK]), p[CHUNK..])
  }

  const POW64 := 0x1_0000_0000_0000_0000

  function Zeros(n: nat): (z: seq<bv8>)
    ensures |z| == n
  {
    seq(n, _ => 0)
  }

  /** The least number of zero bytes that brings the message and its marker byte to
      56 modulo 64. */
  function ZeroCount(length: nat): nat {
    (119 - length % 64) % 64
  }

  /** Section 4: a one bit, zero bits up to 448 modulo 512, and the length in bits as
      two words. The length of a longer message is taken modulo 2^64. */
  function Padding(length: nat): (s: seq<bv8>)
    ensures (length + |s|) % CHUNK == 0
  {
    PaddingFills(length);
    [0x80] + Zeros(ZeroCount(length)) + BigEndian(8 * length % POW64, 8)
  }

  lemma PaddingFills(length: nat)
    ensures (length + 1 + ZeroCount(length)) % 64 == 56
    ensures (length + (1 + ZeroCount(length) + 8)) % 64 == 0
  {
    var q, r := length / 64, length % 64;
    assert length == 64 * q + r;
    if r <= 55 {
      assert ZeroCount(length) == 55 - r;
      assert length + 1 + ZeroCount(length) == 64 * q + 56;
    } else {
      assert ZeroCount(length) == 119 - r;
      assert length + 1 + ZeroCount(length) == 64 * (q + 1) + 56;
    }
  }

  function DigestBytes(h: Registers): (s: seq<bv8>)
    ensures |s| == 20
  {
    WordBytes(h.a) + WordBytes(h.b) + WordBytes(h.c) + WordBytes(h.d) + WordBytes(h.e)
  }

  function Sha1(m: seq<bv8>): seq<bv8> {
    DigestBytes(CompressAll(INITIAL, m + Padding(|m|)))
  }

  lemma {:induction false} CompressAllConcat(h: Registers, p: seq<bv8>, q: seq<bv8>)
    requires |p| % CHUNK == 0 && |q| % CHUNK == 0
    ensures |p + q| % CHUNK == 0
    ensures CompressAll(h, p + q) == CompressAll(CompressAll(h, p), q)
    decreases |p|
  {
    hide Compress;
    if p == [] {
      assert p + q == q;
    } else {
      assert (p + q)[..CHUNK] == p[..CHUNK];
      assert (p + q)[CHUNK..] == p[CHUNK..] + q;
      CompressAllConcat(Compress(h, p[..CHUNK]), p[CHUNK..], q);
    }
  }
}
