/** What the parts of SHA-1 compute, bit by bit and as numbers, and the digest that
    section 7.3 of RFC 3174 gives for "abc". */
module Sha1Laws {
  import opened Codec
  import opened Words
  import opened Sha1Spec

  // ------------------------------------------------------------ functions, section 5

  /** Each bit is chosen from c where b has a one, and from d where it has a zero. */
  lemma ChooseBits(b: bv32, c: bv32, d: bv32)
    ensures Choose(b, c, d) & b == c & b && Choose(b, c, d) & !b == d & !b
  {}

  /** Where two of the words agree, the majority is theirs. */
  lemma MajorityBits(b: bv32, c: bv32, d: bv32)
    ensures Majority(b, c, d) & !(b ^ c) == b & !(b ^ c)
    ensures Majority(b, c, d) & !(b ^ d) == b & !(b ^ d)
    ensures Majority(b, c, d) & !(c ^ d) == c & !(c ^ d)
  {}

  /** Where b and c agree, the parity is that of d, and elsewhere the opposite. */
  lemma ParityBits(b: bv32, c: bv32, d: bv32)
    ensures Parity(b, c, d) & !(b ^ c) == d & !(b ^ c)
    ensures Parity(b, c, d) & (b ^ c) == !d & (b ^ c)
  {}

  /** Rotations as numbers; arithmetic on words is modulo 2^32. */
  lemma Rotation1(x: bv32)
    ensures Rotl1(x) == x * 2 + x / 0x8000_0000
  {}

  lemma Rotation5(x: bv32)
    ensures Rotl5(x) == x * 0x20 + x / 0x0800_0000
  {}

  lemma Rotation30(x: bv32)
    ensures Rotl1(Rotl1(Rotl30(x))) == x
  {}

  /** The constants are the square roots of 2, 3, 5 and 10 with 30 binary places. */
  lemma ConstantsAreRoots(t: nat)
    requires t < 80
    ensures
      var k := K(t) as int;
      var n := if t < 20 then 2 else if t < 40 then 3 else if t < 60 then 5 else 10;
      k * k <= n * 0x1000_0000_0000_0000 < (k + 1) * (k + 1)
  {}

  /** The registers start with the bytes 0x01, 0x23 up to 0xEF, the same downwards, and
      0xF0 down to 0xC3, each word with its lowest byte first. */
  lemma InitialPattern()
    ensures WordBytes(INITIAL.a) == [0x67, 0x45, 0x23, 0x01] && WordBytes(INITIAL.b) == [0xEF, 0xCD, 0xAB, 0x89]
    ensures INITIAL.c == !INITIAL.a && INITIAL.d == !INITIAL.b
    ensures WordBytes(INITIAL.e) == [0xC3, 0xD2, 0xE1, 0xF0]
  {}

  // ------------------------------------------------------------------------- "abc"

  const ABC: seq<bv8> := [0x61, 0x62, 0x63]

  /** The padded message as words. */
  ghost predicate IsAbc(b: seq<bv8>) {
    && |b| == CHUNK && W(b, 0) == 0x61626380 && W(b, 15) == 0x18
    && forall t :: 1 <= t < 15 ==> W(b, t) == 0
  }

  lemma ScheduleRecurrence(b: seq<bv8>)
    requires |b| == CHUNK
    ensures forall t: nat {:trigger W(b, t)} :: t >= 16 ==>
      W(b, t) == Rotl1(Xor(Xor(Xor(W(b, t - 3), W(b, t - 8)), W(b, t - 14)), W(b, t - 16)))
  {}

  lemma RoundRecurrence(b: seq<bv8>, h: Registers)
    requires |b| == CHUNK
    ensures Rounds(b, h, 0) == h
    ensures forall n: nat {:trigger Rounds(b, h, n)} :: n > 0 ==>
      Rounds(b, h, n) == Round(n - 1, W(b, n - 1), Rounds(b, h, n - 1))
  {
    hide W;
  }

  lemma Words40(b: seq<bv8>)
    requires IsAbc(b)
    ensures W(b, 16) == 0xC2C4C700 && W(b, 17) == 0x00000000 && W(b, 18) == 0x00000030 && W(b, 19) == 0x85898E01
    ensures W(b, 20) == 0x00000000 && W(b, 21) == 0x00000060 && W(b, 22) == 0x0B131C03 && W(b, 23) == 0x00000030
    ensures W(b, 24) == 0x85898EC1 && W(b, 25) == 0x16263806 && W(b, 26) == 0x00000000 && W(b, 27) == 0x00000180
    ensures W(b, 28) == 0x2C4C700C && W(b, 29) == 0x000000F0 && W(b, 30) == 0x93AFB507 && W(b, 31) == 0x5898E048
    ensures W(b, 32) == 0x8E9A9202 && W(b, 33) == 0x00000600 && W(b, 34) == 0xB131C0F0 && W(b, 35) == 0x16263BC6
    ensures W(b, 36) == 0x4EBED41E && W(b, 37) == 0x626380A1 && W(b, 38) == 0x16263806 && W(b, 39) == 0x000018C0
  {
    ScheduleRecurrence(b);
    hide W;
  }

  lemma Words60(b: seq<bv8>)
    requires IsAbc(b)
    ensures W(b, 40) == 0xD2E138C4 && W(b, 41) == 0x00000F00 && W(b, 42) == 0x3AFB5079 && W(b, 43) == 0x898E04E5
    ensures W(b, 44) == 0xE2BA3C2B && W(b, 45) == 0x000060C0 && W(b, 46) == 0x053A37CD && W(b, 47) == 0x74458547
    ensures W(b, 48) == 0xDA9415ED && W(b, 49) == 0x26380A16 && W(b, 50) == 0x626383A1 && W(b, 51) == 0x4EBF54DE
    ensures W(b, 52) == 0x3835B44B && W(b, 53) == 0x0000F600 && W(b, 54) == 0x1E84C7A3 && W(b, 55) == 0x98E04D98
    ensures W(b, 56) == 0x651D16A0 && W(b, 57) == 0x62658CA1 && W(b, 58) == 0x458544D6 && W(b, 59) == 0x44584CB7
  {
    Words40(b);
    ScheduleRecurrence(b);
    hide W;
  }

  lemma Words80(b: seq<bv8>)
    requires IsAbc(b)
    ensures W(b, 60) == 0x7BA06619 && W(b, 61) == 0x6380AEA2 && W(b, 62) == 0x0AE55269 && W(b, 63) == 0x627B49A1
    ensures W(b, 64) == 0x7CD45C9D && W(b, 65) == 0x000F0000 && W(b, 66) == 0xFB50753A && W(b, 67) == 0xEC6765E8
    ensures W(b, 68) == 0xBA3C2BE2 && W(b, 69) == 0x0060C000 && W(b, 70) == 0x3A37CD05 && W(b, 71) == 0x458546F4
    ensures W(b, 72) == 0xB8599DD6 && W(b, 73) == 0x380A1A26 && W(b, 74) == 0x01E02203 && W(b, 75) == 0xE7CC3456
    ensures W(b, 76) == 0xE6E60B69 && W(b, 77) == 0x00F60A00 && W(b, 78) == 0x5795EF4F && W(b, 79) == 0x822E0879
  {
    Words60(b);
    ScheduleRecurrence(b);
    hide W;
  }

  lemma Rounds20(b: seq<bv8>)
    requires IsAbc(b)
    ensures Rounds(b, INITIAL, 20) ==
            Registers(0xFD9E1D7D, 0xDC64901D, 0x20AA99CA, 0xD3A49608, 0xC82F758B)
  {
    Words40(b);
    RoundRecurrence(b, INITIAL);
    hide W, Rounds;
  }

  lemma Rounds40(b: seq<bv8>)
    requires IsAbc(b)
    ensures Rounds(b, INITIAL, 40) ==
            Registers(0x32DE1CBA, 0x4C986405, 0xF718E5CF, 0x03D447F6, 0xF72EEC32)
  {
    Rounds20(b);
    Words40(b);
    RoundRecurrence(b, INITIAL);
    hide W, Rounds;
  }

  lemma Rounds60(b: seq<bv8>)
    requires IsAbc(b)
    ensures Rounds(b, INITIAL, 60) ==
            Registers(0x3F52DE5A, 0x09D785FD, 0x3498BFD4, 0xF211824F, 0xD79915AB)
  {
    Rounds40(b);
    Words60(b);
    RoundRecurrence(b, INITIAL);
    hide W, Rounds;
  }

  lemma Rounds80(b: seq<bv8>)
    requires IsAbc(b)
    ensures Rounds(b, INITIAL, 80) ==
            Registers(0x42541B35, 0x5738D5E1, 0x21834873, 0x681E6DF6, 0xD8FDF6AD)
  {
    Rounds60(b);
    Words80(b);
    RoundRecurrence(b, INITIAL);
    hide W, Rounds;
  }

  lemma PaddingOfAbc()
    ensures Padding(3) == [0x80] + Zeros(52) + [0, 0, 0, 0, 0, 0, 0, 24]
  {
    LengthBytes();
    hide BigEndian;
    assert ZeroCount(3) == 52 && 8 * 3 % POW64 == 24;
  }

  lemma AbcPadded(b: seq<bv8>)
    requires b == ABC + Padding(3)
    ensures |b| == CHUNK && IsAbc(b)
  {
    PaddingOfAbc();
    hide W, Padding, BytesWord;
    assert |b| == CHUNK && b[0..4] == [0x61, 0x62, 0x63, 0x80] && b[60..64] == [0, 0, 0, 24];
    assert forall i :: 4 <= i < 60 ==> b[i] == 0;
    Joined();
    FirstWord(b, 0);
    FirstWord(b, 15);
    forall t: nat | 1 <= t < 15
      ensures W(b, t) == 0
    {
      ZeroWord(b, t);
    }
  }

  lemma ZeroWord(b: seq<bv8>, t: nat)
    requires |b| == CHUNK && 1 <= t < 15 && forall i :: 4 <= i < 60 ==> b[i] == 0
    ensures W(b, t) == 0
  {
    FirstWord(b, t);
    Joined();
    hide W, BytesWord;
    assert b[4 * t..4 * t + 4] == [0, 0, 0, 0];
  }

  lemma FirstWord(b: seq<bv8>, t: nat)
    requires |b| == CHUNK && t < 16
    ensures W(b, t) == BytesWord(b[4 * t..4 * t + 4])
  {}

  lemma Joined()
    ensures BytesWord([0, 0, 0, 0]) == 0 && BytesWord([0, 0, 0, 24]) == 0x18
    ensures BytesWord([0x61, 0x62, 0x63, 0x80]) == 0x61626380
  {}

  lemma LengthBytes()
    ensures BigEndian(24, 8) == [0, 0, 0, 0, 0, 0, 0, 24]
  {
    hide ToByte;
    ZeroBytes(7);
    assert BigEndian(24, 8) == BigEndian(0, 7) + [ToByte(24)];
    SmallBytes();
  }

  lemma SmallBytes()
    ensures ToByte(24) == 24 && ToByte(0) == 0
  {}

  lemma {:induction false} ZeroBytes(n: nat)
    ensures BigEndian(0, n) == Zeros(n)
  {
    hide ToByte;
    SmallBytes();
    if n > 0 {
      ZeroBytes(n - 1);
      assert Zeros(n) == Zeros(n - 1) + [0];
    }
  }

  lemma AbcCompressed(b: seq<bv8>)
    requires IsAbc(b)
    ensures Compress(INITIAL, b) == Registers(0xA9993E36, 0x4706816A, 0xBA3E2571, 0x7850C26C, 0x9CD0D89D)
  {
    Rounds80(b);
    hide Rounds, IsAbc;
  }

  lemma OneChunk(h: Registers, b: seq<bv8>)
    requires |b| == CHUNK
    ensures CompressAll(h, b) == Compress(h, b)
  {
    hide Compress;
    assert b[..CHUNK] == b && b[CHUNK..] == [];
    assert CompressAll(Compress(h, b), []) == Compress(h, b);
  }

  lemma OneChunkDigest(m: seq<bv8>)
    requires |m + Padding(|m|)| == CHUNK
    ensures Sha1(m) == DigestBytes(Compress(INITIAL, m + Padding(|m|)))
  {
    OneChunk(INITIAL, m + Padding(|m|));
    hide Padding, CompressAll, Compress, DigestBytes;
  }

  lemma BytesOfAbc(h: Registers)
    requires h == Registers(0xA9993E36, 0x4706816A, 0xBA3E2571, 0x7850C26C, 0x9CD0D89D)
    ensures DigestBytes(h) ==
      [0xA9, 0x99, 0x3E, 0x36] + [0x47, 0x06, 0x81, 0x6A] + [0xBA, 0x3E, 0x25, 0x71]
      + [0x78, 0x50, 0xC2, 0x6C] + [0x9C, 0xD0, 0xD8, 0x9D]
  {
    assert WordBytes(h.a) == [0xA9, 0x99, 0x3E, 0x36];
    assert WordBytes(h.b) == [0x47, 0x06, 0x81, 0x6A];
    assert WordBytes(h.c) == [0xBA, 0x3E, 0x25, 0x71];
    assert WordBytes(h.d) == [0x78, 0x50, 0xC2, 0x6C];
    assert WordBytes(h.e) == [0x9C, 0xD0, 0xD8, 0x9D];
  }

  /** The digest of section 7.3 of RFC 3174. */
  lemma DigestOfAbc()
    ensures Sha1(ABC) ==
      [0xA9, 0x99, 0x3E, 0x36] + [0x47, 0x06, 0x81, 0x6A] + [0xBA, 0x3E, 0x25, 0x71]
      + [0x78, 0x50, 0xC2, 0x6C] + [0x9C, 0xD0, 0xD8, 0x9D]
  {
    assert |ABC| == 3;
    hide *;
    var b := ABC + Padding(3);
    AbcPadded(b);
    AbcCompressed(b);
    OneChunkDigest(ABC);
    BytesOfAbc(Compress(INITIAL, b));
  }
}
