/** The offset file beside an unfinished upload (fileinfo.go): how many bytes are
    known to be stored, and both checksums of exactly those bytes. */
module FileInfo {
  import opened Codec
  import Sha1Spec
  import opened Sha1State
  import opened Crc32Spec
  import opened Marshal
  import Crc32
  import opened Words
  import Crc32Laws
  import Sha1Laws

  datatype Digest = Digest(sha1: State, crc: bv32)

  const NEW_DIGEST := Digest(FRESH, 0)

  /** Both partial checksums have consumed exactly m. */
  ghost predicate IsDigestOf(d: Digest, m: seq<bv8>) {
    Absorbed(d.sha1, m) && d.crc == Crc(Crc32.IEEE, 0, m)
  }

  /** Copying the bytes p: if there are none, nothing is written. */
  function Extend(d: Digest, p: seq<bv8>): (d': Digest)
    requires d.sha1.Typed() && (p == [] || d.sha1.Writable())
    ensures d'.sha1.Typed() && (d.sha1.Writable() ==> d'.sha1.Writable())
  {
    if p == [] then d else Digest(Update(d.sha1, p), Crc(Crc32.IEEE, d.crc, p))
  }

  /** The two checksums as a response carries them. */
  datatype Checksums = Checksums(sha1: string, crc32: string)

  function Sums(d: Digest): Checksums
    requires d.sha1.Writable()
  {
    Checksums(HexEncode(SumOf(d.sha1)), HexEncode(WordBytes(d.crc)))
  }

  /** The checksums of a whole message. */
  function ChecksumsOf(m: seq<bv8>): Checksums {
    Checksums(HexEncode(Sha1Spec.Sha1(m)), HexEncode(WordBytes(Crc(Crc32.IEEE, 0, m))))
  }

  lemma AbcTextFront()
    ensures HexEncode([0xA9, 0x99, 0x3E, 0x36]) == "a9993e36" && HexEncode([0x47, 0x06, 0x81, 0x6A]) == "4706816a"
  {
    HexFour(0xA9, 0x99, 0x3E, 0x36);
    HexFour(0x47, 0x06, 0x81, 0x6A);
    hide HexEncode;
  }

  lemma AbcTextBack()
    ensures HexEncode([0xBA, 0x3E, 0x25, 0x71]) == "ba3e2571" && HexEncode([0x78, 0x50, 0xC2, 0x6C]) == "7850c26c"
    ensures HexEncode([0x9C, 0xD0, 0xD8, 0x9D]) == "9cd0d89d"
  {
    HexFour(0xBA, 0x3E, 0x25, 0x71);
    HexFour(0x78, 0x50, 0xC2, 0x6C);
    HexFour(0x9C, 0xD0, 0xD8, 0x9D);
    hide HexEncode;
  }

  lemma HexFive(a: seq<bv8>, b: seq<bv8>, c: seq<bv8>, d: seq<bv8>, e: seq<bv8>)
    ensures HexEncode(a + b + c + d + e) == HexEncode(a) + HexEncode(b) + HexEncode(c) + HexEncode(d) + HexEncode(e)
  {
    HexConcat(a, b);
    HexConcat(a + b, c);
    HexConcat(a + b + c, d);
    HexConcat(a + b + c + d, e);
  }

  lemma AbcText(d: seq<bv8>)
    requires
      d ==
        [0xA9, 0x99, 0x3E, 0x36] + [0x47, 0x06, 0x81, 0x6A] + [0xBA, 0x3E, 0x25, 0x71]
        + [0x78, 0x50, 0xC2, 0x6C] + [0x9C, 0xD0, 0xD8, 0x9D]
    ensures HexEncode(d) == "a9993e364706816aba3e25717850c26c9cd0d89d"
  {
    hide HexEncode;
    AbcTextFront();
    AbcTextBack();
    HexFive([0xA9, 0x99, 0x3E, 0x36], [0x47, 0x06, 0x81, 0x6A], [0xBA, 0x3E, 0x25, 0x71],
            [0x78, 0x50, 0xC2, 0x6C], [0x9C, 0xD0, 0xD8, 0x9D]);
  }

  lemma CheckText()
    ensures HexEncode(WordBytes(0xCBF43926)) == "cbf43926"
  {
    assert WordBytes(0xCBF43926) == [0xCB, 0xF4, 0x39, 0x26];
    HexFour(0xCB, 0xF4, 0x39, 0x26);
    hide HexEncode;
  }

  /** The texts of two well-known checksums. */
  lemma KnownTexts()
    ensures ChecksumsOf(Sha1Laws.ABC).sha1 == "a9993e364706816aba3e25717850c26c9cd0d89d"
    ensures ChecksumsOf(Crc32Laws.DIGITS).crc32 == "cbf43926"
    ensures EncodeCrc(CrcState(0xCBF43926, Crc32.IEEE)) == "cbf43926"
  {
    hide Sha1Spec.Sha1, Crc, HexEncode, WordBytes;
    Sha1Laws.DigestOfAbc();
    AbcText(Sha1Spec.Sha1(Sha1Laws.ABC));
    Crc32Laws.CheckValue();
    CheckText();
  }

  lemma NewDigestIsDigest()
    ensures IsDigestOf(NEW_DIGEST, [])
  {
    hide Crc;
    FreshAbsorbed();
    CrcNothing(Crc32.IEEE, 0);
  }

  lemma ExtendIsDigest(d: Digest, m: seq<bv8>, p: seq<bv8>)
    requires IsDigestOf(d, m)
    ensures d.sha1.Writable() && IsDigestOf(Extend(d, p), m + p)
  {
    hide Crc, Update, Sha1Spec.CompressAll;
    AbsorbedTyped(d.sha1, m);
    assert p == [] ==> m + p == m;
    UpdateAbsorbs(d.sha1, m, p);
    CrcConcat(Crc32.IEEE, 0, m, p);
  }

  /** A digest knows how much it has absorbed. */
  lemma OneLength(d: Digest, m: seq<bv8>, n: seq<bv8>)
    requires IsDigestOf(d, m) && IsDigestOf(d, n)
    ensures |m| % Sha1Spec.POW64 == |n| % Sha1Spec.POW64
    ensures |m| <= |n| < |m| + Sha1Spec.POW64 ==> |m| == |n|
  {
    hide Crc, Sha1Spec.CompressAll;
    if |m| <= |n| < |m| + Sha1Spec.POW64 {
      SameResidue(|m|, |n|, Sha1Spec.POW64);
    }
  }

  lemma SameResidue(a: nat, b: nat, d: nat)
    requires d > 0 && a % d == b % d && a <= b < a + d
    ensures a == b
  {
    var k := b / d - a / d;
    assert b - a == d * k;
    assert k > 0 ==> d * k >= d;
    assert k < 0 ==> d * k < 0;
  }

  lemma SumsAreChecksums(d: Digest, m: seq<bv8>)
    requires IsDigestOf(d, m)
    ensures Finishable(d.sha1) && Sums(d) == ChecksumsOf(m)
  {
    hide Crc, SumOf, Sha1Spec.CompressAll;
    AbsorbedFinishable(d.sha1, m);
    SumIsSha1(d.sha1, m);
  }

  // ------------------------------------------------------------ the offset file

  datatype Info = Info(offset: int, digest: Digest)

  const NEW_INFO := Info(0, NEW_DIGEST)

  /** The three JSON fields. */
  datatype InfoText = InfoText(offset: int, sha1: string, crc32: string)

  function Written(fi: Info): InfoText
    requires fi.digest.sha1.Typed()
  {
    InfoText(fi.offset, Encode(fi.digest.sha1), EncodeCrc(CrcState(fi.digest.crc, Crc32.IEEE)))
  }

  /** The fields as the JSON decoder reads them; None is a decoding error. The digest need
      not be one that a message leads to. */
  function Parsed(t: InfoText): (r: Option<Info>)
    ensures r.Some? ==> r.value.digest.sha1.Typed()
  {
    EncodeDecode(t.sha1);
    match (Decode(t.sha1), DecodeCrc(t.crc32))
    case (Some(s), Some(c)) => Some(Info(t.offset, Digest(s, c.crc)))
    case _ => None
  }

  lemma ParsedWritten(fi: Info)
    requires fi.digest.sha1.Typed()
    ensures Parsed(Written(fi)) == Some(fi)
  {
    hide Encode, Decode, EncodeCrc, DecodeCrc;
    DecodeEncode(fi.digest.sha1);
    DecodeEncodeCrc(CrcState(fi.digest.crc, Crc32.IEEE));
  }
}
