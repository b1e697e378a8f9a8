/** Partial digests as text (sha1_efes.go, crc32_efes.go): what is written is read
    back, and a checksum may be suspended and resumed at any byte. */
module Marshal {
  import opened Codec
  import opened Words
  import opened Sha1Spec
  import opened Sha1State
  import opened Sha1
  import opened Crc32Spec
  import Crc32Tables
  import opened Crc32

  const SHA1_DIGEST_SIZE := 100
  const CRC32_DIGEST_SIZE := 4

  // ------------------------------------------------------------------- SHA-1

  /** int64 as the uint64 with the same bits, and back. */
  function Unsigned(n: int): nat
    requires -POW63 <= n < POW63
  {
    if n < 0 then n + POW64 else n
  }

  function Signed(n: nat): int {
    if n < POW63 then n else n - POW64
  }

  function StateBytes(s: State): (b: seq<bv8>)
    requires s.Typed()
    ensures |b| == SHA1_DIGEST_SIZE
  {
    DigestBytes(s.h) + s.x + BigEndian(Unsigned(s.nx), 8) + BigEndian(s.len, 8)
  }

  function BytesState(b: seq<bv8>): State
    requires |b| == SHA1_DIGEST_SIZE
  {
    State(
      Registers(BytesWord(b[0..4]), BytesWord(b[4..8]), BytesWord(b[8..12]),
                BytesWord(b[12..16]), BytesWord(b[16..20])),
      b[20..84],
      Signed(FromBigEndian(b[84..92])),
      FromBigEndian(b[92..100]))
  }

  function Encode(s: State): string
    requires s.Typed()
  {
    HexEncode(StateBytes(s))
  }

  function Decode(text: string): Option<State> {
    if |text| != 2 * SHA1_DIGEST_SIZE then None
    else
      match HexDecode(text)
      case Some(b) => if |b| == SHA1_DIGEST_SIZE then Some(BytesState(b)) else None
      case None => None
  }

  lemma Pow256Eight()
    ensures Pow256(8) == POW64
  {
    assert Pow256(4) == 0x1_0000_0000;
    assert Pow256(8) == 256 * (256 * (256 * (256 * Pow256(4))));
  }

  lemma StateRoundTrip(s: State)
    requires s.Typed()
    ensures BytesState(StateBytes(s)) == s
  {
    FieldBytes(s);
    hide WordBytes, BytesWord, BigEndian, FromBigEndian, StateBytes;
    WordRoundTrip(s.h.a);
    WordRoundTrip(s.h.b);
    WordRoundTrip(s.h.c);
    WordRoundTrip(s.h.d);
    WordRoundTrip(s.h.e);
    Pow256Eight();
    BigEndianRoundTrip(Unsigned(s.nx), 8);
    BigEndianRoundTrip(s.len, 8);
  }

  /** Reading what was written restores every field. */
  lemma DecodeEncode(s: State)
    requires s.Typed()
    ensures Decode(Encode(s)) == Some(s)
  {
    hide StateBytes, BytesState;
    HexRoundTrip(StateBytes(s));
    StateRoundTrip(s);
  }

  /** Where each field stands in the text, two digits for a byte: five words, the buffer, and
      the position and the length as 64 bits, the position in two's complement. */
  lemma TextLayout(s: State)
    requires s.Typed()
    ensures |Encode(s)| == 200 && HexDecode(Encode(s)).Some? && |HexDecode(Encode(s)).value| == 100
    ensures
      var b := HexDecode(Encode(s)).value;
      && b[0..4] == WordBytes(s.h.a) && b[4..8] == WordBytes(s.h.b) && b[8..12] == WordBytes(s.h.c)
      && b[12..16] == WordBytes(s.h.d) && b[16..20] == WordBytes(s.h.e)
      && b[20..84] == s.x && b[84..92] == BigEndian(s.nx % POW64, 8) && b[92..100] == BigEndian(s.len, 8)
    ensures forall i :: 0 <= i < 100 ==> Encode(s)[2 * i..2 * i + 2] == HexByte(HexDecode(Encode(s)).value[i])
  {
    var b := StateBytes(s);
    HexRoundTrip(b);
    FieldBytes(s);
    UnsignedModulo(s.nx);
    hide StateBytes, HexEncode, HexDecode, WordBytes, BigEndian, HexByte, Unsigned;
    forall i | 0 <= i < 100
      ensures HexEncode(b)[2 * i..2 * i + 2] == HexByte(b[i])
    {
      HexAt(b, i);
    }
  }

  lemma FieldBytes(s: State)
    requires s.Typed()
    ensures
      var b := StateBytes(s);
      && b[0..4] == WordBytes(s.h.a) && b[4..8] == WordBytes(s.h.b) && b[8..12] == WordBytes(s.h.c)
      && b[12..16] == WordBytes(s.h.d) && b[16..20] == WordBytes(s.h.e)
      && b[20..84] == s.x && b[84..92] == BigEndian(Unsigned(s.nx), 8) && b[92..100] == BigEndian(s.len, 8)
  {
    RegisterBytes(s.h);
    hide DigestBytes, WordBytes, BigEndian, Unsigned;
    Parts(DigestBytes(s.h), s.x, BigEndian(Unsigned(s.nx), 8), BigEndian(s.len, 8));
  }

  lemma Parts(d: seq<bv8>, x: seq<bv8>, n: seq<bv8>, l: seq<bv8>)
    requires |d| == 20 && |x| == 64 && |n| == |l| == 8
    ensures
      var b := d + x + n + l;
      && |b| == 100
      && b[0..4] == d[0..4] && b[4..8] == d[4..8] && b[8..12] == d[8..12]
      && b[12..16] == d[12..16] && b[16..20] == d[16..20]
      && b[20..84] == x && b[84..92] == n && b[92..100] == l
  {}

  lemma UnsignedModulo(n: int)
    requires -POW63 <= n < POW63
    ensures Unsigned(n) == n % POW64
  {}

  lemma RegisterBytes(h: Registers)
    ensures
      var d := DigestBytes(h);
      && d[0..4] == WordBytes(h.a) && d[4..8] == WordBytes(h.b) && d[8..12] == WordBytes(h.c)
      && d[12..16] == WordBytes(h.d) && d[16..20] == WordBytes(h.e)
  {
    WordBytesSize(h.a);
    WordBytesSize(h.b);
    WordBytesSize(h.c);
    WordBytesSize(h.d);
    WordBytesSize(h.e);
    hide WordBytes;
    FiveParts(WordBytes(h.a), WordBytes(h.b), WordBytes(h.c), WordBytes(h.d), WordBytes(h.e));
  }

  lemma FiveParts(a: seq<bv8>, b: seq<bv8>, c: seq<bv8>, d: seq<bv8>, e: seq<bv8>)
    requires |a| == |b| == |c| == |d| == |e| == 4
    ensures
      var s := a + b + c + d + e;
      |s| == 20 && s[0..4] == a && s[4..8] == b && s[8..12] == c && s[12..16] == d && s[16..20] == e
  {}

  lemma Pieces(b: seq<bv8>)
    requires |b| == 100
    ensures b == b[0..4] + b[4..8] + b[8..12] + b[12..16] + b[16..20] + b[20..84] + b[84..92] + b[92..100]
  {}

  lemma BytesStateInverse(b: seq<bv8>)
    requires |b| == SHA1_DIGEST_SIZE
    ensures BytesState(b).Typed() && StateBytes(BytesState(b)) == b
  {
    hide BytesWord, BigEndian, FromBigEndian, WordBytes;
    FromBigEndianInverse(b[84..92]);
    FromBigEndianInverse(b[92..100]);
    Pow256Eight();
    BytesRoundTrip(b[0..4]);
    BytesRoundTrip(b[4..8]);
    BytesRoundTrip(b[8..12]);
    BytesRoundTrip(b[12..16]);
    BytesRoundTrip(b[16..20]);
    Pieces(b);
  }

  /** A text is accepted exactly when it is 200 hexadecimal digits, and then writing
      the state again gives the text in lower case. */
  lemma EncodeDecode(text: string)
    ensures Decode(text).Some? <==>
      |text| == 2 * SHA1_DIGEST_SIZE && forall i :: 0 <= i < |text| ==> DigitValue(text[i]).Some?
    ensures Decode(text).Some? ==> Decode(text).value.Typed() && Encode(Decode(text).value) == Lower(text)
  {
    hide StateBytes, BytesState, DigitValue, Lower;
    HexInverse(text);
    if Decode(text).Some? {
      BytesStateInverse(HexDecode(text).value);
    }
  }

  /** A state read from a text can be finished without a panic exactly if its position
      and its length say so. */
  lemma DecodedFinishIff(text: string)
    requires Decode(text).Some?
    ensures
      var s := Decode(text).value;
      s.Writable() && Finish(s).nx == 0 <==> Finishable(s)
  {
    hide BytesState, Finish, Finishable;
    EncodeDecode(text);
    FinishEmpties(Decode(text).value);
  }

  /** There are texts of either kind on each side of the buffer. */
  lemma DecodedTexts(nx: int)
    requires -POW63 <= nx < POW63
    ensures
      var s := Decode(Encode(FRESH.(nx := nx)));
      s.Some? && (Finishable(s.value) <==> nx <= 0 || nx == CHUNK)
  {
    hide Encode, Decode;
    DecodeEncode(FRESH.(nx := nx));
  }

  method MarshalSha1(d: Sha1Digest) returns (text: string)
    requires d.Sized() && d.Value().Typed()
    ensures text == Encode(d.Value())
  {
    hide HexEncode, WordBytes, BigEndian;
    var b := WordBytes(d.h[0]) + WordBytes(d.h[1]) + WordBytes(d.h[2]) + WordBytes(d.h[3]) + WordBytes(d.h[4]);
    b := b + d.x[..];
    b := b + BigEndian(Unsigned(d.nx), 8);
    b := b + BigEndian(d.len, 8);
    text := HexEncode(b);
  }

  method UnmarshalSha1(d: Sha1Digest, text: string) returns (ok: bool)
    requires d.Sized()
    modifies d, d.h, d.x
    ensures ok <==> Decode(text).Some?
    ensures d.Sized() && d.Value() == if ok then Decode(text).value else old(d.Value())
  {
    hide BytesWord, FromBigEndian, HexDecode;
    if |text| != 2 * SHA1_DIGEST_SIZE {
      return false;
    }
    var decoded := HexDecode(text);
    if decoded.None? || |decoded.value| != SHA1_DIGEST_SIZE {
      return false;
    }
    var b := decoded.value;
    d.h[0] := BytesWord(b[0..4]);
    d.h[1] := BytesWord(b[4..8]);
    d.h[2] := BytesWord(b[8..12]);
    d.h[3] := BytesWord(b[12..16]);
    d.h[4] := BytesWord(b[16..20]);
    var n := Copy(d.x, 0, b[20..84]);
    assert d.x[..] == b[20..84];
    d.nx := Signed(FromBigEndian(b[84..92]));
    d.len := FromBigEndian(b[92..100]);
    ok := true;
  }

  // -------------------------------------------------------------------- CRC-32

  /** A partial CRC: the register and the polynomial of its table. */
  datatype CrcState = CrcState(crc: bv32, poly: bv32)

  function EncodeCrc(s: CrcState): string {
    HexEncode(WordBytes(s.crc))
  }

  /** The table is not part of the text: reading always selects the IEEE one. */
  function DecodeCrc(text: string): Option<CrcState> {
    if |text| != 2 * CRC32_DIGEST_SIZE then None
    else
      match HexDecode(text)
      case Some(b) => if |b| == CRC32_DIGEST_SIZE then Some(CrcState(BytesWord(b), IEEE)) else None
      case None => None
  }

  /** The register always survives; the digest as a whole does exactly over IEEE. */
  lemma DecodeEncodeCrc(s: CrcState)
    ensures DecodeCrc(EncodeCrc(s)) == Some(CrcState(s.crc, IEEE))
    ensures DecodeCrc(EncodeCrc(s)) == Some(s) <==> s.poly == IEEE
  {
    hide WordBytes, BytesWord;
    assert |WordBytes(s.crc)| == 4 by { WordBytesSize(s.crc); }
    HexRoundTrip(WordBytes(s.crc));
    WordRoundTrip(s.crc);
  }

  lemma WordBytesSize(w: bv32)
    ensures |WordBytes(w)| == 4
  {}

  method MarshalCrc(d: Crc32Digest) returns (text: string)
    ensures DecodeCrc(text) == Some(CrcState(d.crc, IEEE))
    ensures text == EncodeCrc(CrcState(d.crc, IEEE))
  {
    DecodeEncodeCrc(CrcState(d.crc, IEEE));
    text := HexEncode(WordBytes(d.crc));
  }

  method UnmarshalCrc(d: Crc32Digest, text: string) returns (ok: bool)
    requires d.lib.Valid()
    modifies d
    ensures ok <==> DecodeCrc(text).Some?
    ensures ok ==> d.crc == DecodeCrc(text).value.crc && d.tab == d.lib.table && d.Over(IEEE)
    ensures !ok ==> d.crc == old(d.crc) && d.tab == old(d.tab)
  {
    hide HexDecode, BytesWord, Crc32Tables.IsTable, IsSlicingTable;
    if |text| != 2 * CRC32_DIGEST_SIZE {
      return false;
    }
    var decoded := HexDecode(text);
    if decoded.None? || |decoded.value| != CRC32_DIGEST_SIZE {
      return false;
    }
    d.crc := BytesWord(decoded.value);
    d.tab := d.lib.table;
    ok := true;
  }

  // --------------------------------------------------------- suspend and resume

  function Flatten(pieces: seq<seq<bv8>>): seq<bv8> {
    if pieces == [] then [] else pieces[0] + Flatten(pieces[1..])
  }

  /** The state as the next process reads it; None if its text is refused or names
      no usable state. */
  function Reload(s: State): (r: Option<State>)
    requires s.Writable()
    ensures r.Some? ==> r.value.Writable()
  {
    match Decode(Encode(s))
    case Some(s') => if s'.Writable() then Some(s') else None
    case None => None
  }

  /** Writes the pieces one after another; after each one the state is written as text
      and read back. */
  function ResumeSha1(s: State, pieces: seq<seq<bv8>>): (r: Option<State>)
    requires s.Writable()
    ensures r.Some? ==> r.value.Writable()
    decreases |pieces|
  {
    if pieces == [] then Some(s)
    else
      match Reload(Update(s, pieces[0]))
      case Some(s') => ResumeSha1(s', pieces[1..])
      case None => None
  }

  function ResumeCrc(s: CrcState, pieces: seq<seq<bv8>>): Option<CrcState>
    decreases |pieces|
  {
    if pieces == [] then Some(s)
    else
      match DecodeCrc(EncodeCrc(CrcState(Crc(s.poly, s.crc, pieces[0]), s.poly)))
      case Some(s') => ResumeCrc(s', pieces[1..])
      case None => None
  }

  lemma ReloadSame(s: State)
    requires s.Writable()
    ensures Reload(s) == Some(s)
  {
    hide Encode, Decode;
    DecodeEncode(s);
  }

  lemma {:induction false} ResumeSha1Absorbs(s: State, m: seq<bv8>, pieces: seq<seq<bv8>>)
    requires s.Writable() && Absorbed(s, m)
    ensures ResumeSha1(s, pieces).Some? && Absorbed(ResumeSha1(s, pieces).value, m + Flatten(pieces))
    decreases |pieces|
  {
    hide Absorbed, Update, Reload;
    if pieces == [] {
      assert m + Flatten(pieces) == m;
    } else {
      var s' := Update(s, pieces[0]);
      UpdateAbsorbs(s, m, pieces[0]);
      ReloadSame(s');
      ResumeSha1Absorbs(s', m + pieces[0], pieces[1..]);
      assert m + Flatten(pieces) == (m + pieces[0]) + Flatten(pieces[1..]);
    }
  }

  lemma {:induction false} ResumeCrcIsCrc(crc: bv32, pieces: seq<seq<bv8>>)
    ensures ResumeCrc(CrcState(crc, IEEE), pieces) == Some(CrcState(Crc(IEEE, crc, Flatten(pieces)), IEEE))
    decreases |pieces|
  {
    hide Crc, EncodeCrc, DecodeCrc;
    if pieces == [] {
      CrcNothing(IEEE, crc);
    } else {
      var s' := CrcState(Crc(IEEE, crc, pieces[0]), IEEE);
      DecodeEncodeCrc(s');
      ResumeCrcIsCrc(s'.crc, pieces[1..]);
      CrcConcat(IEEE, crc, pieces[0], Flatten(pieces[1..]));
    }
  }

  /** Suspend and resume: however a message is cut, both checksums come out as if it
      had been read in one pass. */
  lemma SuspendAndResume(pieces: seq<seq<bv8>>)
    ensures ResumeSha1(FRESH, pieces).Some? && SumOf(ResumeSha1(FRESH, pieces).value) == Sha1Spec.Sha1(Flatten(pieces))
    ensures ResumeCrc(CrcState(0, IEEE), pieces) == Some(CrcState(Crc(IEEE, 0, Flatten(pieces)), IEEE))
  {
    hide CompressAll, ResumeSha1, SumOf, Flatten;
    FreshAbsorbed();
    ResumeSha1Absorbs(FRESH, [], pieces);
    assert [] + Flatten(pieces) == Flatten(pieces);
    SumIsSha1(ResumeSha1(FRESH, pieces).value, Flatten(pieces));
    ResumeCrcIsCrc(0, pieces);
  }
}
