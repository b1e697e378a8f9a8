/** The resumable upload as a whole: what the client's position, the server's data
    file and its offset file have to do with each other after any exchange. */
module Protocol {
  import opened Codec
  import opened FileInfo
  import opened Receiver
  import opened Sha1File
  import opened Sha1State
  import Sha1Spec

  predicate Prefix(f: Option<seq<bv8>>, content: seq<bv8>) {
    f.Some? ==> f.value <= content
  }

  /** The server holds part of the source, and its offset file can be gone on with. */
  ghost predicate Agrees(content: seq<bv8>, d: Disk) {
    Usable(d) && Prefix(d.file, content)
  }

  /** Checksums of some message. */
  ghost predicate OfSomething(sums: Checksums) {
    exists m :: sums == ChecksumsOf(m)
  }

  /** The offset a HEAD request reports. */
  function ServerOffset(d: Disk): int {
    match ReadInfo(d.info)
    case Some(fi) => fi.offset
    case None => 0
  }

  /** The wrapper is usable, whether or not the last seek succeeded. */
  ghost predicate Settled(content: seq<bv8>, s: FileState) {
    && 0 <= s.pos
    && 0 <= s.position <= s.calculated <= |content|
    && Absorbed(s.digest, content[..s.calculated])
  }

  /** A successful seek puts the wrapper back in step. */
  lemma SeekSettles(content: seq<bv8>, seekable: bool, s: FileState, offset: int)
    requires Settled(content, s) && 0 <= offset
    ensures
      var (s', ok) := SeekStep(content, seekable, s, offset, Start);
      && Settled(content, s')
      && (ok ==> InSync(content, s') && s'.position == offset)
      && (seekable && offset <= s.position ==> ok)
      && (seekable && offset > s.position ==> !ok && s'.position == s.position)
  {
    hide Absorbed;
  }

  lemma HashSettled(content: seq<bv8>, s: FileState)
    requires Settled(content, s)
    ensures s.digest.Writable() && Finishable(s.digest)
    ensures SumOf(s.digest) == Sha1Spec.Sha1(content[..s.calculated])
  {
    hide SumOf, Sha1Spec.CompressAll;
    SumIsSha1(s.digest, content[..s.calculated]);
    var n := |content[..s.calculated]|;
    assert n % Sha1Spec.POW64 % Sha1Spec.CHUNK == n % Sha1Spec.CHUNK by {
      Mod64(n);
    }
  }

  /** What is stored of a part of the source is itself a part of it. */
  lemma StoredSlice(content: seq<bv8>, offset: nat, body: seq<bv8>, fault: Fault)
    requires offset + |body| <= |content| && body == content[offset..offset + |body|]
    ensures |Stored(body, fault)| <= |body|
    ensures Stored(body, fault) == content[offset..offset + |Stored(body, fault)|]
  {}

  /** A PATCH carrying the right part of the source, however much of it arrives and is
      stored, and whatever fails on the way. */
  lemma PatchAgrees(content: seq<bv8>, d: Disk, offset: nat, length: int, body: seq<bv8>, fault: Fault)
    requires Agrees(content, d)
    requires offset + |body| <= |content| && body == content[offset..offset + |body|]
    ensures
      var s := Save(d, offset, length, body, fault);
      var end := offset + |Stored(body, fault)|;
      && end <= |content|
      && Agrees(content, s.disk)
      && (FromTruth(d, offset, fault) && !Torn(body, fault) ==> Inv(s.disk))
      && ServerOffset(s.disk) <= Max(ServerOffset(d), end)
      && !s.error.Aborted?
      && (s.digest.Some? ==> s.digest.value.sha1.Writable() && Finishable(s.digest.value.sha1))
      && (s.error.NoError? && s.digest.Some? ==>
            end == length && s.disk.info.None?
            && OfSomething(Sums(s.digest.value))
            && (FromTruth(d, offset, fault) && !Torn(body, fault) ==>
                  Sums(s.digest.value) == ChecksumsOf(content[..end]))
            && (end == |content| ==> s.disk.file == Some(content)))
      && (s.error.NoError? && s.digest.None? ==> ServerOffset(s.disk) == end && s.disk.file.Some?)
      && (s.error.NoError? ==> (s.digest.Some? <==> end == length))
  {
    hide Written, Parsed, IsDigestOf, Extend, Sums, ChecksumsOf, Stored, Hashed, Torn, FromTruth, Inv, Usable, Save,
      Kept;
    var s := Save(d, offset, length, body, fault);
    StoredSlice(content, offset, body, fault);
    SaveUsable(d, offset, length, body, fault);
    SavePrefix(content, d, offset, length, body, fault);
    if s.error.NoError? {
      PatchEnds(content, d, offset, length, body, fault);
    }
    if FromTruth(d, offset, fault) && !Torn(body, fault) {
      SaveInv(d, offset, length, body, fault);
      if s.error.NoError? && s.digest.Some? {
        PatchSums(d, offset, length, body, fault);
      }
    }
    SaveOffset(d, offset, length, body, fault);
    SaveWritable(d, offset, length, body, fault);
  }

  lemma PatchEnds(content: seq<bv8>, d: Disk, offset: nat, length: int, body: seq<bv8>, fault: Fault)
    requires Agrees(content, d) && Prefix(Save(d, offset, length, body, fault).disk.file, content)
    requires offset + |body| <= |content| && body == content[offset..offset + |body|]
    requires Save(d, offset, length, body, fault).error.NoError?
    ensures
      var s := Save(d, offset, length, body, fault);
      var end := offset + |Stored(body, fault)|;
      && s.disk.file.Some? && end <= |s.disk.file.value| && end <= |content|
      && s.disk.file.value[..end] == content[..end]
      && (end == |content| ==> s.disk.file == Some(content))
      && (s.digest.Some? <==> end == length)
      && (s.digest.Some? ==> s.disk.info.None? && s.digest.value.sha1.Writable() && OfSomething(Sums(s.digest.value)))
      && (s.digest.None? ==> ServerOffset(s.disk) == end)
  {
    hide Written, Parsed, IsDigestOf, Extend, Sums, ChecksumsOf, Stored, Hashed, Torn, Usable, Save, Kept;
    StoredSlice(content, offset, body, fault);
    var m := SomethingAbsorbed(d, offset, length, body, fault);
    PatchStores(d, offset, length, body, fault, m);
    var s := Save(d, offset, length, body, fault);
    if offset + |Stored(body, fault)| == |content| {
      assert s.disk.file.value == content;
    }
  }

  /** With a usable offset file the handler does not panic. */
  lemma SaveWritable(d: Disk, offset: nat, length: int, body: seq<bv8>, fault: Fault)
    requires Usable(d)
    ensures
      var s := Save(d, offset, length, body, fault);
      && !s.error.Aborted?
      && (s.digest.Some? ==> s.digest.value.sha1.Writable() && Finishable(s.digest.value.sha1))
  {
    hide Written, Parsed, IsDigestOf, Extend, WriteAt, Stored, Hashed, Finishable, Sums, ChecksumsOf;
    CreatedInv();
    var d1 := Basis(d, offset);
    var fi := if offset == 0 then NEW_INFO else if d.info.None? then NEW_INFO else Parsed(d.info.value).value;
    if offset == fi.offset && d1.file.Some? && d1.info.Some? {
      assert Fits(fi, d1.file.value);
      var m :| IsDigestOf(fi.digest, m);
      var read := Hashed(body, fault);
      ExtendIsDigest(fi.digest, m, read);
      SumsAreChecksums(Extend(fi.digest, read), m + read);
    }
  }

  lemma SavePrefix(content: seq<bv8>, d: Disk, offset: nat, length: int, body: seq<bv8>, fault: Fault)
    requires Agrees(content, d)
    requires offset + |body| <= |content| && body == content[offset..offset + |body|]
    ensures Prefix(Save(d, offset, length, body, fault).disk.file, content)
  {
    hide Written, Parsed, IsDigestOf, Extend, WriteAt, Stored, Hashed;
    CreatedInv();
    var f := Kept(d, offset);
    var data := Stored(body, fault);
    StoredSlice(content, offset, body, fault);
    if offset <= |f| {
      WriteAtPrefix(f, offset, data);
      PrefixSplice(content, f, offset, data);
    }
  }

  lemma PrefixSplice(content: seq<bv8>, f: seq<bv8>, offset: nat, body: seq<bv8>)
    requires f <= content && offset <= |f|
    requires offset + |body| <= |content| && body == content[offset..offset + |body|]
    ensures WriteAt(f, offset, body) <= content
  {
    var g, end := WriteAt(f, offset, body), offset + |body|;
    WriteAtPrefix(f, offset, body);
    assert g == g[..end] + g[end..];
    assert g[..end] == content[..end];
    if end <= |f| {
      assert f[end..] == content[end..|f|];
      assert content[..end] + content[end..|f|] == content[..|f|];
    }
  }

  lemma SaveOffset(d: Disk, offset: nat, length: int, body: seq<bv8>, fault: Fault)
    requires Usable(d)
    ensures
      ServerOffset(Save(d, offset, length, body, fault).disk) <= Max(ServerOffset(d), offset + |Stored(body, fault)|)
    ensures 0 <= ServerOffset(d)
  {
    hide Written, Parsed, IsDigestOf, Extend, WriteAt, Stored, Hashed;
    CreatedInv();
    var data, read := Stored(body, fault), Hashed(body, fault);
    var fi := if offset == 0 then NEW_INFO else if d.info.None? then NEW_INFO else Parsed(d.info.value).value;
    if read == [] || fi.digest.sha1.Writable() {
      ParsedWritten(Info(offset + |data|, Extend(fi.digest, read)));
    }
  }

  /** Without failures a PATCH at the server's own offset, or at zero, is accepted. */
  lemma PatchAccepted(d: Disk, offset: nat, length: int, body: seq<bv8>)
    requires Usable(d)
    requires offset == 0 || (d.file.Some? && ServerOffset(d) == offset)
    ensures Save(d, offset, length, body, NoFault).error.NoError?
  {
    hide Written, Parsed, IsDigestOf, Extend, WriteAt;
    CreatedInv();
    if offset != 0 && d.info.Some? {
      var fi := ReadInfo(d.info).value;
      assert Fits(fi, d.file.value);
      var m :| IsDigestOf(fi.digest, m);
      ExtendIsDigest(fi.digest, m, body);
    }
  }

  lemma RemovedAgrees(content: seq<bv8>, d: Disk)
    requires Agrees(content, d)
    ensures Agrees(content, d.(file := None)) && ServerOffset(d.(file := None)) == ServerOffset(d)
    ensures Inv(d) ==> Inv(d.(file := None))
  {
    hide Parsed;
  }

  /** The PATCH request the client makes; size is -1 while it is unknown. */
  function UploadRequest(offset: int, size: int, drain: bool, lookup: Lookup, body: seq<bv8>, fault: Fault): Request {
    Patch(Number(offset), if size > -1 then Number(size) else Absent, drain, lookup, body, fault)
  }

  predicate Accepts(d: Disk, offset: int) {
    offset == 0 || (d.file.Some? && ServerOffset(d) == offset)
  }

  /** The file is the source and the upload is closed. */
  predicate Complete(content: seq<bv8>, d: Disk) {
    d == Disk(Some(content), None)
  }

  /** What a successful response says once the server has got to end: either the upload is
      closed, with checksums, which are those of what was stored if no write has been torn,
      or the server waits there, and the response has no checksums. */
  ghost predicate Acknowledged(content: seq<bv8>, d: Disk, end: nat, size: int, truthful: bool, response: Response)
    requires end <= |content|
  {
    if end == size then
      && OfSomething(response.sums) && (truthful ==> response.sums == ChecksumsOf(content[..end]))
      && (end == |content| ==> Complete(content, d))
    else
      d.file.Some? && ServerOffset(d) == end && response.sums == NO_SUMS
  }

  lemma ServeUpload(content: seq<bv8>, d: Disk, offset: nat, size: int, drain: bool, lookup: Lookup,
                    body: seq<bv8>, fault: Fault)
    requires Agrees(content, d) && -1 <= size
    requires offset + |body| <= |content| && body == content[offset..offset + |body|]
    ensures
      var (d', response) := Serve(d, UploadRequest(offset, size, drain, lookup, body, fault));
      var end := offset + |Stored(body, fault)|;
      var truthful := FromTruth(d, offset, fault) && !Torn(body, fault);
      && end <= |content|
      && Agrees(content, d')
      && (truthful && (Inv(d) || drain || lookup == Found) ==> Inv(d'))
      && ServerOffset(d') <= Max(ServerOffset(d), end)
      && (response.status / 100 == 2 ==> Acknowledged(content, d', end, size, truthful, response))
      && (Accepts(d, offset) && lookup == Found && fault == NoFault ==> response.status / 100 == 2)
  {
    hide Usable, Inv, Prefix, Save, ServerOffset, ChecksumsOf, Sums, Stored, Torn, Finishable, Serve, Kept,
      OfSomething, FromTruth;
    DrainSkipsLookup(d, offset, if size > -1 then Number(size) else Absent, drain, lookup, body, fault);
    StoredSlice(content, offset, body, fault);
    PatchAgrees(content, d, offset, size, body, fault);
    if Accepts(d, offset) && fault == NoFault {
      PatchAcceptedAgrees(content, d, offset, size, body);
    }
  }

  /** A refused write goes unnoticed by the server: it answers a PATCH that carries the
      whole source with success, without checksums, and waits where the write was refused.
      What a torn write has left behind is then in the file but in no checksum. */
  lemma RefusedWriteAnswers(content: seq<bv8>, d: Disk, at: nat, torn: nat, drain: bool)
    requires Agrees(content, d) && at + torn < |content|
    ensures
      var end := at + torn;
      var (d', response) := Serve(d, UploadRequest(0, |content|, drain, Found, content, WriteFails(at, torn)));
      && response == Response(200, Some(end), NO_SUMS) && HexDecode(response.sums.sha1) == Some([])
      && Agrees(content, d') && Accepts(d', end) && GoesOnFrom(d', end, content[..at])
      && d'.file == Some(content[..end]) && ServerOffset(d') == end
  {
    hide Written, Parsed, IsDigestOf, Extend, Sums;
    var fault := WriteFails(at, torn);
    var s := Save(d, 0, |content|, content, fault);
    CreatedInv();
    assert WriteAt([], 0, content[..at + torn]) == content[..at + torn];
    assert s.error.NoError? && s.digest.None?;
    PatchStores(d, 0, |content|, content, fault, []);
    assert [] + Hashed(content, fault) == content[..at];
    SaveUsable(d, 0, |content|, content, fault);
    assert HexDecode("") == Some([]);
  }

  /** A PATCH with the rest of the source completes the upload, whatever the digests have
      absorbed so far. */
  lemma RestCompletes(content: seq<bv8>, d: Disk, offset: nat, drain: bool, m: seq<bv8>)
    requires Agrees(content, d) && Accepts(d, offset) && GoesOnFrom(d, offset, m) && offset <= |content|
    ensures
      var (d', response) := Serve(d, UploadRequest(offset, |content|, drain, Found, content[offset..], NoFault));
      && response.status == 200 && Complete(content, d')
      && response.sums == ChecksumsOf(m + content[offset..])
  {
    hide Serve, Save, Sums, ChecksumsOf, Finishable, Agrees, Accepts, GoesOnFrom;
    DrainSkipsLookup(d, offset, Number(|content|), drain, Found, content[offset..], NoFault);
    RestSaved(content, d, offset, m);
  }

  lemma RestSaved(content: seq<bv8>, d: Disk, offset: nat, m: seq<bv8>)
    requires Agrees(content, d) && Accepts(d, offset) && GoesOnFrom(d, offset, m) && offset <= |content|
    ensures
      var s := Save(d, offset, |content|, content[offset..], NoFault);
      && s.error.NoError? && s.digest.Some? && Complete(content, s.disk)
      && s.digest.value.sha1.Writable() && Finishable(s.digest.value.sha1)
      && Sums(s.digest.value) == ChecksumsOf(m + content[offset..])
  {
    hide *;
    var body := content[offset..];
    WholeBody(content, offset, body);
    AgreesUsable(content, d);
    PatchAcceptedAgrees(content, d, offset, |content|, body);
    PatchAgrees(content, d, offset, |content|, body, NoFault);
    PatchStores(d, offset, |content|, body, NoFault, m);
    ClosedComplete(content, Save(d, offset, |content|, body, NoFault).disk);
  }

  lemma WholeBody(content: seq<bv8>, offset: nat, body: seq<bv8>)
    requires offset <= |content| && body == content[offset..]
    ensures Stored(body, NoFault) == body == Hashed(body, NoFault) && |body| == |content| - offset
    ensures content[offset..offset + |body|] == body
  {}

  lemma ClosedComplete(content: seq<bv8>, d: Disk)
    requires d.file == Some(content) && d.info.None?
    ensures Complete(content, d)
  {}

  lemma AgreesUsable(content: seq<bv8>, d: Disk)
    requires Agrees(content, d)
    ensures Usable(d)
  {}

  /** So the upload is completed by a PATCH with the rest, the file is right, and the
      checksums are those of the source without the bytes of the torn write. */
  lemma TornUpload(content: seq<bv8>, d: Disk, at: nat, torn: nat, drain: bool)
    requires Agrees(content, d) && at + torn < |content|
    ensures
      var end := at + torn;
      var d1 := Serve(d, UploadRequest(0, |content|, drain, Found, content, WriteFails(at, torn))).0;
      var (d2, response) := Serve(d1, UploadRequest(end, |content|, drain, Found, content[end..], NoFault));
      && response.status == 200 && Complete(content, d2)
      && response.sums == ChecksumsOf(content[..at] + content[end..])
  {
    hide *;
    var d1 := Serve(d, UploadRequest(0, |content|, drain, Found, content, WriteFails(at, torn))).0;
    RefusedWriteAnswers(content, d, at, torn, drain);
    RestCompletes(content, d1, at + torn, drain, content[..at]);
  }

  /** A PATCH that starts over reaches the disk if it is not turned away before; the server
      is then at most where the body ends. Otherwise nothing has changed. */
  lemma ServeRestart(content: seq<bv8>, d: Disk, size: int, drain: bool, lookup: Lookup, body: seq<bv8>, fault: Fault)
    requires Agrees(content, d) && -1 <= size
    ensures
      var (d', response) := Serve(d, UploadRequest(0, size, drain, lookup, body, fault));
      if (drain || lookup == Found) && fault != CreateFails then ServerOffset(d') <= |body|
      else response.status / 100 != 2 && d' == d
  {
    hide Parsed, Written, IsDigestOf, Extend, Sums;
    var data, read := Stored(body, fault), Hashed(body, fault);
    DrainSkipsLookup(d, 0, if size > -1 then Number(size) else Absent, drain, lookup, body, fault);
    hide Serve;
    NewDigestIsDigest();
    ExtendIsDigest(NEW_DIGEST, [], read);
    CreatedInv();
    ParsedWritten(Info(|data|, Extend(NEW_DIGEST, read)));
  }

  /** The data file is gone but its offset file is still there. */
  predicate Orphaned(d: Disk, offset: int) {
    d.file.None? && 0 < offset == ServerOffset(d)
  }

  /** A PATCH that meets an orphaned offset file is refused, and clears it. */
  lemma ServeOrphaned(content: seq<bv8>, d: Disk, offset: nat, size: int, drain: bool, body: seq<bv8>)
    requires Agrees(content, d) && Orphaned(d, offset)
    ensures
      var (d', response) := Serve(d, UploadRequest(offset, size, drain, Found, body, NoFault));
      response.status / 100 != 2 && ServerOffset(d') == 0
  {
    hide IsDigestOf, Parsed;
  }

  lemma PatchAcceptedAgrees(content: seq<bv8>, d: Disk, offset: nat, length: int, body: seq<bv8>)
    requires Agrees(content, d) && Accepts(d, offset)
    ensures Save(d, offset, length, body, NoFault).error.NoError?
  {
    hide Usable, Save, ServerOffset;
    PatchAccepted(d, offset, length, body);
  }

  // ------------------------------------------------------- the requests of a run

  /** One PATCH: where it starts, how many bytes it carries, the length it announces. */
  datatype Range = Range(offset: int, size: int, length: int)

  /** The requests of an upload without failures, from offset from on. */
  function Requests(from: nat, size: nat, chunk: nat, known: bool): seq<Range>
    requires from <= size && chunk > 0
    decreases size - from
  {
    if known then
      if size - from <= chunk then [Range(from, size - from, size)]
      else [Range(from, chunk, size)] + Requests(from + chunk, size, chunk, known)
    else
      if from == size then [Range(size, 0, -1), Range(size, 0, size)]
      else
        var n := Min(chunk, size - from);
        [Range(from, n, -1)] + Requests(from + n, size, chunk, known)
  }

  function CeilDiv(a: nat, b: nat): nat
    requires b > 0
  {
    (a + b - 1) / b
  }

  lemma CeilDivStep(a: nat, b: nat)
    requires b > 0
    ensures a > 0 ==> CeilDiv(a, b) == 1 + CeilDiv(a - Min(a, b), b)
    ensures a == 0 ==> CeilDiv(a, b) == 0
    ensures 0 < a <= b ==> CeilDiv(a, b) == 1
  {
    if a == 0 {
      Quotient(b - 1, b, 0, b - 1);
    } else if a <= b {
      Quotient(a + b - 1, b, 1, a - 1);
      Quotient(b - 1, b, 0, b - 1);
    } else {
      AddDivisor(a - 1, b);
    }
  }

  lemma AddDivisor(n: nat, d: nat)
    requires d > 0
    ensures (n + d) / d == n / d + 1
  {
    var q := n / d;
    assert n == d * q + n % d;
    Distribute(d, q, 1);
    Quotient(n + d, d, q + 1, n % d);
  }

  /** Their number: the chunks, at least one; two more when the end has to be found by
      reading. */
  lemma {:induction false} RequestCount(from: nat, size: nat, chunk: nat, known: bool)
    requires from <= size && chunk > 0
    ensures |Requests(from, size, chunk, known)|
         == if known then Max(1, CeilDiv(size - from, chunk)) else CeilDiv(size - from, chunk) + 2
    decreases size - from
  {
    hide CeilDiv;
    CeilDivStep(size - from, chunk);
    if known && size - from > chunk {
      RequestCount(from + chunk, size, chunk, known);
      CeilDivStep(size - from - chunk, chunk);
      CeilDivPositive(size - from - chunk, chunk);
    } else if !known && from < size {
      RequestCount(from + Min(chunk, size - from), size, chunk, known);
    }
  }

  lemma CeilDivPositive(a: nat, b: nat)
    requires a > 0 && b > 0
    ensures CeilDiv(a, b) >= 1
  {
    CeilDivStep(a, b);
  }

  /** The ranges follow one another from the given start to the end of the source, none
      is larger than a chunk, and only the last one announces its own end as the length. */
  predicate Covers(r: seq<Range>, from: nat, size: nat, chunk: nat)
    decreases |r|
  {
    && r != []
    && r[0].offset == from && 0 <= r[0].size <= chunk
    && var end := from + r[0].size;
       if |r| == 1 then end == size == r[0].length
       else end != r[0].length && Covers(r[1..], end, size, chunk)
  }

  lemma {:induction false} RequestsCover(from: nat, size: nat, chunk: nat, known: bool)
    requires from <= size && chunk > 0
    ensures Covers(Requests(from, size, chunk, known), from, size, chunk)
    decreases size - from
  {
    var r := Requests(from, size, chunk, known);
    if known && size - from > chunk {
      RequestsCover(from + chunk, size, chunk, known);
      assert r[1..] == Requests(from + chunk, size, chunk, known);
    } else if !known && from < size {
      var n := Min(chunk, size - from);
      RequestsCover(from + n, size, chunk, known);
      assert r[1..] == Requests(from + n, size, chunk, known);
    } else if !known {
      assert r[1..] == [Range(size, 0, size)];
    }
  }
}
