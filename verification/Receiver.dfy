/** The storage server's side of an upload (filereceiver.go): requests on one path
    against a data file and its offset file. */
module Receiver {
  import opened Codec
  import opened FileInfo
  import opened Sha1State
  import Sha1Spec

  /** What is on disk under one path. */
  datatype Disk = Disk(file: Option<seq<bv8>>, info: Option<InfoText>)

  /** The system call that fails while a request is served, if any. */
  datatype Fault =
    | NoFault
    | CreateFails
    | OpenFails
    | SeekFails
    | WriteFails(at: nat, torn: nat)  // after at bytes of the body, a write stores torn bytes only
    | SyncFails
    | CloseFails
    | SaveInfoFails
    | DeleteInfoFails
    | RemoveFails

  /** Copying ends at the first write that fails to store all it was given, and the error
      is dropped. */
  predicate Refused(body: seq<bv8>, fault: Fault) {
    fault.WriteFails? && fault.at + fault.torn < |body|
  }

  /** The part of a body that reaches the file, and that is counted. */
  function Stored(body: seq<bv8>, fault: Fault): (s: seq<bv8>)
    ensures s <= body
  {
    if Refused(body, fault) then body[..fault.at + fault.torn] else body
  }

  /** The part that reaches the digests: a write that fails does not get there. */
  function Hashed(body: seq<bv8>, fault: Fault): (s: seq<bv8>)
    ensures s <= body
  {
    if Refused(body, fault) then body[..fault.at] else body
  }

  /** Some bytes are counted that no digest has seen. */
  predicate Torn(body: seq<bv8>, fault: Fault) {
    Refused(body, fault) && fault.torn > 0
  }

  /** A save is aborted when the digest in the offset file cannot be written to, and the
      handler panics. */
  datatype SaveError = NoError | Mismatch(given: int, required: int) | Failed | Aborted

  datatype Saved = Saved(disk: Disk, offset: int, digest: Option<Digest>, error: SaveError)

  /** pwrite: a hole before the offset reads as zeros, bytes after the data stay. */
  function WriteAt(f: seq<bv8>, offset: nat, data: seq<bv8>): seq<bv8> {
    if data == [] then f
    else
      (if offset <= |f| then f[..offset] else f + Sha1Spec.Zeros(offset - |f|))
      + data
      + (if offset + |data| <= |f| then f[offset + |data|..] else [])
  }

  function CreatedDisk(): Disk {
    Disk(Some([]), Some(Written(NEW_INFO)))
  }

  /** The offset file as it is read; an absent one stands for nothing received. */
  function ReadInfo(info: Option<InfoText>): Option<Info> {
    match info
    case None => Some(NEW_INFO)
    case Some(t) => Parsed(t)
  }

  /** What one PATCH does to the disk: body is what arrives before the connection ends
      or breaks. */
  function Save(d: Disk, offset: int, length: int, body: seq<bv8>, fault: Fault): Saved {
    if offset == 0 && fault == CreateFails then Saved(d, 0, None, Failed)
    else
      var d1 := if offset == 0 then CreatedDisk() else d;
      var fi := if offset == 0 then Some(NEW_INFO) else ReadInfo(d.info);
      if fi.None? then Saved(d1, 0, None, Failed)
      else if offset != fi.value.offset then Saved(d1, 0, None, Mismatch(offset, fi.value.offset))
      else if d1.file.None? then
        Saved(if fault == DeleteInfoFails then d1 else Disk(None, None), 0, None, Mismatch(offset, 0))
      else if fault == OpenFails || fault == SeekFails || offset < 0 then Saved(d1, 0, None, Failed)
      else
        var data, read := Stored(body, fault), Hashed(body, fault);
        var d2 := d1.(file := Some(WriteAt(d1.file.value, offset, data)));
        if read != [] && !fi.value.digest.sha1.Writable() then Saved(d2, 0, None, Aborted)
        else
          var fi' := Info(offset + |data|, Extend(fi.value.digest, read));
          if fault == SyncFails || fault == CloseFails then Saved(d2, 0, None, Failed)
          else if fi'.offset == length then
            if fault == DeleteInfoFails then Saved(d2, fi'.offset, Some(fi'.digest), Failed)
            else Saved(d2.(info := None), fi'.offset, Some(fi'.digest), NoError)
          else
            if fault == SaveInfoFails then Saved(d2, fi'.offset, None, Failed)
            else Saved(d2.(info := Some(Written(fi'))), fi'.offset, None, NoError)
  }

  // -------------------------------------------------------------- HTTP requests

  /** A number in a request header. */
  datatype Header = Absent | Malformed | Number(value: int)

  /** Outcome of looking the fid up among the unfinished uploads. */
  datatype Lookup = Found | Missing | LookupFails

  datatype Request =
    | Post(fault: Fault)
    | Head
    | Patch(offset: Header, length: Header, drain: bool, lookup: Lookup, body: seq<bv8>, fault: Fault)
    | Delete(fault: Fault)
    | OtherMethod

  /** Status code, offset header and checksum headers; a header that is not set reads
      as the empty text. */
  datatype Response = Response(status: int, offset: Option<int>, sums: Checksums)

  const NO_SUMS := Checksums("", "")

  function Reply(status: int): Response { Response(status, None, NO_SUMS) }

  function LengthOf(length: Header): int
    requires !length.Malformed?
  {
    if length.Absent? then -1 else length.value
  }

  /** A panic in the handler is recovered, and the answer is the one that a handler gives
      by saying nothing. */
  const RECOVERED := Reply(200)

  function PatchReply(s: Saved): Response {
    match s.error
    case Mismatch(_, required) => Response(409, Some(required), NO_SUMS)
    case Failed => Reply(500)
    case Aborted => RECOVERED
    case NoError =>
      if s.digest.None? then Response(200, Some(s.offset), NO_SUMS)
      else if !Finishable(s.digest.value.sha1) || !s.digest.value.sha1.Writable() then RECOVERED
      else Response(200, Some(s.offset), Sums(s.digest.value))
  }

  /** One request: the new contents of the disk and the response. */
  function Serve(d: Disk, r: Request): (Disk, Response) {
    match r
    case Post(fault) =>
      if fault == CreateFails then (d, Reply(500)) else (CreatedDisk(), Reply(200))
    case Head =>
      (match ReadInfo(d.info)
       case None => (d, Reply(500))
       case Some(fi) => (d, Response(200, Some(fi.offset), NO_SUMS)))
    case Patch(offset, length, drain, lookup, body, fault) =>
      if !offset.Number? then (d, Reply(400))
      else if length.Malformed? then (d, Reply(400))
      else if !drain && lookup.LookupFails? then (d, Reply(500))
      else if !drain && lookup.Missing? then (d, Reply(404))
      else
        var s := Save(d, offset.value, LengthOf(length), body, fault);
        (s.disk, PatchReply(s))
    case Delete(fault) =>
      if d.info.None? then (d, Reply(404))
      else if Parsed(d.info.value).None? then (d, Reply(500))
      else if fault == DeleteInfoFails then (d, Reply(500))
      else if fault == RemoveFails || d.file.None? then (d.(info := None), Reply(500))
      else (Disk(None, None), Reply(200))
    case OtherMethod => (d, Reply(405))
  }

  // ------------------------------------------------------------- the invariant

  /** Whenever both files exist, the offset file speaks about a prefix of the data
      file and carries the checksums of exactly that prefix. */
  ghost predicate Inv(d: Disk) {
    d.info.Some? ==>
      && Parsed(d.info.value).Some?
      && 0 <= Parsed(d.info.value).value.offset
      && (d.file.Some? ==> Describes(Parsed(d.info.value).value, d.file.value))
  }

  ghost predicate Describes(fi: Info, f: seq<bv8>) {
    0 <= fi.offset <= |f| && IsDigestOf(fi.digest, f[..fi.offset])
  }

  /** What is left of that when writes may be torn: the prefix is there, and the checksums
      are those of some message. */
  ghost predicate Usable(d: Disk) {
    d.info.Some? ==>
      && Parsed(d.info.value).Some?
      && 0 <= Parsed(d.info.value).value.offset
      && (d.file.Some? ==> Fits(Parsed(d.info.value).value, d.file.value))
  }

  ghost predicate Fits(fi: Info, f: seq<bv8>) {
    0 <= fi.offset <= |f| && exists m :: IsDigestOf(fi.digest, m)
  }

  /** A request, or the delete-queue worker or the disk cleaner removing a file. */
  datatype Event = Request(r: Request) | RemoveFile | RemoveInfo

  function Apply(d: Disk, e: Event): Disk {
    match e
    case Request(r) => Serve(d, r).0
    case RemoveFile => d.(file := None)
    case RemoveInfo => d.(info := None)
  }

  function Run(d: Disk, events: seq<Event>): Disk
    decreases |events|
  {
    if events == [] then d else Run(Apply(d, events[0]), events[1..])
  }

  lemma CreatedInv()
    ensures Inv(CreatedDisk()) && Usable(CreatedDisk())
    ensures ReadInfo(CreatedDisk().info) == Some(NEW_INFO)
  {
    hide Written, Parsed, IsDigestOf;
    ParsedWritten(NEW_INFO);
    NewDigestIsDigest();
    var empty: seq<bv8> := [];
    assert empty[..0] == empty;
  }

  lemma WriteAtPrefix(f: seq<bv8>, offset: nat, data: seq<bv8>)
    requires offset <= |f|
    ensures
      var g := WriteAt(f, offset, data);
      |g| == (if |f| < offset + |data| then offset + |data| else |f|)
      && g[..offset + |data|] == f[..offset] + data
      && g[offset + |data|..] == if offset + |data| <= |f| then f[offset + |data|..] else []
  {}

  /** What a PATCH goes on from. */
  function Basis(d: Disk, offset: int): Disk {
    if offset == 0 then CreatedDisk() else d
  }

  /** Every byte of a file that has been written to: the data from the offset on, otherwise
      what was there, and zeros in between. */
  lemma WriteAtBytes(f: seq<bv8>, offset: nat, data: seq<bv8>)
    ensures
      var g := WriteAt(f, offset, data);
      && |g| == (if data == [] || offset + |data| <= |f| then |f| else offset + |data|)
      && forall i :: 0 <= i < |g| ==>
           g[i] == if offset <= i < offset + |data| then data[i - offset] else if i < |f| then f[i] else 0
  {}

  /** How far a PATCH may get: it leaves the files alone, or clears them, or it writes, and
      the offset file is then the old one, a new one, or gone. */
  lemma SaveOutcome(d: Disk, offset: int, length: int, body: seq<bv8>, fault: Fault)
    ensures
      var s := Save(d, offset, length, body, fault);
      var d1 := Basis(d, offset);
      var fi := if offset == 0 then Some(NEW_INFO) else ReadInfo(d.info);
      var miscounts := s.error.NoError? && s.digest.None? && Torn(body, fault);
      || ((s.disk == d1 || s.disk == Disk(None, None) || (s.disk == d && offset == 0 && fault == CreateFails))
          && !miscounts)
      || (&& d1.file.Some? && fi.Some? && offset == fi.value.offset && offset >= 0
          && s.disk.file == Some(WriteAt(d1.file.value, offset, Stored(body, fault)))
          && (|| ((s.disk.info == d1.info || s.disk.info == None) && !miscounts)
              || (&& (Hashed(body, fault) == [] || fi.value.digest.sha1.Writable())
                  && (miscounts <==> Torn(body, fault))
                  && var fi' := Info(offset + |Stored(body, fault)|, Extend(fi.value.digest, Hashed(body, fault)));
                     s.disk.info == Some(Written(fi')))))
  {
    hide Written, Parsed, Extend, WriteAt, Stored, Hashed, Torn;
  }

  /** Every outcome of a PATCH leaves files that a later one can go on with. */
  lemma SaveUsable(d: Disk, offset: int, length: int, body: seq<bv8>, fault: Fault)
    requires Usable(d)
    ensures Usable(Save(d, offset, length, body, fault).disk)
  {
    SaveOutcome(d, offset, length, body, fault);
    CreatedInv();
    hide Written, Parsed, IsDigestOf, Extend, WriteAt, Stored, Hashed, Save, Torn;
    var d1 := Basis(d, offset);
    if d1.info.Some? && d1.file.Some? && offset == ReadInfo(d1.info).value.offset {
      var fi, f := ReadInfo(d1.info).value, d1.file.value;
      assert Fits(fi, f);
      var m :| IsDigestOf(fi.digest, m);
      var data, read := Stored(body, fault), Hashed(body, fault);
      WriteAtPrefix(f, offset, data);
      ExtendIsDigest(fi.digest, m, read);
      ParsedWritten(Info(offset + |data|, Extend(fi.digest, read)));
    }
  }

  /** What copying does to an offset file that describes the data file. */
  lemma CopiedDescribes(fi: Info, f: seq<bv8>, body: seq<bv8>, fault: Fault)
    requires Describes(fi, f)
    ensures fi.digest.sha1.Writable()
    ensures
      var data := Stored(body, fault);
      var g := WriteAt(f, fi.offset, data);
      var fi' := Info(fi.offset + |data|, Extend(fi.digest, Hashed(body, fault)));
      && Describes(fi, g) && (!Torn(body, fault) ==> Describes(fi', g))
      && (Torn(body, fault) && |body| < Sha1Spec.POW64 ==> !Describes(fi', g))
  {
    hide IsDigestOf, Extend, WriteAt;
    var offset := fi.offset;
    var data, read := Stored(body, fault), Hashed(body, fault);
    WriteAtPrefix(f, offset, data);
    var g := WriteAt(f, offset, data);
    ExtendIsDigest(fi.digest, f[..offset], read);
    var fi' := Info(offset + |data|, Extend(fi.digest, read));
    assert g[..offset + |data|] == f[..offset] + data;
    if Torn(body, fault) && Describes(fi', g) {
      OneLength(fi'.digest, f[..offset] + read, f[..offset] + data);
    }
    assert g[..offset] == g[..offset + |data|][..offset];
    assert (f[..offset] + data)[..offset] == f[..offset];
  }

  /** The offset file that a PATCH goes on from is truthful, or it writes a new one. */
  ghost predicate FromTruth(d: Disk, offset: int, fault: Fault) {
    Inv(d) || (offset == 0 && fault != CreateFails)
  }

  /** A PATCH keeps offset and checksums in step with the data file, or starts over with
      both in step, exactly unless it saves an offset that counts the bytes of a torn
      write. */
  lemma SaveInv(d: Disk, offset: int, length: int, body: seq<bv8>, fault: Fault)
    requires FromTruth(d, offset, fault)
    ensures
      var s := Save(d, offset, length, body, fault);
      var miscounts := s.error.NoError? && s.digest.None? && Torn(body, fault);
      && (!miscounts ==> Inv(s.disk))
      && (miscounts && |body| < Sha1Spec.POW64 ==> !Inv(s.disk))
  {
    SaveOutcome(d, offset, length, body, fault);
    CreatedInv();
    hide Written, Parsed, Describes, Extend, WriteAt, Stored, Hashed, Save, Torn;
    var d1 := Basis(d, offset);
    if d1.info.Some? && d1.file.Some? && offset == ReadInfo(d1.info).value.offset {
      var fi := ReadInfo(d1.info).value;
      CopiedDescribes(fi, d1.file.value, body, fault);
      ParsedWritten(Info(offset + |Stored(body, fault)|, Extend(fi.digest, Hashed(body, fault))));
    }
  }

  lemma ServeUsable(d: Disk, r: Request)
    requires Usable(d)
    ensures Usable(Serve(d, r).0)
  {
    hide Written, Parsed, IsDigestOf, Save, Sums;
    CreatedInv();
    if r.Patch? && r.offset.Number? && !r.length.Malformed? {
      SaveUsable(d, r.offset.value, LengthOf(r.length), r.body, r.fault);
    }
  }

  predicate Tears(e: Event) {
    e.Request? && e.r.Patch? && Torn(e.r.body, e.r.fault)
  }

  lemma ServeInv(d: Disk, r: Request)
    requires Inv(d) && !Tears(Request(r))
    ensures Inv(Serve(d, r).0)
  {
    hide Written, Parsed, IsDigestOf, Save, Sums, Torn;
    CreatedInv();
    if r.Patch? && r.offset.Number? && !r.length.Malformed? {
      SaveInv(d, r.offset.value, LengthOf(r.length), r.body, r.fault);
    }
  }

  /** The offset file stays usable over any sequence of requests, with cut bodies and
      failing system calls, and removals from outside. */
  lemma {:induction false} RunUsable(d: Disk, events: seq<Event>)
    requires Usable(d)
    ensures Usable(Run(d, events))
    decreases |events|
  {
    hide Usable, Serve;
    if events != [] {
      StepUsable(d, events[0]);
      RunUsable(Apply(d, events[0]), events[1..]);
    }
  }

  lemma StepUsable(d: Disk, e: Event)
    requires Usable(d)
    ensures Usable(Apply(d, e))
  {
    hide Serve, Parsed, IsDigestOf;
    if e.Request? {
      ServeUsable(d, e.r);
    }
  }

  /** And it stays truthful, if no write is torn. */
  lemma {:induction false} RunInv(d: Disk, events: seq<Event>)
    requires Inv(d) && forall e :: e in events ==> !Tears(e)
    ensures Inv(Run(d, events))
    decreases |events|
  {
    hide Inv, Serve, Tears;
    if events != [] {
      StepInv(d, events[0]);
      RunInv(Apply(d, events[0]), events[1..]);
    }
  }

  lemma StepInv(d: Disk, e: Event)
    requires Inv(d) && !Tears(e)
    ensures Inv(Apply(d, e))
  {
    hide Serve, Tears;
    if e.Request? {
      ServeInv(d, e.r);
    }
  }

  // ------------------------------------------------- what a PATCH may be trusted for

  /** A conflict is reported exactly when the request asks to continue at a place other
      than the one the server remembers, or the data file is gone; it never changes the
      data file. An offset of zero is never a conflict: it starts over. */
  lemma ConflictKeepsBytes(d: Disk, offset: int, length: int, body: seq<bv8>, fault: Fault)
    requires Usable(d)
    ensures
      var s := Save(d, offset, length, body, fault);
      && (s.error.Mismatch? <==> offset != 0 && (offset != ReadInfo(d.info).value.offset || d.file.None?))
      && (s.error.Mismatch? ==> s.disk.file == d.file)
  {
    hide Written, Parsed, IsDigestOf, Extend, WriteAt;
  }

  /** The bytes a PATCH continues after. */
  function Kept(d: Disk, offset: int): seq<bv8> {
    if offset == 0 || d.file.None? then [] else d.file.value
  }

  /** The digests that a PATCH goes on with have absorbed m. */
  ghost predicate GoesOnFrom(d: Disk, offset: int, m: seq<bv8>) {
    if offset == 0 then m == []
    else ReadInfo(d.info).Some? && IsDigestOf(ReadInfo(d.info).value.digest, m)
  }

  /** A PATCH that answers without an error has stored the old bytes up to the offset
      followed by what it copied of the body, and says where that ends. Completing the
      upload hands out the checksums of all that has been hashed. */
  lemma PatchStores(d: Disk, offset: int, length: int, body: seq<bv8>, fault: Fault, m: seq<bv8>)
    requires Usable(d) && GoesOnFrom(d, offset, m)
    requires Save(d, offset, length, body, fault).error.NoError?
    ensures
      var s := Save(d, offset, length, body, fault);
      var data := Stored(body, fault);
      var end := offset + |data|;
      && 0 <= offset <= |Kept(d, offset)| && s.offset == end
      && s.disk.file.Some? && end <= |s.disk.file.value|
      && s.disk.file.value[..end] == Kept(d, offset)[..offset] + data
      && (s.disk.file.value == s.disk.file.value[..end] <==> |Kept(d, offset)| <= end)
      && (s.digest.Some? <==> end == length)
      && (s.digest.Some? ==>
            s.disk.info.None? && s.digest.value.sha1.Writable() && Finishable(s.digest.value.sha1)
            && Sums(s.digest.value) == ChecksumsOf(m + Hashed(body, fault)))
      && (s.digest.None? ==>
            ReadInfo(s.disk.info).Some? && ReadInfo(s.disk.info).value.offset == end
            && IsDigestOf(ReadInfo(s.disk.info).value.digest, m + Hashed(body, fault)))
  {
    hide Written, Parsed, IsDigestOf, Extend, WriteAt, Sums, ChecksumsOf;
    CreatedInv();
    NewDigestIsDigest();
    var fi := if offset == 0 then NEW_INFO else ReadInfo(d.info).value;
    var f := Kept(d, offset);
    var data, read := Stored(body, fault), Hashed(body, fault);
    hide Stored, Hashed;
    assert IsDigestOf(fi.digest, m);
    WriteAtPrefix(f, offset, data);
    ExtendIsDigest(fi.digest, m, read);
    var fi' := Info(offset + |data|, Extend(fi.digest, read));
    ParsedWritten(fi');
    SumsAreChecksums(fi'.digest, m + read);
  }

  /** Without torn writes those are the checksums of exactly what has been stored, and of
      the whole file if and only if the file that was continued was not already longer. */
  lemma PatchSums(d: Disk, offset: int, length: int, body: seq<bv8>, fault: Fault)
    requires Usable(d) && FromTruth(d, offset, fault) && !Torn(body, fault)
    requires Save(d, offset, length, body, fault).error.NoError?
    requires Save(d, offset, length, body, fault).digest.Some?
    ensures
      var s := Save(d, offset, length, body, fault);
      var end := offset + |Stored(body, fault)|;
      && s.disk.file.Some? && 0 <= end <= |s.disk.file.value|
      && s.digest.value.sha1.Writable()
      && Sums(s.digest.value) == ChecksumsOf(s.disk.file.value[..end])
      && (s.disk.file.value == s.disk.file.value[..end] <==> |Kept(d, offset)| <= end)
  {
    hide Written, Parsed, IsDigestOf, Extend, WriteAt, Sums, ChecksumsOf;
    assert Stored(body, fault) == Hashed(body, fault);
    hide Stored, Hashed, Torn;
    var m := Kept(d, offset)[..if offset == 0 then 0 else ReadInfo(d.info).value.offset];
    assert GoesOnFrom(d, offset, m) by {
      if offset != 0 {
        assert d.info.Some? && d.file.Some?;
      }
    }
    PatchStores(d, offset, length, body, fault, m);
  }

  /** A request that is refused with one of these codes changes nothing on disk. */
  lemma RefusalsChangeNothing(d: Disk, r: Request)
    ensures
      var (d', response) := Serve(d, r);
      && (response.status in {400, 404, 405} || r.Head? ==> d' == d)
      && (r.Head? ==> response.status == if ReadInfo(d.info).Some? then 200 else 500)
      && (response.status == 405 <==> r.OtherMethod?)
      && (response.status == 400 <==> r.Patch? && (!r.offset.Number? || r.length.Malformed?))
      && (r.Patch? && response.status == 404 <==>
            r.Patch? && r.offset.Number? && !r.length.Malformed? && !r.drain && r.lookup == Missing)
  {
    hide Save, Sums, Parsed, Written, IsDigestOf;
  }

  /** A PATCH of a drain asks no table; any other one reaches the disk exactly if its fid
      is being uploaded. */
  lemma DrainSkipsLookup(d: Disk, offset: int, length: Header, drain: bool, lookup: Lookup,
                         body: seq<bv8>, fault: Fault)
    requires !length.Malformed?
    ensures
      var s := Save(d, offset, LengthOf(length), body, fault);
      var (d', response) := Serve(d, Patch(Number(offset), length, drain, lookup, body, fault));
      if drain || lookup == Found then d' == s.disk && response == PatchReply(s)
      else d' == d && response.status / 100 != 2 && response == Reply(if lookup == Missing then 404 else 500)
  {
    hide Save;
  }

  /** A DELETE that succeeds clears the path, and it can only succeed while an upload is
      unfinished; otherwise the data stays. A POST starts over from nothing. */
  lemma DeleteAndPost(d: Disk, fault: Fault)
    requires Usable(d)
    ensures
      var (d', response) := Serve(d, Delete(fault));
      && (response.status == 200 <==> d.info.Some? && d.file.Some? && fault != DeleteInfoFails && fault != RemoveFails)
      && (response.status == 404 <==> d.info.None?)
      && response.status in {200, 404, 500}
      && d' == (if response.status == 200 then Disk(None, None)
                else if response.status == 404 || fault == DeleteInfoFails then d
                else d.(info := None))
    ensures
      var (d', response) := Serve(d, Post(fault));
      if fault == CreateFails then d' == d && response.status == 500
      else response.status == 200 && d'.file == Some([]) && ReadInfo(d'.info) == Some(NEW_INFO)
  {
    hide Parsed, Written, IsDigestOf;
    CreatedInv();
  }

  /** A PATCH gets as far as the data file. */
  predicate Proceeds(d: Disk, offset: int, fault: Fault) {
    if offset == 0 then fault != CreateFails
    else d.file.Some? && ReadInfo(d.info).Some? && ReadInfo(d.info).value.offset == offset
  }

  /** The calls whose failure a PATCH reports, once it has got that far; of the two that
      deal with the offset file, only one is made. */
  predicate Breaks(fault: Fault, completes: bool) {
    fault in {OpenFails, SeekFails, SyncFails, CloseFails, if completes then DeleteInfoFails else SaveInfoFails}
  }

  /** How a PATCH ends, in all cases. */
  lemma SaveEnds(d: Disk, offset: int, length: int, body: seq<bv8>, fault: Fault)
    requires Usable(d)
    ensures
      var s := Save(d, offset, length, body, fault);
      var goes := Proceeds(d, offset, fault);
      var completes := offset + |Stored(body, fault)| == length;
      && (s.error.NoError? <==> goes && !Breaks(fault, completes))
      && (s.error.Failed? <==> if goes then Breaks(fault, completes) else offset == 0)
      && (s.error.Mismatch? <==> !goes && offset != 0)
      && (s.error.Mismatch? ==> s.error.given == offset)
  {
    hide Written, Parsed, IsDigestOf, Extend, WriteAt, Stored, Hashed;
    CreatedInv();
    if offset != 0 && Proceeds(d, offset, fault) {
      var fi := ReadInfo(d.info).value;
      assert d.info.Some? && Fits(fi, d.file.value);
      var m :| IsDigestOf(fi.digest, m);
      ExtendIsDigest(fi.digest, m, []);
    }
  }

  /** What every PATCH leaves on the disk. One that is turned away changes nothing, unless the
      data file is missing: then its offset file goes as well. One that breaks off later has
      stored its data without saying so. */
  lemma SaveLeaves(d: Disk, offset: int, length: int, body: seq<bv8>, fault: Fault)
    requires Usable(d)
    ensures
      var s := Save(d, offset, length, body, fault);
      var writes := fault != OpenFails && fault != SeekFails;
      if !Proceeds(d, offset, fault) then
        s.disk == if offset != 0 && ReadInfo(d.info).value.offset == offset && fault != DeleteInfoFails
                  then Disk(None, None) else d
      else
        && s.disk.file ==
             Some(if writes then WriteAt(Kept(d, offset), offset, Stored(body, fault)) else Kept(d, offset))
        && (!s.error.NoError? ==> s.disk.info == if offset == 0 then Some(Written(NEW_INFO)) else d.info)
        && (s.error.NoError? ==> (s.disk.info.None? <==> offset + |Stored(body, fault)| == length))
  {
    hide Parsed, IsDigestOf, WriteAt, Stored, Hashed, Breaks, Extend, Written, Torn;
    CreatedInv();
    SaveEnds(d, offset, length, body, fault);
  }

  /** A HEAD request answers with the offset that a PATCH may go on from. A conflict names
      the offset that a HEAD would have, or zero if only the data file is missing. */
  lemma ConflictNamesOffset(d: Disk, offset: int, length: Header, drain: bool, lookup: Lookup,
                            body: seq<bv8>, fault: Fault)
    requires Usable(d) && !length.Malformed?
    ensures
      var head := Serve(d, Head).1;
      var answer := Serve(d, Patch(Number(offset), length, drain, lookup, body, fault)).1;
      && head.status == 200 && head.offset == Some(if d.info.None? then 0 else Parsed(d.info.value).value.offset)
      && (answer.status == 409 <==>
            && (drain || lookup == Found)
            && offset != 0 && (head.offset != Some(offset) || d.file.None?))
      && (answer.status == 409 ==>
            answer == Response(409, if head.offset == Some(offset) then Some(0) else head.offset, NO_SUMS))
  {
    hide Written, Parsed, IsDigestOf, Extend, WriteAt, Stored, Hashed, Sums, Finishable;
    SaveEnds(d, offset, LengthOf(length), body, fault);
    hide Breaks;
  }

  /** A PATCH that succeeds names the offset it has got to, which a HEAD then answers as well
      until the upload is complete; one that fails otherwise says nothing. */
  lemma SuccessNamesOffset(d: Disk, offset: int, length: int, body: seq<bv8>, fault: Fault)
    requires Usable(d)
    ensures
      var s := Save(d, offset, length, body, fault);
      var answer := PatchReply(s);
      var end := offset + |Stored(body, fault)|;
      && (answer.status == 200 <==> Proceeds(d, offset, fault) && !Breaks(fault, end == length))
      && (answer.status == 200 ==>
            && answer.offset == Some(end) && (end != length ==> answer.sums == NO_SUMS)
            && ReadInfo(s.disk.info).Some? && ReadInfo(s.disk.info).value.offset == if end == length then 0 else end)
      && (answer.status == 500 ==> answer == Reply(500))
  {
    hide Save, Breaks, Proceeds, Sums, Finishable, Stored, Hashed, Parsed, Usable, ReadInfo, ChecksumsOf, Kept,
      GoesOnFrom, IsDigestOf;
    var s := Save(d, offset, length, body, fault);
    SaveEnds(d, offset, length, body, fault);
    if s.error.NoError? {
      var m := SomethingAbsorbed(d, offset, length, body, fault);
      PatchStores(d, offset, length, body, fault, m);
      NoInfo(s.disk);
    }
  }

  lemma NoInfo(d: Disk)
    ensures d.info.None? ==> ReadInfo(d.info) == Some(NEW_INFO)
  {}

  /** The digests that a PATCH goes on with have absorbed something. */
  lemma SomethingAbsorbed(d: Disk, offset: int, length: int, body: seq<bv8>, fault: Fault) returns (m: seq<bv8>)
    requires Usable(d) && Save(d, offset, length, body, fault).error.NoError?
    ensures GoesOnFrom(d, offset, m)
  {
    hide Written, Parsed, IsDigestOf, Extend, WriteAt, Stored, Hashed;
    m := [];
    if offset != 0 {
      assert d.info.Some? && d.file.Some?;
      m :| IsDigestOf(ReadInfo(d.info).value.digest, m);
    }
  }

  /** An offset file may hold a digest that cannot be written to. A PATCH that tries makes the
      handler panic after the data has been stored; the answer is an empty success. */
  lemma PanicAnswers(d: Disk, offset: int, length: int, body: seq<bv8>)
    requires d.file.Some? && d.info.Some? && Parsed(d.info.value).Some? && body != []
    requires 0 < offset == Parsed(d.info.value).value.offset && !Parsed(d.info.value).value.digest.sha1.Writable()
    ensures
      var s := Save(d, offset, length, body, NoFault);
      && s.error.Aborted? && PatchReply(s) == Response(200, None, NO_SUMS)
      && s.disk == d.(file := Some(WriteAt(d.file.value, offset, body)))
  {
    hide Parsed, WriteAt, Extend, Written;
  }

  function Upload(offset: int, length: int, body: seq<bv8>, fault: Fault): Event {
    Request(Patch(Number(offset), Number(length), false, Found, body, fault))
  }

  /** The condition in PatchStores is needed: a client that sends other bytes after a
      failed sync completes a file that is longer than what its checksums cover. */
  lemma StaleTail()
    ensures
      var d := Run(Disk(None, None), [Upload(0, -1, [1], NoFault), Upload(1, -1, [2, 3], SyncFails)]);
      var s := Save(d, 1, 2, [9], NoFault);
      s.error.NoError? && s.digest.Some? && s.offset == 2 && s.disk.file == Some([1, 9, 3])
  {
    hide Written, Parsed, IsDigestOf, Extend, Sums;
    assert WriteAt([], 0, [1]) == [1];
    assert WriteAt([1], 1, [2, 3]) == [1, 2, 3];
    assert WriteAt([1, 2, 3], 1, [9]) == [1, 9, 3];
    var d0 := Disk(None, None);
    var e1, e2 := Upload(0, -1, [1], NoFault), Upload(1, -1, [2, 3], SyncFails);
    CreatedInv();
    var fi := Info(1, Extend(NEW_DIGEST, [1]));
    ParsedWritten(fi);
    var d1 := Apply(d0, e1);
    assert d1 == Disk(Some([1]), Some(Written(fi)));
    var d2 := Apply(d1, e2);
    assert d2 == Disk(Some([1, 2, 3]), Some(Written(fi)));
    calc {
      Run(d0, [e1, e2]);
      { assert [e1, e2][1..] == [e2]; }
      Run(d1, [e2]);
      { assert [e2][1..] == []; }
      Run(d2, []);
      d2;
    }
  }

  // ------------------------------------------------------------- the file receiver

  /** The handler with the files it works on. */
  class FileReceiver {
    var file: Option<seq<bv8>>
    var info: Option<InfoText>

    function Contents(): Disk
      reads this
    {
      Disk(file, info)
    }

    constructor ()
      ensures Contents() == Disk(None, None)
    {
      file, info := None, None;
    }

    method CreateFile(fault: Fault) returns (ok: bool)
      modifies this
      ensures ok <==> fault != CreateFails
      ensures Contents() == if ok then CreatedDisk() else old(Contents())
    {
      if fault == CreateFails {
        return false;
      }
      file := Some([]);
      info := Some(Written(NEW_INFO));
      ok := true;
    }

    method SaveFile(offset: int, length: int, body: seq<bv8>, fault: Fault)
      returns (newOffset: int, digest: Option<Digest>, error: SaveError)
      modifies this
      ensures Saved(Contents(), newOffset, digest, error) == Save(old(Contents()), offset, length, body, fault)
    {
      hide Written, Parsed, Extend, WriteAt, Stored, Hashed;
      newOffset, digest, error := 0, None, NoError;
      var fi: Info;
      if offset == 0 {
        var ok := CreateFile(fault);
        if !ok {
          return 0, None, Failed;
        }
        fi := NEW_INFO;
      } else {
        var existing := ReadInfo(info);
        if existing.None? {
          return 0, None, Failed;
        }
        fi := existing.value;
        if offset != fi.offset {
          return 0, None, Mismatch(offset, fi.offset);
        }
      }
      if file.None? {
        if fault != DeleteInfoFails {
          info := None;
        }
        return 0, None, Mismatch(offset, 0);
      }
      if fault == OpenFails || fault == SeekFails || offset < 0 {
        return 0, None, Failed;
      }
      var data, read := Stored(body, fault), Hashed(body, fault);
      file := Some(WriteAt(file.value, offset, data));
      if read != [] && !fi.digest.sha1.Writable() {
        return 0, None, Aborted;
      }
      fi := fi.(digest := Extend(fi.digest, read));
      if fault == SyncFails || fault == CloseFails {
        return 0, None, Failed;
      }
      fi := fi.(offset := offset + |data|);
      newOffset := fi.offset;
      if fi.offset == length {
        digest := Some(fi.digest);
        if fault == DeleteInfoFails {
          error := Failed;
        } else {
          info := None;
        }
      } else if fault == SaveInfoFails {
        error := Failed;
      } else {
        info := Some(Written(fi));
      }
    }

    method ServeHTTP(r: Request) returns (response: Response)
      modifies this
      ensures (Contents(), response) == Serve(old(Contents()), r)
    {
      hide Written, Parsed, Save, Sums;
      match r
      case Post(fault) =>
        var ok := CreateFile(fault);
        response := Reply(if ok then 200 else 500);
      case Head =>
        var fi := ReadInfo(info);
        if fi.None? {
          return Reply(500);
        }
        response := Response(200, Some(fi.value.offset), NO_SUMS);
      case Patch(offsetHeader, lengthHeader, drain, lookup, body, fault) =>
        if !offsetHeader.Number? {
          return Reply(400);
        }
        var length := -1;
        if lengthHeader.Malformed? {
          return Reply(400);
        } else if lengthHeader.Number? {
          length := lengthHeader.value;
        }
        if !drain {
          if lookup.LookupFails? {
            return Reply(500);
          }
          if lookup.Missing? {
            return Reply(404);
          }
        }
        var newOffset, digest, error := SaveFile(offsetHeader.value, length, body, fault);
        if error.Mismatch? {
          return Response(409, Some(error.required), NO_SUMS);
        }
        if error.Failed? {
          return Reply(500);
        }
        if error.Aborted? {
          return RECOVERED;
        }
        response := Response(200, Some(newOffset), NO_SUMS);
        if digest.Some? {
          if !Finishable(digest.value.sha1) || !digest.value.sha1.Writable() {
            return RECOVERED;
          }
          response := response.(sums := Sums(digest.value));
        }
      case Delete(fault) =>
        if info.None? {
          return Reply(404);
        }
        if Parsed(info.value).None? {
          return Reply(500);
        }
        if fault == DeleteInfoFails {
          return Reply(500);
        }
        info := None;
        if fault == RemoveFails || file.None? {
          return Reply(500);
        }
        file := None;
        response := Reply(200);
      case OtherMethod =>
        response := Reply(405);
    }
  }
}
