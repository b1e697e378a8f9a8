/** The uploading client (write.go) talking to the file receiver over a network that
    may cut bodies, lose requests and responses, and meet failing disks. */
module Upload {
  import opened Codec
  import opened FileInfo
  import opened Receiver
  import opened Sha1File
  import opened Sha1State
  import opened Protocol
  import Sha1Spec

  /** What happens to one request. Before it, the data file may be removed from
      outside. A body is sent completely, or read bytes are taken from the source of
      which take arrive. */
  datatype Exchange = Exchange(
    removed: bool, reached: bool, complete: bool, read: nat, take: nat, lost: bool, lookup: Lookup, fault: Fault)

  const SMOOTH := Exchange(false, true, true, 0, 0, false, Found, NoFault)

  class Network {
    const script: seq<Exchange>
    var next: nat

    constructor (script: seq<Exchange>)
      ensures this.script == script && next == 0
    {
      this.script := script;
      next := 0;
    }

    /** From here on nothing goes wrong. */
    predicate Quiet()
      reads this
    {
      next >= |script|
    }

    /** From here on no write stores part of its bytes only. */
    predicate Whole()
      reads this
    {
      forall i :: next <= i < |script| ==> !(script[i].fault.WriteFails? && script[i].fault.torn > 0)
    }

    /** What happens to the next request. */
    function Now(): Exchange
      reads this
    {
      if next < |script| then script[next] else SMOOTH
    }

    method Take() returns (e: Exchange)
      modifies this
      ensures next == old(next) + 1 && e == old(Now())
      ensures old(Quiet()) ==> e == SMOOTH
      ensures e == SMOOTH || e in script
      ensures old(Whole()) ==> Whole() && !(e.fault.WriteFails? && e.fault.torn > 0)
    {
      e := Now();
      next := next + 1;
    }
  }

  /** The client is told that its fid is not being uploaded any more. */
  predicate ToldExpired(e: Exchange, drainer: bool) {
    e.reached && !e.lost && !drainer && e.lookup == Missing
  }

  /** The request reaches the disk if it starts over. */
  predicate Restarts(e: Exchange, drainer: bool) {
    e.reached && (drainer || e.lookup == Found) && e.fault != CreateFails
  }

  /** How much of the source a PATCH takes. */
  function BytesRead(e: Exchange, limit: nat, total: nat): nat {
    if e.complete then Min(limit, total) else Min(e.read, Min(limit, total))
  }

  /** The first request leaves the client behind the server: it does not reach the disk, on
      which an earlier upload got further than the client has read. */
  predicate Strands(d: Disk, e: Exchange, drainer: bool, chunk: nat, total: nat) {
    !Restarts(e, drainer) && ServerOffset(d) > BytesRead(e, chunk, total)
  }

  /** There is such an exchange exactly on a path that does not start from nothing. */
  lemma StrandsIff(d: Disk, drainer: bool, chunk: nat, total: nat)
    ensures (exists e :: Strands(d, e, drainer, chunk, total)) <==> ServerOffset(d) > 0
  {
    hide ServerOffset;
    var e := Exchange(false, false, false, 0, 0, false, Found, NoFault);
    assert BytesRead(e, chunk, total) == 0;
    assert Strands(d, e, drainer, chunk, total) <==> ServerOffset(d) > 0;
  }

  datatype Failure = Lost | Status(code: int) | BadOffset | CannotSeek | Sha1Mismatch | GaveUp

  datatype Result = Sent(sums: Checksums) | Error(failure: Failure)

  /** The last PATCH, if the client has seen it answered with success: where it started,
      how far the client has read, how far the server has stored, and the checksums. */
  datatype Answered = Answered(from: int, upTo: int, stored: int, sums: Checksums) {
    predicate Short() {
      stored < upTo
    }
  }

  class Client {
    const chunkSize: nat
    const drainer: bool
    const server: FileReceiver
    const net: Network
    ghost var log: seq<Range>
    ghost var last: Option<Answered>

    constructor (chunkSize: nat, drainer: bool, server: FileReceiver, net: Network)
      ensures this.chunkSize == chunkSize && this.drainer == drainer
      ensures this.server == server && this.net == net && log == [] && last == None
    {
      this.chunkSize := chunkSize;
      this.drainer := drainer;
      this.server := server;
      this.net := net;
      log, last := [], None;
    }

    /** The wrapper may be read, and the server agrees with the source. */
    ghost predicate Ready(sf: Sha1File)
      reads server, sf, sf.rs, sf.digest, sf.digest.h, sf.digest.x
    {
      && sf.digest.Valid()
      && Agrees(sf.rs.content, server.Contents())
      && InSync(sf.rs.content, sf.State())
    }

    /** The checksums beside the server's file are those of what it has, and no write will
        be torn. */
    ghost predicate Truthful()
      reads server, net
    {
      Inv(server.Contents()) && net.Whole()
    }

    /** So it is, or will be after a request from the start. */
    ghost predicate WillBeTruthful()
      reads this, server, net
    {
      net.Whole() && (Inv(server.Contents()) || Restarts(net.Now(), drainer))
    }

    /** Checksums may be trusted after a request from there. */
    ghost predicate Trusted(offset: int)
      reads this, server, net
    {
      if offset == 0 then WillBeTruthful() else Truthful()
    }

    lemma TruthfulTrusted(offset: int)
      requires Truthful()
      ensures Trusted(offset)
    {}

    lemma QuietTruthful()
      requires net.Quiet()
      ensures WillBeTruthful()
    {}

    /** What a request finds. */
    function Before(d: Disk, e: Exchange): Disk {
      if e.removed then d.(file := None) else d
    }

    /** The server answers one request, after a removal from outside if there is one. */
    method Deliver(ghost content: seq<bv8>, e: Exchange, offset: nat, size: int, body: seq<bv8>, ghost truthful: bool)
      returns (response: Response)
      requires truthful ==>
        !Torn(body, e.fault) && (Inv(server.Contents()) || (offset == 0 && Restarts(e, drainer)))
      requires Agrees(content, server.Contents()) && -1 <= size
      requires offset + |body| <= |content| && body == content[offset..offset + |body|]
      modifies server
      ensures
        var d := Before(old(server.Contents()), e);
        if e.reached then
          (server.Contents(), response) ==
            Serve(d, UploadRequest(offset, size, drainer, e.lookup, body, e.fault))
        else
          server.Contents() == d
      ensures Agrees(content, server.Contents())
      ensures ServerOffset(server.Contents()) <= Max(old(ServerOffset(server.Contents())), offset + |body|)
      ensures offset + |Stored(body, e.fault)| <= |content|
      ensures response.status / 100 == 2 ==>
        && e.reached
        && Acknowledged(content, server.Contents(), offset + |Stored(body, e.fault)|, size, truthful, response)
      ensures truthful ==> Inv(server.Contents())
      ensures e == SMOOTH && old(Accepts(server.Contents(), offset)) ==> response.status / 100 == 2
      ensures e == SMOOTH && old(Orphaned(server.Contents(), offset)) ==>
        response.status / 100 != 2 && ServerOffset(server.Contents()) == 0
      ensures response.status == 404 <==> e.reached && !drainer && e.lookup == Missing
      ensures offset == 0 && Restarts(e, drainer) ==> ServerOffset(server.Contents()) <= |body|
      ensures offset == 0 && !Restarts(e, drainer) ==>
        response.status / 100 != 2 && ServerOffset(server.Contents()) == old(ServerOffset(server.Contents()))
    {
      hide Inv, Usable, Prefix, Serve, ServerOffset, ChecksumsOf, Accepts, Orphaned, Acknowledged, Stored, Torn,
        OfSomething;
      StoredSlice(content, offset, body, e.fault);
      ServerOffsetKnown(content, server.Contents());
      if e.removed {
        RemovedAgrees(content, server.Contents());
        server.file := None;
      }
      response := Reply(0);
      if e.reached {
        var d := server.Contents();
        ServeUpload(content, d, offset, size, drainer, e.lookup, body, e.fault);
        ServeNotFound(d, offset, size, drainer, e.lookup, body, e.fault);
        ghost var honest := FromTruth(d, offset, e.fault) && !Torn(body, e.fault);
        if offset == 0 {
          ServeRestart(content, d, size, drainer, e.lookup, body, e.fault);
        }
        if e == SMOOTH && Orphaned(d, offset) {
          ServeOrphaned(content, d, offset, size, drainer, body);
        }
        response := server.ServeHTTP(UploadRequest(offset, size, drainer, e.lookup, body, e.fault));
        if response.status / 100 == 2 {
          LessTruthful(content, server.Contents(), offset + |Stored(body, e.fault)|, size, honest, truthful, response);
        }
      }
    }

    lemma LessTruthful(content: seq<bv8>, d: Disk, end: nat, size: int, truthful: bool, less: bool, response: Response)
      requires end <= |content| && Acknowledged(content, d, end, size, truthful, response) && (less ==> truthful)
      ensures Acknowledged(content, d, end, size, less, response)
    {}

    /** Reads a body of up to limit bytes: how much of the source is taken, and how much of
        that is sent. */
    method TakeBody(sf: Sha1File, limit: nat, e: Exchange) returns (n: nat, body: seq<bv8>)
      requires Ready(sf)
      modifies sf, sf.rs, sf.digest, sf.digest.h, sf.digest.x
      ensures Ready(sf) && 0 <= old(sf.position) && sf.position == old(sf.position) + n <= |sf.rs.content|
      ensures sf.calculated >= old(sf.calculated)
      ensures n == BytesRead(e, limit, |sf.rs.content| - old(sf.position))
      ensures |body| <= n <= limit
      ensures e.complete ==> |body| == n == Min(limit, |sf.rs.content| - old(sf.position))
      ensures body == sf.rs.content[old(sf.position)..old(sf.position) + |body|]
    {
      hide InSync, Agrees, ReadStep, SumOf;
      ghost var content := sf.rs.content;
      ghost var s := sf.State();
      SyncedBounds(content, s);
      var most := Min(limit, Remaining(sf.rs.content, sf.rs.pos));
      n := if e.complete then most else Min(e.read, most);
      ReadKeepsInSync(content, s, n);
      var data, readable := sf.Read(n);
      assert readable;
      body := if e.complete then data else data[..Min(e.take, n)];
      SentBody(content, s.position, n, data, body);
    }

    lemma ReadyAgrees(sf: Sha1File)
      requires Ready(sf)
      ensures sf.digest.Valid() && Agrees(sf.rs.content, server.Contents()) && InSync(sf.rs.content, sf.State())
    {}

    lemma StillReady(sf: Sha1File)
      requires sf.digest.Valid() && InSync(sf.rs.content, sf.State()) && Agrees(sf.rs.content, server.Contents())
      ensures Ready(sf)
    {}

    /** The request of a PATCH and what the server makes of it. */
    method Transfer(sf: Sha1File, limit: nat, e: Exchange, offset: int, size: int, ghost truthful: bool)
      returns (response: Response, n: nat, body: seq<bv8>)
      requires Ready(sf) && offset == sf.position && -1 <= size
      requires truthful ==>
        && !(e.fault.WriteFails? && e.fault.torn > 0)
        && (Inv(server.Contents()) || (offset == 0 && Restarts(e, drainer)))
      modifies server, sf, sf.rs, sf.digest, sf.digest.h, sf.digest.x
      ensures Ready(sf) && sf.position == offset + n <= |sf.rs.content| && sf.calculated >= old(sf.calculated)
      ensures |body| <= n <= limit && n == BytesRead(e, limit, |sf.rs.content| - offset)
      ensures e.complete ==> |body| == n == Min(limit, |sf.rs.content| - offset)
      ensures ServerOffset(server.Contents()) <= Max(old(ServerOffset(server.Contents())), sf.position)
      ensures truthful ==> Inv(server.Contents())
      ensures 0 <= offset && offset + |Stored(body, e.fault)| <= sf.position
      ensures Stored(body, e.fault) != body ==> e.fault.WriteFails? && offset + |Stored(body, e.fault)| < sf.position
      ensures response.status / 100 == 2 ==>
        && e.reached
        && Acknowledged(sf.rs.content, server.Contents(), offset + |Stored(body, e.fault)|, size, truthful, response)
      ensures e == SMOOTH && old(Accepts(server.Contents(), offset)) ==> response.status / 100 == 2
      ensures e == SMOOTH && old(Orphaned(server.Contents(), offset)) ==>
        response.status / 100 != 2 && ServerOffset(server.Contents()) == 0
      ensures response.status == 404 <==> e.reached && !drainer && e.lookup == Missing
      ensures offset == 0 && Restarts(e, drainer) ==> ServerOffset(server.Contents()) <= sf.position
      ensures offset == 0 && !Restarts(e, drainer) ==>
        response.status / 100 != 2 && ServerOffset(server.Contents()) == old(ServerOffset(server.Contents()))
    {
      hide Ready, InSync, Agrees, Acknowledged, Accepts, Orphaned, ServerOffset, SumOf, Restarts, Stored, Inv, Torn,
        BytesRead;
      n, body := TakeBody(sf, limit, e);
      StoredShort(body, e.fault);
      ReadyAgrees(sf);
      response := Deliver(sf.rs.content, e, offset, size, body, truthful);
      StillReady(sf);
    }

    /** One PATCH with up to limit bytes of the source, announcing size if it is known. */
    method Patch(sf: Sha1File, limit: nat, offset: int, size: int)
      returns (response: Response, error: Option<Failure>, n: nat)
      requires Ready(sf) && offset == sf.position && -1 <= size
      modifies this`log, this`last, server, net, sf, sf.rs, sf.digest, sf.digest.h, sf.digest.x
      ensures Ready(sf) && sf.position == offset + n && n <= limit
      ensures ServerOffset(server.Contents()) <= Max(old(ServerOffset(server.Contents())), sf.position)
      ensures sf.calculated >= old(sf.calculated)
      ensures error != Some(CannotSeek)
      ensures error.None? <==> last.Some?
      ensures error.None? ==>
        && last.value.from == offset && last.value.upTo == sf.position && last.value.sums == response.sums
        && offset <= last.value.stored <= sf.position <= |sf.rs.content|
        && Acknowledged(sf.rs.content, server.Contents(), last.value.stored, size,
                        old(Trusted(offset)), response)
        && (if last.value.Short() then exists e :: e in net.script && e.fault.WriteFails?
            else n == Min(limit, |sf.rs.content| - offset))
      ensures old(net.Quiet() && Accepts(server.Contents(), offset)) ==>
        error.None? && !last.value.Short() && log == old(log) + [Range(offset, n, size)]
      ensures old(net.Quiet() && Orphaned(server.Contents(), offset)) ==>
        error.Some? && ServerOffset(server.Contents()) == 0
      ensures old(Trusted(offset)) ==> Truthful()
      ensures Asked(old(log), log, offset)
      ensures net.next == old(net.next) + 1
      ensures error == Some(Status(404)) <==> ToldExpired(old(net.Now()), drainer)
      ensures error == Some(Status(404)) ==> exists e :: e in net.script && e.lookup == Missing
      ensures offset == 0 && Restarts(old(net.Now()), drainer) ==> ServerOffset(server.Contents()) <= sf.position
      ensures offset == 0 && !Restarts(old(net.Now()), drainer) ==>
        && error.Some? && ServerOffset(server.Contents()) == old(ServerOffset(server.Contents()))
        && n == BytesRead(old(net.Now()), limit, |sf.rs.content|)
    {
      hide Ready, InSync, Agrees, Acknowledged, Accepts, Orphaned, ServerOffset, SumOf, Restarts, Stored, Inv, Torn,
        BytesRead, Seen;
      ghost var truthful := Trusted(offset);
      var e := net.Take();
      var body;
      response, n, body := Transfer(sf, limit, e, offset, size, truthful);
      log := log + [Range(offset, |body|, size)];
      error := Seen(e, response.status, Stored(body, e.fault) != body);
      last := if error.Some? then None
              else Some(Answered(offset, offset + n, offset + |Stored(body, e.fault)|, response.sums));
    }

    /** Requests have been made, the first of them at an offset. */
    ghost predicate Asked(before: seq<Range>, now: seq<Range>, offset: int) {
      before < now && now[|before|].offset == offset
    }

    lemma AskedMore(before: seq<Range>, now: seq<Range>, later: seq<Range>, offset: int, next: int)
      requires (before == now && next == offset) || Asked(before, now, offset)
      requires Asked(now, later, next)
      ensures Asked(before, later, offset)
    {}

    /** What the client makes of the exchange. The handler answers once the body has ended,
        or early at the first write that is refused. When the body has been cut before,
        the connection is gone. */
    function Seen(e: Exchange, status: int, early: bool): (error: Option<Failure>)
      ensures error.None? ==> e.reached && status / 100 == 2 && (e.complete || early)
      ensures e == SMOOTH && status / 100 == 2 ==> error.None?
      ensures !e.reached || status / 100 != 2 ==> error.Some?
      ensures error.Some? ==> error.value == Lost || error.value == Status(status)
      ensures error == Some(Status(404)) <==> e.reached && !e.lost && status == 404
    {
      if !e.reached || e.lost then Some(Lost)
      else if status / 100 != 2 then Some(Status(status))
      else if !e.complete && !early then Some(Lost)
      else None
    }

    /** Asks the server how far it is. */
    method GetOffset(ghost content: seq<bv8>) returns (offset: int, error: Option<Failure>)
      requires Agrees(content, server.Contents())
      modifies server, net
      ensures Agrees(content, server.Contents())
      ensures ServerOffset(server.Contents()) == old(ServerOffset(server.Contents()))
      ensures server.Contents() == Before(old(server.Contents()), old(net.Now()))
      ensures error.None? ==> 0 <= offset == ServerOffset(server.Contents())
      ensures old(Truthful()) ==> Truthful()
      ensures error != Some(CannotSeek) && error != Some(Status(404))
      ensures net.next > old(net.next)
      ensures old(net.Quiet()) ==> error.None? && server.Contents() == old(server.Contents())
    {
      hide Prefix, IsDigestOf;
      offset := 0;
      var e := net.Take();
      ServerOffsetKnown(content, server.Contents());
      if e.removed {
        RemovedAgrees(content, server.Contents());
        server.file := None;
      }
      if !e.reached {
        return 0, Some(Lost);
      }
      var response := server.ServeHTTP(Head);
      if e.lost {
        return 0, Some(Lost);
      }
      if response.offset.None? {
        return 0, Some(BadOffset);
      }
      return response.offset.value, None;
    }

    /** How sending may end without an error: the server has the source, or the client has
        read it to the end of a known size and the server has refused to store the last
        part. Then the client has no checksums; otherwise it has some. */
    ghost predicate Concluded(content: seq<bv8>, size: int, sums: Checksums)
      reads this, server
    {
      && last.Some? && last.value.upTo == |content| && last.value.sums == sums
      && (if last.value.Short()
          then |content| == size && sums == NO_SUMS && exists e :: e in net.script && e.fault.WriteFails?
          else Complete(content, server.Contents()) && OfSomething(sums))
    }

    /** Where the server has the source, the checksums are its own. */
    ghost predicate Honest(content: seq<bv8>)
      reads this
    {
      last.Some? && !last.value.Short() ==> last.value.sums == ChecksumsOf(content)
    }

    lemma WholeConcluded(content: seq<bv8>, size: int, announced: int, sums: Checksums)
      requires last.Some? && !last.value.Short() && Concluded(content, size, sums)
      ensures Concluded(content, announced, sums)
    {}

    lemma EndConcluded(content: seq<bv8>, size: int, truthful: bool, response: Response)
      requires last.Some? && 0 <= last.value.stored <= last.value.upTo == |content| == size
      requires Acknowledged(content, server.Contents(), last.value.stored, size, truthful, response)
      requires last.value.Short() ==> exists e :: e in net.script && e.fault.WriteFails?
      requires last.value.sums == response.sums
      ensures Concluded(content, size, response.sums)
      ensures truthful ==> Honest(content)
    {
      hide Complete, ChecksumsOf, OfSomething;
      AcknowledgedAtEnd(content, server.Contents(), last.value.stored, size, truthful, response);
    }

    /** Closes an upload of unknown size with a PATCH that carries nothing. */
    method FinishFile(sf: Sha1File, size: int) returns (r: Result)
      requires Ready(sf) && size == sf.position && size == |sf.rs.content|
      modifies this`log, this`last, server, net, sf, sf.rs, sf.digest, sf.digest.h, sf.digest.x
      ensures Ready(sf) && sf.position == size == sf.calculated
      ensures ServerOffset(server.Contents()) <= Max(old(ServerOffset(server.Contents())), sf.position)
      ensures r.Sent? ==> Complete(sf.rs.content, server.Contents())
      ensures if r.Sent? then last.Some? && !last.value.Short() && Concluded(sf.rs.content, -1, r.sums)
              else last.None? && r.failure != CannotSeek
      ensures old(Truthful()) ==> Truthful() && Honest(sf.rs.content)
      ensures old(net.Quiet() && Accepts(server.Contents(), size)) ==>
        r.Sent? && log == old(log) + [Range(size, 0, size)]
      ensures Asked(old(log), log, size)
      ensures net.next > old(net.next)
      ensures r == Error(Status(404)) ==> exists e :: e in net.script && e.lookup == Missing
    {
      hide InSync, Agrees, Accepts, ServerOffset, ChecksumsOf, Concluded, Acknowledged, Inv;
      PositionBounds(sf);
      ghost var truthful := Trusted(size);
      var response, error, n := Patch(sf, 0, size, size);
      CalculatedAtEnd(sf);
      if error.Some? {
        return Error(error.value);
      }
      EndConcluded(sf.rs.content, size, truthful, response);
      ConcludedMeans(sf.rs.content, size, response.sums);
      WholeConcluded(sf.rs.content, size, -1, response.sums);
      return Sent(response.sums);
    }

    lemma PositionBounds(sf: Sha1File)
      requires Ready(sf)
      ensures 0 <= sf.rs.pos == sf.position <= |sf.rs.content|
    {}

    /** Sends one chunk, and says how sending ends if it does: with an error, at the end of a
        known size, or after a chunk without bytes. */
    method SendChunk(sf: Sha1File, requestOffset: int, size: int) returns (r: Option<Result>, n: nat)
      requires chunkSize > 0
      requires Ready(sf) && requestOffset == sf.position && (size == |sf.rs.content| || size == -1)
      modifies this`log, this`last, server, net, sf, sf.rs, sf.digest, sf.digest.h, sf.digest.x
      ensures Ready(sf) && 0 <= requestOffset && sf.position == requestOffset + n <= |sf.rs.content|
      ensures r.None? ==> n > 0
      ensures ServerOffset(server.Contents()) <= Max(old(ServerOffset(server.Contents())), sf.position)
      ensures r.Some? && r.value.Sent? ==>
        last.Some? && sf.calculated == |sf.rs.content| && Concluded(sf.rs.content, size, r.value.sums)
      ensures r.Some? && r.value.Error? ==> last.None? && r.value.failure != CannotSeek
      ensures Asked(old(log), log, requestOffset)
      ensures old(Trusted(requestOffset)) ==> Truthful() && (r.Some? ==> Honest(sf.rs.content))
      ensures old(net.Quiet() && Accepts(server.Contents(), requestOffset)) ==>
        var goal := old(log) + Requests(requestOffset, |sf.rs.content|, chunkSize, size != -1);
        if r.Some? then r.value.Sent? && !last.value.Short() && log == goal
        else
          && net.Quiet() && Accepts(server.Contents(), sf.position)
          && log + Requests(sf.position, |sf.rs.content|, chunkSize, size != -1) == goal
      ensures old(net.Quiet() && Orphaned(server.Contents(), requestOffset)) ==>
        r.Some? && r.value.Error? && ServerOffset(server.Contents()) == 0
      ensures net.next > old(net.next)
      ensures r == Some(Error(Status(404))) ==> exists e :: e in net.script && e.lookup == Missing
      ensures ToldExpired(old(net.Now()), drainer) ==>
        r == Some(Error(Status(404))) && net.next == old(net.next) + 1
      ensures requestOffset == 0 && Restarts(old(net.Now()), drainer) ==>
        ServerOffset(server.Contents()) <= sf.position
      ensures requestOffset == 0 && !Restarts(old(net.Now()), drainer) ==>
        && r.Some? && r.value.Error? && ServerOffset(server.Contents()) == old(ServerOffset(server.Contents()))
        && sf.position == BytesRead(old(net.Now()), chunkSize, |sf.rs.content|)
    {
      hide Ready, Orphaned, Agrees, InSync, Acknowledged, Complete, ServerOffset, ChecksumsOf, Accepts, Requests,
        Restarts, BytesRead, Concluded, Inv, Honest, ToldExpired, Asked;
      ghost var content := sf.rs.content;
      PositionBounds(sf);
      NextRequest(log, requestOffset, |content|, chunkSize, size);
      ghost var trusted := Trusted(requestOffset);
      ghost var log0 := log;
      var response, error;
      response, error, n := Patch(sf, chunkSize, requestOffset, size);
      PositionBounds(sf);
      if error.Some? {
        NothingHonest(content);
        return Some(Error(error.value)), n;
      }
      var currentOffset := requestOffset + n;
      if currentOffset == size {
        CalculatedAtEnd(sf);
        EndConcluded(content, size, trusted, response);
        return Some(Sent(response.sums)), n;
      }
      if !last.value.Short() {
        AcknowledgedAccepts(content, server.Contents(), currentOffset, size, trusted, response);
      }
      if n == 0 {
        CalculatedAtEnd(sf);
        ghost var log1 := log;
        var finished := FinishFile(sf, requestOffset);
        AskedMore(log0, log1, log, requestOffset, requestOffset);
        return Some(finished), n;
      }
      r := None;
    }

    /** Sends chunks until the source is sent or a request fails. With a quiet network
        it makes exactly the requests of Requests and succeeds. */
    method Send(sf: Sha1File, offset: int, size: int) returns (r: Result)
      requires chunkSize > 0
      requires Ready(sf) && offset == sf.position && (size == |sf.rs.content| || size == -1)
      modifies this`log, this`last, server, net, sf, sf.rs, sf.digest, sf.digest.h, sf.digest.x
      ensures Ready(sf) && sf.position >= offset
      ensures ServerOffset(server.Contents()) <= Max(old(ServerOffset(server.Contents())), sf.position)
      ensures r.Sent? ==> last.Some? && sf.calculated == |sf.rs.content| && Concluded(sf.rs.content, size, r.sums)
      ensures r.Error? ==> last.None? && r.failure != CannotSeek
      ensures Asked(old(log), log, offset)
      ensures old(Trusted(offset)) ==> Truthful() && Honest(sf.rs.content)
      ensures old(net.Quiet() && Accepts(server.Contents(), offset)) && 0 <= offset <= |sf.rs.content| ==>
        r.Sent? && !last.value.Short() && log == old(log) + Requests(offset, |sf.rs.content|, chunkSize, size != -1)
      ensures old(net.Quiet() && Orphaned(server.Contents(), offset)) ==>
        r.Error? && ServerOffset(server.Contents()) == 0
      ensures net.next > old(net.next)
      ensures r == Error(Status(404)) ==> exists e :: e in net.script && e.lookup == Missing
      ensures ToldExpired(old(net.Now()), drainer) ==> r == Error(Status(404)) && net.next == old(net.next) + 1
      ensures offset == 0 && Restarts(old(net.Now()), drainer) ==> ServerOffset(server.Contents()) <= sf.position
      ensures offset == 0 && !Restarts(old(net.Now()), drainer) ==>
        && r.Error? && ServerOffset(server.Contents()) == old(ServerOffset(server.Contents()))
        && sf.position == BytesRead(old(net.Now()), chunkSize, |sf.rs.content|)
    {
      hide Ready, Orphaned, Agrees, InSync, Acknowledged, Complete, ServerOffset, ChecksumsOf, Accepts, Requests,
        Restarts, BytesRead, Concluded, Inv, Honest, ToldExpired, Asked, Truthful, Trusted;
      ghost var told, restarting := ToldExpired(net.Now(), drainer), Restarts(net.Now(), drainer);
      ghost var trusted := Trusted(offset);
      ghost var content, log0 := sf.rs.content, log;
      ghost var quiet := net.Quiet() && Accepts(server.Contents(), offset);
      PositionBounds(sf);
      ghost var goal := log + Requests(offset, |content|, chunkSize, size != -1);
      var sent, n := SendChunk(sf, offset, size);
      var currentOffset := offset + n;
      while sent.None?
        invariant Ready(sf) && sf.position == currentOffset <= |content| && offset <= currentOffset
        invariant ServerOffset(server.Contents()) <= Max(old(ServerOffset(server.Contents())), sf.position)
        invariant sent.Some? && sent.value.Sent? ==>
          last.Some? && sf.calculated == |content| && Concluded(content, size, sent.value.sums)
        invariant sent.Some? && sent.value.Error? ==> last.None? && sent.value.failure != CannotSeek
        invariant Asked(log0, log, offset) && net.next > old(net.next)
        invariant trusted ==> Truthful() && (sent.Some? ==> Honest(content))
        invariant quiet ==>
          if sent.Some? then sent.value.Sent? && !last.value.Short() && log == goal
          else
            && net.Quiet() && Accepts(server.Contents(), currentOffset)
            && log + Requests(currentOffset, |content|, chunkSize, size != -1) == goal
        invariant sent == Some(Error(Status(404))) ==> exists e :: e in net.script && e.lookup == Missing
        invariant told ==> sent == Some(Error(Status(404))) && net.next == old(net.next) + 1
        invariant sent.None? ==> !old(net.Quiet() && Orphaned(server.Contents(), offset))
        invariant old(net.Quiet() && Orphaned(server.Contents(), offset)) ==>
          sent.Some? && sent.value.Error? && ServerOffset(server.Contents()) == 0
        invariant offset == 0 && restarting ==> ServerOffset(server.Contents()) <= sf.position
        invariant offset == 0 && !restarting ==>
          && sent.Some? && sent.value.Error? && ServerOffset(server.Contents()) == old(ServerOffset(server.Contents()))
          && sf.position == BytesRead(old(net.Now()), chunkSize, |content|)
        decreases |content| - currentOffset, sent.None?
      {
        if trusted {
          TruthfulTrusted(currentOffset);
        }
        ghost var log1 := log;
        sent, n := SendChunk(sf, currentOffset, size);
        AskedMore(log0, log1, log, offset, currentOffset);
        currentOffset := currentOffset + n;
      }
      r := sent.value;
    }

    lemma NothingHonest(content: seq<bv8>)
      requires last.None?
      ensures Honest(content)
    {}

    /** What every attempt keeps, whether or not its seek succeeded. */
    ghost predicate Resumable(sf: Sha1File)
      reads server, sf, sf.rs, sf.digest, sf.digest.h, sf.digest.x
    {
      && sf.digest.Valid()
      && Agrees(sf.rs.content, server.Contents())
      && Settled(sf.rs.content, sf.State())
    }

    /** The client is not behind the server, and in step with its source. */
    ghost predicate NotBehind(sf: Sha1File)
      reads server, sf, sf.rs, sf.digest, sf.digest.h, sf.digest.x
    {
      Ready(sf) && ServerOffset(server.Contents()) <= sf.position
    }

    /** The server is further than the client has read: a seek to its offset is refused. */
    ghost predicate Behind(sf: Sha1File)
      reads server, sf, sf.rs, sf.digest, sf.digest.h, sf.digest.x
    {
      Resumable(sf) && ServerOffset(server.Contents()) > sf.position
    }

    lemma ReadyResumable(sf: Sha1File)
      requires Ready(sf)
      ensures Resumable(sf)
    {
      hide Agrees, Absorbed;
    }

    /** How many failed attempts are still to be expected at most, once the retry loop
        can resume at all: one for each exchange that may go wrong, one for an offset
        file without its data, and one to spare while the network is not quiet. */
    ghost function Debt(): int
      reads server, net
    {
      if !net.Quiet() then |net.script| - net.next + 1
      else if server.file.None? && ServerOffset(server.Contents()) > 0 then 1
      else 0
    }

    /** One try of the retry loop: after the first, resume where the server is. */
    method Attempt(sf: Sha1File, first: bool, size: int) returns (r: Result)
      requires chunkSize > 0 && Resumable(sf)
      requires size == |sf.rs.content| || size == -1
      requires first ==> Ready(sf) && sf.position == 0
      modifies this`log, this`last, server, net, sf, sf.rs, sf.digest, sf.digest.h, sf.digest.x
      ensures Resumable(sf)
      ensures r.Sent? ==> last.Some? && sf.calculated == |sf.rs.content| && Concluded(sf.rs.content, size, r.sums)
      ensures r.Error? ==> last.None? || last == old(last)
      ensures old(if first then WillBeTruthful() else Truthful()) ==>
        Truthful() && (last == old(last) || Honest(sf.rs.content))
      ensures sf.rs.seekable && old(NotBehind(sf)) ==> NotBehind(sf) && r != Error(CannotSeek)
      ensures first ==> r != Error(CannotSeek)
      ensures first ==>
        if old(Strands(server.Contents(), net.Now(), drainer, chunkSize, |sf.rs.content|)) then r.Error? && Behind(sf)
        else NotBehind(sf)
      ensures !first && sf.rs.seekable && old(Behind(sf)) ==>
        r.Error? && Behind(sf) && (old(net.Quiet()) ==> r == Error(CannotSeek))
      ensures r == Error(Status(404)) ==> exists e :: e in net.script && e.lookup == Missing
      ensures net.next > old(net.next)
      ensures log == old(log) || Asked(old(log), log, if first then 0 else old(ServerOffset(server.Contents())))
      ensures !first && sf.rs.seekable && old(net.Quiet() && NotBehind(sf) && server.file.Some?) ==>
        && r.Sent? && !last.value.Short()
        && log == old(log) + Requests(old(ServerOffset(server.Contents())), |sf.rs.content|, chunkSize, size != -1)
      ensures first && ToldExpired(old(net.Now()), drainer) ==>
        r == Error(Status(404)) && net.next == old(net.next) + 1
      ensures sf.rs.seekable && old(NotBehind(sf)) && r.Error? ==> Debt() < old(Debt())
      ensures first && old(net.Quiet()) ==>
        r.Sent? && !last.value.Short() && log == old(log) + Requests(0, |sf.rs.content|, chunkSize, size != -1)
    {
      hide Agrees, Absorbed, Complete, ServerOffset, ChecksumsOf, Requests, SeekStep, SumOf, Restarts, BytesRead,
        Concluded, Inv, Honest;
      var offset := 0;
      if !first {
        var reported, error := GetOffset(sf.rs.content);
        if error.Some? {
          return Error(error.value);
        }
        offset := reported;
        ghost var s := sf.State();
        SeekSettles(sf.rs.content, sf.rs.seekable, s, offset);
        var position, ok := sf.Seek(offset, Start);
        if !ok {
          return Error(CannotSeek);
        }
      }
      assert Ready(sf) && sf.position == offset;
      assert net.Quiet() ==> Accepts(server.Contents(), offset) || Orphaned(server.Contents(), offset);
      r := Send(sf, offset, size);
      ReadyResumable(sf);
    }

    /** The waiting time of a client that is behind: until the network is quiet. */
    ghost function Wait(): int
      reads net
    {
      if net.Quiet() then 1 else |net.script| - net.next + 1
    }

    /** The upload ends with the first answer that says that it has expired. */
    ghost predicate Orderly(errors: seq<Failure>, expired: bool) {
      if expired then
        errors != [] && errors[|errors| - 1] == Status(404) && Status(404) !in errors[..|errors| - 1]
      else
        Status(404) !in errors
    }

    lemma OrderlyMore(errors: seq<Failure>, failure: Failure)
      requires Orderly(errors, false)
      ensures Orderly(errors + [failure], failure == Status(404))
    {
      assert (errors + [failure])[..|errors|] == errors;
    }

    lemma NothingYet()
      ensures Orderly([], false)
    {}

    /** The retry loop. It ends with the first attempt that reports no error, at a status
        that says the upload has expired, or when its patience is over. */
    method Retry(sf: Sha1File, size: int, retries: nat)
      returns (sent: Option<Checksums>, errors: seq<Failure>, expired: bool)
      requires chunkSize > 0 && Ready(sf) && sf.position == 0 && last == None
      requires size == |sf.rs.content| || size == -1
      modifies this`log, this`last, server, net, sf, sf.rs, sf.digest, sf.digest.h, sf.digest.x
      ensures Resumable(sf)
      ensures
        if sent.Some?
        then last.Some? && sf.calculated == |sf.rs.content| && Concluded(sf.rs.content, size, sent.value)
        else last.None?
      ensures old(WillBeTruthful()) ==> Honest(sf.rs.content)
      ensures expired ==> sent.None? && exists e :: e in net.script && e.lookup == Missing
      ensures Orderly(errors, expired)
      ensures |errors| <= retries && (sent.None? && !expired ==> |errors| == retries)
      ensures sent.Some? ==> |errors| < retries
      ensures retries > 0 && ToldExpired(old(net.Now()), drainer) ==>
        expired && errors == [Status(404)] && net.next == old(net.next) + 1
      ensures
        sf.rs.seekable && old(!Strands(server.Contents(), net.Now(), drainer, chunkSize, |sf.rs.content|)) ==>
          CannotSeek !in errors
      ensures
        sf.rs.seekable && retries > |net.script| + 1 && !expired ==>
          if old(Strands(server.Contents(), net.Now(), drainer, chunkSize, |sf.rs.content|))
          then sent.None? && CannotSeek in errors
          else sent.Some?
      ensures old(net.Quiet()) && retries > 0 ==>
        && sent.Some? && !last.value.Short() && errors == []
        && log == old(log) + Requests(0, |sf.rs.content|, chunkSize, size != -1)
    {
      hide Agrees, InSync, Settled, Complete, ServerOffset, ChecksumsOf, Requests, SumOf, Strands, Concluded, Inv,
        Honest, Restarts, ToldExpired, Orderly;
      ghost var truthful := WillBeTruthful();
      NothingHonest(sf.rs.content);
      ReadyResumable(sf);
      ghost var told := ToldExpired(net.Now(), drainer);
      ghost var quiet := net.Quiet();
      ghost var stranded := Strands(server.Contents(), net.Now(), drainer, chunkSize, |sf.rs.content|);
      ghost var calm := sf.rs.seekable && retries > |net.script| + 1;
      hide Debt, NotBehind, Behind, Ready, Resumable;
      DebtBound();
      var first := true;
      NothingYet();
      sent, errors, expired := None, [], false;
      while sent.None? && |errors| < retries
        invariant Resumable(sf)
        invariant first ==> Ready(sf) && sf.position == 0 && errors == [] && sent.None? && log == old(log)
        invariant first ==> net.next == old(net.next) && server.Contents() == old(server.Contents())
        invariant !first ==> net.next > old(net.next)
        invariant sf.rs.seekable && !stranded && !first ==> NotBehind(sf)
        invariant sf.rs.seekable && !stranded ==> CannotSeek !in errors
        invariant calm && !stranded && !first && sent.None? ==> retries - |errors| > Debt()
        invariant sf.rs.seekable && stranded && !first ==> Behind(sf) && sent.None?
        invariant calm && stranded && !first ==> CannotSeek in errors || retries - |errors| >= Wait()
        invariant truthful ==> (if first then WillBeTruthful() else Truthful()) && Honest(sf.rs.content)
        invariant sent.None? ==> last.None?
        invariant |errors| <= retries && (sent.Some? ==> |errors| < retries)
        invariant Orderly(errors, false)
        invariant !first ==> !told
        invariant sent.Some? ==>
          last.Some? && sf.calculated == |sf.rs.content| && Concluded(sf.rs.content, size, sent.value)
        invariant quiet && !first ==>
          && sent.Some? && !last.value.Short() && errors == []
          && log == old(log) + Requests(0, |sf.rs.content|, chunkSize, size != -1)
        decreases retries - |errors|, sent.None?
      {
        var attempt := Attempt(sf, first, size);
        DebtBound();
        first := false;
        if attempt.Sent? {
          sent := Some(attempt.sums);
        } else {
          OrderlyMore(errors, attempt.failure);
          errors := errors + [attempt.failure];
          NothingHonest(sf.rs.content);
          if attempt.failure == Status(404) {
            return None, errors, true;
          }
        }
      }
    }

    /** Uploads the source, retrying up to the given number of failures. Success means
        the server stores exactly the source. It takes the final comparison of hashes:
        that fails, without a retry, if a write has been torn, or if the size is known and
        the server has refused to store the last part; and without torn writes only then.
        Apart from that, a seekable source can be resumed, and once the network has been
        quiet for long enough the upload succeeds, exactly if the first request has not
        left the client behind the server. */
    method SendFile(rs: Source, size: int, retries: nat) returns (r: Result, errors: seq<Failure>)
      requires chunkSize > 0 && rs.pos == 0
      requires size == |rs.content| || size == -1
      requires Agrees(rs.content, server.Contents())
      modifies this`log, this`last, server, net, rs
      ensures Agrees(rs.content, server.Contents())
      ensures r.Sent? ==> Complete(rs.content, server.Contents()) && r.sums.sha1 == ChecksumsOf(rs.content).sha1
      ensures r == Error(Sha1Mismatch) <==> last.Some? && last.value.sums.sha1 != ChecksumsOf(rs.content).sha1
      ensures old(WillBeTruthful()) ==>
        && (r.Sent? ==> r.sums == ChecksumsOf(rs.content))
        && (r == Error(Sha1Mismatch) <==>
              size != -1 && last.Some? && last.value.Short() && last.value.upTo == |rs.content|)
        && ((forall e :: e in net.script ==> !e.fault.WriteFails?) ==> r != Error(Sha1Mismatch))
      ensures forall i :: 0 <= i < |errors| && errors[i] == Status(404) ==> i == |errors| - 1
      ensures r == Error(Status(404)) <==> Status(404) in errors
      ensures r == Error(GaveUp) <==> |errors| == retries && Status(404) !in errors
      ensures r.Error? ==> r.failure == GaveUp || r.failure == Sha1Mismatch || r.failure == Status(404)
      ensures retries > 0 && ToldExpired(old(net.Now()), drainer) ==>
        r == Error(Status(404)) && errors == [Status(404)] && net.next == old(net.next) + 1
      ensures
        rs.seekable && old(!Strands(server.Contents(), net.Now(), drainer, chunkSize, |rs.content|)) ==>
          CannotSeek !in errors
      ensures
        rs.seekable && retries > |net.script| + 1 && (forall e :: e in net.script ==> e.lookup != Missing) ==>
          if old(Strands(server.Contents(), net.Now(), drainer, chunkSize, |rs.content|))
          then r == Error(GaveUp) && CannotSeek in errors
          else r.Sent? || r == Error(Sha1Mismatch)
      ensures old(net.Quiet()) && retries > 0 ==>
        r.Sent? && errors == [] && log == old(log) + Requests(0, |rs.content|, chunkSize, size != -1)
    {
      hide Agrees, InSync, Settled, Complete, ServerOffset, ChecksumsOf, Requests, SumOf, Strands, Concluded, Inv,
        Restarts, Honest;
      last := None;
      var sf := new Sha1File(rs);
      NewInSync(rs.content);
      if net.Quiet() {
        QuietTruthful();
      }
      var sent, expired;
      sent, errors, expired := Retry(sf, size, retries);
      ResumableAgrees(sf);
      if expired {
        return Error(Status(404)), errors;
      }
      if sent.None? {
        return Error(GaveUp), errors;
      }
      hide Resumable;
      ConcludedMeans(rs.content, size, sent.value);
      SumsMatch(rs.content, sf, sent.value);
      var remote := HexDecode(sent.value.sha1);
      var local := sf.Sum([]);
      if remote != Some(local) {
        return Error(Sha1Mismatch), errors;
      }
      return Sent(sent.value), errors;
    }

    lemma DebtBound()
      ensures 0 <= Debt()
      ensures if net.Quiet() then Debt() <= 1 else Debt() <= |net.script| - net.next + 1
    {}

    lemma ResumableAgrees(sf: Sha1File)
      requires Resumable(sf)
      ensures Agrees(sf.rs.content, server.Contents())
    {}

    lemma ConcludedMeans(content: seq<bv8>, size: int, sums: Checksums)
      requires Concluded(content, size, sums)
      ensures last.Some?
      ensures if last.value.Short()
              then |content| == size && sums == NO_SUMS && exists e :: e in net.script && e.fault.WriteFails?
              else Complete(content, server.Contents()) && OfSomething(sums)
      ensures last.value.upTo == |content| && last.value.sums == sums
      ensures Honest(content) && !last.value.Short() ==> sums == ChecksumsOf(content)
    {}

    /** The comparison of hashes. */
    lemma SumsMatch(content: seq<bv8>, sf: Sha1File, sums: Checksums)
      requires Resumable(sf) && content == sf.rs.content && sf.calculated == |content|
      requires OfSomething(sums) || sums == NO_SUMS
      ensures Finishable(sf.digest.Value())
      ensures HexDecode(sums.sha1) == Some([] + SumOf(sf.digest.Value())) <==> sums.sha1 == ChecksumsOf(content).sha1
      ensures sums == NO_SUMS ==> sums.sha1 != ChecksumsOf(content).sha1
    {
      hide Agrees, Absorbed, SumOf, HexEncode, HexDecode, Sha1Spec.Sha1;
      HashSettled(content, sf.State());
      assert content[..|content|] == content;
      assert [] + SumOf(sf.digest.Value()) == SumOf(sf.digest.Value());
      DigestTexts(content, sums);
    }

    lemma CalculatedAtEnd(sf: Sha1File)
      requires Ready(sf) && sf.position == |sf.rs.content|
      ensures sf.calculated == |sf.rs.content|
    {}
  }

  lemma DigestTexts(content: seq<bv8>, sums: Checksums)
    requires OfSomething(sums) || sums == NO_SUMS
    ensures HexDecode(sums.sha1) == Some(Sha1Spec.Sha1(content)) <==> sums.sha1 == ChecksumsOf(content).sha1
    ensures sums == NO_SUMS ==> sums.sha1 != ChecksumsOf(content).sha1
  {
    DigestSize(content);
    HexRoundTrip(Sha1Spec.Sha1(content));
    assert HexDecode("") == Some([]);
    if OfSomething(sums) {
      var m :| sums == ChecksumsOf(m);
      HexRoundTrip(Sha1Spec.Sha1(m));
    }
    hide HexEncode, HexDecode, Sha1Spec.Sha1;
  }

  lemma DigestSize(content: seq<bv8>)
    ensures |Sha1Spec.Sha1(content)| == 20
  {}

  lemma ServeNotFound(d: Disk, offset: nat, size: int, drain: bool, lookup: Lookup, body: seq<bv8>, fault: Fault)
    ensures Serve(d, UploadRequest(offset, size, drain, lookup, body, fault)).1.status == 404 <==>
            !drain && lookup == Missing
  {
    hide Serve;
    RefusalsChangeNothing(d, UploadRequest(offset, size, drain, lookup, body, fault));
  }

  lemma AcknowledgedAccepts(content: seq<bv8>, d: Disk, end: nat, size: int, truthful: bool, response: Response)
    requires end <= |content| && end != size && Acknowledged(content, d, end, size, truthful, response)
    ensures Accepts(d, end)
  {}

  lemma AcknowledgedAtEnd(content: seq<bv8>, d: Disk, stored: nat, size: int, truthful: bool, response: Response)
    requires size == |content| && stored <= |content|
    requires Acknowledged(content, d, stored, size, truthful, response)
    ensures stored == size ==> Complete(content, d) && OfSomething(response.sums)
    ensures stored == size && truthful ==> response.sums == ChecksumsOf(content)
    ensures stored != size ==> response.sums == NO_SUMS
  {
    hide ChecksumsOf, OfSomething;
    assert content[..size] == content;
  }

  /** The request the loop makes at an offset, and what it does after it. */
  lemma NextRequest(log: seq<Range>, from: nat, total: nat, chunk: nat, size: int)
    requires chunk > 0 && from <= total && (size == total || size == -1)
    ensures
      var n := Min(chunk, total - from);
      log + Requests(from, total, chunk, size != -1) ==
        (log + [Range(from, n, size)])
        + (if from + n == size then [] else if n == 0 then [Range(from, 0, from)]
           else Requests(from + n, total, chunk, size != -1))
  {
    var n := Min(chunk, total - from);
    var one := [Range(from, n, size)];
    var all := Requests(from, total, chunk, size != -1);
    if from + n == size {
      assert all == one + [];
      Regroup(log, one, []);
    } else if n == 0 {
      assert all == one + [Range(from, 0, from)];
      Regroup(log, one, [Range(from, 0, from)]);
    } else {
      assert all == one + Requests(from + n, total, chunk, size != -1);
      Regroup(log, one, Requests(from + n, total, chunk, size != -1));
    }
  }

  lemma Regroup(a: seq<Range>, b: seq<Range>, c: seq<Range>)
    ensures a + (b + c) == a + b + c
  {}

  lemma StoredShort(body: seq<bv8>, fault: Fault)
    ensures |Stored(body, fault)| <= |body|
    ensures if Stored(body, fault) == body then |Stored(body, fault)| == |body|
            else fault.WriteFails? && |Stored(body, fault)| < |body|
    ensures Torn(body, fault) ==> fault.WriteFails? && fault.torn > 0
  {}

  lemma SentBody(content: seq<bv8>, offset: nat, n: nat, data: seq<bv8>, body: seq<bv8>)
    requires offset + n <= |content| && |data| == n && body <= data
    requires n > 0 ==> data == content[offset..offset + n]
    ensures body == content[offset..offset + |body|]
  {}

  lemma SyncedBounds(content: seq<bv8>, s: FileState)
    requires InSync(content, s)
    ensures 0 <= s.pos == s.position <= |content| && s.digest.Writable()
  {}

  lemma ServerOffsetKnown(content: seq<bv8>, d: Disk)
    requires Agrees(content, d)
    ensures 0 <= ServerOffset(d)
  {}
}
