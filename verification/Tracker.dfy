/** The tracker's transactions, statement by statement. */
module Tracker {
  import opened Cluster
  import opened Codec
  import opened Database
  import opened Naming
  import opened Placement
  import opened Text

  /** Publishes one task for every device. */
  method PublishDeleteTask(db: Store, devs: seq<int>, fid: int)
    requires Distinct(devs)
    modifies db`tasks
    ensures db.Value() == old(db.Value()).(tasks := old(db.tasks) + Tasks((set d | d in devs), fid))
  {
    ghost var done: set<int> := {};
    assert Tasks({}, fid) == multiset{};
    for i := 0 to |devs|
      invariant done == (set d | d in devs[..i])
      invariant db.tasks == old(db.tasks) + Tasks(done, fid)
    {
      assert devs[i] !in devs[..i];
      TasksMore(done, devs[i], fid);
      assert devs[..i + 1] == devs[..i] + [devs[i]];
      done := done + {devs[i]};
      db.tasks := db.tasks + multiset{Place(devs[i], fid)};
    }
    assert devs[..|devs|] == devs;
  }

  /** The rows of file_on go first: while they refer to it, the file must stay. */
  method DeleteFidOnDB(db: Store, fid: int) returns (devs: seq<int>)
    modifies db`files, db`fileOn
    ensures db.Value() == DropFid(old(db.Value()), fid).(tasks := old(db.tasks))
    ensures Distinct(devs) && (set d | d in devs) == DevsOf(old(db.fileOn), fid)
  {
    devs := db.SelectDevices(fid);
    assert forall d :: Row(fid, d) in db.fileOn ==> Row(fid, d).dev == d;
    db.DeleteFileOn(fid);
    var ok := db.DeleteFileRow(fid);
    assert ok;
  }

  datatype Opened = BadSize | Unavailable | InternalError | Ticket(device: Device, fid: int, path: string)

  /** The size that a client announces, none at all being zero. */
  function AnnouncedSize(text: string): Option<nat> {
    if text == [] then Some(0) else ParseUint(text)
  }

  /** create-open: a fresh fid on a device that has been found for the size, with the
      address to send the file to; or no change. The query sees the size as a signed
      number. */
  method CreateOpen(db: Store, sizeText: string, query: int -> seq<Device>, client: string,
                    subnets: Option<seq<Subnet>>, contains: (string, string) -> Option<bool>)
    returns (answer: Opened, ghost near: Option<Near>)
    requires forall size :: Descending(query(size))
    modifies db`temp, db`next
    ensures answer.BadSize? <==> AnnouncedSize(sizeText).None?
    ensures answer.Unavailable? <==>
      AnnouncedSize(sizeText).Some? && query(Wrap(AnnouncedSize(sizeText).value)) == [] && subnets.Some?
    ensures !answer.Ticket? ==> db.Value() == old(db.Value())
    ensures answer.Ticket? ==>
      && AnnouncedSize(sizeText).Some? && answer.device in query(Wrap(AnnouncedSize(sizeText).value))
      && answer.fid == old(db.next) && db.Value() == Open(old(db.Value()), answer.device.dev)
      && WellChosen(answer.device, query(Wrap(AnnouncedSize(sizeText).value)), client, subnets, contains, near)
      && answer.path == FileURL(answer.device.hostname, answer.device.port, answer.device.dev, answer.fid)
      && (-MAX - 1 <= answer.fid <= MAX ==> ReceiverFid(answer.path) == Some(answer.fid))
  {
    near := None;
    var size := 0;
    if sizeText != [] {
      var parsed := ParseUint(sizeText);
      if parsed.None? {
        return BadSize, near;
      }
      size := parsed.value;
    }
    var choice;
    choice, near := FindAliveDevice(query(Wrap(size)), client, subnets, contains);
    if choice.NoneAvailable? {
      return Unavailable, near;
    }
    if choice.QueryFailed? {
      return InternalError, near;
    }
    hide ReceiverFid, FileURL, WellChosen;
    var d := choice.device;
    var fid := db.InsertTempfile(d.dev);
    if -MAX - 1 <= fid <= MAX {
      URLReadsBack(d.hostname, d.port, d.dev, fid);
    }
    answer := Ticket(d, fid, FileURL(d.hostname, d.port, d.dev, fid));
  }

  /** A web server that may be read from. */
  datatype Server = Server(hostname: string, port: int)

  /** get-path: the address of the key's file on a device that can be read. */
  method GetPath(db: Store, key: string, readable: map<int, Server>) returns (found: Option<Row>, path: string)
    ensures found.Some? ==>
      && key in db.files && found.value.fid == db.files[key]
      && found.value in db.fileOn && found.value.dev in readable
      && var server := readable[found.value.dev];
         path == FileURL(server.hostname, server.port, found.value.dev, found.value.fid)
    ensures found.None? ==>
      forall r :: r in db.fileOn && key in db.files && r.fid == db.files[key] ==> r.dev !in readable
  {
    hide FileURL;
    path := "";
    if key !in db.files {
      return None, path;
    }
    var rows := Rows(set r | r in db.fileOn && r.fid == db.files[key] && r.dev in readable);
    if rows == [] {
      assert forall r :: r in db.fileOn && r.fid == db.files[key] && r.dev in readable ==> r in rows;
      return None, path;
    }
    var row := rows[0];
    assert row in rows;
    var server := readable[row.dev];
    return Some(row), FileURL(server.hostname, server.port, row.dev, row.fid);
  }

  /** Makes way for a new file: what the key named before is deleted. */
  method DeleteExisting(db: Store, key: string) returns (oldFid: Option<int>, oldDevs: seq<int>)
    modifies db`files, db`fileOn
    ensures oldFid == if key in old(db.files) then Some(old(db.files)[key]) else None
    ensures oldFid.Some? ==>
      && db.Value() == DropFid(old(db.Value()), oldFid.value).(tasks := old(db.tasks))
      && Distinct(oldDevs) && (set d | d in oldDevs) == DevsOf(old(db.fileOn), oldFid.value)
    ensures oldFid.None? ==> db.Value() == old(db.Value())
  {
    oldDevs := [];
    oldFid := db.SelectFid(key);
    if oldFid.Some? {
      oldDevs := DeleteFidOnDB(db, oldFid.value);
    }
  }

  /** Enters a new file and the row that says where it is. */
  method InsertFile(db: Store, fid: int, key: string, dev: int) returns (ok: bool)
    modifies db`files, db`fileOn
    ensures ok <==> !ReplaceFails(old(db.Value()), fid, key)
    ensures ok ==>
      db.Value() ==
        old(db.Value()).(files := Replace(old(db.files), fid, key), fileOn := old(db.fileOn) + {Row(fid, dev)})
    ensures db.Value() == old(db.Value()).(files := db.files, fileOn := db.fileOn)
  {
    ok := db.ReplaceFile(fid, key);
    if ok {
      assert key in db.files && db.files[key] == fid;
      ok := db.InsertFileOn(fid, dev);
    }
  }

  /** create-close: the reply and the new tables, with nothing changed when a statement
      fails. */
  method CreateClose(db: Store, fid: int, key: string) returns (reply: Reply)
    modifies db`files, db`fileOn, db`temp, db`tasks
    ensures (db.Value(), reply) == Close(old(db.Value()), fid, key)
  {
    if key == "" {
      return BadRequest;
    }
    if fid !in db.temp {
      return NotFound;
    }
    hide ReplaceFails, Replace, WithoutFid, Tasks, DevsOf;
    var files, fileOn, temp := db.files, db.fileOn, db.temp;
    var dev := db.temp[fid].dev;
    db.temp := db.temp - {fid};
    var oldFid, oldDevs := DeleteExisting(db, key);
    ghost var between := db.Value();
    var ok := InsertFile(db, fid, key, dev);
    if oldFid.Some? {
      ghost var queued := between.tasks + Tasks(DevsOf(fileOn, oldFid.value), oldFid.value);
      SameRefusal(between, between.(tasks := queued), fid, key);
    }
    if !ok {
      db.files, db.fileOn, db.temp := files, fileOn, temp;
      return Failed;
    }
    if oldFid.Some? {
      PublishDeleteTask(db, oldDevs, oldFid.value);
    }
    reply := Ok;
  }

  lemma SameRefusal(s: State, s': State, fid: int, key: string)
    requires s'.files == s.files && s'.fileOn == s.fileOn
    ensures ReplaceFails(s', fid, key) == ReplaceFails(s, fid, key)
  {}

  /** delete, by fid if one is given and by key otherwise. */
  method DeleteFile(db: Store, fid: int, key: string) returns (reply: Reply)
    modifies db`files, db`fileOn, db`tasks
    ensures reply == if key == "" && fid == 0 then BadRequest else Ok
    ensures
      var s := old(db.Value());
      db.Value() ==
        if key == "" && fid == 0 then s
        else if fid != 0 then DropFid(s, fid)
        else if key in s.files then DropFid(s, s.files[key])
        else s
  {
    if key == "" && fid == 0 {
      return BadRequest;
    }
    var target := fid;
    if fid == 0 {
      var found := db.SelectFid(key);
      if found == None {
        return Ok;
      }
      target := found.value;
    }
    var devs := DeleteFidOnDB(db, target);
    PublishDeleteTask(db, devs, target);
    reply := Ok;
  }

  /** Collects the uploads that are too old and deletes them. */
  method RemoveOldTempfilesFromDB(db: Store, c: Config) returns (stale: seq<int>, devs: seq<int>)
    modifies db`temp
    ensures Distinct(stale) && |devs| == |stale|
    ensures forall f :: f in stale <==> f in old(db.temp) && Stale(c, old(db.Value()), f)
    ensures forall i :: 0 <= i < |stale| ==> stale[i] in old(db.temp) && devs[i] == old(db.temp)[stale[i]].dev
    ensures db.Value() == old(db.Value()).(temp := old(db.temp) - (set f | f in stale))
  {
    var rows := Rows(set f | f in db.temp && db.temp[f].created < db.clock - c.tooOld);
    stale, devs := [], [];
    for i := 0 to |rows|
      invariant stale == rows[..i] && |devs| == i
      invariant forall k :: 0 <= k < i ==> rows[k] in db.temp && devs[k] == db.temp[rows[k]].dev
    {
      assert rows[i] in rows;
      stale := stale + [rows[i]];
      devs := devs + [db.temp[rows[i]].dev];
    }
    assert stale == rows;
    if |stale| == 0 {
      assert db.temp - (set f | f in stale) == db.temp;
      return;
    }
    db.temp := db.temp - (set f | f in stale);
  }

  function PlacesAt(devs: seq<int>, fids: seq<int>): set<Place>
    requires |devs| == |fids|
  {
    set k | 0 <= k < |fids| :: Place(devs[k], fids[k])
  }

  lemma PlacesMore(devs: seq<int>, fids: seq<int>, i: nat)
    requires |devs| == |fids| && Distinct(fids) && i < |fids|
    ensures PlacesAt(devs[..i + 1], fids[..i + 1]) == PlacesAt(devs[..i], fids[..i]) + {Place(devs[i], fids[i])}
    ensures Place(devs[i], fids[i]) !in PlacesAt(devs[..i], fids[..i])
  {
    var more := PlacesAt(devs[..i + 1], fids[..i + 1]);
    forall p | p in PlacesAt(devs[..i], fids[..i]) + {Place(devs[i], fids[i])}
      ensures p in more
    {
      if p == Place(devs[i], fids[i]) {
        assert Place(devs[..i + 1][i], fids[..i + 1][i]) in more;
      } else {
        var k :| 0 <= k < i && Place(devs[..i][k], fids[..i][k]) == p;
        assert Place(devs[..i + 1][k], fids[..i + 1][k]) in more;
      }
    }
  }

  method PublishStale(db: Store, devs: seq<int>, fids: seq<int>)
    requires |devs| == |fids| && Distinct(fids)
    modifies db`tasks
    ensures db.Value() == old(db.Value()).(tasks := old(db.tasks) + multiset(PlacesAt(devs, fids)))
  {
    for i := 0 to |fids|
      invariant db.tasks == old(db.tasks) + multiset(PlacesAt(devs[..i], fids[..i]))
    {
      PlacesMore(devs, fids, i);
      PublishDeleteTask(db, [devs[i]], fids[i]);
      OneTask(devs[i], fids[i]);
    }
    assert devs[..|fids|] == devs && fids[..|fids|] == fids;
  }

  /** Expiry: afterwards no upload is too old, and the device of each that was has a task
      for it. */
  method RemoveOldTempfiles(db: Store, c: Config)
    modifies db`temp, db`tasks
    ensures db.Value() == ExpireAll(c, old(db.Value()))
  {
    var stale, devs := RemoveOldTempfilesFromDB(db, c);
    PublishStale(db, devs, stale);
    StalePlaces(c, old(db.Value()), stale, devs);
  }

  lemma StalePlaces(c: Config, s: State, stale: seq<int>, devs: seq<int>)
    requires |devs| == |stale|
    requires forall f :: f in stale <==> f in s.temp && Stale(c, s, f)
    requires forall i :: 0 <= i < |stale| ==> stale[i] in s.temp && devs[i] == s.temp[stale[i]].dev
    ensures
      s.(temp := s.temp - (set f | f in stale), tasks := s.tasks + multiset(PlacesAt(devs, stale))) ==
        ExpireAll(c, s)
  {
    var expired := set f | f in s.temp && Stale(c, s, f);
    assert expired == (set f | f in stale);
    var places := set f | f in expired :: Place(s.temp[f].dev, f);
    forall f | f in expired
      ensures Place(s.temp[f].dev, f) in PlacesAt(devs, stale)
    {
      var k :| 0 <= k < |stale| && stale[k] == f;
      assert Place(devs[k], stale[k]) in PlacesAt(devs, stale);
    }
    forall k | 0 <= k < |stale|
      ensures Place(devs[k], stale[k]) in places
    {
      assert stale[k] in expired;
    }
    assert PlacesAt(devs, stale) == places;
  }

  lemma OneTask(dev: int, fid: int)
    ensures Tasks((set d | d in [dev]), fid) == multiset{Place(dev, fid)}
  {
    TasksMore({}, dev, fid);
    assert (set d | d in [dev]) == {} + {dev};
    assert Tasks({}, fid) == multiset{};
  }
}
