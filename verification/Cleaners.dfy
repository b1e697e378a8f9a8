/** The background work of a storage server: delete tasks, the disk cleaner and the device
    cleaner. */
module Cleaners {
  import opened Cluster
  import opened Database
  import opened Codec
  import opened Text
  import opened Tracker

  // ---------------------------------------------------------------- delete tasks

  /** What can go wrong with a delivery. */
  datatype Fault = Fine | CannotRemove | AckLost | NackLost

  /** Removes the file; it is no error if there is none. */
  method DeleteFidOnDisk(db: Store, dev: int, fid: int, removable: bool) returns (ok: bool)
    modifies db`disks
    ensures db.Value() == if ok then Erase(old(db.Value()), Place(dev, fid), false) else old(db.Value())
    ensures ok <==> removable || Place(dev, fid) !in old(db.disks)
  {
    if Place(dev, fid) !in db.disks {
      assert db.disks - {Place(dev, fid)} == db.disks;
      return true;
    }
    if !removable {
      return false;
    }
    db.Remove(Place(dev, fid));
    ok := true;
  }

  /** The step a delivery amounts to. A refused task is not put back on the queue, and
      one whose acknowledgement is lost will be delivered again. */
  function Delivery(s: State, task: Place, fault: Fault): State {
    var gone := task !in s.disks || (fault != CannotRemove && fault != NackLost);
    if gone then Erase(s, task, fault != AckLost)
    else if fault == NackLost then s
    else s.(tasks := s.tasks - multiset{task})
  }

  /** How a delivery ends. The file is gone, unless it could not be removed. The task is off
      the queue, once, unless the server has lost the connection before it could say so;
      then it consumes no more. */
  ghost predicate Handled(s: State, s': State, task: Place, fault: Fault, ok: bool) {
    && s' == s.(disks := s'.disks, tasks := s'.tasks)
    && (task in s'.disks <==> task in s.disks && (fault == CannotRemove || fault == NackLost))
    && (forall p :: p != task ==> (p in s'.disks <==> p in s.disks) && s'.tasks[p] == s.tasks[p])
    && (forall p :: p in s'.disks ==> s'.disks[p] == s.disks[p])
    && (ok <==> Acknowledged(s, task, fault))
    && (task in s.tasks ==> s'.tasks[task] == s.tasks[task] - if ok then 1 else 0)
  }

  predicate Acknowledged(s: State, task: Place, fault: Fault) {
    !(fault == AckLost || (fault == NackLost && task in s.disks))
  }

  lemma DeliveryOutcome(s: State, task: Place, fault: Fault)
    ensures Handled(s, Delivery(s, task, fault), task, fault, Acknowledged(s, task, fault))
  {}

  /** One message of a device's queue. A body that is no number is passed over. */
  method ProcessDeleteTask(db: Store, dev: int, body: string, fault: Fault) returns (ok: bool)
    modifies db`disks, db`tasks
    ensures db.Value() ==
      match ParseInt(body)
      case None => old(db.Value())
      case Some(fid) => Delivery(old(db.Value()), Place(dev, fid), fault)
    ensures !ok ==> fault == AckLost || fault == NackLost
    ensures ParseInt(body).Some? ==> Handled(old(db.Value()), db.Value(), Place(dev, ParseInt(body).value), fault, ok)
  {
    hide ParseInt, Handled;
    var parsed := ParseInt(body);
    if parsed.None? {
      return true;
    }
    var task := Place(dev, parsed.value);
    DeliveryOutcome(db.Value(), task, fault);
    var removed := DeleteFidOnDisk(db, dev, task.fid, fault != CannotRemove && fault != NackLost);
    if !removed {
      if fault == NackLost {
        return false;
      }
      db.tasks := db.tasks - multiset{task};
      return true;
    }
    if fault == AckLost {
      return false;
    }
    db.tasks := db.tasks - multiset{task};
    ok := true;
  }

  /** However a delivery goes, the cluster keeps its invariant. */
  lemma DeliveryInv(c: Config, s: State, task: Place, fault: Fault)
    requires Inv(c, s) && task in s.tasks
    ensures Inv(c, Delivery(s, task, fault))
  {
    hide Inv;
    ConsumeInv(c, s, task, fault != AckLost);
    LoseInv(c, s, task);
  }

  /** One task as a message: the fid in decimal. */
  method Deliver(db: Store, ghost c: Config, task: Place, fault: Fault) returns (ok: bool)
    requires Inv(c, db.Value()) && db.next <= MAX && task in db.tasks
    modifies db`disks, db`tasks
    ensures Inv(c, db.Value()) && db.next == old(db.next)
    ensures Handled(old(db.Value()), db.Value(), task, fault, ok)
    ensures !ok ==> fault == AckLost || fault == NackLost
  {
    hide Inv, Delivery, ParseInt, FormatInt, FormatPadded, Handled;
    DeliveryInv(c, db.Value(), task, fault);
    TaskKnown(c, db.Value(), task);
    ParseFormatted(task.fid, 0);
    ok := ProcessDeleteTask(db, task.dev, FormatInt(task.fid), fault);
    assert task == Place(task.dev, task.fid);
  }

  /** The consumer of a device's queue: it goes on until the connection fails or it is told
      to stop. */
  method ProcessDeleteTasks(db: Store, c: Config, dev: int, faults: seq<Fault>, shutdown: nat)
    returns (handled: nat, up: bool)
    requires Inv(c, db.Value()) && db.next <= MAX
    modifies db`disks, db`tasks
    ensures Inv(c, db.Value())
    ensures Consumed(old(db.Value()), db.Value(), dev)
    ensures handled <= |faults| && handled <= shutdown
    ensures !up ==> handled < |faults| && (faults[handled] == AckLost || faults[handled] == NackLost)
    ensures up && handled < |faults| && handled < shutdown ==> forall p :: p in db.tasks ==> p.dev != dev
    ensures Counted(old(db.Value()), db.Value(), handled)
    ensures AllRemovable(faults) ==> Carried(old(db.Value()), db.Value())
  {
    hide Inv, Handled, Served, Consumed, Counted, Carried;
    ghost var s := db.Value();
    ghost var now, removable := s, AllRemovable(faults);
    NothingServed(s, dev, removable);
    handled, up := 0, true;
    while handled < |faults| && handled != shutdown && exists p :: p in db.tasks && p.dev == dev
      invariant handled <= |faults| && handled <= shutdown
      invariant now == db.Value() && Inv(c, now) && now.next == s.next
      invariant Served(s, now, dev, handled, removable)
    {
      var task :| task in db.tasks && task.dev == dev;
      up := Deliver(db, c, task, faults[handled]);
      ServedMore(s, now, db.Value(), task, faults[handled], up, handled, removable);
      now := db.Value();
      if !up {
        break;
      }
      handled := handled + 1;
    }
    ServedMeans(s, now, dev, handled, removable);
  }

  /** No file is one that cannot be removed. */
  predicate AllRemovable(faults: seq<Fault>) {
    forall i :: 0 <= i < |faults| ==> faults[i] == Fine || faults[i] == AckLost
  }

  lemma TaskKnown(c: Config, s: State, task: Place)
    requires Inv(c, s) && task in s.tasks
    ensures 0 < task.fid < s.next
  {}

  /** Only files of the device with a task have been removed, and only tasks of the device
      have been taken. */
  ghost predicate Consumed(s: State, s': State, dev: int) {
    && s' == s.(disks := s'.disks, tasks := s'.tasks)
    && (forall p :: s'.tasks[p] <= s.tasks[p])
    && (forall p: Place :: p.dev != dev ==> s'.tasks[p] == s.tasks[p])
    && (forall p :: p in s.disks && p !in s'.disks ==> p.dev == dev && p in s.tasks)
    && (forall p :: p in s'.disks ==> p in s.disks && s'.disks[p] == s.disks[p])
  }

  /** Every task that has left the queue has been carried out. */
  ghost predicate Carried(s: State, s': State) {
    forall p :: s'.tasks[p] < s.tasks[p] ==> p !in s'.disks
  }

  /** Each delivery that went well has taken one task off the queues. */
  ghost predicate Counted(s: State, s': State, handled: nat) {
    |s'.tasks| + handled == |s.tasks|
  }

  /** What a number of deliveries have done, if every file could be removed. */
  ghost predicate Served(s: State, s': State, dev: int, handled: nat, removable: bool) {
    Consumed(s, s', dev) && Counted(s, s', handled) && (removable ==> Carried(s, s'))
  }

  lemma NothingServed(s: State, dev: int, removable: bool)
    ensures Served(s, s, dev, 0, removable)
  {}

  lemma ServedMeans(s: State, s': State, dev: int, handled: nat, removable: bool)
    requires Served(s, s', dev, handled, removable)
    ensures Consumed(s, s', dev) && Counted(s, s', handled) && (removable ==> Carried(s, s'))
  {}

  lemma HandledTasks(s: State, s': State, task: Place, fault: Fault, ok: bool)
    requires Handled(s, s', task, fault, ok) && task in s.tasks
    ensures s'.tasks == if ok then s.tasks - multiset{task} else s.tasks
  {}

  lemma ServedMore(s: State, s1: State, s2: State, task: Place, fault: Fault, ok: bool, handled: nat, removable: bool)
    requires Served(s, s1, task.dev, handled, removable) && Handled(s1, s2, task, fault, ok) && task in s1.tasks
    requires removable ==> fault == Fine || fault == AckLost
    ensures Served(s, s2, task.dev, if ok then handled + 1 else handled, removable)
  {
    HandledTasks(s1, s2, task, fault, ok);
    assert s1.tasks[task] <= s.tasks[task];
  }

  // ---------------------------------------------------------------- disk cleaner

  method FidExistsOnDatabase(db: Store, dev: int, fid: int) returns (found: bool)
    ensures found <==> Referenced(db.Value(), dev, fid)
  {
    if Row(fid, dev) in db.fileOn {
      return true;
    }
    if fid in db.temp && db.temp[fid].dev == dev {
      return true;
    }
    return false;
  }

  method VisitFile(db: Store, c: Config, dev: int, fid: int)
    requires Place(dev, fid) in db.disks
    modifies db`disks
    ensures db.Value() == Visit(c, old(db.Value()), dev, fid)
  {
    var age := db.clock - db.disks[Place(dev, fid)].mtime;
    if age < c.ttl {
      return;
    }
    var found := FidExistsOnDatabase(db, dev, fid);
    if found {
      return;
    }
    db.Remove(Place(dev, fid));
  }

  /** A file old enough that no table knows. */
  predicate Garbage(c: Config, s: State, p: Place) {
    p in s.disks && s.clock - s.disks[p].mtime >= c.ttl && !Referenced(s, p.dev, p.fid)
  }

  /** No walk removes anything that the cluster relies on. */
  lemma CleanDiskInv(c: Config, s: State, dev: int)
    requires Inv(c, s)
    ensures Inv(c, s.(disks := s.disks - (set p | p in s.disks && p.dev == dev && Garbage(c, s, p))))
  {
    var kept := s.disks - (set p | p in s.disks && p.dev == dev && Garbage(c, s, p));
    forall p | p in s.disks && Garbage(c, s, p)
      ensures !ReliedOn(c, s, p)
    {
      GarbageUseless(c, s, p);
    }
    hide ReliedOn, Garbage, DrainInv, DataInv, RowsInv, TasksInv, TablesInv;
    OtherPlaces(c, s, kept);
    hide Stands;
    DisksChange(c, s, kept, s.tasks);
    assert s.(disks := kept) == s.(disks := kept, tasks := s.tasks);
  }

  lemma GarbageUseless(c: Config, s: State, p: Place)
    requires Inv(c, s) && Garbage(c, s, p)
    ensures !ReliedOn(c, s, p)
  {
    hide Live, RowsInv, DataInv, TasksInv, TablesInv, Pending;
    forall d | d in s.moves && YoungCopy(c, s, s.moves[d], p)
      ensures !Live(s, p.fid)
    {
      CopyKnown(c, s, d);
    }
  }

  /** A walk over the disk: exactly the garbage is gone. */
  method CleanDisk(db: Store, c: Config, dev: int)
    modifies db`disks
    ensures
      var s := old(db.Value());
      db.Value() == s.(disks := s.disks - (set p | p in s.disks && p.dev == dev && Garbage(c, s, p)))
  {
    ghost var s := db.Value();
    var found := Rows(set p | p in db.disks && p.dev == dev);
    ghost var gone: set<Place> := {};
    assert db.disks - gone == db.disks;
    for i := 0 to |found|
      invariant gone == (set p | p in found[..i] && Garbage(c, s, p))
      invariant db.Value() == s.(disks := s.disks - gone)
    {
      var p := found[i];
      assert p in found && p !in found[..i];
      assert found[..i + 1] == found[..i] + [p];
      assert p !in gone;
      VisitFile(db, c, p.dev, p.fid);
      if Garbage(c, s, p) {
        gone := gone + {p};
      }
    }
    assert found[..|found|] == found;
    assert gone == (set p | p in s.disks && p.dev == dev && Garbage(c, s, p));
  }

  // -------------------------------------------------------------- device cleaner

  method InList(value: int, list: array<int>) returns (found: bool)
    ensures found <==> value in list[..]
  {
    found := false;
    for i := 0 to list.Length
      invariant !found && value !in list[..i]
    {
      if list[i] == value {
        found := true;
        break;
      }
    }
    assert list[..list.Length] == list[..];
  }

  /** The list without the first occurrence of a value. */
  function Removed(list: seq<int>, value: int): seq<int> {
    if list == [] then []
    else if list[0] == value then list[1..]
    else [list[0]] + Removed(list[1..], value)
  }

  lemma {:induction false} RemovedAt(list: seq<int>, value: int, i: nat)
    requires i < |list| && list[i] == value && value !in list[..i]
    ensures Removed(list, value) == list[..i] + list[i + 1..]
    decreases |list|
  {
    if i > 0 {
      assert list[0] in list[..i];
      assert list[1..][..i - 1] == list[..i][1..];
      RemovedAt(list[1..], value, i - 1);
      assert list[..i] + list[i + 1..] == [list[0]] + (list[1..][..i - 1] + list[1..][i..]);
    }
  }

  lemma {:induction false} RemovedNone(list: seq<int>, value: int)
    requires value !in list
    ensures Removed(list, value) == list
    decreases |list|
  {
    if list != [] {
      assert list[0] in list;
      RemovedNone(list[1..], value);
      assert list == [list[0]] + list[1..];
    }
  }

  /** Without repetitions, removing a value leaves exactly the others, in their order. */
  lemma {:induction false} RemovedElements(list: seq<int>, value: int)
    requires Distinct(list)
    ensures Distinct(Removed(list, value))
    ensures forall d :: d in Removed(list, value) <==> d in list && d != value
    decreases |list|
  {
    if list != [] {
      assert list == [list[0]] + list[1..] && list[0] !in list[1..];
      RemovedElements(list[1..], value);
    }
  }

  /** Shifts the rest of the list over the value and says how much of it is left. */
  method RemoveItem(value: int, list: array<int>) returns (len: nat)
    modifies list
    ensures list.Length - 1 <= len <= list.Length
    ensures list[..len] == Removed(old(list[..]), value)
    ensures len < list.Length ==> list[len] == old(list[len])
  {
    var i := 0;
    while i < list.Length
      invariant i <= list.Length && value !in list[..i]
    {
      if list[i] == value {
        RemovedAt(list[..], value, i);
        forall j | i <= j < list.Length - 1 {
          list[j] := list[j + 1];
        }
        assert list[..list.Length - 1] == old(list[..])[..i] + old(list[..])[i + 1..];
        return list.Length - 1;
      }
      i := i + 1;
    }
    assert list[..i] == list[..];
    RemovedNone(list[..], value);
    len := list.Length;
  }

  method DeleteFidFromCurrentDevice(db: Store, dev: int, fid: int)
    modifies db`fileOn
    ensures db.Value() == old(db.Value()).(fileOn := old(db.fileOn) - {Row(fid, dev)})
  {
    db.fileOn := db.fileOn - {Row(fid, dev)};
  }

  method DeleteFidFromOtherDevices(db: Store, others: seq<int>, fid: int)
    requires Distinct(others)
    modifies db`fileOn, db`tasks
    ensures
      var devs := set d | d in others;
      db.Value() == old(db.Value()).(fileOn := old(db.fileOn) - (set d | d in devs :: Row(fid, d)),
                                     tasks := old(db.tasks) + Tasks(devs, fid))
  {
    db.fileOn := db.fileOn - (set d | d in others :: Row(fid, d));
    PublishDeleteTask(db, others, fid);
    assert (set d | d in others :: Row(fid, d)) == (set d | d in (set e | e in others) :: Row(fid, d));
  }

  method CheckFid(db: Store, dev: int, fid: int)
    modifies db`fileOn, db`tasks
    ensures db.Value() == Check(old(db.Value()), dev, fid)
  {
    ghost var s := db.Value();
    var rows := db.SelectDevices(fid);
    var devs := new int[|rows|](i requires 0 <= i < |rows| => rows[i]);
    assert devs[..] == rows;
    assert DevsOf(s.fileOn, fid) == (set d | d in rows) by {
      forall d | d in rows
        ensures d in DevsOf(s.fileOn, fid)
      {
        assert Row(fid, d) in s.fileOn;
      }
    }
    var listed := InList(dev, devs);
    if !listed {
      return;
    }
    if Place(dev, fid) !in db.disks {
      DeleteFidFromCurrentDevice(db, dev, fid);
      return;
    }
    var len := RemoveItem(dev, devs);
    RemovedElements(rows, dev);
    ghost var others := DevsOf(s.fileOn, fid) - {dev};
    assert others == (set d | d in devs[..len]);
    if len == 0 {
      assert others == {};
      assert s.fileOn - (set d | d in others :: Row(fid, d)) == s.fileOn;
      assert Tasks(others, fid) == multiset{};
      return;
    }
    DeleteFidFromOtherDevices(db, devs[..len], fid);
  }

  /** The row's file is on its device, and no other device is listed for it. */
  ghost predicate Alone(s: State, r: Row) {
    Place(r.dev, r.fid) in s.disks && forall q :: q in s.fileOn && q.fid == r.fid ==> q == r
  }

  /** Why a row may go: its file is missing, or it is elsewhere and a task says so. */
  predicate Excused(s: State, dev: int, r: Row) {
    || (r.dev == dev && Place(dev, r.fid) !in s.disks)
    || (Row(r.fid, dev) in s.fileOn && Place(dev, r.fid) in s.disks && Place(r.dev, r.fid) in s.tasks)
  }

  lemma CheckEffect(s: State, dev: int, fid: int)
    ensures
      var s' := Check(s, dev, fid);
      && s'.fileOn <= s.fileOn && s.tasks <= s'.tasks
      && (forall r: Row :: r.fid != fid ==> (r in s'.fileOn <==> r in s.fileOn))
      && (Row(fid, dev) in s'.fileOn ==> Alone(s', Row(fid, dev)))
      && (forall r :: r in s.fileOn && r !in s'.fileOn ==> Excused(s', dev, r))
  {
    var devs := DevsOf(s.fileOn, fid);
    forall r | r in s.fileOn && r.fid == fid
      ensures r.dev in devs
    {
    }
    TaskNames(devs - {dev}, fid);
  }

  /** A walk over the fids of a device: afterwards each of its rows has its file on disk
      and is the only row of the fid. */
  method WalkOnDeviceFiles(db: Store, dev: int)
    modifies db`fileOn, db`tasks
    ensures db.Value() == old(db.Value()).(fileOn := db.fileOn, tasks := db.tasks)
    ensures db.fileOn <= old(db.fileOn)
    ensures forall r :: r in db.fileOn && r.dev == dev ==> Alone(db.Value(), r)
    ensures forall r :: r in old(db.fileOn) && r !in db.fileOn ==> Excused(db.Value(), dev, r)
  {
    ghost var s := db.Value();
    var found := set r | r in db.fileOn && r.dev == dev :: r.fid;
    var fids := Rows(found);
    for i := 0 to |fids|
      invariant db.Value() == s.(fileOn := db.fileOn, tasks := db.tasks)
      invariant db.fileOn <= s.fileOn
      invariant forall r :: r in db.fileOn && r.dev == dev && r.fid in fids[..i] ==> Alone(db.Value(), r)
      invariant forall r :: r in s.fileOn && r !in db.fileOn ==> r.fid in fids[..i] && Excused(db.Value(), dev, r)
    {
      ghost var before := db.Value();
      assert fids[..i + 1] == fids[..i] + [fids[i]] && fids[i] !in fids[..i];
      CheckEffect(before, dev, fids[i]);
      CheckFid(db, dev, fids[i]);
      WalkOn(before, db.Value(), dev, fids[i], fids[..i], s.fileOn);
    }
    assert fids[..|fids|] == fids;
    assert forall r :: r in s.fileOn && r.dev == dev ==> r.fid in found;
  }

  lemma WalkOn(s: State, s': State, dev: int, fid: int, done: seq<int>, rows: set<Row>)
    requires s' == s.(fileOn := s'.fileOn, tasks := s'.tasks)
    requires s'.fileOn <= s.fileOn <= rows && s.tasks <= s'.tasks && fid !in done
    requires forall r: Row :: r.fid != fid ==> (r in s'.fileOn <==> r in s.fileOn)
    requires Row(fid, dev) in s'.fileOn ==> Alone(s', Row(fid, dev))
    requires forall r :: r in s.fileOn && r !in s'.fileOn ==> Excused(s', dev, r)
    requires forall r :: r in s.fileOn && r.dev == dev && r.fid in done ==> Alone(s, r)
    requires forall r :: r in rows && r !in s.fileOn ==> r.fid in done && Excused(s, dev, r)
    ensures forall r :: r in s'.fileOn && r.dev == dev && r.fid in done + [fid] ==> Alone(s', r)
    ensures forall r :: r in rows && r !in s'.fileOn ==> r.fid in done + [fid] && Excused(s', dev, r)
  {
    forall r | r in s'.fileOn && r.dev == dev && r.fid in done + [fid]
      ensures Alone(s', r)
    {
      if r.fid != fid {
        assert Alone(s, r);
      }
    }
  }
}
