/** The metadata of the cluster as a state machine: the three tables, the disks, the
    queues of delete tasks and the drains in flight. One step is one SQL transaction,
    one system call on a disk, or one message. */
module Cluster {
  type Content = seq<bv8>

  /** A row of file_on. */
  datatype Row = Row(fid: int, dev: int)
  /** A row of tempfile, without its key. */
  datatype Temp = Temp(dev: int, created: int)
  /** A file on a device; also what a delete task names. */
  datatype Place = Place(dev: int, fid: int)
  datatype Stored = Stored(content: Content, mtime: int)

  /** A file on its way off a draining device. */
  datatype Move = Copied(fid: int, dest: int, at: int) | Updated(fid: int, dest: int)

  datatype State = State(
    files: map<string, int>,        // table file: key to fid
    fileOn: set<Row>,
    temp: map<int, Temp>,
    next: int,                      // the next value of tempfile's counter
    disks: map<Place, Stored>,
    tasks: multiset<Place>,
    lists: map<int, set<int>>,      // draining devices, and the fids still to be moved
    moves: map<int, Move>,          // by draining device
    clock: int,
    sent: map<int, Content>         // what clients have uploaded successfully
  )

  const INITIAL := State(map[], {}, map[], 1, map[], multiset{}, map[], map[], 0, map[])

  datatype Config = Config(tooOld: int, ttl: int)

  datatype Step =
    | CreateOpen(dev: int)
    | Upload(fid: int, dev: int, content: Content)
    | Finish(fid: int, content: Content)
    | CreateClose(fid: int, key: string)
    | DeleteKey(key: string)
    | DeleteFid(fid: int)
    | Expire
    | Consume(task: Place, acked: bool)
    | Lose(task: Place)
    | VisitFile(dev: int, fid: int)
    | CheckFid(dev: int, fid: int)
    | StartDrain(dev: int)
    | EndDrain(dev: int)
    | DrainWrite(src: int, fid: int, dest: int, content: Content)
    | DrainCopied(src: int, fid: int, dest: int)
    | DrainSkip(src: int, fid: int)
    | DrainUpdate(src: int)
    | DrainAbort(src: int)
    | DrainRemove(src: int)
    | Tick(n: nat)

  // ----------------------------------------------------------------- the steps

  function DevsOf(fileOn: set<Row>, fid: int): set<int> {
    set r | r in fileOn && r.fid == fid :: r.dev
  }

  function Tasks(devs: set<int>, fid: int): multiset<Place> {
    multiset(set d | d in devs :: Place(d, fid))
  }

  function WithoutFid(files: map<string, int>, fid: int): map<string, int> {
    map k | k in files && files[k] != fid :: files[k]
  }

  /** Deletes the rows of a fid from file_on and file, and publishes a task for every
      device that had it. */
  function DropFid(s: State, fid: int): (r: State)
    ensures r == s.(files := r.files, fileOn := r.fileOn, tasks := r.tasks)
  {
    s.(files := WithoutFid(s.files, fid),
       fileOn := (set r | r in s.fileOn && r.fid != fid),
       tasks := s.tasks + Tasks(DevsOf(s.fileOn, fid), fid))
  }

  datatype Reply = Ok | BadRequest | NotFound | Failed

  /** REPLACE deletes rows with the same fid or key first, which the foreign key from
      file_on forbids while they are referenced; the insert into file_on must not
      repeat a row. */
  predicate ReplaceFails(s: State, fid: int, key: string) {
    || (exists r :: r in s.fileOn && r.fid == fid)
    || (key in s.files && exists r :: r in s.fileOn && r.fid == s.files[key])
  }

  function Replace(files: map<string, int>, fid: int, key: string): map<string, int> {
    WithoutFid(files, fid)[key := fid]
  }

  function Close(s: State, fid: int, key: string): (State, Reply) {
    if key == "" then (s, BadRequest)
    else if fid !in s.temp then (s, NotFound)
    else
      var s1 := s.(temp := s.temp - {fid});
      var s2 := if key in s1.files then DropFid(s1, s1.files[key]) else s1;
      if ReplaceFails(s2, fid, key) then (s, Failed)
      else (s2.(files := Replace(s2.files, fid, key), fileOn := s2.fileOn + {Row(fid, s.temp[fid].dev)}), Ok)
  }

  predicate Stale(c: Config, s: State, fid: int) {
    fid in s.temp && s.temp[fid].created < s.clock - c.tooOld
  }

  function ExpireAll(c: Config, s: State): (r: State)
    ensures r == s.(temp := r.temp, tasks := r.tasks)
    ensures forall f :: f in r.temp ==> f in s.temp
  {
    var stale := set f | f in s.temp && Stale(c, s, f);
    s.(temp := s.temp - stale,
       tasks := s.tasks + multiset(set f | f in stale :: Place(s.temp[f].dev, f)))
  }

  predicate Referenced(s: State, dev: int, fid: int) {
    Row(fid, dev) in s.fileOn || (fid in s.temp && s.temp[fid].dev == dev)
  }

  function Visit(c: Config, s: State, dev: int, fid: int): (r: State)
    ensures r == s.(disks := r.disks)
  {
    var p := Place(dev, fid);
    if p !in s.disks || s.clock - s.disks[p].mtime < c.ttl || Referenced(s, dev, fid) then s
    else s.(disks := s.disks - {p})
  }

  /** The device cleaner on one fid of its own device. */
  function Check(s: State, dev: int, fid: int): (r: State)
    ensures r == s.(fileOn := r.fileOn, tasks := r.tasks)
  {
    var devs := DevsOf(s.fileOn, fid);
    if dev !in devs then s
    else if Place(dev, fid) !in s.disks then s.(fileOn := s.fileOn - {Row(fid, dev)})
    else
      var others := devs - {dev};
      s.(fileOn := s.fileOn - (set d | d in others :: Row(fid, d)), tasks := s.tasks + Tasks(others, fid))
  }

  function UpdateRows(fileOn: set<Row>, fid: int, src: int, dest: int): set<Row> {
    if Row(fid, src) in fileOn then fileOn - {Row(fid, src)} + {Row(fid, dest)} else fileOn
  }

  function Open(s: State, dev: int): (r: State)
    ensures r == s.(temp := r.temp, next := r.next)
  {
    s.(temp := s.temp[s.next := Temp(dev, s.clock)], next := s.next + 1)
  }

  function WriteFile(s: State, dev: int, fid: int, content: Content): (r: State)
    ensures r == s.(disks := r.disks)
  {
    s.(disks := s.disks[Place(dev, fid) := Stored(content, s.clock)])
  }

  /** A client learns that its upload has succeeded: the device has all of it. */
  function FinishUpload(s: State, fid: int, content: Content): (r: State)
    ensures r == s.(sent := r.sent)
  {
    if fid !in s.temp then s else s.(sent := s.sent[fid := content])
  }

  function Erase(s: State, task: Place, acked: bool): (r: State)
    ensures r == s.(disks := r.disks, tasks := r.tasks)
  {
    s.(disks := s.disks - {task}, tasks := if acked then s.tasks - multiset{task} else s.tasks)
  }

  function BeginDrain(s: State, dev: int): (r: State)
    ensures r == s.(lists := r.lists)
  {
    s.(lists := s.lists[dev := (set r | r in s.fileOn && r.dev == dev :: r.fid)])
  }

  /** The drain is done with a fid, or gives it up and goes on with the next. */
  function Skip(s: State, src: int, fid: int): (r: State)
    ensures r == s.(lists := r.lists)
  {
    if src !in s.lists then s else s.(lists := s.lists[src := s.lists[src] - {fid}])
  }

  /** A drain learns that its copy is complete. The copy is as old as its last write. */
  function CopyOff(s: State, src: int, fid: int, dest: int): (r: State)
    ensures r == s.(lists := r.lists, moves := r.moves)
  {
    if Place(dest, fid) !in s.disks then s
    else
      var s1 := Skip(s, src, fid);
      s1.(moves := s1.moves[src := Copied(fid, dest, s.disks[Place(dest, fid)].mtime)])
  }

  function UpdateRow(s: State, src: int): (r: State)
    ensures r == s.(fileOn := r.fileOn, moves := r.moves)
  {
    if src in s.moves && s.moves[src].Copied? then
      var m := s.moves[src];
      s.(fileOn := UpdateRows(s.fileOn, m.fid, src, m.dest), moves := s.moves[src := Updated(m.fid, m.dest)])
    else s
  }

  function RemoveSource(s: State, src: int): (r: State)
    ensures r == s.(disks := r.disks, moves := r.moves)
  {
    if src in s.moves && s.moves[src].Updated? then
      s.(disks := s.disks - {Place(src, s.moves[src].fid)}, moves := s.moves - {src})
    else s
  }

  function Apply(c: Config, s: State, step: Step): State {
    match step
    case CreateOpen(dev) => Open(s, dev)
    case Upload(fid, dev, content) => WriteFile(s, dev, fid, content)
    case Finish(fid, content) => FinishUpload(s, fid, content)
    case CreateClose(fid, key) => Close(s, fid, key).0
    case DeleteKey(key) => if key in s.files then DropFid(s, s.files[key]) else s
    case DeleteFid(fid) => DropFid(s, fid)
    case Expire => ExpireAll(c, s)
    case Consume(task, acked) => Erase(s, task, acked)
    case Lose(task) => s.(tasks := s.tasks - multiset{task})
    case VisitFile(dev, fid) => Visit(c, s, dev, fid)
    case CheckFid(dev, fid) => Check(s, dev, fid)
    case StartDrain(dev) => BeginDrain(s, dev)
    case EndDrain(dev) => s.(lists := s.lists - {dev})
    case DrainWrite(src, fid, dest, content) => WriteFile(s, dest, fid, content)
    case DrainCopied(src, fid, dest) => CopyOff(s, src, fid, dest)
    case DrainSkip(src, fid) => Skip(s, src, fid)
    case DrainUpdate(src) => UpdateRow(s, src)
    case DrainAbort(src) => s.(moves := s.moves - {src})
    case DrainRemove(src) => RemoveSource(s, src)
    case Tick(n) => s.(clock := s.clock + n)
  }

  predicate Live(s: State, fid: int) {
    exists k :: k in s.files && s.files[k] == fid
  }

  /** A fid that is gone: it was handed out and is neither uploading nor stored. */
  predicate Dead(s: State, fid: int) {
    0 < fid < s.next && fid !in s.temp && !Live(s, fid)
  }

  predicate HasContent(s: State, p: Place, content: Content) {
    p in s.disks && s.disks[p].content == content
  }

  /** A drain of src may send the fid to dest. */
  predicate MaySend(s: State, src: int, fid: int, dest: int) {
    src in s.lists && fid in s.lists[src] && src !in s.moves && dest !in s.lists
  }

  /** What the model expects of clients, drains and time. Clients write to a fid until
      they know that their upload has succeeded, which they only do when the device has
      all of it, and close it only then; writes that were under way when an upload
      expired may still land. A device drains one file at a time, off to a device that
      is not draining, and updates the row before the disk cleaner may take the copy for
      garbage. */
  predicate Enabled(c: Config, s: State, step: Step) {
    match step
    case Upload(fid, dev, _) => Dead(s, fid) || (fid in s.temp && fid !in s.sent)
    case Finish(fid, content) => fid in s.temp && fid !in s.sent && HasContent(s, Place(s.temp[fid].dev, fid), content)
    case CreateClose(fid, _) => fid in s.temp ==> fid in s.sent
    case Consume(task, _) => task in s.tasks
    case StartDrain(dev) => dev !in s.lists
    case EndDrain(dev) => dev !in s.moves
    case DrainWrite(src, fid, dest, _) => MaySend(s, src, fid, dest)
    case DrainCopied(src, fid, dest) =>
      && MaySend(s, src, fid, dest) && Place(src, fid) in s.disks
      && HasContent(s, Place(dest, fid), s.disks[Place(src, fid)].content)
    case DrainSkip(src, _) => src !in s.moves
    case DrainUpdate(src) => src in s.moves && s.moves[src].Copied? && s.clock - s.moves[src].at < c.ttl
    case DrainAbort(src) => src in s.moves
    case DrainRemove(src) => src in s.moves && s.moves[src].Updated?
    case _ => true
  }

  // ------------------------------------------------------------- the invariant

  /** Keys of the tables: fids are below the counter, at most one key per fid, uploads
      and files apart. */
  ghost predicate TablesInv(s: State) {
    && 0 < s.next
    && (forall f :: f in s.temp ==> 0 < f < s.next)
    && (forall k :: k in s.files ==> 0 < s.files[k] < s.next && s.files[k] !in s.temp)
    && (forall k, l :: k in s.files && l in s.files && s.files[k] == s.files[l] ==> k == l)
    && (forall f :: f in s.sent ==> 0 < f < s.next)
  }

  /** Every file has exactly one row in file_on. */
  ghost predicate RowsInv(s: State) {
    && (forall r :: r in s.fileOn ==> Live(s, r.fid))
    && (forall r, q :: r in s.fileOn && q in s.fileOn && r.fid == q.fid ==> r == q)
    && (forall k :: k in s.files ==> exists r :: r in s.fileOn && r.fid == s.files[k])
  }

  predicate Holds(s: State, dev: int, fid: int) {
    fid in s.sent && Place(dev, fid) in s.disks && s.disks[Place(dev, fid)].content == s.sent[fid]
  }

  /** Live data is on disk where the tables say it is. */
  ghost predicate DataInv(s: State) {
    && (forall r :: r in s.fileOn ==> Holds(s, r.dev, r.fid))
    && (forall f :: f in s.temp && f in s.sent ==> Holds(s, s.temp[f].dev, f))
  }

  ghost predicate TasksInv(s: State) {
    forall p :: p in s.tasks ==> Dead(s, p.fid)
  }

  /** A fid that device dev still has to move. */
  predicate Pending(s: State, dev: int, fid: int) {
    || (dev in s.lists && fid in s.lists[dev])
    || (dev in s.moves && s.moves[dev].Copied? && s.moves[dev].fid == fid)
  }

  ghost predicate DrainInv(c: Config, s: State) {
    && (forall d :: d in s.moves ==> d in s.lists && s.moves[d].dest != d && s.moves[d].fid !in s.lists[d])
    && (forall d, f :: Pending(s, d, f) ==> Row(f, d) in s.fileOn || Dead(s, f))
    && (forall d :: d in s.moves && s.moves[d].Updated? ==>
          Row(s.moves[d].fid, d) !in s.fileOn && 0 < s.moves[d].fid < s.next && s.moves[d].fid !in s.temp)
    && (forall d :: d in s.moves && s.moves[d].Copied? ==> CopyInv(c, s, s.moves[d]))
  }

  /** A copy that is not yet registered: its destination neither holds nor drains the
      fid, and while it is young enough it is complete. */
  ghost predicate CopyInv(c: Config, s: State, m: Move)
    requires m.Copied?
  {
    && Row(m.fid, m.dest) !in s.fileOn
    && !Pending(s, m.dest, m.fid)
    && !(m.dest in s.moves && s.moves[m.dest].fid == m.fid)
    && (Live(s, m.fid) && s.clock - m.at < c.ttl ==>
          Holds(s, m.dest, m.fid) && s.disks[Place(m.dest, m.fid)].mtime >= m.at)
  }

  ghost predicate Inv(c: Config, s: State) {
    TablesInv(s) && RowsInv(s) && DataInv(s) && TasksInv(s) && DrainInv(c, s)
  }

  // --------------------------------------------------------- steps on the tables

  /** The drains do not notice a change of the tables that only makes fids die and
      hands out new ones. */
  lemma TablesChange(c: Config, s: State, s': State)
    requires DrainInv(c, s)
    requires s' == s.(files := s'.files, fileOn := s'.fileOn, temp := s'.temp, next := s'.next, tasks := s'.tasks)
    requires s'.fileOn <= s.fileOn && s.next <= s'.next
    requires forall f :: Dead(s, f) ==> Dead(s', f)
    requires forall r :: r in s.fileOn && r !in s'.fileOn ==> Dead(s', r.fid)
    requires forall f :: Live(s', f) ==> Live(s, f)
    requires forall f :: 0 < f < s.next && f in s'.temp ==> f in s.temp
    ensures DrainInv(c, s')
  {
    hide Live, Dead;
    assert forall d, f :: Pending(s', d, f) <==> Pending(s, d, f);
    forall d | d in s'.moves && s'.moves[d].Copied?
      ensures CopyInv(c, s', s'.moves[d])
    {
      assert CopyInv(c, s, s.moves[d]);
    }
  }

  lemma TaskNames(devs: set<int>, fid: int)
    ensures forall p :: p in Tasks(devs, fid) <==> p.fid == fid && p.dev in devs
  {
    forall d | d in devs
      ensures Place(d, fid) in Tasks(devs, fid)
    {
      assert Place(d, fid) in (set e | e in devs :: Place(e, fid));
    }
  }

  lemma DropFidLive(s: State, fid: int)
    ensures forall f :: Live(DropFid(s, fid), f) <==> Live(s, f) && f != fid
  {
    var s' := DropFid(s, fid);
    forall f | Live(s, f) && f != fid
      ensures Live(s', f)
    {
      var k :| k in s.files && s.files[k] == f;
      assert k in s'.files;
    }
  }

  /** A deleted fid is gone from the tables, and there is a task for every device that had
      it and for no other. */
  lemma DropFidPublishes(s: State, fid: int)
    ensures
      var s' := DropFid(s, fid);
      && !Live(s', fid) && (forall r :: r in s'.fileOn <==> r in s.fileOn && r.fid != fid)
      && (forall k :: k in s'.files <==> k in s.files && s.files[k] != fid)
      && (forall p :: p in s'.tasks <==> p in s.tasks || (p.fid == fid && Row(fid, p.dev) in s.fileOn))
  {
    DropFidLive(s, fid);
    hide Live;
    var devs := DevsOf(s.fileOn, fid);
    TaskNames(devs, fid);
    assert forall d :: Row(fid, d) in s.fileOn ==> Row(fid, d).dev in devs;
    hide Tasks;
  }

  lemma DropFidTasks(s: State, fid: int)
    requires TablesInv(s) && RowsInv(s) && TasksInv(s)
    ensures TasksInv(DropFid(s, fid))
  {
    var s' := DropFid(s, fid);
    DropFidLive(s, fid);
    var devs := DevsOf(s.fileOn, fid);
    TaskNames(devs, fid);
    forall p | p in s'.tasks
      ensures Dead(s', p.fid)
    {
      if p in s.tasks {
        assert Dead(s, p.fid);
      } else {
        var r :| r in s.fileOn && r.fid == fid && r.dev == p.dev;
        assert Live(s, fid);
      }
    }
  }

  lemma DropFidInv(c: Config, s: State, fid: int)
    requires Inv(c, s)
    ensures Inv(c, DropFid(s, fid))
  {
    var s' := DropFid(s, fid);
    DropFidLive(s, fid);
    DropFidTasks(s, fid);
    LiveKnown(s);
    hide Live;
    DropFidRows(s, fid);
    assert forall r :: r in s.fileOn && r !in s'.fileOn ==> r.fid == fid;
    TablesChange(c, s, s');
  }

  lemma LiveKnown(s: State)
    requires TablesInv(s)
    ensures forall f :: Live(s, f) ==> 0 < f < s.next && f !in s.temp
  {}

  lemma DropFidRows(s: State, fid: int)
    requires TablesInv(s) && RowsInv(s) && DataInv(s)
    ensures TablesInv(DropFid(s, fid)) && RowsInv(DropFid(s, fid)) && DataInv(DropFid(s, fid))
  {
    DropFidLive(s, fid);
    hide Live;
  }

  /** The tables after uploads have been opened or ended. */
  ghost predicate TempStep(s: State, s': State) {
    && s' == s.(temp := s'.temp, next := s'.next, tasks := s'.tasks)
    && s.next <= s'.next
    && (forall f :: f in s'.temp ==> (f in s.temp && s'.temp[f] == s.temp[f]) || s.next <= f < s'.next)
  }

  lemma TempInv(c: Config, s: State, s': State)
    requires Inv(c, s) && TempStep(s, s') && TasksInv(s')
    ensures Inv(c, s')
  {
    TempDrains(c, s, s');
    TempTables(s, s');
    hide DrainInv, TablesInv, DataInv, TasksInv, TempStep;
    RowsOnly(s, s');
  }

  lemma TempTables(s: State, s': State)
    requires TablesInv(s) && DataInv(s) && TempStep(s, s')
    ensures TablesInv(s') && DataInv(s') && s'.files == s.files && s'.fileOn == s.fileOn
  {}

  /** Opening and ending uploads leaves the drains alone. */
  lemma TempDrains(c: Config, s: State, s': State)
    requires Inv(c, s) && TempStep(s, s')
    ensures DrainInv(c, s')
  {
    TempDead(s, s');
    assert forall f :: Live(s', f) <==> Live(s, f);
    hide Live, Dead, DrainInv, CopyInv, Pending, Holds, TasksInv, DataInv, RowsInv;
    TablesChange(c, s, s');
  }

  lemma TempDead(s: State, s': State)
    requires TablesInv(s) && TempStep(s, s')
    ensures forall f :: Dead(s, f) ==> Dead(s', f)
    ensures forall f :: f in s.temp && f !in s'.temp ==> Dead(s', f)
  {
    assert forall f :: Live(s', f) <==> Live(s, f);
    LiveKnown(s);
    hide Live;
  }

  lemma TempTasks(s: State, s': State)
    requires TablesInv(s) && TasksInv(s) && TempStep(s, s')
    requires forall p :: p in s'.tasks && p !in s.tasks ==> p.fid in s.temp && p.fid !in s'.temp
    ensures TasksInv(s')
  {
    TempDead(s, s');
    hide Dead, TablesInv, TempStep;
  }

  lemma CreateOpenInv(c: Config, s: State, dev: int)
    requires Inv(c, s)
    ensures Inv(c, Open(s, dev))
  {
    hide DrainInv, RowsInv, DataInv, TasksInv;
    assert TempStep(s, Open(s, dev));
    hide TempStep, TablesInv;
    TempTasks(s, Open(s, dev));
    TempInv(c, s, Open(s, dev));
  }

  lemma ExpireInv(c: Config, s: State)
    requires Inv(c, s)
    ensures Inv(c, ExpireAll(c, s))
  {
    hide DrainInv, RowsInv, DataInv, TasksInv, TablesInv;
    assert TempStep(s, ExpireAll(c, s));
    hide TempStep;
    TempTasks(s, ExpireAll(c, s));
    TempInv(c, s, ExpireAll(c, s));
  }

  /** Exactly the uploads that are older than the limit are gone, and the device of each
      has a task. */
  lemma ExpiryIff(c: Config, s: State, fid: int)
    requires fid in s.temp
    ensures
      var s' := ExpireAll(c, s);
      && (fid in s'.temp <==> s.clock - s.temp[fid].created <= c.tooOld)
      && (fid in s'.temp ==> s'.temp[fid] == s.temp[fid])
      && (fid !in s'.temp ==> Place(s.temp[fid].dev, fid) in s'.tasks)
      && (forall p :: p in s'.tasks && p !in s.tasks ==>
           p.fid in s.temp && p.fid !in s'.temp && p.dev == s.temp[p.fid].dev)
  {
    var stale := set f | f in s.temp && Stale(c, s, f);
    if fid in stale {
      assert Place(s.temp[fid].dev, fid) in (set f | f in stale :: Place(s.temp[f].dev, f));
    }
  }

  /** No task and no drain knows the fid. */
  ghost predicate Unknown(s: State, fid: int) {
    && (forall p :: p in s.tasks ==> p.fid != fid)
    && (forall d :: !Pending(s, d, fid))
    && (forall d :: d in s.moves ==> s.moves[d].fid != fid)
  }

  lemma UploadUnknown(c: Config, s: State, fid: int)
    requires Inv(c, s) && fid in s.temp
    ensures Unknown(s, fid)
  {
    LiveKnown(s);
    hide Live, CopyInv;
    assert forall r :: r in s.fileOn ==> r.fid != fid;
    assert !Dead(s, fid);
    forall d | d in s.moves
      ensures s.moves[d].fid != fid
    {
      assert s.moves[d].Copied? && s.moves[d].fid == fid ==> Pending(s, d, fid);
    }
  }

  function Register(s: State, fid: int, key: string, dev: int): State {
    s.(files := s.files[key := fid], fileOn := s.fileOn + {Row(fid, dev)})
  }

  lemma RegisterLive(s: State, fid: int, key: string, dev: int)
    requires key !in s.files
    ensures forall f :: Live(Register(s, fid, key, dev), f) <==> Live(s, f) || f == fid
  {
    var s' := Register(s, fid, key, dev);
    assert key in s'.files && s'.files[key] == fid;
    forall f | Live(s, f)
      ensures Live(s', f)
    {
      var k :| k in s.files && s.files[k] == f;
      assert k in s'.files && s'.files[k] == f;
    }
  }

  lemma RegisterTables(s: State, fid: int, key: string, dev: int)
    requires TablesInv(s) && Dead(s, fid) && key !in s.files
    ensures TablesInv(Register(s, fid, key, dev))
  {
    assert forall k :: k in s.files ==> s.files[k] != fid;
    hide Live;
  }

  lemma RegisterRows(s: State, fid: int, key: string, dev: int)
    requires RowsInv(s) && key !in s.files && !Live(s, fid)
    ensures RowsInv(Register(s, fid, key, dev))
  {
    RegisterLive(s, fid, key, dev);
    hide Live;
    var s' := Register(s, fid, key, dev);
    assert forall r :: r in s.fileOn ==> r.fid != fid;
    forall k | k in s'.files
      ensures exists r :: r in s'.fileOn && r.fid == s'.files[k]
    {
      if k == key {
        assert Row(fid, dev) in s'.fileOn;
      } else {
        var r :| r in s.fileOn && r.fid == s.files[k];
        assert r in s'.fileOn;
      }
    }
  }

  lemma RegisterDrains(c: Config, s: State, fid: int, key: string, dev: int)
    requires DrainInv(c, s) && Unknown(s, fid) && key !in s.files
    ensures DrainInv(c, Register(s, fid, key, dev))
  {
    RegisterLive(s, fid, key, dev);
    hide Live;
    var s' := Register(s, fid, key, dev);
    assert forall d, f :: Pending(s', d, f) <==> Pending(s, d, f);
    hide Pending, Holds;
    forall d | d in s'.moves && s'.moves[d].Copied?
      ensures CopyInv(c, s', s'.moves[d])
    {
      assert CopyInv(c, s, s.moves[d]);
    }
  }

  /** Registering an uploaded file that nobody else knows. */
  lemma RegisterInv(c: Config, s: State, fid: int, key: string, dev: int)
    requires Inv(c, s)
    requires Dead(s, fid) && Unknown(s, fid) && key !in s.files && Holds(s, dev, fid)
    ensures Inv(c, Register(s, fid, key, dev))
  {
    hide DrainInv, RowsInv, TablesInv;
    RegisterLive(s, fid, key, dev);
    RegisterTables(s, fid, key, dev);
    RegisterRows(s, fid, key, dev);
    RegisterDrains(c, s, fid, key, dev);
    hide Live, Pending;
  }

  /** Taking a fid out of the uploads leaves it dead. */
  lemma TakeTempInv(c: Config, s: State, fid: int)
    requires Inv(c, s) && fid in s.temp
    ensures Inv(c, s.(temp := s.temp - {fid})) && Dead(s.(temp := s.temp - {fid}), fid)
  {
    hide DrainInv, RowsInv, DataInv, TasksInv, TablesInv, Dead;
    var s' := s.(temp := s.temp - {fid});
    assert TempStep(s, s');
    hide TempStep;
    TempDead(s, s');
    TempTasks(s, s');
    TempInv(c, s, s');
  }

  /** create-close on an uploaded fid: it replaces what the key named before, and the
      REPLACE statement never has to delete a row of its own. */
  lemma CloseInv(c: Config, s: State, fid: int, key: string)
    requires Inv(c, s)
    requires fid in s.temp ==> fid in s.sent
    ensures Inv(c, Close(s, fid, key).0)
    ensures Close(s, fid, key).1 != Failed
    ensures Close(s, fid, key).1 == if key == "" then BadRequest else if fid !in s.temp then NotFound else Ok
  {
    if key != "" && fid in s.temp {
      var s1 := s.(temp := s.temp - {fid});
      var dev := s.temp[fid].dev;
      UploadUnknown(c, s, fid);
      TakeTempInv(c, s, fid);
      var s2 := if key in s1.files then DropFid(s1, s1.files[key]) else s1;
      assert Unknown(s1, fid) by {
        hide Live;
        assert forall d :: Pending(s1, d, fid) <==> Pending(s, d, fid);
      }
      CloseDrops(c, s1, fid, key);
      RegisterInv(c, s2, fid, key, dev);
    }
  }

  lemma CloseDrops(c: Config, s: State, fid: int, key: string)
    requires Inv(c, s) && Dead(s, fid) && Unknown(s, fid)
    ensures
      var s2 := if key in s.files then DropFid(s, s.files[key]) else s;
      && Inv(c, s2) && Dead(s2, fid) && Unknown(s2, fid) && key !in s2.files
      && !ReplaceFails(s2, fid, key)
      && Replace(s2.files, fid, key) == s2.files[key := fid]
  {
    var s2 := if key in s.files then DropFid(s, s.files[key]) else s;
    hide Live, Unknown, DrainInv, DataInv, TasksInv, RowsInv;
    if key in s.files {
      var oldFid := s.files[key];
      DropFidInv(c, s, oldFid);
      DropFidLive(s, oldFid);
      LiveKey(s, key);
      DropUnknown(s, oldFid, fid);
    }
    hide TablesInv;
    NotReplaced(c, s2, fid, key);
  }

  lemma LiveKey(s: State, key: string)
    requires key in s.files
    ensures Live(s, s.files[key])
  {}

  lemma DropUnknown(s: State, gone: int, fid: int)
    requires Unknown(s, fid) && gone != fid
    ensures Unknown(DropFid(s, gone), fid)
  {
    var s' := DropFid(s, gone);
    TaskNames(DevsOf(s.fileOn, gone), gone);
    assert forall d, f :: Pending(s', d, f) <==> Pending(s, d, f);
    hide Pending, DevsOf, Tasks;
  }

  lemma NotReplaced(c: Config, s: State, fid: int, key: string)
    requires RowsInv(s) && Dead(s, fid) && key !in s.files
    ensures !ReplaceFails(s, fid, key)
    ensures Replace(s.files, fid, key) == s.files[key := fid]
  {
    assert forall k :: k in s.files ==> s.files[k] != fid;
    assert WithoutFid(s.files, fid) == s.files;
  }

  // ---------------------------------------------------------- steps on the disks

  /** Everything the cluster relies on is on the disks of d, at its place. */
  ghost predicate Stands(c: Config, s: State, disks: map<Place, Stored>) {
    var s' := s.(disks := disks);
    && DataInv(s')
    && (forall d :: d in s.moves && s.moves[d].Copied? && Live(s, s.moves[d].fid) && s.clock - s.moves[d].at < c.ttl ==>
          && Holds(s', s.moves[d].dest, s.moves[d].fid)
          && disks[Place(s.moves[d].dest, s.moves[d].fid)].mtime >= s.moves[d].at)
  }

  lemma DisksChange(c: Config, s: State, disks: map<Place, Stored>, tasks: multiset<Place>)
    requires Inv(c, s) && Stands(c, s, disks) && tasks <= s.tasks
    ensures Inv(c, s.(disks := disks, tasks := tasks))
  {
    var s' := s.(disks := disks, tasks := tasks);
    SameTables(s, s');
    hide Live, Dead;
    DisksDrains(c, s, disks, tasks);
    DataOnly(s.(disks := disks), s');
    hide DrainInv, Stands, DataInv;
    assert TasksInv(s') by {
      forall p | p in s'.tasks
        ensures Dead(s', p.fid)
      {
        assert p in s.tasks;
      }
    }
  }

  lemma DisksDrains(c: Config, s: State, disks: map<Place, Stored>, tasks: multiset<Place>)
    requires DrainInv(c, s) && Stands(c, s, disks)
    ensures DrainInv(c, s.(disks := disks, tasks := tasks))
  {
    var s' := s.(disks := disks, tasks := tasks);
    SameTables(s, s');
    hide Live, Dead, DataInv;
    assert forall d, f :: Pending(s', d, f) <==> Pending(s, d, f);
    hide Pending;
    forall d | d in s'.moves && s'.moves[d].Copied?
      ensures CopyInv(c, s', s'.moves[d])
    {
      CopyKnown(c, s, d);
    }
  }

  /** A place is relied on if it is a row, an uploaded temporary file, or a young copy
      of a live file. */
  ghost predicate ReliedOn(c: Config, s: State, p: Place) {
    || Row(p.fid, p.dev) in s.fileOn
    || (p.fid in s.temp && p.fid in s.sent && s.temp[p.fid].dev == p.dev)
    || (Live(s, p.fid) && exists d :: d in s.moves && YoungCopy(c, s, s.moves[d], p))
  }

  predicate YoungCopy(c: Config, s: State, m: Move, p: Place) {
    m.Copied? && m.fid == p.fid && m.dest == p.dev && s.clock - m.at < c.ttl
  }

  /** What is not relied on may be removed or overwritten. */
  lemma OtherPlaces(c: Config, s: State, disks: map<Place, Stored>)
    requires Inv(c, s)
    requires forall p :: ReliedOn(c, s, p) && p in s.disks ==> p in disks && disks[p] == s.disks[p]
    ensures Stands(c, s, disks)
  {
    var s' := s.(disks := disks);
    hide Live, Pending;
    forall r | r in s.fileOn
      ensures Holds(s', r.dev, r.fid)
    {
      assert ReliedOn(c, s, Place(r.dev, r.fid));
    }
    forall f | f in s.temp && f in s.sent
      ensures Holds(s', s.temp[f].dev, f)
    {
      assert ReliedOn(c, s, Place(s.temp[f].dev, f));
    }
    forall d | d in s.moves && s.moves[d].Copied? && Live(s, s.moves[d].fid) && s.clock - s.moves[d].at < c.ttl
      ensures Holds(s', s.moves[d].dest, s.moves[d].fid)
      ensures disks[Place(s.moves[d].dest, s.moves[d].fid)].mtime >= s.moves[d].at
    {
      assert CopyInv(c, s, s.moves[d]);
      assert YoungCopy(c, s, s.moves[d], Place(s.moves[d].dest, s.moves[d].fid));
      assert ReliedOn(c, s, Place(s.moves[d].dest, s.moves[d].fid));
    }
  }

  lemma DeadNotReliedOn(c: Config, s: State, p: Place)
    requires Inv(c, s) && Dead(s, p.fid)
    ensures !ReliedOn(c, s, p)
  {
    hide Live, Pending, DrainInv;
  }

  lemma UploadInv(c: Config, s: State, fid: int, dev: int, content: Content)
    requires Inv(c, s) && (Dead(s, fid) || (fid in s.temp && fid !in s.sent))
    ensures Inv(c, WriteFile(s, dev, fid, content))
  {
    hide DrainInv;
    var p := Place(dev, fid);
    LiveKnown(s);
    var disks := s.disks[p := Stored(content, s.clock)];
    assert !ReliedOn(c, s, p) by {
      if Dead(s, fid) {
        DeadNotReliedOn(c, s, p);
      }
    }
    OtherPlaces(c, s, disks);
    DisksChange(c, s, disks, s.tasks);
  }

  /** A delete task, delivered late or twice, removes nothing that is relied on. */
  lemma ConsumeInv(c: Config, s: State, task: Place, acked: bool)
    requires Inv(c, s) && task in s.tasks
    ensures Inv(c, Erase(s, task, acked))
  {
    hide DrainInv, Stands;
    DeadNotReliedOn(c, s, task);
    OtherPlaces(c, s, s.disks - {task});
    DisksChange(c, s, s.disks - {task}, if acked then s.tasks - multiset{task} else s.tasks);
  }

  lemma LoseInv(c: Config, s: State, task: Place)
    requires Inv(c, s)
    ensures Inv(c, s.(tasks := s.tasks - multiset{task}))
  {
    hide DrainInv, Stands;
    OtherPlaces(c, s, s.disks);
    DisksChange(c, s, s.disks, s.tasks - multiset{task});
  }

  /** The disk cleaner spares whatever is relied on. */
  lemma VisitInv(c: Config, s: State, dev: int, fid: int)
    requires Inv(c, s)
    ensures Inv(c, Visit(c, s, dev, fid))
  {
    hide Stands;
    var p := Place(dev, fid);
    if Visit(c, s, dev, fid) != s {
      assert !ReliedOn(c, s, p);
      OtherPlaces(c, s, s.disks - {p});
      DisksChange(c, s, s.disks - {p}, s.tasks);
    }
  }

  /** An upload that has succeeded: from now on its bytes are relied on. */
  lemma FinishInv(c: Config, s: State, fid: int, content: Content)
    requires Inv(c, s) && fid in s.temp && fid !in s.sent && HasContent(s, Place(s.temp[fid].dev, fid), content)
    ensures Inv(c, FinishUpload(s, fid, content))
  {
    var s' := FinishUpload(s, fid, content);
    UploadUnknown(c, s, fid);
    SameTables(s, s');
    assert forall d, f :: f != fid ==> (Holds(s', d, f) <==> Holds(s, d, f));
    FinishData(c, s, fid, content);
    hide Live, Dead, Holds;
    assert DrainInv(c, s') by {
      hide Dead, DataInv, RowsInv, TasksInv, TablesInv;
      assert forall d, f :: Pending(s', d, f) <==> Pending(s, d, f);
      forall d | d in s'.moves && s'.moves[d].Copied?
        ensures CopyInv(c, s', s'.moves[d])
      {
        assert CopyInv(c, s, s.moves[d]);
        assert s.moves[d].fid != fid;
      }
    }
  }

  /** The tables decide which fids are live and which are dead. */
  lemma SameTables(s: State, s': State)
    requires s'.files == s.files && s'.temp == s.temp && s'.next == s.next
    ensures forall f :: Live(s', f) <==> Live(s, f)
    ensures forall f :: Dead(s', f) <==> Dead(s, f)
  {
    assert forall f :: Live(s', f) <==> Live(s, f);
    hide Live;
  }

  lemma FinishData(c: Config, s: State, fid: int, content: Content)
    requires Inv(c, s) && fid in s.temp && fid !in s.sent && HasContent(s, Place(s.temp[fid].dev, fid), content)
    ensures
      var s' := FinishUpload(s, fid, content);
      TablesInv(s') && RowsInv(s') && DataInv(s') && TasksInv(s')
  {
    var s' := FinishUpload(s, fid, content);
    SameTables(s, s');
    LiveKnown(s);
    assert forall d, f :: f != fid ==> (Holds(s', d, f) <==> Holds(s, d, f));
    assert Holds(s', s.temp[fid].dev, fid);
    hide Live, Holds, DrainInv, Dead;
  }

  /** With one row for every file and its data in place, the device cleaner has nothing
      to correct. */
  lemma CheckFidIdle(c: Config, s: State, dev: int, fid: int)
    requires Inv(c, s)
    ensures Check(s, dev, fid) == s
  {
    hide DrainInv, TasksInv, TablesInv;
    var devs := DevsOf(s.fileOn, fid);
    if dev in devs {
      assert Row(fid, dev) in s.fileOn;
      assert devs == {dev} by {
        forall d | d in devs
          ensures d == dev
        {
          assert Row(fid, d) in s.fileOn;
        }
      }
      assert devs - {dev} == {};
      assert s.fileOn - (set d | d in devs - {dev} :: Row(fid, d)) == s.fileOn;
      assert Tasks({}, fid) == multiset{};
    }
  }

  // ------------------------------------------------------------------- drains

  lemma DrainsChange(c: Config, s: State, s': State)
    requires Inv(c, s) && DrainInv(c, s')
    requires s' == s.(lists := s'.lists, moves := s'.moves, clock := s'.clock)
    ensures Inv(c, s')
  {
    SameTables(s, s');
    hide Live, Dead, DrainInv;
  }

  /** Forgetting drains, or letting time pass, asks for nothing new. */
  lemma DrainsShrink(c: Config, s: State, s': State)
    requires Inv(c, s)
    requires s' == s.(lists := s'.lists, moves := s'.moves, clock := s'.clock) && s.clock <= s'.clock
    requires forall d, f :: Pending(s', d, f) ==> Pending(s, d, f)
    requires forall d :: d in s'.moves ==>
      d in s.moves && s'.moves[d] == s.moves[d] && d in s'.lists && d in s.lists && s'.lists[d] == s.lists[d]
    ensures Inv(c, s')
  {
    SameTables(s, s');
    hide Live, Dead, Pending, TablesInv, RowsInv, DataInv, TasksInv;
    forall d | d in s'.moves && s'.moves[d].Copied?
      ensures CopyInv(c, s', s'.moves[d])
    {
      assert CopyInv(c, s, s.moves[d]);
    }
    DrainsChange(c, s, s');
  }

  lemma EndDrainInv(c: Config, s: State, dev: int)
    requires Inv(c, s) && dev !in s.moves
    ensures Inv(c, s.(lists := s.lists - {dev}))
  {
    hide RowsInv, DataInv, TasksInv, TablesInv;
    DrainsShrink(c, s, s.(lists := s.lists - {dev}));
  }

  lemma TickInv(c: Config, s: State, n: nat)
    requires Inv(c, s)
    ensures Inv(c, s.(clock := s.clock + n))
  {
    hide RowsInv, DataInv, TasksInv, TablesInv;
    DrainsShrink(c, s, s.(clock := s.clock + n));
  }

  lemma DrainAbortInv(c: Config, s: State, src: int)
    requires Inv(c, s) && src in s.moves
    ensures Inv(c, s.(moves := s.moves - {src}))
  {
    hide RowsInv, DataInv, TasksInv, TablesInv;
    DrainsShrink(c, s, s.(moves := s.moves - {src}));
  }

  lemma StartDrainInv(c: Config, s: State, dev: int)
    requires Inv(c, s) && dev !in s.lists
    ensures Inv(c, BeginDrain(s, dev))
  {
    var s' := BeginDrain(s, dev);
    SameTables(s, s');
    hide Live, Dead, TablesInv, RowsInv, DataInv, TasksInv;
    assert forall d, f :: d != dev ==> (Pending(s', d, f) <==> Pending(s, d, f));
    assert forall f :: Pending(s', dev, f) ==> Row(f, dev) in s.fileOn;
    hide Pending;
    forall d | d in s'.moves && s'.moves[d].Copied?
      ensures CopyInv(c, s', s'.moves[d])
    {
      assert CopyInv(c, s, s.moves[d]);
    }
    DrainsChange(c, s, s');
  }

  /** A fid that is still to be moved lies where its drain is, or is dead. */
  lemma PendingRow(c: Config, s: State, dev: int, fid: int)
    requires Inv(c, s) && Pending(s, dev, fid)
    ensures fid !in s.temp
    ensures forall d :: Row(fid, d) in s.fileOn ==> d == dev
    ensures forall d :: Pending(s, d, fid) && Live(s, fid) ==> d == dev
    ensures Live(s, fid) ==> Holds(s, dev, fid)
  {
    LiveKnown(s);
    hide Live, Pending, CopyInv, Holds, TasksInv;
    forall d | Row(fid, d) in s.fileOn
      ensures d == dev
    {
      assert Live(s, fid);
      assert !Dead(s, fid);
      assert Row(fid, dev) in s.fileOn;
    }
  }

  /** The destination of a drain holds nothing that is relied on. */
  lemma DestinationFree(c: Config, s: State, src: int, fid: int, dest: int)
    requires Inv(c, s) && MaySend(s, src, fid, dest)
    ensures !ReliedOn(c, s, Place(dest, fid))
  {
    assert Pending(s, src, fid);
    PendingRow(c, s, src, fid);
    hide Live, RowsInv, DataInv, TasksInv, TablesInv, Inv;
    forall d | d in s.moves && s.moves[d].Copied? && s.moves[d].fid == fid
      ensures !Live(s, fid)
    {
      assert Pending(s, d, fid);
    }
  }

  /** Whatever a drain has sent so far, it overwrites nothing. */
  lemma DrainWriteInv(c: Config, s: State, src: int, fid: int, dest: int, content: Content)
    requires Inv(c, s) && MaySend(s, src, fid, dest)
    ensures Inv(c, WriteFile(s, dest, fid, content))
  {
    DestinationFree(c, s, src, fid, dest);
    hide TablesInv, RowsInv, DataInv, TasksInv, CopyInv, ReliedOn;
    var disks := s.disks[Place(dest, fid) := Stored(content, s.clock)];
    OtherPlaces(c, s, disks);
    hide Stands;
    DisksChange(c, s, disks, s.tasks);
    assert WriteFile(s, dest, fid, content) == s.(disks := disks, tasks := s.tasks);
  }

  lemma DrainSkipInv(c: Config, s: State, src: int, fid: int)
    requires Inv(c, s) && src !in s.moves
    ensures Inv(c, Skip(s, src, fid))
  {
    hide TablesInv, RowsInv, DataInv, TasksInv, CopyInv;
    DrainsShrink(c, s, Skip(s, src, fid));
  }

  lemma DrainCopyInv(c: Config, s: State, src: int, fid: int, dest: int)
    requires Inv(c, s) && Enabled(c, s, DrainCopied(src, fid, dest))
    ensures Inv(c, CopyOff(s, src, fid, dest))
  {
    DestinationFree(c, s, src, fid, dest);
    assert Pending(s, src, fid);
    PendingRow(c, s, src, fid);
    DrainSkipInv(c, s, src, fid);
    var s1 := Skip(s, src, fid);
    var m := Copied(fid, dest, s.disks[Place(dest, fid)].mtime);
    SameTables(s, s1);
    assert Live(s, fid) ==> Holds(s1, dest, fid);
    hide Inv, Live, Holds, Pending, Dead;
    StartMove(c, s1, src, m);
    assert s1.(moves := s1.moves[src := m]) == CopyOff(s, src, fid, dest);
  }

  /** A copy may enter the books when it is complete, its source is still to be moved, and
      its destination neither drains nor knows the fid. */
  ghost predicate Fresh(s: State, src: int, m: Move)
    requires m.Copied?
  {
    && src in s.lists && src !in s.moves && m.fid !in s.lists[src] && m.dest !in s.lists
    && (Row(m.fid, src) in s.fileOn || Dead(s, m.fid))
    && (Live(s, m.fid) ==> Holds(s, m.dest, m.fid) && s.disks[Place(m.dest, m.fid)].mtime >= m.at)
    && Row(m.fid, m.dest) !in s.fileOn
    && (forall d :: d in s.moves && s.moves[d].Copied? && s.moves[d].fid == m.fid ==> s.moves[d].dest != src)
  }

  lemma StartMove(c: Config, s: State, src: int, m: Move)
    requires Inv(c, s) && m.Copied? && Fresh(s, src, m)
    ensures Inv(c, s.(moves := s.moves[src := m]))
  {
    var s' := s.(moves := s.moves[src := m]);
    SameTables(s, s');
    StartCopies(c, s, src, m);
    hide Live, Dead, CopyInv, Holds, TablesInv, RowsInv, DataInv, TasksInv;
    assert forall d, f :: Pending(s', d, f) <==> Pending(s, d, f) || (d == src && f == m.fid);
    hide Pending;
    DrainsChange(c, s, s');
  }

  lemma StartCopies(c: Config, s: State, src: int, m: Move)
    requires DrainInv(c, s) && m.Copied? && Fresh(s, src, m)
    ensures
      var s' := s.(moves := s.moves[src := m]);
      forall d :: d in s'.moves && s'.moves[d].Copied? ==> CopyInv(c, s', s'.moves[d])
  {
    var s' := s.(moves := s.moves[src := m]);
    SameTables(s, s');
    hide Live, Dead;
    assert forall d, f :: Pending(s', d, f) <==> Pending(s, d, f) || (d == src && f == m.fid);
    assert forall d, f :: Holds(s', d, f) <==> Holds(s, d, f);
    hide Pending, Holds;
    forall d | d in s'.moves && s'.moves[d].Copied?
      ensures CopyInv(c, s', s'.moves[d])
    {
      if d != src {
        CopyKnown(c, s, d);
      }
    }
  }

  lemma DrainRemoveInv(c: Config, s: State, src: int)
    requires Inv(c, s) && src in s.moves && s.moves[src].Updated?
    ensures Inv(c, RemoveSource(s, src))
  {
    var p := Place(src, s.moves[src].fid);
    assert !ReliedOn(c, s, p) by {
      hide TablesInv, RowsInv, DataInv, TasksInv, Live, Pending;
      forall d | d in s.moves && s.moves[d].Copied?
        ensures !YoungCopy(c, s, s.moves[d], p)
      {
        assert CopyInv(c, s, s.moves[d]);
      }
    }
    hide TablesInv, RowsInv, DataInv, TasksInv, CopyInv, ReliedOn;
    OtherPlaces(c, s, s.disks - {p});
    hide Stands;
    DisksChange(c, s, s.disks - {p}, s.tasks);
    var s1 := s.(disks := s.disks - {p});
    assert s1 == s.(disks := s.disks - {p}, tasks := s.tasks);
    DrainsShrink(c, s1, s1.(moves := s1.moves - {src}));
  }

  /** The row follows the copy: from now on the destination is where the data lives. */
  lemma DrainUpdateInv(c: Config, s: State, src: int)
    requires Inv(c, s) && src in s.moves && s.moves[src].Copied?
    requires Live(s, s.moves[src].fid) ==> Holds(s, s.moves[src].dest, s.moves[src].fid)
    ensures Inv(c, UpdateRow(s, src))
  {
    var s' := UpdateRow(s, src);
    SameTables(s, s');
    DrainUpdateRows(c, s, src);
    DrainUpdateDrains(c, s, src);
    hide Live, Dead, DrainInv, RowsInv, DataInv;
  }

  lemma DrainUpdateRows(c: Config, s: State, src: int)
    requires RowsInv(s) && DataInv(s)
    requires src in s.moves && s.moves[src].Copied? && s.moves[src].dest != src
    requires Live(s, s.moves[src].fid) ==> Holds(s, s.moves[src].dest, s.moves[src].fid)
    ensures RowsInv(UpdateRow(s, src)) && DataInv(UpdateRow(s, src))
  {
    var m := s.moves[src];
    var s1 := s.(fileOn := UpdateRows(s.fileOn, m.fid, src, m.dest));
    MoveRow(s, m.fid, src, m.dest);
    MoveData(s, s1, Row(m.fid, m.dest));
    hide Live, DataInv, RowsInv;
    RowsOnly(s1, UpdateRow(s, src));
    DataOnly(s1, UpdateRow(s, src));
  }

  lemma MoveData(s: State, s': State, row: Row)
    requires DataInv(s) && s' == s.(fileOn := s'.fileOn)
    requires forall r :: r in s'.fileOn ==> r in s.fileOn || (r == row && Live(s, row.fid))
    requires Live(s, row.fid) ==> Holds(s, row.dev, row.fid)
    ensures DataInv(s')
  {
    hide Live;
  }

  lemma DataOnly(s: State, s': State)
    requires DataInv(s) && s'.fileOn == s.fileOn && s'.temp == s.temp && s'.sent == s.sent && s'.disks == s.disks
    ensures DataInv(s')
  {}

  lemma RowsOnly(s: State, s': State)
    requires RowsInv(s) && s'.files == s.files && s'.fileOn == s.fileOn
    ensures RowsInv(s')
  {}

  lemma CopyKnown(c: Config, s: State, src: int)
    requires DrainInv(c, s) && src in s.moves && s.moves[src].Copied?
    ensures CopyInv(c, s, s.moves[src])
  {}

  lemma MoveRow(s: State, fid: int, src: int, dest: int)
    requires RowsInv(s) && src != dest
    ensures
      var s' := s.(fileOn := UpdateRows(s.fileOn, fid, src, dest));
      && RowsInv(s')
      && (forall r :: r in s'.fileOn ==> r in s.fileOn || (r == Row(fid, dest) && Live(s, fid)))
      && Row(fid, src) !in s'.fileOn
      && (forall r :: r in s.fileOn && r !in s'.fileOn ==> r == Row(fid, src))
  {
    var s' := s.(fileOn := UpdateRows(s.fileOn, fid, src, dest));
    assert forall f :: Live(s', f) <==> Live(s, f);
    hide Live;
    forall k | k in s'.files
      ensures exists r :: r in s'.fileOn && r.fid == s'.files[k]
    {
      var r :| r in s.fileOn && r.fid == s.files[k];
      if r != Row(fid, src) {
        assert r in s'.fileOn;
      } else {
        assert Row(fid, dest) in s'.fileOn;
      }
    }
  }

  lemma DrainUpdateDrains(c: Config, s: State, src: int)
    requires Inv(c, s) && src in s.moves && s.moves[src].Copied?
    ensures DrainInv(c, UpdateRow(s, src))
  {
    var m := s.moves[src];
    var s' := UpdateRow(s, src);
    SameTables(s, s');
    UpdateKeepsCopies(c, s, src);
    UpdateKeepsPending(c, s, src);
    assert Pending(s, src, m.fid);
    PendingRow(c, s, src, m.fid);
    LiveKnown(s);
    MoveRow(s, m.fid, src, m.dest);
    hide Live, Pending, CopyInv, Holds, DataInv, TasksInv, RowsInv;
  }

  lemma UpdateKeepsPending(c: Config, s: State, src: int)
    requires Inv(c, s) && src in s.moves && s.moves[src].Copied?
    ensures
      var s' := UpdateRow(s, src);
      forall d, f :: Pending(s', d, f) ==> Pending(s, d, f) && (Row(f, d) in s'.fileOn || Dead(s', f))
  {
    var m := s.moves[src];
    var s' := UpdateRow(s, src);
    SameTables(s, s');
    MoveRow(s, m.fid, src, m.dest);
    assert forall d, f :: Pending(s', d, f) ==> Pending(s, d, f) && !(d == src && f == m.fid);
    hide Live, Dead, Pending, CopyInv, DataInv, TasksInv, TablesInv, RowsInv;
  }

  lemma UpdateKeepsCopies(c: Config, s: State, src: int)
    requires Inv(c, s) && src in s.moves && s.moves[src].Copied?
    ensures forall d :: d in s.moves && s.moves[d].Copied? && d != src ==> CopyInv(c, UpdateRow(s, src), s.moves[d])
  {
    var m := s.moves[src];
    var s' := UpdateRow(s, src);
    SameTables(s, s');
    assert Pending(s, src, m.fid);
    PendingRow(c, s, src, m.fid);
    MoveRow(s, m.fid, src, m.dest);
    assert forall d, f :: Pending(s', d, f) ==> Pending(s, d, f);
    assert forall d, f :: Holds(s', d, f) <==> Holds(s, d, f);
    assert forall d :: d in s.moves && s.moves[d].Copied? ==> Pending(s, d, s.moves[d].fid);
    hide Live, DataInv, TasksInv, TablesInv, RowsInv, Pending, Holds;
    forall d | d in s.moves && s.moves[d].Copied? && d != src
      ensures CopyInv(c, s', s.moves[d])
    {
      CopyKnown(c, s, d);
    }
  }
}
