/** Where the cluster depends on its assumptions: for each, exactly when the step is
    safe, and a run that loses data when it is not. */
module ClusterLimits {
  import opened Cluster
  import opened ClusterRun

  /** A file may be removed from a disk exactly when it is neither a row of file_on, nor
      a finished upload, nor a young copy of a live file. */
  lemma RemovalIff(c: Config, s: State, p: Place)
    requires Inv(c, s)
    ensures Inv(c, s.(disks := s.disks - {p})) <==> !ReliedOn(c, s, p)
  {
    var s' := s.(disks := s.disks - {p});
    if ReliedOn(c, s, p) {
      Needed(c, s, p);
    } else {
      hide ReliedOn, DrainInv, RowsInv, TasksInv, TablesInv, DataInv;
      OtherPlaces(c, s, s.disks - {p});
      hide Stands;
      DisksChange(c, s, s.disks - {p}, s.tasks);
      assert s' == s.(disks := s.disks - {p}, tasks := s.tasks);
    }
  }

  lemma Needed(c: Config, s: State, p: Place)
    requires Inv(c, s) && ReliedOn(c, s, p)
    ensures !Inv(c, s.(disks := s.disks - {p}))
  {
    var s' := s.(disks := s.disks - {p});
    SameTables(s, s');
    hide Live, Dead, Pending, RowsInv, TasksInv, TablesInv;
    assert !Holds(s', p.dev, p.fid);
    if Row(p.fid, p.dev) in s.fileOn {
      assert !DataInv(s');
    } else if p.fid in s.temp && p.fid in s.sent && s.temp[p.fid].dev == p.dev {
      assert !DataInv(s');
    } else {
      var d :| d in s.moves && YoungCopy(c, s, s.moves[d], p);
      assert !CopyInv(c, s', s'.moves[d]);
    }
  }

  /** A drain may update the row exactly when the file is gone or its copy complete. */
  lemma UpdateRowIff(c: Config, s: State, src: int)
    requires Inv(c, s) && src in s.moves && s.moves[src].Copied?
    ensures
      var m := s.moves[src];
      Inv(c, UpdateRow(s, src)) <==> (Live(s, m.fid) ==> Holds(s, m.dest, m.fid))
  {
    var m := s.moves[src];
    var s' := UpdateRow(s, src);
    if Live(s, m.fid) ==> Holds(s, m.dest, m.fid) {
      DrainUpdateInv(c, s, src);
    } else {
      assert Pending(s, src, m.fid);
      assert Row(m.fid, src) in s.fileOn;
      hide Live, Pending, RowsInv, TasksInv, TablesInv, DrainInv;
      assert Row(m.fid, m.dest) in s'.fileOn;
      assert !Holds(s', m.dest, m.fid);
      assert !DataInv(s');
    }
  }

  // ------------------------------------------------------------ drains and time

  /** The steps leave the drain of src where it is: between its copy and its update. */
  predicate Waits(steps: seq<Step>, src: int) {
    forall t :: t in steps ==> t != DrainUpdate(src) && t != DrainAbort(src)
  }

  lemma MoveStep(c: Config, s: State, step: Step, src: int)
    requires Enabled(c, s, step) && src in s.moves && s.moves[src].Copied?
    requires step != DrainUpdate(src) && step != DrainAbort(src)
    ensures
      var s' := Apply(c, s, step);
      && src in s'.moves && s'.moves[src] == s.moves[src]
      && s'.clock == s.clock + if step.Tick? then step.n else 0
  {
    hide Open, WriteFile, FinishUpload, DropFid, ExpireAll, Visit, Check, BeginDrain, Skip, Erase;
    if step.CreateClose? {
      hide ReplaceFails, Replace, CopyOff, UpdateRow, RemoveSource;
    } else {
      hide Close;
    }
  }

  lemma {:induction false} MoveStays(c: Config, s: State, steps: seq<Step>, src: int)
    requires Allowed(c, s, steps) && src in s.moves && s.moves[src].Copied? && Waits(steps, src)
    ensures
      var s' := Run(c, s, steps);
      src in s'.moves && s'.moves[src] == s.moves[src] && s'.clock == s.clock + Elapsed(steps)
    decreases |steps|
  {
    hide Apply, Enabled;
    if steps != [] {
      assert steps[0] in steps && forall t :: t in steps[1..] ==> t in steps;
      MoveStep(c, s, steps[0], src);
      MoveStays(c, Apply(c, s, steps[0]), steps[1..], src);
    }
  }

  /** Whatever else goes on for the time n, the row may then be updated. */
  ghost predicate MayWait(c: Config, s: State, src: int, n: nat) {
    forall steps :: Allowed(c, s, steps) && Waits(steps, src) && Elapsed(steps) == n ==>
      Inv(c, UpdateRow(Run(c, s, steps), src))
  }

  /** A drain with a fresh copy of a live file may take its time over the update exactly as
      long as the copy is too young for the disk cleaner. */
  lemma UpdateInTimeIff(c: Config, s: State, src: int, n: nat)
    requires Inv(c, s) && src in s.moves && s.moves[src].Copied?
    requires
      var m := s.moves[src];
      Live(s, m.fid) && Place(m.dest, m.fid) in s.disks && s.disks[Place(m.dest, m.fid)].mtime == m.at
    ensures MayWait(c, s, src, n) <==> s.clock + n - s.moves[src].at < c.ttl
  {
    if s.clock + n - s.moves[src].at < c.ttl {
      forall steps | Allowed(c, s, steps) && Waits(steps, src) && Elapsed(steps) == n
        ensures Inv(c, UpdateRow(Run(c, s, steps), src))
      {
        hide Inv, Live, Holds;
        MoveStays(c, s, steps, src);
        RunInv(c, s, steps);
        YoungCopyHolds(c, Run(c, s, steps), src);
        DrainUpdateInv(c, Run(c, s, steps), src);
      }
    } else {
      TooLate(c, s, src, n);
    }
  }

  lemma TwoSteps(c: Config, s: State, a: Step, b: Step)
    ensures Run(c, s, [a, b]) == Apply(c, Apply(c, s, a), b)
    ensures Allowed(c, s, [a, b]) <==> Enabled(c, s, a) && Enabled(c, Apply(c, s, a), b)
    ensures Elapsed([a, b]) == (if a.Tick? then a.n else 0) + if b.Tick? then b.n else 0
  {
    hide Apply, Enabled;
    assert [a, b][1..] == [b] && [b][1..] == [];
    assert Run(c, Apply(c, s, a), [b]) == Apply(c, Apply(c, s, a), b);
    assert Allowed(c, Apply(c, s, a), [b]) <==> Enabled(c, Apply(c, s, a), b);
    assert Elapsed([b]) == if b.Tick? then b.n else 0;
  }

  /** The disk cleaner takes a copy that has grown too old. */
  lemma StaleCopyGoes(c: Config, s: State, src: int)
    requires Inv(c, s) && src in s.moves && s.moves[src].Copied?
    requires
      var m := s.moves[src];
      Place(m.dest, m.fid) in s.disks && s.clock - s.disks[Place(m.dest, m.fid)].mtime >= c.ttl
    ensures
      var p := Place(s.moves[src].dest, s.moves[src].fid);
      Visit(c, s, p.dev, p.fid) == s.(disks := s.disks - {p})
  {
    var m := s.moves[src];
    CopyKnown(c, s, src);
    assert Pending(s, src, m.fid);
    PendingRow(c, s, src, m.fid);
    hide Inv, Pending;
  }

  /** The run that is too late: time passes, and the disk cleaner visits the copy. */
  function LateRun(m: Move, n: nat): seq<Step> {
    [Tick(n), VisitFile(m.dest, m.fid)]
  }

  lemma LateRunAllowed(c: Config, s: State, m: Move, n: nat, src: int)
    ensures Allowed(c, s, LateRun(m, n)) && Elapsed(LateRun(m, n)) == n && Waits(LateRun(m, n), src)
    ensures Run(c, s, LateRun(m, n)) == Visit(c, s.(clock := s.clock + n), m.dest, m.fid)
  {
    hide Visit;
    TwoSteps(c, s, Tick(n), VisitFile(m.dest, m.fid));
  }

  lemma TooLate(c: Config, s: State, src: int, n: nat)
    requires Inv(c, s) && src in s.moves && s.moves[src].Copied?
    requires
      var m := s.moves[src];
      && Live(s, m.fid) && Place(m.dest, m.fid) in s.disks && s.disks[Place(m.dest, m.fid)].mtime == m.at
      && s.clock + n - m.at >= c.ttl
    ensures !MayWait(c, s, src, n)
  {
    var m := s.moves[src];
    var p := Place(m.dest, m.fid);
    var s1 := s.(clock := s.clock + n);
    hide Run, Allowed, Elapsed, Waits, Inv, Live;
    LateRunAllowed(c, s, m, n, src);
    TickInv(c, s, n);
    StaleCopyGoes(c, s1, src);
    VisitInv(c, s1, m.dest, m.fid);
    hide Visit;
    var s2 := s1.(disks := s1.disks - {p});
    SameTables(s, s2);
    UpdateRowIff(c, s2, src);
    assert !Inv(c, UpdateRow(Run(c, s, LateRun(m, n)), src));
  }

  // ------------------------------------------------- the disk cleaner's two queries

  /** No drain moves the fid, and all its rows and its upload are on the device, or none
      of them is. */
  ghost predicate Sided(s: State, fid: int, dev: int, here: bool) {
    && 0 < fid < s.next
    && (forall d :: d in s.moves ==> s.moves[d].fid != fid)
    && (forall r :: r in s.fileOn && r.fid == fid ==> (r.dev == dev <==> here))
    && (fid in s.temp ==> (s.temp[fid].dev == dev <==> here))
  }

  predicate Undrained(steps: seq<Step>, fid: int) {
    forall t :: t in steps ==> !(t.DrainCopied? && t.fid == fid)
  }

  lemma CloseRows(s: State, fid: int, key: string)
    ensures
      var s' := Close(s, fid, key).0;
      && (forall r :: r in s'.fileOn ==> r in s.fileOn || (fid in s.temp && r == Row(fid, s.temp[fid].dev)))
      && (forall f :: f in s'.temp ==> f in s.temp && s'.temp[f] == s.temp[f])
      && s'.next == s.next && s'.moves == s.moves
  {
    hide ReplaceFails, Replace;
  }

  lemma SidedStep(c: Config, s: State, step: Step, fid: int, dev: int, here: bool)
    requires Inv(c, s) && Enabled(c, s, step) && Sided(s, fid, dev, here)
    requires !(step.DrainCopied? && step.fid == fid)
    ensures Sided(Apply(c, s, step), fid, dev, here)
    ensures fid !in s.temp ==> fid !in Apply(c, s, step).temp
  {
    hide Inv, WriteFile, FinishUpload, Visit, BeginDrain, Skip, Erase;
    if step.CreateClose? {
      CloseRows(s, step.fid, step.key);
      hide Close;
    } else if step.CheckFid? {
      CheckFidIdle(c, s, step.dev, step.fid);
      hide Check;
    } else if step.Expire? || step.CreateOpen? || step.DeleteKey? || step.DeleteFid? {
      SidedTables(c, s, step, fid, dev, here);
      hide Apply, Sided;
    } else {
      hide Close, Check, DropFid, ExpireAll, Open;
    }
  }

  lemma SidedTables(c: Config, s: State, step: Step, fid: int, dev: int, here: bool)
    requires Sided(s, fid, dev, here)
    requires step.Expire? || step.CreateOpen? || step.DeleteKey? || step.DeleteFid?
    ensures Sided(Apply(c, s, step), fid, dev, here)
    ensures fid !in s.temp ==> fid !in Apply(c, s, step).temp
  {
    hide WithoutFid, Tasks, DevsOf;
    if step.Expire? {
      if fid in s.temp {
        ExpiryIff(c, s, fid);
      }
      hide DropFid, ExpireAll;
    } else {
      hide ExpireAll;
    }
  }

  lemma {:induction false} SidedRun(c: Config, s: State, steps: seq<Step>, fid: int, dev: int, here: bool)
    requires Inv(c, s) && Allowed(c, s, steps) && Sided(s, fid, dev, here) && Undrained(steps, fid)
    ensures Inv(c, Run(c, s, steps)) && Sided(Run(c, s, steps), fid, dev, here)
    ensures fid !in s.temp ==> fid !in Run(c, s, steps).temp
    decreases |steps|
  {
    hide Inv, Enabled, Apply, Sided;
    if steps != [] {
      assert steps[0] in steps && forall t :: t in steps[1..] ==> t in steps;
      StepInv(c, s, steps[0]);
      SidedStep(c, s, steps[0], fid, dev, here);
      SidedRun(c, Apply(c, s, steps[0]), steps[1..], fid, dev, here);
    }
  }

  /** The disk cleaner as it is: it finds no row, then anything may happen, it finds no
      upload, again anything may happen, and it removes the file. For a fid that no drain
      is moving, that is safe exactly unless the fid was being uploaded to the device at
      the first query and is a live file at the removal. */
  lemma VisitRaceIff(c: Config, s: State, between: seq<Step>, after: seq<Step>, dev: int, fid: int)
    requires Inv(c, s) && 0 < fid < s.next && Allowed(c, s, between) && Allowed(c, Run(c, s, between), after)
    requires Undrained(between, fid) && Undrained(after, fid) && forall d :: d in s.moves ==> s.moves[d].fid != fid
    requires Row(fid, dev) !in s.fileOn
    requires !(fid in Run(c, s, between).temp && Run(c, s, between).temp[fid].dev == dev)
    ensures
      var s2 := Run(c, Run(c, s, between), after);
      Inv(c, s2.(disks := s2.disks - {Place(dev, fid)})) <==>
        !(fid in s.temp && s.temp[fid].dev == dev && Live(s2, fid))
  {
    var here := fid in s.temp && s.temp[fid].dev == dev;
    assert Sided(s, fid, dev, here) by {
      LiveKnown(s);
      hide Live, DataInv, TasksInv, DrainInv;
      assert forall r :: r in s.fileOn && r.fid == fid ==> r.dev != dev && Live(s, fid);
    }
    hide Run, Allowed, Inv;
    var s1 := Run(c, s, between);
    SidedRun(c, s, between, fid, dev, here);
    SidedRun(c, s1, after, fid, dev, here);
    var s2 := Run(c, s1, after);
    RemovalIff(c, s2, Place(dev, fid));
    RowIffLive(c, s2, fid, dev, here);
  }

  lemma RowIffLive(c: Config, s: State, fid: int, dev: int, here: bool)
    requires Inv(c, s) && Sided(s, fid, dev, here)
    ensures Row(fid, dev) in s.fileOn <==> here && Live(s, fid)
  {
    hide DataInv, TasksInv, DrainInv, TablesInv;
    if here && Live(s, fid) {
      var k :| k in s.files && s.files[k] == fid;
      var r :| r in s.fileOn && r.fid == s.files[k];
      assert r == Row(fid, dev);
    }
  }

  /** Nothing is opened again under a fid that has been handed out. */
  lemma TempStays(c: Config, s: State, step: Step, fid: int)
    requires Inv(c, s) && Enabled(c, s, step) && fid < s.next && fid in Apply(c, s, step).temp
    ensures fid in s.temp && Apply(c, s, step).temp[fid] == s.temp[fid] && s.next <= Apply(c, s, step).next
  {
    hide Inv, WriteFile, FinishUpload, Visit, BeginDrain, Skip, Erase, DropFid, CopyOff, UpdateRow, RemoveSource;
    if step.CreateClose? {
      CloseRows(s, step.fid, step.key);
      hide Close;
    } else if step.Expire? {
      if fid in s.temp {
        ExpiryIff(c, s, fid);
      }
      hide ExpireAll;
    } else {
      hide Close, Check, ExpireAll;
    }
  }

  lemma {:induction false} TempRun(c: Config, s: State, steps: seq<Step>, fid: int)
    requires Inv(c, s) && Allowed(c, s, steps) && fid < s.next && fid in Run(c, s, steps).temp
    ensures fid in s.temp && Run(c, s, steps).temp[fid] == s.temp[fid]
    decreases |steps|
  {
    hide Inv, Enabled, Apply;
    if steps != [] {
      StepInv(c, s, steps[0]);
      TablesStep(c, s, steps[0]);
      TempRun(c, Apply(c, s, steps[0]), steps[1..], fid);
      TempStays(c, s, steps[0], fid);
    }
  }

  /** With drains of the fid as well: after the second query, whatever has happened before
      or happens then, the removal is safe exactly if no row lists the device at that
      moment, and no drain has a young copy of the live file there. */
  lemma VisitDrainIff(c: Config, s: State, after: seq<Step>, dev: int, fid: int)
    requires Inv(c, s) && fid < s.next && Allowed(c, s, after)
    requires !(fid in s.temp && s.temp[fid].dev == dev)
    ensures
      var s2 := Run(c, s, after);
      Inv(c, s2.(disks := s2.disks - {Place(dev, fid)})) <==>
        && Row(fid, dev) !in s2.fileOn
        && !(Live(s2, fid) && exists d :: d in s2.moves && YoungCopy(c, s2, s2.moves[d], Place(dev, fid)))
  {
    hide Run, Allowed, Inv, Live;
    RunInv(c, s, after);
    var s2 := Run(c, s, after);
    if fid in s2.temp {
      TempRun(c, s, after, fid);
    }
    RemovalIff(c, s2, Place(dev, fid));
  }

  /** Such a fid has become live by a create-close in between. */
  lemma {:induction false} LiveWasClosed(c: Config, s: State, steps: seq<Step>, fid: int)
    requires Inv(c, s) && Allowed(c, s, steps) && !Live(s, fid) && Live(Run(c, s, steps), fid)
    ensures exists t :: t in steps && t.CreateClose? && t.fid == fid
    decreases |steps|
  {
    hide Inv, Enabled, Apply, Live;
    if steps != [] {
      StepInv(c, s, steps[0]);
      if steps[0].CreateClose? && steps[0].fid == fid {
        assert steps[0] in steps;
      } else {
        NotMadeLive(c, s, steps[0], fid);
        LiveWasClosed(c, Apply(c, s, steps[0]), steps[1..], fid);
        assert forall t :: t in steps[1..] ==> t in steps;
      }
    }
  }

  lemma NotMadeLive(c: Config, s: State, step: Step, fid: int)
    requires Inv(c, s) && Enabled(c, s, step) && !Live(s, fid) && !(step.CreateClose? && step.fid == fid)
    ensures !Live(Apply(c, s, step), fid)
  {
    TablesStep(c, s, step);
    hide Inv, Apply, Enabled;
    FilesNamed(s, step, fid);
    hide FilesAfter;
  }

  // ----------------------------------------------------------- runs that lose data

  ghost predicate Lost(s: State, key: string) {
    key in s.files && forall content :: !Served(s, key, content)
  }

  function Uploaded(content: Content): State {
    INITIAL.(temp := map[1 := Temp(1, 0)], next := 2, disks := map[Place(1, 1) := Stored(content, 0)],
             sent := map[1 := content])
  }

  function Closed(content: Content): State {
    Uploaded(content).(temp := map[], files := map["a" := 1], fileOn := {Row(1, 1)})
  }

  lemma CloseOne(s: State)
    requires s.temp == map[1 := Temp(1, 0)] && s.files == map[] && s.fileOn == {}
    ensures Close(s, 1, "a") == (s.(temp := map[], files := map["a" := 1], fileOn := {Row(1, 1)}), Ok)
  {
    assert s.temp - {1} == map[];
    assert Replace(map[], 1, "a") == map["a" := 1];
    assert s.fileOn + {Row(1, 1)} == {Row(1, 1)};
  }

  /** A file is uploaded to device 1 and stored as "a". */
  lemma StoreOne(c: Config, content: Content)
    ensures FinishUpload(WriteFile(Open(INITIAL, 1), 1, 1, content), 1, content) == Uploaded(content)
    ensures Inv(c, Uploaded(content))
    ensures Close(Uploaded(content), 1, "a").0 == Closed(content) && Inv(c, Closed(content))
  {
    var s1 := Open(INITIAL, 1);
    var s2 := WriteFile(s1, 1, 1, content);
    CloseOne(Uploaded(content));
    InitialInv(c);
    hide Inv, Close;
    CreateOpenInv(c, INITIAL, 1);
    UploadInv(c, s1, 1, 1, content);
    FinishInv(c, s2, 1, content);
    CloseInv(c, Uploaded(content), 1, "a");
  }

  /** A drain of device 1 has copied the file to device 2. */
  function Copying(content: Content): State {
    Closed(content).(lists := map[1 := {}], moves := map[1 := Copied(1, 2, 0)],
                     disks := map[Place(1, 1) := Stored(content, 0), Place(2, 1) := Stored(content, 0)])
  }

  lemma CopyOne(c: Config, content: Content)
    ensures CopyOff(WriteFile(BeginDrain(Closed(content), 1), 2, 1, content), 1, 1, 2) == Copying(content)
    ensures Inv(c, Copying(content))
  {
    var s := Closed(content);
    StoreOne(c, content);
    hide Inv;
    assert BeginDrain(s, 1).lists == map[1 := {1}] by {
      var r := Row(1, 1);
      assert r in s.fileOn;
      assert (set q | q in s.fileOn && q.dev == 1 :: q.fid) == {r.fid};
    }
    assert {1} - {1} == {};
    hide BeginDrain;
    StartDrainInv(c, s, 1);
    var s1 := BeginDrain(s, 1);
    DrainWriteInv(c, s1, 1, 1, 2, content);
    DrainCopyInv(c, WriteFile(s1, 2, 1, content), 1, 1, 2);
  }

  /** If the row is updated only after the disk cleaner has taken the copy for garbage,
      the file is lost. */
  lemma LateUpdateLosesData(c: Config, content: Content)
    requires 0 <= c.ttl
    ensures
      var s := Visit(c, Copying(content).(clock := c.ttl), 2, 1);
      Inv(c, s) && !Lost(s, "a") && Lost(UpdateRow(s, 1), "a")
  {
    CopyOne(c, content);
    hide Inv;
    TickInv(c, Copying(content), c.ttl);
    assert Copying(content).clock + c.ttl == c.ttl;
    var s := Copying(content).(clock := c.ttl);
    VisitInv(c, s, 2, 1);
    assert Visit(c, s, 2, 1) == s.(disks := s.disks - {Place(2, 1)});
    StillServed(s.(disks := s.disks - {Place(2, 1)}));
  }

  lemma StillServed(s: State)
    requires s.files == map["a" := 1] && s.fileOn == {Row(1, 1)} && Place(1, 1) in s.disks
    ensures !Lost(s, "a")
  {
    assert Reads(s, Row(1, 1), s.disks[Place(1, 1)].content);
    assert Served(s, "a", s.disks[Place(1, 1)].content);
  }

  /** The disk cleaner asks for the row of file_on first and for the upload second. An
      upload that is closed in between is found by neither query, and removing it then
      loses the file. */
  lemma VisitRaceLosesData(c: Config, content: Content)
    requires 0 <= c.ttl
    ensures
      var before := Uploaded(content).(clock := c.ttl);
      var after := Close(before, 1, "a").0;
      && Inv(c, before) && Inv(c, after)
      && Place(1, 1) in before.disks && before.clock - before.disks[Place(1, 1)].mtime >= c.ttl
      && Row(1, 1) !in before.fileOn && 1 !in after.temp
      && !Lost(after, "a") && Lost(after.(disks := after.disks - {Place(1, 1)}), "a")
  {
    StoreOne(c, content);
    var s := Uploaded(content);
    TickInv(c, s, c.ttl);
    var before := s.(clock := c.ttl);
    assert s.clock + c.ttl == c.ttl;
    CloseInv(c, before, 1, "a");
    hide Inv;
    CloseOne(before);
    hide Close;
    StillServed(Close(before, 1, "a").0);
  }
}
