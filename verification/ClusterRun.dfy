/** Runs of the cluster: nothing live is ever lost, and the tables and disks together
    are a map from keys to contents. */
module ClusterRun {
  import opened Cluster

  /** One step, under the assumptions on clients, drains and time. */
  lemma StepInv(c: Config, s: State, step: Step)
    requires Inv(c, s) && Enabled(c, s, step)
    ensures Inv(c, Apply(c, s, step))
  {
    hide Inv, Close, DropFid, ExpireAll, Visit, Check, Open, WriteFile, FinishUpload, Erase, BeginDrain, Skip,
      CopyOff, UpdateRow, RemoveSource, Holds, Live;
    match step
    case CreateOpen(dev) => CreateOpenInv(c, s, dev);
    case Upload(fid, dev, content) => UploadInv(c, s, fid, dev, content);
    case Finish(fid, content) => FinishInv(c, s, fid, content);
    case CreateClose(fid, key) => CloseInv(c, s, fid, key);
    case DeleteKey(key) => if key in s.files { DropFidInv(c, s, s.files[key]); }
    case DeleteFid(fid) => DropFidInv(c, s, fid);
    case Expire => ExpireInv(c, s);
    case Consume(task, acked) => ConsumeInv(c, s, task, acked);
    case Lose(task) => LoseInv(c, s, task);
    case VisitFile(dev, fid) => VisitInv(c, s, dev, fid);
    case CheckFid(dev, fid) => CheckFidIdle(c, s, dev, fid);
    case StartDrain(dev) => StartDrainInv(c, s, dev);
    case EndDrain(dev) => EndDrainInv(c, s, dev);
    case DrainWrite(src, fid, dest, content) => DrainWriteInv(c, s, src, fid, dest, content);
    case DrainCopied(src, fid, dest) => DrainCopyInv(c, s, src, fid, dest);
    case DrainSkip(src, fid) => DrainSkipInv(c, s, src, fid);
    case DrainUpdate(src) =>
      YoungCopyHolds(c, s, src);
      DrainUpdateInv(c, s, src);
    case DrainAbort(src) => DrainAbortInv(c, s, src);
    case DrainRemove(src) => DrainRemoveInv(c, s, src);
    case Tick(n) => TickInv(c, s, n);
  }

  lemma YoungCopyHolds(c: Config, s: State, src: int)
    requires Inv(c, s) && src in s.moves && s.moves[src].Copied? && s.clock - s.moves[src].at < c.ttl
    ensures Live(s, s.moves[src].fid) ==> Holds(s, s.moves[src].dest, s.moves[src].fid)
  {
    CopyKnown(c, s, src);
  }

  function Run(c: Config, s: State, steps: seq<Step>): State
    decreases |steps|
  {
    if steps == [] then s else Run(c, Apply(c, s, steps[0]), steps[1..])
  }

  /** Every step of the run is allowed where it is taken. */
  predicate Allowed(c: Config, s: State, steps: seq<Step>)
    decreases |steps|
  {
    steps == [] || (Enabled(c, s, steps[0]) && Allowed(c, Apply(c, s, steps[0]), steps[1..]))
  }

  lemma {:induction false} RunInv(c: Config, s: State, steps: seq<Step>)
    requires Inv(c, s) && Allowed(c, s, steps)
    ensures Inv(c, Run(c, s, steps))
    decreases |steps|
  {
    hide Inv, Enabled, Apply;
    if steps != [] {
      StepInv(c, s, steps[0]);
      RunInv(c, Apply(c, s, steps[0]), steps[1..]);
    }
  }

  lemma InitialInv(c: Config)
    ensures Inv(c, INITIAL)
  {
    assert forall f :: !Live(INITIAL, f);
  }

  /** Live data is never lost: after any interleaving every row of file_on names a
      device that holds the complete upload, every key has exactly one such row, and no
      delete task names a fid that is stored or being uploaded. */
  lemma LiveDataIsNeverLost(c: Config, steps: seq<Step>)
    requires Allowed(c, INITIAL, steps)
    ensures
      var s := Run(c, INITIAL, steps);
      && (forall r :: r in s.fileOn ==> Holds(s, r.dev, r.fid))
      && (forall k :: k in s.files ==> exists r :: r in s.fileOn && r.fid == s.files[k])
      && (forall r, q :: r in s.fileOn && q in s.fileOn && r.fid == q.fid ==> r == q)
      && (forall p :: p in s.tasks ==> !Live(s, p.fid) && p.fid !in s.temp)
  {
    hide Live, Holds, DrainInv, Run, Allowed;
    InitialInv(c);
    RunInv(c, INITIAL, steps);
  }

  // ------------------------------------------------------------- refinement

  /** What the cluster stores: the contents of every key. */
  function Contents(s: State): map<string, Content> {
    map k | k in s.files && s.files[k] in s.sent :: s.sent[s.files[k]]
  }

  /** Following get-path: the key leads to a row of file_on, and the device in it has
      these bytes. */
  ghost predicate Served(s: State, key: string, content: Content) {
    key in s.files && exists r :: r in s.fileOn && r.fid == s.files[key] && Reads(s, r, content)
  }

  predicate Reads(s: State, r: Row, content: Content) {
    Place(r.dev, r.fid) in s.disks && s.disks[Place(r.dev, r.fid)].content == content
  }

  /** Every key is served, with its contents and nothing else. */
  lemma ServedIsContents(c: Config, s: State, key: string, content: Content)
    requires Inv(c, s)
    ensures Served(s, key, content) <==> key in Contents(s) && Contents(s)[key] == content
    ensures key in s.files <==> key in Contents(s)
  {
    hide Live, DrainInv, TasksInv;
    if key in s.files {
      var r :| r in s.fileOn && r.fid == s.files[key];
      assert Holds(s, r.dev, r.fid);
    }
  }

  /** Any row that get-path may answer with leads to the contents of the key. */
  lemma PathLeadsToContents(c: Config, s: State, key: string, r: Row)
    requires Inv(c, s) && key in s.files && r in s.fileOn && r.fid == s.files[key]
    ensures key in Contents(s) && Reads(s, r, Contents(s)[key])
  {
    hide Live, DrainInv, TasksInv, RowsInv;
    assert Holds(s, r.dev, r.fid);
  }

  /** The step as an operation on a plain map. */
  function Abstract(s: State, m: map<string, Content>, step: Step): map<string, Content> {
    match step
    case CreateClose(fid, key) =>
      if key != "" && fid in s.temp && fid in s.sent then m[key := s.sent[fid]] else m
    case DeleteKey(key) => m - {key}
    case DeleteFid(fid) => map k | k in m && !(k in s.files && s.files[k] == fid) :: m[k]
    case _ => m
  }

  /** Table file after a step. */
  function FilesAfter(s: State, step: Step): map<string, int> {
    match step
    case CreateClose(fid, key) => if key != "" && fid in s.temp then s.files[key := fid] else s.files
    case DeleteKey(key) => if key in s.files then WithoutFid(s.files, s.files[key]) else s.files
    case DeleteFid(fid) => WithoutFid(s.files, fid)
    case _ => s.files
  }

  /** What a step does to the tables that give a fid its life. */
  ghost predicate Advances(s: State, s': State, step: Step) {
    && s'.files == FilesAfter(s, step)
    && s.next <= s'.next
    && (forall f :: f in s'.temp ==> f in s.temp || f == s.next)
    && (step.Finish? || s'.sent == s.sent)
  }

  lemma TablesStep(c: Config, s: State, step: Step)
    requires Inv(c, s) && Enabled(c, s, step)
    ensures Advances(s, Apply(c, s, step), step)
  {
    hide Inv;
    if step.CreateClose? {
      CloseAdvances(c, s, step.fid, step.key);
    } else if step.CheckFid? {
      CheckFidIdle(c, s, step.dev, step.fid);
      hide Check;
    } else {
      OtherAdvances(c, s, step);
    }
  }

  lemma CloseAdvances(c: Config, s: State, fid: int, key: string)
    requires Inv(c, s) && (fid in s.temp ==> fid in s.sent)
    ensures Advances(s, Close(s, fid, key).0, CreateClose(fid, key))
  {
    if key != "" && fid in s.temp {
      CloseTables(c, s, fid, key);
    }
    hide Inv;
  }

  lemma OtherAdvances(c: Config, s: State, step: Step)
    requires !step.CreateClose? && !step.CheckFid?
    ensures Advances(s, Apply(c, s, step), step)
  {
    hide Visit, WriteFile, FinishUpload, Erase, BeginDrain, Skip, CopyOff, UpdateRow, RemoveSource, ExpireAll,
      WithoutFid, DevsOf, Tasks;
    if step.DeleteKey? || step.DeleteFid? {
      hide Open;
    } else {
      hide DropFid;
    }
  }

  /** Refinement: closing an upload is a map update, deleting is a map removal, and
      uploads, expiry, delete tasks, both cleaners and every part of a drain leave the
      map as it is. */
  lemma StepRefines(c: Config, s: State, step: Step)
    requires Inv(c, s) && Enabled(c, s, step)
    ensures Contents(Apply(c, s, step)) == Abstract(s, Contents(s), step)
  {
    hide Inv;
    if step.Finish? {
      FinishRefines(c, s, step.fid, step.content);
    } else {
      TablesStep(c, s, step);
      if step.DeleteKey? {
        UniqueKey(c, s, step.key);
      }
      AdvanceRefines(s, Apply(c, s, step), step);
    }
  }

  lemma AdvanceRefines(s: State, s': State, step: Step)
    requires Advances(s, s', step) && !step.Finish?
    requires step.CreateClose? && step.fid in s.temp ==> step.fid in s.sent
    requires step.DeleteKey? ==>
      forall k :: k in s.files && step.key in s.files && s.files[k] == s.files[step.key] ==> k == step.key
    ensures Contents(s') == Abstract(s, Contents(s), step)
  {}

  lemma UniqueKey(c: Config, s: State, key: string)
    requires Inv(c, s)
    ensures forall k :: k in s.files && key in s.files && s.files[k] == s.files[key] ==> k == key
  {}

  lemma FinishRefines(c: Config, s: State, fid: int, content: Content)
    requires Inv(c, s) && fid in s.temp
    ensures Contents(Apply(c, s, Finish(fid, content))) == Contents(s)
  {
    assert forall k :: k in s.files ==> s.files[k] != fid;
    hide Inv;
  }

  /** After create-close the key names the fid, and every other key what it did. */
  lemma CloseTables(c: Config, s: State, fid: int, key: string)
    requires Inv(c, s) && key != "" && fid in s.temp && fid in s.sent
    ensures
      var s' := Close(s, fid, key).0;
      s'.files == s.files[key := fid] && s'.sent == s.sent
  {
    hide Live, DrainInv, TasksInv, DataInv, RowsInv;
    CloseInv(c, s, fid, key);
    assert forall k :: k in s.files ==> s.files[k] != fid;
  }

  /** A key keeps its file and its contents through any run that neither closes an
      upload under that key nor deletes it. */
  lemma {:induction false} UntouchedKey(c: Config, s: State, steps: seq<Step>, key: string)
    requires Inv(c, s) && Allowed(c, s, steps) && key in s.files
    requires forall t :: t in steps ==> !Touches(t, key, s.files[key])
    ensures
      var s' := Run(c, s, steps);
      && key in s'.files && s'.files[key] == s.files[key]
      && (forall content :: Served(s, key, content) <==> Served(s', key, content))
    decreases |steps|
  {
    hide Inv, Enabled, Apply, Served, Contents;
    if steps != [] {
      var s1 := Apply(c, s, steps[0]);
      StepInv(c, s, steps[0]);
      UntouchedStep(c, s, steps[0], key);
      assert forall t :: t in steps[1..] ==> t in steps;
      UntouchedKey(c, s1, steps[1..], key);
    }
  }

  predicate Touches(step: Step, key: string, fid: int) {
    match step
    case CreateClose(_, k) => k == key
    case DeleteKey(k) => k == key
    case DeleteFid(f) => f == fid
    case _ => false
  }

  lemma UntouchedStep(c: Config, s: State, step: Step, key: string)
    requires Inv(c, s) && Enabled(c, s, step) && key in s.files && !Touches(step, key, s.files[key])
    ensures
      var s' := Apply(c, s, step);
      && key in s'.files && s'.files[key] == s.files[key]
      && (forall content :: Served(s, key, content) <==> Served(s', key, content))
  {
    var s' := Apply(c, s, step);
    StepInv(c, s, step);
    StepRefines(c, s, step);
    KeptFile(c, s, step, key);
    hide Inv, Apply, Served, Contents;
    forall content
      ensures Served(s, key, content) <==> Served(s', key, content)
    {
      ServedIsContents(c, s, key, content);
      ServedIsContents(c, s', key, content);
      KeptContents(c, s, step, key);
    }
  }

  /** Durability: once an upload has been closed under a key, the key is served exactly
      the uploaded bytes, through any run that does not close another upload under it or
      delete it. */
  lemma StoredStaysServed(c: Config, s: State, fid: int, key: string, steps: seq<Step>, content: Content)
    requires Inv(c, s) && key != "" && fid in s.temp && fid in s.sent
    requires Allowed(c, Close(s, fid, key).0, steps)
    requires forall t :: t in steps ==> !Touches(t, key, fid)
    ensures Served(Run(c, Close(s, fid, key).0, steps), key, content) <==> content == s.sent[fid]
  {
    var s1 := Close(s, fid, key).0;
    CloseInv(c, s, fid, key);
    CloseTables(c, s, fid, key);
    hide Inv, Close;
    ServedIsContents(c, s1, key, content);
    hide Served;
    UntouchedKey(c, s1, steps, key);
  }

  /** A key that names nothing goes on naming nothing until an upload is closed under it. */
  lemma {:induction false} DeletedStaysGone(c: Config, s: State, key: string, steps: seq<Step>)
    requires Inv(c, s) && Allowed(c, s, steps) && key !in s.files
    requires forall t :: t in steps ==> !(t.CreateClose? && t.key == key)
    ensures key !in Run(c, s, steps).files && forall content :: !Served(Run(c, s, steps), key, content)
    decreases |steps|
  {
    hide Inv, Enabled, Apply;
    if steps != [] {
      assert steps[0] in steps && forall t :: t in steps[1..] ==> t in steps;
      StepInv(c, s, steps[0]);
      TablesStep(c, s, steps[0]);
      DeletedStaysGone(c, Apply(c, s, steps[0]), key, steps[1..]);
    }
  }

  lemma KeptContents(c: Config, s: State, step: Step, key: string)
    requires Inv(c, s) && key in s.files && !Touches(step, key, s.files[key])
    ensures
      var m := Abstract(s, Contents(s), step);
      (key in m <==> key in Contents(s)) && (key in m ==> m[key] == Contents(s)[key])
  {
    hide Inv;
  }

  lemma KeptFile(c: Config, s: State, step: Step, key: string)
    requires Inv(c, s) && Enabled(c, s, step) && key in s.files && !Touches(step, key, s.files[key])
    ensures key in Apply(c, s, step).files && Apply(c, s, step).files[key] == s.files[key]
  {
    TablesStep(c, s, step);
    if step.DeleteKey? {
      UniqueKey(c, s, step.key);
    }
    hide Inv, Apply, Enabled;
  }

  // -------------------------------------------------------------------- uploads

  function Elapsed(steps: seq<Step>): nat {
    if steps == [] then 0 else (if steps[0].Tick? then steps[0].n else 0) + Elapsed(steps[1..])
  }

  lemma UploadStep(c: Config, s: State, step: Step, fid: int)
    requires fid in s.temp && 0 < fid < s.next && !(step.CreateClose? && step.fid == fid)
    requires s.clock <= s.temp[fid].created + c.tooOld
    ensures
      var s' := Apply(c, s, step);
      && fid in s'.temp && s'.temp[fid] == s.temp[fid] && s.next <= s'.next
      && s'.clock == s.clock + if step.Tick? then step.n else 0
  {
    hide Visit, WriteFile, FinishUpload, Erase, BeginDrain, Skip, CopyOff, UpdateRow, RemoveSource, Check, DropFid;
    if step.CreateClose? {
      hide ReplaceFails, Replace, ExpireAll, Open;
    } else if step.Expire? {
      ExpiryIff(c, s, fid);
      hide Close, ExpireAll, Open;
    } else {
      hide Close, ExpireAll;
    }
  }

  /** An upload that is not closed lasts as long as the limit allows, whatever else goes
      on: its fid stays reserved, on its device. */
  lemma {:induction false} UploadLasts(c: Config, s: State, steps: seq<Step>, fid: int)
    requires fid in s.temp && 0 < fid < s.next
    requires forall t :: t in steps ==> !(t.CreateClose? && t.fid == fid)
    requires s.clock + Elapsed(steps) <= s.temp[fid].created + c.tooOld
    ensures fid in Run(c, s, steps).temp && Run(c, s, steps).temp[fid] == s.temp[fid]
    decreases |steps|
  {
    hide Apply;
    if steps != [] {
      assert steps[0] in steps && forall t :: t in steps[1..] ==> t in steps;
      UploadStep(c, s, steps[0], fid);
      UploadLasts(c, Apply(c, s, steps[0]), steps[1..], fid);
    }
  }

  /** From create-open on. */
  lemma OpenUploadLasts(c: Config, s: State, dev: int, steps: seq<Step>)
    requires 0 < s.next && Elapsed(steps) <= c.tooOld
    requires forall t :: t in steps ==> !(t.CreateClose? && t.fid == s.next)
    ensures
      var s' := Run(c, Apply(c, s, CreateOpen(dev)), steps);
      s.next in s'.temp && s'.temp[s.next] == Temp(dev, s.clock)
  {
    UploadLasts(c, Open(s, dev), steps, s.next);
  }

  // ----------------------------------------------------------------- delete tasks

  /** Only create-close makes a key name a fid. */
  lemma FilesNamed(s: State, step: Step, fid: int)
    requires !(step.CreateClose? && step.fid == fid && fid in s.temp)
    ensures forall k :: k in FilesAfter(s, step) && FilesAfter(s, step)[k] == fid ==> k in s.files && s.files[k] == fid
  {}

  lemma DeadStep(c: Config, s: State, step: Step, fid: int)
    requires Inv(c, s) && Enabled(c, s, step) && Dead(s, fid)
    ensures Dead(Apply(c, s, step), fid)
  {
    TablesStep(c, s, step);
    hide Inv, Apply, Enabled;
    FilesNamed(s, step, fid);
    hide FilesAfter;
  }

  /** A fid that is gone never comes back. */
  lemma {:induction false} DeadForever(c: Config, s: State, steps: seq<Step>, fid: int)
    requires Inv(c, s) && Allowed(c, s, steps) && Dead(s, fid)
    ensures Inv(c, Run(c, s, steps)) && Dead(Run(c, s, steps), fid)
    decreases |steps|
  {
    hide Inv, Enabled, Apply, Dead;
    if steps != [] {
      StepInv(c, s, steps[0]);
      DeadStep(c, s, steps[0], fid);
      DeadForever(c, Apply(c, s, steps[0]), steps[1..], fid);
    }
  }

  /** A delete task that is pending now may be carried out after any further run, once
      or again, whether or not it was acknowledged in between: every key is served as
      if it had not been. */
  lemma LateTask(c: Config, s: State, steps: seq<Step>, task: Place, key: string, content: Content)
    requires Inv(c, s) && Allowed(c, s, steps) && task in s.tasks
    ensures
      var s' := Run(c, s, steps);
      var s'' := s'.(disks := s'.disks - {task});
      Inv(c, s'') && (Served(s'', key, content) <==> Served(s', key, content))
  {
    hide Served, Run, Allowed, DrainInv, RowsInv, DataInv, TablesInv;
    assert Dead(s, task.fid);
    DeadForever(c, s, steps, task.fid);
    var s' := Run(c, s, steps);
    hide TasksInv, Dead;
    DeadNotReliedOn(c, s', task);
    OtherPlaces(c, s', s'.disks - {task});
    DisksChange(c, s', s'.disks - {task}, s'.tasks);
    var s'' := s'.(disks := s'.disks - {task});
    assert s'' == s'.(disks := s'.disks - {task}, tasks := s'.tasks);
    hide Inv, Contents;
    ServedIsContents(c, s', key, content);
    ServedIsContents(c, s'', key, content);
    assert Contents(s'') == Contents(s') by { SameContents(s', s''); }
  }

  lemma SameContents(s: State, s': State)
    requires s'.files == s.files && s'.sent == s.sent
    ensures Contents(s') == Contents(s)
  {}
}
