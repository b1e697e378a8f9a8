/** The cleanup of duplicate rows while devices drain: when a drain may send a file to a
    device, so that some listed device keeps the file whatever follows. */
module DuplicateDrains {
  import opened Cluster
  import opened ClusterRun
  import opened ClusterLimits
  import opened Duplicates

  /** Everything but the requests of clients. */
  predicate IsUpkeep(step: Step) {
    match step
    case CheckFid(_, _) => true
    case Consume(_, _) => true
    case Lose(_) => true
    case VisitFile(_, _) => true
    case StartDrain(_) => true
    case EndDrain(_) => true
    case DrainWrite(_, _, _, _) => true
    case DrainCopied(_, _, _) => true
    case DrainSkip(_, _) => true
    case DrainUpdate(_) => true
    case DrainAbort(_) => true
    case DrainRemove(_) => true
    case Tick(_) => true
    case _ => false
  }

  /** A copy whose row can still follow it: its source is listed, and it is young. */
  predicate Pressing(c: Config, s: State, src: int, fid: int) {
    && src in s.moves && s.moves[src].Copied? && s.moves[src].fid == fid
    && Listed(s, src, fid) && s.clock - s.moves[src].at < c.ttl
  }

  predicate Expected(c: Config, s: State, dest: int, fid: int) {
    exists d :: d in s.moves && Pressing(c, s, d, fid) && s.moves[d].dest == dest
  }

  /** The guard for writing: the destination is not listed, and no row is about to follow a
      copy there. */
  predicate MayWrite(c: Config, s: State, dest: int, fid: int) {
    !Listed(s, dest, fid) && !Expected(c, s, dest, fid)
  }

  /** The guard for going on with a copy: either its row cannot follow it, or the
      destination may be written to and has no delete task waiting. */
  predicate MayFollow(c: Config, s: State, src: int, dest: int, fid: int) {
    Listed(s, src, fid) && Place(dest, fid) in s.disks && s.clock - s.disks[Place(dest, fid)].mtime < c.ttl ==>
      MayWrite(c, s, dest, fid) && Place(dest, fid) !in s.tasks
  }

  predicate Guarded(c: Config, s: State, step: Step) {
    && IsUpkeep(step) && Enabled(c, s, step)
    && (step.DrainWrite? ==> MayWrite(c, s, step.dest, step.fid))
    && (step.DrainCopied? ==> MayFollow(c, s, step.src, step.dest, step.fid))
  }

  predicate AllGuarded(c: Config, s: State, steps: seq<Step>)
    decreases |steps|
  {
    steps == [] || (Guarded(c, s, steps[0]) && AllGuarded(c, Apply(c, s, steps[0]), steps[1..]))
  }

  /** Some listed device has the content. */
  ghost predicate KeptAs(s: State, fid: int, content: Content) {
    exists dev :: Listed(s, dev, fid) && HasContent(s, Place(dev, fid), content)
  }

  predicate ToMove(s: State, dev: int, fid: int) {
    dev in s.lists && fid in s.lists[dev]
  }

  /** What is on a listed device, or on one that still has to move it, is the content. */
  ghost predicate Sound(s: State, fid: int, content: Content) {
    forall d :: OnDisk(s, d, fid) && (Listed(s, d, fid) || ToMove(s, d, fid)) ==> HasContent(s, Place(d, fid), content)
  }

  /** A device that is moving the fid away is done with it, and after the update it is not
      listed any more. */
  ghost predicate MoverSound(s: State, fid: int) {
    && (forall d :: d in s.moves ==> d in s.lists)
    && (forall d :: d in s.moves && s.moves[d].fid == fid ==> !ToMove(s, d, fid))
    && (forall d :: d in s.moves && s.moves[d].fid == fid && s.moves[d].Updated? ==> !Listed(s, d, fid))
  }

  /** Where a row is about to follow, the copy is complete and out of everybody's reach. */
  ghost predicate CopySound(c: Config, s: State, src: int, fid: int, content: Content)
    requires src in s.moves && s.moves[src].Copied?
  {
    var m := s.moves[src];
    && !Listed(s, m.dest, fid) && Place(m.dest, fid) !in s.tasks && !ToMove(s, m.dest, fid)
    && !(m.dest in s.moves && s.moves[m.dest].fid == fid)
    && HasContent(s, Place(m.dest, fid), content) && s.disks[Place(m.dest, fid)].mtime >= m.at
    && (forall d :: d in s.moves && d != src && Pressing(c, s, d, fid) ==> s.moves[d].dest != m.dest)
  }

  ghost predicate CopiesSound(c: Config, s: State, fid: int, content: Content) {
    forall d :: d in s.moves && Pressing(c, s, d, fid) ==> CopySound(c, s, d, fid, content)
  }

  ghost predicate Safe(c: Config, s: State, fid: int, content: Content) {
    && Spared(s, fid) && KeptAs(s, fid, content) && Sound(s, fid, content)
    && MoverSound(s, fid) && CopiesSound(c, s, fid, content)
  }

  // ------------------------------------------------------------------- the steps

  /** Rows only go, and copies stay as they are. */
  lemma CopiesStay(c: Config, s: State, s': State, fid: int, content: Content)
    requires CopiesSound(c, s, fid, content)
    requires s'.moves == s.moves && s.clock <= s'.clock
    requires forall d :: Listed(s', d, fid) ==> Listed(s, d, fid)
    requires forall d :: ToMove(s', d, fid) ==> ToMove(s, d, fid) || Listed(s, d, fid)
    requires forall d :: d in s.moves && Pressing(c, s', d, fid) ==>
      var p := Place(s.moves[d].dest, fid);
      && (p in s'.tasks ==> p in s.tasks || Listed(s, p.dev, fid))
      && (p in s.disks ==> p in s'.disks && s'.disks[p] == s.disks[p])
    ensures CopiesSound(c, s', fid, content)
  {
    assert forall d :: d in s.moves && Pressing(c, s', d, fid) ==> Pressing(c, s, d, fid);
    forall d | d in s'.moves && Pressing(c, s', d, fid)
      ensures CopySound(c, s', d, fid, content)
    {
      assert CopySound(c, s, d, fid, content);
    }
  }

  lemma CheckSafe(c: Config, s: State, dev: int, f: int, fid: int, content: Content)
    requires Safe(c, s, fid, content)
    ensures Safe(c, Check(s, dev, f), fid, content)
  {
    var s' := Check(s, dev, f);
    CheckRows(s, dev, f);
    CheckSpares(s, dev, f, fid);
    assert forall d :: Listed(s', d, fid) ==> Listed(s, d, fid);
    forall p | p in s'.tasks && p.fid == fid
      ensures p in s.tasks || Listed(s, p.dev, fid)
    {
      CheckTasks(s, dev, f, p);
    }
    hide Check;
    assert KeptAs(s', fid, content) by {
      var d :| Listed(s, d, fid) && HasContent(s, Place(d, fid), content);
      assert Listed(s', d, fid) || (Listed(s', dev, fid) && OnDisk(s, dev, fid));
      assert HasContent(s', Place(d, fid), content);
      assert Listed(s', dev, fid) && OnDisk(s, dev, fid) ==> HasContent(s', Place(dev, fid), content);
    }
    CopiesStay(c, s, s', fid, content);
    hide CopiesSound, Pressing;
  }

  /** A device whose file of the fid may go: it is not listed, and no row is about to
      follow. */
  predicate Useless(c: Config, s: State, dev: int, fid: int) {
    !Listed(s, dev, fid) && !Expected(c, s, dev, fid)
  }

  lemma RemovedSafe(c: Config, s: State, s': State, p: Place, fid: int, content: Content)
    requires Safe(c, s, fid, content) && (p.fid == fid ==> Useless(c, s, p.dev, fid))
    requires s' == s.(disks := s.disks - {p}, tasks := s'.tasks)
    requires forall q :: q in s'.tasks ==> q in s.tasks
    ensures Safe(c, s', fid, content)
  {
    assert forall d :: Pressing(c, s', d, fid) <==> Pressing(c, s, d, fid);
    assert KeptAs(s', fid, content) by {
      var d :| Listed(s, d, fid) && HasContent(s, Place(d, fid), content);
      assert Listed(s', d, fid) && HasContent(s', Place(d, fid), content);
    }
    assert Sound(s', fid, content) by {
      forall d | OnDisk(s', d, fid) && (Listed(s', d, fid) || ToMove(s', d, fid))
        ensures HasContent(s', Place(d, fid), content)
      {
        assert OnDisk(s, d, fid) && (Listed(s, d, fid) || ToMove(s, d, fid));
      }
    }
    CopiesStay(c, s, s', fid, content);
    hide CopiesSound, Pressing;
  }

  lemma WrittenSafe(c: Config, s: State, src: int, f: int, dest: int, data: Content, fid: int, content: Content)
    requires Safe(c, s, fid, content) && MaySend(s, src, f, dest) && MayWrite(c, s, dest, f)
    ensures Safe(c, WriteFile(s, dest, f, data), fid, content)
  {
    var s' := WriteFile(s, dest, f, data);
    assert forall d :: Pressing(c, s', d, fid) <==> Pressing(c, s, d, fid);
    assert KeptAs(s', fid, content) by {
      var d :| Listed(s, d, fid) && HasContent(s, Place(d, fid), content);
      assert Listed(s', d, fid) && HasContent(s', Place(d, fid), content);
    }
    assert Sound(s', fid, content) by {
      forall d | OnDisk(s', d, fid) && (Listed(s', d, fid) || ToMove(s', d, fid))
        ensures HasContent(s', Place(d, fid), content)
      {
        assert Place(d, fid) != Place(dest, f);
        assert OnDisk(s, d, fid) && (Listed(s, d, fid) || ToMove(s, d, fid));
      }
    }
    CopiesStay(c, s, s', fid, content);
    hide CopiesSound, Pressing;
  }

  lemma CopiedSafe(c: Config, s: State, src: int, f: int, dest: int, fid: int, content: Content)
    requires Safe(c, s, fid, content) && Enabled(c, s, DrainCopied(src, f, dest)) && MayFollow(c, s, src, dest, f)
    ensures Safe(c, CopyOff(s, src, f, dest), fid, content)
  {
    var s' := CopyOff(s, src, f, dest);
    assert KeptAs(s', fid, content) by {
      var d :| Listed(s, d, fid) && HasContent(s, Place(d, fid), content);
      assert Listed(s', d, fid) && HasContent(s', Place(d, fid), content);
    }
    assert forall d :: ToMove(s', d, fid) ==> ToMove(s, d, fid);
    if f == fid {
      assert OnDisk(s, src, fid) && ToMove(s, src, fid);
    }
    assert forall d :: d != src ==> (Pressing(c, s', d, fid) <==> Pressing(c, s, d, fid));
    forall d | d in s'.moves && Pressing(c, s', d, fid)
      ensures CopySound(c, s', d, fid, content)
    {
      if d != src {
        assert CopySound(c, s, d, fid, content);
      }
    }
    hide CopySound, Pressing, MayFollow;
  }

  /** Steps that touch neither rows nor disks nor tasks, and start no move. */
  lemma ListsSafe(c: Config, s: State, s': State, fid: int, content: Content)
    requires Safe(c, s, fid, content)
    requires s' == s.(lists := s'.lists, moves := s'.moves, clock := s'.clock) && s.clock <= s'.clock
    requires forall d :: ToMove(s', d, fid) ==> ToMove(s, d, fid) || (Listed(s, d, fid) && d !in s.moves)
    requires forall d :: d in s'.moves ==> d in s.moves && s'.moves[d] == s.moves[d] && d in s'.lists
    ensures Safe(c, s', fid, content)
  {
    assert KeptAs(s', fid, content) by {
      var d :| Listed(s, d, fid) && HasContent(s, Place(d, fid), content);
      assert Listed(s', d, fid) && HasContent(s', Place(d, fid), content);
    }
    assert forall d :: d in s'.moves && Pressing(c, s', d, fid) ==> Pressing(c, s, d, fid);
    forall d | d in s'.moves && Pressing(c, s', d, fid)
      ensures CopySound(c, s', d, fid, content)
    {
      assert CopySound(c, s, d, fid, content);
    }
    hide CopySound, Pressing;
  }

  /** An update that still matters moves the row; any other one finds nothing to move. */
  lemma UpdatedRows(c: Config, s: State, src: int, fid: int)
    requires Enabled(c, s, DrainUpdate(src))
    ensures
      var s' := UpdateRow(s, src);
      forall d :: Listed(s', d, fid) <==>
        if Pressing(c, s, src, fid) then d == s.moves[src].dest || (Listed(s, d, fid) && d != src)
        else Listed(s, d, fid)
  {}

  lemma UpdatedCopies(c: Config, s: State, src: int, fid: int, content: Content)
    requires Safe(c, s, fid, content) && Enabled(c, s, DrainUpdate(src))
    ensures CopiesSound(c, UpdateRow(s, src), fid, content)
  {
    var s' := UpdateRow(s, src);
    assert forall d :: ToMove(s', d, fid) <==> ToMove(s, d, fid);
    assert s'.moves == s.moves[src := Updated(s.moves[src].fid, s.moves[src].dest)];
    assert s' == s.(fileOn := s'.fileOn, moves := s'.moves);
    UpdatedRows(c, s, src, fid);
    hide UpdateRow, Listed, ToMove, Sound, KeptAs, Spared;
    assert Pressing(c, s, src, fid) ==> CopySound(c, s, src, fid, content);
    assert forall d :: d in s.moves && Pressing(c, s', d, fid) ==> d != src && Pressing(c, s, d, fid);
    forall d | d in s'.moves && Pressing(c, s', d, fid)
      ensures CopySound(c, s', d, fid, content)
    {
      assert CopySound(c, s, d, fid, content);
    }
  }

  lemma UpdatedSafe(c: Config, s: State, src: int, fid: int, content: Content)
    requires Safe(c, s, fid, content) && Enabled(c, s, DrainUpdate(src))
    ensures Safe(c, UpdateRow(s, src), fid, content)
  {
    var s' := UpdateRow(s, src);
    var m := s.moves[src];
    var moved := Pressing(c, s, src, fid);
    UpdatedCopies(c, s, src, fid, content);
    UpdatedRows(c, s, src, fid);
    assert moved ==> CopySound(c, s, src, fid, content);
    hide CopiesSound, Listed;
    assert KeptAs(s', fid, content) by {
      var d :| Listed(s, d, fid) && HasContent(s, Place(d, fid), content);
      if moved && d == src {
        assert Listed(s', m.dest, fid) && HasContent(s', Place(m.dest, fid), content);
      } else {
        assert Listed(s', d, fid) && HasContent(s', Place(d, fid), content);
      }
    }
    assert Sound(s', fid, content) by {
      forall d | OnDisk(s', d, fid) && (Listed(s', d, fid) || ToMove(s', d, fid))
        ensures HasContent(s', Place(d, fid), content)
      {
        assert OnDisk(s, d, fid) && (ToMove(s', d, fid) ==> ToMove(s, d, fid));
      }
    }
  }

  lemma ListStepSafe(c: Config, s: State, step: Step, fid: int, content: Content)
    requires Safe(c, s, fid, content) && Enabled(c, s, step)
    requires step.StartDrain? || step.EndDrain? || step.DrainSkip? || step.DrainAbort? || step.Tick?
    ensures Safe(c, Apply(c, s, step), fid, content)
  {
    assert forall d :: d in s.moves ==> d in s.lists;
    hide Safe;
    if step.StartDrain? {
      var dev := step.dev;
      assert forall f :: f in BeginDrain(s, dev).lists[dev] ==> Listed(s, dev, f);
      hide BeginDrain;
    }
    ListsSafe(c, s, Apply(c, s, step), fid, content);
  }

  /** Every step of the upkeep under the guards. */
  lemma UpkeepSafe(c: Config, s: State, step: Step, fid: int, content: Content)
    requires Safe(c, s, fid, content) && Guarded(c, s, step)
    ensures Safe(c, Apply(c, s, step), fid, content)
  {
    hide Safe, Check, UpdateRow, CopyOff, RemoveSource, WriteFile, BeginDrain, Skip, Visit, Erase, MayWrite, MayFollow;
    match step
    case CheckFid(dev, f) => CheckSafe(c, s, dev, f, fid, content);
    case Consume(task, acked) => EraseSafe(c, s, task, acked, fid, content);
    case Lose(task) => LoseSafe(c, s, task, fid, content);
    case VisitFile(dev, f) => VisitSafe(c, s, dev, f, fid, content);
    case DrainWrite(src, f, dest, data) => WrittenSafe(c, s, src, f, dest, data, fid, content);
    case DrainCopied(src, f, dest) => CopiedSafe(c, s, src, f, dest, fid, content);
    case DrainUpdate(src) => UpdatedSafe(c, s, src, fid, content);
    case DrainRemove(src) => RemoveSafe(c, s, src, fid, content);
    case _ =>
      hide Apply, Enabled;
      ListStepSafe(c, s, step, fid, content);
  }

  lemma EraseSafe(c: Config, s: State, task: Place, acked: bool, fid: int, content: Content)
    requires Safe(c, s, fid, content) && task in s.tasks
    ensures Safe(c, Erase(s, task, acked), fid, content)
  {
    assert task.fid == fid ==> Useless(c, s, task.dev, fid) by {
      hide Sound, MoverSound, KeptAs;
      assert forall d :: d in s.moves && Pressing(c, s, d, fid) ==> CopySound(c, s, d, fid, content);
    }
    hide Safe, Useless;
    RemovedSafe(c, s, Erase(s, task, acked), task, fid, content);
  }

  lemma VisitSafe(c: Config, s: State, dev: int, f: int, fid: int, content: Content)
    requires Safe(c, s, fid, content)
    ensures Safe(c, Visit(c, s, dev, f), fid, content)
  {
    if Visit(c, s, dev, f) != s {
      assert f == fid ==> Useless(c, s, dev, fid) by {
        hide Sound, MoverSound, KeptAs;
        assert forall d :: d in s.moves && Pressing(c, s, d, fid) ==> CopySound(c, s, d, fid, content);
      }
      hide Safe, Useless;
      RemovedSafe(c, s, Visit(c, s, dev, f), Place(dev, f), fid, content);
    }
  }

  lemma LoseSafe(c: Config, s: State, task: Place, fid: int, content: Content)
    requires Safe(c, s, fid, content)
    ensures Safe(c, s.(tasks := s.tasks - multiset{task}), fid, content)
  {
    var s' := s.(tasks := s.tasks - multiset{task});
    assert forall d :: Pressing(c, s', d, fid) <==> Pressing(c, s, d, fid);
    assert KeptAs(s', fid, content) by {
      var d :| Listed(s, d, fid) && HasContent(s, Place(d, fid), content);
      assert Listed(s', d, fid) && HasContent(s', Place(d, fid), content);
    }
    CopiesStay(c, s, s', fid, content);
    hide CopiesSound, Pressing;
  }

  lemma RemoveSafe(c: Config, s: State, src: int, fid: int, content: Content)
    requires Safe(c, s, fid, content) && Enabled(c, s, DrainRemove(src))
    ensures Safe(c, RemoveSource(s, src), fid, content)
  {
    var p := Place(src, s.moves[src].fid);
    var s1 := s.(disks := s.disks - {p});
    assert p.fid == fid ==> Useless(c, s, src, fid) by {
      hide Sound, KeptAs;
      assert forall d :: d in s.moves && Pressing(c, s, d, fid) ==> CopySound(c, s, d, fid, content);
    }
    assert forall d :: d in s.moves ==> d in s.lists;
    hide Safe, Useless;
    RemovedSafe(c, s, s1, p, fid, content);
    ListsSafe(c, s1, RemoveSource(s, src), fid, content);
  }

  /** Under the guards the cleanup of duplicates is safe with drains as well: after any work
      of the three cleaners, of the delete queues and of drains, in any order, some listed
      device still has the file, and all of it. */
  lemma {:induction false} GuardedCleanupKeepsFile(c: Config, s: State, steps: seq<Step>, fid: int, content: Content)
    requires Safe(c, s, fid, content) && AllGuarded(c, s, steps)
    ensures Safe(c, Run(c, s, steps), fid, content) && KeptAs(Run(c, s, steps), fid, content)
    decreases |steps|
  {
    hide Guarded, Apply;
    if steps != [] {
      hide Safe;
      UpkeepSafe(c, s, steps[0], fid, content);
      GuardedCleanupKeepsFile(c, Apply(c, s, steps[0]), steps[1..], fid, content);
    }
  }

  /** Where it starts: no drain is at work, no task is out against a listed device, and
      what listed devices have is the content. */
  lemma UndrainedSafe(c: Config, s: State, fid: int, content: Content)
    requires s.moves == map[] && s.lists == map[] && Spared(s, fid) && KeptAs(s, fid, content)
    requires forall d :: Listed(s, d, fid) && OnDisk(s, d, fid) ==> HasContent(s, Place(d, fid), content)
    ensures Safe(c, s, fid, content)
  {}

  // ----------------------------------------------------- the guards are exact

  /** Whatever follows under the guards, some listed device has the content. */
  ghost predicate KeepsFile(c: Config, s: State, fid: int, content: Content) {
    forall steps :: AllGuarded(c, s, steps) ==> KeptAs(Run(c, s, steps), fid, content)
  }

  lemma KeepsNow(c: Config, s: State, fid: int, content: Content)
    requires KeepsFile(c, s, fid, content)
    ensures KeptAs(s, fid, content)
  {
    assert AllGuarded(c, s, []) && Run(c, s, []) == s;
  }

  lemma KeepsNext(c: Config, s: State, step: Step, fid: int, content: Content)
    requires KeepsFile(c, s, fid, content) && Guarded(c, s, step)
    ensures KeepsFile(c, Apply(c, s, step), fid, content)
  {
    hide Guarded, Apply, KeptAs;
    forall steps | AllGuarded(c, Apply(c, s, step), steps)
      ensures KeptAs(Run(c, Apply(c, s, step), steps), fid, content)
    {
      assert ([step] + steps)[1..] == steps;
      assert AllGuarded(c, s, [step] + steps);
    }
  }

  lemma SafeKeeps(c: Config, s: State, fid: int, content: Content)
    requires Safe(c, s, fid, content)
    ensures KeepsFile(c, s, fid, content)
  {
    hide Safe;
    forall steps | AllGuarded(c, s, steps)
      ensures KeptAs(Run(c, s, steps), fid, content)
    {
      GuardedCleanupKeepsFile(c, s, steps, fid, content);
    }
  }

  /** If a listed device has something else, its cleaner leaves nothing but that. */
  lemma LoseByPart(c: Config, s: State, dest: int, fid: int, content: Content)
    requires Listed(s, dest, fid) && OnDisk(s, dest, fid) && !HasContent(s, Place(dest, fid), content)
    ensures !KeepsFile(c, s, fid, content)
  {
    var s' := Check(s, dest, fid);
    CheckLeavesOne(s, dest, fid);
    CheckRows(s, dest, fid);
    assert !KeptAs(s', fid, content);
    hide KeepsFile, KeptAs, Check;
    if KeepsFile(c, s, fid, content) {
      KeepsNext(c, s, CheckFid(dest, fid), fid, content);
      KeepsNow(c, s', fid, content);
    }
  }

  /** A row that follows its copy to a device with a waiting task loses the file. */
  lemma LoseByTask(c: Config, s: State, src: int, dest: int, fid: int, content: Content)
    requires Pressing(c, s, src, fid) && s.moves[src].dest == dest
    requires OnDisk(s, dest, fid) && Place(dest, fid) in s.tasks
    ensures !KeepsFile(c, s, fid, content)
  {
    var s1 := UpdateRow(s, src);
    var s2 := Check(s1, dest, fid);
    var s3 := Erase(s2, Place(dest, fid), true);
    assert Listed(s1, dest, fid) && OnDisk(s1, dest, fid);
    CheckLeavesOne(s1, dest, fid);
    CheckTasks(s1, dest, fid, Place(dest, fid));
    assert !KeptAs(s3, fid, content);
    hide KeptAs, Check, KeepsFile, UpdateRow, Erase;
    if KeepsFile(c, s, fid, content) {
      KeepsNext(c, s, DrainUpdate(src), fid, content);
      KeepsNext(c, s1, CheckFid(dest, fid), fid, content);
      KeepsNext(c, s2, Consume(Place(dest, fid), true), fid, content);
      KeepsNow(c, s3, fid, content);
    }
  }

  /** The cleaner of the source makes such a task of a destination that is listed. */
  lemma LoseByRow(c: Config, s: State, src: int, dest: int, fid: int, content: Content)
    requires Pressing(c, s, src, fid) && s.moves[src].dest == dest && dest != src
    requires OnDisk(s, src, fid) && OnDisk(s, dest, fid) && Listed(s, dest, fid)
    ensures !KeepsFile(c, s, fid, content)
  {
    var s1 := Check(s, src, fid);
    CheckLeavesOne(s, src, fid);
    CheckRows(s, src, fid);
    CheckTasks(s, src, fid, Place(dest, fid));
    LoseByTask(c, s1, src, dest, fid, content);
    hide Check, KeepsFile;
    if KeepsFile(c, s, fid, content) {
      KeepsNext(c, s, CheckFid(src, fid), fid, content);
    }
  }

  /** And the row of another drain lists the destination first. */
  lemma LoseByCopy(c: Config, s: State, src: int, other: int, dest: int, fid: int, content: Content)
    requires Pressing(c, s, src, fid) && s.moves[src].dest == dest && dest != src
    requires Pressing(c, s, other, fid) && s.moves[other].dest == dest && other != src
    requires OnDisk(s, src, fid) && OnDisk(s, dest, fid)
    ensures !KeepsFile(c, s, fid, content)
  {
    var s1 := UpdateRow(s, other);
    assert Pressing(c, s1, src, fid) && Listed(s1, dest, fid);
    LoseByRow(c, s1, src, dest, fid, content);
    hide KeepsFile, UpdateRow;
    if KeepsFile(c, s, fid, content) {
      KeepsNext(c, s, DrainUpdate(other), fid, content);
    }
  }

  /** A drain may write to a device, anything at all and whatever follows under the guards,
      exactly if the device is not listed and no row is about to follow a copy there. */
  lemma WriteIff(c: Config, s: State, src: int, fid: int, dest: int, content: Content)
    requires Safe(c, s, fid, content) && MaySend(s, src, fid, dest)
    ensures (forall data :: KeepsFile(c, WriteFile(s, dest, fid, data), fid, content)) <==> MayWrite(c, s, dest, fid)
  {
    hide KeepsFile;
    if MayWrite(c, s, dest, fid) {
      forall data
        ensures KeepsFile(c, WriteFile(s, dest, fid, data), fid, content)
      {
        WrittenSafe(c, s, src, fid, dest, data, fid, content);
        SafeKeeps(c, WriteFile(s, dest, fid, data), fid, content);
      }
    } else {
      hide Safe;
      var s1 := WriteFile(s, dest, fid, content + [0]);
      if Listed(s, dest, fid) {
        LoseByPart(c, s1, dest, fid, content);
      } else {
        var d :| d in s.moves && Pressing(c, s, d, fid) && s.moves[d].dest == dest;
        var s2 := UpdateRow(s1, d);
        assert Listed(s2, dest, fid) && OnDisk(s2, dest, fid);
        LoseByPart(c, s2, dest, fid, content);
        hide UpdateRow;
        if KeepsFile(c, s1, fid, content) {
          KeepsNext(c, s1, DrainUpdate(d), fid, content);
        }
      }
    }
  }

  /** A drain may go on with a complete copy, whatever follows under the guards, exactly if
      its row cannot follow the copy, or the destination may be written to and has no
      delete task waiting. */
  lemma CopiedIff(c: Config, s: State, src: int, fid: int, dest: int, content: Content)
    requires Safe(c, s, fid, content) && Enabled(c, s, DrainCopied(src, fid, dest))
    ensures KeepsFile(c, CopyOff(s, src, fid, dest), fid, content) <==> MayFollow(c, s, src, dest, fid)
  {
    hide KeepsFile, Safe;
    var s1 := CopyOff(s, src, fid, dest);
    if MayFollow(c, s, src, dest, fid) {
      hide MayFollow, CopyOff;
      CopiedSafe(c, s, src, fid, dest, fid, content);
      SafeKeeps(c, s1, fid, content);
    } else {
      assert Pressing(c, s1, src, fid) && s1.moves[src].dest == dest && dest != src;
      assert OnDisk(s1, src, fid) && OnDisk(s1, dest, fid);
      if Place(dest, fid) in s.tasks {
        LoseByTask(c, s1, src, dest, fid, content);
      } else if Listed(s, dest, fid) {
        LoseByRow(c, s1, src, dest, fid, content);
      } else {
        var d :| d in s.moves && Pressing(c, s, d, fid) && s.moves[d].dest == dest;
        assert Pressing(c, s1, d, fid) && s1.moves[d].dest == dest && d != src;
        LoseByCopy(c, s1, src, d, dest, fid, content);
      }
    }
  }
}
