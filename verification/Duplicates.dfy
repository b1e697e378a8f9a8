/** The device cleaner on a fid that is listed on several devices, from any state of the
    tables: no drain runs, and the only other work is that on the delete tasks. */
module Duplicates {
  import opened Cluster

  /** A run of the device cleaner on any device for any fid, the delivery of a task, or
      its loss. */
  predicate IsCleaning(step: Step) {
    step.CheckFid? || step.Consume? || step.Lose?
  }

  function Clean(s: State, step: Step): State
    requires IsCleaning(step)
  {
    match step
    case CheckFid(dev, fid) => Check(s, dev, fid)
    case Consume(task, acked) => if task in s.tasks then Erase(s, task, acked) else s
    case Lose(task) => s.(tasks := s.tasks - multiset{task})
  }

  function CleanAll(s: State, steps: seq<Step>): State
    requires forall t :: t in steps ==> IsCleaning(t)
    decreases |steps|
  {
    if steps == [] then s else CleanAll(Clean(s, steps[0]), steps[1..])
  }

  predicate Listed(s: State, dev: int, fid: int) {
    Row(fid, dev) in s.fileOn
  }

  predicate OnDisk(s: State, dev: int, fid: int) {
    Place(dev, fid) in s.disks
  }

  /** Some listed device holds the file. */
  ghost predicate Kept(s: State, fid: int) {
    exists dev :: Listed(s, dev, fid) && OnDisk(s, dev, fid)
  }

  /** No task for the fid is out against a device that is listed. */
  ghost predicate Spared(s: State, fid: int) {
    forall p :: p in s.tasks && p.fid == fid ==> !Listed(s, p.dev, fid)
  }

  /** The fid is listed on this device alone, and the file is there. */
  ghost predicate Settled(s: State, dev: int, fid: int) {
    OnDisk(s, dev, fid) && forall d :: Listed(s, d, fid) <==> d == dev
  }

  /** The device cleaner on a device that has the file leaves exactly that row. */
  lemma CheckLeavesOne(s: State, dev: int, fid: int)
    requires Listed(s, dev, fid) && OnDisk(s, dev, fid)
    ensures Settled(Check(s, dev, fid), dev, fid)
  {
    var devs := DevsOf(s.fileOn, fid);
    assert forall d :: Listed(s, d, fid) ==> Row(fid, d).dev in devs;
  }

  /** What the device cleaner does to the rows of a fid. */
  lemma CheckRows(s: State, dev: int, fid: int)
    ensures
      var s' := Check(s, dev, fid);
      && s'.disks == s.disks
      && (forall f, d :: f != fid ==> (Listed(s', d, f) <==> Listed(s, d, f)))
      && (forall d :: Listed(s', d, fid) <==>
            Listed(s, d, fid) && (Listed(s, dev, fid) ==> (d == dev <==> OnDisk(s, dev, fid))))
  {
    var devs := DevsOf(s.fileOn, fid);
    assert forall d :: Listed(s, d, fid) ==> Row(fid, d).dev in devs;
  }

  /** The tasks it publishes: one for each of the other devices if this one is listed and
      has the file. */
  lemma CheckTasks(s: State, dev: int, fid: int, p: Place)
    ensures
      p in Check(s, dev, fid).tasks <==>
        || p in s.tasks
        || (p.fid == fid && p.dev != dev && Listed(s, p.dev, fid) && Listed(s, dev, fid) && OnDisk(s, dev, fid))
  {
    var devs := DevsOf(s.fileOn, fid);
    assert forall d :: Listed(s, d, fid) ==> Row(fid, d).dev in devs;
    TaskNames(devs - {dev}, fid);
  }

  lemma CheckSpares(s: State, dev: int, f: int, fid: int)
    requires Spared(s, fid)
    ensures Spared(Check(s, dev, f), fid)
  {
    CheckRows(s, dev, f);
    var s' := Check(s, dev, f);
    forall p | p in s'.tasks && p.fid == fid
      ensures !Listed(s', p.dev, fid)
    {
      CheckTasks(s, dev, f, p);
      hide Check, Listed, OnDisk;
    }
  }

  lemma CheckKeeps(s: State, dev: int, f: int, fid: int)
    requires Kept(s, fid)
    ensures Kept(Check(s, dev, f), fid)
  {
    CheckRows(s, dev, f);
    var s' := Check(s, dev, f);
    hide Check;
    var d :| Listed(s, d, fid) && OnDisk(s, d, fid);
    assert OnDisk(s', d, fid) && (OnDisk(s', dev, fid) <==> OnDisk(s, dev, fid));
    hide Listed, OnDisk;
    assert Listed(s', d, fid) || (Listed(s', dev, fid) && OnDisk(s', dev, fid));
  }

  /** What every step of the cleaners keeps. */
  lemma CleanKeeps(s: State, step: Step, fid: int)
    requires IsCleaning(step) && Spared(s, fid)
    ensures
      var s' := Clean(s, step);
      && Spared(s', fid)
      && (Kept(s, fid) ==> Kept(s', fid))
      && (forall d :: Listed(s', d, fid) ==> Listed(s, d, fid))
      && (forall d :: Listed(s', d, fid) && OnDisk(s, d, fid) ==> OnDisk(s', d, fid))
      && (forall d :: OnDisk(s', d, fid) ==> OnDisk(s, d, fid))
  {
    if step.CheckFid? {
      CheckSpares(s, step.dev, step.fid, fid);
      CheckRows(s, step.dev, step.fid);
      hide Check;
      if Kept(s, fid) {
        CheckKeeps(s, step.dev, step.fid, fid);
      }
    } else {
      TaskKeeps(s, step, fid);
    }
  }

  lemma TaskKeeps(s: State, step: Step, fid: int)
    requires (step.Consume? || step.Lose?) && Spared(s, fid)
    ensures
      var s' := Clean(s, step);
      && Spared(s', fid)
      && (Kept(s, fid) ==> Kept(s', fid))
      && (forall d :: Listed(s', d, fid) ==> Listed(s, d, fid))
      && (forall d :: Listed(s', d, fid) && OnDisk(s, d, fid) ==> OnDisk(s', d, fid))
      && (forall d :: OnDisk(s', d, fid) ==> OnDisk(s, d, fid))
  {
    var s' := Clean(s, step);
    assert forall p :: p in s'.tasks ==> p in s.tasks;
    if d :| Listed(s, d, fid) && OnDisk(s, d, fid) {
      assert Listed(s', d, fid) && OnDisk(s', d, fid);
    }
  }

  /** If some listed device holds the file, then some listed device still does, after any
      work of the cleaners on any devices and in any order. */
  lemma {:induction false} CleanupKeepsFile(s: State, steps: seq<Step>, fid: int)
    requires forall t :: t in steps ==> IsCleaning(t)
    requires Spared(s, fid) && Kept(s, fid)
    ensures Spared(CleanAll(s, steps), fid) && Kept(CleanAll(s, steps), fid)
    ensures forall d :: Listed(CleanAll(s, steps), d, fid) ==> Listed(s, d, fid)
    decreases |steps|
  {
    hide Spared, Kept, Clean, Listed;
    if steps != [] {
      CleanKeeps(s, steps[0], fid);
      CleanupKeepsFile(Clean(s, steps[0]), steps[1..], fid);
    }
  }

  lemma CleanSettled(s: State, step: Step, dev: int, fid: int)
    requires IsCleaning(step) && Spared(s, fid) && Settled(s, dev, fid)
    ensures Settled(Clean(s, step), dev, fid)
  {
    assert Kept(s, fid);
    CleanKeeps(s, step, fid);
    hide Clean;
  }

  /** Every device that is listed has yet to run its cleaner on the fid. */
  ghost predicate Unchecked(s: State, steps: seq<Step>, fid: int) {
    forall d :: Listed(s, d, fid) ==> CheckFid(d, fid) in steps
  }

  /** Convergence: once every listed device has run its cleaner on the fid, in any order
      and with any other work in between, exactly one device is listed, and it holds the
      file. */
  lemma {:induction false} CleanupConverges(s: State, steps: seq<Step>, fid: int)
    requires forall t :: t in steps ==> IsCleaning(t)
    requires Spared(s, fid) && Kept(s, fid) && Unchecked(s, steps, fid)
    ensures exists dev :: Settled(CleanAll(s, steps), dev, fid)
    decreases |steps|
  {
    if steps != [] {
      var s1 := Clean(s, steps[0]);
      assert CleanAll(s, steps) == CleanAll(s1, steps[1..]);
      CleanKeeps(s, steps[0], fid);
      hide CleanAll, Check, Spared, Kept;
      if dev :| Listed(s, dev, fid) && OnDisk(s, dev, fid) && steps[0] == CheckFid(dev, fid) {
        CheckLeavesOne(s, dev, fid);
        hide Settled;
        StaysSettled(s1, steps[1..], dev, fid);
      } else {
        StillUnchecked(s, steps, fid);
        hide Unchecked, Clean;
        CleanupConverges(s1, steps[1..], fid);
      }
    }
  }

  lemma StillUnchecked(s: State, steps: seq<Step>, fid: int)
    requires steps != [] && IsCleaning(steps[0]) && Unchecked(s, steps, fid) && Spared(s, fid)
    requires forall dev :: Listed(s, dev, fid) && OnDisk(s, dev, fid) ==> steps[0] != CheckFid(dev, fid)
    ensures Unchecked(Clean(s, steps[0]), steps[1..], fid)
  {
    var s1 := Clean(s, steps[0]);
    CleanKeeps(s, steps[0], fid);
    forall d | Listed(s1, d, fid)
      ensures CheckFid(d, fid) in steps[1..]
    {
      assert Listed(s, d, fid);
      assert CheckFid(d, fid) in steps;
      assert steps == [steps[0]] + steps[1..];
    }
  }

  lemma {:induction false} StaysSettled(s: State, steps: seq<Step>, dev: int, fid: int)
    requires forall t :: t in steps ==> IsCleaning(t)
    requires Spared(s, fid) && Settled(s, dev, fid)
    ensures Settled(CleanAll(s, steps), dev, fid)
    decreases |steps|
  {
    hide Spared, Settled, Clean, Listed;
    if steps != [] {
      CleanKeeps(s, steps[0], fid);
      CleanSettled(s, steps[0], dev, fid);
      StaysSettled(Clean(s, steps[0]), steps[1..], dev, fid);
    }
  }

  /** Every copy is listed, or a task is out to remove it. */
  ghost predicate Accounted(s: State, fid: int) {
    forall d :: OnDisk(s, d, fid) ==> Listed(s, d, fid) || Place(d, fid) in s.tasks
  }

  lemma CleanAccounts(s: State, step: Step, fid: int)
    requires IsCleaning(step) && !step.Lose? && Accounted(s, fid)
    ensures Accounted(Clean(s, step), fid)
  {
    match step
    case CheckFid(dev, f) =>
      CheckRows(s, dev, f);
      forall p | p in s.tasks || p.fid == f {
        CheckTasks(s, dev, f, p);
      }
      hide Check;
    case Consume(task, acked) =>
    case Lose(task) =>
  }

  lemma {:induction false} CleanupAccounts(s: State, steps: seq<Step>, fid: int)
    requires forall t :: t in steps ==> IsCleaning(t) && !t.Lose?
    requires Accounted(s, fid)
    ensures Accounted(CleanAll(s, steps), fid)
    decreases |steps|
  {
    hide Accounted, Clean;
    if steps != [] {
      CleanAccounts(s, steps[0], fid);
      CleanupAccounts(Clean(s, steps[0]), steps[1..], fid);
    }
  }

  /** If no task is lost and none is left, exactly one copy of the file remains, and it is
      on the listed device. */
  lemma OneCopyRemains(s: State, steps: seq<Step>, fid: int)
    requires forall t :: t in steps ==> IsCleaning(t) && !t.Lose?
    requires Spared(s, fid) && Kept(s, fid) && Unchecked(s, steps, fid) && Accounted(s, fid)
    requires forall p :: p in CleanAll(s, steps).tasks ==> p.fid != fid
    ensures exists dev ::
      Settled(CleanAll(s, steps), dev, fid) && forall d :: OnDisk(CleanAll(s, steps), d, fid) <==> d == dev
  {
    CleanupConverges(s, steps, fid);
    CleanupAccounts(s, steps, fid);
    hide CleanAll;
    var dev :| Settled(CleanAll(s, steps), dev, fid);
    assert forall d :: OnDisk(CleanAll(s, steps), d, fid) <==> d == dev;
  }
}
