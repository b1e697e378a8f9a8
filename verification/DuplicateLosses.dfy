/** Runs of the upkeep in which a drain sends a file where it may not, and the file is
    lost. */
module DuplicateLosses {
  import opened Cluster
  import opened ClusterRun
  import opened ClusterLimits
  import opened Duplicates
  import opened DuplicateDrains

  /** Some run of allowed steps leads from one state to the other. */
  ghost predicate Reached(c: Config, start: State, s: State) {
    exists steps :: Allowed(c, start, steps) && Run(c, start, steps) == s
  }

  lemma ReachedNow(c: Config, s: State)
    ensures Reached(c, s, s)
  {
    assert Allowed(c, s, []) && Run(c, s, []) == s;
  }

  lemma {:induction false} RunMore(c: Config, s: State, steps: seq<Step>, step: Step)
    ensures Run(c, s, steps + [step]) == Apply(c, Run(c, s, steps), step)
    ensures Allowed(c, s, steps + [step]) <==> Allowed(c, s, steps) && Enabled(c, Run(c, s, steps), step)
    decreases |steps|
  {
    hide Apply, Enabled;
    if steps == [] {
      assert [step][1..] == [] && [] + [step] == [step];
      assert Allowed(c, Apply(c, s, step), []);
    } else {
      assert (steps + [step])[1..] == steps[1..] + [step];
      RunMore(c, Apply(c, s, steps[0]), steps[1..], step);
    }
  }

  lemma ReachedNext(c: Config, start: State, s: State, step: Step)
    requires Reached(c, start, s) && Enabled(c, s, step)
    ensures Reached(c, start, Apply(c, s, step))
  {
    hide Apply, Enabled;
    var steps :| Allowed(c, start, steps) && Run(c, start, steps) == s;
    RunMore(c, start, steps, step);
  }

  /** File 7 is stored as "a", and file_on lists it on two devices that both have it. */
  function Twice(content: Content): State {
    INITIAL.(files := map["a" := 7], next := 8, sent := map[7 := content], fileOn := {Row(7, 1), Row(7, 2)},
             disks := map[Place(1, 7) := Stored(content, 0), Place(2, 7) := Stored(content, 0)])
  }

  /** The tables are such as the schema allows, and the file is safe. */
  lemma TwiceSafe(c: Config, content: Content)
    ensures Safe(c, Twice(content), 7, content) && !Lost(Twice(content), "a")
    ensures forall r :: r in Twice(content).fileOn ==> Live(Twice(content), r.fid)
  {
    var s := Twice(content);
    assert Listed(s, 1, 7) && HasContent(s, Place(1, 7), content);
    UndrainedSafe(c, s, 7, content);
    assert Reads(s, Row(7, 1), content) && Served(s, "a", content);
    assert s.files["a"] == 7;
  }

  lemma StartOne(s: State, dev: int)
    requires Row(7, dev) in s.fileOn && forall r :: r in s.fileOn ==> r.fid == 7
    ensures BeginDrain(s, dev) == s.(lists := s.lists[dev := {7}])
  {
    var r := Row(7, dev);
    assert (set q | q in s.fileOn && q.dev == dev :: q.fid) == {r.fid};
  }

  /** The cleaner of a device that has the file strikes the only other row off. */
  lemma StrikeOne(s: State, dev: int, other: int)
    requires s.fileOn == {Row(7, dev), Row(7, other)} && Place(dev, 7) in s.disks && dev != other
    ensures
      var s' := Check(s, dev, 7);
      s' == s.(fileOn := {Row(7, dev)}, tasks := s'.tasks) && Place(other, 7) in s'.tasks
  {
    var s' := Check(s, dev, 7);
    assert Listed(s, dev, 7) && OnDisk(s, dev, 7) && Listed(s, other, 7);
    CheckTasks(s, dev, 7, Place(other, 7));
    CheckLeavesOne(s, dev, 7);
    assert s'.fileOn == {Row(7, dev)} by {
      assert forall r :: r in s'.fileOn ==> r in s.fileOn && Listed(s', r.dev, 7);
      assert Listed(s', dev, 7);
    }
  }

  lemma EraseOne(s: State, dev: int)
    requires s.files == map["a" := 7] && s.fileOn == {Row(7, dev)}
    ensures Lost(Erase(s, Place(dev, 7), true), "a")
  {}

  /** Device 2 has been struck off, and device 1 drains. */
  function Drained(content: Content, tasks: multiset<Place>): State {
    Twice(content).(fileOn := {Row(7, 1)}, tasks := tasks, lists := map[1 := {7}])
  }

  lemma DrainedReached(c: Config, content: Content) returns (tasks: multiset<Place>)
    ensures Reached(c, Twice(content), Drained(content, tasks)) && Place(2, 7) in tasks
  {
    var s := Twice(content);
    var s1 := Check(s, 1, 7);
    tasks := s1.tasks;
    StrikeOne(s, 1, 2);
    StartOne(s1, 1);
    hide Check, BeginDrain, Reached;
    ReachedNow(c, s);
    ReachedNext(c, s, s, CheckFid(1, 7));
    ReachedNext(c, s, s1, StartDrain(1));
  }

  lemma SendReached(c: Config, start: State, s: State, src: int, dest: int, content: Content)
    requires Reached(c, start, s) && MaySend(s, src, 7, dest) && HasContent(s, Place(src, 7), content)
    ensures Reached(c, start, CopyOff(WriteFile(s, dest, 7, content), src, 7, dest))
  {
    var s1 := WriteFile(s, dest, 7, content);
    assert Enabled(c, s1, DrainCopied(src, 7, dest));
    hide Reached, CopyOff, WriteFile, HasContent;
    ReachedNext(c, start, s, DrainWrite(src, 7, dest, content));
    ReachedNext(c, start, s1, DrainCopied(src, 7, dest));
  }

  /** Device 1 has sent the file to device 2. */
  function Returning(content: Content, tasks: multiset<Place>): State {
    Drained(content, tasks).(lists := map[1 := {}], moves := map[1 := Copied(7, 2, 0)])
  }

  lemma ReturningSent(content: Content, tasks: multiset<Place>)
    ensures CopyOff(WriteFile(Drained(content, tasks), 2, 7, content), 1, 7, 2) == Returning(content, tasks)
  {
    var s := Drained(content, tasks);
    var s1 := WriteFile(s, 2, 7, content);
    assert s1.disks == s.disks;
    assert {7} - {7} == {};
  }

  lemma ReturningReached(c: Config, start: State, content: Content, tasks: multiset<Place>)
    requires Reached(c, start, Drained(content, tasks))
    ensures Reached(c, start, Returning(content, tasks))
  {
    ReturningSent(content, tasks);
    hide Reached;
    SendReached(c, start, Drained(content, tasks), 1, 2, content);
  }

  lemma UpdateReached(c: Config, start: State, s: State, src: int)
    requires Reached(c, start, s) && Enabled(c, s, DrainUpdate(src))
    ensures Reached(c, start, UpdateRow(s, src))
  {
    hide Reached, UpdateRow;
    ReachedNext(c, start, s, DrainUpdate(src));
  }

  lemma RemoveReached(c: Config, start: State, s: State, src: int)
    requires Reached(c, start, s) && src in s.moves && s.moves[src].Updated?
    ensures Reached(c, start, RemoveSource(s, src))
  {
    hide Reached, RemoveSource;
    ReachedNext(c, start, s, DrainRemove(src));
  }

  lemma ConsumeReached(c: Config, start: State, s: State, dev: int)
    requires Reached(c, start, s) && Place(dev, 7) in s.tasks && s.files == map["a" := 7] && s.fileOn == {Row(7, dev)}
    ensures exists s' :: Reached(c, start, s') && Lost(s', "a")
  {
    EraseOne(s, dev);
    hide Reached, Erase, Lost;
    ReachedNext(c, start, s, Consume(Place(dev, 7), true));
  }

  /** The row of the only listed device follows its copy. */
  lemma FollowOne(s: State, src: int, dest: int, at: int)
    requires src in s.moves && s.moves[src] == Copied(7, dest, at) && s.fileOn == {Row(7, src)}
    ensures UpdateRow(s, src) == s.(fileOn := {Row(7, dest)}, moves := s.moves[src := Updated(7, dest)])
  {
    assert {Row(7, src)} - {Row(7, src)} + {Row(7, dest)} == {Row(7, dest)};
  }

  /** Without the guard a file is lost: the cleaner of device 1 strikes the copy on device 2
      off, a drain that is allowed every step it takes moves the file from device 1 back to
      device 2, and the waiting delete task then removes the last copy. */
  lemma UnguardedDrainLosesData(c: Config, content: Content)
    requires 0 < c.ttl
    ensures exists s :: Reached(c, Twice(content), s) && Lost(s, "a")
  {
    var start := Twice(content);
    var tasks := DrainedReached(c, content);
    ReturningReached(c, start, content, tasks);
    var s := Returning(content, tasks);
    FollowOne(s, 1, 2, 0);
    hide Reached, UpdateRow, RemoveSource, Lost;
    UpdateReached(c, start, s, 1);
    var s1 := UpdateRow(s, 1);
    RemoveReached(c, start, s1, 1);
    Removed(s1, 1);
    ConsumeReached(c, start, RemoveSource(s1, 1), 2);
  }

  lemma Removed(s: State, src: int)
    ensures RemoveSource(s, src).tasks == s.tasks && RemoveSource(s, src).fileOn == s.fileOn
    ensures RemoveSource(s, src).files == s.files
  {}

  /** Both devices drain. */
  function BothDrained(content: Content): State {
    Twice(content).(lists := map[1 := {7}, 2 := {7}])
  }

  lemma BothDrainedReached(c: Config, content: Content)
    ensures Reached(c, Twice(content), BothDrained(content))
  {
    var s := Twice(content);
    StartOne(s, 1);
    var s1 := BeginDrain(s, 1);
    StartOne(s1, 2);
    assert BeginDrain(s1, 2) == BothDrained(content);
    hide BeginDrain, Reached;
    ReachedNow(c, s);
    ReachedNext(c, s, s, StartDrain(1));
    ReachedNext(c, s, s1, StartDrain(2));
  }

  /** Device 1 has copied the file to device 3. */
  function OneSent(content: Content): State {
    BothDrained(content).(lists := map[1 := {}, 2 := {7}], moves := map[1 := Copied(7, 3, 0)],
                          disks := Twice(content).disks[Place(3, 7) := Stored(content, 0)])
  }

  /** Device 2 has as well. */
  function BothSent(content: Content): State {
    OneSent(content).(lists := map[1 := {}, 2 := {}], moves := map[1 := Copied(7, 3, 0), 2 := Copied(7, 3, 0)])
  }

  lemma OneSentSent(content: Content)
    ensures CopyOff(WriteFile(BothDrained(content), 3, 7, content), 1, 7, 3) == OneSent(content)
  {
    var s2 := CopyOff(WriteFile(BothDrained(content), 3, 7, content), 1, 7, 3);
    assert {7} - {7} == {} && s2.lists == map[1 := {}, 2 := {7}];
  }

  lemma BothSentSent(content: Content)
    ensures CopyOff(WriteFile(OneSent(content), 3, 7, content), 2, 7, 3) == BothSent(content)
  {
    var s1 := WriteFile(OneSent(content), 3, 7, content);
    var s2 := CopyOff(s1, 2, 7, 3);
    assert s1.disks == OneSent(content).disks;
    assert {7} - {7} == {} && s2.lists == map[1 := {}, 2 := {}];
    assert s2.moves == map[1 := Copied(7, 3, 0), 2 := Copied(7, 3, 0)];
  }

  lemma BothSentReached(c: Config, content: Content)
    ensures Reached(c, Twice(content), BothSent(content))
  {
    BothDrainedReached(c, content);
    OneSentSent(content);
    BothSentSent(content);
    hide Reached, CopyOff, WriteFile;
    SendReached(c, Twice(content), BothDrained(content), 1, 3, content);
    SendReached(c, Twice(content), OneSent(content), 2, 3, content);
  }

  lemma BothSentFollow(c: Config, content: Content)
    requires 0 < c.ttl
    ensures Enabled(c, BothSent(content), DrainUpdate(1)) && Place(2, 7) in BothSent(content).disks
    ensures
      UpdateRow(BothSent(content), 1) ==
        BothSent(content).(fileOn := {Row(7, 2), Row(7, 3)}, moves := map[1 := Updated(7, 3), 2 := Copied(7, 3, 0)])
  {
    var s := BothSent(content);
    assert s.fileOn - {Row(7, 1)} + {Row(7, 3)} == {Row(7, 2), Row(7, 3)};
    assert s.moves[1 := Updated(7, 3)] == map[1 := Updated(7, 3), 2 := Copied(7, 3, 0)];
  }

  /** The row of device 1 has followed, and the cleaner of device 2 strikes it off again. */
  lemma StruckReached(c: Config, content: Content) returns (s: State)
    requires 0 < c.ttl
    ensures Reached(c, Twice(content), s) && Place(3, 7) in s.tasks
    ensures s == BothSent(content).(fileOn := {Row(7, 2)}, tasks := s.tasks,
                                    moves := map[1 := Updated(7, 3), 2 := Copied(7, 3, 0)])
  {
    BothSentReached(c, content);
    BothSentFollow(c, content);
    var start, s0 := Twice(content), BothSent(content);
    hide Reached, UpdateRow, Twice, BothSent;
    UpdateReached(c, start, s0, 1);
    var s1 := UpdateRow(s0, 1);
    StrikeOne(s1, 2, 3);
    s := Check(s1, 2, 7);
    hide Check;
    ReachedNext(c, start, s1, CheckFid(2, 7));
  }

  /** The guard has to keep two drains apart as well: if both have copied the file to the
      same device, the cleaner of the second strikes off the row of the first, the second
      row follows its copy there, and the delete task meets the only copy that is listed. */
  lemma TwoDrainsLoseData(c: Config, content: Content)
    requires 0 < c.ttl
    ensures exists s :: Reached(c, Twice(content), s) && Lost(s, "a")
  {
    var start := Twice(content);
    var s := StruckReached(c, content);
    FollowOne(s, 2, 3, 0);
    hide Reached, UpdateRow, Lost;
    UpdateReached(c, start, s, 2);
    ConsumeReached(c, start, UpdateRow(s, 2), 3);
  }
}
