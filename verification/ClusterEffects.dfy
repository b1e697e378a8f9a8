/** What the steps of the cluster change, entry by entry, and that they change nothing
    else. */
module ClusterEffects {
  import opened Cluster

  /** One task more for every place that meets a condition. */
  ghost predicate TasksAdded(s: State, s': State, added: Place -> bool) {
    forall p :: s'.tasks[p] == s.tasks[p] + if added(p) then 1 else 0
  }

  lemma TaskCounts(devs: set<int>, fid: int)
    ensures forall p: Place :: Tasks(devs, fid)[p] == if p.fid == fid && p.dev in devs then 1 else 0
  {
    forall p: Place
      ensures Tasks(devs, fid)[p] == if p.fid == fid && p.dev in devs then 1 else 0
    {
      var places := set d | d in devs :: Place(d, fid);
      assert p in places <==> p.fid == fid && p.dev in devs by {
        if p.fid == fid && p.dev in devs {
          assert Place(p.dev, fid) in places;
        }
      }
    }
  }

  lemma DevsKnown(fileOn: set<Row>, fid: int)
    ensures forall d :: d in DevsOf(fileOn, fid) <==> Row(fid, d) in fileOn
  {
    forall d | Row(fid, d) in fileOn
      ensures d in DevsOf(fileOn, fid)
    {
      assert Row(fid, d).dev == d;
    }
  }

  /** Deleting a fid: its rows go from both tables, and every device that had it gets
      exactly one task more. */
  lemma DropFidEffect(c: Config, s: State, fid: int)
    ensures
      var s' := Apply(c, s, DeleteFid(fid));
      && s' == s.(files := s'.files, fileOn := s'.fileOn, tasks := s'.tasks)
      && (forall k :: k in s'.files <==> k in s.files && s.files[k] != fid)
      && (forall k :: k in s'.files ==> s'.files[k] == s.files[k])
      && (forall r :: r in s'.fileOn <==> r in s.fileOn && r.fid != fid)
      && TasksAdded(s, s', (p: Place) => p.fid == fid && Row(fid, p.dev) in s.fileOn)
  {
    DevsKnown(s.fileOn, fid);
    TaskCounts(DevsOf(s.fileOn, fid), fid);
    hide Tasks, DevsOf;
  }

  /** Deleting a key deletes the fid it names, if it names one. */
  lemma DeleteKeyEffect(c: Config, s: State, key: string)
    ensures
      Apply(c, s, DeleteKey(key)) == if key in s.files then Apply(c, s, DeleteFid(s.files[key])) else s
  {}

  /** Create-close answers by the request, the uploads and the rows of the fid; it fails
      exactly if the new file has rows already that the old one does not take along. */
  lemma CloseReplies(s: State, fid: int, key: string)
    ensures
      var reply := Close(s, fid, key).1;
      && (reply == BadRequest <==> key == "")
      && (reply == NotFound <==> key != "" && fid !in s.temp)
      && (reply == Failed <==>
            && key != "" && fid in s.temp && (exists d :: Row(fid, d) in s.fileOn)
            && !(key in s.files && s.files[key] == fid))
  {
    if key != "" && fid in s.temp {
      var s1 := s.(temp := s.temp - {fid});
      var s2 := if key in s.files then DropFid(s1, s1.files[key]) else s1;
      assert forall r :: r in s2.fileOn <==> r in s.fileOn && !(key in s.files && r.fid == s.files[key]);
      assert (exists d :: Row(fid, d) in s.fileOn) <==> exists r :: r in s.fileOn && r.fid == fid by {
        if r :| r in s.fileOn && r.fid == fid {
          assert Row(fid, r.dev) == r;
        }
      }
    }
  }

  /** After a create-close that succeeds, the key names the fid, which is on the device of
      its upload and on no other. What the key named before is gone from both tables, and
      every device that had it gets a task. Otherwise nothing has changed. */
  lemma CloseEffect(c: Config, s: State, fid: int, key: string)
    ensures
      var s' := Apply(c, s, CreateClose(fid, key));
      var reply := Close(s, fid, key).1;
      if reply != Ok then s' == s
      else
        && fid in s.temp
        && s' == s.(files := s'.files, fileOn := s'.fileOn, temp := s'.temp, tasks := s'.tasks)
        && (forall f :: f in s'.temp <==> f in s.temp && f != fid)
        && (forall f :: f in s'.temp ==> s'.temp[f] == s.temp[f])
        && key in s'.files && s'.files[key] == fid
        && (forall r :: r in s'.fileOn <==>
              r == Row(fid, s.temp[fid].dev) || (r in s.fileOn && !(key in s.files && r.fid == s.files[key])))
        && TasksAdded(s, s', (p: Place) => key in s.files && p.fid == s.files[key] && Row(p.fid, p.dev) in s.fileOn)
  {
    var (s', reply) := Close(s, fid, key);
    if reply == Ok && key in s.files {
      var s1 := s.(temp := s.temp - {fid});
      DropFidEffect(c, s1, s1.files[key]);
      var s2 := DropFid(s1, s1.files[key]);
      hide DropFid, ReplaceFails;
      assert s'.tasks == s2.tasks;
    } else {
      hide DropFid, ReplaceFails;
    }
  }

  /** Other keys keep their files, except those that named the old or the new fid. */
  lemma CloseOtherKeys(c: Config, s: State, fid: int, key: string, other: string)
    requires Close(s, fid, key).1 == Ok && other != key
    ensures
      var s' := Apply(c, s, CreateClose(fid, key));
      && (other in s'.files <==>
            other in s.files && s.files[other] != fid && !(key in s.files && s.files[other] == s.files[key]))
      && (other in s'.files ==> s'.files[other] == s.files[other])
  {
    hide ReplaceFails;
  }

  /** Expiry: exactly the uploads that have been open for longer than the limit go, and the
      device of each gets a task. */
  lemma ExpireEffect(c: Config, s: State)
    ensures
      var s' := Apply(c, s, Expire);
      && s' == s.(temp := s'.temp, tasks := s'.tasks)
      && (forall f :: f in s'.temp <==> f in s.temp && s.clock - s.temp[f].created <= c.tooOld)
      && (forall f :: f in s'.temp ==> s'.temp[f] == s.temp[f])
      && TasksAdded(s, s', (p: Place) =>
           p.fid in s.temp && s.temp[p.fid].dev == p.dev && s.clock - s.temp[p.fid].created > c.tooOld)
  {
    var stale := set f | f in s.temp && Stale(c, s, f);
    var places := set f | f in stale :: Place(s.temp[f].dev, f);
    forall p: Place
      ensures p in places <==>
        p.fid in s.temp && s.temp[p.fid].dev == p.dev && s.clock - s.temp[p.fid].created > c.tooOld
    {
      if p.fid in stale && s.temp[p.fid].dev == p.dev {
        assert Place(s.temp[p.fid].dev, p.fid) in places;
      }
    }
  }

  /** A visit of the disk cleaner: the file goes exactly if it has been on the disk for the
      limit, and neither a row nor an upload names the fid on this device. */
  lemma VisitEffect(c: Config, s: State, dev: int, fid: int)
    ensures
      var s' := Apply(c, s, VisitFile(dev, fid));
      && s' == s.(disks := s'.disks)
      && (forall p :: p in s'.disks ==> p in s.disks && s'.disks[p] == s.disks[p])
      && (forall p :: p in s.disks && p !in s'.disks <==>
            && p == Place(dev, fid) && p in s.disks && s.clock - s.disks[p].mtime >= c.ttl
            && Row(fid, dev) !in s.fileOn && !(fid in s.temp && s.temp[fid].dev == dev))
  {}

  /** The device cleaner on one fid: without the file its row goes; with it every other
      row goes, and those devices get a task. */
  lemma CheckEffect(c: Config, s: State, dev: int, fid: int)
    ensures
      var s' := Apply(c, s, CheckFid(dev, fid));
      var here := Row(fid, dev) in s.fileOn && Place(dev, fid) in s.disks;
      && s' == s.(fileOn := s'.fileOn, tasks := s'.tasks)
      && (forall r :: r in s'.fileOn <==>
            && r in s.fileOn
            && (r.fid == fid ==> if r.dev == dev then Place(dev, fid) in s.disks else !here))
      && TasksAdded(s, s', (p: Place) => here && p.fid == fid && p.dev != dev && Row(fid, p.dev) in s.fileOn)
  {
    DevsKnown(s.fileOn, fid);
    var others := DevsOf(s.fileOn, fid) - {dev};
    TaskCounts(others, fid);
    hide Tasks, DevsOf;
    var rows := set d | d in others :: Row(fid, d);
    forall r
      ensures r in rows <==> r.fid == fid && r.dev in others
    {
      if r.fid == fid && r.dev in others {
        assert Row(fid, r.dev) == r;
      }
    }
  }

  /** A drain starts with the fids of the device's rows. */
  lemma StartDrainEffect(c: Config, s: State, dev: int)
    ensures
      var s' := Apply(c, s, StartDrain(dev));
      && s' == s.(lists := s'.lists) && s'.lists.Keys == s.lists.Keys + {dev}
      && (forall f :: f in s'.lists[dev] <==> Row(f, dev) in s.fileOn)
      && (forall d :: d in s.lists && d != dev ==> s'.lists[d] == s.lists[d])
  {
    forall f | Row(f, dev) in s.fileOn
      ensures f in Apply(c, s, StartDrain(dev)).lists[dev]
    {
      assert Row(f, dev).fid == f;
    }
  }

  /** The update of a drain: if the source has a row of the fid, the destination has it
      afterwards. */
  lemma DrainUpdateEffect(c: Config, s: State, src: int)
    requires src in s.moves && s.moves[src].Copied?
    ensures
      var s' := Apply(c, s, DrainUpdate(src));
      var m := s.moves[src];
      var has := Row(m.fid, src) in s.fileOn;
      && s' == s.(fileOn := s'.fileOn, moves := s.moves[src := Updated(m.fid, m.dest)])
      && (forall r :: r in s'.fileOn <==>
            (r in s.fileOn && r != Row(m.fid, src)) || (has && r == Row(m.fid, m.dest)))
  {}

  /** The end of a drain's way with a file: the source is gone. */
  lemma DrainRemoveEffect(c: Config, s: State, src: int)
    requires src in s.moves && s.moves[src].Updated?
    ensures
      var s' := Apply(c, s, DrainRemove(src));
      && s' == s.(disks := s'.disks, moves := s.moves - {src})
      && (forall p :: p in s'.disks <==> p in s.disks && p != Place(src, s.moves[src].fid))
      && (forall p :: p in s'.disks ==> s'.disks[p] == s.disks[p])
  {}

  /** A delivery removes the file; the task stays on the queue unless it is acknowledged. */
  lemma ConsumeEffect(c: Config, s: State, task: Place, acked: bool)
    ensures
      var s' := Apply(c, s, Consume(task, acked));
      && s' == s.(disks := s'.disks, tasks := s'.tasks)
      && (forall p :: p in s'.disks <==> p in s.disks && p != task)
      && (forall p :: p in s'.disks ==> s'.disks[p] == s.disks[p])
      && (forall p :: s'.tasks[p] == if p == task && acked && p in s.tasks then s.tasks[p] - 1 else s.tasks[p])
  {}

  /** A write leaves a file that is as old as the write, wherever it is from. */
  lemma WriteEffect(c: Config, s: State, fid: int, dev: int, src: int, content: Content)
    ensures
      var s' := Apply(c, s, Upload(fid, dev, content));
      && s' == s.(disks := s'.disks) && Apply(c, s, DrainWrite(src, fid, dev, content)) == s'
      && (forall p :: p in s'.disks <==> p in s.disks || p == Place(dev, fid))
      && (forall p :: p in s'.disks ==>
            if p == Place(dev, fid) then s'.disks[p].content == content && s'.clock - s'.disks[p].mtime == 0
            else s'.disks[p] == s.disks[p])
  {}

  /** An upload opens under a fid that nobody has used, as old as the moment. */
  lemma CreateOpenEffect(c: Config, s: State, dev: int)
    requires TablesInv(s)
    ensures
      var s' := Apply(c, s, CreateOpen(dev));
      && s' == s.(temp := s'.temp, next := s'.next)
      && (exists fid ::
            && fid !in s.temp && fid !in s.sent && !Live(s, fid) && s.next <= fid < s'.next
            && s'.temp == s.temp[fid := Temp(dev, s.clock)])
  {
    assert s.next !in s.temp && s.next !in s.sent && !Live(s, s.next);
  }

  /** What the servers and the tracker do on their own may happen at any time. */
  lemma AlwaysEnabled(c: Config, s: State, step: Step)
    requires
      || step.CreateOpen? || step.DeleteKey? || step.DeleteFid? || step.Expire? || step.Lose? || step.VisitFile?
      || step.CheckFid? || step.Tick? || (step.Consume? && step.task in s.tasks)
    ensures Enabled(c, s, step)
  {}
}
