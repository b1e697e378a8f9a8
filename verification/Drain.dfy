/** Draining a device: its files move to other devices one by one. */
module Drain {
  import opened Cluster
  import opened ClusterRun
  import opened Database

  /** How far a file gets. */
  datatype Outcome =
    | NoDevice
    | Breaks(dest: int, part: Content)
    | NotUpdated(dest: int)
    | NotRemoved(dest: int)
    | Moves(dest: int)

  predicate BothRows(s: State, src: int, fid: int, dest: int) {
    Row(fid, src) in s.fileOn && Row(fid, dest) in s.fileOn
  }

  /** Sending breaks off, and the drain gives the file up. */
  function CopyPart(s: State, src: int, fid: int, dest: int, part: Content): (r: State)
    ensures r == s.(disks := r.disks, lists := r.lists)
  {
    Skip(WriteFile(s, dest, fid, part), src, fid)
  }

  function CopyAll(s: State, src: int, fid: int, dest: int): (r: State)
    requires Place(src, fid) in s.disks
    ensures r == s.(disks := r.disks, lists := r.lists, moves := r.moves)
  {
    CopyOff(WriteFile(s, dest, fid, s.disks[Place(src, fid)].content), src, fid, dest)
  }

  /** Copy, update the row, remove the source: as many of the three as the outcome says. */
  function MoveFid(s: State, src: int, fid: int, o: Outcome): State {
    if Place(src, fid) !in s.disks || o.NoDevice? then s
    else if o.Breaks? then CopyPart(s, src, fid, o.dest, o.part)
    else
      var copied := CopyAll(s, src, fid, o.dest);
      if o.NotUpdated? || BothRows(s, src, fid, o.dest) then copied.(moves := copied.moves - {src})
      else
        var updated := UpdateRow(copied, src);
        if o.NotRemoved? then updated.(moves := updated.moves - {src}) else RemoveSource(updated, src)
  }

  predicate CanMove(s: State, src: int, fid: int, o: Outcome) {
    && src in s.lists && fid in s.lists[src] && src !in s.moves
    && (o.NoDevice? || MaySend(s, src, fid, o.dest))
  }

  /** Sends the file to the destination; only a part of it arrives if sending breaks off. */
  method CopyFile(db: Store, src: int, fid: int, o: Outcome) returns (ok: bool)
    requires src in db.lists && Place(src, fid) in db.disks && !o.NoDevice?
    modifies db`disks, db`lists, db`moves
    ensures ok <==> !o.Breaks?
    ensures
      var s := old(db.Value());
      db.Value() == if o.Breaks? then CopyPart(s, src, fid, o.dest, o.part) else CopyAll(s, src, fid, o.dest)
  {
    var content := db.disks[Place(src, fid)].content;
    db.lists := db.lists[src := db.lists[src] - {fid}];
    if o.Breaks? {
      db.disks := db.disks[Place(o.dest, fid) := Stored(o.part, db.clock)];
      return false;
    }
    db.disks := db.disks[Place(o.dest, fid) := Stored(content, db.clock)];
    db.moves := db.moves[src := Copied(fid, o.dest, db.clock)];
    ok := true;
  }

  method MoveFile(db: Store, src: int, fid: int, o: Outcome) returns (ok: bool)
    requires CanMove(db.Value(), src, fid, o)
    modifies db`disks, db`fileOn, db`lists, db`moves
    ensures db.Value() == MoveFid(old(db.Value()), src, fid, o)
    ensures ok <==> o.Moves? && Place(src, fid) in old(db.disks) && !BothRows(old(db.Value()), src, fid, o.dest)
  {
    if Place(src, fid) !in db.disks || o.NoDevice? {
      return false;
    }
    ok := CopyFile(db, src, fid, o);
    if !ok {
      return;
    }
    ghost var copied := db.Value();
    assert copied.moves[src] == Copied(fid, o.dest, copied.clock);
    hide CopyAll;
    ok := !o.NotUpdated?;
    if ok {
      ok := db.UpdateFileOn(fid, src, o.dest);
    }
    if ok {
      db.moves := db.moves[src := Updated(fid, o.dest)];
      assert db.Value() == UpdateRow(copied, src);
      ok := !o.NotRemoved?;
      if ok {
        db.Remove(Place(src, fid));
      }
    }
    db.moves := db.moves - {src};
  }

  lemma PartSafe(c: Config, s: State, src: int, fid: int, dest: int, part: Content)
    requires Inv(c, s) && MaySend(s, src, fid, dest)
    ensures Inv(c, CopyPart(s, src, fid, dest, part))
  {
    hide Inv, WriteFile, Skip;
    DrainWriteInv(c, s, src, fid, dest, part);
    DrainSkipInv(c, WriteFile(s, dest, fid, part), src, fid);
  }

  lemma CopySafe(c: Config, s: State, src: int, fid: int, dest: int)
    requires Inv(c, s) && MaySend(s, src, fid, dest) && Place(src, fid) in s.disks
    ensures
      var copied := CopyAll(s, src, fid, dest);
      Inv(c, copied) && src in copied.moves && copied.moves[src] == Copied(fid, dest, copied.clock)
  {
    var content := s.disks[Place(src, fid)].content;
    var s1 := WriteFile(s, dest, fid, content);
    hide Inv;
    DrainWriteInv(c, s, src, fid, dest, content);
    assert Enabled(c, s1, DrainCopied(src, fid, dest));
    hide Enabled;
    DrainCopyInv(c, s1, src, fid, dest);
  }

  /** However far it gets, nothing is lost and every key keeps its contents. */
  lemma MoveFidSafe(c: Config, s: State, src: int, fid: int, o: Outcome)
    requires Inv(c, s) && CanMove(s, src, fid, o) && 0 < c.ttl
    ensures Inv(c, MoveFid(s, src, fid, o))
    ensures Contents(MoveFid(s, src, fid, o)) == Contents(s)
  {
    hide Inv, Contents;
    SameContents(s, MoveFid(s, src, fid, o));
    if Place(src, fid) in s.disks && !o.NoDevice? {
      if o.Breaks? {
        PartSafe(c, s, src, fid, o.dest, o.part);
      }
      CopySafe(c, s, src, fid, o.dest);
      var copied := CopyAll(s, src, fid, o.dest);
      hide CopyAll, CopyPart;
      if !o.Breaks? {
        if o.NotUpdated? || BothRows(s, src, fid, o.dest) {
          DrainAbortInv(c, copied, src);
        } else {
          YoungCopyHolds(c, copied, src);
          DrainUpdateInv(c, copied, src);
          DrainAbortInv(c, UpdateRow(copied, src), src);
          DrainRemoveInv(c, UpdateRow(copied, src), src);
        }
      }
    }
  }

  lemma MoveFidTables(s: State, src: int, fid: int, o: Outcome)
    requires CanMove(s, src, fid, o)
    ensures
      var s' := MoveFid(s, src, fid, o);
      s'.fileOn ==
        if Place(src, fid) !in s.disks || o.NoDevice? || o.Breaks? || o.NotUpdated? || BothRows(s, src, fid, o.dest)
        then s.fileOn
        else UpdateRows(s.fileOn, fid, src, o.dest)
  {}

  lemma MoveFidDrains(s: State, src: int, fid: int, o: Outcome)
    requires CanMove(s, src, fid, o)
    ensures
      var s' := MoveFid(s, src, fid, o);
      && s'.moves == s.moves
      && (s'.lists == s.lists || s'.lists == s.lists[src := s.lists[src] - {fid}])
  {
    hide UpdateRows, BothRows;
    if Place(src, fid) in s.disks && !o.NoDevice? && !o.Breaks? {
      var copied := CopyAll(s, src, fid, o.dest);
      assert copied.lists == s.lists[src := s.lists[src] - {fid}];
      var m := Copied(fid, o.dest, s.clock);
      assert copied.moves == s.moves[src := m];
      hide CopyAll;
      assert s.moves[src := m] - {src} == s.moves;
      assert s.moves[src := m][src := Updated(fid, o.dest)] - {src} == s.moves;
    }
  }

  /** A move that gets all the way: the row and the data are at the destination, and the
      source has neither. */
  lemma MovedAway(c: Config, s: State, src: int, fid: int, o: Outcome)
    requires Inv(c, s) && CanMove(s, src, fid, o) && o.Moves? && Row(fid, src) in s.fileOn
    ensures
      var s' := MoveFid(s, src, fid, o);
      && s'.fileOn == s.fileOn - {Row(fid, src)} + {Row(fid, o.dest)}
      && s'.disks == s.disks[Place(o.dest, fid) := Stored(s.sent[fid], s.clock)] - {Place(src, fid)}
  {
    hide Live, DrainInv, TasksInv, TablesInv;
    assert Holds(s, src, fid);
    assert Row(fid, o.dest) !in s.fileOn;
    hide Inv;
  }

  /** A drain of src has these fids still to move. */
  ghost predicate Underway(s: State, src: int, fids: seq<int>) {
    src in s.lists && src !in s.moves && forall f :: f in fids ==> f in s.lists[src]
  }

  lemma MoveNext(c: Config, s: State, src: int, fids: seq<int>, o: Outcome)
    requires Inv(c, s) && fids != [] && Distinct(fids) && Underway(s, src, fids)
    requires o.NoDevice? || o.dest !in s.lists
    ensures
      var s' := MoveFid(s, src, fids[0], o);
      && Underway(s', src, fids[1..])
      && s'.lists.Keys == s.lists.Keys && s'.moves == s.moves
  {
    hide Inv, MoveFid;
    assert fids == [fids[0]] + fids[1..] && fids[0] !in fids[1..];
    MoveFidDrains(s, src, fids[0], o);
  }

  /** An outcome in which the row has followed the copy. */
  predicate Updates(o: Outcome) {
    o.Moves? || o.NotRemoved?
  }

  function FidsOn(fileOn: set<Row>, dev: int): set<int> {
    set r | r in fileOn && r.dev == dev :: r.fid
  }

  /** The rows after a drain of src has been at some fids: exactly the rows of those that got
      as far as the update have moved to their destinations. */
  ghost predicate RowsMoved(rows: set<Row>, now: set<Row>, src: int, outcomes: int -> Outcome, done: seq<int>) {
    forall r :: r in now <==>
      || (r in rows && !(r.dev == src && r.fid in done && Updates(outcomes(r.fid))))
      || (r.fid in done && Updates(outcomes(r.fid)) && Row(r.fid, src) in rows && r.dev == outcomes(r.fid).dest)
  }

  /** The files that got all the way are gone from the source. */
  ghost predicate SourcesGone(s: State, src: int, outcomes: int -> Outcome, done: seq<int>) {
    forall f :: f in done && outcomes(f).Moves? ==> Place(src, f) !in s.disks
  }

  lemma NothingMoved(s: State, src: int, outcomes: int -> Outcome)
    ensures RowsMoved(s.fileOn, s.fileOn, src, outcomes, []) && SourcesGone(s, src, outcomes, [])
  {}

  /** A listed row's file is where it should be, and its outcome decides how far it gets. */
  lemma MoveListed(c: Config, s: State, src: int, fid: int, o: Outcome)
    requires Inv(c, s) && CanMove(s, src, fid, o) && Row(fid, src) in s.fileOn
    ensures Place(src, fid) in s.disks && (o.NoDevice? || !BothRows(s, src, fid, o.dest))
    ensures MoveFid(s, src, fid, o).fileOn == if Updates(o) then UpdateRows(s.fileOn, fid, src, o.dest) else s.fileOn
  {
    MoveFidTables(s, src, fid, o);
    hide Live, DrainInv, TasksInv, TablesInv, MoveFid;
    assert Holds(s, src, fid);
    if !o.NoDevice? {
      assert Row(fid, o.dest) !in s.fileOn;
    }
    hide Inv;
  }

  /** The files afterwards: what has been sent is at the destination, and the source is gone
      if the file got all the way. */
  lemma MoveFidDisks(s: State, src: int, fid: int, o: Outcome)
    requires CanMove(s, src, fid, o)
    ensures
      var s' := MoveFid(s, src, fid, o);
      if Place(src, fid) !in s.disks || o.NoDevice? then s'.disks == s.disks
      else
        var data := if o.Breaks? then o.part else s.disks[Place(src, fid)].content;
        var sent := s.disks[Place(o.dest, fid) := Stored(data, s.clock)];
        s'.disks == if o.Moves? && !BothRows(s, src, fid, o.dest) then sent - {Place(src, fid)} else sent
  {
    hide BothRows, UpdateRows;
  }

  lemma RowsMovedMore(rows: set<Row>, now: set<Row>, src: int, outcomes: int -> Outcome, done: seq<int>, fid: int)
    requires RowsMoved(rows, now, src, outcomes, done) && Row(fid, src) in rows && fid !in done
    requires Updates(outcomes(fid)) ==> outcomes(fid).dest != src
    ensures Row(fid, src) in now
    ensures
      var now' := if Updates(outcomes(fid)) then UpdateRows(now, fid, src, outcomes(fid).dest) else now;
      RowsMoved(rows, now', src, outcomes, done + [fid])
  {
    var row := Row(fid, src);
    assert row.fid == fid && row.dev == src;
    var now' := if Updates(outcomes(fid)) then UpdateRows(now, fid, src, outcomes(fid).dest) else now;
    assert forall f :: f in done + [fid] <==> f in done || f == fid;
    assert now' == if Updates(outcomes(fid)) then now - {row} + {Row(fid, outcomes(fid).dest)} else now;
  }

  lemma MovedMore(c: Config, rows: set<Row>, s: State, src: int, outcomes: int -> Outcome, done: seq<int>, fid: int)
    requires Inv(c, s) && CanMove(s, src, fid, outcomes(fid))
    requires RowsMoved(rows, s.fileOn, src, outcomes, done) && SourcesGone(s, src, outcomes, done)
    requires Row(fid, src) in rows && fid !in done
    requires forall f :: outcomes(f).NoDevice? || outcomes(f).dest != src
    ensures Row(fid, src) in s.fileOn
    ensures
      var s' := MoveFid(s, src, fid, outcomes(fid));
      RowsMoved(rows, s'.fileOn, src, outcomes, done + [fid]) && SourcesGone(s', src, outcomes, done + [fid])
  {
    RowsMovedMore(rows, s.fileOn, src, outcomes, done, fid);
    MoveListed(c, s, src, fid, outcomes(fid));
    MoveFidDisks(s, src, fid, outcomes(fid));
    hide Inv, MoveFid, CanMove, RowsMoved, UpdateRows, BothRows;
  }

  /** A run of the drainer: it takes the files of the device in some order. It stops early
      exactly at a shutdown, which comes before one of them, or at one that does not get all
      the way, if told to stop at errors. Of the files it has been at, exactly the rows of
      those that got as far as the update have moved, and those that got all the way are gone
      from the device. */
  method RunDrain(db: Store, c: Config, src: int, outcomes: int -> Outcome, stopOnError: bool, shutdown: nat)
    returns (finished: bool, ghost order: seq<int>, ghost done: nat)
    requires Inv(c, db.Value()) && 0 < c.ttl && src !in db.lists && src !in db.moves
    requires Targets(db.Value(), src, outcomes)
    modifies db`disks, db`fileOn, db`lists, db`moves
    ensures Inv(c, db.Value())
    ensures Contents(db.Value()) == Contents(old(db.Value()))
    ensures Distinct(order) && (forall f :: f in order <==> Row(f, src) in old(db.fileOn)) && done <= |order|
    ensures RowsMoved(old(db.fileOn), db.fileOn, src, outcomes, order[..done])
    ensures SourcesGone(db.Value(), src, outcomes, order[..done])
    ensures finished ==> done == |order| <= shutdown
    ensures finished && stopOnError ==> AllMove(outcomes, order)
    ensures !finished ==>
      || done == shutdown < |order|
      || (stopOnError && 0 < done <= shutdown && !outcomes(order[done - 1]).Moves?)
    ensures finished && AllMove(outcomes, order) ==> forall r :: r in db.fileOn ==> r.dev != src
    ensures db.lists.Keys == old(db.lists).Keys && db.moves == old(db.moves)
  {
    hide Inv, Contents, MoveFid;
    ghost var s0 := db.Value();
    var found := FidsOn(db.fileOn, src);
    db.lists := db.lists[src := found];
    var fids := Rows(found);
    FidsListed(s0.fileOn, src, fids);
    order, done, finished := fids, 0, true;
    DrainBegins(c, s0, src, outcomes, fids);
    NoneFails(outcomes, fids);
    hide CanMove, RowsMoved, SourcesGone, FidsOn, BothRows, Drains, Targets, AllMove, Distinct;
    for i := 0 to |fids|
      invariant finished && done == i <= shutdown
      invariant Drains(c, s0, db.Value(), src, outcomes, fids, i)
      invariant stopOnError ==> AllMove(outcomes, fids[..i])
    {
      if i == shutdown {
        finished := false;
        break;
      }
      DrainNext(c, s0, db.Value(), src, outcomes, fids, i);
      var ok := MoveFile(db, src, fids[i], outcomes(fids[i]));
      done := i + 1;
      OneMoves(outcomes, fids, i);
      if !ok && stopOnError {
        finished := false;
        break;
      }
    }
    DrainEnds(c, s0, db.Value(), src, outcomes, fids, done);
    db.lists := db.lists - {src};
  }

  /** Every destination is another device, and not one that is draining. */
  ghost predicate Targets(s: State, src: int, outcomes: int -> Outcome) {
    forall f :: outcomes(f).NoDevice? || (outcomes(f).dest !in s.lists && outcomes(f).dest != src)
  }

  ghost predicate AllMove(outcomes: int -> Outcome, fids: seq<int>) {
    forall f :: f in fids ==> outcomes(f).Moves?
  }

  lemma NoneFails(outcomes: int -> Outcome, fids: seq<int>)
    ensures AllMove(outcomes, fids[..0]) && fids[..|fids|] == fids
  {}

  lemma OneMoves(outcomes: int -> Outcome, fids: seq<int>, i: nat)
    requires i < |fids|
    ensures AllMove(outcomes, fids[..i + 1]) <==> AllMove(outcomes, fids[..i]) && outcomes(fids[i]).Moves?
  {
    var more := fids[..i + 1];
    assert more == fids[..i] + [fids[i]] && more[i] == fids[i];
    assert forall f :: f in more <==> f in fids[..i] || f == fids[i];
  }

  /** A drain of src, which started from s0, has been at the first n of its fids. */
  ghost predicate Drains(c: Config, s0: State, s: State, src: int, outcomes: int -> Outcome, fids: seq<int>, n: nat) {
    && n <= |fids| && Inv(c, s) && Contents(s) == Contents(s0)
    && s.lists.Keys == s0.lists.Keys + {src} && s.moves == s0.moves
    && Underway(s, src, fids[n..])
    && RowsMoved(s0.fileOn, s.fileOn, src, outcomes, fids[..n]) && SourcesGone(s, src, outcomes, fids[..n])
  }

  lemma DrainBegins(c: Config, s: State, src: int, outcomes: int -> Outcome, fids: seq<int>)
    requires Inv(c, s) && src !in s.lists && src !in s.moves
    requires forall f :: f in fids <==> f in FidsOn(s.fileOn, src)
    ensures Drains(c, s, s.(lists := s.lists[src := FidsOn(s.fileOn, src)]), src, outcomes, fids, 0)
  {
    var s' := s.(lists := s.lists[src := FidsOn(s.fileOn, src)]);
    assert s' == BeginDrain(s, src);
    StartDrainInv(c, s, src);
    SameContents(s, s');
    NothingMoved(s', src, outcomes);
    assert fids[0..] == fids && fids[..0] == [];
    assert Underway(s', src, fids);
    hide Inv, Contents, RowsMoved, SourcesGone;
  }

  lemma DrainEnds(c: Config, s0: State, s: State, src: int, outcomes: int -> Outcome, fids: seq<int>, n: nat)
    requires Drains(c, s0, s, src, outcomes, fids, n) && src !in s0.lists && src !in s0.moves
    requires forall f :: f in fids <==> Row(f, src) in s0.fileOn
    requires Targets(s0, src, outcomes)
    ensures
      var s' := s.(lists := s.lists - {src});
      && Inv(c, s') && Contents(s') == Contents(s0)
      && s'.lists.Keys == s0.lists.Keys && s'.moves == s0.moves
      && RowsMoved(s0.fileOn, s'.fileOn, src, outcomes, fids[..n]) && SourcesGone(s', src, outcomes, fids[..n])
      && (n == |fids| && AllMove(outcomes, fids) ==> forall r :: r in s'.fileOn ==> r.dev != src)
  {
    var s' := s.(lists := s.lists - {src});
    hide Inv, Contents, RowsMoved;
    EndDrainInv(c, s, src);
    SameContents(s, s');
    if n == |fids| && AllMove(outcomes, fids) {
      assert fids[..n] == fids;
      NoneLeft(s0.fileOn, s.fileOn, src, outcomes, fids);
    }
  }

  /** One file more. */
  lemma DrainNext(c: Config, s0: State, s: State, src: int, outcomes: int -> Outcome, fids: seq<int>, i: nat)
    requires Drains(c, s0, s, src, outcomes, fids, i) && 0 < c.ttl && i < |fids| && Distinct(fids)
    requires forall f :: f in fids ==> Row(f, src) in s0.fileOn
    requires Targets(s0, src, outcomes)
    ensures CanMove(s, src, fids[i], outcomes(fids[i]))
    ensures Place(src, fids[i]) in s.disks
    ensures outcomes(fids[i]).NoDevice? || !BothRows(s, src, fids[i], outcomes(fids[i]).dest)
    ensures Drains(c, s0, MoveFid(s, src, fids[i], outcomes(fids[i])), src, outcomes, fids, i + 1)
  {
    hide Inv, Contents, MoveFid, Underway, CanMove, RowsMoved, SourcesGone, BothRows;
    var o := outcomes(fids[i]);
    Halves(fids, i);
    Ready(s, src, fids[i..], o);
    MoveFidSafe(c, s, src, fids[i], o);
    MoveNext(c, s, src, fids[i..], o);
    assert fids[i] in fids;
    MovedMore(c, s0.fileOn, s, src, outcomes, fids[..i], fids[i]);
    MoveListed(c, s, src, fids[i], o);
  }

  lemma Ready(s: State, src: int, fids: seq<int>, o: Outcome)
    requires Underway(s, src, fids) && fids != [] && (o.NoDevice? || o.dest !in s.lists)
    ensures CanMove(s, src, fids[0], o)
  {}

  lemma Halves(fids: seq<int>, i: nat)
    requires i < |fids| && Distinct(fids)
    ensures fids[i..][0] == fids[i] && fids[i..][1..] == fids[i + 1..]
    ensures fids[..i + 1] == fids[..i] + [fids[i]] && fids[i] !in fids[..i] && Distinct(fids[i..])
  {}

  lemma FidsListed(rows: set<Row>, src: int, fids: seq<int>)
    requires forall f :: f in fids <==> f in FidsOn(rows, src)
    ensures forall f :: f in fids <==> Row(f, src) in rows
  {
    forall f | Row(f, src) in rows
      ensures f in FidsOn(rows, src)
    {
      assert Row(f, src).fid == f;
    }
  }

  lemma NoneLeft(rows: set<Row>, now: set<Row>, src: int, outcomes: int -> Outcome, fids: seq<int>)
    requires RowsMoved(rows, now, src, outcomes, fids) && forall f :: f in fids <==> Row(f, src) in rows
    requires AllMove(outcomes, fids) && forall f :: f in fids ==> outcomes(f).dest != src
    ensures forall r :: r in now ==> r.dev != src
  {}
}
