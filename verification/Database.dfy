/** The shared state of a cluster as its processes see it: the tables of the database with
    the statements they run on them, the devices' disks and the delete queues. */
module Database {
  import opened Cluster
  import opened Codec

  predicate Distinct<T(==)>(s: seq<T>) {
    forall i, j :: 0 <= i < j < |s| ==> s[i] != s[j]
  }

  /** The rows of a result, in whatever order the database returns them. */
  method Rows<T(==)>(found: set<T>) returns (rows: seq<T>)
    ensures Distinct(rows) && (forall x :: x in rows <==> x in found) && |rows| == |found|
  {
    rows := [];
    var left := found;
    while left != {}
      invariant left <= found && Distinct(rows) && |rows| + |left| == |found|
      invariant forall x :: x in rows <==> x in found && x !in left
    {
      var x :| x in left;
      rows := rows + [x];
      left := left - {x};
    }
  }

  /** What is left of the table file when a REPLACE has deleted the rows in its way. */
  function Displaced(files: map<string, int>, fid: int, key: string): map<string, int> {
    map k | k in files && k != key && files[k] != fid :: files[k]
  }

  /** While every row of file_on refers to a row of file, and no fid has two keys, REPLACE
      fails exactly if afterwards some row would refer to none, but for the new one. */
  lemma ReplaceFailsIff(s: State, fid: int, key: string)
    requires forall r :: r in s.fileOn ==> Live(s, r.fid)
    requires forall k, l :: k in s.files && l in s.files && s.files[k] == s.files[l] ==> k == l
    ensures ReplaceFails(s, fid, key) <==>
      exists r :: r in s.fileOn && forall k :: k in Displaced(s.files, fid, key) ==> s.files[k] != r.fid
    ensures Replace(s.files, fid, key) == Displaced(s.files, fid, key)[key := fid]
  {
    if ReplaceFails(s, fid, key) {
      var r :| r in s.fileOn && (r.fid == fid || (key in s.files && r.fid == s.files[key]));
      assert forall k :: k in Displaced(s.files, fid, key) ==> s.files[k] != r.fid;
    }
    forall r | r in s.fileOn && forall k :: k in Displaced(s.files, fid, key) ==> s.files[k] != r.fid
      ensures r.fid == fid || (key in s.files && r.fid == s.files[key])
    {
      var k :| k in s.files && s.files[k] == r.fid;
      assert k !in Displaced(s.files, fid, key);
    }
  }

  class Store {
    var files: map<string, int>
    var fileOn: set<Row>
    var temp: map<int, Temp>
    var next: int
    var disks: map<Place, Stored>
    var tasks: multiset<Place>
    var lists: map<int, set<int>>
    var moves: map<int, Move>
    var clock: int
    ghost var sent: map<int, Content>

    ghost function Value(): State
      reads this
    {
      State(files, fileOn, temp, next, disks, tasks, lists, moves, clock, sent)
    }

    constructor ()
      ensures Value() == INITIAL
    {
      files, fileOn, temp, next := map[], {}, map[], 1;
      disks, tasks, lists, moves, clock, sent := map[], multiset{}, map[], map[], 0, map[];
    }

    /** insert into tempfile(devid) */
    method InsertTempfile(dev: int) returns (fid: int)
      modifies `temp, `next
      ensures Value() == Open(old(Value()), dev)
      ensures fid == old(next)
    {
      fid := next;
      temp := temp[fid := Temp(dev, clock)];
      next := next + 1;
    }

    /** select fid from file where dkey=? */
    method SelectFid(key: string) returns (fid: Option<int>)
      ensures fid == if key in files then Some(files[key]) else None
    {
      fid := if key in files then Some(files[key]) else None;
    }

    /** select devid from file_on where fid=? */
    method SelectDevices(fid: int) returns (devs: seq<int>)
      ensures Distinct(devs) && forall d :: d in devs <==> Row(fid, d) in fileOn
    {
      var found := set r | r in fileOn && r.fid == fid :: r.dev;
      forall d | Row(fid, d) in fileOn
        ensures d in found
      {
        assert Row(fid, d).dev == d;
      }
      devs := Rows(found);
    }

    /** delete from file_on where fid=? */
    method DeleteFileOn(fid: int)
      modifies `fileOn
      ensures Value() == old(Value()).(fileOn := (set r | r in old(fileOn) && r.fid != fid))
    {
      fileOn := set r | r in fileOn && r.fid != fid;
    }

    /** delete from file where fid=?; a row that file_on refers to must stay. */
    method DeleteFileRow(fid: int) returns (ok: bool)
      modifies `files
      ensures ok <==> forall r :: r in fileOn ==> r.fid != fid || !Live(old(Value()), fid)
      ensures Value() == if ok then old(Value()).(files := WithoutFid(old(files), fid)) else old(Value())
    {
      ok := (forall r :: r in fileOn ==> r.fid != fid) || (forall k :: k in files ==> files[k] != fid);
      if ok {
        files := WithoutFid(files, fid);
      }
    }

    /** replace into file(fid, dkey): rows with the same fid or key give way, unless
        file_on refers to them. */
    method ReplaceFile(fid: int, key: string) returns (ok: bool)
      modifies `files
      ensures ok <==> !ReplaceFails(old(Value()), fid, key)
      ensures Value() == if ok then old(Value()).(files := Replace(old(files), fid, key)) else old(Value())
    {
      ok := !(exists r :: r in fileOn && (r.fid == fid || (key in files && r.fid == files[key])));
      if ok {
        files := Replace(files, fid, key);
      }
    }

    /** insert into file_on(fid, devid): the row must be new and its file known. */
    method InsertFileOn(fid: int, dev: int) returns (ok: bool)
      modifies `fileOn
      ensures ok <==> Row(fid, dev) !in old(fileOn) && Live(old(Value()), fid)
      ensures Value() == if ok then old(Value()).(fileOn := old(fileOn) + {Row(fid, dev)}) else old(Value())
    {
      ok := Row(fid, dev) !in fileOn && exists k :: k in files && files[k] == fid;
      if ok {
        fileOn := fileOn + {Row(fid, dev)};
      }
    }

    /** update file_on set devid=? where devid=? and fid=?; no two rows may become equal. */
    method UpdateFileOn(fid: int, src: int, dest: int) returns (ok: bool)
      modifies `fileOn
      ensures ok <==> !(Row(fid, src) in old(fileOn) && Row(fid, dest) in old(fileOn) && src != dest)
      ensures Value() == if ok then old(Value()).(fileOn := UpdateRows(old(fileOn), fid, src, dest)) else old(Value())
    {
      ok := !(Row(fid, src) in fileOn && Row(fid, dest) in fileOn && src != dest);
      if ok && Row(fid, src) in fileOn {
        fileOn := fileOn - {Row(fid, src)} + {Row(fid, dest)};
      }
    }

    /** os.Remove */
    method Remove(p: Place)
      modifies `disks
      ensures Value() == old(Value()).(disks := old(disks) - {p})
    {
      disks := disks - {p};
    }
  }

  /** Publishing for one device more. */
  lemma TasksMore(devs: set<int>, dev: int, fid: int)
    requires dev !in devs
    ensures Tasks(devs + {dev}, fid) == Tasks(devs, fid) + multiset{Place(dev, fid)}
  {
    var before := set d | d in devs :: Place(d, fid);
    var after := set d | d in devs + {dev} :: Place(d, fid);
    assert after == before + {Place(dev, fid)} by {
      forall d | d in devs + {dev}
        ensures Place(d, fid) in before + {Place(dev, fid)}
      {
        assert d != dev ==> d in devs;
      }
      assert dev in devs + {dev};
    }
    assert Place(dev, fid) !in before;
  }
}
