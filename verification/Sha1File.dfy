/** A source that is hashed while it is read (sha1file.go), over a seekable file or a
    plain stream (noseek.go): going back and reading again must not hash twice. */
module Sha1File {
  import opened Codec
  import opened Sha1State
  import Sha1Spec
  import opened Sha1

  datatype Whence = Start | Current | End

  /** The position of the underlying reader, the three fields of the wrapper. */
  datatype FileState = FileState(pos: int, position: int, calculated: int, digest: State)

  const NEW_FILE := FileState(0, 0, 0, FRESH)

  /** The wrapper knows where the reader is, and has hashed everything up to the
      furthest byte ever read. */
  ghost predicate InSync(content: seq<bv8>, s: FileState) {
    && s.pos == s.position
    && 0 <= s.position <= s.calculated <= |content|
    && Absorbed(s.digest, content[..s.calculated])
  }

  function Remaining(content: seq<bv8>, pos: int): nat
    requires 0 <= pos
  {
    if pos < |content| then |content| - pos else 0
  }

  function Max(a: int, b: int): int { if a < b then b else a }

  /** Reads n bytes; None is the error for missing data. */
  function ReadStep(content: seq<bv8>, s: FileState, n: nat): Option<FileState>
    requires s.digest.Writable() && 0 <= s.pos && n <= Remaining(content, s.pos)
  {
    if s.position > s.calculated then None
    else if s.position + n > s.calculated then
      var c := content[s.pos..s.pos + n][s.calculated - s.position..];
      Some(FileState(s.pos + n, s.position + n, s.calculated + |c|, Update(s.digest, c)))
    else Some(s.(pos := s.pos + n, position := s.position + n))
  }

  function Target(content: seq<bv8>, pos: int, offset: int, whence: Whence): int {
    match whence
    case Start => offset
    case Current => pos + offset
    case End => |content| + offset
  }

  /** Whether the underlying reader accepts the seek. */
  predicate ReaderSeeks(content: seq<bv8>, seekable: bool, pos: int, offset: int, whence: Whence) {
    if seekable then Target(content, pos, offset, whence) >= 0
    else whence.Start? && offset == pos
  }

  function SeekStep(content: seq<bv8>, seekable: bool, s: FileState, offset: int, whence: Whence): (FileState, bool) {
    if !ReaderSeeks(content, seekable, s.pos, offset, whence) then (s, false)
    else
      var target := Target(content, s.pos, offset, whence);
      if s.position < target then (s.(pos := target), false)
      else (s.(pos := target, position := target), true)
  }

  // ------------------------------------------------------------------- lemmas

  lemma NewInSync(content: seq<bv8>)
    ensures InSync(content, NEW_FILE)
  {
    FreshAbsorbed();
  }

  /** Reading never meets missing data, and hashes each byte once. */
  lemma ReadKeepsInSync(content: seq<bv8>, s: FileState, n: nat)
    requires InSync(content, s) && n <= Remaining(content, s.pos)
    ensures
      var r := ReadStep(content, s, n);
      && r.Some? && InSync(content, r.value)
      && r.value.position == s.position + n
      && r.value.calculated == Max(s.calculated, s.position + n)
  {
    hide Sha1Spec.CompressAll, Update, Absorbed;
    assert s.digest.Writable() by { AbsorbedWritable(s.digest, content[..s.calculated]); }
    if s.position + n > s.calculated {
      var c := content[s.pos..s.pos + n][s.calculated - s.position..];
      UpdateAbsorbs(s.digest, content[..s.calculated], c);
      assert content[..s.calculated] + c == content[..s.position + n];
    }
  }

  lemma AbsorbedWritable(s: State, m: seq<bv8>)
    requires Absorbed(s, m)
    ensures s.Writable()
  {}

  /** A seek leaves the wrapper in step with the reader exactly when the reader refused
      it or it does not go forward. */
  lemma SeekInSync(content: seq<bv8>, seekable: bool, s: FileState, offset: int, whence: Whence)
    requires InSync(content, s)
    ensures
      var (s', ok) := SeekStep(content, seekable, s, offset, whence);
      var accepted := ReaderSeeks(content, seekable, s.pos, offset, whence);
      var target := Target(content, s.pos, offset, whence);
      && (InSync(content, s') <==> !accepted || target <= s.position)
      && (ok <==> accepted && target <= s.position)
      && (ok ==> s'.position == target && s'.calculated == s.calculated)
  {
    hide Absorbed;
  }

  datatype Op = Read(n: nat) | Seek(offset: int, whence: Whence)

  datatype Outcome = Done(state: FileState) | SeekFailed(state: FileState) | MissingData

  /** A run that stops at the first seek that fails, as the upload does. A read asks
      for n bytes and gets what is left. */
  function RunOps(content: seq<bv8>, seekable: bool, s: FileState, ops: seq<Op>): Outcome
    requires s.digest.Writable() && 0 <= s.pos
    decreases |ops|
  {
    if ops == [] then Done(s)
    else
      match ops[0]
      case Read(n) =>
        (match ReadStep(content, s, Min(n, Remaining(content, s.pos)))
         case None => MissingData
         case Some(s') => RunOps(content, seekable, s', ops[1..]))
      case Seek(offset, whence) =>
        var (s', ok) := SeekStep(content, seekable, s, offset, whence);
        if !ok then SeekFailed(s') else RunOps(content, seekable, s', ops[1..])
  }

  /** For any mix of reads and successful seeks the digest stays the hash of the bytes
      up to the high-water mark, and the error for missing data cannot occur. */
  lemma {:induction false} RunOpsInSync(content: seq<bv8>, seekable: bool, s: FileState, ops: seq<Op>)
    requires InSync(content, s)
    ensures s.digest.Writable()
    ensures
      var r := RunOps(content, seekable, s, ops);
      && !r.MissingData?
      && (r.Done? ==>
            InSync(content, r.state) && s.calculated <= r.state.calculated
            && SumOf(r.state.digest) == Sha1Spec.Sha1(content[..r.state.calculated]))
    decreases |ops|
  {
    hide Absorbed, Update, SumOf;
    AbsorbedWritable(s.digest, content[..s.calculated]);
    if ops == [] {
      SumIsSha1(s.digest, content[..s.calculated]);
    } else {
      match ops[0]
      case Read(n) =>
        var m := Min(n, Remaining(content, s.pos));
        ReadKeepsInSync(content, s, m);
        RunOpsInSync(content, seekable, ReadStep(content, s, m).value, ops[1..]);
      case Seek(offset, whence) =>
        SeekInSync(content, seekable, s, offset, whence);
        var (s', ok) := SeekStep(content, seekable, s, offset, whence);
        if ok {
          RunOpsInSync(content, seekable, s', ops[1..]);
        }
    }
  }

  /** Going on after a failed forward seek hashes bytes from the wrong place. */
  lemma ForwardSeekCorrupts()
    ensures
      var content: seq<bv8> := [1, 2, 3];
      var (s, ok) := SeekStep(content, true, NEW_FILE, 1, Start);
      && !ok
      && ReadStep(content, s, 1).Some?
      && Absorbed(ReadStep(content, s, 1).value.digest, [2])
      && !InSync(content, ReadStep(content, s, 1).value)
  {
    hide Sha1Spec.CompressAll, Update;
    var content: seq<bv8> := [1, 2, 3];
    var (s, ok) := SeekStep(content, true, NEW_FILE, 1, Start);
    FreshAbsorbed();
    UpdateAbsorbs(FRESH, [], [2]);
    assert [] + [2 as bv8] == [2];
    assert content[1..2][0..] == [2];
  }

  // ------------------------------------------------------------------- objects

  /** The underlying reader: a file, or a stream that only knows how far it is. */
  class Source {
    const content: seq<bv8>
    const seekable: bool
    var pos: nat

    constructor (content: seq<bv8>, seekable: bool)
      ensures this.content == content && this.seekable == seekable && pos == 0
    {
      this.content := content;
      this.seekable := seekable;
      pos := 0;
    }

    method Read(n: nat) returns (data: seq<bv8>)
      requires n <= Remaining(content, pos)
      modifies this
      ensures pos == old(pos) + n
      ensures n > 0 ==> data == content[old(pos)..pos]
      ensures |data| == n
    {
      data := if n == 0 then [] else content[pos..pos + n];
      pos := pos + n;
    }

    method Seek(offset: int, whence: Whence) returns (newPos: int, ok: bool)
      modifies this
      ensures ok <==> ReaderSeeks(content, seekable, old(pos), offset, whence)
      ensures ok ==> newPos == pos == Target(content, old(pos), offset, whence)
      ensures !ok ==> pos == old(pos)
      ensures !seekable ==> pos == old(pos) && (ok <==> whence.Start? && offset == pos)
      ensures seekable && ok ==>
        pos - offset == (if whence.Start? then 0 else if whence.Current? then old(pos) else |content|) && pos >= 0
    {
      if seekable {
        newPos := Target(content, pos, offset, whence);
        ok := newPos >= 0;
        if ok {
          pos := newPos;
        }
      } else if whence.Start? && offset == pos {
        newPos, ok := offset, true;
      } else {
        newPos, ok := 0, false;
      }
    }
  }

  class Sha1File {
    const rs: Source
    var position: int
    var calculated: int
    const digest: Sha1Digest

    ghost function State(): (s: FileState)
      requires digest.Valid()
      reads this, rs, digest, digest.h, digest.x
    {
      FileState(rs.pos, position, calculated, digest.Value())
    }

    constructor (rs: Source)
      requires rs.pos == 0
      ensures this.rs == rs && digest.Valid() && State() == NEW_FILE
      ensures fresh(digest) && fresh(digest.h) && fresh(digest.x)
    {
      this.rs := rs;
      position, calculated := 0, 0;
      digest := new Sha1Digest();
    }

    method Read(n: nat) returns (data: seq<bv8>, ok: bool)
      requires digest.Valid() && n <= Remaining(rs.content, rs.pos)
      modifies this, rs, digest, digest.h, digest.x
      ensures digest.Valid()
      ensures ok <==> ReadStep(rs.content, old(State()), n).Some?
      ensures State() == if ok then ReadStep(rs.content, old(State()), n).value else old(State())
      ensures ok && n > 0 ==> data == rs.content[old(rs.pos)..old(rs.pos) + n]
      ensures ok ==> |data| == n
    {
      hide Update;
      if position > calculated {
        return [], false;
      }
      var prev := position;
      data := rs.Read(n);
      position := position + |data|;
      if position > calculated {
        var crop := calculated - prev;
        var c := data[crop..];
        var _ := digest.Write(c);
        calculated := calculated + |c|;
      }
      ok := true;
    }

    method Seek(offset: int, whence: Whence) returns (newPosition: int, ok: bool)
      requires digest.Valid()
      modifies this, rs
      ensures digest.Valid()
      ensures (State(), ok) == SeekStep(rs.content, rs.seekable, old(State()), offset, whence)
    {
      newPosition, ok := rs.Seek(offset, whence);
      if !ok {
        return;
      }
      if position < newPosition {
        return newPosition, false;
      }
      position := newPosition;
    }

    method Sum(prefix: seq<bv8>) returns (sum: seq<bv8>)
      requires digest.Valid() && Finishable(digest.Value())
      ensures sum == prefix + SumOf(digest.Value())
    {
      sum := digest.Sum(prefix);
    }
  }
}
