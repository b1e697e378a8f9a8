/** A partial SHA-1 as a value: what writing does to it, which message it stands for,
    and that finishing it gives the digest of that message. */
module Sha1State {
  import opened Codec
  import opened Sha1Spec

  const POW63 := 0x8000_0000_0000_0000

  /** The fields of the digest object. Bytes of x from nx on are left over from
      earlier blocks. A state read from a text may have any nx. */
  datatype State = State(h: Registers, x: seq<bv8>, nx: int, len: int) {
    /** The fields have their types. */
    predicate Typed() {
      |x| == CHUNK && -POW63 <= nx < POW63 && 0 <= len < POW64
    }

    /** Write does not panic: it slices x at nx. */
    predicate Writable() {
      Typed() && nx <= CHUNK
    }
  }

  const FRESH := State(INITIAL, Zeros(CHUNK), 0, 0)

  /** The whole blocks of a message. */
  function Blocks(m: seq<bv8>): (b: seq<bv8>)
    ensures |b| % CHUNK == 0
    ensures b == m[..|m| - |m| % CHUNK]
  {
    m[..|m| / CHUNK * CHUNK]
  }

  /** The state has consumed exactly the bytes of m. */
  ghost predicate Absorbed(s: State, m: seq<bv8>) {
    && s.Typed()
    && s.nx == |m| % CHUNK
    && s.len == |m| % POW64
    && s.x[..s.nx] == m[|m| - s.nx..]
    && s.h == CompressAll(INITIAL, Blocks(m))
  }

  function Overwrite(x: seq<bv8>, at: nat, p: seq<bv8>): (y: seq<bv8>)
    requires at + |p| <= |x|
    ensures |y| == |x|
  {
    x[..at] + p + x[at + |p|..]
  }

  function Min(a: int, b: int): int { if a < b then a else b }

  /** How many bytes of p complete the block that is already begun. */
  function TakeCount(s: State, p: seq<bv8>): (n: nat)
    requires s.Writable()
    ensures n <= |p| && s.nx + n <= CHUNK
  {
    if s.nx > 0 then Min(CHUNK - s.nx, |p|) else 0
  }

  function FillBlock(s: State, p: seq<bv8>): (s': State)
    requires s.Writable()
    ensures s'.Writable()
  {
    if s.nx <= 0 then s
    else
      var n := TakeCount(s, p);
      var x := Overwrite(s.x, s.nx, p[..n]);
      if s.nx + n == CHUNK then s.(x := x, nx := 0, h := CompressAll(s.h, x))
      else s.(x := x, nx := s.nx + n)
  }

  /** Whole blocks straight from p, the rest into the buffer. */
  function AddRest(s: State, p: seq<bv8>): (s': State)
    requires s.Writable()
    ensures s'.Writable()
  {
    var n := |p| - |p| % CHUNK;
    var h := CompressAll(s.h, p[..n]);
    if p[n..] == [] then s.(h := h) else s.(h := h, x := Overwrite(s.x, 0, p[n..]), nx := |p| - n)
  }

  function Update(s: State, p: seq<bv8>): (s': State)
    requires s.Writable()
    ensures s'.Writable()
  {
    AddRest(FillBlock(s.(len := (s.len + |p|) % POW64), p), p[TakeCount(s, p)..])
  }

  /** The two writes by which a copy of the state is finished. */
  function FinalPad(len: int): seq<bv8>
    requires 0 <= len
  {
    [0x80] + Zeros(if len % 64 < 56 then 55 - len % 64 else 119 - len % 64)
  }

  function Finish(s: State): State
    requires s.Writable()
  {
    Update(Update(s, FinalPad(s.len)), BigEndian(s.len * 8 % POW64, 8))
  }

  function SumOf(s: State): seq<bv8>
    requires s.Writable()
  {
    DigestBytes(Finish(s).h)
  }

  // ------------------------------------------------------------------- lemmas

  lemma FreshAbsorbed()
    ensures Absorbed(FRESH, [])
  {}

  /** Completing a block: what is absorbed so far, plus the first bytes of p. */
  lemma FillBlockAbsorbs(s: State, m: seq<bv8>, p: seq<bv8>)
    requires Absorbed(s, m)
    ensures
      var n := TakeCount(s, p);
      Absorbed(FillBlock(s, p).(len := (|m| + n) % POW64), m + p[..n])
  {
    hide Compress;
    var n := TakeCount(s, p);
    var m' := m + p[..n];
    var x := Overwrite(s.x, s.nx, p[..n]);
    var start := |m| - s.nx;
    assert x[..s.nx + n] == m'[start..];
    assert m'[..start] == m[..start];
    if s.nx + n == CHUNK {
      assert |m'| == start + CHUNK;
      assert m' == m[..start] + x;
      CompressAllConcat(INITIAL, m[..start], x);
      assert m'[..|m'|] == m';
      assert |m'| % CHUNK == 0;
    } else {
      SameBlock(|m|, n, s.nx);
    }
  }

  lemma SameBlock(length: nat, n: nat, nx: nat)
    requires nx == length % CHUNK && nx + n < CHUNK
    ensures (length + n) % CHUNK == nx + n
  {}

  lemma AddRestAbsorbs(s: State, m: seq<bv8>, p: seq<bv8>)
    requires Absorbed(s, m)
    requires s.nx == 0 || p == []
    ensures Absorbed(AddRest(s, p).(len := (|m| + |p|) % POW64), m + p)
  {
    hide Compress, CompressAll;
    if p == [] {
      assert m + p == m && p[..0] == p;
      CompressNothing(s.h);
    } else {
      var s' := AddRest(s, p);
      var n := |p| - |p| % CHUNK;
      BlocksConcat(m, p);
      CompressAllConcat(INITIAL, Blocks(m), Blocks(p));
      assert Blocks(p) == p[..n];
      hide Blocks;
      assert s'.nx == |p| - n;
      assert s'.x[..s'.nx] == p[n..];
      assert (m + p)[|m| + n..] == p[n..];
    }
  }

  lemma CompressNothing(h: Registers)
    ensures CompressAll(h, []) == h
  {}

  lemma BlocksConcat(m: seq<bv8>, p: seq<bv8>)
    requires |m| % CHUNK == 0
    ensures Blocks(m) == m && Blocks(m + p) == m + Blocks(p) && |m + p| % CHUNK == |p| % CHUNK
  {
    WholeBlocks(|m|, |p|);
    var n := |p| - |p| % CHUNK;
    assert (m + p)[..|m| + n] == m + p[..n];
  }

  lemma WholeBlocks(a: nat, b: nat)
    requires a % CHUNK == 0
    ensures (a + b) % CHUNK == b % CHUNK
  {}

  lemma AbsorbedTyped(s: State, m: seq<bv8>)
    requires Absorbed(s, m)
    ensures s.Writable() && 0 <= s.nx < CHUNK && s.len == |m| % POW64
  {}

  /** Writing p to a state that has absorbed m makes one that has absorbed m + p. */
  lemma UpdateAbsorbs(s: State, m: seq<bv8>, p: seq<bv8>)
    requires Absorbed(s, m)
    ensures Absorbed(Update(s, p), m + p)
  {
    hide CompressAll, Compress, FillBlock, AddRest, Overwrite, Absorbed;
    AbsorbedTyped(s, m);
    var n := TakeCount(s, p);
    var s1 := FillBlock(s, p);
    FillBlockAbsorbs(s, m, p);
    var len1 := (|m| + n) % POW64;
    FillBlockLen(s, p, (s.len + |p|) % POW64);
    FillBlockLen(s, p, len1);
    FillBlockEmpties(s, p);
    AddRestAbsorbs(s1.(len := len1), m + p[..n], p[n..]);
    AddRestLen(s1, p[n..], len1);
    AddRestLen(s1, p[n..], (s.len + |p|) % POW64);
    assert (m + p[..n]) + p[n..] == m + p;
    LengthModulo(|m|, |p|);
  }

  lemma LengthModulo(a: nat, b: nat)
    ensures (a % POW64 + b) % POW64 == (a + b) % POW64
  {
    var q := a / POW64;
    assert a + b == q * POW64 + (a % POW64 + b);
    AddMultiple(a % POW64 + b, q);
  }

  lemma {:induction false} AddMultiple(n: nat, q: nat)
    ensures (q * POW64 + n) % POW64 == n % POW64
    decreases q
  {
    if q > 0 {
      AddMultiple(n, q - 1);
      assert q * POW64 + n == ((q - 1) * POW64 + n) + POW64;
    }
  }

  lemma FillBlockLen(s: State, p: seq<bv8>, len: int)
    requires s.Writable() && 0 <= len < POW64
    ensures FillBlock(s.(len := len), p) == FillBlock(s, p).(len := len)
  {
    hide CompressAll, Overwrite;
  }

  lemma AddRestLen(s: State, p: seq<bv8>, len: int)
    requires s.Writable() && 0 <= len < POW64
    ensures AddRest(s.(len := len), p) == AddRest(s, p).(len := len)
  {
    hide CompressAll, Overwrite;
  }

  lemma FillBlockEmpties(s: State, p: seq<bv8>)
    requires s.Writable()
    requires 0 <= s.nx
    ensures FillBlock(s, p).nx == 0 || p[TakeCount(s, p)..] == []
  {
    hide CompressAll, Overwrite;
  }

  lemma FinalPadIsPadding(length: nat)
    ensures FinalPad(length % POW64) + BigEndian(length % POW64 * 8 % POW64, 8) == Padding(length)
  {
    hide BigEndian;
    assert length % POW64 % 64 == length % 64 by { Mod64(length); }
    assert length % POW64 * 8 % POW64 == 8 * length % POW64 by { TimesEight(length); }
  }

  lemma Mod64(length: nat)
    ensures length % POW64 % 64 == length % 64
  {
    assert length == POW64 * (length / POW64) + length % POW64;
  }

  lemma TimesEight(length: nat)
    ensures length % POW64 * 8 % POW64 == 8 * length % POW64
  {
    var q := length / POW64;
    assert 8 * length == 8 * q * POW64 + 8 * (length % POW64);
    AddMultiple(8 * (length % POW64), 8 * q);
  }

  /** The digest of a state is the RFC 3174 hash of the bytes it absorbed. */
  lemma SumIsSha1(s: State, m: seq<bv8>)
    requires Absorbed(s, m)
    ensures SumOf(s) == Sha1(m)
  {
    hide CompressAll, Update, FinalPad, Padding, BigEndian, DigestBytes;
    var pad, length := FinalPad(s.len), BigEndian(s.len * 8 % POW64, 8);
    UpdateAbsorbs(s, m, pad);
    UpdateAbsorbs(Update(s, pad), m + pad, length);
    FinalPadIsPadding(|m|);
    var whole := m + Padding(|m|);
    assert (m + pad) + length == whole;
    assert whole[..|whole|] == whole;
  }

  /** Where the buffer position is after n bytes. A negative one only gives way to what
      is left after whole blocks. */
  function NextPosition(nx: int, n: nat): int {
    if 0 <= nx then (nx + n) % CHUNK else if n % CHUNK == 0 then nx else n % CHUNK
  }

  lemma UpdatePosition(s: State, p: seq<bv8>)
    requires s.Writable()
    ensures Update(s, p).nx == NextPosition(s.nx, |p|)
    ensures Update(s, p).len == (s.len + |p|) % POW64
  {
    hide CompressAll, Overwrite;
    var n := TakeCount(s, p);
    var q := p[n..];
    var s' := FillBlock(s.(len := (s.len + |p|) % POW64), p);
    assert AddRest(s', q).nx == if |q| % CHUNK == 0 then s'.nx else |q| % CHUNK;
    if 0 < s.nx && s.nx + n == CHUNK {
      WholeBlocks(CHUNK, |q|);
    }
  }

  /** When a state can be finished: its position agrees with its length, or lies outside
      the buffer where a write ignores it, and the length is a number of whole blocks. */
  predicate Finishable(s: State) {
    if 0 <= s.nx < CHUNK then s.nx == s.len % CHUNK else s.nx <= CHUNK && s.len % CHUNK == 0
  }

  /** Of all states that a text can hold, exactly these are finished without a panic:
      neither a write slices beyond the buffer, nor is anything left in it at the end. */
  lemma FinishEmpties(s: State)
    requires s.Typed()
    ensures s.Writable() && Finish(s).nx == 0 <==> Finishable(s)
  {
    if s.Writable() {
      var pad, length := FinalPad(s.len), BigEndian(s.len * 8 % POW64, 8);
      FinalPadSize(s.len);
      PadPosition(s.nx, s.len % CHUNK, |pad|);
      hide Update, BigEndian, FinalPad, NextPosition;
      UpdatePosition(s, pad);
      UpdatePosition(Update(s, pad), length);
    }
  }

  lemma AbsorbedFinishable(s: State, m: seq<bv8>)
    requires Absorbed(s, m)
    ensures s.Writable() && Finishable(s)
  {
    hide CompressAll;
    Mod64(|m|);
  }

  lemma FinalPadSize(len: nat)
    ensures |FinalPad(len)| == if len % CHUNK < 56 then 56 - len % CHUNK else 120 - len % CHUNK
  {}

  lemma PadPosition(nx: int, r: nat, pad: nat)
    requires nx <= CHUNK && r < CHUNK
    requires pad == if r < 56 then 56 - r else 120 - r
    ensures NextPosition(NextPosition(nx, pad), 8) == 0 <==> if 0 <= nx < CHUNK then nx == r else r == 0
  {
    if nx < 0 {
      assert pad % CHUNK == 0 <==> r == 56;
    } else if nx == CHUNK {
      assert NextPosition(nx, pad) == pad % CHUNK;
    }
  }
}
