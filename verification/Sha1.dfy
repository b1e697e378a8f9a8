/** The SHA-1 digest object of sha1.go: fields updated in place by Write, copied and
    finished by Sum. */
module Sha1 {
  import opened Codec
  import opened Words
  import opened Sha1Spec
  import opened Sha1State
  import opened Sha1Block

  class Sha1Digest {
    const h: array<bv32>
    const x: array<bv8>
    var nx: int
    var len: int

    ghost predicate Sized()
      reads this
    {
      h.Length == 5 && x.Length == CHUNK
    }

    ghost predicate Valid()
      reads this, h, x
    {
      Sized() && Value().Writable()
    }

    function Registers(): Registers
      requires h.Length == 5
      reads h
    {
      Sha1Spec.Registers(h[0], h[1], h[2], h[3], h[4])
    }

    ghost function Value(): (s: State)
      requires Sized()
      reads this, h, x
    {
      State(Registers(), x[..], nx, len)
    }

    constructor ()
      ensures Valid() && Value() == FRESH
      ensures fresh(h) && fresh(x)
    {
      h := new bv32[5];
      x := new bv8[CHUNK](_ => 0);
      new;
      Reset();
      assert x[..] == Zeros(CHUNK);
    }

    method Reset()
      requires h.Length == 5
      modifies this, h
      ensures Registers() == INITIAL && nx == 0 && len == 0
    {
      h[0] := 0x67452301;
      h[1] := 0xEFCDAB89;
      h[2] := 0x98BADCFE;
      h[3] := 0x10325476;
      h[4] := 0xC3D2E1F0;
      nx := 0;
      len := 0;
    }

    /** Compresses the whole blocks of p. */
    method Block(p0: seq<bv8>)
      requires h.Length == 5 && |p0| % CHUNK == 0
      modifies h
      ensures Registers() == CompressAll(old(Registers()), p0)
    {
      hide Compress, Rounds;
      var p := p0;
      var r := Registers();
      while |p| >= CHUNK
        invariant |p| % CHUNK == 0 && Registers() == old(Registers())
        invariant CompressAll(r, p) == CompressAll(Registers(), p0)
      {
        var s := BlockRounds(r, p[..CHUNK]);
        CompressFromRounds(r, p[..CHUNK]);
        r := Sha1Spec.Registers(Add(r.a, s.a), Add(r.b, s.b), Add(r.c, s.c), Add(r.d, s.d), Add(r.e, s.e));
        p := p[CHUNK..];
      }
      assert p == [];
      h[0], h[1], h[2], h[3], h[4] := r.a, r.b, r.c, r.d, r.e;
    }

    method Write(p0: seq<bv8>) returns (nn: int)
      requires Valid()
      modifies this, h, x
      ensures Valid() && Value() == Update(old(Value()), p0)
      ensures nn == |p0|
    {
      hide CompressAll, FillBlock, AddRest;
      nn := |p0|;
      len := (len + nn) % POW64;
      var n := Fill(p0);
      AddBlocks(p0[n..]);
    }

    /** The first part of Write: completes a block that is already begun. */
    method Fill(p: seq<bv8>) returns (n: nat)
      requires Valid()
      modifies this, h, x
      ensures Valid() && n == TakeCount(old(Value()), p)
      ensures Value() == FillBlock(old(Value()), p)
    {
      hide CompressAll, Overwrite;
      n := 0;
      if nx > 0 {
        n := Copy(x, nx, p);
        nx := nx + n;
        if nx == CHUNK {
          Block(x[..]);
          nx := 0;
        }
      }
    }

    /** The rest of Write: whole blocks from the input, then the tail. */
    method AddBlocks(p0: seq<bv8>)
      requires Valid()
      modifies this, h, x
      ensures Valid() && Value() == AddRest(old(Value()), p0)
    {
      hide Compress, Overwrite;
      var p := p0;
      if |p| >= CHUNK {
        var n := |p| - |p| % CHUNK;
        Block(p[..n]);
        p := p[n..];
      }
      if |p| > 0 {
        assert p[..|p|] == p;
        nx := Copy(x, 0, p);
      }
    }

    /** A copy of the state is padded and finished, so writing can go on. */
    method Sum(prefix: seq<bv8>) returns (sum: seq<bv8>)
      requires Valid() && Finishable(Value())
      ensures sum == prefix + SumOf(Value())
    {
      var d := new Sha1Digest.CopyOf(this);
      var hash := d.CheckSum();
      sum := prefix + hash;
    }

    constructor CopyOf(d: Sha1Digest)
      requires d.Valid()
      ensures Valid() && Value() == d.Value()
      ensures fresh(h) && fresh(x)
    {
      h := new bv32[5](i requires 0 <= i < 5 reads d.h => d.h[i]);
      x := new bv8[CHUNK](i requires 0 <= i < CHUNK reads d.x => d.x[i]);
      nx := d.nx;
      len := d.len;
      new;
      assert x[..] == d.x[..];
    }

    method CheckSum() returns (digest: seq<bv8>)
      requires Valid() && Finishable(Value())
      modifies this, h, x
      ensures digest == SumOf(old(Value()))
      ensures Valid() && Value() == Finish(old(Value())) && nx == 0
    {
      hide Update, CompressAll;
      ghost var s := Value();
      var bits := len;
      var tmp := [0x80] + Zeros(63);
      FinishEmpties(s);
      if bits % 64 < 56 {
        assert tmp[..56 - bits % 64] == FinalPad(bits);
        var _ := Write(tmp[..56 - bits % 64]);
      } else {
        assert tmp[..64 + 56 - bits % 64] == FinalPad(bits);
        var _ := Write(tmp[..64 + 56 - bits % 64]);
      }
      bits := bits * 8 % POW64;
      var length := LengthBytes(bits);
      var _ := Write(length);
      digest := WordBytes(h[0]) + WordBytes(h[1]) + WordBytes(h[2]) + WordBytes(h[3]) + WordBytes(h[4]);
    }
  }

  lemma CompressFromRounds(h: Registers, chunk: seq<bv8>)
    requires |chunk| == CHUNK
    ensures
      var r := Rounds(chunk, h, 80);
      Compress(h, chunk) == Registers(Add(h.a, r.a), Add(h.b, r.b), Add(h.c, r.c), Add(h.d, r.d), Add(h.e, r.e))
  {}

  /** Go's copy: as much of p as fits from position at on. */
  method Copy(x: array<bv8>, at: nat, p: seq<bv8>) returns (n: nat)
    requires at <= x.Length
    modifies x
    ensures n == Min(x.Length - at, |p|)
    ensures x[..] == Overwrite(old(x[..]), at, p[..n])
  {
    n := Min(x.Length - at, |p|);
    for i := 0 to n
      invariant forall k :: 0 <= k < i ==> x[at + k] == p[k]
      invariant forall k :: 0 <= k < x.Length && !(at <= k < at + i) ==> x[k] == old(x[k])
    {
      x[at + i] := p[i];
    }
  }

  /** The eight shifted bytes of the length are its big-endian form. */
  method LengthBytes(n: nat) returns (tmp: seq<bv8>)
    ensures tmp == BigEndian(n, 8)
  {
    tmp := [];
    for i := 0 to 8
      invariant tmp == BigEndian(n, 8)[..i]
    {
      BigEndianAt(n, 8, i);
      tmp := tmp + [ToByte(n / Pow256(7 - i) % 256)];
    }
  }
}
