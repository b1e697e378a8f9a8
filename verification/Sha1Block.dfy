/** The compression of sha1.go: a circular schedule of sixteen words and four kinds
    of rounds, against the 80-word schedule of RFC 3174. */
module Sha1Block {
  import opened Codec
  import opened Words
  import opened Sha1Spec

  /** The circular array holds the last sixteen schedule words below i. */
  ghost predicate Window(w: seq<bv32>, chunk: seq<bv8>, i: nat)
    requires |chunk| == CHUNK
  {
    |w| == 16 && forall k: nat :: i - 16 <= k < i ==> w[k % 16] == W(chunk, k)
  }

  lemma OtherSlot(i: nat, k: nat)
    requires i - 16 < k < i
    ensures k % 16 != i % 16
  {}

  lemma SlideWindow(w: seq<bv32>, chunk: seq<bv8>, i: nat, v: bv32)
    requires |chunk| == CHUNK
    requires Window(w, chunk, i) && v == W(chunk, i)
    ensures Window(w[i % 16 := v], chunk, i + 1)
  {
    hide W;
    var w' := w[i % 16 := v];
    forall k: nat | i - 15 <= k < i + 1
      ensures w'[k % 16] == W(chunk, k)
    {
      if k < i {
        OtherSlot(i, k);
      }
    }
  }

  lemma WindowAt(w: seq<bv32>, chunk: seq<bv8>, i: nat, k: nat)
    requires |chunk| == CHUNK
    requires Window(w, chunk, i) && i - 16 <= k < i
    ensures |w| == 16 && w[k % 16] == W(chunk, k)
  {
    hide W;
  }

  /** The slot of word i holds word i - 16 until word i replaces it. */
  lemma CircularStep(w: seq<bv32>, chunk: seq<bv8>, i: nat)
    requires |chunk| == CHUNK && i >= 16 && |w| == 16
    requires Window(w, chunk, i)
    ensures
      var v := Rotl1(Xor(Xor(Xor(w[(i - 3) % 16], w[(i - 8) % 16]), w[(i - 14) % 16]), w[i % 16]));
      v == W(chunk, i) && Window(w[i % 16 := v], chunk, i + 1)
  {
    hide Rotl1, Xor, BytesWord, Window;
    assert (i - 16) % 16 == i % 16;
    WindowAt(w, chunk, i, i - 3);
    WindowAt(w, chunk, i, i - 8);
    WindowAt(w, chunk, i, i - 14);
    WindowAt(w, chunk, i, i - 16);
    SlideWindow(w, chunk, i, W(chunk, i));
  }

  lemma MajorityForms(b: bv32, c: bv32, d: bv32)
    ensures ((b | c) & d) | (b & c) == (b & c) | (b & d) | (c & d)
  {}

  function MajorityFast(b: bv32, c: bv32, d: bv32): bv32 { ((b | c) & d) | (b & c) }

  lemma MajorityFastIsMajority(b: bv32, c: bv32, d: bv32)
    ensures MajorityFast(b, c, d) == Majority(b, c, d)
  {
    MajorityForms(b, c, d);
  }

  /** One pass of the code's parallel assignment, given its f and its constant. */
  lemma OneRound(chunk: seq<bv8>, h: Registers, i: nat, r: Registers, f: bv32)
    requires |chunk| == CHUNK
    requires r == Rounds(chunk, h, i)
    requires f == F(i, r.b, r.c, r.d)
    ensures Registers(Add(Add(Add(Add(Rotl5(r.a), f), r.e), W(chunk, i)), K(i)), r.a, Rotl30(r.b), r.c, r.d)
         == Rounds(chunk, h, i + 1)
  {
    hide Add, Rotl5, Rotl30, F, K, W;
  }

  /** Replaces the oldest word of the circular schedule by the next one. */
  method NextWord(w: array<bv32>, ghost chunk: seq<bv8>, i: nat)
    requires |chunk| == CHUNK && i >= 16 && w.Length == 16
    requires Window(w[..], chunk, i)
    modifies w
    ensures Window(w[..], chunk, i + 1) && w[i % 16] == W(chunk, i)
  {
    hide Rotl1, Xor, W, Window;
    CircularStep(w[..], chunk, i);
    var tmp := Xor(Xor(Xor(w[(i - 3) % 16], w[(i - 8) % 16]), w[(i - 14) % 16]), w[i % 16]);
    w[i % 16] := Rotl1(tmp);
  }

  method BlockRounds(h: Registers, p: seq<bv8>) returns (r: Registers)
    requires |p| == CHUNK
    ensures r == Rounds(p, h, 80)
  {
    hide Add, Rotl1, Rotl5, Rotl30, Xor, Choose, Parity, Majority, MajorityFast, W, Rounds, BytesWord, Window;
    var w := new bv32[16];
    for i := 0 to 16
      invariant forall k :: 0 <= k < i ==> w[k] == BytesWord(p[4 * k..4 * k + 4])
    {
      var j := i * 4;
      w[i] := BytesWord(p[j..j + 4]);
    }
    FirstWindow(w[..], p);

    var a, b, c, d, e := h.a, h.b, h.c, h.d, h.e;
    var i := 0;
    NoRounds(p, h);
    while i < 16
      invariant 0 <= i <= 16
      invariant Window(w[..], p, 16)
      invariant Registers(a, b, c, d, e) == Rounds(p, h, i)
    {
      var f := Choose(b, c, d);
      OneRound(p, h, i, Registers(a, b, c, d, e), f);
      WindowAt(w[..], p, 16, i);
      var t := Add(Add(Add(Add(Rotl5(a), f), e), w[i % 16]), 0x5A827999);
      a, b, c, d, e := t, a, Rotl30(b), c, d;
      i := i + 1;
    }
    while i < 20
      invariant 16 <= i <= 20
      invariant Window(w[..], p, i)
      invariant Registers(a, b, c, d, e) == Rounds(p, h, i)
    {
      NextWord(w, p, i);
      var f := Choose(b, c, d);
      OneRound(p, h, i, Registers(a, b, c, d, e), f);
      var t := Add(Add(Add(Add(Rotl5(a), f), e), w[i % 16]), 0x5A827999);
      a, b, c, d, e := t, a, Rotl30(b), c, d;
      i := i + 1;
    }
    while i < 40
      invariant 20 <= i <= 40
      invariant Window(w[..], p, i)
      invariant Registers(a, b, c, d, e) == Rounds(p, h, i)
    {
      NextWord(w, p, i);
      var f := Parity(b, c, d);
      OneRound(p, h, i, Registers(a, b, c, d, e), f);
      var t := Add(Add(Add(Add(Rotl5(a), f), e), w[i % 16]), 0x6ED9EBA1);
      a, b, c, d, e := t, a, Rotl30(b), c, d;
      i := i + 1;
    }
    while i < 60
      invariant 40 <= i <= 60
      invariant Window(w[..], p, i)
      invariant Registers(a, b, c, d, e) == Rounds(p, h, i)
    {
      NextWord(w, p, i);
      var f := MajorityFast(b, c, d);
      MajorityFastIsMajority(b, c, d);
      OneRound(p, h, i, Registers(a, b, c, d, e), f);
      var t := Add(Add(Add(Add(Rotl5(a), f), e), w[i % 16]), 0x8F1BBCDC);
      a, b, c, d, e := t, a, Rotl30(b), c, d;
      i := i + 1;
    }
    while i < 80
      invariant 60 <= i <= 80
      invariant Window(w[..], p, i)
      invariant Registers(a, b, c, d, e) == Rounds(p, h, i)
    {
      NextWord(w, p, i);
      var f := Parity(b, c, d);
      OneRound(p, h, i, Registers(a, b, c, d, e), f);
      var t := Add(Add(Add(Add(Rotl5(a), f), e), w[i % 16]), 0xCA62C1D6);
      a, b, c, d, e := t, a, Rotl30(b), c, d;
      i := i + 1;
    }
    r := Registers(a, b, c, d, e);
  }

  lemma NoRounds(chunk: seq<bv8>, h: Registers)
    requires |chunk| == CHUNK
    ensures Rounds(chunk, h, 0) == h
  {}

  lemma FirstWindow(w: seq<bv32>, chunk: seq<bv8>)
    requires |chunk| == CHUNK && |w| == 16
    requires forall k :: 0 <= k < 16 ==> w[k] == BytesWord(chunk[4 * k..4 * k + 4])
    ensures Window(w, chunk, 16)
  {
    hide BytesWord;
  }
}
