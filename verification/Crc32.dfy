/** The CRC-32 of crc32.go: tables filled in place, the simple and the slicing
    update loops, and the digest object that carries a partial checksum. */
module Crc32 {
  import opened Codec
  import opened Words
  import opened Crc32Spec
  import opened Crc32Tables

  const IEEE: bv32 := 0xedb8_8320
  const SLICING8_CUTOFF := 16

  function Shr8(w: bv32): bv32 { w >> 8 }

  lemma TableByte(t: seq<bv32>, poly: bv32, k: nat)
    requires |t| == 256
    requires forall i :: 0 <= i < 256 ==> t[i] == Entry(poly, k, ToByte(i))
    ensures IsTable(poly, k, t)
  {
    hide Entry;
    forall b: bv8
      ensures t[Value(b)] == Entry(poly, k, b)
    {
      ByteOfValue(b);
    }
  }

  lemma ShiftBitCases(poly: bv32, crc: bv32)
    ensures (if crc & 1 == 1 then (crc >> 1) ^ poly else crc >> 1) == ShiftBit(poly, crc)
  {}

  method SimplePopulateTable(poly: bv32, t: array<bv32>)
    requires t.Length == 256
    modifies t
    ensures IsTable(poly, 0, t[..])
  {
    hide Entry, ShiftBit, Advance;
    for i := 0 to 256
      invariant forall k :: 0 <= k < i ==> t[k] == Entry(poly, 0, ToByte(k))
    {
      var crc := i as bv32;
      EntryStart(poly, i);
      for j := 0 to 8
        modifies {}
        invariant Advance(poly, crc, 8 - j) == Entry(poly, 0, ToByte(i))
      {
        AdvanceFirst(poly, crc, 8 - j);
        ShiftBitCases(poly, crc);
        if crc & 1 == 1 {
          crc := (crc >> 1) ^ poly;
        } else {
          crc := crc >> 1;
        }
      }
      AdvanceNone(poly, crc);
      t[i] := crc;
    }
    TableByte(t[..], poly, 0);
  }

  lemma EntryStart(poly: bv32, i: int)
    requires 0 <= i < 256
    ensures Advance(poly, i as bv32, 8) == Entry(poly, 0, ToByte(i))
  {
    hide Advance;
    WidenByte(i);
  }

  lemma AdvanceFirst(poly: bv32, c: bv32, n: nat)
    requires n > 0
    ensures Advance(poly, c, n) == Advance(poly, ShiftBit(poly, c), n - 1)
  {}

  lemma AdvanceNone(poly: bv32, c: bv32)
    ensures Advance(poly, c, 0) == c
  {}

  method SimpleMakeTable(poly: bv32) returns (t: array<bv32>)
    ensures fresh(t) && IsTable(poly, 0, t[..])
  {
    t := new bv32[256];
    SimplePopulateTable(poly, t);
  }

  /** One lookup of the simple algorithm, on a table's contents. */
  lemma Lookup(poly: bv32, t: seq<bv32>, c: bv32, v: bv8)
    requires IsTable(poly, 0, t)
    ensures Xor(t[Value(LowByte(c) ^ v)], Shr8(c)) == ByteStep(poly, c, v)
  {
    hide Entry, Widen, LowByte, Advance, ByteStep;
    TableStep(poly, c, v);
    assert t[Value(LowByte(c) ^ v)] == Entry(poly, 0, LowByte(c) ^ v);
  }

  lemma NextByte(poly: bv32, c: bv32, p: seq<bv8>, i: nat)
    requires i < |p|
    ensures ByteSteps(poly, c, p[i..]) == ByteSteps(poly, ByteStep(poly, c, p[i]), p[i + 1..])
  {
    hide ByteStep;
    assert p[i..][1..] == p[i + 1..];
  }

  lemma NoBytes(poly: bv32, c: bv32)
    ensures ByteSteps(poly, c, []) == c
  {}

  method SimpleUpdate(ghost poly: bv32, crc0: bv32, tab: array<bv32>, p: seq<bv8>) returns (crc: bv32)
    requires tab.Length == 256 && IsTable(poly, 0, tab[..])
    ensures crc == Crc(poly, crc0, p)
  {
    hide *;
    crc := Not(crc0);
    CrcBytewise(poly, crc0, p);
    assert p[0..] == p;
    for i := 0 to |p|
      invariant ByteSteps(poly, crc, p[i..]) == ByteSteps(poly, Not(crc0), p)
    {
      NextByte(poly, crc, p, i);
      Lookup(poly, tab[..], crc, p[i]);
      crc := Xor(tab[Value(LowByte(crc) ^ p[i])], Shr8(crc));
    }
    NoBytes(poly, crc);
    assert p[|p|..] == [];
    crc := Not(crc);
  }

  // ---------------------------------------------------------------- slicing-by-8

  /** The eight tables, each with its own storage. */
  ghost predicate IsSlicingTable(poly: bv32, tabs: seq<array<bv32>>)
    reads set t | t in tabs
  {
    |tabs| == 8 && forall k :: 0 <= k < 8 ==> IsTable(poly, k, tabs[k][..])
  }

  lemma NextTableEntry(poly: bv32, t0: seq<bv32>, j: nat, i: int, crc: bv32)
    requires 0 <= i < 256 && IsTable(poly, 0, t0)
    requires crc == Entry(poly, j, ToByte(i))
    ensures Xor(t0[Value(LowByte(crc))], Shr8(crc)) == Entry(poly, j + 1, ToByte(i))
  {
    hide Xor, LowByte, Widen, Advance;
    NextEntry(poly, j, ToByte(i));
    assert t0[Value(LowByte(crc))] == Entry(poly, 0, LowByte(crc));
  }

  lemma FirstTableEntry(poly: bv32, t0: seq<bv32>, i: int)
    requires 0 <= i < 256 && IsTable(poly, 0, t0)
    ensures t0[i] == Entry(poly, 0, ToByte(i))
  {
    hide Entry;
    ValueOfByte(i);
    assert t0[Value(ToByte(i))] == Entry(poly, 0, ToByte(i));
  }

  ghost predicate EightTables(t: seq<array<bv32>>) {
    && |t| == 8
    && (forall k :: 0 <= k < 8 ==> t[k].Length == 256)
    && (forall j, k :: 0 <= j < k < 8 ==> t[j] != t[k])
  }

  /** Column i of tables 1 to 7, each entry from the one above it. */
  method FillColumn(poly: bv32, t: seq<array<bv32>>, i: int)
    requires EightTables(t) && 0 <= i < 256
    requires IsTable(poly, 0, t[0][..])
    modifies t[1..]
    ensures t[0][..] == old(t[0][..])
    ensures forall k :: 1 <= k < 8 ==> t[k][..] == old(t[k][..])[i := Entry(poly, k, ToByte(i))]
  {
    hide Value, LowByte, Xor, Shr8, Entry, IsTable;
    var crc := t[0][i];
    FirstTableEntry(poly, t[0][..], i);
    for j := 1 to 8
      invariant t[0][..] == old(t[0][..])
      invariant crc == Entry(poly, j - 1, ToByte(i))
      invariant forall k :: 1 <= k < j ==> t[k][..] == old(t[k][..])[i := Entry(poly, k, ToByte(i))]
      invariant forall k :: j <= k < 8 ==> t[k][..] == old(t[k][..])
    {
      NextTableEntry(poly, t[0][..], j - 1, i, crc);
      crc := Xor(t[0][Value(LowByte(crc))], Shr8(crc));
      t[j][i] := crc;
    }
  }

  method SlicingMakeTable(poly: bv32) returns (t: seq<array<bv32>>)
    ensures EightTables(t) && fresh(t)
    ensures IsSlicingTable(poly, t)
  {
    hide Value, LowByte, Xor, Shr8, Entry, IsTable;
    t := NewTables();
    SimplePopulateTable(poly, t[0]);
    for i := 0 to 256
      invariant IsTable(poly, 0, t[0][..])
      invariant forall k :: 1 <= k < 8 ==> ColumnsFilled(poly, k, t[k][..], i)
    {
      ghost var before := seq(8, k requires 0 <= k < 8 reads t => t[k][..]);
      FillColumn(poly, t, i);
      forall k | 1 <= k < 8
        ensures ColumnsFilled(poly, k, t[k][..], i + 1)
      {
        assert t[k][..] == before[k][i := Entry(poly, k, ToByte(i))];
      }
    }
    forall k | 0 <= k < 8
      ensures IsTable(poly, k, t[k][..])
    {
      if k > 0 {
        TableByte(t[k][..], poly, k);
      }
    }
  }

  ghost predicate ColumnsFilled(poly: bv32, k: nat, s: seq<bv32>, n: int) {
    |s| == 256 && 0 <= n <= 256 && forall i :: 0 <= i < n ==> s[i] == Entry(poly, k, ToByte(i))
  }

  method NewTables() returns (t: seq<array<bv32>>)
    ensures EightTables(t) && fresh(t)
  {
    t := [];
    while |t| < 8
      invariant |t| <= 8 && fresh(t)
      invariant forall k :: 0 <= k < |t| ==> t[k].Length == 256
      invariant forall j, k :: 0 <= j < k < |t| ==> t[j] != t[k]
    {
      var row := new bv32[256];
      t := t + [row];
    }
  }

  /** The first four bytes as the word they are xored in as. */
  function LoadWord(p: seq<bv8>): bv32
    requires |p| >= 4
  {
    (p[0] as bv32) | ((p[1] as bv32) << 8) | ((p[2] as bv32) << 16) | ((p[3] as bv32) << 24)
  }

  lemma LoadWordBits(a: bv8, b: bv8, c: bv8, d: bv8)
    ensures (a as bv32) | ((b as bv32) << 8) | ((c as bv32) << 16) | ((d as bv32) << 24)
         == (a as bv32) ^ (((b as bv32) ^ (((c as bv32) ^ ((d as bv32) << 8)) << 8)) << 8)
  {}

  lemma LoadWordIsLittleEndian(p: seq<bv8>)
    requires |p| >= 4
    ensures LoadWord(p) == LittleEndian(p[0], p[1], p[2], p[3])
  {
    LoadWordBits(p[0], p[1], p[2], p[3]);
  }

  /** Exclusive-or of eight words in the order the lookups are written. */
  function XorAll(t0: bv32, t1: bv32, t2: bv32, t3: bv32, t4: bv32, t5: bv32, t6: bv32, t7: bv32): bv32 {
    Xor(Xor(Xor(Xor(Xor(Xor(Xor(t0, t1), t2), t3), t4), t5), t6), t7)
  }

  lemma XorAllRegroup(t0: bv32, t1: bv32, t2: bv32, t3: bv32, t4: bv32, t5: bv32, t6: bv32, t7: bv32)
    ensures XorAll(t0, t1, t2, t3, t4, t5, t6, t7)
         == Xor(Xor(t7, Xor(t6, Xor(t5, t4))), Xor(t3, Xor(t2, Xor(t1, t0))))
  {
    hide Xor;
    var a := Xor(Xor(Xor(t0, t1), t2), t3);
    XorComm(t0, t1);
    XorComm(Xor(t1, t0), t2);
    XorComm(Xor(t2, Xor(t1, t0)), t3);
    assert a == Xor(t3, Xor(t2, Xor(t1, t0)));
    var b := Xor(t7, Xor(t6, Xor(t5, t4)));
    XorComm(t4, t5);
    XorComm(Xor(t5, t4), t6);
    XorComm(Xor(t6, Xor(t5, t4)), t7);
    assert b == Xor(Xor(Xor(t4, t5), t6), t7);
    XorAssoc(a, t4, t5);
    XorAssoc(a, Xor(t4, t5), t6);
    XorAssoc(a, Xor(Xor(t4, t5), t6), t7);
    XorComm(a, b);
  }

  lemma Slice(poly: bv32, tabs: seq<array<bv32>>, c: bv32, p: seq<bv8>)
    requires IsSlicingTable(poly, tabs) && |p| == 8
    ensures
      var w := Xor(c, LoadWord(p));
      XorAll(tabs[0][Value(p[7])], tabs[1][Value(p[6])], tabs[2][Value(p[5])], tabs[3][Value(p[4])],
             tabs[4][Value(WordByte(w, 3))], tabs[5][Value(WordByte(w, 2))],
             tabs[6][Value(WordByte(w, 1))], tabs[7][Value(WordByte(w, 0))])
      == ByteSteps(poly, c, p)
  {
    hide Xor, Entry, LoadWord, LittleEndian, WordByte, ByteSteps, XorAll, Value;
    LoadWordIsLittleEndian(p);
    var w := Xor(c, LoadWord(p));
    SliceStep(poly, c, p);
    forall k, b | 0 <= k < 8
      ensures tabs[k][Value(b)] == Entry(poly, k, b)
    {
      assert tabs[k][..][Value(b)] == Entry(poly, k, b);
    }
    XorAllRegroup(tabs[0][Value(p[7])], tabs[1][Value(p[6])], tabs[2][Value(p[5])], tabs[3][Value(p[4])],
                  tabs[4][Value(WordByte(w, 3))], tabs[5][Value(WordByte(w, 2))],
                  tabs[6][Value(WordByte(w, 1))], tabs[7][Value(WordByte(w, 0))]);
  }

  lemma NextEight(poly: bv32, c: bv32, p: seq<bv8>)
    requires |p| >= 8
    ensures ByteSteps(poly, c, p) == ByteSteps(poly, ByteSteps(poly, c, p[..8]), p[8..])
  {
    hide ByteSteps;
    assert p == p[..8] + p[8..];
    ByteStepsConcat(poly, c, p[..8], p[8..]);
  }

  /** Eight bytes at a time while more than eight are left, the rest one by one. */
  method SlicingUpdate(ghost poly: bv32, crc0: bv32, tab: seq<array<bv32>>, p0: seq<bv8>) returns (crc: bv32)
    requires IsSlicingTable(poly, tab)
    ensures crc == Crc(poly, crc0, p0)
  {
    hide Xor, Not, Value, WordByte, LoadWord, XorAll, ByteSteps, Crc, IsTable;
    assert forall k :: 0 <= k < 8 ==> tab[k].Length == 256 by { TableSizes(poly, tab); }
    crc := crc0;
    var p := p0;
    CrcBytewise(poly, crc0, p0);
    if |p| >= SLICING8_CUTOFF {
      crc := Not(crc);
      while |p| > 8
        invariant ByteSteps(poly, crc, p) == ByteSteps(poly, Not(crc0), p0)
      {
        Slice(poly, tab, crc, p[..8]);
        NextEight(poly, crc, p);
        assert LoadWord(p[..8]) == LoadWord(p) by { LoadWordPrefix(p); }
        crc := Xor(crc, LoadWord(p));
        crc := XorAll(tab[0][Value(p[7])], tab[1][Value(p[6])], tab[2][Value(p[5])], tab[3][Value(p[4])],
                      tab[4][Value(WordByte(crc, 3))], tab[5][Value(WordByte(crc, 2))],
                      tab[6][Value(WordByte(crc, 1))], tab[7][Value(WordByte(crc, 0))]);
        p := p[8..];
      }
      NotNot(crc);
      crc := Not(crc);
    }
    CrcBytewise(poly, crc, p);
    if |p| == 0 {
      CrcNothing(poly, crc);
      return;
    }
    crc := SimpleUpdate(poly, crc, tab[0], p);
  }

  lemma LoadWordPrefix(p: seq<bv8>)
    requires |p| >= 8
    ensures LoadWord(p[..8]) == LoadWord(p)
  {}

  lemma TableSizes(poly: bv32, tab: seq<array<bv32>>)
    requires IsSlicingTable(poly, tab)
    ensures forall k :: 0 <= k < 8 ==> tab[k].Length == 256
  {
    hide Entry;
    forall k | 0 <= k < 8
      ensures tab[k].Length == 256
    {
      assert |tab[k][..]| == 256;
    }
  }

  // --------------------------------------------------------------- the digest

  /** The package variables: the IEEE table and its slicing form. */
  class IeeeTables {
    const table: array<bv32>
    const slicing: seq<array<bv32>>

    ghost predicate Valid()
      reads table, slicing
    {
      table.Length == 256 && IsTable(IEEE, 0, table[..]) && IsSlicingTable(IEEE, slicing)
    }

    constructor ()
      ensures Valid()
    {
      var t := SimpleMakeTable(IEEE);
      var s := SlicingMakeTable(IEEE);
      table := t;
      slicing := s;
    }
  }

  class Crc32Digest {
    const lib: IeeeTables
    var crc: bv32
    var tab: array<bv32>

    /** The digest works over the polynomial poly. */
    ghost predicate Over(poly: bv32)
      reads this, tab, lib.table, lib.slicing
    {
      && lib.Valid()
      && tab.Length == 256 && IsTable(poly, 0, tab[..])
      && (tab == lib.table ==> poly == IEEE)
    }

    constructor (lib: IeeeTables, tab: array<bv32>)
      ensures crc == 0 && this.tab == tab && this.lib == lib
    {
      this.lib := lib;
      this.crc := 0;
      this.tab := tab;
    }

    /** The IEEE table takes the fast path, every other table the simple one; both
        append p to the checksummed message. */
    method Write(ghost poly: bv32, p: seq<bv8>)
      requires Over(poly)
      modifies this`crc
      ensures Over(poly)
      ensures crc == Crc(poly, old(crc), p)
    {
      hide Crc, IsTable, IsSlicingTable;
      if tab == lib.table {
        crc := SlicingUpdate(IEEE, crc, lib.slicing, p);
      } else {
        crc := SimpleUpdate(poly, crc, tab, p);
      }
    }

    method Sum(prefix: seq<bv8>) returns (sum: seq<bv8>)
      ensures sum == prefix + WordBytes(crc)
    {
      sum := prefix + [WordByte(crc, 3), WordByte(crc, 2), WordByte(crc, 1), WordByte(crc, 0)];
    }
  }
}
