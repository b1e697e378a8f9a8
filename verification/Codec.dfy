/** Options, big-endian numbers and hexadecimal text: the alphabet in which partial
    digests are written down. */
module Codec {
  import opened Words

  datatype Option<+T> = None | Some(value: T)

  // ------------------------------------------------------------- big-endian

  function Pow256(k: nat): (p: nat)
    ensures p > 0
  {
    if k == 0 then 1 else 256 * Pow256(k - 1)
  }

  /** The k low bytes of n, most significant first. */
  function BigEndian(n: nat, k: nat): (s: seq<bv8>)
    ensures |s| == k
    decreases k
  {
    if k == 0 then [] else BigEndian(n / 256, k - 1) + [ToByte(n % 256)]
  }

  function FromBigEndian(s: seq<bv8>): nat {
    if s == [] then 0 else 256 * FromBigEndian(s[..|s| - 1]) + Value(s[|s| - 1])
  }

  lemma {:induction false} BigEndianRoundTrip(n: nat, k: nat)
    requires n < Pow256(k)
    ensures FromBigEndian(BigEndian(n, k)) == n
    decreases k
  {
    hide Value, ToByte;
    if k > 0 {
      ValueOfByte(n % 256);
      BigEndianRoundTrip(n / 256, k - 1);
      var s := BigEndian(n, k);
      assert s[..|s| - 1] == BigEndian(n / 256, k - 1);
    }
  }

  lemma {:induction false} FromBigEndianInverse(s: seq<bv8>)
    ensures FromBigEndian(s) < Pow256(|s|)
    ensures BigEndian(FromBigEndian(s), |s|) == s
  {
    hide Value, ToByte;
    if s != [] {
      ByteOfValue(s[|s| - 1]);
      var init, last := s[..|s| - 1], Value(s[|s| - 1]);
      FromBigEndianInverse(init);
      var n := FromBigEndian(s);
      assert n / 256 == FromBigEndian(init) && n % 256 == last;
      assert s == init + [s[|s| - 1]];
    }
  }

  /** Byte i of the big-endian form, as the shift that extracts it. */
  lemma {:induction false} BigEndianAt(n: nat, k: nat, i: nat)
    requires i < k
    ensures BigEndian(n, k)[i] == ToByte(n / Pow256(k - 1 - i) % 256)
    decreases k
  {
    hide ToByte;
    if i < k - 1 {
      BigEndianAt(n / 256, k - 1, i);
      DivDiv(n, 256, Pow256(k - 2 - i));
    }
  }

  lemma DivDiv(n: nat, a: nat, b: nat)
    requires a > 0 && b > 0
    ensures a * b > 0
    ensures n / a / b == n / (a * b)
  {
    var m := n / a;
    var q, s := m / b, m % b;
    var r := a * s + n % a;
    assert n == q * (a * b) + r by {
      assert n == a * m + n % a && m == q * b + s;
      Distribute(a, q * b, s);
      Regroup(a, q, b);
    }
    assert r < a * b by {
      assert s <= b - 1;
      Monotone(a, s, b - 1);
      Distribute(a, b - 1, 1);
    }
    Quotient(n, a * b, q, r);
  }

  lemma Distribute(a: int, b: int, c: int)
    ensures a * (b + c) == a * b + a * c
  {}

  lemma Regroup(a: int, q: int, b: int)
    ensures a * (q * b) == q * (a * b)
  {}

  lemma Monotone(a: nat, b: int, c: int)
    requires b <= c
    ensures a * b <= a * c
  {}

  lemma Quotient(n: int, d: int, q: int, r: int)
    requires d > 0 && n == q * d + r && 0 <= r < d
    ensures n / d == q
  {
    var p := n / d;
    if p > q {
      Monotone(d, q + 1, p);
      Distribute(d, q, 1);
    } else if p < q {
      Monotone(d, p + 1, q);
      Distribute(d, p, 1);
    }
  }

  /** The four bytes of a 32-bit word, most significant first. */
  function WordBytes(w: bv32): seq<bv8> {
    [WordByte(w, 3), WordByte(w, 2), WordByte(w, 1), WordByte(w, 0)]
  }

  function JoinBytes(a: bv8, b: bv8, c: bv8, d: bv8): bv32 {
    ((a as bv32) << 24) | ((b as bv32) << 16) | ((c as bv32) << 8) | (d as bv32)
  }

  function BytesWord(s: seq<bv8>): bv32
    requires |s| == 4
  {
    JoinBytes(s[0], s[1], s[2], s[3])
  }

  lemma WordRoundTrip(w: bv32)
    ensures BytesWord(WordBytes(w)) == w
  {}

  lemma JoinBytesParts(a: bv8, b: bv8, c: bv8, d: bv8)
    ensures WordByte(JoinBytes(a, b, c, d), 3) == a
    ensures WordByte(JoinBytes(a, b, c, d), 2) == b
    ensures WordByte(JoinBytes(a, b, c, d), 1) == c
    ensures WordByte(JoinBytes(a, b, c, d), 0) == d
  {}

  lemma BytesRoundTrip(s: seq<bv8>)
    requires |s| == 4
    ensures WordBytes(BytesWord(s)) == s
  {
    hide WordByte, JoinBytes;
    JoinBytesParts(s[0], s[1], s[2], s[3]);
  }

  // -------------------------------------------------------------- hexadecimal

  function HexDigit(n: int): char
    requires 0 <= n < 16
  {
    "0123456789abcdef"[n]
  }

  /** Both cases are read; only lower case is written. */
  function DigitValue(c: char): (r: Option<int>)
    ensures r.Some? ==> 0 <= r.value < 16
  {
    if '0' <= c <= '9' then Some(c as int - '0' as int)
    else if 'a' <= c <= 'f' then Some(c as int - 'a' as int + 10)
    else if 'A' <= c <= 'F' then Some(c as int - 'A' as int + 10)
    else None
  }

  function LowerDigit(c: char): char {
    if 'A' <= c <= 'F' then (c as int + 32) as char else c
  }

  function Lower(t: string): string {
    seq(|t|, i requires 0 <= i < |t| => LowerDigit(t[i]))
  }

  /** The digits of both cases are read, and no other character is. */
  lemma DigitsRead(i: nat, c: char)
    requires i < 16
    ensures DigitValue("0123456789abcdef"[i]) == DigitValue("0123456789ABCDEF"[i]) == Some(i)
    ensures DigitValue(c).Some? ==>
      var n := DigitValue(c).value;
      c == "0123456789abcdef"[n] || c == "0123456789ABCDEF"[n]
  {}

  lemma DigitRoundTrip(n: int)
    requires 0 <= n < 16
    ensures DigitValue(HexDigit(n)) == Some(n)
  {}

  lemma DigitInverse(c: char)
    requires DigitValue(c).Some?
    ensures HexDigit(DigitValue(c).value) == LowerDigit(c)
  {}

  function HexEncode(s: seq<bv8>): (t: string)
    ensures |t| == 2 * |s|
  {
    if s == [] then ""
    else [HexDigit(Value(s[0]) / 16), HexDigit(Value(s[0]) % 16)] + HexEncode(s[1..])
  }

  function HexDecode(t: string): Option<seq<bv8>> {
    if t == "" then Some([])
    else if |t| == 1 then None
    else
      match (DigitValue(t[0]), DigitValue(t[1]), HexDecode(t[2..]))
      case (Some(hi), Some(lo), Some(rest)) =>
        Some([ToByte(16 * hi + lo)] + rest)
      case _ => None
  }

  /** The text of a concatenation. */
  lemma {:induction false} HexConcat(s: seq<bv8>, t: seq<bv8>)
    ensures HexEncode(s + t) == HexEncode(s) + HexEncode(t)
    decreases |s|
  {
    hide HexDigit, Value;
    if s == [] {
      assert s + t == t;
    } else {
      assert (s + t)[1..] == s[1..] + t;
      HexConcat(s[1..], t);
    }
  }

  function HexByte(b: bv8): string {
    [HexDigit(Value(b) / 16), HexDigit(Value(b) % 16)]
  }

  lemma {:induction false} HexAt(s: seq<bv8>, i: nat)
    requires i < |s|
    ensures HexEncode(s)[2 * i..2 * i + 2] == HexByte(s[i])
    decreases |s|
  {
    hide HexDigit, Value;
    var t := HexEncode(s);
    assert t == HexByte(s[0]) + HexEncode(s[1..]);
    if i > 0 {
      HexAt(s[1..], i - 1);
      assert t[2 * i..2 * i + 2] == HexEncode(s[1..])[2 * (i - 1)..2 * (i - 1) + 2];
    }
  }

  lemma HexOne(b: bv8)
    ensures HexEncode([b]) == HexByte(b)
  {
    assert [b][1..] == [];
    assert HexEncode([]) == "";
  }

  lemma HexFour(a: bv8, b: bv8, c: bv8, d: bv8)
    ensures HexEncode([a, b, c, d]) == HexByte(a) + HexByte(b) + HexByte(c) + HexByte(d)
  {
    HexOne(a);
    HexOne(b);
    HexOne(c);
    HexOne(d);
    hide HexEncode, HexByte;
    HexConcat([a], [b]);
    HexConcat([a] + [b], [c]);
    HexConcat([a] + [b] + [c], [d]);
    assert [a] + [b] + [c] + [d] == [a, b, c, d];
  }

  lemma {:induction false} HexRoundTrip(s: seq<bv8>)
    ensures HexDecode(HexEncode(s)) == Some(s)
  {
    hide Value, ToByte, HexDigit, DigitValue;
    if s != [] {
      ByteOfValue(s[0]);
      var b := Value(s[0]);
      HexRoundTrip(s[1..]);
      DigitRoundTrip(b / 16);
      DigitRoundTrip(b % 16);
      var t := HexEncode(s);
      assert t[2..] == HexEncode(s[1..]);
      assert s == [s[0]] + s[1..];
    }
  }

  /** Decoding loses nothing but the case of the digits, and succeeds exactly on
      an even number of hexadecimal digits. */
  lemma {:induction false} HexInverse(t: string)
    ensures HexDecode(t).Some? <==> |t| % 2 == 0 && forall i :: 0 <= i < |t| ==> DigitValue(t[i]).Some?
    ensures HexDecode(t).Some? ==>
      2 * |HexDecode(t).value| == |t| && HexEncode(HexDecode(t).value) == Lower(t)
  {
    hide Value, ToByte, HexDigit, DigitValue, LowerDigit;
    if |t| > 1 {
      var rest := t[2..];
      HexInverse(rest);
      assert t == [t[0], t[1]] + rest;
      if HexDecode(t).Some? {
        DigitInverse(t[0]);
        DigitInverse(t[1]);
        var s := HexDecode(t).value;
        assert s[1..] == HexDecode(rest).value;
        ValueOfByte(16 * DigitValue(t[0]).value + DigitValue(t[1]).value);
        assert Value(s[0]) == 16 * DigitValue(t[0]).value + DigitValue(t[1]).value;
        assert Lower(t) == [LowerDigit(t[0]), LowerDigit(t[1])] + Lower(rest);
      }
    }
  }
}
