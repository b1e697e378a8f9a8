/** Integers in decimal, as strconv and fmt print and parse them. */
module Text {
  import opened Codec

  const MAX := 0x7fff_ffff_ffff_ffff

  type Int64 = x: int | -MAX - 1 <= x <= MAX

  /** What 64 bits make of a number. */
  function Wrap(i: int): (r: Int64)
    ensures (r - i) % 0x1_0000_0000_0000_0000 == 0
    ensures -MAX - 1 <= i <= MAX ==> r == i
  {
    (i + MAX + 1) % 0x1_0000_0000_0000_0000 - MAX - 1
  }

  predicate IsDigit(c: char) {
    '0' <= c <= '9'
  }

  predicate AllDigits(s: string) {
    forall c :: c in s ==> IsDigit(c)
  }

  /** The number that a string of digits stands for. */
  function Number(s: string): nat
    requires AllDigits(s)
  {
    if s == [] then 0
    else
      assert s[|s| - 1] in s;
      10 * Number(s[..|s| - 1]) + (s[|s| - 1] as int - '0' as int)
  }

  function Abs(i: int): nat {
    if i < 0 then -i else i
  }

  function Sign(i: int): string {
    if i < 0 then "-" else ""
  }

  function Digits(n: nat): (s: string)
    ensures s != [] && AllDigits(s)
    ensures s[0] == '0' <==> n == 0
  {
    if n < 10 then [(n + '0' as int) as char] else Digits(n / 10) + [(n % 10 + '0' as int) as char]
  }

  lemma {:induction false} NumberOfDigits(n: nat)
    ensures Number(Digits(n)) == n
  {
    if n < 10 {
      assert Digits(n)[..0] == [];
    } else {
      var d := (n % 10 + '0' as int) as char;
      assert (Digits(n / 10) + [d])[..|Digits(n / 10)|] == Digits(n / 10);
      NumberOfDigits(n / 10);
    }
  }

  /** n zeros. */
  function Zeros(n: nat): (s: string)
    ensures |s| == n && AllDigits(s) && forall c :: c in s ==> c == '0'
  {
    seq(n, _ => '0')
  }

  /** Zeros in front change nothing. */
  lemma {:induction false} NumberOfPadded(n: nat, s: string)
    requires AllDigits(s)
    ensures AllDigits(Zeros(n) + s) && Number(Zeros(n) + s) == Number(s)
    decreases n + |s|
  {
    if s == [] {
      assert Zeros(n) + s == Zeros(n);
      if n > 0 {
        assert Zeros(n)[..n - 1] == Zeros(n - 1) + [];
        NumberOfPadded(n - 1, []);
      }
    } else {
      assert (Zeros(n) + s)[..n + |s| - 1] == Zeros(n) + s[..|s| - 1];
      NumberOfPadded(n, s[..|s| - 1]);
    }
  }

  /** Strings of digits of one length stand for different numbers. */
  lemma {:induction false} NumberInjective(s: string, t: string)
    requires AllDigits(s) && AllDigits(t) && |s| == |t| && Number(s) == Number(t)
    ensures s == t
    decreases |s|
  {
    if s != [] {
      var n := |s| - 1;
      assert s[n] in s && t[n] in t;
      assert s == s[..n] + [s[n]] && t == t[..n] + [t[n]];
      NumberInjective(s[..n], t[..n]);
    }
  }

  /** Dropping the last digit divides by ten. */
  lemma NumberOfInit(s: string)
    requires s != [] && AllDigits(s)
    ensures AllDigits(s[..|s| - 1]) && Number(s[..|s| - 1]) == Number(s) / 10
  {
    assert s[|s| - 1] in s;
  }

  lemma {:induction false} DigitsLength(n: nat, k: nat)
    requires n < Power10(k) && k > 0
    ensures |Digits(n)| <= k
    decreases k
  {
    if n >= 10 {
      assert Power10(k) == 10 * Power10(k - 1);
      DigitsLength(n / 10, k - 1);
    }
  }

  function Power10(k: nat): nat {
    if k == 0 then 1 else 10 * Power10(k - 1)
  }

  /** strconv.FormatInt in base 10. */
  function FormatInt(i: int): string {
    Sign(i) + Digits(Abs(i))
  }

  /** The zeros it takes to fill up a width. */
  function Padding(i: int, width: nat): string {
    var missing := width - |Sign(i)| - |Digits(Abs(i))|;
    Zeros(if missing < 0 then 0 else missing)
  }

  /** fmt's verb d with the flag 0 and a width: the sign counts. */
  function FormatPadded(i: int, width: nat): string {
    Sign(i) + Padding(i, width) + Digits(Abs(i))
  }

  predicate Signed(s: string) {
    s != [] && (s[0] == '-' || s[0] == '+')
  }

  /** strconv.ParseInt in base 10 for 64 bits. */
  function ParseInt(s: string): Option<int> {
    var body := if Signed(s) then s[1..] else s;
    if body == [] || !AllDigits(body) then None
    else
      var i: int := if s[0] == '-' then 0 - Number(body) else Number(body);
      if -MAX - 1 <= i <= MAX then Some(i) else None
  }

  /** strconv.ParseUint in base 10 for 64 bits: no sign. */
  function ParseUint(s: string): Option<nat> {
    if s == [] || !AllDigits(s) || Number(s) >= 0x1_0000_0000_0000_0000 then None else Some(Number(s))
  }

  lemma ParseSigned(body: string, negative: bool)
    requires body != [] && AllDigits(body)
    ensures
      var i: int := if negative then 0 - Number(body) else Number(body);
      ParseInt((if negative then "-" else "") + body) == if -MAX - 1 <= i <= MAX then Some(i) else None
  {
    assert IsDigit(body[0]) by {
      assert body[0] in body;
    }
    if negative {
      assert ("-" + body)[1..] == body;
    } else {
      assert "" + body == body;
    }
  }

  lemma SignInFront(sign: char, digits: string)
    requires digits != [] && AllDigits(digits) && (sign == '+' || sign == '-')
    ensures (
      var i: int := if sign == '-' then 0 - Number(digits) else Number(digits);
      ParseInt([sign] + digits) == if -MAX - 1 <= i <= MAX then Some(i) else None)
    ensures !AllDigits([sign] + digits) && AllDigits(digits) && !Signed(digits)
  {
    var s := [sign] + digits;
    assert s[1..] == digits;
    assert s[0] in s && digits[0] in digits;
    hide Number;
  }

  /** A sign may stand in front where a signed number is read; an unsigned one has none, and
      may be as large as 64 bits allow. */
  lemma ParseSigns(n: nat)
    ensures ParseInt("+" + Digits(n)) == if n <= MAX then Some(n) else None
    ensures
      var i: int := 0 - n;
      ParseInt("-" + Digits(n)) == if n <= MAX + 1 then Some(i) else None
    ensures ParseUint(Digits(n)) == if n < 0x1_0000_0000_0000_0000 then Some(n) else None
    ensures ParseUint("+" + Digits(n)) == None && ParseUint("-" + Digits(n)) == None
  {
    NumberOfDigits(n);
    SignInFront('+', Digits(n));
    SignInFront('-', Digits(n));
    hide Digits, Number, ParseInt, AllDigits;
  }

  lemma ParsePadded(i: Int64, zeros: nat)
    ensures ParseInt(Sign(i) + (Zeros(zeros) + Digits(Abs(i)))) == Some(i)
  {
    NumberOfDigits(Abs(i));
    NumberOfPadded(zeros, Digits(Abs(i)));
    hide ParseInt, Digits, Number, Zeros;
    ParseSigned(Zeros(zeros) + Digits(Abs(i)), i < 0);
  }

  /** Printing and parsing, with any padding. */
  lemma ParseFormatted(i: Int64, width: nat)
    ensures ParseInt(FormatInt(i)) == Some(i)
    ensures ParseInt(FormatPadded(i, width)) == Some(i)
  {
    hide Digits, ParseInt;
    var zeros := |Padding(i, width)|;
    assert FormatPadded(i, width) == Sign(i) + (Zeros(zeros) + Digits(Abs(i)));
    assert FormatInt(i) == Sign(i) + (Zeros(0) + Digits(Abs(i)));
    hide FormatInt, FormatPadded;
    ParsePadded(i, zeros);
    ParsePadded(i, 0);
  }
}
