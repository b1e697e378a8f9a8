/** The size of a chunk on the command line and in the configuration. */
module ChunkSize {
  import opened Codec
  import opened Text

  const K := 1024
  const M := 1024 * 1024
  const G := 1024 * 1024 * 1024

  datatype Parsed = Size(value: Int64) | Invalid | Panics

  function Unit(c: char): int {
    if c == 'K' then K else if c == 'M' then M else if c == 'G' then G else 1
  }

  /** The last byte of the value is its unit; of an empty value there is none to look at. */
  function Parse(value: string): Parsed {
    if value == [] then Panics
    else
      var unit := Unit(value[|value| - 1]);
      var number := ParseInt(if unit == 1 then value else value[..|value| - 1]);
      if number.None? then Invalid else Size(Wrap(number.value * unit))
  }

  function Print(i: Int64): string {
    if i == 0 then "0"
    else if i % G == 0 then FormatInt(i / G) + "G"
    else if i % M == 0 then FormatInt(i / M) + "M"
    else if i % K == 0 then FormatInt(i / K) + "K"
    else FormatInt(i)
  }

  /** A size as a flag or a setting. */
  class Flag {
    var size: Int64

    constructor ()
      ensures size == 0
    {
      size := 0;
    }

    /** Sets the size from its text; a text that does not parse leaves it alone. */
    method Set(value: string) returns (ok: bool)
      requires value != []
      modifies this
      ensures ok <==> Parse(value).Size?
      ensures size == if ok then Parse(value).value else old(size)
    {
      var unit := 1;
      var text := value;
      var last := value[|value| - 1];
      if last == 'K' || last == 'M' || last == 'G' {
        text := value[..|value| - 1];
        unit := if last == 'K' then K else if last == 'M' then M else G;
      }
      var number := ParseInt(text);
      if number.None? {
        return false;
      }
      size := Wrap(number.value * unit);
      ok := true;
    }

    method String() returns (text: string)
      ensures text == Print(size)
    {
      if size == 0 {
        return "0";
      }
      var i := size;
      var postfix := "";
      if i % G == 0 {
        i, postfix := i / G, "G";
      } else if i % M == 0 {
        i, postfix := i / M, "M";
      } else if i % K == 0 {
        i, postfix := i / K, "K";
      }
      text := FormatInt(i) + postfix;
    }
  }

  lemma ParseUnit(n: Int64, unit: char)
    requires Unit(unit) != 1
    ensures Parse(FormatInt(n) + [unit]) == Size(Wrap(n * Unit(unit)))
  {
    var value := FormatInt(n) + [unit];
    assert value[..|value| - 1] == FormatInt(n);
    ParseFormatted(n, 0);
  }

  lemma LastIsDigit(n: int)
    ensures FormatInt(n) != [] && IsDigit(FormatInt(n)[|FormatInt(n)| - 1])
  {
    var digits := Digits(Abs(n));
    assert digits[|digits| - 1] in digits;
    assert FormatInt(n)[|FormatInt(n)| - 1] == digits[|digits| - 1];
  }

  lemma ParsePlain(n: Int64)
    ensures Parse(FormatInt(n)) == Size(n)
  {
    LastIsDigit(n);
    ParseFormatted(n, 0);
    hide FormatInt, ParseInt;
  }

  /** A size that is printed is read back as it was, for every 64-bit size. */
  lemma ParsePrinted(i: Int64)
    ensures Parse(Print(i)) == Size(i)
  {
    hide Parse, FormatInt;
    if i == 0 {
      ParsePlain(0);
      assert FormatInt(0) == "0" by {
        Zero();
      }
    } else if i % G == 0 {
      ParseUnit(i / G, 'G');
    } else if i % M == 0 {
      ParseUnit(i / M, 'M');
    } else if i % K == 0 {
      ParseUnit(i / K, 'K');
    } else {
      ParsePlain(i);
    }
  }

  lemma Zero()
    ensures FormatInt(0) == "0"
  {}

  lemma KnownDigits()
    ensures FormatInt(50) == "50" && FormatInt(2) == "2" && FormatInt(1) == "1" && FormatInt(1025) == "1025"
  {
    assert Digits(10) == "10" && Digits(102) == "102";
  }

  lemma KnownPrints()
    ensures Print(52_428_800) == "50M" && Print(2_147_483_648) == "2G" && Print(1024) == "1K" && Print(1025) == "1025"
  {
    KnownDigits();
    hide FormatInt;
  }

  /** What some settings mean. */
  lemma KnownSizes()
    ensures Parse("50M") == Size(52_428_800) && Parse("2G") == Size(2_147_483_648)
    ensures Parse("1K") == Size(1024) && Parse("1025") == Size(1025)
    ensures Parse("M") == Invalid && Parse([]) == Panics
  {
    assert "M"[..0] == [];
    assert Parse("M") == Invalid;
    KnownPrints();
    hide Parse, Print;
    ParsePrinted(52_428_800);
    ParsePrinted(2_147_483_648);
    ParsePrinted(1024);
    ParsePrinted(1025);
  }

  function PostfixOf(i: Int64): string {
    if i == 0 then "" else if i % G == 0 then "G" else if i % M == 0 then "M" else if i % K == 0 then "K" else ""
  }

  function UnitOf(i: Int64): int {
    if PostfixOf(i) == "" then 1 else Unit(PostfixOf(i)[0])
  }

  lemma Undivided(i: int, unit: int)
    requires (unit == K || unit == M) && i % unit == 0 && i % (1024 * unit) != 0
    ensures i / unit % 1024 != 0
  {
    var q := i / unit;
    assert i == unit * q;
    assert q == 1024 * (q / 1024) + q % 1024;
  }

  /** The text is a number of the largest unit that divides the size: a further factor of
      1024 can be left only in a number of G. */
  lemma PrintUsesLargestUnit(i: Int64)
    ensures i % UnitOf(i) == 0 && Print(i) == FormatInt(i / UnitOf(i)) + PostfixOf(i)
    ensures i != 0 && UnitOf(i) < G ==> i / UnitOf(i) % 1024 != 0
  {
    hide FormatInt;
    if i == 0 {
      Zero();
    } else if i % G != 0 {
      if i % M == 0 {
        Undivided(i, M);
      } else if i % K == 0 {
        Undivided(i, K);
      }
    }
  }

  /** The value read is the number times its unit exactly if the product fits into 64
      bits. */
  lemma ParseExactIff(n: Int64, unit: char)
    requires Unit(unit) != 1
    ensures Parse(FormatInt(n) + [unit]).Size?
    ensures Parse(FormatInt(n) + [unit]).value == n * Unit(unit) <==> -MAX - 1 <= n * Unit(unit) <= MAX
  {
    ParseUnit(n, unit);
  }
}
