/** The file of a fid, and the two parsers that read the fid back from its name. */
module Naming {
  import opened Codec
  import opened Text

  /** The path of a fid below the data directory; its first digits name the directories. */
  function VivifyExt(fid: int, ext: string): string {
    Directory(fid) + "/" + FormatPadded(fid, 10) + "." + ext
  }

  /** Three levels of directories, named by the first seven digits. */
  function Directory(fid: int): string {
    var s := FormatPadded(fid, 10);
    TenLong(fid);
    s[0..1] + "/" + s[1..4] + "/" + s[4..7]
  }

  function Vivify(fid: int): string {
    VivifyExt(fid, "fid")
  }

  lemma TenLong(fid: int)
    ensures 10 <= |FormatPadded(fid, 10)|
  {}

  /** Where a device's web server has the file of a fid. */
  function FileURL(hostname: string, port: int, dev: int, fid: int): string {
    "http://" + hostname + ":" + FormatInt(port) + "/dev" + FormatInt(dev) + "/" + Vivify(fid)
  }

  /** What follows the last slash. */
  function AfterSlash(path: string): string {
    if path == [] || path[|path| - 1] == '/' then [] else AfterSlash(path[..|path| - 1]) + [path[|path| - 1]]
  }

  function TrimSlashes(path: string): string {
    if path != [] && path[|path| - 1] == '/' then TrimSlashes(path[..|path| - 1]) else path
  }

  /** path.Base */
  function Base(path: string): string {
    if path == [] then "."
    else if TrimSlashes(path) == [] then "/"
    else AfterSlash(TrimSlashes(path))
  }

  /** The first part of a name that is split at its dots. */
  function BeforeDot(name: string): string {
    if name == [] || name[0] == '.' then [] else [name[0]] + BeforeDot(name[1..])
  }

  /** strings.TrimLeft with the cut set that the disk cleaner uses. */
  function TrimZeros(s: string): string {
    if s != [] && (s[0] == '0' || s[0] == ',') then TrimZeros(s[1..]) else s
  }

  /** The receiver's reading of a path. */
  function ReceiverFid(path: string): Option<int> {
    ParseInt(BeforeDot(Base(path)))
  }

  /** The disk cleaner's reading of a file name. */
  function CleanerFid(name: string): Option<int> {
    ParseInt(TrimZeros(BeforeDot(name)))
  }

  lemma {:induction false} AfterSlashOf(dir: string, name: string)
    requires '/' !in name
    ensures AfterSlash(dir + "/" + name) == name
    decreases |name|
  {
    var path := dir + "/" + name;
    if name != [] {
      var init := name[..|name| - 1];
      assert name == init + [name[|name| - 1]];
      assert path[..|path| - 1] == dir + "/" + init;
      AfterSlashOf(dir, init);
    }
  }

  lemma BaseOf(dir: string, name: string)
    requires name != [] && '/' !in name
    ensures Base(dir + "/" + name) == name
  {
    var path := dir + "/" + name;
    assert path[|path| - 1] == name[|name| - 1];
    AfterSlashOf(dir, name);
  }

  lemma {:induction false} BeforeDotOf(stem: string, ext: string)
    requires '.' !in stem
    ensures BeforeDot(stem + "." + ext) == stem
    decreases |stem|
  {
    var name := stem + "." + ext;
    if stem != [] {
      assert stem[0] in stem;
      assert name[1..] == stem[1..] + "." + ext;
      BeforeDotOf(stem[1..], ext);
    }
  }

  lemma StemPlain(fid: int)
    ensures forall c :: c in FormatPadded(fid, 10) ==> c != '.' && c != '/' && c != ','
  {
    var digits := Digits(Abs(fid));
    assert forall c :: c in digits ==> IsDigit(c);
  }

  /** Whatever the directory and the extension, .fid or .fid.info among them, the receiver
      finds the fid, however many digits it has. */
  lemma ReceiverReadsBack(fid: Int64, dir: string, ext: string)
    requires '/' !in ext
    ensures ReceiverFid(dir + "/" + VivifyExt(fid, ext)) == Some(fid)
  {
    var s := FormatPadded(fid, 10);
    TenLong(fid);
    StemPlain(fid);
    var name := s + "." + ext;
    var front := dir + "/" + Directory(fid);
    assert dir + "/" + VivifyExt(fid, ext) == front + "/" + name;
    hide FormatPadded, Directory;
    BaseOf(front, name);
    BeforeDotOf(s, ext);
    ParseFormatted(fid, 10);
  }

  /** The server that is asked for a URL finds the fid it was made for. */
  lemma URLReadsBack(hostname: string, port: int, dev: int, fid: Int64)
    ensures ReceiverFid(FileURL(hostname, port, dev, fid)) == Some(fid)
  {
    hide VivifyExt, ReceiverFid, FormatInt;
    ReceiverReadsBack(fid, "http://" + hostname + ":" + FormatInt(port) + "/dev" + FormatInt(dev), "fid");
  }

  /** What stands before the first occurrence of a character. */
  function UpTo(s: string, c: char): string {
    if s == [] || s[0] == c then [] else [s[0]] + UpTo(s[1..], c)
  }

  lemma {:induction false} UpToFirst(s: string, c: char, rest: string)
    requires c !in s
    ensures UpTo(s + [c] + rest, c) == s
    decreases |s|
  {
    var whole := s + [c] + rest;
    if s != [] {
      assert s[0] in s && whole[0] == s[0];
      assert whole[1..] == s[1..] + [c] + rest;
      UpToFirst(s[1..], c, rest);
    }
  }

  /** A text cut in two at the first occurrence of a character, which is in neither part. */
  function Cut(s: string, c: char): (string, string) {
    var front := UpTo(s, c);
    (front, if |front| < |s| then s[|front| + 1..] else [])
  }

  lemma CutAt(s: string, c: char, rest: string)
    requires c !in s
    ensures Cut(s + [c] + rest, c) == (s, rest)
  {
    UpToFirst(s, c, rest);
    hide UpTo;
  }

  datatype Address = Address(scheme: string, host: string, port: Option<int>, dev: Option<int>, path: string)

  /** The parts of an address: after the scheme and two slashes a host up to a colon, a port
      up to a slash, a directory with the number of the device, and the path of a file. */
  function ReadAddress(url: string): Address {
    var (scheme, afterScheme) := Cut(url, '/');
    var (nothing, authority) := Cut(afterScheme, '/');
    var (host, afterHost) := Cut(authority, ':');
    var (port, afterPort) := Cut(afterHost, '/');
    var (directory, path) := Cut(afterPort, '/');
    Address(scheme, host, ParseInt(port), DeviceOf(directory), path)
  }

  function DeviceOf(directory: string): Option<int> {
    if "dev" <= directory then ParseInt(directory[3..]) else None
  }

  lemma FormatPlain(i: int)
    ensures '/' !in FormatInt(i)
  {
    var digits := Digits(Abs(i));
    assert forall c :: c in digits ==> IsDigit(c);
  }

  lemma DeviceReadsBack(dev: Int64)
    ensures DeviceOf("dev" + FormatInt(dev)) == Some(dev) && '/' !in "dev" + FormatInt(dev)
  {
    ParseFormatted(dev, 0);
    FormatPlain(dev);
    hide FormatInt, ParseInt;
    assert ("dev" + FormatInt(dev))[3..] == FormatInt(dev);
  }

  /** Every part of an address is read back: scheme, host, port, device and path. */
  lemma AddressReadsBack(hostname: string, port: Int64, dev: Int64, fid: int)
    requires ':' !in hostname
    ensures ReadAddress(FileURL(hostname, port, dev, fid)) ==
            Address("http:", hostname, Some(port), Some(dev), Vivify(fid))
  {
    ParseFormatted(port, 0);
    FormatPlain(port);
    DeviceReadsBack(dev);
    var path, p, directory := Vivify(fid), FormatInt(port), "dev" + FormatInt(dev);
    var afterHost := p + "/" + (directory + "/" + path);
    var authority := hostname + ":" + afterHost;
    URLParts(hostname, p, FormatInt(dev), path);
    hide Vivify, FormatInt, ParseInt, Cut, DeviceOf;
    CutAt("http:", '/', "/" + authority);
    assert [] + ['/'] + authority == "/" + authority;
    CutAt([], '/', authority);
    CutAt(hostname, ':', afterHost);
    CutAt(p, '/', directory + "/" + path);
    CutAt(directory, '/', path);
  }

  lemma URLParts(hostname: string, port: string, dev: string, path: string)
    ensures
      var directory := "dev" + dev;
      "http://" + hostname + ":" + port + "/dev" + dev + "/" + path ==
        "http:" + ['/'] + ("/" + (hostname + ":" + (port + "/" + (directory + "/" + path))))
  {
    assert "http://" == "http:" + ['/'] + "/";
    assert "/dev" == "/" + "dev";
  }

  const FITS := 10_000_000_000

  lemma TenDigits(fid: nat)
    requires fid < FITS
    ensures |FormatPadded(fid, 10)| == 10 && AllDigits(FormatPadded(fid, 10)) && Number(FormatPadded(fid, 10)) == fid
  {
    assert Power10(10) == FITS;
    DigitsLength(fid, 10);
    NumberOfDigits(fid);
    NumberOfPadded(10 - |Digits(fid)|, Digits(fid));
    assert FormatPadded(fid, 10) == Zeros(10 - |Digits(fid)|) + Digits(fid);
  }

  lemma SevenDigits(fid: nat)
    requires fid < FITS
    ensures
      var s := FormatPadded(fid, 10);
      && |s| == 10 && AllDigits(s[..7]) && Number(s[..7]) == fid / 1000
      && Directory(fid) == s[0..1] + "/" + s[1..4] + "/" + s[4..7]
  {
    TenDigits(fid);
    var s := FormatPadded(fid, 10);
    hide FormatPadded, Number;
    NumberOfInit(s);
    NumberOfInit(s[..9]);
    assert s[..9][..8] == s[..8];
    NumberOfInit(s[..8]);
    assert s[..8][..7] == s[..7];
  }

  lemma DirectoryDigits(s: string)
    requires |s| == 10
    ensures
      var d := s[0..1] + "/" + s[1..4] + "/" + s[4..7];
      |d| == 9 && s[..7] == d[0..1] + d[2..5] + d[6..9]
  {
    var d := s[0..1] + "/" + s[1..4] + "/" + s[4..7];
    assert d[0..1] == s[0..1];
    assert d[2..5] == s[1..4];
    assert d[6..9] == s[4..7];
    assert s[..7] == s[0..1] + s[1..4] + s[4..7];
  }

  lemma KnownNumber()
    ensures FormatPadded(12345, 10) == "0000012345"
  {
    assert Digits(12) == "12";
    assert Digits(123) == "123";
    assert Digits(12345) == "12345";
    hide Digits;
    assert Zeros(5) == "00000";
  }

  /** A path may end in slashes; one without a name has a name of its own, and no fid. */
  lemma {:induction false} SlashesAtEnd(dir: string, name: string, n: nat)
    requires name != [] && '/' !in name
    ensures Base(dir + "/" + name + Slashes(n)) == name
  {
    var path := dir + "/" + name;
    assert (path + Slashes(n))[|path| + n - 1] == if n > 0 then '/' else name[|name| - 1];
    TrimSlashesOf(path, n);
    assert TrimSlashes(path) == path;
    AfterSlashOf(dir, name);
  }

  function Slashes(n: nat): string {
    seq(n, _ => '/')
  }

  lemma {:induction false} TrimSlashesOf(path: string, n: nat)
    ensures TrimSlashes(path + Slashes(n)) == TrimSlashes(path)
  {
    if n == 0 {
      assert path + Slashes(0) == path;
    } else {
      assert (path + Slashes(n))[..|path| + n - 1] == path + Slashes(n - 1);
      TrimSlashesOf(path, n - 1);
    }
  }

  /** The path of one fid. */
  lemma KnownPath()
    ensures Vivify(12345) == "0/000/012/0000012345.fid"
  {
    KnownNumber();
    hide FormatPadded;
    var s := FormatPadded(12345, 10);
    assert s[0..1] == "0" && s[1..4] == "000" && s[4..7] == "012";
  }

  /** Each directory holds the thousand fids that differ in their last three digits, as
      long as ten digits are enough. */
  lemma SharedDirectoryIff(f: nat, g: nat)
    requires f < FITS && g < FITS
    ensures Directory(f) == Directory(g) <==> f / 1000 == g / 1000
  {
    SevenDigits(f);
    SevenDigits(g);
    var s, t := FormatPadded(f, 10), FormatPadded(g, 10);
    var d, e := Directory(f), Directory(g);
    hide FormatPadded, Number, Directory;
    DirectoryDigits(s);
    DirectoryDigits(t);
    if f / 1000 == g / 1000 {
      NumberInjective(s[..7], t[..7]);
      assert s[0..1] == s[..7][0..1] && s[1..4] == s[..7][1..4] && s[4..7] == s[..7][4..7];
      assert t[0..1] == t[..7][0..1] && t[1..4] == t[..7][1..4] && t[4..7] == t[..7][4..7];
    }
  }

  /** No two fids share a path. */
  lemma VivifyInjective(f: Int64, g: Int64)
    requires Vivify(f) == Vivify(g)
    ensures f == g
  {
    hide VivifyExt, ReceiverFid;
    ReceiverReadsBack(f, "", "fid");
    ReceiverReadsBack(g, "", "fid");
  }

  lemma {:induction false} TrimZerosOf(n: nat, s: string)
    ensures TrimZeros(Zeros(n) + s) == TrimZeros(s)
    decreases n
  {
    if n == 0 {
      assert Zeros(0) + s == s;
    } else {
      assert (Zeros(n) + s)[1..] == Zeros(n - 1) + s;
      TrimZerosOf(n - 1, s);
    }
  }

  /** The disk cleaner's parser finds every fid but 0, whose zeros it trims away. */
  lemma CleanerReadsBackIff(fid: Int64, ext: string)
    ensures CleanerFid(FormatPadded(fid, 10) + "." + ext) == (if fid == 0 then None else Some(fid))
  {
    var s := FormatPadded(fid, 10);
    StemPlain(fid);
    BeforeDotOf(s, ext);
    ParseFormatted(fid, 10);
    TrimFormatted(fid);
    hide FormatPadded, BeforeDot, TrimZeros, FormatInt;
    if fid == 0 {
      assert ParseInt([]) == None;
    }
  }

  lemma TrimFormatted(fid: int)
    ensures TrimZeros(FormatPadded(fid, 10)) ==
            if fid == 0 then [] else if fid < 0 then FormatPadded(fid, 10) else FormatInt(fid)
  {
    if 0 <= fid {
      var digits := Digits(fid);
      assert FormatPadded(fid, 10) == Zeros(|Padding(fid, 10)|) + digits;
      TrimZerosOf(|Padding(fid, 10)|, digits);
      if fid == 0 {
        assert digits == "0" && digits[1..] == [];
      } else {
        assert digits[0] != '0' && digits[0] in digits;
        assert FormatInt(fid) == digits;
      }
    } else {
      assert FormatPadded(fid, 10)[0] == '-';
    }
  }
}
