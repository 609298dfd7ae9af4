/**
 * The Linux block-device helpers of the `zfs` crate: the split of a
 * device number into major and minor, the sysfs path of a block device,
 * its size read from sysfs, and the mapping of a file type onto the kinds
 * the crate distinguishes. The sysfs tree is a map from paths to file
 * contents; the device number is the `st_rdev` the caller read.
 */
module UnixDevice {
  import opened Types

  const U64_MAX: int := 0xFFFF_FFFF_FFFF_FFFF
  const UNIX_BLOCK_SIZE: nat := 512

  // ---------------------------------------------------------------- numbers

  datatype DeviceNumber = DeviceNumber(major: u32, minor: u32)

  /**
   * `DeviceNumber::new`: the minor number is bits 0..8 of `n` and the
   * major number bits 8..16 (`& 0xff` and `>> 8` on an unsigned value are
   * the remainder and the quotient by 2^8).
   */
  function New(n: u64): (d: DeviceNumber)
    ensures d.major < 256 && d.minor < 256
    ensures n % 65536 == d.major * 256 + d.minor
  {
    Split16(n);
    DeviceNumber((n / 256) % 256, n % 256)
  }

  lemma Split16(n: nat)
    ensures n % 65536 == ((n / 256) % 256) * 256 + n % 256
  {
    var q, r := n / 256, n % 256;
    assert n == q * 256 + r;
    var a, b := q / 256, q % 256;
    assert n == a * 65536 + (b * 256 + r);
    assert 0 <= b * 256 + r < 65536;
  }

  /** Only the low 16 bits of the device number matter: two numbers give the same pair exactly when they agree there. */
  lemma NewLowBits(n: u64, m: u64)
    ensures New(n) == New(m) <==> n % 65536 == m % 65536
  {
    if n % 65536 == m % 65536 {
      var d, e := New(n), New(m);
      Unique(d.major, d.minor, e.major, e.minor);
    }
  }

  lemma Unique(a: int, b: int, c: int, d: int)
    requires 0 <= a < 256 && 0 <= b < 256 && 0 <= c < 256 && 0 <= d < 256
    requires a * 256 + b == c * 256 + d
    ensures a == c && b == d
  {
  }

  // ---------------------------------------------------------------- decimal

  predicate IsDigit(c: char)
  {
    '0' <= c <= '9'
  }

  predicate AllDigits(s: string)
  {
    forall i :: 0 <= i < |s| ==> IsDigit(s[i])
  }

  /** The number a string of decimal digits denotes, most significant first. */
  function DigitsValue(s: string): nat
    requires AllDigits(s)
  {
    if s == [] then 0 else DigitsValue(s[..|s| - 1]) * 10 + (s[|s| - 1] as int - '0' as int)
  }

  /** `{}` on an unsigned integer: decimal digits without leading zeros. */
  function Dec(n: nat): (s: string)
    ensures |s| > 0 && AllDigits(s)
    ensures |s| == 1 || s[0] != '0'
    ensures DigitsValue(s) == n
  {
    var last := ['0' + (n % 10) as char];
    if n < 10 then
      last
    else
      var s := Dec(n / 10) + last;
      assert s[..|s| - 1] == Dec(n / 10);
      s
  }

  lemma DecInjective(m: nat, n: nat)
    requires Dec(m) == Dec(n)
    ensures m == n
  {
  }

  /**
   * `str::parse::<u64>`: an optional `+`, then at least one decimal digit,
   * with a value that fits in 64 bits. Anything else is an error.
   */
  function ParseU64(s: string): (r: Option<u64>)
    ensures r.Some? ==> |s| > 0 && (s[0] == '+' || IsDigit(s[0]))
    ensures r.Some? ==> forall i :: 0 < i < |s| ==> IsDigit(s[i])
  {
    var digits := if |s| > 0 && s[0] == '+' then s[1..] else s;
    if |digits| == 0 || !AllDigits(digits) || DigitsValue(digits) > U64_MAX then None
    else Some(DigitsValue(digits))
  }

  /** Parsing reads back what `{}` writes, with or without a `+`. */
  lemma ParseDec(n: nat)
    requires n <= U64_MAX
    ensures ParseU64(Dec(n)) == Some(n)
    ensures ParseU64("+" + Dec(n)) == Some(n)
  {
    assert ("+" + Dec(n))[1..] == Dec(n);
  }

  /** An empty string, a lone sign, a minus sign and a value past 2^64 - 1 are all rejected. */
  lemma ParseRejects(n: nat)
    requires n > U64_MAX
    ensures ParseU64("") == None && ParseU64("+") == None
    ensures ParseU64("-" + Dec(n % 100)) == None
    ensures ParseU64(Dec(n)) == None
  {
  }

  // ---------------------------------------------------------------- trimming

  /** The Unicode `White_Space` property, which `str::trim` strips. */
  predicate IsWhitespace(c: char)
  {
    ('\U{9}' <= c <= '\U{D}') || c == ' ' || c == '\U{85}' || c == '\U{A0}' || c == '\U{1680}'
    || ('\U{2000}' <= c <= '\U{200A}') || c == '\U{2028}' || c == '\U{2029}' || c == '\U{202F}'
    || c == '\U{205F}' || c == '\U{3000}'
  }

  /** The longest suffix of `s` that does not start with white space. */
  function TrimStart(s: string): (r: string)
    ensures |r| <= |s| && r == s[|s| - |r|..]
    ensures r == [] || !IsWhitespace(r[0])
    ensures forall i :: 0 <= i < |s| - |r| ==> IsWhitespace(s[i])
  {
    if |s| > 0 && IsWhitespace(s[0]) then TrimStart(s[1..]) else s
  }

  /** The longest prefix of `s` that does not end with white space. */
  function TrimEnd(s: string): (r: string)
    ensures |r| <= |s| && r == s[..|r|]
    ensures r == [] || !IsWhitespace(r[|r| - 1])
    ensures forall i :: |r| <= i < |s| ==> IsWhitespace(s[i])
  {
    if |s| > 0 && IsWhitespace(s[|s| - 1]) then TrimEnd(s[..|s| - 1]) else s
  }

  /** `str::trim`: the middle of `s` once white space is dropped from both ends. */
  function Trim(s: string): (r: string)
    ensures r == [] || (!IsWhitespace(r[0]) && !IsWhitespace(r[|r| - 1]))
    ensures var k := |s| - |TrimStart(s)|;
            k + |r| <= |s| && r == s[k..k + |r|]
            && (forall i :: 0 <= i < k ==> IsWhitespace(s[i]))
            && (forall i :: k + |r| <= i < |s| ==> IsWhitespace(s[i]))
  {
    TrimEnd(TrimStart(s))
  }

  /** sysfs writes a count as decimal digits and a newline; trimming gives the digits back. */
  lemma TrimLine(n: nat)
    ensures Trim(Dec(n) + "\n") == Dec(n)
  {
    var d := Dec(n);
    var s := d + "\n";
    DigitNotWhitespace(d[0]);
    assert s[0] == d[0];
    assert TrimStart(s) == s;
    assert IsWhitespace(s[|s| - 1]);
    assert s[..|s| - 1] == d;
    assert TrimEnd(s) == TrimEnd(d);
    DigitNotWhitespace(d[|d| - 1]);
  }

  lemma DigitNotWhitespace(c: char)
    requires IsDigit(c)
    ensures !IsWhitespace(c)
  {
  }

  // ---------------------------------------------------------------- paths

  /** The sysfs directory of a block device, `/sys/dev/block/<major>:<minor>`. */
  function DevicePath(d: DeviceNumber): (r: string)
    ensures |r| > 15 && r[..15] == "/sys/dev/block/"
    ensures forall i :: 15 <= i < |r| ==> r[i] != '/'
    ensures 15 + |Dec(d.major)| < |r| && r[15 + |Dec(d.major)|] == ':'
  {
    var r := "/sys/dev/block/" + Dec(d.major) + ":" + Dec(d.minor);
    assert forall i :: 15 <= i < 15 + |Dec(d.major)| ==> r[i] == Dec(d.major)[i - 15];
    assert forall i :: 16 + |Dec(d.major)| <= i < |r| ==> r[i] == Dec(d.minor)[i - 16 - |Dec(d.major)|];
    r
  }

  /** Different device numbers have different sysfs directories. */
  lemma DevicePathInjective(d: DeviceNumber, e: DeviceNumber)
    requires DevicePath(d) == DevicePath(e)
    ensures d == e
  {
    var p := "/sys/dev/block/";
    var x, y := Dec(d.major) + ":" + Dec(d.minor), Dec(e.major) + ":" + Dec(e.minor);
    assert DevicePath(d) == p + x && DevicePath(e) == p + y;
    assert x == DevicePath(d)[|p|..] == DevicePath(e)[|p|..] == y;
    SplitColon(Dec(d.major), Dec(d.minor), Dec(e.major), Dec(e.minor));
    DecInjective(d.major, e.major);
    DecInjective(d.minor, e.minor);
  }

  /** A colon between two digit strings marks one place only. */
  lemma SplitColon(a: string, b: string, c: string, d: string)
    requires AllDigits(a) && AllDigits(c)
    requires a + ":" + b == c + ":" + d
    ensures a == c && b == d
  {
    var s := a + ":" + b;
    if |a| < |c| {
      ColonClash(a, b, c, d);
      assert false;
    } else if |c| < |a| {
      ColonClash(c, d, a, b);
      assert false;
    }
    assert a == s[..|a|] == c;
    assert b == s[|a| + 1..] == d;
  }

  lemma ColonClash(a: string, b: string, c: string, d: string)
    requires AllDigits(c) && |a| < |c|
    ensures a + ":" + b != c + ":" + d
  {
    assert (a + ":" + b)[|a|] == ':';
    assert (c + ":" + d)[|a|] == c[|a|];
  }

  /** The index just after the last `/` of a path, 0 when there is none: where its final component starts. */
  function FileNameStart(p: string): (k: nat)
    ensures k <= |p|
    ensures k > 0 ==> p[k - 1] == '/'
    ensures forall i :: k <= i < |p| ==> p[i] != '/'
  {
    if |p| == 0 || p[|p| - 1] == '/' then |p| else FileNameStart(p[..|p| - 1])
  }

  /** `Path::with_file_name`: the final component of `p` replaced by `name`. */
  function WithFileName(p: string, name: string): (r: string)
    ensures r == p[..FileNameStart(p)] + name
    ensures |r| == FileNameStart(p) + |name|
  {
    p[..FileNameStart(p)] + name
  }

  /** A device directory's final component is `<major>:<minor>`, right after the prefix. */
  lemma DevicePathFileName(d: DeviceNumber)
    ensures FileNameStart(DevicePath(d)) == |"/sys/dev/block/"|
  {
    var p := DevicePath(d);
    var k := FileNameStart(p);
    var tail := Dec(d.major) + ":" + Dec(d.minor);
    assert p == "/sys/dev/block/" + tail;
    assert p[14] == '/';
    forall i | 15 <= i < |p|
      ensures p[i] != '/'
    {
      assert p[i] == tail[i - 15];
      if i - 15 < |Dec(d.major)| {
        assert tail[i - 15] == Dec(d.major)[i - 15];
      } else if i - 15 > |Dec(d.major)| {
        assert tail[i - 15] == Dec(d.minor)[i - 16 - |Dec(d.major)|];
      }
    }
  }

  /**
   * `BlockDevice::size` asks for `path().with_file_name("size")`, which
   * replaces `<major>:<minor>` instead of descending into it: every device
   * is sent to the same file.
   */
  function SizePathAsWritten(d: DeviceNumber): (r: string)
    ensures r == "/sys/dev/block/size"
  {
    DevicePathFileName(d);
    var p := DevicePath(d);
    assert p[..15] == "/sys/dev/block/";
    WithFileName(p, "size")
  }

  /** The `size` attribute inside the device's directory. */
  function SizePath(d: DeviceNumber): (r: string)
    ensures |DevicePath(d)| < |r| && r[..|DevicePath(d)|] == DevicePath(d)
    ensures FileNameStart(r) == |DevicePath(d)| + 1 && r[FileNameStart(r)..] == "size"
  {
    var p := DevicePath(d);
    var r := p + "/size";
    assert r == p + "/" + "size";
    FileNameAfterSlash(p, "size");
    assert r[|p| + 1..] == "size";
    r
  }

  /** After a `/`, a name without `/` is the final component. */
  lemma {:induction false} FileNameAfterSlash(p: string, w: string)
    requires forall i :: 0 <= i < |w| ==> w[i] != '/'
    ensures FileNameStart(p + "/" + w) == |p| + 1
    decreases |w|
  {
    var r := p + "/" + w;
    if |w| == 0 {
      assert r[|r| - 1] == '/';
    } else {
      assert r[..|r| - 1] == p + "/" + w[..|w| - 1];
      FileNameAfterSlash(p, w[..|w| - 1]);
    }
  }

  /** Each device has its own size file. */
  lemma SizePathInjective(d: DeviceNumber, e: DeviceNumber)
    requires SizePath(d) == SizePath(e)
    ensures d == e
  {
    assert DevicePath(d) == SizePath(d)[..|SizePath(d)| - 5];
    assert DevicePath(e) == SizePath(e)[..|SizePath(e)| - 5];
    DevicePathInjective(d, e);
  }

  /** The device directory is a proper prefix of its size file; `with_file_name` leaves it. */
  lemma SizePathUnderDevice(d: DeviceNumber)
    ensures SizePath(d)[..|DevicePath(d)|] == DevicePath(d)
    ensures !(DevicePath(d) <= SizePathAsWritten(d))
  {
    var p := DevicePath(d);
    assert p[15] == Dec(d.major)[0];
    assert SizePathAsWritten(d)[15] == 's';
  }

  // ---------------------------------------------------------------- size

  /**
   * The byte size read from a sysfs `size` file: the file's text, trimmed
   * and parsed as a count of 512-byte blocks (`unwrap` panics on bad text),
   * then multiplied by 512 (overflow panics).
   */
  function SizeAt(sysfs: map<string, string>, path: string): (r: Result<u64, Error>)
    ensures r == Err(FileMissing) <==> path !in sysfs
    ensures r.Ok? ==> r.value % UNIX_BLOCK_SIZE == 0
    ensures r.Ok? ==> ParseU64(Trim(sysfs[path])) == Some(r.value / UNIX_BLOCK_SIZE)
  {
    if path !in sysfs then Err(FileMissing)
    else
      match ParseU64(Trim(sysfs[path]))
      case None => Err(Panic(UnwrapOnErr))
      case Some(blocks) =>
        if blocks * UNIX_BLOCK_SIZE > U64_MAX then Err(Panic(ArithmeticOverflow))
        else Ok(blocks * UNIX_BLOCK_SIZE)
  }

  /** A size file as the kernel writes it gives back the byte count, or overflows for counts of 2^55 blocks and more. */
  lemma SizeOfLine(sysfs: map<string, string>, path: string, blocks: nat)
    requires blocks <= U64_MAX
    requires path in sysfs && sysfs[path] == Dec(blocks) + "\n"
    ensures blocks * UNIX_BLOCK_SIZE <= U64_MAX ==> SizeAt(sysfs, path) == Ok(blocks * UNIX_BLOCK_SIZE)
    ensures blocks * UNIX_BLOCK_SIZE > U64_MAX ==> SizeAt(sysfs, path) == Err(Panic(ArithmeticOverflow))
  {
    TrimLine(blocks);
    ParseDec(blocks);
  }

  /** Text that is not a count makes `size` panic. */
  lemma SizeOfGarbage(sysfs: map<string, string>, path: string)
    requires path in sysfs && ParseU64(Trim(sysfs[path])).None?
    ensures SizeAt(sysfs, path) == Err(Panic(UnwrapOnErr))
  {
  }

  /** `BlockDevice::size` as written: the size file it reads does not depend on the device. */
  function SizeAsWritten(sysfs: map<string, string>, rdev: u64): (r: Result<u64, Error>)
    ensures r == Err(FileMissing) <==> "/sys/dev/block/size" !in sysfs
  {
    SizeAt(sysfs, SizePathAsWritten(New(rdev)))
  }

  /** Any two devices, for instance 8:0 and 8:16, get the same answer. */
  lemma SizeAsWrittenIgnoresDevice(sysfs: map<string, string>, a: u64, b: u64)
    ensures SizeAsWritten(sysfs, a) == SizeAsWritten(sysfs, b)
  {
  }

  /** Two distinct disks whose sizes the code cannot tell apart. */
  lemma SizeAsWrittenCounterexample()
    ensures New(0x800) == DeviceNumber(8, 0) && New(0x810) == DeviceNumber(8, 16)
    ensures SizePathAsWritten(New(0x800)) == SizePathAsWritten(New(0x810))
  {
  }

  /** `BlockDevice::size` reading the device's own size file. */
  function Size(sysfs: map<string, string>, rdev: u64): (r: Result<u64, Error>)
    ensures r == Err(FileMissing) <==> SizePath(New(rdev)) !in sysfs
    ensures r.Ok? ==> r.value % UNIX_BLOCK_SIZE == 0
  {
    SizeAt(sysfs, SizePath(New(rdev)))
  }

  /** Devices whose size files hold different counts get different sizes. */
  lemma SizeSeesDevice(sysfs: map<string, string>, a: u64, b: u64, m: nat, n: nat)
    requires m <= n && n * UNIX_BLOCK_SIZE <= U64_MAX && m != n
    requires SizePath(New(a)) in sysfs && sysfs[SizePath(New(a))] == Dec(m) + "\n"
    requires SizePath(New(b)) in sysfs && sysfs[SizePath(New(b))] == Dec(n) + "\n"
    ensures Size(sysfs, a) == Ok(m * UNIX_BLOCK_SIZE) && Size(sysfs, b) == Ok(n * UNIX_BLOCK_SIZE)
    ensures Size(sysfs, a) != Size(sysfs, b)
  {
    SizeOfLine(sysfs, SizePath(New(a)), m);
    SizeOfLine(sysfs, SizePath(New(b)), n);
  }

  // ---------------------------------------------------------------- file types

  datatype FileType = Dir | File | Symlink | BlockDevice | CharDevice | Fifo | Socket

  /** The answers of the `is_*` tests of a `std::fs::FileType`. */
  datatype FileTypeTests = FileTypeTests(
    isDir: bool, isFile: bool, isSymlink: bool, isBlockDevice: bool,
    isCharDevice: bool, isFifo: bool, isSocket: bool)

  /** Whether the test for kind `k` answers yes. */
  predicate Holds(t: FileTypeTests, k: FileType)
  {
    match k
    case Dir => t.isDir
    case File => t.isFile
    case Symlink => t.isSymlink
    case BlockDevice => t.isBlockDevice
    case CharDevice => t.isCharDevice
    case Fifo => t.isFifo
    case Socket => t.isSocket
  }

  /** The position of the test for `k` in the chain. */
  function Priority(k: FileType): nat
  {
    match k
    case Dir => 0
    case File => 1
    case Symlink => 2
    case BlockDevice => 3
    case CharDevice => 4
    case Fifo => 5
    case Socket => 6
  }

  /** `FileType::from`: the first test in the chain that answers yes decides; none panics as unreachable. */
  function FromTests(t: FileTypeTests): (r: Result<FileType, Error>)
    ensures r.Ok? ==> Holds(t, r.value)
    ensures r.Ok? ==> forall k :: Priority(k) < Priority(r.value) ==> !Holds(t, k)
    ensures r.Ok? <==> exists k :: Holds(t, k)
    ensures r.Err? ==> r.error == Panic(Unreachable)
  {
    if t.isDir then assert Holds(t, Dir); Ok(Dir)
    else if t.isFile then assert Holds(t, File); Ok(File)
    else if t.isSymlink then assert Holds(t, Symlink); Ok(Symlink)
    else if t.isBlockDevice then assert Holds(t, BlockDevice); Ok(BlockDevice)
    else if t.isCharDevice then assert Holds(t, CharDevice); Ok(CharDevice)
    else if t.isFifo then assert Holds(t, Fifo); Ok(Fifo)
    else if t.isSocket then assert Holds(t, Socket); Ok(Socket)
    else
      assert forall k :: !Holds(t, k);
      Err(Panic(Unreachable))
  }

  /** The tests of a file of kind `k`: exactly one answers yes. */
  function TestsOf(k: FileType): (t: FileTypeTests)
    ensures forall j :: Holds(t, j) <==> j == k
  {
    FileTypeTests(k == Dir, k == File, k == Symlink, k == BlockDevice, k == CharDevice, k == Fifo, k == Socket)
  }

  /** For a file whose kind is one of the seven, the mapping recovers it, and recovers the tests from it. */
  lemma FromTestsRoundTrip(k: FileType, t: FileTypeTests)
    requires forall j :: Holds(t, j) <==> j == k
    ensures FromTests(TestsOf(k)) == Ok(k)
    ensures FromTests(t) == Ok(k) && TestsOf(k) == t
  {
    assert Holds(t, k);
    assert (Holds(t, Dir) <==> k == Dir) && (Holds(t, File) <==> k == File);
    assert (Holds(t, Symlink) <==> k == Symlink) && (Holds(t, BlockDevice) <==> k == BlockDevice);
    assert (Holds(t, CharDevice) <==> k == CharDevice) && (Holds(t, Fifo) <==> k == Fifo);
    assert Holds(t, Socket) <==> k == Socket;
  }

  /** When several tests answer yes (not possible for a Unix mode), the earlier one wins. */
  lemma FromTestsPriority(t: FileTypeTests, a: FileType, b: FileType)
    requires Holds(t, a) && Holds(t, b) && Priority(a) < Priority(b)
    ensures FromTests(t).Ok? && FromTests(t).value != b
  {
  }
}
