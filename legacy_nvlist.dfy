/**
 * The nvlist stream header reader of the older crate, written directly
 * against a `BufReader`: each field is `read_exact` into a fixed buffer
 * and decoded with a `match`, and the reserved bytes are passed over with
 * `seek(Current(2))`. An unknown version is an `InvalidInput` error
 * rather than a panic, and the flags word is read as an unsigned integer.
 */
module LegacyNvlist {
  import opened Types
  import opened Mapping
  import Cursor
  import BinaryReader
  import XdrPrimitive
  import ZfsNvlist
  import NvlistInternal

  const VERSION_SIZE: nat := 4
  const FLAGS_SIZE: nat := 4
  const RESERVED_SIZE: int := 2

  /** The `map` that `Flags::decode` filters: `(bit, flag)` pairs, here written tag first. */
  const FLAGS_MAP: Table<ZfsNvlist.Flag> := [(ZfsNvlist.UniqueName, 0x1), (ZfsNvlist.UniqueNameType, 0x2)]

  /** `Encoding::decode`: a `match` on the byte, which agrees with the newer `int_enum` conversion on every byte. */
  function DecodeEncoding(x: u8): (r: Result<ZfsNvlist.Encoding, Error>)
    ensures r == ZfsNvlist.DecodeEncoding(x)
  {
    match x
    case 0 => Ok(ZfsNvlist.Native)
    case 1 => Ok(ZfsNvlist.XDR)
    case _ => Err(InvalidInput(x))
  }

  /** `Endianness::decode`, likewise in agreement with the newer conversion. */
  function DecodeEndianness(x: u8): (r: Result<ZfsNvlist.Endianness, Error>)
    ensures r == ZfsNvlist.DecodeEndianness(x)
  {
    match x
    case 0 => Ok(ZfsNvlist.Big)
    case 1 => Ok(ZfsNvlist.Little)
    case _ => Err(InvalidInput(x))
  }

  /**
   * `Version::decode`: the big-endian `i32` 0 is `V0`, any other value an
   * `InvalidInput` error carrying it; this is exactly the `nvlist` crate's
   * derived XDR enumeration.
   */
  function DecodeVersion(x: seq<u8>): (r: Result<ZfsNvlist.Version, Error>)
    requires |x| == VERSION_SIZE
    ensures r == NvlistInternal.VersionOf(x)
  {
    match XdrPrimitive.DecodeI32(x)
    case 0 => Ok(ZfsNvlist.V0)
    case v => Err(InvalidInput(v))
  }

  /**
   * `Flags::decode`: the flags whose bit is set in the big-endian `u32`,
   * in map order. It lists the same flags as the `zfs` crate's `Bitmask`
   * over the signed word: both look at the same 32 bits.
   */
  function DecodeFlags(x: seq<u8>): (r: seq<ZfsNvlist.Flag>)
    requires |x| == FLAGS_SIZE
    ensures r == ZfsNvlist.FlagsOf(x)
  {
    FlagsAgree(x);
    Select(FLAGS_MAP, XdrPrimitive.DecodeU32(x))
  }

  lemma FlagsAgree(x: seq<u8>)
    requires |x| == FLAGS_SIZE
    ensures Select(FLAGS_MAP, XdrPrimitive.DecodeU32(x)) == ZfsNvlist.FlagsOf(x)
  {
    var u: int, v: int := XdrPrimitive.DecodeU32(x), XdrPrimitive.DecodeI32(x);
    assert u % 0x1_0000_0000 == v % 0x1_0000_0000;
    SelectBits(FLAGS_MAP, u, v);
    assert FLAGS_MAP == ZfsNvlist.FLAGS_MAPPING;
    assert ZfsNvlist.FlagsOf(x) == Select(ZfsNvlist.FLAGS_MAPPING, v);
  }

  function EncodingOf(x: seq<u8>): Result<ZfsNvlist.Encoding, Error>
    requires |x| == ZfsNvlist.ENCODING_SIZE
  {
    DecodeEncoding(x[0])
  }

  function EndiannessOf(x: seq<u8>): Result<ZfsNvlist.Endianness, Error>
    requires |x| == ZfsNvlist.ENDIANNESS_SIZE
  {
    DecodeEndianness(x[0])
  }

  /** `StreamHeader::read`: two one-byte reads, then `seek(Current(2))`. */
  function HeaderStep(data: seq<u8>, pos: nat): Cursor.Step<ZfsNvlist.StreamHeader>
  {
    var e := Cursor.TryReadAs(data, pos, ZfsNvlist.ENCODING_SIZE, EncodingOf);
    if e.result.Err? then Cursor.Fail(e)
    else
      var n := Cursor.TryReadAs(data, e.pos, ZfsNvlist.ENDIANNESS_SIZE, EndiannessOf);
      if n.result.Err? then Cursor.Fail(n)
      else
        var s := Cursor.Seek(data, n.pos, Cursor.Current(RESERVED_SIZE));
        if s.result.Err? then Cursor.Fail(s)
        else Cursor.Step(Ok(ZfsNvlist.StreamHeader(e.result.value, n.result.value)), s.pos)
  }

  /** `List::read`: header, version, flags. */
  function ListStep(data: seq<u8>, pos: nat): Cursor.Step<ZfsNvlist.List>
  {
    var h := HeaderStep(data, pos);
    if h.result.Err? then Cursor.Fail(h)
    else
      var v := Cursor.TryReadAs(data, h.pos, VERSION_SIZE, DecodeVersion);
      if v.result.Err? then Cursor.Fail(v)
      else
        var f := Cursor.ReadAs(data, v.pos, FLAGS_SIZE, DecodeFlags);
        if f.result.Err? then Cursor.Fail(f)
        else Cursor.Step(Ok(ZfsNvlist.List(h.result.value, v.result.value, f.result.value)), f.pos)
  }

  /** `Encoding::read`: `read_exact` into a one-byte buffer, then `decode`. */
  method ReadEncoding(r: BinaryReader.Reader) returns (res: Result<ZfsNvlist.Encoding, Error>)
    requires r.Valid()
    modifies r
    ensures r.Valid()
    ensures Cursor.Step(res, r.pos) == Cursor.TryReadAs(r.data, old(r.pos), ZfsNvlist.ENCODING_SIZE, EncodingOf)
  {
    var buf := new u8[ZfsNvlist.ENCODING_SIZE];
    var read := r.Read(buf);
    if read.Err? {
      return Err(read.error);
    }
    res := DecodeEncoding(buf[0]);
  }

  /** `Endianness::read`. */
  method ReadEndianness(r: BinaryReader.Reader) returns (res: Result<ZfsNvlist.Endianness, Error>)
    requires r.Valid()
    modifies r
    ensures r.Valid()
    ensures Cursor.Step(res, r.pos) == Cursor.TryReadAs(r.data, old(r.pos), ZfsNvlist.ENDIANNESS_SIZE, EndiannessOf)
  {
    var buf := new u8[ZfsNvlist.ENDIANNESS_SIZE];
    var read := r.Read(buf);
    if read.Err? {
      return Err(read.error);
    }
    res := DecodeEndianness(buf[0]);
  }

  /** `Version::read`: `read_exact` into a four-byte buffer, then `decode`. */
  method ReadVersion(r: BinaryReader.Reader) returns (res: Result<ZfsNvlist.Version, Error>)
    requires r.Valid()
    modifies r
    ensures r.Valid()
    ensures Cursor.Step(res, r.pos) == Cursor.TryReadAs(r.data, old(r.pos), VERSION_SIZE, DecodeVersion)
  {
    var buf := new u8[VERSION_SIZE];
    var read := r.Read(buf);
    if read.Err? {
      return Err(read.error);
    }
    res := DecodeVersion(buf[..]);
  }

  /** `Flags::read`: the decode cannot fail once the four bytes are read. */
  method ReadFlags(r: BinaryReader.Reader) returns (res: Result<seq<ZfsNvlist.Flag>, Error>)
    requires r.Valid()
    modifies r
    ensures r.Valid()
    ensures Cursor.Step(res, r.pos) == Cursor.ReadAs(r.data, old(r.pos), FLAGS_SIZE, DecodeFlags)
  {
    var buf := new u8[FLAGS_SIZE];
    var read := r.Read(buf);
    if read.Err? {
      return Err(read.error);
    }
    res := Ok(DecodeFlags(buf[..]));
  }

  /** `StreamHeader::read`. */
  method ReadHeader(r: BinaryReader.Reader) returns (res: Result<ZfsNvlist.StreamHeader, Error>)
    requires r.Valid()
    modifies r
    ensures r.Valid()
    ensures Cursor.Step(res, r.pos) == HeaderStep(r.data, old(r.pos))
  {
    var encoding := ReadEncoding(r);
    if encoding.Err? {
      return Err(encoding.error);
    }
    var endianness := ReadEndianness(r);
    if endianness.Err? {
      return Err(endianness.error);
    }
    var seeked := r.Seek(Cursor.Current(RESERVED_SIZE));
    if seeked.Err? {
      return Err(seeked.error);
    }
    res := Ok(ZfsNvlist.StreamHeader(encoding.value, endianness.value));
  }

  /** `List::read`. */
  method ReadList(r: BinaryReader.Reader) returns (res: Result<ZfsNvlist.List, Error>)
    requires r.Valid()
    modifies r
    ensures r.Valid()
    ensures Cursor.Step(res, r.pos) == ListStep(r.data, old(r.pos))
  {
    var header := ReadHeader(r);
    if header.Err? {
      return Err(header.error);
    }
    var version := ReadVersion(r);
    if version.Err? {
      return Err(version.error);
    }
    var flags := ReadFlags(r);
    if flags.Err? {
      return Err(flags.error);
    }
    res := Ok(ZfsNvlist.List(header.value, version.value, flags.value));
  }

  /** Seeking two bytes forward and skipping two bytes read the same header. */
  lemma SameHeader(data: seq<u8>, p: nat)
    ensures HeaderStep(data, p) == ZfsNvlist.HeaderStep(data, p)
  {
  }

  /**
   * The two generations read the same streams the same way, except for a
   * version other than 0: the older reader reports it as `InvalidInput`
   * carrying the version, where the `zfs` crate panics. The cursor ends at
   * the same place in every case.
   */
  lemma CrossVersion(data: seq<u8>, p: nat)
    ensures var l := ListStep(data, p); var z := ZfsNvlist.ListStep(data, p);
            l.pos == z.pos
            && (z.result != Err(Panic(UnwrapOnNone)) ==> l.result == z.result)
            && (z.result == Err(Panic(UnwrapOnNone)) ==>
                  p + 8 <= |data| && l.result == Err(InvalidInput(XdrPrimitive.DecodeI32(data[p + 4..p + 8]))))
  {
    SameHeader(data, p);
    var h := HeaderStep(data, p);
    if h.result.Ok? {
      ZfsNvlist.HeaderOk(data, p);
      VersionsAgree(data, h.pos);
      var v := Cursor.TryReadAs(data, h.pos, VERSION_SIZE, DecodeVersion);
      if v.result.Ok? {
        FlagsStepsAgree(data, v.pos);
      }
    }
  }

  lemma FlagsStepsAgree(data: seq<u8>, q: nat)
    ensures Cursor.ReadAs(data, q, FLAGS_SIZE, DecodeFlags) == Cursor.ReadAs(data, q, XdrPrimitive.I32_SIZE, ZfsNvlist.FlagsOf)
  {
  }

  /** After the header, the version words are read alike and only an unknown version is reported differently. */
  lemma VersionsAgree(data: seq<u8>, q: nat)
    ensures var l := Cursor.TryReadAs(data, q, VERSION_SIZE, DecodeVersion);
            var z := ZfsNvlist.VersionStep(data, q);
            l.pos == z.pos
            && (z.result != Err(Panic(UnwrapOnNone)) ==> l.result == z.result)
            && (z.result == Err(Panic(UnwrapOnNone)) ==>
                  q + 4 <= |data| && l.result == Err(InvalidInput(XdrPrimitive.DecodeI32(data[q..q + 4]))))
  {
  }

  /** An invalid encoding byte fails before the endianness byte is read: exactly one byte is consumed. */
  lemma BadEncodingFirst(data: seq<u8>, p: nat)
    requires p < |data| && data[p] > 1
    ensures ListStep(data, p) == Cursor.Step(Err(InvalidInput(data[p])), p + 1)
  {
    CrossVersion(data, p);
    ZfsNvlist.BadEncoding(data, p);
  }

  /** An unknown version is an error, not a panic, once 8 bytes were consumed. */
  lemma VersionRejected(data: seq<u8>, p: nat)
    requires p + 8 <= |data| && p + ZfsNvlist.HEADER_SIZE <= I64_MAX && data[p] <= 1 && data[p + 1] <= 1
    requires XdrPrimitive.DecodeI32(data[p + 4..p + 8]) != 0
    ensures ListStep(data, p) == Cursor.Step(Err(InvalidInput(XdrPrimitive.DecodeI32(data[p + 4..p + 8]))), p + 8)
  {
    CrossVersion(data, p);
    ZfsNvlist.VersionPanics(data, p);
  }

  /** Round trip, and a successful read consumes exactly 12 bytes, as in the `zfs` crate. */
  lemma RoundTrip(prefix: seq<u8>, l: ZfsNvlist.List, reserved: seq<u8>, rest: seq<u8>)
    requires |reserved| == 2 && ZfsNvlist.Canonical(l.flags)
    requires |prefix| + ZfsNvlist.LIST_SIZE <= I64_MAX
    ensures ListStep(prefix + ZfsNvlist.EncodeList(l, reserved) + rest, |prefix|)
            == Cursor.Step(Ok(l), |prefix| + ZfsNvlist.LIST_SIZE)
  {
    CrossVersion(prefix + ZfsNvlist.EncodeList(l, reserved) + rest, |prefix|);
    ZfsNvlist.ListRoundTrip(prefix, l, reserved, rest);
  }

  lemma Consumes(data: seq<u8>, p: nat)
    requires ListStep(data, p).result.Ok?
    ensures ListStep(data, p).pos == p + ZfsNvlist.LIST_SIZE <= |data|
  {
    CrossVersion(data, p);
    ZfsNvlist.ListConsumes(data, p);
  }
}
