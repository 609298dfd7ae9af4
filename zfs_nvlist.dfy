/**
 * The nvlist stream header of the `zfs` crate, read from a vdev label:
 * a one-byte encoding, a one-byte endianness, two reserved bytes, then
 * the XDR `Version` enumeration and the XDR `Flags` bitmask, each a
 * big-endian 32-bit word. `Encoding` and `Endianness` are `int_enum(u8)`
 * enums; `Version` and `Flags` are the table-driven `Enum` and `Bitmask`
 * decoders, so an unknown version panics and unknown flag bits are
 * ignored. The header part is shared, line for line, with the `nvlist`
 * crate, which reuses `StreamHeader` from here.
 */
module ZfsNvlist {
  import opened Types
  import opened Mapping
  import Cursor
  import BinaryReader
  import XdrPrimitive
  import IntEnum
  import ZfsXdr

  datatype Encoding = Native | XDR
  datatype Endianness = Big | Little
  datatype StreamHeader = StreamHeader(encoding: Encoding, endianness: Endianness)
  datatype Version = V0
  datatype Flag = UniqueName | UniqueNameType
  datatype List = List(header: StreamHeader, version: Version, flags: seq<Flag>)

  const ENCODING_SIZE: nat := 1
  const ENDIANNESS_SIZE: nat := 1
  const RESERVED_SIZE: u32 := 2
  const HEADER_SIZE: nat := 4
  const LIST_SIZE: nat := 12

  /** The discriminants of the `int_enum(u8)` enums. */
  const ENCODING_TABLE: Table<Encoding> := [(Native, 0), (XDR, 1)]
  const ENDIANNESS_TABLE: Table<Endianness> := [(Big, 0), (Little, 1)]

  /** `VERSION_MAPPING` and `FLAGS_MAPPING`. */
  const VERSION_MAPPING: Table<Version> := [(V0, 0)]
  const FLAGS_MAPPING: Table<Flag> := [(UniqueName, 0x1), (UniqueNameType, 0x2)]

  /** `Encoding::decode`: `try_from` of the byte; a byte with no variant becomes `InvalidInput` carrying it. */
  function DecodeEncoding(x: u8): (r: Result<Encoding, Error>)
    ensures r == Ok(Native) <==> x == 0
    ensures r == Ok(XDR) <==> x == 1
    ensures r.Err? <==> x > 1
    ensures r.Err? ==> r.error == InvalidInput(x)
  {
    match IntEnum.TryFrom(ENCODING_TABLE, x)
    case Ok(v) => Ok(v)
    case Err(n) => Err(InvalidInput(n))
  }

  /** `Endianness::decode`: 0 is big-endian, 1 little-endian, any other byte `InvalidInput`. */
  function DecodeEndianness(x: u8): (r: Result<Endianness, Error>)
    ensures r == Ok(Big) <==> x == 0
    ensures r == Ok(Little) <==> x == 1
    ensures r.Err? <==> x > 1
    ensures r.Err? ==> r.error == InvalidInput(x)
  {
    match IntEnum.TryFrom(ENDIANNESS_TABLE, x)
    case Ok(v) => Ok(v)
    case Err(n) => Err(InvalidInput(n))
  }

  /** The closures handed to `try_read_as`: decode `x[0]`. */
  function EncodingOf(x: seq<u8>): Result<Encoding, Error>
    requires |x| == ENCODING_SIZE
  {
    DecodeEncoding(x[0])
  }

  function EndiannessOf(x: seq<u8>): Result<Endianness, Error>
    requires |x| == ENDIANNESS_SIZE
  {
    DecodeEndianness(x[0])
  }

  /** `Version.decode`: only the word 0 is a version; any other integer panics in `unwrap`. */
  function VersionOf(x: seq<u8>): (r: Result<Version, Error>)
    requires |x| == XdrPrimitive.I32_SIZE
    ensures r.Ok? <==> XdrPrimitive.DecodeI32(x) == 0
    ensures r.Err? ==> r.error == Panic(UnwrapOnNone)
  {
    ZfsXdr.EnumDecode(VERSION_MAPPING, x)
  }

  /**
   * `Flags.decode`: `UniqueName` when bit 0 of the word is set, then
   * `UniqueNameType` when bit 1 is set; every other bit is ignored.
   */
  function FlagsOf(x: seq<u8>): (r: seq<Flag>)
    requires |x| == XdrPrimitive.I32_SIZE
    ensures var v := XdrPrimitive.DecodeI32(x);
            r == (if v % 2 == 1 then [UniqueName] else []) + (if (v / 2) % 2 == 1 then [UniqueNameType] else [])
  {
    FlagsSelect(XdrPrimitive.DecodeI32(x));
    ZfsXdr.BitmaskDecode(FLAGS_MAPPING, x)
  }

  lemma FlagsSelect(v: int)
    ensures Select(FLAGS_MAPPING, v)
            == (if v % 2 == 1 then [UniqueName] else []) + (if (v / 2) % 2 == 1 then [UniqueNameType] else [])
  {
    var rest := FLAGS_MAPPING[1..];
    assert rest == [(UniqueNameType, 0x2)] && rest[1..] == [];
    assert Select(rest, v) == if Overlaps(2, v) then [UniqueNameType] else [];
    assert Select(FLAGS_MAPPING, v) == (if Overlaps(1, v) then [UniqueName] else []) + Select(rest, v);
    OverlapsOne(v);
    OverlapsTwo(v);
  }

  /** `StreamHeader::read`: encoding, endianness, then `skip(2)`; each step runs only after the previous one succeeded. */
  function HeaderStep(data: seq<u8>, pos: nat): Cursor.Step<StreamHeader>
  {
    var e := Cursor.TryReadAs(data, pos, ENCODING_SIZE, EncodingOf);
    if e.result.Err? then Cursor.Fail(e)
    else
      var n := Cursor.TryReadAs(data, e.pos, ENDIANNESS_SIZE, EndiannessOf);
      if n.result.Err? then Cursor.Fail(n)
      else
        var s := Cursor.Skip(n.pos, RESERVED_SIZE);
        if s.result.Err? then Cursor.Fail(s)
        else Cursor.Step(Ok(StreamHeader(e.result.value, n.result.value)), s.pos)
  }

  /** `Version.read`: `read_as` of 4 bytes, whose decoder may panic after the bytes were consumed. */
  function VersionStep(data: seq<u8>, pos: nat): Cursor.Step<Version>
  {
    var s := Cursor.ReadAs(data, pos, XdrPrimitive.I32_SIZE, VersionOf);
    if s.result.Err? then Cursor.Fail(s) else Cursor.Step(s.result.value, s.pos)
  }

  /** `List::read`: header, version and flags, strictly in that order. */
  function ListStep(data: seq<u8>, pos: nat): Cursor.Step<List>
  {
    var h := HeaderStep(data, pos);
    if h.result.Err? then Cursor.Fail(h)
    else
      var v := VersionStep(data, h.pos);
      if v.result.Err? then Cursor.Fail(v)
      else
        var f := Cursor.ReadAs(data, v.pos, XdrPrimitive.I32_SIZE, FlagsOf);
        if f.result.Err? then Cursor.Fail(f)
        else Cursor.Step(Ok(List(h.result.value, v.result.value, f.result.value)), f.pos)
  }

  /** `Encoding::read`. */
  method ReadEncoding(r: BinaryReader.Reader) returns (res: Result<Encoding, Error>)
    requires r.Valid()
    modifies r
    ensures r.Valid()
    ensures Cursor.Step(res, r.pos) == Cursor.TryReadAs(r.data, old(r.pos), ENCODING_SIZE, EncodingOf)
  {
    res := r.TryReadAs(ENCODING_SIZE, EncodingOf);
  }

  /** `Endianness::read`. */
  method ReadEndianness(r: BinaryReader.Reader) returns (res: Result<Endianness, Error>)
    requires r.Valid()
    modifies r
    ensures r.Valid()
    ensures Cursor.Step(res, r.pos) == Cursor.TryReadAs(r.data, old(r.pos), ENDIANNESS_SIZE, EndiannessOf)
  {
    res := r.TryReadAs(ENDIANNESS_SIZE, EndiannessOf);
  }

  /** `StreamHeader::read`. */
  method ReadHeader(r: BinaryReader.Reader) returns (res: Result<StreamHeader, Error>)
    requires r.Valid()
    modifies r
    ensures r.Valid()
    ensures Cursor.Step(res, r.pos) == HeaderStep(r.data, old(r.pos))
  {
    var encoding := ReadEncoding(r);
    if encoding.Err? {
      return Err(encoding.error);
    }
    var endianness := ReadEndianness(r);
    if endianness.Err? {
      return Err(endianness.error);
    }
    var skipped := r.Skip(RESERVED_SIZE);
    if skipped.Err? {
      return Err(skipped.error);
    }
    res := Ok(StreamHeader(encoding.value, endianness.value));
  }

  /** `Version.read(r)`. */
  method ReadVersion(r: BinaryReader.Reader) returns (res: Result<Version, Error>)
    requires r.Valid()
    modifies r
    ensures r.Valid()
    ensures Cursor.Step(res, r.pos) == VersionStep(r.data, old(r.pos))
  {
    var decoded := r.ReadAs(XdrPrimitive.I32_SIZE, VersionOf);
    match decoded {
      case Err(e) => res := Err(e);
      case Ok(v) => res := v;
    }
  }

  /** `Flags.read(r)`. */
  method ReadFlags(r: BinaryReader.Reader) returns (res: Result<seq<Flag>, Error>)
    requires r.Valid()
    modifies r
    ensures r.Valid()
    ensures Cursor.Step(res, r.pos) == Cursor.ReadAs(r.data, old(r.pos), XdrPrimitive.I32_SIZE, FlagsOf)
  {
    res := r.ReadAs(XdrPrimitive.I32_SIZE, FlagsOf);
  }

  /** `List::read`. */
  method ReadList(r: BinaryReader.Reader) returns (res: Result<List, Error>)
    requires r.Valid()
    modifies r
    ensures r.Valid()
    ensures Cursor.Step(res, r.pos) == ListStep(r.data, old(r.pos))
  {
    var header := ReadHeader(r);
    if header.Err? {
      return Err(header.error);
    }
    var version := ReadVersion(r);
    if version.Err? {
      return Err(version.error);
    }
    var flags := ReadFlags(r);
    if flags.Err? {
      return Err(flags.error);
    }
    res := Ok(List(header.value, version.value, flags.value));
  }

  /** `From<Encoding> for u8`. */
  function EncodingByte(e: Encoding): u8
  {
    match e
    case Native => 0
    case XDR => 1
  }

  /** `From<Endianness> for u8`. */
  function EndiannessByte(e: Endianness): u8
  {
    match e
    case Big => 0
    case Little => 1
  }

  /** The bitmask word of a list of flags. */
  function FlagsMask(fs: seq<Flag>): i32
  {
    (if UniqueName in fs then 1 else 0) + (if UniqueNameType in fs then 2 else 0)
  }

  /** The flag lists `Flags.decode` can return: a subsequence of the mapping's tags. */
  predicate Canonical(fs: seq<Flag>)
  {
    fs == [] || fs == [UniqueName] || fs == [UniqueNameType] || fs == [UniqueName, UniqueNameType]
  }

  /** The 12 bytes of a stream header, with the two reserved bytes given. */
  function EncodeList(l: List, reserved: seq<u8>): (x: seq<u8>)
    requires |reserved| == 2
    ensures |x| == LIST_SIZE
  {
    [EncodingByte(l.header.encoding), EndiannessByte(l.header.endianness)] + reserved
      + XdrPrimitive.EncodeI32(0) + XdrPrimitive.EncodeI32(FlagsMask(l.flags))
  }

  /** The byte encodings of `Encoding` and `Endianness` are inverted by their decoders. */
  lemma HeaderBytesRoundTrip(h: StreamHeader)
    ensures DecodeEncoding(EncodingByte(h.encoding)) == Ok(h.encoding)
    ensures DecodeEndianness(EndiannessByte(h.endianness)) == Ok(h.endianness)
  {
  }

  /** The header at `p`, when both bytes are known and the reserved bytes fit before the largest offset. */
  lemma HeaderAt(data: seq<u8>, p: nat)
    requires p + 2 <= |data| && p + HEADER_SIZE <= I64_MAX
    requires data[p] <= 1 && data[p + 1] <= 1
    ensures HeaderStep(data, p)
            == Cursor.Step(Ok(StreamHeader(DecodeEncoding(data[p]).value, DecodeEndianness(data[p + 1]).value)), p + HEADER_SIZE)
  {
    assert data[p..p + 1] == [data[p]];
    assert data[p + 1..p + 2] == [data[p + 1]];
  }

  /** The two words after the header, decoded. */
  lemma WordsAt(data: seq<u8>, p: nat)
    requires p + 8 <= |data|
    ensures VersionStep(data, p) == Cursor.Step(VersionOf(data[p..p + 4]), p + 4)
    ensures Cursor.ReadAs(data, p + 4, XdrPrimitive.I32_SIZE, FlagsOf) == Cursor.Step(Ok(FlagsOf(data[p + 4..p + 8])), p + 8)
  {
  }

  /** The list at `p` once the header bytes are known: a zero version word gives a list, any other word panics. */
  lemma ListAt(data: seq<u8>, p: nat)
    requires p + LIST_SIZE <= |data| && p + HEADER_SIZE <= I64_MAX
    requires data[p] <= 1 && data[p + 1] <= 1
    ensures var h := StreamHeader(DecodeEncoding(data[p]).value, DecodeEndianness(data[p + 1]).value);
            ListStep(data, p)
            == if XdrPrimitive.DecodeI32(data[p + 4..p + 8]) == 0
               then Cursor.Step(Ok(List(h, V0, FlagsOf(data[p + 8..p + 12]))), p + LIST_SIZE)
               else Cursor.Step(Err(Panic(UnwrapOnNone)), p + 8)
  {
    HeaderAt(data, p);
    WordsAt(data, p + HEADER_SIZE);
  }

  /** The flags of a canonical list survive their bitmask word. */
  lemma FlagsRoundTrip(fs: seq<Flag>)
    requires Canonical(fs)
    ensures FlagsOf(XdrPrimitive.EncodeI32(FlagsMask(fs))) == fs
  {
    var m := FlagsMask(fs);
    XdrPrimitive.I32Bijection(m, XdrPrimitive.EncodeI32(m));
  }

  /**
   * Round trip: the 12 bytes of a list with canonical flags, at a position
   * whose end is a valid offset, decode to that list whatever the
   * reserved bytes and whatever follows, consuming exactly 12 bytes.
   */
  lemma ListRoundTrip(prefix: seq<u8>, l: List, reserved: seq<u8>, rest: seq<u8>)
    requires |reserved| == 2 && Canonical(l.flags)
    requires |prefix| + LIST_SIZE <= I64_MAX
    ensures ListStep(prefix + EncodeList(l, reserved) + rest, |prefix|) == Cursor.Step(Ok(l), |prefix| + LIST_SIZE)
  {
    ListParts(prefix, l, reserved, rest);
    ListOfParts(prefix + EncodeList(l, reserved) + rest, |prefix|, l);
  }

  lemma ListOfParts(data: seq<u8>, p: nat, l: List)
    requires p + LIST_SIZE <= |data| && p + LIST_SIZE <= I64_MAX
    requires data[p] == EncodingByte(l.header.encoding) && data[p + 1] == EndiannessByte(l.header.endianness)
    requires XdrPrimitive.DecodeI32(data[p + 4..p + 8]) == 0 && FlagsOf(data[p + 8..p + 12]) == l.flags
    ensures ListStep(data, p) == Cursor.Step(Ok(l), p + LIST_SIZE)
  {
    HeaderBytesRoundTrip(l.header);
    ListAt(data, p);
    assert StreamHeader(DecodeEncoding(data[p]).value, DecodeEndianness(data[p + 1]).value) == l.header;
    assert l.version == V0;
  }

  lemma ListParts(prefix: seq<u8>, l: List, reserved: seq<u8>, rest: seq<u8>)
    requires |reserved| == 2 && Canonical(l.flags)
    ensures var data := prefix + EncodeList(l, reserved) + rest; var p := |prefix|;
            |data| >= p + LIST_SIZE
            && data[p] == EncodingByte(l.header.encoding) && data[p + 1] == EndiannessByte(l.header.endianness)
            && XdrPrimitive.DecodeI32(data[p + 4..p + 8]) == 0
            && FlagsOf(data[p + 8..p + 12]) == l.flags
            && XdrPrimitive.DecodeI32(data[p + 8..p + 12]) == FlagsMask(l.flags)
  {
    var data := prefix + EncodeList(l, reserved) + rest;
    var p := |prefix|;
    ListSlices(prefix, l, reserved, rest);
    WordsRoundTrip(l.flags, data[p + 4..p + 8], data[p + 8..p + 12]);
  }

  /** The fields of an encoded list, read straight off its 12 bytes. */
  lemma EncodedBytes(l: List, reserved: seq<u8>)
    requires |reserved| == 2
    ensures var x := EncodeList(l, reserved);
            x[0] == EncodingByte(l.header.encoding) && x[1] == EndiannessByte(l.header.endianness)
            && XdrPrimitive.DecodeI32(x[4..8]) == 0 && XdrPrimitive.DecodeI32(x[8..12]) == FlagsMask(l.flags)
  {
    var x := EncodeList(l, reserved);
    assert x[4..8] == XdrPrimitive.EncodeI32(0);
    assert x[8..12] == XdrPrimitive.EncodeI32(FlagsMask(l.flags));
    XdrPrimitive.I32Bijection(0, x[4..8]);
    XdrPrimitive.I32Bijection(FlagsMask(l.flags), x[8..12]);
  }

  /** The flags word of an encoded list decodes to its (canonical) flags. */
  lemma EncodedFlags(l: List, reserved: seq<u8>)
    requires |reserved| == 2 && Canonical(l.flags)
    ensures FlagsOf(EncodeList(l, reserved)[8..12]) == l.flags
  {
    assert EncodeList(l, reserved)[8..12] == XdrPrimitive.EncodeI32(FlagsMask(l.flags));
    FlagsRoundTrip(l.flags);
  }

  lemma ListSlices(prefix: seq<u8>, l: List, reserved: seq<u8>, rest: seq<u8>)
    requires |reserved| == 2
    ensures var data := prefix + EncodeList(l, reserved) + rest; var p := |prefix|;
            |data| >= p + LIST_SIZE
            && data[p] == EncodingByte(l.header.encoding) && data[p + 1] == EndiannessByte(l.header.endianness)
            && data[p + 4..p + 8] == XdrPrimitive.EncodeI32(0)
            && data[p + 8..p + 12] == XdrPrimitive.EncodeI32(FlagsMask(l.flags))
  {
    var data := prefix + EncodeList(l, reserved) + rest;
    var p := |prefix|;
    assert data[p..p + LIST_SIZE] == EncodeList(l, reserved);
    assert data[p + 4..p + 8] == EncodeList(l, reserved)[4..8];
    assert data[p + 8..p + 12] == EncodeList(l, reserved)[8..12];
  }

  lemma WordsRoundTrip(fs: seq<Flag>, v: seq<u8>, f: seq<u8>)
    requires Canonical(fs)
    requires v == XdrPrimitive.EncodeI32(0) && f == XdrPrimitive.EncodeI32(FlagsMask(fs))
    ensures XdrPrimitive.DecodeI32(v) == 0 && FlagsOf(f) == fs && XdrPrimitive.DecodeI32(f) == FlagsMask(fs)
  {
    XdrPrimitive.I32Bijection(0, v);
    XdrPrimitive.I32Bijection(FlagsMask(fs), f);
    FlagsRoundTrip(fs);
  }

  /**
   * Conversely, a successful read consumed exactly 12 bytes: a known
   * encoding and endianness byte, a zero version word, and a flags word
   * whose two low bits are the returned flags.
   */
  lemma ListConsumes(data: seq<u8>, p: nat)
    requires ListStep(data, p).result.Ok?
    ensures var s := ListStep(data, p); var l := s.result.value;
            s.pos == p + LIST_SIZE && s.pos <= |data|
            && data[p] == EncodingByte(l.header.encoding) && data[p + 1] == EndiannessByte(l.header.endianness)
            && data[p + 4..p + 8] == [0, 0, 0, 0]
            && Canonical(l.flags)
            && FlagsMask(l.flags) == XdrPrimitive.DecodeI32(data[p + 8..p + 12]) % 4
  {
    ListOkAt(data, p);
    DecodedBytes(data[p], data[p + 1]);
    ZeroWord(data[p + 4..p + 8]);
    FlagsCanonical(data[p + 8..p + 12]);
  }

  lemma ListOkAt(data: seq<u8>, p: nat)
    requires ListStep(data, p).result.Ok?
    ensures p + LIST_SIZE <= |data| && data[p] <= 1 && data[p + 1] <= 1
    ensures XdrPrimitive.DecodeI32(data[p + 4..p + 8]) == 0
    ensures ListStep(data, p)
            == Cursor.Step(Ok(List(StreamHeader(DecodeEncoding(data[p]).value, DecodeEndianness(data[p + 1]).value),
                                   V0, FlagsOf(data[p + 8..p + 12]))), p + LIST_SIZE)
  {
    ListOk(data, p);
    ListAt(data, p);
  }

  /** A known header byte is the byte of what it decodes to. */
  lemma DecodedBytes(e: u8, n: u8)
    requires e <= 1 && n <= 1
    ensures EncodingByte(DecodeEncoding(e).value) == e && EndiannessByte(DecodeEndianness(n).value) == n
  {
  }

  /** `Flags.decode` yields a canonical list, and its mask is the word's two low bits. */
  lemma FlagsCanonical(x: seq<u8>)
    requires |x| == XdrPrimitive.I32_SIZE
    ensures Canonical(FlagsOf(x)) && FlagsMask(FlagsOf(x)) == XdrPrimitive.DecodeI32(x) % 4
  {
    var v := XdrPrimitive.DecodeI32(x);
    FlagsOfBits(v % 2 == 1, (v / 2) % 2 == 1);
    ModFour(v);
  }

  lemma FlagsOfBits(one: bool, two: bool)
    ensures var fs := (if one then [UniqueName] else []) + (if two then [UniqueNameType] else []);
            Canonical(fs) && FlagsMask(fs) == (if one then 1 else 0) + (if two then 2 else 0)
  {
    if one && two {
      assert ([UniqueName] + [UniqueNameType])[1] == UniqueNameType;
    }
  }

  /** What a successful read needs: the 12 bytes are there and both header bytes are known. */
  lemma ListOk(data: seq<u8>, p: nat)
    requires ListStep(data, p).result.Ok?
    ensures p + LIST_SIZE <= |data| && p + HEADER_SIZE <= I64_MAX && data[p] <= 1 && data[p + 1] <= 1
  {
    HeaderOk(data, p);
  }

  lemma HeaderOk(data: seq<u8>, p: nat)
    requires HeaderStep(data, p).result.Ok?
    ensures p + 2 <= |data| && p + HEADER_SIZE <= I64_MAX && data[p] <= 1 && data[p + 1] <= 1
    ensures HeaderStep(data, p).pos == p + HEADER_SIZE
  {
    assert data[p..p + 1] == [data[p]];
    assert data[p + 1..p + 2] == [data[p + 1]];
  }

  /** Only four zero bytes make the word 0. */
  lemma ZeroWord(x: seq<u8>)
    requires |x| == XdrPrimitive.I32_SIZE && XdrPrimitive.DecodeI32(x) == 0
    ensures x == [0, 0, 0, 0]
  {
  }

  lemma ModFour(v: int)
    ensures v % 4 == v % 2 + 2 * ((v / 2) % 2)
  {
  }

  /** An encoding byte other than 0 or 1 stops the read after that one byte, with `InvalidInput` carrying it. */
  lemma BadEncoding(data: seq<u8>, p: nat)
    requires p < |data| && data[p] > 1
    ensures ListStep(data, p) == Cursor.Step(Err(InvalidInput(data[p])), p + 1)
  {
    assert data[p..p + 1] == [data[p]];
  }

  /** A known encoding followed by an unknown endianness byte stops the read after two bytes. */
  lemma BadEndianness(data: seq<u8>, p: nat)
    requires p + 1 < |data| && data[p] <= 1 && data[p + 1] > 1
    ensures ListStep(data, p) == Cursor.Step(Err(InvalidInput(data[p + 1])), p + 2)
  {
    assert data[p..p + 1] == [data[p]];
    assert data[p + 1..p + 2] == [data[p + 1]];
  }

  /** A version word other than 0 reaches the `unwrap` of `Enum::decode`: a panic, after 8 bytes. */
  lemma VersionPanics(data: seq<u8>, p: nat)
    requires p + 8 <= |data| && p + HEADER_SIZE <= I64_MAX && data[p] <= 1 && data[p + 1] <= 1
    requires XdrPrimitive.DecodeI32(data[p + 4..p + 8]) != 0
    ensures ListStep(data, p) == Cursor.Step(Err(Panic(UnwrapOnNone)), p + 8)
  {
    HeaderAt(data, p);
    assert VersionStep(data, p + 4) == Cursor.Step(VersionOf(data[p + 4..p + 8]), p + 8);
  }

  /** `[1, 0, 0, 0, 0, 0, 0, 0, 0, 0, 0, 2]` is an XDR, big-endian, version 0 list with `UniqueNameType` set. */
  lemma Example()
    ensures ListStep([1, 0, 0, 0, 0, 0, 0, 0, 0, 0, 0, 2], 0)
            == Cursor.Step(Ok(List(StreamHeader(XDR, Big), V0, [UniqueNameType])), 12)
  {
    var l := List(StreamHeader(XDR, Big), V0, [UniqueNameType]);
    ExampleBytes(l);
    ListRoundTrip([], l, [0, 0], []);
    assert [] + EncodeList(l, [0, 0]) + [] == EncodeList(l, [0, 0]);
  }

  lemma ExampleBytes(l: List)
    requires l == List(StreamHeader(XDR, Big), V0, [UniqueNameType])
    ensures EncodeList(l, [0, 0]) == [1, 0, 0, 0, 0, 0, 0, 0, 0, 0, 0, 2]
  {
    assert FlagsMask(l.flags) == 2;
    assert XdrPrimitive.EncodeI32(0) == [0, 0, 0, 0];
    assert XdrPrimitive.EncodeI32(2) == [0, 0, 0, 2];
  }

  /** The native encoding is not rejected: version and flags are read after it all the same. */
  lemma NativeAccepted(endianness: Endianness, flags: seq<Flag>, reserved: seq<u8>)
    requires Canonical(flags) && |reserved| == 2
    ensures ListStep(EncodeList(List(StreamHeader(Native, endianness), V0, flags), reserved), 0).result
            == Ok(List(StreamHeader(Native, endianness), V0, flags))
  {
    var l := List(StreamHeader(Native, endianness), V0, flags);
    ListRoundTrip([], l, reserved, []);
    assert [] + EncodeList(l, reserved) + [] == EncodeList(l, reserved);
  }
}
