/**
 * The stream reader of the `nvlist` crate. It reads the same stream
 * header as the `zfs` crate, refuses the native encoding with
 * `unimplemented!`, and reads `Version` and `Flags` as XDR enumerations
 * derived with the XDR macro: a version other than 0 is an
 * `InvalidInput` error, and the flags word must be exactly one flag.
 */
module NvlistInternal {
  import opened Types
  import opened Mapping
  import Cursor
  import BinaryReader
  import XdrPrimitive
  import XdrEnumMacro
  import ZfsNvlist

  datatype Nvlist = Nvlist(version: ZfsNvlist.Version, flags: ZfsNvlist.Flag)
  datatype Nvstream = Nvstream(header: ZfsNvlist.StreamHeader, nvlist: Nvlist)

  /** The discriminants of the derived `Version` and `Flags` enums. */
  const VERSION_TABLE: Table<ZfsNvlist.Version> := [(ZfsNvlist.V0, 0)]
  const FLAGS_TABLE: Table<ZfsNvlist.Flag> := [(ZfsNvlist.UniqueName, 0x1), (ZfsNvlist.UniqueNameType, 0x2)]

  /** The derived `Version::read` decoder: 0 is `V0`, any other word an `InvalidInput` error carrying it. */
  function VersionOf(x: seq<u8>): (r: Result<ZfsNvlist.Version, Error>)
    requires |x| == XdrPrimitive.I32_SIZE
    ensures r.Ok? <==> XdrPrimitive.DecodeI32(x) == 0
    ensures r.Err? ==> r.error == InvalidInput(XdrPrimitive.DecodeI32(x))
  {
    XdrEnumMacro.DecodeOrInvalid(VERSION_TABLE, x)
  }

  /** The derived `Flags::read` decoder: exactly 1 or 2; 0, 3 and every other word are `InvalidInput`. */
  function FlagOf(x: seq<u8>): (r: Result<ZfsNvlist.Flag, Error>)
    requires |x| == XdrPrimitive.I32_SIZE
    ensures r == Ok(ZfsNvlist.UniqueName) <==> XdrPrimitive.DecodeI32(x) == 1
    ensures r == Ok(ZfsNvlist.UniqueNameType) <==> XdrPrimitive.DecodeI32(x) == 2
    ensures r.Err? <==> XdrPrimitive.DecodeI32(x) != 1 && XdrPrimitive.DecodeI32(x) != 2
    ensures r.Err? ==> r.error == InvalidInput(XdrPrimitive.DecodeI32(x))
  {
    XdrEnumMacro.DecodeOrInvalid(FLAGS_TABLE, x)
  }

  /** `Nvlist::read`: the version, then the flags. */
  function NvlistStep(data: seq<u8>, pos: nat): Cursor.Step<Nvlist>
  {
    var v := Cursor.TryReadAs(data, pos, XdrPrimitive.I32_SIZE, VersionOf);
    if v.result.Err? then Cursor.Fail(v)
    else
      var f := Cursor.TryReadAs(data, v.pos, XdrPrimitive.I32_SIZE, FlagOf);
      if f.result.Err? then Cursor.Fail(f)
      else Cursor.Step(Ok(Nvlist(v.result.value, f.result.value)), f.pos)
  }

  /** `Nvstream::read`: the header, then, for the XDR encoding only, the nvlist. */
  function NvstreamStep(data: seq<u8>, pos: nat): Cursor.Step<Nvstream>
  {
    var h := ZfsNvlist.HeaderStep(data, pos);
    if h.result.Err? then Cursor.Fail(h)
    else if h.result.value.encoding == ZfsNvlist.Native then Cursor.Step(Err(Panic(Unimplemented)), h.pos)
    else
      var n := NvlistStep(data, h.pos);
      if n.result.Err? then Cursor.Fail(n)
      else Cursor.Step(Ok(Nvstream(h.result.value, n.result.value)), n.pos)
  }

  /** The derived `Version::read`. */
  method ReadVersion(r: BinaryReader.Reader) returns (res: Result<ZfsNvlist.Version, Error>)
    requires r.Valid()
    modifies r
    ensures r.Valid()
    ensures Cursor.Step(res, r.pos) == Cursor.TryReadAs(r.data, old(r.pos), XdrPrimitive.I32_SIZE, VersionOf)
  {
    res := XdrEnumMacro.Read(r, VERSION_TABLE);
  }

  /** The derived `Flags::read`. */
  method ReadFlag(r: BinaryReader.Reader) returns (res: Result<ZfsNvlist.Flag, Error>)
    requires r.Valid()
    modifies r
    ensures r.Valid()
    ensures Cursor.Step(res, r.pos) == Cursor.TryReadAs(r.data, old(r.pos), XdrPrimitive.I32_SIZE, FlagOf)
  {
    res := XdrEnumMacro.Read(r, FLAGS_TABLE);
  }

  /** `Nvlist::read`. */
  method ReadNvlist(r: BinaryReader.Reader) returns (res: Result<Nvlist, Error>)
    requires r.Valid()
    modifies r
    ensures r.Valid()
    ensures Cursor.Step(res, r.pos) == NvlistStep(r.data, old(r.pos))
  {
    var version := ReadVersion(r);
    if version.Err? {
      return Err(version.error);
    }
    var flags := ReadFlag(r);
    if flags.Err? {
      return Err(flags.error);
    }
    res := Ok(Nvlist(version.value, flags.value));
  }

  /** `Nvstream::read`. */
  method ReadNvstream(r: BinaryReader.Reader) returns (res: Result<Nvstream, Error>)
    requires r.Valid()
    modifies r
    ensures r.Valid()
    ensures Cursor.Step(res, r.pos) == NvstreamStep(r.data, old(r.pos))
  {
    var header := ZfsNvlist.ReadHeader(r);
    if header.Err? {
      return Err(header.error);
    }
    if header.value.encoding == ZfsNvlist.Native {
      return Err(Panic(Unimplemented));
    }
    var nvlist := ReadNvlist(r);
    if nvlist.Err? {
      return Err(nvlist.error);
    }
    res := Ok(Nvstream(header.value, nvlist.value));
  }

  /** The discriminant the encoder writes for a flag. */
  function FlagValue(f: ZfsNvlist.Flag): i32
  {
    match f
    case UniqueName => 1
    case UniqueNameType => 2
  }

  /** The 12 bytes of a stream, with the two reserved bytes given: the `zfs` crate's layout with a one-flag word. */
  function Encode(s: Nvstream, reserved: seq<u8>): (x: seq<u8>)
    requires |reserved| == 2
    ensures |x| == ZfsNvlist.LIST_SIZE
  {
    ZfsNvlist.EncodeList(ZfsNvlist.List(s.header, s.nvlist.version, [s.nvlist.flags]), reserved)
  }

  /**
   * The stream at `p` once the encoding is XDR and the endianness is
   * known: a version other than 0 fails after 8 bytes, a flags word other
   * than 1 or 2 after 12, each with `InvalidInput` carrying the word.
   */
  lemma NvstreamAt(data: seq<u8>, p: nat)
    requires p + ZfsNvlist.LIST_SIZE <= |data| && p + ZfsNvlist.HEADER_SIZE <= I64_MAX
    requires data[p] == 1 && data[p + 1] <= 1
    ensures var h := ZfsNvlist.StreamHeader(ZfsNvlist.XDR, ZfsNvlist.DecodeEndianness(data[p + 1]).value);
            var v := XdrPrimitive.DecodeI32(data[p + 4..p + 8]);
            var w := XdrPrimitive.DecodeI32(data[p + 8..p + 12]);
            NvstreamStep(data, p)
            == if v != 0 then Cursor.Step(Err(InvalidInput(v)), p + 8)
               else if w != 1 && w != 2 then Cursor.Step(Err(InvalidInput(w)), p + ZfsNvlist.LIST_SIZE)
               else Cursor.Step(Ok(Nvstream(h, Nvlist(ZfsNvlist.V0, FlagOf(data[p + 8..p + 12]).value))), p + ZfsNvlist.LIST_SIZE)
  {
    ZfsNvlist.HeaderAt(data, p);
    assert Cursor.TryReadAs(data, p + 4, XdrPrimitive.I32_SIZE, VersionOf)
           == Cursor.Step(VersionOf(data[p + 4..p + 8]), p + 8);
    assert Cursor.TryReadAs(data, p + 8, XdrPrimitive.I32_SIZE, FlagOf)
           == Cursor.Step(FlagOf(data[p + 8..p + 12]), p + 12);
  }

  /** The native encoding panics in `unimplemented!` once the 4 header bytes were consumed. */
  lemma NativeUnimplemented(data: seq<u8>, p: nat)
    requires p + 2 <= |data| && p + ZfsNvlist.HEADER_SIZE <= I64_MAX
    requires data[p] == 0 && data[p + 1] <= 1
    ensures NvstreamStep(data, p) == Cursor.Step(Err(Panic(Unimplemented)), p + ZfsNvlist.HEADER_SIZE)
  {
    ZfsNvlist.HeaderAt(data, p);
  }

  /** Round trip: an XDR stream's 12 bytes decode to it, whatever the reserved bytes and whatever follows. */
  lemma RoundTrip(prefix: seq<u8>, s: Nvstream, reserved: seq<u8>, rest: seq<u8>)
    requires |reserved| == 2 && s.header.encoding == ZfsNvlist.XDR
    requires |prefix| + ZfsNvlist.LIST_SIZE <= I64_MAX
    ensures NvstreamStep(prefix + Encode(s, reserved) + rest, |prefix|) == Cursor.Step(Ok(s), |prefix| + ZfsNvlist.LIST_SIZE)
  {
    var l := ZfsNvlist.List(s.header, s.nvlist.version, [s.nvlist.flags]);
    assert ZfsNvlist.Canonical(l.flags) && ZfsNvlist.FlagsMask(l.flags) == FlagValue(s.nvlist.flags) by {
      match s.nvlist.flags
      case UniqueName => assert l.flags == [ZfsNvlist.UniqueName];
      case UniqueNameType => assert l.flags == [ZfsNvlist.UniqueNameType];
    }
    ZfsNvlist.ListParts(prefix, l, reserved, rest);
    OfParts(prefix + Encode(s, reserved) + rest, |prefix|, s);
  }

  lemma OfParts(data: seq<u8>, p: nat, s: Nvstream)
    requires p + ZfsNvlist.LIST_SIZE <= |data| && p + ZfsNvlist.LIST_SIZE <= I64_MAX && s.header.encoding == ZfsNvlist.XDR
    requires data[p] == 1 && data[p + 1] == ZfsNvlist.EndiannessByte(s.header.endianness)
    requires XdrPrimitive.DecodeI32(data[p + 4..p + 8]) == 0
    requires XdrPrimitive.DecodeI32(data[p + 8..p + 12]) == FlagValue(s.nvlist.flags)
    ensures NvstreamStep(data, p) == Cursor.Step(Ok(s), p + ZfsNvlist.LIST_SIZE)
  {
    ZfsNvlist.HeaderBytesRoundTrip(s.header);
    NvstreamAt(data, p);
    assert s.nvlist.version == ZfsNvlist.V0;
  }

  /**
   * Whatever this reader accepts, the `zfs` crate's reader accepts too,
   * with the same header and version and the one flag as its flag list,
   * after the same 12 bytes.
   */
  lemma AcceptedByZfs(data: seq<u8>, p: nat)
    requires NvstreamStep(data, p).result.Ok?
    ensures var s := NvstreamStep(data, p);
            s.pos == p + ZfsNvlist.LIST_SIZE
            && ZfsNvlist.ListStep(data, p)
               == Cursor.Step(Ok(ZfsNvlist.List(s.result.value.header, s.result.value.nvlist.version, [s.result.value.nvlist.flags])), s.pos)
  {
    ZfsNvlist.HeaderOk(data, p);
    assert data[p] == 1;
    assert p + ZfsNvlist.LIST_SIZE <= |data| by {
      assert NvlistStep(data, p + 4).result.Ok?;
    }
    NvstreamAt(data, p);
    ZfsNvlist.ListAt(data, p);
    OneFlag(data[p + 8..p + 12]);
  }

  /** A word the strict decoder accepts is decoded by the lenient one to the same single flag. */
  lemma OneFlag(x: seq<u8>)
    requires |x| == XdrPrimitive.I32_SIZE && FlagOf(x).Ok?
    ensures ZfsNvlist.FlagsOf(x) == [FlagOf(x).value]
  {
  }

  /**
   * The two crates part ways on the flags word 3 (both flags) and 0 (no
   * flag): the `zfs` crate lists the flags, this one refuses the word.
   */
  lemma StrictFlags(endianness: ZfsNvlist.Endianness, reserved: seq<u8>)
    requires |reserved| == 2
    ensures var both := ZfsNvlist.List(ZfsNvlist.StreamHeader(ZfsNvlist.XDR, endianness), ZfsNvlist.V0,
                                       [ZfsNvlist.UniqueName, ZfsNvlist.UniqueNameType]);
            var x := ZfsNvlist.EncodeList(both, reserved);
            ZfsNvlist.ListStep(x, 0) == Cursor.Step(Ok(both), ZfsNvlist.LIST_SIZE)
            && NvstreamStep(x, 0) == Cursor.Step(Err(InvalidInput(3)), ZfsNvlist.LIST_SIZE)
    ensures var none := ZfsNvlist.List(ZfsNvlist.StreamHeader(ZfsNvlist.XDR, endianness), ZfsNvlist.V0, []);
            var x := ZfsNvlist.EncodeList(none, reserved);
            ZfsNvlist.ListStep(x, 0) == Cursor.Step(Ok(none), ZfsNvlist.LIST_SIZE)
            && NvstreamStep(x, 0) == Cursor.Step(Err(InvalidInput(0)), ZfsNvlist.LIST_SIZE)
  {
    var h := ZfsNvlist.StreamHeader(ZfsNvlist.XDR, endianness);
    RejectedWord(ZfsNvlist.List(h, ZfsNvlist.V0, [ZfsNvlist.UniqueName, ZfsNvlist.UniqueNameType]), reserved);
    RejectedWord(ZfsNvlist.List(h, ZfsNvlist.V0, []), reserved);
  }

  lemma RejectedWord(l: ZfsNvlist.List, reserved: seq<u8>)
    requires |reserved| == 2 && l.header.encoding == ZfsNvlist.XDR && ZfsNvlist.Canonical(l.flags) && |l.flags| != 1
    ensures var x := ZfsNvlist.EncodeList(l, reserved);
            ZfsNvlist.ListStep(x, 0) == Cursor.Step(Ok(l), ZfsNvlist.LIST_SIZE)
            && NvstreamStep(x, 0) == Cursor.Step(Err(InvalidInput(ZfsNvlist.FlagsMask(l.flags))), ZfsNvlist.LIST_SIZE)
  {
    ListAccepts(l, reserved);
    StreamRejects(l, reserved);
  }

  lemma ListAccepts(l: ZfsNvlist.List, reserved: seq<u8>)
    requires |reserved| == 2 && ZfsNvlist.Canonical(l.flags)
    ensures ZfsNvlist.ListStep(ZfsNvlist.EncodeList(l, reserved), 0) == Cursor.Step(Ok(l), ZfsNvlist.LIST_SIZE)
  {
    var x := ZfsNvlist.EncodeList(l, reserved);
    ZfsNvlist.EncodedBytes(l, reserved);
    ZfsNvlist.EncodedFlags(l, reserved);
    ZfsNvlist.ListOfParts(x, 0, l);
  }

  lemma StreamRejects(l: ZfsNvlist.List, reserved: seq<u8>)
    requires |reserved| == 2 && l.header.encoding == ZfsNvlist.XDR && ZfsNvlist.Canonical(l.flags) && |l.flags| != 1
    ensures NvstreamStep(ZfsNvlist.EncodeList(l, reserved), 0)
            == Cursor.Step(Err(InvalidInput(ZfsNvlist.FlagsMask(l.flags))), ZfsNvlist.LIST_SIZE)
  {
    ZfsNvlist.EncodedBytes(l, reserved);
    assert l.flags == [] || l.flags == [ZfsNvlist.UniqueName, ZfsNvlist.UniqueNameType];
    RejectAt(ZfsNvlist.EncodeList(l, reserved), 0, ZfsNvlist.FlagsMask(l.flags));
  }

  lemma RejectAt(data: seq<u8>, p: nat, w: int)
    requires p + ZfsNvlist.LIST_SIZE <= |data| && p + ZfsNvlist.HEADER_SIZE <= I64_MAX
    requires data[p] == 1 && data[p + 1] <= 1 && XdrPrimitive.DecodeI32(data[p + 4..p + 8]) == 0
    requires XdrPrimitive.DecodeI32(data[p + 8..p + 12]) == w && w != 1 && w != 2
    ensures NvstreamStep(data, p) == Cursor.Step(Err(InvalidInput(w)), p + ZfsNvlist.LIST_SIZE)
  {
    NvstreamAt(data, p);
  }
}
