# zfs-rs label decoding, modelled in Dafny

zfs-rs reads the vdev labels of a ZFS device. A label is one of four 256 KiB copies, two at the front of the device and two at its end. The tool then decodes the 12-byte nvlist stream header found 16 KiB into the label. That header holds:

- a one-byte encoding (native or XDR);
- a one-byte endianness;
- two reserved bytes;
- an XDR (RFC 4506) `int` version;
- an XDR `int` of flags.

The repository holds two generations of this pipeline, and this project models both as written:

- **The older crate** (`src/zfs/*`):
  - an owning `Reader` (`OwnedReader`);
  - XDR integers with `Enum`/`Bitmask` helpers (`ZfsXdr`);
  - a `List` reader written directly against `read_exact` and `seek` (`LegacyNvlist`);
  - Linux block-device helpers (`LegacyUnix`).
- **The newer crates**:
  - the `binary` reader (`BinaryReader`);
  - XDR integers and strings (`XdrPrimitive`, `XdrString`);
  - the `int_enum`/`bitmask` attribute macros and the XDR `Enum` derive, modelled by what the generated code computes (`IntEnum`, `IntEnumMacro`, `BitmaskMacro`, `XdrEnumMacro`);
  - the `nvlist` crate's `Nvstream` reader (`NvlistInternal`);
  - the `zfs` crate's `List` reader (`ZfsNvlist`), label geometry (`VdevLabel`) and block-device helpers (`UnixDevice`).

The model is built as follows:

- **The file** is an immutable byte sequence (`seq<u8>`) with a cursor.
- **Readers** are classes. `data` is the file; `pos` is the cursor.
- **Every read method** is proved against a pure step function of `Cursor`. It gives the result and the new cursor, and the lemmas are stated about it.
- **Byte buffers** that the Rust code fills in place are Dafny arrays.
- **Errors** are values of `Types.Error`, and so are the points where the Rust code panics (`unwrap`, `unimplemented!`, `unreachable!`, arithmetic overflow), as `Panic(kind)`. An error is never confused with a panic.
- **Inputs.** The sysfs tree is a map from path to file contents. The device number is given.

The three stream-header readers are related to one another:

- The older reader and the `zfs` crate agree on every stream, except an unknown version. The older reader reports that as `InvalidInput`, where the `zfs` crate panics.
- Every stream the `nvlist` crate accepts is accepted by the `zfs` crate, with the same header and version.
- The converse fails: flag words 0 and 3 are rejected by the `nvlist` crate's strict enum.

## Model

| member | source | states |
|---|---|---|
| Cursor.ReadExact | binary/src/reader.rs:18-20 | `read_exact` of n bytes succeeds iff n = 0 or n bytes remain. It then yields exactly the next n bytes and advances by n. Otherwise it fails with `UnexpectedEof`, having consumed the rest of the file |
| Cursor.ReadExactConcat | binary/src/reader.rs:18-20 | reading n + m bytes succeeds iff reading n and then m does, and yields the concatenation |
| Cursor.TryReadAsConsumes | binary/src/reader.rs:46-56 | when N bytes remain, `try_read_as` advances by exactly N and returns `f` of exactly those bytes; a decode error comes after the bytes are consumed |
| Cursor.SeekTo | binary/src/reader.rs:22-24 | a seek succeeds iff its target lies in [0, i64::MAX], and then moves to the target and returns it; otherwise `InvalidSeek`, cursor unchanged |
| Cursor.Seek | binary/src/reader.rs:22-24 | `seek` from the start, the end or the cursor succeeds iff the target offset lies in [0, i64::MAX]; then it moves there and returns the position, otherwise `InvalidSeek` with the cursor kept |
| Cursor.Skip | binary/src/reader.rs:26-29 | `skip(n)` moves forward by exactly n and returns the new absolute position, or fails with `InvalidSeek` without moving when the target overflows |
| Cursor.AlignUp | binary/src/reader.rs:33 | the rounded position is a multiple of `to`, not below the cursor, and less than `to` beyond it |
| Cursor.Align | binary/src/reader.rs:31-35 | `align` hands the u32-truncated distance to the rounded position to `skip`: a success returns the new position at or after the cursor, a failure is `InvalidSeek` with the cursor kept; `AlignLands` proves where it lands |
| Cursor.AlignUpLeast | binary/src/reader.rs:33 | no multiple of `to` at or after the cursor lies before the rounded position |
| Cursor.AlignUpIdempotent | binary/src/reader.rs:33 | an aligned position rounds to itself |
| Cursor.AlignLands | binary/src/reader.rs:31-35 | for a power of two `to` ≤ 2^32, `align` lands on the least multiple of `to` at or after the cursor. It skips at most `to - 1` bytes and returns that position |
| Cursor.AlignIdempotent | binary/src/reader.rs:31-35 | aligning an aligned cursor changes nothing |
| BinaryReader.Reader.constructor | binary/src/reader.rs:14-16 | a new reader is at offset 0 of the file |
| BinaryReader.Reader.Read | binary/src/reader.rs:18-20 | fills the buffer in place with exactly the next `buf.Length` bytes, or fails with the `read_exact` error; the cursor moves as `read_exact` moves it |
| BinaryReader.Reader.Seek | binary/src/reader.rs:22-24 | result and new cursor are those of `Cursor.Seek` |
| BinaryReader.Reader.Skip | binary/src/reader.rs:26-29 | result and new cursor are those of `Cursor.Skip` for the `u32` offset |
| BinaryReader.Reader.Align | binary/src/reader.rs:31-35 | result and new cursor are those of `Cursor.Align`: the distance to the next multiple, truncated to `u32`, handed to `skip` |
| BinaryReader.Reader.ReadAs | binary/src/reader.rs:37-44 | consumes N bytes and returns `f` of them; `f` is not applied when the read fails |
| BinaryReader.Reader.TryReadAs | binary/src/reader.rs:46-56 | consumes N bytes, then returns `f`'s result, its error included |
| BinaryReader.Reader.ReadTo | binary/src/reader.rs:58-66 | consumes `len` bytes and returns `f` of the `len`-byte vector |
| BinaryReader.Reader.TryReadTo | binary/src/reader.rs:68-79 | consumes `len` bytes, then returns `f`'s result, its error included |
| OwnedReader.Reader.constructor | src/zfs/binary.rs:13-15 | a new reader is at offset 0 of the file |
| OwnedReader.Reader.Skip | src/zfs/binary.rs:17-21 | an offset above i64::MAX panics (`UnwrapOnErr`) without moving; otherwise it skips exactly as `Cursor.Skip` |
| OwnedReader.Reader.Read | src/zfs/binary.rs:23-25 | fills the buffer exactly, or fails as `read_exact` does |
| OwnedReader.Reader.ReadAs | src/zfs/binary.rs:27-34 | consumes N bytes and returns `f` of them |
| OwnedReader.Reader.TryReadAs | src/zfs/binary.rs:36-46 | consumes N bytes, then returns `f`'s result, its error included |
| XdrPrimitive.DecodeU32 | xdr/src/primitive.rs:64-66 | the value is b0·2^24 + b1·2^16 + b2·2^8 + b3 |
| XdrPrimitive.DecodeI32 | xdr/src/primitive.rs:30-32 | two's complement: congruent to the unsigned reading modulo 2^32, and negative iff byte 0 ≥ 0x80 |
| XdrPrimitive.DecodeU64 | xdr/src/primitive.rs:136-138 | the 8-byte big-endian value, byte 0 most significant |
| XdrPrimitive.DecodeI64 | xdr/src/primitive.rs:100-102 | congruent to the unsigned 8-byte reading modulo 2^64, and negative iff byte 0 ≥ 0x80 |
| XdrPrimitive.U32Bijection | xdr/src/primitive.rs:64-66 | decoding inverts big-endian encoding and encoding inverts decoding |
| XdrPrimitive.I32Bijection | xdr/src/primitive.rs:30-32 | decoding inverts big-endian two's-complement encoding and vice versa |
| XdrPrimitive.U64Bijection | xdr/src/primitive.rs:136-138 | decoding inverts big-endian encoding and vice versa |
| XdrPrimitive.I64Bijection | xdr/src/primitive.rs:100-102 | decoding inverts big-endian two's-complement encoding and vice versa |
| XdrPrimitive.ReadI32 | xdr/src/primitive.rs:26-28 | reads as `read_as::<4>` with the `i32` decoder |
| XdrPrimitive.ReadU32 | xdr/src/primitive.rs:60-62 | reads as `read_as::<4>` with the `u32` decoder |
| XdrPrimitive.ReadI64 | xdr/src/primitive.rs:96-98 | reads as `read_as::<8>` with the `i64` decoder |
| XdrPrimitive.ReadU64 | xdr/src/primitive.rs:132-134 | reads as `read_as::<8>` with the `u64` decoder |
| XdrPrimitive.ReadAsExactly | xdr/src/primitive.rs:26-28 | when the width's bytes remain, a read consumes exactly them and decodes them; with fewer it fails with `UnexpectedEof` |
| ZfsXdr.ReadI32 | src/zfs/xdr.rs:26-28 | the older `I32::read` on the owning reader: 4 bytes, big-endian two's complement |
| ZfsXdr.ReadU32 | src/zfs/xdr.rs:59-61 | 4 bytes, big-endian unsigned |
| ZfsXdr.ReadI64 | src/zfs/xdr.rs:164-166 | 8 bytes, big-endian two's complement |
| ZfsXdr.ReadU64 | src/zfs/xdr.rs:199-201 | 8 bytes, big-endian unsigned |
| ZfsXdr.EnumDecode | src/zfs/xdr.rs:105-113 | the tag of the first entry whose integer equals the big-endian `i32`; no such entry panics (`UnwrapOnNone`) |
| ZfsXdr.EnumDecodeRoundTrip | src/zfs/xdr.rs:105-113 | with distinct integers, decoding the big-endian bytes of an entry's integer gives its tag |
| ZfsXdr.EnumRead | src/zfs/xdr.rs:97-99 | consumes exactly 4 bytes and decodes them, or fails with the read error |
| ZfsXdr.BitmaskDecode | src/zfs/xdr.rs:130-139 | the list is no longer than the table |
| ZfsXdr.BitmaskDecodeSpec | src/zfs/xdr.rs:130-139 | a tag is listed iff one of its entries shares a bit with the word. Tags come in table order (a subsequence of the table), and the word 0 gives the empty list |
| ZfsXdr.BitmaskRead | src/zfs/xdr.rs:126-128 | consumes exactly 4 bytes and returns the decoded list, or fails with the read error |
| Mapping.Find | src/zfs/xdr.rs:110-112 | the tag of the first entry carrying the integer; none iff no entry carries it |
| Mapping.ValueOf | enum-macros-common/src/int_enum.rs:67-75 | the integer of the first entry carrying the tag; none iff no entry carries it |
| Mapping.FindValueOf | enum-macros-common/src/int_enum.rs:67-116 | with distinct integers, looking up a tag's integer gives the tag back |
| Mapping.ValueOfFind | enum-macros-common/src/int_enum.rs:67-116 | with distinct tags, an integer found in the table is the integer of the tag found |
| Mapping.Select | src/zfs/xdr.rs:135-138 | the filtered list is no longer than the table |
| Mapping.SelectMembers | src/zfs/xdr.rs:135-138 | a tag is selected iff one of its entries has a bit in common with the value (32-bit AND nonzero) |
| Mapping.SelectSubsequence | src/zfs/xdr.rs:135-138 | the selection keeps table order |
| Mapping.SelectZero | src/zfs/xdr.rs:133-138 | the value 0 selects nothing |
| Mapping.SelectDisjoint | src/zfs/xdr.rs:133-138 | a value with only bits no entry covers selects nothing |
| Mapping.SelectOwn | enum-macros-common/src/bitmask.rs:43-46 | an entry with a nonzero integer is selected by its own integer |
| Mapping.SelectNeverZero | enum-macros-common/src/bitmask.rs:44 | a tag whose integers are all 0 is never selected |
| Mapping.SelectBits | src/zfs/nvlist.rs:110-121 | the selection depends on the low 32 bits only, so a `u32` and an `i32` reading of one word select alike |
| Mapping.OverlapsOne | src/zfs/nvlist.rs:113-120 | bit 0x1 is set iff the value is odd |
| Mapping.OverlapsTwo | src/zfs/nvlist.rs:113-120 | bit 0x2 is set iff half the value is odd |
| XdrString.DecodeStr | xdr/src/string.rs:58-63 | the bytes are returned iff they are well-formed UTF-8; otherwise `InvalidUtf8` |
| XdrString.AsciiIsUtf8 | xdr/src/string.rs:58-60 | every ASCII string is accepted |
| XdrString.StrayContinuation | xdr/src/string.rs:58-62 | a string starting with a continuation byte is refused |
| XdrString.Read | xdr/src/string.rs:44-52 | result and cursor are those of the length read, the body read, then `align(4)` |
| XdrString.PadLen | xdr/src/string.rs:10-12 | the padding is fewer than 4 bytes and brings the length to a multiple of 4 |
| XdrString.Encode | xdr/src/string.rs:28-33 | length prefix, body and padding; the total is a multiple of 4 |
| XdrString.ReadValid | xdr/src/string.rs:44-52 | from a 4-aligned offset, a length n, n valid bytes and ANY tail read back as those bytes. The read ends at the next multiple of 4, so padding is never inspected and may even be missing |
| XdrString.ReadEndsAligned | xdr/src/string.rs:44-52 | from ANY offset, a successful read returns the n bytes after the length and ends on the first multiple of 4 at or after offset + 4 + n: `align(4)` rounds the absolute position |
| XdrString.EncodeRoundTrip | xdr/src/string.rs:44-52 | from a 4-aligned offset, reading an encoded valid string gives it back and consumes the whole encoding (section 4.11 of RFC 4506) |
| XdrString.ReadInvalid | xdr/src/string.rs:46-50 | invalid UTF-8 fails with `InvalidUtf8` after the length and the n bytes are consumed; no alignment runs |
| XdrString.ReadShort | xdr/src/string.rs:46-49 | fewer than n bytes after the length fail with `UnexpectedEof` |
| IntEnum.Variants | enum-macros-common/src/int_enum.rs:29-41 | succeeds iff every variant has a discriminant, keeping declaration order and names. Otherwise the error names the first variant without one |
| IntEnum.GetVariants | enum-macros-common/src/int_enum.rs:29-41 | the loop with its early return computes `Variants` |
| IntEnum.Expand | enum-macros-common/src/int_enum.rs:5-17 | conversions are emitted iff every variant has a discriminant; otherwise only the compile error for the first variant missing one |
| IntEnum.FromRef | enum-macros-common/src/int_enum.rs:63-75 | the discriminant of the variant's first arm |
| IntEnum.TryFrom | enum-macros-common/src/int_enum.rs:98-116 | the variant of the first arm with discriminant x; `Err(x)` with x unchanged iff no arm has it |
| IntEnum.TryFromFromRef | enum-macros-common/src/int_enum.rs:67-116 | with distinct discriminants, `try_from(from(v)) == Ok(v)` |
| IntEnum.FromRefTryFrom | enum-macros-common/src/int_enum.rs:67-116 | with distinct variants, `from(try_from(x)?) == x` |
| IntEnumMacro.Arm | enum-macros/src/int_enum.rs:19-26 | an arm exists iff the variant has a discriminant; otherwise the expansion panics (`unwrap`) |
| IntEnumMacro.Arms | enum-macros/src/int_enum.rs:16-59 | the arms are exactly the pairs the validating macro collects, and fail exactly when it does (with a panic rather than a compile error) |
| IntEnumMacro.RoundTrip | enum-macros/src/int_enum.rs:16-59 | for a well-formed enum, `try_from(from(v)) == Ok(v)` for every variant, and `from` inverts `try_from` |
| IntEnumMacro.Unmatched | enum-macros/src/int_enum.rs:55-59 | a value no variant has is returned unchanged as the error |
| BitmaskMacro.VariantTuple | enum-macros-common/src/bitmask.rs:52-62 | the pair exists iff the variant has a discriminant; otherwise the expansion panics |
| BitmaskMacro.MappingTable | enum-macros-common/src/bitmask.rs:16-31 | one pair per variant in declaration order, the same pairs as the `From` arms; a missing discriminant panics |
| BitmaskMacro.Values | enum-macros-common/src/bitmask.rs:38-48 | never longer than the table |
| BitmaskMacro.ValuesMembers | enum-macros-common/src/bitmask.rs:38-48 | a variant is listed iff its discriminant shares a bit with `self`'s; listed in table order |
| BitmaskMacro.ValuesContainSelf | enum-macros-common/src/bitmask.rs:44 | a variant with a nonzero discriminant is among its own values |
| BitmaskMacro.ZeroNeverListed | enum-macros-common/src/bitmask.rs:44 | a variant with discriminant 0 is in nobody's values |
| BitmaskMacro.MappingName | enum-macros-common/src/bitmask.rs:64-69 | `__`, then the name upper-cased, then `_MAPPING`; the length is the name's plus 10 and no lower-case letter remains |
| BitmaskMacro.MappingNameInjective | enum-macros-common/src/bitmask.rs:64-69 | two enums get one table name iff their names agree after upper-casing |
| BitmaskMacro.MappingNameCaseCollision | enum-macros-common/src/bitmask.rs:64-69 | `Flags` and `FLAGS` both get `__FLAGS_MAPPING` |
| XdrEnumMacro.Decode | xdr-macros/src/enum.rs:55-63 | the variant whose discriminant is the big-endian `i32`; `Err` with that integer iff there is none |
| XdrEnumMacro.DecodeOrInvalid | xdr-macros/src/enum.rs:41-49 | `Err(n)` becomes `InvalidInput(n)`; a variant passes through |
| XdrEnumMacro.Read | xdr-macros/src/enum.rs:34-53 | consumes exactly 4 bytes (or fails with the read error) and decodes them, an unknown value giving `InvalidInput` |
| XdrEnumMacro.DecodeRoundTrip | xdr-macros/src/enum.rs:55-63 | with distinct discriminants, the big-endian bytes of a discriminant decode to its variant |
| ZfsNvlist.DecodeEncoding | zfs/src/nvlist.rs:55-60 | 0 iff Native, 1 iff XDR, any other byte b iff `InvalidInput(b)` |
| ZfsNvlist.DecodeEndianness | zfs/src/nvlist.rs:77-82 | 0 iff Big, 1 iff Little, any other byte b iff `InvalidInput(b)` |
| ZfsNvlist.VersionOf | zfs/src/nvlist.rs:85-92 | V0 iff the word is 0; any other word panics in `Enum::decode` |
| ZfsNvlist.FlagsOf | zfs/src/nvlist.rs:94-104 | UniqueName iff bit 0x1, then UniqueNameType iff bit 0x2; other bits ignored |
| ZfsNvlist.ReadEncoding | zfs/src/nvlist.rs:50-53 | one-byte `try_read_as` with `DecodeEncoding` |
| ZfsNvlist.ReadEndianness | zfs/src/nvlist.rs:72-75 | one-byte `try_read_as` with `DecodeEndianness` |
| ZfsNvlist.ReadHeader | zfs/src/nvlist.rs:32-39 | encoding, endianness, then `skip(2)` of the unread reserved bytes |
| ZfsNvlist.ReadVersion | zfs/src/nvlist.rs:85-92 | four-byte `Enum` read over the version table |
| ZfsNvlist.ReadFlags | zfs/src/nvlist.rs:94-104 | four-byte `Bitmask` read over the flags table |
| ZfsNvlist.ReadList | zfs/src/nvlist.rs:13-20 | header, version, flags, in that order, stopping at the first failure |
| ZfsNvlist.HeaderBytesRoundTrip | zfs/src/nvlist.rs:41-83 | the byte of each encoding and endianness decodes back to it |
| ZfsNvlist.HeaderAt | zfs/src/nvlist.rs:32-39 | valid header bytes give the header and leave the cursor 4 bytes on, whatever the reserved bytes hold |
| ZfsNvlist.ListAt | zfs/src/nvlist.rs:13-20 | on valid header bytes, version 0 gives the list after 12 bytes; any other version panics after 8 |
| ZfsNvlist.FlagsRoundTrip | zfs/src/nvlist.rs:94-104 | a duplicate-free flag list in table order is read back from its mask |
| ZfsNvlist.ListRoundTrip | zfs/src/nvlist.rs:13-20 | an encoded list decodes back to itself, consuming exactly 12 bytes, whatever precedes or follows it |
| ZfsNvlist.ListConsumes | zfs/src/nvlist.rs:13-20 | success consumes exactly 12 bytes. The bytes are then canonical: encoding and endianness bytes, a zero version word, and a flags word whose low two bits are the mask |
| ZfsNvlist.FlagsCanonical | zfs/src/nvlist.rs:97-104 | decoded flags are duplicate-free in table order, and their mask is the word's low two bits |
| ZfsNvlist.BadEncoding | zfs/src/nvlist.rs:50-60 | an encoding byte above 1 fails with `InvalidInput` of it after one byte |
| ZfsNvlist.BadEndianness | zfs/src/nvlist.rs:72-82 | an endianness byte above 1 fails with `InvalidInput` of it after two bytes |
| ZfsNvlist.VersionPanics | zfs/src/nvlist.rs:85-92 | a nonzero version word panics (`UnwrapOnNone`) after 8 bytes |
| ZfsNvlist.Example | zfs/src/nvlist.rs:13-20 | `[1,0,0,0, 0,0,0,0, 0,0,0,2]` decodes to XDR, Big, V0, [UniqueNameType] at offset 12 |
| ZfsNvlist.NativeAccepted | zfs/src/nvlist.rs:13-20 | a Native stream is not refused: version and flags are still read |
| NvlistInternal.VersionOf | nvlist/src/internal.rs:100-101 | V0 iff the word is 0; any other word v is `InvalidInput(v)`, not a panic |
| NvlistInternal.FlagOf | nvlist/src/internal.rs:103-111 | UniqueName iff the word is 1, UniqueNameType iff 2, `InvalidInput(w)` for any other word w |
| NvlistInternal.ReadVersion | nvlist/src/internal.rs:100-101 | the derived four-byte `read` of `Version` |
| NvlistInternal.ReadFlag | nvlist/src/internal.rs:103-111 | the derived four-byte `read` of `Flags` |
| NvlistInternal.ReadNvlist | nvlist/src/internal.rs:92-98 | version, then flags |
| NvlistInternal.ReadNvstream | nvlist/src/internal.rs:12-21 | header; Native panics (`unimplemented!`) after it; XDR reads the nvlist |
| NvlistInternal.NvstreamAt | nvlist/src/internal.rs:12-21 | on an XDR header, version and flag word decide the outcome and the bytes consumed |
| NvlistInternal.NativeUnimplemented | nvlist/src/internal.rs:15-16 | a Native header panics after its 4 bytes |
| NvlistInternal.RoundTrip | nvlist/src/internal.rs:12-21 | an encoded XDR stream decodes back to itself in exactly 12 bytes |
| NvlistInternal.AcceptedByZfs | nvlist/src/internal.rs:12-21 | success consumes exactly 12 bytes, and the `zfs` crate reads the same bytes as the same header and version with the one flag |
| NvlistInternal.StrictFlags | nvlist/src/internal.rs:103-111 | flag words 3 and 0 are read by the `zfs` crate but rejected here as `InvalidInput(3)` and `InvalidInput(0)` |
| NvlistInternal.RejectedWord | nvlist/src/internal.rs:103-111 | any flag set other than a single flag is rejected with its mask |
| LegacyNvlist.DecodeEncoding | src/zfs/nvlist.rs:48-54 | equal on every byte to the newer decoder: 0, 1, or `InvalidInput(b)` |
| LegacyNvlist.DecodeEndianness | src/zfs/nvlist.rs:69-75 | equal on every byte to the newer decoder |
| LegacyNvlist.DecodeVersion | src/zfs/nvlist.rs:90-95 | equal on every word to the `nvlist` crate's derived enum: 0 gives V0, any other v gives `InvalidInput(v)` |
| LegacyNvlist.DecodeFlags | src/zfs/nvlist.rs:110-121 | the `u32` filter lists the same flags as the `zfs` crate's `Bitmask` over the `i32` |
| LegacyNvlist.ReadEncoding | src/zfs/nvlist.rs:42-46 | `read_exact` into a one-byte array, then decode |
| LegacyNvlist.ReadEndianness | src/zfs/nvlist.rs:63-67 | `read_exact` into a one-byte array, then decode |
| LegacyNvlist.ReadVersion | src/zfs/nvlist.rs:84-88 | `read_exact` into a four-byte array, then decode |
| LegacyNvlist.ReadFlags | src/zfs/nvlist.rs:104-108 | `read_exact` into a four-byte array, then decode |
| LegacyNvlist.ReadHeader | src/zfs/nvlist.rs:28-33 | encoding, endianness, then `seek(Current(2))` |
| LegacyNvlist.ReadList | src/zfs/nvlist.rs:13-18 | header, version, flags, in order |
| LegacyNvlist.SameHeader | src/zfs/nvlist.rs:27-33 | the seek-based header read equals the newer skip-based one on every input |
| LegacyNvlist.CrossVersion | src/zfs/nvlist.rs:13-18 | on every input, same cursor and same result as the `zfs` crate, except where that crate panics on the version. There this one returns `InvalidInput` of the version |
| LegacyNvlist.VersionsAgree | src/zfs/nvlist.rs:84-95 | the version reads agree except on a nonzero word: a panic in one, `InvalidInput` in the other |
| LegacyNvlist.BadEncodingFirst | src/zfs/nvlist.rs:27-33 | an invalid encoding fails after one byte, before the endianness is read |
| LegacyNvlist.VersionRejected | src/zfs/nvlist.rs:90-95 | a nonzero version word is `InvalidInput` of it, after 8 bytes |
| LegacyNvlist.RoundTrip | src/zfs/nvlist.rs:13-18 | an encoded list decodes back to itself in exactly 12 bytes |
| LegacyNvlist.Consumes | src/zfs/nvlist.rs:13-18 | success consumes exactly 12 bytes, all within the file |
| VdevLabel.Offset | zfs/src/vdev/label.rs:12-22 | L2 and L3 on a device smaller than two labels underflow (panic), and nothing else does. L0 and L1 lie in the first two labels; L2 and L3 in the last two, ending inside the device |
| VdevLabel.LabelsInside | zfs/src/vdev/label.rs:12-22 | on a device of at least two labels, every label region lies within the device |
| VdevLabel.PairSpacing | zfs/src/vdev/label.rs:17-21 | L0 = 0, L1 = 256 KiB, L3 = L2 + 256 KiB, and L3 ends the device |
| VdevLabel.AllDisjoint | zfs/src/vdev/label.rs:12-22 | the four regions are pairwise disjoint iff the device holds at least four labels |
| VdevLabel.NvlistInsideLabel | zfs/src/vdev/label.rs:6-7 | the 12-byte header at +16 KiB lies inside its label |
| VdevLabel.ReadNvlist | zfs/src/vdev/label.rs:24-31 | a size error is returned; an offset panic is returned. Otherwise the list is read after seeking to the label offset + 16 KiB |
| VdevLabel.ReadNvlistAt | zfs/src/vdev/label.rs:24-31 | on a device of at least two labels whose size is its length, the seek succeeds and the 12 header bytes lie within the device |
| UnixDevice.New | zfs/src/unix.rs:15-20 | major and minor are below 256, and `n mod 65536 = major·256 + minor` |
| UnixDevice.NewLowBits | zfs/src/unix.rs:15-20 | two device numbers give the same pair iff they agree on their low 16 bits |
| UnixDevice.Dec | zfs/src/unix.rs:47 | nonempty decimal digits, no leading zero, denoting the number |
| UnixDevice.ParseU64 | zfs/src/unix.rs:41 | accepted text is an optional `+` followed by digits only |
| UnixDevice.ParseDec | zfs/src/unix.rs:41 | parsing reads back any `u64` written in decimal, with or without `+` |
| UnixDevice.ParseRejects | zfs/src/unix.rs:41 | the empty string, a lone `+`, a leading `-` and values past 2^64 − 1 are refused |
| UnixDevice.TrimStart | zfs/src/unix.rs:41 | the longest suffix not starting with white space; everything dropped is white space |
| UnixDevice.TrimEnd | zfs/src/unix.rs:41 | the longest prefix not ending with white space; everything dropped is white space |
| UnixDevice.Trim | zfs/src/unix.rs:41 | `trim` keeps a contiguous middle of the text that neither starts nor ends with white space; everything dropped before and after it is white space |
| UnixDevice.TrimLine | zfs/src/unix.rs:41 | trimming a count followed by a newline leaves the count |
| UnixDevice.DevicePathInjective | zfs/src/unix.rs:45-48 | distinct device numbers have distinct `/sys/dev/block/<major>:<minor>` paths |
| UnixDevice.DevicePath | zfs/src/unix.rs:45-48 | the path lies under `/sys/dev/block/`, its final component holds no `/`, and a `:` follows the major number |
| UnixDevice.FileNameStart | zfs/src/unix.rs:40 | the position just after the last `/` |
| UnixDevice.WithFileName | zfs/src/unix.rs:40 | the path up to its last `/`, then the new name |
| UnixDevice.DevicePathFileName | zfs/src/unix.rs:40 | a device path's final component starts right after `/sys/dev/block/` |
| UnixDevice.SizePathAsWritten | zfs/src/unix.rs:40 | as written, the size path is `/sys/dev/block/size` for every device |
| UnixDevice.SizePath | src/zfs/unix.rs:41 | the corrected size path: it extends the device directory, its final component is `size`, and its parent is the device directory |
| UnixDevice.SizePathInjective | src/zfs/unix.rs:41 | the size attribute inside the device directory differs for distinct devices |
| UnixDevice.SizePathUnderDevice | zfs/src/unix.rs:40 | the intended path lies under the device directory, the as-written one does not |
| UnixDevice.SizeAt | zfs/src/unix.rs:39-43 | `FileMissing` iff the file is absent. A result is a multiple of 512 whose block count is the parsed, trimmed text |
| UnixDevice.SizeOfLine | zfs/src/unix.rs:41-42 | a size file holding a count and a newline gives count × 512, or an overflow panic past 2^64 − 1 |
| UnixDevice.SizeOfGarbage | zfs/src/unix.rs:41 | text that is not a count panics (`unwrap`) |
| UnixDevice.SizeAsWritten | zfs/src/unix.rs:39-43 | as written, `FileMissing` iff `/sys/dev/block/size` is absent, whatever the device |
| UnixDevice.SizeAsWrittenIgnoresDevice | zfs/src/unix.rs:39-43 | as written, every device gets the same answer |
| UnixDevice.SizeAsWrittenCounterexample | zfs/src/unix.rs:40 | devices 8:0 and 8:16 are sent to the same file |
| UnixDevice.Size | zfs/src/unix.rs:39-43 | corrected: `FileMissing` iff the device's own size file is absent; any size is a multiple of 512 |
| UnixDevice.SizeSeesDevice | zfs/src/unix.rs:39-43 | corrected: devices whose size files hold different counts get different sizes |
| UnixDevice.FromTests | zfs/src/unix.rs:61-85 | the first test that holds, in the order dir, file, symlink, block, char, fifo, socket, decides; `unreachable!` iff none holds |
| UnixDevice.FromTestsRoundTrip | zfs/src/unix.rs:61-85 | a file of exactly one kind is mapped to that kind, and the kind gives back its tests |
| UnixDevice.FromTestsPriority | zfs/src/unix.rs:61-85 | when two tests hold, the later one never wins |
| LegacyUnix.Path | src/zfs/unix.rs:39-42 | `/sys/dev/block/<major>:<minor>/size`, the size attribute inside the device directory |
| LegacyUnix.Size | src/zfs/unix.rs:33-37 | the older `size` equals the corrected newer one on every sysfs tree and device |
| LegacyUnix.PathInjective | src/zfs/unix.rs:39-42 | distinct devices read distinct size files |
| LegacyUnix.SizeExample | src/zfs/unix.rs:33-42 | for disk 8:0 holding `2048\n`, the older crate reports 1 MiB and the newer one finds no file |

`DeviceNumber::new` and `FileType::from` are the same code in both generations (src/zfs/unix.rs:12-23 and 59-84). The model defines them once, as `UnixDevice.New` and `UnixDevice.FromTests`. Likewise, `StreamHeader`, `Encoding` and `Endianness` of nvlist/src/internal.rs:23-84 repeat zfs/src/nvlist.rs:22-83 and are defined once in `ZfsNvlist`.

## Left out

- Real I/O is not modelled: `BufReader` buffering, `File` handles, `File::metadata`/`rdev` and `read_to_string`. The file is an in-memory byte sequence, the sysfs tree a map from path to text, the device number an input.
- Only one failure of `read_to_string` is modelled: a missing file (`FileMissing`). Permission errors and non-UTF-8 contents are not.
- Error messages are not modelled. `InvalidInput` carries the number the Rust code renders in decimal, and the other errors are distinguished by kind only.
- zfs/src/vdev/physical.rs is not part of this model. The device's contents and the result of its `size` are parameters of `VdevLabel.ReadNvlist`, and the rule accepting only regular files and block devices is not modelled.
- zfs/src/binary.rs and zfs/src/xdr.rs are not part of this model. The `zfs` crate's `List` is read with the `binary` crate reader, which is what `read_nvlist` hands it, and with the `Enum`/`Bitmask` semantics of src/zfs/xdr.rs.
- The CLI (src/zfs-rs/main.rs), the macro entry points (enum-macros/src/lib.rs, xdr-macros/src/lib.rs), xdr/src/lib.rs re-exports and nvlist/src/nvlist.rs's one-line wrapper are not modelled.
- Token-stream plumbing is not modelled: `quote!`, spans, `Ident::new`. Each macro is modelled by what its generated code computes, as an ordered table of variant and discriminant. A discriminant expression is represented by its integer value.
- Compile errors that rustc itself raises on the generated code (duplicate discriminants or names, two tables of one name) are not modelled. Lemmas that need distinctness take it as a hypothesis (`IntEnumMacro.WellFormed`).
- The macro bodies at xdr-macros/src/enum.rs:10-13 and enum-macros-common/src/bitmask.rs:8 call `impl_try_from_type::r#impl` and `impl_from_enum::r#impl` with two arguments, but those functions (enum-macros-common/src/int_enum.rs:50-54 and 84-88) take three: the name, the variant table and the type. `XdrEnumMacro` and `BitmaskMacro` model the evident intent: the conversions built over the variant table that `get_variants` produces.
- Cursor.Align: requires `to` to be a power of two. The mask `!(to - 1)` for other values, and the underflow of `to - 1` at 0, are not modelled. The only caller passes 4.
- BinaryReader.Reader.Align: same restriction as `Cursor.Align`.
- BitmaskMacro.MappingName: upper-cases ASCII letters only. Rust's `to_uppercase` also maps non-ASCII letters, some to several characters.
- UnixDevice.New: states `>> 8` and `& 0xff` as division by 256 and remainder modulo 256, which they are for unsigned values. The bit-vector forms are not used.
- UnixDevice.WithFileName: covers paths whose final component is a plain name. Trailing `/`, `.`, `..` and the root are not modelled. Every path it receives ends in `<major>:<minor>`.
- UnixDevice.IsWhitespace: the Unicode `White_Space` set as a fixed list of code points.
- VdevLabel.Offset: an overflow is the panic of a debug build. A release build would wrap around instead. The same holds for `blocks × 512` in `UnixDevice.SizeAt`.
- XdrString.DecodeStr: well-formed UTF-8 (section 4 of RFC 3629) is a concrete predicate on bytes. The string is kept as those bytes, not as decoded characters.
- Bytes are the integer subtype `u8` (0..255) rather than a bit-vector type. No byte operation needs bit-level reasoning beyond the flags AND, which `Mapping.Overlaps` states on 32-bit words.
- `len as usize` in xdr/src/string.rs:47 is taken to be lossless, as on any platform with a `usize` of at least 32 bits.

## Findings

| source | as written | input that shows it | evidently intended | confidence | as-written member | corrected member |
|---|---|---|---|---|---|---|
| zfs/src/unix.rs:40 | `size` replaces the final component of the device directory `/sys/dev/block/<major>:<minor>` with `size` instead of descending into it | any device, e.g. rdev 0x800 (disk 8:0): the file read is `/sys/dev/block/size`, which the kernel does not provide, so `size` fails for every device | read `/sys/dev/block/<major>:<minor>/size`, as src/zfs/unix.rs:41 does | high; not executed | UnixDevice.SizePathAsWritten | UnixDevice.SizePath |
