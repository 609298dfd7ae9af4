/**
 * The XDR decoders of the older crate, over its owning reader: the four
 * integer kinds, and the table-driven `Enum` (section 4.3 of RFC 4506)
 * and `Bitmask` decoders.
 */
module ZfsXdr {
  import opened Types
  import opened Mapping
  import Cursor
  import OwnedReader
  import XdrPrimitive

  /** `I32::read`: 4 bytes, big-endian two's complement. */
  method ReadI32(r: OwnedReader.Reader) returns (res: Result<i32, Error>)
    requires r.Valid()
    modifies r
    ensures r.Valid()
    ensures Cursor.Step(res, r.pos) == Cursor.ReadAs(r.data, old(r.pos), XdrPrimitive.I32_SIZE, XdrPrimitive.DecodeI32)
  {
    res := r.ReadAs(XdrPrimitive.I32_SIZE, XdrPrimitive.DecodeI32);
  }

  /** `U32::read`: 4 bytes, big-endian unsigned. */
  method ReadU32(r: OwnedReader.Reader) returns (res: Result<u32, Error>)
    requires r.Valid()
    modifies r
    ensures r.Valid()
    ensures Cursor.Step(res, r.pos) == Cursor.ReadAs(r.data, old(r.pos), XdrPrimitive.U32_SIZE, XdrPrimitive.DecodeU32)
  {
    res := r.ReadAs(XdrPrimitive.U32_SIZE, XdrPrimitive.DecodeU32);
  }

  /** `I64::read`: 8 bytes, big-endian two's complement. */
  method ReadI64(r: OwnedReader.Reader) returns (res: Result<i64, Error>)
    requires r.Valid()
    modifies r
    ensures r.Valid()
    ensures Cursor.Step(res, r.pos) == Cursor.ReadAs(r.data, old(r.pos), XdrPrimitive.I64_SIZE, XdrPrimitive.DecodeI64)
  {
    res := r.ReadAs(XdrPrimitive.I64_SIZE, XdrPrimitive.DecodeI64);
  }

  /** `U64::read`: 8 bytes, big-endian unsigned. */
  method ReadU64(r: OwnedReader.Reader) returns (res: Result<u64, Error>)
    requires r.Valid()
    modifies r
    ensures r.Valid()
    ensures Cursor.Step(res, r.pos) == Cursor.ReadAs(r.data, old(r.pos), XdrPrimitive.U64_SIZE, XdrPrimitive.DecodeU64)
  {
    res := r.ReadAs(XdrPrimitive.U64_SIZE, XdrPrimitive.DecodeU64);
  }

  /**
   * `Enum::decode`: the tag of the first entry whose integer equals the
   * big-endian `i32`. An integer absent from the table reaches `unwrap`
   * on `None` and panics.
   */
  function EnumDecode<T>(m: Table<T>, x: seq<u8>): (r: Result<T, Error>)
    requires |x| == XdrPrimitive.I32_SIZE
    ensures r.Err? <==> forall i :: 0 <= i < |m| ==> m[i].1 != XdrPrimitive.DecodeI32(x)
    ensures r.Err? ==> r.error == Panic(UnwrapOnNone)
    ensures r.Ok? ==> exists k :: 0 <= k < |m| && m[k] == (r.value, XdrPrimitive.DecodeI32(x))
                                  && forall j :: 0 <= j < k ==> m[j].1 != XdrPrimitive.DecodeI32(x)
  {
    match Find(m, XdrPrimitive.DecodeI32(x))
    case Some(t) => Ok(t)
    case None => Err(Panic(UnwrapOnNone))
  }

  /** With distinct integers, the big-endian bytes of an entry's integer decode to that entry's tag. */
  lemma EnumDecodeRoundTrip<T>(m: Table<T>, t: T)
    requires DistinctValues(m)
    requires ValueOf(m, t).Some? && -0x8000_0000 <= ValueOf(m, t).value < 0x8000_0000
    ensures EnumDecode(m, XdrPrimitive.EncodeI32(ValueOf(m, t).value)) == Ok(t)
  {
    var v: i32 := ValueOf(m, t).value;
    XdrPrimitive.I32Bijection(v, XdrPrimitive.EncodeI32(v));
    FindValueOf(m, t);
  }

  /**
   * `Enum::read`: `read_as` of 4 bytes with `Enum::decode`. The bytes are
   * consumed before the decoder runs, so an unmapped integer panics after
   * the read.
   */
  method EnumRead<T>(r: OwnedReader.Reader, m: Table<T>) returns (res: Result<T, Error>)
    requires r.Valid()
    modifies r
    ensures r.Valid()
    ensures var s := Cursor.ReadExact(r.data, old(r.pos), XdrPrimitive.I32_SIZE);
            r.pos == s.pos
            && (s.result.Err? ==> res == Err(s.result.error))
            && (s.result.Ok? ==> res == EnumDecode(m, s.result.value))
  {
    var decoded := r.ReadAs(XdrPrimitive.I32_SIZE, x requires |x| == XdrPrimitive.I32_SIZE => EnumDecode(m, x));
    match decoded {
      case Err(e) => res := Err(e);
      case Ok(v) => res := v;
    }
  }

  /** `Bitmask::decode`: the tags whose integer shares a set bit with the big-endian `i32`, in table order. */
  function BitmaskDecode<T>(m: Table<T>, x: seq<u8>): (r: seq<T>)
    requires |x| == XdrPrimitive.I32_SIZE
    ensures |r| <= |m|
  {
    Select(m, XdrPrimitive.DecodeI32(x))
  }

  /**
   * What `Bitmask::decode` returns: exactly the tags with a bit in common
   * with the value, as a subsequence of the table; bits that no entry
   * covers are ignored, and an all-zero word yields nothing.
   */
  lemma BitmaskDecodeSpec<T>(m: Table<T>, x: seq<u8>, t: T)
    requires |x| == XdrPrimitive.I32_SIZE
    ensures t in BitmaskDecode(m, x) <==>
              exists i :: 0 <= i < |m| && m[i].0 == t && Overlaps(m[i].1, XdrPrimitive.DecodeI32(x))
    ensures Subsequence(BitmaskDecode(m, x), Tags(m))
    ensures x == [0, 0, 0, 0] ==> BitmaskDecode(m, x) == []
  {
    SelectMembers(m, XdrPrimitive.DecodeI32(x), t);
    SelectSubsequence(m, XdrPrimitive.DecodeI32(x));
    if x == [0, 0, 0, 0] {
      SelectZero(m);
    }
  }

  /** `Bitmask::read`: `read_as` of 4 bytes with `Bitmask::decode`. */
  method BitmaskRead<T>(r: OwnedReader.Reader, m: Table<T>) returns (res: Result<seq<T>, Error>)
    requires r.Valid()
    modifies r
    ensures r.Valid()
    ensures var s := Cursor.ReadExact(r.data, old(r.pos), XdrPrimitive.I32_SIZE);
            r.pos == s.pos
            && (s.result.Err? ==> res == Err(s.result.error))
            && (s.result.Ok? ==> res == Ok(BitmaskDecode(m, s.result.value)))
  {
    res := r.ReadAs(XdrPrimitive.I32_SIZE, x requires |x| == XdrPrimitive.I32_SIZE => BitmaskDecode(m, x));
  }
}
