/**
 * `#[derive(Enum)]` of the XDR macro crate: an enumeration (section 4.3 of
 * RFC 4506) is a big-endian `i32` whose value must be one of the
 * discriminants. The derive generates `TryFrom<i32>` (the shared
 * `int_enum` conversion), `decode` and `read`.
 */
module XdrEnumMacro {
  import opened Types
  import opened Mapping
  import Cursor
  import BinaryReader
  import XdrPrimitive
  import IntEnum

  /** Generated `decode`: the variant whose discriminant is the big-endian `i32`, or that integer as the error. */
  function Decode<T>(m: Table<T>, x: seq<u8>): (r: Result<T, int>)
    requires |x| == XdrPrimitive.I32_SIZE
    ensures r.Err? <==> forall i :: 0 <= i < |m| ==> m[i].1 != XdrPrimitive.DecodeI32(x)
    ensures r.Err? ==> r.error == XdrPrimitive.DecodeI32(x)
    ensures r.Ok? ==> exists k :: 0 <= k < |m| && m[k] == (r.value, XdrPrimitive.DecodeI32(x))
  {
    IntEnum.TryFrom(m, XdrPrimitive.DecodeI32(x))
  }

  /** The closure `read` hands to `try_read_as`: `Err(n)` becomes an `InvalidInput` error carrying `n`. */
  function DecodeOrInvalid<T>(m: Table<T>, x: seq<u8>): (r: Result<T, Error>)
    requires |x| == XdrPrimitive.I32_SIZE
    ensures Decode(m, x).Ok? ==> r == Ok(Decode(m, x).value)
    ensures Decode(m, x).Err? ==> r == Err(InvalidInput(XdrPrimitive.DecodeI32(x)))
  {
    match Decode(m, x)
    case Ok(v) => Ok(v)
    case Err(n) => Err(InvalidInput(n))
  }

  /**
   * Generated `read`: consumes exactly 4 bytes; fails with `UnexpectedEof`
   * when fewer remain, with `InvalidInput(n)` when they decode to an
   * integer `n` that is no discriminant.
   */
  method Read<T>(r: BinaryReader.Reader, m: Table<T>) returns (res: Result<T, Error>)
    requires r.Valid()
    modifies r
    ensures r.Valid()
    ensures var s := Cursor.ReadExact(r.data, old(r.pos), XdrPrimitive.I32_SIZE);
            r.pos == s.pos
            && (s.result.Err? ==> res == Err(s.result.error))
            && (s.result.Ok? ==> res == DecodeOrInvalid(m, s.result.value))
  {
    res := r.TryReadAs(XdrPrimitive.I32_SIZE, x requires |x| == XdrPrimitive.I32_SIZE => DecodeOrInvalid(m, x));
  }

  /** With distinct discriminants, the big-endian bytes of a variant's discriminant decode to that variant. */
  lemma DecodeRoundTrip<T>(m: Table<T>, t: T)
    requires DistinctValues(m)
    requires exists i :: 0 <= i < |m| && m[i].0 == t
    requires -0x8000_0000 <= IntEnum.FromRef(m, t) < 0x8000_0000
    ensures Decode(m, XdrPrimitive.EncodeI32(IntEnum.FromRef(m, t))) == Ok(t)
  {
    var d: i32 := IntEnum.FromRef(m, t);
    XdrPrimitive.I32Bijection(d, XdrPrimitive.EncodeI32(d));
    IntEnum.TryFromFromRef(m, t);
  }
}
