/**
 * The XDR string (section 4.11 of RFC 4506): a 4-byte big-endian unsigned
 * length `n`, the `n` bytes of the string, then padding up to a multiple of
 * four bytes. The string is kept as the UTF-8 bytes a Rust `String` holds.
 */
module XdrString {
  import opened Types
  import Cursor
  import BinaryReader
  import XdrPrimitive

  const STRING_LEN_SIZE: nat := 4

  predicate IsTail(b: u8) { 0x80 <= b <= 0xBF }

  /**
   * The width of the well-formed UTF-8 encoding of one scalar value at the
   * start of `s` (section 4 of RFC 3629), or 0 when `s` does not start with
   * one: overlong forms, surrogates and values above U+10FFFF are refused.
   */
  function CharWidth(s: seq<u8>): (w: nat)
    ensures w <= 4 && w <= |s|
  {
    if |s| == 0 then 0
    else
      var b0 := s[0];
      if b0 <= 0x7F then 1
      else if 0xC2 <= b0 <= 0xDF then
        if |s| >= 2 && IsTail(s[1]) then 2 else 0
      else if 0xE0 <= b0 <= 0xEF then
        var second :=
          if b0 == 0xE0 then 0xA0 <= s[1 % |s|] <= 0xBF
          else if b0 == 0xED then 0x80 <= s[1 % |s|] <= 0x9F
          else IsTail(s[1 % |s|]);
        if |s| >= 3 && second && IsTail(s[2]) then 3 else 0
      else if 0xF0 <= b0 <= 0xF4 then
        var second :=
          if b0 == 0xF0 then 0x90 <= s[1 % |s|] <= 0xBF
          else if b0 == 0xF4 then 0x80 <= s[1 % |s|] <= 0x8F
          else IsTail(s[1 % |s|]);
        if |s| >= 4 && second && IsTail(s[2]) && IsTail(s[3]) then 4 else 0
      else 0
  }

  /** The bytes are a sequence of well-formed UTF-8 encodings: what `String::from_utf8` accepts. */
  predicate ValidUtf8(s: seq<u8>)
    decreases |s|
  {
    |s| == 0 || (CharWidth(s) > 0 && ValidUtf8(s[CharWidth(s)..]))
  }

  /** Every ASCII byte string is valid UTF-8. */
  lemma {:induction false} AsciiIsUtf8(s: seq<u8>)
    requires forall i :: 0 <= i < |s| ==> s[i] < 0x80
    ensures ValidUtf8(s)
  {
    if |s| > 0 {
      AsciiIsUtf8(s[1..]);
    }
  }

  /** A lone continuation byte starts no encoding, so it is never valid UTF-8. */
  lemma StrayContinuation(s: seq<u8>)
    requires |s| > 0 && IsTail(s[0])
    ensures !ValidUtf8(s)
  {
  }

  /** `decode_str`: the bytes as a `String` when they are valid UTF-8, an error otherwise. */
  function DecodeStr(x: seq<u8>): (r: Result<seq<u8>, Error>)
    ensures r.Ok? <==> ValidUtf8(x)
    ensures r.Ok? ==> r.value == x
    ensures r.Err? ==> r.error == InvalidUtf8
  {
    if ValidUtf8(x) then Ok(x) else Err(InvalidUtf8)
  }

  /**
   * `String::read`: the length (`decode_len`, a big-endian `u32`), then
   * `try_read_to` of that many bytes with `decode_str`, then `align(4)`.
   */
  function ReadStep(data: seq<u8>, pos: nat): Cursor.Step<seq<u8>>
  {
    var l := Cursor.ReadAs(data, pos, STRING_LEN_SIZE, XdrPrimitive.DecodeU32);
    if l.result.Err? then Cursor.Fail(l)
    else
      var s := Cursor.TryReadAs(data, l.pos, l.result.value, DecodeStr);
      if s.result.Err? then Cursor.Fail(s)
      else
        var a := Cursor.Align(s.pos, 4);
        if a.result.Err? then Cursor.Fail(a)
        else Cursor.Step(Ok(s.result.value), a.pos)
  }

  /** `String::read` on the reader: each step runs only when the previous one succeeded. */
  method Read(r: BinaryReader.Reader) returns (res: Result<seq<u8>, Error>)
    requires r.Valid()
    modifies r
    ensures r.Valid()
    ensures Cursor.Step(res, r.pos) == ReadStep(r.data, old(r.pos))
  {
    var len := r.ReadAs(STRING_LEN_SIZE, XdrPrimitive.DecodeU32);
    if len.Err? {
      return Err(len.error);
    }
    var s := r.TryReadTo(len.value, DecodeStr);
    if s.Err? {
      return Err(s.error);
    }
    var a := r.Align(4);
    if a.Err? {
      return Err(a.error);
    }
    res := Ok(s.value);
  }

  /** The number of padding bytes after `n` content bytes. */
  function PadLen(n: nat): (p: nat)
    ensures p < 4 && (n + p) % 4 == 0
  {
    (4 - n % 4) % 4
  }

  /** The encoding the reader inverts: length, bytes, and zero padding to a multiple of four. */
  function Encode(s: seq<u8>): (x: seq<u8>)
    requires |s| < 0x1_0000_0000
    ensures |x| == STRING_LEN_SIZE + |s| + PadLen(|s|) && |x| % 4 == 0
  {
    FourMore(|s| + PadLen(|s|));
    XdrPrimitive.EncodeU32(|s|) + s + seq(PadLen(|s|), _ => 0)
  }

  lemma FourMore(a: nat)
    requires a % 4 == 0
    ensures (STRING_LEN_SIZE + a) % 4 == 0
  {
  }

  lemma PadShift(p: nat, n: nat)
    requires p % 4 == 0
    ensures PadLen(p + 4 + n) == PadLen(n)
  {
    var k := p / 4;
    assert p == 4 * k;
    assert (p + 4 + n) % 4 == n % 4;
  }

  lemma LengthStep(data: seq<u8>, p: nat, n: u32)
    requires p + 4 <= |data| && data[p..p + 4] == XdrPrimitive.EncodeU32(n)
    ensures Cursor.ReadAs(data, p, STRING_LEN_SIZE, XdrPrimitive.DecodeU32) == Cursor.Step(Ok(n), p + 4)
  {
    XdrPrimitive.U32Bijection(n, data[p..p + 4]);
  }

  lemma AlignStep(q: nat)
    requires q + PadLen(q) <= I64_MAX
    ensures Cursor.Align(q, 4) == Cursor.Step(Ok(q + PadLen(q)), q + PadLen(q))
  {
    var r := q + PadLen(q);
    assert Cursor.AlignUp(q, 4) == r;
    Cursor.SmallMod(r - q, 0x1_0000_0000);
    assert Cursor.Skip(q, r - q) == Cursor.Step(Ok(r), r);
  }

  /** The parts of `prefix ++ BE(n) ++ s ++ tail`, found at their offsets. */
  lemma Parts(prefix: seq<u8>, e: seq<u8>, s: seq<u8>, tail: seq<u8>)
    requires |e| == 4
    ensures var data := prefix + e + s + tail; var p := |prefix|;
            |data| >= p + 4 + |s| && data[p..p + 4] == e && data[p + 4..p + 4 + |s|] == s
  {
    var data := prefix + e + s + tail;
    var p := |prefix|;
    assert data[p..p + 4] == e;
    assert data[p + 4..p + 4 + |s|] == s;
  }

  /**
   * From a 4-aligned position, a length `n`, `n` valid UTF-8 bytes and
   * anything after them decode to those bytes, and the cursor ends at the
   * next multiple of four: the padding bytes are neither inspected nor
   * required to be present.
   */
  lemma ReadValid(prefix: seq<u8>, s: seq<u8>, tail: seq<u8>)
    requires |prefix| % 4 == 0 && |s| < 0x1_0000_0000 && ValidUtf8(s)
    requires |prefix| + STRING_LEN_SIZE + |s| + PadLen(|s|) <= I64_MAX
    ensures ReadStep(prefix + XdrPrimitive.EncodeU32(|s|) + s + tail, |prefix|)
            == Cursor.Step(Ok(s), |prefix| + STRING_LEN_SIZE + |s| + PadLen(|s|))
  {
    assert DecodeStr(s) == Ok(s);
    ReadDecoded(prefix, s, tail);
  }

  lemma ReadDecoded(prefix: seq<u8>, s: seq<u8>, tail: seq<u8>)
    requires |prefix| % 4 == 0 && |s| < 0x1_0000_0000 && DecodeStr(s) == Ok(s)
    requires |prefix| + STRING_LEN_SIZE + |s| + PadLen(|s|) <= I64_MAX
    ensures ReadStep(prefix + XdrPrimitive.EncodeU32(|s|) + s + tail, |prefix|)
            == Cursor.Step(Ok(s), |prefix| + STRING_LEN_SIZE + |s| + PadLen(|s|))
  {
    var data := prefix + XdrPrimitive.EncodeU32(|s|) + s + tail;
    Parts(prefix, XdrPrimitive.EncodeU32(|s|), s, tail);
    LengthStep(data, |prefix|, |s|);
    Cursor.TryReadAsConsumes(data, |prefix| + 4, |s|, DecodeStr);
    ReadValidAt(data, |prefix|, s);
  }

  lemma ReadValidAt(data: seq<u8>, p: nat, s: seq<u8>)
    requires p % 4 == 0 && p + STRING_LEN_SIZE + |s| + PadLen(|s|) <= I64_MAX
    requires Cursor.ReadAs(data, p, STRING_LEN_SIZE, XdrPrimitive.DecodeU32) == Cursor.Step(Ok(|s|), p + 4)
    requires Cursor.TryReadAs(data, p + 4, |s|, DecodeStr) == Cursor.Step(Ok(s), p + 4 + |s|)
    ensures ReadStep(data, p) == Cursor.Step(Ok(s), p + STRING_LEN_SIZE + |s| + PadLen(|s|))
  {
    AlignAfter(p, |s|);
    ReadStepOk(data, p, s, p + STRING_LEN_SIZE + |s| + PadLen(|s|));
  }

  /** From a 4-aligned start, the padding after the length and `n` bytes is the padding of `n`. */
  lemma AlignAfter(p: nat, n: nat)
    requires p % 4 == 0 && p + STRING_LEN_SIZE + n + PadLen(n) <= I64_MAX
    ensures var e := p + STRING_LEN_SIZE + n + PadLen(n); Cursor.Align(p + 4 + n, 4) == Cursor.Step(Ok(e), e)
  {
    PadShift(p, n);
    AlignStep(p + 4 + n);
  }

  /**
   * From any start, aligned or not, a successful read returns the `n` bytes
   * that follow the length and leaves the cursor on the first multiple of
   * four at or after their end: `align(4)` rounds the absolute position.
   */
  lemma ReadEndsAligned(data: seq<u8>, p: nat)
    requires ReadStep(data, p).result.Ok?
    ensures var s := ReadStep(data, p); var n := |s.result.value|;
            p + STRING_LEN_SIZE + n <= |data| && s.result.value == data[p + 4..p + 4 + n]
            && s.pos % 4 == 0 && s.pos == Cursor.AlignUp(p + STRING_LEN_SIZE + n, 4)
  {
    var l := Cursor.ReadAs(data, p, STRING_LEN_SIZE, XdrPrimitive.DecodeU32);
    var b := Cursor.TryReadAs(data, l.pos, l.result.value, DecodeStr);
    var n := |b.result.value|;
    assert l.pos == p + 4 && b.pos == p + 4 + n && n == l.result.value;
    assert p + 4 + n <= |data| && b.result.value == data[p + 4..p + 4 + n];
    var q := b.pos;
    var r := Cursor.AlignUp(q, 4);
    Cursor.SmallMod(r - q, 0x1_0000_0000);
    assert Cursor.Align(q, 4) == Cursor.Step(Ok(r), r);
  }

  lemma ReadStepOk(data: seq<u8>, p: nat, s: seq<u8>, e: nat)
    requires Cursor.ReadAs(data, p, STRING_LEN_SIZE, XdrPrimitive.DecodeU32) == Cursor.Step(Ok(|s|), p + 4)
    requires Cursor.TryReadAs(data, p + 4, |s|, DecodeStr) == Cursor.Step(Ok(s), p + 4 + |s|)
    requires Cursor.Align(p + 4 + |s|, 4) == Cursor.Step(Ok(e), e)
    ensures ReadStep(data, p) == Cursor.Step(Ok(s), e)
  {
  }

  /** Round trip: the encoding of valid UTF-8 bytes, from a 4-aligned position, decodes back and is consumed whole. */
  lemma EncodeRoundTrip(prefix: seq<u8>, s: seq<u8>, rest: seq<u8>)
    requires |prefix| % 4 == 0 && |s| < 0x1_0000_0000 && ValidUtf8(s)
    requires |prefix| + |Encode(s)| <= I64_MAX
    ensures ReadStep(prefix + Encode(s) + rest, |prefix|) == Cursor.Step(Ok(s), |prefix| + |Encode(s)|)
  {
    EncodeSplit(prefix, s, rest);
    ReadValid(prefix, s, seq(PadLen(|s|), _ => 0) + rest);
  }

  lemma EncodeSplit(prefix: seq<u8>, s: seq<u8>, rest: seq<u8>)
    requires |s| < 0x1_0000_0000
    ensures prefix + Encode(s) + rest == prefix + XdrPrimitive.EncodeU32(|s|) + s + (seq(PadLen(|s|), _ => 0) + rest)
  {
  }

  /** Bytes that are not valid UTF-8 fail after the length and the `n` bytes were consumed, and nothing is aligned. */
  lemma ReadInvalid(prefix: seq<u8>, s: seq<u8>, tail: seq<u8>)
    requires |s| < 0x1_0000_0000 && !ValidUtf8(s)
    ensures ReadStep(prefix + XdrPrimitive.EncodeU32(|s|) + s + tail, |prefix|)
            == Cursor.Step(Err(InvalidUtf8), |prefix| + STRING_LEN_SIZE + |s|)
  {
    var data := prefix + XdrPrimitive.EncodeU32(|s|) + s + tail;
    var p := |prefix|;
    Parts(prefix, XdrPrimitive.EncodeU32(|s|), s, tail);
    LengthStep(data, p, |s|);
    Cursor.TryReadAsConsumes(data, p + 4, |s|, DecodeStr);
  }

  /** When fewer than `n` bytes follow the length, the read fails with `UnexpectedEof`. */
  lemma ReadShort(prefix: seq<u8>, n: u32, body: seq<u8>)
    requires |body| < n
    ensures ReadStep(prefix + XdrPrimitive.EncodeU32(n) + body, |prefix|).result == Err(UnexpectedEof)
  {
    var data := prefix + XdrPrimitive.EncodeU32(n) + body;
    var p := |prefix|;
    assert data[p..p + 4] == XdrPrimitive.EncodeU32(n);
    LengthStep(data, p, n);
  }
}
