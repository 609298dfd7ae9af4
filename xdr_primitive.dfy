/**
 * XDR integers (sections 4.1, 4.2 and 4.5 of RFC 4506): fixed-width,
 * big-endian, two's complement for the signed kinds. Decoding is
 * `from_be_bytes`; the encoders are the partners the decoders invert.
 */
module XdrPrimitive {
  import opened Types
  import Cursor
  import BinaryReader

  const I32_SIZE: nat := 4
  const U32_SIZE: nat := 4
  const I64_SIZE: nat := 8
  const U64_SIZE: nat := 8

  function Pow256(w: nat): (p: nat)
    ensures p >= 1
  {
    if w == 0 then 1 else 256 * Pow256(w - 1)
  }

  /** The unsigned number whose big-endian bytes are `s`: byte 0 is the most significant. */
  function BeValue(s: seq<u8>): (v: nat)
    ensures v < Pow256(|s|)
  {
    if |s| == 0 then 0 else BeValue(s[..|s| - 1]) * 256 + s[|s| - 1] as int
  }

  /** The `w` big-endian bytes of `x`. */
  function BeBytes(x: nat, w: nat): (s: seq<u8>)
    requires x < Pow256(w)
    ensures |s| == w && BeValue(s) == x
  {
    if w == 0 then []
    else
      SplitLowByte(x, w);
      var s := BeBytes(x / 256, w - 1) + [x % 256];
      assert s[..w - 1] == BeBytes(x / 256, w - 1);
      s
  }

  lemma SplitLowByte(x: nat, w: nat)
    requires w >= 1 && x < Pow256(w)
    ensures x / 256 < Pow256(w - 1) && x == (x / 256) * 256 + x % 256
  {
  }

  /** The first byte weighs `256^(|s|-1)`: the most significant byte comes first. */
  lemma {:induction false} BeValueHead(s: seq<u8>)
    requires |s| >= 1
    ensures BeValue(s) == (s[0] as int) * Pow256(|s| - 1) + BeValue(s[1..])
  {
    if |s| > 1 {
      var n := |s|;
      var init := s[..n - 1];
      BeValueHead(init);
      assert init[1..] == s[1..][..|s[1..]| - 1];
      var a, b, c, p := s[0] as int, BeValue(init[1..]), s[n - 1] as int, Pow256(n - 2);
      assert BeValue(init) == a * p + b;
      assert BeValue(s[1..]) == b * 256 + c;
      assert BeValue(s) == (a * p + b) * 256 + c;
      assert Pow256(n - 1) == 256 * p;
      ShiftByte(a, p, b, c);
    }
  }

  lemma ShiftByte(a: int, p: int, b: int, c: int)
    ensures (a * p + b) * 256 + c == a * (256 * p) + (b * 256 + c)
  {
  }

  /** Decoding is injective: the bytes are recovered from the number they encode. */
  lemma {:induction false} BeBytesOfValue(s: seq<u8>)
    ensures BeBytes(BeValue(s), |s|) == s
  {
    if |s| > 0 {
      var init := s[..|s| - 1];
      var v := BeValue(s);
      assert v / 256 == BeValue(init) && v % 256 == s[|s| - 1] as int;
      BeBytesOfValue(init);
    }
  }

  /** `u32::from_be_bytes`: the number b0·2^24 + b1·2^16 + b2·2^8 + b3. */
  function DecodeU32(x: seq<u8>): (v: u32)
    requires |x| == U32_SIZE
    ensures v == (x[0] as int) * 0x100_0000 + (x[1] as int) * 0x1_0000 + (x[2] as int) * 0x100 + x[3] as int
  {
    assert x[..3][..2] == x[..2] && x[..2][..1] == x[..1] && x[..1][..0] == [];
    assert BeValue(x[..1]) == x[0] as int;
    assert BeValue(x[..2]) == (x[0] as int) * 0x100 + x[1] as int;
    assert BeValue(x[..3]) == (x[0] as int) * 0x1_0000 + (x[1] as int) * 0x100 + x[2] as int;
    BeValue(x)
  }

  /** `i32::from_be_bytes`: the two's-complement reading, the only `i32` congruent to the unsigned reading. */
  function DecodeI32(x: seq<u8>): (v: i32)
    requires |x| == I32_SIZE
    ensures v % 0x1_0000_0000 == DecodeU32(x)
    ensures v < 0 <==> x[0] >= 0x80
  {
    var u := DecodeU32(x);
    if u < 0x8000_0000 then u else u - 0x1_0000_0000
  }

  /** `u64::from_be_bytes`: byte 0 weighs 2^56, followed by the remaining seven bytes. */
  function DecodeU64(x: seq<u8>): (v: u64)
    requires |x| == U64_SIZE
    ensures v == (x[0] as int) * 0x100_0000_0000_0000 + BeValue(x[1..])
  {
    BeValueHead(x);
    assert Pow256(7) == 0x100_0000_0000_0000;
    BeValue(x)
  }

  /** `i64::from_be_bytes`: the two's-complement reading of the eight bytes. */
  function DecodeI64(x: seq<u8>): (v: i64)
    requires |x| == I64_SIZE
    ensures v % 0x1_0000_0000_0000_0000 == DecodeU64(x)
    ensures v < 0 <==> x[0] >= 0x80
  {
    var u := DecodeU64(x);
    if u < 0x8000_0000_0000_0000 then u else u - 0x1_0000_0000_0000_0000
  }

  function EncodeU32(v: u32): (x: seq<u8>)
    ensures |x| == U32_SIZE
  {
    BeBytes(v, 4)
  }

  function EncodeI32(v: i32): (x: seq<u8>)
    ensures |x| == I32_SIZE
  {
    BeBytes(v % 0x1_0000_0000, 4)
  }

  function EncodeU64(v: u64): (x: seq<u8>)
    ensures |x| == U64_SIZE
  {
    assert Pow256(8) == 0x1_0000_0000_0000_0000;
    BeBytes(v, 8)
  }

  function EncodeI64(v: i64): (x: seq<u8>)
    ensures |x| == I64_SIZE
  {
    assert Pow256(8) == 0x1_0000_0000_0000_0000;
    BeBytes(v % 0x1_0000_0000_0000_0000, 8)
  }

  /** U32: decode and encode are inverse bijections between 4-byte strings and [0, 2^32). */
  lemma U32Bijection(v: u32, x: seq<u8>)
    requires |x| == U32_SIZE
    ensures DecodeU32(EncodeU32(v)) == v
    ensures EncodeU32(DecodeU32(x)) == x
  {
    BeBytesOfValue(x);
  }

  /** I32: decode and encode are inverse bijections between 4-byte strings and [-2^31, 2^31). */
  lemma I32Bijection(v: i32, x: seq<u8>)
    requires |x| == I32_SIZE
    ensures DecodeI32(EncodeI32(v)) == v
    ensures EncodeI32(DecodeI32(x)) == x
  {
    BeBytesOfValue(x);
  }

  /** U64: decode and encode are inverse bijections between 8-byte strings and [0, 2^64). */
  lemma U64Bijection(v: u64, x: seq<u8>)
    requires |x| == U64_SIZE
    ensures DecodeU64(EncodeU64(v)) == v
    ensures EncodeU64(DecodeU64(x)) == x
  {
    BeBytesOfValue(x);
  }

  /** I64: decode and encode are inverse bijections between 8-byte strings and [-2^63, 2^63). */
  lemma I64Bijection(v: i64, x: seq<u8>)
    requires |x| == I64_SIZE
    ensures DecodeI64(EncodeI64(v)) == v
    ensures EncodeI64(DecodeI64(x)) == x
  {
    BeBytesOfValue(x);
  }

  /** `I32::read`: consumes exactly 4 bytes and decodes them; fails without decoding when fewer remain. */
  method ReadI32(r: BinaryReader.Reader) returns (res: Result<i32, Error>)
    requires r.Valid()
    modifies r
    ensures r.Valid()
    ensures Cursor.Step(res, r.pos) == Cursor.ReadAs(r.data, old(r.pos), I32_SIZE, DecodeI32)
  {
    res := r.ReadAs(I32_SIZE, DecodeI32);
  }

  /** `U32::read`: consumes exactly 4 bytes and decodes them. */
  method ReadU32(r: BinaryReader.Reader) returns (res: Result<u32, Error>)
    requires r.Valid()
    modifies r
    ensures r.Valid()
    ensures Cursor.Step(res, r.pos) == Cursor.ReadAs(r.data, old(r.pos), U32_SIZE, DecodeU32)
  {
    res := r.ReadAs(U32_SIZE, DecodeU32);
  }

  /** `I64::read`: consumes exactly 8 bytes and decodes them. */
  method ReadI64(r: BinaryReader.Reader) returns (res: Result<i64, Error>)
    requires r.Valid()
    modifies r
    ensures r.Valid()
    ensures Cursor.Step(res, r.pos) == Cursor.ReadAs(r.data, old(r.pos), I64_SIZE, DecodeI64)
  {
    res := r.ReadAs(I64_SIZE, DecodeI64);
  }

  /** `U64::read`: consumes exactly 8 bytes and decodes them. */
  method ReadU64(r: BinaryReader.Reader) returns (res: Result<u64, Error>)
    requires r.Valid()
    modifies r
    ensures r.Valid()
    ensures Cursor.Step(res, r.pos) == Cursor.ReadAs(r.data, old(r.pos), U64_SIZE, DecodeU64)
  {
    res := r.ReadAs(U64_SIZE, DecodeU64);
  }

  /**
   * What every fixed-width read promises: with `n` bytes left it consumes
   * exactly `n` and decodes exactly those; otherwise it fails with
   * `UnexpectedEof`, and the decoder is never applied.
   */
  lemma ReadAsExactly<T>(data: seq<u8>, pos: nat, n: nat, f: seq<u8> --> T)
    requires forall b: seq<u8> | |b| == n :: f.requires(b)
    ensures var s := Cursor.ReadAs(data, pos, n, f);
            (pos + n <= |data| ==> s == Cursor.Step(Ok(f(data[pos..pos + n])), pos + n))
            && (n > 0 && pos + n > |data| ==> s.result == Err(UnexpectedEof))
  {
    assert n == 0 && pos <= |data| ==> data[pos..pos + n] == [];
  }
}
