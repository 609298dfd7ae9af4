/**
 * The borrowing byte reader of the `binary` crate: a cursor over one file
 * whose every operation advances the position of the underlying
 * `BufReader`. The file is modelled by its contents `data`, the cursor by
 * `pos`; buffers are arrays filled in place.
 */
module BinaryReader {
  import opened Types
  import Cursor

  class Reader {
    const data: seq<u8>
    var pos: nat

    /** A file is never longer than, and a cursor never beyond, the largest `off_t`. */
    ghost predicate Valid()
      reads this
    {
      |data| <= I64_MAX && pos <= I64_MAX
    }

    /** `Reader::new(file)`: the cursor of a freshly opened file is at its start. */
    constructor (contents: seq<u8>)
      requires |contents| <= I64_MAX
      ensures Valid() && data == contents && pos == 0
    {
      data := contents;
      pos := 0;
    }

    /**
     * `read(buf)`: fills `buf` with exactly the next `buf.Length` bytes, or
     * fails with `UnexpectedEof` when fewer remain; a partially filled
     * buffer is never reported as a success.
     */
    method Read(buf: array<u8>) returns (res: Result<(), Error>)
      requires Valid()
      modifies this, buf
      ensures Valid()
      ensures var s := Cursor.ReadExact(data, old(pos), buf.Length);
              pos == s.pos
              && (res.Ok? <==> s.result.Ok?)
              && (res.Ok? ==> buf[..] == s.result.value)
              && (res.Err? ==> res.error == s.result.error)
    {
      var n, p := buf.Length, pos;
      var ok := n == 0 || p + n <= |data|;
      var k := if ok then n else if p < |data| then |data| - p else 0;
      var i := 0;
      while i < k
        modifies buf
        invariant 0 <= i <= k
        invariant forall j :: 0 <= j < i ==> buf[j] == data[p + j]
      {
        buf[i] := data[p + i];
        i := i + 1;
      }
      if ok {
        pos := p + n;
        res := Ok(());
      } else {
        pos := Cursor.Max(p, |data|);
        res := Err(UnexpectedEof);
      }
    }

    /** `seek(pos)`: repositions the cursor and returns the new absolute offset. */
    method Seek(from: Cursor.SeekFrom) returns (res: Result<nat, Error>)
      requires Valid()
      modifies this
      ensures Valid()
      ensures Cursor.Step(res, pos) == Cursor.Seek(data, old(pos), from)
    {
      var s := Cursor.Seek(data, pos, from);
      res, pos := s.result, s.pos;
    }

    /** `skip(offset)`: moves the cursor forward by `offset` and returns the new absolute position. */
    method Skip(offset: u32) returns (res: Result<nat, Error>)
      requires Valid()
      modifies this
      ensures Valid()
      ensures Cursor.Step(res, pos) == Cursor.Skip(old(pos), offset)
    {
      var target := pos + offset;
      if target <= I64_MAX {
        pos := target;
        res := Ok(pos);
      } else {
        res := Err(InvalidSeek);
      }
    }

    /**
     * `align(to)`: skips to the next multiple of `to`, counted from the
     * start of the file. `to` is a power of two (for `to = 0` the Rust
     * `to - 1` underflows); the cursor bound rules out an overflow of
     * `pos + (to - 1)`.
     */
    method Align(to: u64) returns (res: Result<nat, Error>)
      requires Valid() && Cursor.IsPowerOfTwo(to)
      modifies this
      ensures Valid()
      ensures Cursor.Step(res, pos) == Cursor.Align(old(pos), to)
    {
      var dest := Cursor.AlignUp(pos, to);
      res := Skip((dest - pos) % 0x1_0000_0000);
    }

    /** `read_as::<N>(f)`: reads exactly `n` bytes into a fresh buffer and applies `f` to them. */
    method ReadAs<T>(n: nat, f: seq<u8> --> T) returns (res: Result<T, Error>)
      requires Valid()
      requires forall b: seq<u8> | |b| == n :: f.requires(b)
      modifies this
      ensures Valid()
      ensures Cursor.Step(res, pos) == Cursor.ReadAs(data, old(pos), n, f)
    {
      var buf := new u8[n];
      var r := Read(buf);
      if r.Err? {
        res := Err(r.error);
      } else {
        res := Ok(f(buf[..]));
      }
    }

    /** `try_read_as::<N>(f)`: like `ReadAs`, folding a failure of `f` into the error channel. */
    method TryReadAs<T>(n: nat, f: seq<u8> --> Result<T, Error>) returns (res: Result<T, Error>)
      requires Valid()
      requires forall b: seq<u8> | |b| == n :: f.requires(b)
      modifies this
      ensures Valid()
      ensures Cursor.Step(res, pos) == Cursor.TryReadAs(data, old(pos), n, f)
    {
      var buf := new u8[n];
      var r := Read(buf);
      if r.Err? {
        res := Err(r.error);
      } else {
        res := f(buf[..]);
      }
    }

    /** `read_to(len, f)`: reads exactly `len` bytes into a fresh vector of that length and applies `f`. */
    method ReadTo<T>(len: nat, f: seq<u8> --> T) returns (res: Result<T, Error>)
      requires Valid()
      requires forall b: seq<u8> | |b| == len :: f.requires(b)
      modifies this
      ensures Valid()
      ensures Cursor.Step(res, pos) == Cursor.ReadAs(data, old(pos), len, f)
    {
      var buf := new u8[len];
      var r := Read(buf);
      if r.Err? {
        res := Err(r.error);
      } else {
        res := Ok(f(buf[..]));
      }
    }

    /** `try_read_to(len, f)`: like `ReadTo`, folding a failure of `f` into the error channel. */
    method TryReadTo<T>(len: nat, f: seq<u8> --> Result<T, Error>) returns (res: Result<T, Error>)
      requires Valid()
      requires forall b: seq<u8> | |b| == len :: f.requires(b)
      modifies this
      ensures Valid()
      ensures Cursor.Step(res, pos) == Cursor.TryReadAs(data, old(pos), len, f)
    {
      var buf := new u8[len];
      var r := Read(buf);
      if r.Err? {
        res := Err(r.error);
      } else {
        res := f(buf[..]);
      }
    }
  }
}
