/**
 * The older byte reader, which owns its file: a cursor with `skip`, an
 * exact `read` and the fixed-width decode helpers, over the same
 * `BufReader` semantics as the borrowing reader.
 */
module OwnedReader {
  import opened Types
  import Cursor

  class Reader {
    const data: seq<u8>
    var pos: nat

    ghost predicate Valid()
      reads this
    {
      |data| <= I64_MAX && pos <= I64_MAX
    }

    /** `Reader::new(file)` takes the file over, with its cursor at the start. */
    constructor (contents: seq<u8>)
      requires |contents| <= I64_MAX
      ensures Valid() && data == contents && pos == 0
    {
      data := contents;
      pos := 0;
    }

    /**
     * `skip(offset)`: the `u64` offset is converted to `i64` with `unwrap`,
     * which panics above `i64::MAX` before the cursor moves; otherwise the
     * cursor moves forward and the new absolute position is returned.
     */
    method Skip(offset: u64) returns (res: Result<nat, Error>)
      requires Valid()
      modifies this
      ensures Valid()
      ensures offset > I64_MAX ==> res == Err(Panic(UnwrapOnErr)) && pos == old(pos)
      ensures offset <= I64_MAX ==> Cursor.Step(res, pos) == Cursor.Skip(old(pos), offset)
    {
      if offset > I64_MAX {
        return Err(Panic(UnwrapOnErr));
      }
      var target := pos + offset;
      if target <= I64_MAX {
        pos := target;
        res := Ok(pos);
      } else {
        res := Err(InvalidSeek);
      }
    }

    /** `read(buf)`: fills `buf` exactly, or fails with `UnexpectedEof`. */
    method Read(buf: array<u8>) returns (res: Result<(), Error>)
      requires Valid()
      modifies this, buf
      ensures Valid()
      ensures var s := Cursor.ReadExact(data, old(pos), buf.Length);
              pos == s.pos
              && (res.Ok? <==> s.result.Ok?)
              && (res.Ok? ==> buf[..] == s.result.value)
              && (res.Err? ==> res.error == s.result.error)
    {
      var n, p := buf.Length, pos;
      var ok := n == 0 || p + n <= |data|;
      var k := if ok then n else if p < |data| then |data| - p else 0;
      var i := 0;
      while i < k
        modifies buf
        invariant 0 <= i <= k
        invariant forall j :: 0 <= j < i ==> buf[j] == data[p + j]
      {
        buf[i] := data[p + i];
        i := i + 1;
      }
      if ok {
        pos := p + n;
        res := Ok(());
      } else {
        pos := Cursor.Max(p, |data|);
        res := Err(UnexpectedEof);
      }
    }

    /** `read_as::<N>(f)`: consumes exactly `n` bytes and returns `f` of them. */
    method ReadAs<T>(n: nat, f: seq<u8> --> T) returns (res: Result<T, Error>)
      requires Valid()
      requires forall b: seq<u8> | |b| == n :: f.requires(b)
      modifies this
      ensures Valid()
      ensures Cursor.Step(res, pos) == Cursor.ReadAs(data, old(pos), n, f)
    {
      var buf := new u8[n];
      var r := Read(buf);
      if r.Err? {
        res := Err(r.error);
      } else {
        res := Ok(f(buf[..]));
      }
    }

    /** `try_read_as::<N>(f)`: consumes `n` bytes, then turns a failure of `f` into the reader's error. */
    method TryReadAs<T>(n: nat, f: seq<u8> --> Result<T, Error>) returns (res: Result<T, Error>)
      requires Valid()
      requires forall b: seq<u8> | |b| == n :: f.requires(b)
      modifies this
      ensures Valid()
      ensures Cursor.Step(res, pos) == Cursor.TryReadAs(data, old(pos), n, f)
    {
      var buf := new u8[n];
      var r := Read(buf);
      if r.Err? {
        res := Err(r.error);
      } else {
        res := f(buf[..]);
      }
    }
  }
}
