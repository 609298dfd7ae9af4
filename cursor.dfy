/**
 * The behaviour of a buffered, seekable file handle (`BufReader<File>`)
 * over an in-memory copy of the file, as pure functions from the file
 * contents and the cursor position to a result and the next position.
 * Both reader classes, and every decoder built on them, are specified
 * against these functions.
 */
module Cursor {
  import opened Types

  /** The outcome of one cursor operation: a value or an error, and where the cursor ends. */
  datatype Step<T> = Step(result: Result<T, Error>, pos: nat)

  /** Carries the error of a failed step over to a step of another result type. */
  function Fail<A, B>(s: Step<A>): (t: Step<B>)
    requires s.result.Err?
    ensures t.result.Err? && t.result.error == s.result.error && t.pos == s.pos
  {
    Step(Err(s.result.error), s.pos)
  }

  function Max(a: nat, b: nat): nat { if a < b then b else a }

  /**
   * `read_exact` of `n` bytes at `pos`: it yields exactly the `n` bytes that
   * follow the cursor, or, when fewer remain, fails with `UnexpectedEof`
   * after having consumed whatever was left. Reading nothing always
   * succeeds, even beyond the end of the file.
   */
  function ReadExact(data: seq<u8>, pos: nat, n: nat): (s: Step<seq<u8>>)
    ensures s.result.Ok? <==> n == 0 || pos + n <= |data|
    ensures s.result.Ok? ==> |s.result.value| == n && s.pos == pos + n
    ensures s.result.Ok? ==> forall i :: 0 <= i < n ==> s.result.value[i] == data[pos + i]
    ensures s.result.Err? ==> s.result.error == UnexpectedEof && s.pos == Max(pos, |data|)
  {
    if n == 0 then Step(Ok([]), pos)
    else if pos + n <= |data| then Step(Ok(data[pos..pos + n]), pos + n)
    else Step(Err(UnexpectedEof), Max(pos, |data|))
  }

  /** Reading `n` and then `m` bytes is reading `n + m` bytes: reads are strictly sequential. */
  lemma ReadExactConcat(data: seq<u8>, pos: nat, n: nat, m: nat)
    ensures var a := ReadExact(data, pos, n);
            var ab := ReadExact(data, pos, n + m);
            (ab.result.Ok? <==> a.result.Ok? && ReadExact(data, a.pos, m).result.Ok?)
            && (ab.result.Ok? ==> ab.result.value == a.result.value + ReadExact(data, a.pos, m).result.value)
  {
    if n > 0 && m > 0 && pos + n + m <= |data| {
      var ab := data[pos..pos + n + m];
      assert ab[..n] == data[pos..pos + n] && ab[n..] == data[pos + n..pos + n + m];
      assert ab == ab[..n] + ab[n..];
    }
  }

  /** `read_as::<N>(f)`: `f` applied to exactly the `n` bytes read; `f` is not consulted when the read fails. */
  function ReadAs<T>(data: seq<u8>, pos: nat, n: nat, f: seq<u8> --> T): Step<T>
    requires forall b: seq<u8> | |b| == n :: f.requires(b)
  {
    var s := ReadExact(data, pos, n);
    if s.result.Err? then Fail(s) else Step(Ok(f(s.result.value)), s.pos)
  }

  /** `try_read_as::<N>(f)`: like `ReadAs`, but a failure of `f` becomes the error, after the bytes were consumed. */
  function TryReadAs<T>(data: seq<u8>, pos: nat, n: nat, f: seq<u8> --> Result<T, Error>): Step<T>
    requires forall b: seq<u8> | |b| == n :: f.requires(b)
  {
    var s := ReadExact(data, pos, n);
    if s.result.Err? then Fail(s) else Step(f(s.result.value), s.pos)
  }

  /** A decode failure in `try_read_as` is reported only once all `n` bytes were consumed. */
  lemma TryReadAsConsumes<T>(data: seq<u8>, pos: nat, n: nat, f: seq<u8> --> Result<T, Error>)
    requires forall b: seq<u8> | |b| == n :: f.requires(b)
    requires pos + n <= |data|
    ensures TryReadAs(data, pos, n, f).pos == pos + n
    ensures TryReadAs(data, pos, n, f).result == f(data[pos..pos + n])
  {
    assert n == 0 ==> data[pos..pos + n] == [];
  }

  /** `SeekFrom`: an offset from the start, from the end, or from the cursor. */
  datatype SeekFrom = Start(offset: nat) | End(delta: int) | Current(delta: int)

  /** Moving the cursor to `target` succeeds exactly when `target` is a valid file offset. */
  function SeekTo(pos: nat, target: int): (s: Step<nat>)
    ensures s.result.Ok? <==> 0 <= target <= I64_MAX
    ensures s.result.Ok? ==> s.pos == target && s.result.value == target
    ensures s.result.Err? ==> s.pos == pos && s.result.error == InvalidSeek
  {
    if 0 <= target <= I64_MAX then Step(Ok(target), target) else Step(Err(InvalidSeek), pos)
  }

  /** `seek(pos)`: absolute repositioning; returns the resulting absolute offset. */
  function Seek(data: seq<u8>, pos: nat, from: SeekFrom): (s: Step<nat>)
    ensures s.result.Ok? ==> s.result.value == s.pos
    ensures s.result.Err? ==> s == Step(Err(InvalidSeek), pos)
    ensures from.Start? ==> (s.result.Ok? <==> from.offset <= I64_MAX) && (s.result.Ok? ==> s.pos == from.offset)
    ensures from.End? ==> (s.result.Ok? <==> 0 <= |data| + from.delta <= I64_MAX) && (s.result.Ok? ==> s.pos == |data| + from.delta)
    ensures from.Current? ==> (s.result.Ok? <==> 0 <= pos + from.delta <= I64_MAX) && (s.result.Ok? ==> s.pos == pos + from.delta)
  {
    SeekTo(pos, match from
                case Start(o) => o
                case End(d) => |data| + d
                case Current(d) => pos + d)
  }

  /** `seek_relative(n)` followed by `stream_position()`. */
  function Skip(pos: nat, n: nat): (s: Step<nat>)
    ensures pos + n <= I64_MAX ==> s == Step(Ok(pos + n), pos + n)
    ensures pos + n > I64_MAX ==> s == Step(Err(InvalidSeek), pos)
  {
    SeekTo(pos, pos + n)
  }

  predicate IsPowerOfTwo(n: nat)
  {
    n == 1 || (n >= 2 && n % 2 == 0 && IsPowerOfTwo(n / 2))
  }

  /**
   * The smallest multiple of `to` that is not below `pos`. For a power of
   * two this is `(pos + (to - 1)) & !(to - 1)`: clearing the low bits of
   * `pos + (to - 1)` rounds it down to a multiple of `to`.
   */
  function AlignUp(pos: nat, to: nat): (r: nat)
    requires to >= 1
    ensures r % to == 0 && pos <= r < pos + to
  {
    AlignUpMultiple(pos, to);
    pos + (to - pos % to) % to
  }

  lemma AlignUpMultiple(pos: nat, to: nat)
    requires to >= 1
    ensures (pos + (to - pos % to) % to) % to == 0
  {
    var d, m := pos / to, pos % to;
    assert pos == d * to + m;
    if m == 0 {
      MulMod(1, to);
      MulMod(d, to);
    } else {
      SmallMod(to - m, to);
      NextMultiple(d, to);
      MulMod(d + 1, to);
    }
  }

  lemma NextMultiple(d: int, to: int)
    ensures (d + 1) * to == d * to + to
  {
  }

  lemma SmallMod(a: nat, to: nat)
    requires a < to
    ensures a % to == a
  {
  }

  lemma MulMod(q: nat, to: nat)
    requires to >= 1
    ensures (q * to) % to == 0
  {
    var a := q * to;
    var d, r := a / to, a % to;
    assert a == d * to + r && 0 <= r < to;
    assert (q - d) * to == r;
    if q - d >= 1 {
      assert false;
    } else if q - d <= -1 {
      assert false;
    }
  }

  /** No multiple of `to` lies between `pos` and `AlignUp(pos, to)`. */
  lemma AlignUpLeast(pos: nat, to: nat, m: nat)
    requires to >= 1 && m % to == 0 && m >= pos
    ensures AlignUp(pos, to) <= m
  {
    var r := AlignUp(pos, to);
    if m < r {
      var a, b := r / to, m / to;
      assert r == a * to;
      assert m == b * to;
      if a <= b {
        MulMonotone(a, b, to);
        assert false;
      }
      MulMonotone(b + 1, a, to);
      assert false;
    }
  }

  lemma MulMonotone(a: int, b: int, c: nat)
    requires a <= b
    ensures a * c <= b * c
  {
  }

  /** On an aligned position, aligning moves nothing. */
  lemma AlignUpIdempotent(pos: nat, to: nat)
    requires to >= 1 && pos % to == 0
    ensures AlignUp(pos, to) == pos
  {
    AlignUpLeast(pos, to, pos);
  }

  /**
   * `align(to)`: the distance to the next multiple of `to` is handed to
   * `skip`, which takes a `u32`, so the distance is truncated to 32 bits.
   */
  function Align(pos: nat, to: nat): (s: Step<nat>)
    requires IsPowerOfTwo(to)
    ensures s.result.Ok? ==> s.result.value == s.pos && pos <= s.pos < pos + 0x1_0000_0000
    ensures s.result.Err? ==> s == Step(Err(InvalidSeek), pos)
  {
    Skip(pos, (AlignUp(pos, to) - pos) % 0x1_0000_0000)
  }

  /**
   * For a power-of-two boundary of at most 2^32 that keeps the cursor a valid
   * offset, `align` lands on the next multiple of `to`, skipping at most
   * `to - 1` bytes, and returns that position.
   */
  lemma AlignLands(pos: nat, to: nat)
    requires IsPowerOfTwo(to) && to <= 0x1_0000_0000 && AlignUp(pos, to) <= I64_MAX
    ensures var s := Align(pos, to);
            s.result == Ok(s.pos) && s.pos % to == 0 && pos <= s.pos <= pos + to - 1
            && (forall m: nat :: m % to == 0 && m >= pos ==> s.pos <= m)
  {
    var r := AlignUp(pos, to);
    SmallMod(r - pos, 0x1_0000_0000);
    assert Align(pos, to) == Step(Ok(r), r);
    forall m: nat | m % to == 0 && m >= pos ensures r <= m {
      AlignUpLeast(pos, to, m);
    }
  }

  /** Aligning twice in a row leaves the cursor where aligning once put it. */
  lemma AlignIdempotent(pos: nat, to: nat)
    requires IsPowerOfTwo(to) && to <= 0x1_0000_0000 && AlignUp(pos, to) <= I64_MAX
    ensures var once := Align(pos, to); Align(once.pos, to) == once
  {
    AlignLands(pos, to);
    var p := Align(pos, to).pos;
    AlignUpIdempotent(p, to);
  }
}
