/**
 * An ordered table of `(tag, integer)` pairs: the `EnumMapping` arrays of
 * the XDR decoders, and the tables that the enum derive macros turn into
 * `match` arms. Every lookup scans the table front to back, so the first
 * matching entry wins, exactly as an iterator `find` or a `match` does.
 */
module Mapping {
  import opened Types

  type Table<T> = seq<(T, int)>

  /** Tags of a table, in table order. */
  function Tags<T>(m: Table<T>): (ts: seq<T>)
    ensures |ts| == |m| && forall i :: 0 <= i < |m| ==> ts[i] == m[i].0
  {
    if |m| == 0 then [] else [m[0].0] + Tags(m[1..])
  }

  /** No two entries share an integer, as in any enum that compiles. */
  predicate DistinctValues<T>(m: Table<T>)
  {
    forall i, j :: 0 <= i < j < |m| ==> m[i].1 != m[j].1
  }

  /** No two entries share a tag: one entry per variant. */
  predicate DistinctTags<T(==)>(m: Table<T>)
  {
    forall i, j :: 0 <= i < j < |m| ==> m[i].0 != m[j].0
  }

  /** The tag of the first entry whose integer is `v`: `iter().find(|(_, i)| *i == v)`. */
  function Find<T>(m: Table<T>, v: int): (r: Option<T>)
    ensures r.None? <==> forall i :: 0 <= i < |m| ==> m[i].1 != v
    ensures r.Some? ==> exists k :: 0 <= k < |m| && m[k] == (r.value, v)
                                    && forall j :: 0 <= j < k ==> m[j].1 != v
  {
    if |m| == 0 then None
    else if m[0].1 == v then Some(m[0].0)
    else
      var r := Find(m[1..], v);
      FindShift(m, v, r);
      r
  }

  lemma FindShift<T>(m: Table<T>, v: int, r: Option<T>)
    requires |m| > 0 && m[0].1 != v
    requires r.Some? ==> exists k :: 0 <= k < |m[1..]| && m[1..][k] == (r.value, v)
                                     && forall j :: 0 <= j < k ==> m[1..][j].1 != v
    ensures r.Some? ==> exists k :: 0 <= k < |m| && m[k] == (r.value, v)
                                    && forall j :: 0 <= j < k ==> m[j].1 != v
  {
    if r.Some? {
      var k :| 0 <= k < |m[1..]| && m[1..][k] == (r.value, v) && forall j :: 0 <= j < k ==> m[1..][j].1 != v;
      assert m[k + 1] == (r.value, v);
    }
  }

  /** The integer of the first entry tagged `t`: the arm a `match` on the variant takes. */
  function ValueOf<T(==)>(m: Table<T>, t: T): (r: Option<int>)
    ensures r.None? <==> forall i :: 0 <= i < |m| ==> m[i].0 != t
    ensures r.Some? ==> exists k :: 0 <= k < |m| && m[k] == (t, r.value)
                                    && forall j :: 0 <= j < k ==> m[j].0 != t
  {
    if |m| == 0 then None
    else if m[0].0 == t then Some(m[0].1)
    else
      var r := ValueOf(m[1..], t);
      ValueOfShift(m, t, r);
      r
  }

  lemma ValueOfShift<T>(m: Table<T>, t: T, r: Option<int>)
    requires |m| > 0 && m[0].0 != t
    requires r.Some? ==> exists k :: 0 <= k < |m[1..]| && m[1..][k] == (t, r.value)
                                     && forall j :: 0 <= j < k ==> m[1..][j].0 != t
    ensures r.Some? ==> exists k :: 0 <= k < |m| && m[k] == (t, r.value)
                                    && forall j :: 0 <= j < k ==> m[j].0 != t
  {
    if r.Some? {
      var k :| 0 <= k < |m[1..]| && m[1..][k] == (t, r.value) && forall j :: 0 <= j < k ==> m[1..][j].0 != t;
      assert m[k + 1] == (t, r.value);
    }
  }

  /** With distinct integers, looking up the integer of a tag gives the tag back. */
  lemma FindValueOf<T>(m: Table<T>, t: T)
    requires DistinctValues(m)
    requires ValueOf(m, t).Some?
    ensures Find(m, ValueOf(m, t).value) == Some(t)
  {
    var x := ValueOf(m, t).value;
    var k :| 0 <= k < |m| && m[k] == (t, x) && forall j :: 0 <= j < k ==> m[j].0 != t;
    var r := Find(m, x);
    var k' :| 0 <= k' < |m| && m[k'] == (r.value, x) && forall j :: 0 <= j < k' ==> m[j].1 != x;
    if k' < k {
      assert false;
    } else if k < k' {
      assert false;
    }
  }

  /** With distinct tags, the tag found for an integer maps back to that integer. */
  lemma ValueOfFind<T>(m: Table<T>, x: int)
    requires DistinctTags(m)
    requires Find(m, x).Some?
    ensures ValueOf(m, Find(m, x).value) == Some(x)
  {
    var t := Find(m, x).value;
    var k :| 0 <= k < |m| && m[k] == (t, x) && forall j :: 0 <= j < k ==> m[j].1 != x;
    var r := ValueOf(m, t);
    var k' :| 0 <= k' < |m| && m[k'] == (t, r.value) && forall j :: 0 <= j < k' ==> m[j].0 != t;
    if k' < k {
      assert false;
    } else if k < k' {
      assert false;
    }
  }

  /** The 32-bit two's-complement pattern of an `i32` or `u32` value. */
  function Bits32(x: int): bv32
  {
    (x % 0x1_0000_0000) as bv32
  }

  /** `a & b != 0` on 32-bit integers. */
  predicate Overlaps(a: int, b: int)
  {
    Bits32(a) & Bits32(b) != 0
  }

  /**
   * `iter().filter(|(_, i)| *i & v != 0).map(|(t, _)| *t).collect()`: the
   * tags whose integer shares a set bit with `v`, in table order.
   */
  function Select<T>(m: Table<T>, v: int): (r: seq<T>)
    ensures |r| <= |m|
  {
    if |m| == 0 then []
    else if Overlaps(m[0].1, v) then [m[0].0] + Select(m[1..], v)
    else Select(m[1..], v)
  }

  /** A tag is in the filter's output exactly when some entry carrying it shares a bit with `v`. */
  lemma {:induction false} SelectMembers<T>(m: Table<T>, v: int, t: T)
    ensures t in Select(m, v) <==> exists i :: 0 <= i < |m| && m[i].0 == t && Overlaps(m[i].1, v)
  {
    if |m| > 0 {
      SelectMembers(m[1..], v, t);
      if t in Select(m[1..], v) {
        var i :| 0 <= i < |m[1..]| && m[1..][i].0 == t && Overlaps(m[1..][i].1, v);
        assert m[i + 1] == m[1..][i];
      }
      if exists i :: 0 <= i < |m| && m[i].0 == t && Overlaps(m[i].1, v) {
        var i :| 0 <= i < |m| && m[i].0 == t && Overlaps(m[i].1, v);
        if i > 0 {
          assert m[1..][i - 1] == m[i];
        }
      }
    }
  }

  /** `s` is obtained from `t` by deleting elements: the filter keeps table order. */
  predicate Subsequence<T(==)>(s: seq<T>, t: seq<T>)
  {
    if |s| == 0 then true
    else if |t| == 0 then false
    else if s[0] == t[0] then Subsequence(s[1..], t[1..])
    else Subsequence(s, t[1..])
  }

  /** The filter's output is a subsequence of the table's tags: table order is kept. */
  lemma {:induction false} SelectSubsequence<T>(m: Table<T>, v: int)
    ensures Subsequence(Select(m, v), Tags(m))
  {
    if |m| > 0 {
      SelectSubsequence(m[1..], v);
      assert Tags(m)[1..] == Tags(m[1..]);
      if Overlaps(m[0].1, v) {
        assert Select(m, v)[1..] == Select(m[1..], v);
      } else {
        SubsequenceDrop(Select(m, v), Tags(m));
      }
    }
  }

  lemma {:induction false} SubsequenceDrop<T>(s: seq<T>, t: seq<T>)
    requires |t| > 0 && Subsequence(s, t[1..])
    ensures Subsequence(s, t)
    decreases |s| + |t|
  {
    if |s| > 0 && s[0] == t[0] {
      SubsequenceTail(s, t[1..]);
    }
  }

  lemma {:induction false} SubsequenceTail<T>(s: seq<T>, t: seq<T>)
    requires |s| > 0 && Subsequence(s, t)
    ensures Subsequence(s[1..], t)
    decreases |s| + |t|
  {
    if s[0] != t[0] {
      SubsequenceTail(s, t[1..]);
    }
    SubsequenceDrop(s[1..], t);
  }

  /** Zero shares a bit with nothing: filtering by 0 gives the empty list. */
  lemma SelectZero<T>(m: Table<T>)
    ensures Select(m, 0) == []
  {
    assert Bits32(0) == 0;
    forall i | 0 <= i < |m| ensures !Overlaps(m[i].1, 0) {
      assert Bits32(m[i].1) & 0 == 0;
    }
  }

  /** A value whose set bits all lie outside every entry's bits selects nothing. */
  lemma SelectDisjoint<T>(m: Table<T>, v: int)
    requires forall i :: 0 <= i < |m| ==> Bits32(m[i].1) & Bits32(v) == 0
    ensures Select(m, v) == []
  {
  }

  /** An entry with a nonzero integer is selected by its own integer. */
  lemma SelectOwn<T>(m: Table<T>, i: int)
    requires 0 <= i < |m| && Bits32(m[i].1) != 0
    ensures m[i].0 in Select(m, m[i].1)
  {
    var b := Bits32(m[i].1);
    assert b & b == b;
    SelectMembers(m, m[i].1, m[i].0);
  }

  /** An entry whose integer is 0 is selected by no value. */
  lemma SelectNeverZero<T>(m: Table<T>, i: int, v: int)
    requires 0 <= i < |m| && m[i].1 == 0
    requires forall j :: 0 <= j < |m| && m[j].0 == m[i].0 ==> m[j].1 == 0
    ensures m[i].0 !in Select(m, v)
  {
    assert Bits32(0) == 0;
    forall j | 0 <= j < |m| && m[j].0 == m[i].0 ensures !Overlaps(m[j].1, v) {
      assert Bits32(0) & Bits32(v) == 0;
    }
    SelectMembers(m, v, m[i].0);
  }
  /** Values that agree modulo 2^32 select the same tags: only the low 32 bits are compared. */
  lemma {:induction false} SelectBits<T>(m: Table<T>, a: int, b: int)
    requires a % 0x1_0000_0000 == b % 0x1_0000_0000
    ensures Select(m, a) == Select(m, b)
  {
    if |m| > 0 {
      SameOverlaps(m[0].1, a, b);
      SelectBits(m[1..], a, b);
    }
  }

  lemma SameOverlaps(x: int, a: int, b: int)
    requires a % 0x1_0000_0000 == b % 0x1_0000_0000
    ensures Overlaps(x, a) == Overlaps(x, b)
  {
    assert Bits32(a) == Bits32(b);
  }

  /** Bit 0 of a 32-bit value is set exactly when the integer is odd. */
  lemma OverlapsOne(v: int)
    ensures Overlaps(1, v) <==> v % 2 == 1
  {
    var w := v % 0x1_0000_0000;
    assert Bits32(1) == 1;
    LowBits(v);
    LowBit(w);
  }

  lemma LowBit(w: int)
    requires 0 <= w < 0x1_0000_0000
    ensures (w as bv32) & 1 == (w % 2) as bv32
  {
  }

  /** Bit 1 of a 32-bit value is set exactly when the integer halved is odd. */
  lemma OverlapsTwo(v: int)
    ensures Overlaps(2, v) <==> (v / 2) % 2 == 1
  {
    var w := v % 0x1_0000_0000;
    assert Bits32(2) == 2;
    LowBits(v);
    SecondBit(w);
  }

  lemma SecondBit(w: int)
    requires 0 <= w < 0x1_0000_0000
    ensures (w as bv32) & 2 == ((w / 2) % 2 * 2) as bv32
  {
  }

  /** Reducing modulo 2^32 keeps the two lowest bits. */
  lemma LowBits(v: int)
    ensures (v % 0x1_0000_0000) % 2 == v % 2
    ensures ((v % 0x1_0000_0000) / 2) % 2 == (v / 2) % 2
  {
    var q, w := v / 0x1_0000_0000, v % 0x1_0000_0000;
    assert v == q * 0x1_0000_0000 + w;
    AddEven(q * 0x8000_0000, w);
    AddEven(q * 0x4000_0000, w / 2);
  }

  lemma AddEven(k: int, w: int)
    ensures (2 * k + w) % 2 == w % 2 && (2 * k + w) / 2 == k + w / 2
  {
  }
}
