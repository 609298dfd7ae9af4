/**
 * The `bitmask` attribute of the shared enum-macro crate. It emits a
 * constant table of `(variant, discriminant)` pairs named after the enum,
 * and a `values(&self)` method that lists the variants whose discriminant
 * shares a bit with `self`'s.
 */
module BitmaskMacro {
  import opened Types
  import opened Mapping
  import IntEnum
  import IntEnumMacro

  /** `variant_tuple`: the pair `(Enum::V, d)`, the discriminant unwrapped. */
  function VariantTuple(v: IntEnum.Variant): (r: Result<(string, int), Error>)
    ensures r.Ok? <==> v.discriminant.Some?
    ensures r.Ok? ==> r.value == (v.ident, v.discriminant.value)
    ensures r.Err? ==> r.error == Panic(UnwrapOnNone)
  {
    if v.discriminant.Some? then Ok((v.ident, v.discriminant.value)) else Err(Panic(UnwrapOnNone))
  }

  /**
   * The generated mapping table: one pair per variant, in declaration
   * order. It holds the same pairs as the `From` arms emitted next to it,
   * so `values` and `into` agree on every discriminant.
   */
  function MappingTable(vs: seq<IntEnum.Variant>): (r: Result<Table<string>, Error>)
    ensures r.Ok? <==> forall i :: 0 <= i < |vs| ==> vs[i].discriminant.Some?
    ensures r.Ok? ==> |r.value| == |vs| && IntEnumMacro.Arms(vs) == r
    ensures r.Err? ==> r.error == Panic(UnwrapOnNone)
  {
    if |vs| == 0 then Ok([])
    else
      var t := VariantTuple(vs[0]);
      var rest := MappingTable(vs[1..]);
      if t.Err? then Err(t.error)
      else if rest.Err? then
        assert !vs[1..][FirstUnset(vs[1..])].discriminant.Some?;
        assert vs[1 + FirstUnset(vs[1..])] == vs[1..][FirstUnset(vs[1..])];
        Err(rest.error)
      else
        var r := [t.value] + rest.value;
        assert forall i :: 1 <= i < |vs| ==> r[i] == rest.value[i - 1] && vs[i] == vs[1..][i - 1];
        Ok(r)
  }

  /** The position of some variant without a discriminant. */
  function FirstUnset(vs: seq<IntEnum.Variant>): (k: nat)
    requires exists i :: 0 <= i < |vs| && vs[i].discriminant.None?
    ensures k < |vs| && vs[k].discriminant.None?
  {
    if vs[0].discriminant.None? then 0
    else
      assert exists i :: 0 <= i < |vs[1..]| && vs[1..][i].discriminant.None? by {
        var i :| 0 <= i < |vs| && vs[i].discriminant.None?;
        assert vs[1..][i - 1] == vs[i];
      }
      1 + FirstUnset(vs[1..])
  }

  /**
   * `values(&self)`: the variants whose discriminant ANDed with `self`'s is
   * nonzero, in table order.
   */
  function Values<T(==)>(m: Table<T>, self: T): (r: seq<T>)
    requires exists i :: 0 <= i < |m| && m[i].0 == self
    ensures |r| <= |m|
  {
    Select(m, IntEnum.FromRef(m, self))
  }

  /** `values` lists a variant exactly when one of its entries shares a bit with `self`'s discriminant, in table order. */
  lemma ValuesMembers<T>(m: Table<T>, self: T, t: T)
    requires exists i :: 0 <= i < |m| && m[i].0 == self
    ensures t in Values(m, self) <==>
              exists i :: 0 <= i < |m| && m[i].0 == t && Overlaps(m[i].1, IntEnum.FromRef(m, self))
    ensures Subsequence(Values(m, self), Tags(m))
  {
    SelectMembers(m, IntEnum.FromRef(m, self), t);
    SelectSubsequence(m, IntEnum.FromRef(m, self));
  }

  /** A variant whose discriminant has a bit set is among its own `values`. */
  lemma ValuesContainSelf<T>(m: Table<T>, self: T)
    requires exists i :: 0 <= i < |m| && m[i].0 == self
    requires Bits32(IntEnum.FromRef(m, self)) != 0
    ensures self in Values(m, self)
  {
    var k :| 0 <= k < |m| && m[k] == (self, IntEnum.FromRef(m, self));
    SelectOwn(m, k);
  }

  /** A variant whose discriminant is 0 appears in no variant's `values`. */
  lemma ZeroNeverListed<T>(m: Table<T>, zero: T, self: T)
    requires DistinctTags(m)
    requires exists i :: 0 <= i < |m| && m[i] == (zero, 0)
    requires exists i :: 0 <= i < |m| && m[i].0 == self
    ensures zero !in Values(m, self)
  {
    var i :| 0 <= i < |m| && m[i] == (zero, 0);
    SelectNeverZero(m, i, IntEnum.FromRef(m, self));
  }

  /** ASCII `to_uppercase` of one character. */
  function Upper(c: char): (u: char)
    ensures 'a' <= c <= 'z' ==> u as int == c as int - 32
    ensures !('a' <= c <= 'z') ==> u == c
  {
    if 'a' <= c <= 'z' then (c as int - 32) as char else c
  }

  function UpperString(s: string): (u: string)
    ensures |u| == |s| && forall i :: 0 <= i < |s| ==> u[i] == Upper(s[i])
  {
    if |s| == 0 then "" else [Upper(s[0])] + UpperString(s[1..])
  }

  /** `mapping_name`: `__NAME_MAPPING`, with the enum's name upper-cased. */
  function MappingName(name: string): (r: string)
    ensures |r| == |name| + 10 && r[..2] == "__" && r[|r| - 8..] == "_MAPPING"
    ensures r[2..|r| - 8] == UpperString(name)
    ensures forall i :: 0 <= i < |r| ==> !('a' <= r[i] <= 'z')
  {
    var r := "__" + UpperString(name) + "_MAPPING";
    assert forall i :: 2 <= i < |name| + 2 ==> r[i] == Upper(name[i - 2]);
    r
  }

  /** Two enums get the same table name exactly when their names agree up to ASCII case. */
  lemma MappingNameInjective(a: string, b: string)
    ensures MappingName(a) == MappingName(b) <==> UpperString(a) == UpperString(b)
  {
    if MappingName(a) == MappingName(b) {
      assert UpperString(a) == MappingName(a)[2..|a| + 2];
      assert UpperString(b) == MappingName(b)[2..|b| + 2];
    }
  }

  /** Hence `Flags` and `FLAGS` in one module would both define `__FLAGS_MAPPING`. */
  lemma MappingNameCaseCollision()
    ensures MappingName("Flags") == MappingName("FLAGS") == "__FLAGS_MAPPING"
  {
    UpperFlags();
    var r := MappingName("Flags");
    assert r == r[..2] + r[2..|r| - 8] + r[|r| - 8..];
    var t := MappingName("FLAGS");
    assert t == t[..2] + t[2..|t| - 8] + t[|t| - 8..];
    FlagsName();
  }

  lemma FlagsName()
    ensures "__" + "FLAGS" + "_MAPPING" == "__FLAGS_MAPPING"
  {
  }

  lemma UpperFlags()
    ensures UpperString("Flags") == UpperString("FLAGS") == "FLAGS"
  {
    assert UpperString("Flags")[1] == 'L';
  }
}
