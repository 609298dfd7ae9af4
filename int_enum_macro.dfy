/**
 * The `int_enum` attribute of the enum-macro crate proper. It generates
 * the same `From<Enum>` and `TryFrom<T>` matches as the shared crate, but
 * instead of validating the variants first it unwraps each variant's
 * discriminant while building the arms: a variant without one makes the
 * expansion panic.
 */
module IntEnumMacro {
  import opened Types
  import opened Mapping
  import IntEnum

  /** One arm, `Enum::V => d`: the variant's discriminant, unwrapped. */
  function Arm(v: IntEnum.Variant): (r: Result<(string, int), Error>)
    ensures r.Ok? <==> v.discriminant.Some?
    ensures r.Ok? ==> r.value.0 == v.ident && v.discriminant == Some(r.value.1)
    ensures r.Err? ==> r.error == Panic(UnwrapOnNone)
  {
    match v.discriminant
    case Some(d) => Ok((v.ident, d))
    case None => Err(Panic(UnwrapOnNone))
  }

  /**
   * The arms of both generated matches, in declaration order. They are
   * exactly the pairs the validating macro collects, and a missing
   * discriminant panics where the other macro reports a compile error.
   */
  function Arms(vs: seq<IntEnum.Variant>): (r: Result<Table<string>, Error>)
    ensures r.Ok? <==> IntEnum.Variants(vs).Ok?
    ensures r.Ok? ==> r.value == IntEnum.Variants(vs).value
    ensures r.Err? ==> r.error == Panic(UnwrapOnNone)
  {
    if |vs| == 0 then Ok([])
    else
      var a := Arm(vs[0]);
      if a.Err? then Err(a.error)
      else
        var rest := Arms(vs[1..]);
        if rest.Err? then Err(rest.error)
        else
          var r := [a.value] + rest.value;
          assert forall i :: 1 <= i < |vs| ==> r[i] == rest.value[i - 1] && vs[i] == vs[1..][i - 1];
          assert forall i :: 0 <= i < |vs| ==> r[i] == IntEnum.Variants(vs).value[i];
          Ok(r)
  }

  /** What the compiler enforces of an enum: distinct variant names and distinct discriminants. */
  predicate WellFormed(m: Table<string>)
  {
    DistinctTags(m) && DistinctValues(m)
  }

  /**
   * For every variant of a well-formed enum, `try_from(from(v)) == Ok(v)`,
   * and an integer that converts to a variant is that variant's discriminant.
   */
  lemma RoundTrip(vs: seq<IntEnum.Variant>, i: int, x: int)
    requires Arms(vs).Ok? && WellFormed(Arms(vs).value)
    requires 0 <= i < |vs|
    ensures IntEnum.TryFrom(Arms(vs).value, IntEnum.FromRef(Arms(vs).value, vs[i].ident)) == Ok(vs[i].ident)
    ensures IntEnum.TryFrom(Arms(vs).value, x).Ok? ==>
              IntEnum.FromRef(Arms(vs).value, IntEnum.TryFrom(Arms(vs).value, x).value) == x
  {
    var m := Arms(vs).value;
    assert m[i].0 == vs[i].ident;
    IntEnum.TryFromFromRef(m, vs[i].ident);
    if IntEnum.TryFrom(m, x).Ok? {
      IntEnum.FromRefTryFrom(m, x);
    }
  }

  /** An integer that is no variant's discriminant is returned unchanged as the error. */
  lemma Unmatched(vs: seq<IntEnum.Variant>, x: int)
    requires Arms(vs).Ok?
    requires forall i :: 0 <= i < |vs| ==> vs[i].discriminant != Some(x)
    ensures IntEnum.TryFrom(Arms(vs).value, x) == Err(x)
  {
    var m := Arms(vs).value;
    forall i | 0 <= i < |m|
      ensures m[i].1 != x
    {
      assert vs[i].discriminant == Some(m[i].1);
    }
  }
}
