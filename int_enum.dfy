/**
 * The `int_enum` attribute of the shared enum-macro crate. It validates the
 * enum's variants, then generates `From<&Enum>`, `From<Enum>` and
 * `TryFrom<T>` as `match` expressions over the variant/discriminant pairs.
 * The generated code is modelled by its meaning: lookups in the ordered
 * table of those pairs, declaration order being the order of the arms.
 */
module IntEnum {
  import opened Types
  import opened Mapping

  /** A parsed variant: its identifier and the value of its discriminant expression, if written. */
  datatype Variant = Variant(ident: string, discriminant: Option<int>)

  /** A compile error attached to the span of one variant. */
  datatype CompileError = CompileError(ident: string, message: string)

  const MISSING_DISCRIMINANT: string := "explicit discriminant value is required"

  /**
   * `get_variants`: the `(identifier, discriminant)` pairs in declaration
   * order, or the error for the first variant without a discriminant.
   */
  function Variants(vs: seq<Variant>): (r: Result<Table<string>, CompileError>)
    ensures r.Ok? <==> forall i :: 0 <= i < |vs| ==> vs[i].discriminant.Some?
    ensures r.Ok? ==> |r.value| == |vs|
                      && forall i :: 0 <= i < |vs| ==> r.value[i].0 == vs[i].ident && vs[i].discriminant == Some(r.value[i].1)
    ensures r.Err? ==> exists k :: FirstMissing(vs, k) && r.error == CompileError(vs[k].ident, MISSING_DISCRIMINANT)
  {
    if |vs| == 0 then Ok([])
    else if vs[0].discriminant.None? then
      assert FirstMissing(vs, 0);
      Err(CompileError(vs[0].ident, MISSING_DISCRIMINANT))
    else
      var rest := Variants(vs[1..]);
      if rest.Err? then
        FirstMissingShift(vs, rest.error);
        Err(rest.error)
      else
        var r := [(vs[0].ident, vs[0].discriminant.value)] + rest.value;
        assert forall i :: 1 <= i < |vs| ==> r[i] == rest.value[i - 1] && vs[i] == vs[1..][i - 1];
        Ok(r)
  }

  /** `k` is the first variant without a discriminant. */
  ghost predicate FirstMissing(vs: seq<Variant>, k: int)
  {
    0 <= k < |vs| && vs[k].discriminant.None? && forall j :: 0 <= j < k ==> vs[j].discriminant.Some?
  }

  lemma FirstMissingShift(vs: seq<Variant>, e: CompileError)
    requires |vs| > 0 && vs[0].discriminant.Some?
    requires exists k :: FirstMissing(vs[1..], k) && e == CompileError(vs[1..][k].ident, MISSING_DISCRIMINANT)
    ensures exists k :: FirstMissing(vs, k) && e == CompileError(vs[k].ident, MISSING_DISCRIMINANT)
  {
    var k :| FirstMissing(vs[1..], k) && e == CompileError(vs[1..][k].ident, MISSING_DISCRIMINANT);
    assert FirstMissing(vs, k + 1);
  }

  /** `get_variants`, as the loop that pushes each variant and returns at the first missing discriminant. */
  method GetVariants(vs: seq<Variant>) returns (r: Result<Table<string>, CompileError>)
    ensures r == Variants(vs)
  {
    var variants: Table<string> := [];
    var i := 0;
    while i < |vs|
      invariant 0 <= i <= |vs| && |variants| == i
      invariant forall j :: 0 <= j < i ==> variants[j].0 == vs[j].ident && vs[j].discriminant == Some(variants[j].1)
    {
      if vs[i].discriminant.None? {
        assert !(forall j :: 0 <= j < |vs| ==> vs[j].discriminant.Some?);
        assert Variants(vs).Err?;
        ghost var k :| FirstMissing(vs, k) && Variants(vs).error == CompileError(vs[k].ident, MISSING_DISCRIMINANT);
        assert vs[k].discriminant.None? && k <= i;
        return Err(CompileError(vs[i].ident, MISSING_DISCRIMINANT));
      }
      variants := variants + [(vs[i].ident, vs[i].discriminant.value)];
      i := i + 1;
    }
    assert Variants(vs).Ok?;
    assert forall j :: 0 <= j < |vs| ==> variants[j] == Variants(vs).value[j];
    assert variants == Variants(vs).value;
    r := Ok(variants);
  }

  /** What `int_enum` emits next to the enum itself: the conversions, or a compile error and none. */
  datatype Expansion = Conversions(table: Table<string>) | Rejected(error: CompileError)

  /** `int_enum(e, t)`: the conversion impls exactly when every variant has a discriminant. */
  method Expand(vs: seq<Variant>) returns (x: Expansion)
    ensures x.Conversions? <==> forall i :: 0 <= i < |vs| ==> vs[i].discriminant.Some?
    ensures x.Conversions? ==> x.table == Variants(vs).value
    ensures x.Rejected? ==> exists k :: FirstMissing(vs, k) && x.error == CompileError(vs[k].ident, MISSING_DISCRIMINANT)
  {
    var r := GetVariants(vs);
    match r {
      case Ok(t) => x := Conversions(t);
      case Err(e) => x := Rejected(e);
    }
  }

  /**
   * Generated `From<&Enum>` (and `From<Enum>`, which delegates to it): the
   * discriminant of the variant's arm. The `match` is exhaustive because
   * every variant has an arm, hence the precondition.
   */
  function FromRef<T(==)>(m: Table<T>, t: T): (x: int)
    requires exists i :: 0 <= i < |m| && m[i].0 == t
    ensures exists k :: 0 <= k < |m| && m[k] == (t, x) && forall j :: 0 <= j < k ==> m[j].0 != t
  {
    ValueOf(m, t).value
  }

  /**
   * Generated `TryFrom<T>`: the variant of the first arm whose
   * discriminant is `x`, or `Err(x)` with the input unchanged.
   */
  function TryFrom<T>(m: Table<T>, x: int): (r: Result<T, int>)
    ensures r.Err? <==> forall i :: 0 <= i < |m| ==> m[i].1 != x
    ensures r.Err? ==> r.error == x
    ensures r.Ok? ==> exists k :: 0 <= k < |m| && m[k] == (r.value, x) && forall j :: 0 <= j < k ==> m[j].1 != x
  {
    match Find(m, x)
    case Some(t) => Ok(t)
    case None => Err(x)
  }

  /** With distinct discriminants, converting a variant to its integer and back gives the variant. */
  lemma TryFromFromRef<T>(m: Table<T>, t: T)
    requires DistinctValues(m)
    requires exists i :: 0 <= i < |m| && m[i].0 == t
    ensures TryFrom(m, FromRef(m, t)) == Ok(t)
  {
    FindValueOf(m, t);
  }

  /** With distinct variants, an integer that converts to a variant is that variant's discriminant. */
  lemma FromRefTryFrom<T>(m: Table<T>, x: int)
    requires DistinctTags(m)
    requires TryFrom(m, x).Ok?
    ensures FromRef(m, TryFrom(m, x).value) == x
  {
    ValueOfFind(m, x);
  }
}
