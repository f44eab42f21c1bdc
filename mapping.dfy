/**
 * The entity mapping: entity type -> (original value -> placeholder), both
 * levels insertion-ordered dicts, and the placeholder format
 * `<{entity_type}_{index}>`.
 */
module Mapping {
  import opened Wrappers
  import opened Dict
  import opened PyStr

  type EntityMap = Dict<string, Dict<string, string>>

  /** The document written to the mapping file: `{"entity_mapping": ...}`. */
  datatype MappingDocument = MappingDocument(entityMapping: EntityMap)

  /** `REPLACING_FORMAT.format(entity_type=t, index=i)`. */
  function FormatPlaceholder(entityType: string, index: nat): (r: string)
    ensures ParsePlaceholder(r) == Some((entityType, index))
  {
    var r := "<" + entityType + "_" + Decimal(index) + ">";
    ParsesBack(entityType, index, r);
    r
  }

  /** The position of the last '_' in s, if there is one. */
  function LastUnderscore(s: string): (u: Option<nat>)
    ensures u.Some? ==> u.value < |s| && s[u.value] == '_' && forall j :: u.value < j < |s| ==> s[j] != '_'
    ensures u.None? ==> forall j :: 0 <= j < |s| ==> s[j] != '_'
  {
    if s == [] then None
    else if s[|s| - 1] == '_' then Some(|s| - 1)
    else LastUnderscore(s[..|s| - 1])
  }

  /**
   * Reads `<T_i>` back as (T, i): T is everything up to the last '_', i the
   * decimal number after it. None when the text does not have that shape.
   */
  function ParsePlaceholder(q: string): Option<(string, nat)>
  {
    if |q| < 2 || q[0] != '<' || q[|q| - 1] != '>' then None
    else
      var inner := q[1..|q| - 1];
      match LastUnderscore(inner)
      case None => None
      case Some(u) =>
        var digits := inner[u + 1..];
        if digits != [] && forall j :: 0 <= j < |digits| ==> IsDigit(digits[j])
        then Some((inner[..u], ParseDecimal(digits)))
        else None
  }

  lemma ParsesBack(t: string, i: nat, r: string)
    requires r == "<" + t + "_" + Decimal(i) + ">"
    ensures ParsePlaceholder(r) == Some((t, i))
  {
    var d := Decimal(i);
    var inner := r[1..|r| - 1];
    assert inner == t + "_" + d;
    LastUnderscoreBeforeDigits(inner, t, d);
    assert inner[..|t|] == t && inner[|t| + 1..] == d;
    ParseDecimalOfDecimal(i);
  }

  /** In `t_d` with d all digits, the last '_' is the one right after t. */
  lemma LastUnderscoreBeforeDigits(x: string, t: string, d: string)
    requires x == t + "_" + d
    requires forall j :: 0 <= j < |d| ==> IsDigit(d[j])
    ensures LastUnderscore(x) == Some(|t|)
  {
    assert x[|t|] == '_';
    assert forall j :: |t| < j < |x| ==> x[j] == d[j - |t| - 1];
  }

  /** The inner dict of one entity type; empty when the type is absent. */
  function Entries(m: EntityMap, entityType: string): Dict<string, string>
  {
    match Get(m, entityType)
    case None => []
    case Some(inner) => inner
  }

  /** The placeholder stored for a value under a type, if any. */
  function Lookup(m: EntityMap, entityType: string, original: string): Option<string>
  {
    Get(Entries(m, entityType), original)
  }

  /** The entries of one type are its values carrying `<T_0>`, `<T_1>`, ... in insertion order. */
  predicate DenseEntries(entityType: string, es: Dict<string, string>)
  {
    KeysUnique(es) &&
    forall j :: 0 <= j < |es| ==> es[j].1 == FormatPlaceholder(entityType, j)
  }

  /** Every type occurs once and its placeholders are numbered densely from 0. */
  predicate Dense(m: EntityMap)
  {
    KeysUnique(m) && forall i :: 0 <= i < |m| ==> DenseEntries(m[i].0, m[i].1)
  }

  /** Distinct (type, index) pairs never print to the same placeholder. */
  lemma FormatInjective(t1: string, i1: nat, t2: string, i2: nat)
    requires FormatPlaceholder(t1, i1) == FormatPlaceholder(t2, i2)
    ensures t1 == t2 && i1 == i2
  {
    assert Some((t1, i1)) == ParsePlaceholder(FormatPlaceholder(t1, i1)) == Some((t2, i2));
  }

  /** In a dense mapping a stored placeholder is `<T_j>` with j the value's position under T. */
  lemma DenseLookup(m: EntityMap, t: string, v: string) returns (i: nat, j: nat)
    requires Dense(m) && Lookup(m, t, v).Some?
    ensures i < |m| && m[i].0 == t && j < |m[i].1| && m[i].1[j] == (v, Lookup(m, t, v).value)
    ensures Lookup(m, t, v).value == FormatPlaceholder(t, j)
  {
    i := GetIndex(m, t);
    j := GetIndex(m[i].1, v);
  }

  /** No two stored values, of the same type or of different types, share a placeholder. */
  lemma DenseDistinct(m: EntityMap, t1: string, v1: string, t2: string, v2: string)
    requires Dense(m)
    requires Lookup(m, t1, v1).Some? && Lookup(m, t1, v1) == Lookup(m, t2, v2)
    ensures t1 == t2 && v1 == v2
  {
    var i1, j1 := DenseLookup(m, t1, v1);
    var i2, j2 := DenseLookup(m, t2, v2);
    FormatInjective(t1, j1, t2, j2);
    assert i1 == i2;
  }
}
