/**
 * The placeholder operator: `PlaceholderAnonymizer.operate` and `validate`.
 * `Allocate` is the specification of one `operate` call on the mapping;
 * the class methods below are proved against it.
 */
module Allocator {
  import opened Wrappers
  import opened Dict
  import opened Mapping

  /** What one call hands back: the placeholder and the mapping after the call. */
  datatype Allocation = Allocation(placeholder: string, mapping: EntityMap)

  /**
   * One `operate(text, {"entity_mapping": m, "entity_type": t})`: reuse the
   * placeholder stored for v under t, or mint `<t_n>` with n the number of
   * values already under t and record it.
   */
  function Allocate(m: EntityMap, t: string, v: string): (a: Allocation)
    ensures Lookup(a.mapping, t, v) == Some(a.placeholder)
  {
    match Get(m, t)
    case None =>
      var p := FormatPlaceholder(t, 0);
      Allocation(p, Put(m, t, Put([], v, p)))
    case Some(inner) =>
      match Get(inner, v)
      case Some(p) => Allocation(p, m)
      case None =>
        var p := FormatPlaceholder(t, |inner|);
        Allocation(p, Put(m, t, Put(inner, v, p)))
  }

  /** A value already mapped gets its stored placeholder back and nothing changes. */
  lemma AllocateReuses(m: EntityMap, t: string, v: string)
    requires Lookup(m, t, v).Some?
    ensures Allocate(m, t, v) == Allocation(Lookup(m, t, v).value, m)
  {
  }

  /** Calling twice with the same value returns the same token and adds nothing more. */
  lemma AllocateIdempotent(m: EntityMap, t: string, v: string)
    ensures Allocate(Allocate(m, t, v).mapping, t, v) == Allocate(m, t, v)
  {
    AllocateReuses(Allocate(m, t, v).mapping, t, v);
  }

  /**
   * A new value gets the next index of its type; exactly one entry is added
   * under that type, a new type is appended at the end of the outer dict,
   * and every other type keeps its entries.
   */
  lemma AllocateNew(m: EntityMap, t: string, v: string)
    requires Lookup(m, t, v).None?
    ensures Allocate(m, t, v).placeholder == FormatPlaceholder(t, |Entries(m, t)|)
    ensures Entries(Allocate(m, t, v).mapping, t) == Entries(m, t) + [(v, Allocate(m, t, v).placeholder)]
    ensures Get(m, t).None? ==> Allocate(m, t, v).mapping == m + [(t, [(v, FormatPlaceholder(t, 0))])]
    ensures Get(m, t).Some? ==>
      |Allocate(m, t, v).mapping| == |m| &&
      forall i :: 0 <= i < |m| ==> Allocate(m, t, v).mapping[i].0 == m[i].0
    ensures forall t' :: t' != t ==> Get(Allocate(m, t, v).mapping, t') == Get(m, t')
  {
    var a := Allocate(m, t, v);
    forall t' | t' != t ensures Get(a.mapping, t') == Get(m, t') {
      PutOther(m, t, Entries(a.mapping, t), t');
    }
  }

  /** Whatever was stored before a call is still stored after it. */
  lemma AllocateKeeps(m: EntityMap, t: string, v: string, t': string, v': string)
    requires Lookup(m, t', v').Some?
    ensures Lookup(Allocate(m, t, v).mapping, t', v') == Lookup(m, t', v')
  {
    if Lookup(m, t, v).None? {
      AllocateNew(m, t, v);
      if t' == t {
        PutOther(Entries(m, t), v, Allocate(m, t, v).placeholder, v');
      }
    }
  }

  /** Where a new value lands: a new last type, or one more entry at the end of its type. */
  lemma AllocateShape(m: EntityMap, t: string, v: string) returns (i: nat)
    requires KeysUnique(m) && Lookup(m, t, v).None?
    ensures var a := Allocate(m, t, v);
      if Get(m, t).None? then a.mapping == m + [(t, [(v, a.placeholder)])]
      else i < |m| && m[i].0 == t && a.mapping == m[i := (t, m[i].1 + [(v, a.placeholder)])]
  {
    var a := Allocate(m, t, v);
    i := 0;
    if Get(m, t).Some? {
      var inner := Get(m, t).value;
      var p := FormatPlaceholder(t, |inner|);
      assert Get(inner, v).None?;
      assert a == Allocation(p, Put(m, t, Put(inner, v, p)));
      assert Put(inner, v, p) == inner + [(v, p)];
      i := GetIndex(m, t);
      PutAt(m, i, inner + [(v, p)]);
    }
  }

  /** One call keeps the mapping dense. */
  lemma AllocateDense(m: EntityMap, t: string, v: string)
    requires Dense(m)
    ensures Dense(Allocate(m, t, v).mapping)
  {
    if Lookup(m, t, v).None? {
      var a := Allocate(m, t, v);
      var i := AllocateShape(m, t, v);
      if Get(m, t).None? {
        DenseAppendEntry(t, [], v);
        DenseAppendType(m, t, [(v, a.placeholder)]);
      } else {
        AllocateNew(m, t, v);
        GetAt(m, i);
        DenseAppendEntry(t, m[i].1, v);
        DenseReplaceType(m, i, m[i].1 + [(v, a.placeholder)]);
      }
    }
  }

  lemma DenseAppendEntry(t: string, es: Dict<string, string>, v: string)
    requires DenseEntries(t, es) && Get(es, v).None?
    ensures DenseEntries(t, es + [(v, FormatPlaceholder(t, |es|))])
  {
  }

  lemma DenseAppendType(m: EntityMap, t: string, es: Dict<string, string>)
    requires Dense(m) && Get(m, t).None? && DenseEntries(t, es)
    ensures Dense(m + [(t, es)])
  {
  }

  lemma DenseReplaceType(m: EntityMap, i: nat, es: Dict<string, string>)
    requires Dense(m) && i < |m| && DenseEntries(m[i].0, es)
    ensures Dense(m[i := (m[i].0, es)])
  {
    var m' := m[i := (m[i].0, es)];
    assert forall k :: 0 <= k < |m| ==> m'[k].0 == m[k].0;
  }

  /**
   * The calls the engine makes, one (entity type, value) pair each, applied
   * in order to one shared mapping. Dense numbering is kept throughout, so a
   * run that starts from `{}` ends dense.
   */
  function AllocateAll(m: EntityMap, calls: seq<(string, string)>): (r: EntityMap)
    ensures Dense(m) ==> Dense(r)
  {
    if calls == [] then m
    else
      var last := calls[|calls| - 1];
      var prev := AllocateAll(m, calls[..|calls| - 1]);
      if Dense(prev) then
        AllocateDense(prev, last.0, last.1);
        Allocate(prev, last.0, last.1).mapping
      else
        Allocate(prev, last.0, last.1).mapping
  }

  lemma AllocateAllSnoc(m: EntityMap, calls: seq<(string, string)>, k: nat)
    requires k < |calls|
    ensures AllocateAll(m, calls[..k + 1]) == Allocate(AllocateAll(m, calls[..k]), calls[k].0, calls[k].1).mapping
  {
    assert calls[..k + 1][..k] == calls[..k];
  }

  /** After a sequence of calls, every value of every call is mapped. */
  lemma {:induction false} AllocateAllRecords(m: EntityMap, calls: seq<(string, string)>, k: nat)
    requires k < |calls|
    ensures Lookup(AllocateAll(m, calls), calls[k].0, calls[k].1).Some?
  {
    var init := calls[..|calls| - 1];
    var last := calls[|calls| - 1];
    if k < |calls| - 1 {
      AllocateAllRecords(m, init, k);
      AllocateKeeps(AllocateAll(m, init), last.0, last.1, calls[k].0, calls[k].1);
    }
  }

  /** The `entity_mapping` dict that the caller and the operator share. */
  class EntityMapping {
    var types: EntityMap

    /** `entity_mapping = {}`. */
    constructor ()
      ensures types == []
    {
      types := [];
    }
  }

  /** The operator's `params` dict; a key that is absent is None. */
  datatype Params = Params(entityMapping: Option<EntityMapping>, entityType: Option<string>)

  function ParamsFrame(params: Params): set<object>
  {
    if params.entityMapping.Some? then {params.entityMapping.value} else {}
  }

  /** The operator itself keeps no state: the mapping lives in the params it is handed. */
  class PlaceholderAnonymizer {

    constructor ()
    {
    }

    /** `operate`: raises on missing parameters, otherwise updates the shared mapping in place. */
    method Operate(text: string, params: Params) returns (r: Result<string>)
      modifies ParamsFrame(params)
      ensures params.entityMapping.None? ==>
        r == Err(ValueError("Expected 'entity_mapping' in params."))
      ensures params.entityMapping.Some? && params.entityType.None? ==>
        r == Err(KeyError("entity_type")) && params.entityMapping.value.types == old(params.entityMapping.value.types)
      ensures params.entityMapping.Some? && params.entityType.Some? ==>
        var a := Allocate(old(params.entityMapping.value.types), params.entityType.value, text);
        r == Ok(a.placeholder) && params.entityMapping.value.types == a.mapping
    {
      if params.entityMapping.None? {
        return Err(ValueError("Expected 'entity_mapping' in params."));
      }
      var mapping := params.entityMapping.value;
      if params.entityType.None? {
        return Err(KeyError("entity_type"));
      }
      var entityType := params.entityType.value;
      ghost var before := mapping.types;

      var index: nat;
      var inner := Get(mapping.types, entityType);
      if inner.None? {
        mapping.types := Put(mapping.types, entityType, []);
        index := 0;
      } else {
        var stored := Get(inner.value, text);
        if stored.Some? {
          return Ok(stored.value);
        }
        index := |inner.value|;
      }

      var placeholder := FormatPlaceholder(entityType, index);
      mapping.types := Put(mapping.types, entityType, Put(Entries(mapping.types, entityType), text, placeholder));
      if inner.None? {
        PutAppended(before, entityType, [], Put([], text, placeholder));
      }
      return Ok(placeholder);
    }

    /** `validate`: passes exactly when both parameters are present. */
    method Validate(params: Params) returns (r: Outcome)
      ensures r.Pass? <==> params.entityMapping.Some? && params.entityType.Some?
      ensures params.entityMapping.None? ==>
        r == Fail(ValueError("An input dict 'entity_mapping' is required."))
      ensures params.entityMapping.Some? && params.entityType.None? ==>
        r == Fail(ValueError("'entity_type' param is required."))
    {
      if params.entityMapping.None? {
        return Fail(ValueError("An input dict 'entity_mapping' is required."));
      }
      if params.entityType.None? {
        return Fail(ValueError("'entity_type' param is required."));
      }
      return Pass;
    }
  }

  /** Assigning to a key that was just appended rewrites that last entry. */
  lemma {:induction false} PutAppended<V>(d: Dict<string, V>, k: string, w: V, x: V)
    requires Get(d, k).None?
    ensures Put(d + [(k, w)], k, x) == d + [(k, x)]
  {
    if d != [] {
      assert (d + [(k, w)])[1..] == d[1..] + [(k, w)];
      PutAppended(d[1..], k, w, x);
    }
  }
}
