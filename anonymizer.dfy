/**
 * The mapping logic of `anonymize_text`: a fresh `entity_mapping = {}` on
 * every call, one `operate` call per detected span, and the document
 * `{"entity_mapping": ...}` that is written out afterwards. Entity detection
 * and the engine that splices placeholders into the text are not part of the
 * source; they are stood in for by the detected segments and the order in
 * which the engine visits them, both given as inputs.
 */
module Anonymizer {
  import opened Wrappers
  import opened Mapping
  import opened Allocator

  /** The input text cut at the detected spans. */
  datatype Segment =
    | Plain(text: string)
    | Detected(entityType: string, text: string)

  /** The input text the segments were cut from. */
  function Original(segs: seq<Segment>): string
  {
    if segs == [] then [] else Original(segs[..|segs| - 1]) + segs[|segs| - 1].text
  }

  /** The engine visits detected segments only, and every one of them at least once. */
  predicate ValidOrder(segs: seq<Segment>, order: seq<nat>)
  {
    (forall k :: 0 <= k < |order| ==> order[k] < |segs| && segs[order[k]].Detected?) &&
    (forall i :: 0 <= i < |segs| && segs[i].Detected? ==> i in order)
  }

  /** The `operate` calls the engine makes, as (entity type, value) pairs. */
  function Calls(segs: seq<Segment>, order: seq<nat>): (calls: seq<(string, string)>)
    requires ValidOrder(segs, order)
    ensures |calls| == |order|
  {
    seq(|order|, k requires 0 <= k < |order| => (segs[order[k]].entityType, segs[order[k]].text))
  }

  /** Every detected segment has a placeholder in m. */
  predicate Covers(m: EntityMap, segs: seq<Segment>)
  {
    forall i :: 0 <= i < |segs| && segs[i].Detected? ==> Lookup(m, segs[i].entityType, segs[i].text).Some?
  }

  /** The text with every detected segment replaced by its placeholder. */
  function Rendered(segs: seq<Segment>, m: EntityMap): (r: string)
    requires Covers(m, segs)
    ensures (forall i :: 0 <= i < |segs| ==> segs[i].Plain?) ==> r == Original(segs)
  {
    if segs == [] then []
    else
      var last := segs[|segs| - 1];
      var init := segs[..|segs| - 1];
      assert forall i :: 0 <= i < |init| ==> init[i] == segs[i];
      Rendered(init, m) +
      (if last.Plain? then last.text else Lookup(m, last.entityType, last.text).value)
  }

  /** What one call produces: the printed text and the document written to the mapping file. */
  datatype Anonymization = Anonymization(anonymizedText: string, document: MappingDocument)

  /**
   * `anonymize_text` with detection and splicing stood in for: the mapping
   * starts empty, so the document holds this call's allocations and nothing
   * from an earlier mapping file.
   */
  method AnonymizeText(segs: seq<Segment>, order: seq<nat>) returns (r: Anonymization)
    requires ValidOrder(segs, order)
    ensures r.document == MappingDocument(AllocateAll([], Calls(segs, order)))
    ensures Covers(r.document.entityMapping, segs)
    ensures r.anonymizedText == Rendered(segs, r.document.entityMapping)
  {
    var mapping := new EntityMapping();
    var tokens := OperateInOrder(mapping, segs, order);
    var text := Splice(segs, tokens, mapping.types);
    r := Anonymization(text, MappingDocument(mapping.types));
  }

  /**
   * Stand-in for the engine's operator calls: `operate` once per detected
   * segment, in the given order, on the shared mapping. tokens[i] is the
   * placeholder handed back for segment i.
   */
  method OperateInOrder(mapping: EntityMapping, segs: seq<Segment>, order: seq<nat>)
    returns (tokens: seq<string>)
    requires ValidOrder(segs, order)
    modifies mapping
    ensures mapping.types == AllocateAll(old(mapping.types), Calls(segs, order))
    ensures |tokens| == |segs|
    ensures forall i :: 0 <= i < |segs| && segs[i].Detected? ==>
      Lookup(mapping.types, segs[i].entityType, segs[i].text) == Some(tokens[i])
  {
    var anonymizer := new PlaceholderAnonymizer();
    ghost var calls := Calls(segs, order);
    ghost var start := mapping.types;
    tokens := seq(|segs|, _ => "");
    for k := 0 to |order|
      invariant mapping.types == AllocateAll(start, calls[..k])
      invariant |tokens| == |segs|
      invariant TokensAgree(mapping.types, segs, order, tokens, k)
    {
      var seg := segs[order[k]];
      ghost var before := mapping.types;
      var placeholder := anonymizer.Operate(seg.text, Params(Some(mapping), Some(seg.entityType)));
      AllocateAllSnoc(start, calls, k);
      TokensStep(before, segs, order, tokens, k);
      tokens := tokens[order[k] := placeholder.value];
    }
    assert calls[..|order|] == calls;
    forall i | 0 <= i < |segs| && segs[i].Detected?
      ensures Lookup(mapping.types, segs[i].entityType, segs[i].text) == Some(tokens[i])
    {
      var k :| 0 <= k < |order| && order[k] == i;
    }
  }

  /** The first k visited segments have their token recorded in m. */
  predicate TokensAgree(m: EntityMap, segs: seq<Segment>, order: seq<nat>, tokens: seq<string>, k: nat)
    requires ValidOrder(segs, order) && |tokens| == |segs| && k <= |order|
  {
    forall j :: 0 <= j < k ==>
      Lookup(m, segs[order[j]].entityType, segs[order[j]].text) == Some(tokens[order[j]])
  }

  lemma TokensStep(m: EntityMap, segs: seq<Segment>, order: seq<nat>, tokens: seq<string>, k: nat)
    requires ValidOrder(segs, order) && |tokens| == |segs| && k < |order|
    requires TokensAgree(m, segs, order, tokens, k)
    ensures var a := Allocate(m, segs[order[k]].entityType, segs[order[k]].text);
      TokensAgree(a.mapping, segs, order, tokens[order[k] := a.placeholder], k + 1)
  {
    var seg := segs[order[k]];
    forall j | 0 <= j < k
      ensures Lookup(Allocate(m, seg.entityType, seg.text).mapping, segs[order[j]].entityType, segs[order[j]].text)
           == Lookup(m, segs[order[j]].entityType, segs[order[j]].text)
    {
      AllocateKeeps(m, seg.entityType, seg.text, segs[order[j]].entityType, segs[order[j]].text);
    }
  }

  /** Stand-in for the engine's splicing: plain text copied, each detected segment replaced by its token. */
  method Splice(segs: seq<Segment>, tokens: seq<string>, ghost m: EntityMap) returns (text: string)
    requires |tokens| == |segs|
    requires forall i :: 0 <= i < |segs| && segs[i].Detected? ==>
      Lookup(m, segs[i].entityType, segs[i].text) == Some(tokens[i])
    ensures Covers(m, segs)
    ensures text == Rendered(segs, m)
  {
    text := "";
    for i := 0 to |segs|
      invariant Covers(m, segs[..i])
      invariant text == Rendered(segs[..i], m)
    {
      assert segs[..i + 1][..i] == segs[..i];
      text := text + if segs[i].Plain? then segs[i].text else tokens[i];
    }
    assert segs[..|segs|] == segs;
  }

  /** The mapping of one call is dense and covers every detected segment. */
  lemma AnonymizedMapping(segs: seq<Segment>, order: seq<nat>)
    requires ValidOrder(segs, order)
    ensures Dense(AllocateAll([], Calls(segs, order)))
    ensures Covers(AllocateAll([], Calls(segs, order)), segs)
  {
    var calls := Calls(segs, order);
    forall i | 0 <= i < |segs| && segs[i].Detected?
      ensures Lookup(AllocateAll([], calls), segs[i].entityType, segs[i].text).Some?
    {
      var k :| 0 <= k < |order| && order[k] == i;
      AllocateAllRecords([], calls, k);
    }
  }
}
