/**
 * `deanonymize_text` without the file read and the print: build the reverse
 * map placeholder -> original from the nested mapping, then run
 * `str.replace` once per reverse-map entry, in the reverse map's order.
 */
module Deanonymizer {
  import opened Wrappers
  import opened Dict
  import opened PyStr
  import opened Mapping

  /** The (original, placeholder) pair e sits under some type of m. */
  predicate Stored(m: EntityMap, e: (string, string))
  {
    exists i :: 0 <= i < |m| && e in m[i].1
  }

  /** The (original, placeholder) entries in iteration order: types outside, values inside. */
  function Flatten(m: EntityMap): (r: seq<(string, string)>)
    ensures forall e :: e in r <==> Stored(m, e)
  {
    if m == [] then []
    else
      var init := m[..|m| - 1];
      assert forall i :: 0 <= i < |init| ==> init[i] == m[i];
      Flatten(init) + m[|m| - 1].1
  }

  /** `reverse_map[placeholder] = original_value` for each entry, in order. */
  function Invert(es: seq<(string, string)>): (r: Dict<string, string>)
    ensures KeysUnique(r) && |r| <= |es|
  {
    if es == [] then []
    else
      var e := es[|es| - 1];
      var prev := Invert(es[..|es| - 1]);
      PutKeysUnique(prev, e.1, e.0);
      Put(prev, e.1, e.0)
  }

  /** The reverse map holds only stored (original, placeholder) pairs, turned around. */
  function ReverseMap(m: EntityMap): (r: Dict<string, string>)
    ensures KeysUnique(r)
    ensures forall x :: x in r ==> Stored(m, (x.1, x.0))
  {
    InvertFrom(Flatten(m));
    Invert(Flatten(m))
  }

  /** `text = text.replace(placeholder, original)` for each reverse-map entry, first to last. */
  function Substituted(s: string, rev: Dict<string, string>): (r: string)
    ensures (forall x :: x in rev ==> x.0 != [] && !Contains(s, x.0)) ==> r == s
    decreases |rev|
  {
    if rev == [] then s
    else
      assert forall x :: x in rev[1..] ==> x in rev;
      Substituted(ReplaceAll(s, rev[0].0, rev[0].1), rev[1..])
  }

  /** What `deanonymize_text` prints for `input` and a stored mapping m. */
  function Deanonymized(s: string, m: EntityMap): (r: string)
    ensures (forall e :: Stored(m, e) ==> e.1 != [] && !Contains(s, e.1)) ==> r == s
  {
    Substituted(s, ReverseMap(m))
  }

  /** Deanonymize by direct replacement; the document is only read. */
  method DeanonymizeText(input: string, doc: MappingDocument) returns (output: string)
    ensures output == Deanonymized(input, doc.entityMapping)
  {
    var reverse := BuildReverseMap(doc.entityMapping);
    output := input;
    for k := 0 to |reverse|
      invariant Substituted(output, reverse[k..]) == Substituted(input, reverse)
    {
      assert reverse[k..][1..] == reverse[k + 1..];
      output := ReplaceAll(output, reverse[k].0, reverse[k].1);
    }
  }

  /** The nested loops that fill `reverse_map`. */
  method BuildReverseMap(m: EntityMap) returns (reverse: Dict<string, string>)
    ensures reverse == ReverseMap(m)
  {
    reverse := [];
    for i := 0 to |m|
      invariant reverse == Invert(Flatten(m[..i]))
    {
      var originals := m[i].1;
      assert originals[..0] == [];
      assert Flatten(m[..i]) + [] == Flatten(m[..i]);
      for j := 0 to |originals|
        invariant reverse == Invert(Flatten(m[..i]) + originals[..j])
      {
        InvertSnoc(Flatten(m[..i]), originals, j);
        reverse := Put(reverse, originals[j].1, originals[j].0);
      }
      FlattenSnoc(m, i);
    }
    assert m[..|m|] == m;
  }

  lemma InvertSnoc(done: seq<(string, string)>, es: seq<(string, string)>, j: nat)
    requires j < |es|
    ensures Invert(done + es[..j + 1]) == Put(Invert(done + es[..j]), es[j].1, es[j].0)
  {
    var xs := done + es[..j + 1];
    assert xs[..|xs| - 1] == done + es[..j];
  }

  lemma FlattenSnoc(m: EntityMap, i: nat)
    requires i < |m|
    ensures Flatten(m[..i + 1]) == Flatten(m[..i]) + m[i].1[..|m[i].1|]
  {
    assert m[..i + 1][..i] == m[..i];
    assert m[i].1[..|m[i].1|] == m[i].1;
  }

  /** A placeholder absent from the entries is absent from the reverse map. */
  lemma {:induction false} InvertAbsent(es: seq<(string, string)>, p: string)
    requires forall j :: 0 <= j < |es| ==> es[j].1 != p
    ensures Get(Invert(es), p).None?
  {
    if es != [] {
      var init := es[..|es| - 1];
      InvertAbsent(init, p);
      PutOther(Invert(init), es[|es| - 1].1, es[|es| - 1].0, p);
    }
  }

  /** On a repeated placeholder the last entry written wins. */
  lemma {:induction false} InvertLastWins(es: seq<(string, string)>, j: nat)
    requires j < |es|
    requires forall j' :: j < j' < |es| ==> es[j'].1 != es[j].1
    ensures Get(Invert(es), es[j].1) == Some(es[j].0)
  {
    var init := es[..|es| - 1];
    var last := es[|es| - 1];
    if j < |es| - 1 {
      InvertLastWins(init, j);
      PutOther(Invert(init), last.1, last.0, es[j].1);
    }
  }

  /** Every reverse-map entry is some entry turned around. */
  lemma {:induction false} InvertFrom(es: seq<(string, string)>)
    ensures forall x :: x in Invert(es) ==> (x.1, x.0) in es
  {
    if es != [] {
      var init := es[..|es| - 1];
      var last := es[|es| - 1];
      InvertFrom(init);
      forall x | x in Invert(es) ensures (x.1, x.0) in es {
        PutEntries(Invert(init), last.1, last.0, x);
        if x in Invert(init) {
          assert (x.1, x.0) in init;
        }
      }
    }
  }

  /** When every entry carrying p has original v, the reverse map sends p to v. */
  lemma {:induction false} InvertFunctional(es: seq<(string, string)>, p: string, v: string)
    requires exists j :: 0 <= j < |es| && es[j].1 == p
    requires forall j :: 0 <= j < |es| && es[j].1 == p ==> es[j].0 == v
    ensures Get(Invert(es), p) == Some(v)
  {
    var init := es[..|es| - 1];
    var last := es[|es| - 1];
    if last.1 != p {
      var j :| 0 <= j < |es| && es[j].1 == p;
      assert init[j].1 == p;
      InvertFunctional(init, p, v);
      PutOther(Invert(init), last.1, last.0, p);
    }
  }

  /** In a dense mapping the reverse map sends every stored placeholder back to its value. */
  lemma ReverseMapInverts(m: EntityMap, t: string, v: string)
    requires Dense(m) && Lookup(m, t, v).Some?
    ensures Get(ReverseMap(m), Lookup(m, t, v).value) == Some(v)
  {
    var p := Lookup(m, t, v).value;
    var es := Flatten(m);
    var i0, j0 := DenseLookup(m, t, v);
    assert Stored(m, (v, p)) by {
      assert (v, p) in m[i0].1;
    }
    var w :| 0 <= w < |es| && es[w] == (v, p);
    forall j | 0 <= j < |es| && es[j].1 == p ensures es[j].0 == v {
      var i, k := FlattenedAt(m, es[j]);
      FormatInjective(m[i].0, k, t, j0);
    }
    InvertFunctional(es, p, v);
  }

  /** Where an entry of the flattened mapping comes from. */
  lemma FlattenedAt(m: EntityMap, x: (string, string)) returns (i: nat, k: nat)
    requires x in Flatten(m)
    ensures i < |m| && k < |m[i].1| && m[i].1[k] == x
  {
    assert Stored(m, x);
    i :| 0 <= i < |m| && x in m[i].1;
    k :| 0 <= k < |m[i].1| && m[i].1[k] == x;
  }
}
