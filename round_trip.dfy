/**
 * Deanonymizing what anonymizing produced gives the input back, under side
 * conditions the direct string replacement needs: neither the surrounding
 * text nor any original value contains '<', and entity types contain
 * neither '<' nor '>'. Without them the code has no round trip: a value
 * holding another placeholder is rewritten again by a later replace, and
 * text around a token can combine with it into a different placeholder.
 */
module RoundTrip {
  import opened Wrappers
  import opened Dict
  import opened PyStr
  import opened Mapping
  import opened Allocator
  import opened Deanonymizer
  import opened Anonymizer

  /** Anonymized text seen as literal stretches and placeholder tokens. */
  datatype Piece = Lit(text: string) | Tok(token: string)

  function Show(x: Piece): string
  {
    if x.Lit? then x.text else x.token
  }

  function Concat(ps: seq<Piece>): string
  {
    if ps == [] then [] else Show(ps[0]) + Concat(ps[1..])
  }

  predicate LacksOpen(s: string)
  {
    forall j :: 0 <= j < |s| ==> s[j] != '<'
  }

  predicate Bracketless(s: string)
  {
    forall j :: 0 <= j < |s| ==> s[j] != '<' && s[j] != '>'
  }

  /** `<` + text without angle brackets + `>`: the shape of every minted placeholder. */
  predicate WellFormedToken(q: string)
  {
    |q| >= 2 && q[0] == '<' && q[|q| - 1] == '>' &&
    forall j :: 0 < j < |q| - 1 ==> q[j] != '<' && q[j] != '>'
  }

  predicate CleanPiece(x: Piece)
  {
    if x.Lit? then LacksOpen(x.text) else WellFormedToken(x.token)
  }

  predicate CleanPieces(ps: seq<Piece>)
  {
    forall i :: 0 <= i < |ps| ==> CleanPiece(ps[i])
  }

  /** Placeholders of a type without angle brackets are well formed. */
  lemma FormatWellFormed(t: string, n: nat)
    requires Bracketless(t)
    ensures WellFormedToken(FormatPlaceholder(t, n))
  {
    var d := Decimal(n);
    var q := FormatPlaceholder(t, n);
    forall j | 0 < j < |q| - 1 ensures q[j] != '<' && q[j] != '>' {
      if j <= |t| {
        assert q[j] == t[j - 1];
      } else if j > |t| + 1 {
        assert q[j] == d[j - |t| - 2];
      }
    }
  }

  /** A well-formed token occurs in a clean piece followed by anything only at the piece's start. */
  lemma OccurrenceInPiece(x: Piece, rest: string, p: string, i: nat)
    requires CleanPiece(x) && WellFormedToken(p)
    requires i < |Show(x)| && OccursAt(Show(x) + rest, p, i)
    ensures x.Tok? && i == 0 && p == x.token
  {
    var s := Show(x) + rest;
    assert s[i] == p[0];
    if x.Tok? {
      var q := x.token;
      assert i == 0;
      assert forall j :: 0 < j < |q| - 1 ==> s[j] != '>';
      assert s[|q| - 1] == '>';
      assert forall j :: 0 < j < |p| - 1 ==> s[j] == p[j] != '>';
      assert s[|p| - 1] == '>';
      assert |p| == |q|;
      assert p == s[..|p|] == q;
    }
  }

  /** No occurrence of a well-formed token straddles the end of a clean piece. */
  lemma PieceNoStraddle(x: Piece, rest: string, p: string)
    requires CleanPiece(x) && WellFormedToken(p)
    ensures NoStraddle(Show(x), rest, p)
  {
    forall i | 0 <= i < |Show(x)| < i + |p| ensures !OccursAt(Show(x) + rest, p, i) {
      if OccursAt(Show(x) + rest, p, i) {
        OccurrenceInPiece(x, rest, p, i);
      }
    }
  }

  function SubstPiece(x: Piece, p: string, v: string): Piece
  {
    if x == Tok(p) then Lit(v) else x
  }

  /** One `replace` on a single clean piece replaces the piece exactly when it is the token. */
  lemma ReplaceInPiece(x: Piece, p: string, v: string)
    requires CleanPiece(x) && WellFormedToken(p)
    ensures ReplaceAll(Show(x), p, v) == Show(SubstPiece(x, p, v))
  {
    if x != Tok(p) {
      assert !Contains(Show(x), p);
    }
  }

  function SubstAll(ps: seq<Piece>, p: string, v: string): (r: seq<Piece>)
    ensures |r| == |ps|
  {
    seq(|ps|, i requires 0 <= i < |ps| => SubstPiece(ps[i], p, v))
  }

  /** One `replace` on clean pieces turns exactly the tokens equal to p into v. */
  lemma {:induction false} ReplaceInPieces(ps: seq<Piece>, p: string, v: string)
    requires CleanPieces(ps) && WellFormedToken(p)
    ensures ReplaceAll(Concat(ps), p, v) == Concat(SubstAll(ps, p, v))
  {
    if ps != [] {
      PieceNoStraddle(ps[0], Concat(ps[1..]), p);
      ReplaceConcat(Show(ps[0]), Concat(ps[1..]), p, v);
      ReplaceInPiece(ps[0], p, v);
      ReplaceInPieces(ps[1..], p, v);
      assert SubstAll(ps, p, v)[1..] == SubstAll(ps[1..], p, v);
    }
  }

  /** A token the reverse map knows becomes its original; any other token stays verbatim. */
  function ResolvePiece(x: Piece, rev: Dict<string, string>): Piece
  {
    if x.Lit? then x
    else match Get(rev, x.token)
      case Some(v) => Lit(v)
      case None => x
  }

  function Resolve(ps: seq<Piece>, rev: Dict<string, string>): (r: seq<Piece>)
    ensures |r| == |ps|
  {
    seq(|ps|, i requires 0 <= i < |ps| => ResolvePiece(ps[i], rev))
  }

  predicate CleanReverse(rev: Dict<string, string>)
  {
    forall i :: 0 <= i < |rev| ==> WellFormedToken(rev[i].0) && LacksOpen(rev[i].1)
  }

  /**
   * The replace loop on clean pieces: every token that is a key of the
   * reverse map becomes its original value, and every unknown token is left
   * as it is.
   */
  lemma {:induction false} SubstitutedPieces(ps: seq<Piece>, rev: Dict<string, string>)
    requires CleanPieces(ps) && CleanReverse(rev)
    ensures Substituted(Concat(ps), rev) == Concat(Resolve(ps, rev))
    decreases |rev|
  {
    if rev == [] {
      assert Resolve(ps, rev) == ps;
    } else {
      var p, v := rev[0].0, rev[0].1;
      ReplaceInPieces(ps, p, v);
      var ps' := SubstAll(ps, p, v);
      assert CleanPieces(ps');
      SubstitutedPieces(ps', rev[1..]);
      ResolveAfterFirst(ps, rev);
    }
  }

  /** Substituting the first reverse-map entry, then resolving with the rest, resolves with all of it. */
  lemma ResolveAfterFirst(ps: seq<Piece>, rev: Dict<string, string>)
    requires rev != []
    ensures Resolve(SubstAll(ps, rev[0].0, rev[0].1), rev[1..]) == Resolve(ps, rev)
  {
    var p, v := rev[0].0, rev[0].1;
    var ps' := SubstAll(ps, p, v);
    forall i | 0 <= i < |ps| ensures Resolve(ps', rev[1..])[i] == Resolve(ps, rev)[i] {
      if ps[i].Tok? && ps[i].token != p {
        assert Get(rev, ps[i].token) == Get(rev[1..], ps[i].token);
      }
    }
  }

  /** A plain segment is a literal; a detected one is the token stored for it. */
  function PieceOf(seg: Segment, m: EntityMap): Piece
  {
    if seg.Plain? then Lit(seg.text)
    else match Lookup(m, seg.entityType, seg.text)
      case Some(p) => Tok(p)
      case None => Lit(seg.text)
  }

  /** The anonymized text as pieces. */
  function Pieces(segs: seq<Segment>, m: EntityMap): (ps: seq<Piece>)
    ensures |ps| == |segs|
  {
    seq(|segs|, i requires 0 <= i < |segs| => PieceOf(segs[i], m))
  }

  function Originals(segs: seq<Segment>): (ps: seq<Piece>)
    ensures |ps| == |segs|
  {
    seq(|segs|, i requires 0 <= i < |segs| => Lit(segs[i].text))
  }

  lemma {:induction false} ConcatSnoc(ps: seq<Piece>, x: Piece)
    ensures Concat(ps + [x]) == Concat(ps) + Show(x)
  {
    if ps != [] {
      assert (ps + [x])[1..] == ps[1..] + [x];
      ConcatSnoc(ps[1..], x);
    }
  }

  lemma {:induction false} RenderedPieces(segs: seq<Segment>, m: EntityMap)
    requires Covers(m, segs)
    ensures Rendered(segs, m) == Concat(Pieces(segs, m))
  {
    if segs != [] {
      var n := |segs|;
      var init := segs[..n - 1];
      var last := segs[n - 1];
      assert Covers(m, init) by {
        forall i | 0 <= i < n - 1 ensures init[i] == segs[i] { }
      }
      RenderedPieces(init, m);
      var x := PieceOf(last, m);
      assert Rendered(segs, m) == Rendered(init, m) + Show(x);
      forall i | 0 <= i < n - 1 ensures Pieces(segs, m)[i] == Pieces(init, m)[i] {
        assert init[i] == segs[i];
      }
      assert Pieces(segs, m) == Pieces(init, m) + [x];
      ConcatSnoc(Pieces(init, m), x);
    }
  }

  lemma {:induction false} OriginalPieces(segs: seq<Segment>)
    ensures Original(segs) == Concat(Originals(segs))
  {
    if segs != [] {
      var n := |segs|;
      var init := segs[..n - 1];
      OriginalPieces(init);
      var x := Originals(segs)[n - 1];
      assert Original(segs) == Original(init) + Show(x);
      assert Originals(segs) == Originals(init) + [x];
      ConcatSnoc(Originals(init), x);
    }
  }

  /** Every type is free of angle brackets and no original value contains '<'. */
  predicate CleanMapping(m: EntityMap)
  {
    forall i :: 0 <= i < |m| ==>
      Bracketless(m[i].0) && forall j :: 0 <= j < |m[i].1| ==> LacksOpen(m[i].1[j].0)
  }

  lemma CleanReverseMap(m: EntityMap)
    requires Dense(m) && CleanMapping(m)
    ensures CleanReverse(ReverseMap(m))
  {
    var rev := ReverseMap(m);
    forall i | 0 <= i < |rev| ensures WellFormedToken(rev[i].0) && LacksOpen(rev[i].1) {
      assert rev[i] in rev;
      var a, k := FlattenedAt(m, (rev[i].1, rev[i].0));
      FormatWellFormed(m[a].0, k);
    }
  }

  /**
   * Deanonymizing the rendered text with a dense, clean mapping that covers
   * every detected segment restores the original text, provided the plain
   * text contains no '<'.
   */
  lemma DeanonymizeRestores(segs: seq<Segment>, m: EntityMap)
    requires Dense(m) && CleanMapping(m) && Covers(m, segs)
    requires forall i :: 0 <= i < |segs| && segs[i].Plain? ==> LacksOpen(segs[i].text)
    ensures Deanonymized(Rendered(segs, m), m) == Original(segs)
  {
    var ps := Pieces(segs, m);
    var rev := ReverseMap(m);
    forall i | 0 <= i < |segs| ensures CleanPiece(ps[i]) && ResolvePiece(ps[i], rev) == Lit(segs[i].text) {
      if segs[i].Detected? {
        var a, j := DenseLookup(m, segs[i].entityType, segs[i].text);
        FormatWellFormed(segs[i].entityType, j);
        ReverseMapInverts(m, segs[i].entityType, segs[i].text);
      }
    }
    CleanReverseMap(m);
    SubstitutedPieces(ps, rev);
    assert Resolve(ps, rev) == Originals(segs);
    RenderedPieces(segs, m);
    OriginalPieces(segs);
  }

  /** One call keeps the mapping clean when its type and value are. */
  lemma AllocateClean(m: EntityMap, t: string, v: string)
    requires Dense(m) && CleanMapping(m) && Bracketless(t) && LacksOpen(v)
    ensures CleanMapping(Allocate(m, t, v).mapping)
  {
    if Lookup(m, t, v).None? {
      var p := Allocate(m, t, v).placeholder;
      var i := AllocateShape(m, t, v);
      if Get(m, t).None? {
        CleanAppendType(m, t, v, p);
      } else {
        CleanAppendEntry(m, i, v, p);
      }
    }
  }

  lemma CleanAppendType(m: EntityMap, t: string, v: string, p: string)
    requires CleanMapping(m) && Bracketless(t) && LacksOpen(v)
    ensures CleanMapping(m + [(t, [(v, p)])])
  {
  }

  lemma CleanAppendEntry(m: EntityMap, i: nat, v: string, p: string)
    requires CleanMapping(m) && i < |m| && LacksOpen(v)
    ensures CleanMapping(m[i := (m[i].0, m[i].1 + [(v, p)])])
  {
    var es := m[i].1 + [(v, p)];
    assert forall j :: 0 <= j < |es| ==> LacksOpen(es[j].0) by {
      forall j | 0 <= j < |es| ensures LacksOpen(es[j].0) {
        if j < |m[i].1| {
          assert es[j] == m[i].1[j];
        }
      }
    }
  }

  lemma {:induction false} AllocateAllClean(calls: seq<(string, string)>)
    requires forall k :: 0 <= k < |calls| ==> Bracketless(calls[k].0) && LacksOpen(calls[k].1)
    ensures Dense(AllocateAll([], calls)) && CleanMapping(AllocateAll([], calls))
  {
    if calls != [] {
      var init := calls[..|calls| - 1];
      var last := calls[|calls| - 1];
      AllocateAllClean(init);
      AllocateDense(AllocateAll([], init), last.0, last.1);
      AllocateClean(AllocateAll([], init), last.0, last.1);
    }
  }

  /** The segments satisfy the side conditions of the round trip. */
  predicate CleanSegments(segs: seq<Segment>)
  {
    forall i :: 0 <= i < |segs| ==>
      LacksOpen(segs[i].text) && (segs[i].Detected? ==> Bracketless(segs[i].entityType))
  }

  /**
   * Anonymize, then deanonymize the printed text with the document that was
   * written: the input comes back, whatever order the engine visits spans in.
   */
  lemma AnonymizeRoundTrip(segs: seq<Segment>, order: seq<nat>)
    requires ValidOrder(segs, order) && CleanSegments(segs)
    ensures var m := AllocateAll([], Calls(segs, order));
      Covers(m, segs) && Deanonymized(Rendered(segs, m), m) == Original(segs)
  {
    var calls := Calls(segs, order);
    AnonymizedMapping(segs, order);
    AllocateAllClean(calls);
    DeanonymizeRestores(segs, AllocateAll([], calls));
  }
}

/** The example from the module's usage text: "Peter lives in London." */
module DocumentedExample {
  import opened Wrappers
  import opened Dict
  import opened PyStr
  import opened Mapping
  import opened Allocator
  import opened Deanonymizer
  import opened Anonymizer
  import opened RoundTrip

  function PeterSegments(): seq<Segment>
  {
    [Detected("PERSON", "Peter"), Plain(" lives in "), Detected("LOCATION", "London"), Plain(".")]
  }

  function PeterMapping(): EntityMap
  {
    [("PERSON", [("Peter", "<PERSON_0>")]), ("LOCATION", [("London", "<LOCATION_0>")])]
  }

  lemma FormatZero(t: string)
    ensures FormatPlaceholder(t, 0) == "<" + t + "_0>"
  {
    assert Decimal(0) == "0";
  }

  /** The first value of a type not yet in the mapping gets index 0 and a new entry at the end. */
  lemma AllocateFirst(m: EntityMap, t: string, v: string, p: string)
    requires Get(m, t).None? && p == "<" + t + "_0>"
    ensures Allocate(m, t, v) == Allocation(p, m + [(t, [(v, p)])])
  {
    FormatZero(t);
    AllocateNew(m, t, v);
  }

  lemma PeterFirstCall()
    ensures Allocate([], "PERSON", "Peter") == Allocation("<PERSON_0>", [("PERSON", [("Peter", "<PERSON_0>")])])
  {
    AllocateFirst([], "PERSON", "Peter", "<PERSON_0>");
  }

  lemma PeterSecondCall()
    ensures Allocate([("PERSON", [("Peter", "<PERSON_0>")])], "LOCATION", "London")
         == Allocation("<LOCATION_0>", PeterMapping())
  {
    var m1 := [("PERSON", [("Peter", "<PERSON_0>")])];
    assert m1[0].0 != "LOCATION";
    AllocateFirst(m1, "LOCATION", "London", "<LOCATION_0>");
  }

  /** Visiting PERSON then LOCATION from an empty mapping yields the mapping of the docstring. */
  lemma PeterMappingAllocated()
    ensures ValidOrder(PeterSegments(), [0, 2])
    ensures AllocateAll([], Calls(PeterSegments(), [0, 2])) == PeterMapping()
  {
    var segs := PeterSegments();
    assert ValidOrder(segs, [0, 2]);
    var calls := Calls(segs, [0, 2]);
    assert calls == [("PERSON", "Peter"), ("LOCATION", "London")];
    assert calls[..1] == [("PERSON", "Peter")] && calls[..1][..0] == [];
    PeterFirstCall();
    PeterSecondCall();
    assert AllocateAll([], calls[..1]) == [("PERSON", [("Peter", "<PERSON_0>")])];
  }

  lemma ConcatFour(a: Piece, b: Piece, c: Piece, d: Piece)
    ensures Concat([a, b, c, d]) == Show(a) + (Show(b) + (Show(c) + Show(d)))
  {
    var ps, t1, t2, t3 := [a, b, c, d], [b, c, d], [c, d], [d];
    assert Concat(t3) == Show(d) + [] by { assert t3[1..] == []; }
    assert Concat(t2) == Show(c) + Concat(t3) by { assert t2[1..] == t3; }
    assert Concat(t1) == Show(b) + Concat(t2) by { assert t1[1..] == t2; }
    assert Concat(ps) == Show(a) + Concat(t1) by { assert ps[1..] == t1; }
  }

  lemma PeterRendered()
    requires Covers(PeterMapping(), PeterSegments())
    ensures Rendered(PeterSegments(), PeterMapping()) == "<PERSON_0> lives in <LOCATION_0>."
  {
    PeterPieces();
    RenderedFour(PeterSegments(), PeterMapping(), "<PERSON_0>", " lives in ", "<LOCATION_0>", ".");
    PeterRenderedText();
  }

  lemma PeterRenderedText()
    ensures "<PERSON_0>" + (" lives in " + ("<LOCATION_0>" + ".")) == "<PERSON_0> lives in <LOCATION_0>."
  {
  }

  lemma RenderedFour(segs: seq<Segment>, m: EntityMap, a: string, b: string, c: string, d: string)
    requires Covers(m, segs)
    requires Pieces(segs, m) == [Tok(a), Lit(b), Tok(c), Lit(d)]
    ensures Rendered(segs, m) == a + (b + (c + d))
  {
    RenderedPieces(segs, m);
    ConcatFour(Tok(a), Lit(b), Tok(c), Lit(d));
  }

  lemma PeterPieces()
    ensures Pieces(PeterSegments(), PeterMapping())
         == [Tok("<PERSON_0>"), Lit(" lives in "), Tok("<LOCATION_0>"), Lit(".")]
  {
    var segs, m := PeterSegments(), PeterMapping();
    assert Lookup(m, "PERSON", "Peter") == Some("<PERSON_0>");
    assert Lookup(m, "LOCATION", "London") == Some("<LOCATION_0>");
  }

  lemma PeterCovered()
    ensures Covers(PeterMapping(), PeterSegments())
  {
    var segs, m := PeterSegments(), PeterMapping();
    assert Lookup(m, "PERSON", "Peter") == Some("<PERSON_0>");
    assert Lookup(m, "LOCATION", "London") == Some("<LOCATION_0>");
  }

  lemma PeterOriginal()
    ensures Original(PeterSegments()) == "Peter lives in London."
  {
    PeterOriginals();
    OriginalFour(PeterSegments(), "Peter", " lives in ", "London", ".");
    PeterOriginalText();
  }

  lemma PeterOriginals()
    ensures Originals(PeterSegments()) == [Lit("Peter"), Lit(" lives in "), Lit("London"), Lit(".")]
  {
  }

  lemma PeterOriginalText()
    ensures "Peter" + (" lives in " + ("London" + ".")) == "Peter lives in London."
  {
  }

  lemma OriginalFour(segs: seq<Segment>, a: string, b: string, c: string, d: string)
    requires Originals(segs) == [Lit(a), Lit(b), Lit(c), Lit(d)]
    ensures Original(segs) == a + (b + (c + d))
  {
    OriginalPieces(segs);
    ConcatFour(Lit(a), Lit(b), Lit(c), Lit(d));
  }

  lemma PeterClean()
    ensures CleanSegments(PeterSegments())
  {
    assert LacksOpen("Peter") && LacksOpen(" lives in ") && LacksOpen("London") && LacksOpen(".");
    assert Bracketless("PERSON") && Bracketless("LOCATION");
  }

  /**
   * With PERSON and LOCATION detected and visited left to right, the text
   * becomes "<PERSON_0> lives in <LOCATION_0>.", the mapping is
   * {PERSON: {Peter: <PERSON_0>}, LOCATION: {London: <LOCATION_0>}}, and
   * deanonymizing that text with that mapping gives the input back.
   */
  lemma PeterLivesInLondon()
    ensures ValidOrder(PeterSegments(), [0, 2])
    ensures AllocateAll([], Calls(PeterSegments(), [0, 2])) == PeterMapping()
    ensures Rendered(PeterSegments(), PeterMapping()) == "<PERSON_0> lives in <LOCATION_0>."
    ensures Deanonymized("<PERSON_0> lives in <LOCATION_0>.", PeterMapping()) == "Peter lives in London."
  {
    PeterMappingAllocated();
    PeterCovered();
    PeterOriginal();
    PeterRendered();
    PeterClean();
    AnonymizeRoundTrip(PeterSegments(), [0, 2]);
  }
}
