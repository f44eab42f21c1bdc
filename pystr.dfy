/**
 * The Python string operations the core relies on: `str(index)` for a
 * non-negative int, `str.replace` and `str.rstrip("\n")`.
 */
module PyStr {

  predicate IsDigit(c: char)
  {
    '0' <= c <= '9'
  }

  function DigitChar(d: nat): (c: char)
    requires d < 10
    ensures IsDigit(c)
  {
    (48 + d) as char
  }

  /** `str(n)` for a non-negative int: its decimal digits, most significant first. */
  function Decimal(n: nat): (r: string)
    ensures r != []
    ensures forall i :: 0 <= i < |r| ==> IsDigit(r[i])
    ensures r[0] == '0' <==> n == 0
  {
    if n < 10 then [DigitChar(n)] else Decimal(n / 10) + [DigitChar(n % 10)]
  }

  /** Reads a string of decimal digits back as a number (the partner of Decimal). */
  function ParseDecimal(s: string): nat
    requires forall i :: 0 <= i < |s| ==> IsDigit(s[i])
  {
    if s == [] then 0
    else
      assert IsDigit(s[|s| - 1]);
      ParseDecimal(s[..|s| - 1]) * 10 + (s[|s| - 1] as int - '0' as int)
  }

  lemma {:induction false} ParseDecimalOfDecimal(n: nat)
    ensures ParseDecimal(Decimal(n)) == n
  {
    if n >= 10 {
      var d := Decimal(n / 10);
      assert (d + [DigitChar(n % 10)])[..|d|] == d;
      ParseDecimalOfDecimal(n / 10);
    }
  }

  /** Different indices print differently. */
  lemma DecimalInjective(a: nat, b: nat)
    requires Decimal(a) == Decimal(b)
    ensures a == b
  {
    ParseDecimalOfDecimal(a);
    ParseDecimalOfDecimal(b);
  }

  /** `s.startswith(pat)`. */
  predicate StartsWith(s: string, pat: string)
  {
    |pat| <= |s| && s[..|pat|] == pat
  }

  /** pat occurs in s beginning at index i. */
  predicate OccursAt(s: string, pat: string, i: int)
  {
    0 <= i && i + |pat| <= |s| && s[i..i + |pat|] == pat
  }

  /** `pat in s`. */
  predicate Contains(s: string, pat: string)
  {
    exists i :: 0 <= i <= |s| && OccursAt(s, pat, i)
  }

  /**
   * `s.replace(pat, rep)`: every non-overlapping occurrence of pat, found
   * scanning left to right, becomes rep. An empty pat matches before every
   * character and at the end, as in Python.
   */
  function ReplaceAll(s: string, pat: string, rep: string): (r: string)
    ensures pat != [] && !Contains(s, pat) ==> r == s
    ensures s == pat ==> r == rep
    ensures rep == pat ==> r == s
  {
    if pat == [] then InsertAround(s, rep) else ReplaceNonEmpty(s, pat, rep)
  }

  /** Block i of r, the |rep| characters from i * (|rep| + 1) on, is rep. */
  predicate RepAt(r: string, rep: string, i: nat)
  {
    i * (|rep| + 1) + |rep| <= |r| && r[i * (|rep| + 1)..i * (|rep| + 1) + |rep|] == rep
  }

  /** The character right after block i of r is c. */
  predicate CharAfter(r: string, rep: string, i: nat, c: char)
  {
    i * (|rep| + 1) + |rep| < |r| && r[i * (|rep| + 1) + |rep|] == c
  }

  /** `s.replace("", rep)`: rep, s[0], rep, s[1], ..., rep. */
  function InsertAround(s: string, rep: string): (r: string)
    ensures |r| == |s| + (|s| + 1) * |rep|
    ensures forall i :: 0 <= i <= |s| ==> RepAt(r, rep, i)
    ensures forall i :: 0 <= i < |s| ==> CharAfter(r, rep, i, s[i])
    ensures rep == [] ==> r == s
  {
    if s == [] then
      assert rep[0..|rep|] == rep;
      rep
    else
      var rest := InsertAround(s[1..], rep);
      InsertAroundStep(s, rep, rest);
      rep + [s[0]] + rest
  }

  /** One more character in front: the blocks and characters of rest move one block to the right. */
  lemma InsertAroundStep(s: string, rep: string, rest: string)
    requires s != []
    requires |rest| == |s| - 1 + |s| * |rep|
    requires forall i :: 0 <= i <= |s| - 1 ==> RepAt(rest, rep, i)
    requires forall i :: 0 <= i < |s| - 1 ==> CharAfter(rest, rep, i, s[1..][i])
    ensures |rep + [s[0]] + rest| == |s| + (|s| + 1) * |rep|
    ensures forall i :: 0 <= i <= |s| ==> RepAt(rep + [s[0]] + rest, rep, i)
    ensures forall i :: 0 <= i < |s| ==> CharAfter(rep + [s[0]] + rest, rep, i, s[i])
  {
    var r := rep + [s[0]] + rest;
    var k := |rep| + 1;
    assert |r| == |s| + (|s| + 1) * |rep| by {
      assert (|s| + 1) * |rep| == |rep| + |s| * |rep|;
    }
    forall i | 0 <= i <= |s| ensures RepAt(r, rep, i) {
      if i == 0 {
        assert r[0..|rep|] == rep;
      } else {
        assert i * k == k + (i - 1) * k;
        assert RepAt(rest, rep, i - 1);
        assert r[i * k..i * k + |rep|] == rest[(i - 1) * k..(i - 1) * k + |rep|];
      }
    }
    forall i | 0 <= i < |s| ensures CharAfter(r, rep, i, s[i]) {
      if i > 0 {
        assert i * k == k + (i - 1) * k;
        assert CharAfter(rest, rep, i - 1, s[1..][i - 1]);
      }
    }
  }

  function ReplaceNonEmpty(s: string, pat: string, rep: string): (r: string)
    requires pat != []
    ensures !Contains(s, pat) ==> r == s
    ensures s == pat ==> r == rep
    ensures rep == pat ==> r == s
    decreases |s|
  {
    if s == [] then []
    else if StartsWith(s, pat) then
      assert OccursAt(s, pat, 0);
      assert s == pat + s[|pat|..];
      assert s == pat ==> s[|pat|..] == [];
      rep + ReplaceNonEmpty(s[|pat|..], pat, rep)
    else
      ContainsTail(s, pat);
      assert s == [s[0]] + s[1..];
      assert s != pat;
      [s[0]] + ReplaceNonEmpty(s[1..], pat, rep)
  }

  /** An occurrence in the tail is an occurrence in the whole. */
  lemma ContainsTail(s: string, pat: string)
    requires s != []
    ensures Contains(s[1..], pat) ==> Contains(s, pat)
  {
    if Contains(s[1..], pat) {
      var i :| 0 <= i <= |s[1..]| && OccursAt(s[1..], pat, i);
      assert s[1..][i..i + |pat|] == s[i + 1..i + 1 + |pat|];
      assert OccursAt(s, pat, i + 1);
    }
  }

  /**
   * The scan replaces the leftmost occurrence first and resumes right after
   * it, so overlapping occurrences are resolved as Python does
   * (`"aaa".replace("aa", "b") == "ba"`). With the absent case in
   * ReplaceNonEmpty's contract this fixes the result for every non-empty pattern.
   */
  lemma {:induction false} ReplaceFirst(s: string, pat: string, rep: string, i: nat)
    requires pat != [] && OccursAt(s, pat, i)
    requires forall j :: 0 <= j < i ==> !OccursAt(s, pat, j)
    ensures ReplaceNonEmpty(s, pat, rep) == s[..i] + rep + ReplaceNonEmpty(s[i + |pat|..], pat, rep)
    decreases i
  {
    if i == 0 {
      ScanMatch(s, pat, rep);
      assert s[..0] == [];
    } else {
      var t := s[1..];
      assert !OccursAt(s, pat, 0);
      ScanSkip(s, pat, rep);
      OccursShift(s, pat, i - 1);
      forall j | 0 <= j < i - 1 ensures !OccursAt(t, pat, j) {
        OccursShift(s, pat, j);
      }
      ReplaceFirst(t, pat, rep, i - 1);
      var x := ReplaceNonEmpty(s[i + |pat|..], pat, rep);
      assert t[i - 1 + |pat|..] == s[i + |pat|..];
      calc {
        ReplaceNonEmpty(s, pat, rep);
        [s[0]] + ReplaceNonEmpty(t, pat, rep);
        [s[0]] + (t[..i - 1] + rep + x);
        { PrependFirst(s, i, rep, x); }
        s[..i] + rep + x;
      }
    }
  }

  /** The scan at an occurrence: rep, then the scan of what follows it. */
  lemma ScanMatch(s: string, pat: string, rep: string)
    requires pat != [] && OccursAt(s, pat, 0)
    ensures ReplaceNonEmpty(s, pat, rep) == rep + ReplaceNonEmpty(s[|pat|..], pat, rep)
  {
    assert StartsWith(s, pat);
  }

  /** The scan away from an occurrence: the first character, then the scan of the rest. */
  lemma ScanSkip(s: string, pat: string, rep: string)
    requires pat != [] && s != [] && !OccursAt(s, pat, 0)
    ensures ReplaceNonEmpty(s, pat, rep) == [s[0]] + ReplaceNonEmpty(s[1..], pat, rep)
  {
    assert !StartsWith(s, pat);
  }

  /** Putting the first character back in front of the tail's prefix gives the prefix of s. */
  lemma PrependFirst(s: string, i: nat, rep: string, x: string)
    requires 0 < i <= |s|
    ensures [s[0]] + (s[1..][..i - 1] + rep + x) == s[..i] + rep + x
  {
    assert [s[0]] + s[1..][..i - 1] == s[..i];
  }

  /** An occurrence at j in the tail is an occurrence at j + 1 in the whole. */
  lemma OccursShift(s: string, pat: string, j: nat)
    requires s != []
    ensures OccursAt(s[1..], pat, j) <==> OccursAt(s, pat, j + 1)
  {
    if j + |pat| <= |s| - 1 {
      assert s[1..][j..j + |pat|] == s[j + 1..j + 1 + |pat|];
    }
  }

  /** The example of overlapping occurrences. */
  lemma ReplaceOverlapping()
    ensures ReplaceAll("aaa", "aa", "b") == "ba"
  {
    var s, pat := "aaa", "aa";
    assert OccursAt(s, pat, 0);
    ReplaceFirst(s, pat, "b", 0);
    assert s[2..] == "a";
    assert !StartsWith("a", pat);
    assert ReplaceNonEmpty("a", pat, "b") == "a" + ReplaceNonEmpty([], pat, "b");
  }

  /** No occurrence of pat in a + b begins inside a and ends inside b. */
  predicate NoStraddle(a: string, b: string, pat: string)
  {
    forall i :: 0 <= i < |a| < i + |pat| ==> !OccursAt(a + b, pat, i)
  }

  /**
   * When no occurrence straddles the seam, replacing in a + b is replacing
   * in a and in b separately: the left-to-right scan reaches the seam exactly.
   */
  lemma {:induction false} ReplaceConcat(a: string, b: string, pat: string, rep: string)
    requires pat != [] && NoStraddle(a, b, pat)
    ensures ReplaceAll(a + b, pat, rep) == ReplaceAll(a, pat, rep) + ReplaceAll(b, pat, rep)
    decreases |a|
  {
    if a == [] {
      assert a + b == b;
    } else {
      var starts := StartsWith(a + b, pat);
      var k := if starts then |pat| else 1;
      if starts {
        assert OccursAt(a + b, pat, 0);
        assert a[..|pat|] == (a + b)[..|pat|];
      }
      NoStraddleShift(a, b, pat, k);
      ReplaceConcat(a[k..], b, pat, rep);
    }
  }

  /** Dropping the first k characters of a keeps the seam free of straddling occurrences. */
  lemma NoStraddleShift(a: string, b: string, pat: string, k: nat)
    requires 0 < k <= |a| && NoStraddle(a, b, pat)
    ensures (a + b)[k..] == a[k..] + b
    ensures NoStraddle(a[k..], b, pat)
  {
    var a' := a[k..];
    assert (a + b)[k..] == a' + b;
    forall i | 0 <= i < |a'| < i + |pat| ensures !OccursAt(a' + b, pat, i) {
      if i + |pat| <= |a' + b| {
        assert (a' + b)[i..i + |pat|] == (a + b)[i + k..i + k + |pat|];
        assert !OccursAt(a + b, pat, i + k);
      }
    }
  }

  /**
   * `s.rstrip("\n")`: drops every trailing newline and nothing else.
   */
  function RStripNewlines(s: string): (r: string)
    ensures r <= s
    ensures r == [] || r[|r| - 1] != '\n'
    ensures forall i :: |r| <= i < |s| ==> s[i] == '\n'
  {
    if s != [] && s[|s| - 1] == '\n' then RStripNewlines(s[..|s| - 1]) else s
  }
}
