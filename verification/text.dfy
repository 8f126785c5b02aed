/** ASCII character classes and the two Python string operations the title
    cleaner uses: `str.replace` and `str.title`. */
module Text {

  predicate IsUpper(c: char) { 'A' <= c <= 'Z' }

  predicate IsLower(c: char) { 'a' <= c <= 'z' }

  /** A cased character in the sense of `str.title`; only ASCII letters are cased here. */
  predicate IsLetter(c: char) { IsUpper(c) || IsLower(c) }

  function ToUpper(c: char): (u: char)
    ensures IsLetter(u) == IsLetter(c)
    ensures !IsLower(u)
    ensures !IsLetter(c) ==> u == c
  {
    if IsLower(c) then (c as int - 32) as char else c
  }

  function ToLower(c: char): (l: char)
    ensures IsLetter(l) == IsLetter(c)
    ensures !IsUpper(l)
    ensures !IsLetter(c) ==> l == c
  {
    if IsUpper(c) then (c as int + 32) as char else c
  }

  /** Two characters that differ at most in case. */
  predicate SameFold(a: char, b: char) { ToLower(a) == ToLower(b) }

  lemma CaseDetermines(a: char, b: char)
    requires SameFold(a, b)
    requires IsUpper(a) == IsUpper(b)
    ensures a == b
  {
  }

  lemma FoldOfUpper(c: char)
    ensures SameFold(ToUpper(c), c)
  {
  }

  lemma FoldOfLower(c: char)
    ensures SameFold(ToLower(c), c)
  {
  }

  predicate EndsWith(s: string, suffix: string) {
    |suffix| <= |s| && s[|s| - |suffix|..] == suffix
  }

  /** `pat` occurs in `s` starting at index `i`. */
  predicate OccursAt(s: string, pat: string, i: int) {
    0 <= i && i + |pat| <= |s| && s[i..i + |pat|] == pat
  }

  /** Python's `s.replace(pat, rep)`: scan left to right and rewrite every
      non-overlapping occurrence of `pat`. */
  function ReplaceAll(s: string, pat: string, rep: string): (r: string)
    requires |pat| > 0
    decreases |s|
  {
    if |s| < |pat| then s
    else if s[..|pat|] == pat then rep + ReplaceAll(s[|pat|..], pat, rep)
    else [s[0]] + ReplaceAll(s[1..], pat, rep)
  }

  /** A scanning step that finds no match at the front copies the first character. */
  lemma ReplaceCopies(s: string, pat: string, rep: string)
    requires 0 < |pat| <= |s| && s[..|pat|] != pat
    ensures ReplaceAll(s, pat, rep) == [s[0]] + ReplaceAll(s[1..], pat, rep)
  {
  }

  /** One scanning step that finds a match at the front emits the replacement. */
  lemma ReplaceRewrites(s: string, pat: string, rep: string)
    requires 0 < |pat| <= |s| && s[..|pat|] == pat
    ensures ReplaceAll(s, pat, rep) == rep + ReplaceAll(s[|pat|..], pat, rep)
  {
  }

  /** A prefix free of the pattern's first character is copied unchanged. */
  lemma {:induction false} ReplaceAfterPlain(x: string, y: string, pat: string, rep: string)
    requires |pat| > 0
    requires forall i :: 0 <= i < |x| ==> x[i] != pat[0]
    ensures ReplaceAll(x + y, pat, rep) == x + ReplaceAll(y, pat, rep)
    decreases |x|
  {
    if x != [] {
      if |x + y| >= |pat| {
        assert (x + y)[..|pat|][0] == x[0];
        ReplaceCopies(x + y, pat, rep);
      }
      assert (x + y)[1..] == x[1..] + y;
      ReplaceAfterPlain(x[1..], y, pat, rep);
    } else {
      assert x + y == y;
    }
  }

  /** An occurrence at the front is rewritten and the scan resumes after it. */
  lemma ReplaceLead(z: string, pat: string, rep: string)
    requires |pat| > 0
    ensures ReplaceAll(pat + z, pat, rep) == rep + ReplaceAll(z, pat, rep)
  {
    var s := pat + z;
    assert s[..|pat|] == pat && s[|pat|..] == z;
    ReplaceRewrites(s, pat, rep);
  }

  /** A stretch free of the pattern's first character is copied unchanged. */
  lemma ReplacePlain(y: string, pat: string, rep: string)
    requires |pat| > 0
    requires forall i :: 0 <= i < |y| ==> y[i] != pat[0]
    ensures ReplaceAll(y, pat, rep) == y
  {
    ReplaceAfterPlain(y, [], pat, rep);
    assert y + [] == y;
  }

  /** The pattern alone is rewritten to the replacement. */
  lemma ReplaceWhole(pat: string, rep: string)
    requires |pat| > 0
    ensures ReplaceAll(pat, pat, rep) == rep
  {
    ReplaceRewrites(pat, pat, rep);
    assert pat[|pat|..] == [];
  }

  /** A pattern whose first character does not recur in it cannot overlap itself. */
  predicate HeadUnique(pat: string) {
    forall k :: 0 < k < |pat| ==> pat[k] != pat[0]
  }

  /** For a pattern whose first character does not recur in it (`HeadUnique`,
      as for `_C`), every occurrence splits the rewrite: the text before it,
      the replacement and the text after it are rewritten independently. With
      `ReplaceAbsent` this fixes `ReplaceAll` for such a pattern on every text,
      one leftmost occurrence at a time. */
  lemma {:induction false} ReplaceSplit(x: string, y: string, pat: string, rep: string)
    requires |pat| > 0 && HeadUnique(pat)
    ensures ReplaceAll(x + (pat + y), pat, rep) == ReplaceAll(x, pat, rep) + (rep + ReplaceAll(y, pat, rep))
    decreases |x|
  {
    var t := pat + y;
    var tail := rep + ReplaceAll(y, pat, rep);
    if x == [] {
      assert x + t == t;
      ReplaceLead(y, pat, rep);
    } else {
      var s := x + t;
      assert |x| < |pat| ==> s[|x|] == pat[0] && s[..|pat|][|x|] == s[|x|];
      if s[..|pat|] == pat {
        var rest := x[|pat|..];
        assert x[..|pat|] == pat && s[|pat|..] == rest + t;
        ReplaceRewrites(s, pat, rep);
        ReplaceRewrites(x, pat, rep);
        ReplaceSplit(rest, y, pat, rep);
        assert rep + (ReplaceAll(rest, pat, rep) + tail) == (rep + ReplaceAll(rest, pat, rep)) + tail;
      } else {
        var rest := x[1..];
        assert s[1..] == rest + t;
        ReplaceCopies(s, pat, rep);
        ReplaceSplit(rest, y, pat, rep);
        assert ReplaceAll(x, pat, rep) == [x[0]] + ReplaceAll(rest, pat, rep) by {
          if |x| >= |pat| {
            assert x[..|pat|] == s[..|pat|];
            ReplaceCopies(x, pat, rep);
          } else {
            assert x == [x[0]] + rest;
          }
        }
        assert [x[0]] + (ReplaceAll(rest, pat, rep) + tail) == ([x[0]] + ReplaceAll(rest, pat, rep)) + tail;
      }
    }
  }

  /** One occurrence between two stretches free of the pattern's first
      character is the only one rewritten. */
  lemma ReplaceOne(x: string, y: string, pat: string, rep: string)
    requires |pat| > 0
    requires forall i :: 0 <= i < |x| ==> x[i] != pat[0]
    requires forall i :: 0 <= i < |y| ==> y[i] != pat[0]
    ensures ReplaceAll(x + (pat + y), pat, rep) == x + (rep + y)
  {
    ReplacePlain(y, pat, rep);
    ReplaceLead(y, pat, rep);
    ReplaceAfterPlain(x, pat + y, pat, rep);
  }

  /** Two occurrences, the second at the very end, are both rewritten. */
  lemma ReplaceTwo(x: string, y: string, pat: string, rep: string)
    requires |pat| > 0
    requires forall i :: 0 <= i < |x| ==> x[i] != pat[0]
    requires forall i :: 0 <= i < |y| ==> y[i] != pat[0]
    ensures ReplaceAll(x + (pat + (y + pat)), pat, rep) == x + (rep + (y + rep))
  {
    ReplaceWhole(pat, rep);
    ReplaceAfterPlain(y, pat, pat, rep);
    ReplaceLead(y + pat, pat, rep);
    ReplaceAfterPlain(x, pat + (y + pat), pat, rep);
  }

  /** Replacing one character by another is a pointwise rewrite that keeps the length. */
  lemma {:induction false} ReplaceCharPointwise(s: string, c: char, d: char)
    ensures |ReplaceAll(s, [c], [d])| == |s|
    ensures forall i :: 0 <= i < |s| ==>
              ReplaceAll(s, [c], [d])[i] == (if s[i] == c then d else s[i])
    decreases |s|
  {
    if |s| > 0 {
      ReplaceCharPointwise(s[1..], c, d);
      var r := ReplaceAll(s, [c], [d]);
      var rest := ReplaceAll(s[1..], [c], [d]);
      assert s[..1] == [s[0]];
      assert r == [if s[0] == c then d else s[0]] + rest;
    }
  }

  /** A pattern that does not occur leaves the text unchanged. */
  lemma {:induction false} ReplaceAbsent(s: string, pat: string, rep: string)
    requires |pat| > 0
    requires forall i :: !OccursAt(s, pat, i)
    ensures ReplaceAll(s, pat, rep) == s
    decreases |s|
  {
    if |s| >= |pat| {
      assert !OccursAt(s, pat, 0);
      assert s[..|pat|] != pat;
      forall i
        ensures !OccursAt(s[1..], pat, i)
      {
        if OccursAt(s[1..], pat, i) {
          assert s[1..][i..i + |pat|] == s[i + 1..i + 1 + |pat|];
          assert OccursAt(s, pat, i + 1);
        }
      }
      ReplaceAbsent(s[1..], pat, rep);
    }
  }

  /** Python's `str.title` for a text preceded by a cased character (`prevCased`)
      or not: a letter is upper-cased when the character before it is not cased
      and lower-cased otherwise; everything else is copied. */
  function TitleFrom(s: string, prevCased: bool): (r: string)
    ensures |r| == |s|
    ensures forall i :: 0 <= i < |s| ==> SameFold(r[i], s[i]) && IsLetter(r[i]) == IsLetter(s[i])
    ensures forall i :: 0 <= i < |s| && !IsLetter(s[i]) ==> r[i] == s[i]
    ensures |s| > 0 && IsLetter(s[0]) ==> (IsUpper(r[0]) <==> !prevCased)
    ensures forall i :: 0 < i < |s| && IsLetter(s[i]) ==> (IsUpper(r[i]) <==> !IsLetter(s[i - 1]))
  {
    if s == [] then []
    else
      var c := if !IsLetter(s[0]) then s[0] else if prevCased then ToLower(s[0]) else ToUpper(s[0]);
      FoldOfUpper(s[0]);
      FoldOfLower(s[0]);
      var rest := TitleFrom(s[1..], IsLetter(s[0]));
      assert forall i :: 0 < i < |s| ==> ([c] + rest)[i] == rest[i - 1] && s[i] == s[1..][i - 1];
      [c] + rest
  }

  function Title(s: string): (r: string)
  {
    TitleFrom(s, false)
  }

  /** The casing rule of `str.title` on ASCII text: a letter is upper-case
      exactly when it is first or follows a non-letter. */
  ghost predicate TitleCased(t: string) {
    forall i :: 0 <= i < |t| ==> TitleCasedAt(t, i)
  }

  /** The casing rule at one position. */
  ghost predicate TitleCasedAt(t: string, i: int)
    requires 0 <= i < |t|
  {
    IsLetter(t[i]) ==> (IsUpper(t[i]) <==> (i == 0 || !IsLetter(t[i - 1])))
  }

  /** `t` is `s` with only the case of its letters changed, and `t` is title-cased. */
  ghost predicate IsTitleOf(t: string, s: string) {
    && |t| == |s|
    && (forall i :: 0 <= i < |s| ==> SameFold(t[i], s[i]) && IsLetter(t[i]) == IsLetter(s[i]))
    && TitleCased(t)
  }

  /** `Title` meets the declarative description, and it is the only string that does. */
  lemma TitleCharacterized(s: string, t: string)
    ensures IsTitleOf(Title(s), s)
    ensures IsTitleOf(t, s) ==> t == Title(s)
  {
    var r := Title(s);
    assert TitleCased(r) by {
      forall i | 0 <= i < |r|
        ensures TitleCasedAt(r, i)
      {
      }
    }
    if IsTitleOf(t, s) {
      forall i | 0 <= i < |s|
        ensures t[i] == r[i]
      {
        TitlesAgreeAt(s, t, r, i);
      }
    }
  }

  /** Two title-cased versions of one text agree at every position. */
  lemma TitlesAgreeAt(s: string, t: string, u: string, i: int)
    requires IsTitleOf(t, s) && IsTitleOf(u, s)
    requires 0 <= i < |s|
    ensures t[i] == u[i]
  {
    assert SameFold(t[i], s[i]) && SameFold(u[i], s[i]);
    if IsLetter(s[i]) {
      assert IsLetter(t[i]) && IsLetter(u[i]);
      if i > 0 {
        assert IsLetter(t[i - 1]) == IsLetter(s[i - 1]) == IsLetter(u[i - 1]);
      }
      assert TitleCasedAt(t, i) && TitleCasedAt(u, i);
      CaseDetermines(t[i], u[i]);
    } else {
      assert !IsLetter(t[i]) && !IsLetter(u[i]);
      assert ToLower(t[i]) == t[i] && ToLower(u[i]) == u[i];
    }
  }

  /** Title-casing keeps a ` (C)` ending: the `C` follows a parenthesis. */
  lemma TitleKeepsCelsius(s: string)
    requires EndsWith(s, " (C)")
    ensures EndsWith(Title(s), " (C)")
  {
    var r := Title(s);
    var n := |s|;
    assert s[n - 4] == ' ' && s[n - 3] == '(' && s[n - 2] == 'C' && s[n - 1] == ')' by {
      assert s[n - 4..][0] == s[n - 4] && s[n - 4..][1] == s[n - 3];
      assert s[n - 4..][2] == s[n - 2] && s[n - 4..][3] == s[n - 1];
    }
    assert IsUpper(r[n - 2]) && SameFold(r[n - 2], 'C');
    CaseDetermines(r[n - 2], 'C');
    assert r[n - 4..] == " (C)";
  }

  /** `str.title` is idempotent. */
  lemma TitleIdempotent(s: string)
    ensures Title(Title(s)) == Title(s)
  {
    var r := Title(s);
    TitleCharacterized(s, r);
    assert IsTitleOf(r, r);
    TitleCharacterized(r, r);
  }
}
