/** Display-title cleaning of the plotting layer: `clean_name` and
    `clean_titles_dictionary`. */
module Titles {
  import opened Wrappers
  import opened Text
  import opened Cells

  /** The display form of a column name: a name ending in `_C` has every `_C`
      rewritten to ` (C)`, then every underscore becomes a space, and the whole
      is title-cased. */
  function CleanName(name: string): (r: string)
    ensures forall i :: 0 <= i < |r| ==> r[i] != '_'
    ensures TitleCased(r)
  {
    var celsius := if EndsWith(name, "_C") then ReplaceAll(name, "_C", " (C)") else name;
    var spaced := ReplaceAll(celsius, "_", " ");
    ReplaceCharPointwise(celsius, '_', ' ');
    TitleCharacterized(spaced, spaced);
    Title(spaced)
  }

  /** Without the `_C` ending there is no ` (C)` rewrite: the result is the
      name with underscores as spaces, differing from it only in letter case. */
  lemma CleanNamePlain(name: string)
    requires !EndsWith(name, "_C")
    ensures |CleanName(name)| == |name|
    ensures forall i :: 0 <= i < |name| ==>
              SameFold(CleanName(name)[i], if name[i] == '_' then ' ' else name[i])
  {
    ReplaceCharPointwise(name, '_', ' ');
  }

  /** With the `_C` ending the result ends in ` (C)` and is longer than the name;
      before the ending it is the rest of the name with its own `_C` rewritten
      and underscores as spaces, up to letter case. */
  lemma CleanNameCelsius(name: string)
    requires EndsWith(name, "_C")
    ensures EndsWith(CleanName(name), " (C)")
    ensures |CleanName(name)| > |name|
    ensures var c := ReplaceAll(name[..|name| - 2], "_C", " (C)");
            && |CleanName(name)| == |c| + 4
            && forall i :: 0 <= i < |c| ==> SameFold(CleanName(name)[i], if c[i] == '_' then ' ' else c[i])
  {
    assert name == name[..|name| - 2] + "_C";
    CleanNameCelsiusPrefix(name[..|name| - 2]);
    var celsius := ReplaceAll(name, "_C", " (C)");
    CelsiusSuffix(name);
    SpacedKeepsCelsius(celsius);
    ReplaceCharPointwise(celsius, '_', ' ');
    TitleKeepsCelsius(ReplaceAll(celsius, "_", " "));
  }

  /** With the `_C` ending, the title is the rest of the name with its own `_C`
      rewritten and its underscores turned into spaces, up to letter case,
      followed by the four characters of the ending. */
  lemma CleanNameCelsiusPrefix(x: string)
    ensures |CleanName(x + "_C")| == |ReplaceAll(x, "_C", " (C)")| + 4
    ensures forall i :: 0 <= i < |ReplaceAll(x, "_C", " (C)")| ==>
              var c := ReplaceAll(x, "_C", " (C)");
              SameFold(CleanName(x + "_C")[i], if c[i] == '_' then ' ' else c[i])
  {
    var name := x + "_C";
    var c := ReplaceAll(x, "_C", " (C)");
    assert EndsWith(name, "_C") by {
      assert name[|name| - 2..] == "_C";
    }
    var celsius := ReplaceAll(name, "_C", " (C)");
    assert celsius == c + " (C)" by {
      assert name == x + ("_C" + []);
      ReplaceSplit(x, [], "_C", " (C)");
      assert " (C)" + ReplaceAll([], "_C", " (C)") == " (C)";
    }
    var spaced := ReplaceAll(celsius, "_", " ");
    ReplaceCharPointwise(celsius, '_', ' ');
    assert CleanName(name) == Title(spaced);
    forall i | 0 <= i < |c|
      ensures SameFold(CleanName(name)[i], if c[i] == '_' then ' ' else c[i])
    {
      assert celsius[i] == c[i];
      assert spaced[i] == (if c[i] == '_' then ' ' else c[i]);
    }
  }

  /** A name `x + "_C"` whose `x` holds no `_C` is cleaned to `x` with
      underscores as spaces, up to letter case, followed by ` (C)`. */
  lemma CleanNameCelsiusPlain(x: string)
    requires forall k :: !OccursAt(x, "_C", k)
    ensures |CleanName(x + "_C")| == |x| + 4
    ensures forall i :: 0 <= i < |x| ==> SameFold(CleanName(x + "_C")[i], if x[i] == '_' then ' ' else x[i])
    ensures EndsWith(CleanName(x + "_C"), " (C)")
  {
    ReplaceAbsent(x, "_C", " (C)");
    CleanNameCelsiusPrefix(x);
    assert EndsWith(x + "_C", "_C") by {
      assert (x + "_C")[|x + "_C"| - 2..] == "_C";
    }
    CleanNameCelsius(x + "_C");
  }

  /** Turning underscores into spaces keeps a ` (C)` ending. */
  lemma SpacedKeepsCelsius(s: string)
    requires EndsWith(s, " (C)")
    ensures EndsWith(ReplaceAll(s, "_", " "), " (C)")
  {
    ReplaceCharPointwise(s, '_', ' ');
    var r := ReplaceAll(s, "_", " ");
    var n := |s|;
    assert forall i :: n - 4 <= i < n ==> r[i] == s[i] by {
      forall i | n - 4 <= i < n
        ensures r[i] == s[i]
      {
        assert s[i] == s[n - 4..][i - (n - 4)];
      }
    }
    assert r[n - 4..] == s[n - 4..];
  }

  /** On a name ending in `_C`, the rewrite leaves the text ending in ` (C)`
      (and is at least two characters longer). */
  lemma {:induction false} CelsiusSuffix(s: string)
    requires EndsWith(s, "_C")
    ensures EndsWith(ReplaceAll(s, "_C", " (C)"), " (C)")
    ensures |ReplaceAll(s, "_C", " (C)")| >= |s| + 2
    decreases |s|
  {
    var r := ReplaceAll(s, "_C", " (C)");
    assert s[|s| - 2] == '_' by {
      assert s[|s| - 2..][0] == s[|s| - 2];
    }
    if s[..2] == "_C" {
      assert s[1] == 'C' by {
        assert s[..2][1] == s[1];
      }
      if |s| == 2 {
        assert r == " (C)" + ReplaceAll([], "_C", " (C)");
      } else if |s| == 3 {
        assert false;
      } else {
        assert s[2..][|s[2..]| - 2..] == s[|s| - 2..];
        CelsiusSuffix(s[2..]);
      }
    } else {
      assert s[1..][|s[1..]| - 2..] == s[|s| - 2..];
      CelsiusSuffix(s[1..]);
    }
  }

  /** The `_C` rewrite is complete: no `_C` survives it, wherever it stood. */
  lemma {:induction false} CelsiusRewriteComplete(s: string)
    ensures forall i :: !OccursAt(ReplaceAll(s, "_C", " (C)"), "_C", i)
    decreases |s|
  {
    var r := ReplaceAll(s, "_C", " (C)");
    if |s| >= 2 {
      if s[..2] == "_C" {
        var rest := ReplaceAll(s[2..], "_C", " (C)");
        CelsiusRewriteComplete(s[2..]);
        assert r == " (C)" + rest;
        forall i
          ensures !OccursAt(r, "_C", i)
        {
          if 0 <= i && i + 2 <= |r| {
            if i >= 4 {
              assert r[i..i + 2] == rest[i - 4..i - 2];
              assert !OccursAt(rest, "_C", i - 4);
            } else {
              assert r[i] != '_';
            }
          }
        }
      } else {
        var rest := ReplaceAll(s[1..], "_C", " (C)");
        CelsiusRewriteComplete(s[1..]);
        assert r == [s[0]] + rest;
        forall i
          ensures !OccursAt(r, "_C", i)
        {
          if 0 <= i && i + 2 <= |r| {
            if i >= 1 {
              assert r[i..i + 2] == rest[i - 1..i + 1];
              assert !OccursAt(rest, "_C", i - 1);
            } else if s[0] == '_' {
              assert s[1] != 'C';
              if OccursAt(s[1..], "_C", 0) {
                assert rest[0] == ' ';
              } else {
                assert rest[0] == s[1];
              }
              assert r[1] == rest[0];
            }
          }
        }
      }
    }
  }

  /** Cleaning a cleaned name changes nothing. */
  lemma CleanNameIdempotent(s: string)
    ensures CleanName(CleanName(s)) == CleanName(s)
  {
    var r := CleanName(s);
    assert !EndsWith(r, "_C") by {
      if |r| >= 2 {
        assert r[|r| - 2..][0] == r[|r| - 2];
      }
    }
    assert forall i :: !OccursAt(r, "_", i) by {
      forall i
        ensures !OccursAt(r, "_", i)
      {
        if 0 <= i < |r| {
          assert r[i..i + 1][0] == r[i];
        }
      }
    }
    ReplaceAbsent(r, "_", " ");
    TitleCharacterized(r, r);
  }

  /** The one numeric value `clean_titles_dictionary` passes through unchanged. */
  const KeptNumber: real := 0.5779643636557995

  /** The `AttributeError` raised when a value that is not a string reaches `clean_name`. */
  datatype TitleError = NotAString

  predicate PassesThrough(v: Cell) {
    v == Number(KeptNumber)
  }

  /** Every text value is cleaned and the one kept number is copied; any other
      value makes the call fail. */
  function CleanTitlesDictionary(titles: map<string, Cell>): (r: Result<map<string, Cell>, TitleError>)
    ensures r.Failure? <==> exists k :: k in titles && !titles[k].Text? && !PassesThrough(titles[k])
    ensures r.Success? ==> r.value.Keys == titles.Keys
    ensures r.Success? ==> forall k :: k in titles ==>
              r.value[k] == (if titles[k].Text? then Text(CleanName(titles[k].text)) else titles[k])
  {
    if exists k :: k in titles && !titles[k].Text? && !PassesThrough(titles[k]) then
      Failure(NotAString)
    else
      Success(map k | k in titles :: if titles[k].Text? then Text(CleanName(titles[k].text)) else titles[k])
  }

  /** A cleaned dictionary is a fixed point of cleaning. */
  lemma CleanTitlesFixedPoint(titles: map<string, Cell>)
    requires CleanTitlesDictionary(titles).Success?
    ensures CleanTitlesDictionary(CleanTitlesDictionary(titles).value) == CleanTitlesDictionary(titles)
  {
    var m := CleanTitlesDictionary(titles).value;
    assert !exists k :: k in m && !m[k].Text? && !PassesThrough(m[k]) by {
      forall k | k in m
        ensures m[k].Text? || PassesThrough(m[k])
      {
        assert titles[k].Text? || PassesThrough(titles[k]);
      }
    }
    var m2 := CleanTitlesDictionary(m).value;
    forall k | k in m
      ensures m2[k] == m[k]
    {
      if m[k].Text? {
        CleanNameIdempotent(titles[k].text);
      }
    }
    assert m2 == m;
  }
}
