/**
 The id fallback of the heading outline: a heading without an id of its own is
 linked by a slug of its text, made by replacing every maximal run of white
 space with one hyphen (a global `\s+` regular-expression replace) and then
 lower-casing the result.
 */
module Slugs {

  /** The characters of the ECMAScript regular-expression class `\s`:
      WhiteSpace (TAB, VT, FF, ZWNBSP and the space separators) and
      LineTerminator (LF, CR, LS, PS). */
  predicate IsSpace(c: char)
  {
    || c == '\t' || c == '\n' || c == '\U{000B}' || c == '\U{000C}' || c == '\r'
    || c == ' ' || c == '\U{00A0}' || c == '\U{1680}'
    || ('\U{2000}' <= c <= '\U{200A}')
    || c == '\U{2028}' || c == '\U{2029}' || c == '\U{202F}' || c == '\U{205F}'
    || c == '\U{3000}' || c == '\U{FEFF}'
  }

  predicate IsUpper(c: char)
  {
    'A' <= c <= 'Z'
  }

  /** No character of `s` is white space. */
  predicate NoSpace(s: string)
  {
    forall i :: 0 <= i < |s| ==> !IsSpace(s[i])
  }

  /** No character of `s` is an upper-case ASCII letter. */
  predicate NoUpper(s: string)
  {
    forall i :: 0 <= i < |s| ==> !IsUpper(s[i])
  }

  /** Every character of `s` is white space. */
  predicate AllSpace(s: string)
  {
    forall i :: 0 <= i < |s| ==> IsSpace(s[i])
  }

  // ---------------------------------------------------------------------------
  // Replacing white-space runs

  /** `s.replace(/\s+/g, "-")`. Scanning left to right, a white-space
      character followed by another one is dropped, the last one of each run
      becomes a hyphen, and every other character is copied: each maximal run
      of white space gives exactly one hyphen (see `ReplaceRun`). */
  function ReplaceSpaceRuns(s: string): (r: string)
    ensures |r| <= |s|
  {
    if s == [] then []
    else if IsSpace(s[0]) && |s| > 1 && IsSpace(s[1]) then ReplaceSpaceRuns(s[1..])
    else [if IsSpace(s[0]) then '-' else s[0]] + ReplaceSpaceRuns(s[1..])
  }

  /** The result of the replace holds no white space and is never longer than
      its input. */
  lemma {:induction false} ReplaceSpaceRunsShape(s: string)
    ensures NoSpace(ReplaceSpaceRuns(s))
    ensures |ReplaceSpaceRuns(s)| <= |s|
  {
    if s != [] {
      ReplaceSpaceRunsShape(s[1..]);
    }
  }

  /** Text without white space passes through the replace unchanged, and only
      such text does: the replace removes no other character. */
  lemma {:induction false} ReplaceSpaceRunsFixpoint(s: string)
    ensures ReplaceSpaceRuns(s) == s <==> NoSpace(s)
  {
    ReplaceSpaceRunsShape(s);
    if s != [] && !IsSpace(s[0]) {
      ReplaceSpaceRunsFixpoint(s[1..]);
      assert NoSpace(s) ==> NoSpace(s[1..]) by {
        if NoSpace(s) {
          forall i | 0 <= i < |s[1..]| ensures !IsSpace(s[1..][i]) {
            assert s[1..][i] == s[i + 1];
          }
        }
      }
    }
  }

  /** One maximal run (a non-empty all-space `run` not followed by white space)
      becomes exactly one hyphen, followed by the replace of the rest. */
  lemma {:induction false} ReplaceRun(run: string, rest: string)
    requires run != [] && AllSpace(run)
    requires rest == [] || !IsSpace(rest[0])
    ensures ReplaceSpaceRuns(run + rest) == "-" + ReplaceSpaceRuns(rest)
  {
    var s := run + rest;
    assert s[0] == run[0];
    assert s[1..] == run[1..] + rest;
    if |run| == 1 {
      assert s[1..] == rest;
      assert |s| > 1 ==> s[1] == rest[0];
    } else {
      assert s[1] == run[1];
      ReplaceRun(run[1..], rest);
    }
  }

  /** The replace works piecewise: splitting the text anywhere except inside a
      white-space run does not change the result. */
  lemma {:induction false} ReplaceSpaceRunsAppend(a: string, b: string)
    requires a == [] || b == [] || !IsSpace(a[|a| - 1]) || !IsSpace(b[0])
    ensures ReplaceSpaceRuns(a + b) == ReplaceSpaceRuns(a) + ReplaceSpaceRuns(b)
  {
    if a != [] {
      var s := a + b;
      assert s[0] == a[0];
      assert s[1..] == a[1..] + b;
      if |a| == 1 {
        assert s[1..] == b;
        assert |s| > 1 ==> s[1] == b[0];
        assert a[1..] == [];
      } else {
        assert s[1] == a[1];
        assert a[1..][|a[1..]| - 1] == a[|a| - 1];
        ReplaceSpaceRunsAppend(a[1..], b);
        var c := if IsSpace(a[0]) then '-' else a[0];
        assert [c] + (ReplaceSpaceRuns(a[1..]) + ReplaceSpaceRuns(b))
            == ([c] + ReplaceSpaceRuns(a[1..])) + ReplaceSpaceRuns(b);
      }
    } else {
      assert a + b == b;
    }
  }

  /** Leading white space yields a leading hyphen and trailing white space a
      trailing hyphen: nothing is trimmed. */
  lemma {:induction false} ReplaceSpaceRunsEdges(s: string)
    requires s != []
    ensures ReplaceSpaceRuns(s) != []
    ensures ReplaceSpaceRuns(s)[0] == if IsSpace(s[0]) then '-' else s[0]
    ensures ReplaceSpaceRuns(s)[|ReplaceSpaceRuns(s)| - 1] ==
      if IsSpace(s[|s| - 1]) then '-' else s[|s| - 1]
  {
    ReplaceSpaceRunsFirst(s);
    ReplaceSpaceRunsLast(s);
  }

  lemma {:induction false} ReplaceSpaceRunsFirst(s: string)
    requires s != []
    ensures ReplaceSpaceRuns(s) != []
    ensures ReplaceSpaceRuns(s)[0] == if IsSpace(s[0]) then '-' else s[0]
  {
    if IsSpace(s[0]) && |s| > 1 && IsSpace(s[1]) {
      ReplaceSpaceRunsFirst(s[1..]);
    }
  }

  lemma {:induction false} ReplaceSpaceRunsLast(s: string)
    requires s != []
    ensures ReplaceSpaceRuns(s) != []
    ensures ReplaceSpaceRuns(s)[|ReplaceSpaceRuns(s)| - 1] ==
      if IsSpace(s[|s| - 1]) then '-' else s[|s| - 1]
  {
    var c := s[|s| - 1];
    if IsSpace(c) {
      var k := TrailingRunStart(s);
      var run := s[k..];
      assert run != [] && run[|run| - 1] == c;
      assert s == s[..k] + run;
      assert k == 0 || s[..k][k - 1] == s[k - 1];
      ReplaceSpaceRunsAppend(s[..k], run);
      assert run + [] == run;
      ReplaceRun(run, []);
      assert ReplaceSpaceRuns(run) == "-";
    } else {
      var init := s[..|s| - 1];
      assert s == init + [c];
      ReplaceSpaceRunsAppend(init, [c]);
      assert [c][1..] == [];
      assert ReplaceSpaceRuns([c]) == [c];
    }
  }

  /** Start of the maximal white-space suffix of `s`. */
  function TrailingRunStart(s: string): (k: nat)
    ensures k <= |s|
    ensures AllSpace(s[k..])
    ensures k == 0 || !IsSpace(s[k - 1])
  {
    if s != [] && IsSpace(s[|s| - 1]) then
      var k := TrailingRunStart(s[..|s| - 1]);
      assert s[k..] == s[..|s| - 1][k..] + [s[|s| - 1]];
      k
    else
      |s|
  }

  // ---------------------------------------------------------------------------
  // Lower-casing

  const UpperLetters: string := "ABCDEFGHIJKLMNOPQRSTUVWXYZ"
  const LowerLetters: string := "abcdefghijklmnopqrstuvwxyz"

  /** ASCII case folding of one character: the k-th letter of the upper-case
      alphabet becomes the k-th letter of the lower-case one. */
  function LowerChar(c: char): (d: char)
    ensures IsUpper(c) ==> UpperLetters[c as int - 'A' as int] == c && d == LowerLetters[c as int - 'A' as int]
    ensures !IsUpper(d)
    ensures IsSpace(d) == IsSpace(c)
    ensures IsUpper(c) || d == c
  {
    if IsUpper(c) then (c as int + 32) as char else c
  }

  /** `toLowerCase()` restricted to ASCII letters. */
  function Lower(s: string): (r: string)
    ensures |r| == |s|
  {
    if s == [] then [] else [LowerChar(s[0])] + Lower(s[1..])
  }

  /** Lower-casing keeps the length and works character by character. */
  lemma {:induction false} LowerAt(s: string)
    ensures |Lower(s)| == |s|
    ensures forall i :: 0 <= i < |s| ==> Lower(s)[i] == LowerChar(s[i])
  {
    if s != [] {
      LowerAt(s[1..]);
      forall i | 1 <= i < |s| ensures Lower(s)[i] == LowerChar(s[i]) {
        assert Lower(s)[i] == Lower(s[1..])[i - 1];
      }
    }
  }

  /** Lower-casing leaves no upper-case letter, keeps every white-space
      position, and changes exactly the texts that hold an upper-case letter. */
  lemma LowerShape(s: string)
    ensures NoUpper(Lower(s))
    ensures |Lower(s)| == |s| && forall i :: 0 <= i < |s| ==> (IsSpace(s[i]) <==> IsSpace(Lower(s)[i]))
    ensures NoSpace(s) <==> NoSpace(Lower(s))
    ensures Lower(s) == s <==> NoUpper(s)
  {
    LowerAt(s);
    if Lower(s) == s {
      assert forall i :: 0 <= i < |s| ==> s[i] == LowerChar(s[i]);
    }
    if NoUpper(s) {
      assert Lower(s) == s;
    }
    assert NoSpace(s) <==> NoSpace(Lower(s)) by {
      assert forall i :: 0 <= i < |s| ==> (IsSpace(s[i]) <==> IsSpace(Lower(s)[i]));
    }
  }

  /** Lower-casing is idempotent. */
  lemma {:induction false} LowerIdempotent(s: string)
    ensures Lower(Lower(s)) == Lower(s)
  {
    LowerShape(s);
    LowerShape(Lower(s));
  }

  // ---------------------------------------------------------------------------
  // The slug

  /** `text.replace(/\s+/g, "-").toLowerCase()`: the id given to a heading that
      has none of its own. */
  function Slug(text: string): (r: string)
    ensures NoSpace(r) && NoUpper(r)
    ensures |r| <= |text|
  {
    ReplaceSpaceRunsShape(text);
    LowerShape(ReplaceSpaceRuns(text));
    LowerAt(ReplaceSpaceRuns(text));
    Lower(ReplaceSpaceRuns(text))
  }

  /** A text is its own slug exactly when it has no white space and no
      upper-case letter. */
  lemma SlugFixpoint(text: string)
    ensures Slug(text) == text <==> NoSpace(text) && NoUpper(text)
  {
    ReplaceSpaceRunsFixpoint(text);
    if NoSpace(text) && NoUpper(text) {
      LowerShape(text);
    }
  }

  /** Deriving a slug from a slug changes nothing. */
  lemma SlugIdempotent(text: string)
    ensures Slug(Slug(text)) == Slug(text)
  {
    SlugFixpoint(Slug(text));
  }

  /** The slug of a non-empty text is non-empty; leading and trailing white
      space become a leading and trailing hyphen, and any other first or last
      character survives, lower-cased. */
  lemma SlugEdges(text: string)
    requires text != []
    ensures Slug(text) != []
    ensures Slug(text)[0] == if IsSpace(text[0]) then '-' else LowerChar(text[0])
    ensures Slug(text)[|Slug(text)| - 1] ==
      if IsSpace(text[|text| - 1]) then '-' else LowerChar(text[|text| - 1])
  {
    ReplaceSpaceRunsEdges(text);
    LowerAt(ReplaceSpaceRuns(text));
  }

  /** The slug is computed piecewise, with the same proviso as the replace:
      the split must not fall inside a white-space run. */
  lemma SlugAppend(a: string, b: string)
    requires a == [] || b == [] || !IsSpace(a[|a| - 1]) || !IsSpace(b[0])
    ensures Slug(a + b) == Slug(a) + Slug(b)
  {
    ReplaceSpaceRunsAppend(a, b);
    LowerAppend(ReplaceSpaceRuns(a), ReplaceSpaceRuns(b));
  }

  lemma LowerAppend(a: string, b: string)
    ensures Lower(a + b) == Lower(a) + Lower(b)
  {
    LowerAt(a);
    LowerAt(b);
    LowerAt(a + b);
  }

  /** One white-space run inside the text becomes one hyphen, however long the
      run is and whichever white-space characters it holds. */
  lemma SlugOfRun(a: string, run: string, b: string)
    requires a == [] || !IsSpace(a[|a| - 1])
    requires run != [] && AllSpace(run)
    requires b == [] || !IsSpace(b[0])
    ensures Slug(a + run + b) == Slug(a) + "-" + Slug(b)
  {
    assert a + run + b == a + (run + b);
    ReplaceSpaceRunsAppend(a, run + b);
    ReplaceRun(run, b);
    LowerAppend(ReplaceSpaceRuns(a), "-" + ReplaceSpaceRuns(b));
    LowerAppend("-", ReplaceSpaceRuns(b));
  }
}
