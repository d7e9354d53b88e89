/**
 String operations the scripts use from Python's `str`: `endswith` and
 `replace`. Strings are sequences of characters.
 */
module Strings {

  /** Python's `s.endswith(suffix)`: `s` is some stem followed by `suffix`. */
  predicate EndsWith(s: string, suffix: string)
    ensures EndsWith(s, suffix) <==> exists stem :: s == stem + suffix
  {
    var ends := |suffix| <= |s| && s[|s| - |suffix|..] == suffix;
    assert ends ==> s == s[..|s| - |suffix|] + suffix;
    ends
  }

  /** `pat` occurs in `s` starting at index `i`. */
  predicate OccursAt(s: string, pat: string, i: int) {
    0 <= i && i + |pat| <= |s| && s[i..i + |pat|] == pat
  }

  /** Python's `pat in s`. */
  predicate Contains(s: string, pat: string) {
    exists i :: 0 <= i <= |s| && OccursAt(s, pat, i)
  }

  /**
   No proper suffix of `pat` is also a prefix of it, so two occurrences of
   `pat` in a string can never overlap.
   */
  predicate BorderFree(pat: string) {
    forall j :: 0 < j < |pat| ==> pat[j..] != pat[..|pat| - j]
  }

  /**
   Python's `s.replace(pat, rep)` for a non-empty `pat`: scanning left to
   right, every occurrence of `pat` that does not overlap an occurrence
   already replaced is replaced by `rep`.
   */
  function ReplaceAll(s: string, pat: string, rep: string): string
    requires |pat| > 0
    decreases |s|
  {
    if |s| < |pat| then s
    else if s[..|pat|] == pat then rep + ReplaceAll(s[|pat|..], pat, rep)
    else [s[0]] + ReplaceAll(s[1..], pat, rep)
  }

  /** One step of the scan when the pattern occurs at the front. */
  lemma ReplaceAllAtMatch(s: string, pat: string, rep: string)
    requires 0 < |pat| <= |s| && s[..|pat|] == pat
    ensures ReplaceAll(s, pat, rep) == rep + ReplaceAll(s[|pat|..], pat, rep)
  {
  }

  /** One step of the scan when the pattern does not occur at the front. */
  lemma ReplaceAllAtMismatch(s: string, pat: string, rep: string)
    requires 0 < |pat| <= |s| && s[..|pat|] != pat
    ensures ReplaceAll(s, pat, rep) == [s[0]] + ReplaceAll(s[1..], pat, rep)
  {
  }

  /** A string with no occurrence of the pattern comes back unchanged. */
  lemma {:induction false} ReplaceAllWithoutOccurrence(s: string, pat: string, rep: string)
    requires |pat| > 0
    requires !Contains(s, pat)
    ensures ReplaceAll(s, pat, rep) == s
    decreases |s|
  {
    if |s| < |pat| {
    } else {
      assert !OccursAt(s, pat, 0);
      ReplaceAllAtMismatch(s, pat, rep);
      NoOccurrenceInTail(s, pat);
      ReplaceAllWithoutOccurrence(s[1..], pat, rep);
    }
  }

  /** Two occurrences of a border-free pattern are never less than its length apart. */
  lemma NoOverlap(t: string, pat: string, j: int)
    requires BorderFree(pat)
    requires 0 < j < |pat|
    ensures OccursAt(t, pat, 0) ==> !OccursAt(t, pat, j)
  {
    if OccursAt(t, pat, 0) {
      assert t[j..|pat|] == pat[j..];
      assert pat[j..] != pat[..|pat| - j];
      if j + |pat| <= |t| {
        assert t[j..j + |pat|][..|pat| - j] == t[j..|pat|];
      }
    }
  }

  /** Replacing in `s + pat` gives the replacement of `s` followed by `rep`. */
  predicate TrailingReplaced(s: string, pat: string, rep: string)
    requires |pat| > 0
  {
    ReplaceAll(s + pat, pat, rep) == ReplaceAll(s, pat, rep) + rep
  }

  lemma TrailingAfterMatch(s: string, pat: string, rep: string)
    requires 0 < |pat| <= |s| && s[..|pat|] == pat
    requires TrailingReplaced(s[|pat|..], pat, rep)
    ensures TrailingReplaced(s, pat, rep)
  {
    var t := s + pat;
    assert t[..|pat|] == pat;
    ReplaceAllAtMatch(t, pat, rep);
    ReplaceAllAtMatch(s, pat, rep);
    assert t[|pat|..] == s[|pat|..] + pat;
  }

  lemma TrailingAfterMismatch(s: string, pat: string, rep: string)
    requires 0 < |pat| <= |s| && s[..|pat|] != pat
    requires TrailingReplaced(s[1..], pat, rep)
    ensures TrailingReplaced(s, pat, rep)
  {
    var t := s + pat;
    assert s[..|pat|] == t[..|pat|];
    ReplaceAllAtMismatch(t, pat, rep);
    ReplaceAllAtMismatch(s, pat, rep);
    assert t[1..] == s[1..] + pat;
  }

  /**
   For a pattern that cannot overlap itself, a trailing occurrence is always
   reached by the left-to-right scan and replaced: the replacement of
   `s + pat` is the replacement of `s` followed by `rep`.
   */
  lemma {:induction false} ReplaceAllTrailingPattern(s: string, pat: string, rep: string)
    requires |pat| > 0
    requires BorderFree(pat)
    ensures ReplaceAll(s + pat, pat, rep) == ReplaceAll(s, pat, rep) + rep
    decreases |s|
  {
    if |s| == 0 {
      assert s + pat == pat;
      ReplaceAllAtMatch(pat, pat, rep);
      assert pat[|pat|..] == [];
    } else if |s| < |pat| {
      // too short to hold the pattern, so `s` is left as it is
      assert !Contains(s, pat);
      ReplaceAllFirstOccurrence(s, pat, rep, []);
      assert s + pat + [] == s + pat;
      assert ReplaceAll([], pat, rep) == [];
    } else if s[..|pat|] == pat {
      ReplaceAllTrailingPattern(s[|pat|..], pat, rep);
      TrailingAfterMatch(s, pat, rep);
    } else {
      ReplaceAllTrailingPattern(s[1..], pat, rep);
      TrailingAfterMismatch(s, pat, rep);
    }
  }

  /** Dropping the first character keeps a string free of the pattern. */
  lemma NoOccurrenceInTail(s: string, pat: string)
    requires |s| > 0 && !Contains(s, pat)
    ensures !Contains(s[1..], pat)
  {
    forall i | 0 <= i <= |s[1..]| && OccursAt(s[1..], pat, i)
      ensures OccursAt(s, pat, i + 1)
    {
      assert s[1..][i..i + |pat|] == s[i + 1..i + 1 + |pat|];
    }
  }

  /** A stretch free of a border-free pattern, then the pattern: no match at the front. */
  lemma NoMatchBeforeFirstOccurrence(stem: string, pat: string, rest: string)
    requires |pat| > 0 && BorderFree(pat)
    requires |stem| > 0 && !Contains(stem, pat)
    ensures (stem + pat + rest)[..|pat|] != pat
  {
    var t := stem + pat + rest;
    if |stem| < |pat| {
      assert t[|stem|..|stem| + |pat|] == pat;
      assert OccursAt(t, pat, |stem|);
      NoOverlap(t, pat, |stem|);
    } else {
      assert !OccursAt(stem, pat, 0);
      assert t[..|pat|] == stem[..|pat|];
    }
  }

  /**
   For a pattern that cannot overlap itself, the first occurrence after a
   stretch free of the pattern is replaced, and the scan carries on right
   after it: `stem + pat + rest` becomes `stem + rep` followed by the
   replacement of `rest`.
   */
  lemma {:induction false} ReplaceAllFirstOccurrence(stem: string, pat: string, rep: string, rest: string)
    requires |pat| > 0
    requires BorderFree(pat)
    requires !Contains(stem, pat)
    ensures ReplaceAll(stem + pat + rest, pat, rep) == stem + rep + ReplaceAll(rest, pat, rep)
    decreases |stem|
  {
    var t := stem + pat + rest;
    if |stem| == 0 {
      assert t == pat + rest;
      assert t[..|pat|] == pat && t[|pat|..] == rest;
      ReplaceAllAtMatch(t, pat, rep);
    } else {
      NoMatchBeforeFirstOccurrence(stem, pat, rest);
      ReplaceAllAtMismatch(t, pat, rep);
      NoOccurrenceInTail(stem, pat);
      assert t[1..] == stem[1..] + pat + rest;
      ReplaceAllFirstOccurrence(stem[1..], pat, rep, rest);
      assert [stem[0]] + stem[1..] == stem;
    }
  }

  /** A suffix of a suffix is a suffix. */
  lemma EndsWithTransitive(s: string, t: string, suffix: string)
    requires EndsWith(s, t) && EndsWith(t, suffix)
    ensures EndsWith(s, suffix)
  {
    assert s[|s| - |t|..][|t| - |suffix|..] == s[|s| - |suffix|..];
  }

  /**
   `pat` starts with a marker character that occurs nowhere else in it;
   `rep` starts with the same marker, never repeats it, and already differs
   from `pat` at its second character. (".ipynb" and ".html" are such a pair,
   with '.' as the marker.)
   */
  predicate MarkerLed(pat: string, rep: string) {
    && 2 <= |pat| && 2 <= |rep|
    && rep[0] == pat[0]
    && rep[1] != pat[1]
    && (forall k :: 1 <= k < |pat| ==> pat[k] != pat[0])
    && (forall k :: 1 <= k < |rep| ==> rep[k] != pat[0])
  }

  /**
   If the result of the scan starts with a run of characters free of the
   marker, the scanned string starts with the same run: every replacement
   begins with the marker, so only untouched characters can make up the run.
   */
  lemma {:induction false} MarkerFreePrefixIsOriginal(s: string, pat: string, rep: string, w: string)
    requires MarkerLed(pat, rep)
    requires forall k :: 0 <= k < |w| ==> w[k] != pat[0]
    ensures var out := ReplaceAll(s, pat, rep);
      |w| <= |out| && out[..|w|] == w ==> |w| <= |s| && s[..|w|] == w
    decreases |s|
  {
    var out := ReplaceAll(s, pat, rep);
    if |s| < |pat| || |w| == 0 {
    } else if s[..|pat|] == pat {
      assert out[0] == rep[0];
    } else if |w| <= |out| && out[..|w|] == w {
      var rest := ReplaceAll(s[1..], pat, rep);
      assert out == [s[0]] + rest;
      assert rest[..|w| - 1] == w[1..];
      MarkerFreePrefixIsOriginal(s[1..], pat, rep, w[1..]);
      assert s[..|w|] == [s[0]] + s[1..][..|w| - 1];
    }
  }

  /**
   Putting the replacement text in front of a string free of the pattern
   creates no occurrence of it.
   */
  lemma NoOccurrenceAfterReplacement(pat: string, rep: string, rest: string)
    requires MarkerLed(pat, rep)
    requires !Contains(rest, pat)
    ensures !Contains(rep + rest, pat)
  {
    var out := rep + rest;
    forall i | 0 <= i <= |out|
      ensures !OccursAt(out, pat, i)
    {
      if i + |pat| > |out| {
      } else if i == 0 {
        assert out[i..i + |pat|][1] == rep[1];
      } else if i < |rep| {
        assert out[i..i + |pat|][0] == rep[i];
      } else {
        var j := i - |rep|;
        assert out[i..i + |pat|] == rest[j..j + |pat|];
        assert !OccursAt(rest, pat, j);
      }
    }
  }

  /**
   Putting one character in front of a string free of the pattern creates an
   occurrence only if the character and the front of the string spell it.
   */
  lemma NoOccurrenceAfterChar(pat: string, c: char, rest: string)
    requires |pat| > 0
    requires !Contains(rest, pat)
    requires !(|pat| - 1 <= |rest| && [c] + rest[..|pat| - 1] == pat)
    ensures !Contains([c] + rest, pat)
  {
    var out := [c] + rest;
    forall i | 0 <= i <= |out|
      ensures !OccursAt(out, pat, i)
    {
      if i + |pat| > |out| {
      } else if i == 0 {
        assert out[..|pat|] == [c] + rest[..|pat| - 1];
      } else {
        assert out[i..i + |pat|] == rest[i - 1..i - 1 + |pat|];
        assert !OccursAt(rest, pat, i - 1);
      }
    }
  }

  /**
   For a marker-led pair, no occurrence of the pattern survives the
   replacement: the scan really replaces every occurrence, and the
   replacement text never forms a new one with its neighbours.
   */
  lemma {:induction false} ReplaceAllRemovesEveryOccurrence(s: string, pat: string, rep: string)
    requires MarkerLed(pat, rep)
    ensures !Contains(ReplaceAll(s, pat, rep), pat)
    decreases |s|
  {
    if |s| < |pat| {
      assert ReplaceAll(s, pat, rep) == s;
    } else if s[..|pat|] == pat {
      ReplaceAllAtMatch(s, pat, rep);
      ReplaceAllRemovesEveryOccurrence(s[|pat|..], pat, rep);
      NoOccurrenceAfterReplacement(pat, rep, ReplaceAll(s[|pat|..], pat, rep));
    } else {
      ReplaceAllAtMismatch(s, pat, rep);
      var rest := ReplaceAll(s[1..], pat, rep);
      ReplaceAllRemovesEveryOccurrence(s[1..], pat, rep);
      // the front of `rest` holds no marker, so it is the front of s[1..]
      MarkerFreePrefixIsOriginal(s[1..], pat, rep, pat[1..]);
      assert s[..|pat|] == [s[0]] + s[1..][..|pat| - 1];
      assert pat == [pat[0]] + pat[1..];
      NoOccurrenceAfterChar(pat, s[0], rest);
    }
  }
}
