/**
 * Python's `str.replace(old, new)` on strings, for a non-empty `old`:
 * every non-overlapping occurrence of `old`, scanning left to right, is
 * replaced by `new`. `Split` and `Join` give the independent reference
 * definition `new.join(s.split(old))`.
 */
module Strings {

  /** `pat` occurs somewhere in `s`. */
  predicate Contains(s: string, pat: string)
  {
    exists i :: 0 <= i <= |s| && pat <= s[i..]
  }

  /** Replaces every non-overlapping occurrence of `pat` in `s`, leftmost first, by `rep`. */
  function Replace(s: string, pat: string, rep: string): string
    requires |pat| > 0
    decreases |s|
  {
    if |s| == 0 then []
    else if pat <= s then rep + Replace(s[|pat|..], pat, rep)
    else [s[0]] + Replace(s[1..], pat, rep)
  }

  /** Python's `s.split(pat)`: the pieces of `s` between occurrences of `pat`. */
  function Split(s: string, pat: string): (parts: seq<string>)
    requires |pat| > 0
    ensures |parts| >= 1
    decreases |s|
  {
    if |s| == 0 then [[]]
    else if pat <= s then [[]] + Split(s[|pat|..], pat)
    else
      var t := Split(s[1..], pat);
      [[s[0]] + t[0]] + t[1..]
  }

  /** Python's `sep.join(parts)`. */
  function Join(parts: seq<string>, sep: string): string
  {
    if |parts| == 0 then []
    else if |parts| == 1 then parts[0]
    else parts[0] + sep + Join(parts[1..], sep)
  }

  /** A string holds `pat` exactly when it starts with it or its tail holds it. */
  lemma ContainsStep(s: string, pat: string)
    requires |pat| > 0
    ensures |s| == 0 ==> !Contains(s, pat)
    ensures |s| > 0 ==> (Contains(s, pat) <==> pat <= s || Contains(s[1..], pat))
  {
    if |s| > 0 {
      if Contains(s, pat) && !(pat <= s) {
        var i :| 0 <= i <= |s| && pat <= s[i..];
        assert i > 0;
        assert s[1..][i - 1..] == s[i..];
      }
      if Contains(s[1..], pat) {
        var i :| 0 <= i <= |s[1..]| && pat <= s[1..][i..];
        assert s[i + 1..] == s[1..][i..];
      }
      if pat <= s {
        assert s[0..] == s;
      }
    }
  }

  /** A string in which `pat` does not occur is left unchanged. */
  lemma {:induction false} ReplaceAbsent(s: string, pat: string, rep: string)
    requires |pat| > 0
    requires !Contains(s, pat)
    ensures Replace(s, pat, rep) == s
    decreases |s|
  {
    ContainsStep(s, pat);
    if |s| > 0 {
      ReplaceAbsent(s[1..], pat, rep);
    }
  }

  /** Replacing `pat` by itself is the identity. */
  lemma {:induction false} ReplaceBySelf(s: string, pat: string)
    requires |pat| > 0
    ensures Replace(s, pat, pat) == s
    decreases |s|
  {
    if |s| > 0 {
      if pat <= s {
        ReplaceBySelf(s[|pat|..], pat);
        assert s == pat + s[|pat|..];
      } else {
        ReplaceBySelf(s[1..], pat);
      }
    }
  }

  /** A replacement at least as long as the pattern never shortens the string. */
  lemma {:induction false} ReplaceNotShorter(s: string, pat: string, rep: string)
    requires 0 < |pat| <= |rep|
    ensures |Replace(s, pat, rep)| >= |s|
    decreases |s|
  {
    if |s| > 0 {
      if pat <= s {
        ReplaceNotShorter(s[|pat|..], pat, rep);
      } else {
        ReplaceNotShorter(s[1..], pat, rep);
      }
    }
  }

  /** A replacement at most as long as the pattern never lengthens the string. */
  lemma {:induction false} ReplaceNotLonger(s: string, pat: string, rep: string)
    requires 0 < |pat| && |rep| <= |pat|
    ensures |Replace(s, pat, rep)| <= |s|
    decreases |s|
  {
    if |s| > 0 {
      if pat <= s {
        ReplaceNotLonger(s[|pat|..], pat, rep);
      } else {
        ReplaceNotLonger(s[1..], pat, rep);
      }
    }
  }

  /** Once `pat` occurs, replacing it by anything else changes the string. */
  lemma {:induction false} ReplacePresent(s: string, pat: string, rep: string)
    requires |pat| > 0 && rep != pat
    requires Contains(s, pat)
    ensures Replace(s, pat, rep) != s
    decreases |s|
  {
    ContainsStep(s, pat);
    var r := Replace(s, pat, rep);
    if pat <= s {
      var rest := s[|pat|..];
      assert s == pat + rest;
      assert r == rep + Replace(rest, pat, rep);
      if |rep| < |pat| {
        ReplaceNotLonger(rest, pat, rep);
        assert |r| < |s|;
      } else if |rep| > |pat| {
        ReplaceNotShorter(rest, pat, rep);
        assert |r| > |s|;
      } else {
        assert r[..|pat|] == rep;
        assert s[..|pat|] == pat;
      }
    } else {
      ReplacePresent(s[1..], pat, rep);
      assert r == [s[0]] + Replace(s[1..], pat, rep);
      assert r[1..] != s[1..];
    }
  }

  /**
   * `Replace` leaves a string unchanged exactly when the pattern does not
   * occur in it or is replaced by itself.
   */
  lemma ReplaceUnchangedIff(s: string, pat: string, rep: string)
    requires |pat| > 0
    ensures Replace(s, pat, rep) == s <==> !Contains(s, pat) || rep == pat
  {
    if !Contains(s, pat) {
      ReplaceAbsent(s, pat, rep);
    } else if rep == pat {
      ReplaceBySelf(s, pat);
    } else {
      ReplacePresent(s, pat, rep);
    }
  }

  /** Joining a split whose first piece gains a leading character. */
  lemma JoinConsFirst(c: char, t: seq<string>, sep: string)
    requires |t| >= 1
    ensures Join([[c] + t[0]] + t[1..], sep) == [c] + Join(t, sep)
  {
    var parts := [[c] + t[0]] + t[1..];
    if |t| > 1 {
      assert parts[1..] == t[1..];
    }
  }

  /** `Replace` agrees with the reference `rep.join(s.split(pat))`. */
  lemma {:induction false} ReplaceIsJoinOfSplit(s: string, pat: string, rep: string)
    requires |pat| > 0
    ensures Replace(s, pat, rep) == Join(Split(s, pat), rep)
    decreases |s|
  {
    if |s| > 0 {
      if pat <= s {
        var t := Split(s[|pat|..], pat);
        ReplaceIsJoinOfSplit(s[|pat|..], pat, rep);
        assert ([[]] + t)[1..] == t;
      } else {
        var t := Split(s[1..], pat);
        ReplaceIsJoinOfSplit(s[1..], pat, rep);
        JoinConsFirst(s[0], t, rep);
      }
    }
  }
}
