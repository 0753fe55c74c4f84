/** The two string operations the scraper relies on, with Python's meaning:
    `str.strip()` with no argument, and `str.replace(pat, rep)` with a
    non-empty pattern. */
module Text {

  /** The characters Python's `str.isspace` accepts; `str.strip()` removes
      exactly these from both ends. */
  predicate IsSpace(c: char) {
    || c == ' '
    || ('\t' <= c <= '\r')
    || ('\U{1C}' <= c <= '\U{1F}')
    || c == '\U{85}'
    || c == '\U{A0}'
    || c == '\U{1680}'
    || ('\U{2000}' <= c <= '\U{200A}')
    || c == '\U{2028}'
    || c == '\U{2029}'
    || c == '\U{202F}'
    || c == '\U{205F}'
    || c == '\U{3000}'
  }

  // ---------------------------------------------------------------------
  // strip
  // ---------------------------------------------------------------------

  /** Length of the whitespace run at the start of `s`. */
  function LeadingSpace(s: string): (n: nat)
    ensures n <= |s|
    ensures forall k :: 0 <= k < n ==> IsSpace(s[k])
    ensures n < |s| ==> !IsSpace(s[n])
  {
    if |s| == 0 || !IsSpace(s[0]) then 0 else 1 + LeadingSpace(s[1..])
  }

  /** Length of the whitespace run at the end of `s`. */
  function TrailingSpace(s: string): (n: nat)
    ensures n <= |s|
    ensures forall k :: |s| - n <= k < |s| ==> IsSpace(s[k])
    ensures n < |s| ==> !IsSpace(s[|s| - 1 - n])
  {
    if |s| == 0 || !IsSpace(s[|s| - 1]) then 0 else 1 + TrailingSpace(s[..|s| - 1])
  }

  /** `s[i..j]` is what is left of `s` once its surrounding whitespace is cut
      away: everything before `i` and from `j` on is whitespace, and the kept
      part, when not empty, begins and ends with a non-whitespace character. */
  ghost predicate StrippedAt(s: string, i: int, j: int) {
    && 0 <= i <= j <= |s|
    && (forall k :: 0 <= k < i ==> IsSpace(s[k]))
    && (forall k :: j <= k < |s| ==> IsSpace(s[k]))
    && (i < j ==> !IsSpace(s[i]) && !IsSpace(s[j - 1]))
  }

  /** Python's `s.strip()`. */
  function Strip(s: string): (r: string)
    ensures exists i, j :: StrippedAt(s, i, j) && r == s[i..j]
    ensures r == [] <==> forall k :: 0 <= k < |s| ==> IsSpace(s[k])
  {
    var i := LeadingSpace(s);
    var j := |s| - TrailingSpace(s[i..]);
    assert StrippedAt(s, i, j);
    s[i..j]
  }

  /** Whatever cut satisfies `StrippedAt`, the kept text is the same one. */
  lemma {:induction false} StrippedAtUnique(s: string, i: int, j: int, i': int, j': int)
    requires StrippedAt(s, i, j) && StrippedAt(s, i', j')
    ensures s[i..j] == s[i'..j']
  {
  }

  /** Strip removes exactly the surrounding whitespace: with `pre` and `post`
      whitespace and `core` empty or without whitespace at its ends, the
      result is `core`. */
  lemma {:induction false} StripSurrounded(pre: string, core: string, post: string)
    requires forall k :: 0 <= k < |pre| ==> IsSpace(pre[k])
    requires forall k :: 0 <= k < |post| ==> IsSpace(post[k])
    requires core != [] ==> !IsSpace(core[0]) && !IsSpace(core[|core| - 1])
    ensures Strip(pre + core + post) == core
  {
    var s := pre + core + post;
    var i, j := |pre|, |pre| + |core|;
    assert forall k :: 0 <= k < i ==> s[k] == pre[k];
    assert forall k :: j <= k < |s| ==> s[k] == post[k - j];
    assert s[i..j] == core;
    assert StrippedAt(s, i, j);
    var i', j' :| StrippedAt(s, i', j') && Strip(s) == s[i'..j'];
    StrippedAtUnique(s, i, j, i', j');
  }

  /** A text without whitespace at its ends is left unchanged. */
  lemma {:induction false} StripUnchanged(s: string)
    requires s != [] ==> !IsSpace(s[0]) && !IsSpace(s[|s| - 1])
    ensures Strip(s) == s
  {
    StripSurrounded([], s, []);
    assert [] + s + [] == s;
  }

  /** Stripping twice is stripping once. */
  lemma {:induction false} StripIdempotent(s: string)
    ensures Strip(Strip(s)) == Strip(s)
  {
    var r := Strip(s);
    var i, j :| StrippedAt(s, i, j) && r == s[i..j];
    StripUnchanged(r);
  }

  // ---------------------------------------------------------------------
  // replace
  // ---------------------------------------------------------------------

  /** `t` occurs in `s` at position `i`. */
  predicate StartsAt(s: string, i: int, t: string) {
    0 <= i && i + |t| <= |s| && s[i..i + |t|] == t
  }

  /** `t` occurs somewhere in `s` (Python's `t in s`). */
  ghost predicate Occurs(t: string, s: string) {
    exists i :: StartsAt(s, i, t)
  }

  /** Python's `s.replace(pat, rep)`: scan left to right, and each time `pat`
      starts at the scan position, emit `rep` and jump past the match;
      otherwise emit the character and move one position on. */
  function Replace(s: string, pat: string, rep: string): (r: string)
    requires |pat| > 0
    ensures |rep| <= |pat| ==> |r| <= |s|
    ensures |rep| >= |pat| ==> |r| >= |s|
    decreases |s|
  {
    if |s| < |pat| then s
    else if s[..|pat|] == pat then rep + Replace(s[|pat|..], pat, rep)
    else [s[0]] + Replace(s[1..], pat, rep)
  }

  /** Replacing a pattern that does not occur changes nothing. */
  lemma {:induction false} ReplaceAbsent(s: string, pat: string, rep: string)
    requires |pat| > 0
    requires !Occurs(pat, s)
    ensures Replace(s, pat, rep) == s
  {
    if |s| >= |pat| {
      assert !StartsAt(s, 0, pat);
      assert !Occurs(pat, s[1..]) by {
        forall i | 0 <= i ensures !StartsAt(s[1..], i, pat) {
          assert !StartsAt(s, i + 1, pat);
          if i + |pat| <= |s[1..]| {
            assert s[1..][i..i + |pat|] == s[i + 1..i + 1 + |pat|];
          }
        }
      }
      ReplaceAbsent(s[1..], pat, rep);
    }
  }

  /** No position of `p` can start a match of `pat` (of length at least two),
      whatever text follows `p`: each position either does not hold `pat`'s
      first character or is followed, inside `p`, by a character other than
      `pat`'s second. */
  predicate NoMatchStartsIn(p: string, pat: string)
    requires |pat| >= 2
  {
    forall i {:trigger p[i]} :: 0 <= i < |p| ==> p[i] != pat[0] || (i + 1 < |p| && p[i + 1] != pat[1])
  }

  /** Dropping the first character keeps a text free of match starts. */
  lemma NoMatchStartsInTail(p: string, pat: string)
    requires |pat| >= 2
    requires |p| > 0 && NoMatchStartsIn(p, pat)
    ensures NoMatchStartsIn(p[1..], pat)
  {
    var q := p[1..];
    forall i | 0 <= i < |q|
      ensures q[i] != pat[0] || (i + 1 < |q| && q[i + 1] != pat[1])
    {
      var k := i + 1;
      assert p[k] != pat[0] || (k + 1 < |p| && p[k + 1] != pat[1]);
      assert q[i] == p[k];
      if i + 1 < |q| { assert q[i + 1] == p[k + 1]; }
    }
  }

  /** A prefix in which no match can start passes through the scan untouched. */
  lemma {:induction false} ReplaceAfterInertPrefix(p: string, t: string, pat: string, rep: string)
    requires |pat| >= 2
    requires NoMatchStartsIn(p, pat)
    ensures Replace(p + t, pat, rep) == p + Replace(t, pat, rep)
  {
    var u := p + t;
    if |p| == 0 {
      assert u == t;
    } else if |u| < |pat| {
      assert Replace(t, pat, rep) == t;
    } else {
      NoMatchStartsInTail(p, pat);
      ReplaceAfterInertPrefix(p[1..], t, pat, rep);
      assert u[1..] == p[1..] + t;
      assert p[0] == u[0];
      assert p[0] != pat[0] || (1 < |p| && p[1] != pat[1]);
      assert u[..|pat|][0] == u[0] == p[0];
      assert |p| > 1 ==> u[..|pat|][1] == u[1] == p[1];
      assert u[..|pat|] != pat;
      assert Replace(u, pat, rep) == [p[0]] + Replace(p[1..] + t, pat, rep);
      assert p == [p[0]] + p[1..];
    }
  }

  /** Reading the output of the scan from its start: either it agrees with the
      input on the first `n` characters, or among them is a character that is
      not in `pat` (the replacement's first character, say). */
  lemma {:induction false} ReplacePrefix(t: string, pat: string, rep: string, n: nat)
    requires |pat| > 0
    requires |rep| > 0 && rep[0] !in pat
    requires n <= |Replace(t, pat, rep)|
    ensures var r := Replace(t, pat, rep);
      || (n <= |t| && r[..n] == t[..n])
      || (exists k :: 0 <= k < n && r[k] !in pat)
  {
    var r := Replace(t, pat, rep);
    if n == 0 || |t| < |pat| {
    } else if t[..|pat|] == pat {
      assert r[0] == rep[0];
    } else {
      var r1 := Replace(t[1..], pat, rep);
      assert r == [t[0]] + r1;
      ReplacePrefix(t[1..], pat, rep, n - 1);
      if n - 1 <= |t[1..]| && r1[..n - 1] == t[1..][..n - 1] {
        assert r[..n] == [t[0]] + r1[..n - 1];
        assert t[..n] == [t[0]] + t[1..][..n - 1];
      } else {
        var k :| 0 <= k < n - 1 && r1[k] !in pat;
        assert r[k + 1] == r1[k];
      }
    }
  }

  /** When the replacement cannot take part in a match (its first character
      is not in `pat`, and no match can start inside it), the result holds no
      occurrence of `pat`. */
  lemma {:induction false} ReplaceLeavesNoMatch(s: string, pat: string, rep: string)
    requires |pat| >= 2
    requires |rep| > 0 && rep[0] !in pat
    requires NoMatchStartsIn(rep, pat)
    ensures !Occurs(pat, Replace(s, pat, rep))
  {
    var r := Replace(s, pat, rep);
    if |s| < |pat| {
      forall i ensures !StartsAt(r, i, pat) { }
    } else if s[..|pat|] == pat {
      var r1 := Replace(s[|pat|..], pat, rep);
      ReplaceLeavesNoMatch(s[|pat|..], pat, rep);
      assert r == rep + r1;
      forall i | 0 <= i ensures !StartsAt(r, i, pat) {
        if i < |rep| && i + |pat| <= |r| {
          if rep[i] != pat[0] {
            assert r[i..i + |pat|][0] == rep[i];
          } else {
            assert r[i..i + |pat|][1] == rep[i + 1];
          }
        } else if |rep| <= i && i + |pat| <= |r| {
          assert r[i..i + |pat|] == r1[i - |rep|..i - |rep| + |pat|];
          assert !StartsAt(r1, i - |rep|, pat);
        }
      }
    } else {
      var r1 := Replace(s[1..], pat, rep);
      ReplaceLeavesNoMatch(s[1..], pat, rep);
      assert r == [s[0]] + r1;
      forall i | 0 <= i ensures !StartsAt(r, i, pat) {
        if 1 <= i && i + |pat| <= |r| {
          assert r[i..i + |pat|] == r1[i - 1..i - 1 + |pat|];
          assert !StartsAt(r1, i - 1, pat);
        } else if i == 0 && |pat| <= |r| {
          ReplacePrefix(s[1..], pat, rep, |pat| - 1);
          if |pat| - 1 <= |s[1..]| && r1[..|pat| - 1] == s[1..][..|pat| - 1] {
            assert r[..|pat|] == [s[0]] + r1[..|pat| - 1];
            assert s[..|pat|] == [s[0]] + s[1..][..|pat| - 1];
          } else {
            var k :| 0 <= k < |pat| - 1 && r1[k] !in pat;
            assert r[k + 1] == r1[k];
            assert r[..|pat|][k + 1] != pat[k + 1];
          }
        }
      }
    }
  }

  /** When every occurrence of `pat`'s first character in `s` starts a match,
      and the replacement does not contain that character, the character is
      gone from the result (and with it every occurrence of `pat`). */
  lemma {:induction false} ReplaceRemovesLead(s: string, pat: string, rep: string)
    requires |pat| > 0
    requires pat[0] !in rep
    requires forall j :: 0 <= j < |s| && s[j] == pat[0] ==> StartsAt(s, j, pat)
    ensures pat[0] !in Replace(s, pat, rep)
    ensures !Occurs(pat, Replace(s, pat, rep))
  {
    var r := Replace(s, pat, rep);
    if |s| < |pat| {
      assert forall j :: 0 <= j < |s| ==> s[j] != pat[0];
    } else if s[..|pat|] == pat {
      var s' := s[|pat|..];
      forall j | 0 <= j < |s'| && s'[j] == pat[0] ensures StartsAt(s', j, pat) {
        assert s'[j] == s[j + |pat|];
        assert StartsAt(s, j + |pat|, pat);
        assert s'[j..j + |pat|] == s[j + |pat|..j + |pat| + |pat|];
      }
      ReplaceRemovesLead(s', pat, rep);
    } else {
      var s' := s[1..];
      assert !StartsAt(s, 0, pat);
      assert s[0] != pat[0];
      forall j | 0 <= j < |s'| && s'[j] == pat[0] ensures StartsAt(s', j, pat) {
        assert s'[j] == s[j + 1];
        assert StartsAt(s, j + 1, pat);
        assert s'[j..j + |pat|] == s[j + 1..j + 1 + |pat|];
      }
      ReplaceRemovesLead(s', pat, rep);
    }
    forall i | 0 <= i ensures !StartsAt(r, i, pat) {
      if i + |pat| <= |r| {
        assert r[i..i + |pat|][0] == r[i];
      }
    }
  }
}
