/** The string primitives the reconciliation engine relies on, with Python's
    meaning: `str.strip()`, `str.upper()`, `sub in text` and
    `str.replace(old, '')`. */
module Text {

  /** The characters for which Python's `str.isspace()` holds, i.e. the ones
      `str.strip()` removes. */
  predicate IsWhitespace(c: char) {
    var n := c as int;
    || n == 0x20
    || 0x09 <= n <= 0x0d
    || 0x1c <= n <= 0x1f
    || n == 0x85 || n == 0xa0 || n == 0x1680
    || 0x2000 <= n <= 0x200a
    || n == 0x2028 || n == 0x2029 || n == 0x202f || n == 0x205f || n == 0x3000
  }

  /** A string with no leading or trailing whitespace. */
  predicate IsTrimmed(s: string) {
    s == [] || (!IsWhitespace(s[0]) && !IsWhitespace(s[|s| - 1]))
  }

  /** `r` is `s[i..i + |r|]` and everything of `s` outside it is whitespace. */
  predicate IsCoreAt(s: string, r: string, i: int) {
    && 0 <= i <= |s| - |r| && r == s[i..i + |r|]
    && (forall k :: 0 <= k < i ==> IsWhitespace(s[k]))
    && (forall k :: i + |r| <= k < |s| ==> IsWhitespace(s[k]))
  }

  /** Every character of `r` occurs in `s`. */
  predicate CharsWithin(r: string, s: string) {
    forall i :: 0 <= i < |r| ==> r[i] in s
  }

  lemma CharsWithinTransitive(r: string, s: string, t: string)
    requires CharsWithin(r, s) && CharsWithin(s, t)
    ensures CharsWithin(r, t)
  {
    forall i | 0 <= i < |r| ensures r[i] in t {
      var j :| 0 <= j < |s| && s[j] == r[i];
    }
  }

  /** Python's `s.strip()`: whitespace is removed from both ends until
      neither end is whitespace. */
  function Strip(s: string): (r: string)
    ensures IsTrimmed(r)
    ensures |r| <= |s|
    ensures CharsWithin(r, s)
    decreases |s|
  {
    if s == [] then []
    else if IsWhitespace(s[0]) then
      var r := Strip(s[1..]);
      assert forall k :: 0 <= k < |r| ==> r[k] in s by {
        forall k | 0 <= k < |r| ensures r[k] in s {
          var j :| 0 <= j < |s[1..]| && s[1..][j] == r[k];
          assert s[j + 1] == r[k];
        }
      }
      r
    else if IsWhitespace(s[|s| - 1]) then
      var r := Strip(s[..|s| - 1]);
      assert forall k :: 0 <= k < |r| ==> r[k] in s by {
        forall k | 0 <= k < |r| ensures r[k] in s {
          var j :| 0 <= j < |s[..|s| - 1]| && s[..|s| - 1][j] == r[k];
          assert s[j] == r[k];
        }
      }
      r
    else s
  }

  /** A core of `s` minus a leading blank is a core of `s`. */
  lemma CoreAfterBlank(s: string, r: string, i: int)
    requires s != [] && IsWhitespace(s[0]) && IsCoreAt(s[1..], r, i)
    ensures IsCoreAt(s, r, i + 1)
  {
    var t := s[1..];
    assert s[i + 1..i + 1 + |r|] == t[i..i + |r|];
    forall k | 0 <= k < i + 1 ensures IsWhitespace(s[k]) {
      if k > 0 { assert s[k] == t[k - 1]; }
    }
    forall k | i + 1 + |r| <= k < |s| ensures IsWhitespace(s[k]) {
      assert s[k] == t[k - 1];
    }
  }

  /** A core of `s` minus a trailing blank is a core of `s`. */
  lemma CoreBeforeBlank(s: string, r: string, i: int)
    requires s != [] && IsWhitespace(s[|s| - 1]) && IsCoreAt(s[..|s| - 1], r, i)
    ensures IsCoreAt(s, r, i)
  {
    var t := s[..|s| - 1];
    assert s[i..i + |r|] == t[i..i + |r|];
    forall k | 0 <= k < i ensures IsWhitespace(s[k]) {
      assert s[k] == t[k];
    }
    forall k | i + |r| <= k < |s| ensures IsWhitespace(s[k]) {
      if k < |s| - 1 { assert s[k] == t[k]; }
    }
  }

  /** What `strip()` leaves is an infix of its input with only whitespace
      around it. */
  lemma {:induction false} StripCore(s: string)
    ensures exists i :: IsCoreAt(s, Strip(s), i)
    decreases |s|
  {
    var r := Strip(s);
    if s == [] {
      assert IsCoreAt(s, r, 0);
    } else if IsWhitespace(s[0]) {
      StripCore(s[1..]);
      var i :| IsCoreAt(s[1..], r, i);
      CoreAfterBlank(s, r, i);
    } else if IsWhitespace(s[|s| - 1]) {
      StripCore(s[..|s| - 1]);
      var i :| IsCoreAt(s[..|s| - 1], r, i);
      CoreBeforeBlank(s, r, i);
    } else {
      assert s[0..|s|] == s;
      assert IsCoreAt(s, r, 0);
    }
  }

  /** Stripping a string that has no whitespace at its ends changes nothing. */
  lemma StripTrimmed(s: string)
    requires IsTrimmed(s)
    ensures Strip(s) == s
  {
  }

  /** `strip()` is idempotent. */
  lemma StripIdempotent(s: string)
    ensures Strip(Strip(s)) == Strip(s)
  {
    StripTrimmed(Strip(s));
  }

  /** Python's `str.upper()` on one character, restricted to ASCII letters. */
  function UpperChar(c: char): char {
    if 'a' <= c <= 'z' then (c as int - 32) as char else c
  }

  /** Python's `s.upper()`, character by character. */
  function Upper(s: string): (r: string)
    ensures |r| == |s|
    ensures forall i :: 0 <= i < |s| ==> r[i] == UpperChar(s[i])
  {
    seq(|s|, i requires 0 <= i < |s| => UpperChar(s[i]))
  }

  lemma UpperAppend(a: string, b: string)
    ensures Upper(a + b) == Upper(a) + Upper(b)
  {
    assert forall i :: 0 <= i < |a + b| ==> Upper(a + b)[i] == (Upper(a) + Upper(b))[i];
  }

  /** `pat` occurs in `text` starting at index `i`. */
  predicate OccursAt(text: string, pat: string, i: int) {
    0 <= i && i + |pat| <= |text| && text[i..i + |pat|] == pat
  }

  /** Python's `pat in text`. */
  function Contains(text: string, pat: string): (b: bool)
    ensures b <==> exists i :: OccursAt(text, pat, i)
    decreases |text|
  {
    if |pat| > |text| then false
    else if text[..|pat|] == pat then assert OccursAt(text, pat, 0); true
    else
      assert forall i :: OccursAt(text[1..], pat, i) ==> OccursAt(text, pat, i + 1);
      assert forall i :: OccursAt(text, pat, i) ==> i == 0 || OccursAt(text[1..], pat, i - 1);
      Contains(text[1..], pat)
  }

  /** An occurrence inside a piece of a string is an occurrence in the whole. */
  lemma ContainsInfix(a: string, m: string, c: string, pat: string)
    requires Contains(m, pat)
    ensures Contains(a + m + c, pat)
  {
    var i :| OccursAt(m, pat, i);
    assert (a + m + c)[|a| + i..|a| + i + |pat|] == m[i..i + |pat|];
    assert OccursAt(a + m + c, pat, |a| + i);
  }

  /** An occurrence in a prefix is an occurrence in the whole. */
  lemma ContainsInPrefix(m: string, c: string, pat: string)
    requires Contains(m, pat)
    ensures Contains(m + c, pat)
  {
    ContainsInfix([], m, c, pat);
    assert [] + m + c == m + c;
  }

  /** An occurrence in a suffix is an occurrence in the whole. */
  lemma ContainsInSuffix(a: string, m: string, pat: string)
    requires Contains(m, pat)
    ensures Contains(a + m, pat)
  {
    ContainsInfix(a, m, [], pat);
    assert a + m + [] == a + m;
  }

  /** Every string occurs in itself. */
  lemma ContainsSelf(s: string)
    ensures Contains(s, s)
  {
    assert OccursAt(s, s, 0);
  }

  lemma UpperAppend3(a: string, m: string, c: string)
    ensures Upper(a + m + c) == Upper(a) + Upper(m) + Upper(c)
  {
    UpperAppend(a + m, c);
    UpperAppend(a, m);
  }

  /** Python's `s.replace(pat, '')`: occurrences of `pat` are found left to
      right without overlapping and deleted. */
  function RemoveAll(s: string, pat: string): (r: string)
    requires pat != []
    ensures |r| <= |s|
    ensures (forall i :: 0 <= i < |s| ==> s[i] != pat[0]) ==> r == s
    ensures |pat| == 1 ==> forall i :: 0 <= i < |r| ==> r[i] != pat[0]
    decreases |s|
  {
    if |pat| <= |s| && s[..|pat|] == pat then RemoveAll(s[|pat|..], pat)
    else if s == [] then []
    else [s[0]] + RemoveAll(s[1..], pat)
  }

  /** Deletion only removes characters: what is left comes from the input. */
  lemma {:induction false} RemoveAllChars(s: string, pat: string)
    requires pat != []
    ensures CharsWithin(RemoveAll(s, pat), s)
    decreases |s|
  {
    var r := RemoveAll(s, pat);
    if |pat| <= |s| && s[..|pat|] == pat {
      RemoveAllChars(s[|pat|..], pat);
      forall i | 0 <= i < |r| ensures r[i] in s {
        var j :| 0 <= j < |s[|pat|..]| && s[|pat|..][j] == r[i];
        assert s[|pat| + j] == r[i];
      }
    } else if s != [] {
      var t := RemoveAll(s[1..], pat);
      RemoveAllChars(s[1..], pat);
      forall i | 0 <= i < |r| ensures r[i] in s {
        if i == 0 {
          assert r[0] == s[0];
        } else {
          assert r[i] == t[i - 1];
          var j :| 0 <= j < |s[1..]| && s[1..][j] == t[i - 1];
          assert s[j + 1] == r[i];
        }
      }
    }
  }

  /** Deleting a single character distributes over concatenation: no
      occurrence can straddle the boundary. */
  lemma {:induction false} RemoveCharAppend(a: string, b: string, c: char)
    ensures RemoveAll(a + b, [c]) == RemoveAll(a, [c]) + RemoveAll(b, [c])
    decreases |a|
  {
    if a == [] {
      assert a + b == b;
    } else {
      assert (a + b)[1..] == a[1..] + b;
      assert (a + b)[..1] == a[..1];
      RemoveCharAppend(a[1..], b, c);
    }
  }

  /** Deleting a character drops it wherever it sits between two pieces. */
  lemma RemoveAroundChar(a: string, b: string, c: char)
    ensures RemoveAll(a + [c] + b, [c]) == RemoveAll(a, [c]) + RemoveAll(b, [c])
  {
    assert RemoveAll(a + [c], [c]) == RemoveAll(a, [c]) by {
      RemoveCharAppend(a, [c], c);
      assert RemoveAll([c], [c]) == [] by {
        assert [c][1..] == [];
      }
    }
    RemoveCharAppend(a + [c], b, c);
  }

  /** Deleting a character from a string whose outer pieces lack it only
      touches the middle piece. */
  lemma RemoveInside(pre: string, m: string, post: string, c: char)
    requires forall i :: 0 <= i < |pre| ==> pre[i] != c
    requires forall i :: 0 <= i < |post| ==> post[i] != c
    ensures RemoveAll(pre + m + post, [c]) == pre + RemoveAll(m, [c]) + post
  {
    RemoveCharAppend(pre + m, post, c);
    RemoveCharAppend(pre, m, c);
    assert RemoveAll(pre, [c]) == pre;
    assert RemoveAll(post, [c]) == post;
  }
}
