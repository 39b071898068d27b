/** The handful of Python `str` methods the cleaning script relies on:
    `split(sep)`, `strip()`, `replace(old, new)` and `lower()`, on strings
    modelled as `seq<char>`. */
module StringOps {

  import opened Seqs

  /** Python's `str.isspace` restricted to the Latin-1 range. */
  predicate IsSpace(c: char) {
    c == ' ' || ('\t' <= c <= '\r') || ('\U{1C}' <= c <= '\U{1F}') || c == '\U{85}' || c == '\U{A0}'
  }

  predicate AllSpace(s: string) {
    forall i :: 0 <= i < |s| ==> IsSpace(s[i])
  }

  /** `pat` occurs in `s` starting at position `i`. */
  predicate MatchAt(s: string, pat: string, i: int) {
    0 <= i && i + |pat| <= |s| && s[i..i + |pat|] == pat
  }

  /** Python's `pat in s`. */
  predicate Contains(s: string, pat: string) {
    exists i | 0 <= i <= |s| - |pat| :: MatchAt(s, pat, i)
  }

  // ---------------------------------------------------------------------
  // split / join

  /** Joins the parts with one separator between neighbours. */
  function Join(parts: seq<string>, sep: char): string
    requires |parts| >= 1
  {
    if |parts| == 1 then parts[0] else parts[0] + [sep] + Join(parts[1..], sep)
  }

  lemma JoinCons(h: string, t: seq<string>, sep: char)
    requires |t| >= 1
    ensures Join([h] + t, sep) == h + [sep] + Join(t, sep)
  {
    assert ([h] + t)[1..] == t;
  }

  /** Extending the first part extends the joined text at the front. */
  lemma JoinExtendHead(c: char, parts: seq<string>, sep: char)
    requires |parts| >= 1
    ensures Join([[c] + parts[0]] + parts[1..], sep) == [c] + Join(parts, sep)
  {
    if |parts| > 1 {
      JoinCons([c] + parts[0], parts[1..], sep);
      JoinCons(parts[0], parts[1..], sep);
      assert [parts[0]] + parts[1..] == parts;
    }
  }

  /** Python's `s.split(sep)` for a one-character separator: never empty,
      one more part than there are separators, no part holding a
      separator. */
  function Split(s: string, sep: char): (parts: seq<string>)
    ensures |parts| >= 1
    ensures forall i :: 0 <= i < |parts| ==> sep !in parts[i]
  {
    if |s| == 0 then [""]
    else
      var rest := Split(s[1..], sep);
      assert s == [s[0]] + s[1..];
      if s[0] == sep then
        var parts := [""] + rest;
        assert forall i :: 1 <= i < |parts| ==> parts[i] == rest[i - 1];
        parts
      else
        var parts := [[s[0]] + rest[0]] + rest[1..];
        assert forall i :: 1 <= i < |parts| ==> parts[i] == rest[i];
        parts
  }

  /** Joining the parts of a split gives the original text back. */
  lemma {:induction false} JoinSplit(s: string, sep: char)
    ensures Join(Split(s, sep), sep) == s
    decreases |s|
  {
    if |s| > 0 {
      JoinSplit(s[1..], sep);
      var rest := Split(s[1..], sep);
      if s[0] == sep {
        JoinCons("", rest, sep);
      } else {
        JoinExtendHead(s[0], rest, sep);
      }
      assert s == [s[0]] + s[1..];
    }
  }

  lemma SplitNoSeparator(s: string, sep: char)
    requires sep !in s
    ensures Split(s, sep) == [s]
  {
    assert multiset(s)[sep] == 0;
    JoinSplit(s, sep);
  }

  /** Splitting at the first separator. */
  lemma {:induction false} SplitFirst(a: string, sep: char, b: string)
    requires sep !in a
    ensures Split(a + [sep] + b, sep) == [a] + Split(b, sep)
    decreases |a|
  {
    var s := a + [sep] + b;
    if |a| == 0 {
      assert s[0] == sep && s[1..] == b;
    } else {
      SplitFirst(a[1..], sep, b);
      assert s[0] == a[0] && s[1..] == a[1..] + [sep] + b;
      var rest := Split(s[1..], sep);
      assert rest == [a[1..]] + Split(b, sep);
      assert [a[0]] + a[1..] == a;
      assert Split(s, sep) == [[a[0]] + rest[0]] + rest[1..];
    }
  }

  /** Split is a left inverse of Join on separator-free parts. */
  lemma {:induction false} SplitJoin(parts: seq<string>, sep: char)
    requires |parts| >= 1
    requires forall i :: 0 <= i < |parts| ==> sep !in parts[i]
    ensures Split(Join(parts, sep), sep) == parts
    decreases |parts|
  {
    if |parts| == 1 {
      SplitNoSeparator(parts[0], sep);
    } else {
      SplitJoin(parts[1..], sep);
      SplitFirst(parts[0], sep, Join(parts[1..], sep));
      assert [parts[0]] + parts[1..] == parts;
    }
  }

  /** The three-field case the date parser relies on. */
  lemma SplitThree(a: string, b: string, c: string, sep: char)
    requires sep !in a && sep !in b && sep !in c
    ensures Split(a + [sep] + b + [sep] + c, sep) == [a, b, c]
  {
    var bc := b + [sep] + c;
    SplitNoSeparator(c, sep);
    SplitFirst(b, sep, c);
    assert Split(bc, sep) == [b, c];
    assert a + [sep] + b + [sep] + c == a + [sep] + bc;
    SplitFirst(a, sep, bc);
    assert [a] + [b, c] == [a, b, c];
  }

  // ---------------------------------------------------------------------
  // strip

  function LeadingSpaces(s: string): (n: nat)
    ensures n <= |s|
    ensures forall i :: 0 <= i < n ==> IsSpace(s[i])
    ensures n < |s| ==> !IsSpace(s[n])
  {
    if |s| == 0 || !IsSpace(s[0]) then 0
    else 1 + LeadingSpaces(s[1..])
  }

  function TrailingSpaces(s: string): (n: nat)
    ensures n <= |s|
    ensures forall i :: |s| - n <= i < |s| ==> IsSpace(s[i])
    ensures n < |s| ==> !IsSpace(s[|s| - n - 1])
  {
    if |s| == 0 || !IsSpace(s[|s| - 1]) then 0
    else 1 + TrailingSpaces(s[..|s| - 1])
  }

  /** `r` is the infix of `s` starting at `i`, and only whitespace lies
      around it. */
  predicate TrimmedAt(s: string, r: string, i: int) {
    0 <= i <= |s| - |r| && r == s[i..i + |r|] &&
    (forall k :: 0 <= k < i ==> IsSpace(s[k])) &&
    (forall k :: i + |r| <= k < |s| ==> IsSpace(s[k]))
  }

  /** Python's `s.strip()`: an infix of `s` that neither starts nor ends
      with whitespace, with only whitespace cut on either side. */
  function Strip(s: string): (r: string)
    ensures r == [] || (!IsSpace(r[0]) && !IsSpace(r[|r| - 1]))
    ensures exists i :: TrimmedAt(s, r, i)
  {
    var lead := LeadingSpaces(s);
    if lead == |s| then
      assert TrimmedAt(s, [], |s|);
      []
    else
      var trail := TrailingSpaces(s);
      var r := s[lead..|s| - trail];
      assert TrimmedAt(s, r, lead);
      r
  }

  /** Whitespace-only trimming that leaves no whitespace at either end is
      exactly what `strip` computes. */
  lemma StripUnique(s: string, r: string, i: int)
    requires TrimmedAt(s, r, i)
    requires r == [] || (!IsSpace(r[0]) && !IsSpace(r[|r| - 1]))
    ensures Strip(s) == r
  {
    var t := Strip(s);
    var j :| TrimmedAt(s, t, j);
    if r != [] && t != [] {
      assert s[i] == r[0] && s[j] == t[0];
      assert s[i + |r| - 1] == r[|r| - 1] && s[j + |t| - 1] == t[|t| - 1];
    }
  }

  /** Whitespace around a string makes no difference to `strip`. */
  lemma StripPadded(a: string, z: string, b: string)
    requires AllSpace(a) && AllSpace(b)
    ensures Strip(a + z + b) == Strip(z)
  {
    var t := Strip(z);
    var m :| TrimmedAt(z, t, m);
    PaddedTrimmed(a, z, b, t, m);
    StripUnique(a + z + b, t, |a| + m);
  }

  lemma PaddedTrimmed(a: string, z: string, b: string, t: string, m: int)
    requires AllSpace(a) && AllSpace(b) && TrimmedAt(z, t, m)
    ensures TrimmedAt(a + z + b, t, |a| + m)
  {
    var s := a + z + b;
    forall k | 0 <= k < |s|
      ensures s[k] == if k < |a| then a[k] else if k < |a| + |z| then z[k - |a|] else b[k - |a| - |z|]
    {
    }
    assert s[|a| + m..|a| + m + |t|] == t;
  }

  /** What `strip` leaves is a subsequence of its input. */
  lemma StripSubsequence(s: string)
    ensures IsSubsequence(Strip(s), s)
  {
    var i :| TrimmedAt(s, Strip(s), i);
    SliceSubsequence(s, i, i + |Strip(s)|);
  }

  lemma StripUnpadded(s: string)
    requires s == [] || (!IsSpace(s[0]) && !IsSpace(s[|s| - 1]))
    ensures Strip(s) == s
  {
    assert s[0..|s|] == s;
  }

  // ---------------------------------------------------------------------
  // replace

  /** Python's `s.replace(c, "")` for one character. */
  function DeleteChar(s: string, c: char): (r: string)
    ensures c !in r
    ensures |r| <= |s|
  {
    if |s| == 0 then []
    else if s[0] == c then DeleteChar(s[1..], c) else [s[0]] + DeleteChar(s[1..], c)
  }

  lemma DeleteCharCons(x: char, s: string, c: char)
    ensures DeleteChar([x] + s, c) == (if x == c then [] else [x]) + DeleteChar(s, c)
  {
    assert ([x] + s)[1..] == s;
  }

  /** Deleting a character commutes with concatenation: the surviving
      characters keep their order. */
  lemma {:induction false} DeleteCharAppend(a: string, b: string, c: char)
    ensures DeleteChar(a + b, c) == DeleteChar(a, c) + DeleteChar(b, c)
    decreases |a|
  {
    if |a| == 0 {
      assert a + b == b;
    } else {
      DeleteCharAppend(a[1..], b, c);
      DeleteCharAppendStep(a[0], a[1..], b, c);
      assert [a[0]] + a[1..] == a;
    }
  }

  lemma DeleteCharAppendStep(x: char, a: string, b: string, c: char)
    requires DeleteChar(a + b, c) == DeleteChar(a, c) + DeleteChar(b, c)
    ensures DeleteChar([x] + a + b, c) == DeleteChar([x] + a, c) + DeleteChar(b, c)
  {
    assert [x] + a + b == [x] + (a + b);
    DeleteCharCons(x, a + b, c);
    DeleteCharCons(x, a, c);
    var da, db := DeleteChar(a, c), DeleteChar(b, c);
    if x != c {
      assert [x] + (da + db) == ([x] + da) + db;
    } else {
      assert [] + (da + db) == ([] + da) + db;
    }
  }

  /** What deletion leaves is a subsequence of its input. */
  lemma {:induction false} DeleteCharSubsequence(s: string, c: char)
    ensures IsSubsequence(DeleteChar(s, c), s)
    decreases |s|
  {
    if |s| > 0 {
      var r := DeleteChar(s[1..], c);
      DeleteCharSubsequence(s[1..], c);
      if s[0] != c {
        assert ([s[0]] + r)[1..] == r;
      } else if r != [] {
        assert IsSubsequence(r, s[1..]);
      }
    }
  }

  lemma {:induction false} DeleteCharAbsent(s: string, c: char)
    requires c !in s
    ensures DeleteChar(s, c) == s
    decreases |s|
  {
    if |s| > 0 {
      DeleteCharAbsent(s[1..], c);
      assert [s[0]] + s[1..] == s;
    }
  }

  /** Deletion removes exactly the deleted character: every other
      character survives, and nothing new appears. */
  lemma {:induction false} DeleteCharMembers(s: string, c: char, x: char)
    ensures x in DeleteChar(s, c) <==> x in s && x != c
    decreases |s|
  {
    if |s| > 0 {
      DeleteCharMembers(s[1..], c, x);
      assert x in s <==> x == s[0] || x in s[1..];
    }
  }

  /** Python's `s.replace(pat, "")`: one left-to-right pass that removes
      non-overlapping occurrences of `pat`, resuming after each removal. */
  function DeleteAll(s: string, pat: string): (r: string)
    requires |pat| > 0
    ensures |r| <= |s|
    ensures |s| < |pat| ==> r == s
    decreases |s|
  {
    if |s| < |pat| then s
    else if s[..|pat|] == pat then DeleteAll(s[|pat|..], pat)
    else [s[0]] + DeleteAll(s[1..], pat)
  }

  /** What the pass leaves is a subsequence of its input. */
  lemma {:induction false} DeleteAllSubsequence(s: string, pat: string)
    requires |pat| > 0
    ensures IsSubsequence(DeleteAll(s, pat), s)
    decreases |s|
  {
    if |s| < |pat| {
      SubsequenceReflexive(s);
    } else if s[..|pat|] == pat {
      DeleteAllSubsequence(s[|pat|..], pat);
      SubsequenceOfSuffix(DeleteAll(s[|pat|..], pat), s, |pat|);
    } else {
      var r := DeleteAll(s[1..], pat);
      DeleteAllSubsequence(s[1..], pat);
      assert ([s[0]] + r)[1..] == r;
    }
  }

  /** A subsequence of a suffix is a subsequence of the whole. */
  lemma {:induction false} SubsequenceOfSuffix(a: string, s: string, k: nat)
    requires k <= |s| && IsSubsequence(a, s[k..])
    ensures IsSubsequence(a, s)
    decreases k
  {
    if k > 0 {
      assert s[1..][k - 1..] == s[k..];
      SubsequenceOfSuffix(a, s[1..], k - 1);
    }
  }

  lemma MatchShift(s: string, pat: string, i: int)
    requires |s| > 0 && MatchAt(s[1..], pat, i)
    ensures MatchAt(s, pat, i + 1)
  {
    assert s[1..][i..i + |pat|] == s[i + 1..i + 1 + |pat|];
  }

  /** When `pat` does not start the text, it occurs in the text exactly
      when it occurs past the first character. */
  lemma ContainsPastHead(s: string, pat: string)
    requires |s| > 0 && !MatchAt(s, pat, 0)
    ensures Contains(s, pat) <==> Contains(s[1..], pat)
  {
    if Contains(s[1..], pat) {
      var i :| 0 <= i <= |s[1..]| - |pat| && MatchAt(s[1..], pat, i);
      MatchShift(s, pat, i);
    }
    if Contains(s, pat) {
      var i :| 0 <= i <= |s| - |pat| && MatchAt(s, pat, i);
      assert i > 0;
      assert s[1..][i - 1..i - 1 + |pat|] == s[i..i + |pat|];
      assert MatchAt(s[1..], pat, i - 1);
    }
  }

  /** The scan deletes something exactly when `pat` occurs: either an
      occurrence is matched before the scan reaches the first one, or the
      first one itself is. */
  lemma {:induction false} DeleteAllShrinks(s: string, pat: string)
    requires |pat| > 0
    ensures Contains(s, pat) ==> |DeleteAll(s, pat)| <= |s| - |pat|
    ensures !Contains(s, pat) ==> DeleteAll(s, pat) == s
    decreases |s|
  {
    if |s| >= |pat| {
      assert s[0..|pat|] == s[..|pat|];
      if s[..|pat|] != pat {
        assert !MatchAt(s, pat, 0);
        DeleteAllShrinks(s[1..], pat);
        ContainsPastHead(s, pat);
        assert [s[0]] + s[1..] == s;
      } else {
        assert MatchAt(s, pat, 0);
        DeleteAllSubsequence(s[|pat|..], pat);
        SubsequenceLength(DeleteAll(s[|pat|..], pat), s[|pat|..]);
      }
    } else {
      assert !Contains(s, pat);
    }
  }

  /** A character that cannot start a match is kept. */
  lemma DeleteAllCons(x: char, t: string, pat: string)
    requires |pat| > 0 && x != pat[0]
    ensures DeleteAll([x] + t, pat) == [x] + DeleteAll(t, pat)
  {
    var s := [x] + t;
    assert s[1..] == t;
    if |s| >= |pat| {
      assert s[..|pat|][0] != pat[0];
    } else {
      assert |t| < |pat|;
    }
  }

  /** A prefix that cannot start a match passes through untouched. */
  lemma {:induction false} DeleteAllSkip(a: string, b: string, pat: string)
    requires |pat| > 0 && pat[0] !in a
    ensures DeleteAll(a + b, pat) == a + DeleteAll(b, pat)
    decreases |a|
  {
    if |a| == 0 {
      assert a + b == b;
    } else {
      DeleteAllSkip(a[1..], b, pat);
      DeleteAllSkipStep(a[0], a[1..], b, pat);
      assert [a[0]] + a[1..] == a;
    }
  }

  lemma DeleteAllSkipStep(x: char, a: string, b: string, pat: string)
    requires |pat| > 0 && x != pat[0]
    requires DeleteAll(a + b, pat) == a + DeleteAll(b, pat)
    ensures DeleteAll([x] + a + b, pat) == [x] + a + DeleteAll(b, pat)
  {
    assert [x] + a + b == [x] + (a + b);
    DeleteAllCons(x, a + b, pat);
  }

  /** A suffix holding no character of `pat` passes through untouched:
      no occurrence can reach into it. */
  lemma {:induction false} DeleteAllTail(s: string, b: string, pat: string)
    requires |pat| > 0 && forall k :: 0 <= k < |b| ==> b[k] !in pat
    ensures DeleteAll(s + b, pat) == DeleteAll(s, pat) + b
    decreases |s|
  {
    var u := s + b;
    if |s| == 0 {
      assert pat[0] in pat;
      DeleteAllSkip(b, "", pat);
      assert u == b + "" && b + "" == b;
    } else if |u| < |pat| {
    } else if |s| >= |pat| {
      assert u[..|pat|] == s[..|pat|];
      if s[..|pat|] == pat {
        assert u[|pat|..] == s[|pat|..] + b;
        DeleteAllTail(s[|pat|..], b, pat);
      } else {
        assert u[1..] == s[1..] + b;
        DeleteAllTail(s[1..], b, pat);
      }
    } else {
      assert u[..|pat|] != pat by {
        assert u[..|pat|][|pat| - 1] == b[|pat| - 1 - |s|];
        assert pat[|pat| - 1] in pat;
      }
      assert u[1..] == s[1..] + b;
      DeleteAllTail(s[1..], b, pat);
      assert [s[0]] + s[1..] == s;
    }
  }

  /** A leading occurrence is removed and scanning resumes after it. */
  lemma DeleteAllLeadingMatch(b: string, pat: string)
    requires |pat| > 0
    ensures DeleteAll(pat + b, pat) == DeleteAll(b, pat)
  {
    assert (pat + b)[..|pat|] == pat;
    assert (pat + b)[|pat|..] == b;
  }

  /** A character missing from the text is missing after deletion. */
  lemma DeleteAllAbsentChar(s: string, pat: string, c: char)
    requires |pat| > 0 && c !in s
    ensures c !in DeleteAll(s, pat)
  {
    DeleteAllSubsequence(s, pat);
    SubsequenceMembers(DeleteAll(s, pat), s);
  }

  /** A character that `pat` does not hold is never deleted. */
  lemma {:induction false} DeleteAllKeeps(s: string, pat: string, x: char)
    requires |pat| > 0 && x in s && x !in pat
    ensures x in DeleteAll(s, pat)
    decreases |s|
  {
    if |s| >= |pat| {
      if s[..|pat|] == pat {
        var i :| 0 <= i < |s| && s[i] == x;
        assert forall k :: 0 <= k < |pat| ==> s[k] == s[..|pat|][k] && s[k] in pat;
        assert s[|pat|..][i - |pat|] == x;
        DeleteAllKeeps(s[|pat|..], pat, x);
      } else if s[0] != x {
        assert x in s[1..];
        DeleteAllKeeps(s[1..], pat, x);
      }
    }
  }

  /** Stripping keeps every character that is not whitespace, and adds
      none. */
  lemma StripMembers(s: string, x: char)
    ensures x in Strip(s) ==> x in s
    ensures x in s && !IsSpace(x) ==> x in Strip(s)
  {
    var r := Strip(s);
    var i :| TrimmedAt(s, r, i);
    if x in s && !IsSpace(x) {
      var j :| 0 <= j < |s| && s[j] == x;
      assert r[j - i] == x;
    }
    if x in r {
      var j :| 0 <= j < |r| && r[j] == x;
      assert s[i + j] == x;
    }
  }

  /** Python's `s.replace(a, b)` for one character replaced by one. */
  function ReplaceChar(s: string, a: char, b: char): (r: string)
    ensures |r| == |s|
    ensures a != b ==> a !in r
    ensures forall i :: 0 <= i < |s| && s[i] != a ==> r[i] == s[i]
    ensures forall i :: 0 <= i < |s| && s[i] == a ==> r[i] == b
  {
    seq(|s|, i requires 0 <= i < |s| => if s[i] == a then b else s[i])
  }

  predicate IsUpper(c: char) {
    'A' <= c <= 'Z'
  }

  /** `c.lower()` on the ASCII range; other characters are left alone. */
  function Lower(c: char): (d: char)
    ensures !IsUpper(d)
    ensures IsUpper(c) ==> d as int == c as int + 32
    ensures !IsUpper(c) ==> d == c
  {
    if IsUpper(c) then (c as int + 32) as char else c
  }

  /** Python's `s.lower()` restricted to ASCII letters. */
  function LowerText(s: string): (r: string)
    ensures |r| == |s|
    ensures forall i :: 0 <= i < |r| ==> !IsUpper(r[i])
    ensures forall i :: 0 <= i < |s| ==> r[i] == Lower(s[i])
  {
    seq(|s|, i requires 0 <= i < |s| => Lower(s[i]))
  }
}
