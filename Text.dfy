/** The .NET string operations the client relies on, with ordinal
    (culture-free) semantics: `Contains`, `Replace`, `Split`, `Trim` and an
    ASCII `ToLower`.  Strings are sequences of characters; no encoding is
    modelled. */
module Text {

  // ---------------------------------------------------------------------
  // Whitespace and trimming
  // ---------------------------------------------------------------------

  /** The fixed whitespace set used for `Trim`: space, the ASCII controls
      tab through carriage return, NEXT LINE and NO-BREAK SPACE. */
  predicate IsWhiteSpace(c: char)
  {
    c == ' ' || ('\t' <= c <= '\r') || c == '\U{85}' || c == '\U{A0}'
  }

  predicate AllWhiteSpace(s: string)
  {
    forall i :: 0 <= i < |s| ==> IsWhiteSpace(s[i])
  }

  /** A string with no whitespace at either end. */
  predicate Trimmed(t: string)
  {
    t == [] || (!IsWhiteSpace(t[0]) && !IsWhiteSpace(t[|t| - 1]))
  }

  function TrimStart(s: string): string
  {
    if |s| > 0 && IsWhiteSpace(s[0]) then TrimStart(s[1..]) else s
  }

  function TrimEnd(s: string): string
  {
    if |s| > 0 && IsWhiteSpace(s[|s| - 1]) then TrimEnd(s[..|s| - 1]) else s
  }

  /** `String.Trim()`: removes leading and trailing whitespace. */
  function Trim(s: string): string
  {
    TrimEnd(TrimStart(s))
  }

  lemma {:induction false} TrimStartShape(s: string) returns (i: nat)
    ensures i <= |s| && TrimStart(s) == s[i..] && AllWhiteSpace(s[..i])
    ensures TrimStart(s) == [] || !IsWhiteSpace(TrimStart(s)[0])
  {
    if |s| > 0 && IsWhiteSpace(s[0]) {
      var k := TrimStartShape(s[1..]);
      i := k + 1;
      assert s[1..][k..] == s[i..];
      assert s[..i] == [s[0]] + s[1..][..k];
    } else {
      i := 0;
    }
  }

  lemma {:induction false} TrimEndShape(s: string) returns (j: nat)
    ensures j <= |s| && TrimEnd(s) == s[..j] && AllWhiteSpace(s[j..])
    ensures TrimEnd(s) == [] || !IsWhiteSpace(TrimEnd(s)[|TrimEnd(s)| - 1])
  {
    if |s| > 0 && IsWhiteSpace(s[|s| - 1]) {
      var p := s[..|s| - 1];
      j := TrimEndShape(p);
      assert p[..j] == s[..j];
      assert s[j..] == p[j..] + [s[|s| - 1]];
    } else {
      j := |s|;
    }
  }

  /** `Trim(s)` is the infix of `s` left once the whitespace at both ends is
      cut off, and it has no whitespace at either end. */
  lemma TrimShape(s: string) returns (i: nat, j: nat)
    ensures i <= j <= |s| && Trim(s) == s[i..j]
    ensures AllWhiteSpace(s[..i]) && AllWhiteSpace(s[j..])
    ensures Trimmed(Trim(s))
  {
    i := TrimStartShape(s);
    var t := TrimStart(s);
    var k := TrimEndShape(t);
    j := i + k;
    assert t[..k] == s[i..j];
    assert s[j..] == t[k..];
    if Trim(s) != [] {
      assert Trim(s)[0] == t[0];
    }
  }

  lemma {:induction false} TrimStartOfPadded(a: string, t: string)
    requires AllWhiteSpace(a)
    requires t == [] || !IsWhiteSpace(t[0])
    ensures TrimStart(a + t) == t
  {
    if a != [] {
      assert (a + t)[1..] == a[1..] + t;
      TrimStartOfPadded(a[1..], t);
    } else {
      assert a + t == t;
    }
  }

  lemma {:induction false} TrimEndOfPadded(t: string, b: string)
    requires AllWhiteSpace(b)
    requires t == [] || !IsWhiteSpace(t[|t| - 1])
    ensures TrimEnd(t + b) == t
  {
    if b != [] {
      assert (t + b)[..|t + b| - 1] == t + b[..|b| - 1];
      TrimEndOfPadded(t, b[..|b| - 1]);
    } else {
      assert t + b == t;
    }
  }

  /** Trim undoes any whitespace padding: the trimmed core of a padded
      string is the string that was padded, whatever the padding. */
  lemma TrimOfPadded(a: string, t: string, b: string)
    requires AllWhiteSpace(a) && AllWhiteSpace(b) && Trimmed(t)
    ensures Trim(a + t + b) == t
  {
    if t == [] {
      assert a + t + b == a + b;
      assert AllWhiteSpace(a + b);
      AllWhiteSpaceTrimsToEmpty(a + b);
    } else {
      assert a + t + b == a + (t + b);
      TrimStartOfPadded(a, t + b);
      TrimEndOfPadded(t, b);
    }
  }

  lemma {:induction false} AllWhiteSpaceTrimsToEmpty(s: string)
    requires AllWhiteSpace(s)
    ensures TrimStart(s) == [] && Trim(s) == []
  {
    if s != [] {
      AllWhiteSpaceTrimsToEmpty(s[1..]);
    }
  }

  // ---------------------------------------------------------------------
  // Lower-casing
  // ---------------------------------------------------------------------

  function LowerChar(c: char): char
  {
    if 'A' <= c <= 'Z' then (c as int + 32) as char else c
  }

  /** `ToLower()`, restricted to ASCII letters. */
  function ToLower(s: string): (r: string)
    ensures |r| == |s|
  {
    seq(|s|, i requires 0 <= i < |s| => LowerChar(s[i]))
  }

  // ---------------------------------------------------------------------
  // Substring search
  // ---------------------------------------------------------------------

  predicate StartsWith(s: string, p: string)
  {
    |p| <= |s| && s[..|p|] == p
  }

  /** Ordinal `String.Contains(p)`. */
  predicate Contains(s: string, p: string)
    decreases |s|
  {
    StartsWith(s, p) || (s != [] && Contains(s[1..], p))
  }

  /** `p` occurs in `s` at position `i`. */
  predicate OccursAt(s: string, p: string, i: int)
  {
    0 <= i <= |s| - |p| && s[i..i + |p|] == p
  }

  /** `Contains` holds exactly when `p` occurs at some position of `s`. */
  lemma {:induction false} ContainsIff(s: string, p: string)
    ensures Contains(s, p) <==> exists i :: OccursAt(s, p, i)
    decreases |s|
  {
    if StartsWith(s, p) {
      assert OccursAt(s, p, 0);
    }
    if s != [] {
      ContainsIff(s[1..], p);
      if exists i :: OccursAt(s, p, i) {
        var i :| OccursAt(s, p, i);
        if i > 0 {
          assert s[1..][i - 1..i - 1 + |p|] == p;
          assert OccursAt(s[1..], p, i - 1);
        }
      }
      if Contains(s[1..], p) {
        var i :| OccursAt(s[1..], p, i);
        assert s[i + 1..i + 1 + |p|] == p;
        assert OccursAt(s, p, i + 1);
      }
    } else {
      if exists i :: OccursAt(s, p, i) {
        var i :| OccursAt(s, p, i);
        assert s[..|p|] == p;
      }
    }
  }

  /** An occurrence of `p` exists in `s` only if every character of `p`
      occurs in `s`. */
  lemma {:induction false} NotContainsMissingChar(s: string, p: string, c: char)
    requires c in p && c !in s
    ensures !Contains(s, p)
    decreases |s|
  {
    var k :| 0 <= k < |p| && p[k] == c;
    if |p| <= |s| {
      assert s[k] in s;
      assert s[..|p|][k] != p[k];
    }
    if s != [] {
      NotContainsMissingChar(s[1..], p, c);
    }
  }

  // ---------------------------------------------------------------------
  // Replace, Split and Join
  // ---------------------------------------------------------------------

  /** Ordinal `String.Replace(pat, rep)`: scans left to right and replaces
      every non-overlapping occurrence; `pat` is never empty in the client. */
  function Replace(s: string, pat: string, rep: string): string
    requires pat != []
    decreases |s|
  {
    if |s| < |pat| then s
    else if s[..|pat|] == pat then rep + Replace(s[|pat|..], pat, rep)
    else [s[0]] + Replace(s[1..], pat, rep)
  }

  function SplitFrom(s: string, sep: string, current: string): (r: seq<string>)
    requires sep != []
    ensures |r| >= 1
    decreases |s|
  {
    if |s| < |sep| then [current + s]
    else if s[..|sep|] == sep then [current] + SplitFrom(s[|sep|..], sep, [])
    else SplitFrom(s[1..], sep, current + [s[0]])
  }

  /** Ordinal `String.Split(sep)`: the pieces between the non-overlapping
      occurrences of `sep`, found left to right, empty pieces kept. */
  function Split(s: string, sep: string): (r: seq<string>)
    requires sep != []
  {
    SplitFrom(s, sep, [])
  }

  /** `String.Join(sep, parts)`. */
  function Join(parts: seq<string>, sep: string): string
    requires |parts| >= 1
    decreases |parts|
  {
    if |parts| == 1 then parts[0] else parts[0] + sep + Join(parts[1..], sep)
  }

  lemma {:induction false} SplitFromJoin(s: string, pat: string, rep: string, current: string)
    requires pat != []
    ensures Join(SplitFrom(s, pat, current), rep) == current + Replace(s, pat, rep)
    decreases |s|
  {
    if |s| < |pat| {
    } else if s[..|pat|] == pat {
      var tail := SplitFrom(s[|pat|..], pat, []);
      SplitFromJoin(s[|pat|..], pat, rep, []);
      assert ([current] + tail)[1..] == tail;
      assert [] + Replace(s[|pat|..], pat, rep) == Replace(s[|pat|..], pat, rep);
    } else {
      SplitFromJoin(s[1..], pat, rep, current + [s[0]]);
    }
  }

  /** `Replace` agrees with `Join` over `Split`, and no piece of that
      split contains `pat`: every occurrence of `pat`, not only a leading
      one, is replaced, and the text between occurrences is kept. */
  lemma ReplaceIsJoinOfSplit(s: string, pat: string, rep: string)
    requires pat != []
    ensures Replace(s, pat, rep) == Join(Split(s, pat), rep)
    ensures forall k :: 0 <= k < |Split(s, pat)| ==> !Contains(Split(s, pat)[k], pat)
  {
    SplitFromJoin(s, pat, rep, []);
    SplitPieces(s, pat);
  }

  /** Deleting occurrences never makes a string longer. */
  lemma {:induction false} ReplaceByEmptyShortens(s: string, pat: string)
    requires pat != []
    ensures |Replace(s, pat, "")| <= |s|
    decreases |s|
  {
    if |s| >= |pat| {
      if s[..|pat|] == pat {
        ReplaceByEmptyShortens(s[|pat|..], pat);
      } else {
        ReplaceByEmptyShortens(s[1..], pat);
      }
    }
  }

  lemma {:induction false} ReplaceWithItself(s: string, pat: string)
    requires pat != []
    ensures Replace(s, pat, pat) == s
    decreases |s|
  {
    if |s| < |pat| {
    } else if s[..|pat|] == pat {
      ReplaceWithItself(s[|pat|..], pat);
      assert s == s[..|pat|] + s[|pat|..];
    } else {
      ReplaceWithItself(s[1..], pat);
      assert s == [s[0]] + s[1..];
    }
  }

  /** Joining the pieces of a split with the separator gives back the
      string that was split. */
  lemma JoinSplitRoundTrip(s: string, sep: string)
    requires sep != []
    ensures Join(Split(s, sep), sep) == s
  {
    ReplaceIsJoinOfSplit(s, sep, sep);
    ReplaceWithItself(s, sep);
  }

  /** A string with no occurrence of `pat` is left as it is. */
  lemma {:induction false} ReplaceAbsent(s: string, pat: string, rep: string)
    requires pat != [] && !Contains(s, pat)
    ensures Replace(s, pat, rep) == s
    decreases |s|
  {
    if |s| >= |pat| {
      ReplaceAbsent(s[1..], pat, rep);
      assert s == [s[0]] + s[1..];
    }
  }

  /** Occurrences in the tail of a string are those of the string,
      shifted by one. */
  lemma OccursAtTail(s: string, p: string, i: nat)
    requires s != []
    ensures OccursAt(s[1..], p, i) <==> OccursAt(s, p, i + 1)
  {
    if i + |p| <= |s| - 1 {
      assert s[1..][i..i + |p|] == s[i + 1..i + 1 + |p|];
    }
  }

  /** A prefix in which no occurrence of `pat` starts is kept as it is. */
  lemma {:induction false} ReplaceSkipsPrefix(x: string, z: string, pat: string, rep: string)
    requires pat != []
    requires forall i :: 0 <= i < |x| ==> !OccursAt(x + z, pat, i)
    ensures Replace(x + z, pat, rep) == x + Replace(z, pat, rep)
    decreases |x|
  {
    var s := x + z;
    if x == [] {
      assert s == z;
    } else if |s| < |pat| {
      assert Replace(z, pat, rep) == z;
    } else {
      assert !OccursAt(s, pat, 0);
      assert s[1..] == x[1..] + z;
      forall i | 0 <= i < |x[1..]|
        ensures !OccursAt(x[1..] + z, pat, i)
      {
        assert !OccursAt(s, pat, i + 1);
        OccursAtTail(s, pat, i);
      }
      ReplaceSkipsPrefix(x[1..], z, pat, rep);
      assert x == [x[0]] + x[1..];
    }
  }

  /** A leading occurrence is replaced and the scan goes on after it. */
  lemma ReplaceLeading(pat: string, rest: string, rep: string)
    requires pat != []
    ensures Replace(pat + rest, pat, rep) == rep + Replace(rest, pat, rep)
  {
    assert (pat + rest)[..|pat|] == pat;
    assert (pat + rest)[|pat|..] == rest;
  }

  function Count(s: string, c: char): nat
  {
    if s == [] then 0 else (if s[0] == c then 1 else 0) + Count(s[1..], c)
  }

  lemma {:induction false} SplitFromCharCount(s: string, c: char, current: string)
    ensures |SplitFrom(s, [c], current)| == Count(s, c) + 1
    decreases |s|
  {
    if s != [] {
      SplitFromCharCount(s[1..], c, if s[0] == c then [] else current + [s[0]]);
    }
  }

  /** Splitting on one character yields one more piece than there are
      occurrences of it. */
  lemma SplitCharCount(s: string, c: char)
    ensures |Split(s, [c])| == Count(s, c) + 1
  {
    SplitFromCharCount(s, c, []);
  }

  /** A prefix of `t` in which no occurrence of `sep` starts before
      position `m - |sep| + 1` does not contain `sep`. */
  lemma PrefixFree(t: string, sep: string, m: nat)
    requires sep != [] && m <= |t|
    requires forall i :: 0 <= i < m - |sep| + 1 ==> !OccursAt(t, sep, i)
    ensures !Contains(t[..m], sep)
  {
    forall i
      ensures !OccursAt(t[..m], sep, i)
    {
      if 0 <= i <= m - |sep| {
        assert t[..m][i..i + |sep|] == t[i..i + |sep|];
        assert !OccursAt(t, sep, i);
      }
    }
    ContainsIff(t[..m], sep);
  }

  lemma {:induction false} SplitFromPieces(s: string, sep: string, current: string)
    requires sep != []
    requires forall i :: 0 <= i < |current| ==> !OccursAt(current + s, sep, i)
    ensures forall k :: 0 <= k < |SplitFrom(s, sep, current)| ==> !Contains(SplitFrom(s, sep, current)[k], sep)
    decreases |s|
  {
    var t := current + s;
    if |s| < |sep| {
      PrefixFree(t, sep, |t|);
      assert t[..|t|] == t;
    } else if s[..|sep|] == sep {
      PrefixFree(t, sep, |current|);
      assert t[..|current|] == current;
      SplitFromPieces(s[|sep|..], sep, []);
    } else {
      assert t[|current|..|current| + |sep|] == s[..|sep|];
      assert current + [s[0]] + s[1..] == t;
      SplitFromPieces(s[1..], sep, current + [s[0]]);
    }
  }

  /** No piece of a split contains the separator: the pieces are cut at
      every occurrence, not only at some. */
  lemma SplitPieces(s: string, sep: string)
    requires sep != []
    ensures forall k :: 0 <= k < |Split(s, sep)| ==> !Contains(Split(s, sep)[k], sep)
  {
    SplitFromPieces(s, sep, []);
  }

  /** A string that does not contain the one-character string `[c]` has
      no `c` in it. */
  lemma CharNotContained(x: string, c: char)
    requires !Contains(x, [c])
    ensures c !in x
  {
    ContainsIff(x, [c]);
    forall j | 0 <= j < |x|
      ensures x[j] != c
    {
      assert x[j..j + 1] == [x[j]];
      assert !OccursAt(x, [c], j);
    }
  }

  /** No piece of a split on one character contains that character. */
  lemma SplitCharPieces(s: string, c: char)
    ensures forall k :: 0 <= k < |Split(s, [c])| ==> c !in Split(s, [c])[k]
  {
    SplitPieces(s, [c]);
    forall k | 0 <= k < |Split(s, [c])|
      ensures c !in Split(s, [c])[k]
    {
      CharNotContained(Split(s, [c])[k], c);
    }
  }

  /** Splitting `x + [c] + y` on `c`, where `x` has no `c`, gives `x`
      followed by the pieces of `y`. */
  lemma {:induction false} SplitCharAt(x: string, c: char, y: string, current: string)
    requires c !in x
    ensures SplitFrom(x + [c] + y, [c], current) == [current + x] + SplitFrom(y, [c], [])
    decreases |x|
  {
    var s := x + [c] + y;
    if x == [] {
      assert s == [c] + y;
      assert s[..1] == [c];
      assert s[1..] == y;
      assert current + x == current;
    } else {
      assert s[0] == x[0] && s[..1][0] == x[0];
      assert s[..1] != [c];
      assert s[1..] == x[1..] + [c] + y;
      SplitCharAt(x[1..], c, y, current + [x[0]]);
      assert current + [x[0]] + x[1..] == current + x;
    }
  }

  /** A string without the separator character is one piece. */
  lemma {:induction false} SplitCharAbsent(s: string, c: char, current: string)
    requires c !in s
    ensures SplitFrom(s, [c], current) == [current + s]
    decreases |s|
  {
    if s != [] {
      assert s[0] in s && s[..1][0] == s[0];
      assert s[..1] != [c];
      SplitCharAbsent(s[1..], c, current + [s[0]]);
      assert current + [s[0]] + s[1..] == current + s;
    }
  }

  /** Replacing a one-character pattern: the text before its first
      occurrence is kept and the scan goes on after it. */
  lemma {:induction false} ReplaceCharAt(x: string, c: char, y: string, rep: string)
    requires c !in x
    ensures Replace(x + [c] + y, [c], rep) == x + rep + Replace(y, [c], rep)
    decreases |x|
  {
    var s := x + [c] + y;
    if x == [] {
      assert s == [c] + y;
      assert s[..1] == [c] && s[1..] == y;
    } else {
      assert s[0] == x[0] && s[..1][0] == x[0];
      assert s[..1] != [c];
      assert s[1..] == x[1..] + [c] + y;
      ReplaceCharAt(x[1..], c, y, rep);
      assert [x[0]] + (x[1..] + rep + Replace(y, [c], rep)) == x + rep + Replace(y, [c], rep);
    }
  }
}
