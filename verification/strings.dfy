/** The JavaScript string operations the chat client is built from
  (`startsWith`, `includes`, a global `replace` of a fixed pattern,
  `split`, `join` and `trim`), stated over `seq<char>`. */
module Strings {

  /** ECMAScript LineTerminator: LF, CR, LINE SEPARATOR, PARAGRAPH SEPARATOR.
    These are the characters a regular expression's `.` does not match and
    after (before) which a multiline `^` (`$`) matches. */
  predicate IsLineTerminator(c: char) {
    c == '\n' || c == '\r' || c == '\U{2028}' || c == '\U{2029}'
  }

  /** A line begins at offset `k` of `s`: there a multiline `^` matches. */
  predicate LineStartAt(s: string, k: int) {
    0 <= k <= |s| && (k == 0 || IsLineTerminator(s[k - 1]))
  }

  /** The characters `String.prototype.trim` removes and `\s` matches:
    ECMAScript WhiteSpace (TAB, VT, FF, ZWNBSP and every space separator
    of category Zs) and LineTerminator. */
  predicate IsWhitespace(c: char) {
    || c == '\t' || c == '\U{000B}' || c == '\U{000C}' || c == '\U{FEFF}'
    || c == ' ' || c == '\U{00A0}' || c == '\U{1680}' || ('\U{2000}' <= c <= '\U{200A}')
    || c == '\U{202F}' || c == '\U{205F}' || c == '\U{3000}'
    || IsLineTerminator(c)
  }

  /** `s.startsWith(p)` */
  predicate StartsWith(s: string, p: string) {
    |p| <= |s| && s[..|p|] == p
  }

  /** `p` occurs in `s` at offset `i`. */
  predicate OccursAt(s: string, p: string, i: int) {
    0 <= i && i + |p| <= |s| && s[i..i + |p|] == p
  }

  /** `s.includes(p)` */
  predicate Contains(s: string, p: string) {
    exists i | 0 <= i <= |s| - |p| :: OccursAt(s, p, i)
  }

  /** The length of the longest prefix of `t` all of whose characters satisfy `f`. */
  function SpanLength(t: string, f: char -> bool): (n: nat)
    ensures n <= |t|
    ensures forall k :: 0 <= k < n ==> f(t[k])
    ensures n == |t| || !f(t[n])
  {
    if t == [] || !f(t[0]) then 0 else 1 + SpanLength(t[1..], f)
  }

  lemma StartsWithOccurs(s: string, p: string)
    ensures StartsWith(s, p) <==> OccursAt(s, p, 0)
  {
  }

  /** `includes` scans from the left: an occurrence is at the start or in the tail. */
  lemma ContainsStep(s: string, p: string)
    ensures Contains(s, p) <==> StartsWith(s, p) || (s != [] && Contains(s[1..], p))
  {
    if Contains(s, p) && !StartsWith(s, p) {
      var i :| 0 <= i <= |s| - |p| && OccursAt(s, p, i);
      assert i != 0;
      assert s[1..][i - 1..i - 1 + |p|] == s[i..i + |p|];
      assert OccursAt(s[1..], p, i - 1);
    }
    if s != [] && Contains(s[1..], p) {
      var i :| 0 <= i <= |s[1..]| - |p| && OccursAt(s[1..], p, i);
      assert s[1..][i..i + |p|] == s[i + 1..i + 1 + |p|];
      assert OccursAt(s, p, i + 1);
    }
    if StartsWith(s, p) {
      assert OccursAt(s, p, 0);
    }
  }

  /** An occurrence inside a slice is an occurrence in the whole string. */
  lemma ContainsSlice(s: string, lo: int, hi: int, p: string)
    requires 0 <= lo <= hi <= |s|
    ensures Contains(s[lo..hi], p) ==> Contains(s, p)
  {
    if Contains(s[lo..hi], p) {
      var i :| 0 <= i <= |s[lo..hi]| - |p| && OccursAt(s[lo..hi], p, i);
      var t := s[lo..hi];
      forall k | 0 <= k < |p| ensures s[lo + i..lo + i + |p|][k] == p[k] {
        assert t[i..i + |p|][k] == p[k];
        assert t[i + k] == s[lo + i + k];
      }
      assert s[lo + i..lo + i + |p|] == p;
      assert OccursAt(s, p, lo + i);
    }
  }

  lemma ContainsAppend(a: string, b: string, p: string)
    ensures Contains(a, p) ==> Contains(a + b, p)
    ensures Contains(b, p) ==> Contains(a + b, p)
  {
    assert (a + b)[..|a|] == a;
    assert (a + b)[|a|..|a + b|] == b;
    ContainsSlice(a + b, 0, |a|, p);
    ContainsSlice(a + b, |a|, |a + b|, p);
  }

  /** An occurrence in a prefix is an occurrence in the whole. */
  lemma ContainsInPrefix(s: string, t: string, p: string)
    requires StartsWith(s, t)
    ensures Contains(t, p) ==> Contains(s, p)
  {
    assert s[0..|t|] == t;
    ContainsSlice(s, 0, |t|, p);
  }

  lemma ContainsItself(a: string, p: string, b: string)
    ensures Contains(a + p + b, p)
  {
    assert (a + p + b)[|a|..|a| + |p|] == p;
    assert OccursAt(a + p + b, p, |a|);
  }

  /** An occurrence of `p + q` contains an occurrence of `p`. */
  lemma ContainsPrefixOfPattern(s: string, p: string, q: string)
    ensures Contains(s, p + q) ==> Contains(s, p)
  {
    if Contains(s, p + q) {
      var i :| 0 <= i <= |s| - |p + q| && OccursAt(s, p + q, i);
      assert s[i..i + |p|] == (p + q)[..|p|] == p;
      assert OccursAt(s, p, i);
    }
  }

  /** Every character of an occurring pattern is a character of the string. */
  lemma ContainsChars(s: string, p: string)
    ensures Contains(s, p) ==> forall c :: c in p ==> c in s
  {
    if Contains(s, p) {
      var i :| 0 <= i <= |s| - |p| && OccursAt(s, p, i);
      forall c | c in p ensures c in s {
        var k :| 0 <= k < |p| && p[k] == c;
        assert s[i + k] == p[k];
      }
    }
  }

  /** A one-character pattern occurs exactly when the character does. */
  lemma ContainsChar(s: string, c: char)
    ensures Contains(s, [c]) <==> c in s
  {
    ContainsChars(s, [c]);
    if c in s {
      var k :| 0 <= k < |s| && s[k] == c;
      assert s[k..k + 1] == [c];
      assert OccursAt(s, [c], k);
    }
  }

  /** A two-character pattern occurs across a concatenation exactly when it
    occurs in one part or straddles the seam. */
  lemma ContainsPairAppend(a: string, b: string, x: char, y: char)
    ensures Contains(a + b, [x, y]) <==>
      Contains(a, [x, y]) || Contains(b, [x, y]) || (a != [] && b != [] && a[|a| - 1] == x && b[0] == y)
  {
    var s := a + b;
    ContainsAppend(a, b, [x, y]);
    if Contains(s, [x, y]) {
      var i :| 0 <= i <= |s| - 2 && OccursAt(s, [x, y], i);
      assert s[i] == x && s[i + 1] == y by { assert s[i..i + 2] == [x, y]; }
      if i + 1 < |a| {
        assert a[i..i + 2] == [x, y];
        assert OccursAt(a, [x, y], i);
      } else if i >= |a| {
        assert b[i - |a|..i - |a| + 2] == [x, y];
        assert OccursAt(b, [x, y], i - |a|);
      } else {
        assert a[|a| - 1] == x && b[0] == y;
      }
    }
    if a != [] && b != [] && a[|a| - 1] == x && b[0] == y {
      assert s[|a| - 1..|a| + 1] == [x, y];
      assert OccursAt(s, [x, y], |a| - 1);
    }
  }

  /** A string without the character `x` holds no pair beginning with `x`. */
  lemma NoPairWithout(s: string, x: char, y: char)
    requires x !in s
    ensures !Contains(s, [x, y])
  {
    ContainsChars(s, [x, y]);
  }

  /** `s.replace(/pat/g, rep)` for a pattern matching one fixed string:
    matches are found left to right and never overlap. */
  function ReplaceAll(s: string, pat: string, rep: string): (r: string)
    requires pat != []
    ensures !Contains(s, pat) ==> r == s
    decreases |s|
  {
    if s == [] then []
    else
      ContainsStep(s, pat);
      if StartsWith(s, pat) then rep + ReplaceAll(s[|pat|..], pat, rep)
      else
        assert s == [s[0]] + s[1..];
        [s[0]] + ReplaceAll(s[1..], pat, rep)
  }

  /** `parts.join(sep)` */
  function Join(parts: seq<string>, sep: string): string {
    if |parts| == 0 then []
    else if |parts| == 1 then parts[0]
    else parts[0] + sep + Join(parts[1..], sep)
  }

  /** `s.split(sep)` for a non-empty string separator: separators are found
    left to right and never overlap; the pieces are what lies between them. */
  function Split(s: string, sep: string): (r: seq<string>)
    requires sep != []
    ensures |r| >= 1
    ensures StartsWith(s, r[0])
    ensures forall k :: 0 <= k < |r| ==> !Contains(r[k], sep)
    decreases |s|
  {
    if s == [] then [[]]
    else if StartsWith(s, sep) then [[]] + Split(s[|sep|..], sep)
    else
      var rest := Split(s[1..], sep);
      var head := [s[0]] + rest[0];
      assert StartsWith(s, head) by {
        assert s == [s[0]] + s[1..];
      }
      assert !Contains(head, sep) by {
        ContainsStep(head, sep);
        assert head[1..] == rest[0];
      }
      [head] + rest[1..]
  }

  /** Where the string does not start with the separator, its first
    character joins the first piece of the rest's split. */
  lemma SplitStep(s: string, sep: string)
    requires sep != [] && s != [] && !StartsWith(s, sep)
    ensures var rest := Split(s[1..], sep);
      Split(s, sep) == [[s[0]] + rest[0]] + rest[1..]
  {
  }

  /** Joining after putting a character in front of the first piece puts
    it in front of the join. */
  lemma JoinConsHead(c: char, ps: seq<string>, sep: string)
    requires |ps| >= 1
    ensures Join([[c] + ps[0]] + ps[1..], sep) == [c] + Join(ps, sep)
  {
    var qs := [[c] + ps[0]] + ps[1..];
    if |ps| > 1 {
      assert qs[1..] == ps[1..];
      assert Join(qs, sep) == ([c] + ps[0]) + sep + Join(ps[1..], sep);
    }
  }

  /** Joining the pieces of a split with the same separator gives back the string. */
  lemma {:induction false} JoinSplit(s: string, sep: string)
    requires sep != []
    ensures Join(Split(s, sep), sep) == s
    decreases |s|
  {
    if s == [] {
    } else if StartsWith(s, sep) {
      JoinSplit(s[|sep|..], sep);
      assert s == sep + s[|sep|..];
    } else {
      var rest := Split(s[1..], sep);
      SplitStep(s, sep);
      JoinSplit(s[1..], sep);
      JoinConsHead(s[0], rest, sep);
      assert s == [s[0]] + s[1..];
    }
  }

  /** Where the string starts with the pattern, the replacement comes
    first and the replace goes on after the occurrence. */
  lemma ReplaceAllAtMatch(s: string, pat: string, rep: string)
    requires pat != [] && StartsWith(s, pat)
    ensures ReplaceAll(s, pat, rep) == rep + ReplaceAll(s[|pat|..], pat, rep)
  {
  }

  /** Elsewhere the first character is kept. */
  lemma ReplaceAllAtOther(s: string, pat: string, rep: string)
    requires pat != [] && s != [] && !StartsWith(s, pat)
    ensures ReplaceAll(s, pat, rep) == [s[0]] + ReplaceAll(s[1..], pat, rep)
  {
  }

  /** Where the string starts with the separator, the first piece is empty. */
  lemma SplitAtSeparator(s: string, sep: string)
    requires sep != [] && s != [] && StartsWith(s, sep)
    ensures Split(s, sep) == [[]] + Split(s[|sep|..], sep)
  {
  }

  /** Joining after an empty first piece puts the separator in front. */
  lemma JoinEmptyHead(ps: seq<string>, sep: string)
    requires |ps| >= 1
    ensures Join([[]] + ps, sep) == sep + Join(ps, sep)
  {
    assert ([[]] + ps)[1..] == ps;
  }

  /** A global replace puts `rep` where each occurrence was and keeps the
    text between occurrences: it is splitting at the pattern and joining
    with the replacement. */
  lemma {:induction false} ReplaceAllIsSplitJoin(s: string, pat: string, rep: string)
    requires pat != []
    ensures ReplaceAll(s, pat, rep) == Join(Split(s, pat), rep)
    decreases |s|
  {
    if s == [] {
    } else if StartsWith(s, pat) {
      ReplaceAllAtMatch(s, pat, rep);
      SplitAtSeparator(s, pat);
      ReplaceAllIsSplitJoin(s[|pat|..], pat, rep);
      JoinEmptyHead(Split(s[|pat|..], pat), rep);
    } else {
      ReplaceAllAtOther(s, pat, rep);
      SplitStep(s, pat);
      ReplaceAllIsSplitJoin(s[1..], pat, rep);
      JoinConsHead(s[0], Split(s[1..], pat), rep);
    }
  }

  /** A string without the separator splits into itself alone. */
  lemma {:induction false} SplitWithout(s: string, sep: string)
    requires sep != [] && !Contains(s, sep)
    ensures Split(s, sep) == [s]
    decreases |s|
  {
    if s != [] {
      ContainsStep(s, sep);
      SplitWithout(s[1..], sep);
      assert s == [s[0]] + s[1..];
    }
  }

  /** A piece followed by the separator is split off exactly when the
    separator first occurs where the piece ends. */
  lemma {:induction false} SplitAfterPiece(p: string, sep: string, rest: string)
    requires sep != [] && !Contains(p + sep[..|sep| - 1], sep)
    ensures Split(p + sep + rest, sep) == [p] + Split(rest, sep)
    decreases |p|
  {
    var s := p + sep + rest;
    if p == [] {
      assert s == sep + rest;
      assert s[|sep|..] == rest;
    } else {
      var q := p + sep[..|sep| - 1];
      assert !StartsWith(s, sep) by {
        if StartsWith(s, sep) {
          assert q[..|sep|] == s[..|sep|];
          assert OccursAt(q, sep, 0);
        }
      }
      ContainsStep(q, sep);
      assert q[1..] == p[1..] + sep[..|sep| - 1];
      SplitAfterPiece(p[1..], sep, rest);
      assert s[1..] == p[1..] + sep + rest;
      assert [s[0]] + p[1..] == p;
    }
  }

  /** Splitting a joined list gives it back, provided no piece contains the
    separator and no piece runs into the separator that follows it. */
  lemma {:induction false} SplitJoin(ps: seq<string>, sep: string)
    requires sep != [] && |ps| >= 1
    requires forall k :: 0 <= k < |ps| ==> !Contains(ps[k], sep)
    requires forall k :: 0 <= k < |ps| - 1 ==> !Contains(ps[k] + sep[..|sep| - 1], sep)
    ensures Split(Join(ps, sep), sep) == ps
    decreases |ps|
  {
    if |ps| == 1 {
      SplitWithout(ps[0], sep);
    } else {
      SplitJoin(ps[1..], sep);
      SplitAfterPiece(ps[0], sep, Join(ps[1..], sep));
      assert [ps[0]] + ps[1..] == ps;
    }
  }

  /** Splitting on one character gives one more piece than there are copies of it. */
  lemma {:induction false} SplitCharCount(s: string, c: char)
    ensures |Split(s, [c])| == multiset(s)[c] + 1
    decreases |s|
  {
    if s != [] {
      assert s == [s[0]] + s[1..];
      assert multiset(s) == multiset([s[0]]) + multiset(s[1..]);
      SplitCharCount(s[1..], c);
      if StartsWith(s, [c]) {
        assert s[0] == c;
      } else {
        assert s[..1] == [s[0]];
      }
    }
  }

  /** Number of leading whitespace characters. */
  function LeadingWhitespace(s: string): (n: nat)
    ensures n <= |s|
    ensures forall k :: 0 <= k < n ==> IsWhitespace(s[k])
    ensures n == |s| || !IsWhitespace(s[n])
  {
    SpanLength(s, IsWhitespace)
  }

  /** Number of trailing whitespace characters. */
  function TrailingWhitespace(s: string): (n: nat)
    ensures n <= |s|
    ensures forall k :: |s| - n <= k < |s| ==> IsWhitespace(s[k])
    ensures n == |s| || !IsWhitespace(s[|s| - 1 - n])
  {
    if s == [] || !IsWhitespace(s[|s| - 1]) then 0 else 1 + TrailingWhitespace(s[..|s| - 1])
  }

  /** `s.trim()`: the string between the leading and the trailing whitespace. */
  function Trim(s: string): (r: string)
    ensures LeadingWhitespace(s) + |r| <= |s|
    ensures r == s[LeadingWhitespace(s)..LeadingWhitespace(s) + |r|]
    ensures forall k :: 0 <= k < LeadingWhitespace(s) ==> IsWhitespace(s[k])
    ensures forall k :: LeadingWhitespace(s) + |r| <= k < |s| ==> IsWhitespace(s[k])
    ensures r != [] ==> !IsWhitespace(r[0]) && !IsWhitespace(r[|r| - 1])
    ensures r == [] <==> forall k :: 0 <= k < |s| ==> IsWhitespace(s[k])
  {
    var lead := LeadingWhitespace(s);
    var inner := s[lead..];
    var trail := TrailingWhitespace(inner);
    assert trail < |inner| ==> inner[0] == s[lead];
    inner[..|inner| - trail]
  }
}
