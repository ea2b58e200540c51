/** The `.env.local` update the agent-setup script performs once an agent
  has been created: point `LETTA_AGENT_ID` at the new agent and add the
  API key if the file does not have one yet. */
module SetupAgent {
  import opened Strings

  const AGENT_ASSIGNMENT: string := "LETTA_AGENT_ID="
  const KEY_ASSIGNMENT: string := "LETTA_API_KEY="

  predicate NotLineTerminator(c: char) {
    !IsLineTerminator(c)
  }

  /** `s` holds no line terminator. */
  predicate OneLine(s: string) {
    forall k :: 0 <= k < |s| ==> !IsLineTerminator(s[k])
  }

  /** A non-empty literal pattern that stays on one line. */
  predicate LinePattern(p: string) {
    p != [] && OneLine(p)
  }

  // ---------------------------------------------------------------------
  // The global replace of `p.*` (a literal `p`, then the rest of the line)

  /** How far `.*` reaches: the length of the longest prefix without a line terminator. */
  function RestOfLine(t: string): (n: nat)
    ensures n <= |t|
    ensures n == |t| || IsLineTerminator(t[n])
  {
    if t == [] || IsLineTerminator(t[0]) then 0 else 1 + RestOfLine(t[1..])
  }

  /** What `.*` takes holds no line terminator. */
  lemma {:induction false} RestOfLineIsOneLine(t: string)
    ensures OneLine(t[..RestOfLine(t)])
  {
    if t != [] && !IsLineTerminator(t[0]) {
      RestOfLineIsOneLine(t[1..]);
      var n := RestOfLine(t);
      assert t[..n] == [t[0]] + t[1..][..n - 1];
    }
  }

  /** A global `replace` of the pattern `p.*` by `rep`: scanning from the
    left, each occurrence of `p` together with the rest of its line is
    replaced, and the scan resumes after the match. */
  function ReplaceLineTails(s: string, p: string, rep: string): string
    requires p != []
    decreases |s|
  {
    if s == [] then []
    else if StartsWith(s, p) then
      var n := |p| + RestOfLine(s[|p|..]);
      rep + ReplaceLineTails(s[n..], p, rep)
    else
      [s[0]] + ReplaceLineTails(s[1..], p, rep)
  }

  /** Text without an occurrence of the pattern is left as it is. */
  lemma {:induction false} NoMatchUnchanged(s: string, p: string, rep: string)
    requires p != [] && !Contains(s, p)
    ensures ReplaceLineTails(s, p, rep) == s
    decreases |s|
  {
    if s != [] {
      ContainsStep(s, p);
      NoMatchUnchanged(s[1..], p, rep);
      assert s == [s[0]] + s[1..];
    }
  }

  /** The leftmost occurrence of `p` in `s` at or after `from`, or -1. */
  function FirstOccurrence(s: string, p: string, from: nat): (i: int)
    requires from <= |s|
    ensures i >= -1
    ensures i >= 0 ==> from <= i && OccursAt(s, p, i)
    ensures i >= 0 ==> forall j :: from <= j < i ==> !OccursAt(s, p, j)
    ensures i < 0 ==> forall j :: from <= j <= |s| ==> !OccursAt(s, p, j)
    decreases |s| - from
  {
    if OccursAt(s, p, from) then from
    else if from == |s| then -1
    else FirstOccurrence(s, p, from + 1)
  }

  /** Reference reading of the rewrite on one line: everything from the
    first occurrence of `p` on is replaced by `rep`. */
  function ReplaceFirstTail(line: string, p: string, rep: string): (r: string)
    ensures OneLine(line) && OneLine(rep) ==> OneLine(r)
    ensures !Contains(line, p) ==> r == line
  {
    var i := FirstOccurrence(line, p, 0);
    if i < 0 then line
    else
      assert OneLine(line) ==> OneLine(line[..i]) by {
        if OneLine(line) {
          forall k | 0 <= k < i ensures !IsLineTerminator(line[..i][k]) {
            assert line[..i][k] == line[k];
          }
        }
      }
      line[..i] + rep
  }

  lemma FirstOccurrenceShift(s: string, p: string)
    requires s != [] && !StartsWith(s, p)
    ensures var i := FirstOccurrence(s[1..], p, 0);
      FirstOccurrence(s, p, 0) == if i < 0 then -1 else i + 1
  {
    forall j | 0 <= j
      ensures OccursAt(s, p, j + 1) <==> OccursAt(s[1..], p, j)
    {
      if j + 1 + |p| <= |s| {
        assert s[1..][j..j + |p|] == s[j + 1..j + 1 + |p|];
      }
    }
    StartsWithOccurs(s, p);
    var a := FirstOccurrence(s, p, 0);
    var b := FirstOccurrence(s[1..], p, 0);
    if a >= 0 {
      assert OccursAt(s[1..], p, a - 1);
    }
    if b >= 0 {
      assert OccursAt(s, p, b + 1);
    }
  }

  lemma ReplaceFirstTailStep(line: string, p: string, rep: string)
    requires line != [] && !StartsWith(line, p)
    ensures ReplaceFirstTail(line, p, rep) == [line[0]] + ReplaceFirstTail(line[1..], p, rep)
  {
    FirstOccurrenceShift(line, p);
    var b := FirstOccurrence(line[1..], p, 0);
    if b < 0 {
      ReplaceFirstTailNoMatch(line, p, rep);
      ReplaceFirstTailNoMatch(line[1..], p, rep);
      assert line == [line[0]] + line[1..];
    } else {
      ReplaceFirstTailAt(line, p, rep, b + 1);
      ReplaceFirstTailAt(line[1..], p, rep, b);
      assert line[..b + 1] == [line[0]] + line[1..][..b];
      ConsAssoc(line[0], line[1..][..b], rep);
    }
  }

  lemma ReplaceFirstTailNoMatch(line: string, p: string, rep: string)
    requires FirstOccurrence(line, p, 0) < 0
    ensures ReplaceFirstTail(line, p, rep) == line
  {
  }

  lemma ReplaceFirstTailAt(line: string, p: string, rep: string, i: int)
    requires FirstOccurrence(line, p, 0) == i >= 0
    ensures ReplaceFirstTail(line, p, rep) == line[..i] + rep
  {
  }

  /** A line that starts with the pattern is replaced whole. */
  lemma ReplaceFirstTailAtStart(line: string, p: string, rep: string)
    requires StartsWith(line, p)
    ensures ReplaceFirstTail(line, p, rep) == rep
  {
    StartsWithOccurs(line, p);
    assert FirstOccurrence(line, p, 0) == 0;
    assert line[..0] + rep == rep;
  }

  /** `.*` stops at the first line terminator. */
  lemma {:induction false} RestOfLineStops(a: string, b: string)
    requires OneLine(a) && (b == [] || IsLineTerminator(b[0]))
    ensures RestOfLine(a + b) == |a|
    decreases |a|
  {
    if a == [] {
      assert a + b == b;
    } else {
      assert (a + b)[0] == a[0] && (a + b)[1..] == a[1..] + b;
      OneLineSuffix(a, 1);
      RestOfLineStops(a[1..], b);
    }
  }

  lemma OneLineSuffix(s: string, k: nat)
    requires OneLine(s) && k <= |s|
    ensures OneLine(s[k..])
  {
    forall j | 0 <= j < |s| - k ensures !IsLineTerminator(s[k..][j]) {
      assert s[k..][j] == s[k + j];
    }
  }

  /** A match at the start of a line swallows the whole line. */
  lemma MatchAtLineStart(line: string, rest: string, p: string, rep: string)
    requires LinePattern(p)
    requires OneLine(line) && (rest == [] || IsLineTerminator(rest[0]))
    requires StartsWith(line + rest, p)
    ensures StartsWith(line, p)
    ensures ReplaceLineTails(line + rest, p, rep) == rep + ReplaceLineTails(rest, p, rep)
  {
    var s := line + rest;
    var n := |p|;
    assert forall k :: 0 <= k < n ==> p[k] == s[k];
    if rest != [] {
      assert s[|line|] == rest[0];
    }
    assert |line| >= n;
    assert s[..n] == line[..n];
    assert s[n..] == line[n..] + rest;
    OneLineSuffix(line, n);
    RestOfLineStops(line[n..], rest);
    assert s[|line|..] == rest;
  }

  /** Regrouping a concatenation, stated apart from the rewrite so that
    proving it does not unfold the rewrite. */
  lemma Reassociate(a: string, b: string, c: string, d: string)
    ensures a + (b + (c + d)) == a + (b + c) + d
  {
  }

  lemma ConsAssoc(c: char, a: string, b: string)
    ensures [c] + (a + b) == [c] + a + b
  {
  }

  /** One step of the scan where no match starts. */
  lemma ReplaceLineTailsAtOther(s: string, p: string, rep: string)
    requires p != [] && s != [] && !StartsWith(s, p)
    ensures ReplaceLineTails(s, p, rep) == [s[0]] + ReplaceLineTails(s[1..], p, rep)
  {
  }

  /** A line that does not start with the pattern does not start it when text follows. */
  lemma NoMatchAtLineHead(line: string, rest: string, p: string)
    requires line != [] && !StartsWith(line + rest, p)
    ensures !StartsWith(line, p)
  {
    if |line| >= |p| {
      assert (line + rest)[..|p|] == line[..|p|];
    }
  }

  /** Where the line does not start a match, the scan copies its first character. */
  lemma ScanPastLineHead(line: string, rest: string, p: string, rep: string)
    requires p != [] && line != [] && !StartsWith(line + rest, p)
    ensures ReplaceLineTails(line + rest, p, rep) == [line[0]] + ReplaceLineTails(line[1..] + rest, p, rep)
  {
    var s := line + rest;
    ReplaceLineTailsAtOther(s, p, rep);
    assert s[0] == line[0];
    assert s[1..] == line[1..] + rest;
  }

  /** ... and so does the one-line rewrite. */
  lemma FirstTailPastLineHead(line: string, rest: string, p: string, rep: string)
    requires line != [] && !StartsWith(line + rest, p)
    ensures ReplaceFirstTail(line, p, rep) == [line[0]] + ReplaceFirstTail(line[1..], p, rep)
  {
    NoMatchAtLineHead(line, rest, p);
    ReplaceFirstTailStep(line, p, rep);
  }

  /** The equational core of the induction step, stated over plain values. */
  lemma ChainStep(whole: string, tail: string, f: string, f': string, r: string, c: char)
    requires whole == [c] + tail && tail == f + r && f' == [c] + f
    ensures whole == f' + r
  {
    ConsAssoc(c, f, r);
  }

  /** The induction step below: the line does not start with the pattern,
    and the claim holds for the line without its first character. */
  lemma LineReplacedStep(line: string, rest: string, p: string, rep: string)
    requires p != [] && line != [] && !StartsWith(line + rest, p)
    requires ReplaceLineTails(line[1..] + rest, p, rep)
          == ReplaceFirstTail(line[1..], p, rep) + ReplaceLineTails(rest, p, rep)
    ensures ReplaceLineTails(line + rest, p, rep)
         == ReplaceFirstTail(line, p, rep) + ReplaceLineTails(rest, p, rep)
  {
    ScanPastLineHead(line, rest, p, rep);
    FirstTailPastLineHead(line, rest, p, rep);
    ChainStep(ReplaceLineTails(line + rest, p, rep), ReplaceLineTails(line[1..] + rest, p, rep),
              ReplaceFirstTail(line[1..], p, rep), ReplaceFirstTail(line, p, rep),
              ReplaceLineTails(rest, p, rep), line[0]);
  }

  /** Matches never cross a line terminator: on a line followed by a
    terminator (or the end), the rewrite is the one-line rewrite. */
  lemma {:induction false} LineReplaced(line: string, rest: string, p: string, rep: string)
    requires LinePattern(p)
    requires OneLine(line) && (rest == [] || IsLineTerminator(rest[0]))
    ensures ReplaceLineTails(line + rest, p, rep)
         == ReplaceFirstTail(line, p, rep) + ReplaceLineTails(rest, p, rep)
    decreases |line|
  {
    if line == [] {
      assert line + rest == rest;
      assert ReplaceFirstTail(line, p, rep) == [];
    } else if StartsWith(line + rest, p) {
      MatchAtLineStart(line, rest, p, rep);
      ReplaceFirstTailAtStart(line, p, rep);
    } else {
      OneLineSuffix(line, 1);
      LineReplaced(line[1..], rest, p, rep);
      LineReplacedStep(line, rest, p, rep);
    }
  }

  /** A line terminator is copied through. */
  lemma TerminatorKept(t: char, more: string, p: string, rep: string)
    requires LinePattern(p) && IsLineTerminator(t)
    ensures ReplaceLineTails([t] + more, p, rep) == [t] + ReplaceLineTails(more, p, rep)
  {
    var s := [t] + more;
    assert s[1..] == more;
    assert !StartsWith(s, p) by {
      assert s[0] == t;
    }
  }

  /** An occurrence with none before it is the first. */
  lemma FirstOccurrenceIs(s: string, p: string, i: int)
    requires OccursAt(s, p, i) && forall j :: 0 <= j < i ==> !OccursAt(s, p, j)
    ensures FirstOccurrence(s, p, 0) == i
  {
  }

  /** An occurrence that ends within a prefix is an occurrence in the prefix. */
  lemma OccursWithinPrefix(s: string, k: int, p: string, j: int)
    requires 0 <= j && j + |p| <= k <= |s|
    ensures OccursAt(s, p, j) <==> OccursAt(s[..k], p, j)
  {
    assert s[..k][j..j + |p|] == s[j..j + |p|];
  }

  /** Cutting a line at the first occurrence of `p` and appending a
    replacement that starts with `p` keeps that occurrence first. */
  lemma ReplacedLineKeepsFirstOccurrence(line: string, p: string, rep: string, i: int)
    requires StartsWith(rep, p)
    requires OccursAt(line, p, i) && forall j :: 0 <= j < i ==> !OccursAt(line, p, j)
    ensures var r := line[..i] + rep;
      OccursAt(r, p, i) && forall j :: 0 <= j < i ==> !OccursAt(r, p, j)
  {
    var n := |p|;
    var r := line[..i] + rep;
    assert r[..i + n] == line[..i + n] by {
      assert r[..i + n] == line[..i] + rep[..n];
      assert line[..i + n] == line[..i] + line[i..i + n];
    }
    assert r[i..i + n] == rep[..n];
    forall j | 0 <= j < i ensures !OccursAt(r, p, j) {
      OccursWithinPrefix(r, i + n, p, j);
      OccursWithinPrefix(line, i + n, p, j);
    }
  }

  /** Rewriting a line twice gives what rewriting it once gives, when the
    replacement itself starts with the pattern. */
  lemma ReplaceFirstTailIdempotent(line: string, p: string, rep: string)
    requires StartsWith(rep, p)
    ensures ReplaceFirstTail(ReplaceFirstTail(line, p, rep), p, rep) == ReplaceFirstTail(line, p, rep)
  {
    var i := FirstOccurrence(line, p, 0);
    if i >= 0 {
      var r := line[..i] + rep;
      ReplacedLineKeepsFirstOccurrence(line, p, rep, i);
      FirstOccurrenceIs(r, p, i);
      assert r[..i] == line[..i];
    }
  }

  /** A first line, its terminator, and the rest of the text. */
  lemma LineThenTerminator(line: string, t: char, more: string, p: string, rep: string)
    requires LinePattern(p) && OneLine(line) && IsLineTerminator(t)
    ensures ReplaceLineTails(line + ([t] + more), p, rep)
         == ReplaceFirstTail(line, p, rep) + ([t] + ReplaceLineTails(more, p, rep))
  {
    LineReplaced(line, [t] + more, p, rep);
    TerminatorKept(t, more, p, rep);
  }

  /** The rewrite of a single line is its one-line rewrite. */
  lemma LastLineReplaced(x: string, p: string, rep: string)
    requires LinePattern(p) && OneLine(x)
    ensures ReplaceLineTails(x, p, rep) == ReplaceFirstTail(x, p, rep)
  {
    LineReplaced(x, [], p, rep);
    assert x + [] == x;
    var f := ReplaceFirstTail(x, p, rep);
    assert f + [] == f;
  }

  /** A last line followed by text that starts a new line (or nothing). */
  lemma SplitAfterLine(x: string, y: string, p: string, rep: string)
    requires LinePattern(p) && OneLine(x) && (y == [] || IsLineTerminator(y[0]))
    ensures ReplaceLineTails(x + y, p, rep) == ReplaceLineTails(x, p, rep) + ReplaceLineTails(y, p, rep)
  {
    LineReplaced(x, y, p, rep);
    LastLineReplaced(x, p, rep);
  }

  /** The first line and its terminator, with text after them. */
  lemma FirstLineWithTail(line: string, t: char, more: string, y: string, p: string, rep: string)
    requires LinePattern(p) && OneLine(line) && IsLineTerminator(t)
    ensures ReplaceLineTails(line + ([t] + more) + y, p, rep)
         == ReplaceFirstTail(line, p, rep) + ([t] + ReplaceLineTails(more + y, p, rep))
  {
    assert line + ([t] + more) + y == line + ([t] + (more + y));
    LineThenTerminator(line, t, more + y, p, rep);
  }

  /** The step of the split: peel off the first line and its terminator. */
  lemma SplitAfterFirstLine(line: string, t: char, more: string, y: string, p: string, rep: string)
    requires LinePattern(p) && OneLine(line) && IsLineTerminator(t)
    requires ReplaceLineTails(more + y, p, rep) == ReplaceLineTails(more, p, rep) + ReplaceLineTails(y, p, rep)
    ensures var x := line + ([t] + more);
      ReplaceLineTails(x + y, p, rep) == ReplaceLineTails(x, p, rep) + ReplaceLineTails(y, p, rep)
  {
    FirstLineWithTail(line, t, more, y, p, rep);
    LineThenTerminator(line, t, more, p, rep);
    var a := ReplaceFirstTail(line, p, rep);
    var b := ReplaceLineTails(more, p, rep);
    var c := ReplaceLineTails(y, p, rep);
    Reassociate(a, [t], b, c);
  }

  /** The whole-text rewrite splits at any line boundary. */
  lemma {:induction false} SplitAtLineBoundary(x: string, y: string, p: string, rep: string)
    requires LinePattern(p)
    requires x == [] || y == [] || IsLineTerminator(x[|x| - 1]) || IsLineTerminator(y[0])
    ensures ReplaceLineTails(x + y, p, rep) == ReplaceLineTails(x, p, rep) + ReplaceLineTails(y, p, rep)
    decreases |x|
  {
    var n := RestOfLine(x);
    RestOfLineIsOneLine(x);
    if x == [] {
      assert x + y == y;
    } else if n == |x| {
      assert x == x[..n];
      SplitAfterLine(x, y, p, rep);
    } else {
      var line := x[..n];
      var more := x[n + 1..];
      assert x == line + ([x[n]] + more);
      assert more != [] ==> more[|more| - 1] == x[|x| - 1];
      SplitAtLineBoundary(more, y, p, rep);
      SplitAfterFirstLine(line, x[n], more, y, p, rep);
    }
  }

  /** Rewriting the whole text twice gives what rewriting it once gives,
    for a one-line replacement that starts with the pattern. */
  lemma {:induction false} ReplaceLineTailsIdempotent(s: string, p: string, rep: string)
    requires LinePattern(p) && OneLine(rep) && StartsWith(rep, p)
    ensures ReplaceLineTails(ReplaceLineTails(s, p, rep), p, rep) == ReplaceLineTails(s, p, rep)
    decreases |s|
  {
    var n := RestOfLine(s);
    var line := s[..n];
    RestOfLineIsOneLine(s);
    var once := ReplaceFirstTail(line, p, rep);
    ReplaceFirstTailIdempotent(line, p, rep);
    if n == |s| {
      assert s == line + [];
      LineReplaced(line, [], p, rep);
      assert once + [] == once;
      LineReplaced(once, [], p, rep);
    } else {
      var t := s[n];
      var more := s[n + 1..];
      assert s == line + ([t] + more);
      LineReplaced(line, [t] + more, p, rep);
      TerminatorKept(t, more, p, rep);
      var rest := ReplaceLineTails(more, p, rep);
      assert ReplaceLineTails(s, p, rep) == once + ([t] + rest);
      LineReplaced(once, [t] + rest, p, rep);
      TerminatorKept(t, rest, p, rep);
      ReplaceLineTailsIdempotent(more, p, rep);
    }
  }

  /** When the pattern occurs, the replacement appears in the result. */
  lemma {:induction false} ReplacementPresent(s: string, p: string, rep: string)
    requires p != [] && Contains(s, p)
    ensures Contains(ReplaceLineTails(s, p, rep), rep)
    decreases |s|
  {
    ContainsStep(s, p);
    if StartsWith(s, p) {
      var n := |p| + RestOfLine(s[|p|..]);
      var tail := ReplaceLineTails(s[n..], p, rep);
      ContainsItself([], rep, tail);
      assert [] + rep + tail == rep + tail;
    } else {
      ReplacementPresent(s[1..], p, rep);
      ContainsAppend([s[0]], ReplaceLineTails(s[1..], p, rep), rep);
    }
  }

  /** A pattern on one line cannot end with a line terminator appended to a text. */
  lemma NoPatternAcrossLineEnd(s: string, t: char, p: string)
    requires LinePattern(p) && IsLineTerminator(t) && !Contains(s, p)
    ensures !Contains(s + [t], p)
  {
    var u := s + [t];
    forall i | 0 <= i <= |u| - |p| ensures !OccursAt(u, p, i) {
      if i + |p| == |u| {
        assert u[i..i + |p|][|p| - 1] == t;
      } else {
        assert u[i..i + |p|] == s[i..i + |p|];
        assert !OccursAt(s, p, i);
      }
    }
  }

  /** A text that ends a line (or is empty) still ends one after the rewrite. */
  lemma LineEndKept(s: string, p: string, rep: string)
    requires LinePattern(p) && (s == [] || IsLineTerminator(s[|s| - 1]))
    ensures var r := ReplaceLineTails(s, p, rep);
      r == [] || IsLineTerminator(r[|r| - 1])
  {
    if s != [] {
      var n := |s| - 1;
      var t := s[n];
      assert s == s[..n] + [t];
      SplitAtLineBoundary(s[..n], [t], p, rep);
      TerminatorKept(t, [], p, rep);
      assert [t] + [] == [t];
    }
  }

  // ---------------------------------------------------------------------
  // The env-file update

  lemma AgentAssignmentIsLinePattern()
    ensures LinePattern(AGENT_ASSIGNMENT)
  {
  }

  /** The agent-id step: rewrite every assignment line when there is one,
    otherwise append a fresh assignment on a line of its own. */
  function SetAgentId(content: string, id: string): (r: string)
    ensures Contains(r, AGENT_ASSIGNMENT + id)
    ensures Contains(content, AGENT_ASSIGNMENT) ==>
      r == ReplaceLineTails(content, AGENT_ASSIGNMENT, AGENT_ASSIGNMENT + id)
    ensures !Contains(content, AGENT_ASSIGNMENT) ==>
      StartsWith(r, content) && r[|content|..] == "\n" + AGENT_ASSIGNMENT + id + "\n"
  {
    if Contains(content, AGENT_ASSIGNMENT) then
      ReplacementPresent(content, AGENT_ASSIGNMENT, AGENT_ASSIGNMENT + id);
      ReplaceLineTails(content, AGENT_ASSIGNMENT, AGENT_ASSIGNMENT + id)
    else
      ContainsItself(content + "\n", AGENT_ASSIGNMENT + id, "\n");
      assert content + "\n" + AGENT_ASSIGNMENT + id + "\n" == content + "\n" + (AGENT_ASSIGNMENT + id) + "\n";
      content + "\n" + AGENT_ASSIGNMENT + id + "\n"
  }

  /** The API-key step as the script does it: an existing key is kept, a
    missing one is appended directly after the current content. */
  function EnsureApiKey(content: string, key: string): (r: string)
    ensures StartsWith(r, content)
    ensures Contains(r, KEY_ASSIGNMENT)
    ensures Contains(content, KEY_ASSIGNMENT) ==> r == content
    ensures !Contains(content, KEY_ASSIGNMENT) ==> r[|content|..] == KEY_ASSIGNMENT + key + "\n"
  {
    if Contains(content, KEY_ASSIGNMENT) then content
    else
      ContainsItself(content, KEY_ASSIGNMENT, key + "\n");
      assert content + KEY_ASSIGNMENT + (key + "\n") == content + KEY_ASSIGNMENT + key + "\n";
      content + KEY_ASSIGNMENT + key + "\n"
  }

  /** The env-file update as written: the id step, then the key step. */
  function UpdateEnvContent(content: string, id: string, key: string): (r: string)
    ensures Contains(r, AGENT_ASSIGNMENT + id) && Contains(r, KEY_ASSIGNMENT)
    ensures !Contains(content, AGENT_ASSIGNMENT) ==>
      StartsWith(r, content + "\n" + AGENT_ASSIGNMENT + id + "\n")
  {
    var withId := SetAgentId(content, id);
    var r := EnsureApiKey(withId, key);
    ContainsInPrefix(r, withId, AGENT_ASSIGNMENT + id);
    assert r[..|withId|] == withId;
    r
  }

  /** What the corrected key step appends for a missing key: the key line,
    after a line feed when the content does not end a line. */
  function KeyLineTail(content: string, key: string): string {
    var sep := if content == [] || IsLineTerminator(content[|content| - 1]) then "" else "\n";
    sep + (KEY_ASSIGNMENT + key + "\n")
  }

  /** The key step as evidently intended: a missing key is appended on a
    line of its own. */
  function EnsureApiKeyOnOwnLine(content: string, key: string): (r: string)
    ensures StartsWith(r, content)
    ensures Contains(r, KEY_ASSIGNMENT)
    ensures Contains(content, KEY_ASSIGNMENT) ==> r == content
    ensures !Contains(content, KEY_ASSIGNMENT) ==>
      var line := KEY_ASSIGNMENT + key + "\n";
      |line| <= |r| && r[|r| - |line|..] == line && LineStartAt(r, |r| - |line|)
  {
    if Contains(content, KEY_ASSIGNMENT) then content
    else
      var sep := if content == [] || IsLineTerminator(content[|content| - 1]) then "" else "\n";
      var line := KEY_ASSIGNMENT + key + "\n";
      var r := content + KeyLineTail(content, key);
      assert r == content + sep + KEY_ASSIGNMENT + (key + "\n");
      ContainsItself(content + sep, KEY_ASSIGNMENT, key + "\n");
      assert r[..|content|] == content;
      assert r[|r| - |line|..] == line;
      r
  }

  /** The update with the key step corrected. */
  function UpdateEnvContentOnOwnLine(content: string, id: string, key: string): (r: string)
    ensures Contains(r, AGENT_ASSIGNMENT + id) && Contains(r, KEY_ASSIGNMENT)
    ensures !Contains(content, AGENT_ASSIGNMENT) ==>
      StartsWith(r, content + "\n" + AGENT_ASSIGNMENT + id + "\n")
  {
    var withId := SetAgentId(content, id);
    var r := EnsureApiKeyOnOwnLine(withId, key);
    ContainsInPrefix(r, withId, AGENT_ASSIGNMENT + id);
    assert r[..|withId|] == withId;
    r
  }

  // ---------------------------------------------------------------------
  // Running the update twice

  /** The `=` of the agent assignment is its last character, and the key
    assignment holds no other, so the agent assignment cannot start inside
    the key assignment's name. */
  lemma NoAssignmentInKeyLine(key: string)
    requires !Contains(key, AGENT_ASSIGNMENT)
    ensures !Contains(KEY_ASSIGNMENT + key + "\n", AGENT_ASSIGNMENT)
    ensures !Contains("\n" + KEY_ASSIGNMENT + key + "\n", AGENT_ASSIGNMENT)
  {
    var a := AGENT_ASSIGNMENT;
    var n := |a|;
    var m := |KEY_ASSIGNMENT|;
    assert n == 15 && m == 14;
    var s := KEY_ASSIGNMENT + key + "\n";
    forall i | 0 <= i <= |s| - n ensures !OccursAt(s, a, i) {
      if i < m {
        assert s[13] == '=';
        assert s[i..i + n][13 - i] == s[13];
        assert a[13 - i] != '=';
      } else if i + n <= m + |key| {
        assert s[i..i + n] == key[i - m..i - m + n];
        assert !OccursAt(key, a, i - m);
      } else {
        assert s[|s| - 1] == '\n';
        assert s[i..i + n][|s| - 1 - i] == s[|s| - 1];
        assert !IsLineTerminator(a[|s| - 1 - i]);
      }
    }
    var s' := ['\n'] + s;
    assert "\n" + KEY_ASSIGNMENT + key + "\n" == s';
    ContainsStep(s', a);
    assert s'[1..] == s;
    assert !StartsWith(s', a) by {
      assert s'[0] == '\n';
    }
  }

  /** An appended fresh assignment is left as it is by a second id step. */
  lemma FreshAssignmentStable(content: string, id: string)
    requires OneLine(id) && !Contains(content, AGENT_ASSIGNMENT)
    ensures var s := content + "\n" + AGENT_ASSIGNMENT + id + "\n";
      ReplaceLineTails(s, AGENT_ASSIGNMENT, AGENT_ASSIGNMENT + id) == s
  {
    var p := AGENT_ASSIGNMENT;
    var rep := AGENT_ASSIGNMENT + id;
    AgentAssignmentIsLinePattern();
    var head := content + ['\n'];
    assert content + "\n" + AGENT_ASSIGNMENT + id + "\n" == head + (rep + ['\n']);
    NoPatternAcrossLineEnd(content, '\n', p);
    NoMatchUnchanged(head, p, rep);
    SplitAtLineBoundary(head, rep + ['\n'], p, rep);
    assert OneLine(rep);
    assert StartsWith(rep, p) by { assert rep[..|p|] == p; }
    LineReplaced(rep, ['\n'], p, rep);
    ReplaceFirstTailAtStart(rep, p, rep);
    TerminatorKept('\n', [], p, rep);
    assert ['\n'] + [] == ['\n'];
  }

  /** The id step leaves its own result as it is. */
  lemma SetAgentIdStable(content: string, id: string)
    requires OneLine(id)
    ensures var s := SetAgentId(content, id);
      ReplaceLineTails(s, AGENT_ASSIGNMENT, AGENT_ASSIGNMENT + id) == s
  {
    var p := AGENT_ASSIGNMENT;
    var rep := AGENT_ASSIGNMENT + id;
    if Contains(content, p) {
      AgentAssignmentIsLinePattern();
      assert OneLine(rep);
      assert StartsWith(rep, p) by { assert rep[..|p|] == p; }
      ReplaceLineTailsIdempotent(content, p, rep);
    } else {
      FreshAssignmentStable(content, id);
    }
  }

  /** Text that contains no match, appended at a line boundary to a fixed
    point of the rewrite, gives a fixed point. */
  lemma AppendedAtLineBoundaryStable(s: string, tail: string, p: string, rep: string)
    requires LinePattern(p) && ReplaceLineTails(s, p, rep) == s && !Contains(tail, p)
    requires s == [] || tail == [] || IsLineTerminator(s[|s| - 1]) || IsLineTerminator(tail[0])
    ensures ReplaceLineTails(s + tail, p, rep) == s + tail
  {
    NoMatchUnchanged(tail, p, rep);
    SplitAtLineBoundary(s, tail, p, rep);
  }

  /** The appended key line holds no agent assignment and starts at a line boundary. */
  lemma KeyLineTailShape(s: string, key: string)
    requires !Contains(key, AGENT_ASSIGNMENT)
    ensures var tail := KeyLineTail(s, key);
      !Contains(tail, AGENT_ASSIGNMENT)
      && (s == [] || tail == [] || IsLineTerminator(s[|s| - 1]) || IsLineTerminator(tail[0]))
  {
    NoAssignmentInKeyLine(key);
    var line := KEY_ASSIGNMENT + key + "\n";
    assert "" + line == line;
    assert "\n" + line == "\n" + KEY_ASSIGNMENT + key + "\n";
  }

  /** The corrected key step keeps a fixed point of the id step fixed. */
  lemma KeyLineStable(s: string, id: string, key: string)
    requires !Contains(key, AGENT_ASSIGNMENT)
    requires ReplaceLineTails(s, AGENT_ASSIGNMENT, AGENT_ASSIGNMENT + id) == s
    ensures var d := EnsureApiKeyOnOwnLine(s, key);
      ReplaceLineTails(d, AGENT_ASSIGNMENT, AGENT_ASSIGNMENT + id) == d
  {
    if !Contains(s, KEY_ASSIGNMENT) {
      AgentAssignmentIsLinePattern();
      KeyLineTailShape(s, key);
      AppendedAtLineBoundaryStable(s, KeyLineTail(s, key), AGENT_ASSIGNMENT, AGENT_ASSIGNMENT + id);
    }
  }

  /** After the corrected update the content is a fixed point of the id step. */
  lemma UpdatedContentStable(content: string, id: string, key: string)
    requires OneLine(id) && !Contains(key, AGENT_ASSIGNMENT)
    ensures var d := UpdateEnvContentOnOwnLine(content, id, key);
      ReplaceLineTails(d, AGENT_ASSIGNMENT, AGENT_ASSIGNMENT + id) == d
  {
    SetAgentIdStable(content, id);
    KeyLineStable(SetAgentId(content, id), id, key);
  }

  /** With the key line on its own line, running the update a second time
    with the same id and key changes nothing. */
  lemma UpdateOnOwnLineIdempotent(content: string, id: string, key: string)
    requires OneLine(id) && !Contains(key, AGENT_ASSIGNMENT)
    ensures var once := UpdateEnvContentOnOwnLine(content, id, key);
      UpdateEnvContentOnOwnLine(once, id, key) == once
  {
    var once := UpdateEnvContentOnOwnLine(content, id, key);
    ContainsPrefixOfPattern(once, AGENT_ASSIGNMENT, id);
    UpdatedContentStable(content, id, key);
  }

  /** On content that ends a line (or is empty) both key steps agree. */
  lemma KeyStepsAgree(content: string, key: string)
    requires content == [] || IsLineTerminator(content[|content| - 1])
    ensures EnsureApiKey(content, key) == EnsureApiKeyOnOwnLine(content, key)
  {
  }

  /** The id step leaves content that ends a line, or that had no
    assignment, ending a line. */
  lemma SetAgentIdEndsLine(content: string, id: string)
    requires content == [] || IsLineTerminator(content[|content| - 1]) || !Contains(content, AGENT_ASSIGNMENT)
    ensures var w := SetAgentId(content, id);
      w == [] || IsLineTerminator(w[|w| - 1])
  {
    var w := SetAgentId(content, id);
    if Contains(content, AGENT_ASSIGNMENT) {
      AgentAssignmentIsLinePattern();
      LineEndKept(content, AGENT_ASSIGNMENT, AGENT_ASSIGNMENT + id);
    } else {
      var t := "\n" + AGENT_ASSIGNMENT + id + "\n";
      assert t[|t| - 1] == '\n';
      assert w[|w| - 1] == w[|content|..][|t| - 1];
    }
  }

  /** When the old content ends a line, or has no assignment yet, the script
    as written and the corrected update agree. */
  lemma AsWrittenAgreesWhenLineEnded(content: string, id: string, key: string)
    requires content == [] || IsLineTerminator(content[|content| - 1]) || !Contains(content, AGENT_ASSIGNMENT)
    ensures UpdateEnvContent(content, id, key) == UpdateEnvContentOnOwnLine(content, id, key)
  {
    SetAgentIdEndsLine(content, id);
    KeyStepsAgree(SetAgentId(content, id), key);
  }

  /** As written, on content that ends a line, running the update twice
    changes nothing the second time. */
  lemma AsWrittenIdempotentWhenLineEnded(content: string, id: string, key: string)
    requires OneLine(id) && !Contains(key, AGENT_ASSIGNMENT)
    requires content == [] || IsLineTerminator(content[|content| - 1])
    ensures var once := UpdateEnvContent(content, id, key);
      UpdateEnvContent(once, id, key) == once
  {
    var once := UpdateEnvContent(content, id, key);
    AsWrittenAgreesWhenLineEnded(content, id, key);
    UpdateOnOwnLineIdempotent(content, id, key);
    ContainsPrefixOfPattern(once, AGENT_ASSIGNMENT, id);
    UpdatedContentStable(content, id, key);
  }

  /** As written, an existing assignment on an unterminated last line gets
    the key glued onto it: the id step leaves `LETTA_AGENT_ID=a` ... */
  lemma GlueFirstRun()
    ensures UpdateEnvContent(AGENT_ASSIGNMENT, "a", "k") == AGENT_ASSIGNMENT + "a" + KEY_ASSIGNMENT + "k\n"
  {
    var p := AGENT_ASSIGNMENT;
    var rep := p + "a";
    AgentAssignmentIsLinePattern();
    ContainsItself([], p, []);
    assert [] + p + [] == p;
    assert p + [] == p;
    LineReplaced(p, [], p, rep);
    assert StartsWith(p, p) by { assert p[..|p|] == p; }
    ReplaceFirstTailAtStart(p, p, rep);
    assert SetAgentId(p, "a") == rep;
    ContainsChars(rep, KEY_ASSIGNMENT);
    assert 'P' in KEY_ASSIGNMENT && 'P' !in rep;
  }

  /** ... and the second run cuts the glued key off that line ... */
  lemma GlueSecondRunIdStep()
    ensures SetAgentId(AGENT_ASSIGNMENT + "a" + KEY_ASSIGNMENT + "k\n", "a") == AGENT_ASSIGNMENT + "a\n"
  {
    var p := AGENT_ASSIGNMENT;
    var rep := p + "a";
    var line := rep + KEY_ASSIGNMENT + "k";
    var once := line + ['\n'];
    assert AGENT_ASSIGNMENT + "a" + KEY_ASSIGNMENT + "k\n" == once;
    AgentAssignmentIsLinePattern();
    assert OneLine(line);
    assert StartsWith(line, p) by { assert line[..|p|] == p; }
    assert StartsWith(once, p) by { assert once[..|p|] == p; }
    StartsWithOccurs(once, p);
    LineReplaced(line, ['\n'], p, rep);
    ReplaceFirstTailAtStart(line, p, rep);
    TerminatorKept('\n', [], p, rep);
    assert ['\n'] + [] == ['\n'];
    assert rep + ['\n'] == AGENT_ASSIGNMENT + "a\n";
  }

  /** ... and appends it again on a line of its own. */
  lemma GlueSecondRun()
    ensures var once := AGENT_ASSIGNMENT + "a" + KEY_ASSIGNMENT + "k\n";
      UpdateEnvContent(once, "a", "k") == AGENT_ASSIGNMENT + "a\n" + KEY_ASSIGNMENT + "k\n"
  {
    GlueSecondRunIdStep();
    var again := AGENT_ASSIGNMENT + "a\n";
    ContainsChars(again, KEY_ASSIGNMENT);
    assert 'P' in KEY_ASSIGNMENT && 'P' !in again;
  }

  /** Hence the update as written is not idempotent. */
  lemma AsWrittenNotIdempotent()
    ensures var once := UpdateEnvContent(AGENT_ASSIGNMENT, "a", "k");
      UpdateEnvContent(once, "a", "k") != once
  {
    GlueFirstRun();
    GlueSecondRun();
    var once := AGENT_ASSIGNMENT + "a" + KEY_ASSIGNMENT + "k\n";
    assert |AGENT_ASSIGNMENT + "a\n" + KEY_ASSIGNMENT + "k\n"| == |once| + 1;
  }
}
