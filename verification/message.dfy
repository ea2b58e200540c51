/** The message view's text handling: the normaliser that turns raw
  assistant text into markdown (paragraphs, list blocks, fenced code with a
  guessed language), the choice of normalised or raw content by role, and
  the two string helpers of the fenced-code renderer. */
module Message {
  import opened Strings
  import opened Chat

  /** Backslash followed by `n`, as an agent may emit instead of a line break. */
  const ESCAPED_NEWLINE: string := "\\n"
  const ESCAPED_PARAGRAPH_BREAK: string := "\\n\\n"
  /** Two real line feeds: the paragraph separator. */
  const PARAGRAPH_BREAK: string := "\n\n"

  // ---------------------------------------------------------------------
  // Un-escaping

  /** First step: every escaped blank line becomes a real one. */
  function UnescapeParagraphBreaks(text: string): string {
    ReplaceAll(text, ESCAPED_PARAGRAPH_BREAK, PARAGRAPH_BREAK)
  }

  /** Second step: every escaped line break becomes a real one. */
  function UnescapeNewlines(text: string): string {
    ReplaceAll(text, ESCAPED_NEWLINE, "\n")
  }

  function Unescape(text: string): string {
    UnescapeNewlines(UnescapeParagraphBreaks(text))
  }

  lemma ParagraphBreaksAtBreak(s: string)
    requires StartsWith(s, ESCAPED_PARAGRAPH_BREAK)
    ensures UnescapeParagraphBreaks(s) == PARAGRAPH_BREAK + UnescapeParagraphBreaks(s[4..])
  {
  }

  lemma ParagraphBreaksAtOther(s: string)
    requires s != [] && !StartsWith(s, ESCAPED_PARAGRAPH_BREAK)
    ensures UnescapeParagraphBreaks(s) == [s[0]] + UnescapeParagraphBreaks(s[1..])
  {
  }

  lemma NewlinesAtEscape(s: string)
    requires StartsWith(s, ESCAPED_NEWLINE)
    ensures UnescapeNewlines(s) == "\n" + UnescapeNewlines(s[2..])
  {
  }

  lemma NewlinesAtOther(s: string)
    requires s != [] && !StartsWith(s, ESCAPED_NEWLINE)
    ensures UnescapeNewlines(s) == [s[0]] + UnescapeNewlines(s[1..])
  {
  }

  lemma NewlinesSkip(c: char, t: string)
    requires c != '\\'
    ensures UnescapeNewlines([c] + t) == [c] + UnescapeNewlines(t)
  {
    var s := [c] + t;
    assert s[1..] == t;
    assert s[0] == c;
    NewlinesAtOther(s);
  }

  lemma NewlinesKeepBackslash(t: string)
    requires t == [] || t[0] != 'n'
    ensures UnescapeNewlines(['\\'] + t) == ['\\'] + UnescapeNewlines(t)
  {
    assert (['\\'] + t)[1..] == t;
    NewlinesAtOther(['\\'] + t);
  }

  /** What the first step leaves at the front of a non-empty string. */
  lemma ParagraphBreaksHead(t: string)
    requires t != []
    ensures UnescapeParagraphBreaks(t) != []
    ensures UnescapeParagraphBreaks(t)[0] == if StartsWith(t, ESCAPED_PARAGRAPH_BREAK) then '\n' else t[0]
  {
    if StartsWith(t, ESCAPED_PARAGRAPH_BREAK) {
      ParagraphBreaksAtBreak(t);
    } else {
      ParagraphBreaksAtOther(t);
    }
  }

  lemma NewlinesHead(t: string)
    requires t != []
    ensures UnescapeNewlines(t) != []
    ensures UnescapeNewlines(t)[0] == if StartsWith(t, ESCAPED_NEWLINE) then '\n' else t[0]
  {
    if StartsWith(t, ESCAPED_NEWLINE) {
      NewlinesAtEscape(t);
    } else {
      NewlinesAtOther(t);
    }
  }

  /** A real blank line passes the line-break step unchanged. */
  lemma NewlinesKeepBreak(t: string)
    ensures UnescapeNewlines(PARAGRAPH_BREAK + t) == PARAGRAPH_BREAK + UnescapeNewlines(t)
  {
    NewlinesSkip('\n', "\n" + t);
    NewlinesSkip('\n', t);
    assert PARAGRAPH_BREAK + t == ['\n'] + (['\n'] + t);
  }

  /** The line-break step turns an escaped blank line into a real one. */
  lemma NewlinesAtParagraphBreak(s: string)
    requires StartsWith(s, ESCAPED_PARAGRAPH_BREAK)
    ensures UnescapeNewlines(s) == PARAGRAPH_BREAK + UnescapeNewlines(s[4..])
  {
    var h := s[..4];
    assert h == ESCAPED_PARAGRAPH_BREAK;
    assert s[0] == h[0] && s[1] == h[1] && s[2] == h[2] && s[3] == h[3];
    assert s[..2] == ESCAPED_NEWLINE;
    var r := s[2..];
    assert r[..2] == ESCAPED_NEWLINE;
    assert r[2..] == s[4..];
    NewlinesAtEscape(s);
    NewlinesAtEscape(r);
  }

  // The four cases of the induction below, each given the induction
  // hypothesis for the rest of the string.

  lemma SubsumedAtBreak(s: string)
    requires StartsWith(s, ESCAPED_PARAGRAPH_BREAK)
    requires Unescape(s[4..]) == UnescapeNewlines(s[4..])
    ensures Unescape(s) == UnescapeNewlines(s)
  {
    ParagraphBreaksAtBreak(s);
    NewlinesKeepBreak(UnescapeParagraphBreaks(s[4..]));
    NewlinesAtParagraphBreak(s);
  }

  lemma SubsumedAtOther(s: string)
    requires s != [] && s[0] != '\\'
    requires Unescape(s[1..]) == UnescapeNewlines(s[1..])
    ensures Unescape(s) == UnescapeNewlines(s)
  {
    ParagraphBreaksAtOther(s);
    NewlinesSkip(s[0], UnescapeParagraphBreaks(s[1..]));
    NewlinesSkip(s[0], s[1..]);
    assert s == [s[0]] + s[1..];
  }

  /** The first step keeps an escaped line break that does not begin an escaped blank line. */
  lemma ParagraphBreaksAtLoneEscape(s: string)
    requires |s| >= 2 && s[0] == '\\' && s[1] == 'n' && !StartsWith(s, ESCAPED_PARAGRAPH_BREAK)
    ensures UnescapeParagraphBreaks(s) == ESCAPED_NEWLINE + UnescapeParagraphBreaks(s[2..])
  {
    ParagraphBreaksAtOther(s);
    assert s[1..][0] == 'n';
    ParagraphBreaksAtOther(s[1..]);
    assert s[1..][1..] == s[2..];
  }

  lemma NewlinesAtEscapeFront(t: string)
    ensures UnescapeNewlines(ESCAPED_NEWLINE + t) == "\n" + UnescapeNewlines(t)
  {
    var u := ESCAPED_NEWLINE + t;
    assert u[..2] == ESCAPED_NEWLINE;
    assert u[2..] == t;
    NewlinesAtEscape(u);
  }

  /** An escaped line break that does not begin an escaped blank line. */
  lemma SubsumedAtEscape(s: string)
    requires |s| >= 2 && s[0] == '\\' && s[1] == 'n' && !StartsWith(s, ESCAPED_PARAGRAPH_BREAK)
    requires Unescape(s[2..]) == UnescapeNewlines(s[2..])
    ensures Unescape(s) == UnescapeNewlines(s)
  {
    ParagraphBreaksAtLoneEscape(s);
    NewlinesAtEscapeFront(UnescapeParagraphBreaks(s[2..]));
    assert s[..2] == ESCAPED_NEWLINE;
    NewlinesAtEscape(s);
  }

  /** A backslash not followed by `n`. */
  lemma SubsumedAtBackslash(s: string)
    requires s != [] && s[0] == '\\' && (|s| < 2 || s[1] != 'n')
    requires Unescape(s[1..]) == UnescapeNewlines(s[1..])
    ensures Unescape(s) == UnescapeNewlines(s)
  {
    ParagraphBreaksAtOther(s);
    if |s| >= 2 {
      ParagraphBreaksHead(s[1..]);
    }
    NewlinesKeepBackslash(UnescapeParagraphBreaks(s[1..]));
    NewlinesKeepBackslash(s[1..]);
    assert s == ['\\'] + s[1..];
  }

  /** The paragraph-break step is subsumed by the line-break step: running
    both gives what the second alone gives. */
  lemma {:induction false} ParagraphStepSubsumed(s: string)
    ensures Unescape(s) == UnescapeNewlines(s)
    decreases |s|
  {
    if s == [] {
    } else if StartsWith(s, ESCAPED_PARAGRAPH_BREAK) {
      ParagraphStepSubsumed(s[4..]);
      SubsumedAtBreak(s);
    } else if s[0] != '\\' {
      ParagraphStepSubsumed(s[1..]);
      SubsumedAtOther(s);
    } else if |s| >= 2 && s[1] == 'n' {
      ParagraphStepSubsumed(s[2..]);
      SubsumedAtEscape(s);
    } else {
      ParagraphStepSubsumed(s[1..]);
      SubsumedAtBackslash(s);
    }
  }

  /** No backslash-`n` pair survives the line-break step, even one formed
    next to a replaced pair. */
  lemma {:induction false} NoEscapedNewlineLeft(s: string)
    ensures !Contains(UnescapeNewlines(s), ESCAPED_NEWLINE)
    decreases |s|
  {
    if s == [] {
    } else if StartsWith(s, ESCAPED_NEWLINE) {
      NoEscapedNewlineLeft(s[2..]);
      NewlinesAtEscape(s);
      ContainsPairAppend("\n", UnescapeNewlines(s[2..]), '\\', 'n');
    } else {
      NoEscapedNewlineLeft(s[1..]);
      NewlinesAtOther(s);
      ContainsPairAppend([s[0]], UnescapeNewlines(s[1..]), '\\', 'n');
      if |s| >= 2 {
        NewlinesHead(s[1..]);
      }
    }
  }

  /** After both steps no escaped line break remains. */
  lemma UnescapeLeavesNoEscapes(s: string)
    ensures !Contains(Unescape(s), ESCAPED_NEWLINE)
  {
    NoEscapedNewlineLeft(UnescapeParagraphBreaks(s));
  }

  // ---------------------------------------------------------------------
  // List blocks

  /** The list test: a bullet `- ` or `* ` at the very start or right after a line feed. */
  predicate IsListBlock(p: string) {
    Contains(p, "\n- ") || Contains(p, "\n* ") || StartsWith(p, "- ") || StartsWith(p, "* ")
  }

  /** Some line of `p` (lines separated by line feeds) begins with a bullet. */
  predicate HasBulletLine(p: string) {
    exists k | 0 <= k <= |p| :: (k == 0 || p[k - 1] == '\n') && IsBullet(p[k..])
  }

  predicate IsBullet(t: string) {
    StartsWith(t, "- ") || StartsWith(t, "* ")
  }

  /** A line feed and a two-character bullet occur at `i` exactly when a
    line feed is at `i` and the text after it starts with the bullet. */
  lemma OccursAfterLineFeed(p: string, i: int, b: string)
    requires |b| == 2
    ensures OccursAt(p, "\n" + b, i) <==> 0 <= i < |p| && p[i] == '\n' && StartsWith(p[i + 1..], b)
  {
    var q := "\n" + b;
    if 0 <= i && i + 3 <= |p| {
      assert p[i..i + 3] == [p[i]] + p[i + 1..][..2];
      assert q == ['\n'] + b;
      if p[i..i + 3] == q {
        assert p[i] == q[0];
        assert p[i + 1..][..2] == q[1..];
      }
    }
  }

  /** A bullet after a line feed is a bullet at the start of a line. */
  lemma BulletAfterLineFeed(p: string, b: string)
    requires b == "- " || b == "* "
    requires Contains(p, "\n" + b)
    ensures HasBulletLine(p)
  {
    var i :| 0 <= i <= |p| - 3 && OccursAt(p, "\n" + b, i);
    OccursAfterLineFeed(p, i, b);
    assert IsBullet(p[i + 1..]);
  }

  /** A bullet at the start of a later line is a line feed followed by a bullet. */
  lemma LineFeedBeforeBullet(p: string, k: int)
    requires 0 < k <= |p| && p[k - 1] == '\n' && IsBullet(p[k..])
    ensures Contains(p, "\n- ") || Contains(p, "\n* ")
  {
    assert "\n- " == "\n" + "- " && "\n* " == "\n" + "* ";
    OccursAfterLineFeed(p, k - 1, "- ");
    OccursAfterLineFeed(p, k - 1, "* ");
    assert OccursAt(p, "\n- ", k - 1) || OccursAt(p, "\n* ", k - 1);
  }

  /** The list test holds exactly when some line starts with a bullet. */
  lemma ListBlockIsBulletLine(p: string)
    ensures IsListBlock(p) <==> HasBulletLine(p)
  {
    assert "\n- " == "\n" + "- " && "\n* " == "\n" + "* ";
    if Contains(p, "\n- ") {
      BulletAfterLineFeed(p, "- ");
    }
    if Contains(p, "\n* ") {
      BulletAfterLineFeed(p, "* ");
    }
    if StartsWith(p, "- ") || StartsWith(p, "* ") {
      assert p[0..] == p;
      assert IsBullet(p[0..]);
    }
    if HasBulletLine(p) {
      var k :| 0 <= k <= |p| && (k == 0 || p[k - 1] == '\n') && IsBullet(p[k..]);
      if k == 0 {
        assert p[0..] == p;
      } else {
        LineFeedBeforeBullet(p, k);
      }
    }
  }

  // ---------------------------------------------------------------------
  // Code detection. Each regular expression is tested with the multiline
  // flag, so `^` matches at the start of the paragraph or after any line
  // terminator. In the first four patterns each repeated class is followed
  // by a character the class excludes, so backtracking never helps and each
  // is stated as a greedy scan from a line start. The fifth, `;\s*$`, does
  // need it: `\s` also takes line terminators, so the regex engine gives
  // back characters until `$` holds. It matches exactly when the semicolon
  // is followed by whitespace other than line terminators and then a line
  // terminator or the end, which is how `BlankToLineEnd` states it.

  const KEYWORDS: seq<string> :=
    ["import", "from", "def", "class", "function", "const", "let", "var", "if", "for", "while"]

  /** Pattern 1: a line starts with a keyword (a bare prefix; no word boundary). */
  predicate KeywordLed(p: string) {
    exists k | 0 <= k <= |p| :: LineStartAt(p, k) && StartsWithKeyword(p[k..])
  }

  predicate StartsWithKeyword(t: string) {
    exists w | w in KEYWORDS :: StartsWith(t, w)
  }

  predicate IsSpace(c: char) { c == ' ' }

  predicate IsIdentifierStart(c: char) {
    ('a' <= c <= 'z') || ('A' <= c <= 'Z') || c == '_'
  }

  /** A word character: letters, digits and underscore (`\w`). */
  predicate IsWordChar(c: char) {
    IsIdentifierStart(c) || ('0' <= c <= '9')
  }

  /** Pattern 2 at one line start: spaces, an identifier, whitespace (which
    may cross line breaks), then `=` or `:`. */
  predicate AssignmentAt(t: string) {
    var a := SpanLength(t, IsSpace);
    a < |t| && IsIdentifierStart(t[a]) &&
    var b := a + 1 + SpanLength(t[a + 1..], IsWordChar);
    var c := b + SpanLength(t[b..], IsWhitespace);
    c < |t| && (t[c] == '=' || t[c] == ':')
  }

  predicate AssignmentLed(p: string) {
    exists k | 0 <= k <= |p| :: LineStartAt(p, k) && AssignmentAt(p[k..])
  }

  /** Pattern 3 at one line start: spaces, then a bracket or brace. */
  predicate BracketAt(t: string) {
    var a := SpanLength(t, IsSpace);
    a < |t| && t[a] in "{}[]()"
  }

  predicate BracketLed(p: string) {
    exists k | 0 <= k <= |p| :: LineStartAt(p, k) && BracketAt(p[k..])
  }

  /** Pattern 4 at one line start: whitespace, then a line comment, a `#` or a block-comment opener. */
  predicate CommentAt(t: string) {
    var u := t[SpanLength(t, IsWhitespace)..];
    StartsWith(u, "//") || StartsWith(u, "#") || StartsWith(u, "/*")
  }

  predicate CommentLed(p: string) {
    exists k | 0 <= k <= |p| :: LineStartAt(p, k) && CommentAt(p[k..])
  }

  predicate IsInlineWhitespace(c: char) {
    IsWhitespace(c) && !IsLineTerminator(c)
  }

  /** Whitespace up to the end of a line (the multiline `\s*$` after
    backtracking: the shortest whitespace run that reaches a line end never
    holds a line terminator). */
  predicate BlankToLineEnd(t: string) {
    var a := SpanLength(t, IsInlineWhitespace);
    a == |t| || IsLineTerminator(t[a])
  }

  /** The regular-expression reading of `\s*$`: some run of whitespace,
    line terminators included, is followed by a line terminator or the
    end. The scan above agrees with it. */
  predicate WhitespaceThenLineEnd(t: string) {
    exists n | 0 <= n <= |t| ::
      (forall k | 0 <= k < n :: IsWhitespace(t[k])) && (n == |t| || IsLineTerminator(t[n]))
  }

  lemma BlankToLineEndIsRegex(t: string)
    ensures BlankToLineEnd(t) <==> WhitespaceThenLineEnd(t)
  {
    var a := SpanLength(t, IsInlineWhitespace);
    if BlankToLineEnd(t) {
      assert forall k | 0 <= k < a :: IsWhitespace(t[k]) by {
        forall k | 0 <= k < a ensures IsWhitespace(t[k]) {
          assert IsInlineWhitespace(t[k]);
        }
      }
    }
    if WhitespaceThenLineEnd(t) {
      var n :| 0 <= n <= |t| && (forall k | 0 <= k < n :: IsWhitespace(t[k]))
        && (n == |t| || IsLineTerminator(t[n]));
      if a < n {
        assert IsWhitespace(t[a]) && !IsInlineWhitespace(t[a]);
      }
    }
  }

  /** Pattern 5: some line ends with a semicolon, possibly followed by whitespace. */
  predicate SemicolonEnded(p: string) {
    exists i | 0 <= i < |p| :: p[i] == ';' && BlankToLineEnd(p[i + 1..])
  }

  /** At least one of the five patterns matches. */
  predicate HasCode(p: string) {
    KeywordLed(p) || AssignmentLed(p) || BracketLed(p) || CommentLed(p) || SemicolonEnded(p)
  }

  /** A pattern matches, and the paragraph spans more than two lines. */
  predicate LooksLikeCode(p: string) {
    HasCode(p) && Contains(p, "\n") && |Split(p, "\n")| > 2
  }

  /** The keyword pattern has no word boundary: any line starting `format` is code-like. */
  lemma KeywordIsBarePrefix(p: string, k: int)
    requires LineStartAt(p, k) && StartsWith(p[k..], "format")
    ensures HasCode(p)
  {
    assert p[k..][..3] == "format"[..3] == "for";
    assert KEYWORDS[9] == "for";
    assert "for" in KEYWORDS && StartsWith(p[k..], "for");
    assert StartsWithKeyword(p[k..]);
  }

  // ---------------------------------------------------------------------
  // Language tag

  /** The language tag of a fenced code paragraph: the first group any of
    whose markers occurs, in priority order, else `text`. */
  function Language(p: string): (lang: string)
    ensures lang in ["python", "javascript", "c", "java", "text"]
  {
    if Contains(p, "import ") || Contains(p, "def ") || Contains(p, "print(") then "python"
    else if Contains(p, "function ") || Contains(p, "const ") || Contains(p, "console.log") then "javascript"
    else if Contains(p, "#include") || Contains(p, "int main") then "c"
    else if Contains(p, "public class") || Contains(p, "System.out") then "java"
    else "text"
  }

  /** The marker table, highest priority first. */
  const LANGUAGE_MARKERS: seq<(string, seq<string>)> := [
    ("python", ["import ", "def ", "print("]),
    ("javascript", ["function ", "const ", "console.log"]),
    ("c", ["#include", "int main"]),
    ("java", ["public class", "System.out"])
  ]

  /** Table lookup: the tag of the first row with a marker occurring in `p`. */
  function FirstMatchingLanguage(table: seq<(string, seq<string>)>, p: string): string {
    if table == [] then "text"
    else if RowMatches(table[0], p) then table[0].0
    else FirstMatchingLanguage(table[1..], p)
  }

  /** A row of the table matches when one of its markers occurs in `p`. */
  predicate RowMatches(row: (string, seq<string>), p: string) {
    exists m | m in row.1 :: Contains(p, m)
  }

  lemma RowOfThree(tag: string, a: string, b: string, c: string, p: string)
    ensures RowMatches((tag, [a, b, c]), p) <==> Contains(p, a) || Contains(p, b) || Contains(p, c)
  {
    if Contains(p, a) { assert a in [a, b, c]; }
    if Contains(p, b) { assert b in [a, b, c]; }
    if Contains(p, c) { assert c in [a, b, c]; }
  }

  lemma RowOfTwo(tag: string, a: string, b: string, p: string)
    ensures RowMatches((tag, [a, b]), p) <==> Contains(p, a) || Contains(p, b)
  {
    if Contains(p, a) { assert a in [a, b]; }
    if Contains(p, b) { assert b in [a, b]; }
  }

  /** The tag chosen is the first row of the marker table that matches. */
  lemma LanguageFollowsTable(p: string)
    ensures Language(p) == FirstMatchingLanguage(LANGUAGE_MARKERS, p)
  {
    var t0 := LANGUAGE_MARKERS;
    var t1, t2, t3 := t0[1..], t0[2..], t0[3..];
    assert t1[1..] == t2 && t2[1..] == t3 && t3[1..] == [];
    RowOfThree("python", "import ", "def ", "print(", p);
    RowOfThree("javascript", "function ", "const ", "console.log", p);
    RowOfTwo("c", "#include", "int main", p);
    RowOfTwo("java", "public class", "System.out", p);
    assert FirstMatchingLanguage(t3, p) == if RowMatches(t3[0], p) then "java" else "text";
    assert FirstMatchingLanguage(t2, p)
      == if RowMatches(t2[0], p) then "c" else FirstMatchingLanguage(t3, p);
    assert FirstMatchingLanguage(t1, p)
      == if RowMatches(t1[0], p) then "javascript" else FirstMatchingLanguage(t2, p);
    assert FirstMatchingLanguage(t0, p)
      == if RowMatches(t0[0], p) then "python" else FirstMatchingLanguage(t1, p);
  }

  /** A code paragraph wrapped in a fence carrying its language tag. */
  function Fence(lang: string, p: string): string {
    "```" + lang + "\n" + p + "\n```"
  }

  // ---------------------------------------------------------------------
  // Paragraphs and the whole text

  /** One paragraph: trimmed; kept as it is when it is a list block or does
    not look like code; fenced otherwise. */
  function ConvertParagraph(raw: string): string {
    var p := Trim(raw);
    if IsListBlock(p) then p
    else if LooksLikeCode(p) then Fence(Language(p), p)
    else p
  }

  function ConvertAll(ps: seq<string>): (rs: seq<string>)
    ensures |rs| == |ps|
    ensures forall i :: 0 <= i < |ps| ==> rs[i] == ConvertParagraph(ps[i])
  {
    seq(|ps|, i requires 0 <= i < |ps| => ConvertParagraph(ps[i]))
  }

  /** The paragraphs of a text: its un-escaped form split at blank lines. */
  function Paragraphs(text: string): seq<string> {
    Split(Unescape(text), PARAGRAPH_BREAK)
  }

  /** The normaliser: every paragraph converted, rejoined with blank lines. */
  function ConvertToMarkdown(text: string): string {
    Join(ConvertAll(Paragraphs(text)), PARAGRAPH_BREAK)
  }

  /** A paragraph is fenced exactly when no line starts with a bullet, a
    code pattern matches and it holds at least two line feeds (three lines);
    otherwise it comes back trimmed. */
  lemma ParagraphFencedExactly(raw: string)
    ensures var p := Trim(raw);
      ConvertParagraph(raw) ==
        if !HasBulletLine(p) && HasCode(p) && multiset(p)['\n'] >= 2 then Fence(Language(p), p) else p
  {
    var p := Trim(raw);
    ListBlockIsBulletLine(p);
    SplitCharCount(p, '\n');
    ContainsChar(p, '\n');
    assert "\n" == ['\n'];
  }

  /** A paragraph with fewer than three lines is never fenced. */
  lemma ShortParagraphNotFenced(raw: string)
    requires multiset(Trim(raw))['\n'] < 2
    ensures ConvertParagraph(raw) == Trim(raw)
  {
    ParagraphFencedExactly(raw);
  }

  /** A list block is returned as trimmed, even when it also looks like code. */
  lemma ListParagraphKept(raw: string)
    requires HasBulletLine(Trim(raw))
    ensures ConvertParagraph(raw) == Trim(raw)
  {
    ParagraphFencedExactly(raw);
  }

  /** A fenced paragraph holds no blank line and ends with the closing fence. */
  lemma FenceIsolated(lang: string, p: string)
    requires '\n' !in lang
    requires p != [] && p[0] != '\n' && p[|p| - 1] != '\n' && !Contains(p, PARAGRAPH_BREAK)
    ensures !Contains(Fence(lang, p) + "\n", PARAGRAPH_BREAK)
  {
    var nl2 := ['\n', '\n'];
    assert PARAGRAPH_BREAK == nl2;
    var open := "```" + lang;
    assert '\n' !in open;
    NoPairWithout(open, '\n', '\n');
    var head := open + "\n";
    ContainsPairAppend(open, "\n", '\n', '\n');
    assert !Contains(head, nl2);
    var body := head + p;
    ContainsPairAppend(head, p, '\n', '\n');
    assert !Contains(body, nl2);
    var ticks := "```";
    NoPairWithout(ticks, '\n', '\n');
    var close := ticks + "\n";
    ContainsPairAppend(ticks, "\n", '\n', '\n');
    assert !Contains(close, nl2);
    var tail := "\n" + close;
    ContainsPairAppend("\n", close, '\n', '\n');
    assert !Contains(tail, nl2);
    ContainsPairAppend(body, tail, '\n', '\n');
    assert body[|body| - 1] == p[|p| - 1];
    assert Fence(lang, p) + "\n" == body + tail;
  }

  /** Trimming keeps a paragraph free of blank lines and leaves no line feed at either end. */
  lemma TrimmedParagraphShape(raw: string)
    requires !Contains(raw, PARAGRAPH_BREAK)
    ensures var p := Trim(raw);
      !Contains(p, PARAGRAPH_BREAK) && (p != [] ==> p[0] != '\n' && p[|p| - 1] != '\n')
  {
    var p := Trim(raw);
    var lead := LeadingWhitespace(raw);
    ContainsSlice(raw, lead, lead + |p|, PARAGRAPH_BREAK);
    assert IsWhitespace('\n');
  }

  /** A converted paragraph is its trimmed text or that text fenced. */
  lemma ConvertedParagraphShape(raw: string)
    ensures var p := Trim(raw);
      ConvertParagraph(raw) == p || (LooksLikeCode(p) && ConvertParagraph(raw) == Fence(Language(p), p))
  {
  }

  /** A converted paragraph holds no blank line and does not end with a line
    feed, so it cannot run into the separator that follows it. */
  lemma ConvertedParagraphIsolated(raw: string)
    requires !Contains(raw, PARAGRAPH_BREAK)
    ensures !Contains(ConvertParagraph(raw) + "\n", PARAGRAPH_BREAK)
  {
    var p := Trim(raw);
    TrimmedParagraphShape(raw);
    ConvertedParagraphShape(raw);
    var r := ConvertParagraph(raw);
    if r != p {
      assert Contains(p, "\n");
    }
    TrimmedOrFencedIsolated(p, r, Language(p));
  }

  /** The trimmed text, or that text fenced, followed by a line feed holds no blank line. */
  lemma TrimmedOrFencedIsolated(p: string, r: string, lang: string)
    requires '\n' !in lang
    requires !Contains(p, PARAGRAPH_BREAK) && (p != [] ==> p[0] != '\n' && p[|p| - 1] != '\n')
    requires r == p || (p != [] && r == Fence(lang, p))
    ensures !Contains(r + "\n", PARAGRAPH_BREAK)
  {
    if r == p {
      assert PARAGRAPH_BREAK == ['\n', '\n'];
      ContainsPairAppend(p, "\n", '\n', '\n');
    } else {
      FenceIsolated(lang, p);
    }
  }

  /** The output splits back at blank lines into exactly the converted
    paragraphs: one result per paragraph of the un-escaped text, in order. */
  lemma OutputSplitsIntoConvertedParagraphs(text: string)
    ensures Split(ConvertToMarkdown(text), PARAGRAPH_BREAK) == ConvertAll(Paragraphs(text))
    ensures |Split(ConvertToMarkdown(text), PARAGRAPH_BREAK)| == |Paragraphs(text)|
  {
    var ps := Paragraphs(text);
    var rs := ConvertAll(ps);
    assert PARAGRAPH_BREAK[..1] == "\n";
    forall k | 0 <= k < |rs|
      ensures !Contains(rs[k] + "\n", PARAGRAPH_BREAK) && !Contains(rs[k], PARAGRAPH_BREAK)
    {
      ConvertedParagraphIsolated(ps[k]);
      ContainsAppend(rs[k], "\n", PARAGRAPH_BREAK);
    }
    SplitJoin(rs, PARAGRAPH_BREAK);
  }

  /** A text with no escaped line break is its own un-escaped form. */
  lemma NothingToUnescape(text: string)
    requires !Contains(text, ESCAPED_NEWLINE)
    ensures Unescape(text) == text
  {
    ContainsPrefixOfPattern(text, ESCAPED_NEWLINE, ESCAPED_NEWLINE);
    assert ESCAPED_PARAGRAPH_BREAK == ESCAPED_NEWLINE + ESCAPED_NEWLINE;
  }

  /** A text without line feeds has no line feed after trimming either. */
  lemma TrimmedLineHasNoLineFeed(text: string)
    requires '\n' !in text
    ensures multiset(Trim(text))['\n'] == 0
  {
    var p := Trim(text);
    var lead := LeadingWhitespace(text);
    assert p == text[lead..lead + |p|];
    assert '\n' !in p;
  }

  /** A one-line text with no escaped line break comes back trimmed and unfenced. */
  lemma SingleLineComesBackTrimmed(text: string)
    requires '\n' !in text && !Contains(text, ESCAPED_NEWLINE)
    ensures ConvertToMarkdown(text) == Trim(text)
  {
    NothingToUnescape(text);
    NoPairWithout(text, '\n', '\n');
    assert PARAGRAPH_BREAK == ['\n', '\n'];
    SplitWithout(text, PARAGRAPH_BREAK);
    assert Paragraphs(text) == [text];
    TrimmedLineHasNoLineFeed(text);
    ShortParagraphNotFenced(text);
  }

  /** Empty input gives empty output. */
  lemma EmptyStaysEmpty()
    ensures ConvertToMarkdown("") == ""
  {
    SingleLineComesBackTrimmed("");
  }

  // ---------------------------------------------------------------------
  // Display

  /** Only assistant content is normalised; any other role's content is shown unchanged. */
  function DisplayedContent(role: Role, content: string): (shown: string)
    ensures role != Assistant ==> shown == content
    ensures role == Assistant ==> shown == ConvertToMarkdown(content)
  {
    if role == Assistant then ConvertToMarkdown(content) else content
  }

  // ---------------------------------------------------------------------
  // Fenced-code renderer helpers

  const LANGUAGE_CLASS_PREFIX: string := "language-"

  /** `language-` followed by at least one word character starts at offset `i`. */
  predicate LanguageClassAt(s: string, i: int) {
    OccursAt(s, LANGUAGE_CLASS_PREFIX, i) && i + |LANGUAGE_CLASS_PREFIX| < |s|
    && IsWordChar(s[i + |LANGUAGE_CLASS_PREFIX|])
  }

  /** The leftmost match of `/language-(\w+)/` at or after `from`. */
  function FindLanguageClass(s: string, from: nat): (r: Option<nat>)
    requires from <= |s|
    ensures r.Some? ==> from <= r.value && LanguageClassAt(s, r.value)
    ensures r.Some? ==> forall j :: from <= j < r.value ==> !LanguageClassAt(s, j)
    ensures r.None? ==> forall j :: from <= j <= |s| ==> !LanguageClassAt(s, j)
    decreases |s| - from
  {
    if from == |s| then None
    else if LanguageClassAt(s, from) then Some(from)
    else FindLanguageClass(s, from + 1)
  }

  /** The language a fenced code block is highlighted as: the word characters
    after the leftmost `language-` that is followed by one, else `text`. */
  function CodeBlockLanguage(className: Option<string>): (lang: string)
    ensures lang != [] && forall k :: 0 <= k < |lang| ==> IsWordChar(lang[k]) || lang == "text"
    ensures (forall j :: 0 <= j <= |className.GetOr("")| ==> !LanguageClassAt(className.GetOr(""), j))
      ==> lang == "text"
    ensures var s := className.GetOr("");
      FindLanguageClass(s, 0).Some? ==>
        var tail := s[FindLanguageClass(s, 0).value + |LANGUAGE_CLASS_PREFIX|..];
        // the longest run of word characters right after the leftmost match
        0 < |lang| <= |tail| && lang == tail[..|lang|]
        && (forall k :: 0 <= k < |lang| ==> IsWordChar(lang[k]))
        && (|lang| == |tail| || !IsWordChar(tail[|lang|]))
  {
    var s := className.GetOr("");
    match FindLanguageClass(s, 0)
    case None => "text"
    case Some(i) =>
      var tail := s[i + |LANGUAGE_CLASS_PREFIX|..];
      tail[..SpanLength(tail, IsWordChar)]
  }

  /** When a class `language-` + `w` begins the class name, with `w` a
    non-empty run of word characters, `w` is the language. */
  lemma CodeBlockLanguageOfClass(w: string)
    requires w != [] && forall k :: 0 <= k < |w| ==> IsWordChar(w[k])
    ensures CodeBlockLanguage(Some(LANGUAGE_CLASS_PREFIX + w)) == w
  {
    var s := LANGUAGE_CLASS_PREFIX + w;
    assert s[..|LANGUAGE_CLASS_PREFIX|] == LANGUAGE_CLASS_PREFIX;
    assert LanguageClassAt(s, 0);
    var tail := s[|LANGUAGE_CLASS_PREFIX|..];
    assert tail == w;
    assert SpanLength(tail, IsWordChar) == |w|;
  }

  /** The tag the normaliser writes on a fence is the language the renderer
    reads back from the `language-` class the markdown renderer gives it. */
  lemma FenceTagReadBack(p: string)
    ensures CodeBlockLanguage(Some(LANGUAGE_CLASS_PREFIX + Language(p))) == Language(p)
  {
    var lang := Language(p);
    assert forall k :: 0 <= k < |lang| ==> IsWordChar(lang[k]);
    CodeBlockLanguageOfClass(lang);
  }

  /** `/\n$/` without the multiline flag: at most one final line feed is removed. */
  function StripTrailingNewline(code: string): (r: string)
    ensures StartsWith(code, r)
    ensures |r| == |code| || |r| == |code| - 1
    ensures |r| < |code| <==> (code != [] && code[|code| - 1] == '\n')
  {
    if code != [] && code[|code| - 1] == '\n' then code[..|code| - 1] else code
  }

  /** The renderer gives back the fenced paragraph: the code text handed to
    it is the paragraph followed by one line feed. */
  lemma FencedCodeRecovered(p: string)
    ensures StripTrailingNewline(p + "\n") == p
  {
    assert (p + "\n")[..|p|] == p;
  }
}
