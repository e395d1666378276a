/**
 * The regular expressions of the classifier (categorizer.py, `PATTERNS`),
 * each written out as a predicate over the characters of the text, plus the
 * multi-line indentation heuristic.
 *
 * Python's `re.match` anchors at the start; `$` without MULTILINE matches at
 * the end or just before a final newline, which `EndAnchored` expresses.
 */
module Patterns {
  import opened Chars
  import opened PyStr

  // ---------------------------------------------------------------------
  // Shared pieces
  // ---------------------------------------------------------------------

  predicate EndsWithNewline(s: string) {
    |s| > 0 && s[|s| - 1] == '\n'
  }

  /** `s` without its final character (a newline, where it is used). */
  function DropLast(s: string): string
    requires |s| > 0
  {
    s[..|s| - 1]
  }

  /** The class `[^\s]` over a whole string. */
  predicate NoSpace(s: string) {
    forall i :: 0 <= i < |s| ==> !IsSpace(s[i])
  }

  /** The prefix `lit` (written in lower case) matched under `re.IGNORECASE`. */
  predicate StartsWithIgnoreCase(s: string, lit: string) {
    |lit| <= |s| && forall i :: 0 <= i < |lit| ==> MatchesIgnoreCase(s[i], lit[i])
  }

  // ---------------------------------------------------------------------
  // url: ^(?:https?://|file:///|ftp://)[^\s]+$
  //    | ^(?:www\.)?[a-zA-Z0-9][-a-zA-Z0-9]*\.[a-zA-Z]{2,}(?:/[^\s]*)?$
  //   (re.IGNORECASE)
  // ---------------------------------------------------------------------

  const UrlSchemes: seq<string> := ["http://", "https://", "file:///", "ftp://"]

  /** The first alternative: a scheme, then at least one non-space character. */
  predicate SchemeUrl(s: string) {
    exists k :: 0 <= k < |UrlSchemes| && StartsWithIgnoreCase(s, UrlSchemes[k])
                && |s| > |UrlSchemes[k]| && NoSpace(s[|UrlSchemes[k]|..])
  }

  predicate IsLabelChar(c: char) {
    IsAlnumIgnoreCase(c) || c == '-'
  }

  /** The length of the longest prefix of `u` made of letters. */
  function LetterRun(u: string): (j: nat)
    ensures j <= |u|
    ensures forall i :: 0 <= i < j ==> IsLetterIgnoreCase(u[i])
    ensures j < |u| ==> !IsLetterIgnoreCase(u[j])
  {
    if u != [] && IsLetterIgnoreCase(u[0]) then 1 + LetterRun(u[1..]) else 0
  }

  /** Every character of `s` from index `lo` to the end is non-space. */
  predicate NoSpaceFrom(s: string, lo: nat) {
    forall i :: lo <= i < |s| ==> !IsSpace(s[i])
  }

  /**
   * `t` matches `[a-zA-Z0-9][-a-zA-Z0-9]*\.[a-zA-Z]{2,}(?:/[^\s]*)?` with the
   * dot at `k` and the letters ending at `j`.
   */
  predicate DomainSplit(t: string, k: nat, j: nat) {
    && 0 < k && k + 3 <= j <= |t| && t[k] == '.' && IsAlnumIgnoreCase(t[0])
    && (forall i :: 1 <= i < k ==> IsLabelChar(t[i]))
    && (forall i :: k < i < j ==> IsLetterIgnoreCase(t[i]))
    && (j == |t| || (t[j] == '/' && NoSpaceFrom(t, j + 1)))
  }

  /** The regular language of the domain form: some split point works. */
  ghost predicate DomainLanguage(t: string) {
    exists k: nat, j: nat :: DomainSplit(t, k, j)
  }

  /**
   * The domain form, scanned: the label class has no dot, so the dot is the
   * first one; the letters after it run up to the first non-letter.
   */
  predicate DomainCore(t: string) {
    var k := IndexOf(t, '.');
    k < |t| && DomainSplit(t, k, k + 1 + LetterRun(t[k + 1..]))
  }

  /** The second alternative, with its optional `www.`. */
  predicate DomainUrl(s: string) {
    DomainCore(s) || (StartsWithIgnoreCase(s, "www.") && DomainCore(s[4..]))
  }

  predicate UrlBody(s: string) {
    SchemeUrl(s) || DomainUrl(s)
  }

  predicate UrlPattern(s: string) {
    UrlBody(s) || (EndsWithNewline(s) && UrlBody(DropLast(s)))
  }

  /** The scanning definition of the domain form accepts exactly its regular language. */
  lemma DomainCoreIsLanguage(t: string)
    ensures DomainCore(t) <==> DomainLanguage(t)
  {
    if DomainLanguage(t) {
      var k: nat, j: nat :| DomainSplit(t, k, j);
      DomainSplitUnique(t, k, j);
    }
  }

  /** Only the first dot and the end of the letter run after it can split the domain form. */
  lemma DomainSplitUnique(t: string, k: nat, j: nat)
    requires DomainSplit(t, k, j)
    ensures k == IndexOf(t, '.') && j == k + 1 + LetterRun(t[k + 1..])
  {
    assert IsLabelChar(t[0]) ==> t[0] != '.';
    var u := t[k + 1..];
    forall i | 0 <= i < j - k - 1 ensures IsLetterIgnoreCase(u[i]) {
      assert u[i] == t[k + 1 + i];
    }
    if j < |t| {
      assert u[j - k - 1] == t[j];
    }
    LetterRunExact(u, j - k - 1);
  }

  /** A run of letters followed by a non-letter (or the end) is the letter run. */
  lemma {:induction false} LetterRunExact(u: string, j: nat)
    requires j <= |u|
    requires forall i :: 0 <= i < j ==> IsLetterIgnoreCase(u[i])
    requires j < |u| ==> !IsLetterIgnoreCase(u[j])
    ensures LetterRun(u) == j
  {
    if j > 0 {
      LetterRunExact(u[1..], j - 1);
    }
  }

  // ---------------------------------------------------------------------
  // email: ^[a-zA-Z0-9._%+-]+@[a-zA-Z0-9.-]+\.[a-zA-Z]{2,}$  (re.IGNORECASE)
  // ---------------------------------------------------------------------

  predicate IsLocalChar(c: char) {
    IsAlnumIgnoreCase(c) || c == '.' || c == '_' || c == '%' || c == '+' || c == '-'
  }

  predicate IsHostChar(c: char) {
    IsAlnumIgnoreCase(c) || c == '.' || c == '-'
  }

  /** `s` matches the e-mail pattern with the `@` at `a` and the final dot at `l`. */
  predicate EmailSplit(s: string, a: nat, l: nat) {
    && 0 < a && a + 1 < l && l + 3 <= |s| && s[a] == '@' && s[l] == '.'
    && (forall i :: 0 <= i < a ==> IsLocalChar(s[i]))
    && (forall i :: a < i < l ==> IsHostChar(s[i]))
    && (forall i :: l < i < |s| ==> IsLetterIgnoreCase(s[i]))
  }

  /** The regular language of the e-mail form: some split point works. */
  ghost predicate EmailLanguage(s: string) {
    exists a: nat, l: nat :: EmailSplit(s, a, l)
  }

  /**
   * The e-mail form, scanned: the local class has no `@`, so the `@` is the
   * first one; the final label is letters only, so its dot is the last one.
   */
  predicate EmailBody(s: string) {
    var a := IndexOf(s, '@');
    var l := LastIndexOf(s, '.');
    l >= 0 && EmailSplit(s, a, l)
  }

  predicate EmailPattern(s: string) {
    EmailBody(s) || (EndsWithNewline(s) && EmailBody(DropLast(s)))
  }

  /** The scanning definition of the e-mail form accepts exactly its regular language. */
  lemma EmailBodyIsLanguage(s: string)
    ensures EmailBody(s) <==> EmailLanguage(s)
  {
    if EmailLanguage(s) {
      var a: nat, l: nat :| EmailSplit(s, a, l);
      EmailSplitUnique(s, a, l);
    }
  }

  /** Only the first `@` and the last dot can split the e-mail form. */
  lemma EmailSplitUnique(s: string, a: nat, l: nat)
    requires EmailSplit(s, a, l)
    ensures a == IndexOf(s, '@') && l == LastIndexOf(s, '.')
  {
  }

  // ---------------------------------------------------------------------
  // phone: ^[\d\-\(\)\+\s]{10,}$, and digits only once separators are removed
  // ---------------------------------------------------------------------

  predicate IsPhoneChar(c: char) {
    IsDigit(c) || c == '-' || c == '(' || c == ')' || c == '+' || IsSpace(c)
  }

  predicate PhoneBody(s: string) {
    |s| >= 10 && forall i :: 0 <= i < |s| ==> IsPhoneChar(s[i])
  }

  predicate PhonePattern(s: string) {
    PhoneBody(s) || (EndsWithNewline(s) && PhoneBody(DropLast(s)))
  }

  /** The characters removed, one `str.replace` each, before `isdigit()`. */
  const PhoneSeparators: set<char> := {'-', ' ', '(', ')', '+'}

  /** Both phone conditions of the classifier. */
  predicate PhoneRule(s: string) {
    PhonePattern(s) && IsDigits(RemoveAll(s, PhoneSeparators))
  }

  // ---------------------------------------------------------------------
  // filepath: ^(?:[a-zA-Z]:\\|/(?:home|usr|var|etc|opt|tmp|mnt|media)|~/)[\w\\/\-\.\s]+$
  // ---------------------------------------------------------------------

  const UnixRoots: seq<string> := ["/home", "/usr", "/var", "/etc", "/opt", "/tmp", "/mnt", "/media"]

  predicate IsPathChar(c: char) {
    IsWordChar(c) || c == '\\' || c == '/' || c == '-' || c == '.' || IsSpace(c)
  }

  /** At least one path character from index `n` to the end. */
  predicate PathTail(s: string, n: nat) {
    n < |s| && forall i :: n <= i < |s| ==> IsPathChar(s[i])
  }

  predicate FilepathBody(s: string) {
    || (|s| >= 3 && IsAsciiLetter(s[0]) && s[1] == ':' && s[2] == '\\' && PathTail(s, 3))
    || (exists k :: 0 <= k < |UnixRoots| && StartsWith(s, UnixRoots[k]) && PathTail(s, |UnixRoots[k]|))
    || (StartsWith(s, "~/") && PathTail(s, 2))
  }

  predicate FilepathPattern(s: string) {
    FilepathBody(s) || (EndsWithNewline(s) && FilepathBody(DropLast(s)))
  }

  // ---------------------------------------------------------------------
  // The multi-line indentation heuristic
  // ---------------------------------------------------------------------

  /** `line.startswith(("  ", "\t"))`. */
  predicate IsIndented(line: string) {
    StartsWith(line, "  ") || StartsWith(line, "\t")
  }

  function CountIndented(lines: seq<string>): (n: nat)
    ensures n <= |lines|
  {
    if lines == [] then 0
    else (if IsIndented(lines[0]) then 1 else 0) + CountIndented(lines[1..])
  }

  /**
   * More than one line, and at least 30% of them indented.
   * `categorize_text_rule_based`'s floating-point test
   * `indented >= len(lines) * 0.3` is the integer test below.
   */
  predicate IndentHeuristic(s: string) {
    var lines := Split(s, '\n');
    |lines| > 1 && 10 * CountIndented(lines) >= 3 * |lines|
  }

  // ---------------------------------------------------------------------
  // code (re.MULTILINE, searched anywhere):
  //   ^\s*(def|class|...|protected)\s+ | [{}\[\]];$ | ^\s*[#//] | =>\s*[{(]
  //   | ^\s*@\w+ | <[a-zA-Z][^>]*/?>
  // ---------------------------------------------------------------------

  const Keywords: seq<string> :=
    ["def", "class", "function", "const", "let", "var", "import", "from",
     "export", "public", "private", "protected"]

  /**
   * `^\s*` ending at `q` under MULTILINE: some line start at or before `q`
   * with nothing but whitespace (newlines included) in between.
   */
  predicate LineIndentAt(s: string, q: nat)
    requires q <= |s|
  {
    exists p: nat :: p <= q && IsLineStart(s, p) && SpaceBetween(s, p, q)
  }

  /** `^` under MULTILINE: the start of the text or just after a newline. */
  predicate IsLineStart(s: string, p: nat) {
    p == 0 || (p <= |s| && s[p - 1] == '\n')
  }

  /** A keyword at `q`, after `^\s*`, followed by one whitespace character. */
  predicate KeywordAt(s: string, q: nat)
    requires q < |s|
  {
    LineIndentAt(s, q)
    && exists k :: 0 <= k < |Keywords| && q + |Keywords[k]| < |s|
                   && s[q..q + |Keywords[k]|] == Keywords[k] && IsSpace(s[q + |Keywords[k]|])
  }

  /** `[{}\[\]];$`: a brace or bracket, a semicolon, then a line end. */
  predicate BraceSemicolonAt(s: string, q: nat)
    requires q < |s|
  {
    q + 1 < |s| && s[q] in "{}[]" && s[q + 1] == ';' && (q + 2 == |s| || s[q + 2] == '\n')
  }

  /** `^\s*[#//]`: `#` or `/` after `^\s*`. */
  predicate CommentAt(s: string, q: nat)
    requires q < |s|
  {
    LineIndentAt(s, q) && (s[q] == '#' || s[q] == '/')
  }

  /** `=>\s*[{(]`. */
  predicate ArrowAt(s: string, q: nat)
    requires q < |s|
  {
    q + 1 < |s| && s[q] == '=' && s[q + 1] == '>'
    && exists j :: q + 2 <= j < |s| && (s[j] == '{' || s[j] == '(')
                   && forall i :: q + 2 <= i < j ==> IsSpace(s[i])
  }

  /** `^\s*@\w+`. */
  predicate DecoratorAt(s: string, q: nat)
    requires q < |s|
  {
    LineIndentAt(s, q) && s[q] == '@' && q + 1 < |s| && IsWordChar(s[q + 1])
  }

  /**
   * The tag alternative: `<`, an ASCII letter, characters other than `>`,
   * then `>`. Its optional slash adds nothing, since `[^>]` admits a slash.
   */
  predicate TagAt(s: string, q: nat)
    requires q < |s|
  {
    q + 1 < |s| && s[q] == '<' && IsAsciiLetter(s[q + 1])
    && exists j :: q + 1 < j < |s| && s[j] == '>' && forall i :: q + 1 < i < j ==> s[i] != '>'
  }

  predicate CodeMarkerAt(s: string, q: nat)
    requires q < |s|
  {
    KeywordAt(s, q) || BraceSemicolonAt(s, q) || CommentAt(s, q)
    || ArrowAt(s, q) || DecoratorAt(s, q) || TagAt(s, q)
  }

  /** `PATTERNS["code"].search(s)` succeeds. */
  predicate CodeSearch(s: string) {
    exists q :: 0 <= q < |s| && CodeMarkerAt(s, q)
  }

  // ---------------------------------------------------------------------
  // Facts about the patterns
  // ---------------------------------------------------------------------

  /** On trimmed text (as the classifier sees it) `$` is simply the end. */
  lemma TrimmedAnchors(s: string)
    requires IsTrimmed(s)
    ensures UrlPattern(s) == UrlBody(s)
    ensures EmailPattern(s) == EmailBody(s)
    ensures PhonePattern(s) == PhoneBody(s)
    ensures FilepathPattern(s) == FilepathBody(s)
  {
    assert IsSpace('\n');
  }

  /**
   * The two phone conditions together: at least ten characters, every one a
   * digit or one of the five removed separators, and at least one digit.
   * Tabs, newlines and other whitespace pass the pattern but not `isdigit()`.
   */
  lemma PhoneRuleIff(s: string)
    ensures PhoneRule(s) <==>
              && |s| >= 10
              && (forall i :: 0 <= i < |s| ==> IsDigit(s[i]) || s[i] in PhoneSeparators)
              && (exists i :: 0 <= i < |s| && IsDigit(s[i]))
  {
    var r := RemoveAll(s, PhoneSeparators);
    if PhoneRule(s) {
      forall i | 0 <= i < |s| ensures IsDigit(s[i]) || s[i] in PhoneSeparators {
        if s[i] !in PhoneSeparators {
          assert s[i] in r;
        }
      }
      assert r[0] in s;
    }
    if && |s| >= 10
       && (forall i :: 0 <= i < |s| ==> IsDigit(s[i]) || s[i] in PhoneSeparators)
       && (exists i :: 0 <= i < |s| && IsDigit(s[i]))
    {
      var d :| 0 <= d < |s| && IsDigit(s[d]);
      assert s[d] !in PhoneSeparators;
      assert s[d] in r;
      assert IsSpace(' ');
      assert PhoneBody(s);
    }
  }

  /** The start of the line holding position `q`. */
  function LineStartOf(s: string, q: nat): (p: nat)
    requires q <= |s|
    ensures p <= q && IsLineStart(s, p)
    ensures forall i :: p <= i < q ==> s[i] != '\n'
  {
    if q == 0 then 0 else if s[q - 1] == '\n' then q else LineStartOf(s, q - 1)
  }

  /**
   * `^\s*` may cross blank lines, but that adds nothing: it ends at `q`
   * exactly when the line holding `q` has only whitespace before `q`.
   */
  lemma LineIndentOwnLine(s: string, q: nat)
    requires q <= |s|
    ensures LineIndentAt(s, q) <==> SpaceBetween(s, LineStartOf(s, q), q)
  {
    var p0 := LineStartOf(s, q);
    if LineIndentAt(s, q) {
      var p: nat :| p <= q && IsLineStart(s, p) && SpaceBetween(s, p, q);
    }
  }

  /** Fewer than ten characters are never a phone number. */
  lemma ShortIsNotPhone(s: string)
    requires |s| < 10
    ensures !PhoneRule(s)
  {
    PhoneRuleIff(s);
  }

  /** A tab, newline or other whitespace besides the space makes the digit check fail. */
  lemma OtherWhitespaceIsNotPhone(s: string, w: nat)
    requires w < |s| && IsSpace(s[w]) && s[w] != ' '
    ensures !PhoneRule(s)
  {
    PhoneRuleIff(s);
    assert !IsDigit(s[w]) && s[w] !in PhoneSeparators;
  }

  /** The tag alternative needs only some `>` after the letter. */
  lemma TagAtIff(s: string, q: nat)
    requires q < |s|
    ensures TagAt(s, q) <==>
              q + 1 < |s| && s[q] == '<' && IsAsciiLetter(s[q + 1]) && '>' in s[q + 2..]
  {
    if q + 1 < |s| && s[q] == '<' && IsAsciiLetter(s[q + 1]) && '>' in s[q + 2..] {
      var j := q + 2 + IndexOf(s[q + 2..], '>');
      assert s[j] == '>';
      forall i | q + 1 < i < j ensures s[i] != '>' {
        assert s[i] == s[q + 2..][i - q - 2];
      }
    }
    if TagAt(s, q) {
      var j :| q + 1 < j < |s| && s[j] == '>' && forall i :: q + 1 < i < j ==> s[i] != '>';
      assert s[q + 2..][j - q - 2] == '>';
    }
  }

  /** The heuristic on text given as its lines. */
  lemma IndentHeuristicOfLines(lines: seq<string>)
    requires |lines| >= 1
    requires forall k :: 0 <= k < |lines| ==> '\n' !in lines[k]
    ensures IndentHeuristic(Join(lines, '\n')) <==>
              |lines| > 1 && 10 * CountIndented(lines) >= 3 * |lines|
  {
    SplitJoin(lines, '\n');
  }

  /**
   * The Unix form of the file-path pattern: one of the eight roots, then at
   * least one path character. The root need not end a component, so
   * `/homework` is a path as much as `/home/x`.
   */
  lemma UnixRootPathAccepted(k: nat, tail: string)
    requires k < |UnixRoots| && tail != []
    requires forall i :: 0 <= i < |tail| ==> IsPathChar(tail[i])
    ensures FilepathBody(UnixRoots[k] + tail)
  {
    var s := UnixRoots[k] + tail;
    assert s[..|UnixRoots[k]|] == UnixRoots[k];
    forall i | |UnixRoots[k]| <= i < |s| ensures IsPathChar(s[i]) {
      assert s[i] == tail[i - |UnixRoots[k]|];
    }
  }

  /** A line whose first non-blank character is `#` or `/` makes the text code. */
  lemma CommentLineIsCode(s: string, p: nat, q: nat)
    requires p <= q < |s| && IsLineStart(s, p) && SpaceBetween(s, p, q)
    requires s[q] == '#' || s[q] == '/'
    ensures CodeSearch(s)
  {
    assert LineIndentAt(s, q);
    assert CodeMarkerAt(s, q);
  }

  /** A `<`, a letter and a later `>` anywhere make the text code. */
  lemma TagIsCode(s: string, q: nat)
    requires q + 1 < |s| && s[q] == '<' && IsAsciiLetter(s[q + 1]) && '>' in s[q + 2..]
    ensures CodeSearch(s)
  {
    TagAtIff(s, q);
    assert CodeMarkerAt(s, q);
  }

  /** An e-mail address has an `@` but neither `:` nor `/`. */
  lemma EmailShape(s: string)
    requires EmailPattern(s)
    ensures '@' in s && ':' !in s && '/' !in s
  {
    if EmailBody(s) {
      EmailBodyShape(s);
    } else {
      EmailBodyShape(DropLast(s));
      DropLastKeeps(s);
    }
  }

  lemma EmailBodyShape(b: string)
    requires EmailBody(b)
    ensures '@' in b && ':' !in b && '/' !in b
  {
    var a, l := IndexOf(b, '@'), LastIndexOf(b, '.');
    assert EmailSplit(b, a, l);
    forall i | 0 <= i < |b| ensures b[i] != ':' && b[i] != '/' {
      if i < a { assert IsLocalChar(b[i]); }
      else if a < i < l { assert IsHostChar(b[i]); }
      else if l < i { assert IsLetterIgnoreCase(b[i]); }
    }
  }

  /** A scheme URL has a `:`. */
  lemma SchemeUrlHasColon(s: string)
    requires SchemeUrl(s)
    ensures ':' in s
  {
    var k :| 0 <= k < |UrlSchemes| && StartsWithIgnoreCase(s, UrlSchemes[k])
             && |s| > |UrlSchemes[k]| && NoSpace(s[|UrlSchemes[k]|..]);
    var c := if k == 0 || k == 2 then 4 else if k == 1 then 5 else 3;
    assert UrlSchemes[k][c] == ':';
    assert MatchesIgnoreCase(s[c], ':');
  }

  /** In the domain form an `@` can only come after a `/`. */
  lemma DomainAtNeedsSlash(t: string)
    requires DomainCore(t)
    requires '/' !in t
    ensures '@' !in t
  {
    var k := IndexOf(t, '.');
    var j := k + 1 + LetterRun(t[k + 1..]);
    assert DomainSplit(t, k, j);
    forall i | 0 <= i < |t| ensures t[i] != '@' {
      if 0 < i < k { assert IsLabelChar(t[i]); }
      else if k < i < j { assert IsLetterIgnoreCase(t[i]); }
    }
  }

  /** Text with an `@` but neither `:` nor `/` matches neither URL alternative. */
  lemma AtWithoutColonOrSlashIsNotUrl(b: string)
    requires '@' in b && ':' !in b && '/' !in b
    ensures !UrlBody(b)
  {
    if SchemeUrl(b) {
      SchemeUrlHasColon(b);
    }
    if DomainCore(b) {
      DomainAtNeedsSlash(b);
    }
    if |b| >= 4 && StartsWithIgnoreCase(b, "www.") {
      var c := b[4..];
      var at := IndexOf(b, '@');
      forall i | 0 <= i < 4 ensures b[i] != '@' {
        assert MatchesIgnoreCase(b[i], "www."[i]);
      }
      assert at >= 4;
      {
        assert c[at - 4] == '@';
        if DomainCore(c) {
          assert '/' !in c by {
            forall i | 0 <= i < |c| ensures c[i] != '/' { assert c[i] == b[i + 4]; }
          }
          DomainAtNeedsSlash(c);
        }
      }
    }
  }

  /**
   * The URL pattern never accepts an e-mail address: it cannot cross the
   * `@` (the scheme form needs a `:`, the domain form allows `@` only after
   * a `/`, and an address has neither).
   */
  lemma EmailIsNotUrl(s: string)
    requires EmailPattern(s)
    ensures !UrlPattern(s)
  {
    EmailShape(s);
    AtWithoutColonOrSlashIsNotUrl(s);
    if EndsWithNewline(s) {
      DropLastKeeps(s);
      AtWithoutColonOrSlashIsNotUrl(DropLast(s));
    }
  }

  /** Dropping a final newline keeps every other character. */
  lemma DropLastKeeps(s: string)
    requires EndsWithNewline(s)
    ensures forall c :: c != '\n' ==> (c in s <==> c in DropLast(s))
  {
    assert s == DropLast(s) + ['\n'];
  }


  /**
   * Text made only of digits and the phone separators has no `:`, `.` or
   * `@`, so neither the URL nor the e-mail pattern accepts it.
   */
  lemma PhoneCharsRuleOutEarlierForms(s: string)
    requires IsTrimmed(s)
    requires forall i :: 0 <= i < |s| ==> IsDigit(s[i]) || s[i] in PhoneSeparators
    ensures '/' !in s && '.' !in s
    ensures !UrlPattern(s) && !EmailPattern(s)
  {
    TrimmedAnchors(s);
    PhoneCharsHaveNoMarks(s);
    NoColonOrDotIsNotUrl(s);
    assert IndexOf(s, '@') == |s|;
  }

  lemma PhoneCharsHaveNoMarks(s: string)
    requires forall i :: 0 <= i < |s| ==> IsDigit(s[i]) || s[i] in PhoneSeparators
    ensures ':' !in s && '@' !in s && '.' !in s && '/' !in s
  {
    forall i | 0 <= i < |s| ensures s[i] !in ":@./" {
      assert IsDigit(s[i]) || s[i] in PhoneSeparators;
    }
  }

  /** Without a `:` the scheme form fails, and without a `.` the domain form does. */
  lemma NoColonOrDotIsNotUrl(b: string)
    requires ':' !in b && '.' !in b
    ensures !UrlBody(b)
  {
    if SchemeUrl(b) {
      SchemeUrlHasColon(b);
    }
    assert IndexOf(b, '.') == |b|;
    if |b| >= 4 {
      assert b[3] != '.';
      assert !MatchesIgnoreCase(b[3], "www."[3]);
    }
  }


  /** Trimmed text containing whitespace is neither a URL nor an e-mail address. */
  lemma SpacedIsNotUrlOrEmail(s: string, w: nat)
    requires IsTrimmed(s) && w < |s| && IsSpace(s[w])
    ensures !UrlPattern(s) && !EmailPattern(s)
  {
    TrimmedAnchors(s);
    SpacedIsNotUrlBody(s, w);
    SpacedIsNotEmail(s, w);
  }

  lemma SpacedIsNotUrlBody(s: string, w: nat)
    requires w < |s| && IsSpace(s[w])
    ensures !UrlBody(s)
  {
    SpacedIsNotSchemeUrl(s, w);
    SpacedIsNotDomain(s, w);
    if |s| >= 4 {
      if w < 4 {
        assert !MatchesIgnoreCase(s[w], "www."[w]);
      } else {
        SpacedIsNotDomain(s[4..], w - 4);
      }
    }
  }

  lemma SpacedIsNotSchemeUrl(s: string, w: nat)
    requires w < |s| && IsSpace(s[w])
    ensures !SchemeUrl(s)
  {
    forall k | 0 <= k < |UrlSchemes| && StartsWithIgnoreCase(s, UrlSchemes[k]) && |s| > |UrlSchemes[k]|
      ensures !NoSpace(s[|UrlSchemes[k]|..])
    {
      var n := |UrlSchemes[k]|;
      SchemeNoSpace(k);
      PrefixNoSpace(s, UrlSchemes[k]);
      assert n <= w;
      assert s[w] == s[n..][w - n];
    }
  }

  lemma SchemeNoSpace(k: nat)
    requires k < |UrlSchemes|
    ensures NoSpace(UrlSchemes[k])
  {
    var u := UrlSchemes[k];
    forall i | 0 <= i < |u| ensures !IsSpace(u[i]) {
      assert u[i] in "htpsfile:/";
    }
  }

  /** Text that starts with a space-free literal, ignoring case, has no space there. */
  lemma PrefixNoSpace(s: string, lit: string)
    requires StartsWithIgnoreCase(s, lit) && NoSpace(lit)
    ensures forall i :: 0 <= i < |lit| ==> !IsSpace(s[i])
  {
    forall i | 0 <= i < |lit| ensures !IsSpace(s[i]) {
      assert MatchesIgnoreCase(s[i], lit[i]) && !IsSpace(lit[i]);
    }
  }



  lemma SpacedIsNotDomain(t: string, x: nat)
    requires x < |t| && IsSpace(t[x])
    ensures !DomainCore(t)
  {
    var k := IndexOf(t, '.');
    if k < |t| {
      var j := k + 1 + LetterRun(t[k + 1..]);
      if x == 0 { assert !IsAlnumIgnoreCase(t[0]); }
      else if x < k { assert !IsLabelChar(t[x]); }
      else if k < x < j { assert !IsLetterIgnoreCase(t[x]); }
    }
  }

  lemma SpacedIsNotEmail(s: string, w: nat)
    requires w < |s| && IsSpace(s[w])
    ensures !EmailBody(s)
  {
    var a, l := IndexOf(s, '@'), LastIndexOf(s, '.');
    if w < a { assert !IsLocalChar(s[w]); }
    else if a < w < l { assert !IsHostChar(s[w]); }
    else if l < w { assert !IsLetterIgnoreCase(s[w]); }
  }
}
