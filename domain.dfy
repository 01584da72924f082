// The domain grammar of `is_valid_domain` and the trailing-junk cleanup of
// `convert_domains`, stated over characters: a candidate is split at every
// '.', and the parts are checked as labels and a top-level domain.
//
// The two regular expressions of the converter carry stray spaces around `$`
// (converter.py:18 and converter.py:40). `ValidDomain` and `CleanTrailing`
// give the grammar with those spaces removed; the `Literal…` members give the
// patterns as they are written and prove that they match nothing.

module Domain {
  import opened Text

  predicate IsAsciiLetter(c: char) {
    'a' <= c <= 'z' || 'A' <= c <= 'Z'
  }

  predicate IsAsciiAlnum(c: char) {
    IsAsciiLetter(c) || '0' <= c <= '9'
  }

  predicate IsLabelChar(c: char) {
    IsAsciiAlnum(c) || c == '-'
  }

  /** A character that can occur in a domain without its wildcard prefix. */
  predicate IsHostChar(c: char) {
    IsLabelChar(c) || c == '.'
  }

  /** `[a-zA-Z0-9]([a-zA-Z0-9\-]{0,61}[a-zA-Z0-9])?`: 1 to 63 alphanumerics or
      hyphens, starting and ending with an alphanumeric. */
  predicate ValidLabel(l: string) {
    1 <= |l| <= 63 && IsAsciiAlnum(l[0]) && IsAsciiAlnum(l[|l| - 1])
    && forall i :: 0 <= i < |l| ==> IsLabelChar(l[i])
  }

  /** `[a-zA-Z]{2,}`: the top-level domain. */
  predicate ValidTld(t: string) {
    |t| >= 2 && forall i :: 0 <= i < |t| ==> IsAsciiLetter(t[i])
  }

  /** The parts of `s` between its dots (Python's `s.split('.')`). */
  function Split(s: string): (parts: seq<string>)
    ensures |parts| >= 1
  {
    if s == [] then [[]]
    else
      var rest := Split(s[1..]);
      if s[0] == '.' then [[]] + rest
      else [[s[0]] + rest[0]] + rest[1..]
  }

  /** The parts hold no dot, joining them with dots gives `s` back, and the
      first part is a prefix of `s`. */
  lemma {:induction false} SplitSpec(s: string)
    ensures var parts := Split(s);
            && (forall i :: 0 <= i < |parts| ==> '.' !in parts[i])
            && Join(parts, '.') == s
            && parts[0] == s[..|parts[0]|]
  {
    if s != [] {
      var rest := Split(s[1..]);
      SplitSpec(s[1..]);
      var parts := Split(s);
      if s[0] == '.' {
        assert parts[1..] == rest;
      } else {
        assert parts[1..] == rest[1..];
        assert s == [s[0]] + s[1..];
        if |rest| > 1 {
          assert Join(rest, '.') == rest[0] + ['.'] + Join(rest[1..], '.');
        }
      }
    }
  }

  /** Splitting text that starts with a dot-free `x` puts `x` in front of the
      first part. */
  lemma {:induction false} SplitPrepend(x: string, y: string)
    requires '.' !in x
    ensures Split(x + y) == [x + Split(y)[0]] + Split(y)[1..]
  {
    if x == [] {
      assert x + y == y;
      assert x + Split(y)[0] == Split(y)[0];
      assert [Split(y)[0]] + Split(y)[1..] == Split(y);
    } else {
      assert (x + y)[0] == x[0] && (x + y)[1..] == x[1..] + y;
      SplitPrepend(x[1..], y);
      assert [x[0]] + (x[1..] + Split(y)[0]) == x + Split(y)[0];
    }
  }

  /** Splitting undoes joining, as long as no part contains a dot. */
  lemma {:induction false} SplitJoin(parts: seq<string>)
    requires |parts| >= 1
    requires forall i :: 0 <= i < |parts| ==> '.' !in parts[i]
    ensures Split(Join(parts, '.')) == parts
  {
    if |parts| == 1 {
      SplitPrepend(parts[0], "");
      assert parts[0] + "" == parts[0];
    } else {
      var tail := Join(parts[1..], '.');
      SplitJoin(parts[1..]);
      assert Split("." + tail) == [[]] + parts[1..] by {
        assert ("." + tail)[0] == '.' && ("." + tail)[1..] == tail;
      }
      SplitPrepend(parts[0], "." + tail);
      assert parts[0] + "." + tail == parts[0] + ("." + tail);
      assert parts[0] + [] == parts[0];
      assert [parts[0]] + parts[1..] == parts;
    }
  }

  /** The part after the optional wildcard: `(label\.)+tld`, read off the
      split at dots. */
  predicate Body(s: string) {
    var parts := Split(s);
    |parts| >= 2
    && (forall i :: 0 <= i < |parts| - 1 ==> ValidLabel(parts[i]))
    && ValidTld(parts[|parts| - 1])
  }

  /** The intended grammar of converter.py:18: `^(\*\.)?(label\.)+tld$`. */
  predicate ValidDomain(s: string) {
    Body(s) || (|s| >= 2 && s[..2] == "*." && Body(s[2..]))
  }

  // ---------------------------------------------------------------------------
  // The grammar as the regular expression states it: labels each followed by a
  // dot, then the top-level domain.

  function DotTerminated(labels: seq<string>): string {
    if labels == [] then "" else labels[0] + "." + DotTerminated(labels[1..])
  }

  ghost predicate RegexShape(s: string, labels: seq<string>, tld: string) {
    |labels| >= 1
    && (forall i :: 0 <= i < |labels| ==> ValidLabel(labels[i]))
    && ValidTld(tld)
    && s == DotTerminated(labels) + tld
  }

  lemma {:induction false} JoinDotTerminated(parts: seq<string>)
    requires |parts| >= 1
    ensures Join(parts, '.') == DotTerminated(parts[..|parts| - 1]) + parts[|parts| - 1]
  {
    if |parts| > 1 {
      JoinDotTerminated(parts[1..]);
      assert parts[1..][..|parts| - 2] == parts[..|parts| - 1][1..];
    }
  }

  /** The split reading of the grammar agrees with the regular expression's
      reading: `Body(s)` holds exactly when `s` is some non-empty list of
      labels, each followed by a dot, then a top-level domain. */
  lemma BodyIffRegexShape(s: string)
    ensures Body(s) <==> exists labels, tld :: RegexShape(s, labels, tld)
  {
    if Body(s) {
      var parts := Split(s);
      SplitSpec(s);
      JoinDotTerminated(parts);
      assert RegexShape(s, parts[..|parts| - 1], parts[|parts| - 1]);
    }
    if exists labels, tld :: RegexShape(s, labels, tld) {
      var labels, tld :| RegexShape(s, labels, tld);
      ShapeSplits(s, labels, tld);
    }
  }

  /** A decomposition in the regular expression's shape is the split at dots. */
  lemma ShapeSplits(s: string, labels: seq<string>, tld: string)
    requires RegexShape(s, labels, tld)
    ensures Split(s) == labels + [tld]
  {
    var parts := labels + [tld];
    forall i, k | 0 <= i < |parts| && 0 <= k < |parts[i]| ensures parts[i][k] != '.' {
      if i < |labels| {
        assert ValidLabel(labels[i]);
        assert IsLabelChar(labels[i][k]);
      } else {
        assert IsAsciiLetter(tld[k]);
      }
    }
    JoinDotTerminated(parts);
    assert parts[..|parts| - 1] == labels;
    SplitJoin(parts);
  }

  /** The labels and top-level domain of a matching string are unique. */
  lemma DecompositionUnique(s: string, l1: seq<string>, t1: string, l2: seq<string>, t2: string)
    requires RegexShape(s, l1, t1) && RegexShape(s, l2, t2)
    ensures l1 == l2 && t1 == t2
  {
    ShapeSplits(s, l1, t1);
    ShapeSplits(s, l2, t2);
    assert l1 == (l1 + [t1])[..|l1|] && l2 == (l2 + [t2])[..|l2|];
  }

  // ---------------------------------------------------------------------------
  // Character-level consequences of the grammar.

  lemma {:induction false} JoinHostChars(parts: seq<string>)
    requires forall i, k :: 0 <= i < |parts| && 0 <= k < |parts[i]| ==> IsHostChar(parts[i][k])
    ensures forall k :: 0 <= k < |Join(parts, '.')| ==> IsHostChar(Join(parts, '.')[k])
  {
    if |parts| > 1 {
      JoinHostChars(parts[1..]);
      var j := Join(parts, '.');
      assert j == parts[0] + ['.'] + Join(parts[1..], '.');
      forall k | 0 <= k < |j| ensures IsHostChar(j[k]) {
        if k < |parts[0]| {
          assert j[k] == parts[0][k];
        } else if k > |parts[0]| {
          assert j[k] == Join(parts[1..], '.')[k - |parts[0]| - 1];
        }
      }
    }
  }

  /** A body starts with an alphanumeric and consists of host characters. */
  lemma BodyChars(s: string)
    requires Body(s)
    ensures s != [] && IsAsciiAlnum(s[0])
    ensures forall k :: 0 <= k < |s| ==> IsHostChar(s[k])
  {
    var parts := Split(s);
    SplitSpec(s);
    assert ValidLabel(parts[0]);
    assert s[0] == parts[0][0];
    forall i, k | 0 <= i < |parts| && 0 <= k < |parts[i]| ensures IsHostChar(parts[i][k]) {
      if i < |parts| - 1 {
        assert ValidLabel(parts[i]);
      } else {
        assert ValidTld(parts[i]);
      }
    }
    JoinHostChars(parts);
  }

  /** Python's `is_valid_domain` (converter.py:12-19) with the intended
      pattern. The blank and comment guards of converter.py:15 never decide
      the answer: the grammar rejects those lines on its own. */
  function IsValidDomain(line: string): bool {
    var t := Strip(line);
    if t == [] || "#" <= t || "//" <= t then false else ValidDomain(t)
  }

  /** `is_valid_domain` rejects blank and comment lines, and otherwise
      accepts exactly the stripped lines of the grammar. */
  lemma IsValidDomainIff(line: string)
    ensures IsValidDomain(line) <==> ValidDomain(Strip(line))
    ensures Strip(line) == [] || "#" <= Strip(line) || "//" <= Strip(line) ==> !IsValidDomain(line)
  {
    var t := Strip(line);
    if t == [] || "#" <= t || "//" <= t {
      GrammarRejectsComments(t);
    }
  }

  lemma GrammarRejectsComments(t: string)
    requires t == [] || "#" <= t || "//" <= t
    ensures !ValidDomain(t)
  {
    BodyStart(t);
    if |t| >= 2 {
      BodyStart(t[2..]);
    }
  }

  lemma BodyStart(s: string)
    ensures Body(s) ==> s != [] && IsAsciiAlnum(s[0])
  {
    if Body(s) {
      BodyChars(s);
    }
  }

  /** A valid domain is neither blank nor a comment, and ends in a letter of
      its top-level domain. */
  lemma ValidDomainEnds(d: string)
    ensures ValidDomain(d) ==> d != [] && !("#" <= d) && !("//" <= d)
    ensures ValidDomain(d) ==> IsAsciiLetter(d[|d| - 1])
  {
    BodyStart(d);
    BodyEnd(d);
    if |d| >= 2 {
      BodyStart(d[2..]);
      BodyEnd(d[2..]);
    }
  }

  lemma BodyEnd(s: string)
    ensures Body(s) ==> s != [] && IsAsciiLetter(s[|s| - 1])
  {
    if Body(s) {
      var parts := Split(s);
      SplitSpec(s);
      JoinEndsWithLast(parts, '.');
      var last := parts[|parts| - 1];
      assert ValidTld(last);
      assert s[|s| - 1] == last[|last| - 1];
    }
  }

  /** A join ends with its last part. */
  lemma {:induction false} JoinEndsWithLast(parts: seq<string>, sep: char)
    requires parts != []
    ensures var j := Join(parts, sep);
            var last := parts[|parts| - 1];
            |last| <= |j| && j[|j| - |last|..] == last
  {
    if |parts| > 1 {
      JoinEndsWithLast(parts[1..], sep);
      var rest := Join(parts[1..], sep);
      assert Join(parts, sep) == (parts[0] + [sep]) + rest;
    }
  }

  // ---------------------------------------------------------------------------
  // Cleanup of trailing junk (converter.py:40).

  predicate IsCleanupChar(c: char) {
    c == ',' || c == ';' || IsSpace(c)
  }

  /** The intended `re.sub(r'[,\s;]+$', '', t)`: the longest trailing run of
      commas, semicolons and whitespace is removed. (`$` may also match before
      a final newline, but a newline is itself in the class, so the greedy run
      reaches the end of the string either way.) */
  function CleanTrailing(t: string): string {
    RStrip(t, IsCleanupChar)
  }

  lemma CleanTrailingSpec(t: string)
    ensures var r := CleanTrailing(t);
            && r <= t
            && (forall i :: |r| <= i < |t| ==> IsCleanupChar(t[i]))
            && (r == [] || !IsCleanupChar(r[|r| - 1]))
  {
    RStripSpec(t, IsCleanupChar);
  }

  /** Cleaning a text with junk appended gives the text back. */
  lemma CleanTrailingRemovesJunk(d: string, junk: string)
    requires d == [] || !IsCleanupChar(d[|d| - 1])
    requires forall i :: 0 <= i < |junk| ==> IsCleanupChar(junk[i])
    ensures CleanTrailing(d + junk) == d
  {
    var s := d + junk;
    var r := CleanTrailing(s);
    CleanTrailingSpec(s);
    if d != [] {
      assert s[|d| - 1] == d[|d| - 1];
    }
    assert |r| >= |d|;
    forall n | |d| < n <= |s| ensures IsCleanupChar(s[..n][n - 1]) {
      assert s[..n][n - 1] == junk[n - 1 - |d|];
    }
    assert |r| <= |d|;
    assert r == s[..|d|] == d;
  }

  /** Cleaning twice is cleaning once. */
  lemma CleanTrailingIdempotent(t: string)
    ensures CleanTrailing(CleanTrailing(t)) == CleanTrailing(t)
  {
    CleanTrailingSpec(t);
    CleanTrailingRemovesJunk(CleanTrailing(t), []);
    assert CleanTrailing(t) + [] == CleanTrailing(t);
  }

  // ---------------------------------------------------------------------------
  // The two patterns as written, with their stray spaces.

  /** Where Python's `$` matches (no MULTILINE): at the end of the string, or
      just before a newline that ends it. */
  predicate EndAnchorAt(t: string, i: int) {
    i == |t| || (0 <= i == |t| - 1 && t[i] == '\n')
  }

  /** `re.match` of converter.py:18 read literally: the grammar matches a
      prefix `t[..i]`, then a space, then `$`, then another space. */
  predicate LiteralDomainMatch(t: string) {
    exists i :: 0 <= i && i + 1 < |t|
      && ValidDomain(t[..i]) && t[i] == ' ' && EndAnchorAt(t, i + 1) && t[i + 1] == ' '
  }

  lemma LiteralDomainNeverMatches(t: string)
    ensures !LiteralDomainMatch(t)
  {
  }

  /** `is_valid_domain` exactly as converter.py:12-19 is written. */
  function IsValidDomainAsWritten(line: string): bool {
    var t := Strip(line);
    if t == [] || "#" <= t || "//" <= t then false else LiteralDomainMatch(t)
  }

  /** As written, `is_valid_domain` returns false for every line. */
  lemma AsWrittenRejectsAll(line: string)
    ensures !IsValidDomainAsWritten(line)
  {
    LiteralDomainNeverMatches(Strip(line));
  }

  /** The pattern `[,\s;]+ $ ` of converter.py:40 read literally, matching
      `t[i..k+2]`: a run of junk `t[i..k]`, a space, `$`, another space. */
  predicate LiteralCleanupMatchAt(t: string, i: int, k: int) {
    0 <= i < k && k + 1 < |t|
    && (forall j :: i <= j < k ==> IsCleanupChar(t[j]))
    && t[k] == ' ' && EndAnchorAt(t, k + 1) && t[k + 1] == ' '
  }

  /** The literal cleanup pattern matches nowhere, so its `re.sub` returns
      the line unchanged. */
  lemma LiteralCleanupNeverMatches(t: string, i: int, k: int)
    ensures !LiteralCleanupMatchAt(t, i, k)
  {
  }

  // ---------------------------------------------------------------------------
  // The grammar on the sample lines `example.com`, `*.foo.com` (a wildcard in
  // front of the body `foo.com`), `bad..domain` and `example.com, ;`.

  lemma AcceptsExampleCom()
    ensures ValidDomain("example.com")
  {
    assert ValidLabel("example") && ValidTld("com");
    assert DotTerminated(["example"]) + "com" == "example.com";
    assert RegexShape("example.com", ["example"], "com");
    BodyIffRegexShape("example.com");
  }

  lemma AcceptsFooCom()
    ensures Body("foo.com")
  {
    assert ValidLabel("foo") && ValidTld("com");
    assert DotTerminated(["foo"]) + "com" == "foo.com";
    assert RegexShape("foo.com", ["foo"], "com");
    BodyIffRegexShape("foo.com");
  }

  /** A wildcard in front of any body is accepted. */
  lemma WildcardBody(b: string)
    requires Body(b)
    ensures ValidDomain("*." + b)
  {
    assert ("*." + b)[..2] == "*." && ("*." + b)[2..] == b;
  }

  /** An empty label between two dots is rejected. */
  lemma RejectsEmptyLabel()
    ensures !ValidDomain("bad..domain")
  {
    assert Join(["bad", "", "domain"], '.') == "bad..domain";
    SplitJoin(["bad", "", "domain"]);
    assert !ValidLabel(Split("bad..domain")[1]);
  }

  lemma CleansTrailingJunk()
    ensures CleanTrailing("example.com, ;") == "example.com"
  {
    CleanTrailingRemovesJunk("example.com", ", ;");
    assert "example.com" + ", ;" == "example.com, ;";
  }
}
