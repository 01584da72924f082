// `convert_domains` of converter.py:21-71: filter, clean, validate and
// normalise each line, then deduplicate, sort and render the payload.
//
// The pipeline is stated twice over: as functions of the input (`Tokens`,
// `SkipCount`, `Spec`), which the lemmas talk about, and as the method
// `Convert`, whose loop mirrors the source and is proved to compute `Spec`.
// `Reading` selects the validator and the cleanup: `Intended` uses the grammar
// with the stray spaces of converter.py:18 and :40 removed, `AsWritten` the
// patterns exactly as written.

module Converter {
  import opened Text
  import opened Domain
  import opened StringOrder
  import Payload

  datatype Reading = Intended | AsWritten

  /** What reading the input file gave. */
  datatype Source = Missing | Unreadable | Read(lines: seq<string>)

  datatype Failure = InputNotFound | InputUnreadable | NoValidDomains(skipped: nat)

  /** The result of one run: a failure (the source's `sys.exit(1)`), or the
      document to write with the counts it reports. */
  datatype Outcome =
    | Failed(failure: Failure)
    | Converted(document: string, accepted: nat, example: string, skipped: nat)

  /** Blank lines and `#` or `//` comments (converter.py:35-37). */
  predicate IsIgnored(line: string) {
    var t := Strip(line);
    t == [] || "#" <= t || "//" <= t
  }

  /** The cleanup of converter.py:40 under each reading. Read literally the
      pattern matches nowhere (`Domain.LiteralCleanupNeverMatches`), so
      `re.sub` returns the line unchanged. */
  function Cleanup(reading: Reading, t: string): string {
    match reading
    case Intended => CleanTrailing(t)
    case AsWritten => t
  }

  function Accepts(reading: Reading, c: string): bool {
    match reading
    case Intended => IsValidDomain(c)
    case AsWritten => IsValidDomainAsWritten(c)
  }

  predicate IsWildcardChar(c: char) {
    c == '*' || c == '.'
  }

  /** The scope prefix of converter.py:45. */
  function Prefix(exact: bool): string {
    if exact then "" else "+."
  }

  /** converter.py:44-46: `prefix + line.lstrip('*.')`. */
  function Token(d: string, exact: bool): string {
    Prefix(exact) + LStrip(d, IsWildcardChar)
  }

  /** A valid domain without its optional `*.` prefix. */
  function Bare(d: string): string {
    if |d| >= 2 && d[..2] == "*." then d[2..] else d
  }

  /** On a valid domain, `lstrip('*.')` removes exactly the optional `*.`
      prefix, and the token is made of letters, digits, hyphens, dots and the
      `+` of the scope prefix: no `*`, no quote, no whitespace. */
  lemma TokenOfValidDomain(d: string, exact: bool)
    requires ValidDomain(d)
    ensures Token(d, exact) == Prefix(exact) + Bare(d)
    ensures Body(Bare(d))
    ensures forall k :: 0 <= k < |Token(d, exact)| ==>
              IsHostChar(Token(d, exact)[k]) || Token(d, exact)[k] == '+'
    ensures '*' !in Token(d, exact) && '\'' !in Token(d, exact)
    ensures forall k :: 0 <= k < |Token(d, exact)| ==> !IsSpace(Token(d, exact)[k])
  {
    StripsWildcard(d);
    PrefixedBodyChars(Bare(d), exact);
  }

  lemma StripsWildcard(d: string)
    requires ValidDomain(d)
    ensures LStrip(d, IsWildcardChar) == Bare(d)
    ensures Body(Bare(d))
  {
    BodyStart(d);
    if |d| >= 2 && d[..2] == "*." {
      BodyStart(d[2..]);
      LStripPastWildcard(d);
    } else {
      LStripKeeps(d);
    }
  }

  lemma LStripKeeps(d: string)
    requires d != [] && IsAsciiAlnum(d[0])
    ensures LStrip(d, IsWildcardChar) == d
  {
  }

  lemma LStripPastWildcard(d: string)
    requires |d| >= 3 && d[..2] == "*." && IsAsciiAlnum(d[2])
    ensures LStrip(d, IsWildcardChar) == d[2..]
  {
    var t := d[1..];
    assert d[0] == '*' && t[0] == '.' && t[1..] == d[2..];
    assert LStrip(d, IsWildcardChar) == LStrip(t, IsWildcardChar);
    assert LStrip(t, IsWildcardChar) == LStrip(d[2..], IsWildcardChar);
    LStripKeeps(d[2..]);
  }

  lemma PrefixedBodyChars(b: string, exact: bool)
    requires Body(b)
    ensures var t := Prefix(exact) + b;
            && (forall k :: 0 <= k < |t| ==> IsHostChar(t[k]) || t[k] == '+')
            && '*' !in t && '\'' !in t
            && (forall k :: 0 <= k < |t| ==> !IsSpace(t[k]))
  {
    BodyChars(b);
    var p := Prefix(exact);
    var t := p + b;
    forall k | 0 <= k < |t| ensures IsHostChar(t[k]) || t[k] == '+' {
      if k >= |p| {
        assert t[k] == b[k - |p|];
      }
    }
    forall k | 0 <= k < |t| ensures t[k] != '*' && t[k] != '\'' && !IsSpace(t[k]) {
      assert IsHostChar(t[k]) || t[k] == '+';
    }
  }

  /** What one input line contributes. */
  datatype LineKind = Ignored | Accepted(token: string) | Rejected

  /** One pass of the loop body of converter.py:35-48. */
  function Classify(reading: Reading, line: string, exact: bool): LineKind {
    if IsIgnored(line) then Ignored
    else
      var c := Cleanup(reading, Strip(line));
      if Accepts(reading, c) then Accepted(Token(c, exact)) else Rejected
  }

  /** The `domains` list after the given lines, in input order. */
  function Tokens(reading: Reading, lines: seq<string>, exact: bool): seq<string> {
    if lines == [] then []
    else
      var before := Tokens(reading, lines[..|lines| - 1], exact);
      match Classify(reading, lines[|lines| - 1], exact)
      case Accepted(t) => before + [t]
      case _ => before
  }

  /** The `skipped` counter after the given lines. */
  function SkipCount(reading: Reading, lines: seq<string>, exact: bool): nat {
    if lines == [] then 0
    else
      SkipCount(reading, lines[..|lines| - 1], exact)
      + if Classify(reading, lines[|lines| - 1], exact).Rejected? then 1 else 0
  }

  /** The number of lines that are neither blank nor comments. */
  function RelevantCount(lines: seq<string>): nat {
    if lines == [] then 0
    else RelevantCount(lines[..|lines| - 1]) + if IsIgnored(lines[|lines| - 1]) then 0 else 1
  }

  /** What processing line `i` adds to the accumulators. */
  lemma PrefixStep(reading: Reading, lines: seq<string>, i: int, exact: bool)
    requires 0 <= i < |lines|
    ensures var kind := Classify(reading, lines[i], exact);
            && Tokens(reading, lines[..i + 1], exact)
               == Tokens(reading, lines[..i], exact) + (if kind.Accepted? then [kind.token] else [])
            && SkipCount(reading, lines[..i + 1], exact)
               == SkipCount(reading, lines[..i], exact) + (if kind.Rejected? then 1 else 0)
  {
    assert lines[..i + 1][..i] == lines[..i];
    assert lines[..i + 1][i] == lines[i];
  }

  /** The whole run (converter.py:23-67) as a function of what was read. */
  function Spec(reading: Reading, src: Source, exact: bool): Outcome {
    match src
    case Missing => Failed(InputNotFound)
    case Unreadable => Failed(InputUnreadable)
    case Read(lines) =>
      var ds := Tokens(reading, lines, exact);
      var skipped := SkipCount(reading, lines, exact);
      if ds == [] then Failed(NoValidDomains(skipped))
      else Converted(Payload.Render(SortedSet(ds)), |ds|, ds[0], skipped)
  }

  /** `convert_domains`: the line loop accumulates `domains` and `skipped`,
      then the run fails or renders the sorted, deduplicated payload. */
  method Convert(reading: Reading, src: Source, exact: bool) returns (r: Outcome)
    ensures r == Spec(reading, src, exact)
  {
    match src
    case Missing =>
      return Failed(InputNotFound);
    case Unreadable =>
      return Failed(InputUnreadable);
    case Read(lines) =>
      var domains: seq<string> := [];
      var skipped: nat := 0;
      for i := 0 to |lines|
        invariant domains == Tokens(reading, lines[..i], exact)
        invariant skipped == SkipCount(reading, lines[..i], exact)
      {
        PrefixStep(reading, lines, i, exact);
        var line := Strip(lines[i]);
        if line == [] || "#" <= line || "//" <= line {
          continue;
        }
        line := Cleanup(reading, line);
        if Accepts(reading, line) {
          var cleanDomain := LStrip(line, IsWildcardChar);
          var prefix := if exact then "" else "+.";
          domains := domains + [prefix + cleanDomain];
        } else {
          skipped := skipped + 1;
        }
      }
      assert lines[..|lines|] == lines;
      if domains == [] {
        return Failed(NoValidDomains(skipped));
      }
      var document := Payload.Render(SortedSet(domains));
      return Converted(document, |domains|, domains[0], skipped);
  }

  // ---------------------------------------------------------------------------
  // Properties of the pipeline.

  /** Every line that is neither blank nor a comment adds exactly one token or
      one skip; blank and comment lines add neither. */
  lemma {:induction false} CountsAddUp(reading: Reading, lines: seq<string>, exact: bool)
    ensures |Tokens(reading, lines, exact)| + SkipCount(reading, lines, exact) == RelevantCount(lines)
  {
    if lines != [] {
      CountsAddUp(reading, lines[..|lines| - 1], exact);
    }
  }

  /** The exact flag changes only the prefix: the default-mode tokens are the
      exact-mode tokens, in the same order, each with `+.` in front. */
  lemma {:induction false} ExactOnlyChangesPrefix(reading: Reading, lines: seq<string>)
    ensures |Tokens(reading, lines, false)| == |Tokens(reading, lines, true)|
    ensures forall i :: 0 <= i < |Tokens(reading, lines, true)| ==>
              Tokens(reading, lines, false)[i] == "+." + Tokens(reading, lines, true)[i]
    ensures SkipCount(reading, lines, false) == SkipCount(reading, lines, true)
  {
    if lines != [] {
      ExactOnlyChangesPrefix(reading, lines[..|lines| - 1]);
      ClassifyExact(reading, lines[|lines| - 1]);
    }
  }

  lemma ClassifyExact(reading: Reading, line: string)
    ensures Classify(reading, line, false).Accepted? == Classify(reading, line, true).Accepted?
    ensures Classify(reading, line, false).Rejected? == Classify(reading, line, true).Rejected?
    ensures Classify(reading, line, true).Accepted? ==>
              Classify(reading, line, false).token == "+." + Classify(reading, line, true).token
  {
    assert forall x: string :: "" + x == x;
  }

  /** A cleaned candidate has no whitespace at either end, so the second
      `strip()` inside `is_valid_domain` leaves it alone. */
  lemma CleanedIsStripped(line: string)
    ensures Strip(CleanTrailing(Strip(line))) == CleanTrailing(Strip(line))
  {
    var t := Strip(line);
    var c := CleanTrailing(t);
    StripSpec(line);
    CleanTrailingSpec(t);
    if c != [] {
      assert c[0] == t[0];
    }
    StripUnchanged(c);
  }

  /** Under the intended reading a line is ignored when it is blank or a
      comment; otherwise it is accepted exactly when its stripped and cleaned
      form `c` is a valid domain, and its token is then the scope prefix
      followed by `c` without its wildcard. */
  lemma ClassifyIntended(line: string, exact: bool)
    ensures var c := CleanTrailing(Strip(line));
            Classify(Intended, line, exact) ==
              if IsIgnored(line) then Ignored
              else if ValidDomain(c) then Accepted(Prefix(exact) + Bare(c))
              else Rejected
  {
    var c := CleanTrailing(Strip(line));
    CleanedIsStripped(line);
    IsValidDomainIff(c);
    if ValidDomain(c) {
      TokenOfValidDomain(c, exact);
    }
  }

  /** One line that is a valid domain once stripped is enough for the run to
      succeed: the cleanup leaves it alone and the validator accepts it. */
  lemma ValidLineSucceeds(lines: seq<string>, i: int, exact: bool)
    requires 0 <= i < |lines| && ValidDomain(Strip(lines[i]))
    ensures Spec(Intended, Read(lines), exact).Converted?
  {
    var t := Strip(lines[i]);
    ValidDomainEnds(t);
    CleanTrailingRemovesJunk(t, []);
    assert t + [] == t;
    ClassifyIntended(lines[i], exact);
    assert Classify(Intended, lines[i], exact).Accepted?;
    TokensEmptyIff(Intended, lines, exact);
  }

  /** No accepted token holds a quote, a `*` or whitespace. */
  lemma {:induction false} TokensCharset(lines: seq<string>, exact: bool)
    ensures forall i, k :: 0 <= i < |Tokens(Intended, lines, exact)| && 0 <= k < |Tokens(Intended, lines, exact)[i]| ==>
              IsHostChar(Tokens(Intended, lines, exact)[i][k]) || Tokens(Intended, lines, exact)[i][k] == '+'
  {
    if lines != [] {
      var last := lines[|lines| - 1];
      TokensCharset(lines[..|lines| - 1], exact);
      if Classify(Intended, last, exact).Accepted? {
        var c := CleanTrailing(Strip(last));
        CleanedIsStripped(last);
        IsValidDomainIff(c);
        TokenOfValidDomain(c, exact);
      }
    }
  }

  /** The run fails for lack of domains exactly when no line is accepted. */
  lemma {:induction false} TokensEmptyIff(reading: Reading, lines: seq<string>, exact: bool)
    ensures Tokens(reading, lines, exact) == [] <==>
            forall i :: 0 <= i < |lines| ==> !Classify(reading, lines[i], exact).Accepted?
  {
    if lines != [] {
      var init := lines[..|lines| - 1];
      var kind := Classify(reading, lines[|lines| - 1], exact);
      TokensEmptyIff(reading, init, exact);
      assert forall i :: 0 <= i < |init| ==> init[i] == lines[i];
      if kind.Accepted? {
        assert Tokens(reading, lines, exact) == Tokens(reading, init, exact) + [kind.token];
      } else {
        assert Tokens(reading, lines, exact) == Tokens(reading, init, exact);
      }
    }
  }

  lemma NoValidDomainsIff(reading: Reading, lines: seq<string>, exact: bool)
    ensures Spec(reading, Read(lines), exact).Failed? <==>
            forall i :: 0 <= i < |lines| ==> !Classify(reading, lines[i], exact).Accepted?
  {
    TokensEmptyIff(reading, lines, exact);
  }

  /** A successful run writes the distinct accepted tokens in strictly
      ascending order, one item each, in a document that reads back to exactly
      that list; it reports every accepted line (duplicates included) and the
      first accepted token in input order. */
  lemma ConvertedDocument(lines: seq<string>, exact: bool)
    requires Spec(Intended, Read(lines), exact).Converted?
    ensures var r := Spec(Intended, Read(lines), exact);
            var ts := Tokens(Intended, lines, exact);
            && (forall u :: StrictlySorted(u) && (forall y :: y in u <==> y in ts) ==>
                  r.document == Payload.Render(u) && Payload.Parse(r.document) == Payload.Some(u))
            && r.accepted == |ts| && r.example == ts[0]
            && r.skipped == SkipCount(Intended, lines, exact)
  {
    var ts := Tokens(Intended, lines, exact);
    TokensCharset(lines, exact);
    DocumentOfTokens(ts);
  }

  /** The document rendered from a non-empty list of such tokens is the one
      for their unique strictly ascending listing, and reads back to it. */
  lemma DocumentOfTokens(ts: seq<string>)
    requires ts != []
    requires forall i, k :: 0 <= i < |ts| && 0 <= k < |ts[i]| ==> IsHostChar(ts[i][k]) || ts[i][k] == '+'
    ensures forall u :: StrictlySorted(u) && (forall y :: y in u <==> y in ts) ==>
              Payload.Render(SortedSet(ts)) == Payload.Render(u)
              && Payload.Parse(Payload.Render(SortedSet(ts))) == Payload.Some(u)
  {
    var sorted := SortedSet(ts);
    forall u | StrictlySorted(u) && (forall y :: y in u <==> y in ts)
      ensures u == sorted
    {
      SortedUnique(u, sorted);
    }
    assert sorted != [] by {
      assert ts[0] in sorted;
    }
    SortedSetQuoteFree(ts);
    Payload.ParseRender(sorted);
  }

  /** Tokens made of host characters and `+` hold no quote, and neither does
      their sorted set. */
  lemma SortedSetQuoteFree(ts: seq<string>)
    requires forall i, k :: 0 <= i < |ts| && 0 <= k < |ts[i]| ==> IsHostChar(ts[i][k]) || ts[i][k] == '+'
    ensures forall i :: 0 <= i < |SortedSet(ts)| ==> '\'' !in SortedSet(ts)[i]
  {
    var sorted := SortedSet(ts);
    forall i | 0 <= i < |sorted| ensures '\'' !in sorted[i] {
      assert sorted[i] in sorted;
      var j :| 0 <= j < |ts| && ts[j] == sorted[i];
      forall k | 0 <= k < |ts[j]| ensures ts[j][k] != '\'' {
        assert IsHostChar(ts[j][k]) || ts[j][k] == '+';
      }
    }
  }

  /** As written, no line is ever accepted: every line that is neither blank
      nor a comment is skipped, and every run that reads its input ends in the
      "no valid domains" failure. */
  lemma {:induction false} AsWrittenSkipsEverything(lines: seq<string>, exact: bool)
    ensures Tokens(AsWritten, lines, exact) == []
    ensures SkipCount(AsWritten, lines, exact) == RelevantCount(lines)
  {
    if lines != [] {
      AsWrittenSkipsEverything(lines[..|lines| - 1], exact);
      AsWrittenRejectsAll(Strip(lines[|lines| - 1]));
    }
  }

  lemma AsWrittenAlwaysFails(lines: seq<string>, exact: bool)
    ensures Spec(AsWritten, Read(lines), exact) == Failed(NoValidDomains(RelevantCount(lines)))
  {
    AsWrittenSkipsEverything(lines, exact);
  }
}
