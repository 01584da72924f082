# Clash rule-set converter, modelled in Dafny

`converter.py` turns a plain list of domain names, one per line, into a Clash.Meta
rule-set document: a YAML `payload:` list ready to be compiled to the `.mrs` binary
format. Each input line goes through four steps:

1. **Filter.** The line is trimmed. Blank lines and lines starting with `#` or `//`
   are dropped without being counted.
2. **Clean and validate.** A trailing run of commas, semicolons and whitespace is
   removed, and the line is checked against a domain grammar. This is an optional
   `*.` wildcard, then one or more labels each followed by `.`, then a top-level
   label of at least two ASCII letters. Each label has 1 to 63 characters from
   letters, digits and `-`, and starts and ends with a letter or digit. A line that
   fails the grammar is counted as skipped.
3. **Normalise.** Leading `*` and `.` characters are removed. Then the scope prefix
   `+.` is put in front, or nothing when `--exact` is given.
4. **Emit.** The tokens are deduplicated and sorted. Then they are rendered as
   `payload:` followed by one `  - '<token>'` line each.

The run fails when the input is missing, when it cannot be read, or when no line
is accepted. On success it reports how many lines were accepted (duplicates
included) and the first accepted token.

The project has five modules:

- `Text` (`text.dfy`): Python's whitespace class, `str.strip`, `str.lstrip(chars)`,
  removal of a trailing run of characters, and `sep.join`. Each comes with lemmas
  stating what it keeps and what it removes.
- `Domain` (`domain.dfy`): the domain grammar and `is_valid_domain`. The grammar is
  stated by splitting on `.`, and is proved equivalent to the regular
  expression's shape. This module also holds the trailing cleanup and the literal
  readings of both regular expressions.
- `StringOrder` (`order.dfy`): Python's ordering of strings, and `sorted(set(xs))`
  as the unique strictly ascending listing of the distinct elements of `xs`.
- `Payload` (`payload.dfy`): the YAML document, with a reader that recovers the
  token list from it.
- `Converter` (`converter.dfy`): `convert_domains`. It is written twice:
  - as functions of the input (`Tokens`, `SkipCount`, `Spec`), which the lemmas
    are about;
  - as the method `Convert`, whose loop follows the source and is proved to
    compute `Spec`.

Both regular expressions in the source have a stray space on each side of `$`.
Without the verbose flag these spaces are literal, so neither pattern can match
anything (see "## Findings"). The model therefore has two readings, chosen by a
`Reading` value:

- `AsWritten` follows the code exactly. The model proves that every run of this
  reading fails.
- `Intended` drops the stray spaces, as the comments at converter.py:13 and :17
  and the cleanup comment at :39 describe. All the properties of a successful run
  are proved under this reading.

The comment at converter.py:43 says the existing wildcard is removed. The code
calls `lstrip('*.')`, which removes any leading run of `*` and `.` characters, not
just a `*.` prefix. The model follows the code. On a valid domain the two are
proved to agree (`Converter.StripsWildcard`).

Some other points in the code are easy to misread. The model follows the code
on each of them:

- Cleanup runs before validation, so a line with trailing commas can still be
  accepted.
- The reported count is the number of accepted lines, duplicates included, not
  the number of items written.
- The example shown is the first accepted token in input order, not the first in
  sorted order.

## Model

| member | source | states |
|---|---|---|
| `Text.LStripSpec` | converter.py:44 | `lstrip` keeps a suffix of the line. Every removed character is in the strip set, and the first kept one is not. |
| `Text.RStripSpec` | converter.py:40 | Removing a trailing run keeps a prefix of the line. Every removed character is in the set, and the last kept one is not. |
| `Text.StripSpec` | converter.py:35 | `strip()` leaves no whitespace at either end. The result occurs in the line with only whitespace before and after it. |
| `Text.StripUnchanged` | converter.py:14 | A string without whitespace at its ends is unchanged by `strip()`, so the second strip in `is_valid_domain` is harmless. |
| `Domain.Split` | converter.py:18 | Splitting on `.` yields at least one part. |
| `Domain.SplitSpec` | converter.py:18 | No part of the split contains `.`, and joining the parts with `.` gives back the line. |
| `Domain.SplitJoin` | converter.py:18 | Splitting a `.`-join of dot-free parts gives back exactly those parts. |
| `Domain.BodyIffRegexShape` | converter.py:18 | A string passes the split-based grammar iff it has the regex's shape: labels each followed by `.`, then the TLD. |
| `Domain.ShapeSplits` | converter.py:18 | Any labels-plus-TLD decomposition of a string is exactly its split on `.`. |
| `Domain.DecompositionUnique` | converter.py:17-19 | A domain has only one decomposition into labels and TLD. |
| `Domain.BodyChars` | converter.py:18 | An accepted body starts with a letter or digit and holds only letters, digits, `-` and `.`. |
| `Domain.IsValidDomainIff` | converter.py:12-19 | `is_valid_domain` holds iff the stripped line is a domain in the grammar. A blank or comment line is never valid. |
| `Domain.ValidDomainEnds` | converter.py:18 | A valid domain is not blank, does not start with `#` or `//`, and ends in a letter of its top-level domain. So the trailing cleanup does not change it. |
| `Domain.GrammarRejectsComments` | converter.py:15-16 | No string starting with `#` or `//` is a valid domain, so the comment guard agrees with the grammar. |
| `Domain.CleanTrailingSpec` | converter.py:40 | The cleanup keeps a prefix and removes only commas, semicolons and whitespace. What it keeps does not end in one of them. |
| `Domain.CleanTrailingRemovesJunk` | converter.py:39-40 | A domain followed by any run of commas, semicolons and whitespace is cleaned back to the domain. |
| `Domain.CleanTrailingIdempotent` | converter.py:40 | Cleaning twice is the same as cleaning once. |
| `Domain.LiteralDomainNeverMatches` | converter.py:18 | The literal pattern would need a space, then end of string, then another space. No string satisfies that. |
| `Domain.AsWrittenRejectsAll` | converter.py:12-19 | `is_valid_domain` as written returns false for every line. |
| `Domain.LiteralCleanupNeverMatches` | converter.py:40 | The literal cleanup pattern matches at no position, so `re.sub` leaves every line unchanged. |
| `Domain.AcceptsExampleCom` | converter.py:18 | `example.com` is accepted. |
| `Domain.AcceptsFooCom` | converter.py:18 | `foo.com` has a valid body. |
| `Domain.WildcardBody` | converter.py:18 | `*.` followed by a valid body is a valid domain. |
| `Domain.RejectsEmptyLabel` | converter.py:18 | `bad..domain` is rejected because of its empty label. |
| `Domain.CleansTrailingJunk` | converter.py:40 | `example.com, ;` is cleaned to `example.com`. |
| `StringOrder.LessIrreflexive` | converter.py:60 | No string sorts before itself. |
| `StringOrder.LessTransitive` | converter.py:60 | The order used by `sorted` is transitive. |
| `StringOrder.LessTotal` | converter.py:60 | Any two distinct strings are ordered one way or the other. |
| `StringOrder.LessAsymmetric` | converter.py:60 | Two strings are never each before the other. |
| `StringOrder.Insert` | converter.py:60 | Inserting into a strictly ascending list keeps it strictly ascending. Its elements become the old ones plus the new one. |
| `StringOrder.SortedSet` | converter.py:60 | `sorted(set(xs))` is strictly ascending and holds exactly the elements of `xs`. |
| `StringOrder.SortedUnique` | converter.py:60 | Two strictly ascending lists with the same elements are equal. |
| `StringOrder.SortedDistinct` | converter.py:60 | A strictly ascending list has no element twice. |
| `StringOrder.SortedSetIdempotent` | converter.py:60 | Sorting the set of a sorted set gives it back. |
| `Payload.Items` | converter.py:60 | There is one item per token, and item `i` is token `i` quoted after `  - `. |
| `Payload.RenderAsLines` | converter.py:60-63 | The written text is `payload:` followed by one newline-terminated item line per token, with no blank line. |
| `Payload.ParseRender` | converter.py:60-63 | Reading the written document back gives exactly the tokens, in order, provided no token holds a quote. The reader `Payload.Parse` and its helper `Payload.IndexOf` belong to the model only: the source writes the document and never reads it. |
| `Converter.TokenOfValidDomain` | converter.py:44-46 | On a valid domain, `lstrip('*.')` removes exactly the optional `*.`. The token is the prefix followed by a valid body, with no `*`, quote or whitespace. |
| `Converter.StripsWildcard` | converter.py:44 | On a valid domain, `lstrip('*.')` equals removing the optional `*.` prefix, and what remains is a valid body. |
| `Converter.PrefixStep` | converter.py:35-48 | One pass of the loop adds the line's token when it is accepted. It adds one to the skip count when the line is rejected. |
| `Converter.Convert` | converter.py:21-67 | The loop over the lines computes `Spec`. That is: fail on a missing or unreadable input or when no line is accepted; otherwise render the sorted set of tokens and report the counts. |
| `Converter.CountsAddUp` | converter.py:35-48 | The number of tokens plus the skip count equals the number of lines that are neither blank nor comments. |
| `Converter.ExactOnlyChangesPrefix` | converter.py:45-46 | The default-mode tokens are the exact-mode tokens, in the same order, each with `+.` in front. The skip count is the same in both modes. |
| `Converter.ClassifyExact` | converter.py:45 | The exact flag does not change whether a line is accepted. It only adds or removes `+.` on the token. |
| `Converter.CleanedIsStripped` | converter.py:35-42 | A stripped and cleaned line is its own strip, so validation sees it unchanged. |
| `Converter.ClassifyIntended` | converter.py:35-48 | A blank or comment line is ignored. Any other line is accepted iff its stripped and cleaned form `c` is a valid domain. Its token is then the scope prefix followed by `c` without its `*.`. Otherwise the line is skipped. |
| `Converter.ValidLineSucceeds` | converter.py:42-57 | If any line is a valid domain once stripped, the run succeeds. The cleanup leaves that line unchanged and the validator accepts it. |
| `Converter.TokensCharset` | converter.py:44-46 | Every token holds only letters, digits, `-`, `.` and `+`. |
| `Converter.TokensEmptyIff` | converter.py:42-55 | The token list is empty iff no line is accepted. |
| `Converter.NoValidDomainsIff` | converter.py:55-57 | A run that read its input fails iff no line is accepted, and then no document is produced. |
| `Converter.ConvertedDocument` | converter.py:60-66 | On success the document is the rendering of the unique strictly ascending list of the distinct tokens, and it reads back to that list. The reported count is the number of accepted lines, duplicates included. The example is the first accepted token in input order. |
| `Converter.DocumentOfTokens` | converter.py:60 | For quote-free tokens, the rendering of `sorted(set(ts))` is the rendering of any strictly ascending listing of their elements, and it reads back to that listing. |
| `Converter.AsWrittenSkipsEverything` | converter.py:42-48 | As written, no line is accepted, and every line that is neither blank nor a comment is skipped. |
| `Converter.AsWrittenAlwaysFails` | converter.py:55-57 | As written, every run that reads its input fails with "no valid domains". The skip count is the number of non-blank, non-comment lines. |

## Left out

- Argument parsing, the help text and the version string (converter.py:73-97) are not modelled. `exact` is a parameter of `Convert`.
- The filesystem is not modelled. `Source` stands for what reading the input gave:
  - `Missing` is the existence check of converter.py:23-27;
  - `Unreadable` is any exception raised while opening, decoding or reading (converter.py:32-33, 69-71);
  - `Read(lines)` is a successful read.
- The input is given as a sequence of lines. Splitting the file into lines and UTF-8 decoding are not modelled. The line ending is whitespace, so `strip()` removes it.
- Writing the output file (converter.py:62-63) and any failure of that write are not modelled. `Convert` returns the document to be written.
- Messages on stderr are not modelled: the text, the emojis, the current-directory listing, the limit of five warnings and the `line[:50]` truncation (converter.py:24-26, 49-53, 56, 65-66). The outcome carries only the values they report: the skip count, the accepted count and the first token.
- `sys.exit(1)` is not modelled; a `Failed` outcome stands for it.
- Whitespace is Python's `str.isspace` set, written out as a fixed list of code points. No other Unicode semantics are modelled.
- General regular-expression matching is not modelled. Both patterns are stated as predicates. The literal patterns are stated only as far as needed to show that they cannot match: the anchor `$` followed by a space, with `$` matching at the end of the string or before a final newline.
- No lemma runs the whole pipeline on a concrete sample file. The per-line facts for sample inputs are proved one by one: `Domain.AcceptsExampleCom`, `Domain.WildcardBody`, `Domain.RejectsEmptyLabel` and `Domain.CleansTrailingJunk`.

## Findings

| source | as written | input that shows it | evidently intended | confidence | as-written member | corrected member |
|---|---|---|---|---|---|---|
| converter.py:18 | The pattern ends in `[a-zA-Z]{2,} $ `, with a literal space before and after `$`. It needs a space, then the end of the string, then another space, so it matches nothing. | `example.com`, which is rejected: every non-blank, non-comment line is skipped. | The pattern ends in `[a-zA-Z]{2,}$`: labels each followed by `.`, then a TLD of two or more letters. | not executed | `Domain.LiteralDomainNeverMatches` | `Domain.IsValidDomainIff` |
| converter.py:40 | The cleanup pattern `[,\s;]+ $ ` has the same stray spaces, so `re.sub` never removes anything. | `example.com,`, which keeps its comma. | The pattern `[,\s;]+$` removes the trailing run of commas, semicolons and whitespace. | not executed | `Domain.LiteralCleanupNeverMatches` | `Domain.CleanTrailingRemovesJunk` |
| converter.py:55-57 | Because of the first row, no line is ever accepted, so every run ends in the "no valid domains" failure. | Any input file, e.g. one line `example.com`. | A run whose input has a valid domain succeeds and writes the payload. | not executed | `Converter.AsWrittenAlwaysFails` | `Converter.ValidLineSucceeds` |
