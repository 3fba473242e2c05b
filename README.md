# GeneRAG-Insights variant parser, in Dafny

This project models the variant parser of GeneRAG-Insights, the class
`VariantProcessor` in `src/processor.py`. It turns a free-text variant such as
`"EGFR T790M"` into a gene and a mutation. It then turns that record into the question
sentence that the rest of the pipeline sends to retrieval. Both operations are pure, and
the model writes them as Dafny functions with lemmas about them.

- `text.dfy` (module `Text`): Python's whitespace class, the class `[A-Z0-9]`, and
  `str.strip()`.
- `pattern.dfy` (module `VariantPattern`): the regular expression
  `([A-Z0-9]+)\s+(.+)` under `re.match`, written as a hand-made scan (`MatchSpan`).
  The scan is proved equal to a declarative reading of the pattern, `IsMatch`, under
  Python's backtracking preference: among all ways the pattern can match, `re.match`
  reports the one with the longest gene, then the longest whitespace run, then the
  longest variant (`LexLe`). The scan also models the case where `\s+` backtracks
  at the end of the string to give `.+` a character. After `strip()` that case
  cannot happen, and `StrippedMatchNoBacktrack` proves it.
- `processor.dfy` (module `VariantProcessor`): `ParseVariantString`,
  `FormatQueryForRag`, and the properties that relate them to the pattern and to each
  other.

The Python dictionaries `{"gene", "variant"}` and `{"error"}` are modelled as the
datatype `Parsed = Ok(gene, variant) | Err(msg)`. `"error" in parsed_data` corresponds
to `Err?`.

Group 2 is `.+` without DOTALL, so the variant stops at the first newline after it
starts and the lines after that are dropped (`ExampleVariantStopsAtNewline`). A
newline in the whitespace run after the gene is part of the separator, so the next
line becomes the variant (`ExampleNewlineSeparator`). A gene that is upper case only at
its start, such as `"Egfr T790M"`, is rejected: its `[A-Z0-9]` run is `"E"` and the
next character is not whitespace (`ExampleMixedCase`).

## Model

| member | source | states |
|---|---|---|
| `Text.IsSpace` | src/processor.py:17 | the whitespace of `str.strip()` and of `\s`: the code points for which `str.isspace()` holds, U+0009–U+000D, U+001C–U+001F, U+0020, U+0085, U+00A0, U+1680, U+2000–U+200A, U+2028, U+2029, U+202F, U+205F and U+3000 |
| `Text.GeneChar` | src/processor.py:17 | the class `[A-Z0-9]`: ASCII `A`–`Z` and `0`–`9` only, as no IGNORECASE flag is given |
| `Text.Strip` | src/processor.py:17 | `strip()` keeps one contiguous part of the input, everything it cuts off is whitespace, and what it keeps neither starts nor ends with whitespace |
| `Text.StripOfAllSpace` | src/processor.py:17 | a text made only of whitespace, the empty text included, strips to the empty string |
| `Text.StripOfPadded` | src/processor.py:17 | whitespace added around any text, all-whitespace and empty text included, is stripped off with the text's own: the result is what stripping the text alone gives |
| `Text.StripIdempotent` | src/processor.py:17 | stripping twice is stripping once |
| `VariantPattern.IsMatch` | src/processor.py:17 | the reference reading of `([A-Z0-9]+)\s+(.+)` anchored at the start: one or more `[A-Z0-9]`, one or more whitespace characters, one or more characters other than a newline. Its meaning is stated through `MatchSpan` and `MatchSpanIsLeftmostGreedy` |
| `VariantPattern.LexLe` | src/processor.py:17 | the order in which backtracking prefers one match over another: lexicographic on (end of group 1, end of `\s+`, end of group 2), larger first |
| `VariantPattern.GeneRunEnd` | src/processor.py:17 | greedy `[A-Z0-9]+`: the end of the longest run of `[A-Z0-9]` from a position; every character before it is in the class and the one at it is not |
| `VariantPattern.SpaceRunEnd` | src/processor.py:17 | greedy `\s+`: the end of the longest whitespace run from a position; every character before it is whitespace and the one at it is not |
| `VariantPattern.LineEnd` | src/processor.py:17 | greedy `.+` without DOTALL: the end of the longest run of non-newline characters; the string ends there or a newline follows |
| `VariantPattern.MatchSpan` | src/processor.py:17 | any span the scan returns is a match of `([A-Z0-9]+)\s+(.+)` at the start of the string |
| `VariantPattern.LastLineStart` | src/processor.py:17 | backtracking into `\s+` picks the last position after the gene whose character is not a newline, or none if there is no such position |
| `VariantPattern.MatchGeneIsMaximal` | src/processor.py:17 | every match's first group is the whole leading `[A-Z0-9]` run |
| `VariantPattern.MatchSpanIsLeftmostGreedy` | src/processor.py:17-18 | the scan finds no match exactly when the pattern cannot match, and otherwise finds the match Python's backtracking reports, the largest in lexicographic order of group boundaries |
| `VariantPattern.MatchSpanOfLayout` | src/processor.py:17 | a string laid out as `[A-Z0-9]` run, whitespace run, non-whitespace start of the variant and line end is matched at exactly those boundaries |
| `VariantPattern.StrippedMatchNoBacktrack` | src/processor.py:17 | on stripped text the whitespace run is consumed whole, and the variant starts at the first non-whitespace character and runs to the end of the line |
| `VariantProcessor.ParseVariantString` | src/processor.py:11-23 | on success the gene is non-empty and all `[A-Z0-9]`, and the variant is non-empty, has no newline and does not start with whitespace; on failure the message is the fixed literal |
| `VariantProcessor.ParseIgnoresSurroundingSpace` | src/processor.py:17 | `parse(s) == parse(strip(s))` |
| `VariantProcessor.ParseOfPadded` | src/processor.py:17 | whitespace added around any text does not change its parse |
| `VariantProcessor.ParseSucceedsIffPatternMatches` | src/processor.py:17-18 | parsing succeeds if and only if the pattern matches the stripped text |
| `VariantProcessor.ParseIsGreedyMatch` | src/processor.py:17-22 | on success, gene and variant are groups 1 and 2 of the match `re.match` reports |
| `VariantProcessor.ParseReconstructs` | src/processor.py:17-22 | on success, the stripped text is the gene, a non-empty whitespace run, the variant, and then nothing or a newline and more |
| `VariantProcessor.ParseOfComposed` | src/processor.py:17-22 | conversely, a stripped gene + whitespace + variant (+ text after a newline) parses to exactly that gene and variant |
| `VariantProcessor.ParseFailsIff` | src/processor.py:17-23 | parsing fails if and only if the stripped text does not start with `[A-Z0-9]`, or its leading `[A-Z0-9]` run is not followed by whitespace |
| `VariantProcessor.RejectsWithoutWhitespace` | src/processor.py:17-23 | text without whitespace gives the error record |
| `VariantProcessor.RejectsRunNotFollowedBySpace` | src/processor.py:17-23 | text whose leading `[A-Z0-9]` run is followed by a character that is not whitespace gives the error record |
| `VariantProcessor.RejectsBadStart` | src/processor.py:17-23 | empty text, or text whose stripped form starts outside `[A-Z0-9]`, gives the error record |
| `VariantProcessor.ExampleEgfr` | src/processor.py:14 | `"EGFR T790M"` parses to `EGFR` / `T790M` |
| `VariantProcessor.ExampleBrca1` | src/processor.py:39 | `"BRCA1 C61G"` parses to `BRCA1` / `C61G` |
| `VariantProcessor.ExampleBraf` | src/processor.py:23 | `"BRAF V600E"`, the example the error message gives, parses to `BRAF` / `V600E` |
| `VariantProcessor.ExampleVariantWithSpaces` | src/processor.py:17-21 | the variant may contain spaces: `"BRAF V600E (somatic)"` gives the variant `V600E (somatic)` |
| `VariantProcessor.ExampleVariantStopsAtNewline` | src/processor.py:17-21 | the variant ends at the first newline: `"KRAS G12C\nnotes"` gives `G12C` |
| `VariantProcessor.ExampleNewlineSeparator` | src/processor.py:17-21 | a newline after the gene is part of the `\s+` separator: `"EGFR\nT790M"` gives `EGFR` / `T790M` |
| `VariantProcessor.ExampleSeparatorRun` | src/processor.py:17-21 | a separator of several whitespace characters is consumed whole |
| `VariantProcessor.ExamplePadded` | src/processor.py:17-21 | whitespace around the input is ignored |
| `VariantProcessor.ExampleEmpty` | src/processor.py:17-23 | `""` gives the error record |
| `VariantProcessor.ExampleGeneOnly` | src/processor.py:17-23 | `"EGFR"` gives the error record |
| `VariantProcessor.ExampleLowerCase` | src/processor.py:17-23 | `"egfr T790M"` gives the error record |
| `VariantProcessor.ExampleMixedCase` | src/processor.py:17-23 | `"Egfr T790M"` gives the error record |
| `VariantProcessor.ExampleNoSeparator` | src/processor.py:17-23 | `"egfrT790M"` gives the error record |
| `VariantProcessor.FormatQueryForRag` | src/processor.py:25-34 | an error record's message is returned verbatim as the query; an Ok record gives a question exactly as long as the opening words, the gene, one space, the variant and the closing words together |
| `VariantProcessor.FormatFillsTemplate` | src/processor.py:32-34 | read by position, an Ok record's question is the fixed opening words, the gene, one space, the variant and the fixed closing words |
| `VariantProcessor.FormatExample` | src/processor.py:32-34 | `BRAF` / `V600E` becomes `"What is the clinical significance of the "` + `"BRAF V600E"` + `" mutation in precision oncology?"`, the question `"What is the clinical significance of the BRAF V600E mutation in precision oncology?"` |
| `VariantProcessor.QueryLongerThanError` | src/processor.py:23-34 | a question built from a parsed record is longer than the error message, so it can never be mistaken for it |
| `VariantProcessor.QueryDeterminesRecord` | src/processor.py:25-34 | two records of the shape `ParseVariantString` guarantees (`ParseShaped`: a non-empty `[A-Z0-9]` gene and a non-empty variant, or the fixed error record) have the same query only when they are equal |
| `VariantProcessor.QueryDeterminesParse` | src/processor.py:11-34 | two inputs have the same query only when they parse to the same record |

## Left out

- `supported_formats` and the `pandas` import (src/processor.py:1, 8-9): nothing reads them, so the constructor has no behaviour to model.
- `Text.IsSpace`: it encodes CPython's whitespace table (the characters for which `str.isspace()` holds, which `re`'s `\s` also matches on `str` patterns) as a fixed list of code points. It does not model changes to that table between Unicode versions.
- Inputs that Dafny's types rule out are not modelled. A non-`str` argument makes Python raise `AttributeError` at `variant_text.strip()` (src/processor.py:17); the only caller, app.py:40-46, passes the text box's `str`. A Python `str` can also hold lone surrogate code points, which a Dafny `char` cannot.
- Idempotence of `format_query_for_rag` is not stated: Dafny functions are deterministic by construction.
- `app.py` is not part of this model. It covers the Streamlit UI, the temporary PDF file, environment variables and the call order parse → format → retrieve → generate. It is all I/O and orchestration.
- `src/retriever.py` is not part of this model. It wraps an external vector store, embeddings, PDF loading and text splitting, whose behaviour is not visible here.
- `src/generator.py` is not part of this model. It fills a prompt template and calls a hosted language model over the network.
