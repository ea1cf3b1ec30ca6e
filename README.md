# Design4Green summarizer: a Dafny model of its deterministic core

The service asks a small causal language model (Pythia-70m) for a 10–15 word
summary and reports latency and energy. Around the model calls, three pieces of
logic are deterministic. This project models those three pieces and proves
their properties:

- **`summarize_text`** (modules/generate_summary.py). It rejects text that is
  not a string or is only whitespace. Then it post-processes the decoded model
  output:
  - It keeps what follows the first `"Résumé:"` and strips it.
  - It collapses whitespace runs to one space.
  - It extracts words with the regex `\b[\wÀ-ÖØ-öø-ÿ'-]+\b`.
  - Above 15 words it keeps the first 15, joined by spaces, plus `"."`. Below
    10 words it appends `"."`.
  - The record reports the word count taken before that cut, and echoes the
    `optimized` flag.
- **`generate_summary`** (src/summarizer.py). It returns `{"error": "Texte vide."}`
  for missing or blank text. It uses the int8 model exactly when `optimized`
  is set. It cuts the decoded text to its first 15 whitespace-separated tokens.
  No lower bound is applied.
- **Shard reassembly** (modules/unsplit.py). For every key of the first shard,
  it concatenates that key's tensor from every shard, in list order, along
  dimension 0.

Files:

- `wrappers.dfy`: `Option` and `Result`.
- `text.dfy` (module `Text`): the Python string operations both summarizers
  use, with lemmas relating them.
  - `str.isspace`, `strip()`, `re.sub(r"\s+", " ", …)`, `split()`, `" ".join`.
  - The first-occurrence search behind `s.split(m, 1)`.
  - The lemmas: split after join gives the tokens back, and collapsing
    whitespace keeps the tokens.
- `generate_summary.dfy` (module `GenerateSummary`): the post-processing
  pipeline. It includes a model of the `re.findall` scan with its `\b`
  anchors, greedy run and backtracking, over a Latin-1 `\w`, and proves that
  the scan finds exactly the left-to-right, non-overlapping matches.
- `summarizer.dfy` (module `Summarizer`): the empty check, the model choice and
  the 15-token cut.
- `unsplit.dfy` (module `Unsplit`): `Reassemble` is a method.
  - An outer loop runs over the keys of the first shard that are still
    pending. An inner loop plays the list comprehension and `torch.cat`.
  - It is proved against the function `Reassembled`, with lemmas on lengths
    and order.

Where the code's own comments and the code disagree, the model follows the
code:
- The docstring at modules/generate_summary.py:25 promises a 10–15 word
  summary. Lines 86-93 report the word count taken before the cut, and below 10
  words they only append a period, so a summary can hold fewer than 10 words.
- The docstring at src/summarizer.py:15 asks for 10–15 words as well, but no
  lower bound is applied there (`Summarizer.NoMinimum`).

## Model

| member | source | states |
|---|---|---|
| GenerateSummary.SummarizeText | modules/generate_summary.py:29-30 | Fails with "Texte vide ou invalide." exactly when `text` is not a string or is all whitespace, whatever the model produced. On success the record echoes `optimized`, reports the number of regex matches in the cleaned text before any cut, and carries the tidy summary. |
| Text.IndexOfFrom | modules/generate_summary.py:79-80 | Returns the least index at or after `from` where the marker occurs; `None` exactly when it occurs nowhere from there. |
| Text.AfterFirst | modules/generate_summary.py:79-80 | `None` iff the marker occurs nowhere. For the first index holding the marker (no earlier index holds it), the result is the text after that occurrence. |
| GenerateSummary.ExtractAfter | modules/generate_summary.py:79-82 | With the cue absent: the whole output, stripped. Otherwise: the stripped text after its first occurrence. Either way it has no leading or trailing whitespace. `Extract` applies this to "Résumé:". |
| Text.Strip | modules/generate_summary.py:80 | Returns a slice of the input with only whitespace removed at the two ends. The result neither starts nor ends with whitespace, and is empty iff the input is all whitespace. |
| Text.CollapseSpaces | modules/generate_summary.py:85 | Whitespace in the result is single plain spaces, never two adjacent. It is empty iff the input is empty. A non-whitespace first or last character is kept; a leading or trailing whitespace run becomes one space. |
| Text.SplitCollapse | modules/generate_summary.py:85 | Collapsing whitespace runs leaves the whitespace-separated tokens unchanged. |
| GenerateSummary.Cleaned | modules/generate_summary.py:79-85 | The cleaned text has no leading or trailing whitespace and no run of two whitespace characters. Its tokens are those of the extracted text. |
| GenerateSummary.ClassRunEnd | modules/generate_summary.py:86 | Gives the end of the longest run of class characters from `i` (the greedy `+`). |
| GenerateSummary.LastBoundary | modules/generate_summary.py:86 | Gives the largest position in `(lo, hi]` where `\b` holds, or `None` when there is none (where backtracking stops). |
| GenerateSummary.MatchAt | modules/generate_summary.py:86 | One attempt of `\b[\wÀ-ÖØ-öø-ÿ'-]+\b` at `i`: a match ends after `i` and within the text. What it finds is stated by `MatchAtSpec`. |
| GenerateSummary.MatchSpans | modules/generate_summary.py:86 | The `re.findall` scan from `i` (via `Scan` over the table of `MatchAt` results): its spans lie within the text from `i`, at most one per position. What it returns is stated by `MatchSpansFindall` and fixed by `FindallUnique`. |
| GenerateSummary.MatchAtSpec | modules/generate_summary.py:86 | A match starts on `\b`, ends on `\b` and holds only class characters. No longer class-only span ending on `\b` exists. With no match, either `\b` fails at `i` or no class-only span from `i` ends on `\b`. |
| GenerateSummary.MatchSpansFindall | modules/generate_summary.py:86 | Every span the scan returns is the match starting at its start; the spans are in order and do not overlap; every position where a match starts lies inside one of them (a match starting inside an earlier one is skipped). |
| GenerateSummary.FindallUnique | modules/generate_summary.py:86 | Any list of spans with those three properties is the scan's result, so they define what `re.findall` returns. |
| GenerateSummary.Words | modules/generate_summary.py:86 | The k-th word is the text of the k-th span of the scan, one word per span. Every word is a non-empty run of class characters and a whitespace-free token. |
| GenerateSummary.WordsJoin | modules/generate_summary.py:86 | Words whose first and last characters are word characters and that hold only class characters, joined by single spaces, are extracted back exactly. |
| GenerateSummary.WordCount | modules/generate_summary.py:86-87 | The reported count is at most the length of the cleaned text. |
| GenerateSummary.WordCountJoin | modules/generate_summary.py:86-87 | When the cleaned text is such words joined by spaces, the reported count is the number of those words. |
| GenerateSummary.WordTokenIsToken | modules/generate_summary.py:86 | No character of the class is whitespace. |
| GenerateSummary.Shorten | modules/generate_summary.py:89-93 | Each of the three branches keeps a tidy text tidy. |
| GenerateSummary.Summarize | modules/generate_summary.py:79-93 | The returned summary never has leading or trailing whitespace or a run of two whitespace characters. |
| GenerateSummary.LongSummary | modules/generate_summary.py:90-91 | Above 15 words, the summary's tokens are exactly the first 15 extracted words, with "." stuck to the last one (15 tokens). Everything before the final "." is class characters or spaces, so punctuation between words is dropped. |
| GenerateSummary.LongShortenTokens | modules/generate_summary.py:90-91 | Above 15 words, the tokens of the cut text are the first 15 words, the last carrying the period. |
| GenerateSummary.LongShortenChars | modules/generate_summary.py:90-91 | Above 15 words, the cut text ends in "." and has only class characters and spaces before it. |
| GenerateSummary.JoinClass | modules/generate_summary.py:91 | Joining class-only words with spaces yields only class characters and spaces. |
| GenerateSummary.SplitDotted | modules/generate_summary.py:91 | Appending "." to a join of tokens attaches it to the last token. |
| GenerateSummary.ShortSummary | modules/generate_summary.py:92-93 | Below 10 words, the summary is the cleaned text plus ".", even if that text already ends in "." (then the summary ends in ".."). |
| GenerateSummary.MidSummary | modules/generate_summary.py:89-93 | From 10 to 15 words, the cleaned text is returned unchanged, with the tokens of the extracted text. |
| Summarizer.GenerateSummary | src/summarizer.py:16-45 | Returns the error "Texte vide." exactly for missing or all-whitespace text. Otherwise it generates with the model `SelectModel(optimized)` and echoes `optimized`. Decoded text of at most 15 tokens comes back unchanged; longer text becomes its first 15 tokens, single-spaced and trimmed. |
| Summarizer.SelectModel | src/summarizer.py:19 | The int8 model is chosen if and only if `optimized` is true. |
| Summarizer.Truncate | src/summarizer.py:36-39 | Never more than 15 tokens. With 15 or fewer the text is returned exactly, whitespace included. With more, the result's tokens are the first 15 and it is single-spaced and trimmed. |
| Summarizer.TruncateIdempotent | src/summarizer.py:36-39 | Cutting twice gives the same result as cutting once. |
| Summarizer.TruncateKeepsPrefix | src/summarizer.py:36-39 | The tokens of the cut text are a prefix of the decoded tokens. |
| Summarizer.NoMinimum | src/summarizer.py:36-38 | Any output of fewer than 10 tokens passes through unchanged, although the docstring at line 15 asks for 10–15 words. |
| Summarizer.OneTokenSummary | src/summarizer.py:36-38 | A one-token output exists and passes through unchanged. |
| Text.Split | src/summarizer.py:36 | Every token is non-empty and whitespace-free. No tokens iff the text is all whitespace. |
| Text.JoinSpaces | src/summarizer.py:39 | Joining tokens with single spaces yields a trimmed, single-spaced text, empty only for no tokens. |
| Text.SplitJoin | src/summarizer.py:36-39 | Splitting a space-join of tokens gives the tokens back. |
| Text.TidyJoin | src/summarizer.py:36-39 | The converse of `SplitJoin`: a trimmed, single-spaced text is the space-join of its own tokens. So a result stated as tidy with given tokens (`Truncate`, `GenerateSummary`, `LongSummary`, `Cleaned`) is exactly the `" ".join` of those tokens. |
| Text.JoinAppend | src/summarizer.py:39 | Appending to the joined text is the same as appending to the last token before joining. |
| Unsplit.Reassemble | modules/unsplit.py:15-19 | Succeeds iff there is a first shard and every one of its keys is in every shard; the result is then `Reassembled(shards)`. With no shards it fails with `NoShards`. Otherwise it names a key of the first shard and the first shard index lacking it (the KeyError on `w[key]`). |
| Unsplit.Reassembled | modules/unsplit.py:17-19 | The key set equals the first shard's, so keys found only in later shards are dropped. Each key's value is `Column(shards, key)`, and its length along dimension 0 is the sum of its lengths over the shards. |
| Unsplit.Column | modules/unsplit.py:19 | A key's concatenated rows, whose length is the sum of its lengths across the shards. |
| Unsplit.ColumnAppend | modules/unsplit.py:19 | Concatenating two shard lists concatenates the per-key results. |
| Unsplit.ColumnSegment | modules/unsplit.py:19 | Shard `i`'s rows appear in the result right after the rows of shards `0..i-1`: list order is kept. |

## Left out

- Model and tokenizer loading, prompt construction and tokenization, `generate`, `decode` and `quantize_dynamic`. These are foreign machine-learning calls.
  - In `GenerateSummary` the decoded output is the parameter `textOut`.
  - In `Summarizer` the function parameter `generate` receives the chosen model and the text.
- CodeCarbon tracking and the kWh to Wh conversion: an external meter and floating-point arithmetic.
- Latency timing with `perf_counter` and its rounding: a clock and floats. The result records carry neither `latency_ms` nor `energy_Wh`.
- `load_file` and `save_file`, the hard-coded shard paths and the final print in modules/unsplit.py: file I/O. The method takes the list of loaded shards in the script's order (part1, part2, part3).
- Tensor shapes and dtypes: `torch.cat` failing on mismatched trailing dimensions is not modelled. A tensor is its sequence of rows along dimension 0.
- Unsplit.Reassemble: a map has no key order, so the loop picks the next pending key freely. When several keys are missing, the key named in the error may differ from the one Python's insertion order would raise on first.
- GenerateSummary.IsWordChar: Python's `\w` is Unicode-wide, but it is modelled only up to U+00FF (`str.isalnum()` or `_` in Latin-1). Characters above U+00FF are never word characters here, so `Words` can differ from Python's on such text.
- Text.IsSpace is Python's exact `str.isspace` set. The model assumes `re`'s `\s` matches the same set.
- Non-string inputs: `Option.None` stands for any value that is not a string, and the model treats every non-string like `None`. For `summarize_text` this is exact (the `isinstance` check at modules/generate_summary.py:29). For `generate_summary` it is not: a truthy non-string without `strip` raises AttributeError at src/summarizer.py:16, and non-blank `bytes` or `bytearray` pass that check and are summarized from their repr by the f-string at line 21, where the model returns "Texte vide.".
- modules/split.py is entirely commented out, so no split/unsplit round trip is claimed.
- modules/test.py and src/test_model.py are driver scripts. test.py's cut after the LAST "Résumé:" differs from the first-occurrence cut modelled here and is not modelled.
- app.py (the HTTP stub) and web/svelte.config.js are not part of this model.
