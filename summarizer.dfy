/**
 * `generate_summary` in src/summarizer.py: reject blank text, pick the int8 or
 * the fp32 model, and cut the decoded output to its first 15
 * whitespace-separated tokens. Prompting, generation and decoding are one
 * opaque step, the `generate` parameter, which receives the chosen model.
 */
module Summarizer {
  import opened Wrappers
  import opened Text

  /** The two models prepared at import time: full precision and dynamically quantized. */
  datatype Model = Fp32 | Int8

  /** At most this many tokens are kept. */
  const MaxTokens: nat := 15

  const EmptyText: string := "Texte vide."

  /** What `generate_summary` returns: the error dict or the summary dict without its latency. */
  datatype Response = Error(message: string) | Summary(summary: string, optimized: bool)

  /** Line 19: the quantized model exactly when `optimized` is set. */
  function SelectModel(optimized: bool): (m: Model)
    ensures m == Int8 <==> optimized
    ensures m == Fp32 <==> !optimized
  {
    if optimized then Int8 else Fp32
  }

  /**
   * Lines 36-39: more than 15 tokens are cut to the first 15 joined by single
   * spaces; otherwise the decoded text is returned as it is, whitespace
   * included. No lower bound is applied.
   */
  function Truncate(decoded: string): (r: string)
    ensures |Split(r)| <= MaxTokens
    ensures |Split(decoded)| <= MaxTokens ==> r == decoded
    ensures |Split(decoded)| > MaxTokens ==> Split(r) == Split(decoded)[..MaxTokens] && Tidy(r)
  {
    var words := Split(decoded);
    if |words| > MaxTokens then
      var cut := words[..MaxTokens];
      assert Tokens(cut) by { forall k | 0 <= k < MaxTokens ensures Token(cut[k]) { assert cut[k] == words[k]; } }
      SplitJoin(cut);
      JoinSpaces(cut)
    else
      decoded
  }

  /**
   * `generate_summary(text, optimized)`, where `generate(model, text)` stands
   * for prompting `model` with `text`, generating and decoding.
   */
  function GenerateSummary(text: Option<string>, optimized: bool, generate: (Model, string) -> string): (r: Response)
    ensures r.Error? <==> text.None? || AllSpace(text.value)
    ensures r.Error? ==> r.message == EmptyText
    ensures r.Summary? ==> r.optimized == optimized && |Split(r.summary)| <= MaxTokens
    ensures r.Summary? ==> var decoded := generate(SelectModel(optimized), text.value);
                           && (|Split(decoded)| <= MaxTokens ==> r.summary == decoded)
                           && (|Split(decoded)| > MaxTokens ==> Split(r.summary) == Split(decoded)[..MaxTokens] && Tidy(r.summary))
  {
    if text.None? || Strip(text.value) == [] then Error(EmptyText)
    else Summary(Truncate(generate(SelectModel(optimized), text.value)), optimized)
  }

  /** Cutting twice is cutting once. */
  lemma TruncateIdempotent(decoded: string)
    ensures Truncate(Truncate(decoded)) == Truncate(decoded)
  {
  }

  /** A cut summary keeps the leading tokens, in order: it is a prefix of the token list. */
  lemma TruncateKeepsPrefix(decoded: string)
    ensures var ws := Split(Truncate(decoded)); ws <= Split(decoded)
  {
  }

  /**
   * No minimum: an output of fewer than 10 tokens comes back unchanged even
   * though the docstring asks for 10 to 15 words.
   */
  lemma NoMinimum(decoded: string)
    ensures |Split(decoded)| < 10 ==> Truncate(decoded) == decoded
  {
  }

  /** Such outputs exist: a one-token output passes through as it is. */
  lemma OneTokenSummary()
    ensures |Split("Bonjour")| == 1 && Truncate("Bonjour") == "Bonjour"
  {
    SplitToken("Bonjour");
  }
}
