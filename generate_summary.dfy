/**
 * Post-processing of `summarize_text` in modules/generate_summary.py: the input
 * check, the cut after the first "Résumé:" marker, whitespace collapsing, the
 * regex word extraction and the 10/15-word adjustment, and the fields of the
 * returned record. Loading, quantizing and running the model are outside this
 * module: the decoded model output `textOut` is a parameter.
 */
module GenerateSummary {
  import opened Wrappers
  import opened Text

  /** The cue the prompt ends with: "Résumé:". */
  const Marker: string := "R\U{E9}sum\U{E9}:"

  /** Above this many extracted words the summary is cut. */
  const MaxWords: nat := 15

  /** Below this many extracted words a period is appended. */
  const MinWords: nat := 10

  const InvalidText: string := "Texte vide ou invalide."

  /** The record `summarize_text` returns, without its latency and energy figures. */
  datatype SummaryRecord = SummaryRecord(summary: string, words: nat, optimized: bool)

  // ---------------------------------------------------------------------------
  // The word pattern \b[\wÀ-ÖØ-öø-ÿ'-]+\b and re.findall over it.
  // ---------------------------------------------------------------------------

  /** `\w` on a str pattern (`str.isalnum()` or `_`), as far as the Latin-1 range. */
  predicate IsWordChar(c: char) {
    ('0' <= c <= '9') || ('A' <= c <= 'Z') || ('a' <= c <= 'z') || c == '_'
    || c == '\U{AA}' || c == '\U{B2}' || c == '\U{B3}' || c == '\U{B5}' || c == '\U{B9}' || c == '\U{BA}'
    || ('\U{BC}' <= c <= '\U{BE}') || ('\U{C0}' <= c <= '\U{D6}') || ('\U{D8}' <= c <= '\U{F6}')
    || ('\U{F8}' <= c <= '\U{FF}')
  }

  /** The character class `[\wÀ-ÖØ-öø-ÿ'-]`. */
  predicate InWordClass(c: char) {
    IsWordChar(c) || ('\U{C0}' <= c <= '\U{D6}') || ('\U{D8}' <= c <= '\U{F6}') || ('\U{F8}' <= c <= '\U{FF}')
    || c == '\'' || c == '-'
  }

  /** `\b` at position `i`: a word character on exactly one side. */
  predicate Boundary(s: string, i: nat)
    requires i <= |s|
  {
    (i > 0 && IsWordChar(s[i - 1])) != (i < |s| && IsWordChar(s[i]))
  }

  /** A string every character of which is in the class, as each match is. */
  predicate WordToken(w: string) {
    w != [] && forall j | 0 <= j < |w| :: InWordClass(w[j])
  }

  /** End of the longest run of class characters starting at `i` (the greedy `+`). */
  function ClassRunEnd(s: string, i: nat): (r: nat)
    requires i <= |s|
    ensures i <= r <= |s|
    ensures forall k | i <= k < r :: InWordClass(s[k])
    ensures r < |s| ==> !InWordClass(s[r])
    decreases |s| - i
  {
    if i < |s| && InWordClass(s[i]) then ClassRunEnd(s, i + 1) else i
  }

  /** The largest `j` with `lo < j <= hi` where `\b` holds: where backtracking stops. */
  function LastBoundary(s: string, lo: nat, hi: nat): (r: Option<nat>)
    requires lo <= hi <= |s|
    ensures r.Some? ==> lo < r.value <= hi && Boundary(s, r.value)
    ensures r.Some? ==> forall j | r.value < j <= hi :: !Boundary(s, j)
    ensures r.None? ==> forall j | lo < j <= hi :: !Boundary(s, j)
    decreases hi
  {
    if hi == lo then None
    else if Boundary(s, hi) then Some(hi)
    else LastBoundary(s, lo, hi - 1)
  }

  /**
   * The end of the match of `\b[class]+\b` that starts at `i`, if any: `\b` at
   * `i`, then the longest class run that still ends on a `\b`. What it finds is
   * stated by `MatchAtSpec`.
   */
  function MatchAt(s: string, i: nat): (r: Option<nat>)
    requires i <= |s|
    ensures r.Some? ==> i < r.value <= |s|
  {
    if Boundary(s, i) then LastBoundary(s, i, ClassRunEnd(s, i)) else None
  }

  /**
   * A match starts on `\b`, ends on `\b` and holds only class characters, and
   * no longer class-only span from `i` ends on `\b`. Without a match, `\b` fails
   * at `i` or no class-only span from `i` ends on `\b`.
   */
  lemma MatchAtSpec(s: string, i: nat)
    requires i <= |s|
    ensures var r := MatchAt(s, i);
            && (r.Some? ==> Boundary(s, i) && Boundary(s, r.value) && WordToken(s[i..r.value]))
            && (r.Some? ==> forall j | r.value < j <= |s| && Boundary(s, j) :: !WordToken(s[i..j]))
            && (r.None? ==> !Boundary(s, i) || forall j | i < j <= |s| && Boundary(s, j) :: !WordToken(s[i..j]))
  {
    if Boundary(s, i) {
      var e := ClassRunEnd(s, i);
      forall j | e < j <= |s| ensures !WordToken(s[i..j]) {
        assert s[i..j][e - i] == s[e];
      }
      var r := LastBoundary(s, i, e);
      if r.Some? {
        assert forall k | 0 <= k < r.value - i :: s[i..r.value][k] == s[i + k];
      }
    }
  }

  /** Where one match lies: `s[start..end]`. */
  datatype Span = Span(start: nat, end: nat)

  /** Position `p` lies inside one of the spans. */
  predicate Covers(spans: seq<Span>, p: nat) {
    exists k | 0 <= k < |spans| :: spans[k].start <= p < spans[k].end
  }

  /** Each span is the match that starts at its start, at or after `i`. */
  predicate AllMatches(s: string, i: nat, spans: seq<Span>) {
    forall k | 0 <= k < |spans| :: i <= spans[k].start <= |s| && MatchAt(s, spans[k].start) == Some(spans[k].end)
  }

  /** The spans come left to right and do not overlap. */
  predicate InOrder(spans: seq<Span>) {
    forall k, l | 0 <= k < l < |spans| :: spans[k].end <= spans[l].start
  }

  /** Every span lies within `s[i..]`. */
  predicate WithinFrom(s: string, i: nat, spans: seq<Span>) {
    forall k | 0 <= k < |spans| :: i <= spans[k].start <= spans[k].end <= |s|
  }

  /**
   * What the scan consults: for each position `p` from 0 to `|s|`, the end of
   * the match starting at `p`, if any.
   */
  function MatchTable(s: string): (table: seq<Option<nat>>)
    ensures |table| == |s| + 1
    ensures forall p | 0 <= p <= |s| :: table[p] == MatchAt(s, p)
    ensures ValidTable(table)
  {
    seq(|s| + 1, p requires 0 <= p <= |s| => MatchAt(s, p))
  }

  /** Every match ends after its start and within the text. */
  predicate ValidTable(table: seq<Option<nat>>) {
    forall p | 0 <= p < |table| && table[p].Some? :: p < table[p].value < |table|
  }

  /**
   * The scan of `re.findall` from position `i` over a match table: try a match
   * at each position from left to right and resume after each match found.
   */
  function Scan(table: seq<Option<nat>>, i: nat): (spans: seq<Span>)
    requires ValidTable(table) && i < |table|
    ensures forall k | 0 <= k < |spans| :: i <= spans[k].start <= spans[k].end < |table|
    ensures |spans| <= |table| - 1 - i
    decreases |table| - i
  {
    if i == |table| - 1 then []
    else match table[i]
      case Some(j) =>
        var rest := Scan(table, j);
        var spans := [Span(i, j)] + rest;
        assert forall k | 0 < k < |spans| :: spans[k] == rest[k - 1];
        spans
      case None => Scan(table, i + 1)
  }

  /** `re.findall`'s scan of `s` from position `i`. What it finds is stated by `MatchSpansFindall`. */
  function MatchSpans(s: string, i: nat): (spans: seq<Span>)
    requires i <= |s|
    ensures WithinFrom(s, i, spans)
    ensures |spans| <= |s| - i
  {
    Scan(MatchTable(s), i)
  }

  /** Each span is a match recorded in the table, at or after `i`. */
  predicate TableMatches(table: seq<Option<nat>>, i: nat, spans: seq<Span>) {
    forall k | 0 <= k < |spans| :: i <= spans[k].start < |table| && table[spans[k].start] == Some(spans[k].end)
  }

  /**
   * The spans the scan finds are matches, in order and disjoint, and every
   * position from `i` on where a match starts lies inside one of them: a match
   * that would start inside an earlier one is skipped, as the scan skips it.
   */
  lemma MatchSpansFindall(s: string, i: nat)
    requires i <= |s|
    ensures var spans := MatchSpans(s, i);
            && AllMatches(s, i, spans) && InOrder(spans)
            && forall p | i <= p <= |s| && MatchAt(s, p).Some? :: Covers(spans, p)
  {
    var table := MatchTable(s);
    ScanFindall(table, i);
    var spans := Scan(table, i);
    forall p | i <= p <= |s| && MatchAt(s, p).Some? ensures Covers(spans, p) {
      assert table[p].Some?;
    }
  }

  /**
   * The three properties of `MatchSpansFindall` fix the result: any list of
   * spans that has them is the one the scan returns.
   */
  lemma FindallUnique(s: string, i: nat, spans: seq<Span>)
    requires i <= |s|
    requires AllMatches(s, i, spans) && InOrder(spans)
    requires forall p | i <= p <= |s| && MatchAt(s, p).Some? :: Covers(spans, p)
    ensures spans == MatchSpans(s, i)
  {
    var table := MatchTable(s);
    forall p | i <= p < |table| && table[p].Some? ensures Covers(spans, p) {
      assert MatchAt(s, p).Some?;
    }
    ScanUnique(table, i, spans);
  }

  lemma {:induction false} ScanUnique(table: seq<Option<nat>>, i: nat, spans: seq<Span>)
    requires ValidTable(table) && i < |table|
    requires TableMatches(table, i, spans) && InOrder(spans)
    requires forall p | i <= p < |table| && table[p].Some? :: Covers(spans, p)
    ensures spans == Scan(table, i)
    decreases |table| - i
  {
    if i == |table| - 1 {
      EarlierSpan(table, i, spans, |spans|);
    } else if table[i].Some? {
      FirstSpan(table, i, spans);
      RestSpans(table, i, spans);
      ScanUnique(table, table[i].value, spans[1..]);
      UniqueFound(table, i, spans);
    } else {
      SkipSpans(table, i, spans);
      ScanUnique(table, i + 1, spans);
      ScanNotFound(table, i);
    }
  }

  lemma UniqueFound(table: seq<Option<nat>>, i: nat, spans: seq<Span>)
    requires ValidTable(table) && i < |table| - 1 && table[i].Some?
    requires spans != [] && spans[0] == Span(i, table[i].value) && spans[1..] == Scan(table, table[i].value)
    ensures spans == Scan(table, i)
  {
    ScanFound(table, i, table[i].value);
    assert spans == [spans[0]] + spans[1..];
  }

  /** When a match starts at `i`, the first span is that match. */
  lemma FirstSpan(table: seq<Option<nat>>, i: nat, spans: seq<Span>)
    requires ValidTable(table) && i < |table| && table[i].Some?
    requires TableMatches(table, i, spans) && InOrder(spans) && Covers(spans, i)
    ensures spans != [] && spans[0] == Span(i, table[i].value)
  {
    var k :| 0 <= k < |spans| && spans[k].start <= i < spans[k].end;
    assert spans[k].start == i;
    EarlierSpan(table, i, spans, k);
  }

  /** Before the `k`-th span there is a first one, which ends after `i` and at or before span `k`. */
  lemma EarlierSpan(table: seq<Option<nat>>, i: nat, spans: seq<Span>, k: nat)
    requires ValidTable(table) && TableMatches(table, i, spans) && InOrder(spans) && k <= |spans|
    ensures 0 < k ==> i < spans[0].end < |table|
    ensures 0 < k < |spans| ==> spans[0].end <= spans[k].start
  {
    if 0 < k {
      assert table[spans[0].start] == Some(spans[0].end);
    }
  }

  lemma RestSpans(table: seq<Option<nat>>, i: nat, spans: seq<Span>)
    requires ValidTable(table) && i < |table| && table[i].Some?
    requires spans != [] && spans[0] == Span(i, table[i].value)
    requires TableMatches(table, i, spans) && InOrder(spans)
    requires forall p | i <= p < |table| && table[p].Some? :: Covers(spans, p)
    ensures TableMatches(table, table[i].value, spans[1..]) && InOrder(spans[1..])
    ensures forall p | table[i].value <= p < |table| && table[p].Some? :: Covers(spans[1..], p)
  {
    var j := table[i].value;
    var rest := spans[1..];
    forall k | 0 <= k < |rest| ensures j <= rest[k].start {
      assert rest[k] == spans[k + 1];
    }
    forall p | j <= p < |table| && table[p].Some? ensures Covers(rest, p) {
      var k :| 0 <= k < |spans| && spans[k].start <= p < spans[k].end;
      assert k > 0;
      assert rest[k - 1] == spans[k];
    }
  }

  lemma SkipSpans(table: seq<Option<nat>>, i: nat, spans: seq<Span>)
    requires ValidTable(table) && i < |table| && table[i].None?
    requires TableMatches(table, i, spans)
    requires forall p | i <= p < |table| && table[p].Some? :: Covers(spans, p)
    ensures TableMatches(table, i + 1, spans)
    ensures forall p | i + 1 <= p < |table| && table[p].Some? :: Covers(spans, p)
  {
    forall k | 0 <= k < |spans| ensures i + 1 <= spans[k].start {
      assert table[spans[k].start].Some?;
    }
  }

  lemma {:induction false} ScanFindall(table: seq<Option<nat>>, i: nat)
    requires ValidTable(table) && i < |table|
    ensures var spans := Scan(table, i);
            && TableMatches(table, i, spans) && InOrder(spans)
            && forall p | i <= p < |table| && table[p].Some? :: Covers(spans, p)
    decreases |table| - i
  {
    if i < |table| - 1 {
      match table[i]
      case Some(j) =>
        ScanFindall(table, j);
        ScanFound(table, i, j);
        SpansCons(table, i, j, Scan(table, j));
      case None =>
        ScanFindall(table, i + 1);
        ScanNotFound(table, i);
        SpansSkip(table, i, Scan(table, i + 1));
    }
  }

  lemma SpansCons(table: seq<Option<nat>>, i: nat, j: nat, rest: seq<Span>)
    requires ValidTable(table) && i < |table| && table[i] == Some(j)
    requires TableMatches(table, j, rest) && InOrder(rest)
    requires forall p | j <= p < |table| && table[p].Some? :: Covers(rest, p)
    ensures TableMatches(table, i, [Span(i, j)] + rest) && InOrder([Span(i, j)] + rest)
    ensures forall p | i <= p < |table| && table[p].Some? :: Covers([Span(i, j)] + rest, p)
  {
    SpansConsOrder(table, i, j, rest);
    forall p | i <= p < |table| && table[p].Some? ensures Covers([Span(i, j)] + rest, p) {
      if p < j {
        CoversHead(Span(i, j), rest, p);
      } else {
        CoversTail(Span(i, j), rest, p);
      }
    }
  }

  lemma SpansConsOrder(table: seq<Option<nat>>, i: nat, j: nat, rest: seq<Span>)
    requires ValidTable(table) && i < |table| && table[i] == Some(j)
    requires TableMatches(table, j, rest) && InOrder(rest)
    ensures TableMatches(table, i, [Span(i, j)] + rest) && InOrder([Span(i, j)] + rest)
  {
    var spans := [Span(i, j)] + rest;
    forall k | 0 < k < |spans| ensures spans[k] == rest[k - 1] { }
  }

  lemma SpansSkip(table: seq<Option<nat>>, i: nat, rest: seq<Span>)
    requires i < |table| && table[i].None?
    requires TableMatches(table, i + 1, rest)
    requires forall p | i + 1 <= p < |table| && table[p].Some? :: Covers(rest, p)
    ensures TableMatches(table, i, rest)
    ensures forall p | i <= p < |table| && table[p].Some? :: Covers(rest, p)
  {
  }

  lemma CoversHead(first: Span, rest: seq<Span>, p: nat)
    requires first.start <= p < first.end
    ensures Covers([first] + rest, p)
  {
    assert ([first] + rest)[0] == first;
  }

  lemma CoversTail(first: Span, rest: seq<Span>, p: nat)
    requires Covers(rest, p)
    ensures Covers([first] + rest, p)
  {
    var k :| 0 <= k < |rest| && rest[k].start <= p < rest[k].end;
    assert ([first] + rest)[k + 1] == rest[k];
  }

  /** The texts of the spans, in order. */
  function Texts(s: string, spans: seq<Span>): (ws: seq<string>)
    requires WithinFrom(s, 0, spans)
    ensures |ws| == |spans|
    ensures forall k | 0 <= k < |spans| :: ws[k] == s[spans[k].start..spans[k].end]
  {
    if spans == [] then []
    else [s[spans[0].start..spans[0].end]] + Texts(s, spans[1..])
  }

  /**
   * `re.findall(r"\b[\wÀ-ÖØ-öø-ÿ'-]+\b", s)`: the texts of the matches the scan
   * finds, in order. Each is a non-empty run of class characters and a
   * `str.split()` token.
   */
  function Words(s: string): (ws: seq<string>)
    ensures |ws| == |MatchSpans(s, 0)| <= |s|
    ensures var spans := MatchSpans(s, 0);
            forall k | 0 <= k < |ws| :: ws[k] == s[spans[k].start..spans[k].end]
    ensures forall k | 0 <= k < |ws| :: WordToken(ws[k])
    ensures Tokens(ws)
  {
    var spans := MatchSpans(s, 0);
    var ws := Texts(s, spans);
    MatchSpansFindall(s, 0);
    forall k | 0 <= k < |ws| ensures WordToken(ws[k]) && Token(ws[k]) {
      assert MatchAt(s, spans[k].start) == Some(spans[k].end);
      MatchAtSpec(s, spans[k].start);
      WordTokenIsToken(ws[k]);
    }
    ws
  }

  /** No class character is whitespace, so a match is a `str.split()` token. */
  lemma WordTokenIsToken(w: string)
    requires WordToken(w)
    ensures Token(w)
  {
    forall j | 0 <= j < |w| ensures !IsSpace(w[j]) {
      assert InWordClass(w[j]);
    }
  }

  // ---------------------------------------------------------------------------
  // The post-processing pipeline.
  // ---------------------------------------------------------------------------

  /**
   * Lines 79-82 for a cue `marker`: the stripped text after its FIRST
   * occurrence, or the whole output stripped when it does not occur.
   */
  function ExtractAfter(textOut: string, marker: string): (r: string)
    ensures Trimmed(r)
    ensures (forall j | 0 <= j <= |textOut| :: !OccursAt(textOut, marker, j)) ==> r == Strip(textOut)
    ensures forall i: nat | FirstOccurrence(textOut, marker, i) :: r == Strip(textOut[i + |marker|..])
  {
    match AfterFirst(textOut, marker)
    case Some(rest) => Strip(rest)
    case None => Strip(textOut)
  }

  /** The extraction with the prompt's own cue, "Résumé:". */
  function Extract(textOut: string): string {
    ExtractAfter(textOut, Marker)
  }

  /** Line 85: the extracted text with every whitespace run made a single space. */
  function Cleaned(textOut: string): (r: string)
    ensures Tidy(r)
    ensures Split(r) == Split(Extract(textOut))
  {
    SplitCollapse(Extract(textOut));
    CollapseSpaces(Extract(textOut))
  }

  /** Lines 86-87: the count reported in the result, taken before any cut. */
  function WordCount(textOut: string): (r: nat)
    ensures r <= |Cleaned(textOut)|
  {
    |Words(Cleaned(textOut))|
  }

  /** When the cleaned text is clean words joined by spaces, the count is the number of those words. */
  lemma WordCountJoin(textOut: string, ws: seq<string>)
    requires forall k | 0 <= k < |ws| :: CleanWord(ws[k])
    requires Cleaned(textOut) == JoinSpaces(ws)
    ensures WordCount(textOut) == |ws|
  {
    WordsJoin(ws);
  }

  /** Lines 89-93: cut to 15 extracted words, or append a period below 10. */
  function Shorten(cleaned: string): (r: string)
    ensures Tidy(cleaned) ==> Tidy(r)
  {
    var words := Words(cleaned);
    if |words| > MaxWords then
      var cut := words[..MaxWords];
      assert Tokens(cut) by { forall k | 0 <= k < MaxWords ensures Token(cut[k]) { assert cut[k] == words[k]; } }
      TidyPeriod(JoinSpaces(cut));
      JoinSpaces(cut) + "."
    else if |words| < MinWords then
      assert Tidy(cleaned) ==> Tidy(cleaned + ".") by { if Tidy(cleaned) { TidyPeriod(cleaned); } }
      cleaned + "."
    else
      cleaned
  }

  /** The summary text `summarize_text` returns for the decoded output `textOut`. */
  function Summarize(textOut: string): (r: string)
    ensures Tidy(r)
  {
    Shorten(Cleaned(textOut))
  }

  /** `summarize_text(text, optimized)` once generation has produced `textOut`. */
  function SummarizeText(text: Option<string>, optimized: bool, textOut: string): (r: Result<SummaryRecord, string>)
    ensures r.Failure? <==> text.None? || AllSpace(text.value)
    ensures r.Failure? ==> r.error == InvalidText
    ensures r.Success? ==> r.value.optimized == optimized
    ensures r.Success? ==> r.value.words == |Words(Cleaned(textOut))|
    ensures r.Success? ==> r.value.summary == Summarize(textOut) && Tidy(r.value.summary)
  {
    if text.None? || Strip(text.value) == [] then Failure(InvalidText)
    else Success(SummaryRecord(Summarize(textOut), WordCount(textOut), optimized))
  }

  // ---------------------------------------------------------------------------
  // Properties of the three branches.
  // ---------------------------------------------------------------------------

  lemma TidyPeriod(s: string)
    requires Tidy(s)
    ensures Tidy(s + ".")
  {
    TidyAppend(s, '.');
  }

  /**
   * More than 15 words: the summary is the first 15 extracted words joined by
   * single spaces with a period stuck to the last one, so it has exactly 15
   * whitespace-separated tokens and every character but the final period is a
   * class character or a space: punctuation between words is gone.
   */
  lemma LongSummary(textOut: string)
    requires WordCount(textOut) > MaxWords
    ensures var w := Words(Cleaned(textOut));
            Split(Summarize(textOut)) == w[..MaxWords - 1] + [w[MaxWords - 1] + "."]
    ensures |Split(Summarize(textOut))| == MaxWords
    ensures var r := Summarize(textOut);
            r != [] && r[|r| - 1] == '.' && ClassOrSpace(r[..|r| - 1])
  {
    LongShortenTokens(Cleaned(textOut));
    LongShortenChars(Cleaned(textOut));
  }

  /** Above 15 words: the tokens of the summary are the first 15 words, the last with a period. */
  lemma LongShortenTokens(c: string)
    requires |Words(c)| > MaxWords
    ensures var w := Words(c);
            Split(Shorten(c)) == w[..MaxWords - 1] + [w[MaxWords - 1] + "."]
  {
    ShortenCut(c);
    SplitDottedPrefix(Words(c));
  }

  /** The first 15 of more than 15 tokens, joined and followed by ".", split back into 15 tokens. */
  lemma SplitDottedPrefix(w: seq<string>)
    requires |w| > MaxWords && Tokens(w)
    ensures Split(JoinSpaces(w[..MaxWords]) + ".") == w[..MaxWords - 1] + [w[MaxWords - 1] + "."]
  {
    var cut := w[..MaxWords];
    assert Tokens(cut) by {
      forall k | 0 <= k < |cut| ensures Token(cut[k]) { assert cut[k] == w[k]; }
    }
    SplitDotted(cut);
    assert cut[..MaxWords - 1] == w[..MaxWords - 1];
  }

  /** Above 15 words: nothing but class characters and spaces precedes the final period. */
  lemma LongShortenChars(c: string)
    requires |Words(c)| > MaxWords
    ensures var r := Shorten(c);
            r != [] && r[|r| - 1] == '.' && ClassOrSpace(r[..|r| - 1])
  {
    var w := Words(c);
    var cut := w[..MaxWords];
    ShortenCut(c);
    var r := JoinSpaces(cut) + ".";
    assert forall k | 0 <= k < |cut| :: WordToken(cut[k]) by {
      forall k | 0 <= k < |cut| ensures WordToken(cut[k]) { assert cut[k] == w[k]; }
    }
    JoinClass(cut);
    assert r[..|r| - 1] == JoinSpaces(cut);
  }

  lemma ShortenCut(c: string)
    requires |Words(c)| > MaxWords
    ensures Shorten(c) == JoinSpaces(Words(c)[..MaxWords]) + "."
  {
  }

  /** Joining tokens and appending "." sticks the period to the last token. */
  lemma SplitDotted(ws: seq<string>)
    requires ws != [] && Tokens(ws)
    ensures Split(JoinSpaces(ws) + ".") == ws[..|ws| - 1] + [ws[|ws| - 1] + "."]
  {
    var n := |ws|;
    var dotted := ws[..n - 1] + [ws[n - 1] + "."];
    JoinAppend(ws, ".");
    assert Tokens(dotted) by {
      forall k | 0 <= k < n ensures Token(dotted[k]) {
        if k < n - 1 {
          assert dotted[k] == ws[k];
        } else {
          var d := ws[k] + ".";
          assert dotted[k] == d;
          forall j | 0 <= j < |d| ensures !IsSpace(d[j]) {
            if j < |ws[k]| { assert d[j] == ws[k][j]; }
          }
        }
      }
    }
    SplitJoin(dotted);
  }

  /** Only class characters and plain spaces: no other punctuation. */
  predicate ClassOrSpace(s: string) {
    forall i | 0 <= i < |s| :: InWordClass(s[i]) || s[i] == ' '
  }

  /** A join of class-only words holds only class characters and spaces. */
  lemma {:induction false} JoinClass(ws: seq<string>)
    requires forall k | 0 <= k < |ws| :: WordToken(ws[k])
    ensures ClassOrSpace(JoinSpaces(ws))
  {
    if |ws| > 1 {
      JoinClass(ws[1..]);
      var s := JoinSpaces(ws);
      var tail := JoinSpaces(ws[1..]);
      assert s == ws[0] + " " + tail;
      assert WordToken(ws[0]);
      forall i | 0 <= i < |s| ensures InWordClass(s[i]) || s[i] == ' ' {
        if i < |ws[0]| {
          assert s[i] == ws[0][i];
        } else if i == |ws[0]| {
          assert s[i] == ' ';
        } else {
          assert s[i] == tail[i - |ws[0]| - 1];
        }
      }
    } else if |ws| == 1 {
      assert WordToken(ws[0]);
    }
  }

  /**
   * Fewer than 10 words: a period is appended whatever the text ends with, so a
   * text already ending in "." ends in ".." afterwards.
   */
  lemma ShortSummary(textOut: string)
    requires WordCount(textOut) < MinWords
    ensures Summarize(textOut) == Cleaned(textOut) + "."
    ensures EndsWithPeriod(Cleaned(textOut)) ==> EndsWithPeriod(Summarize(textOut)[..|Summarize(textOut)| - 1])
  {
    var c := Cleaned(textOut);
    ShortShorten(c);
    assert Summarize(textOut) == c + ".";
    assert (c + ".")[..|c|] == c;
  }

  predicate EndsWithPeriod(s: string) {
    s != [] && s[|s| - 1] == '.'
  }

  lemma ShortShorten(c: string)
    requires |Words(c)| < MinWords
    ensures Shorten(c) == c + "."
  {
  }

  /** From 10 to 15 words: the collapsed text is returned unchanged, with the tokens of the extracted text. */
  lemma MidSummary(textOut: string)
    requires MinWords <= WordCount(textOut) <= MaxWords
    ensures Summarize(textOut) == Cleaned(textOut)
    ensures Split(Summarize(textOut)) == Split(Extract(textOut))
  {
    var c := Cleaned(textOut);
    assert Summarize(textOut) == Shorten(c);
  }

  // ---------------------------------------------------------------------------
  // Extraction from a space-joined list of words gives the words back.
  // ---------------------------------------------------------------------------

  /** A word the pattern extracts whole: class characters, word characters at both ends. */
  predicate CleanWord(w: string) {
    WordToken(w) && IsWordChar(w[0]) && IsWordChar(w[|w| - 1])
  }

  /**
   * `t` is what follows position `d` of `s`, and `\b` at `d` behaves as at the
   * start of `t`: `d` is 0 or follows a non-word character.
   */
  predicate Behind(s: string, t: string, d: nat) {
    d <= |s| && s[d..] == t && (d == 0 || !IsWordChar(s[d - 1]))
  }

  /** The spans moved right by `d`. */
  function Shift(spans: seq<Span>, d: nat): (moved: seq<Span>)
    ensures |moved| == |spans|
    ensures forall k | 0 <= k < |spans| :: moved[k] == Span(spans[k].start + d, spans[k].end + d)
  {
    seq(|spans|, k requires 0 <= k < |spans| => Span(spans[k].start + d, spans[k].end + d))
  }

  lemma CharBehind(s: string, t: string, d: nat, j: nat)
    requires Behind(s, t, d) && j < |t|
    ensures d + j < |s| && s[d + j] == t[j]
  {
    assert s[d..][j] == s[d + j];
  }

  lemma BoundaryBehind(s: string, t: string, d: nat, j: nat)
    requires Behind(s, t, d) && j <= |t|
    ensures Boundary(s, d + j) == Boundary(t, j)
  {
    if j > 0 { CharBehind(s, t, d, j - 1); }
    if j < |t| { CharBehind(s, t, d, j); }
  }

  lemma ClassRunEndBehind(s: string, t: string, d: nat, i: nat)
    requires Behind(s, t, d) && i <= |t|
    ensures ClassRunEnd(s, d + i) == d + ClassRunEnd(t, i)
  {
    var e := ClassRunEnd(t, i);
    forall k | d + i <= k < d + e ensures InWordClass(s[k]) {
      CharBehind(s, t, d, k - d);
    }
    if e < |t| { CharBehind(s, t, d, e); }
    ClassRunEndAt(s, d + i, d + e);
  }

  /** The last boundary is wherever the stated properties put it. */
  lemma {:induction false} LastBoundaryAt(s: string, lo: nat, hi: nat, r: Option<nat>)
    requires lo <= hi <= |s|
    requires r.Some? ==> lo < r.value <= hi && Boundary(s, r.value)
    requires r.Some? ==> forall j | r.value < j <= hi :: !Boundary(s, j)
    requires r.None? ==> forall j | lo < j <= hi :: !Boundary(s, j)
    ensures LastBoundary(s, lo, hi) == r
    decreases hi
  {
    if lo < hi && !Boundary(s, hi) {
      LastBoundaryAt(s, lo, hi - 1, r);
    }
  }

  lemma LastBoundaryBehind(s: string, t: string, d: nat, lo: nat, hi: nat)
    requires Behind(s, t, d) && lo <= hi <= |t|
    ensures var r := LastBoundary(t, lo, hi);
            LastBoundary(s, d + lo, d + hi) == if r.Some? then Some(d + r.value) else None
  {
    var r := LastBoundary(t, lo, hi);
    if r.Some? {
      BoundaryBehind(s, t, d, r.value);
      forall j | d + r.value < j <= d + hi ensures !Boundary(s, j) {
        BoundaryBehind(s, t, d, j - d);
      }
      LastBoundaryAt(s, d + lo, d + hi, Some(d + r.value));
    } else {
      forall j | d + lo < j <= d + hi ensures !Boundary(s, j) {
        BoundaryBehind(s, t, d, j - d);
      }
      LastBoundaryAt(s, d + lo, d + hi, None);
    }
  }

  lemma MatchAtBehind(s: string, t: string, d: nat, i: nat)
    requires Behind(s, t, d) && i <= |t|
    ensures var r := MatchAt(t, i);
            MatchAt(s, d + i) == if r.Some? then Some(d + r.value) else None
  {
    BoundaryBehind(s, t, d, i);
    ClassRunEndBehind(s, t, d, i);
    LastBoundaryBehind(s, t, d, i, ClassRunEnd(t, i));
  }

  /** Behind a separator, the scan finds the same matches, moved by the separator's position. */
  lemma MatchSpansBehind(s: string, t: string, d: nat, i: nat)
    requires Behind(s, t, d) && i <= |t|
    ensures MatchSpans(s, d + i) == Shift(MatchSpans(t, i), d)
  {
    var inner, outer := MatchTable(t), MatchTable(s);
    forall x | i <= x < |inner| ensures Moved(inner, outer, d, x) {
      MatchAtBehind(s, t, d, x);
    }
    ScanShift(inner, outer, d, i);
  }

  /** Entry `x` of `inner` is entry `d + x` of `outer`, moved by `d`. */
  predicate Moved(inner: seq<Option<nat>>, outer: seq<Option<nat>>, d: nat, x: nat)
    requires x < |inner| && |outer| == d + |inner|
  {
    outer[d + x] == if inner[x].Some? then Some(d + inner[x].value) else None
  }

  lemma {:induction false} ScanShift(inner: seq<Option<nat>>, outer: seq<Option<nat>>, d: nat, i: nat)
    requires ValidTable(inner) && ValidTable(outer) && |outer| == d + |inner| && i < |inner|
    requires forall x | i <= x < |inner| :: Moved(inner, outer, d, x)
    ensures Scan(outer, d + i) == Shift(Scan(inner, i), d)
    decreases |inner| - i
  {
    if i < |inner| - 1 {
      assert Moved(inner, outer, d, i);
      if inner[i].Some? {
        var j := inner[i].value;
        ScanShift(inner, outer, d, j);
        ShiftStepFound(inner, outer, d, i, j);
      } else {
        ScanShift(inner, outer, d, i + 1);
        ShiftStepNotFound(inner, outer, d, i);
      }
    }
  }

  lemma ShiftStepFound(inner: seq<Option<nat>>, outer: seq<Option<nat>>, d: nat, i: nat, j: nat)
    requires ValidTable(inner) && ValidTable(outer) && |outer| == d + |inner| && i < |inner| - 1
    requires inner[i] == Some(j) && outer[d + i] == Some(d + j)
    requires Scan(outer, d + j) == Shift(Scan(inner, j), d)
    ensures Scan(outer, d + i) == Shift(Scan(inner, i), d)
  {
    ScanFound(inner, i, j);
    ScanFound(outer, d + i, d + j);
    ShiftChain(Scan(outer, d + i), Scan(outer, d + j), Scan(inner, j), Scan(inner, i), Span(i, j), d);
  }

  lemma ShiftStepNotFound(inner: seq<Option<nat>>, outer: seq<Option<nat>>, d: nat, i: nat)
    requires ValidTable(inner) && ValidTable(outer) && |outer| == d + |inner| && i < |inner| - 1
    requires inner[i].None? && outer[d + i].None?
    requires Scan(outer, d + i + 1) == Shift(Scan(inner, i + 1), d)
    ensures Scan(outer, d + i) == Shift(Scan(inner, i), d)
  {
    ScanNotFound(inner, i);
    ScanNotFound(outer, d + i);
  }

  lemma ShiftChain(a: seq<Span>, b: seq<Span>, c: seq<Span>, e: seq<Span>, first: Span, d: nat)
    requires a == [Span(first.start + d, first.end + d)] + b && b == Shift(c, d) && e == [first] + c
    ensures a == Shift(e, d)
  {
    ShiftCons(first, c, d);
  }

  lemma ScanFound(table: seq<Option<nat>>, i: nat, j: nat)
    requires ValidTable(table) && i < |table| - 1 && table[i] == Some(j)
    ensures j < |table| && Scan(table, i) == [Span(i, j)] + Scan(table, j)
  {
  }

  lemma ScanNotFound(table: seq<Option<nat>>, i: nat)
    requires ValidTable(table) && i < |table| - 1 && table[i].None?
    ensures Scan(table, i) == Scan(table, i + 1)
  {
  }

  lemma ShiftCons(first: Span, rest: seq<Span>, d: nat)
    ensures Shift([first] + rest, d) == [Span(first.start + d, first.end + d)] + Shift(rest, d)
  {
    var a, b := Shift([first] + rest, d), [Span(first.start + d, first.end + d)] + Shift(rest, d);
    forall k | 0 <= k < |a| ensures a[k] == b[k] {
      if k > 0 { assert ([first] + rest)[k] == rest[k - 1]; }
    }
  }

  /** The texts of moved spans in the longer string are the texts in the shorter one. */
  lemma TextsBehind(s: string, t: string, d: nat, spans: seq<Span>)
    requires Behind(s, t, d) && WithinFrom(t, 0, spans)
    ensures WithinFrom(s, 0, Shift(spans, d))
    ensures Texts(s, Shift(spans, d)) == Texts(t, spans)
  {
    var a, b := Texts(s, Shift(spans, d)), Texts(t, spans);
    forall k | 0 <= k < |spans| ensures a[k] == b[k] {
      assert Shift(spans, d)[k] == Span(spans[k].start + d, spans[k].end + d);
      SliceBehind(s, t, d, spans[k].start, spans[k].end);
    }
  }

  lemma SliceBehind(s: string, t: string, d: nat, lo: nat, hi: nat)
    requires Behind(s, t, d) && lo <= hi <= |t|
    ensures s[d + lo..d + hi] == t[lo..hi]
  {
    assert s[d..][lo..hi] == s[d + lo..d + hi];
  }

  /** The end of a class run is wherever the run of class characters stops. */
  lemma {:induction false} ClassRunEndAt(s: string, i: nat, e: nat)
    requires i <= e <= |s|
    requires forall k | i <= k < e :: InWordClass(s[k])
    requires e < |s| ==> !InWordClass(s[e])
    ensures ClassRunEnd(s, i) == e
    decreases e - i
  {
    if i < e {
      ClassRunEndAt(s, i + 1, e);
    }
  }

  /** A clean word followed by a character outside the class is matched whole at position 0. */
  lemma MatchWord(w: string, rest: string)
    requires CleanWord(w) && (rest == [] || !InWordClass(rest[0]))
    ensures MatchAt(w + rest, 0) == Some(|w|)
  {
    var s := w + rest;
    assert s[0] == w[0] && s[|w| - 1] == w[|w| - 1];
    assert forall k | 0 <= k < |w| :: s[k] == w[k];
    if rest != [] { assert s[|w|] == rest[0]; }
    ClassRunEndAt(s, 0, |w|);
    assert Boundary(s, |w|);
  }

  /**
   * Extracting the words of clean words joined by single spaces gives the
   * words back: the extraction misses none, adds none and keeps their order.
   */
  lemma {:induction false} WordsJoin(ws: seq<string>)
    requires forall k | 0 <= k < |ws| :: CleanWord(ws[k])
    ensures Words(JoinSpaces(ws)) == ws
  {
    if |ws| == 1 {
      WordsSingle(ws[0]);
    } else if |ws| > 1 {
      assert forall k | 0 <= k < |ws| - 1 :: ws[1..][k] == ws[k + 1];
      WordsJoin(ws[1..]);
      assert JoinSpaces(ws) == (ws[0] + " ") + JoinSpaces(ws[1..]);
      WordsCons(ws[0], JoinSpaces(ws[1..]));
      assert [ws[0]] + ws[1..] == ws;
    }
  }

  /** A clean word alone is extracted whole. */
  lemma WordsSingle(w: string)
    requires CleanWord(w)
    ensures Words(w) == [w]
  {
    MatchWord(w, []);
    assert w + [] == w;
    ScanFound(MatchTable(w), 0, |w|);
    assert w[0..|w|] == w;
  }

  /** A clean word, a space, then more text: the word is extracted, then the words of the rest. */
  lemma WordsCons(w: string, tail: string)
    requires CleanWord(w)
    ensures Words((w + " ") + tail) == [w] + Words(tail)
  {
    var s := (w + " ") + tail;
    var d := |w| + 1;
    var inner := MatchSpans(tail, 0);
    JoinedSpans(w, tail);
    TextsBehind(s, tail, d, inner);
    TextsCons(s, Span(0, |w|), Shift(inner, d));
    assert s[0..|w|] == w;
  }

  /** The scan of a clean word, a space and more text. */
  lemma JoinedSpans(w: string, tail: string)
    requires CleanWord(w)
    ensures Behind((w + " ") + tail, tail, |w| + 1)
    ensures MatchSpans((w + " ") + tail, 0) == [Span(0, |w|)] + Shift(MatchSpans(tail, 0), |w| + 1)
  {
    var s := (w + " ") + tail;
    var table := MatchTable(s);
    MatchWord(w, " " + tail);
    assert w + (" " + tail) == s;
    ScanFound(table, 0, |w|);
    assert s[|w|] == ' ';
    ClassRunEndAt(s, |w|, |w|);
    ScanNotFound(table, |w|);
    assert s[|w| + 1..] == tail;
    MatchSpansBehind(s, tail, |w| + 1, 0);
  }

  lemma TextsCons(s: string, first: Span, rest: seq<Span>)
    requires WithinFrom(s, 0, [first] + rest)
    ensures WithinFrom(s, 0, rest) && first.start <= first.end <= |s|
    ensures Texts(s, [first] + rest) == [s[first.start..first.end]] + Texts(s, rest)
  {
    assert ([first] + rest)[0] == first;
    assert forall k | 0 <= k < |rest| :: rest[k] == ([first] + rest)[k + 1];
    assert ([first] + rest)[1..] == rest;
  }
}
