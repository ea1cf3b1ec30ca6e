/**
 * The Python string operations the summarizers use, over `string = seq<char>`:
 * `str.isspace`, `str.strip()`, `re.sub(r"\s+", " ", s)`, `str.split()` with no
 * argument, `" ".join(words)` and the search behind `s.split(marker, 1)`.
 */
module Text {
  import opened Wrappers

  /** Python's `str.isspace()` on one character; `\s` in a str pattern matches the same set. */
  predicate IsSpace(c: char) {
    ('\t' <= c <= '\r') || ('\U{1C}' <= c <= '\U{1F}') || c == ' ' || c == '\U{85}' || c == '\U{A0}'
    || c == '\U{1680}' || ('\U{2000}' <= c <= '\U{200A}') || c == '\U{2028}' || c == '\U{2029}'
    || c == '\U{202F}' || c == '\U{205F}' || c == '\U{3000}'
  }

  predicate AllSpace(s: string) {
    forall i | 0 <= i < |s| :: IsSpace(s[i])
  }

  predicate NoSpace(s: string) {
    forall i | 0 <= i < |s| :: !IsSpace(s[i])
  }

  /** Neither begins nor ends with whitespace. */
  predicate Trimmed(s: string) {
    s == [] || (!IsSpace(s[0]) && !IsSpace(s[|s| - 1]))
  }

  /** Every whitespace character is a plain space and no two of them are adjacent. */
  ghost predicate SingleSpaced(s: string) {
    && (forall i | 0 <= i < |s| && IsSpace(s[i]) :: s[i] == ' ')
    && (forall i, j | 0 <= i < j < |s| && j == i + 1 :: !(IsSpace(s[i]) && IsSpace(s[j])))
  }

  /** The shape of a cleaned summary: no whitespace at either end, no run of two whitespace characters. */
  ghost predicate Tidy(s: string) {
    Trimmed(s) && SingleSpaced(s)
  }

  /** The non-empty, whitespace-free tokens that `str.split()` produces and `" ".join` expects. */
  predicate Token(w: string) {
    w != [] && NoSpace(w)
  }

  predicate Tokens(ws: seq<string>) {
    forall k | 0 <= k < |ws| :: Token(ws[k])
  }

  /** Length of the leading whitespace run. */
  function LeadingSpaces(s: string): (n: nat)
    ensures n <= |s|
    ensures forall i | 0 <= i < n :: IsSpace(s[i])
    ensures n < |s| ==> !IsSpace(s[n])
  {
    if s == [] || !IsSpace(s[0]) then 0 else 1 + LeadingSpaces(s[1..])
  }

  /** Index where the trailing whitespace run starts. */
  function TrailingStart(s: string): (n: nat)
    ensures n <= |s|
    ensures forall i | n <= i < |s| :: IsSpace(s[i])
    ensures n > 0 ==> !IsSpace(s[n - 1])
  {
    if s == [] || !IsSpace(s[|s| - 1]) then |s| else TrailingStart(s[..|s| - 1])
  }

  /** Length of the leading run of non-whitespace characters. */
  function TokenLength(s: string): (n: nat)
    ensures n <= |s|
    ensures forall i | 0 <= i < n :: !IsSpace(s[i])
    ensures n < |s| ==> IsSpace(s[n])
  {
    if s == [] || IsSpace(s[0]) then 0 else 1 + TokenLength(s[1..])
  }

  /** `s.lstrip()`: drop the leading whitespace. */
  function TrimStart(s: string): (r: string)
    ensures |r| <= |s| && r == s[|s| - |r|..] && AllSpace(s[..|s| - |r|])
    ensures r == [] || !IsSpace(r[0])
    ensures r == [] <==> AllSpace(s)
  {
    var n := LeadingSpaces(s);
    assert AllSpace(s[..n]) by { assert forall i | 0 <= i < n :: s[..n][i] == s[i]; }
    s[n..]
  }

  /** `s.rstrip()`: drop the trailing whitespace. */
  function TrimEnd(s: string): (r: string)
    ensures |r| <= |s| && r == s[..|r|] && AllSpace(s[|r|..])
    ensures r == [] || !IsSpace(r[|r| - 1])
    ensures s != [] && !IsSpace(s[0]) ==> r != []
  {
    var n := TrailingStart(s);
    assert AllSpace(s[n..]) by { assert forall i | n <= i < |s| :: s[n..][i - n] == s[i]; }
    s[..n]
  }

  /** `s.strip()`: drop whitespace at both ends and nothing else. */
  function Strip(s: string): (r: string)
    ensures Trimmed(r)
    ensures r == [] <==> AllSpace(s)
    ensures exists i, j :: 0 <= i <= j <= |s| && AllSpace(s[..i]) && AllSpace(s[j..]) && r == s[i..j]
  {
    var t := TrimStart(s);
    var r := TrimEnd(t);
    var i := |s| - |t|;
    var j := i + |r|;
    assert r == s[i..j];
    assert AllSpace(s[j..]) by { assert s[j..] == t[|r|..]; }
    r
  }

  /**
   * `re.sub(r"\s+", " ", s)`: every maximal whitespace run becomes one space;
   * the other characters are kept, in order.
   */
  function CollapseSpaces(s: string): (r: string)
    ensures SingleSpaced(r)
    ensures r == [] <==> s == []
    ensures s != [] && !IsSpace(s[0]) ==> r[0] == s[0]
    ensures s != [] && IsSpace(s[0]) ==> r[0] == ' '
    ensures s != [] && !IsSpace(s[|s| - 1]) ==> r[|r| - 1] == s[|s| - 1]
    ensures s != [] && IsSpace(s[|s| - 1]) ==> r[|r| - 1] == ' '
    decreases |s|
  {
    if s == [] then []
    else if IsSpace(s[0]) then
      var rest := s[LeadingSpaces(s)..];
      assert rest != [] ==> rest[|rest| - 1] == s[|s| - 1];
      " " + CollapseSpaces(rest)
    else
      [s[0]] + CollapseSpaces(s[1..])
  }

  /**
   * `s.split()`: the maximal runs of non-whitespace characters, in order;
   * leading and trailing whitespace yield no empty tokens.
   */
  function Split(s: string): (ws: seq<string>)
    ensures Tokens(ws)
    ensures ws == [] <==> AllSpace(s)
    decreases |s|
  {
    var t := s[LeadingSpaces(s)..];
    if t == [] then []
    else
      var n := TokenLength(t);
      var w := t[..n];
      var rest := Split(t[n..]);
      assert Token(w) by {
        assert w[0] == t[0];
        assert forall i | 0 <= i < n :: w[i] == t[i];
      }
      assert !AllSpace(s) by { assert s[LeadingSpaces(s)] == t[0]; }
      TokensCons(w, rest);
      [w] + rest
  }

  lemma TokensCons(w: string, ws: seq<string>)
    requires Token(w) && Tokens(ws)
    ensures Tokens([w] + ws)
  {
    forall k | 0 <= k < |ws| + 1 ensures Token(([w] + ws)[k]) {
      if k > 0 { assert ([w] + ws)[k] == ws[k - 1]; }
    }
  }

  /** `" ".join(ws)`. */
  function JoinSpaces(ws: seq<string>): (s: string)
    ensures Tokens(ws) ==> Tidy(s)
    ensures Tokens(ws) ==> (s == [] <==> ws == [])
  {
    if ws == [] then ""
    else if |ws| == 1 then ws[0]
    else
      var tail := JoinSpaces(ws[1..]);
      assert Tokens(ws) ==> Tokens(ws[1..]) by {
        if Tokens(ws) { forall k | 0 <= k < |ws| - 1 ensures Token(ws[1..][k]) { assert ws[1..][k] == ws[k + 1]; } }
      }
      ws[0] + " " + tail
  }

  /** `m` occurs in `s` starting at index `i`. */
  predicate OccursAt(s: string, m: string, i: nat) {
    i + |m| <= |s| && s[i..i + |m|] == m
  }

  /** The least index at or after `from` where `m` occurs, the search behind `m in s` and `s.split(m, 1)`. */
  function IndexOfFrom(s: string, m: string, from: nat): (r: Option<nat>)
    requires from <= |s|
    ensures r.Some? ==> from <= r.value && OccursAt(s, m, r.value)
    ensures r.Some? ==> forall j | from <= j < r.value :: !OccursAt(s, m, j)
    ensures r.None? ==> forall j | from <= j <= |s| :: !OccursAt(s, m, j)
    decreases |s| - from
  {
    if OccursAt(s, m, from) then Some(from)
    else if from == |s| then None
    else IndexOfFrom(s, m, from + 1)
  }

  /** `i` is the first index where `m` occurs in `s`. */
  predicate FirstOccurrence(s: string, m: string, i: nat) {
    OccursAt(s, m, i) && forall j | 0 <= j < i :: !OccursAt(s, m, j)
  }

  /**
   * `s.split(m, 1)[1]` when `m in s`: what follows the FIRST occurrence of `m`;
   * `None` when `m` does not occur in `s`.
   */
  function AfterFirst(s: string, m: string): (r: Option<string>)
    ensures r.None? <==> forall j | 0 <= j <= |s| :: !OccursAt(s, m, j)
    ensures forall i: nat | FirstOccurrence(s, m, i) :: r == Some(s[i + |m|..])
  {
    match IndexOfFrom(s, m, 0)
    case None => None
    case Some(k) =>
      assert forall i: nat | FirstOccurrence(s, m, i) :: i == k by {
        forall i: nat | FirstOccurrence(s, m, i) ensures i == k {
          if i < k { assert false; } else if k < i { assert false; }
        }
      }
      Some(s[k + |m|..])
  }

  // ---------------------------------------------------------------------------
  // Lemmas relating split, join and whitespace collapsing.
  // ---------------------------------------------------------------------------

  /** Leading whitespace never changes the tokens. */
  lemma SplitSkipsSpace(c: char, s: string)
    requires IsSpace(c)
    ensures Split([c] + s) == Split(s)
  {
    var cs := [c] + s;
    assert LeadingSpaces(cs) == 1 + LeadingSpaces(s) by { assert cs[1..] == s; }
    assert cs[LeadingSpaces(cs)..] == s[LeadingSpaces(s)..];
  }

  /** A non-whitespace character in front either starts a new token or joins the first one. */
  lemma SplitCons(c: char, s: string)
    requires !IsSpace(c)
    ensures s == [] || IsSpace(s[0]) ==> Split([c] + s) == [[c]] + Split(s)
    ensures s != [] && !IsSpace(s[0]) ==>
              Split(s) != [] && Split([c] + s) == [[c] + Split(s)[0]] + Split(s)[1..]
  {
    var cs := [c] + s;
    assert LeadingSpaces(cs) == 0;
    assert cs[1..] == s;
    assert TokenLength(cs) == 1 + TokenLength(s);
    var n := TokenLength(s);
    assert cs[..1 + n] == [c] + s[..n];
    assert cs[1 + n..] == s[n..];
    if s != [] && !IsSpace(s[0]) {
      assert LeadingSpaces(s) == 0;
      assert s[LeadingSpaces(s)..] == s;
    }
  }

  /** Collapsing whitespace runs leaves `str.split()`'s tokens unchanged. */
  lemma {:induction false} SplitCollapse(s: string)
    ensures Split(CollapseSpaces(s)) == Split(s)
    decreases |s|
  {
    if s == [] {
    } else if IsSpace(s[0]) {
      SplitCollapse(s[LeadingSpaces(s)..]);
      SplitCollapseSpaceStep(s);
    } else {
      SplitCollapse(s[1..]);
      SplitCollapseFirstToken(s);
    }
  }

  /** One induction step of SplitCollapse: a leading whitespace run. */
  lemma SplitCollapseSpaceStep(s: string)
    requires s != [] && IsSpace(s[0])
    requires Split(CollapseSpaces(s[LeadingSpaces(s)..])) == Split(s[LeadingSpaces(s)..])
    ensures Split(CollapseSpaces(s)) == Split(s)
  {
    var rest := s[LeadingSpaces(s)..];
    CollapseSpaceRun(s);
    SplitSkipsSpace(' ', CollapseSpaces(rest));
    SplitAfterLeading(s);
  }

  lemma SplitCollapseFirstToken(s: string)
    requires s != [] && !IsSpace(s[0])
    requires Split(CollapseSpaces(s[1..])) == Split(s[1..])
    ensures Split(CollapseSpaces(s)) == Split(s)
  {
    HeadTail(s);
    SplitCollapseTokenStep(s[0], s[1..]);
  }

  lemma HeadTail(s: string)
    requires s != []
    ensures [s[0]] + s[1..] == s
  {
  }

  /** One induction step of SplitCollapse: a leading non-whitespace character. */
  lemma SplitCollapseTokenStep(c: char, x: string)
    requires !IsSpace(c)
    requires Split(CollapseSpaces(x)) == Split(x)
    ensures Split(CollapseSpaces([c] + x)) == Split([c] + x)
  {
    var y := CollapseSpaces(x);
    CollapseNonSpace([c] + x);
    assert ([c] + x)[1..] == x;
    SplitSameStart(c, x, y);
  }

  lemma CollapseSpaceRun(s: string)
    requires s != [] && IsSpace(s[0])
    ensures CollapseSpaces(s) == [' '] + CollapseSpaces(s[LeadingSpaces(s)..])
  {
  }

  lemma CollapseNonSpace(s: string)
    requires s != [] && !IsSpace(s[0])
    ensures CollapseSpaces(s) == [s[0]] + CollapseSpaces(s[1..])
  {
  }

  /** Two texts with the same tokens that both start (or both do not start) with a token keep equal tokens under a common first character. */
  lemma SplitSameStart(c: char, x: string, y: string)
    requires !IsSpace(c)
    requires Split(x) == Split(y)
    requires (x == [] || IsSpace(x[0])) <==> (y == [] || IsSpace(y[0]))
    ensures Split([c] + x) == Split([c] + y)
  {
    SplitCons(c, x);
    SplitCons(c, y);
  }

  /** The tokens do not depend on the leading whitespace. */
  lemma SplitAfterLeading(s: string)
    ensures Split(s) == Split(s[LeadingSpaces(s)..])
  {
    var t := s[LeadingSpaces(s)..];
    assert LeadingSpaces(t) == 0;
    assert t[0..] == t;
  }

  /** `" ".join` then `str.split()` gives the tokens back. */
  lemma {:induction false} SplitJoin(ws: seq<string>)
    requires Tokens(ws)
    ensures Split(JoinSpaces(ws)) == ws
  {
    if ws == [] {
    } else if |ws| == 1 {
      SplitToken(ws[0]);
    } else {
      TokensTail(ws);
      SplitJoin(ws[1..]);
      SplitJoinStep(ws);
    }
  }

  /**
   * The converse of SplitJoin: a tidy text is the space-join of its own
   * tokens, so its tokens and tidiness determine it.
   */
  lemma {:induction false} TidyJoin(s: string)
    requires Tidy(s)
    ensures s == JoinSpaces(Split(s))
    decreases |s|
  {
    if s == [] {
    } else if TokenLength(s) == |s| {
      assert s[..|s|] == s;
      SplitToken(s);
    } else {
      var n := TokenLength(s);
      var w, rest := s[..n], s[n + 1..];
      TidySplitAt(s, n);
      TidyJoin(rest);
      SplitTokenSpace(w, rest);
      TidyJoinStep(w, Split(rest));
    }
  }

  /** A tidy text cut at its first space: a token, that space, and a tidy rest. */
  lemma TidySplitAt(s: string, n: nat)
    requires Tidy(s) && n == TokenLength(s) < |s|
    ensures 0 < n < |s| - 1
    ensures Token(s[..n]) && Tidy(s[n + 1..]) && s[n + 1..] != []
    ensures s == s[..n] + " " + s[n + 1..]
  {
    assert 0 < n by { assert !IsSpace(s[0]); }
    assert s[n] == ' ';
    assert n + 1 < |s| by { assert !IsSpace(s[|s| - 1]); }
    assert !IsSpace(s[n + 1]) by { assert !(IsSpace(s[n]) && IsSpace(s[n + 1])); }
    TokenPrefix(s, n);
    SingleSpacedSuffix(s, n + 1);
    assert s[n + 1..][0] == s[n + 1];
    assert s[n + 1..][|s| - n - 2] == s[|s| - 1];
    CutAt(s, n);
  }

  /** The characters before the first whitespace form a token. */
  lemma TokenPrefix(s: string, n: nat)
    requires 0 < n == TokenLength(s) <= |s|
    ensures Token(s[..n])
  {
    forall i | 0 <= i < n ensures s[..n][i] == s[i] { }
  }

  /** A text is what comes before index `n`, its character there, and the rest. */
  lemma CutAt(s: string, n: nat)
    requires n < |s| && s[n] == ' '
    ensures s == s[..n] + " " + s[n + 1..]
  {
    assert s == s[..n] + [s[n]] + s[n + 1..];
  }

  /** A suffix of a single-spaced text is single-spaced. */
  lemma SingleSpacedSuffix(s: string, k: nat)
    requires SingleSpaced(s) && k <= |s|
    ensures SingleSpaced(s[k..])
  {
    var t := s[k..];
    forall i | 0 <= i < |t| ensures t[i] == s[k + i] { }
  }

  /** One induction step of TidyJoin: joining a token in front of a non-empty list. */
  lemma TidyJoinStep(w: string, ws: seq<string>)
    requires ws != []
    ensures JoinSpaces([w] + ws) == w + " " + JoinSpaces(ws)
  {
    assert ([w] + ws)[1..] == ws;
  }

  lemma TokensTail(ws: seq<string>)
    requires ws != [] && Tokens(ws)
    ensures Tokens(ws[1..])
  {
    forall k | 0 <= k < |ws| - 1 ensures Token(ws[1..][k]) { assert ws[1..][k] == ws[k + 1]; }
  }

  /** One induction step of SplitJoin. */
  lemma SplitJoinStep(ws: seq<string>)
    requires |ws| > 1 && Token(ws[0])
    requires Split(JoinSpaces(ws[1..])) == ws[1..]
    ensures Split(JoinSpaces(ws)) == ws
  {
    var tail := JoinSpaces(ws[1..]);
    assert JoinSpaces(ws) == ws[0] + " " + tail;
    SplitTokenSpace(ws[0], tail);
    assert ws == [ws[0]] + ws[1..];
  }

  /** A lone token splits to itself. */
  lemma SplitToken(w: string)
    requires Token(w)
    ensures Split(w) == [w]
  {
    assert LeadingSpaces(w) == 0;
    assert w[0..] == w;
    TokenLengthOfToken(w);
    assert w[..|w|] == w;
    assert w[|w|..] == [];
    assert Split([]) == [];
  }

  /** A token followed by a space is the first token of the rest. */
  lemma SplitTokenSpace(w: string, rest: string)
    requires Token(w)
    ensures Split(w + " " + rest) == [w] + Split(rest)
  {
    var s := w + " " + rest;
    assert LeadingSpaces(s) == 0;
    assert s[0..] == s;
    TokenLengthPrefix(w, " " + rest);
    assert s == w + (" " + rest);
    assert s[..|w|] == w;
    assert s[|w|..] == [' '] + rest;
    SplitSkipsSpace(' ', rest);
  }

  lemma {:induction false} TokenLengthOfToken(w: string)
    requires NoSpace(w)
    ensures TokenLength(w) == |w|
  {
    if w != [] {
      assert NoSpace(w[1..]) by { forall i | 0 <= i < |w| - 1 ensures !IsSpace(w[1..][i]) { assert w[1..][i] == w[i + 1]; } }
      TokenLengthOfToken(w[1..]);
    }
  }

  lemma {:induction false} TokenLengthPrefix(w: string, rest: string)
    requires NoSpace(w) && rest != [] && IsSpace(rest[0])
    ensures TokenLength(w + rest) == |w|
  {
    if w == [] {
      assert w + rest == rest;
    } else {
      assert (w + rest)[1..] == w[1..] + rest;
      assert NoSpace(w[1..]) by { forall i | 0 <= i < |w| - 1 ensures !IsSpace(w[1..][i]) { assert w[1..][i] == w[i + 1]; } }
      TokenLengthPrefix(w[1..], rest);
    }
  }

  /** Appending a character to the last token is the same as appending it to the joined string. */
  lemma {:induction false} JoinAppend(ws: seq<string>, x: string)
    requires ws != []
    ensures JoinSpaces(ws) + x == JoinSpaces(ws[..|ws| - 1] + [ws[|ws| - 1] + x])
  {
    var vs := ws[..|ws| - 1] + [ws[|ws| - 1] + x];
    if |ws| == 1 {
    } else {
      JoinAppend(ws[1..], x);
      assert vs[1..] == ws[1..][..|ws| - 2] + [ws[1..][|ws| - 2] + x];
      assert vs[0] == ws[0];
    }
  }

  /** Appending a non-whitespace character keeps a tidy string tidy. */
  lemma TidyAppend(s: string, c: char)
    requires Tidy(s) && !IsSpace(c)
    ensures Tidy(s + [c])
  {
    var t := s + [c];
    forall i | 0 <= i < |t| && IsSpace(t[i]) ensures t[i] == ' ' && (i + 1 < |t| ==> !IsSpace(t[i + 1])) {
      assert i < |s|;
      assert t[i] == s[i];
      if i + 1 < |s| { assert t[i + 1] == s[i + 1]; }
    }
  }
}
