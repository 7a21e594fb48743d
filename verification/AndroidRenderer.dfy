/** The renderer of translated Android resources: interpolations become positional format
    arguments, and formatting the result with the source's arguments gives the translation back. */
module AndroidRenderer {
  import opened Sequences
  import opened Text
  import opened KotlinInterpolations
  import opened AndroidEscape

  datatype RenderError = UnbalancedPlaceholders | ChangedPlaceholders

  function Tokens(s: string, spans: seq<Span>): (tokens: seq<string>)
    ensures |tokens| == |spans|
  {
    seq(|spans|, i requires 0 <= i < |spans| => Slice(s, spans[i].start, spans[i].end))
  }

  /** String.prototype.slice for bounds that the scan keeps inside the text. */
  function Slice(s: string, start: nat, end: nat): string {
    if start <= end <= |s| then s[start..end] else []
  }

  /** The 1-based positions of a token among the first k tokens. */
  function Positions(tokens: seq<string>, k: nat, token: string): (positions: seq<nat>)
    requires k <= |tokens|
    ensures forall i :: 0 <= i < |positions| ==> 1 <= positions[i] <= k && tokens[positions[i] - 1] == token
    ensures forall i, j :: 0 <= i < j < |positions| ==> positions[i] < positions[j]
  {
    if k == 0 then []
    else Positions(tokens, k - 1, token) + if token == tokens[k - 1] then [k] else []
  }

  /** The argument index given to the k-th translated token: the source position of its next occurrence. */
  function ArgumentIndex(source: seq<string>, translated: seq<string>, k: nat): Option<nat>
    requires k < |translated|
  {
    var positions := Positions(source, |source|, translated[k]);
    var occurrence := |Positions(translated, k, translated[k])|;
    if occurrence < |positions| then Some(positions[occurrence]) else None
  }

  // ---- decimal numerals ----

  predicate IsDigit(c: char) {
    '0' <= c <= '9'
  }

  function Decimal(n: nat): (digits: string)
    ensures digits != [] && forall c :: c in digits ==> IsDigit(c)
  {
    var digit := ('0' as int + n % 10) as char;
    if n < 10 then [digit] else Decimal(n / 10) + [digit]
  }

  function Number(digits: string): nat
    requires forall c :: c in digits ==> IsDigit(c)
  {
    if digits == [] then 0
    else
      var last := digits[|digits| - 1];
      assert last in digits && IsDigit(last);
      assert forall c :: c in digits[..|digits| - 1] ==> c in digits;
      10 * Number(digits[..|digits| - 1]) + (last as int - '0' as int)
  }

  lemma {:induction false} NumberOfDecimal(n: nat)
    ensures Number(Decimal(n)) == n
  {
    if n >= 10 {
      NumberOfDecimal(n / 10);
      assert Decimal(n)[..|Decimal(n)| - 1] == Decimal(n / 10);
    } else {
      assert Decimal(n)[..0] == [];
    }
  }

  // ---- rendering ----

  function EscapePercent(s: string): string {
    ReplaceAll(s, "%", "%%")
  }

  function Placeholder(index: Option<nat>, token: string): string {
    if index.Some? && index.value != 0 then "%" + Decimal(index.value) + "$s" else token
  }

  function Cursor(spans: seq<Span>, k: nat): nat
    requires k <= |spans|
  {
    if k == 0 then 0 else spans[k - 1].end
  }

  /** The rendering of the translated text up to the end of its k-th interpolation. */
  function RenderedUpTo(source: seq<string>, translated: string, spans: seq<Span>, k: nat): string
    requires k <= |spans|
  {
    if k == 0 then []
    else
      var tokens := Tokens(translated, spans);
      RenderedUpTo(source, translated, spans, k - 1)
      + EscapePercent(Slice(translated, Cursor(spans, k - 1), spans[k - 1].start))
      + Placeholder(ArgumentIndex(source, tokens, k - 1), tokens[k - 1])
  }

  /** The text before escaping. A text without interpolations is not a format string. */
  function PreEscape(source: seq<string>, translated: string, spans: seq<Span>): string {
    if source == [] then translated
    else
      RenderedUpTo(source, translated, spans, |spans|)
      + EscapePercent(Slice(translated, Cursor(spans, |spans|), |translated|))
  }

  function Rendered(source: string, translated: string): Result<string, RenderError> {
    var sourceSpans, spans := Spans(source, 0), Spans(translated, 0);
    if sourceSpans.None? || spans.None? then Failure(UnbalancedPlaceholders)
    else
      var sourceTokens, tokens := Tokens(source, sourceSpans.value), Tokens(translated, spans.value);
      if multiset(sourceTokens) != multiset(tokens) then Failure(ChangedPlaceholders)
      else Success(Escape(PreEscape(sourceTokens, translated, spans.value)))
  }

  method CountTokens(tokens: seq<string>) returns (counts: map<string, nat>)
    ensures forall t :: t in counts <==> t in tokens
    ensures forall t :: t in counts ==> counts[t] == multiset(tokens)[t]
  {
    counts := map[];
    for k := 0 to |tokens|
      invariant forall t :: t in counts <==> t in tokens[..k]
      invariant forall t :: t in counts ==> counts[t] == multiset(tokens[..k])[t]
    {
      assert tokens[..k + 1] == tokens[..k] + [tokens[k]];
      var token := tokens[k];
      counts := counts[token := Lookup(counts, token, 0) + 1];
    }
    assert tokens[..|tokens|] == tokens;
  }

  /** Two token lists have the same counts exactly when they are permutations of each other. */
  lemma SameCounts(a: seq<string>, b: seq<string>, countsA: map<string, nat>, countsB: map<string, nat>)
    requires forall t :: t in countsA <==> t in a
    requires forall t :: t in countsB <==> t in b
    requires forall t :: t in countsA ==> countsA[t] == multiset(a)[t]
    requires forall t :: t in countsB ==> countsB[t] == multiset(b)[t]
    ensures countsA == countsB <==> multiset(a) == multiset(b)
  {
    if multiset(a) == multiset(b) {
      forall t ensures t in countsA <==> t in countsB {
        assert t in a <==> t in multiset(a);
        assert t in b <==> t in multiset(b);
      }
    }
    if countsA == countsB {
      forall t ensures multiset(a)[t] == multiset(b)[t] {
        assert t in a <==> t in multiset(a);
        assert t in b <==> t in multiset(b);
        assert t in countsA <==> t in countsB;
      }
    }
  }

  method RenderAndroidResourceValue(source: string, translated: string) returns (r: Result<string, RenderError>)
    ensures r == Rendered(source, translated)
  {
    var sourceInterpolations := ReadKotlinInterpolations(source);
    var translatedInterpolations := ReadKotlinInterpolations(translated);
    if sourceInterpolations.None? || translatedInterpolations.None? {
      return Failure(UnbalancedPlaceholders);
    }
    var spans := translatedInterpolations.value;
    var sourceTokens := Tokens(source, sourceInterpolations.value);
    var translatedTokens := Tokens(translated, spans);
    var sourceCounts := CountTokens(sourceTokens);
    var translatedCounts := CountTokens(translatedTokens);
    SameCounts(sourceTokens, translatedTokens, sourceCounts, translatedCounts);
    if sourceCounts != translatedCounts {
      return Failure(ChangedPlaceholders);
    }
    var rendered := translated;
    if |sourceTokens| > 0 {
      rendered := RenderPositional(sourceTokens, translated, spans, translatedTokens);
    }
    return Success(Escape(rendered));
  }

  /** The map holds the positions of every token among the first k. */
  ghost predicate HoldsPositions(indices: map<string, seq<nat>>, tokens: seq<string>, k: nat)
    requires k <= |tokens|
  {
    forall t :: Lookup(indices, t, []) == Positions(tokens, k, t)
  }

  /** The map counts the occurrences of every token among the first k. */
  ghost predicate HoldsCounts(occurrences: map<string, nat>, tokens: seq<string>, k: nat)
    requires k <= |tokens|
  {
    forall t :: Lookup(occurrences, t, 0) == |Positions(tokens, k, t)|
  }

  lemma PositionRecorded(tokens: seq<string>, k: nat, before: map<string, seq<nat>>)
    requires k < |tokens| && HoldsPositions(before, tokens, k)
    ensures HoldsPositions(before[tokens[k] := Lookup(before, tokens[k], []) + [k + 1]], tokens, k + 1)
  {
    var after := before[tokens[k] := Lookup(before, tokens[k], []) + [k + 1]];
    forall t ensures Lookup(after, t, []) == Positions(tokens, k + 1, t) {
      assert Lookup(before, t, []) == Positions(tokens, k, t);
      if t != tokens[k] {
        assert Positions(tokens, k, t) + [] == Positions(tokens, k, t);
      }
    }
  }

  lemma OccurrenceRecorded(tokens: seq<string>, k: nat, before: map<string, nat>)
    requires k < |tokens| && HoldsCounts(before, tokens, k)
    ensures HoldsCounts(before[tokens[k] := Lookup(before, tokens[k], 0) + 1], tokens, k + 1)
  {
    var after := before[tokens[k] := Lookup(before, tokens[k], 0) + 1];
    forall t ensures Lookup(after, t, 0) == |Positions(tokens, k + 1, t)| {
      assert Lookup(before, t, 0) == |Positions(tokens, k, t)|;
      if t != tokens[k] {
        assert Positions(tokens, k, t) + [] == Positions(tokens, k, t);
      }
    }
  }

  method IndexTokens(tokens: seq<string>) returns (indices: map<string, seq<nat>>)
    ensures HoldsPositions(indices, tokens, |tokens|)
  {
    indices := map[];
    for index := 0 to |tokens|
      invariant HoldsPositions(indices, tokens, index)
    {
      PositionRecorded(tokens, index, indices);
      var token := tokens[index];
      indices := indices[token := Lookup(indices, token, []) + [index + 1]];
    }
  }

  method RenderPositional(sourceTokens: seq<string>, translated: string, spans: seq<Span>, translatedTokens: seq<string>)
      returns (rendered: string)
    requires sourceTokens != [] && translatedTokens == Tokens(translated, spans)
    ensures rendered == PreEscape(sourceTokens, translated, spans)
  {
    hide HoldsPositions, HoldsCounts, Positions, Lookup, EscapePercent, Slice, Tokens, Placeholder, RenderedUpTo, PreEscape;
    RenderingUnfolds(sourceTokens, translated, spans);
    var sourceIndices := IndexTokens(sourceTokens);
    var translatedOccurrences: map<string, nat> := map[];
    var cursor := 0;
    rendered := "";
    NothingCounted(translatedTokens);
    for k := 0 to |spans|
      invariant cursor == Cursor(spans, k)
      invariant HoldsCounts(translatedOccurrences, translatedTokens, k)
      invariant rendered == RenderedUpTo(sourceTokens, translated, spans, k)
    {
      RenderedStep(sourceTokens, translated, spans, k);
      OccurrenceRecorded(translatedTokens, k, translatedOccurrences);
      var gap := EscapePercent(Slice(translated, cursor, spans[k].start));
      var token := translatedTokens[k];
      var occurrence := Lookup(translatedOccurrences, token, 0);
      var indices := Lookup(sourceIndices, token, []);
      Recall(sourceTokens, sourceIndices, translatedTokens, k, translatedOccurrences);
      translatedOccurrences := translatedOccurrences[token := occurrence + 1];
      var index := if occurrence < |indices| then Some(indices[occurrence]) else None;
      rendered := rendered + gap + Placeholder(index, token);
      cursor := spans[k].end;
    }
    rendered := rendered + EscapePercent(Slice(translated, cursor, |translated|));
  }

  lemma NothingCounted(tokens: seq<string>)
    ensures HoldsCounts(map[], tokens, 0)
  {
  }

  lemma RenderingUnfolds(source: seq<string>, translated: string, spans: seq<Span>)
    requires source != []
    ensures RenderedUpTo(source, translated, spans, 0) == []
    ensures PreEscape(source, translated, spans)
            == RenderedUpTo(source, translated, spans, |spans|)
               + EscapePercent(Slice(translated, Cursor(spans, |spans|), |translated|))
  {
  }

  lemma RenderedStep(source: seq<string>, translated: string, spans: seq<Span>, k: nat)
    requires k < |spans|
    ensures var tokens := Tokens(translated, spans);
            RenderedUpTo(source, translated, spans, k + 1)
            == RenderedUpTo(source, translated, spans, k)
               + EscapePercent(Slice(translated, Cursor(spans, k), spans[k].start))
               + Placeholder(ArgumentIndex(source, tokens, k), tokens[k])
  {
  }

  lemma Recall(source: seq<string>, indices: map<string, seq<nat>>, translated: seq<string>, k: nat, occurrences: map<string, nat>)
    requires k < |translated|
    requires HoldsPositions(indices, source, |source|) && HoldsCounts(occurrences, translated, k)
    ensures Lookup(indices, translated[k], []) == Positions(source, |source|, translated[k])
    ensures Lookup(occurrences, translated[k], 0) == |Positions(translated, k, translated[k])|
  {
  }
}
