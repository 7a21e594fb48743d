/** Formatting a rendered resource with the source's interpolations gives back the translation. */
module AndroidFormat {
  import opened Sequences
  import opened KotlinInterpolations
  import opened AndroidEscape
  import opened AndroidRenderer

  // ---- the part of java.util.Formatter that resources use ----

  function DigitCount(s: string): (n: nat)
    ensures n <= |s|
    ensures forall i :: 0 <= i < n ==> IsDigit(s[i])
    ensures n < |s| ==> !IsDigit(s[n])
  {
    if s != [] && IsDigit(s[0]) then 1 + DigitCount(s[1..]) else 0
  }

  function Prefixed(head: string, rest: Option<string>): Option<string> {
    if rest.None? then None else Some(head + rest.value)
  }

  /** `%%` is a percent sign and `%k$s` the k-th argument; no other directive is accepted. */
  function Format(format: string, args: seq<string>): Option<string>
    decreases |format|
  {
    if format == [] then Some([])
    else if format[0] != '%' then Prefixed([format[0]], Format(format[1..], args))
    else if |format| >= 2 && format[1] == '%' then Prefixed("%", Format(format[2..], args))
    else
      var n := DigitCount(format[1..]);
      if n == 0 || |format| < n + 3 || format[n + 1] != '$' || format[n + 2] != 's' then None
      else
        var digits := format[1..][..n];
        var k := Number(digits);
        if 1 <= k <= |args| then Prefixed(args[k - 1], Format(format[n + 3..], args)) else None
  }

  lemma {:induction false} FormatText(gap: string, rest: string, args: seq<string>)
    ensures Format(EscapePercent(gap) + rest, args) == Prefixed(gap, Format(rest, args))
  {
    if gap == [] {
      assert EscapePercent(gap) + rest == rest;
      PrefixedNothing(Format(rest, args));
    } else {
      FormatText(gap[1..], rest, args);
      PrefixedTwice([gap[0]], gap[1..], Format(rest, args));
      assert [gap[0]] + gap[1..] == gap;
      EscapePercentStep(gap);
      var tail := EscapePercent(gap[1..]) + rest;
      if gap[0] == '%' {
        assert EscapePercent(gap) + rest == "%%" + tail;
        assert ("%%" + tail)[2..] == tail;
      } else {
        assert EscapePercent(gap) + rest == [gap[0]] + tail;
        assert ([gap[0]] + tail)[1..] == tail;
      }
    }
  }

  lemma EscapePercentStep(gap: string)
    requires gap != []
    ensures EscapePercent(gap) == (if gap[0] == '%' then "%%" else [gap[0]]) + EscapePercent(gap[1..])
  {
  }

  lemma PrefixedNothing(rest: Option<string>)
    ensures Prefixed([], rest) == rest
  {
    if rest.Some? {
      assert [] + rest.value == rest.value;
    }
  }

  lemma PrefixedTwice(a: string, b: string, rest: Option<string>)
    ensures Prefixed(a, Prefixed(b, rest)) == Prefixed(a + b, rest)
  {
    if rest.Some? {
      assert a + (b + rest.value) == (a + b) + rest.value;
    }
  }

  lemma {:induction false} DigitCountOf(digits: string, rest: string)
    requires forall c :: c in digits ==> IsDigit(c)
    requires rest != [] && !IsDigit(rest[0])
    ensures DigitCount(digits + rest) == |digits|
  {
    if digits == [] {
      assert digits + rest == rest;
    } else {
      assert digits[0] in digits;
      assert (digits + rest)[1..] == digits[1..] + rest;
      assert forall c :: c in digits[1..] ==> c in digits;
      DigitCountOf(digits[1..], rest);
    }
  }

  lemma FormatPlaceholder(k: nat, rest: string, args: seq<string>)
    requires 1 <= k <= |args|
    ensures Format("%" + Decimal(k) + "$s" + rest, args) == Prefixed(args[k - 1], Format(rest, args))
  {
    var digits := Decimal(k);
    var format := "%" + digits + "$s" + rest;
    assert format[1..] == digits + ("$s" + rest);
    DigitCountOf(digits, "$s" + rest);
    assert digits[0] in digits;
    assert format[1] == digits[0] != '%';
    assert format[1..][..|digits|] == digits;
    assert format[|digits| + 3..] == rest;
    NumberOfDecimal(k);
  }

  // ---- the argument indices are a permutation of the source positions ----

  lemma {:induction false} PositionsCount(tokens: seq<string>, k: nat, token: string)
    requires k <= |tokens|
    ensures |Positions(tokens, k, token)| == multiset(tokens[..k])[token]
  {
    if k > 0 {
      assert tokens[..k] == tokens[..k - 1] + [tokens[k - 1]];
      PositionsCount(tokens, k - 1, token);
    }
  }

  /** Positions lists each occurrence, at the place given by the number of earlier ones. */
  lemma {:induction false} PositionOf(tokens: seq<string>, k: nat, p: nat)
    requires p < k <= |tokens|
    ensures var earlier := |Positions(tokens, p, tokens[p])|; var all := Positions(tokens, k, tokens[p]);
            earlier < |all| && all[earlier] == p + 1
  {
    if p < k - 1 {
      PositionOf(tokens, k - 1, p);
    }
  }

  /** The source's fallback for a missing index is dead, and the index names an equal source token. */
  lemma IndexIsDefined(source: seq<string>, translated: seq<string>, k: nat)
    requires multiset(source) == multiset(translated) && k < |translated|
    ensures var index := ArgumentIndex(source, translated, k);
            index.Some? && 1 <= index.value <= |source| && source[index.value - 1] == translated[k]
  {
    var token := translated[k];
    PositionOf(translated, |translated|, k);
    PositionsCount(translated, |translated|, token);
    PositionsCount(source, |source|, token);
    assert source[..|source|] == source && translated[..|translated|] == translated;
  }

  /** Every source position is used, by exactly one translated token. */
  lemma EveryIndexUsedOnce(source: seq<string>, translated: seq<string>, index: nat)
    requires multiset(source) == multiset(translated) && 1 <= index <= |source|
    ensures exists k :: 0 <= k < |translated| && ArgumentIndex(source, translated, k) == Some(index)
                        && forall j :: 0 <= j < |translated| && ArgumentIndex(source, translated, j) == Some(index) ==> j == k
  {
    var token := source[index - 1];
    PositionOf(source, |source|, index - 1);
    var occurrence := |Positions(source, index - 1, token)|;
    PositionsCount(translated, |translated|, token);
    PositionsCount(source, |source|, token);
    assert source[..|source|] == source && translated[..|translated|] == translated;
    var k := Positions(translated, |translated|, token)[occurrence] - 1;
    PositionOf(translated, |translated|, k);
    SameRank(translated, token, k, occurrence);
    assert ArgumentIndex(source, translated, k) == Some(index);
    forall j | 0 <= j < |translated| && ArgumentIndex(source, translated, j) == Some(index) ensures j == k {
      SameRank(source, token, index - 1, |Positions(translated, j, translated[j])|);
      PositionOf(translated, |translated|, j);
      assert translated[j] == token;
    }
  }

  /** The entries of a position list are distinct, so an entry determines its rank. */
  lemma SameRank(tokens: seq<string>, token: string, p: nat, rank: nat)
    requires p < |tokens| && tokens[p] == token
    ensures var all := Positions(tokens, |tokens|, token);
            rank < |all| && all[rank] == p + 1 <==> rank == |Positions(tokens, p, token)|
  {
    PositionOf(tokens, |tokens|, p);
  }

  // ---- meaning preservation ----

  lemma {:induction false} FormatRenderedUpTo(source: seq<string>, translated: string, spans: seq<Span>, k: nat, rest: string)
    requires k <= |spans|
    requires InOrder(translated, spans, 0)
    requires multiset(source) == multiset(Tokens(translated, spans))
    ensures Cursor(spans, k) <= |translated|
    ensures Format(RenderedUpTo(source, translated, spans, k) + rest, source)
            == Prefixed(translated[..Cursor(spans, k)], Format(rest, source))
  {
    hide RenderedUpTo, Format, Positions, EscapePercent, Placeholder, Tokens;
    if k == 0 {
      RenderingStart(source, translated, spans, rest);
      PrefixedNothing(Format(rest, source));
    } else {
      var tokens := Tokens(translated, spans);
      InOrderAt(translated, spans, 0, k - 1);
      IndexIsDefined(source, tokens, k - 1);
      var index := ArgumentIndex(source, tokens, k - 1).value;
      var gap := Slice(translated, Cursor(spans, k - 1), spans[k - 1].start);
      RenderedStep(source, translated, spans, k - 1);
      PlaceholderOf(index, tokens[k - 1]);
      var before := RenderedUpTo(source, translated, spans, k - 1);
      FormatRenderedUpTo(source, translated, spans, k - 1, EscapePercent(gap) + ("%" + Decimal(index) + "$s" + rest));
      FormatStep(before, translated[..Cursor(spans, k - 1)], gap, index, rest, source);
      ConsumedText(translated, spans, k);
    }
  }

  lemma RenderingStart(source: seq<string>, translated: string, spans: seq<Span>, rest: string)
    ensures RenderedUpTo(source, translated, spans, 0) + rest == rest
  {
  }

  lemma PlaceholderOf(index: nat, token: string)
    requires index > 0
    ensures Placeholder(Some(index), token) == "%" + Decimal(index) + "$s"
  {
  }

  lemma ConsumedText(translated: string, spans: seq<Span>, k: nat)
    requires 0 < k <= |spans|
    requires Cursor(spans, k - 1) <= spans[k - 1].start < spans[k - 1].end <= |translated|
    ensures translated[..Cursor(spans, k - 1)] + Slice(translated, Cursor(spans, k - 1), spans[k - 1].start)
            + Tokens(translated, spans)[k - 1]
            == translated[..Cursor(spans, k)]
  {
  }

  lemma FormatStep(before: string, consumed: string, gap: string, k: nat, rest: string, args: seq<string>)
    requires 1 <= k <= |args|
    requires var after := EscapePercent(gap) + ("%" + Decimal(k) + "$s" + rest);
             Format(before + after, args) == Prefixed(consumed, Format(after, args))
    ensures Format(before + EscapePercent(gap) + ("%" + Decimal(k) + "$s") + rest, args)
            == Prefixed(consumed + gap + args[k - 1], Format(rest, args))
  {
    hide Format, EscapePercent, Prefixed;
    var placeholder := "%" + Decimal(k) + "$s";
    assert before + EscapePercent(gap) + placeholder + rest == before + (EscapePercent(gap) + (placeholder + rest));
    FormatText(gap, placeholder + rest, args);
    FormatPlaceholder(k, rest, args);
    PrefixedTwice(gap, args[k - 1], Format(rest, args));
    PrefixedTwice(consumed, gap + args[k - 1], Format(rest, args));
    assert consumed + (gap + args[k - 1]) == consumed + gap + args[k - 1];
  }

  lemma {:induction false} InOrderAt(s: string, spans: seq<Span>, from: nat, k: nat)
    requires k < |spans| && from <= |s| && InOrder(s, spans, from)
    ensures (if k == 0 then from else spans[k - 1].end) <= spans[k].start < spans[k].end <= |s|
  {
    if k > 0 {
      InOrderAt(s, spans[1..], spans[0].end, k - 1);
    }
  }

  /** The main theorem: with equal interpolation multisets, formatting the rendering with the
      source's interpolations gives back the translation exactly. */
  lemma FormatInvertsRendering(source: seq<string>, translated: string, spans: seq<Span>)
    requires source != []
    requires Spans(translated, 0) == Some(spans)
    requires multiset(source) == multiset(Tokens(translated, spans))
    ensures Format(PreEscape(source, translated, spans), source) == Some(translated)
  {
    hide RenderedUpTo, Format, Positions, EscapePercent, PreEscape, Tiles, Spans;
    SpansAreExact(translated, 0, spans);
    SpansRebuildSource(translated, spans, 0);
    var n := |spans|;
    RenderingUnfolds(source, translated, spans);
    var rest := Slice(translated, Cursor(spans, n), |translated|);
    FormatRenderedUpTo(source, translated, spans, n, EscapePercent(rest));
    assert EscapePercent(rest) + [] == EscapePercent(rest);
    FormatText(rest, [], source);
    FormatNothing(source);
    assert rest + [] == rest;
    assert translated[..Cursor(spans, n)] + rest == translated;
  }

  lemma FormatNothing(args: seq<string>)
    ensures Format([], args) == Some([])
  {
  }

  /** Rendering is refused exactly when a text has an unclosed interpolation, with the first error, or the two
      multisets differ, with the second. */
  lemma RefusedExactlyWhen(source: string, translated: string)
    ensures Rendered(source, translated) == Failure(UnbalancedPlaceholders)
            <==> (forall a :: !Tiles(source, a, 0)) || forall b :: !Tiles(translated, b, 0)
    ensures Rendered(source, translated).Success?
            <==> exists a, b :: Tiles(source, a, 0) && Tiles(translated, b, 0)
                                && multiset(Tokens(source, a)) == multiset(Tokens(translated, b))
  {
    hide Spans, Tiles, PreEscape, Escape;
    forall a ensures Tiles(source, a, 0) <==> Spans(source, 0) == Some(a) {
      SpansAreExact(source, 0, a);
    }
    forall b ensures Tiles(translated, b, 0) <==> Spans(translated, 0) == Some(b) {
      SpansAreExact(translated, 0, b);
    }
    forall a, b | Tiles(source, a, 0) && Tiles(translated, b, 0)
      ensures Spans(source, 0) == Some(a) && Spans(translated, 0) == Some(b)
    {
      SpansAreExact(source, 0, a);
      SpansAreExact(translated, 0, b);
    }
    if Spans(source, 0).Some? && Spans(translated, 0).Some? {
      SpansAreExact(source, 0, Spans(source, 0).value);
      SpansAreExact(translated, 0, Spans(translated, 0).value);
    }
  }
}
