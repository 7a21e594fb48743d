/** What a shipped resource means: read back from its quoted form and formatted with the source's
    interpolations, it is the translation with its gaps decoded. */
module AndroidMeaning {
  import opened Sequences
  import opened Text
  import opened KotlinInterpolations
  import opened AndroidEscape
  import opened AndroidRenderer
  import opened AndroidFormat

  // ---- decoding, piece by piece ----

  lemma {:induction false} DecodedLength(value: string)
    ensures |Decoded(value)| == |value|
  {
    if value != [] {
      DecodedStep(value);
      DecodedLength(if AtTrap(value) then value[2..] else value[1..]);
    }
  }

  lemma DecodedStep(value: string)
    requires value != []
    ensures Decoded(value) == if AtTrap(value) then "\\\n" + Decoded(value[2..]) else [value[0]] + Decoded(value[1..])
  {
    if AtTrap(value) {
      assert value[..2] == "\\n";
    }
  }

  /** A cut that does not tear a backslash from the n behind it splits the decoding. */
  lemma {:induction false} DecodedAppend(a: string, r: string)
    requires r != [] ==> r[0] != 'n'
    ensures Decoded(a + r) == Decoded(a) + Decoded(r)
  {
    hide Decoded, AtTrap;
    if a == [] {
      assert a + r == r;
      NothingDecoded();
    } else {
      DecodedStep(a);
      DecodedStep(a + r);
      TrapStays(a, r);
      if AtTrap(a) {
        DecodedAppend(a[2..], r);
        Regroup("\\\n", Decoded(a[2..]), Decoded(r));
      } else {
        DecodedAppend(a[1..], r);
        Regroup([a[0]], Decoded(a[1..]), Decoded(r));
      }
    }
  }

  lemma Regroup(a: string, b: string, c: string)
    ensures a + b + c == a + (b + c)
  {
  }

  lemma TrapStays(a: string, r: string)
    requires a != [] && (r != [] ==> r[0] != 'n')
    ensures AtTrap(a + r) == AtTrap(a)
    ensures (a + r)[0] == a[0] && (a + r)[1..] == a[1..] + r
    ensures AtTrap(a) ==> |a| >= 2 && (a + r)[2..] == a[2..] + r
  {
  }

  lemma DecodedPlain(t: string, r: string)
    requires '\\' !in t
    ensures Decoded(t + r) == t + Decoded(r)
  {
    SkipPlain(t, r, "\\n", "\\\n");
  }

  lemma {:induction false} DecodedEscapesPercent(gap: string)
    ensures Decoded(EscapePercent(gap)) == EscapePercent(Decoded(gap))
  {
    hide Decoded, EscapePercent;
    if gap == [] {
      NothingDecoded();
    } else {
      DecodedStep(gap);
      EscapePercentStep(gap);
      if AtTrap(gap) {
        DecodedEscapesPercent(gap[2..]);
        EscapePercentStep(gap[1..]);
        assert gap[1..][1..] == gap[2..];
        EscapePercentAppend("\\\n", Decoded(gap[2..]));
        TrapDecoded(EscapePercent(gap[2..]));
      } else {
        DecodedEscapesPercent(gap[1..]);
        var escaped := if gap[0] == '%' then "%%" else [gap[0]];
        EscapePercentAppend([gap[0]], Decoded(gap[1..]));
        EscapedStart(gap[1..]);
        DecodedChars(escaped, EscapePercent(gap[1..]));
      }
    }
  }

  lemma NothingDecoded()
    ensures Decoded([]) == [] && EscapePercent([]) == []
  {
  }

  lemma EscapePercentAppend(a: string, r: string)
    ensures EscapePercent(a + r) == EscapePercent(a) + EscapePercent(r)
    ensures a == "\\\n" ==> EscapePercent(a) == a
    ensures |a| == 1 ==> EscapePercent(a) == if a[0] == '%' then "%%" else a
  {
    ReplaceAllChar(a, r, '%', "%%");
    if a == "\\\n" {
      assert a[1..] == "\n" && a[1..][1..] == [];
    }
  }

  lemma TrapDecoded(r: string)
    ensures Decoded("\\" + ("n" + r)) == "\\\n" + Decoded(r)
  {
    var value := "\\" + ("n" + r);
    assert AtTrap(value) && value[2..] == r;
    DecodedStep(value);
  }

  /** Escaping percent signs keeps whether a text starts with an n. */
  lemma EscapedStart(gap: string)
    ensures EscapePercent(gap) != [] && EscapePercent(gap)[0] == 'n' <==> gap != [] && gap[0] == 'n'
  {
  }

  lemma DecodedChars(escaped: string, r: string)
    requires escaped == "%%" || (|escaped| == 1 && (escaped == "\\" ==> r == [] || r[0] != 'n'))
    ensures Decoded(escaped + r) == escaped + Decoded(r)
  {
    if escaped == "\\" {
      assert (escaped + r)[1..] == r;
      DecodedStep(escaped + r);
    } else {
      DecodedPlain(escaped, r);
    }
  }

  // ---- the translation that readers see ----

  /** The text between two interpolations: after the k-th of them, or before all for k = 0. */
  function Gap(translated: string, spans: seq<Span>, k: nat): string
    requires k <= |spans|
  {
    Slice(translated, Cursor(spans, k), if k < |spans| then spans[k].start else |translated|)
  }

  /** The translation up to the end of its k-th interpolation, with decoded gaps. */
  function SeenUpTo(translated: string, spans: seq<Span>, k: nat): string
    requires k <= |spans|
  {
    if k == 0 then []
    else SeenUpTo(translated, spans, k - 1) + Decoded(Gap(translated, spans, k - 1)) + Tokens(translated, spans)[k - 1]
  }

  /** The translation with decoded gaps; its interpolations are untouched, and stay where they were. */
  function Seen(translated: string, spans: seq<Span>): string {
    SeenUpTo(translated, spans, |spans|) + Decoded(Gap(translated, spans, |spans|))
  }

  /** Some text outside the interpolations has a backslash directly followed by an n. */
  predicate HasGapTrap(translated: string, spans: seq<Span>) {
    exists k :: 0 <= k <= |spans| && HasTrap(Gap(translated, spans, k))
  }

  lemma {:induction false} SeenLength(translated: string, spans: seq<Span>, k: nat)
    requires k <= |spans| && InOrder(translated, spans, 0)
    ensures Cursor(spans, k) <= |translated| && |SeenUpTo(translated, spans, k)| == Cursor(spans, k)
  {
    if k > 0 {
      hide Decoded, InOrder;
      SeenLength(translated, spans, k - 1);
      InOrderAt(translated, spans, 0, k - 1);
      DecodedLength(Gap(translated, spans, k - 1));
    }
  }

  /** Decoding changes nothing exactly where no gap has a backslash-n pair. */
  lemma {:induction false} SeenUpToFixes(translated: string, spans: seq<Span>, k: nat)
    requires k <= |spans| && InOrder(translated, spans, 0)
    ensures Cursor(spans, k) <= |translated|
    ensures SeenUpTo(translated, spans, k) == translated[..Cursor(spans, k)]
            <==> forall i :: 0 <= i < k ==> !HasTrap(Gap(translated, spans, i))
  {
    hide Decoded, InOrder, HasTrap, Tokens;
    if k > 0 {
      SeenUpToFixes(translated, spans, k - 1);
      SeenLength(translated, spans, k - 1);
      InOrderAt(translated, spans, 0, k - 1);
      var gap := Gap(translated, spans, k - 1);
      DecodedLength(gap);
      DecodedFixes(gap);
      ConsumedText(translated, spans, k);
      EqualParts(SeenUpTo(translated, spans, k - 1), translated[..Cursor(spans, k - 1)], Decoded(gap), gap,
                 Tokens(translated, spans)[k - 1]);
    }
  }

  lemma EqualParts(a: string, a': string, b: string, b': string, c: string)
    requires |a| == |a'| && |b| == |b'|
    ensures a + b + c == a' + b' + c <==> a == a' && b == b'
  {
    if a + b + c == a' + b' + c {
      assert a == (a + b + c)[..|a|] && a' == (a' + b' + c)[..|a|];
      assert b == (a + b + c)[|a|..|a| + |b|] && b' == (a' + b' + c)[|a|..|a| + |b|];
    }
  }

  lemma SeenFixes(translated: string, spans: seq<Span>)
    requires InOrder(translated, spans, 0)
    ensures Seen(translated, spans) == translated <==> !HasGapTrap(translated, spans)
  {
    hide Decoded, HasTrap, InOrder, SeenUpTo;
    var n := |spans|;
    SeenUpToFixes(translated, spans, n);
    SeenLength(translated, spans, n);
    var gap := Gap(translated, spans, n);
    DecodedLength(gap);
    DecodedFixes(gap);
    EqualParts(SeenUpTo(translated, spans, n), translated[..Cursor(spans, n)], Decoded(gap), gap, []);
    assert translated[..Cursor(spans, n)] + gap + [] == translated;
    assert SeenUpTo(translated, spans, n) + Decoded(gap) + [] == Seen(translated, spans);
  }

  // ---- decoding a rendering renders the decoded gaps ----

  /** The rendering of the translation with decoded gaps. */
  function SeenRendering(source: seq<string>, translated: string, spans: seq<Span>, k: nat): string
    requires k <= |spans|
  {
    if k == 0 then []
    else
      var tokens := Tokens(translated, spans);
      SeenRendering(source, translated, spans, k - 1)
      + EscapePercent(Decoded(Gap(translated, spans, k - 1)))
      + Placeholder(ArgumentIndex(source, tokens, k - 1), tokens[k - 1])
  }

  lemma {:induction false} DecodedRendering(source: seq<string>, translated: string, spans: seq<Span>, k: nat, rest: string)
    requires k <= |spans|
    requires multiset(source) == multiset(Tokens(translated, spans))
    ensures Decoded(RenderedUpTo(source, translated, spans, k) + rest)
            == SeenRendering(source, translated, spans, k) + Decoded(rest)
  {
    hide RenderedUpTo, Decoded, EscapePercent, Placeholder, ArgumentIndex, Tokens;
    if k == 0 {
      RenderingStart(source, translated, spans, rest);
    } else {
      var tokens := Tokens(translated, spans);
      IndexIsDefined(source, tokens, k - 1);
      var index := ArgumentIndex(source, tokens, k - 1).value;
      RenderedStep(source, translated, spans, k - 1);
      PlaceholderOf(index, tokens[k - 1]);
      var gap := Gap(translated, spans, k - 1);
      var before := RenderedUpTo(source, translated, spans, k - 1);
      var placeholder := "%" + Decimal(index) + "$s";
      DecodedRendering(source, translated, spans, k - 1, EscapePercent(gap) + (placeholder + rest));
      DecodedPiece(before, SeenRendering(source, translated, spans, k - 1), gap, index, rest);
    }
  }

  lemma DecodedPiece(before: string, seen: string, gap: string, index: nat, rest: string)
    requires var after := EscapePercent(gap) + ("%" + Decimal(index) + "$s" + rest);
             Decoded(before + after) == seen + Decoded(after)
    ensures Decoded(before + EscapePercent(gap) + ("%" + Decimal(index) + "$s") + rest)
            == seen + EscapePercent(Decoded(gap)) + ("%" + Decimal(index) + "$s") + Decoded(rest)
  {
    hide Decoded, EscapePercent;
    var placeholder := "%" + Decimal(index) + "$s";
    assert before + EscapePercent(gap) + placeholder + rest == before + (EscapePercent(gap) + (placeholder + rest));
    DecodedAppend(EscapePercent(gap), placeholder + rest);
    DecodedEscapesPercent(gap);
    PlaceholderIsPlain(index);
    DecodedPlain(placeholder, rest);
  }

  lemma PlaceholderIsPlain(index: nat)
    ensures '\\' !in "%" + Decimal(index) + "$s"
  {
  }

  lemma {:induction false} FormatSeenRendering(source: seq<string>, translated: string, spans: seq<Span>, k: nat, rest: string)
    requires k <= |spans|
    requires multiset(source) == multiset(Tokens(translated, spans))
    ensures Format(SeenRendering(source, translated, spans, k) + rest, source)
            == Prefixed(SeenUpTo(translated, spans, k), Format(rest, source))
  {
    hide Decoded, Format, EscapePercent, Placeholder, ArgumentIndex, Tokens, Gap;
    if k == 0 {
      assert SeenRendering(source, translated, spans, 0) + rest == rest;
      PrefixedNothing(Format(rest, source));
    } else {
      var tokens := Tokens(translated, spans);
      IndexIsDefined(source, tokens, k - 1);
      var index := ArgumentIndex(source, tokens, k - 1).value;
      PlaceholderOf(index, tokens[k - 1]);
      var gap := Decoded(Gap(translated, spans, k - 1));
      var before := SeenRendering(source, translated, spans, k - 1);
      FormatSeenRendering(source, translated, spans, k - 1, EscapePercent(gap) + ("%" + Decimal(index) + "$s" + rest));
      FormatStep(before, SeenUpTo(translated, spans, k - 1), gap, index, rest, source);
    }
  }

  /** Decoded and formatted, the rendering gives the translation with decoded gaps. */
  lemma FormatSeesDecodedGaps(source: seq<string>, translated: string, spans: seq<Span>)
    requires source != [] && multiset(source) == multiset(Tokens(translated, spans))
    ensures Format(Decoded(PreEscape(source, translated, spans)), source) == Some(Seen(translated, spans))
  {
    hide RenderedUpTo, Decoded, EscapePercent, PreEscape, Format, SeenRendering, SeenUpTo, Tokens;
    var n := |spans|;
    var gap := Gap(translated, spans, n);
    RenderingUnfolds(source, translated, spans);
    DecodedRendering(source, translated, spans, n, EscapePercent(gap));
    DecodedEscapesPercent(gap);
    var rest := EscapePercent(Decoded(gap));
    FormatSeenRendering(source, translated, spans, n, rest);
    assert rest + [] == rest;
    FormatText(Decoded(gap), [], source);
    FormatNothing(source);
    assert Decoded(gap) + [] == Decoded(gap);
  }

  // ---- the shipped resource ----

  /** What is read: the plain text if there is nothing to fill in, or else the formatted one. */
  function Read(text: string, args: seq<string>): Option<string> {
    if args == [] then Some(text) else Format(text, args)
  }

  /** For every accepted pair, the shipped resource reads as the translation with decoded gaps. This is
      the translation itself if and only if no text outside its interpolations has a backslash directly
      followed by an n. */
  lemma ShippedResourceMeansTranslation(source: string, translated: string, sourceSpans: seq<Span>, spans: seq<Span>)
    requires Spans(source, 0) == Some(sourceSpans) && Spans(translated, 0) == Some(spans)
    requires Rendered(source, translated).Success?
    ensures var shipped := "\"" + Rendered(source, translated).value + "\"";
            var read := Read(DecodeResourceValue(shipped), Tokens(source, sourceSpans));
            && read == Some(Seen(translated, spans))
            && (read == Some(translated) <==> !HasGapTrap(translated, spans))
  {
    hide Spans, Format, Tiles, DecodeResourceValue, Escape, Decoded, SeenUpTo, HasGapTrap, InOrder;
    var args := Tokens(source, sourceSpans);
    var text := PreEscape(args, translated, spans);
    DecodeAfterEscape(text);
    SpansAreExact(translated, 0, spans);
    SpansRebuildSource(translated, spans, 0);
    SeenFixes(translated, spans);
    if args == [] {
      SameSize(args, Tokens(translated, spans));
      NothingToFill(translated, spans);
    } else {
      FormatSeesDecodedGaps(args, translated, spans);
    }
  }

  lemma SameSize(a: seq<string>, b: seq<string>)
    requires multiset(a) == multiset(b)
    ensures |a| == |b|
  {
    assert |a| == |multiset(a)| && |b| == |multiset(b)|;
  }

  lemma NothingToFill(translated: string, spans: seq<Span>)
    requires |spans| == 0
    ensures Seen(translated, spans) == Decoded(translated)
  {
    assert Gap(translated, spans, 0) == translated;
  }
}
