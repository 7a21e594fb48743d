/** The scanner that finds `$name` and `${...}` interpolations in Kotlin string text. */
module KotlinInterpolations {
  import opened Sequences

  datatype Span = Span(start: nat, end: nat)

  predicate IsNameStart(c: char) {
    'A' <= c <= 'Z' || 'a' <= c <= 'z' || c == '_'
  }

  predicate IsNamePart(c: char) {
    IsNameStart(c) || '0' <= c <= '9'
  }

  /** A dollar sign that is followed by a name or an opening brace. */
  predicate StartsInterpolation(s: string, i: nat) {
    i + 1 < |s| && s[i] == '$' && (s[i + 1] == '{' || IsNameStart(s[i + 1]))
  }

  // ---- tokens ----

  function NameEnd(s: string, i: nat): (end: nat)
    requires i <= |s|
    ensures i <= end <= |s|
    ensures forall j :: i <= j < end ==> IsNamePart(s[j])
    ensures end < |s| ==> !IsNamePart(s[end])
    decreases |s| - i
  {
    if i < |s| && IsNamePart(s[i]) then NameEnd(s, i + 1) else i
  }

  /** The state of the scan inside braces. */
  datatype Brace = Brace(depth: int, quote: Option<char>, escaped: bool) {
    function Next(c: char): Brace {
      if escaped then this.(escaped := false)
      else if quote.Some? && c == '\\' then this.(escaped := true)
      else if quote == Some(c) then this.(quote := None)
      else if quote.None? && (c == '"' || c == '\'') then this.(quote := Some(c))
      else if quote.None? && c == '{' then this.(depth := depth + 1)
      else if quote.None? && c == '}' then this.(depth := depth - 1)
      else this
    }
  }

  const OPENED := Brace(1, None, false)

  function BraceAfter(s: string, i: nat, j: nat): Brace
    requires i <= j <= |s|
  {
    if i == j then OPENED else BraceAfter(s, i, j - 1).Next(s[j - 1])
  }

  /** A brace-delimited interpolation closes where its depth first reaches zero. */
  ghost predicate ClosesAt(s: string, i: nat, end: nat) {
    && i < end <= |s|
    && BraceAfter(s, i, end).depth == 0
    && forall j :: i <= j < end ==> BraceAfter(s, i, j).depth != 0
  }

  ghost predicate IsToken(s: string, span: Span) {
    && span.start < span.end <= |s|
    && StartsInterpolation(s, span.start)
    && if s[span.start + 1] == '{' then ClosesAt(s, span.start + 2, span.end)
       else span.end == NameEnd(s, span.start + 2)
  }

  /** The spans are exactly the interpolations of s from `from` on: in order, disjoint, in bounds,
      and with no interpolation starting in any gap. */
  ghost predicate Tiles(s: string, spans: seq<Span>, from: nat) {
    if spans == [] then forall i :: from <= i < |s| ==> !StartsInterpolation(s, i)
    else
      && from <= spans[0].start
      && IsToken(s, spans[0])
      && (forall i :: from <= i < spans[0].start ==> !StartsInterpolation(s, i))
      && Tiles(s, spans[1..], spans[0].end)
  }

  // ---- the scan as a function ----

  function CloseFrom(s: string, i: nat, state: Brace): (end: Option<nat>)
    requires i <= |s|
    ensures end.Some? ==> i < end.value <= |s|
    decreases |s| - i
  {
    if i == |s| then None
    else if state.Next(s[i]).depth == 0 then Some(i + 1)
    else CloseFrom(s, i + 1, state.Next(s[i]))
  }

  function Prepend(spans: seq<Span>, rest: Option<seq<Span>>): Option<seq<Span>> {
    if rest.None? then None else Some(spans + rest.value)
  }

  function Spans(s: string, i: nat): Option<seq<Span>>
    requires i <= |s|
    decreases |s| - i
  {
    if i == |s| then Some([])
    else if !StartsInterpolation(s, i) then Spans(s, i + 1)
    else if s[i + 1] == '{' then
      var end := CloseFrom(s, i + 2, OPENED);
      if end.None? then None else Prepend([Span(i, end.value)], Spans(s, end.value))
    else
      Prepend([Span(i, NameEnd(s, i + 2))], Spans(s, NameEnd(s, i + 2)))
  }

  method ReadKotlinInterpolations(source: string) returns (r: Option<seq<Span>>)
    ensures r == Spans(source, 0)
  {
    var interpolations: seq<Span> := [];
    var index := 0;
    PrependNothing(Spans(source, 0));
    while index < |source|
      invariant index <= |source|
      invariant Spans(source, 0) == Prepend(interpolations, Spans(source, index))
    {
      if !(source[index] == '$') {
        index := index + 1;
        continue;
      }
      if index + 1 >= |source| || (source[index + 1] != '{' && !IsNameStart(source[index + 1])) {
        index := index + 1;
        continue;
      }
      var start := index;
      ghost var found := interpolations;
      if source[index + 1] != '{' {
        index := index + 2;
        while index < |source| && IsNamePart(source[index])
          invariant start + 2 <= index <= |source|
          invariant NameEnd(source, index) == NameEnd(source, start + 2)
        {
          index := index + 1;
        }
        interpolations := interpolations + [Span(start, index)];
        PrependTwice(found, [Span(start, index)], Spans(source, index));
        continue;
      }
      var depth, quote, escaped := 1, None, false;
      index := index + 2;
      while index < |source| && depth != 0
        invariant start + 2 <= index <= |source|
        invariant depth != 0 ==> CloseFrom(source, index, Brace(depth, quote, escaped)) == CloseFrom(source, start + 2, OPENED)
        invariant depth == 0 ==> CloseFrom(source, start + 2, OPENED) == Some(index)
        invariant depth != 0 ==> interpolations == found
        invariant depth == 0 ==> interpolations == found + [Span(start, index)]
        decreases |source| - index
      {
        var character := source[index];
        if escaped {
          escaped := false;
        } else if quote.Some? && character == '\\' {
          escaped := true;
        } else if quote == Some(character) {
          quote := None;
        } else if quote.None? && (character == '"' || character == '\'') {
          quote := Some(character);
        } else if quote.None? && character == '{' {
          depth := depth + 1;
        } else if quote.None? && character == '}' {
          depth := depth - 1;
          if depth == 0 {
            interpolations := interpolations + [Span(start, index + 1)];
          }
        }
        index := index + 1;
      }
      if depth != 0 {
        return None;
      }
      PrependTwice(found, [Span(start, index)], Spans(source, index));
    }
    assert interpolations + [] == interpolations;
    return Some(interpolations);
  }

  lemma PrependNothing(rest: Option<seq<Span>>)
    ensures Prepend([], rest) == rest
  {
    if rest.Some? {
      assert [] + rest.value == rest.value;
    }
  }

  lemma PrependTwice(a: seq<Span>, b: seq<Span>, rest: Option<seq<Span>>)
    ensures Prepend(a, Prepend(b, rest)) == Prepend(a + b, rest)
  {
    if rest.Some? {
      assert a + (b + rest.value) == (a + b) + rest.value;
    }
  }

  // ---- what the scan finds, declaratively ----

  lemma {:induction false} CloseFromIsFirst(s: string, i: nat, k: nat, end: nat)
    requires i <= k <= |s|
    requires forall j :: i <= j <= k ==> BraceAfter(s, i, j).depth != 0
    ensures CloseFrom(s, k, BraceAfter(s, i, k)) == Some(end) <==> k < end && ClosesAt(s, i, end)
    decreases |s| - k
  {
    if k < |s| {
      var next := BraceAfter(s, i, k).Next(s[k]);
      assert next == BraceAfter(s, i, k + 1);
      if next.depth == 0 {
        if end > k + 1 {
          assert BraceAfter(s, i, k + 1).depth == 0;
        }
      } else {
        CloseFromIsFirst(s, i, k + 1, end);
      }
    }
  }

  /** The scan succeeds with some spans exactly when they are the interpolations of the text, so it
      fails exactly when the text has no such decomposition (an unclosed brace). */
  lemma {:induction false} SpansAreExact(s: string, from: nat, spans: seq<Span>)
    requires from <= |s|
    ensures Spans(s, from) == Some(spans) <==> Tiles(s, spans, from)
    decreases |s| - from
  {
    if from == |s| {
    } else if !StartsInterpolation(s, from) {
      SpansAreExact(s, from + 1, spans);
    } else {
      if spans != [] && spans[0].start == from {
        if s[from + 1] == '{' {
          CloseFromIsFirst(s, from + 2, from + 2, spans[0].end);
        }
        if spans[0].end <= |s| && spans[0].end > from {
          SpansAreExact(s, spans[0].end, spans[1..]);
          assert spans == [spans[0]] + spans[1..];
        }
      }
    }
  }

  /** The text from `from` on, put back together from gaps and interpolations. */
  function Rebuild(s: string, spans: seq<Span>, from: nat): string
    requires from <= |s|
    requires InOrder(s, spans, from)
  {
    if spans == [] then s[from..]
    else s[from..spans[0].start] + s[spans[0].start..spans[0].end] + Rebuild(s, spans[1..], spans[0].end)
  }

  predicate InOrder(s: string, spans: seq<Span>, from: nat) {
    spans == [] || (from <= spans[0].start < spans[0].end <= |s| && InOrder(s, spans[1..], spans[0].end))
  }

  /** Spans are ordered, disjoint and in bounds, and with the gaps between them rebuild the source. */
  lemma {:induction false} SpansRebuildSource(s: string, spans: seq<Span>, from: nat)
    requires from <= |s| && Tiles(s, spans, from)
    ensures InOrder(s, spans, from) && Rebuild(s, spans, from) == s[from..]
  {
    if spans != [] {
      var span := spans[0];
      SpansRebuildSource(s, spans[1..], span.end);
      assert s[from..span.start] + s[span.start..span.end] + s[span.end..] == s[from..];
    }
  }
}
