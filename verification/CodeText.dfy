/** Code as the character scanners see it: plain characters, quoted text with escapes, and bracketed groups.
    A scanner that treats these as its lexicon says comes out of every such text as it went in. */
module CodeText {
  import opened Sequences

  datatype Letter = Literal(c: char) | Escaped(c: char)

  datatype Code = Char(c: char) | Quoted(quote: char, letters: seq<Letter>) | Group(opening: char, body: seq<Code>, closing: char)

  function PrintLetters(letters: seq<Letter>): string {
    if letters == [] then []
    else (match letters[0] case Literal(c) => [c] case Escaped(c) => ['\\', c]) + PrintLetters(letters[1..])
  }

  function Print(code: Code): string
    decreases code, 0
  {
    match code
    case Char(c) => [c]
    case Quoted(quote, letters) => [quote] + (PrintLetters(letters) + [quote])
    case Group(opening, body, closing) => [opening] + (PrintAll(body) + [closing])
  }

  function PrintAll(codes: seq<Code>): string
    decreases codes, 0
  {
    if codes == [] then [] else Print(codes[0]) + PrintAll(codes[1..])
  }

  /** How a scanner reads code in a state: which characters mean nothing to it, which open a quotation, and which
      pairs of characters are brackets, with the state between them. */
  datatype Lexicon<!S> = Lexicon(
    neutral: (S, char) -> bool,
    quotes: (S, char) -> bool,
    within: (S, char, char) -> Option<S>)

  predicate ValidLetters(letters: seq<Letter>, quote: char) {
    forall i :: 0 <= i < |letters| && letters[i].Literal? ==> letters[i].c != quote && letters[i].c != '\\'
  }

  predicate Valid<S>(lexicon: Lexicon<S>, state: S, code: Code)
    decreases code, 0
  {
    match code
    case Char(c) => lexicon.neutral(state, c)
    case Quoted(quote, letters) => lexicon.quotes(state, quote) && quote != '\\' && ValidLetters(letters, quote)
    case Group(opening, body, closing) =>
      var inner := lexicon.within(state, opening, closing);
      inner.Some? && AllValid(lexicon, inner.value, body)
  }

  predicate AllValid<S>(lexicon: Lexicon<S>, state: S, codes: seq<Code>)
    decreases codes, 0
  {
    forall i :: 0 <= i < |codes| ==> Valid(lexicon, state, codes[i])
  }

  /** The state behind the text, if no step on the way stops the scan. */
  function Through<S>(next: (S, char) -> Option<S>, text: string, state: S): Option<S> {
    if text == [] then Some(state)
    else
      var after := next(state, text[0]);
      if after.None? then None else Through(next, text[1..], after.value)
  }

  /** In the state, the quote leads into a state that only the same quote leaves, and a backslash for two characters. */
  ghost predicate ReadsQuoted<S>(next: (S, char) -> Option<S>, state: S, quote: char, inside: S, escaped: S) {
    && next(state, quote) == Some(inside) && next(inside, quote) == Some(state)
    && next(inside, '\\') == Some(escaped)
    && (forall c :: next(escaped, c) == Some(inside))
    && (forall c :: c != quote && c != '\\' ==> next(inside, c) == Some(inside))
  }

  ghost predicate ReadsQuotes<S(!new)>(next: (S, char) -> Option<S>, state: S, quote: char) {
    exists inside, escaped :: ReadsQuoted(next, state, quote, inside, escaped)
  }

  /** The scanner's steps treat code as the lexicon says. */
  ghost predicate Follows<S(!new)>(next: (S, char) -> Option<S>, lexicon: Lexicon<S>) {
    && (forall state, c :: lexicon.neutral(state, c) ==> next(state, c) == Some(state))
    && (forall state, quote :: lexicon.quotes(state, quote) && quote != '\\' ==> ReadsQuotes(next, state, quote))
    && (forall state, opening, closing ::
          var inner := lexicon.within(state, opening, closing);
          inner.Some? ==> next(state, opening) == inner && next(inner.value, closing) == Some(state))
  }

  lemma {:induction false} ThroughAppend<S>(next: (S, char) -> Option<S>, a: string, b: string, state: S)
    ensures Through(next, a + b, state)
            == if Through(next, a, state).None? then None else Through(next, b, Through(next, a, state).value)
  {
    if a == [] {
      assert a + b == b;
    } else {
      assert (a + b)[1..] == a[1..] + b;
      if next(state, a[0]).Some? {
        ThroughAppend(next, a[1..], b, next(state, a[0]).value);
      }
    }
  }

  lemma ThroughOne<S>(next: (S, char) -> Option<S>, c: char, state: S)
    ensures Through(next, [c], state) == next(state, c)
  {
    if next(state, c).Some? {
      assert Through(next, [c][1..], next(state, c).value) == next(state, c);
    }
  }

  /** From one state to another and back around a text. */
  lemma ThroughPair<S>(next: (S, char) -> Option<S>, opening: char, text: string, closing: char, state: S, inner: S)
    requires next(state, opening) == Some(inner) && next(inner, closing) == Some(state)
    requires Through(next, text, inner) == Some(inner)
    ensures Through(next, [opening] + (text + [closing]), state) == Some(state)
  {
    ThroughOne(next, opening, state);
    ThroughOne(next, closing, inner);
    ThroughAppend(next, text, [closing], inner);
    ThroughAppend(next, [opening], text + [closing], state);
  }

  lemma {:induction false} ThroughLetters<S>(next: (S, char) -> Option<S>, letters: seq<Letter>, quote: char,
                                             state: S, inside: S, escaped: S)
    requires ReadsQuoted(next, state, quote, inside, escaped) && ValidLetters(letters, quote)
    ensures Through(next, PrintLetters(letters), inside) == Some(inside)
  {
    if letters != [] {
      ThroughLetters(next, letters[1..], quote, state, inside, escaped);
      var c := letters[0].c;
      ThroughOne(next, c, inside);
      ThroughOne(next, c, escaped);
      ThroughOne(next, '\\', inside);
      ThroughAppend(next, ['\\'], [c], inside);
      assert ['\\', c] == ['\\'] + [c];
      ThroughAppend(next, if letters[0].Literal? then [c] else ['\\', c], PrintLetters(letters[1..]), inside);
    }
  }

  /** A scanner that follows a lexicon comes out of every valid code in the state in which it went in. */
  lemma {:induction false} ThroughCode<S(!new)>(next: (S, char) -> Option<S>, lexicon: Lexicon<S>, code: Code, state: S)
    requires Follows(next, lexicon) && Valid(lexicon, state, code)
    ensures Through(next, Print(code), state) == Some(state)
    decreases code, 0
  {
    match code {
      case Char(c) =>
        ThroughOne(next, c, state);
      case Quoted(quote, letters) =>
        assert ReadsQuotes(next, state, quote);
        var inside, escaped :| ReadsQuoted(next, state, quote, inside, escaped);
        ThroughLetters(next, letters, quote, state, inside, escaped);
        ThroughPair(next, quote, PrintLetters(letters), quote, state, inside);
      case Group(opening, body, closing) =>
        var inner := lexicon.within(state, opening, closing).value;
        ThroughCodes(next, lexicon, body, inner);
        ThroughPair(next, opening, PrintAll(body), closing, state, inner);
    }
  }

  lemma {:induction false} ThroughCodes<S(!new)>(next: (S, char) -> Option<S>, lexicon: Lexicon<S>, codes: seq<Code>, state: S)
    requires Follows(next, lexicon) && AllValid(lexicon, state, codes)
    ensures Through(next, PrintAll(codes), state) == Some(state)
    decreases codes, 0
  {
    if codes != [] {
      ThroughCode(next, lexicon, codes[0], state);
      ThroughCodes(next, lexicon, codes[1..], state);
      ThroughAppend(next, Print(codes[0]), PrintAll(codes[1..]), state);
    }
  }
}
