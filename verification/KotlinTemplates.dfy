/** Kotlin string templates as they are written: the interpolation scanner finds exactly what was written. */
module KotlinTemplates {
  import opened Sequences
  import opened Text
  import opened CodeText
  import opened KotlinInterpolations

  // ---- the code between braces ----

  /** One step of the scan inside braces, which stops at the closing brace. */
  function BraceNext(state: Brace, c: char): Option<Brace> {
    var after := state.Next(c);
    if after.depth == 0 then None else Some(after)
  }

  predicate IsCode(state: Brace) {
    state.depth > 0 && state.quote == None && !state.escaped
  }

  function WithinBraces(state: Brace, opening: char, closing: char): Option<Brace> {
    if IsCode(state) && [opening, closing] == "{}" then Some(Brace(state.depth + 1, None, false)) else None
  }

  /** What stands between braces: texts in either kind of quotes, balanced braces and anything else. */
  const BODIES := Lexicon(
    (state: Brace, c: char) => IsCode(state) && c !in "\"'{}",
    (state: Brace, c: char) => IsCode(state) && c in "\"'",
    WithinBraces)

  lemma QuotesAreRead(state: Brace, quote: char)
    requires IsCode(state) && quote in "\"'"
    ensures ReadsQuotes(BraceNext, state, quote)
  {
    assert ReadsQuoted(BraceNext, state, quote, state.(quote := Some(quote)), state.(quote := Some(quote), escaped := true));
  }

  lemma BraceFollows()
    ensures Follows(BraceNext, BODIES)
  {
    forall state, quote | BODIES.quotes(state, quote) ensures ReadsQuotes(BraceNext, state, quote) {
      QuotesAreRead(state, quote);
    }
  }

  lemma {:induction false} CrossedStaysOpen(s: string, i: nat, j: nat, state: Brace, end: Brace)
    requires i <= j <= |s| && Through(BraceNext, s[i..j], state) == Some(end)
    ensures CloseFrom(s, i, state) == CloseFrom(s, j, end)
    decreases j - i
  {
    if i < j {
      assert s[i..j][0] == s[i] && s[i..j][1..] == s[i + 1..j];
      CrossedStaysOpen(s, i + 1, j, state.Next(s[i]), end);
    }
  }

  // ---- templates ----

  datatype Piece = Gap(text: string) | Name(name: string) | Braced(body: seq<Code>)

  predicate IsLetter(c: char) {
    'A' <= c <= 'Z' || c == '_' || 'a' <= c <= 'z'
  }

  predicate IsDigit(c: char) {
    '0' <= c <= '9'
  }

  function PrintPiece(piece: Piece): string {
    match piece
    case Gap(text) => text
    case Name(name) => "$" + name
    case Braced(body) => "${" + (PrintAll(body) + "}")
  }

  function PrintPieces(pieces: seq<Piece>): string {
    if pieces == [] then [] else PrintPiece(pieces[0]) + PrintPieces(pieces[1..])
  }

  predicate ValidPiece(piece: Piece) {
    match piece
    case Gap(text) =>
      text != [] && forall i :: 0 < i < |text| ==> text[i - 1] != '$' || (text[i] != '{' && !IsLetter(text[i]))
    case Name(name) =>
      name != [] && IsLetter(name[0]) && forall i :: 0 < i < |name| ==> IsLetter(name[i]) || IsDigit(name[i])
    case Braced(body) => AllValid(BODIES, OPENED, body)
  }

  /** A gap is not followed by another gap, nor a name by a gap that would make it longer. */
  predicate CanFollow(piece: Piece, next: Piece) {
    next.Gap? ==> !piece.Gap? && (piece.Name? && next.text != [] ==> !IsLetter(next.text[0]) && !IsDigit(next.text[0]))
  }

  predicate ValidPieces(pieces: seq<Piece>) {
    && (forall i :: 0 <= i < |pieces| ==> ValidPiece(pieces[i]))
    && (forall i :: 0 < i < |pieces| ==> CanFollow(pieces[i - 1], pieces[i]))
  }

  /** The places of the interpolations, from `start` on. */
  function SpansOf(pieces: seq<Piece>, start: nat): seq<Span> {
    if pieces == [] then []
    else
      var end := start + |PrintPiece(pieces[0])|;
      (if pieces[0].Gap? then [] else [Span(start, end)]) + SpansOf(pieces[1..], end)
  }

  /** What follows a gap starts with a dollar sign, and what follows a name does not continue it. */
  predicate CanRest(piece: Piece, rest: string) {
    && (piece.Gap? && rest != [] ==> rest[0] == '$')
    && (piece.Name? && rest != [] ==> !IsLetter(rest[0]) && !IsDigit(rest[0]))
  }

  lemma RestFollows(pieces: seq<Piece>)
    requires pieces != [] && ValidPieces(pieces)
    ensures CanRest(pieces[0], PrintPieces(pieces[1..])) && ValidPieces(pieces[1..])
  {
    var tail := pieces[1..];
    assert forall i :: 0 <= i < |tail| ==> tail[i] == pieces[i + 1];
    if tail != [] {
      assert CanFollow(pieces[0], pieces[1]) && ValidPiece(pieces[1]);
      assert PrintPieces(tail)[0] == PrintPiece(tail[0])[0];
    }
  }

  lemma {:induction false} NothingStarts(s: string, i: nat, j: nat)
    requires i <= j <= |s| && forall k :: i <= k < j ==> !StartsInterpolation(s, k)
    ensures Spans(s, i) == Spans(s, j)
    decreases j - i
  {
    if i < j {
      NothingStarts(s, i + 1, j);
    }
  }

  lemma GapIsPassed(s: string, i: nat, text: string, rest: string)
    requires ValidPiece(Gap(text)) && CanRest(Gap(text), rest) && Rests(s, i, text + rest)
    ensures i + |text| <= |s| && Spans(s, i) == Spans(s, i + |text|)
  {
    Passed(s, i, text, rest);
    var j := i + |text|;
    forall k | i <= k < j ensures !StartsInterpolation(s, k) {
      assert s[k] == text[k - i];
      if k + 1 < j {
        assert s[k + 1] == text[k + 1 - i];
      } else if rest != [] {
        assert s[j] == s[j..][0] == '$';
      }
    }
    NothingStarts(s, i, j);
  }

  lemma {:induction false} NameIsRead(s: string, i: nat, end: nat)
    requires i <= end <= |s| && (forall k :: i <= k < end ==> IsNamePart(s[k])) && (end < |s| ==> !IsNamePart(s[end]))
    ensures NameEnd(s, i) == end
    decreases end - i
  {
    if i < end {
      NameIsRead(s, i + 1, end);
    }
  }

  lemma NameIsFound(s: string, i: nat, name: string, rest: string)
    requires ValidPiece(Name(name)) && CanRest(Name(name), rest) && Rests(s, i, ("$" + name) + rest)
    ensures var end := i + 1 + |name|; end <= |s| && Spans(s, i) == Prepend([Span(i, end)], Spans(s, end))
  {
    var text := "$" + name;
    Passed(s, i, text, rest);
    var end := i + |text|;
    assert s[i] == text[0] && s[i + 1] == text[1] == name[0];
    forall k | i + 2 <= k < end ensures IsNamePart(s[k]) {
      assert s[i + (k - i)] == text[k - i] == name[k - i - 1];
    }
    assert end < |s| ==> s[end] == s[end..][0];
    NameIsRead(s, i + 2, end);
  }

  lemma BracedIsFound(s: string, i: nat, body: seq<Code>, rest: string)
    requires ValidPiece(Braced(body)) && Rests(s, i, PrintPiece(Braced(body)) + rest)
    ensures var end := i + |PrintPiece(Braced(body))|;
            end <= |s| && Spans(s, i) == Prepend([Span(i, end)], Spans(s, end))
  {
    hide Through, BraceNext, Rests, CloseFrom;
    var code := PrintAll(body);
    var close := i + 2 + |code|;
    BracesAreThere(s, i, code, rest);
    BodyIsCrossed(s, i + 2, close, body);
  }

  lemma BracesAreThere(s: string, i: nat, code: string, rest: string)
    requires Rests(s, i, "${" + (code + "}") + rest)
    ensures var close := i + 2 + |code|;
            close + 1 <= |s| && s[i] == '$' && s[i + 1] == '{' && s[i + 2..close] == code && s[close] == '}'
  {
    hide Rests;
    assert "${" + (code + "}") + rest == "${" + (code + ("}" + rest));
    Passed(s, i, "${", code + ("}" + rest));
    Passed(s, i + 2, code, "}" + rest);
    Passed(s, i + 2 + |code|, "}", rest);
    assert s[i + 0] == '$' && s[i + 1] == '{' && s[i + 2 + |code| + 0] == '}';
  }

  lemma BodyIsCrossed(s: string, i: nat, close: nat, body: seq<Code>)
    requires i <= close < |s| && s[i..close] == PrintAll(body) && s[close] == '}' && AllValid(BODIES, OPENED, body)
    ensures CloseFrom(s, i, OPENED) == Some(close + 1)
  {
    hide Through, BraceNext, PrintAll, AllValid;
    BraceFollows();
    ThroughCodes(BraceNext, BODIES, body, OPENED);
    CrossedStaysOpen(s, i, close, OPENED, OPENED);
  }

  lemma PieceIsFound(s: string, i: nat, piece: Piece, rest: string)
    requires ValidPiece(piece) && CanRest(piece, rest) && Rests(s, i, PrintPiece(piece) + rest)
    ensures var end := i + |PrintPiece(piece)|;
            end <= |s| && Spans(s, i) == if piece.Gap? then Spans(s, end) else Prepend([Span(i, end)], Spans(s, end))
  {
    hide ValidPiece, CanRest, Rests, Spans, Prepend;
    match piece {
      case Gap(text) => GapIsPassed(s, i, text, rest);
      case Name(name) => NameIsFound(s, i, name, rest);
      case Braced(body) => BracedIsFound(s, i, body, rest);
    }
  }

  lemma {:induction false} PiecesAreFound(s: string, i: nat, pieces: seq<Piece>)
    requires ValidPieces(pieces) && Rests(s, i, PrintPieces(pieces))
    ensures i <= |s| && Spans(s, i) == Some(SpansOf(pieces, i))
    decreases |pieces|
  {
    hide ValidPieces, ValidPiece, CanRest, Spans, Rests, PrintPiece;
    if pieces == [] {
      NothingRests(s, i);
    } else {
      var piece, tail := pieces[0], pieces[1..];
      var end := i + |PrintPiece(piece)|;
      FirstIsValid(pieces);
      RestFollows(pieces);
      Passed(s, i, PrintPiece(piece), PrintPieces(tail));
      PiecesAreFound(s, end, tail);
      PieceIsFound(s, i, piece, PrintPieces(tail));
      assert [] + SpansOf(tail, end) == SpansOf(tail, end);
    }
  }

  lemma NothingRests(s: string, i: nat)
    requires Rests(s, i, [])
    ensures i == |s| && Spans(s, i) == Some([])
  {
  }

  lemma FirstIsValid(pieces: seq<Piece>)
    requires pieces != [] && ValidPieces(pieces)
    ensures ValidPiece(pieces[0])
  {
  }

  /** The interpolations of a written template are exactly the names and braced codes it was written with, whatever
      quotes, escapes and braces are in them. */
  lemma WrittenTemplateIsRead(pieces: seq<Piece>)
    requires ValidPieces(pieces)
    ensures Spans(PrintPieces(pieces), 0) == Some(SpansOf(pieces, 0))
  {
    PiecesAreFound(PrintPieces(pieces), 0, pieces);
  }
}
