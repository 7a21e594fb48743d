/** Calls as they are written: their closing parenthesis is found, and their arguments are read back. */
module CallArguments {
  import opened Sequences
  import opened Text
  import opened CodeText
  import opened ArgumentScanner

  // ---- the arguments of a call ----

  datatype Split = Split(quoting: Quoting, depths: Depths)

  /** One step of the splitter, which stops at a top-level comma. */
  function SplitNext(state: Split, c: char): Option<Split> {
    var plain := state.quoting.quote.None? && !IsQuote(c);
    if plain && c == ',' && state.depths == TOP then None
    else Some(Split(state.quoting.Next(c), if plain then state.depths.Next(c) else state.depths))
  }

  predicate MeansNothing(state: Split, c: char) {
    && state.quoting == UNQUOTED && c !in "'\"`([{"
    && (c == ')' ==> state.depths.paren == 0) && (c == ']' ==> state.depths.bracket == 0)
    && (c == '}' ==> state.depths.brace == 0)
    && (c == ',' ==> state.depths != Depths(0, 0, 0))
  }

  predicate OpensQuote(state: Split, c: char) {
    state.quoting == UNQUOTED && c in "'\"`"
  }

  function WithinBrackets(state: Split, opening: char, closing: char): Option<Split> {
    var depths := state.depths;
    if state.quoting != UNQUOTED then None
    else if [opening, closing] == "()" then Some(state.(depths := depths.(paren := depths.paren + 1)))
    else if [opening, closing] == "[]" then Some(state.(depths := depths.(bracket := depths.bracket + 1)))
    else if [opening, closing] == "{}" then Some(state.(depths := depths.(brace := depths.brace + 1)))
    else None
  }

  /** How calls are written: three kinds of quotes, three kinds of brackets with commas between them, and stray
      closing brackets, which count for nothing. */
  const CALLS := Lexicon(MeansNothing, OpensQuote, WithinBrackets)

  const OUTSIDE := Split(UNQUOTED, Depths(0, 0, 0))

  lemma QuotesAreSplit(state: Split, quote: char)
    requires OpensQuote(state, quote)
    ensures ReadsQuotes(SplitNext, state, quote)
  {
    assert ReadsQuoted(SplitNext, state, quote, state.(quoting := Quoting(Some(quote), false)),
                       state.(quoting := Quoting(Some(quote), true)));
  }

  lemma SplitFollows()
    ensures Follows(SplitNext, CALLS)
  {
    forall state, quote | CALLS.quotes(state, quote) ensures ReadsQuotes(SplitNext, state, quote) {
      QuotesAreSplit(state, quote);
    }
  }

  function SplitAt(s: string, k: nat): Split
    requires k <= |s|
  {
    Split(QuotingAt(s, 0, k), DepthsAt(s, k))
  }

  lemma SplitStepsOn(s: string, k: nat)
    requires k < |s|
    ensures SplitNext(SplitAt(s, k), s[k]) == if IsTopLevelComma(s, k) then None else Some(SplitAt(s, k + 1))
  {
  }

  /** A text that the splitter crosses without a stop belongs to the open piece. */
  lemma {:induction false} CrossedIsOnePiece(s: string, i: nat, j: nat, end: Split)
    requires i <= j <= |s| && Through(SplitNext, s[i..j], SplitAt(s, i)) == Some(end)
    ensures SplitAt(s, j) == end
    ensures Pieces(s, j) == Front(Pieces(s, i)) + [Last(Pieces(s, i)) + s[i..j]]
    decreases j - i
  {
    hide SplitNext, SplitAt, IsTopLevelComma, Pieces, Front, Last;
    if i < j {
      assert s[i..j][0] == s[i] && s[i..j][1..] == s[i + 1..j];
      SplitStepsOn(s, i);
      PiecesStep(s, i + 1);
      CrossedIsOnePiece(s, i + 1, j, end);
      FrontOf(Front(Pieces(s, i)), Last(Pieces(s, i)) + [s[i]]);
      assert s[i..j] == [s[i]] + s[i + 1..j];
      assert (Last(Pieces(s, i)) + [s[i]]) + s[i + 1..j] == Last(Pieces(s, i)) + s[i..j];
    } else {
      assert s[i..j] == [];
      LastAgain(Pieces(s, i));
    }
  }

  lemma LastAgain(pieces: seq<string>)
    requires pieces != []
    ensures Front(pieces) + [Last(pieces) + []] == pieces
  {
    assert Last(pieces) + [] == Last(pieces);
  }

  predicate AreTexts(arguments: seq<seq<Code>>) {
    forall i :: 0 <= i < |arguments| ==> AllValid(CALLS, OUTSIDE, arguments[i])
  }

  function Texts(arguments: seq<seq<Code>>): (texts: seq<string>)
    ensures |texts| == |arguments|
  {
    seq(|arguments|, i requires 0 <= i < |arguments| => PrintAll(arguments[i]))
  }

  lemma {:induction false} WrittenPieces(s: string, texts: seq<string>)
    requires texts != [] && forall i :: 0 <= i < |texts| ==> Through(SplitNext, texts[i], OUTSIDE) == Some(OUTSIDE)
    requires JoinedBy(texts, ",") <= s
    ensures Pieces(s, |JoinedBy(texts, ",")|) == texts && SplitAt(s, |JoinedBy(texts, ",")|) == OUTSIDE
    decreases |texts|
  {
    hide SplitNext, SplitAt, IsTopLevelComma, Pieces, Through, Front, Last, JoinedBy;
    var last := Last(texts);
    LastIsThere(texts);
    if |texts| == 1 {
      OnlyText(texts);
      SplitBegins(s);
      assert s[0..|last|] == last;
      CrossedIsOnePiece(s, 0, |last|, OUTSIDE);
      FrontOf([], "");
      assert [] + [""] == [""] && "" + last == last && [] + [last] == [last];
    } else {
      var before := Front(texts);
      var k := |JoinedBy(before, ",")|;
      assert JoinedBy(texts, ",") == JoinedBy(before, ",") + ("," + last) by { TextsJoined(texts); }
      assert s[..k] == JoinedBy(before, ",") && s[k] == ',' && s[k + 1..k + 1 + |last|] == last;
      WrittenPieces(s, before);
      CommaCuts(s, k);
      PiecesStep(s, k + 1);
      FrontOf(before, "");
      CrossedIsOnePiece(s, k + 1, k + 1 + |last|, OUTSIDE);
      assert "" + last == last;
    }
  }

  lemma LastIsThere(texts: seq<string>)
    requires texts != []
    ensures texts == Front(texts) + [Last(texts)] && Last(texts) in texts
    ensures |Front(texts)| == |texts| - 1 && forall i :: 0 <= i < |texts| - 1 ==> Front(texts)[i] == texts[i]
    ensures Last(texts) == texts[|texts| - 1]
  {
  }

  lemma OnlyText(texts: seq<string>)
    requires |texts| == 1
    ensures JoinedBy(texts, ",") == Last(texts) && texts == [Last(texts)] && Front(texts) == []
  {
  }

  lemma TextsJoined(texts: seq<string>)
    requires |texts| > 1
    ensures JoinedBy(texts, ",") == JoinedBy(Front(texts), ",") + ("," + Last(texts))
  {
    assert texts == Front(texts) + [Last(texts)];
    JoinOneMore(Front(texts), Last(texts), ",");
  }

  lemma SplitBegins(s: string)
    ensures SplitAt(s, 0) == OUTSIDE && Pieces(s, 0) == [""]
  {
  }

  lemma CommaCuts(s: string, k: nat)
    requires k < |s| && s[k] == ',' && SplitAt(s, k) == OUTSIDE
    ensures IsTopLevelComma(s, k) && SplitAt(s, k + 1) == OUTSIDE
  {
  }

  /** Arguments written with commas between them are read back trimmed, each as one, whatever quotes and brackets
      are in them; only a blank last one is dropped. */
  lemma WrittenArgumentsAreRead(arguments: seq<seq<Code>>)
    requires arguments != [] && AreTexts(arguments)
    ensures var texts := Texts(arguments); var last := Trim(Last(texts));
            Arguments(JoinedBy(texts, ",")) == Map(Trim, Front(texts)) + if last == "" then [] else [last]
  {
    hide Through, SplitNext, Trim, Pieces, SplitAt;
    var texts := Texts(arguments);
    SplitFollows();
    forall i | 0 <= i < |texts| ensures Through(SplitNext, texts[i], OUTSIDE) == Some(OUTSIDE) {
      ThroughCodes(SplitNext, CALLS, arguments[i], OUTSIDE);
    }
    WrittenPieces(JoinedBy(texts, ","), texts);
  }

  // ---- the closing parenthesis of a call ----

  datatype Find = Find(quoting: Quoting, depth: int)

  /** One step of the finder, which stops when the depth reaches zero. */
  function FindNext(state: Find, c: char): Option<Find> {
    var plain := state.quoting.quote.None? && !IsQuote(c);
    var depth := state.depth + if !plain then 0 else if c == '(' then 1 else if c == ')' then -1 else 0;
    if depth == 0 then None else Some(Find(state.quoting.Next(c), depth))
  }

  predicate IsInCall(state: Find) {
    state.quoting == UNQUOTED && state.depth > 0
  }

  function WithinParentheses(state: Find, opening: char, closing: char): Option<Find> {
    if IsInCall(state) && [opening, closing] == "()" then Some(state.(depth := state.depth + 1)) else None
  }

  /** What stands between the parentheses of a call: quoted texts, balanced parentheses and anything else. */
  const BODIES := Lexicon(
    (state: Find, c: char) => IsInCall(state) && c !in "'\"`()",
    (state: Find, c: char) => IsInCall(state) && c in "'\"`",
    WithinParentheses)

  lemma QuotesAreFound(state: Find, quote: char)
    requires IsInCall(state) && quote in "'\"`"
    ensures ReadsQuotes(FindNext, state, quote)
  {
    assert ReadsQuoted(FindNext, state, quote, state.(quoting := Quoting(Some(quote), false)),
                       state.(quoting := Quoting(Some(quote), true)));
  }

  lemma FindFollows()
    ensures Follows(FindNext, BODIES)
  {
    forall state, quote | BODIES.quotes(state, quote) ensures ReadsQuotes(FindNext, state, quote) {
      QuotesAreFound(state, quote);
    }
  }

  lemma {:induction false} CrossedStaysOpen(s: string, from: nat, i: nat, j: nat, end: Find)
    requires from <= i <= j <= |s| && Through(FindNext, s[i..j], Find(QuotingAt(s, from, i), DepthAt(s, from, i))) == Some(end)
    requires IsOpen(s, from, i)
    ensures Find(QuotingAt(s, from, j), DepthAt(s, from, j)) == end
    ensures forall k :: i <= k <= j ==> IsOpen(s, from, k)
    decreases j - i
  {
    if i < j {
      assert s[i..j][0] == s[i] && s[i..j][1..] == s[i + 1..j];
      CrossedStaysOpen(s, from, i + 1, j, end);
    }
  }

  /** The closing parenthesis found for a call is the one written for it. */
  lemma WrittenCallIsDelimited(s: string, open: nat, body: seq<Code>)
    requires open < |s| && AllValid(BODIES, Find(UNQUOTED, 1), body) && PrintAll(body) + ")" <= s[open + 1..]
    ensures IsMatchingParen(s, open + 1, open + 1 + |PrintAll(body)|)
  {
    hide FindNext, Through;
    var from, text := open + 1, PrintAll(body);
    var close := from + |text|;
    assert s[from..][..|text| + 1] == text + ")";
    assert s[from..close] == text && s[close] == ')';
    FindFollows();
    ThroughCodes(FindNext, BODIES, body, Find(UNQUOTED, 1));
    CrossedStaysOpen(s, from, from, close, Find(UNQUOTED, 1));
  }
}
