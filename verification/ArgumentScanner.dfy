/** The bracket and quote scanners of the temporary-path guardrail: matching a call's parenthesis
    and splitting its arguments. */
module ArgumentScanner {
  import opened Sequences
  import opened Text

  // ---- the quote state ----

  predicate IsQuote(c: char) {
    c == '\'' || c == '"' || c == '`'
  }

  /** Outside quotes (None) or inside the given ones, possibly after a backslash. */
  datatype Quoting = Quoting(quote: Option<char>, escaped: bool) {
    /** The state after one more character, inside or outside quotes. */
    function Next(c: char): Quoting {
      if quote.Some? then
        if escaped then Quoting(quote, false)
        else if c == '\\' then Quoting(quote, true)
        else if quote == Some(c) then Quoting(None, false)
        else this
      else if IsQuote(c) then Quoting(Some(c), escaped)
      else this
    }
  }

  const UNQUOTED := Quoting(None, false)

  class QuoteScanState {
    var quote: Option<char>
    var escaped: bool

    function Abstract(): Quoting
      reads this
    {
      Quoting(quote, escaped)
    }

    constructor ()
      ensures Abstract() == UNQUOTED
    {
      quote, escaped := None, false;
    }

    /** Opens a quoted section if ch is a quote. */
    method BeginQuotedSection(ch: char) returns (begun: bool)
      requires quote.None?
      modifies this
      ensures begun == IsQuote(ch) && Abstract() == old(Abstract()).Next(ch)
    {
      if !IsQuote(ch) {
        return false;
      }
      quote := Some(ch);
      return true;
    }

    /** Consumes ch if a quoted section is open. */
    method ConsumeQuotedChar(ch: char) returns (consumed: bool)
      modifies this
      ensures consumed == old(quote).Some?
      ensures Abstract() == if consumed then old(Abstract()).Next(ch) else old(Abstract())
    {
      if quote.None? {
        return false;
      }
      if escaped {
        escaped := false;
        return true;
      }
      if ch == '\\' {
        escaped := true;
        return true;
      }
      if Some(ch) == quote {
        quote := None;
      }
      return true;
    }
  }

  /** The quote state before position j of a scan that starts at i. */
  function QuotingAt(s: string, i: nat, j: nat): Quoting
    requires i <= j <= |s|
  {
    if i == j then UNQUOTED else QuotingAt(s, i, j - 1).Next(s[j - 1])
  }

  /** Whether the character at k is plain text: outside quotes, and not opening any. */
  predicate IsPlain(s: string, i: nat, k: nat)
    requires i <= k < |s|
  {
    QuotingAt(s, i, k).quote.None? && !IsQuote(s[k])
  }

  // ---- the matching parenthesis ----

  /** Opening minus closing parentheses outside quotes in s[i..j], after one that is open already. */
  function DepthAt(s: string, i: nat, j: nat): int
    requires i <= j <= |s|
  {
    if i == j then 1
    else
      DepthAt(s, i, j - 1)
      + if !IsPlain(s, i, j - 1) then 0 else if s[j - 1] == '(' then 1 else if s[j - 1] == ')' then -1 else 0
  }

  /** A parenthesis opened just before `from` is still open before position j. */
  predicate IsOpen(s: string, from: nat, j: nat)
    requires from <= j <= |s|
  {
    DepthAt(s, from, j) != 0
  }

  /** The least index at which the depth outside quotes reaches zero. */
  ghost predicate IsMatchingParen(s: string, from: nat, close: nat) {
    && from <= close < |s|
    && !IsOpen(s, from, close + 1)
    && forall j :: from <= j <= close ==> IsOpen(s, from, j)
  }

  ghost predicate NeverCloses(s: string, from: nat) {
    forall j :: from <= j <= |s| ==> IsOpen(s, from, j)
  }

  method FindMatchingParen(source: string, openIndex: nat) returns (close: int)
    ensures close == -1 || (close >= 0 && IsMatchingParen(source, openIndex + 1, close))
    ensures close == -1 ==> NeverCloses(source, openIndex + 1)
  {
    var depth := 1;
    var quoteState := new QuoteScanState();
    var i := openIndex + 1;
    ghost var from := i;
    while i < |source|
      invariant from <= i && (from <= |source| ==> i <= |source|)
      invariant i <= |source| ==> quoteState.Abstract() == QuotingAt(source, from, i)
      invariant i <= |source| ==> depth == DepthAt(source, from, i) && depth >= 1
      invariant i <= |source| ==> forall j :: from <= j <= i ==> IsOpen(source, from, j)
    {
      var ch := source[i];
      var consumed := quoteState.ConsumeQuotedChar(ch);
      if consumed {
        i := i + 1;
        continue;
      }
      var begun := quoteState.BeginQuotedSection(ch);
      if begun {
        i := i + 1;
        continue;
      }
      if ch == '(' {
        depth := depth + 1;
      } else if ch == ')' {
        depth := depth - 1;
        if depth == 0 {
          return i;
        }
      }
      i := i + 1;
    }
    return -1;
  }

  // ---- splitting arguments ----

  /** The clamped bracket depths of the splitter. */
  datatype Depths = Depths(paren: nat, bracket: nat, brace: nat) {
    function Next(c: char): Depths {
      if c == '(' then this.(paren := paren + 1)
      else if c == ')' then this.(paren := if paren > 0 then paren - 1 else 0)
      else if c == '[' then this.(bracket := bracket + 1)
      else if c == ']' then this.(bracket := if bracket > 0 then bracket - 1 else 0)
      else if c == '{' then this.(brace := brace + 1)
      else if c == '}' then this.(brace := if brace > 0 then brace - 1 else 0)
      else this
    }
  }

  const TOP := Depths(0, 0, 0)

  function DepthsAt(s: string, k: nat): Depths
    requires k <= |s|
  {
    if k == 0 then TOP
    else if IsPlain(s, 0, k - 1) then DepthsAt(s, k - 1).Next(s[k - 1])
    else DepthsAt(s, k - 1)
  }

  /** A comma that separates arguments: outside quotes and at depth zero. */
  predicate IsTopLevelComma(s: string, k: nat)
    requires k < |s|
  {
    s[k] == ',' && IsPlain(s, 0, k) && DepthsAt(s, k) == TOP
  }

  /** The pieces of s[..k] between top-level commas; the last one is still open. */
  function Pieces(s: string, k: nat): (pieces: seq<string>)
    requires k <= |s|
    ensures pieces != []
  {
    if k == 0 then [""]
    else
      var before := Pieces(s, k - 1);
      if IsTopLevelComma(s, k - 1) then before + [""]
      else Front(before) + [Last(before) + [s[k - 1]]]
  }

  /** The trimmed pieces, without a blank last one. */
  function Arguments(s: string): seq<string> {
    var pieces := Pieces(s, |s|);
    var last := Trim(Last(pieces));
    Map(Trim, Front(pieces)) + if last != [] then [last] else []
  }

  method SplitTopLevelArguments(source: string) returns (out: seq<string>)
    ensures out == Arguments(source)
  {
    hide QuotingAt, DepthsAt, Pieces, Trim;
    SplitStart(source);
    out := [];
    var current := "";
    var parenDepth, bracketDepth, braceDepth := 0, 0, 0;
    var quoteState := new QuoteScanState();
    for k := 0 to |source|
      invariant parenDepth >= 0 && bracketDepth >= 0 && braceDepth >= 0
      invariant quoteState.Abstract() == QuotingAt(source, 0, k)
      invariant Depths(parenDepth, bracketDepth, braceDepth) == DepthsAt(source, k)
      invariant out == Map(Trim, Front(Pieces(source, k)))
      invariant current == Last(Pieces(source, k))
    {
      SplitStep(source, k);
      var ch := source[k];
      if quoteState.quote.Some? {
        current := current + [ch];
        var consumed := quoteState.ConsumeQuotedChar(ch);
        continue;
      }
      var begun := quoteState.BeginQuotedSection(ch);
      if begun {
        current := current + [ch];
        continue;
      }
      if ch == '(' {
        parenDepth := parenDepth + 1;
      } else if ch == ')' {
        if parenDepth > 0 {
          parenDepth := parenDepth - 1;
        }
      } else if ch == '[' {
        bracketDepth := bracketDepth + 1;
      } else if ch == ']' {
        if bracketDepth > 0 {
          bracketDepth := bracketDepth - 1;
        }
      } else if ch == '{' {
        braceDepth := braceDepth + 1;
      } else if ch == '}' {
        if braceDepth > 0 {
          braceDepth := braceDepth - 1;
        }
      } else if ch == ',' && parenDepth == 0 && bracketDepth == 0 && braceDepth == 0 {
        out := out + [Trim(current)];
        current := "";
        continue;
      }
      current := current + [ch];
    }
    if Trim(current) != [] {
      out := out + [Trim(current)];
    }
  }

  lemma SplitStart(s: string)
    ensures QuotingAt(s, 0, 0) == UNQUOTED && DepthsAt(s, 0) == TOP && Pieces(s, 0) == [""]
  {
  }

  lemma SplitStep(s: string, k: nat)
    requires k < |s|
    ensures QuotingAt(s, 0, k + 1) == QuotingAt(s, 0, k).Next(s[k])
    ensures DepthsAt(s, k + 1) == if IsPlain(s, 0, k) then DepthsAt(s, k).Next(s[k]) else DepthsAt(s, k)
    ensures var before, after := Pieces(s, k), Pieces(s, k + 1);
            if IsTopLevelComma(s, k) then Map(Trim, Front(after)) == Map(Trim, Front(before)) + [Trim(Last(before))] && Last(after) == ""
            else Map(Trim, Front(after)) == Map(Trim, Front(before)) && Last(after) == Last(before) + [s[k]]
  {
    hide QuotingAt, DepthsAt, Trim, IsTopLevelComma, Pieces, Front, Last, Map;
    QuotingStep(s, k);
    PiecesStep(s, k + 1);
    var before := Pieces(s, k);
    if IsTopLevelComma(s, k) {
      FrontOf(before, "");
      MapFront(before);
    } else {
      FrontOf(Front(before), Last(before) + [s[k]]);
    }
  }

  lemma QuotingStep(s: string, k: nat)
    requires k < |s|
    ensures QuotingAt(s, 0, k + 1) == QuotingAt(s, 0, k).Next(s[k])
    ensures DepthsAt(s, k + 1) == if IsPlain(s, 0, k) then DepthsAt(s, k).Next(s[k]) else DepthsAt(s, k)
  {
  }

  lemma FrontOf<T>(s: seq<T>, x: T)
    ensures Front(s + [x]) == s && Last(s + [x]) == x
  {
  }

  lemma MapFront(s: seq<string>)
    requires s != []
    ensures Map(Trim, s) == Map(Trim, Front(s)) + [Trim(Last(s))]
  {
  }

  // ---- what the pieces are ----

  /** The positions of the top-level commas in s[..k], in order. */
  function Cuts(s: string, k: nat): (cuts: seq<nat>)
    requires k <= |s|
    ensures forall i :: 0 <= i < |cuts| ==> cuts[i] < k
  {
    if k == 0 then [] else Cuts(s, k - 1) + if IsTopLevelComma(s, k - 1) then [k - 1] else []
  }

  function PieceStart(cuts: seq<nat>, i: nat): nat
    requires i <= |cuts|
  {
    if i == 0 then 0 else cuts[i - 1] + 1
  }

  function PieceEnd(cuts: seq<nat>, i: nat, k: nat): nat {
    if i < |cuts| then cuts[i] else k
  }

  /** Piece i is the stretch between the cuts around it. */
  ghost predicate IsStretch(s: string, cuts: seq<nat>, k: nat, i: nat, piece: string)
    requires i <= |cuts|
  {
    PieceStart(cuts, i) <= PieceEnd(cuts, i, k) <= k <= |s| && piece == s[PieceStart(cuts, i)..PieceEnd(cuts, i, k)]
  }

  lemma CutKeepsStretch(s: string, cuts: seq<nat>, k: nat, i: nat, piece: string)
    requires 0 < k <= |s| && i <= |cuts| && IsStretch(s, cuts, k - 1, i, piece)
    ensures IsStretch(s, cuts + [k - 1], k, i, piece)
    ensures i < |cuts| ==> IsStretch(s, cuts, k, i, piece)
    ensures i == |cuts| ==> IsStretch(s, cuts, k, i, piece + [s[k - 1]])
  {
  }

  lemma NewStretch(s: string, cuts: seq<nat>, k: nat)
    requires 0 < k <= |s|
    ensures IsStretch(s, cuts + [k - 1], k, |cuts| + 1, "")
  {
  }

  /** The pieces are exactly the stretches between neighbouring top-level commas. */
  lemma {:induction false} PiecesLieBetweenCuts(s: string, k: nat, i: nat)
    requires k <= |s| && i <= |Cuts(s, k)|
    ensures |Pieces(s, k)| == |Cuts(s, k)| + 1
    ensures IsStretch(s, Cuts(s, k), k, i, Pieces(s, k)[i])
  {
    hide IsTopLevelComma, Pieces, IsStretch;
    PiecesStep(s, k);
    if k == 0 {
      FirstStretch(s);
    } else {
      var cuts, pieces := Cuts(s, k - 1), Pieces(s, k - 1);
      var j := if i <= |cuts| then i else |cuts|;
      PiecesLieBetweenCuts(s, k - 1, j);
      CutKeepsStretch(s, cuts, k, j, pieces[j]);
      NewStretch(s, cuts, k);
      assert cuts + [] == cuts;
    }
  }

  /** Piece i of the text, between its top-level commas. */
  function Stretch(s: string, i: nat): string {
    var cuts := Cuts(s, |s|);
    if i <= |cuts| && PieceStart(cuts, i) <= PieceEnd(cuts, i, |s|) <= |s| then s[PieceStart(cuts, i)..PieceEnd(cuts, i, |s|)]
    else []
  }

  /** The cuts are the top-level commas, in order. */
  lemma {:induction false} CutsAreTheCommas(s: string, k: nat)
    requires k <= |s|
    ensures forall c :: c in Cuts(s, k) <==> 0 <= c < k && IsTopLevelComma(s, c)
    ensures forall i, j :: 0 <= i < j < |Cuts(s, k)| ==> Cuts(s, k)[i] < Cuts(s, k)[j]
  {
    if k > 0 {
      hide IsTopLevelComma;
      CutsAreTheCommas(s, k - 1);
      CutsStep(s, k);
    }
  }

  lemma CutsStep(s: string, k: nat)
    requires 0 < k <= |s|
    ensures Cuts(s, k) == Cuts(s, k - 1) + if IsTopLevelComma(s, k - 1) then [k - 1] else []
  {
  }

  /** The arguments are the trimmed stretches between the top-level commas; only a blank last one is dropped. */
  lemma ArgumentsAreStretches(s: string)
    ensures var n := |Cuts(s, |s|)|; var out := Arguments(s);
            && |out| == n + (if Trim(Stretch(s, n)) == [] then 0 else 1)
            && forall i :: 0 <= i < |out| ==> out[i] == Trim(Stretch(s, i))
  {
    hide Pieces, Cuts, Trim;
    var cuts := Cuts(s, |s|);
    forall i: nat | i <= |cuts| ensures |Pieces(s, |s|)| == |cuts| + 1 && Pieces(s, |s|)[i] == Stretch(s, i) {
      PiecesLieBetweenCuts(s, |s|, i);
    }
    assert 0 <= |cuts|;
    PiecesLieBetweenCuts(s, |s|, 0);
  }

  lemma FirstStretch(s: string)
    ensures IsStretch(s, [], 0, 0, "")
  {
  }

  lemma PiecesStep(s: string, k: nat)
    requires k <= |s|
    ensures Pieces(s, k)
            == if k == 0 then [""]
               else if IsTopLevelComma(s, k - 1) then Pieces(s, k - 1) + [""]
               else Front(Pieces(s, k - 1)) + [Last(Pieces(s, k - 1)) + [s[k - 1]]]
  {
  }

  /** Joined with commas again, the pieces are the text. */
  lemma {:induction false} PiecesRejoin(s: string, k: nat)
    requires k <= |s|
    ensures JoinedBy(Pieces(s, k), ",") == s[..k]
  {
    hide IsTopLevelComma, Pieces, JoinedBy, Front, Last;
    PiecesStep(s, k);
    if k == 0 {
      JoinedOne("");
    } else {
      PiecesRejoin(s, k - 1);
      var before := Pieces(s, k - 1);
      assert s[..k] == s[..k - 1] + [s[k - 1]];
      if IsTopLevelComma(s, k - 1) {
        CommaAt(s, k - 1);
        FrontOf(before, "");
        JoinedEmpty(before);
      } else {
        LastExtended(before, s[k - 1]);
      }
    }
  }

  lemma JoinedOne(piece: string)
    ensures JoinedBy([piece], ",") == piece
  {
  }

  lemma JoinedEmpty(pieces: seq<string>)
    requires pieces != []
    ensures JoinedBy(pieces + [""], ",") == JoinedBy(pieces, ",") + ","
  {
    JoinOneMore(pieces, "", ",");
  }

  lemma CommaAt(s: string, k: nat)
    requires k < |s| && IsTopLevelComma(s, k)
    ensures [s[k]] == ","
  {
  }

  lemma LastExtended(pieces: seq<string>, c: char)
    requires pieces != []
    ensures JoinedBy(Front(pieces) + [Last(pieces) + [c]], ",") == JoinedBy(pieces, ",") + [c]
  {
    var front, last := Front(pieces), Last(pieces);
    assert pieces == front + [last];
    if front != [] {
      JoinOneMore(front, last, ",");
      JoinOneMore(front, last + [c], ",");
      assert JoinedBy(front, ",") + ("," + (last + [c])) == JoinedBy(front, ",") + ("," + last) + [c];
    }
  }

  // ---- on the text between a parenthesis and its match ----

  lemma {:induction false} QuotingInside(s: string, from: nat, to: nat, k: nat)
    requires from <= to <= |s| && k <= to - from
    ensures QuotingAt(s[from..to], 0, k) == QuotingAt(s, from, from + k)
  {
    if k > 0 {
      QuotingInside(s, from, to, k - 1);
      assert s[from..to][k - 1] == s[from + k - 1];
    }
  }

  lemma {:induction false} OpenDepthIsPositive(s: string, from: nat, j: nat)
    requires from <= j <= |s|
    requires forall j' :: from <= j' <= j ==> IsOpen(s, from, j')
    ensures DepthAt(s, from, j) >= 1
  {
    if from < j {
      OpenDepthIsPositive(s, from, j - 1);
      assert IsOpen(s, from, j);
    }
  }

  /** Between matching parentheses the splitter's parenthesis depth is the matcher's, less the open one. */
  lemma {:induction false} ParenDepthInside(s: string, from: nat, close: nat, k: nat)
    requires IsMatchingParen(s, from, close) && k <= close - from
    ensures DepthsAt(s[from..close], k).paren == DepthAt(s, from, from + k) - 1
  {
    var inner := s[from..close];
    if k > 0 {
      ParenDepthInside(s, from, close, k - 1);
      QuotingInside(s, from, close, k - 1);
      assert inner[k - 1] == s[from + k - 1];
      OpenDepthIsPositive(s, from, from + k - 1);
      assert IsOpen(s, from, from + k);
      OpenDepthIsPositive(s, from, from + k);
    }
  }

  /** On the text a matched parenthesis delimits, the splitter never clamps its parenthesis depth,
      and it ends outside quotes with no parenthesis open. */
  lemma SplitterIsInStep(s: string, from: nat, close: nat)
    requires IsMatchingParen(s, from, close)
    ensures var inner := s[from..close];
            && (forall k :: 0 <= k < |inner| && IsPlain(inner, 0, k) && inner[k] == ')' ==> DepthsAt(inner, k).paren > 0)
            && DepthsAt(inner, |inner|).paren == 0
            && QuotingAt(inner, 0, |inner|).quote.None?
  {
    var inner := s[from..close];
    forall k | 0 <= k < |inner| && IsPlain(inner, 0, k) && inner[k] == ')' ensures DepthsAt(inner, k).paren > 0 {
      ParenDepthInside(s, from, close, k);
      QuotingInside(s, from, close, k);
      assert inner[k] == s[from + k];
      assert IsOpen(s, from, from + k + 1);
    }
    ParenDepthInside(s, from, close, |inner|);
    QuotingInside(s, from, close, |inner|);
    assert IsOpen(s, from, close) && !IsOpen(s, from, close + 1);
    OpenDepthIsPositive(s, from, close);
  }
}
