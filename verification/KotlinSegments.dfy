/** The delimiter scanners that read Kotlin declarations and calls: finding a closing delimiter and
    splitting what it encloses at its top-level commas. */
module KotlinSegments {
  import opened Sequences

  // ---- quotes ----

  datatype Quoting = Quoting(quoted: bool, escaped: bool) {
    function Next(c: char): Quoting {
      if escaped then this.(escaped := false)
      else if quoted && c == '\\' then this.(escaped := true)
      else if c == '"' then this.(quoted := !quoted)
      else this
    }

    /** Whether c is read as code: outside quotes, and not a quote itself. */
    predicate Reads(c: char) {
      !escaped && !quoted && c != '"'
    }
  }

  const UNQUOTED := Quoting(false, false)

  function QuotingAt(s: string, from: nat, k: nat): Quoting
    requires from <= k <= |s|
  {
    if k == from then UNQUOTED else QuotingAt(s, from, k - 1).Next(s[k - 1])
  }

  // ---- the closing delimiter ----

  function DepthAt(s: string, from: nat, k: nat, opening: char, closing: char): int
    requires from <= k <= |s|
  {
    if k == from then 0
    else
      var c, before := s[k - 1], DepthAt(s, from, k - 1, opening, closing);
      if !QuotingAt(s, from, k - 1).Reads(c) then before
      else if c == opening then before + 1
      else if c == closing then before - 1
      else before
  }

  /** A closing delimiter outside quotes that brings the depth to zero. */
  predicate ClosesAt(s: string, from: nat, k: nat, opening: char, closing: char)
    requires from <= k < |s|
  {
    && QuotingAt(s, from, k).Reads(s[k])
    && s[k] == closing != opening
    && DepthAt(s, from, k, opening, closing) == 1
  }

  ghost predicate IsFirstClosing(s: string, from: nat, k: nat, opening: char, closing: char) {
    && from <= k < |s|
    && ClosesAt(s, from, k, opening, closing)
    && forall j :: from <= j < k ==> !ClosesAt(s, from, j, opening, closing)
  }

  method FindClosingDelimiter(source: string, openingOffset: nat, opening: char, closing: char) returns (r: Option<nat>)
    ensures r.Some? ==> IsFirstClosing(source, openingOffset, r.value, opening, closing)
    ensures r.None? ==> forall k :: openingOffset <= k < |source| ==> !ClosesAt(source, openingOffset, k, opening, closing)
  {
    var depth, quoted, escaped := 0, false, false;
    var index := openingOffset;
    while index < |source|
      invariant openingOffset <= index && (openingOffset <= |source| ==> index <= |source|)
      invariant index <= |source| ==> Quoting(quoted, escaped) == QuotingAt(source, openingOffset, index)
      invariant index <= |source| ==> depth == DepthAt(source, openingOffset, index, opening, closing)
      invariant index <= |source| ==> forall k :: openingOffset <= k < index ==> !ClosesAt(source, openingOffset, k, opening, closing)
    {
      var character := source[index];
      index := index + 1;
      if escaped {
        escaped := false;
        continue;
      }
      if quoted && character == '\\' {
        escaped := true;
        continue;
      }
      if character == '"' {
        quoted := !quoted;
        continue;
      }
      if quoted {
        continue;
      }
      if character == opening {
        depth := depth + 1;
      } else if character == closing {
        depth := depth - 1;
        if depth == 0 {
          return Some(index - 1);
        }
      }
    }
    return None;
  }

  // ---- top-level segments ----

  /** What the splitter has open: type arguments, a default value, and brackets. */
  datatype Level = Level(typeArguments: nat, inDefault: bool, paren: int, bracket: int, brace: int) {
    predicate BracketsClosed() {
      paren == 0 && bracket == 0 && brace == 0
    }

    predicate IsTop() {
      typeArguments == 0 && BracketsClosed()
    }

    /** One character of code; trackTypes is the option trackTypeArguments. */
    function Next(c: char, trackTypes: bool): Level {
      if trackTypes && !inDefault && c == '<' then this.(typeArguments := typeArguments + 1)
      else if trackTypes && c == '>' && typeArguments > 0 then this.(typeArguments := typeArguments - 1)
      else if c == '(' then this.(paren := paren + 1)
      else if c == '[' then this.(bracket := bracket + 1)
      else if c == '{' then this.(brace := brace + 1)
      else if c == ')' then this.(paren := paren - 1)
      else if c == ']' then this.(bracket := bracket - 1)
      else if c == '}' then this.(brace := brace - 1)
      else if trackTypes && c == '=' && IsTop() then this.(inDefault := true)
      else if c == ',' && IsTop() then this.(inDefault := false)
      else this
    }
  }

  function LevelAt(s: string, start: nat, k: nat, trackTypes: bool): Level
    requires start <= k <= |s|
  {
    if k == start then Level(0, false, 0, 0, 0)
    else
      var before := LevelAt(s, start, k - 1, trackTypes);
      if QuotingAt(s, start, k - 1).Reads(s[k - 1]) then before.Next(s[k - 1], trackTypes) else before
  }

  /** A comma outside quotes with nothing open: it separates two segments. */
  predicate IsSeparator(s: string, start: nat, k: nat, trackTypes: bool)
    requires start <= k < |s|
  {
    s[k] == ',' && QuotingAt(s, start, k).Reads(',') && LevelAt(s, start, k, trackTypes).IsTop()
  }

  datatype Segment = Segment(end: nat, start: nat, value: string)

  ghost predicate NoSeparatorIn(s: string, start: nat, from: nat, to: nat, trackTypes: bool)
    requires start <= from && to <= |s|
  {
    forall k :: from <= k < to ==> !IsSeparator(s, start, k, trackTypes)
  }

  /** A segment with its text and without a separator in it. */
  ghost predicate IsSegment(s: string, start: nat, segment: Segment, trackTypes: bool) {
    && start <= segment.start <= segment.end <= |s|
    && segment.value == s[segment.start..segment.end]
    && NoSeparatorIn(s, start, segment.start, segment.end, trackTypes)
  }

  /** Consecutive segments, each ended by a separator, from start up to just before next. */
  ghost predicate AreClosed(s: string, segments: seq<Segment>, start: nat, next: nat, trackTypes: bool) {
    && (forall i :: 0 <= i < |segments| ==>
          IsSegment(s, start, segments[i], trackTypes) && segments[i].end < |s| && IsSeparator(s, start, segments[i].end, trackTypes))
    && (forall i :: 0 < i < |segments| ==> segments[i].start == segments[i - 1].end + 1)
    && (segments != [] ==> segments[0].start == start)
    && next == if segments == [] then start else segments[|segments| - 1].end + 1
  }

  /** The segments tile [start, end): exactly one separator lies between neighbours, and none inside a segment. */
  ghost predicate Tiles(s: string, segments: seq<Segment>, start: nat, end: nat, trackTypes: bool) {
    && segments != []
    && var last := segments[|segments| - 1];
       && AreClosed(s, segments[..|segments| - 1], start, last.start, trackTypes)
       && IsSegment(s, start, last, trackTypes) && last.end == end
  }

  method SplitTopLevelSegments(source: string, start: nat, end: nat, trackTypes: bool) returns (segments: seq<Segment>)
    requires start <= end <= |source|
    ensures Tiles(source, segments, start, end, trackTypes)
  {
    hide AreClosed, IsSeparator, NoSeparatorIn;
    segments := [];
    var segmentStart := start;
    var quoted, escaped := false, false;
    var typeArgumentDepth, inDefaultValue := 0, false;
    var parens, brackets, braces := 0, 0, 0;
    NothingClosed(source, start, trackTypes);
    var index := start;
    while index < end
      invariant start <= segmentStart <= index <= end
      invariant typeArgumentDepth >= 0
      invariant Quoting(quoted, escaped) == QuotingAt(source, start, index)
      invariant Level(typeArgumentDepth, inDefaultValue, parens, brackets, braces) == LevelAt(source, start, index, trackTypes)
      invariant AreClosed(source, segments, start, segmentStart, trackTypes)
      invariant NoSeparatorIn(source, start, segmentStart, index, trackTypes)
    {
      var character := source[index];
      SeparatorUnfolds(source, start, index, trackTypes);
      ExtendOrClose(source, segments, start, segmentStart, index, trackTypes);
      index := index + 1;
      if escaped {
        escaped := false;
        continue;
      }
      if quoted && character == '\\' {
        escaped := true;
        continue;
      }
      if character == '"' {
        quoted := !quoted;
        continue;
      }
      if quoted {
        continue;
      }
      if trackTypes && !inDefaultValue && character == '<' {
        typeArgumentDepth := typeArgumentDepth + 1;
        continue;
      }
      if trackTypes && character == '>' && typeArgumentDepth > 0 {
        typeArgumentDepth := typeArgumentDepth - 1;
        continue;
      }
      if character == '(' {
        parens := parens + 1;
        continue;
      }
      if character == '[' {
        brackets := brackets + 1;
        continue;
      }
      if character == '{' {
        braces := braces + 1;
        continue;
      }
      if character == ')' {
        parens := parens - 1;
        continue;
      }
      if character == ']' {
        brackets := brackets - 1;
        continue;
      }
      if character == '}' {
        braces := braces - 1;
        continue;
      }
      if trackTypes && character == '=' && typeArgumentDepth == 0 && parens == 0 && brackets == 0 && braces == 0 {
        inDefaultValue := true;
        continue;
      }
      if character == ',' && typeArgumentDepth == 0 && parens == 0 && brackets == 0 && braces == 0 {
        segments := segments + [Segment(index - 1, segmentStart, source[segmentStart..index - 1])];
        segmentStart := index;
        inDefaultValue := false;
      }
    }
    ghost var closed := segments;
    segments := segments + [Segment(end, segmentStart, source[segmentStart..end])];
    assert segments[..|segments| - 1] == closed;
  }

  lemma SeparatorUnfolds(s: string, start: nat, k: nat, trackTypes: bool)
    requires start <= k < |s|
    ensures IsSeparator(s, start, k, trackTypes)
            <==> s[k] == ',' && QuotingAt(s, start, k).Reads(',') && LevelAt(s, start, k, trackTypes).IsTop()
  {
  }

  lemma NothingClosed(s: string, start: nat, trackTypes: bool)
    requires start <= |s|
    ensures AreClosed(s, [], start, start, trackTypes) && NoSeparatorIn(s, start, start, start, trackTypes)
  {
  }

  /** One more character either belongs to the open segment or, if it separates, closes it. */
  lemma ExtendOrClose(s: string, closed: seq<Segment>, start: nat, from: nat, k: nat, trackTypes: bool)
    requires start <= from <= k < |s|
    requires AreClosed(s, closed, start, from, trackTypes) && NoSeparatorIn(s, start, from, k, trackTypes)
    ensures !IsSeparator(s, start, k, trackTypes) ==> NoSeparatorIn(s, start, from, k + 1, trackTypes)
    ensures IsSeparator(s, start, k, trackTypes) ==>
              && AreClosed(s, closed + [Segment(k, from, s[from..k])], start, k + 1, trackTypes)
              && NoSeparatorIn(s, start, k + 1, k + 1, trackTypes)
  {
    hide IsSeparator;
    if IsSeparator(s, start, k, trackTypes) {
      assert IsSegment(s, start, Segment(k, from, s[from..k]), trackTypes);
    }
  }

  // ---- a call's arguments ----

  lemma {:induction false} QuotingFromInside(s: string, open: nat, k: nat)
    requires open < k <= |s| && s[open] != '"'
    ensures QuotingAt(s, open, k) == QuotingAt(s, open + 1, k)
  {
    if k > open + 1 {
      QuotingFromInside(s, open, k - 1);
    }
  }

  /** Behind an opening parenthesis the splitter's parenthesis depth is the finder's, less one. */
  lemma {:induction false} ParenthesisDepthInside(s: string, open: nat, k: nat, trackTypes: bool)
    requires open < k <= |s| && s[open] == '('
    ensures LevelAt(s, open + 1, k, trackTypes).paren == DepthAt(s, open, k, '(', ')') - 1
  {
    QuotingFromInside(s, open, k);
    if k > open + 1 {
      ParenthesisDepthInside(s, open, k - 1, trackTypes);
      QuotingFromInside(s, open, k - 1);
    } else {
      assert DepthAt(s, open, open, '(', ')') == 0 && QuotingAt(s, open, open) == UNQUOTED;
    }
  }

  lemma {:induction false} InsideStaysOpen(s: string, open: nat, close: nat, k: nat)
    requires IsFirstClosing(s, open, close, '(', ')') && s[open] == '(' && open < k <= close
    ensures DepthAt(s, open, k, '(', ')') >= 1
  {
    if k > open + 1 {
      InsideStaysOpen(s, open, close, k - 1);
      assert !ClosesAt(s, open, k - 1, '(', ')');
    } else {
      assert DepthAt(s, open, open, '(', ')') == 0 && QuotingAt(s, open, open) == UNQUOTED;
    }
  }

  /** On the text between an opening parenthesis and the delimiter found for it, the splitter's
      parenthesis depth never goes below zero, and it ends at zero and outside quotes. */
  lemma ArgumentsAreBalanced(s: string, open: nat, close: nat, k: nat, trackTypes: bool)
    requires IsFirstClosing(s, open, close, '(', ')') && s[open] == '(' && open < k <= close
    ensures LevelAt(s, open + 1, k, trackTypes).paren >= 0
    ensures LevelAt(s, open + 1, close, trackTypes).paren == 0
    ensures QuotingAt(s, open + 1, close) == UNQUOTED
  {
    InsideStaysOpen(s, open, close, k);
    ParenthesisDepthInside(s, open, k, trackTypes);
    ParenthesisDepthInside(s, open, close, trackTypes);
    QuotingFromInside(s, open, close);
  }
}
