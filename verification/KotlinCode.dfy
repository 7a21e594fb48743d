/** Kotlin code as it is written: the closing delimiter of a group is found, and declarations and calls
    are split into the parameters and arguments they were written with. */
module KotlinCode {
  import opened Sequences
  import opened Text
  import opened CodeText
  import opened KotlinSegments

  // ---- the closing delimiter ----

  datatype Find = Find(quoting: Quoting, depth: int)

  /** One step of the finder, which stops at the closing delimiter that brings the depth to zero. */
  function FindNext(state: Find, c: char, opening: char, closing: char): Option<Find> {
    if !state.quoting.Reads(c) then Some(state.(quoting := state.quoting.Next(c)))
    else if c == closing != opening && state.depth == 1 then None
    else Some(Find(state.quoting.Next(c), state.depth + if c == opening then 1 else if c == closing then -1 else 0))
  }

  predicate IsInGroup(state: Find) {
    state.quoting == UNQUOTED && state.depth > 0
  }

  /** What stands between delimiters of one kind: strings, balanced delimiters and anything else. */
  function Between(opening: char, closing: char): Lexicon<Find> {
    Lexicon(
      (state: Find, c: char) => IsInGroup(state) && c != '"' && c != opening && c != closing,
      (state: Find, c: char) => IsInGroup(state) && c == '"',
      (state: Find, left: char, right: char) =>
        if IsInGroup(state) && left == opening && right == closing then Some(state.(depth := state.depth + 1)) else None)
  }

  predicate AreDelimiters(opening: char, closing: char) {
    opening != closing && opening != '"' && closing != '"'
  }

  lemma FindFollows(opening: char, closing: char, next: (Find, char) -> Option<Find>)
    requires AreDelimiters(opening, closing)
    requires forall state, c :: next(state, c) == FindNext(state, c, opening, closing)
    ensures Follows(next, Between(opening, closing))
  {
    var lexicon := Between(opening, closing);
    forall state, quote | lexicon.quotes(state, quote) ensures ReadsQuotes(next, state, quote) {
      assert ReadsQuoted(next, state, quote, state.(quoting := Quoting(true, false)), state.(quoting := Quoting(true, true)));
    }
  }

  lemma {:induction false} CrossedStaysOpen(s: string, from: nat, i: nat, j: nat, opening: char, closing: char,
                                            next: (Find, char) -> Option<Find>, end: Find)
    requires from <= i <= j <= |s|
    requires forall state, c :: next(state, c) == FindNext(state, c, opening, closing)
    requires Through(next, s[i..j], Find(QuotingAt(s, from, i), DepthAt(s, from, i, opening, closing))) == Some(end)
    ensures Find(QuotingAt(s, from, j), DepthAt(s, from, j, opening, closing)) == end
    ensures forall k :: i <= k < j ==> !ClosesAt(s, from, k, opening, closing)
    decreases j - i
  {
    if i < j {
      assert s[i..j][0] == s[i] && s[i..j][1..] == s[i + 1..j];
      CrossedStaysOpen(s, from, i + 1, j, opening, closing, next, end);
    }
  }

  /** The closing delimiter found for a group is the one it was written with. */
  lemma WrittenGroupIsDelimited(s: string, open: nat, opening: char, body: seq<Code>, closing: char)
    requires AreDelimiters(opening, closing) && AllValid(Between(opening, closing), Find(UNQUOTED, 1), body)
    requires open <= |s| && Print(Group(opening, body, closing)) <= s[open..]
    ensures IsFirstClosing(s, open, open + 1 + |PrintAll(body)|, opening, closing)
  {
    hide FindNext, Through;
    var text := PrintAll(body);
    var close := open + 1 + |text|;
    assert s[open..][..|text| + 2] == [opening] + (text + [closing]);
    assert s[open + 1..close] == text && s[open] == opening && s[close] == closing;
    var next := (state, c) => FindNext(state, c, opening, closing);
    FindFollows(opening, closing, next);
    ThroughCodes(next, Between(opening, closing), body, Find(UNQUOTED, 1));
    OpeningIsRead(s, open, opening, closing);
    CrossedStaysOpen(s, open, open + 1, close, opening, closing, next, Find(UNQUOTED, 1));
  }

  lemma OpeningIsRead(s: string, open: nat, opening: char, closing: char)
    requires open < |s| && s[open] == opening && AreDelimiters(opening, closing)
    ensures QuotingAt(s, open, open + 1) == UNQUOTED && DepthAt(s, open, open + 1, opening, closing) == 1
    ensures !ClosesAt(s, open, open, opening, closing)
  {
    assert QuotingAt(s, open, open) == UNQUOTED && DepthAt(s, open, open, opening, closing) == 0;
  }

  // ---- parameters and arguments ----

  datatype Split = Split(quoting: Quoting, level: Level)

  /** One step of the splitter, which stops at a separator. */
  function SplitNext(state: Split, c: char, trackTypes: bool): Option<Split> {
    if !state.quoting.Reads(c) then Some(state.(quoting := state.quoting.Next(c)))
    else if c == ',' && state.level.IsTop() then None
    else Some(Split(state.quoting.Next(c), state.level.Next(c, trackTypes)))
  }

  predicate NothingOpen(level: Level) {
    level.typeArguments == 0 && level.paren == 0 && level.bracket == 0 && level.brace == 0
  }

  predicate MeansNothing(state: Split, c: char, trackTypes: bool) {
    && state.quoting == UNQUOTED && c !in "\"()[]{}"
    && (c == ',' ==> !NothingOpen(state.level))
    && (trackTypes && c == '<' ==> state.level.inDefault)
    && (trackTypes && c == '>' ==> state.level.typeArguments == 0)
    && (trackTypes && c == '=' ==> state.level.inDefault || !NothingOpen(state.level))
  }

  function LevelWithin(level: Level, brackets: string, trackTypes: bool): Option<Level> {
    if brackets == "()" then Some(level.(paren := level.paren + 1))
    else if brackets == "[]" then Some(level.(bracket := level.bracket + 1))
    else if brackets == "{}" then Some(level.(brace := level.brace + 1))
    else if brackets == "<>" && trackTypes && !level.inDefault then Some(level.(typeArguments := level.typeArguments + 1))
    else None
  }

  function WithinBrackets(state: Split, opening: char, closing: char, trackTypes: bool): Option<Split> {
    var level := LevelWithin(state.level, [opening, closing], trackTypes);
    if state.quoting == UNQUOTED && level.Some? then Some(state.(level := level.value)) else None
  }

  /** How parameters are written: strings, brackets of three kinds, and, outside default values, type arguments. */
  function Declarations(trackTypes: bool): Lexicon<Split> {
    Lexicon(
      (state: Split, c: char) => MeansNothing(state, c, trackTypes),
      (state: Split, c: char) => state.quoting == UNQUOTED && c == '"',
      (state: Split, opening: char, closing: char) => WithinBrackets(state, opening, closing, trackTypes))
  }

  /** A parameter, perhaps with a default value (or a named argument with its value). */
  datatype Parameter = Parameter(head: seq<Code>, value: Option<seq<Code>>)

  const OUTSIDE := Split(UNQUOTED, Level(0, false, 0, 0, 0))

  function InValue(trackTypes: bool): Split {
    OUTSIDE.(level := OUTSIDE.level.(inDefault := trackTypes))
  }

  predicate ValidParameter(parameter: Parameter, trackTypes: bool) {
    && AllValid(Declarations(trackTypes), OUTSIDE, parameter.head)
    && (parameter.value.Some? ==> AllValid(Declarations(trackTypes), InValue(trackTypes), parameter.value.value))
  }

  function PrintParameter(parameter: Parameter): string {
    PrintAll(parameter.head) + if parameter.value.None? then "" else "=" + PrintAll(parameter.value.value)
  }

  lemma NothingIsSplit(state: Split, c: char, trackTypes: bool)
    requires MeansNothing(state, c, trackTypes)
    ensures SplitNext(state, c, trackTypes) == Some(state)
  {
  }

  lemma BracketsAreLevels(level: Level, opening: char, closing: char, trackTypes: bool)
    requires LevelWithin(level, [opening, closing], trackTypes).Some?
    ensures var inner := LevelWithin(level, [opening, closing], trackTypes).value;
            level.Next(opening, trackTypes) == inner && inner.Next(closing, trackTypes) == level
    ensures opening in "([{<" && closing in ")]}>"
  {
    assert [opening, closing][0] == opening && [opening, closing][1] == closing;
  }

  lemma BracketsAreSplit(state: Split, opening: char, closing: char, trackTypes: bool)
    requires WithinBrackets(state, opening, closing, trackTypes).Some?
    ensures var inner := WithinBrackets(state, opening, closing, trackTypes);
            SplitNext(state, opening, trackTypes) == inner && SplitNext(inner.value, closing, trackTypes) == Some(state)
  {
    hide LevelWithin;
    BracketsAreLevels(state.level, opening, closing, trackTypes);
  }

  lemma StringsAreSplit(state: Split, trackTypes: bool, next: (Split, char) -> Option<Split>)
    requires state.quoting == UNQUOTED && forall state, c :: next(state, c) == SplitNext(state, c, trackTypes)
    ensures ReadsQuotes(next, state, '"')
  {
    assert ReadsQuoted(next, state, '"', state.(quoting := Quoting(true, false)), state.(quoting := Quoting(true, true)));
  }

  lemma SplitFollows(trackTypes: bool, next: (Split, char) -> Option<Split>)
    requires forall state, c :: next(state, c) == SplitNext(state, c, trackTypes)
    ensures Follows(next, Declarations(trackTypes))
  {
    hide MeansNothing, WithinBrackets, SplitNext, ReadsQuotes;
    var lexicon := Declarations(trackTypes);
    forall state, c | lexicon.neutral(state, c) ensures next(state, c) == Some(state) {
      NothingIsSplit(state, c, trackTypes);
    }
    forall state, quote | lexicon.quotes(state, quote) ensures ReadsQuotes(next, state, quote) {
      StringsAreSplit(state, trackTypes, next);
    }
    forall state, opening, closing | lexicon.within(state, opening, closing).Some?
      ensures var inner := lexicon.within(state, opening, closing);
              next(state, opening) == inner && next(inner.value, closing) == Some(state)
    {
      BracketsAreSplit(state, opening, closing, trackTypes);
    }
  }

  /** The splitter crosses a parameter without a stop. */
  lemma ThroughParameter(parameter: Parameter, trackTypes: bool, next: (Split, char) -> Option<Split>)
    requires ValidParameter(parameter, trackTypes)
    requires forall state, c :: next(state, c) == SplitNext(state, c, trackTypes)
    ensures Through(next, PrintParameter(parameter), OUTSIDE)
            == Some(if parameter.value.Some? then InValue(trackTypes) else OUTSIDE)
  {
    hide Through, SplitNext;
    SplitFollows(trackTypes, next);
    ThroughCodes(next, Declarations(trackTypes), parameter.head, OUTSIDE);
    var head := PrintAll(parameter.head);
    if parameter.value.Some? {
      var value := PrintAll(parameter.value.value);
      ThroughCodes(next, Declarations(trackTypes), parameter.value.value, InValue(trackTypes));
      EqualsOpensValue(trackTypes);
      ThroughOne(next, '=', OUTSIDE);
      ThroughAppend(next, "=", value, OUTSIDE);
      ThroughAppend(next, head, "=" + value, OUTSIDE);
    } else {
      assert head + "" == head;
    }
  }

  lemma EqualsOpensValue(trackTypes: bool)
    ensures SplitNext(OUTSIDE, '=', trackTypes) == Some(InValue(trackTypes))
  {
  }

  function SplitAt(s: string, start: nat, k: nat, trackTypes: bool): Split
    requires start <= k <= |s|
  {
    Split(QuotingAt(s, start, k), LevelAt(s, start, k, trackTypes))
  }

  lemma SplitStepsOn(s: string, start: nat, k: nat, trackTypes: bool)
    requires start <= k < |s|
    ensures SplitNext(SplitAt(s, start, k, trackTypes), s[k], trackTypes)
            == if IsSeparator(s, start, k, trackTypes) then None else Some(SplitAt(s, start, k + 1, trackTypes))
  {
  }

  lemma {:induction false} CrossedHasNoSeparator(s: string, start: nat, i: nat, j: nat, trackTypes: bool,
                                                 next: (Split, char) -> Option<Split>, end: Split)
    requires start <= i <= j <= |s|
    requires forall state, c :: next(state, c) == SplitNext(state, c, trackTypes)
    requires Through(next, s[i..j], SplitAt(s, start, i, trackTypes)) == Some(end)
    ensures SplitAt(s, start, j, trackTypes) == end && NoSeparatorIn(s, start, i, j, trackTypes)
    decreases j - i
  {
    hide SplitNext, SplitAt, IsSeparator;
    if i < j {
      assert s[i..j][0] == s[i] && s[i..j][1..] == s[i + 1..j];
      SplitStepsOn(s, start, i, trackTypes);
      CrossedHasNoSeparator(s, start, i + 1, j, trackTypes, next, end);
    }
  }

  function Texts(parameters: seq<Parameter>): (texts: seq<string>)
    ensures |texts| == |parameters|
  {
    seq(|parameters|, i requires 0 <= i < |parameters| => PrintParameter(parameters[i]))
  }

  /** Where text i begins among the texts joined with commas from start on. */
  function TextStart(texts: seq<string>, start: nat, i: nat): nat
    requires i <= |texts|
  {
    if i == 0 then start else TextStart(texts, start, i - 1) + |texts[i - 1]| + 1
  }

  /** The text begins at i, where the splitter has nothing open; no separator is in it, and one ends it unless it is the last. */
  ghost predicate IsWritten(s: string, start: nat, i: nat, end: nat, last: bool, trackTypes: bool) {
    && start <= i <= end <= |s|
    && SplitAt(s, start, i, trackTypes) == OUTSIDE
    && NoSeparatorIn(s, start, i, end, trackTypes)
    && (!last ==> end < |s| && IsSeparator(s, start, end, trackTypes))
  }

  lemma {:induction false} JoinedText(texts: seq<string>, start: nat, i: nat)
    requires i < |texts|
    ensures var joined := JoinedBy(texts, ","); var from := TextStart(texts, start, i) - start;
            && 0 <= from <= from + |texts[i]| <= |joined| && joined[from..from + |texts[i]|] == texts[i]
            && (i + 1 == |texts| ==> from + |texts[i]| == |joined|)
            && (i + 1 < |texts| ==> from + |texts[i]| < |joined| && joined[from + |texts[i]|] == ',')
    decreases |texts|
  {
    var joined, first := JoinedBy(texts, ","), texts[0];
    if |texts| > 1 {
      var tail := JoinedBy(texts[1..], ",");
      assert joined == first + "," + tail;
      if i > 0 {
        JoinedText(texts[1..], start, i - 1);
        StartInTail(texts, start, i);
        var from := TextStart(texts[1..], start, i - 1) - start;
        assert joined[|first| + 1..] == tail;
        assert joined[|first| + 1 + from..|first| + 1 + from + |texts[i]|] == tail[from..from + |texts[i]|];
      }
    }
  }

  lemma {:induction false} StartInTail(texts: seq<string>, start: nat, i: nat)
    requires 0 < i <= |texts|
    ensures TextStart(texts, start, i) == TextStart(texts[1..], start, i - 1) + |texts[0]| + 1
  {
    if i > 1 {
      StartInTail(texts, start, i - 1);
    }
  }

  predicate AreDeclared(s: string, start: nat, end: nat, parameters: seq<Parameter>, trackTypes: bool) {
    && start <= end <= |s| && parameters != [] && s[start..end] == JoinedBy(Texts(parameters), ",")
    && forall i :: 0 <= i < |parameters| ==> ValidParameter(parameters[i], trackTypes)
  }

  lemma WithinStretch(s: string, start: nat, end: nat, from: nat, to: nat)
    requires start <= from <= to <= end <= |s|
    ensures s[start..end][from - start..to - start] == s[from..to]
    ensures to < end ==> s[start..end][to - start] == s[to]
  {
    var inner, stretch := s[start..end][from - start..to - start], s[from..to];
    assert |inner| == |stretch| && forall k :: 0 <= k < |inner| ==> inner[k] == s[from + k] == stretch[k];
  }

  lemma ParameterText(s: string, start: nat, end: nat, parameters: seq<Parameter>, trackTypes: bool, i: nat)
    requires AreDeclared(s, start, end, parameters, trackTypes) && i < |parameters|
    ensures ValidParameter(parameters[i], trackTypes)
    ensures var texts := Texts(parameters); var from := TextStart(texts, start, i); var to := from + |texts[i]|;
            && start <= from <= to <= end <= |s| && s[from..to] == PrintParameter(parameters[i])
            && if i + 1 < |texts| then to < end && s[to] == ',' else to == end
  {
    hide ValidParameter, PrintParameter, JoinedBy, TextStart;
    var texts := Texts(parameters);
    JoinedText(texts, start, i);
    var from := TextStart(texts, start, i);
    WithinStretch(s, start, end, from, from + |texts[i]|);
  }

  lemma {:induction false} ParameterIsWritten(s: string, start: nat, end: nat, parameters: seq<Parameter>, trackTypes: bool, i: nat)
    requires AreDeclared(s, start, end, parameters, trackTypes) && i < |parameters|
    ensures var texts := Texts(parameters); var from := TextStart(texts, start, i);
            IsWritten(s, start, from, from + |texts[i]|, i + 1 == |texts|, trackTypes)
  {
    hide AreDeclared, SplitNext, SplitAt, Through, IsSeparator, NoSeparatorIn, JoinedBy, ValidParameter, PrintParameter;
    var texts := Texts(parameters);
    ParameterText(s, start, end, parameters, trackTypes, i);
    var from := TextStart(texts, start, i);
    var to := from + |texts[i]|;
    if i == 0 {
      NothingSplit(s, start, trackTypes);
    } else {
      ParameterIsWritten(s, start, end, parameters, trackTypes, i - 1);
      SeparatorResets(s, start, from - 1, trackTypes);
    }
    ParameterIsCrossed(s, start, from, to, parameters[i], trackTypes);
    if i + 1 < |texts| {
      CommaSeparates(s, start, to, trackTypes);
    }
  }

  lemma ParameterIsCrossed(s: string, start: nat, from: nat, to: nat, parameter: Parameter, trackTypes: bool)
    requires start <= from <= to <= |s| && s[from..to] == PrintParameter(parameter) && ValidParameter(parameter, trackTypes)
    requires SplitAt(s, start, from, trackTypes) == OUTSIDE
    ensures NoSeparatorIn(s, start, from, to, trackTypes)
    ensures SplitAt(s, start, to, trackTypes) == if parameter.value.Some? then InValue(trackTypes) else OUTSIDE
  {
    hide SplitNext, SplitAt, Through, NoSeparatorIn, PrintParameter, ValidParameter;
    var next := (state, c) => SplitNext(state, c, trackTypes);
    ThroughParameter(parameter, trackTypes, next);
    CrossedHasNoSeparator(s, start, from, to, trackTypes, next, if parameter.value.Some? then InValue(trackTypes) else OUTSIDE);
  }

  lemma NothingSplit(s: string, start: nat, trackTypes: bool)
    requires start <= |s|
    ensures SplitAt(s, start, start, trackTypes) == OUTSIDE
  {
  }

  lemma SeparatorResets(s: string, start: nat, k: nat, trackTypes: bool)
    requires start <= k < |s| && IsSeparator(s, start, k, trackTypes)
    ensures SplitAt(s, start, k + 1, trackTypes) == OUTSIDE
  {
  }

  lemma CommaSeparates(s: string, start: nat, k: nat, trackTypes: bool)
    requires start <= k < |s| && s[k] == ','
    requires SplitAt(s, start, k, trackTypes) == OUTSIDE || SplitAt(s, start, k, trackTypes) == InValue(trackTypes)
    ensures IsSeparator(s, start, k, trackTypes)
  {
  }

  lemma SegmentsGrow(s: string, segments: seq<Segment>, start: nat, next: nat, trackTypes: bool, i: nat)
    requires AreClosed(s, segments, start, next, trackTypes) && i < |segments|
    ensures segments[i].end < next
    decreases |segments| - i
  {
    if i + 1 < |segments| {
      SegmentsGrow(s, segments, start, next, trackTypes, i + 1);
      assert segments[i + 1].start == segments[i].end + 1;
      assert IsSegment(s, start, segments[i + 1], trackTypes);
    }
  }

  /** Two stretches from one place, with no separator in them and each ended by one or by the end, are one. */
  lemma SameEnd(s: string, start: nat, from: nat, to: nat, other: nat, trackTypes: bool)
    requires start <= from <= to <= |s| && from <= other <= |s|
    requires NoSeparatorIn(s, start, from, to, trackTypes) && NoSeparatorIn(s, start, from, other, trackTypes)
    requires to < other ==> to < |s| && IsSeparator(s, start, to, trackTypes)
    requires other < to ==> other < |s| && IsSeparator(s, start, other, trackTypes)
    ensures to == other
  {
  }

  lemma {:induction false} SegmentIsWritten(s: string, start: nat, end: nat, parameters: seq<Parameter>,
                                            segments: seq<Segment>, trackTypes: bool, i: nat)
    requires AreDeclared(s, start, end, parameters, trackTypes)
    requires Tiles(s, segments, start, end, trackTypes) && i < |segments|
    ensures i < |parameters| && (i + 1 == |parameters| <==> i + 1 == |segments|)
    ensures var texts := Texts(parameters);
            segments[i].start == TextStart(texts, start, i) && segments[i].value == texts[i]
            && segments[i].end == segments[i].start + |texts[i]|
  {
    hide AreDeclared, IsSeparator, NoSeparatorIn, SplitAt;
    var texts := Texts(parameters);
    var last := segments[|segments| - 1];
    var closed := segments[..|segments| - 1];
    if i > 0 {
      SegmentIsWritten(s, start, end, parameters, segments, trackTypes, i - 1);
      assert i < |closed| ==> closed[i].start == closed[i - 1].end + 1;
    }
    SomeParameter(s, start, end, parameters, trackTypes);
    ParameterText(s, start, end, parameters, trackTypes, i);
    ParameterIsWritten(s, start, end, parameters, trackTypes, i);
    if i < |closed| {
      SegmentsGrow(s, closed, start, last.start, trackTypes, i);
      assert closed[i] == segments[i];
      assert IsSegment(s, start, closed[i], trackTypes) && IsSeparator(s, start, closed[i].end, trackTypes);
    }
    SameEnd(s, start, segments[i].start, segments[i].end, segments[i].start + |texts[i]|, trackTypes);
  }

  lemma SomeParameter(s: string, start: nat, end: nat, parameters: seq<Parameter>, trackTypes: bool)
    requires AreDeclared(s, start, end, parameters, trackTypes)
    ensures parameters != []
  {
  }

  /** Parameters written with commas between them are split exactly into what was written, whatever strings, brackets,
      type arguments and default values are in them. */
  lemma WrittenParametersAreSegments(s: string, start: nat, end: nat, parameters: seq<Parameter>, segments: seq<Segment>,
                                     trackTypes: bool)
    requires AreDeclared(s, start, end, parameters, trackTypes) && Tiles(s, segments, start, end, trackTypes)
    ensures |segments| == |parameters|
    ensures forall i :: 0 <= i < |segments| ==> segments[i].value == PrintParameter(parameters[i])
  {
    hide AreDeclared, AreClosed, IsSegment;
    SegmentIsWritten(s, start, end, parameters, segments, trackTypes, |segments| - 1);
    forall i | 0 <= i < |segments| ensures i < |parameters| && segments[i].value == PrintParameter(parameters[i]) {
      SegmentIsWritten(s, start, end, parameters, segments, trackTypes, i);
    }
  }
}
