/** Strings files in general, as people and other tools write them: what parsing one gives. */
module StringsFiles {
  import opened Sequences
  import opened Text
  import opened JsonString
  import opened JsonEnvelope
  import opened JsonLiterals
  import InfoPlist
  import InfoPlistRoundTrip

  /** An assignment, perhaps with its source in a comment, with white space around its parts; or another
      line, which has no quotes. */
  datatype Item =
    | Assignment(source: Option<seq<StringChar>>, lead: string, key: seq<StringChar>, middle: string, after: string,
                 value: seq<StringChar>)
    | Other(text: string)

  /** An item on a line of its own, which any of the line terminators may end. */
  datatype Line = Line(item: Item, end: char)

  predicate EndsLine(c: char) {
    c in "\n\r\U{2028}\U{2029}"
  }

  predicate IsOtherLine(text: string) {
    && text != [] && !IsSpace(text[0])
    && forall i :: 0 <= i < |text| ==> text[i] != '"' && !EndsLine(text[i])
  }

  predicate ValidItem(item: Item) {
    match item
    case Assignment(source, lead, key, middle, after, value) =>
      && (source.Some? ==> ValidChars(source.value))
      && IsBlankText(lead) && ValidChars(key) && IsBlankText(middle) && IsBlankText(after) && ValidChars(value)
    case Other(text) => IsOtherLine(text)
  }

  function PrintAssignment(lead: string, key: string, middle: string, after: string, value: string): string {
    lead + (key + (middle + ("=" + (after + (value + ";")))))
  }

  function PrintComment(source: Option<seq<StringChar>>): string {
    if source.None? then "" else InfoPlist.SOURCE_OPEN + (PrintString(source.value) + InfoPlist.SOURCE_CLOSE)
  }

  function PrintItem(item: Item): string {
    match item
    case Assignment(source, lead, key, middle, after, value) =>
      PrintComment(source) + PrintAssignment(lead, PrintString(key), middle, after, PrintString(value))
    case Other(text) => text
  }

  predicate ValidLines(lines: seq<Line>) {
    forall i :: 0 <= i < |lines| ==> ValidItem(lines[i].item) && EndsLine(lines[i].end)
  }

  function PrintLines(lines: seq<Line>): string {
    if lines == [] then [] else PrintItem(lines[0].item) + [lines[0].end] + PrintLines(lines[1..])
  }

  /** What is known after one more item. */
  function Recorded(before: map<string, InfoPlist.Translation>, item: Item): map<string, InfoPlist.Translation> {
    match item
    case Assignment(source, _, key, _, _, value) =>
      before[Meaning(key) := InfoPlist.Translation(if source.None? then None else Some(Meaning(source.value)), Meaning(value))]
    case Other(_) => before
  }

  /** What a file means: each key has the translation that its last assignment gives it. */
  function MeaningUpTo(lines: seq<Line>, k: nat): map<string, InfoPlist.Translation>
    requires k <= |lines|
  {
    if k == 0 then map[] else Recorded(MeaningUpTo(lines, k - 1), lines[k - 1].item)
  }

  // ---- the parts of a line are found ----

  lemma BodyOverChar(s: string, i: nat, c: StringChar, rest: string)
    requires ValidChar(c) && Rests(s, i, PrintChar(c) + rest)
    ensures i + |PrintChar(c)| <= |s| && InfoPlist.BodyEnd(s, i) == InfoPlist.BodyEnd(s, i + |PrintChar(c)|)
  {
    hide InfoPlist.BodyEnd, Rests;
    var text := PrintChar(c);
    Passed(s, i, text, rest);
    match c {
      case Plain(x) =>
        assert s[i] == text[0];
        InfoPlistRoundTrip.PlainStep(s, i);
      case Escaped(x) =>
        assert s[i] == text[0] && s[i + 1] == text[1];
        InfoPlistRoundTrip.EscapeStep(s, i);
      case Unicode(hex) =>
        assert s[i] == text[0] && s[i + 1] == text[1];
        InfoPlistRoundTrip.EscapeStep(s, i);
        assert s[i + 2] == text[2] && s[i + 3] == text[3] && s[i + 4] == text[4] && s[i + 5] == text[5];
        InfoPlistRoundTrip.PlainStep(s, i + 2);
        InfoPlistRoundTrip.PlainStep(s, i + 3);
        InfoPlistRoundTrip.PlainStep(s, i + 4);
        InfoPlistRoundTrip.PlainStep(s, i + 5);
    }
  }

  lemma {:induction false} BodyOverChars(s: string, i: nat, chars: seq<StringChar>, rest: string)
    requires ValidChars(chars) && Rests(s, i, PrintChars(chars) + ("\"" + rest))
    ensures i <= |s| && InfoPlist.BodyEnd(s, i) == Some(i + |PrintChars(chars)| + 1)
    decreases |chars|
  {
    hide InfoPlist.BodyEnd, PrintChar, Rests;
    Passed(s, i, PrintChars(chars), "\"" + rest);
    if chars == [] {
      Passed(s, i, "\"", rest);
      InfoPlistRoundTrip.QuoteStep(s, i);
    } else {
      var first, tail := PrintChar(chars[0]), PrintChars(chars[1..]);
      assert PrintChars(chars) + ("\"" + rest) == first + (tail + ("\"" + rest));
      Passed(s, i, first, tail + ("\"" + rest));
      BodyOverChar(s, i, chars[0], tail + ("\"" + rest));
      BodyOverChars(s, i + |first|, chars[1..], rest);
    }
  }

  /** The literal at i is the given text. */
  predicate IsLiteralAt(s: string, i: nat, text: string)
    requires i <= |s|
  {
    InfoPlist.LiteralEnd(s, i) == Some(i + |text|) && s[i..i + |text|] == text
  }

  lemma LiteralFound(s: string, i: nat, chars: seq<StringChar>, rest: string)
    requires ValidChars(chars) && Rests(s, i, PrintString(chars) + rest)
    ensures i <= |s| && IsLiteralAt(s, i, PrintString(chars))
    ensures Rests(s, i + |PrintString(chars)|, rest)
  {
    hide InfoPlist.BodyEnd, PrintChars, Rests;
    Passed(s, i, PrintString(chars), rest);
    assert PrintString(chars) + rest == "\"" + (PrintChars(chars) + ("\"" + rest));
    Passed(s, i, "\"", PrintChars(chars) + ("\"" + rest));
    assert s[i] == PrintString(chars)[0];
    BodyOverChars(s, i + 1, chars, rest);
  }

  lemma {:induction false} SpaceFound(s: string, i: nat, blank: string, rest: string)
    requires IsBlankText(blank) && Rests(s, i, blank + rest) && rest != [] && !IsSpace(rest[0])
    ensures i <= |s| && InfoPlist.SpaceEnd(s, i) == i + |blank| && Rests(s, i + |blank|, rest)
    decreases |blank|
  {
    Passed(s, i, blank, rest);
    if blank == [] {
      assert s[i] == rest[0];
    } else {
      assert blank + rest == [blank[0]] + (blank[1..] + rest);
      Passed(s, i, [blank[0]], blank[1..] + rest);
      SpaceFound(s, i + 1, blank[1..], rest);
    }
  }

  lemma TextFound(s: string, i: nat, text: string, rest: string)
    requires Rests(s, i, text + rest)
    ensures i <= |s| && InfoPlist.TextEnd(s, i, text) == Some(i + |text|) && Rests(s, i + |text|, rest)
  {
    Passed(s, i, text, rest);
  }

  lemma LiteralStarts(chars: seq<StringChar>, rest: string)
    ensures PrintString(chars) + rest != [] && (PrintString(chars) + rest)[0] == '"'
    ensures !IsSpace((PrintString(chars) + rest)[0])
  {
  }

  lemma EqualsStarts(rest: string)
    ensures "=" + rest != [] && !IsSpace(("=" + rest)[0])
  {
  }

  /** The parts of an assignment and the text behind it, grouped to the right. */
  lemma Regrouped(lead: string, key: string, middle: string, after: string, value: string, rest: string)
    ensures PrintAssignment(lead, key, middle, after, value) + rest
            == lead + (key + (middle + ("=" + (after + (value + (";" + rest))))))
  {
    hide *;
    Regroup(value, ";", rest);
    Regroup(after, value + ";", rest);
    Regroup("=", after + (value + ";"), rest);
    Regroup(middle, "=" + (after + (value + ";")), rest);
    Regroup(key, middle + ("=" + (after + (value + ";"))), rest);
    Regroup(lead, key + (middle + ("=" + (after + (value + ";")))), rest);
    AssignmentText(lead, key, middle, after, value);
  }

  lemma AssignmentText(lead: string, key: string, middle: string, after: string, value: string)
    ensures PrintAssignment(lead, key, middle, after, value) == lead + (key + (middle + ("=" + (after + (value + ";")))))
    ensures |PrintAssignment(lead, key, middle, after, value)| == |lead| + |key| + |middle| + 1 + |after| + |value| + 1
  {
  }

  lemma Regroup(a: string, b: string, c: string)
    ensures (a + b) + c == a + (b + c)
  {
  }

  /** An assignment is matched, whatever white space it has. */
  lemma AssignmentFound(s: string, i: nat, lead: string, key: seq<StringChar>, middle: string, after: string,
                        value: seq<StringChar>, rest: string, source: Option<string>)
    requires IsBlankText(lead) && ValidChars(key) && IsBlankText(middle) && IsBlankText(after) && ValidChars(value)
    requires Rests(s, i, PrintAssignment(lead, PrintString(key), middle, after, PrintString(value)) + rest)
    requires i <= |s| && InfoPlist.AtLineStart(s, i)
    ensures var text := PrintAssignment(lead, PrintString(key), middle, after, PrintString(value));
            InfoPlist.AssignmentAt(s, i, source)
            == Some(InfoPlist.Match(i + |text|, source, PrintString(key), PrintString(value)))
  {
    hide InfoPlist.LiteralEnd, InfoPlist.SpaceEnd, InfoPlist.TextEnd, InfoPlist.AtLineStart, PrintString, IsBlankText,
      ValidChars, Rests, PrintAssignment;
    var k, v := PrintString(key), PrintString(value);
    Regrouped(lead, k, middle, after, v, rest);
    AssignmentText(lead, k, middle, after, v);
    var r5 := v + (";" + rest);
    var r4 := after + r5;
    var r2 := middle + ("=" + r4);
    LiteralStarts(key, r2);
    SpaceFound(s, i, lead, k + r2);
    var keyStart := i + |lead|;
    LiteralFound(s, keyStart, key, r2);
    EqualsStarts(r4);
    SpaceFound(s, keyStart + |k|, middle, "=" + r4);
    var equals := keyStart + |k| + |middle|;
    TextFound(s, equals, "=", r4);
    LiteralStarts(value, ";" + rest);
    SpaceFound(s, equals + 1, after, r5);
    var valueStart := equals + 1 + |after|;
    LiteralFound(s, valueStart, value, ";" + rest);
    TextFound(s, valueStart + |v|, ";", rest);
  }

  lemma CommentFound(s: string, i: nat, source: seq<StringChar>, rest: string)
    requires ValidChars(source) && Rests(s, i, PrintComment(Some(source)) + rest)
    requires i <= |s| && InfoPlist.AtLineStart(s, i)
    ensures var end := i + |PrintComment(Some(source))|;
            InfoPlist.CommentAt(s, i) == Some((end, PrintString(source))) && Rests(s, end, rest)
            && InfoPlist.AtLineStart(s, end)
  {
    hide InfoPlist.LiteralEnd, InfoPlist.TextEnd, PrintString, ValidChars, Rests;
    var open, q, close := InfoPlist.SOURCE_OPEN, PrintString(source), InfoPlist.SOURCE_CLOSE;
    var comment := PrintComment(Some(source));
    Passed(s, i, comment, rest);
    assert comment[|comment| - 1] == '\n';
    assert comment + rest == open + (q + (close + rest));
    TextFound(s, i, open, q + (close + rest));
    LiteralFound(s, i + |open|, source, close + rest);
    TextFound(s, i + |open| + |q|, close, rest);
  }

  lemma NoCommentHere(s: string, i: nat, rest: string)
    requires Rests(s, i, rest) && rest != [] && rest[0] != '/'
    ensures i <= |s| && InfoPlist.CommentAt(s, i) == None
  {
    assert InfoPlist.SOURCE_OPEN[0] == '/';
  }

  // ---- the lines of a file ----

  /** The match of an assignment that starts at the given place. */
  function MatchOf(item: Item, start: nat): InfoPlist.Match
    requires item.Assignment?
  {
    InfoPlist.Match(start + |PrintItem(item)|, if item.source.None? then None else Some(PrintString(item.source.value)),
                    PrintString(item.key), PrintString(item.value))
  }

  lemma AssignmentIsMatched(s: string, i: nat, item: Item, rest: string)
    requires ValidItem(item) && item.Assignment? && Rests(s, i, PrintItem(item) + rest)
    requires i <= |s| && InfoPlist.AtLineStart(s, i)
    ensures InfoPlist.MatchAt(s, i) == Some(MatchOf(item, i))
  {
    hide InfoPlist.AssignmentAt, InfoPlist.CommentAt, InfoPlist.AtLineStart, PrintString, PrintAssignment, PrintComment,
      IsBlankText, ValidChars, Rests;
    var text := PrintAssignment(item.lead, PrintString(item.key), item.middle, item.after, PrintString(item.value));
    var comment := PrintComment(item.source);
    Regroup(comment, text, rest);
    if item.source.None? {
      NoComment();
      assert comment + text == text;
      AssignmentFound(s, i, item.lead, item.key, item.middle, item.after, item.value, rest, None);
      AssignmentStarts(item, rest);
      NoCommentHere(s, i, text + rest);
    } else {
      CommentFound(s, i, item.source.value, text + rest);
      AssignmentFound(s, i + |comment|, item.lead, item.key, item.middle, item.after, item.value, rest,
                      Some(PrintString(item.source.value)));
    }
  }

  lemma NoComment()
    ensures PrintComment(None) == ""
  {
  }

  lemma AssignmentStarts(item: Item, rest: string)
    requires ValidItem(item) && item.Assignment?
    ensures var text := PrintAssignment(item.lead, PrintString(item.key), item.middle, item.after, PrintString(item.value)) + rest;
            text != [] && text[0] != '/'
  {
    LiteralStarts(item.key, []);
    assert item.lead != [] ==> IsSpace(item.lead[0]);
  }

  lemma OtherIsNotMatched(s: string, i: nat, text: string, rest: string)
    requires IsOtherLine(text) && rest != [] && EndsLine(rest[0]) && Rests(s, i, text + rest)
    ensures i <= |s| && InfoPlist.MatchAt(s, i) == None
  {
    hide InfoPlist.TextEnd;
    assert s[i] == s[i..][0] == text[0];
    assert InfoPlist.SpaceEnd(s, i) == i && InfoPlist.LiteralEnd(s, i) == None;
    NoLiteralAfterOpen(s, i, text, rest);
  }

  /** A comment's opening in another line is followed by no literal. */
  lemma NoLiteralAfterOpen(s: string, i: nat, text: string, rest: string)
    requires IsOtherLine(text) && rest != [] && EndsLine(rest[0]) && Rests(s, i, text + rest)
    ensures i <= |s| && InfoPlist.CommentAt(s, i) == None
  {
    var end := i + |InfoPlist.SOURCE_OPEN|;
    if InfoPlist.SOURCE_OPEN <= s[i..] {
      OpenEndsInLine(InfoPlist.SOURCE_OPEN, text, rest);
      assert s[end] == (text + rest)[|InfoPlist.SOURCE_OPEN|] != '"';
    }
  }

  lemma OpenEndsInLine(open: string, text: string, rest: string)
    requires rest != [] && open <= text + rest && rest[0] !in open
    ensures |open| <= |text|
  {
    var line := text + rest;
    assert line[|text|] == rest[0];
    assert forall i :: 0 <= i < |open| ==> open[i] == line[i];
  }

  lemma {:induction false} Skipped(s: string, i: nat, j: nat)
    requires i <= j <= |s|
    requires forall l :: i <= l < j ==> InfoPlist.MatchAt(s, l).None?
    ensures InfoPlist.Matches(s, i) == InfoPlist.Matches(s, j)
    decreases j - i
  {
    hide InfoPlist.MatchAt, InfoPlist.Matches;
    if i < j {
      InfoPlistRoundTrip.MatchesStep(s, i);
      Skipped(s, i + 1, j);
    }
  }

  /** The matches of the printed lines. */
  function MatchesOf(lines: seq<Line>, start: nat): seq<InfoPlist.Match> {
    if lines == [] then []
    else
      (if lines[0].item.Assignment? then [MatchOf(lines[0].item, start)] else [])
      + MatchesOf(lines[1..], start + |PrintItem(lines[0].item)| + 1)
  }

  /** Parsing finds exactly the assignments of a file. */
  lemma {:induction false} LinesAreMatched(s: string, i: nat, lines: seq<Line>)
    requires Rests(s, i, PrintLines(lines)) && ValidLines(lines)
    requires i <= |s| && InfoPlist.AtLineStart(s, i)
    ensures InfoPlist.Matches(s, i) == MatchesOf(lines, i)
    decreases |lines|
  {
    hide InfoPlist.MatchAt, InfoPlist.Matches, PrintItem, ValidItem, EndsLine, InfoPlist.AtLineStart, Rests;
    if lines == [] {
      AtEnd(s, i);
    } else {
      var item, end, tail := lines[0].item, lines[0].end, PrintLines(lines[1..]);
      var line := PrintItem(item);
      Regroup(line, [end], tail);
      Passed(s, i, line, [end] + tail);
      Passed(s, i + |line|, [end], tail);
      var next := i + |line| + 1;
      LineStartsAfter(s, next, end);
      LinesAreMatched(s, next, lines[1..]);
      if item.Assignment? {
        AssignmentIsMatched(s, i, item, [end] + tail);
        AssignmentEnds(item);
        InfoPlistRoundTrip.NoMatchInsideLine(s, i + |line|);
        InfoPlistRoundTrip.MatchesStep(s, i);
        Skipped(s, i + |line|, next);
      } else {
        NothingInOther(s, i, item, [end] + tail);
        Skipped(s, i, next);
      }
    }
  }

  lemma AtEnd(s: string, i: nat)
    requires Rests(s, i, [])
    ensures i == |s| && InfoPlist.Matches(s, i) == []
  {
  }

  lemma LineStartsAfter(s: string, i: nat, end: char)
    requires 0 < i <= |s| && s[i - 1] == end && EndsLine(end)
    ensures InfoPlist.AtLineStart(s, i)
  {
  }

  lemma AssignmentEnds(item: Item)
    requires item.Assignment?
    ensures PrintItem(item) != [] && PrintItem(item)[|PrintItem(item)| - 1] == ';'
  {
  }

  lemma NothingInOther(s: string, i: nat, item: Item, rest: string)
    requires ValidItem(item) && item.Other? && rest != [] && EndsLine(rest[0]) && Rests(s, i, PrintItem(item) + rest)
    ensures i + |PrintItem(item)| <= |s|
    ensures forall l :: i <= l <= i + |PrintItem(item)| ==> InfoPlist.MatchAt(s, l).None?
  {
    hide InfoPlist.MatchAt, Rests;
    var line := PrintItem(item);
    Passed(s, i, line, rest);
    OtherIsNotMatched(s, i, item.text, rest);
    forall l | i < l <= i + |line| ensures InfoPlist.MatchAt(s, l).None? {
      assert s[i + (l - 1 - i)] == line[l - 1 - i];
      InfoPlistRoundTrip.NoMatchInsideLine(s, l);
    }
  }

  // ---- what parsing gives ----

  function RecordedFrom(before: map<string, InfoPlist.Translation>, lines: seq<Line>): map<string, InfoPlist.Translation>
    decreases |lines|
  {
    if lines == [] then before else RecordedFrom(Recorded(before, lines[0].item), lines[1..])
  }

  lemma {:induction false} RecordedIsMeaning(lines: seq<Line>, k: nat)
    requires k <= |lines|
    ensures RecordedFrom(MeaningUpTo(lines, k), lines[k..]) == MeaningUpTo(lines, |lines|)
    decreases |lines| - k
  {
    if k < |lines| {
      RecordedIsMeaning(lines, k + 1);
      assert lines[k..][1..] == lines[k + 1..];
    }
  }

  /** Reading on from the first |done| matches. */
  lemma {:induction false} ParsedFrom(done: seq<InfoPlist.Match>, lines: seq<Line>, start: nat,
                                      before: map<string, InfoPlist.Translation>)
    requires ValidLines(lines)
    requires var matches := done + MatchesOf(lines, start);
             InfoPlist.ParsedUpTo(matches, |done|) == Some(before)
    ensures var matches := done + MatchesOf(lines, start);
            InfoPlist.ParsedUpTo(matches, |matches|) == Some(RecordedFrom(before, lines))
    decreases |lines|
  {
    hide PrintItem, ValidItem, EndsLine, Recorded, InfoPlist.ParsedUpTo;
    var matches := done + MatchesOf(lines, start);
    if lines == [] {
      assert matches == done;
    } else {
      var next := start + |PrintItem(lines[0].item)| + 1;
      if lines[0].item.Assignment? {
        var m := MatchOf(lines[0].item, start);
        assert matches == (done + [m]) + MatchesOf(lines[1..], next);
        MatchIsRead(matches, |done|, before, lines[0].item, start);
        ParsedFrom(done + [m], lines[1..], next, Recorded(before, lines[0].item));
      } else {
        assert matches == done + MatchesOf(lines[1..], next);
        OtherSaysNothing(before, lines[0].item);
        ParsedFrom(done, lines[1..], next, before);
      }
    }
  }

  lemma OtherSaysNothing(before: map<string, InfoPlist.Translation>, item: Item)
    requires item.Other?
    ensures Recorded(before, item) == before
  {
  }

  lemma MatchIsRead(matches: seq<InfoPlist.Match>, k: nat, before: map<string, InfoPlist.Translation>, item: Item, start: nat)
    requires k < |matches| && item.Assignment? && ValidItem(item) && matches[k] == MatchOf(item, start)
    requires InfoPlist.ParsedUpTo(matches, k) == Some(before)
    ensures InfoPlist.ParsedUpTo(matches, k + 1) == Some(Recorded(before, item))
  {
    hide Parse, Meaning, PrintString, ValidChars, PrintItem;
    LiteralIsRead(item.key);
    LiteralIsRead(item.value);
    if item.source.Some? {
      LiteralIsRead(item.source.value);
    }
  }

  /** Every file made of assignments and other lines is parsed as what it means. */
  lemma FileIsParsed(lines: seq<Line>)
    requires ValidLines(lines)
    ensures InfoPlist.ParsedFile(PrintLines(lines)) == Some(MeaningUpTo(lines, |lines|))
  {
    hide PrintLines, MatchesOf, ValidLines, RecordedFrom, InfoPlist.Matches;
    LinesAreMatched(PrintLines(lines), 0, lines);
    assert [] + MatchesOf(lines, 0) == MatchesOf(lines, 0);
    ParsedFrom([], lines, 0, map[]);
    RecordedIsMeaning(lines, 0);
    assert lines[0..] == lines;
  }
}
