/** Rendering an InfoPlist file, parsing it back and rendering again: when this is a fixed point. */
module InfoPlistRoundTrip {
  import opened Sequences
  import opened Text
  import opened JsonString
  import opened InfoPlist
  import opened TranslationChoice

  // ---- the pattern finds each printed literal whole ----

  lemma UnitShape(c: char)
    ensures var unit := EscapeUnit(c);
            || (unit == [c] && c != '"' && c != '\\')
            || (|unit| == 2 && unit[0] == '\\' && !IsLineTerminator(unit[1]))
            || (|unit| == 6 && unit[0] == '\\' && unit[1] == 'u' && forall j :: 2 <= j < 6 ==> unit[j] != '"' && unit[j] != '\\')
  {
    hide EscapeUnit, HexEscape, CodeUnit;
    EscapeShape(c);
    if CodeUnit(c) < 0x10000 {
      HexShape(CodeUnit(c));
    }
  }

  lemma HexShape(code: nat)
    requires code < 0x10000
    ensures var unit := HexEscape(code);
            |unit| == 6 && unit[0] == '\\' && unit[1] == 'u' && forall j :: 2 <= j < 6 ==> unit[j] != '"' && unit[j] != '\\'
  {
    hide HexDigit;
    DigitIsPlain(code / 16 / 16 / 16);
    DigitIsPlain(code / 16 / 16 % 16);
    DigitIsPlain(code / 16 % 16);
    DigitIsPlain(code % 16);
  }

  lemma DigitIsPlain(n: nat)
    requires n < 16
    ensures HexDigit(n) != '"' && HexDigit(n) != '\\'
  {
  }

  lemma PlainStep(s: string, i: nat)
    requires i < |s| && s[i] != '"' && s[i] != '\\'
    ensures BodyEnd(s, i) == BodyEnd(s, i + 1)
  {
  }

  lemma EscapeStep(s: string, i: nat)
    requires i + 1 < |s| && s[i] == '\\' && !IsLineTerminator(s[i + 1])
    ensures BodyEnd(s, i) == BodyEnd(s, i + 2)
  {
  }

  lemma QuoteStep(s: string, i: nat)
    requires i < |s| && s[i] == '"'
    ensures BodyEnd(s, i) == Some(i + 1)
  {
  }

  lemma BodyOverUnit(s: string, i: nat, c: char)
    requires i + |EscapeUnit(c)| <= |s| && s[i..i + |EscapeUnit(c)|] == EscapeUnit(c)
    ensures BodyEnd(s, i) == BodyEnd(s, i + |EscapeUnit(c)|)
  {
    hide BodyEnd, EscapeUnit;
    var unit := EscapeUnit(c);
    UnitShape(c);
    forall j {:trigger unit[j]} | 0 <= j < |unit| ensures s[i + j] == unit[j] {
      assert s[i..i + |unit|][j] == s[i + j];
    }
    if |unit| == 1 {
      PlainStep(s, i);
    } else {
      EscapeStep(s, i);
      if |unit| == 6 {
        PlainStep(s, i + 2);
        PlainStep(s, i + 3);
        PlainStep(s, i + 4);
        PlainStep(s, i + 5);
      }
    }
  }

  lemma BodyOverFirst(s: string, i: nat, v: string, paired: bool)
    requires v != [] && IsPaired(v, paired)
    requires i + |EscapeFirst(v, paired)| <= |s| && s[i..i + |EscapeFirst(v, paired)|] == EscapeFirst(v, paired)
    ensures BodyEnd(s, i) == BodyEnd(s, i + |EscapeFirst(v, paired)|)
  {
    hide BodyEnd, EscapeUnit;
    if paired || StartsPair(v) {
      assert s[i] == s[i..i + 1][0] == v[0];
      PlainStep(s, i);
    } else {
      BodyOverUnit(s, i, v[0]);
    }
  }

  lemma {:induction false} BodyOverUnits(s: string, i: nat, v: string, paired: bool)
    requires IsPaired(v, paired)
    requires i + |EscapeUnits(v, paired)| < |s| && s[i..i + |EscapeUnits(v, paired)|] == EscapeUnits(v, paired)
    requires s[i + |EscapeUnits(v, paired)|] == '"'
    ensures BodyEnd(s, i) == Some(i + |EscapeUnits(v, paired)| + 1)
    decreases |v|
  {
    hide BodyEnd, EscapeFirst;
    if v == [] {
      QuoteStep(s, i);
    } else {
      var next := !paired && StartsPair(v);
      var unit, units := EscapeFirst(v, paired), EscapeUnits(v[1..], next);
      var whole := s[i..i + |unit + units|];
      assert whole[..|unit|] == unit && whole[|unit|..] == units;
      assert s[i..i + |unit|] == whole[..|unit|];
      assert s[i + |unit|..i + |unit| + |units|] == whole[|unit|..];
      BodyOverFirst(s, i, v, paired);
      BodyOverUnits(s, i + |unit|, v[1..], next);
    }
  }

  lemma LiteralAt(pre: string, v: string, rest: string)
    ensures LiteralIn(pre + Quote(v) + rest, |pre|, Quote(v))
  {
    hide *;
    Middle(pre, Quote(v), rest);
    LiteralInPlace(pre + Quote(v) + rest, |pre|, v);
  }

  /** The pattern for a literal matches q at i, with no white space before it. */
  ghost predicate LiteralIn(s: string, i: nat, q: string) {
    && i + |q| <= |s|
    && LiteralEnd(s, i) == Some(i + |q|)
    && SpaceEnd(s, i) == i
    && s[i..i + |q|] == q
  }

  lemma LiteralInPlace(s: string, i: nat, v: string)
    requires i + |Quote(v)| <= |s| && s[i..i + |Quote(v)|] == Quote(v)
    ensures LiteralIn(s, i, Quote(v))
  {
    hide BodyEnd, EscapeUnits;
    var units := EscapeUnits(v, false);
    QuoteParts(v);
    SubSlice(s, i, Quote(v), 0, 1);
    SubSlice(s, i, Quote(v), 1, 1 + |units|);
    SubSlice(s, i, Quote(v), 1 + |units|, 2 + |units|);
    assert s[i..i + 1][0] == s[i];
    assert s[i + 1 + |units|..i + 2 + |units|][0] == s[i + 1 + |units|];
    BodyOverUnits(s, i + 1, v, false);
  }

  lemma QuoteParts(v: string)
    ensures var n := |EscapeUnits(v, false)|;
            |Quote(v)| == n + 2 && Quote(v)[0..1] == "\"" && Quote(v)[1..1 + n] == EscapeUnits(v, false) && Quote(v)[1 + n..2 + n] == "\""
  {
  }

  lemma SubSlice(s: string, i: nat, m: string, a: nat, b: nat)
    requires i + |m| <= |s| && s[i..i + |m|] == m && a <= b <= |m|
    ensures s[i + a..i + b] == m[a..b]
  {
    forall k | 0 <= k < b - a ensures s[i + a..i + b][k] == m[a..b][k] {
      assert m[a + k] == s[i..i + |m|][a + k];
    }
  }

  lemma Middle(a: string, m: string, z: string)
    ensures (a + m + z)[|a|..|a| + |m|] == m
    ensures m != [] ==> (a + m + z)[|a|] == m[0]
  {
  }

  lemma TextAt(pre: string, text: string, rest: string)
    ensures TextEnd(pre + text + rest, |pre|, text) == Some(|pre| + |text|)
  {
    assert (pre + text + rest)[|pre|..] == text + rest;
  }

  lemma SpaceBefore(pre: string, c: char, rest: string)
    requires !IsSpace(c)
    ensures SpaceEnd(pre + " " + [c] + rest, |pre|) == |pre| + 1
  {
    var s := pre + " " + [c] + rest;
    assert s[|pre|] == ' ' && s[|pre| + 1] == c;
  }

  lemma CommentIsFound(pre: string, source: string, rest: string)
    requires AtLineStart(pre, |pre|)
    ensures var comment := SOURCE_OPEN + Quote(source) + SOURCE_CLOSE;
            CommentAt(pre + comment + rest, |pre|) == Some((|pre| + |comment|, Quote(source)))
  {
    hide LiteralEnd, SpaceEnd, TextEnd, Quote;
    var s := pre + (SOURCE_OPEN + Quote(source) + SOURCE_CLOSE) + rest;
    assert AtLineStart(s, |pre|);
    assert s == pre + SOURCE_OPEN + (Quote(source) + SOURCE_CLOSE + rest);
    TextAt(pre, SOURCE_OPEN, Quote(source) + SOURCE_CLOSE + rest);
    assert s == (pre + SOURCE_OPEN) + Quote(source) + (SOURCE_CLOSE + rest);
    LiteralAt(pre + SOURCE_OPEN, source, SOURCE_CLOSE + rest);
    assert s == (pre + SOURCE_OPEN + Quote(source)) + SOURCE_CLOSE + rest;
    TextAt(pre + SOURCE_OPEN + Quote(source), SOURCE_CLOSE, rest);
  }

  lemma AssignmentIsFound(pre: string, key: string, value: string, rest: string, source: Option<string>)
    requires AtLineStart(pre, |pre|)
    ensures var assignment := Quote(key) + " = " + Quote(value) + ";";
            AssignmentAt(pre + assignment + rest, |pre|, source)
            == Some(Match(|pre| + |assignment|, source, Quote(key), Quote(value)))
  {
    hide LiteralEnd, SpaceEnd, TextEnd, Quote, AtLineStart;
    var q, v := Quote(key), Quote(value);
    var s := pre + (q + " = " + v + ";") + rest;
    KeyIsFound(pre, key, v + ";" + rest, s);
    ValueIsFound(pre + q + " =", value, rest, s);
    LineStartKept(pre, (q + " = " + v + ";") + rest, s);
  }

  lemma LineStartKept(pre: string, rest: string, s: string)
    requires AtLineStart(pre, |pre|) && s == pre + rest
    ensures AtLineStart(s, |pre|)
  {
  }

  lemma KeyIsFound(pre: string, key: string, rest: string, s: string)
    requires s == pre + Quote(key) + " = " + rest
    ensures var i := |pre|; var end := i + |Quote(key)|;
            && SpaceEnd(s, i) == i && LiteralEnd(s, i) == Some(end) && s[i..end] == Quote(key)
            && SpaceEnd(s, end) == end + 1 && TextEnd(s, end + 1, "=") == Some(end + 2)
  {
    hide LiteralEnd, SpaceEnd, TextEnd, Quote;
    var q := Quote(key);
    assert s == pre + q + (" = " + rest);
    LiteralAt(pre, key, " = " + rest);
    assert s == (pre + q) + " " + ['='] + (" " + rest);
    SpaceBefore(pre + q, '=', " " + rest);
    assert s == (pre + q + " ") + "=" + (" " + rest);
    TextAt(pre + q + " ", "=", " " + rest);
  }

  lemma ValueIsFound(pre: string, value: string, rest: string, s: string)
    requires s == pre + " " + Quote(value) + ";" + rest
    ensures var i := |pre|; var end := i + 1 + |Quote(value)|;
            && SpaceEnd(s, i) == i + 1 && LiteralEnd(s, i + 1) == Some(end) && s[i + 1..end] == Quote(value)
            && TextEnd(s, end, ";") == Some(end + 1)
  {
    hide LiteralEnd, SpaceEnd, TextEnd, Quote, LiteralIn;
    var v := Quote(value);
    QuoteStarts(value);
    Regroup(pre, v, rest);
    SpaceBefore(pre, '"', v[1..] + ";" + rest);
    LiteralAt(pre + " ", value, ";" + rest);
    LiteralInUnfolds(s, |pre| + 1, v);
    TextAt(pre + " " + v, ";", rest);
  }

  lemma QuoteStarts(v: string)
    ensures Quote(v) != [] && Quote(v) == ['"'] + Quote(v)[1..]
  {
  }

  lemma LiteralInUnfolds(s: string, i: nat, q: string)
    requires LiteralIn(s, i, q)
    ensures i + |q| <= |s| && LiteralEnd(s, i) == Some(i + |q|) && SpaceEnd(s, i) == i && s[i..i + |q|] == q
  {
  }

  lemma Regroup(pre: string, v: string, rest: string)
    requires v != [] && v == ['"'] + v[1..]
    ensures var s := pre + " " + v + ";" + rest;
            && s == pre + " " + ['"'] + (v[1..] + ";" + rest)
            && s == (pre + " ") + v + (";" + rest)
            && s == (pre + " " + v) + ";" + rest
  {
    assert pre + " " + v == pre + " " + ['"'] + v[1..];
  }

  function MatchOf(line: Line, start: nat): Match {
    Match(start + |RenderLine(line)|, Some(Quote(line.entry.source)), Quote(line.entry.key), Quote(line.value))
  }

  lemma LineIsMatched(pre: string, line: Line, rest: string)
    requires AtLineStart(pre, |pre|)
    ensures MatchAt(pre + RenderLine(line) + rest, |pre|) == Some(MatchOf(line, |pre|))
  {
    hide CommentAt, AssignmentAt, Quote;
    var comment := SOURCE_OPEN + Quote(line.entry.source) + SOURCE_CLOSE;
    var assignment := Quote(line.entry.key) + " = " + Quote(line.value) + ";";
    assert RenderLine(line) == comment + assignment;
    var s := pre + RenderLine(line) + rest;
    assert s == pre + comment + (assignment + rest);
    CommentIsFound(pre, line.entry.source, assignment + rest);
    assert s == (pre + comment) + assignment + rest;
    assert (pre + comment)[|pre + comment| - 1] == '\n';
    AssignmentIsFound(pre + comment, line.entry.key, line.value, rest, Some(Quote(line.entry.source)));
  }

  /** No match begins right after a semicolon. */
  lemma NoMatchInsideLine(s: string, i: nat)
    requires 0 < i <= |s| && !IsLineTerminator(s[i - 1])
    ensures MatchAt(s, i).None?
  {
  }

  function MatchesOf(lines: seq<Line>, start: nat): seq<Match> {
    if lines == [] then []
    else [MatchOf(lines[0], start)] + MatchesOf(lines[1..], start + |RenderLine(lines[0])| + 1)
  }

  lemma {:induction false} LinesAreMatched(pre: string, lines: seq<Line>)
    requires AtLineStart(pre, |pre|)
    ensures Matches(pre + RenderLines(lines), |pre|) == MatchesOf(lines, |pre|)
    decreases |lines|
  {
    hide Matches, MatchAt, RenderLine, AtLineStart;
    var s := pre + RenderLines(lines);
    MatchesStep(s, |pre|);
    if lines == [] {
      assert s == pre;
    } else {
      var first := RenderLine(lines[0]);
      var after := "\n" + RenderLines(lines[1..]);
      assert s == pre + first + after;
      LineIsMatched(pre, lines[0], after);
      var end := |pre| + |first|;
      LineEndsWithSemicolon(lines[0]);
      assert s[end - 1] == first[|first| - 1] == ';';
      NoMatchInsideLine(s, end);
      MatchesStep(s, end);
      assert s == (pre + first + "\n") + RenderLines(lines[1..]);
      LineFeedStartsLine(pre + first);
      LinesAreMatched(pre + first + "\n", lines[1..]);
    }
  }

  lemma MatchesStep(s: string, i: nat)
    requires i <= |s|
    ensures Matches(s, i) == if i == |s| then []
                             else if MatchAt(s, i).Some? then [MatchAt(s, i).value] + Matches(s, MatchAt(s, i).value.end)
                             else Matches(s, i + 1)
  {
  }

  lemma LineEndsWithSemicolon(line: Line)
    ensures RenderLine(line) != [] && RenderLine(line)[|RenderLine(line)| - 1] == ';'
  {
  }

  lemma LineFeedStartsLine(pre: string)
    ensures AtLineStart(pre + "\n", |pre| + 1)
  {
  }

  // ---- parsing gives back the lines ----

  /** Line i is the last of the first k lines with its key. */
  ghost predicate IsLastOfKey(lines: seq<Line>, k: nat, i: nat)
    requires k <= |lines|
  {
    i < k && forall j :: i < j < k ==> lines[j].entry.key != lines[i].entry.key
  }

  /** The translations a file with these lines holds: for each key, those of its last line. */
  ghost predicate HoldsLines(values: map<string, Translation>, lines: seq<Line>, k: nat)
    requires k <= |lines|
  {
    && (forall i :: 0 <= i < k && IsLastOfKey(lines, k, i) ==>
                      && lines[i].entry.key in values
                      && values[lines[i].entry.key] == Translation(Some(lines[i].entry.source), lines[i].value))
    && forall key :: key in values ==> exists i :: 0 <= i < k && lines[i].entry.key == key
  }

  lemma {:induction false} MatchesOfAt(lines: seq<Line>, start: nat, i: nat)
    requires i < |lines|
    ensures |MatchesOf(lines, start)| == |lines|
    ensures var m := MatchesOf(lines, start)[i];
            m.source == Some(Quote(lines[i].entry.source)) && m.key == Quote(lines[i].entry.key) && m.value == Quote(lines[i].value)
  {
    hide RenderLine, Quote;
    if i > 0 {
      MatchesOfAt(lines[1..], start + |RenderLine(lines[0])| + 1, i - 1);
    } else if |lines| > 1 {
      MatchesOfAt(lines[1..], start + |RenderLine(lines[0])| + 1, 0);
    }
  }

  lemma {:induction false} ParsedLines(lines: seq<Line>, k: nat) returns (values: map<string, Translation>)
    requires k <= |lines| == |MatchesOf(lines, 0)|
    ensures ParsedUpTo(MatchesOf(lines, 0), k) == Some(values) && HoldsLines(values, lines, k)
  {
    hide MatchesOf, Quote, Parse, HoldsLines;
    if k == 0 {
      values := map[];
      NothingHeld(lines);
    } else {
      var before := ParsedLines(lines, k - 1);
      var line := lines[k - 1];
      MatchesOfAt(lines, 0, k - 1);
      ParseInvertsQuote(line.entry.source);
      ParseInvertsQuote(line.entry.key);
      ParseInvertsQuote(line.value);
      values := before[line.entry.key := Translation(Some(line.entry.source), line.value)];
      LineHeld(before, lines, k);
    }
  }

  lemma NothingHeld(lines: seq<Line>)
    ensures HoldsLines(map[], lines, 0)
  {
  }

  lemma LineHeld(before: map<string, Translation>, lines: seq<Line>, k: nat)
    requires 0 < k <= |lines| && HoldsLines(before, lines, k - 1)
    ensures var line := lines[k - 1];
            HoldsLines(before[line.entry.key := Translation(Some(line.entry.source), line.value)], lines, k)
  {
    var line := lines[k - 1];
    var values := before[line.entry.key := Translation(Some(line.entry.source), line.value)];
    forall i | 0 <= i < k && IsLastOfKey(lines, k, i)
      ensures lines[i].entry.key in values
              && values[lines[i].entry.key] == Translation(Some(lines[i].entry.source), lines[i].value)
    {
      assert i < k - 1 ==> IsLastOfKey(lines, k - 1, i) && lines[k - 1].entry.key != lines[i].entry.key;
    }
    forall key | key in values ensures exists i :: 0 <= i < k && lines[i].entry.key == key {
      if key == line.entry.key {
        assert lines[k - 1].entry.key == key;
      } else {
        var i :| 0 <= i < k - 1 && lines[i].entry.key == key;
      }
    }
  }

  /** Round trip: a rendered file parses to the last line of each of its keys. */
  lemma ParseInvertsRender(lines: seq<Line>) returns (values: map<string, Translation>)
    ensures ParsedFile(RenderLines(lines)) == Some(values) && HoldsLines(values, lines, |lines|)
  {
    hide Matches, RenderLines, MatchesOf, ParsedUpTo, HoldsLines;
    assert [] + RenderLines(lines) == RenderLines(lines);
    LinesAreMatched([], lines);
    MatchesLength(lines, 0);
    values := ParsedLines(lines, |lines|);
  }

  /** No two lists of lines are rendered alike. */
  lemma RenderIsInjective(a: seq<Line>, b: seq<Line>)
    requires |a| == |b| && RenderLines(a) == RenderLines(b)
    ensures a == b
  {
    hide Matches, RenderLines, MatchesOf, Quote, Parse;
    assert [] + RenderLines(a) == RenderLines(a) && [] + RenderLines(b) == RenderLines(b);
    LinesAreMatched([], a);
    LinesAreMatched([], b);
    forall i | 0 <= i < |a| ensures a[i] == b[i] {
      MatchesOfAt(a, 0, i);
      MatchesOfAt(b, 0, i);
      QuoteIsInjective(a[i].entry.source, b[i].entry.source);
      QuoteIsInjective(a[i].entry.key, b[i].entry.key);
      QuoteIsInjective(a[i].value, b[i].value);
    }
  }

  lemma QuoteIsInjective(v: string, w: string)
    ensures Quote(v) == Quote(w) ==> v == w
  {
    hide Quote, Parse;
    ParseInvertsQuote(v);
    ParseInvertsQuote(w);
  }

  lemma {:induction false} MatchesLength(lines: seq<Line>, start: nat)
    ensures |MatchesOf(lines, start)| == |lines|
  {
    hide RenderLine;
    if lines != [] {
      MatchesLength(lines[1..], start + |RenderLine(lines[0])| + 1);
    }
  }

  // ---- what is selected ----

  /** A candidate that is a translation. */
  predicate IsUsable(source: string, candidate: string) {
    !IsBlank(candidate) && Trim(candidate) != Trim(source)
  }

  /** If some candidate is a translation, the preferred one of these is selected; else the existing value if
      it belongs to the source and is not blank; and else the source. */
  lemma SelectionExactly(source: string, candidates: seq<string>, existing: Option<Translation>, usable: multiset<string>)
    requires forall c :: usable[c] == if IsUsable(source, c) then multiset(candidates)[c] else 0
    ensures var value := SelectedTranslation(source, candidates, existing);
            if exists c :: c in candidates && IsUsable(source, c) then IsChoice(source, usable, value)
            else if existing.Some? && existing.value.source == Some(source) && !IsBlank(existing.value.value)
            then value == existing.value.value
            else value == source
  {
    hide IsBlank, Trim, ChosenTranslation, IsChoice;
    var keep := (candidate: string) => !IsBlank(candidate) && Trim(candidate) != Trim(source);
    var translated := Filter(keep, candidates);
    forall c ensures multiset(translated)[c] == usable[c] {
      FilterCount(keep, candidates, c);
    }
    assert multiset(translated) == usable;
    assert translated != [] ==> translated[0] in multiset(translated) && translated[0] in usable;
    if c :| c in candidates && IsUsable(source, c) {
      assert c in multiset(candidates) && c in usable && c in multiset(translated);
      ChosenIsChoice(source, translated);
    } else {
      assert forall c :: c in usable ==> c in multiset(candidates);
    }
  }

  /** An entry that the artifact translates is rendered with that translation. */
  lemma TranslatedEntryIsRendered(entry: PlistEntry, ids: map<string, string>, translations: map<string, string>,
                                  existing: map<string, Translation>)
    requires entry.source in ids && ids[entry.source] in translations
    requires IsUsable(entry.source, translations[ids[entry.source]])
    ensures LineFor(entry, ids, Some(translations), existing) == Line(entry, translations[ids[entry.source]])
  {
    hide IsBlank, Trim, SelectedTranslation;
    var text := translations[ids[entry.source]];
    SelectionExactly(entry.source, [text], if entry.key in existing then Some(existing[entry.key]) else None, multiset{text});
    assert text in [text];
  }

  /** And any other with the existing one, if it belongs to it and is not blank, or else with its source. */
  lemma UntranslatedEntryIsRendered(entry: PlistEntry, ids: map<string, string>, artifact: Option<map<string, string>>,
                                    existing: map<string, Translation>)
    requires entry.source in ids
    requires artifact.Some? && ids[entry.source] in artifact.value ==> !IsUsable(entry.source, artifact.value[ids[entry.source]])
    ensures LineFor(entry, ids, artifact, existing)
            == Line(entry, if entry.key in existing && existing[entry.key].source == Some(entry.source)
                              && !IsBlank(existing[entry.key].value) then existing[entry.key].value else entry.source)
  {
    hide IsBlank, Trim, SelectedTranslation;
    SelectionExactly(entry.source, Candidates(artifact, ids[entry.source]),
                     if entry.key in existing then Some(existing[entry.key]) else None, multiset{});
  }

  /** The file that is written holds, for the last entry of each key, the artifact's translation if it has one. */
  lemma TranslationsReachTheFile(entries: seq<PlistEntry>, ids: map<string, string>, translations: map<string, string>,
                                 existing: map<string, Translation>, i: nat)
    requires IsLastEntry(entries, i) && RenderedStrings(entries, ids, Some(translations), existing).Success?
    requires entries[i].source in ids && ids[entries[i].source] in translations
    requires IsUsable(entries[i].source, translations[ids[entries[i].source]])
    ensures var parsed := ParsedFile(RenderedStrings(entries, ids, Some(translations), existing).value);
            && parsed.Some? && entries[i].key in parsed.value
            && parsed.value[entries[i].key] == Translation(Some(entries[i].source), translations[ids[entries[i].source]])
  {
    hide RenderLines, ParsedFile, LineFor, HoldsLines, IsBlank, Trim;
    var values := ParseInvertsRender(Lines(entries, ids, Some(translations), existing));
    LinesAgain(entries, ids, Some(translations), existing, values, i, i);
    TranslatedEntryIsRendered(entries[i], ids, translations, existing);
  }

  /** Rendering throws exactly if the source of some entry has no id, or an empty one. */
  lemma RenderFailsExactly(entries: seq<PlistEntry>, ids: map<string, string>, artifact: Option<map<string, string>>,
                           existing: map<string, Translation>)
    ensures RenderedStrings(entries, ids, artifact, existing).Failure?
            <==> exists i :: 0 <= i < |entries| && (entries[i].source in ids ==> ids[entries[i].source] == "")
  {
    hide RenderLines, Lines;
  }

  // ---- the fixed point ----

  /** A value chosen once is chosen again when the file it was written to is read back. */
  lemma SelectionIsStable(source: string, candidates: seq<string>, existing: Option<Translation>)
    ensures var value := SelectedTranslation(source, candidates, existing);
            SelectedTranslation(source, candidates, Some(Translation(Some(source), value))) == value
  {
  }

  /** An earlier translation is kept, and seen: no candidate is a translation, and the one there is belongs
      to this source, is not blank and is not the source itself. */
  predicate KeepsEarlier(entry: PlistEntry, ids: map<string, string>, artifact: Option<map<string, string>>,
                         existing: map<string, Translation>)
    requires entry.source in ids
  {
    && (forall c :: c in Candidates(artifact, ids[entry.source]) ==> IsBlank(c) || Trim(c) == Trim(entry.source))
    && entry.key in existing
    && existing[entry.key].source == Some(entry.source)
    && !IsBlank(existing[entry.key].value)
    && existing[entry.key].value != entry.source
  }

  /** Entry i is the last entry with its key, or a copy of it. */
  ghost predicate RepeatsLast(entries: seq<PlistEntry>, i: nat)
    requires i < |entries|
  {
    exists j :: i <= j < |entries| && IsLastEntry(entries, j) && entries[j] == entries[i]
  }

  /** An entry that keeps an earlier translation needs its file to hold it: the last entry with its key has
      to have the same source. */
  ghost predicate IsSettled(entries: seq<PlistEntry>, ids: map<string, string>, artifact: Option<map<string, string>>,
                            existing: map<string, Translation>, i: nat)
    requires HaveIds(entries, ids) && i < |entries|
  {
    KeepsEarlier(entries[i], ids, artifact, existing) ==> RepeatsLast(entries, i)
  }

  /** The guard names exactly the entries whose line depends on what is there already. */
  lemma KeepsEarlierExactly(entry: PlistEntry, ids: map<string, string>, artifact: Option<map<string, string>>,
                            existing: map<string, Translation>)
    requires entry.source in ids
    ensures KeepsEarlier(entry, ids, artifact, existing)
            <==> LineFor(entry, ids, artifact, existing) != LineFor(entry, ids, artifact, map[])
  {
    hide Trim, Filter;
    OneCandidate(entry.source, Candidates(artifact, ids[entry.source]));
  }

  lemma OneCandidate(source: string, candidates: seq<string>)
    requires |candidates| <= 1
    ensures Filter(candidate => !IsBlank(candidate) && Trim(candidate) != Trim(source), candidates) == []
            <==> forall c :: c in candidates ==> IsBlank(c) || Trim(c) == Trim(source)
  {
    hide IsBlank, Trim;
    if candidates != [] {
      assert candidates[..0] == [] && candidates == [candidates[0]];
    }
  }

  ghost predicate IsLastEntry(entries: seq<PlistEntry>, j: nat) {
    j < |entries| && forall l :: j < l < |entries| ==> entries[l].key != entries[j].key
  }

  lemma {:induction false} LastEntryFrom(entries: seq<PlistEntry>, i: nat) returns (j: nat)
    requires i < |entries|
    ensures i <= j < |entries| && IsLastEntry(entries, j) && entries[j].key == entries[i].key
    decreases |entries| - i
  {
    if l :| i < l < |entries| && entries[l].key == entries[i].key {
      j := LastEntryFrom(entries, l);
    } else {
      j := i;
    }
  }

  /** The lines rendered from the parsed file: one whose entry is the last with its key, or a copy of it,
      is as before, and any other is chosen without an earlier translation. */
  lemma LinesAgain(entries: seq<PlistEntry>, ids: map<string, string>, artifact: Option<map<string, string>>,
                   existing: map<string, Translation>, values: map<string, Translation>, i: nat, j: nat)
    requires HaveIds(entries, ids) && i < |entries|
    requires HoldsLines(values, Lines(entries, ids, artifact, existing), |entries|)
    requires i <= j && IsLastEntry(entries, j) && entries[j].key == entries[i].key
    ensures entries[i].key in values
            && values[entries[i].key] == Translation(Some(entries[j].source), LineFor(entries[j], ids, artifact, existing).value)
    ensures LineFor(entries[i], ids, artifact, values)
            == LineFor(entries[i], ids, artifact, if entries[j] == entries[i] then existing else map[])
  {
    hide SelectedTranslation, Candidates, LineFor;
    var lines := Lines(entries, ids, artifact, existing);
    forall l | 0 <= l < |entries| ensures lines[l] == LineFor(entries[l], ids, artifact, existing) && lines[l].entry == entries[l] {
      LineKeepsEntry(entries[l], ids, artifact, existing);
    }
    assert IsLastOfKey(lines, |lines|, j);
    if entries[j] == entries[i] {
      LineIsStable(entries[i], ids, artifact, existing, values);
    } else {
      assert entries[j].source != entries[i].source;
      OtherSourceIsIgnored(entries[i], ids, artifact, values);
    }
  }

  lemma OtherSourceIsIgnored(entry: PlistEntry, ids: map<string, string>, artifact: Option<map<string, string>>,
                             values: map<string, Translation>)
    requires entry.source in ids && entry.key in values && values[entry.key].source != Some(entry.source)
    ensures LineFor(entry, ids, artifact, values) == LineFor(entry, ids, artifact, map[])
  {
  }

  /** Rendering from the file just rendered, with the same artifact, changes nothing if and only if every
      entry that keeps an earlier translation repeats the last entry with its key. */
  lemma RenderIsFixedPoint(entries: seq<PlistEntry>, ids: map<string, string>, artifact: Option<map<string, string>>,
                           existing: map<string, Translation>)
    requires RenderedStrings(entries, ids, artifact, existing).Success?
    ensures var file := RenderedStrings(entries, ids, artifact, existing).value;
            && ParsedFile(file).Some?
            && (RenderedStrings(entries, ids, artifact, ParsedFile(file).value) == Success(file)
                <==> forall i :: 0 <= i < |entries| ==> IsSettled(entries, ids, artifact, existing, i))
  {
    hide SelectedTranslation, RenderLines, ParsedFile, Candidates, LineFor, HoldsLines, KeepsEarlier, RepeatsLast;
    if entries == [] {
      BlankFile();
    } else {
      var lines := Lines(entries, ids, artifact, existing);
      var values := ParseInvertsRender(lines);
      var again := Lines(entries, ids, artifact, values);
      forall i | 0 <= i < |entries| ensures again[i] == lines[i] <==> IsSettled(entries, ids, artifact, existing, i) {
        var j := LastEntryFrom(entries, i);
        LinesAgain(entries, ids, artifact, existing, values, i, j);
        LastIsOne(entries, i, j);
        KeepsEarlierExactly(entries[i], ids, artifact, existing);
      }
      if RenderLines(again) == RenderLines(lines) {
        RenderIsInjective(again, lines);
      }
      assert again == lines <==> forall i :: 0 <= i < |entries| ==> again[i] == lines[i];
    }
  }

  lemma LastIsOne(entries: seq<PlistEntry>, i: nat, j: nat)
    requires i <= j && IsLastEntry(entries, j) && entries[j].key == entries[i].key
    ensures RepeatsLast(entries, i) <==> entries[j] == entries[i]
  {
    forall l | i <= l < |entries| && IsLastEntry(entries, l) && entries[l] == entries[i] ensures l == j {
    }
  }

  /** With no key repeated, or only whole entries, every rendering is a fixed point. */
  lemma DistinctKeysAreSettled(entries: seq<PlistEntry>, ids: map<string, string>, artifact: Option<map<string, string>>,
                               existing: map<string, Translation>, i: nat)
    requires HaveIds(entries, ids) && i < |entries|
    requires forall i, j :: 0 <= i < j < |entries| && entries[i].key == entries[j].key ==> entries[i] == entries[j]
    ensures IsSettled(entries, ids, artifact, existing, i)
  {
    var j := LastEntryFrom(entries, i);
    assert entries[j] == entries[i];
  }

  /** For all entries, repeated keys included, the output is fixed from the second rendering on. */
  lemma SecondRenderingIsFixed(entries: seq<PlistEntry>, ids: map<string, string>, artifact: Option<map<string, string>>,
                               existing: map<string, Translation>)
    requires RenderedStrings(entries, ids, artifact, existing).Success?
    ensures var first := RenderedStrings(entries, ids, artifact, existing).value;
            ParsedFile(first).Some? && RenderedStrings(entries, ids, artifact, ParsedFile(first).value).Success?
    ensures var first := RenderedStrings(entries, ids, artifact, existing).value;
            var second := RenderedStrings(entries, ids, artifact, ParsedFile(first).value).value;
            ParsedFile(second).Some? && RenderedStrings(entries, ids, artifact, ParsedFile(second).value) == Success(second)
  {
    hide SelectedTranslation, RenderLines, ParsedFile, Candidates, LineFor, HoldsLines, KeepsEarlier, RepeatsLast;
    if entries == [] {
      BlankFile();
    } else {
      var lines := Lines(entries, ids, artifact, existing);
      var values := ParseInvertsRender(lines);
      RenderIsFixedPoint(entries, ids, artifact, values);
      forall i | 0 <= i < |entries| ensures IsSettled(entries, ids, artifact, values, i) {
        var j := LastEntryFrom(entries, i);
        LinesAgain(entries, ids, artifact, existing, values, i, j);
        LastIsOne(entries, i, j);
        KeepsEarlierExactly(entries[i], ids, artifact, values);
      }
    }
  }

  const TWO_SOURCES := [PlistEntry("k", "a"), PlistEntry("k", "b")]
  const TWO_IDS := map["a" := "1", "b" := "2"]
  const EARLIER := map["k" := Translation(Some("a"), "x")]

  /** A key with two sources: the translation of the first one is rendered, but the file read back holds
      only the second one, and the next rendering has lost it. */
  lemma RepeatedKeyLosesTranslation()
    ensures RenderedStrings(TWO_SOURCES, TWO_IDS, None, EARLIER).Success?
    ensures var file := RenderedStrings(TWO_SOURCES, TWO_IDS, None, EARLIER).value;
            ParsedFile(file).Some? && RenderedStrings(TWO_SOURCES, TWO_IDS, None, ParsedFile(file).value) != Success(file)
  {
    hide RenderedStrings;
    RenderingSucceeds(TWO_SOURCES, TWO_IDS, None, EARLIER);
    RenderIsFixedPoint(TWO_SOURCES, TWO_IDS, None, EARLIER);
    FirstIsNotSettled();
  }

  lemma RenderingSucceeds(entries: seq<PlistEntry>, ids: map<string, string>, artifact: Option<map<string, string>>,
                          existing: map<string, Translation>)
    requires HaveIds(entries, ids)
    ensures RenderedStrings(entries, ids, artifact, existing).Success?
  {
  }

  lemma FirstIsNotSettled()
    ensures HaveIds(TWO_SOURCES, TWO_IDS) && !IsSettled(TWO_SOURCES, TWO_IDS, None, EARLIER, 0)
  {
    var first := TWO_SOURCES[0];
    assert first.source == "a" && first.key == "k" && TWO_SOURCES[1].source == "b" && "b"[0] != "a"[0] && "x"[0] != "a"[0];
    assert Candidates(None, "1") == [];
    SolidIsNotBlank('x');
  }

  lemma SolidIsNotBlank(c: char)
    requires !IsSpace(c)
    ensures !IsBlank([c])
  {
  }

  lemma LineKeepsEntry(entry: PlistEntry, ids: map<string, string>, artifact: Option<map<string, string>>,
                       existing: map<string, Translation>)
    requires entry.source in ids
    ensures LineFor(entry, ids, artifact, existing).entry == entry
  {
  }

  lemma LineIsStable(entry: PlistEntry, ids: map<string, string>, artifact: Option<map<string, string>>,
                     existing: map<string, Translation>, values: map<string, Translation>)
    requires entry.source in ids && entry.key in values
    requires values[entry.key] == Translation(Some(entry.source), LineFor(entry, ids, artifact, existing).value)
    ensures LineFor(entry, ids, artifact, values) == LineFor(entry, ids, artifact, existing)
  {
    hide SelectedTranslation, Candidates;
    SelectionIsStable(entry.source, Candidates(artifact, ids[entry.source]),
                      if entry.key in existing then Some(existing[entry.key]) else None);
  }

  lemma BlankFile()
    ensures ParsedFile("\n") == Some(map[])
  {
    assert SpaceEnd("\n", 0) == 1;
    assert LiteralEnd("\n", 1) == None;
    assert Matches("\n", 1) == [];
    assert Matches("\n", 0) == [];
  }
}
