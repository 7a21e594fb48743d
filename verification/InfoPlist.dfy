/** The localized InfoPlist files: rendering, parsing back, and rendering again. */
module InfoPlist {
  import opened Sequences
  import opened Text
  import opened JsonString
  import opened TranslationChoice

  // ---- the pattern that finds the lines of a strings file ----

  predicate IsLineTerminator(c: char) {
    c == '\n' || c == '\r' || c == '\U{2028}' || c == '\U{2029}'
  }

  /** The end of the text `"(?:\\.|[^"\\])*"` matches at i. The two alternatives and the closing quote
      exclude each other by their first character, so there is at most one. */
  function LiteralEnd(s: string, i: nat): (end: Option<nat>)
    requires i <= |s|
    ensures end.Some? ==> i + 2 <= end.value <= |s|
  {
    if i < |s| && s[i] == '"' then BodyEnd(s, i + 1) else None
  }

  function BodyEnd(s: string, i: nat): (end: Option<nat>)
    requires i <= |s|
    ensures end.Some? ==> i < end.value <= |s|
    decreases |s| - i
  {
    if i == |s| then None
    else if s[i] == '"' then Some(i + 1)
    else if s[i] != '\\' then BodyEnd(s, i + 1)
    else if i + 1 < |s| && !IsLineTerminator(s[i + 1]) then BodyEnd(s, i + 2)
    else None
  }

  /** The end of the run of white space at i. */
  function SpaceEnd(s: string, i: nat): (end: nat)
    requires i <= |s|
    ensures i <= end <= |s|
    decreases |s| - i
  {
    if i < |s| && IsSpace(s[i]) then SpaceEnd(s, i + 1) else i
  }

  predicate AtLineStart(s: string, i: nat)
    requires i <= |s|
  {
    i == 0 || IsLineTerminator(s[i - 1])
  }

  function TextEnd(s: string, i: nat, text: string): (end: Option<nat>)
    requires i <= |s|
    ensures end.Some? ==> end.value == i + |text| <= |s|
  {
    if text <= s[i..] then Some(i + |text|) else None
  }

  /** A match: where it ends, and its captured literals. */
  datatype Match = Match(end: nat, source: Option<string>, key: string, value: string)

  /** `^\s*(literal)\s*=\s*(literal);` at i, after an optional captured source. */
  function AssignmentAt(s: string, i: nat, source: Option<string>): (m: Option<Match>)
    requires i <= |s|
    ensures m.Some? ==> i < m.value.end <= |s|
  {
    var keyStart := SpaceEnd(s, i);
    var keyEnd := LiteralEnd(s, keyStart);
    if !AtLineStart(s, i) || keyEnd.None? then None
    else
      var equals := TextEnd(s, SpaceEnd(s, keyEnd.value), "=");
      if equals.None? then None
      else
        var valueStart := SpaceEnd(s, equals.value);
        var valueEnd := LiteralEnd(s, valueStart);
        if valueEnd.None? || TextEnd(s, valueEnd.value, ";").None? then None
        else Some(Match(valueEnd.value + 1, source, s[keyStart..keyEnd.value], s[valueStart..valueEnd.value]))
  }

  const SOURCE_OPEN := "/* OpenClaw source: "
  const SOURCE_CLOSE := " */\n"

  /** The comment line at i: its end and the literal in it. */
  function CommentAt(s: string, i: nat): (r: Option<(nat, string)>)
    requires i <= |s|
    ensures r.Some? ==> i < r.value.0 <= |s|
  {
    var open := TextEnd(s, i, SOURCE_OPEN);
    if !AtLineStart(s, i) || open.None? then None
    else
      var literalEnd := LiteralEnd(s, open.value);
      if literalEnd.None? then None
      else
        var close := TextEnd(s, literalEnd.value, SOURCE_CLOSE);
        if close.None? then None else Some((close.value, s[open.value..literalEnd.value]))
  }

  /** The whole pattern at i: with the comment if that leads to a match, else without. */
  function MatchAt(s: string, i: nat): (m: Option<Match>)
    requires i <= |s|
    ensures m.Some? ==> i < m.value.end <= |s|
  {
    var comment := CommentAt(s, i);
    var withComment := if comment.Some? then AssignmentAt(s, comment.value.0, Some(comment.value.1)) else None;
    if withComment.Some? then withComment else AssignmentAt(s, i, None)
  }

  /** String.prototype.matchAll from i on. */
  function Matches(s: string, i: nat): seq<Match>
    requires i <= |s|
    decreases |s| - i
  {
    if i == |s| then []
    else
      var m := MatchAt(s, i);
      if m.Some? then [m.value] + Matches(s, m.value.end) else Matches(s, i + 1)
  }

  // ---- the file ----

  datatype Translation = Translation(source: Option<string>, value: string)

  /** A key with its English source, and with the value it is rendered with. */
  datatype PlistEntry = PlistEntry(key: string, source: string)
  datatype Line = Line(entry: PlistEntry, value: string)

  function RenderLine(line: Line): string {
    SOURCE_OPEN + Quote(line.entry.source) + SOURCE_CLOSE + Quote(line.entry.key) + " = " + Quote(line.value) + ";"
  }

  /** The lines, each ended by a line feed. */
  function RenderLines(lines: seq<Line>): string {
    if lines == [] then [] else RenderLine(lines[0]) + "\n" + RenderLines(lines[1..])
  }

  /** The parsed translations after the first k matches; a literal JSON.parse refuses makes the parse throw. */
  function ParsedUpTo(matches: seq<Match>, k: nat): Option<map<string, Translation>>
    requires k <= |matches|
  {
    if k == 0 then Some(map[])
    else
      var before := ParsedUpTo(matches, k - 1);
      var m := matches[k - 1];
      var key, value := Parse(m.key), Parse(m.value);
      var source := if m.source.Some? then Parse(m.source.value) else None;
      if before.None? || key.None? || value.None? || (m.source.Some? && source.None?) then None
      else Some(before.value[key.value := Translation(source, value.value)])
  }

  function ParsedFile(source: string): Option<map<string, Translation>> {
    var matches := Matches(source, 0);
    ParsedUpTo(matches, |matches|)
  }

  method ParseStringsFile(source: string) returns (values: Option<map<string, Translation>>)
    ensures values == ParsedFile(source)
  {
    var matches := Matches(source, 0);
    var parsed: map<string, Translation> := map[];
    for k := 0 to |matches|
      invariant ParsedUpTo(matches, k) == Some(parsed)
    {
      var found := matches[k];
      var key, value := Parse(found.key), Parse(found.value);
      var commented := if found.source.Some? then Parse(found.source.value) else None;
      if key.None? || value.None? || (found.source.Some? && commented.None?) {
        FailureStays(matches, k + 1, |matches|);
        return None;
      }
      parsed := parsed[key.value := Translation(commented, value.value)];
    }
    return Some(parsed);
  }

  lemma {:induction false} FailureStays(matches: seq<Match>, k: nat, n: nat)
    requires k <= n <= |matches| && ParsedUpTo(matches, k).None?
    ensures ParsedUpTo(matches, n).None?
  {
    if k < n {
      FailureStays(matches, k, n - 1);
    }
  }

  // ---- choosing the value of a line ----

  predicate IsBlank(s: string) {
    Trim(s) == []
  }

  function SelectedTranslation(source: string, candidates: seq<string>, existing: Option<Translation>): string {
    var translated := Filter(candidate => !IsBlank(candidate) && Trim(candidate) != Trim(source), candidates);
    if |translated| > 0 then ChosenTranslation(source, translated)
    else if existing.Some? && existing.value.source == Some(source) && !IsBlank(existing.value.value) then existing.value.value
    else source
  }

  function Candidates(artifact: Option<map<string, string>>, id: string): seq<string> {
    if artifact.Some? && id in artifact.value then [artifact.value[id]] else []
  }

  function LineFor(entry: PlistEntry, ids: map<string, string>, artifact: Option<map<string, string>>,
                   existing: map<string, Translation>): Line
    requires entry.source in ids
  {
    var previous := if entry.key in existing then Some(existing[entry.key]) else None;
    Line(entry, SelectedTranslation(entry.source, Candidates(artifact, ids[entry.source]), previous))
  }

  /** Rendering fails only for an entry whose source has no (non-empty) native id. */
  predicate HaveIds(entries: seq<PlistEntry>, ids: map<string, string>) {
    forall i :: 0 <= i < |entries| ==> entries[i].source in ids && ids[entries[i].source] != ""
  }

  function Lines(entries: seq<PlistEntry>, ids: map<string, string>, artifact: Option<map<string, string>>,
                 existing: map<string, Translation>): (lines: seq<Line>)
    requires HaveIds(entries, ids)
    ensures |lines| == |entries|
  {
    seq(|entries|, i requires 0 <= i < |entries| => LineFor(entries[i], ids, artifact, existing))
  }

  function RenderedStrings(entries: seq<PlistEntry>, ids: map<string, string>, artifact: Option<map<string, string>>,
                           existing: map<string, Translation>): Result<string, string> {
    if !HaveIds(entries, ids) then Failure("missing native InfoPlist source id")
    else if entries == [] then Success("\n")
    else Success(RenderLines(Lines(entries, ids, artifact, existing)))
  }
}
