/** The escaping of Android string resources and its decoding. Both are chains of replaceAll
    calls; here each chain is shown to act in a single pass. */
module AndroidEscape {
  import opened Text

  /** The chain of replacements that escapes a value. */
  function Escape(value: string): string {
    var s1 := ReplaceAll(value, "\\", "\\\\");
    var s2 := ReplaceAll(s1, "\n", "\\n");
    var s3 := ReplaceAll(s2, "'", "\\'");
    var s4 := ReplaceAll(s3, "\"", "\\\"");
    var s5 := ReplaceAll(s4, "&", "&amp;");
    var s6 := ReplaceAll(s5, "<", "&lt;");
    ReplaceAll(s6, ">", "&gt;")
  }

  /** The chain of replacements that decodes a value. */
  function DecodeXml(value: string): string {
    var s1 := ReplaceAll(value, "&lt;", "<");
    var s2 := ReplaceAll(s1, "&gt;", ">");
    var s3 := ReplaceAll(s2, "&quot;", "\"");
    var s4 := ReplaceAll(s3, "&amp;", "&");
    var s5 := ReplaceAll(s4, "\\n", "\n");
    var s6 := ReplaceAll(s5, "\\'", "'");
    var s7 := ReplaceAll(s6, "\\\"", "\"");
    ReplaceAll(s7, "\\\\", "\\")
  }

  function DecodeResourceValue(rawValue: string): string {
    var trimmed := Trim(rawValue);
    var quoted := trimmed != [] && trimmed[0] == '"' && trimmed[|trimmed| - 1] == '"';
    DecodeXml(if !quoted then trimmed else if |trimmed| < 2 then [] else trimmed[1..|trimmed| - 1])
  }

  /** The quoted form in which an escaped value is written to a resource file. */
  function Quoted(value: string): string {
    "\"" + Escape(value) + "\""
  }

  // ---- escaping in a single pass ----

  function EscapeChar(c: char): string {
    if c == '\\' then "\\\\"
    else if c == '\n' then "\\n"
    else if c == '\'' then "\\'"
    else if c == '"' then "\\\""
    else if c == '&' then "&amp;"
    else if c == '<' then "&lt;"
    else if c == '>' then "&gt;"
    else [c]
  }

  function EscapeOnce(value: string): string {
    if value == [] then [] else EscapeChar(value[0]) + EscapeOnce(value[1..])
  }

  /** The character the given stage of the chain replaces, in the order of the source. */
  function StageChar(stage: nat): char
    requires stage < 7
  {
    "\\\n'\"&<>"[stage]
  }

  /** What the first `stages` replacements make of a single character. */
  function StageToken(stages: nat, c: char): string
    requires stages <= 7
  {
    if c in "\\\n'\"&<>"[..stages] then EscapeChar(c) else [c]
  }

  function StageText(stages: nat, value: string): string
    requires stages <= 7
  {
    if value == [] then [] else StageToken(stages, value[0]) + StageText(stages, value[1..])
  }

  lemma StageOnToken(stage: nat, c: char)
    requires stage < 7
    ensures ReplaceAll(StageToken(stage, c), [StageChar(stage)], EscapeChar(StageChar(stage))) == StageToken(stage + 1, c)
  {
    var all := "\\\n'\"&<>";
    var x := StageChar(stage);
    assert all[..stage + 1] == all[..stage] + [x];
    if c in all[..stage] {
      NoSuchChar(EscapeChar(c), x);
    } else if c == x {
      assert [c][1..] == [];
    } else {
      NoSuchChar([c], x);
    }
  }

  lemma {:induction false} NoSuchChar(s: string, c: char)
    requires c !in s
    ensures ReplaceAll(s, [c], EscapeChar(c)) == s
  {
    if s != [] {
      assert s == [s[0]] + s[1..];
      NoSuchChar(s[1..], c);
    }
  }

  lemma {:induction false} StageOnText(stage: nat, value: string)
    requires stage < 7
    ensures ReplaceAll(StageText(stage, value), [StageChar(stage)], EscapeChar(StageChar(stage))) == StageText(stage + 1, value)
  {
    if value != [] {
      StageOnToken(stage, value[0]);
      StageOnText(stage, value[1..]);
      ReplaceAllChar(StageToken(stage, value[0]), StageText(stage, value[1..]), StageChar(stage), EscapeChar(StageChar(stage)));
    }
  }

  lemma {:induction false} StageBounds(value: string)
    ensures StageText(0, value) == value
    ensures StageText(7, value) == EscapeOnce(value)
  {
    if value != [] {
      StageBounds(value[1..]);
      assert "\\\n'\"&<>"[..0] == [];
      assert "\\\n'\"&<>"[..7] == "\\\n'\"&<>";
      assert EscapeChar(value[0]) != [value[0]] ==> value[0] in "\\\n'\"&<>";
      assert value == [value[0]] + value[1..];
    }
  }

  /** The chain is a single pass: no replacement touches what an earlier one produced. */
  lemma EscapeIsSinglePass(value: string)
    ensures Escape(value) == EscapeOnce(value)
  {
    hide ReplaceAll, StageText, EscapeOnce;
    StageBounds(value);
    StageOnText(0, value);
    StageOnText(1, value);
    StageOnText(2, value);
    StageOnText(3, value);
    StageOnText(4, value);
    StageOnText(5, value);
    StageOnText(6, value);
  }

  // ---- decoding undoes escaping, except for a backslash in front of an n ----

  /** A backslash directly followed by the letter n, which decoding turns into backslash and line feed. */
  predicate AtTrap(value: string) {
    |value| >= 2 && value[0] == '\\' && value[1] == 'n'
  }

  predicate HasTrap(value: string) {
    value != [] && (AtTrap(value) || HasTrap(value[1..]))
  }

  /** The value decoding gives back: each backslash-n has become a backslash and a line feed. */
  function Decoded(value: string): string {
    ReplaceAll(value, "\\n", "\\\n")
  }

  /** What is left of one character of the value after the first `stages` decoding replacements. */
  function DecodeToken(stages: nat, c: char): string
    requires stages <= 8
  {
    if stages >= DecodedAfter(c) then [c] else EscapeChar(c)
  }

  /** The number of decoding replacements after which a character has its own form back. */
  function DecodedAfter(c: char): nat {
    if c == '<' then 1 else if c == '>' then 2 else if c == '&' then 4 else if c == '\n' then 5
    else if c == '\'' then 6 else if c == '"' then 7 else if c == '\\' then 8 else 0
  }

  function DecodeText(stages: nat, value: string): string
    requires stages <= 8
  {
    if value == [] then []
    else if stages >= 5 && AtTrap(value) then "\\\n" + DecodeText(stages, value[2..])
    else DecodeToken(stages, value[0]) + DecodeText(stages, value[1..])
  }

  function StagePattern(stage: nat): (p: string)
    requires stage < 8
    ensures |p| >= 2
  {
    ["&lt;", "&gt;", "&quot;", "&amp;", "\\n", "\\'", "\\\"", "\\\\"][stage]
  }

  function StageReplacement(stage: nat): string
    requires stage < 8
  {
    ["<", ">", "\"", "&", "\n", "'", "\"", "\\"][stage]
  }

  lemma {:induction false} SkipPlain(t: string, r: string, pattern: string, replacement: string)
    requires pattern != [] && pattern[0] !in t
    ensures ReplaceAll(t + r, pattern, replacement) == t + ReplaceAll(r, pattern, replacement)
  {
    if t == [] {
      assert t + r == r;
    } else {
      assert (t + r)[1..] == t[1..] + r;
      SkipPlain(t[1..], r, pattern, replacement);
    }
  }

  lemma SkipMismatch(c: char, r: string, pattern: string, replacement: string)
    requires |pattern| >= 2 && (r == [] || r[0] != pattern[1])
    ensures ReplaceAll([c] + r, pattern, replacement) == [c] + ReplaceAll(r, pattern, replacement)
  {
    assert ([c] + r)[1..] == r;
  }

  lemma Match(r: string, pattern: string, replacement: string)
    requires pattern != []
    ensures ReplaceAll(pattern + r, pattern, replacement) == replacement + ReplaceAll(r, pattern, replacement)
  {
    assert (pattern + r)[|pattern|..] == r;
  }

  /** How the pattern of a stage can meet the token of a character. */
  lemma TokenShape(stage: nat, c: char)
    requires stage < 8
    ensures var t, t', p := DecodeToken(stage, c), DecodeToken(stage + 1, c), StagePattern(stage);
            || (p[0] !in t && t' == t)
            || (t == p && t' == StageReplacement(stage))
            || (c == '\\' && 4 <= stage < 7 && t == "\\\\" && t' == t && p[1] != '\\')
            || (|t| >= 2 && t[1] != p[1] && p[0] !in t[1..] && t' == t)
  {
  }

  /** One decoding replacement acts on the token of one character without looking past it, unless
      the token ends in a backslash and the text goes on with the pattern's second character. */
  lemma StageOnDecodeToken(stage: nat, c: char, r: string)
    requires stage < 8
    requires c == '\\' && 4 <= stage < 7 && r != [] ==> r[0] != StagePattern(stage)[1]
    ensures ReplaceAll(DecodeToken(stage, c) + r, StagePattern(stage), StageReplacement(stage))
            == DecodeToken(stage + 1, c) + ReplaceAll(r, StagePattern(stage), StageReplacement(stage))
  {
    hide ReplaceAll, DecodeToken, StagePattern, StageReplacement;
    TokenShape(stage, c);
    var t, p, q := DecodeToken(stage, c), StagePattern(stage), StageReplacement(stage);
    if p[0] !in t {
      SkipPlain(t, r, p, q);
    } else if t == p {
      Match(r, p, q);
    } else if c == '\\' && 4 <= stage < 7 && t == "\\\\" {
      assert t + r == ['\\'] + (['\\'] + r);
      SkipMismatch('\\', ['\\'] + r, p, q);
      SkipMismatch('\\', r, p, q);
    } else {
      assert t + r == [t[0]] + (t[1..] + r);
      SkipMismatch(t[0], t[1..] + r, p, q);
      SkipPlain(t[1..], r, p, q);
    }
  }

  lemma TextStart(stages: nat, value: string)
    requires stages <= 7
    ensures value == [] ==> DecodeText(stages, value) == []
    ensures value != [] ==> DecodeText(stages, value) != []
                            && DecodeText(stages, value)[0] == DecodeToken(stages, value[0])[0]
  {
  }

  lemma StageOnTrap(stage: nat, r: string)
    requires 5 <= stage < 8
    ensures ReplaceAll("\\\n" + r, StagePattern(stage), StageReplacement(stage))
            == "\\\n" + ReplaceAll(r, StagePattern(stage), StageReplacement(stage))
  {
    hide ReplaceAll;
    var p, q := StagePattern(stage), StageReplacement(stage);
    assert "\\\n" + r == ['\\'] + ("\n" + r);
    SkipMismatch('\\', "\n" + r, p, q);
    SkipPlain("\n", r, p, q);
  }

  /** The replacement that restores line feeds also eats the n of an escaped backslash-n. */
  lemma TrapSprings(r: string)
    ensures ReplaceAll("\\\\" + ("n" + r), StagePattern(4), StageReplacement(4))
            == "\\\n" + ReplaceAll(r, StagePattern(4), StageReplacement(4))
  {
    hide ReplaceAll;
    assert "\\\\" + ("n" + r) == ['\\'] + (StagePattern(4) + r);
    SkipMismatch('\\', StagePattern(4) + r, StagePattern(4), StageReplacement(4));
    Match(r, StagePattern(4), StageReplacement(4));
  }

  lemma {:induction false} StageOnDecodeText(stage: nat, value: string)
    requires stage < 8
    ensures ReplaceAll(DecodeText(stage, value), StagePattern(stage), StageReplacement(stage)) == DecodeText(stage + 1, value)
  {
    hide StagePattern, StageReplacement, ReplaceAll;
    if value == [] {
      NothingToReplace(StagePattern(stage), StageReplacement(stage));
    } else if AtTrap(value) && stage >= 4 {
      StageOnDecodeText(stage, value[2..]);
      if stage >= 5 {
        StageOnTrap(stage, DecodeText(stage, value[2..]));
      } else {
        assert value[1..][1..] == value[2..];
        TrapSprings(DecodeText(stage, value[2..]));
      }
    } else {
      StageOnDecodeText(stage, value[1..]);
      NoOverlap(stage, value);
      StageOnDecodeToken(stage, value[0], DecodeText(stage, value[1..]));
    }
  }

  lemma NothingToReplace(pattern: string, replacement: string)
    requires pattern != []
    ensures ReplaceAll([], pattern, replacement) == []
  {
  }

  lemma NoOverlap(stage: nat, value: string)
    requires stage < 8 && value != [] && !(AtTrap(value) && stage >= 4)
    ensures var r := DecodeText(stage, value[1..]);
            value[0] == '\\' && 4 <= stage < 7 && r != [] ==> r[0] != StagePattern(stage)[1]
  {
    if 4 <= stage < 7 {
      TextStart(stage, value[1..]);
    }
  }

  lemma {:induction false} DecodeBounds(value: string)
    ensures DecodeText(0, value) == EscapeOnce(value)
    ensures DecodeText(8, value) == Decoded(value)
  {
    if value != [] {
      DecodeBounds(value[1..]);
      if AtTrap(value) {
        assert value[..2] == "\\n";
        DecodeBounds(value[2..]);
      }
    }
  }

  lemma DecodeIsStaged(value: string)
    ensures DecodeXml(EscapeOnce(value)) == Decoded(value)
  {
    hide ReplaceAll, DecodeText, EscapeOnce, Decoded;
    DecodeBounds(value);
    StageOnDecodeText(0, value);
    StageOnDecodeText(1, value);
    StageOnDecodeText(2, value);
    StageOnDecodeText(3, value);
    StageOnDecodeText(4, value);
    StageOnDecodeText(5, value);
    StageOnDecodeText(6, value);
    StageOnDecodeText(7, value);
  }

  /** What reading back a written value gives, for every value. */
  lemma DecodeAfterEscape(value: string)
    ensures DecodeResourceValue(Quoted(value)) == Decoded(value)
  {
    hide Escape, DecodeXml, Decoded;
    var quoted := Quoted(value);
    TrimSolid(quoted);
    assert quoted[1..|quoted| - 1] == Escape(value);
    EscapeIsSinglePass(value);
    DecodeIsStaged(value);
  }

  lemma {:induction false} DecodedFixes(value: string)
    ensures Decoded(value) == value <==> !HasTrap(value)
  {
    if value != [] {
      DecodedFixes(value[1..]);
      if AtTrap(value) {
        assert value[..2] == "\\n";
        assert Decoded(value)[1] == '\n';
      } else {
        assert Decoded(value) == [value[0]] + Decoded(value[1..]);
        assert value == [value[0]] + value[1..];
      }
    }
  }

  /** The round trip returns the value exactly when no backslash in it is directly followed by an n. */
  lemma RoundTripExactly(value: string)
    ensures DecodeResourceValue(Quoted(value)) == value <==> !HasTrap(value)
  {
    hide *;
    DecodeAfterEscape(value);
    DecodedFixes(value);
  }

  /** A value that is not returned: the path C:\new comes back with a line feed in place of its n. */
  lemma PathIsDamaged()
    ensures DecodeResourceValue(Quoted("C:\\new")) == "C:\\\new"
    ensures HasTrap("C:\\new")
  {
    hide DecodeXml, Escape, DecodeResourceValue, Quoted;
    DecodeAfterEscape("C:\\new");
    assert "C:\\new" == "C:" + ("\\n" + "ew");
    SkipPlain("C:", "\\n" + "ew", "\\n", "\\\n");
    Match("ew", "\\n", "\\\n");
    assert "ew" + [] == "ew";
    SkipPlain("ew", [], "\\n", "\\\n");
    assert "C:\\new"[1..] == ":\\new" && ":\\new"[1..] == "\\new";
  }

  // ---- values that are written without quotes, or with white space around them ----

  predicate IsInQuotes(text: string) {
    |text| >= 2 && text[0] == '"' && text[|text| - 1] == '"'
  }

  /** White space around a raw value does not matter, and neither do quotes around it. */
  lemma QuotesAreStripped(before: string, text: string, after: string)
    requires IsBlankText(before) && IsBlankText(after)
    ensures DecodeResourceValue(before + ("\"" + text + "\"") + after) == DecodeXml(text)
  {
    hide DecodeXml, Trim;
    var quoted := "\"" + text + "\"";
    TrimAround(before, quoted, after);
    TrimSolid(quoted);
    assert quoted[1..|quoted| - 1] == text;
  }

  /** A raw value that is not in quotes is decoded as it stands. */
  lemma UnquotedIsKept(before: string, text: string, after: string)
    requires IsBlankText(before) && IsBlankText(after) && Trim(text) == text && !IsInQuotes(text) && text != "\""
    ensures DecodeResourceValue(before + text + after) == DecodeXml(text)
  {
    hide DecodeXml, Trim;
    TrimAround(before, text, after);
  }

  /** A lone quote counts as an opening and a closing one. */
  lemma LoneQuoteIsEmpty(before: string, after: string)
    requires IsBlankText(before) && IsBlankText(after)
    ensures DecodeResourceValue(before + "\"" + after) == ""
  {
    hide Trim;
    TrimAround(before, "\"", after);
    TrimSolid("\"");
  }

  lemma EscapeStarts(value: string)
    ensures value != [] ==> EscapeOnce(value) != [] && EscapeOnce(value)[0] != '"'
  {
  }

  /** Decoding gives the same for an escaped value in quotes and, if trimming leaves it alone, without. */
  lemma DecodeUnquotedAfterEscape(before: string, value: string, after: string)
    requires IsBlankText(before) && IsBlankText(after)
    ensures DecodeResourceValue(before + Quoted(value) + after) == Decoded(value)
    ensures Trim(Escape(value)) == Escape(value) ==> DecodeResourceValue(before + Escape(value) + after) == Decoded(value)
  {
    hide Escape, DecodeXml, DecodeResourceValue, Decoded, Trim, EscapeOnce;
    EscapeIsSinglePass(value);
    DecodeIsStaged(value);
    QuotesAreStripped(before, Escape(value), after);
    if Trim(Escape(value)) == Escape(value) {
      EscapeStarts(value);
      NothingEscaped();
      UnquotedIsKept(before, Escape(value), after);
    }
  }

  lemma NothingEscaped()
    ensures EscapeOnce([]) == []
  {
  }

  // ---- an escaped value is resource text ----

  /** Text that needs no further escaping: backslashes escape, ampersands begin entities, and there is no
      line feed, angle bracket or quote otherwise. */
  predicate IsResourceText(s: string) {
    || s == []
    || (|s| >= 2 && s[0] == '\\' && s[1] in "\\n'\"" && IsResourceText(s[2..]))
    || ("&amp;" <= s && IsResourceText(s[5..]))
    || ("&lt;" <= s && IsResourceText(s[4..]))
    || ("&gt;" <= s && IsResourceText(s[4..]))
    || (s[0] !in "\\\n'\"&<>" && IsResourceText(s[1..]))
  }

  lemma EscapeStep(c: char, rest: string)
    requires IsResourceText(rest)
    ensures IsResourceText(EscapeChar(c) + rest)
  {
    var unit := EscapeChar(c);
    var s := unit + rest;
    assert s[|unit|..] == rest;
    assert unit <= s;
  }

  /** Escaped values can stand in a resource file. */
  lemma {:induction false} EscapedIsResourceText(value: string)
    ensures IsResourceText(Escape(value))
  {
    hide Escape, EscapeChar, IsResourceText;
    EscapeIsSinglePass(value);
    if value == [] {
      NothingIsResourceText();
    } else {
      EscapedIsResourceText(value[1..]);
      EscapeIsSinglePass(value[1..]);
      EscapeStep(value[0], EscapeOnce(value[1..]));
    }
  }

  lemma NothingIsResourceText()
    ensures IsResourceText([])
  {
  }

  // ---- entities ----

  /** Text written with XML entities, quotes included, as other tools write it. */
  function EntityChar(c: char): string {
    if c == '<' then "&lt;" else if c == '>' then "&gt;" else if c == '"' then "&quot;" else if c == '&' then "&amp;" else [c]
  }

  function EntityText(value: string): string {
    if value == [] then [] else EntityChar(value[0]) + EntityText(value[1..])
  }

  /** What the first `stages` replacements leave of it. */
  function EntityToken(stages: nat, c: char): string {
    if stages >= (if c == '<' then 1 else if c == '>' then 2 else if c == '"' then 3 else 4) then [c] else EntityChar(c)
  }

  function EntityStage(stages: nat, value: string): string {
    if value == [] then [] else EntityToken(stages, value[0]) + EntityStage(stages, value[1..])
  }

  lemma EntityOnToken(stage: nat, c: char, r: string)
    requires stage < 4
    ensures ReplaceAll(EntityToken(stage, c) + r, StagePattern(stage), StageReplacement(stage))
            == EntityToken(stage + 1, c) + ReplaceAll(r, StagePattern(stage), StageReplacement(stage))
  {
    hide EntityToken, StagePattern, StageReplacement, ReplaceAll;
    EntityShape(stage, c);
    var pattern, token := StagePattern(stage), EntityToken(stage, c);
    if token == pattern {
      Match(r, pattern, StageReplacement(stage));
    } else if '&' in token {
      assert token + r == ['&'] + (token[1..] + r);
      SkipMismatch('&', token[1..] + r, pattern, StageReplacement(stage));
      SkipPlain(token[1..], r, pattern, StageReplacement(stage));
      assert ['&'] + (token[1..] + ReplaceAll(r, pattern, StageReplacement(stage)))
             == token + ReplaceAll(r, pattern, StageReplacement(stage));
    } else {
      SkipPlain(token, r, pattern, StageReplacement(stage));
    }
  }

  lemma EntityShape(stage: nat, c: char)
    requires stage < 4
    ensures var t, t', p := EntityToken(stage, c), EntityToken(stage + 1, c), StagePattern(stage);
            && |p| >= 2 && p[0] == '&'
            && if t == p then t' == StageReplacement(stage)
               else t' == t && ('&' in t ==> |t| >= 2 && t[0] == '&' && '&' !in t[1..] && t[1] != p[1])
  {
  }

  lemma {:induction false} EntityOnText(stage: nat, value: string)
    requires stage < 4
    ensures ReplaceAll(EntityStage(stage, value), StagePattern(stage), StageReplacement(stage)) == EntityStage(stage + 1, value)
  {
    hide EntityToken, ReplaceAll;
    if value == [] {
      NothingToReplace(StagePattern(stage), StageReplacement(stage));
    } else {
      EntityOnText(stage, value[1..]);
      EntityOnToken(stage, value[0], EntityStage(stage, value[1..]));
    }
  }

  lemma {:induction false} EntityBounds(value: string)
    ensures EntityStage(0, value) == EntityText(value) && EntityStage(4, value) == value
  {
    if value != [] {
      EntityBounds(value[1..]);
      assert value == [value[0]] + value[1..];
    }
  }

  lemma Unaffected(stage: nat, value: string)
    requires 4 <= stage < 8 && '\\' !in value
    ensures ReplaceAll(value, StagePattern(stage), StageReplacement(stage)) == value
  {
    assert value + [] == value;
    SkipPlain(value, [], StagePattern(stage), StageReplacement(stage));
  }

  /** Decoding reads the four entities, in whatever text without backslashes. */
  lemma EntitiesAreDecoded(value: string)
    requires '\\' !in value
    ensures DecodeXml(EntityText(value)) == value
  {
    hide ReplaceAll, EntityStage, EntityText;
    EntityBounds(value);
    EntityOnText(0, value);
    EntityOnText(1, value);
    EntityOnText(2, value);
    EntityOnText(3, value);
    Unaffected(4, value);
    Unaffected(5, value);
    Unaffected(6, value);
    Unaffected(7, value);
  }
}
