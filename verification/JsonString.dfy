/** JSON string literals (section 7 of RFC 8259) as JSON.stringify writes and JSON.parse reads them,
    lone surrogates included. */
module JsonString {
  import opened Sequences
  import opened Text

  function HexDigit(n: nat): char
    requires n < 16
  {
    "0123456789abcdef"[n]
  }

  function HexEscape(unit: nat): string
    requires unit < 0x10000
  {
    "\\u" + [HexDigit(unit / 16 / 16 / 16), HexDigit(unit / 16 / 16 % 16), HexDigit(unit / 16 % 16), HexDigit(unit % 16)]
  }

  /** A unit by itself. */
  function EscapeUnit(c: char): string {
    if c == '"' then "\\\""
    else if c == '\\' then "\\\\"
    else if c == '\U{08}' then "\\b"
    else if c == '\U{0C}' then "\\f"
    else if c == '\n' then "\\n"
    else if c == '\r' then "\\r"
    else if c == '\t' then "\\t"
    else if c < ' ' || IsLeading(c) || IsTrailing(c) then HexEscape(CodeUnit(c))
    else [c]
  }

  predicate StartsPair(s: string) {
    |s| >= 2 && IsLeading(s[0]) && IsTrailing(s[1])
  }

  /** The first unit of a text; paired says that it ends a surrogate pair. Pairs are not escaped. */
  function EscapeFirst(s: string, paired: bool): string
    requires s != []
  {
    if paired || StartsPair(s) then [s[0]] else EscapeUnit(s[0])
  }

  function EscapeUnits(s: string, paired: bool): string {
    if s == [] then [] else EscapeFirst(s, paired) + EscapeUnits(s[1..], !paired && StartsPair(s))
  }

  predicate IsPaired(s: string, paired: bool) {
    paired ==> s != [] && IsTrailing(s[0])
  }

  /** JSON.stringify of a string. */
  function Quote(s: string): string {
    "\"" + EscapeUnits(s, false) + "\""
  }

  function HexValue(c: char): (value: Option<nat>)
    ensures value.Some? ==> value.value < 16
  {
    if '0' <= c <= '9' then Some(c as int - '0' as int)
    else if 'a' <= c <= 'f' then Some(c as int - 'a' as int + 10)
    else if 'A' <= c <= 'F' then Some(c as int - 'A' as int + 10)
    else None
  }

  function SimpleEscape(c: char): Option<char> {
    if c == '"' || c == '\\' || c == '/' then Some(c)
    else if c == 'b' then Some('\U{08}')
    else if c == 'f' then Some('\U{0C}')
    else if c == 'n' then Some('\n')
    else if c == 'r' then Some('\r')
    else if c == 't' then Some('\t')
    else None
  }

  /** A four-digit escape. */
  function UnicodeEscape(s: string): Option<char>
    requires |s| >= 4
  {
    var a, b, c, d := HexValue(s[0]), HexValue(s[1]), HexValue(s[2]), HexValue(s[3]);
    if a.None? || b.None? || c.None? || d.None? then None
    else Some(UnitChar(((a.value * 16 + b.value) * 16 + c.value) * 16 + d.value))
  }

  function Consed(c: char, rest: Option<string>): Option<string> {
    if rest.None? then None else Some([c] + rest.value)
  }

  /** The characters a literal's body stands for, or nothing if it is malformed. */
  function Unescape(body: string): Option<string>
    decreases |body|
  {
    if body == [] then Some([])
    else if body[0] != '\\' then
      if body[0] == '"' || body[0] < ' ' then None else Consed(body[0], Unescape(body[1..]))
    else if |body| < 2 then None
    else if body[1] == 'u' then
      if |body| < 6 || UnicodeEscape(body[2..]).None? then None
      else Consed(UnicodeEscape(body[2..]).value, Unescape(body[6..]))
    else if SimpleEscape(body[1]).None? then None
    else Consed(SimpleEscape(body[1]).value, Unescape(body[2..]))
  }

  /** JSON.parse of a string literal. */
  function Parse(literal: string): Option<string> {
    if |literal| < 2 || literal[0] != '"' || literal[|literal| - 1] != '"' then None
    else Unescape(literal[1..|literal| - 1])
  }

  lemma HexRoundTrip(n: nat)
    requires n < 16
    ensures HexValue(HexDigit(n)) == Some(n)
  {
  }

  lemma DigitsMakeUnit(unit: nat)
    ensures ((unit / 16 / 16 / 16 * 16 + unit / 16 / 16 % 16) * 16 + unit / 16 % 16) * 16 + unit % 16 == unit
  {
    hide *;
    LastDigit(unit);
    LastDigit(unit / 16);
    LastDigit(unit / 16 / 16);
  }

  lemma LastDigit(n: nat)
    ensures n / 16 * 16 + n % 16 == n
  {
  }

  lemma UnicodeEscapeOf(unit: nat, s: string)
    requires unit < 0x10000 && |s| >= 4
    requires s[0] == HexDigit(unit / 16 / 16 / 16) && s[1] == HexDigit(unit / 16 / 16 % 16)
    requires s[2] == HexDigit(unit / 16 % 16) && s[3] == HexDigit(unit % 16)
    ensures UnicodeEscape(s) == Some(UnitChar(unit))
  {
    hide HexDigit, HexValue, UnitChar;
    HexRoundTrip(unit / 16 / 16 / 16);
    HexRoundTrip(unit / 16 / 16 % 16);
    HexRoundTrip(unit / 16 % 16);
    HexRoundTrip(unit % 16);
    DigitsMakeUnit(unit);
  }

  lemma HexEscapeRoundTrip(unit: nat, rest: string)
    requires unit < 0x10000
    ensures Unescape(HexEscape(unit) + rest) == Consed(UnitChar(unit), Unescape(rest))
  {
    hide HexDigit, UnicodeEscape, UnitChar;
    var text := HexEscape(unit) + rest;
    assert text[6..] == rest;
    UnicodeEscapeOf(unit, text[2..]);
  }

  lemma EscapeShape(c: char)
    ensures var unit := EscapeUnit(c);
            || (|unit| == 2 && unit[0] == '\\' && unit[1] != 'u' && SimpleEscape(unit[1]) == Some(c))
            || (CodeUnit(c) < 0x10000 && unit == HexEscape(CodeUnit(c)))
            || (unit == [c] && c != '"' && c != '\\' && c >= ' ')
  {
    hide HexEscape;
  }

  lemma UnescapeUnit(c: char, rest: string)
    ensures Unescape(EscapeUnit(c) + rest) == Consed(c, Unescape(rest))
  {
    hide HexEscape, EscapeUnit, SimpleEscape, CodeUnit, UnitChar, UnicodeEscape;
    EscapeShape(c);
    var unit := EscapeUnit(c);
    if |unit| == 2 && unit[0] == '\\' && unit[1] != 'u' && SimpleEscape(unit[1]) == Some(c) {
      assert (unit + rest)[2..] == rest;
    } else if unit == [c] && c != '"' && c != '\\' && c >= ' ' {
      UnescapePlain(c, rest);
    } else {
      HexEscapeRoundTrip(CodeUnit(c), rest);
      CodeUnitIsInjective(UnitChar(CodeUnit(c)), c);
    }
  }

  lemma UnescapePlain(c: char, rest: string)
    requires c != '"' && c != '\\' && c >= ' '
    ensures Unescape([c] + rest) == Consed(c, Unescape(rest))
  {
    assert ([c] + rest)[1..] == rest;
  }

  lemma {:induction false} UnescapeInverts(s: string, paired: bool)
    requires IsPaired(s, paired)
    ensures Unescape(EscapeUnits(s, paired)) == Some(s)
  {
    if s != [] {
      hide EscapeUnit, Unescape;
      var next := !paired && StartsPair(s);
      UnescapeInverts(s[1..], next);
      if paired || StartsPair(s) {
        UnescapePlain(s[0], EscapeUnits(s[1..], next));
      } else {
        UnescapeUnit(s[0], EscapeUnits(s[1..], next));
      }
      assert s == [s[0]] + s[1..];
    }
  }

  /** Parsing a printed literal gives back every string. */
  lemma ParseInvertsQuote(s: string)
    ensures Parse(Quote(s)) == Some(s)
  {
    hide EscapeUnits, Unescape;
    assert Quote(s)[1..|Quote(s)| - 1] == EscapeUnits(s, false);
    UnescapeInverts(s, false);
  }
}
