/** JSON string literals in general: the grammar of RFC 8259 (section 7) with its meaning, and the reader
    of literals against it. */
module JsonLiterals {
  import opened Sequences
  import opened Text
  import opened JsonString
  import opened JsonEnvelope

  // ---- what a literal means ----

  function HexNumber(hex: string): nat {
    if hex == [] then 0
    else
      var c := hex[|hex| - 1];
      16 * HexNumber(hex[..|hex| - 1])
      + if '0' <= c <= '9' then c as int - '0' as int
        else if 'a' <= c <= 'f' then c as int - 'a' as int + 10
        else if 'A' <= c <= 'F' then c as int - 'A' as int + 10
        else 0
  }

  lemma {:induction false} HexNumberBound(hex: string)
    requires |hex| <= 4
    ensures HexNumber(hex) < 16 || |hex| > 1
    ensures HexNumber(hex) < 0x10000
    ensures |hex| == 0 ==> HexNumber(hex) == 0
    ensures |hex| == 1 ==> HexNumber(hex) < 0x10
    ensures |hex| == 2 ==> HexNumber(hex) < 0x100
    ensures |hex| == 3 ==> HexNumber(hex) < 0x1000
  {
    if hex != [] {
      HexNumberBound(hex[..|hex| - 1]);
    }
  }

  /** The character an element of a literal stands for. */
  function MeaningOf(c: StringChar): char {
    match c
    case Plain(x) => x
    case Escaped(x) =>
      if x == 'b' then '\U{08}' else if x == 'f' then '\U{0C}' else if x == 'n' then '\n'
      else if x == 'r' then '\r' else if x == 't' then '\t' else x
    case Unicode(hex) => if |hex| == 4 then (HexNumberBound(hex); UnitChar(HexNumber(hex))) else ' '
  }

  function Meaning(chars: seq<StringChar>): string {
    Map(MeaningOf, chars)
  }

  // ---- reading gives the meaning ----

  lemma HexNumberOf(hex: string)
    requires |hex| == 4 && forall i :: 0 <= i < 4 ==> IsHex(hex[i])
    ensures UnicodeEscape(hex) == Some(MeaningOf(Unicode(hex)))
  {
    hide UnitChar, HexNumber, HexValue, IsHex;
    HexStep(hex);
    HexStep(hex[..3]);
    HexPrefix(hex, 3, 2);
    HexStep(hex[..2]);
    HexPrefix(hex, 2, 1);
    HexStep(hex[..1]);
    HexPrefix(hex, 1, 0);
    NoDigits();
  }

  lemma HexPrefix(hex: string, i: nat, j: nat)
    requires j <= i <= |hex|
    ensures hex[..i][..j] == hex[..j]
  {
  }

  lemma NoDigits()
    ensures HexNumber([]) == 0
  {
  }

  lemma HexStep(hex: string)
    requires hex != [] && IsHex(hex[|hex| - 1])
    ensures HexValue(hex[|hex| - 1]).Some?
    ensures HexNumber(hex) == 16 * HexNumber(hex[..|hex| - 1]) + HexValue(hex[|hex| - 1]).value
  {
  }

  lemma UnescapeChar(c: StringChar, rest: string)
    requires ValidChar(c)
    ensures Unescape(PrintChar(c) + rest) == Consed(MeaningOf(c), Unescape(rest))
  {
    hide UnicodeEscape, HexNumber, UnitChar;
    var text := PrintChar(c) + rest;
    match c {
      case Plain(x) => UnescapePlain(x, rest);
      case Escaped(x) =>
        assert text[2..] == rest;
        EscapeMeaning(x);
      case Unicode(hex) =>
        assert text[6..] == rest;
        HexNumberOf(hex);
        SameDigits(text[2..], hex);
        assert text[2..][..4] == hex;
    }
  }

  lemma EscapeMeaning(x: char)
    requires x in "\"\\/bfnrt"
    ensures x != 'u' && SimpleEscape(x) == Some(MeaningOf(Escaped(x)))
  {
  }

  /** Only the first four characters of a \u escape matter. */
  lemma SameDigits(s: string, hex: string)
    requires |hex| == 4 && hex <= s
    ensures UnicodeEscape(s) == UnicodeEscape(hex)
  {
    assert s[0] == hex[0] && s[1] == hex[1] && s[2] == hex[2] && s[3] == hex[3];
  }

  lemma {:induction false} UnescapeChars(chars: seq<StringChar>)
    requires ValidChars(chars)
    ensures Unescape(PrintChars(chars)) == Some(Meaning(chars))
  {
    hide Unescape, PrintChar, MeaningOf, ValidChar, Meaning;
    MeaningStep(chars);
    if chars == [] {
      NothingToRead();
    } else {
      UnescapeChar(chars[0], PrintChars(chars[1..]));
      UnescapeChars(chars[1..]);
    }
  }

  lemma MeaningStep(chars: seq<StringChar>)
    ensures Meaning(chars) == if chars == [] then [] else [MeaningOf(chars[0])] + Meaning(chars[1..])
  {
  }

  lemma NothingToRead()
    ensures Unescape([]) == Some([])
  {
  }

  /** Every literal of the grammar is read as what it means. */
  lemma LiteralIsRead(chars: seq<StringChar>)
    requires ValidChars(chars)
    ensures Parse(PrintString(chars)) == Some(Meaning(chars))
  {
    hide Unescape, PrintChars, Meaning;
    assert PrintString(chars)[1..|PrintString(chars)| - 1] == PrintChars(chars);
    UnescapeChars(chars);
  }

  // ---- and nothing else is read ----

  lemma {:induction false} UnescapedIsPrinted(body: string) returns (chars: seq<StringChar>)
    requires Unescape(body).Some?
    ensures ValidChars(chars) && PrintChars(chars) == body
    decreases |body|
  {
    if body == [] {
      chars := [];
    } else if body[0] != '\\' {
      var rest := UnescapedIsPrinted(body[1..]);
      chars := PrintedFirst(Plain(body[0]), rest, body);
    } else if body[1] == 'u' {
      var rest := UnescapedIsPrinted(body[6..]);
      HexDigitsAre(body[2..]);
      assert body == "\\u" + body[2..6] + body[6..];
      chars := PrintedFirst(Unicode(body[2..6]), rest, body);
    } else {
      var rest := UnescapedIsPrinted(body[2..]);
      chars := PrintedFirst(Escaped(body[1]), rest, body);
    }
  }

  lemma PrintedFirst(c: StringChar, rest: seq<StringChar>, body: string) returns (chars: seq<StringChar>)
    requires ValidChar(c) && ValidChars(rest) && body == PrintChar(c) + PrintChars(rest)
    ensures ValidChars(chars) && PrintChars(chars) == body
  {
    chars := [c] + rest;
    assert chars[1..] == rest;
  }

  lemma HexDigitsAre(s: string)
    requires |s| >= 4 && UnicodeEscape(s).Some?
    ensures IsHex(s[0]) && IsHex(s[1]) && IsHex(s[2]) && IsHex(s[3])
  {
  }

  /** What is read is a literal of the grammar, so that the reader refuses exactly the malformed texts. */
  lemma OnlyLiteralsAreRead(literal: string)
    ensures Parse(literal).Some? <==> exists chars :: ValidChars(chars) && PrintString(chars) == literal
  {
    hide Unescape, PrintChars, ValidChars;
    if Parse(literal).Some? {
      var chars := UnescapedIsPrinted(literal[1..|literal| - 1]);
      assert PrintString(chars) == literal;
    }
    if chars :| ValidChars(chars) && PrintString(chars) == literal {
      LiteralIsRead(chars);
    }
  }

  // ---- what is written is as short as can be ----

  predicate HasNoSurrogate(s: string) {
    forall i :: 0 <= i < |s| ==> !IsLeading(s[i]) && !IsTrailing(s[i])
  }

  lemma UnitIsShortest(c: StringChar)
    requires ValidChar(c) && !IsLeading(MeaningOf(c)) && !IsTrailing(MeaningOf(c))
    ensures |EscapeUnit(MeaningOf(c))| <= |PrintChar(c)|
  {
    hide HexNumber, UnitChar;
  }

  lemma {:induction false} UnitsAreShortest(chars: seq<StringChar>)
    requires ValidChars(chars) && HasNoSurrogate(Meaning(chars))
    ensures |EscapeUnits(Meaning(chars), false)| <= |PrintChars(chars)|
  {
    hide MeaningOf, EscapeUnit, PrintChar, IsLeading, IsTrailing;
    if chars != [] {
      var s := Meaning(chars);
      assert s[0] == MeaningOf(chars[0]) && s[1..] == Meaning(chars[1..]);
      UnitIsShortest(chars[0]);
      UnitsAreShortest(chars[1..]);
      assert !StartsPair(s);
    }
  }

  /** A string without surrogates is written as a shortest literal that means it. */
  lemma QuoteIsShortest(chars: seq<StringChar>)
    requires ValidChars(chars) && HasNoSurrogate(Meaning(chars))
    ensures |Quote(Meaning(chars))| <= |PrintString(chars)|
  {
    hide EscapeUnits, PrintChars, Meaning;
    UnitsAreShortest(chars);
  }
}
