/** The scanner that cuts a JSON envelope off the front of an agent's output. */
module JsonEnvelope {
  import opened Sequences
  import opened Text

  // ---- JSON texts (RFC 8259), as syntax trees that keep their white space ----

  /** Section 7 of RFC 8259: an unescaped character, a two-character escape or a \u escape. */
  datatype StringChar = Plain(c: char) | Escaped(c: char) | Unicode(hex: string)

  datatype Json =
    | Scalar(text: string)
    | Text(chars: seq<StringChar>)
    | Array(items: seq<Item>, blank: string)
    | Object(members: seq<Member>, blank: string)

  /** A value with the white space around it. */
  datatype Item = Item(before: string, value: Json, after: string)

  /** A member: white space, name, white space, colon, item. */
  datatype Member = Member(before: string, name: seq<StringChar>, middle: string, item: Item)

  predicate IsJsonSpace(c: char) {
    c == ' ' || c == '\t' || c == '\n' || c == '\r'
  }

  predicate IsBlank(s: string) {
    forall i :: 0 <= i < |s| ==> IsJsonSpace(s[i])
  }

  predicate IsHex(c: char) {
    '0' <= c <= '9' || 'a' <= c <= 'f' || 'A' <= c <= 'F'
  }

  predicate ValidChar(c: StringChar) {
    match c
    case Plain(x) => x != '"' && x != '\\' && x >= ' '
    case Escaped(x) => x in "\"\\/bfnrt"
    case Unicode(hex) => |hex| == 4 && forall i :: 0 <= i < 4 ==> IsHex(hex[i])
  }

  predicate ValidChars(chars: seq<StringChar>) {
    forall i :: 0 <= i < |chars| ==> ValidChar(chars[i])
  }

  /** The characters of numbers and of true, false and null. */
  predicate IsScalarChar(c: char) {
    '0' <= c <= '9' || 'a' <= c <= 'z' || c == 'E' || c == '+' || c == '-' || c == '.'
  }

  /** Well-formed up to the grammar of numbers and literals, which the scanner does not look at. */
  predicate Valid(j: Json) {
    match j
    case Scalar(text) => text != [] && forall i :: 0 <= i < |text| ==> IsScalarChar(text[i])
    case Text(chars) => ValidChars(chars)
    case Array(items, blank) => IsBlank(blank) && forall i :: 0 <= i < |items| ==> ValidItem(items[i])
    case Object(members, blank) => IsBlank(blank) && forall i :: 0 <= i < |members| ==> ValidMember(members[i])
  }

  predicate ValidItem(item: Item) {
    IsBlank(item.before) && Valid(item.value) && IsBlank(item.after)
  }

  predicate ValidMember(m: Member) {
    IsBlank(m.before) && ValidChars(m.name) && IsBlank(m.middle) && ValidItem(m.item)
  }

  function PrintChar(c: StringChar): string {
    match c
    case Plain(x) => [x]
    case Escaped(x) => ['\\', x]
    case Unicode(hex) => "\\u" + hex
  }

  function PrintChars(chars: seq<StringChar>): string {
    if chars == [] then [] else PrintChar(chars[0]) + PrintChars(chars[1..])
  }

  function PrintString(chars: seq<StringChar>): string {
    "\"" + PrintChars(chars) + "\""
  }

  function Print(j: Json): string
    decreases j, 0
  {
    match j
    case Scalar(text) => text
    case Text(chars) => PrintString(chars)
    case Array(items, blank) => "[" + PrintItems(items, true) + blank + "]"
    case Object(members, blank) => "{" + PrintMembers(members, true) + blank + "}"
  }

  function PrintItem(item: Item): string
    decreases item, 1
  {
    item.before + Print(item.value) + item.after
  }

  function PrintItems(items: seq<Item>, first: bool): string
    decreases items, 0
  {
    if items == [] then []
    else (if first then "" else ",") + PrintItem(items[0]) + PrintItems(items[1..], false)
  }

  function PrintMembers(members: seq<Member>, first: bool): string
    decreases members, 0
  {
    if members == [] then []
    else
      var m := members[0];
      (if first then "" else ",") + m.before + PrintString(m.name) + m.middle + ":" + PrintItem(m.item)
      + PrintMembers(members[1..], false)
  }

  // ---- the scanner ----

  datatype Scan = Scan(depth: int, escaped: bool, inString: bool) {
    function Next(c: char): Scan {
      if inString then
        if escaped then this.(escaped := false)
        else if c == '\\' then this.(escaped := true)
        else if c == '"' then this.(inString := false)
        else this
      else if c == '"' then this.(inString := true)
      else if c == '{' then this.(depth := depth + 1)
      else if c == '}' then this.(depth := depth - 1)
      else this
    }

    /** The scan stops after a closing brace that brings the depth to zero. */
    predicate Stops(c: char) {
      !inString && c == '}' && depth == 1
    }
  }

  const START := Scan(0, false, false)

  /** The length of the text up to and including the character at which the scan stops. */
  function CutFrom(s: string, i: nat, state: Scan): (cut: Option<nat>)
    requires i <= |s|
    ensures cut.Some? ==> i < cut.value <= |s|
    decreases |s| - i
  {
    if i == |s| then None
    else if state.Stops(s[i]) then Some(i + 1)
    else CutFrom(s, i + 1, state.Next(s[i]))
  }

  datatype EnvelopeError = NoEnvelope | NotAnEnvelope | IncompleteEnvelope

  /** The envelope's text, before it is handed to JSON.parse, and the trimmed rest. */
  datatype Envelope = Envelope(text: string, trailing: string)

  function Cut(stdout: string): Result<Envelope, EnvelopeError> {
    var value := TrimStart(stdout);
    if value == [] then Failure(NoEnvelope)
    else if value[0] != '{' then Failure(NotAnEnvelope)
    else
      var cut := CutFrom(value, 0, START);
      if cut.None? then Failure(IncompleteEnvelope)
      else Success(Envelope(value[..cut.value], Trim(value[cut.value..])))
  }

  method ParseAgentExecOutput(stdout: string) returns (r: Result<Envelope, EnvelopeError>)
    ensures r == Cut(stdout)
  {
    var value := TrimStart(stdout);
    if |value| == 0 {
      return Failure(NoEnvelope);
    }
    if value[0] != '{' {
      return Failure(NotAnEnvelope);
    }
    var depth, escaped, inString := 0, false, false;
    var index := 0;
    while index < |value|
      invariant index <= |value|
      invariant CutFrom(value, index, Scan(depth, escaped, inString)) == CutFrom(value, 0, START)
    {
      var character := value[index];
      if inString {
        if escaped {
          escaped := false;
        } else if character == '\\' {
          escaped := true;
        } else if character == '"' {
          inString := false;
        }
        index := index + 1;
        continue;
      }
      if character == '"' {
        inString := true;
      } else if character == '{' {
        depth := depth + 1;
      } else if character == '}' {
        depth := depth - 1;
        if depth == 0 {
          return Success(Envelope(value[..index + 1], Trim(value[index + 1..])));
        }
      }
      index := index + 1;
    }
    return Failure(IncompleteEnvelope);
  }

  // ---- the scanner walks over any JSON text without stopping inside it ----

  /** The state after scanning t, if the scan does not stop on the way. */
  function Through(t: string, state: Scan): Option<Scan> {
    if t == [] then Some(state)
    else if state.Stops(t[0]) then None
    else Through(t[1..], state.Next(t[0]))
  }

  lemma {:induction false} ThroughAppend(a: string, b: string, state: Scan)
    ensures Through(a + b, state)
            == if Through(a, state).None? then None else Through(b, Through(a, state).value)
  {
    if a == [] {
      assert a + b == b;
    } else {
      assert (a + b)[1..] == a[1..] + b;
      if !state.Stops(a[0]) {
        ThroughAppend(a[1..], b, state.Next(a[0]));
      }
    }
  }

  lemma {:induction false} ThroughCut(s: string, i: nat, j: nat, state: Scan)
    requires i <= j <= |s| && Through(s[i..j], state).Some?
    ensures CutFrom(s, i, state) == CutFrom(s, j, Through(s[i..j], state).value)
    decreases j - i
  {
    if i < j {
      assert s[i..j][0] == s[i] && s[i..j][1..] == s[i + 1..j];
      ThroughCut(s, i + 1, j, state.Next(s[i]));
    }
  }

  /** Characters that mean nothing to the scanner outside strings. */
  lemma {:induction false} ThroughNeutral(t: string, depth: int)
    requires forall i :: 0 <= i < |t| ==> t[i] != '"' && t[i] != '{' && t[i] != '}'
    ensures Through(t, Scan(depth, false, false)) == Some(Scan(depth, false, false))
  {
    if t != [] {
      assert forall i :: 0 <= i < |t[1..]| ==> t[1..][i] == t[i + 1];
      ThroughNeutral(t[1..], depth);
    }
  }

  lemma ThroughEscape(x: char, depth: int)
    ensures Through(['\\', x], Scan(depth, false, true)) == Some(Scan(depth, false, true))
  {
    assert ['\\', x][1..] == [x] && [x][1..] == [];
    assert Through([x], Scan(depth, true, true)) == Some(Scan(depth, false, true));
  }

  lemma ThroughChar(c: StringChar, depth: int)
    requires ValidChar(c)
    ensures Through(PrintChar(c), Scan(depth, false, true)) == Some(Scan(depth, false, true))
  {
    var inside := Scan(depth, false, true);
    match c {
      case Plain(x) =>
        assert [x][1..] == [];
      case Escaped(x) =>
        ThroughEscape(x, depth);
      case Unicode(hex) =>
        ThroughEscape('u', depth);
        ThroughAppend("\\u", hex, inside);
        ThroughHex(hex, depth);
    }
  }

  lemma {:induction false} ThroughHex(hex: string, depth: int)
    requires forall i :: 0 <= i < |hex| ==> IsHex(hex[i])
    ensures Through(hex, Scan(depth, false, true)) == Some(Scan(depth, false, true))
  {
    if hex != [] {
      assert forall i :: 0 <= i < |hex[1..]| ==> hex[1..][i] == hex[i + 1];
      ThroughHex(hex[1..], depth);
    }
  }

  lemma {:induction false} ThroughChars(chars: seq<StringChar>, depth: int)
    requires ValidChars(chars)
    ensures Through(PrintChars(chars), Scan(depth, false, true)) == Some(Scan(depth, false, true))
  {
    if chars != [] {
      ThroughChar(chars[0], depth);
      ThroughChars(chars[1..], depth);
      ThroughAppend(PrintChar(chars[0]), PrintChars(chars[1..]), Scan(depth, false, true));
    }
  }

  lemma ThroughString(chars: seq<StringChar>, depth: int)
    requires ValidChars(chars)
    ensures Through(PrintString(chars), Scan(depth, false, false)) == Some(Scan(depth, false, false))
  {
    var body := PrintChars(chars);
    assert PrintString(chars) == ['"'] + (body + ['"']);
    assert PrintString(chars)[1..] == body + ['"'];
    ThroughChars(chars, depth);
    ThroughAppend(body, ['"'], Scan(depth, false, true));
    assert ['"'][1..] == [];
  }

  lemma Chain(a: string, b: string, state: Scan)
    requires Through(a, state) == Some(state) && Through(b, state) == Some(state)
    ensures Through(a + b, state) == Some(state)
  {
    ThroughAppend(a, b, state);
  }

  /** A value inside an object leaves the scan where it was: never at depth zero, and outside strings. */
  lemma {:induction false} ThroughValue(j: Json, depth: int)
    requires Valid(j) && depth >= 1
    ensures Through(Print(j), Scan(depth, false, false)) == Some(Scan(depth, false, false))
    decreases j, 0
  {
    hide Through;
    var state := Scan(depth, false, false);
    match j {
      case Scalar(text) =>
        ThroughNeutral(text, depth);
      case Text(chars) =>
        ThroughString(chars, depth);
      case Array(items, blank) =>
        ThroughItems(items, true, depth);
        ThroughNeutral("[", depth);
        ThroughNeutral(blank, depth);
        ThroughNeutral("]", depth);
        Chain("[", PrintItems(items, true), state);
        Chain("[" + PrintItems(items, true), blank, state);
        Chain("[" + PrintItems(items, true) + blank, "]", state);
      case Object(members, blank) =>
        var deeper := Scan(depth + 1, false, false);
        ThroughMembers(members, true, depth + 1);
        ThroughNeutral(blank, depth + 1);
        Chain(PrintMembers(members, true), blank, deeper);
        ThroughBraces(PrintMembers(members, true) + blank, depth);
        assert Print(j) == "{" + (PrintMembers(members, true) + blank) + "}";
    }
  }

  lemma ThroughBraces(body: string, depth: int)
    requires depth >= 1
    requires Through(body, Scan(depth + 1, false, false)) == Some(Scan(depth + 1, false, false))
    ensures Through("{" + body + "}", Scan(depth, false, false)) == Some(Scan(depth, false, false))
  {
    assert "{" + body + "}" == ['{'] + (body + ['}']);
    assert (['{'] + (body + ['}']))[1..] == body + ['}'];
    ThroughAppend(body, ['}'], Scan(depth + 1, false, false));
    assert ['}'][1..] == [];
  }

  lemma {:induction false} ThroughItem(item: Item, depth: int)
    requires ValidItem(item) && depth >= 1
    ensures Through(PrintItem(item), Scan(depth, false, false)) == Some(Scan(depth, false, false))
    decreases item, 1
  {
    hide Through;
    var state := Scan(depth, false, false);
    ThroughNeutral(item.before, depth);
    ThroughValue(item.value, depth);
    ThroughNeutral(item.after, depth);
    Chain(item.before, Print(item.value), state);
    Chain(item.before + Print(item.value), item.after, state);
  }

  lemma {:induction false} ThroughItems(items: seq<Item>, first: bool, depth: int)
    requires forall i :: 0 <= i < |items| ==> ValidItem(items[i])
    requires depth >= 1
    ensures Through(PrintItems(items, first), Scan(depth, false, false)) == Some(Scan(depth, false, false))
    decreases items, 0
  {
    hide Through;
    var state := Scan(depth, false, false);
    if items == [] {
      ThroughNeutral("", depth);
    } else {
      var comma := if first then "" else ",";
      ThroughNeutral(comma, depth);
      ThroughItem(items[0], depth);
      ThroughItems(items[1..], false, depth);
      Chain(comma, PrintItem(items[0]), state);
      Chain(comma + PrintItem(items[0]), PrintItems(items[1..], false), state);
    }
  }

  lemma {:induction false} ThroughMembers(members: seq<Member>, first: bool, depth: int)
    requires forall i :: 0 <= i < |members| ==> ValidMember(members[i])
    requires depth >= 1
    ensures Through(PrintMembers(members, first), Scan(depth, false, false)) == Some(Scan(depth, false, false))
    decreases members, 0
  {
    hide Through;
    var state := Scan(depth, false, false);
    if members == [] {
      ThroughNeutral("", depth);
    } else {
      var m := members[0];
      var comma := if first then "" else ",";
      ThroughNeutral(comma, depth);
      ThroughNeutral(m.before, depth);
      ThroughString(m.name, depth);
      ThroughNeutral(m.middle, depth);
      ThroughNeutral(":", depth);
      ThroughItem(m.item, depth);
      ThroughMembers(members[1..], false, depth);
      Chain(comma, m.before, state);
      Chain(comma + m.before, PrintString(m.name), state);
      Chain(comma + m.before + PrintString(m.name), m.middle, state);
      Chain(comma + m.before + PrintString(m.name) + m.middle, ":", state);
      Chain(comma + m.before + PrintString(m.name) + m.middle + ":", PrintItem(m.item), state);
      Chain(comma + m.before + PrintString(m.name) + m.middle + ":" + PrintItem(m.item), PrintMembers(members[1..], false), state);
    }
  }

  // ---- the cut is exact ----

  /** The scan of an object followed by anything stops exactly at the object's closing brace. */
  lemma CutAtClosingBrace(doc: Json, rest: string)
    requires doc.Object? && Valid(doc)
    ensures CutFrom(Print(doc) + rest, 0, START) == Some(|Print(doc)|)
  {
    var body := PrintMembers(doc.members, true) + doc.blank;
    assert Print(doc) == "{" + body + "}";
    ThroughMembers(doc.members, true, 1);
    ThroughNeutral(doc.blank, 1);
    Chain(PrintMembers(doc.members, true), doc.blank, Scan(1, false, false));
    CutAroundBody(body, rest);
  }

  lemma CutAroundBody(body: string, rest: string)
    requires Through(body, Scan(1, false, false)) == Some(Scan(1, false, false))
    ensures CutFrom("{" + body + "}" + rest, 0, START) == Some(|body| + 2)
  {
    hide Through;
    var s := "{" + body + "}" + rest;
    assert s[1..|body| + 1] == body && s[|body| + 1] == '}';
    ThroughCut(s, 1, |body| + 1, Scan(1, false, false));
    assert START.Next('{') == Scan(1, false, false);
  }

  /** For every JSON object, leading white space and trailing text, the envelope is exactly the object. */
  lemma EnvelopeIsExact(lead: string, doc: Json, rest: string)
    requires doc.Object? && Valid(doc)
    requires forall c :: c in lead ==> IsSpace(c)
    ensures Cut(lead + Print(doc) + rest) == Success(Envelope(Print(doc), Trim(rest)))
  {
    hide CutFrom, Valid, PrintMembers, Trim;
    var text := Print(doc);
    var s := text + rest;
    assert text[0] == '{' && s[0] == '{';
    assert lead + text + rest == lead + s;
    TrimStartSkips(lead, s);
    CutAtClosingBrace(doc, rest);
    assert s[..|text|] == text && s[|text|..] == rest;
  }

  /** Blank output and output that begins with anything but an opening brace are refused as such. */
  lemma OtherOutputIsRefused(lead: string, c: char, rest: string)
    requires forall x :: x in lead ==> IsSpace(x)
    requires !IsSpace(c) && c != '{'
    ensures Cut(lead) == Failure(NoEnvelope) && Cut(lead + ([c] + rest)) == Failure(NotAnEnvelope)
  {
    hide CutFrom, Trim;
    TrimStartSkips(lead, []);
    assert lead + [] == lead;
    TrimStartSkips(lead, [c] + rest);
  }

  lemma {:induction false} CutOfPrefix(s: string, t: string, i: nat, state: Scan)
    requires i <= |s| && CutFrom(s, i, state).Some?
    ensures CutFrom(s + t, i, state) == CutFrom(s, i, state)
    decreases |s| - i
  {
    assert (s + t)[i] == s[i];
    if !state.Stops(s[i]) {
      CutOfPrefix(s, t, i + 1, state.Next(s[i]));
    }
  }

  /** An object that has not arrived completely is never taken for an envelope. */
  lemma ProperPrefixIsRefused(lead: string, doc: Json, k: nat)
    requires doc.Object? && Valid(doc) && k < |Print(doc)|
    requires forall c :: c in lead ==> IsSpace(c)
    ensures Cut(lead + Print(doc)[..k]) == Failure(if k == 0 then NoEnvelope else IncompleteEnvelope)
  {
    hide Valid, PrintMembers, Trim;
    var text := Print(doc);
    var part := text[..k];
    TrimStartSkips(lead, part);
    if k > 0 {
      assert part[0] == text[0] == '{';
      if CutFrom(part, 0, START).Some? {
        CutOfPrefix(part, text[k..], 0, START);
        assert part + text[k..] == text == text + [];
        CutAtClosingBrace(doc, []);
      }
    }
  }
}
