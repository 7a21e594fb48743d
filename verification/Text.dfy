/** The JavaScript string operations the scripts rely on. Strings are sequences of code units. */
module Text {

  // ---- code units ----

  /** The UTF-16 code unit a character stands for. Dafny's characters leave out the surrogates, so the
      2048 characters from U+10000 on stand for the units D800 to DFFF. */
  function CodeUnit(c: char): nat {
    if 0x10000 <= c as int < 0x10800 then c as int - 0x10000 + 0xD800 else c as int
  }

  function UnitChar(unit: nat): (c: char)
    requires unit < 0x10000
    ensures CodeUnit(c) == unit
  {
    if 0xD800 <= unit < 0xE000 then (unit - 0xD800 + 0x10000) as char else unit as char
  }

  predicate IsLeading(c: char) {
    0xD800 <= CodeUnit(c) < 0xDC00
  }

  predicate IsTrailing(c: char) {
    0xDC00 <= CodeUnit(c) < 0xE000
  }

  /** Different characters stand for different units. */
  lemma CodeUnitIsInjective(c: char, d: char)
    requires CodeUnit(c) == CodeUnit(d)
    ensures c == d
  {
    assert c as int == d as int;
  }

  // ---- white space ----

  /** The characters String.prototype.trim removes: white space and line terminators. */
  predicate IsSpace(c: char) {
    || '\t' <= c <= '\r'
    || c == ' ' || c == '\U{00A0}' || c == '\U{1680}'
    || '\U{2000}' <= c <= '\U{200A}'
    || c == '\U{2028}' || c == '\U{2029}' || c == '\U{202F}' || c == '\U{205F}' || c == '\U{3000}' || c == '\U{FEFF}'
  }

  function TrimStart(s: string): (r: string)
    ensures r != [] ==> !IsSpace(r[0])
  {
    if s != [] && IsSpace(s[0]) then TrimStart(s[1..]) else s
  }

  function TrimEnd(s: string): (r: string)
    ensures r != [] ==> !IsSpace(r[|r| - 1])
    ensures r <= s
  {
    if s != [] && IsSpace(s[|s| - 1]) then TrimEnd(s[..|s| - 1]) else s
  }

  function Trim(s: string): string {
    TrimEnd(TrimStart(s))
  }

  /** A text that neither begins nor ends with white space is its own trim. */
  lemma TrimSolid(s: string)
    requires s != [] ==> !IsSpace(s[0]) && !IsSpace(s[|s| - 1])
    ensures Trim(s) == s
  {
  }

  predicate IsBlankText(s: string) {
    forall i :: 0 <= i < |s| ==> IsSpace(s[i])
  }

  lemma {:induction false} TrimStartRemoves(s: string) returns (blank: string)
    ensures IsBlankText(blank) && blank + TrimStart(s) == s
  {
    if s != [] && IsSpace(s[0]) {
      blank := TrimStartRemoves(s[1..]);
      blank := [s[0]] + blank;
    } else {
      blank := [];
    }
  }

  lemma {:induction false} TrimEndRemoves(s: string) returns (blank: string)
    ensures IsBlankText(blank) && TrimEnd(s) + blank == s
  {
    if s != [] && IsSpace(s[|s| - 1]) {
      blank := TrimEndRemoves(s[..|s| - 1]);
      blank := blank + [s[|s| - 1]];
    } else {
      blank := [];
    }
  }

  /** Trimming takes away white space at both ends, and nothing else. */
  lemma TrimRemovesBlanks(s: string) returns (before: string, after: string)
    ensures IsBlankText(before) && IsBlankText(after) && before + Trim(s) + after == s
  {
    before := TrimStartRemoves(s);
    after := TrimEndRemoves(TrimStart(s));
    assert before + (Trim(s) + after) == before + Trim(s) + after;
  }

  lemma {:induction false} TrimEndSkips(text: string, blank: string)
    requires IsBlankText(blank)
    ensures TrimEnd(text + blank) == TrimEnd(text)
  {
    if blank == [] {
      assert text + blank == text;
    } else {
      var rest := blank[..|blank| - 1];
      assert (text + blank)[..|text + blank| - 1] == text + rest;
      TrimEndSkips(text, rest);
    }
  }

  /** And it takes away all of it: white space around a text does not matter. */
  lemma TrimAround(before: string, s: string, after: string)
    requires IsBlankText(before) && IsBlankText(after)
    ensures Trim(before + s + after) == Trim(s)
  {
    assert before + s + after == before + (s + after);
    TrimStartSkips(before, s + after);
    var blank := TrimStartRemoves(s);
    assert s + after == blank + (TrimStart(s) + after);
    TrimStartSkips(blank, TrimStart(s) + after);
    if TrimStart(s) == [] {
      assert TrimStart(s) + after == after;
      TrimStartSkips(after, []);
      assert after + [] == after;
    } else {
      TrimEndSkips(TrimStart(s), after);
    }
  }

  lemma {:induction false} TrimStartSkips(blank: string, rest: string)
    requires forall c :: c in blank ==> IsSpace(c)
    ensures TrimStart(blank + rest) == TrimStart(rest)
  {
    if blank == [] {
      assert blank + rest == rest;
    } else {
      assert (blank + rest)[1..] == blank[1..] + rest;
      assert forall c :: c in blank[1..] ==> c in blank;
      TrimStartSkips(blank[1..], rest);
    }
  }

  /** String.prototype.replaceAll with a string pattern: leftmost, non-overlapping, no special
      replacement patterns (no replacement used by the scripts contains a dollar sign). */
  function ReplaceAll(s: string, pattern: string, replacement: string): string
    requires pattern != []
  {
    if |s| < |pattern| then s
    else if pattern <= s then replacement + ReplaceAll(s[|pattern|..], pattern, replacement)
    else [s[0]] + ReplaceAll(s[1..], pattern, replacement)
  }

  /** A single-character pattern is replaced character by character. */
  lemma {:induction false} ReplaceAllChar(s: string, t: string, c: char, replacement: string)
    ensures ReplaceAll([c] + t, [c], replacement) == replacement + ReplaceAll(t, [c], replacement)
    ensures ReplaceAll(s + t, [c], replacement) == ReplaceAll(s, [c], replacement) + ReplaceAll(t, [c], replacement)
  {
    assert ([c] + t)[1..] == t;
    if s == [] {
      assert s + t == t;
    } else {
      assert (s + t)[1..] == s[1..] + t;
      ReplaceAllChar(s[1..], t, c, replacement);
    }
  }

  /** Texts joined by a separator. */
  function JoinedBy(pieces: seq<string>, separator: string): string {
    if pieces == [] then [] else if |pieces| == 1 then pieces[0] else pieces[0] + separator + JoinedBy(pieces[1..], separator)
  }

  lemma {:induction false} JoinOneMore(pieces: seq<string>, last: string, separator: string)
    requires pieces != []
    ensures JoinedBy(pieces + [last], separator) == JoinedBy(pieces, separator) + (separator + last)
  {
    var longer := pieces + [last];
    assert longer[1..] == pieces[1..] + [last];
    if |pieces| == 1 {
      assert JoinedBy(longer[1..], separator) == last;
    } else {
      JoinOneMore(pieces[1..], last, separator);
    }
  }

  /** The pattern occurs in t at place i. */
  predicate OccursAt(pattern: string, t: string, i: nat) {
    i <= |t| && pattern <= t[i..]
  }

  ghost predicate Lacks(t: string, pattern: string) {
    forall i: nat :: !OccursAt(pattern, t, i)
  }

  /** In each piece followed by the pattern, the pattern occurs at the end only, and in the last piece not at all. */
  ghost predicate AreCutAt(pieces: seq<string>, pattern: string) {
    && pieces != []
    && (forall k, i: nat :: 0 <= k < |pieces| - 1 && i < |pieces[k]| ==> !OccursAt(pattern, pieces[k] + pattern, i))
    && Lacks(pieces[|pieces| - 1], pattern)
  }

  /** What replaceAll does: the text is cut at the leftmost occurrences that do not overlap, and the pieces
      are joined by the replacement instead. */
  lemma {:induction false} ReplaceAllRejoins(s: string, pattern: string, replacement: string) returns (pieces: seq<string>)
    requires pattern != []
    ensures AreCutAt(pieces, pattern)
    ensures s == JoinedBy(pieces, pattern) && ReplaceAll(s, pattern, replacement) == JoinedBy(pieces, replacement)
  {
    hide AreCutAt, JoinedBy, ReplaceAll;
    ReplaceAllStep(s, pattern, replacement);
    if |s| < |pattern| {
      pieces := [s];
      OnePiece(s, pattern, replacement);
    } else if pattern <= s {
      var tail := ReplaceAllRejoins(s[|pattern|..], pattern, replacement);
      pieces := [""] + tail;
      TextSplits(s, |pattern|);
      JoinEmpty(tail, pattern, pattern);
      JoinEmpty(tail, replacement, pattern);
      CutFirst("", tail, pattern);
    } else {
      var tail := ReplaceAllRejoins(s[1..], pattern, replacement);
      CutIsNotEmpty(tail, pattern);
      TextSplits(s, 1);
      pieces := [[s[0]] + tail[0]] + tail[1..];
      CutLonger(s, tail, pattern);
      JoinLonger(s[0], tail, pattern);
      JoinLonger(s[0], tail, replacement);
    }
  }

  lemma ReplaceAllStep(s: string, pattern: string, replacement: string)
    requires pattern != []
    ensures ReplaceAll(s, pattern, replacement)
            == if |s| < |pattern| then s
               else if pattern <= s then replacement + ReplaceAll(s[|pattern|..], pattern, replacement)
               else [s[0]] + ReplaceAll(s[1..], pattern, replacement)
  {
  }

  lemma TextSplits(s: string, i: nat)
    requires i <= |s|
    ensures s == s[..i] + s[i..]
  {
  }

  lemma OnePiece(s: string, pattern: string, replacement: string)
    requires |s| < |pattern|
    ensures AreCutAt([s], pattern) && JoinedBy([s], pattern) == s && JoinedBy([s], replacement) == s
  {
  }

  lemma JoinEmpty(tail: seq<string>, separator: string, pattern: string)
    requires AreCutAt(tail, pattern)
    ensures JoinedBy([""] + tail, separator) == separator + JoinedBy(tail, separator)
  {
    var pieces := [""] + tail;
    assert pieces[1..] == tail;
  }

  lemma CutIsNotEmpty(pieces: seq<string>, pattern: string)
    requires AreCutAt(pieces, pattern)
    ensures pieces != []
  {
  }

  lemma CutFirst(piece: string, tail: seq<string>, pattern: string)
    requires AreCutAt(tail, pattern) && forall i: nat :: i < |piece| ==> !OccursAt(pattern, piece + pattern, i)
    ensures AreCutAt([piece] + tail, pattern)
  {
    var pieces := [piece] + tail;
    forall k, i: nat | 0 <= k < |pieces| - 1 && i < |pieces[k]| ensures !OccursAt(pattern, pieces[k] + pattern, i) {
      assert k > 0 ==> pieces[k] == tail[k - 1];
    }
    assert pieces[|pieces| - 1] == tail[|tail| - 1];
  }

  lemma JoinLonger(c: char, tail: seq<string>, separator: string)
    requires tail != []
    ensures JoinedBy([[c] + tail[0]] + tail[1..], separator) == [c] + JoinedBy(tail, separator)
  {
    var pieces := [[c] + tail[0]] + tail[1..];
    assert pieces[1..] == tail[1..];
    if |tail| > 1 {
      assert [c] + tail[0] + separator + JoinedBy(tail[1..], separator) == [c] + (tail[0] + separator + JoinedBy(tail[1..], separator));
    }
  }

  lemma CutLonger(s: string, tail: seq<string>, pattern: string)
    requires s != [] && !(pattern <= s) && pattern != []
    requires AreCutAt(tail, pattern) && s[1..] == JoinedBy(tail, pattern)
    ensures AreCutAt([[s[0]] + tail[0]] + tail[1..], pattern)
  {
    var first := [s[0]] + tail[0];
    var pieces := [first] + tail[1..];
    if |tail| == 1 {
      forall i: nat ensures !OccursAt(pattern, first, i) {
        if i == 0 {
          assert first[0..] == s;
        } else if i <= |first| {
          assert first[i..] == tail[0][i - 1..];
          assert !OccursAt(pattern, tail[0], i - 1);
        }
      }
    } else {
      forall i: nat | i < |first| ensures !OccursAt(pattern, first + pattern, i) {
        if i == 0 {
          assert s == first + pattern + JoinedBy(tail[1..], pattern);
          assert first + pattern <= s;
        } else {
          assert (first + pattern)[i..] == (tail[0] + pattern)[i - 1..];
          assert !OccursAt(pattern, tail[0] + pattern, i - 1);
        }
      }
      forall k, i: nat | 0 <= k < |pieces| - 1 && i < |pieces[k]| ensures !OccursAt(pattern, pieces[k] + pattern, i) {
        assert k > 0 ==> pieces[k] == tail[k];
      }
      assert pieces[|pieces| - 1] == tail[|tail| - 1];
    }
  }

  /** The order of code units, as the scripts' compareText and compareCodeUnits. */
  predicate Precedes(a: string, b: string) {
    b != [] && (a == [] || CodeUnit(a[0]) < CodeUnit(b[0]) || (a[0] == b[0] && Precedes(a[1..], b[1..])))
  }

  lemma {:induction false} PrecedesTotal(a: string, b: string)
    ensures a != b ==> Precedes(a, b) || Precedes(b, a)
    ensures !(Precedes(a, b) && Precedes(b, a))
    ensures !Precedes(a, a)
  {
    if a != [] {
      PrecedesTotal(a[1..], if b == [] then [] else b[1..]);
      if b != [] {
        assert a == [a[0]] + a[1..] && b == [b[0]] + b[1..];
        if CodeUnit(a[0]) == CodeUnit(b[0]) {
          CodeUnitIsInjective(a[0], b[0]);
        }
      }
    }
  }

  /** The first difference decides, or else the length. */
  ghost predicate DiffersAt(a: string, b: string, k: nat) {
    && k <= |a| && k < |b| && a[..k] == b[..k]
    && (k == |a| || CodeUnit(a[k]) < CodeUnit(b[k]))
  }

  /** It is the lexicographic order. */
  lemma {:induction false} PrecedesIsLexicographic(a: string, b: string)
    ensures Precedes(a, b) <==> exists k: nat :: DiffersAt(a, b, k)
  {
    if a != [] && b != [] && a[0] == b[0] {
      PrecedesIsLexicographic(a[1..], b[1..]);
      if k: nat :| DiffersAt(a[1..], b[1..], k) {
        assert a[..k + 1] == [a[0]] + a[1..][..k] && b[..k + 1] == [b[0]] + b[1..][..k];
        assert DiffersAt(a, b, k + 1);
      }
      if k: nat :| DiffersAt(a, b, k) {
        assert k > 0;
        assert a[1..][..k - 1] == a[..k][1..] && b[1..][..k - 1] == b[..k][1..];
        assert DiffersAt(a[1..], b[1..], k - 1);
      }
    } else {
      if k: nat :| DiffersAt(a, b, k) {
        assert k > 0 ==> a[0] == a[..k][0] && b[0] == b[..k][0];
      }
      if Precedes(a, b) {
        assert DiffersAt(a, b, 0);
      }
      if a != [] && b != [] && CodeUnit(a[0]) == CodeUnit(b[0]) {
        CodeUnitIsInjective(a[0], b[0]);
      }
    }
  }

  lemma {:induction false} PrecedesTransitive(a: string, b: string, c: string)
    requires Precedes(a, b) && Precedes(b, c)
    ensures Precedes(a, c)
  {
    if a != [] && a[0] == b[0] == c[0] {
      PrecedesTransitive(a[1..], b[1..], c[1..]);
    }
  }

  // ---- reading a text from the left ----

  /** The rest of s at i. */
  predicate Rests(s: string, i: nat, rest: string) {
    i <= |s| && s[i..] == rest
  }

  lemma Passed(s: string, i: nat, x: string, rest: string)
    requires Rests(s, i, x + rest)
    ensures i + |x| <= |s| && s[i..i + |x|] == x && Rests(s, i + |x|, rest)
    ensures forall k :: 0 <= k < |x| ==> s[i + k] == x[k]
  {
    assert s[i..][|x|..] == rest && s[i..][..|x|] == x;
    assert forall k :: 0 <= k < |x| ==> s[i + k] == s[i..][k];
  }
}
