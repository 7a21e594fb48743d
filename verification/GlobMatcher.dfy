/** The segment glob matcher of the policy coverage check, and the checks that rely on it. */
module GlobMatcher {
  import opened Sequences
  import opened Text

  type Parts = seq<string>

  const ANY := "*"
  const DEEP := "**"

  // ---- the matcher ----

  predicate MatchesParts(pattern: Parts, value: Parts)
    decreases |pattern|
  {
    if pattern == [] then value == []
    else if pattern[0] == DEEP then
      if |pattern| == 1 then true
      else exists index :: 0 <= index <= |value| && MatchesParts(pattern[1..], value[index..])
    else if value == [] then false
    else if pattern[0] != ANY && pattern[0] != value[0] then false
    else MatchesParts(pattern[1..], value[1..])
  }

  method ComputeMatchesParts(patternParts: Parts, valueParts: Parts) returns (r: bool)
    ensures r == MatchesParts(patternParts, valueParts)
    decreases |patternParts|
  {
    if |patternParts| == 0 {
      return |valueParts| == 0;
    }
    var head, tail := patternParts[0], patternParts[1..];
    if head == DEEP {
      if |tail| == 0 {
        return true;
      }
      var index := 0;
      while index <= |valueParts|
        invariant index <= |valueParts| + 1
        invariant forall i :: 0 <= i < index ==> !MatchesParts(tail, valueParts[i..])
      {
        var found := ComputeMatchesParts(tail, valueParts[index..]);
        if found {
          return true;
        }
        index := index + 1;
      }
      return false;
    }
    if |valueParts| == 0 {
      return false;
    }
    if head != ANY && head != valueParts[0] {
      return false;
    }
    r := ComputeMatchesParts(tail, valueParts[1..]);
  }

  /** String.prototype.split("."): never empty, one more part than there are dots. */
  function Split(s: string): (parts: Parts)
    ensures parts != []
  {
    if s == [] then [""]
    else
      var rest := Split(s[1..]);
      if s[0] == '.' then [""] + rest else [[s[0]] + rest[0]] + rest[1..]
  }

  predicate HasNoDot(part: string) {
    '.' !in part
  }

  /** Splitting cuts at every dot and keeps everything else: no part has a dot, and joined with dots the
      parts are the text. */
  lemma {:induction false} SplitIsExact(s: string)
    ensures forall i :: 0 <= i < |Split(s)| ==> HasNoDot(Split(s)[i])
    ensures JoinedBy(Split(s), ".") == s
  {
    if s != [] {
      SplitIsExact(s[1..]);
      var rest := Split(s[1..]);
      if s[0] == '.' {
        assert ([""] + rest)[1..] == rest;
      } else {
        JoinLonger(s[0], rest, ".");
      }
      assert s == [s[0]] + s[1..];
    }
  }

  predicate IsLiteral(pattern: Parts) {
    forall i :: 0 <= i < |pattern| ==> pattern[i] != ANY && pattern[i] != DEEP
  }

  lemma {:induction false} LiteralPartsMatch(pattern: Parts, value: Parts)
    requires IsLiteral(pattern)
    ensures MatchesParts(pattern, value) <==> pattern == value
  {
    if pattern != [] {
      if value != [] {
        LiteralPartsMatch(pattern[1..], value[1..]);
        assert pattern == [pattern[0]] + pattern[1..] && value == [value[0]] + value[1..];
      }
    }
  }

  /** A pattern without wildcard parts matches itself and no other path. */
  lemma LiteralMatchesItselfOnly(pattern: string, value: string)
    requires IsLiteral(Split(pattern))
    ensures PathMatchesPattern(pattern, value) <==> pattern == value
  {
    hide Split, MatchesParts;
    LiteralPartsMatch(Split(pattern), Split(value));
    SplitIsExact(pattern);
    SplitIsExact(value);
  }

  predicate PathMatchesPattern(pattern: string, value: string) {
    MatchesParts(Split(pattern), Split(value))
  }

  // ---- composition ----

  /** What `**` does at any place of a pattern: it takes any run of parts. */
  lemma DeepTakesAnyRun(tail: Parts, value: Parts)
    ensures MatchesParts([DEEP] + tail, value) <==> exists index :: 0 <= index <= |value| && MatchesParts(tail, value[index..])
  {
    assert ([DEEP] + tail)[1..] == tail;
    if tail == [] {
      assert value[|value|..] == [];
    }
  }

  /** A value splits where the first pattern ends. */
  ghost predicate SplitsAt(p: Parts, q: Parts, value: Parts, k: nat) {
    k <= |value| && MatchesParts(p, value[..k]) && MatchesParts(q, value[k..])
  }

  /** The matcher is compositional: p ++ q matches exactly the concatenations of a match of p and a match of q. */
  lemma {:induction false} MatchIsCompositional(p: Parts, q: Parts, value: Parts)
    ensures MatchesParts(p + q, value) <==> exists k: nat :: SplitsAt(p, q, value, k)
    decreases |p|
  {
    if MatchesParts(p + q, value) {
      var k := SplitPoint(p, q, value);
    }
    if k: nat :| SplitsAt(p, q, value, k) {
      JoinMatches(p, q, value[..k], value[k..]);
      assert value[..k] + value[k..] == value;
    }
  }

  lemma {:induction false} SplitPoint(p: Parts, q: Parts, value: Parts) returns (k: nat)
    requires MatchesParts(p + q, value)
    ensures SplitsAt(p, q, value, k)
    decreases |p|
  {
    if p == [] {
      assert p + q == q;
      assert value[..0] == [] && value[0..] == value;
      k := 0;
    } else {
      var tail := p[1..];
      assert (p + q)[1..] == tail + q;
      assert [p[0]] + tail == p;
      if p[0] == DEEP {
        assert [DEEP] + (tail + q) == p + q;
        DeepTakesAnyRun(tail + q, value);
        var index :| 0 <= index <= |value| && MatchesParts(tail + q, value[index..]);
        var rest := SplitPoint(tail, q, value[index..]);
        k := index + rest;
        assert value[..k][index..] == value[index..][..rest];
        assert value[k..] == value[index..][rest..];
        DeepTakesAnyRun(tail, value[..k]);
      } else {
        var rest := SplitPoint(tail, q, value[1..]);
        k := rest + 1;
        assert value[..k][1..] == value[1..][..rest];
        assert value[k..] == value[1..][rest..];
      }
    }
  }

  lemma {:induction false} JoinMatches(p: Parts, q: Parts, a: Parts, b: Parts)
    requires MatchesParts(p, a) && MatchesParts(q, b)
    ensures MatchesParts(p + q, a + b)
    decreases |p|
  {
    if p == [] {
      assert p + q == q && a + b == b;
    } else {
      hide MatchesParts;
      var tail := p[1..];
      assert [p[0]] + tail == p && [p[0]] + (tail + q) == p + q;
      if p[0] == DEEP {
        DeepTakesAnyRun(tail, a);
        var index :| 0 <= index <= |a| && MatchesParts(tail, a[index..]);
        JoinMatches(tail, q, a[index..], b);
        assert (a + b)[index..] == a[index..] + b;
        DeepTakesAnyRun(tail + q, a + b);
      } else {
        ShallowTakesOne(p[0], tail, a);
        JoinMatches(tail, q, a[1..], b);
        assert (a + b)[1..] == a[1..] + b;
        ShallowTakesOne(p[0], tail + q, a + b);
      }
    }
  }

  /** What any other part does at the head of a pattern: it takes one part. */
  lemma ShallowTakesOne(part: string, tail: Parts, value: Parts)
    requires part != DEEP
    ensures MatchesParts([part] + tail, value) <==> value != [] && (part == ANY || part == value[0]) && MatchesParts(tail, value[1..])
  {
    assert ([part] + tail)[1..] == tail;
  }

  // ---- an independent reading of patterns: each part takes a run of the path ----

  predicate Takes(part: string, run: Parts) {
    part == DEEP || (|run| == 1 && (part == ANY || part == run[0]))
  }

  /** A cut of the value into one run for each pattern part. */
  ghost predicate IsAlignment(pattern: Parts, runs: seq<Parts>, value: Parts) {
    |runs| == |pattern| && Flatten(runs) == value && forall i :: 0 <= i < |pattern| ==> Takes(pattern[i], runs[i])
  }

  lemma SinglePart(part: string, value: Parts)
    ensures MatchesParts([part], value) <==> Takes(part, value)
  {
    assert [part][1..] == [];
    if value != [] {
      assert value[1..] == [] <==> |value| == 1;
    }
  }

  lemma {:induction false} MatchHasAlignment(pattern: Parts, value: Parts) returns (runs: seq<Parts>)
    requires MatchesParts(pattern, value)
    ensures IsAlignment(pattern, runs, value)
    decreases |pattern|
  {
    if pattern == [] {
      runs := [];
    } else {
      assert [pattern[0]] + pattern[1..] == pattern;
      var k := SplitPoint([pattern[0]], pattern[1..], value);
      var rest := MatchHasAlignment(pattern[1..], value[k..]);
      SinglePart(pattern[0], value[..k]);
      runs := [value[..k]] + rest;
      assert runs[1..] == rest && value[..k] + value[k..] == value;
    }
  }

  lemma {:induction false} AlignmentMatches(pattern: Parts, runs: seq<Parts>, value: Parts)
    requires IsAlignment(pattern, runs, value)
    ensures MatchesParts(pattern, value)
    decreases |pattern|
  {
    if pattern != [] {
      AlignmentMatches(pattern[1..], runs[1..], Flatten(runs[1..]));
      SinglePart(pattern[0], runs[0]);
      assert [pattern[0]] + pattern[1..] == pattern;
      JoinMatches([pattern[0]], pattern[1..], runs[0], Flatten(runs[1..]));
    }
  }

  /** The recursive matcher accepts a value exactly when it can be cut into runs that the parts take. */
  lemma MatchIsAlignment(pattern: Parts, value: Parts)
    ensures MatchesParts(pattern, value) <==> exists runs :: IsAlignment(pattern, runs, value)
  {
    hide MatchesParts;
    if MatchesParts(pattern, value) {
      var runs := MatchHasAlignment(pattern, value);
    }
    if runs :| IsAlignment(pattern, runs, value) {
      AlignmentMatches(pattern, runs, value);
    }
  }

  lemma {:induction false} SplitJoin(s: string, t: string)
    ensures Split(s + "." + t) == Split(s) + Split(t)
  {
    var whole := s + "." + t;
    if s == [] {
      assert whole[1..] == t;
    } else {
      assert whole[1..] == s[1..] + "." + t;
      SplitJoin(s[1..], t);
    }
  }

  /** In terms of pattern strings: joining two patterns with a dot joins their languages. */
  lemma JoinedPatterns(a: string, b: string, value: string)
    ensures PathMatchesPattern(a + "." + b, value) <==> exists k: nat :: SplitsAt(Split(a), Split(b), Split(value), k)
  {
    hide *;
    JoinedUnfolds(a, b, value);
    MatchIsCompositional(Split(a), Split(b), Split(value));
  }

  lemma JoinedUnfolds(a: string, b: string, value: string)
    ensures PathMatchesPattern(a + "." + b, value) == MatchesParts(Split(a) + Split(b), Split(value))
  {
    hide MatchesParts, Split;
    SplitJoin(a, b);
  }

  // ---- reading a pattern as a path ----

  predicate IsShallow(pattern: Parts) {
    DEEP !in pattern
  }

  /** A matches every path that B matches. */
  ghost predicate Covers(a: Parts, b: Parts) {
    forall value :: MatchesParts(b, value) ==> MatchesParts(a, value)
  }

  lemma {:induction false} ShallowMatchIsCovered(a: Parts, b: Parts, value: Parts)
    requires IsShallow(b) && MatchesParts(a, b) && MatchesParts(b, value)
    ensures MatchesParts(a, value)
    decreases |a|
  {
    ShallowLength(b, value);
    if a != [] && a[0] == DEEP {
      if |a| > 1 {
        var index :| 0 <= index <= |b| && MatchesParts(a[1..], b[index..]);
        assert b == b[..index] + b[index..];
        MatchIsCompositional(b[..index], b[index..], value);
        var k: nat :| SplitsAt(b[..index], b[index..], value, k);
        assert IsShallow(b[..index]) && IsShallow(b[index..]);
        ShallowLength(b[..index], value[..k]);
        ShallowMatchIsCovered(a[1..], b[index..], value[k..]);
      }
    } else if a != [] {
      assert b[0] != DEEP;
      assert IsShallow(b[1..]);
      ShallowMatchIsCovered(a[1..], b[1..], value[1..]);
    }
  }

  lemma {:induction false} ShallowLength(b: Parts, value: Parts)
    requires IsShallow(b) && MatchesParts(b, value)
    ensures |b| == |value|
  {
    if b != [] {
      assert b[0] != DEEP;
      assert IsShallow(b[1..]);
      ShallowLength(b[1..], value[1..]);
    }
  }

  /** The pattern with every `**` weakened to `*`. */
  function Flattened(b: Parts): (f: Parts)
    ensures |f| == |b| && IsShallow(f)
  {
    if b == [] then [] else [if b[0] == DEEP then ANY else b[0]] + Flattened(b[1..])
  }

  lemma {:induction false} FlattenedMatches(b: Parts)
    ensures MatchesParts(Flattened(b), b)
  {
    if b != [] {
      FlattenedMatches(b[1..]);
      assert Flattened(b)[1..] == Flattened(b[1..]);
    }
  }

  /** A deep pattern matches a path with more parts than it has itself: itself with `**` doubled. */
  lemma {:induction false} DeepMatchesLonger(b: Parts) returns (value: Parts)
    requires !IsShallow(b)
    ensures MatchesParts(b, value) && |value| > |b|
  {
    hide MatchesParts;
    var i :| 0 <= i < |b| && b[i] == DEEP;
    var p, q := b[..i], [DEEP] + b[i + 1..];
    assert b == p + q;
    value := p + ([DEEP, DEEP] + b[i + 1..]);
    MatchesItself(p);
    MatchesItself(b[i + 1..]);
    assert ([DEEP, DEEP] + b[i + 1..])[2..] == b[i + 1..];
    DeepTakesAnyRun(b[i + 1..], [DEEP, DEEP] + b[i + 1..]);
    JoinMatches(p, q, p, [DEEP, DEEP] + b[i + 1..]);
  }

  lemma {:induction false} MatchesItself(b: Parts)
    ensures MatchesParts(b, b)
  {
    if b != [] {
      MatchesItself(b[1..]);
      assert [b[0]] + b[1..] == b;
      if b[0] == DEEP {
        DeepTakesAnyRun(b[1..], b);
      }
    }
  }

  /** Matching a pattern read as a path is a sound test for covering it exactly when that pattern has no `**`. */
  lemma CoverageTestExactly(b: Parts)
    ensures IsShallow(b) <==> forall a :: MatchesParts(a, b) ==> Covers(a, b)
  {
    if IsShallow(b) {
      forall a, value | MatchesParts(a, b) && MatchesParts(b, value) ensures MatchesParts(a, value) {
        ShallowMatchIsCovered(a, b, value);
      }
    } else {
      var a := Flattened(b);
      FlattenedMatches(b);
      var value := DeepMatchesLonger(b);
      if MatchesParts(a, value) {
        ShallowLength(a, value);
      }
      assert !Covers(a, b);
    }
  }

  /** For a `**`-free pattern, being matched as a path and being covered are the same. */
  lemma CoverageOfShallow(a: Parts, b: Parts)
    requires IsShallow(b)
    ensures MatchesParts(a, b) <==> Covers(a, b)
  {
    MatchesItself(b);
    CoverageTestExactly(b);
  }

  /** The test fails on `**`: `*` matches it as a path, but not the longer paths it matches. */
  lemma DeepIsNotCovered()
    ensures MatchesParts([ANY], [DEEP]) && MatchesParts([DEEP], ["a", "b"]) && !MatchesParts([ANY], ["a", "b"])
  {
    SinglePart(ANY, [DEEP]);
    SinglePart(DEEP, ["a", "b"]);
    SinglePart(ANY, ["a", "b"]);
  }

  // ---- the checks ----

  datatype Classification = Classification(pattern: string, allowNoSchemaPath: bool)

  /** The first classification whose pattern matches a path. */
  function Classify(classifications: seq<Classification>, path: string): Option<Classification> {
    if classifications == [] then None
    else if PathMatchesPattern(classifications[0].pattern, path) then Some(classifications[0])
    else Classify(classifications[1..], path)
  }

  /** A monitored pattern is excused from having paths if an allowing classification matches it, read as a path. */
  predicate IsExcused(classifications: seq<Classification>, pattern: string) {
    exists i :: 0 <= i < |classifications| && classifications[i].allowNoSchemaPath
                && PathMatchesPattern(classifications[i].pattern, pattern)
  }

  lemma {:induction false} ClassifyFindsMatch(classifications: seq<Classification>, path: string)
    ensures Classify(classifications, path).Some?
            <==> exists i :: 0 <= i < |classifications| && PathMatchesPattern(classifications[i].pattern, path)
  {
    if classifications != [] && !PathMatchesPattern(classifications[0].pattern, path) {
      ClassifyFindsMatch(classifications[1..], path);
      forall i | 0 <= i < |classifications| && PathMatchesPattern(classifications[i].pattern, path)
        ensures Classify(classifications[1..], path).Some?
      {
        assert classifications[i] == classifications[1..][i - 1];
      }
    }
  }

  /** And it is the first one. */
  lemma {:induction false} ClassifyFindsFirst(classifications: seq<Classification>, path: string, i: nat)
    requires i < |classifications| && PathMatchesPattern(classifications[i].pattern, path)
    requires forall j :: 0 <= j < i ==> !PathMatchesPattern(classifications[j].pattern, path)
    ensures Classify(classifications, path) == Some(classifications[i])
  {
    if i > 0 {
      assert !PathMatchesPattern(classifications[0].pattern, path);
      ClassifyFindsFirst(classifications[1..], path, i - 1);
    }
  }

  /** Why the excuse is safe: whatever path a `**`-free excused pattern comes to match later is already classified. */
  lemma ExcusedPatternsAreClassified(classifications: seq<Classification>, pattern: string, path: string)
    requires IsExcused(classifications, pattern) && IsShallow(Split(pattern))
    requires PathMatchesPattern(pattern, path)
    ensures Classify(classifications, path).Some?
  {
    var i :| 0 <= i < |classifications| && classifications[i].allowNoSchemaPath
             && PathMatchesPattern(classifications[i].pattern, pattern);
    ShallowMatchIsCovered(Split(classifications[i].pattern), Split(pattern), Split(path));
    ClassifyFindsMatch(classifications, path);
  }
}
