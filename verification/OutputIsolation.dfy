/** The guard that keeps an output directory apart from protected directories: both paths are made
    canonical as far as they exist, and must not overlap. */
module OutputIsolation {
  import opened Sequences

  predicate IsPath(p: Path) {
    forall i :: 0 <= i < |p| ==> p[i] != "" && '/' !in p[i]
  }

  // ---- overlap, as a test on path texts ----

  function Tail(p: Path): string {
    if p == [] then "" else "/" + p[0] + Tail(p[1..])
  }

  /** The text of a resolved path; only the root's ends with the separator. */
  function Text(p: Path): string {
    if p == [] then "/" else Tail(p)
  }

  /** Folding is the identity, or lower-casing where the file system ignores case. */
  predicate PathsOverlap(left: string, right: string, fold: char -> char) {
    var resolvedLeft, resolvedRight := Map(fold, left), Map(fold, right);
    || resolvedLeft == resolvedRight
    || resolvedRight + "/" <= resolvedLeft
    || resolvedLeft + "/" <= resolvedRight
  }

  ghost predicate KeepsSeparator(fold: char -> char) {
    forall c :: fold(c) == '/' <==> c == '/'
  }

  function Folded(p: Path, fold: char -> char): Path {
    Map((segment: string) => Map(fold, segment), p)
  }

  predicate IsAtOrBelow(x: Path, p: Path) {
    p <= x
  }

  /** Some path lies at or below both. */
  ghost predicate ShareDescendant(a: Path, b: Path) {
    exists x :: IsAtOrBelow(x, a) && IsAtOrBelow(x, b)
  }

  lemma {:induction false} MapAppend<T, U>(f: T -> U, s: seq<T>, t: seq<T>)
    ensures Map(f, s + t) == Map(f, s) + Map(f, t)
  {
    if s == [] {
      assert s + t == t;
    } else {
      MapAppend(f, s[1..], t);
      assert (s + t)[1..] == s[1..] + t;
    }
  }

  lemma {:induction false} FoldedTail(p: Path, fold: char -> char)
    requires KeepsSeparator(fold)
    ensures Map(fold, Tail(p)) == Tail(Folded(p, fold))
  {
    if p != [] {
      FoldedTail(p[1..], fold);
      assert Folded(p, fold) == [Map(fold, p[0])] + Folded(p[1..], fold);
      assert Map(fold, "/") == "/";
      MapAppend(fold, "/" + p[0], Tail(p[1..]));
      MapAppend(fold, "/", p[0]);
    }
  }

  lemma {:induction false} FoldedSegment(segment: string, fold: char -> char)
    requires KeepsSeparator(fold) && segment != "" && '/' !in segment
    ensures Map(fold, segment) != "" && '/' !in Map(fold, segment)
  {
  }

  lemma FoldedPath(p: Path, fold: char -> char)
    requires KeepsSeparator(fold) && IsPath(p)
    ensures IsPath(Folded(p, fold))
  {
    forall i | 0 <= i < |p| ensures Folded(p, fold)[i] != "" && '/' !in Folded(p, fold)[i] {
      FoldedSegment(p[i], fold);
    }
  }

  predicate StartsSegment(s: string) {
    s != "" ==> s[0] == '/'
  }

  /** A segment ends where the next separator is. */
  lemma {:induction false} SegmentsSplit(s: string, t: string, x: string, y: string)
    requires '/' !in s && '/' !in t && StartsSegment(x) && StartsSegment(y)
    ensures x != "" ==> (s + x <= t + y <==> s == t && x <= y)
    ensures s + x == t + y <==> s == t && x == y
  {
    if s == "" {
      assert s + x == x;
      SegmentStart(t, x, y);
    } else if t == "" {
      assert t + y == y;
      SegmentStart(s, y, x);
    } else {
      SegmentsSplit(s[1..], t[1..], x, y);
      PeelFirst(s, t, x, y);
    }
  }

  lemma SegmentStart(t: string, x: string, y: string)
    requires '/' !in t && StartsSegment(x) && StartsSegment(y)
    ensures t != "" ==> (x != "" ==> !(x <= t + y)) && x != t + y && !(t + y <= x)
    ensures t == "" ==> t + y == y
  {
    assert t != "" ==> (t + y)[0] == t[0] != '/';
  }

  lemma PeelFirst(s: string, t: string, x: string, y: string)
    requires s != "" && t != ""
    ensures s + x <= t + y <==> s[0] == t[0] && s[1..] + x <= t[1..] + y
    ensures s + x == t + y <==> s[0] == t[0] && s[1..] + x == t[1..] + y
    ensures s == t <==> s[0] == t[0] && s[1..] == t[1..]
  {
    assert s + x == [s[0]] + (s[1..] + x) && t + y == [t[0]] + (t[1..] + y);
    assert s == [s[0]] + s[1..] && t == [t[0]] + t[1..];
    AfterFirst(s[0], s[1..] + x, t[1..] + y);
    if s + x <= t + y {
      assert (s + x)[0] == (t + y)[0];
    }
  }

  /** Ending in a separator, the text of a path begins exactly the texts of its strict descendants. */
  lemma {:induction false} TailPrefix(a: Path, b: Path)
    requires IsPath(a) && IsPath(b)
    ensures Tail(a) + "/" <= Tail(b) <==> a < b
    ensures Tail(a) == Tail(b) <==> a == b
  {
    if a != [] && b != [] {
      TailPrefix(a[1..], b[1..]);
      var x, y := Tail(a[1..]), Tail(b[1..]);
      SegmentsSplit(a[0], b[0], x + "/", y);
      SegmentsSplit(a[0], b[0], x, y);
      assert Tail(a) + "/" == "/" + (a[0] + (x + "/"));
      assert Tail(a) == "/" + (a[0] + x) && Tail(b) == "/" + (b[0] + y);
      AfterFirst('/', a[0] + (x + "/"), b[0] + y);
      AfterFirst('/', a[0] + x, b[0] + y);
      assert a < b <==> a[0] == b[0] && a[1..] < b[1..];
    }
  }

  lemma AfterFirst(c: char, s: string, t: string)
    ensures [c] + s <= [c] + t <==> s <= t
    ensures [c] + s == [c] + t <==> s == t
  {
    assert ([c] + s)[1..] == s && ([c] + t)[1..] == t;
    if [c] + s <= [c] + t {
      assert forall i :: 0 <= i < |s| ==> s[i] == ([c] + s)[i + 1] == ([c] + t)[i + 1] == t[i];
    }
  }

  /** The textual test is exact but for the root: it reports an overlap exactly when some path lies
      below both directories, except that the root overlaps nothing but itself. */
  lemma OverlapExactly(left: Path, right: Path, fold: char -> char)
    requires IsPath(left) && IsPath(right) && KeepsSeparator(fold)
    ensures PathsOverlap(Text(left), Text(right), fold)
            <==> (left == [] <==> right == []) && ShareDescendant(Folded(left, fold), Folded(right, fold))
  {
    var a, b := Folded(left, fold), Folded(right, fold);
    FoldedPath(left, fold);
    FoldedPath(right, fold);
    FoldedTail(left, fold);
    FoldedTail(right, fold);
    TailPrefix(a, b);
    TailPrefix(b, a);
    FoldedRoot(fold);
    TextOverlap(a, b);
    SharedOrNested(a, b);
  }

  /** Folding where the file system minds case. */
  function Same(c: char): char {
    c
  }

  /** The root contains every directory, but the test does not report it. */
  lemma RootOverlapIsMissed()
    ensures !PathsOverlap(Text([]), Text(["dist"]), Same)
    ensures ShareDescendant(Folded([], Same), Folded(["dist"], Same))
  {
    OverlapExactly([], ["dist"], Same);
    SharedOrNested(Folded([], Same), Folded(["dist"], Same));
  }

  lemma FoldedRoot(fold: char -> char)
    requires KeepsSeparator(fold)
    ensures Map(fold, "/") == "/"
  {
    assert fold('/') == '/';
  }

  lemma SharedOrNested(a: Path, b: Path)
    ensures ShareDescendant(a, b) <==> a <= b || b <= a
  {
    if a <= b {
      assert IsAtOrBelow(b, a) && IsAtOrBelow(b, b);
    } else if b <= a {
      assert IsAtOrBelow(a, a) && IsAtOrBelow(a, b);
    }
  }

  lemma TextOverlap(a: Path, b: Path)
    requires IsPath(a) && IsPath(b)
    requires Tail(a) + "/" <= Tail(b) <==> a < b
    requires Tail(b) + "/" <= Tail(a) <==> b < a
    requires Tail(a) == Tail(b) <==> a == b
    ensures (Text(a) == Text(b) || Text(b) + "/" <= Text(a) || Text(a) + "/" <= Text(b))
            <==> (a == [] <==> b == []) && (a <= b || b <= a)
  {
    assert a != [] ==> |Text(a)| >= 2 && Text(a)[1] == a[0][0] != '/';
    assert b != [] ==> |Text(b)| >= 2 && Text(b)[1] == b[0][0] != '/';
  }

  // ---- a file system with symbolic links ----

  datatype Node = Directory | File | Link(target: Path)

  type FileSystem = map<Path, Node>

  /** A real path and the number of links that could still have been followed; nothing there; or
      another error (a file used as a directory, or too many links). */
  datatype Outcome = Found(path: Path, links: nat) | Missing | Broken

  /** realpath from the real directory `at` on, following at most so many links. */
  function Resolve(fs: FileSystem, at: Path, rest: Path, links: nat): Outcome
    decreases links, |rest|
  {
    if rest == [] then Found(at, links)
    else
      var next := at + [rest[0]];
      if next !in fs then Missing
      else
        match fs[next]
        case Directory => Resolve(fs, next, rest[1..], links)
        case File => if |rest| == 1 then Found(next, links) else Broken
        case Link(target) => if links == 0 then Broken else Resolve(fs, [], target + rest[1..], links - 1)
  }

  function Realpath(fs: FileSystem, path: Path, links: nat): Outcome {
    Resolve(fs, [], path, links)
  }

  /** The real path of the longest prefix that is there, then the missing segments. */
  function Canonical(fs: FileSystem, value: Path, links: nat): Result<Path, Outcome> {
    match Realpath(fs, value, links)
    case Found(path, _) => Success(path)
    case Broken => Failure(Broken)
    case Missing =>
      if value == [] then Failure(Missing)
      else
        Below(Canonical(fs, value[..|value| - 1], links), value[|value| - 1..])
  }

  function Reversed(s: Path): Path {
    if s == [] then [] else Reversed(s[1..]) + [s[0]]
  }

  function Below(parent: Result<Path, Outcome>, segments: Path): Result<Path, Outcome> {
    if parent.Failure? then parent else Success(parent.value + segments)
  }

  lemma NothingMissing(parent: Result<Path, Outcome>)
    ensures Below(parent, Reversed([])) == parent
  {
    if parent.Success? {
      assert parent.value + [] == parent.value;
    }
  }

  lemma OneMoreMissing(fs: FileSystem, current: Path, links: nat, segments: Path)
    requires current != [] && Realpath(fs, current, links) == Missing
    ensures Below(Canonical(fs, current, links), segments)
            == Below(Canonical(fs, current[..|current| - 1], links), [current[|current| - 1]] + segments)
  {
    var parent := Canonical(fs, current[..|current| - 1], links);
    if parent.Success? {
      assert parent.value + current[|current| - 1..] + segments == parent.value + ([current[|current| - 1]] + segments);
    }
  }

  method CanonicalizeExistingPathPrefix(fs: FileSystem, value: Path, links: nat) returns (r: Result<Path, Outcome>)
    ensures r == Canonical(fs, value, links)
  {
    var current := value;
    var missingSegments: Path := [];
    NothingMissing(Canonical(fs, value, links));
    while true
      invariant Canonical(fs, value, links) == Below(Canonical(fs, current, links), Reversed(missingSegments))
      decreases |current|
    {
      match Realpath(fs, current, links) {
        case Found(path, _) => return Success(path + Reversed(missingSegments));
        case Broken => return Failure(Broken);
        case Missing =>
          if current == [] {
            return Failure(Missing);
          }
          ReversedAppend(missingSegments, current[|current| - 1]);
          OneMoreMissing(fs, current, links, Reversed(missingSegments));
          missingSegments := missingSegments + [current[|current| - 1]];
          current := current[..|current| - 1];
      }
    }
  }

  lemma {:induction false} ReversedAppend(s: Path, x: string)
    ensures Reversed(s + [x]) == [x] + Reversed(s)
  {
    if s != [] {
      ReversedAppend(s[1..], x);
      assert (s + [x])[1..] == s[1..] + [x];
    }
  }

  // ---- how resolution composes ----

  predicate IsDirectory(fs: FileSystem, p: Path) {
    p == [] || (p in fs && fs[p] == Directory)
  }

  /** A path without links, all of whose parents are directories. */
  ghost predicate IsReal(fs: FileSystem, p: Path) {
    && (forall j :: 1 <= j < |p| ==> p[..j] in fs && fs[p[..j]] == Directory)
    && (p == [] || (p in fs && !fs[p].Link?))
  }

  lemma {:induction false} MissingExtends(fs: FileSystem, at: Path, a: Path, b: Path, links: nat)
    requires Resolve(fs, at, a, links) == Missing
    ensures Resolve(fs, at, a + b, links) == Missing
    decreases links, |a|
  {
    assert (a + b)[0] == a[0] && (a + b)[1..] == a[1..] + b;
    var next := at + [a[0]];
    if next in fs && fs[next].Directory? {
      MissingExtends(fs, next, a[1..], b, links);
    } else if next in fs && fs[next].Link? {
      var target := fs[next].target;
      assert target + (a[1..] + b) == (target + a[1..]) + b;
      MissingExtends(fs, [], target + a[1..], b, links - 1);
    }
  }

  /** Being allowed to follow more links changes nothing but errors. */
  lemma {:induction false} MoreLinks(fs: FileSystem, at: Path, a: Path, links: nat, more: nat)
    requires links <= more && Resolve(fs, at, a, links) != Broken
    ensures var o, o' := Resolve(fs, at, a, links), Resolve(fs, at, a, more);
            if o.Missing? then o'.Missing? else o'.Found? && o'.path == o.path
    decreases links, |a|
  {
    if a != [] {
      var next := at + [a[0]];
      if next in fs && fs[next].Directory? {
        MoreLinks(fs, next, a[1..], links, more);
      } else if next in fs && fs[next].Link? {
        MoreLinks(fs, [], fs[next].target + a[1..], links - 1, more - 1);
      }
    }
  }

  lemma RealChild(fs: FileSystem, at: Path, name: string)
    requires IsReal(fs, at) && IsDirectory(fs, at) && at + [name] in fs && !fs[at + [name]].Link?
    ensures IsReal(fs, at + [name])
  {
    var p := at + [name];
    forall j | 1 <= j < |p| ensures p[..j] in fs && fs[p[..j]] == Directory {
      assert p[..j] == at[..j];
      assert at[..|at|] == at;
    }
  }

  lemma {:induction false} FoundIsReal(fs: FileSystem, at: Path, a: Path, links: nat)
    requires IsReal(fs, at) && (a != [] ==> IsDirectory(fs, at)) && Resolve(fs, at, a, links).Found?
    ensures IsReal(fs, Resolve(fs, at, a, links).path) && Resolve(fs, at, a, links).links <= links
    decreases links, |a|
  {
    if a != [] {
      var next := at + [a[0]];
      if fs[next].Link? {
        FoundIsReal(fs, [], fs[next].target + a[1..], links - 1);
      } else {
        RealChild(fs, at, a[0]);
        if fs[next].Directory? {
          FoundIsReal(fs, next, a[1..], links);
        }
      }
    }
  }

  /** Resolving a + b goes on from where a leads, which must be a directory. */
  lemma {:induction false} ResolveVia(fs: FileSystem, at: Path, a: Path, b: Path, links: nat)
    requires IsDirectory(fs, at) && Resolve(fs, at, a, links).Found? && b != []
    ensures var o := Resolve(fs, at, a, links);
            Resolve(fs, at, a + b, links) == if IsDirectory(fs, o.path) then Resolve(fs, o.path, b, o.links) else Broken
    decreases links, |a|
  {
    if a == [] {
      assert a + b == b;
    } else {
      assert (a + b)[0] == a[0] && (a + b)[1..] == a[1..] + b;
      var next := at + [a[0]];
      match fs[next]
      case Directory => ResolveVia(fs, next, a[1..], b, links);
      case File =>
      case Link(target) =>
        assert target + (a[1..] + b) == (target + a[1..]) + b;
        ResolveVia(fs, [], target + a[1..], b, links - 1);
    }
  }

  lemma {:induction false} RealResolves(fs: FileSystem, p: Path, j: nat, links: nat)
    requires IsReal(fs, p) && j <= |p|
    ensures Resolve(fs, p[..j], p[j..], links) == Found(p, links)
    decreases |p| - j
  {
    if j == |p| {
      assert p[..j] == p;
    } else {
      RealResolves(fs, p, j + 1, links);
      assert p[..j] + [p[j..][0]] == p[..j + 1] && p[j..][1..] == p[j + 1..];
      assert j + 1 == |p| ==> p[..j + 1] == p;
    }
  }

  // ---- the canonical path ----

  /** How the canonical path comes about: from the longest prefix that is there. */
  ghost predicate IsDeepest(fs: FileSystem, value: Path, links: nat, k: nat) {
    && k <= |value|
    && Realpath(fs, value[..k], links) != Missing
    && forall i :: k < i <= |value| ==> Realpath(fs, value[..i], links) == Missing
  }

  /** The root is always there, so the search never runs out of parents. */
  lemma {:induction false} CanonicalFromDeepest(fs: FileSystem, value: Path, links: nat) returns (k: nat)
    ensures IsDeepest(fs, value, links, k)
    ensures Canonical(fs, value, links)
            == var o := Realpath(fs, value[..k], links); if o.Found? then Success(o.path + value[k..]) else Failure(Broken)
    decreases |value|
  {
    var n := |value|;
    assert value[..n] == value;
    if Realpath(fs, value, links) != Missing {
      k := n;
      var o := Realpath(fs, value, links);
      assert o.Found? ==> o.path + value[n..] == o.path;
    } else {
      var parent := value[..n - 1];
      k := CanonicalFromDeepest(fs, parent, links);
      forall i | k < i <= n ensures Realpath(fs, value[..i], links) == Missing {
        if i < n {
          assert parent[..i] == value[..i];
        }
      }
      assert parent[..k] == value[..k] && parent[k..] + value[n - 1..] == value[k..];
      var o := Realpath(fs, value[..k], links);
      assert o.Found? ==> o.path + parent[k..] + value[n - 1..] == o.path + value[k..];
    }
  }

  lemma {:induction false} CanonicalOfDeepest(fs: FileSystem, value: Path, links: nat, k: nat)
    requires IsDeepest(fs, value, links, k) && Realpath(fs, value[..k], links).Found?
    ensures Canonical(fs, value, links) == Success(Realpath(fs, value[..k], links).path + value[k..])
  {
    var deepest := CanonicalFromDeepest(fs, value, links);
    assert deepest == k;
  }

  /** A canonical path is canonical already. */
  lemma CanonicalIsFixedPoint(fs: FileSystem, value: Path, links: nat)
    requires Canonical(fs, value, links).Success?
    ensures Canonical(fs, Canonical(fs, value, links).value, links) == Canonical(fs, value, links)
  {
    hide Canonical, Resolve;
    var k := CanonicalFromDeepest(fs, value, links);
    var o, rest := Realpath(fs, value[..k], links), value[k..];
    var p := o.path;
    FoundIsReal(fs, [], value[..k], links);
    RealPrefix(fs, p, links);
    if rest != [] {
      FirstMissing(fs, value, links, k);
      assert IsDirectory(fs, p);
    }
    var c := p + rest;
    forall i | |p| < i <= |c| ensures Realpath(fs, c[..i], links) == Missing {
      FirstMissing(fs, value, links, k);
      MissingExtends(fs, [], p + [rest[0]], rest[1..i - |p|], links);
      assert c[..i] == p + [rest[0]] + rest[1..i - |p|];
    }
    assert c[..|p|] == p && c[|p|..] == rest;
    CanonicalOfDeepest(fs, c, links, |p|);
  }

  lemma RealPrefix(fs: FileSystem, p: Path, links: nat)
    requires IsReal(fs, p)
    ensures Realpath(fs, p, links) == Found(p, links)
  {
    RealResolves(fs, p, 0, links);
    assert p[..0] == [] && p[0..] == p;
  }

  /** What is missing under a real path is missing there too when it is looked up by that path. */
  lemma FirstMissing(fs: FileSystem, value: Path, links: nat, k: nat)
    requires IsDeepest(fs, value, links, k) && k < |value| && Realpath(fs, value[..k], links).Found?
    ensures var p := Realpath(fs, value[..k], links).path;
            IsDirectory(fs, p) && Realpath(fs, p + [value[k]], links) == Missing
  {
    hide Resolve;
    var o := Realpath(fs, value[..k], links);
    var p := o.path;
    assert value[..k] + [value[k]] == value[..k + 1];
    assert Realpath(fs, value[..k + 1], links) == Missing;
    ResolveVia(fs, [], value[..k], [value[k]], links);
    FoundIsReal(fs, [], value[..k], links);
    MoreLinks(fs, p, [value[k]], o.links, links);
    RealPrefix(fs, p, links);
    ResolveVia(fs, [], p, [value[k]], links);
  }
}
