/** What the output guard is worth once the output has been reserved: where the output and a protected
    directory can come to lie while the file system grows. */
module GuardedOutput {
  import opened Sequences
  import opened OutputIsolation
  import OutputReservation

  // ---- what the check saw is what is reserved ----

  ghost predicate Extends(fs: FileSystem, fs': FileSystem) {
    forall p :: p in fs ==> p in fs' && fs'[p] == fs[p]
  }

  lemma {:induction false} FoundStays(fs: FileSystem, fs': FileSystem, at: Path, a: Path, links: nat)
    requires Extends(fs, fs') && Resolve(fs, at, a, links).Found?
    ensures Resolve(fs', at, a, links) == Resolve(fs, at, a, links)
    decreases links, |a|
  {
    if a != [] {
      var next := at + [a[0]];
      match fs[next]
      case Directory => FoundStays(fs, fs', next, a[1..], links);
      case File =>
      case Link(target) => FoundStays(fs, fs', [], target + a[1..], links - 1);
    }
  }

  /** Every path from `at` along the target is a directory. */
  ghost predicate AreDirectories(fs: FileSystem, at: Path, target: Path) {
    forall j :: 1 <= j <= |target| ==> at + target[..j] in fs && fs[at + target[..j]] == Directory
  }

  /** Whatever is there along the target is a directory. */
  ghost predicate OnlyDirectories(fs: FileSystem, at: Path, target: Path) {
    forall j :: 1 <= j <= |target| && at + target[..j] in fs ==> fs[at + target[..j]] == Directory
  }

  lemma {:induction false} WalkDirectories(fs: FileSystem, at: Path, target: Path, links: nat)
    requires OnlyDirectories(fs, at, target)
    ensures Resolve(fs, at, target, links) == Missing || Resolve(fs, at, target, links) == Found(at + target, links)
    ensures AreDirectories(fs, at, target) ==> Resolve(fs, at, target, links).Found?
    decreases |target|
  {
    if target == [] {
      assert at + target == at;
    } else {
      var next := at + [target[0]];
      assert next == at + target[..1];
      forall j | 1 <= j <= |target| - 1 ensures next + target[1..][..j] == at + target[..j + 1] {
      }
      if next in fs {
        assert OnlyDirectories(fs, next, target[1..]);
        WalkDirectories(fs, next, target[1..], links);
        assert next + target[1..] == at + target;
        assert AreDirectories(fs, at, target) ==> AreDirectories(fs, next, target[1..]);
      }
    }
  }

  lemma {:induction false} CanonicalAlongDirectories(fs: FileSystem, root: Path, target: Path, links: nat)
    requires Realpath(fs, root, links).Found? && IsDirectory(fs, Realpath(fs, root, links).path)
    requires OnlyDirectories(fs, Realpath(fs, root, links).path, target)
    ensures Canonical(fs, root + target, links) == Success(Realpath(fs, root, links).path + target)
    decreases |target|
  {
    hide Resolve;
    var o := Realpath(fs, root, links);
    if target == [] {
      assert root + target == root && o.path + target == o.path;
    } else {
      ResolveVia(fs, [], root, target, links);
      WalkDirectories(fs, o.path, target, o.links);
      if Realpath(fs, root + target, links) == Missing {
        var n := |target|;
        var parent := target[..n - 1];
        forall j | 1 <= j <= |parent| ensures parent[..j] == target[..j] {
        }
        CanonicalAlongDirectories(fs, root, parent, links);
        var value := root + target;
        assert value[..|value| - 1] == root + parent && value[|value| - 1..] == target[n - 1..];
        assert o.path + parent + target[n - 1..] == o.path + target;
      }
    }
  }

  /** The check and the reservation are separate steps, but they are about the same place: if the file
      system only grew in between, and every path walked from the root is a directory in the end, then
      the real path of the output is the canonical path the check computed. */
  lemma CheckedPlaceIsReserved(fs: FileSystem, fs': FileSystem, root: Path, target: Path, links: nat)
    requires Extends(fs, fs')
    requires Realpath(fs, root, links).Found? && IsDirectory(fs, Realpath(fs, root, links).path)
    requires AreDirectories(fs', Realpath(fs, root, links).path, target)
    ensures Canonical(fs, root + target, links) == Success(Realpath(fs, root, links).path + target)
    ensures Realpath(fs', root + target, links).Found?
            && Realpath(fs', root + target, links).path == Realpath(fs, root, links).path + target
  {
    hide Resolve, Canonical;
    var o := Realpath(fs, root, links);
    CanonicalAlongDirectories(fs, root, target, links);
    FoundStays(fs, fs', [], root, links);
    if target == [] {
      assert root + target == root && o.path + target == o.path;
    } else {
      ResolveVia(fs', [], root, target, links);
      WalkDirectories(fs', o.path, target, o.links);
    }
  }

  /** The guard for one protected directory; a path that cannot be made canonical is refused. */
  predicate Accepts(fs: FileSystem, output: Path, guarded: Path, fold: char -> char, links: nat) {
    var canonicalOutput, canonicalGuarded := Canonical(fs, output, links), Canonical(fs, guarded, links);
    && canonicalOutput.Success? && canonicalGuarded.Success?
    && !PathsOverlap(Text(canonicalOutput.value), Text(canonicalGuarded.value), fold)
  }

  /** Names and link targets are paths, and whatever is there lies in a directory. */
  ghost predicate IsFileSystem(fs: FileSystem) {
    && (forall p :: p in fs ==> IsPath(p) && (fs[p].Link? ==> IsPath(fs[p].target)))
    && forall parent: Path, name: string :: parent + [name] in fs ==> IsDirectory(fs, parent)
  }

  lemma CanonicalIsPath(fs: FileSystem, value: Path, links: nat)
    requires IsFileSystem(fs) && IsPath(value) && Canonical(fs, value, links).Success?
    ensures IsPath(Canonical(fs, value, links).value)
  {
    hide Resolve, Canonical;
    var k := CanonicalFromDeepest(fs, value, links);
    FoundIsReal(fs, [], value[..k], links);
  }

  /** The check accepted an output below a root directory. */
  ghost predicate IsAccepted(fs: FileSystem, root: Path, target: Path, guarded: Path, fold: char -> char, links: nat) {
    && IsFileSystem(fs) && IsPath(root) && IsPath(target) && IsPath(guarded) && KeepsSeparator(fold) && target != []
    && Realpath(fs, root, links).Found? && IsDirectory(fs, Realpath(fs, root, links).path)
    && Accepts(fs, root + target, guarded, fold, links)
  }

  /** The place the check means by the output. */
  ghost function Place(fs: FileSystem, root: Path, target: Path, links: nat): Path
    requires Realpath(fs, root, links).Found?
  {
    Realpath(fs, root, links).path + target
  }

  /** A file system that may be there once the output has been reserved: it only grew, and the output's
      path is made of directories. */
  ghost predicate MayBecome(fs: FileSystem, fs': FileSystem, root: Path, target: Path, links: nat)
    requires Realpath(fs, root, links).Found?
  {
    Extends(fs, fs') && IsFileSystem(fs') && AreDirectories(fs', Realpath(fs, root, links).path, target)
  }

  /** The two directories are there, and some path lies at or below both. */
  ghost predicate Meet(fs: FileSystem, output: Path, guarded: Path, fold: char -> char, links: nat) {
    var o, g := Realpath(fs, output, links), Realpath(fs, guarded, links);
    o.Found? && g.Found? && ShareDescendant(Folded(o.path, fold), Folded(g.path, fold))
  }

  /** The canonical paths of the check overlap nowhere, unless the protected one is the root. */
  lemma CheckedPathsAreApart(fs: FileSystem, root: Path, target: Path, guarded: Path, fold: char -> char, links: nat)
    requires IsAccepted(fs, root, target, guarded, fold, links)
    ensures Canonical(fs, root + target, links).Success? && Canonical(fs, guarded, links).Success?
    ensures var output, apart := Canonical(fs, root + target, links).value, Canonical(fs, guarded, links).value;
            ShareDescendant(Folded(output, fold), Folded(apart, fold)) <==> output == [] || apart == []
  {
    hide Resolve, Canonical, PathsOverlap, ShareDescendant;
    CanonicalIsPath(fs, root + target, links);
    CanonicalIsPath(fs, guarded, links);
    var output, apart := Canonical(fs, root + target, links).value, Canonical(fs, guarded, links).value;
    OverlapExactly(output, apart, fold);
    EverythingIsBelowRoot(Folded(output, fold), fold);
    EverythingIsBelowRoot(Folded(apart, fold), fold);
  }

  lemma EverythingIsBelowRoot(p: Path, fold: char -> char)
    ensures ShareDescendant(p, Folded([], fold)) && ShareDescendant(Folded([], fold), p)
  {
    assert IsAtOrBelow(p, p) && IsAtOrBelow(p, Folded([], fold));
  }

  lemma GrownDirectories(fs: FileSystem, fs': FileSystem, at: Path, target: Path)
    requires Extends(fs, fs') && AreDirectories(fs', at, target)
    ensures OnlyDirectories(fs, at, target)
  {
  }

  /** A protected directory that was there at the check keeps its place, and an accepted and then
      reserved output lies apart from it, unless it is the root. */
  lemma ReservedStaysApart(fs: FileSystem, fs': FileSystem, root: Path, target: Path, guarded: Path,
                           fold: char -> char, links: nat)
    requires IsAccepted(fs, root, target, guarded, fold, links)
    requires MayBecome(fs, fs', root, target, links)
    requires Realpath(fs, guarded, links).Found?
    ensures Realpath(fs', guarded, links) == Realpath(fs, guarded, links)
    ensures Meet(fs', root + target, guarded, fold, links) <==> Realpath(fs, guarded, links).path == []
  {
    hide Resolve, ShareDescendant, IsPath, PathsOverlap, Accepts, IsFileSystem;
    GrownDirectories(fs, fs', Realpath(fs, root, links).path, target);
    CheckedPlaceIsReserved(fs, fs', root, target, links);
    CheckedPathsAreApart(fs, root, target, guarded, fold, links);
    FoundStays(fs, fs', [], guarded, links);
  }

  // ---- where the lookup of a missing path stops ----

  /** The real directory a lookup has reached, what is left of the path, and the links left to follow. */
  datatype Stop = Stop(at: Path, rest: Path, links: nat)

  function StopPoint(fs: FileSystem, at: Path, rest: Path, links: nat): Stop
    requires Resolve(fs, at, rest, links) == Missing
    decreases links, |rest|
  {
    var next := at + [rest[0]];
    if next !in fs then Stop(at, rest, links)
    else if fs[next].Link? then StopPoint(fs, [], fs[next].target + rest[1..], links - 1)
    else StopPoint(fs, next, rest[1..], links)
  }

  lemma {:induction false} StopIsReal(fs: FileSystem, at: Path, rest: Path, links: nat)
    requires IsFileSystem(fs) && IsReal(fs, at) && IsDirectory(fs, at) && IsPath(at) && IsPath(rest)
    requires Resolve(fs, at, rest, links) == Missing
    ensures var s := StopPoint(fs, at, rest, links);
            && s.rest != [] && s.at + [s.rest[0]] !in fs && s.links <= links
            && IsReal(fs, s.at) && IsDirectory(fs, s.at) && IsPath(s.at) && IsPath(s.rest)
    decreases links, |rest|
  {
    var next := at + [rest[0]];
    if next in fs {
      if fs[next].Link? {
        StopIsReal(fs, [], fs[next].target + rest[1..], links - 1);
      } else {
        RealChild(fs, at, rest[0]);
        StopIsReal(fs, next, rest[1..], links);
      }
    }
  }

  /** Whatever is added later, the lookup goes on from there. */
  lemma {:induction false} StopResolves(fs: FileSystem, fs': FileSystem, at: Path, rest: Path, links: nat)
    requires Extends(fs, fs') && Resolve(fs, at, rest, links) == Missing
    ensures var s := StopPoint(fs, at, rest, links);
            Resolve(fs', at, rest, links) == Resolve(fs', s.at, s.rest, s.links)
    decreases links, |rest|
  {
    var next := at + [rest[0]];
    if next in fs {
      if fs[next].Link? {
        StopResolves(fs, fs', [], fs[next].target + rest[1..], links - 1);
      } else {
        StopResolves(fs, fs', next, rest[1..], links);
      }
    }
  }

  /** With no link left to follow, a lookup can only find the path it is given. */
  lemma {:induction false} NoLinksLeft(fs: FileSystem, at: Path, rest: Path)
    requires Resolve(fs, at, rest, 0).Found?
    ensures Resolve(fs, at, rest, 0).path == at + rest
    decreases |rest|
  {
    if rest == [] {
      assert at + rest == at;
    } else {
      var next := at + [rest[0]];
      assert next + rest[1..] == at + rest;
      if fs[next].Directory? {
        NoLinksLeft(fs, next, rest[1..]);
      } else {
        assert rest == [rest[0]];
      }
    }
  }

  // ---- how a file system may grow ----

  lemma {:induction false} NothingBelowMissing(fs: FileSystem, p: Path, q: Path)
    requires IsFileSystem(fs) && p !in fs && p != [] && p <= q
    ensures q !in fs
    decreases |q|
  {
    if p != q {
      var parent, name := Front(q), Last(q);
      assert p <= parent && parent + [name] == q;
      NothingBelowMissing(fs, p, parent);
      assert !IsDirectory(fs, parent);
    }
  }

  /** The file system with the missing directories from `at` along the target. */
  function WithDirectories(fs: FileSystem, at: Path, target: Path): FileSystem
    decreases |target|
  {
    if target == [] then fs
    else
      var next := at + [target[0]];
      WithDirectories(if next in fs then fs else fs[next := Directory], next, target[1..])
  }

  /** What is in the grown file system and was not before is a directory along the target. */
  ghost predicate OnlyAddsAlong(fs: FileSystem, fs': FileSystem, at: Path, target: Path) {
    forall p :: p in fs' && p !in fs ==> at < p <= at + target && fs'[p] == Directory
  }

  lemma {:induction false} DirectoriesAdded(fs: FileSystem, at: Path, target: Path)
    requires IsFileSystem(fs) && IsPath(at) && IsPath(target) && IsDirectory(fs, at) && OnlyDirectories(fs, at, target)
    ensures var fs' := WithDirectories(fs, at, target);
            Extends(fs, fs') && IsFileSystem(fs') && AreDirectories(fs', at, target) && OnlyAddsAlong(fs, fs', at, target)
    decreases |target|
  {
    if target != [] {
      var next := at + [target[0]];
      var grown := if next in fs then fs else fs[next := Directory];
      assert next == at + target[..1];
      DirectoryAdded(fs, at, target[0]);
      var rest := target[1..];
      forall j | 1 <= j <= |rest| ensures next + rest[..j] == at + target[..j + 1] {
      }
      OnlyDirectoriesBelow(fs, grown, at, target);
      DirectoriesAdded(grown, next, rest);
      var fs' := WithDirectories(fs, at, target);
      DirectoriesFurther(fs', at, target);
      AddsFurther(fs, grown, fs', at, target);
    }
  }

  lemma DirectoryAdded(fs: FileSystem, at: Path, name: string)
    requires IsFileSystem(fs) && IsPath(at) && name != "" && '/' !in name && IsDirectory(fs, at)
    ensures var next := at + [name]; var grown := if next in fs then fs else fs[next := Directory];
            IsFileSystem(grown) && Extends(fs, grown) && IsPath(next) && OnlyAddsAlong(fs, grown, at, [name])
  {
    ParentsStay(fs, at, name, Directory);
  }

  lemma ParentsStay(fs: FileSystem, at: Path, name: string, node: Node)
    requires IsFileSystem(fs) && IsDirectory(fs, at)
    ensures forall parent: Path, other: string ::
              parent + [other] in fs[at + [name] := node] && at + [name] !in fs
              ==> IsDirectory(fs[at + [name] := node], parent)
  {
    var next := at + [name];
    forall parent: Path, other: string | parent + [other] in fs[next := node] && next !in fs
      ensures IsDirectory(fs[next := node], parent)
    {
      if parent + [other] == next {
        assert parent == Front(next) == at;
      }
      assert IsDirectory(fs, parent);
    }
  }

  lemma OnlyDirectoriesBelow(fs: FileSystem, grown: FileSystem, at: Path, target: Path)
    requires target != [] && OnlyDirectories(fs, at, target)
    requires var next := at + [target[0]]; grown == if next in fs then fs else fs[next := Directory]
    ensures IsDirectory(grown, at + [target[0]]) && OnlyDirectories(grown, at + [target[0]], target[1..])
  {
    var next, rest := at + [target[0]], target[1..];
    assert next == at + target[..1];
    forall j | 1 <= j <= |rest| && next + rest[..j] in grown ensures grown[next + rest[..j]] == Directory {
      assert next + rest[..j] == at + target[..j + 1];
    }
  }

  lemma DirectoriesFurther(fs: FileSystem, at: Path, target: Path)
    requires target != [] && IsDirectory(fs, at + [target[0]]) && AreDirectories(fs, at + [target[0]], target[1..])
    ensures AreDirectories(fs, at, target)
  {
    var next, rest := at + [target[0]], target[1..];
    forall j | 1 <= j <= |target| ensures at + target[..j] in fs && fs[at + target[..j]] == Directory {
      if j == 1 {
        assert at + target[..1] == next;
      } else {
        assert at + target[..j] == next + rest[..j - 1];
      }
    }
  }

  lemma AddsFurther(fs: FileSystem, grown: FileSystem, fs': FileSystem, at: Path, target: Path)
    requires target != [] && Extends(grown, fs')
    requires OnlyAddsAlong(fs, grown, at, [target[0]]) && OnlyAddsAlong(grown, fs', at + [target[0]], target[1..])
    ensures OnlyAddsAlong(fs, fs', at, target)
  {
    var next := at + [target[0]];
    assert next + target[1..] == at + target;
    assert at < next <= at + target;
    forall p | p in fs' && p !in fs ensures at < p <= at + target && fs'[p] == Directory {
      if p in grown {
        assert at < p <= next;
      } else {
        assert next < p <= at + target;
      }
    }
  }

  // ---- exactly when the two directories can meet ----

  /** Where the protected directory would be, made of directories, if it was missing at the check. */
  ghost function Landing(fs: FileSystem, guarded: Path, links: nat): Path
    requires Realpath(fs, guarded, links) == Missing
  {
    var s := StopPoint(fs, [], guarded, links);
    s.at + s.rest
  }

  /** What to look at to tell whether the output can still meet the protected directory: one that is
      there must be the root; one that is missing can become a link to the output if the lookup has a
      link to spare, and else must be a path through the output's place. */
  ghost predicate CanMeet(fs: FileSystem, place: Path, guarded: Path, fold: char -> char, links: nat) {
    var g := Realpath(fs, guarded, links);
    || (g.Found? && g.path == [])
    || (g == Missing && (|| StopPoint(fs, [], guarded, links).links > 0
                         || ShareDescendant(Folded(place, fold), Folded(Landing(fs, guarded, links), fold))))
  }

  /** After the reservation the two directories can meet in some file system that only grew exactly if
      the condition held at the check. */
  lemma CanMeetExactly(fs: FileSystem, root: Path, target: Path, guarded: Path, fold: char -> char, links: nat)
    requires IsAccepted(fs, root, target, guarded, fold, links)
    requires OnlyDirectories(fs, Realpath(fs, root, links).path, target)
    ensures (exists fs' :: MayBecome(fs, fs', root, target, links) && Meet(fs', root + target, guarded, fold, links))
            <==> CanMeet(fs, Place(fs, root, target, links), guarded, fold, links)
  {
    hide Resolve, Meet, MayBecome, CanMeet, IsFileSystem, StopPoint, ShareDescendant;
    if fs' :| MayBecome(fs, fs', root, target, links) && Meet(fs', root + target, guarded, fold, links) {
      MeetingIsForeseen(fs, fs', root, target, guarded, fold, links);
    }
    if CanMeet(fs, Place(fs, root, target, links), guarded, fold, links) {
      var fs' := MeetingIsPossible(fs, root, target, guarded, fold, links);
    }
  }

  lemma MeetingIsForeseen(fs: FileSystem, fs': FileSystem, root: Path, target: Path, guarded: Path,
                          fold: char -> char, links: nat)
    requires IsAccepted(fs, root, target, guarded, fold, links)
    requires MayBecome(fs, fs', root, target, links) && Meet(fs', root + target, guarded, fold, links)
    ensures CanMeet(fs, Place(fs, root, target, links), guarded, fold, links)
  {
    hide Resolve, ShareDescendant, IsFileSystem, StopPoint, IsPath, PathsOverlap;
    if Realpath(fs, guarded, links).Found? {
      ReservedStaysApart(fs, fs', root, target, guarded, fold, links);
    } else {
      CheckedPlaceIsReserved(fs, fs', root, target, links);
      StopResolves(fs, fs', [], guarded, links);
      var s := StopPoint(fs, [], guarded, links);
      if s.links == 0 {
        NoLinksLeft(fs', s.at, s.rest);
      }
    }
  }

  lemma MeetingIsPossible(fs: FileSystem, root: Path, target: Path, guarded: Path, fold: char -> char, links: nat)
      returns (fs': FileSystem)
    requires IsAccepted(fs, root, target, guarded, fold, links)
    requires OnlyDirectories(fs, Realpath(fs, root, links).path, target)
    requires CanMeet(fs, Place(fs, root, target, links), guarded, fold, links)
    ensures MayBecome(fs, fs', root, target, links) && Meet(fs', root + target, guarded, fold, links)
  {
    hide Resolve, ShareDescendant, IsFileSystem, StopPoint, IsPath, PathsOverlap, WithDirectories, Accepts, Canonical;
    var base, place := Realpath(fs, root, links).path, Place(fs, root, target, links);
    FoundIsReal(fs, [], root, links);
    RealIsPath(fs, base);
    DirectoriesAdded(fs, base, target);
    var reserved := WithDirectories(fs, base, target);
    CheckedPlaceIsReserved(fs, reserved, root, target, links);
    if Realpath(fs, guarded, links).Found? {
      fs' := reserved;
      FoundStays(fs, fs', [], guarded, links);
      EverythingIsBelowRoot(Folded(place, fold), fold);
    } else {
      StopIsReal(fs, [], guarded, links);
      var s := StopPoint(fs, [], guarded, links);
      if ShareDescendant(Folded(place, fold), Folded(s.at + s.rest, fold)) {
        fs' := LandingMade(fs, reserved, s, base, target);
        ExtendsTwice(fs, reserved, fs');
        CheckedPlaceIsReserved(fs, fs', root, target, links);
        StopResolves(fs, fs', [], guarded, links);
      } else {
        NotNested(place, s.at + s.rest, fold);
        fs' := LinkMade(fs, reserved, s, base, target);
        ExtendsTwice(fs, reserved, fs');
        CheckedPlaceIsReserved(fs, fs', root, target, links);
        StopResolves(fs, fs', [], guarded, links);
        SharesItself(Folded(place, fold));
      }
    }
  }

  lemma ExtendsTwice(a: FileSystem, b: FileSystem, c: FileSystem)
    requires Extends(a, b) && Extends(b, c)
    ensures Extends(a, c)
  {
  }

  lemma SharesItself(p: Path)
    ensures ShareDescendant(p, p)
  {
    assert IsAtOrBelow(p, p);
  }

  lemma NotNested(p: Path, q: Path, fold: char -> char)
    requires !ShareDescendant(Folded(p, fold), Folded(q, fold))
    ensures !(p <= q) && !(q <= p)
  {
    SharedOrNested(Folded(p, fold), Folded(q, fold));
  }

  lemma RealIsPath(fs: FileSystem, p: Path)
    requires IsFileSystem(fs) && IsReal(fs, p)
    ensures IsPath(p)
  {
  }

  /** The reserved file system as it grew from the one at the check, and where the lookup of the
      protected directory stopped at the check. */
  ghost predicate IsReserved(fs: FileSystem, reserved: FileSystem, s: Stop, base: Path, target: Path) {
    && IsFileSystem(fs) && IsFileSystem(reserved) && Extends(fs, reserved)
    && OnlyAddsAlong(fs, reserved, base, target) && AreDirectories(reserved, base, target)
    && s.rest != [] && s.at + [s.rest[0]] !in fs && IsPath(s.at) && IsPath(s.rest) && IsDirectory(fs, s.at)
  }

  lemma NothingOnTheWay(fs: FileSystem, reserved: FileSystem, s: Stop, base: Path, target: Path)
    requires IsReserved(fs, reserved, s, base, target)
    ensures OnlyDirectories(reserved, s.at, s.rest) && IsDirectory(reserved, s.at)
    ensures forall p :: s.at + [s.rest[0]] <= p && p in reserved ==> base < p <= base + target
  {
    forall p | s.at + [s.rest[0]] <= p && p in reserved ensures base < p <= base + target && reserved[p] == Directory {
      NothingBelowMissing(fs, s.at + [s.rest[0]], p);
    }
    forall j | 1 <= j <= |s.rest| ensures s.at + [s.rest[0]] <= s.at + s.rest[..j] {
      assert s.at + s.rest[..j] == s.at + [s.rest[0]] + s.rest[1..j];
    }
  }

  /** The protected directory is made where its lookup leads. */
  lemma LandingMade(fs: FileSystem, reserved: FileSystem, s: Stop, base: Path, target: Path) returns (fs': FileSystem)
    requires IsReserved(fs, reserved, s, base, target)
    ensures Extends(reserved, fs') && IsFileSystem(fs') && AreDirectories(fs', base, target)
    ensures Resolve(fs', s.at, s.rest, s.links) == Found(s.at + s.rest, s.links)
  {
    NothingOnTheWay(fs, reserved, s, base, target);
    DirectoriesAdded(reserved, s.at, s.rest);
    fs' := WithDirectories(reserved, s.at, s.rest);
    WalkDirectories(fs', s.at, s.rest, s.links);
  }

  /** The protected directory is made a link to the output. */
  lemma LinkMade(fs: FileSystem, reserved: FileSystem, s: Stop, base: Path, target: Path) returns (fs': FileSystem)
    requires IsReserved(fs, reserved, s, base, target) && s.links > 0
    requires IsReal(reserved, base) && IsDirectory(reserved, base) && IsPath(base) && IsPath(target)
    requires !(base + target <= s.at + s.rest) && !(s.at + s.rest <= base + target)
    ensures Extends(reserved, fs') && IsFileSystem(fs') && AreDirectories(fs', base, target)
    ensures Resolve(fs', s.at, s.rest, s.links).Found? && Resolve(fs', s.at, s.rest, s.links).path == base + target
  {
    hide Resolve, IsFileSystem, IsReal, OnlyDirectories, AreDirectories, OnlyAddsAlong, WithDirectories, IsPath, IsDirectory, Extends;
    NothingOnTheWay(fs, reserved, s, base, target);
    var way, name, place := Front(s.rest), Last(s.rest), base + target;
    var parent := s.at + way;
    var landing := s.at + s.rest;
    assert landing == parent + [name];
    OnlyDirectoriesFront(reserved, s.at, s.rest);
    PathFront(s.rest);
    DirectoriesAdded(reserved, s.at, way);
    var made := WithDirectories(reserved, s.at, way);
    LandingIsFree(reserved, made, s, base, target);
    DirectoryStays(reserved, made, s.at);
    AtTheEnd(made, s.at, way);
    PathsJoin(s.at, s.rest);
    PathsJoin(base, target);
    LinkAdded(made, parent, name, place);
    fs' := made[landing := Link(place)];
    ExtendsTwice(reserved, made, fs');
    RealStays(reserved, fs', base);
    DirectoryStays(reserved, fs', base);
    DirectoriesStay(reserved, fs', base, target);
    LinkResolves(fs', made, s, base, target);
  }

  lemma LandingIsFree(reserved: FileSystem, made: FileSystem, s: Stop, base: Path, target: Path)
    requires s.rest != [] && OnlyAddsAlong(reserved, made, s.at, Front(s.rest)) && !(s.at + s.rest <= base + target)
    requires forall p :: s.at + [s.rest[0]] <= p && p in reserved ==> base < p <= base + target
    ensures s.at + s.rest !in made
  {
    assert s.at + [s.rest[0]] <= s.at + s.rest;
  }

  lemma DirectoryStays(fs: FileSystem, fs': FileSystem, p: Path)
    requires Extends(fs, fs') && IsDirectory(fs, p)
    ensures IsDirectory(fs', p)
  {
  }

  lemma DirectoriesStay(fs: FileSystem, fs': FileSystem, at: Path, target: Path)
    requires Extends(fs, fs') && AreDirectories(fs, at, target)
    ensures AreDirectories(fs', at, target)
  {
  }

  lemma PathsJoin(a: Path, b: Path)
    requires IsPath(a) && IsPath(b)
    ensures IsPath(a + b)
  {
  }

  lemma PathFront(p: Path)
    requires p != [] && IsPath(p)
    ensures IsPath(Front(p))
  {
  }

  lemma LinkResolves(fs': FileSystem, made: FileSystem, s: Stop, base: Path, target: Path)
    requires s.rest != [] && s.links > 0
    requires Extends(made, fs') && AreDirectories(made, s.at, Front(s.rest)) && IsDirectory(made, s.at)
    requires s.at + s.rest in fs' && fs'[s.at + s.rest] == Link(base + target)
    requires IsReal(fs', base) && IsDirectory(fs', base) && AreDirectories(fs', base, target)
    ensures Resolve(fs', s.at, s.rest, s.links) == Found(base + target, s.links - 1)
  {
    hide Resolve, IsReal;
    var way, name := Front(s.rest), Last(s.rest);
    var parent := s.at + way;
    assert s.at + s.rest == parent + [name] && way + [name] == s.rest;
    AtTheEnd(made, s.at, way);
    WalkAlong(fs', made, s.at, way, s.links);
    LinkFollowed(fs', parent, name, base + target, s.links);
    ResolveVia(fs', s.at, way, [name], s.links);
    RealFurther(fs', base, target);
    RealPrefix(fs', base + target, s.links - 1);
  }

  lemma OnlyDirectoriesFront(fs: FileSystem, at: Path, rest: Path)
    requires rest != [] && OnlyDirectories(fs, at, rest)
    ensures OnlyDirectories(fs, at, Front(rest))
  {
    forall j | 1 <= j <= |rest| - 1 ensures Front(rest)[..j] == rest[..j] {
    }
  }

  lemma AtTheEnd(fs: FileSystem, at: Path, way: Path)
    requires AreDirectories(fs, at, way) && IsDirectory(fs, at)
    ensures IsDirectory(fs, at + way)
  {
    if way == [] {
      assert at + way == at;
    } else {
      assert way[..|way|] == way;
    }
  }

  lemma LinkAdded(fs: FileSystem, parent: Path, name: string, place: Path)
    requires IsFileSystem(fs) && IsDirectory(fs, parent) && parent + [name] !in fs
    requires IsPath(parent + [name]) && IsPath(place)
    ensures IsFileSystem(fs[parent + [name] := Link(place)]) && Extends(fs, fs[parent + [name] := Link(place)])
  {
    ParentsStay(fs, parent, name, Link(place));
  }

  lemma WalkAlong(fs': FileSystem, fs: FileSystem, at: Path, way: Path, links: nat)
    requires Extends(fs, fs') && AreDirectories(fs, at, way)
    ensures Resolve(fs', at, way, links) == Found(at + way, links)
  {
    WalkDirectories(fs', at, way, links);
  }

  lemma LinkFollowed(fs: FileSystem, parent: Path, name: string, place: Path, links: nat)
    requires parent + [name] in fs && fs[parent + [name]] == Link(place) && links > 0
    ensures Resolve(fs, parent, [name], links) == Realpath(fs, place, links - 1)
  {
    assert place + [name][1..] == place;
  }

  lemma RealStays(fs: FileSystem, fs': FileSystem, p: Path)
    requires Extends(fs, fs') && IsReal(fs, p)
    ensures IsReal(fs', p)
  {
  }

  lemma RealFurther(fs: FileSystem, at: Path, target: Path)
    requires IsReal(fs, at) && IsDirectory(fs, at) && AreDirectories(fs, at, target)
    ensures IsReal(fs, at + target)
  {
    var p := at + target;
    forall j | 1 <= j < |p| ensures p[..j] in fs && fs[p[..j]] == Directory {
      if j < |at| {
        assert p[..j] == at[..j];
      } else if j == |at| {
        assert p[..j] == at;
      } else {
        assert p[..j] == at + target[..j - |at|];
      }
    }
    if target == [] {
      assert p == at;
    } else {
      assert target[..|target|] == target;
    }
  }

  // ---- an instance ----

  const ROOT: Path := ["r"]
  const AT_CHECK: FileSystem := map[ROOT := Directory]

  lemma ChildIsMissing(name: string)
    ensures Realpath(AT_CHECK, ROOT, 1) == Found(ROOT, 1) && Realpath(AT_CHECK, ROOT + [name], 1) == Missing
    ensures Canonical(AT_CHECK, ROOT + [name], 1) == Success(ROOT + [name])
    ensures StopPoint(AT_CHECK, [], ROOT + [name], 1) == Stop(ROOT, [name], 1)
  {
    var child := ROOT + [name];
    assert [] + [ROOT[0]] == ROOT && ROOT[1..] == [] && child[1..] == [name] && ROOT + [child[1..][0]] == child;
    assert child[..|child| - 1] == ROOT && child[|child| - 1..] == [name];
    assert Resolve(AT_CHECK, ROOT, [name], 1) == Missing;
    assert StopPoint(AT_CHECK, ROOT, [name], 1) == Stop(ROOT, [name], 1);
  }

  lemma SiblingsDoNotOverlap()
    ensures !PathsOverlap(Text(ROOT + ["o"]), Text(ROOT + ["d"]), Same)
  {
    var o, d := Folded(ROOT + ["o"], Same), Folded(ROOT + ["d"], Same);
    OverlapExactly(ROOT + ["o"], ROOT + ["d"], Same);
    SharedOrNested(o, d);
    assert o[1] == Map(Same, "o") && d[1] == Map(Same, "d");
    assert o[1][0] == 'o' && d[1][0] == 'd';
  }

  lemma OnlyRootIsThere()
    ensures IsFileSystem(AT_CHECK) && OnlyDirectories(AT_CHECK, ROOT, ["o"])
  {
    assert [][..] + ["r"] == ROOT && ["o"][..1] == ["o"];
    ParentsStay(map[], [], "r", Directory);
  }

  /** A protected directory that is missing at the check may meet the output all the same: while nothing
      but /r is there, the output /r/o is accepted beside /r/d, and later /r/d leads to it. */
  lemma MissingMayMeet() returns (later: FileSystem)
    ensures IsAccepted(AT_CHECK, ROOT, ["o"], ROOT + ["d"], Same, 1) && Realpath(AT_CHECK, ROOT + ["d"], 1) == Missing
    ensures MayBecome(AT_CHECK, later, ROOT, ["o"], 1) && Meet(later, ROOT + ["o"], ROOT + ["d"], Same, 1)
  {
    hide PathsOverlap, Resolve, Canonical, IsFileSystem, OnlyDirectories, MayBecome, Meet, StopPoint;
    ChildIsMissing("o");
    ChildIsMissing("d");
    SiblingsDoNotOverlap();
    OnlyRootIsThere();
    later := MeetingIsPossible(AT_CHECK, ROOT, ["o"], ROOT + ["d"], Same, 1);
  }

  // ---- the reservation's own steps ----

  function KindOf(node: Node): OutputReservation.Kind {
    match node
    case Directory => OutputReservation.Directory
    case File => OutputReservation.File
    case Link(_) => OutputReservation.Symlink
  }

  /** What the processes of a reservation see of a file system: everything below the root's real path. */
  ghost predicate Shows(fs: FileSystem, base: Path, view: map<Path, OutputReservation.Kind>) {
    forall q :: q != [] ==> (q in view <==> base + q in fs) && (q in view ==> view[q] == KindOf(fs[base + q]))
  }

  /** The check and a reservation composed. The file system of the check is the first of a run of
      processes; elsewhere it may grow while the run goes on, and links keep their targets. A process
      that has reserved its output then has it apart from every protected directory that was there at
      the check, the root excepted. */
  lemma ReservingProcessStaysApart(run: seq<OutputReservation.State>, i: nat, p: nat, fs: FileSystem, fs': FileSystem,
                                   root: Path, guarded: Path, fold: char -> char, links: nat)
    requires OutputReservation.IsRun(run) && i < |run| && p < |run[i].processes|
    requires run[i].processes[p].phase == OutputReservation.Reserved
    requires IsAccepted(fs, root, run[i].processes[p].target, guarded, fold, links) && IsFileSystem(fs')
    requires var base := Realpath(fs, root, links).path;
             && Shows(fs, base, run[0].fs) && Shows(fs', base, run[i].fs)
             && forall q :: q in fs && (base < q ==> fs[q].Link?) ==> q in fs' && fs'[q] == fs[q]
    requires Realpath(fs, guarded, links).Found?
    ensures MayBecome(fs, fs', root, run[i].processes[p].target, links)
    ensures Meet(fs', root + run[i].processes[p].target, guarded, fold, links) <==> Realpath(fs, guarded, links).path == []
  {
    hide Resolve, Meet, IsFileSystem, OutputReservation.IsRun, OutputReservation.ProcessInv;
    var base, target := Realpath(fs, root, links).path, run[i].processes[p].target;
    OutputReservation.ReservationIsGenuine(run, i, p);
    OutputReservation.RunKeepsInv(run, i);
    RunExtends(fs, fs', base, run[0].fs, run[i].fs);
    ReservedAreDirectories(fs', base, run[i].fs, target);
    ReservedStaysApart(fs, fs', root, target, guarded, fold, links);
  }

  lemma RunExtends(fs: FileSystem, fs': FileSystem, base: Path, view: map<Path, OutputReservation.Kind>,
                   view': map<Path, OutputReservation.Kind>)
    requires Shows(fs, base, view) && Shows(fs', base, view')
    requires forall q :: q in view ==> q in view' && view'[q] == view[q]
    requires forall q :: q in fs && (base < q ==> fs[q].Link?) ==> q in fs' && fs'[q] == fs[q]
    ensures Extends(fs, fs')
  {
    hide Shows;
    forall p | p in fs ensures p in fs' && fs'[p] == fs[p] {
      if base < p && !fs[p].Link? {
        var q := p[|base|..];
        Rejoined(base, p);
        EntryStays(fs, fs', base, view, view', q);
      }
    }
  }

  lemma Rejoined(base: Path, p: Path)
    requires base < p
    ensures p[|base|..] != [] && base + p[|base|..] == p
  {
  }

  lemma EntryStays(fs: FileSystem, fs': FileSystem, base: Path, view: map<Path, OutputReservation.Kind>,
                   view': map<Path, OutputReservation.Kind>, q: Path)
    requires Shows(fs, base, view) && Shows(fs', base, view')
    requires q != [] && base + q in fs && !fs[base + q].Link? && (q in view ==> q in view' && view'[q] == view[q])
    ensures base + q in fs' && fs'[base + q] == fs[base + q]
  {
    assert q in view && view'[q] == KindOf(fs'[base + q]);
  }

  lemma ReservedAreDirectories(fs: FileSystem, base: Path, view: map<Path, OutputReservation.Kind>, target: Path)
    requires Shows(fs, base, view)
    requires forall k :: 1 <= k <= |target| ==> target[..k] in view && view[target[..k]] == OutputReservation.Directory
    ensures AreDirectories(fs, base, target)
  {
  }
}
