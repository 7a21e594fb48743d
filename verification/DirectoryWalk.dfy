/** The worklist walk that collects files below a directory. */
module DirectoryWalk {

  import opened Sequences

  datatype Node =
    | File
    | Directory(entries: seq<Entry>)
    | Unreadable  // a directory whose listing fails
    | Other       // a link or special file: neither directory nor file

  /** Entries of one directory, in the order its listing gives them. */
  datatype Entry = Entry(name: string, node: Node)

  /** A directory still to be listed. */
  datatype Pending = Pending(path: Path, node: Node)

  predicate IsDirectory(node: Node) {
    node.Directory? || node.Unreadable?
  }

  // ---- the recursive definition: never descend into a skipped directory ----

  function FilesBelow(path: Path, node: Node, includes: Path -> bool, skip: set<string>): seq<Path>
    decreases node, 0
  {
    if node.Directory? then FilesOf(path, node.entries, includes, skip) else []
  }

  function FilesOf(path: Path, entries: seq<Entry>, includes: Path -> bool, skip: set<string>): seq<Path>
    decreases entries, 1
  {
    if entries == [] then []
    else
      var first, rest := entries[0], FilesOf(path, entries[1..], includes, skip);
      var full := path + [first.name];
      if IsDirectory(first.node) then
        if first.name in skip then rest else FilesBelow(full, first.node, includes, skip) + rest
      else if first.node.File? && includes(full) then [full] + rest
      else rest
  }

  // ---- the worklist ----

  function Size(node: Node): nat
    decreases node, 0
  {
    if node.Directory? then 1 + SizeOf(node.entries) else 1
  }

  function SizeOf(entries: seq<Entry>): nat
    decreases entries, 1
  {
    if entries == [] then 0 else Size(entries[0].node) + SizeOf(entries[1..])
  }

  function Work(stack: seq<Pending>): nat {
    if stack == [] then 0 else Work(stack[..|stack| - 1]) + Size(stack[|stack| - 1].node)
  }

  /** The files still to be found from a stack. */
  function Reachable(stack: seq<Pending>, includes: Path -> bool, skip: set<string>): multiset<Path> {
    if stack == [] then multiset{}
    else
      var top := stack[|stack| - 1];
      Reachable(stack[..|stack| - 1], includes, skip) + multiset(FilesBelow(top.path, top.node, includes, skip))
  }

  lemma Pushed(stack: seq<Pending>, p: Pending, includes: Path -> bool, skip: set<string>)
    ensures Work(stack + [p]) == Work(stack) + Size(p.node)
    ensures Reachable(stack + [p], includes, skip)
            == Reachable(stack, includes, skip) + multiset(FilesBelow(p.path, p.node, includes, skip))
  {
    assert (stack + [p])[..|stack|] == stack;
  }

  /** The empty path string, which the walk passes over. */
  predicate IsEmptyRoot(path: Path) {
    |path| == 1 && path[0] == ""
  }

  method CollectFilesSync(rootDir: string, tree: Node, includeFile: Path -> bool, skipDirNames: set<string>)
      returns (files: seq<Path>)
    ensures multiset(files) == if rootDir == "" then multiset{} else multiset(FilesBelow([rootDir], tree, includeFile, skipDirNames))
  {
    hide FilesBelow, FilesOf, Reachable, Work, Size;
    files := [];
    var stack := [Pending([rootDir], tree)];
    StartTotal(stack[0], includeFile, skipDirNames);
    ghost var all := Reachable(stack, includeFile, skipDirNames);
    while |stack| > 0
      invariant rootDir == "" ==> files == [] && (stack == [] || stack == [Pending([rootDir], tree)])
      invariant rootDir != "" ==> multiset(files) + Reachable(stack, includeFile, skipDirNames) == all
      invariant rootDir != "" ==> forall i :: 0 <= i < |stack| ==> stack[i].path != [] && !IsEmptyRoot(stack[i].path)
      decreases Work(stack)
    {
      var current := stack[|stack| - 1];
      PopStep(stack, includeFile, skipDirNames);
      stack := stack[..|stack| - 1];
      if IsEmptyRoot(current.path) {
        continue;
      }
      if !current.node.Directory? {
        continue;
      }
      files, stack := ListEntries(current.path, current.node.entries, includeFile, skipDirNames, files, stack);
    }
    NothingReachable(includeFile, skipDirNames);
  }

  lemma StartTotal(p: Pending, includes: Path -> bool, skip: set<string>)
    ensures Reachable([p], includes, skip) == multiset(FilesBelow(p.path, p.node, includes, skip))
  {
    Pushed([], p, includes, skip);
    assert [] + [p] == [p];
  }

  lemma NothingReachable(includes: Path -> bool, skip: set<string>)
    ensures Reachable([], includes, skip) == multiset{}
  {
  }

  lemma PopStep(stack: seq<Pending>, includes: Path -> bool, skip: set<string>)
    requires stack != []
    ensures var rest, top := stack[..|stack| - 1], stack[|stack| - 1];
            && Work(rest) < Work(stack)
            && Reachable(stack, includes, skip)
               == Reachable(rest, includes, skip)
                  + (if top.node.Directory? then multiset(FilesOf(top.path, top.node.entries, includes, skip)) else multiset{})
            && (top.node.Directory? ==> Work(rest) + SizeOf(top.node.entries) < Work(stack))
  {
    SizeIsPositive(stack[|stack| - 1].node);
  }

  lemma SizeIsPositive(node: Node)
    ensures Size(node) >= 1
  {
  }

  /** The files found, and still to be found from a stack and from the rest of a listing. */
  ghost function Total(files: seq<Path>, stack: seq<Pending>, path: Path, rest: seq<Entry>,
                       includes: Path -> bool, skip: set<string>): multiset<Path>
  {
    multiset(files) + Reachable(stack, includes, skip) + multiset(FilesOf(path, rest, includes, skip))
  }

  lemma EntryStep(files: seq<Path>, stack: seq<Pending>, path: Path, rest: seq<Entry>, includes: Path -> bool, skip: set<string>)
    requires rest != []
    ensures var entry := rest[0];
            var full := path + [entry.name];
            && SizeOf(rest) == Size(entry.node) + SizeOf(rest[1..])
            && Work(stack + [Pending(full, entry.node)]) == Work(stack) + Size(entry.node)
            && Total(files, stack, path, rest, includes, skip)
               == if IsDirectory(entry.node) then
                    if entry.name in skip then Total(files, stack, path, rest[1..], includes, skip)
                    else Total(files, stack + [Pending(full, entry.node)], path, rest[1..], includes, skip)
                  else if entry.node.File? && includes(full) then Total(files + [full], stack, path, rest[1..], includes, skip)
                  else Total(files, stack, path, rest[1..], includes, skip)
  {
    hide Reachable, FilesBelow;
    Pushed(stack, Pending(path + [rest[0].name], rest[0].node), includes, skip);
  }

  /** The loop over one listing: files are collected, directories pushed. */
  method ListEntries(path: Path, entries: seq<Entry>, includeFile: Path -> bool, skipDirNames: set<string>,
                     files: seq<Path>, stack: seq<Pending>)
      returns (files': seq<Path>, stack': seq<Pending>)
    requires path != []
    ensures multiset(files') + Reachable(stack', includeFile, skipDirNames)
            == multiset(files) + Reachable(stack, includeFile, skipDirNames) + multiset(FilesOf(path, entries, includeFile, skipDirNames))
    ensures Work(stack') <= Work(stack) + SizeOf(entries)
    ensures forall i :: 0 <= i < |stack'| ==> (i < |stack| && stack'[i] == stack[i]) || |stack'[i].path| > 1
  {
    hide Total, Work, Size, SizeOf;
    files', stack' := files, stack;
    assert entries[0..] == entries;
    for k := 0 to |entries|
      invariant Total(files', stack', path, entries[k..], includeFile, skipDirNames)
                == Total(files, stack, path, entries, includeFile, skipDirNames)
      invariant Work(stack') + SizeOf(entries[k..]) <= Work(stack) + SizeOf(entries)
      invariant |stack| <= |stack'| && stack'[..|stack|] == stack
      invariant forall i :: |stack| <= i < |stack'| ==> |stack'[i].path| > 1
    {
      var entry := entries[k];
      assert entries[k..][0] == entry && entries[k..][1..] == entries[k + 1..];
      EntryStep(files', stack', path, entries[k..], includeFile, skipDirNames);
      var fullPath := path + [entry.name];
      if IsDirectory(entry.node) {
        if entry.name in skipDirNames {
          continue;
        }
        stack' := stack' + [Pending(fullPath, entry.node)];
        continue;
      }
      if entry.node.File? && includeFile(fullPath) {
        files' := files' + [fullPath];
      }
    }
    ListingDone(files', stack', path, includeFile, skipDirNames);
    TotalUnfolds(files, stack, path, entries, includeFile, skipDirNames);
    assert forall i :: 0 <= i < |stack| ==> stack'[i] == stack'[..|stack|][i];
  }

  lemma ListingDone(files: seq<Path>, stack: seq<Pending>, path: Path, includes: Path -> bool, skip: set<string>)
    ensures Total(files, stack, path, [], includes, skip) == multiset(files) + Reachable(stack, includes, skip)
    ensures SizeOf([]) == 0
  {
  }

  lemma TotalUnfolds(files: seq<Path>, stack: seq<Pending>, path: Path, rest: seq<Entry>, includes: Path -> bool, skip: set<string>)
    ensures Total(files, stack, path, rest, includes, skip)
            == multiset(files) + Reachable(stack, includes, skip) + multiset(FilesOf(path, rest, includes, skip))
  {
  }

  // ---- what the recursive definition finds ----

  /** Sibling names are distinct throughout the tree, as in any file system. */
  ghost predicate DistinctNames(node: Node)
    decreases node, 0
  {
    node.Directory? ==> DistinctEntries(node.entries)
  }

  ghost predicate DistinctEntries(entries: seq<Entry>)
    decreases entries, 1
  {
    entries != [] ==>
      && DistinctNames(entries[0].node)
      && (forall i :: 0 < i < |entries| ==> entries[i].name != entries[0].name)
      && DistinctEntries(entries[1..])
  }

  /** The names lead from the node to a file, through directories none of which is skipped. */
  ghost predicate LeadsToFile(node: Node, names: Path, skip: set<string>)
    decreases node, 0
  {
    node.Directory? && names != [] && OneLeadsToFile(node.entries, names, skip)
  }

  ghost predicate OneLeadsToFile(entries: seq<Entry>, names: Path, skip: set<string>)
    requires names != []
    decreases entries, 1
  {
    entries != [] && (EntryLeadsToFile(entries[0], names, skip) || OneLeadsToFile(entries[1..], names, skip))
  }

  ghost predicate EntryLeadsToFile(entry: Entry, names: Path, skip: set<string>)
    requires names != []
    decreases entry, 0
  {
    && entry.name == names[0]
    && if |names| == 1 then entry.node.File? else entry.name !in skip && LeadsToFile(entry.node, names[1..], skip)
  }

  lemma {:induction false} FoundBelow(path: Path, node: Node, includes: Path -> bool, skip: set<string>, x: Path)
    ensures x in FilesBelow(path, node, includes, skip) ==> path < x
    decreases node, 0
  {
    if node.Directory? {
      FoundAmong(path, node.entries, includes, skip, x);
    }
  }

  lemma {:induction false} FoundAmong(path: Path, entries: seq<Entry>, includes: Path -> bool, skip: set<string>, x: Path)
    ensures x in FilesOf(path, entries, includes, skip) ==> path < x
    ensures x in FilesOf(path, entries, includes, skip) ==> exists i :: 0 <= i < |entries| && x[|path|] == entries[i].name
    decreases entries, 1
  {
    if entries != [] && x in FilesOf(path, entries, includes, skip) {
      FoundAmong(path, entries[1..], includes, skip, x);
      FoundBelow(path + [entries[0].name], entries[0].node, includes, skip, x);
      if x in FilesOf(path, entries[1..], includes, skip) {
        var i :| 0 <= i < |entries[1..]| && x[|path|] == entries[1..][i].name;
        assert entries[i + 1].name == x[|path|];
      } else {
        assert x[|path|] == entries[0].name;
      }
    }
  }

  /** The walk is exact: the path of a node is found once if its names lead to a file without passing
      a skipped directory and the filter accepts it, and not at all otherwise. */
  lemma {:induction false} WalkIsExact(path: Path, node: Node, includes: Path -> bool, skip: set<string>, names: Path)
    requires DistinctNames(node)
    ensures multiset(FilesBelow(path, node, includes, skip))[path + names]
            == if LeadsToFile(node, names, skip) && includes(path + names) then 1 else 0
    decreases node, 0
  {
    if node.Directory? {
      if names == [] {
        FoundBelow(path, node, includes, skip, path + names);
        assert path + names == path;
        assert path !in multiset(FilesBelow(path, node, includes, skip));
      } else {
        ListingIsExact(path, node.entries, includes, skip, names);
      }
    }
  }

  lemma {:induction false} ListingIsExact(path: Path, entries: seq<Entry>, includes: Path -> bool, skip: set<string>, names: Path)
    requires names != [] && DistinctEntries(entries)
    ensures multiset(FilesOf(path, entries, includes, skip))[path + names]
            == if OneLeadsToFile(entries, names, skip) && includes(path + names) then 1 else 0
    decreases entries, 1
  {
    if entries != [] {
      hide FilesOf, FilesBelow, OneLeadsToFile, LeadsToFile, EntryLeadsToFile;
      var first, full := entries[0], path + [entries[0].name];
      ListingIsExact(path, entries[1..], includes, skip, names);
      ListingCount(path, entries, includes, skip, names, path + names);
      JoinedName(path, first.name, names);
      EntryUnfolds(first, names, skip);
      if first.name == names[0] {
        NameIsElsewhere(entries[1..], names, skip);
        NotFoundElsewhere(path, entries[1..], includes, skip, names);
        WalkIsExact(full, first.node, includes, skip, names[1..]);
        LeadsNowhere(first.node, skip);
      } else {
        NotBelow(full, first.node, includes, skip, path + names);
      }
    } else {
      NothingListed(path, includes, skip, names);
    }
  }

  lemma NothingListed(path: Path, includes: Path -> bool, skip: set<string>, names: Path)
    requires names != []
    ensures FilesOf(path, [], includes, skip) == [] && !OneLeadsToFile([], names, skip)
  {
  }

  lemma JoinedName(path: Path, name: string, names: Path)
    requires names != []
    ensures name == names[0] ==> path + [name] + names[1..] == path + names
    ensures path + [name] == path + names <==> name == names[0] && |names| == 1
    ensures (path + [name])[|path|] == name && (path + names)[|path|] == names[0]
  {
    assert names == [names[0]] + names[1..];
  }

  lemma EntryUnfolds(entry: Entry, names: Path, skip: set<string>)
    requires names != []
    ensures EntryLeadsToFile(entry, names, skip)
            <==> entry.name == names[0]
                 && if |names| == 1 then entry.node.File? else entry.name !in skip && LeadsToFile(entry.node, names[1..], skip)
  {
  }

  lemma LeadsNowhere(node: Node, skip: set<string>)
    ensures !LeadsToFile(node, [], skip)
    ensures !node.Directory? ==> forall names :: !LeadsToFile(node, names, skip)
  {
  }

  lemma NotBelow(full: Path, node: Node, includes: Path -> bool, skip: set<string>, x: Path)
    requires full != [] && |full| <= |x| && x[|full| - 1] != full[|full| - 1]
    ensures multiset(FilesBelow(full, node, includes, skip))[x] == 0
  {
    FoundBelow(full, node, includes, skip, x);
    assert x !in multiset(FilesBelow(full, node, includes, skip));
  }

  /** How the first entry of a listing contributes to the count of a path. */
  lemma ListingCount(path: Path, entries: seq<Entry>, includes: Path -> bool, skip: set<string>, names: Path, x: Path)
    requires entries != [] && names != []
    ensures var first, full := entries[0], path + [entries[0].name];
            && multiset(FilesOf(path, entries, includes, skip))[x]
               == multiset(FilesOf(path, entries[1..], includes, skip))[x]
                  + (if IsDirectory(first.node) then
                       if first.name in skip then 0 else multiset(FilesBelow(full, first.node, includes, skip))[x]
                     else if first.node.File? && includes(full) && x == full then 1 else 0)
            && (OneLeadsToFile(entries, names, skip)
                <==> EntryLeadsToFile(first, names, skip) || OneLeadsToFile(entries[1..], names, skip))
  {
    hide FilesBelow, EntryLeadsToFile;
  }

  lemma {:induction false} NameIsElsewhere(entries: seq<Entry>, names: Path, skip: set<string>)
    requires names != [] && forall i :: 0 <= i < |entries| ==> entries[i].name != names[0]
    ensures !OneLeadsToFile(entries, names, skip)
  {
    if entries != [] {
      NameIsElsewhere(entries[1..], names, skip);
    }
  }

  lemma NotFoundElsewhere(path: Path, entries: seq<Entry>, includes: Path -> bool, skip: set<string>, names: Path)
    requires names != [] && forall i :: 0 <= i < |entries| ==> entries[i].name != names[0]
    ensures multiset(FilesOf(path, entries, includes, skip))[path + names] == 0
  {
    FoundAmong(path, entries, includes, skip, path + names);
    assert path + names !in multiset(FilesOf(path, entries, includes, skip));
  }
}
