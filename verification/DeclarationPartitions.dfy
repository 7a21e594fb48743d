/** The partition of the build's entries into the named declaration graphs. */
module DeclarationPartitions {
  import opened Sequences
  import opened Sorting
  import GreedyPartition

  datatype Entry = Entry(name: string, source: string)

  datatype NamedPartition = NamedPartition(name: string, sources: seq<string>)

  const SDK_PREFIX := "plugin-sdk/"
  const EXTENSION_PREFIX := "extensions/"
  const EXTENSION_PARTITIONS := 5

  function UpToSlash(s: string): string {
    if s == [] || s[0] == '/' then [] else [s[0]] + UpToSlash(s[1..])
  }

  /** The longest prefix without a slash. */
  lemma {:induction false} UpToSlashIsPrefix(s: string)
    ensures '/' !in UpToSlash(s) && UpToSlash(s) <= s
    ensures |UpToSlash(s)| < |s| ==> s[|UpToSlash(s)|] == '/'
  {
    if s != [] && s[0] != '/' {
      UpToSlashIsPrefix(s[1..]);
      assert s == [s[0]] + s[1..];
    }
  }

  /** The path segment after "extensions/"; it is empty for a name such as "extensions//x". */
  function ExtensionId(name: string): string
    requires EXTENSION_PREFIX <= name
  {
    UpToSlash(name[|EXTENSION_PREFIX|..])
  }

  /** The id of an extension's entry is its directory's name. */
  lemma ExtensionIdOf(id: string, rest: string)
    requires '/' !in id && (rest != [] ==> rest[0] == '/')
    ensures ExtensionId(EXTENSION_PREFIX + id + rest) == id
  {
    var name := EXTENSION_PREFIX + id + rest;
    assert name[|EXTENSION_PREFIX|..] == id + rest;
    UpToSlashOf(id, rest);
  }

  lemma {:induction false} UpToSlashOf(id: string, rest: string)
    requires '/' !in id && (rest != [] ==> rest[0] == '/')
    ensures UpToSlash(id + rest) == id
  {
    if id == [] {
      assert id + rest == rest;
    } else {
      assert (id + rest)[1..] == id[1..] + rest;
      UpToSlashOf(id[1..], rest);
    }
  }

  /** Which declaration graph an entry belongs to; extension groups are still to be scheduled. */
  datatype Kind = Base | PublicSdk | PrivateSdk | Extension(id: string)

  function Classify(e: Entry, publicNames: set<string>): Kind {
    if SDK_PREFIX <= e.name then if e.name in publicNames then PublicSdk else PrivateSdk
    else if EXTENSION_PREFIX <= e.name then Extension(ExtensionId(e.name))
    else Base
  }

  /** The only entries the partition drops are extension entries with an empty id. */
  predicate IsKept(e: Entry) {
    EXTENSION_PREFIX <= e.name ==> ExtensionId(e.name) != ""
  }

  /** Sorting is by any comparator, since only the order inside a partition depends on it. */
  function SortEntries(compare: (string, string) -> int, entries: seq<Entry>): seq<Entry> {
    SortBy((a: Entry, b: Entry) => compare(a.name, b.name), entries)
  }

  // ---- the specification of the partition ----

  /** The entries of one class among the first k, in order. */
  function Pick(entries: seq<Entry>, k: nat, publicNames: set<string>, kind: Kind): seq<Entry>
    requires k <= |entries|
  {
    if k == 0 then []
    else
      Pick(entries, k - 1, publicNames, kind)
      + if Classify(entries[k - 1], publicNames) == kind then [entries[k - 1]] else []
  }

  /** The distinct non-empty extension ids among the first k entries, in order of first appearance. */
  function Ids(entries: seq<Entry>, k: nat, publicNames: set<string>): (ids: seq<string>)
    requires k <= |entries|
    ensures "" !in ids
    ensures forall i, j :: 0 <= i < j < |ids| ==> ids[i] != ids[j]
    ensures forall i :: 0 <= i < k ==>
                          var c := Classify(entries[i], publicNames);
                          c.Extension? && c.id != "" ==> c.id in ids
  {
    if k == 0 then []
    else
      var before := Ids(entries, k - 1, publicNames);
      var c := Classify(entries[k - 1], publicNames);
      if c.Extension? && c.id != "" && c.id !in before then before + [c.id] else before
  }

  function Groups(entries: seq<Entry>, publicNames: set<string>, ids: seq<string>): seq<seq<Entry>> {
    seq(|ids|, i requires 0 <= i < |ids| => Pick(entries, |entries|, publicNames, Extension(ids[i])))
  }

  /** Base, public SDK and private SDK entries, then the scheduled extension groups. */
  function Partitions(sorted: seq<Entry>, publicNames: set<string>, ids: seq<string>): (r: seq<seq<Entry>>)
    ensures |r| == 3 + EXTENSION_PARTITIONS
  {
    [Pick(sorted, |sorted|, publicNames, Base),
     Pick(sorted, |sorted|, publicNames, PublicSdk),
     Pick(sorted, |sorted|, publicNames, PrivateSdk)]
    + GreedyPartition.Schedule(Groups(sorted, publicNames, ids), |ids|, EXTENSION_PARTITIONS)
  }

  function BuiltPartitions(compare: (string, string) -> int, entries: seq<Entry>, publicNames: set<string>): (r: seq<seq<Entry>>)
    ensures |r| == 3 + EXTENSION_PARTITIONS
  {
    var sorted := SortEntries(compare, entries);
    Partitions(sorted, publicNames, SortBy(compare, Ids(sorted, |sorted|, publicNames)))
  }

  // ---- the build ----

  method GroupByExtension(entries: seq<Entry>, ghost publicNames: set<string>)
      returns (ids: seq<string>, byId: map<string, seq<Entry>>)
    ensures ids == Ids(entries, |entries|, publicNames)
    ensures forall id :: id in ids ==> id in byId && byId[id] == Pick(entries, |entries|, publicNames, Extension(id))
  {
    hide Pick, Classify, UpToSlash, Ids;
    NothingYet(entries, publicNames);
    ids, byId := [], map[];
    for k := 0 to |entries|
      invariant ids == Ids(entries, k, publicNames)
      invariant forall id :: id in byId <==> id in ids
      invariant forall id :: id in byId ==> byId[id] == Pick(entries, k, publicNames, Extension(id))
      invariant forall id :: id !in byId && id != "" ==> Pick(entries, k, publicNames, Extension(id)) == []
    {
      IdsNext(entries, k, publicNames);
      PickNext(entries, k, publicNames);
      ClassifyExtension(entries[k], publicNames);
      var entry := entries[k];
      if EXTENSION_PREFIX <= entry.name {
        var extensionId := ExtensionId(entry.name);
        if extensionId != "" {
          var extensionEntries := if extensionId in byId then byId[extensionId] else [];
          if extensionId !in byId {
            ids := ids + [extensionId];
          }
          byId := byId[extensionId := extensionEntries + [entry]];
        }
      }
    }
  }

  lemma ClassifyExtension(e: Entry, publicNames: set<string>)
    ensures Classify(e, publicNames).Extension? <==> EXTENSION_PREFIX <= e.name
    ensures EXTENSION_PREFIX <= e.name ==> Classify(e, publicNames).id == ExtensionId(e.name)
  {
    assert EXTENSION_PREFIX[0] != SDK_PREFIX[0];
  }

  lemma PickNext(entries: seq<Entry>, k: nat, publicNames: set<string>)
    requires k < |entries|
    ensures forall id :: Pick(entries, k + 1, publicNames, Extension(id))
                         == Pick(entries, k, publicNames, Extension(id))
                            + if Classify(entries[k], publicNames) == Extension(id) then [entries[k]] else []
  {
  }

  lemma NothingYet(entries: seq<Entry>, publicNames: set<string>)
    ensures Ids(entries, 0, publicNames) == []
    ensures forall id :: Pick(entries, 0, publicNames, Extension(id)) == []
  {
  }

  lemma IdsNext(entries: seq<Entry>, k: nat, publicNames: set<string>)
    requires k < |entries|
    ensures var ids, c := Ids(entries, k, publicNames), Classify(entries[k], publicNames);
            Ids(entries, k + 1, publicNames)
            == if c.Extension? && c.id != "" && c.id !in ids then ids + [c.id] else ids
  {
  }

  lemma PartitionsUnfold(sorted: seq<Entry>, publicNames: set<string>, ids: seq<string>)
    ensures Partitions(sorted, publicNames, ids)
            == [Pick(sorted, |sorted|, publicNames, Base),
                Pick(sorted, |sorted|, publicNames, PublicSdk),
                Pick(sorted, |sorted|, publicNames, PrivateSdk)]
               + GreedyPartition.Schedule(Groups(sorted, publicNames, ids), |ids|, EXTENSION_PARTITIONS)
  {
  }

  method SplitNonExtensions(sortedEntries: seq<Entry>, publicNames: set<string>) returns (partitions: seq<seq<Entry>>)
    ensures partitions == [Pick(sortedEntries, |sortedEntries|, publicNames, Base),
                           Pick(sortedEntries, |sortedEntries|, publicNames, PublicSdk),
                           Pick(sortedEntries, |sortedEntries|, publicNames, PrivateSdk)]
  {
    var isSdk := (e: Entry) => SDK_PREFIX <= e.name;
    var isPublic := (e: Entry) => e.name in publicNames;
    var isPrivate := (e: Entry) => e.name !in publicNames;
    var isBase := (e: Entry) => !(SDK_PREFIX <= e.name) && !(EXTENSION_PREFIX <= e.name);
    var pluginSdkEntries := Filter(isSdk, sortedEntries);
    partitions := [Filter(isBase, sortedEntries),
                   Filter(isPublic, pluginSdkEntries),
                   Filter(isPrivate, pluginSdkEntries)];
    FilterIsPick(isBase, sortedEntries, publicNames, Base);
    FilterTwiceIsPick(isSdk, isPublic, sortedEntries, publicNames, PublicSdk);
    FilterTwiceIsPick(isSdk, isPrivate, sortedEntries, publicNames, PrivateSdk);
  }

  method OrderedGroups(sortedEntries: seq<Entry>, compare: (string, string) -> int, ghost publicNames: set<string>)
      returns (groups: seq<seq<Entry>>)
    ensures groups == Groups(sortedEntries, publicNames, SortBy(compare, Ids(sortedEntries, |sortedEntries|, publicNames)))
  {
    hide Pick, Classify, Ids, SortBy;
    var extensionIds, extensionEntriesById := GroupByExtension(sortedEntries, publicNames);
    var orderedIds := SortBy(compare, extensionIds);
    SortedMembers(compare, extensionIds);
    groups := seq(|orderedIds|, i requires 0 <= i < |orderedIds| && orderedIds[i] in extensionEntriesById =>
                  extensionEntriesById[orderedIds[i]]);
  }

  method BuildUnifiedDeclarationPartitions(entries: seq<Entry>, compare: (string, string) -> int, publicNames: set<string>,
                                           groupNames: seq<string>, normalize: string -> string)
      returns (r: Result<seq<NamedPartition>, string>)
    ensures r.Failure? <==> |groupNames| > 3 + EXTENSION_PARTITIONS
    ensures r.Success? ==> |r.value| == |groupNames|
    ensures r.Success? ==> forall i :: 0 <= i < |groupNames| ==>
                             && r.value[i].name == groupNames[i]
                             && IsSources(normalize, BuiltPartitions(compare, entries, publicNames)[i], r.value[i].sources)
  {
    hide Pick, Classify, Ids, Partitions, SortBy;
    var sortedEntries := SortEntries(compare, entries);
    var nonExtensions := SplitNonExtensions(sortedEntries, publicNames);
    var groups := OrderedGroups(sortedEntries, compare, publicNames);
    var extensionPartitions := GreedyPartition.PartitionUnifiedEntryGroups(groups, EXTENSION_PARTITIONS);
    var partitions := nonExtensions + extensionPartitions.value;
    PartitionsUnfold(sortedEntries, publicNames, SortBy(compare, Ids(sortedEntries, |sortedEntries|, publicNames)));

    var named: seq<NamedPartition> := [];
    for index := 0 to |groupNames|
      invariant |named| == index <= 3 + EXTENSION_PARTITIONS
      invariant forall i :: 0 <= i < index ==>
                  named[i].name == groupNames[i] && IsSources(normalize, partitions[i], named[i].sources)
    {
      if index >= |partitions| {
        return Failure("missing unified declaration partition");
      }
      var sources := Map((e: Entry) => normalize(e.source), partitions[index]);
      named := named + [NamedPartition(groupNames[index], sources)];
    }
    return Success(named);
  }

  /** The first three partitions hold, in sorted order, the entries that are neither SDK nor extension
      entries, the public SDK entries and the private ones. */
  lemma NamedPartitionsAre(compare: (string, string) -> int, entries: seq<Entry>, publicNames: set<string>)
    ensures var sorted := SortEntries(compare, entries); var partitions := BuiltPartitions(compare, entries, publicNames);
            && partitions[0] == Filter((e: Entry) => !("plugin-sdk/" <= e.name) && !("extensions/" <= e.name), sorted)
            && partitions[1] == Filter((e: Entry) => "plugin-sdk/" <= e.name && e.name in publicNames, sorted)
            && partitions[2] == Filter((e: Entry) => "plugin-sdk/" <= e.name && e.name !in publicNames, sorted)
  {
    hide Pick, Filter;
    var sorted := SortEntries(compare, entries);
    FilterIsPick((e: Entry) => !("plugin-sdk/" <= e.name) && !("extensions/" <= e.name), sorted, publicNames, Base);
    FilterIsPick((e: Entry) => "plugin-sdk/" <= e.name && e.name in publicNames, sorted, publicNames, PublicSdk);
    FilterIsPick((e: Entry) => "plugin-sdk/" <= e.name && e.name !in publicNames, sorted, publicNames, PrivateSdk);
  }

  /** Two extension entries are scheduled together when their names agree up to the second slash. */
  lemma SameExtension(id: string, a: string, b: string, publicNames: set<string>, source: string, other: string)
    requires '/' !in id && (a != [] ==> a[0] == '/') && (b != [] ==> b[0] == '/')
    ensures Classify(Entry("extensions/" + id + a, source), publicNames) == Classify(Entry("extensions/" + id + b, other), publicNames)
            == Extension(id)
  {
    ExtensionIdOf(id, a);
    ExtensionIdOf(id, b);
    assert "extensions/" <= "extensions/" + id + a && "extensions/" <= "extensions/" + id + b;
    ClassifyExtension(Entry("extensions/" + id + a, source), publicNames);
    ClassifyExtension(Entry("extensions/" + id + b, other), publicNames);
  }

  /** The sources of a partition, each normalised, in order. */
  ghost predicate IsSources(normalize: string -> string, partition: seq<Entry>, sources: seq<string>) {
    |sources| == |partition| && forall i :: 0 <= i < |sources| ==> sources[i] == normalize(partition[i].source)
  }

  lemma {:induction false} FilterIsPick(keep: Entry -> bool, s: seq<Entry>, publicNames: set<string>, kind: Kind)
    requires forall e :: keep(e) <==> Classify(e, publicNames) == kind
    ensures Filter(keep, s) == Pick(s, |s|, publicNames, kind)
  {
    if s != [] {
      FilterIsPick(keep, s[..|s| - 1], publicNames, kind);
      PickPrefix(s, |s| - 1, |s| - 1, publicNames, kind);
    }
  }

  lemma {:induction false} FilterTwiceIsPick(p: Entry -> bool, q: Entry -> bool, s: seq<Entry>,
                                             publicNames: set<string>, kind: Kind)
    requires forall e :: p(e) && q(e) <==> Classify(e, publicNames) == kind
    ensures Filter(q, Filter(p, s)) == Pick(s, |s|, publicNames, kind)
  {
    hide Classify, Filter, Pick;
    FilterNext(p, s);
    PickStep(s, |s|, publicNames, kind);
    if s == [] {
      FilterNext(q, s);
    } else {
      FilterTwiceIsPick(p, q, s[..|s| - 1], publicNames, kind);
      PickPrefix(s, |s| - 1, |s| - 1, publicNames, kind);
      FilterNext(q, Filter(p, s));
      FilterTwo(q, Filter(p, s[..|s| - 1]), s[|s| - 1]);
    }
  }

  lemma FilterNext<T>(keep: T -> bool, s: seq<T>)
    ensures Filter(keep, s)
            == if s == [] then []
               else if keep(s[|s| - 1]) then Filter(keep, s[..|s| - 1]) + [s[|s| - 1]] else Filter(keep, s[..|s| - 1])
  {
  }

  lemma FilterTwo<T>(keep: T -> bool, s: seq<T>, x: T)
    ensures Filter(keep, s + [x]) == if keep(x) then Filter(keep, s) + [x] else Filter(keep, s)
  {
    assert (s + [x])[..|s|] == s;
  }

  lemma {:induction false} PickPrefix(s: seq<Entry>, k: nat, n: nat, publicNames: set<string>, kind: Kind)
    requires k <= n <= |s|
    ensures Pick(s[..n], k, publicNames, kind) == Pick(s, k, publicNames, kind)
  {
    if k > 0 {
      PickPrefix(s, k - 1, n, publicNames, kind);
    }
  }

  // ---- every kept entry lands in exactly one partition, with the rest of its extension ----

  lemma {:induction false} PickCount(s: seq<Entry>, k: nat, publicNames: set<string>, kind: Kind, e: Entry)
    requires k <= |s|
    ensures multiset(Pick(s, k, publicNames, kind))[e]
            == if Classify(e, publicNames) == kind then multiset(s[..k])[e] else 0
  {
    hide Classify, Pick;
    PickStep(s, k, publicNames, kind);
    if k > 0 {
      PickCount(s, k - 1, publicNames, kind, e);
      CountLast(s, k, e);
      CountAppend(Pick(s, k - 1, publicNames, kind),
                  if Classify(s[k - 1], publicNames) == kind then [s[k - 1]] else [], e);
    }
  }

  lemma PickStep(s: seq<Entry>, k: nat, publicNames: set<string>, kind: Kind)
    requires k <= |s|
    ensures Pick(s, k, publicNames, kind)
            == if k == 0 then []
               else Pick(s, k - 1, publicNames, kind)
                    + if Classify(s[k - 1], publicNames) == kind then [s[k - 1]] else []
  {
  }

  lemma CountAppend<T>(s: seq<T>, t: seq<T>, x: T)
    requires |t| <= 1
    ensures multiset(s + t)[x] == multiset(s)[x] + if |t| == 1 && t[0] == x then 1 else 0
  {
  }

  lemma CountLast<T>(s: seq<T>, k: nat, x: T)
    requires 0 < k <= |s|
    ensures multiset(s[..k])[x] == multiset(s[..k - 1])[x] + if s[k - 1] == x then 1 else 0
  {
    assert s[..k] == s[..k - 1] + [s[k - 1]];
  }

  lemma {:induction false} GroupsCount(s: seq<Entry>, publicNames: set<string>, ids: seq<string>, e: Entry)
    requires forall i, j :: 0 <= i < j < |ids| ==> ids[i] != ids[j]
    ensures var c := Classify(e, publicNames);
            multiset(Flatten(Groups(s, publicNames, ids)))[e] == if c.Extension? && c.id in ids then multiset(s)[e] else 0
  {
    hide Classify, Pick;
    if ids != [] {
      GroupsCount(s, publicNames, ids[1..], e);
      PickCount(s, |s|, publicNames, Extension(ids[0]), e);
      assert s[..|s|] == s;
      var groups := Groups(s, publicNames, ids);
      assert groups[1..] == Groups(s, publicNames, ids[1..]);
      assert groups[0] == Pick(s, |s|, publicNames, Extension(ids[0]));
    }
  }

  /** Exact cover: every entry occurs in the partitions as often as in the input, except dropped ones. */
  lemma EntriesAreCovered(compare: (string, string) -> int, entries: seq<Entry>, publicNames: set<string>, e: Entry)
    ensures multiset(Flatten(BuiltPartitions(compare, entries, publicNames)))[e]
            == if IsKept(e) then multiset(entries)[e] else 0
  {
    hide Pick, Ids, SortBy, Groups, Partitions, Flatten, Classify;
    var sorted := SortEntries(compare, entries);
    SortByPermutes((a: Entry, b: Entry) => compare(a.name, b.name), entries);
    var ids := Ids(sorted, |sorted|, publicNames);
    var ordered := SortBy(compare, ids);
    SortedMembers(compare, ids);
    forall i, j | 0 <= i < j < |ordered| ensures ordered[i] != ordered[j] {
      DistinctBySort(compare, ids, i, j);
    }
    PartitionsCount(sorted, publicNames, ordered, e);
    ClassifyExtension(e, publicNames);
    assert e in multiset(sorted) ==> e in sorted;
  }

  /** A dropped entry: its name has nothing between the slashes. */
  lemma EmptyIdIsDropped(compare: (string, string) -> int, entries: seq<Entry>, publicNames: set<string>, source: string)
    ensures var e := Entry("extensions//x", source);
            !IsKept(e) && forall p :: 0 <= p < |BuiltPartitions(compare, entries, publicNames)| ==>
                                        e !in BuiltPartitions(compare, entries, publicNames)[p]
  {
    hide BuiltPartitions, Flatten;
    var e := Entry("extensions//x", source);
    assert e.name == EXTENSION_PREFIX + "/x";
    var partitions := BuiltPartitions(compare, entries, publicNames);
    EntriesAreCovered(compare, entries, publicNames, e);
    forall p | 0 <= p < |partitions| ensures e !in partitions[p] {
      if e in partitions[p] {
        FlattenMember(partitions, p, e);
      }
    }
  }

  lemma PartitionsCount(sorted: seq<Entry>, publicNames: set<string>, ids: seq<string>, e: Entry)
    requires forall i, j :: 0 <= i < j < |ids| ==> ids[i] != ids[j]
    ensures var c := Classify(e, publicNames);
            multiset(Flatten(Partitions(sorted, publicNames, ids)))[e]
            == if c.Extension? && c.id !in ids then 0 else multiset(sorted)[e]
  {
    hide Pick, Groups, Flatten, Classify;
    var groups := Groups(sorted, publicNames, ids);
    GroupCountsMatch(sorted, publicNames, ids);
    var scheduled := GreedyPartition.Schedule(groups, |ids|, EXTENSION_PARTITIONS);
    GreedyPartition.EntriesAreConserved(groups, |ids|, EXTENSION_PARTITIONS);
    assert groups[..|ids|] == groups;
    var n := |sorted|;
    var base := Pick(sorted, n, publicNames, Base);
    var pub, priv := Pick(sorted, n, publicNames, PublicSdk), Pick(sorted, n, publicNames, PrivateSdk);
    FlattenThree(base, pub, priv, scheduled);
    PickCount(sorted, n, publicNames, Base, e);
    PickCount(sorted, n, publicNames, PublicSdk, e);
    PickCount(sorted, n, publicNames, PrivateSdk, e);
    assert sorted[..n] == sorted;
    GroupsCount(sorted, publicNames, ids, e);
  }

  lemma GroupCountsMatch(sorted: seq<Entry>, publicNames: set<string>, ids: seq<string>)
    ensures |Groups(sorted, publicNames, ids)| == |ids|
  {
  }

  lemma FlattenThree<T>(a: seq<T>, b: seq<T>, c: seq<T>, rest: seq<seq<T>>)
    ensures Flatten([a, b, c] + rest) == a + b + c + Flatten(rest)
  {
    FlattenAppend([a, b, c], rest);
    assert [a, b, c][1..] == [b, c];
    assert [b, c][1..] == [c];
    assert Flatten([c]) == c + Flatten<T>([]) == c;
    assert Flatten([b, c]) == b + c;
  }

  ghost predicate IsOnlyHome(partitions: seq<seq<Entry>>, p: nat, e: Entry) {
    && p < |partitions|
    && e in partitions[p]
    && forall q :: 0 <= q < |partitions| && q != p ==> e !in partitions[q]
  }

  /** With unique names, an entry is in exactly one partition if it is kept, and in none otherwise. */
  lemma EveryEntryInOnePartition(compare: (string, string) -> int, entries: seq<Entry>, publicNames: set<string>, e: Entry)
    requires multiset(entries)[e] == 1
    ensures var partitions := BuiltPartitions(compare, entries, publicNames);
            if IsKept(e) then exists p :: IsOnlyHome(partitions, p, e)
            else forall p :: 0 <= p < |partitions| ==> e !in partitions[p]
  {
    hide BuiltPartitions, Flatten, ExtensionId;
    var partitions := BuiltPartitions(compare, entries, publicNames);
    EntriesAreCovered(compare, entries, publicNames, e);
    if IsKept(e) {
      assert e in multiset(Flatten(partitions));
      var p := FlattenFind(partitions, e);
      forall q | 0 <= q < |partitions| && q != p ensures e !in partitions[q] {
        if e in partitions[q] {
          FlattenTwoMembers(partitions, if p < q then p else q, if p < q then q else p, e);
        }
      }
      assert IsOnlyHome(partitions, p, e);
    } else {
      forall p | 0 <= p < |partitions| ensures e !in partitions[p] {
        if e in partitions[p] {
          FlattenMember(partitions, p, e);
        }
      }
    }
  }

  lemma {:induction false} GatherHolds<T>(groups: seq<seq<T>>, slots: seq<nat>, k: nat, g: nat, x: T)
    requires g < k <= |groups| && k <= |slots| && x in groups[g]
    ensures x in GreedyPartition.Gather(groups, slots, k, slots[g])
  {
    if g < k - 1 {
      GatherHolds(groups, slots, k - 1, g, x);
    }
  }

  ghost predicate HoldsExtension(partition: seq<Entry>, entries: seq<Entry>, publicNames: set<string>, id: string) {
    forall e :: e in entries && Classify(e, publicNames) == Extension(id) ==> e in partition
  }

  /** All entries of one extension land in the same partition. */
  lemma ExtensionsStayTogether(compare: (string, string) -> int, entries: seq<Entry>, publicNames: set<string>, id: string)
    requires id != ""
    ensures var partitions := BuiltPartitions(compare, entries, publicNames);
            exists p :: 0 <= p < |partitions| && HoldsExtension(partitions[p], entries, publicNames, id)
  {
    var partitions := BuiltPartitions(compare, entries, publicNames);
    if e0 :| e0 in entries && Classify(e0, publicNames) == Extension(id) {
      var p := PartitionOfExtension(compare, entries, publicNames, id, e0);
    } else {
      assert HoldsExtension(partitions[0], entries, publicNames, id);
    }
  }

  lemma PartitionOfExtension(compare: (string, string) -> int, entries: seq<Entry>, publicNames: set<string>, id: string, e0: Entry)
      returns (p: nat)
    requires id != "" && e0 in entries && Classify(e0, publicNames) == Extension(id)
    ensures var partitions := BuiltPartitions(compare, entries, publicNames);
            p < |partitions| && HoldsExtension(partitions[p], entries, publicNames, id)
  {
    hide Classify, Pick, Ids, SortBy, GreedyPartition.Schedule, GreedyPartition.Slots, GreedyPartition.Gather;
    var sorted := SortEntries(compare, entries);
    SortedMembers((a: Entry, b: Entry) => compare(a.name, b.name), entries);
    var ids := Ids(sorted, |sorted|, publicNames);
    var ordered := SortBy(compare, ids);
    SortedMembers(compare, ids);
    assert e0 in sorted;
    assert id in ordered;
    var g :| 0 <= g < |ordered| && ordered[g] == id;
    var groups := Groups(sorted, publicNames, ordered);
    var slots := GreedyPartition.Slots(groups, |groups|, EXTENSION_PARTITIONS);
    GreedyPartition.GroupsStayWhole(groups, |groups|, EXTENSION_PARTITIONS, slots[g]);
    p := 3 + slots[g];
    var partitions := BuiltPartitions(compare, entries, publicNames);
    assert partitions[p] == GreedyPartition.Schedule(groups, |groups|, EXTENSION_PARTITIONS)[slots[g]];
    forall e | e in entries && Classify(e, publicNames) == Extension(id) ensures e in partitions[p] {
      PickCount(sorted, |sorted|, publicNames, Extension(id), e);
      assert sorted[..|sorted|] == sorted;
      assert e in multiset(sorted);
      assert e in multiset(groups[g]);
      GatherHolds(groups, slots, |groups|, g, e);
    }
  }
}
