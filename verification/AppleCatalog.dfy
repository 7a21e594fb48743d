/** The rebuild of an Apple string catalog from native sources and translation artifacts. */
module AppleCatalog {
  import opened Sequences
  import opened Sorting
  import opened Text
  import opened TranslationChoice

  datatype Site = Site(kind: string, path: string)

  datatype SourceEntry = SourceEntry(id: string, source: string, surface: string, sites: seq<Site>)

  /** One translation artifact: its translations by entry id, in property order. */
  datatype Artifact = Artifact(locale: string, translations: seq<(string, string)>)

  datatype StringUnit = StringUnit(state: Option<string>, value: Option<string>)

  /** String units by source and locale. */
  type Catalog = map<string, map<string, StringUnit>>

  datatype Contradiction = Contradiction(locale: string, source: string, translations: seq<string>)

  /** Everything a build reads besides the existing catalog. */
  datatype Inputs = Inputs(entries: seq<SourceEntry>, artifacts: seq<Artifact>, locales: seq<string>,
                           includes: SourceEntry -> bool, catalogValue: string -> string)

  // ---- the specification of a build ----

  function EntryById(entries: seq<SourceEntry>, id: string): Option<SourceEntry> {
    if entries == [] then None
    else if entries[|entries| - 1].id == id then Some(entries[|entries| - 1])
    else EntryById(entries[..|entries| - 1], id)
  }

  function ArtifactByLocale(artifacts: seq<Artifact>, k: nat, locale: string): Option<Artifact>
    requires k <= |artifacts|
  {
    if k == 0 then None
    else if locale == artifacts[k - 1].locale then Some(artifacts[k - 1])
    else ArtifactByLocale(artifacts, k - 1, locale)
  }

  function IncludedSources(inputs: Inputs): seq<string> {
    Map((e: SourceEntry) => inputs.catalogValue(e.source), Filter(inputs.includes, inputs.entries))
  }

  /** The catalog source a translated id belongs to, if its entry is known and included. */
  function SourceOfId(inputs: Inputs, id: string): Option<string> {
    var entry := EntryById(inputs.entries, id);
    if entry.None? || id !in Map((e: SourceEntry) => e.id, Filter(inputs.includes, inputs.entries)) then None
    else Some(inputs.catalogValue(entry.value.source))
  }

  /** The translations of a source among the first k pairs of an artifact. */
  function CandidatesAmong(inputs: Inputs, pairs: seq<(string, string)>, k: nat, source: string): seq<string>
    requires k <= |pairs|
  {
    if k == 0 then []
    else
      var before := CandidatesAmong(inputs, pairs, k - 1, source);
      if Some(source) == SourceOfId(inputs, pairs[k - 1].0) then before + [inputs.catalogValue(pairs[k - 1].1)] else before
  }

  function Candidates(inputs: Inputs, locale: string, source: string): seq<string> {
    var artifact := ArtifactByLocale(inputs.artifacts, |inputs.artifacts|, locale);
    if artifact.None? then []
    else CandidatesAmong(inputs, artifact.value.translations, |artifact.value.translations|, source)
  }

  function UnitAt(catalog: Catalog, source: string, locale: string): Option<StringUnit> {
    if source in catalog && locale in catalog[source] then Some(catalog[source][locale]) else None
  }

  /** A unit whose translation has been shipped: state "translated" with a non-empty value. */
  predicate IsShipped(unit: StringUnit) {
    unit.state == Some("translated") && unit.value.Some? && unit.value.value != ""
  }

  function BuiltUnit(inputs: Inputs, existing: Option<StringUnit>, source: string, locale: string): StringUnit {
    if existing.Some? && IsShipped(existing.value) then existing.value
    else if locale == "en" then StringUnit(Some("translated"), Some(source))
    else
      var value := ChosenTranslation(source, Candidates(inputs, locale, source));
      StringUnit(Some(if value == source then "new" else "translated"), Some(value))
  }

  function Built(existing: Catalog, inputs: Inputs): Catalog {
    map source | source in IncludedSources(inputs) ::
      map locale | locale in inputs.locales :: BuiltUnit(inputs, UnitAt(existing, source, locale), source, locale)
  }

  function SortedDistinct(values: seq<string>): seq<string> {
    SortBy(CompareText, Distinct(values, |values|))
  }

  function ContradictionAt(inputs: Inputs, source: string, locale: string): seq<Contradiction> {
    var distinct := SortedDistinct(Candidates(inputs, locale, source));
    if |distinct| > 1 then [Contradiction(locale, source, distinct)] else []
  }

  function SourceContradictions(inputs: Inputs, source: string, k: nat): seq<Contradiction>
    requires k <= |inputs.locales|
  {
    if k == 0 then []
    else SourceContradictions(inputs, source, k - 1) + ContradictionAt(inputs, source, inputs.locales[k - 1])
  }

  function AllContradictions(inputs: Inputs, sources: seq<string>, k: nat): seq<Contradiction>
    requires k <= |sources|
  {
    if k == 0 then []
    else AllContradictions(inputs, sources, k - 1) + SourceContradictions(inputs, sources[k - 1], |inputs.locales|)
  }

  function CompareContradictions(left: Contradiction, right: Contradiction): int {
    var bySource := CompareText(left.source, right.source);
    if bySource != 0 then bySource else CompareText(left.locale, right.locale)
  }

  function Contradictions(inputs: Inputs): seq<Contradiction> {
    var sources := SortedDistinct(IncludedSources(inputs));
    SortBy(CompareContradictions, AllContradictions(inputs, sources, |sources|))
  }

  // ---- the build ----

  ghost predicate HoldsCandidates(bySource: map<string, seq<string>>, inputs: Inputs, pairs: seq<(string, string)>, k: nat)
    requires k <= |pairs|
  {
    forall source :: Lookup(bySource, source, []) == CandidatesAmong(inputs, pairs, k, source)
  }

  method TranslationsBySource(inputs: Inputs, artifact: Artifact) returns (bySource: map<string, seq<string>>)
    ensures HoldsCandidates(bySource, inputs, artifact.translations, |artifact.translations|)
  {
    var pairs := artifact.translations;
    bySource := map[];
    for k := 0 to |pairs|
      invariant HoldsCandidates(bySource, inputs, pairs, k)
    {
      ghost var before := bySource;
      var source := SourceOfId(inputs, pairs[k].0);
      if source.Some? {
        bySource := bySource[source.value := Lookup(bySource, source.value, []) + [inputs.catalogValue(pairs[k].1)]];
      }
      CandidateRecorded(inputs, pairs, k, before, bySource);
    }
  }

  lemma CandidateRecorded(inputs: Inputs, pairs: seq<(string, string)>, k: nat,
                          before: map<string, seq<string>>, after: map<string, seq<string>>)
    requires k < |pairs| && HoldsCandidates(before, inputs, pairs, k)
    requires var source := SourceOfId(inputs, pairs[k].0);
             if source.None? then after == before
             else after == before[source.value := Lookup(before, source.value, []) + [inputs.catalogValue(pairs[k].1)]]
    ensures HoldsCandidates(after, inputs, pairs, k + 1)
  {
    hide SourceOfId;
    forall source ensures Lookup(after, source, []) == CandidatesAmong(inputs, pairs, k + 1, source) {
      assert Lookup(before, source, []) == CandidatesAmong(inputs, pairs, k, source);
      if Some(source) == SourceOfId(inputs, pairs[k].0) {
      } else {
      }
    }
  }

  method TranslationsByLocale(inputs: Inputs) returns (byLocale: map<string, map<string, seq<string>>>)
    ensures forall locale, source :: Lookup(Lookup(byLocale, locale, map[]), source, []) == Candidates(inputs, locale, source)
  {
    byLocale := map[];
    for k := 0 to |inputs.artifacts|
      invariant forall locale :: locale in byLocale <==> ArtifactByLocale(inputs.artifacts, k, locale).Some?
      invariant forall locale :: locale in byLocale ==>
                  var pairs := ArtifactByLocale(inputs.artifacts, k, locale).value.translations;
                  HoldsCandidates(byLocale[locale], inputs, pairs, |pairs|)
    {
      var bySource := TranslationsBySource(inputs, inputs.artifacts[k]);
      byLocale := byLocale[inputs.artifacts[k].locale := bySource];
    }
  }

  method BuildAppleCatalog(existingCatalog: Catalog, inputs: Inputs)
      returns (catalog: Catalog, contradictions: seq<Contradiction>)
    ensures catalog == Built(existingCatalog, inputs)
    ensures contradictions == Contradictions(inputs)
  {
    hide Candidates, SortBy, IncludedSources, BuiltUnit, IsBuiltEntry, SourceContradictions, Lookup;
    var sources := SortedDistinct(IncludedSources(inputs));
    SortedDistinctMembers(IncludedSources(inputs));
    var translationsByLocale := TranslationsByLocale(inputs);
    var found: seq<Contradiction> := [];
    catalog := map[];
    for k := 0 to |sources|
      invariant found == AllContradictions(inputs, sources, k)
      invariant forall s :: s in catalog <==> s in sources[..k]
      invariant forall s :: s in catalog ==> IsBuiltEntry(catalog[s], existingCatalog, inputs, s, |inputs.locales|)
    {
      var source := sources[k];
      assert sources[..k + 1] == sources[..k] + [source];
      var localizations, more := BuildEntry(existingCatalog, inputs, translationsByLocale, source);
      found := found + more;
      catalog := catalog[source := localizations];
    }
    assert sources[..|sources|] == sources;
    contradictions := SortBy(CompareContradictions, found);
    CatalogIsBuilt(catalog, existingCatalog, inputs);
  }

  /** The localizations of one source for the first k required locales. */
  ghost predicate IsBuiltEntry(localizations: map<string, StringUnit>, existing: Catalog, inputs: Inputs, source: string, k: nat)
    requires k <= |inputs.locales|
  {
    && (forall locale :: locale in localizations <==> locale in inputs.locales[..k])
    && (forall locale :: locale in localizations ==>
                           localizations[locale] == BuiltUnit(inputs, UnitAt(existing, source, locale), source, locale))
  }

  method BuildEntry(existing: Catalog, inputs: Inputs, byLocale: map<string, map<string, seq<string>>>, source: string)
      returns (localizations: map<string, StringUnit>, contradictions: seq<Contradiction>)
    requires forall locale, source :: Lookup(Lookup(byLocale, locale, map[]), source, []) == Candidates(inputs, locale, source)
    ensures IsBuiltEntry(localizations, existing, inputs, source, |inputs.locales|)
    ensures contradictions == SourceContradictions(inputs, source, |inputs.locales|)
  {
    hide Candidates, ChosenTranslation, SortedDistinct, Lookup, UnitAt, IsBuiltEntry, SourceContradictions;
    EntryStart(existing, inputs, source);
    localizations, contradictions := map[], [];
    for k := 0 to |inputs.locales|
      invariant IsBuiltEntry(localizations, existing, inputs, source, k)
      invariant contradictions == SourceContradictions(inputs, source, k)
    {
      var locale := inputs.locales[k];
      var candidates := Lookup(Lookup(byLocale, locale, map[]), source, []);
      assert candidates == Candidates(inputs, locale, source);
      var distinct := SortedDistinct(candidates);
      ContradictionStep(inputs, source, k);
      if |distinct| > 1 {
        contradictions := contradictions + [Contradiction(locale, source, distinct)];
      }
      var existingUnit := UnitAt(existing, source, locale);
      var unit;
      if existingUnit.Some? && existingUnit.value.value.Some? && existingUnit.value.value.value != ""
         && existingUnit.value.state == Some("translated") {
        unit := existingUnit.value;
      } else if locale == "en" {
        unit := StringUnit(Some("translated"), Some(source));
      } else {
        var value := ChooseTranslation(source, candidates);
        unit := StringUnit(Some(if value == source then "new" else "translated"), Some(value));
      }
      EntryStep(localizations, existing, inputs, source, k, unit);
      localizations := localizations[locale := unit];
    }
  }

  lemma EntryStart(existing: Catalog, inputs: Inputs, source: string)
    ensures IsBuiltEntry(map[], existing, inputs, source, 0)
    ensures SourceContradictions(inputs, source, 0) == []
  {
  }

  lemma EntryStep(localizations: map<string, StringUnit>, existing: Catalog, inputs: Inputs, source: string, k: nat, unit: StringUnit)
    requires k < |inputs.locales| && IsBuiltEntry(localizations, existing, inputs, source, k)
    requires unit == BuiltUnit(inputs, UnitAt(existing, source, inputs.locales[k]), source, inputs.locales[k])
    ensures IsBuiltEntry(localizations[inputs.locales[k] := unit], existing, inputs, source, k + 1)
  {
    hide BuiltUnit, UnitAt;
    assert inputs.locales[..k + 1] == inputs.locales[..k] + [inputs.locales[k]];
  }

  lemma ContradictionStep(inputs: Inputs, source: string, k: nat)
    requires k < |inputs.locales|
    ensures var locale := inputs.locales[k];
            var distinct := SortedDistinct(Candidates(inputs, locale, source));
            SourceContradictions(inputs, source, k + 1)
            == if |distinct| > 1 then SourceContradictions(inputs, source, k) + [Contradiction(locale, source, distinct)]
               else SourceContradictions(inputs, source, k)
  {
  }

  lemma SortedDistinctMembers(values: seq<string>)
    ensures forall v :: v in SortedDistinct(values) <==> v in values
  {
    SortedMembers(CompareText, Distinct(values, |values|));
    assert values[..|values|] == values;
  }

  lemma CatalogIsBuilt(catalog: Catalog, existing: Catalog, inputs: Inputs)
    requires forall s :: s in catalog <==> s in IncludedSources(inputs)
    requires forall s :: s in catalog ==> IsBuiltEntry(catalog[s], existing, inputs, s, |inputs.locales|)
    ensures catalog == Built(existing, inputs)
  {
    hide IncludedSources, BuiltUnit, UnitAt;
    assert inputs.locales[..|inputs.locales|] == inputs.locales;
    var built := Built(existing, inputs);
    forall s | s in catalog ensures catalog[s] == built[s] {
      assert IsBuiltEntry(catalog[s], existing, inputs, s, |inputs.locales|);
      assert catalog[s].Keys == built[s].Keys;
    }
    assert catalog.Keys == built.Keys;
  }

  // ---- rebuilding ----

  lemma BuiltUnitAt(existing: Catalog, inputs: Inputs, source: string, locale: string)
    ensures UnitAt(Built(existing, inputs), source, locale)
            == if source in IncludedSources(inputs) && locale in inputs.locales
               then Some(BuiltUnit(inputs, UnitAt(existing, source, locale), source, locale)) else None
  {
  }

  /** Building a unit again from the unit just built changes nothing. */
  lemma UnitIsFixed(inputs: Inputs, existing: Option<StringUnit>, source: string, locale: string)
    ensures var unit := BuiltUnit(inputs, existing, source, locale); BuiltUnit(inputs, Some(unit), source, locale) == unit
  {
  }

  /** Rebuilding a catalog from its own output with the same inputs changes nothing. */
  lemma RebuildIsFixedPoint(existing: Catalog, inputs: Inputs)
    ensures Built(Built(existing, inputs), inputs) == Built(existing, inputs)
  {
    var once := Built(existing, inputs);
    var twice := Built(once, inputs);
    hide BuiltUnit, UnitAt, IncludedSources;
    assert once.Keys == twice.Keys;
    forall source | source in once ensures once[source] == twice[source] {
      assert once[source].Keys == twice[source].Keys;
      forall locale | locale in once[source] ensures once[source][locale] == twice[source][locale] {
        BuiltUnitAt(existing, inputs, source, locale);
        UnitIsFixed(inputs, UnitAt(existing, source, locale), source, locale);
      }
    }
  }

  /** The catalog after the first k of a series of builds, each reading the one before. */
  function AfterBuilds(initial: Catalog, builds: seq<Inputs>, k: nat): Catalog
    requires k <= |builds|
  {
    if k == 0 then initial else Built(AfterBuilds(initial, builds, k - 1), builds[k - 1])
  }

  /** A source and locale that every build from the i-th to the k-th includes. */
  ghost predicate StaysIncluded(builds: seq<Inputs>, i: nat, k: nat, source: string, locale: string)
    requires i <= k <= |builds|
  {
    forall j :: i <= j < k ==> source in IncludedSources(builds[j]) && locale in builds[j].locales
  }

  /** Whatever the later inputs say, a shipped translation never changes while its source stays included. */
  lemma {:induction false} ShippedNeverChanges(initial: Catalog, builds: seq<Inputs>, i: nat, k: nat, source: string, locale: string)
    requires i <= k <= |builds|
    requires var unit := UnitAt(AfterBuilds(initial, builds, i), source, locale); unit.Some? && IsShipped(unit.value)
    requires StaysIncluded(builds, i, k, source, locale)
    ensures UnitAt(AfterBuilds(initial, builds, k), source, locale) == UnitAt(AfterBuilds(initial, builds, i), source, locale)
    decreases k - i
  {
    hide Built, UnitAt, IncludedSources, Candidates;
    if i < k {
      ShippedNeverChanges(initial, builds, i, k - 1, source, locale);
      BuiltUnitAt(AfterBuilds(initial, builds, k - 1), builds[k - 1], source, locale);
    }
  }

  /** The catalog covers exactly the included sources, each in every required locale. Shipped units are
      kept; a unit that is built anew has the source in English, and elsewhere the preferred one of the
      candidates, or the source if there is none. */
  lemma BuildCoversInputs(existing: Catalog, inputs: Inputs, source: string, locale: string)
    ensures UnitAt(Built(existing, inputs), source, locale).Some? <==> source in IncludedSources(inputs) && locale in inputs.locales
    ensures UnitAt(Built(existing, inputs), source, locale).Some? ==>
              var before, built := UnitAt(existing, source, locale), UnitAt(Built(existing, inputs), source, locale).value;
              if before.Some? && IsShipped(before.value) then built == before.value
              else IsBuiltAnew(inputs, source, locale, built)
  {
    hide IncludedSources, Candidates, ChosenTranslation, IsChoice;
    BuiltUnitAt(existing, inputs, source, locale);
    ChosenIsChoice(source, Candidates(inputs, locale, source));
  }

  ghost predicate IsBuiltAnew(inputs: Inputs, source: string, locale: string, unit: StringUnit) {
    var candidates := Candidates(inputs, locale, source);
    && unit.value.Some?
    && (if locale == "en" || candidates == [] then unit.value.value == source
        else IsChoice(source, multiset(candidates), unit.value.value))
    && unit.state == Some(if locale != "en" && unit.value.value == source then "new" else "translated")
  }

  // ---- the reported contradictions ----

  predicate IsIncreasing(values: seq<string>) {
    forall i, j :: 0 <= i < j < |values| ==> Precedes(values[i], values[j])
  }

  /** A contradiction as it has to be reported: the candidates of an included source and a required
      locale differ, and all of them are listed, each once, in increasing order. */
  ghost predicate IsConflict(inputs: Inputs, c: Contradiction) {
    var candidates := Candidates(inputs, c.locale, c.source);
    && c.source in IncludedSources(inputs) && c.locale in inputs.locales
    && (exists a, b :: a in candidates && b in candidates && a != b)
    && IsIncreasing(c.translations)
    && forall v :: v in c.translations <==> v in candidates
  }

  lemma {:induction false} DistinctOnce(values: seq<string>, k: nat, i: nat, j: nat)
    requires k <= |values| && i < j < |Distinct(values, k)|
    ensures Distinct(values, k)[i] != Distinct(values, k)[j]
  {
    if j < |Distinct(values, k - 1)| {
      DistinctOnce(values, k - 1, i, j);
    }
  }

  lemma TextOrderIsWeak()
    ensures IsWeakOrder(CompareText)
  {
    forall x, y, z
      ensures CompareText(x, y) < 0 ==> CompareText(y, x) >= 0
      ensures CompareText(y, x) >= 0 && CompareText(z, y) >= 0 ==> CompareText(z, x) >= 0
    {
      TextOrderLaws(x, y, z);
    }
  }

  lemma TextOrderLaws(x: string, y: string, z: string)
    ensures CompareText(x, y) < 0 ==> CompareText(y, x) >= 0
    ensures CompareText(y, x) >= 0 && CompareText(z, y) >= 0 ==> CompareText(z, x) >= 0
    ensures CompareText(x, y) == 0 <==> x == y
    ensures CompareText(x, y) < 0 <==> CompareText(y, x) > 0
  {
    hide Precedes;
    PrecedesTotal(x, y);
    PrecedesTotal(y, z);
    PrecedesTotal(x, z);
    if Precedes(z, x) && Precedes(x, y) {
      PrecedesTransitive(z, x, y);
    }
  }

  /** Sorted and distinct, values increase strictly. */
  lemma SortedDistinctIncreases(values: seq<string>)
    ensures IsIncreasing(SortedDistinct(values))
  {
    hide CompareText, Distinct, SortBy, Precedes;
    var distinct := Distinct(values, |values|);
    forall i, j | 0 <= i < j < |distinct| ensures distinct[i] != distinct[j] {
      DistinctOnce(values, |values|, i, j);
    }
    TextOrderIsWeak();
    SortByOrders(CompareText, distinct);
    var sorted := SortedDistinct(values);
    forall i, j | 0 <= i < j < |sorted| ensures Precedes(sorted[i], sorted[j]) {
      DistinctBySort(CompareText, distinct, i, j);
      TextBefore(sorted[i], sorted[j]);
    }
  }

  lemma TextBefore(a: string, b: string)
    requires a != b && CompareText(b, a) >= 0
    ensures Precedes(a, b)
  {
    PrecedesTotal(a, b);
  }

  /** An increasing list is determined by its members. */
  lemma {:induction false} IncreasingIsUnique(a: seq<string>, b: seq<string>)
    requires IsIncreasing(a) && IsIncreasing(b) && forall v :: v in a <==> v in b
    ensures a == b
    decreases |a|
  {
    hide Precedes;
    BothEmpty(a, b);
    if a != [] && b != [] {
      FirstIsLeast(a, b[0]);
      FirstIsLeast(b, a[0]);
      PrecedesTotal(a[0], b[0]);
      assert a[0] == b[0];
      forall v ensures v in a[1..] <==> v in b[1..] {
        RestMembers(a, v);
        RestMembers(b, v);
      }
      IncreasingIsUnique(a[1..], b[1..]);
      assert a == [a[0]] + a[1..] && b == [b[0]] + b[1..];
    }
  }

  lemma BothEmpty(a: seq<string>, b: seq<string>)
    requires forall v :: v in a <==> v in b
    ensures a == [] <==> b == []
  {
    assert a != [] ==> a[0] in a;
    assert b != [] ==> b[0] in b;
  }

  lemma FirstIsLeast(a: seq<string>, v: string)
    requires IsIncreasing(a) && v in a
    ensures v == a[0] || Precedes(a[0], v)
  {
  }

  lemma RestMembers(a: seq<string>, v: string)
    requires IsIncreasing(a) && a != []
    ensures v in a[1..] <==> v in a && v != a[0]
  {
    if v in a[1..] {
      var i :| 0 <= i < |a[1..]| && a[1..][i] == v;
      assert Precedes(a[0], a[i + 1]);
      PrecedesTotal(a[0], v);
    }
  }

  lemma MoreThanOne(values: seq<string>)
    ensures |SortedDistinct(values)| > 1 <==> exists a, b :: a in values && b in values && a != b
  {
    hide Distinct, SortBy, Precedes;
    var sorted := SortedDistinct(values);
    SortedDistinctMembers(values);
    SortedDistinctIncreases(values);
    if |sorted| > 1 {
      assert sorted[0] in values && sorted[1] in values;
      PrecedesTotal(sorted[0], sorted[1]);
    }
    if a, b :| a in values && b in values && a != b {
      assert a in sorted && b in sorted;
    }
  }

  lemma ContradictionAtIsConflict(inputs: Inputs, c: Contradiction)
    requires c.source in IncludedSources(inputs) && c.locale in inputs.locales
    ensures c in ContradictionAt(inputs, c.source, c.locale) <==> IsConflict(inputs, c)
  {
    hide Candidates, IncludedSources, Precedes, SortedDistinct;
    var candidates := Candidates(inputs, c.locale, c.source);
    SortedDistinctMembers(candidates);
    SortedDistinctIncreases(candidates);
    MoreThanOne(candidates);
    if IsConflict(inputs, c) {
      IncreasingIsUnique(c.translations, SortedDistinct(candidates));
    }
  }

  lemma {:induction false} SourceContradictionsMembers(inputs: Inputs, source: string, k: nat, c: Contradiction)
    requires k <= |inputs.locales|
    ensures c in SourceContradictions(inputs, source, k)
            <==> c.source == source && c.locale in inputs.locales[..k] && c in ContradictionAt(inputs, source, c.locale)
  {
    hide ContradictionAt, SourceContradictions;
    SourceContradictionsStep(inputs, source, k);
    if k > 0 {
      SourceContradictionsMembers(inputs, source, k - 1, c);
      InPrefix(inputs.locales, k, c.locale);
      ContradictionHere(inputs, source, inputs.locales[k - 1], c);
    }
  }

  lemma ContradictionHere(inputs: Inputs, source: string, locale: string, c: Contradiction)
    ensures c in ContradictionAt(inputs, source, locale) ==> c.locale == locale && c.source == source
  {
  }

  lemma {:induction false} AllContradictionsMembers(inputs: Inputs, sources: seq<string>, k: nat, c: Contradiction)
    requires k <= |sources|
    ensures c in AllContradictions(inputs, sources, k)
            <==> c.source in sources[..k] && c.locale in inputs.locales && c in ContradictionAt(inputs, c.source, c.locale)
  {
    hide ContradictionAt, SourceContradictions, AllContradictions;
    AllContradictionsStep(inputs, sources, k);
    if k > 0 {
      AllContradictionsMembers(inputs, sources, k - 1, c);
      InPrefix(sources, k, c.source);
      SourceContradictionsMembers(inputs, sources[k - 1], |inputs.locales|, c);
      assert inputs.locales[..|inputs.locales|] == inputs.locales;
    }
  }

  lemma AllContradictionsStep(inputs: Inputs, sources: seq<string>, k: nat)
    requires k <= |sources|
    ensures AllContradictions(inputs, sources, k)
            == if k == 0 then []
               else AllContradictions(inputs, sources, k - 1) + SourceContradictions(inputs, sources[k - 1], |inputs.locales|)
  {
  }

  lemma InPrefix(s: seq<string>, k: nat, x: string)
    requires 0 < k <= |s|
    ensures x in s[..k] <==> x in s[..k - 1] || x == s[k - 1]
  {
    assert s[..k] == s[..k - 1] + [s[k - 1]];
  }

  /** Every conflict is reported, and nothing else. */
  lemma ContradictionsAreConflicts(inputs: Inputs, c: Contradiction)
    ensures c in Contradictions(inputs) <==> IsConflict(inputs, c)
  {
    hide Candidates, IncludedSources, SortedDistinct, SortBy, ContradictionAt, AllContradictions;
    var sources := SortedDistinct(IncludedSources(inputs));
    SortedMembers(CompareContradictions, AllContradictions(inputs, sources, |sources|));
    SortedDistinctMembers(IncludedSources(inputs));
    AllContradictionsMembers(inputs, sources, |sources|, c);
    assert sources[..|sources|] == sources;
    if c.source in IncludedSources(inputs) && c.locale in inputs.locales {
      ContradictionAtIsConflict(inputs, c);
    }
  }

  // ---- their order ----

  /** By source, then by locale. */
  predicate IsBefore(c: Contradiction, d: Contradiction) {
    Precedes(c.source, d.source) || (c.source == d.source && Precedes(c.locale, d.locale))
  }

  lemma ContradictionOrderIsWeak()
    ensures IsWeakOrder(CompareContradictions)
  {
    hide CompareText;
    forall x: Contradiction, y: Contradiction, z: Contradiction
      ensures CompareContradictions(x, y) < 0 ==> CompareContradictions(y, x) >= 0
      ensures CompareContradictions(y, x) >= 0 && CompareContradictions(z, y) >= 0 ==> CompareContradictions(z, x) >= 0
    {
      ContradictionOrderLaws(x, y, z);
    }
  }

  lemma ContradictionOrderLaws(x: Contradiction, y: Contradiction, z: Contradiction)
    ensures CompareContradictions(x, y) < 0 ==> CompareContradictions(y, x) >= 0
    ensures CompareContradictions(y, x) >= 0 && CompareContradictions(z, y) >= 0 ==> CompareContradictions(z, x) >= 0
  {
    hide CompareText;
    TextOrderLaws(x.source, y.source, z.source);
    TextOrderLaws(y.source, z.source, x.source);
    TextOrderLaws(z.source, x.source, y.source);
    TextOrderLaws(x.locale, y.locale, z.locale);
  }

  ghost predicate AreDistinct<T>(s: seq<T>) {
    forall i, j :: 0 <= i < j < |s| ==> s[i] != s[j]
  }

  lemma {:induction false} SourceContradictionsOnce(inputs: Inputs, source: string, k: nat)
    requires k <= |inputs.locales| && AreDistinct(inputs.locales)
    ensures AreDistinct(SourceContradictions(inputs, source, k))
  {
    hide ContradictionAt, SourceContradictions, AreDistinct;
    SourceContradictionsStep(inputs, source, k);
    if k == 0 {
      DistinctNothing<Contradiction>();
    } else {
      SourceContradictionsOnce(inputs, source, k - 1);
      LastIsNew(inputs.locales, k);
      var before, here := SourceContradictions(inputs, source, k - 1), ContradictionAt(inputs, source, inputs.locales[k - 1]);
      forall i | 0 <= i < |before| ensures before[i].locale != inputs.locales[k - 1] {
        SourceContradictionsMembers(inputs, source, k - 1, before[i]);
      }
      AtMostOneHere(inputs, source, inputs.locales[k - 1]);
      DistinctAppend(before, here);
    }
  }

  lemma SourceContradictionsStep(inputs: Inputs, source: string, k: nat)
    requires k <= |inputs.locales|
    ensures SourceContradictions(inputs, source, k)
            == if k == 0 then []
               else SourceContradictions(inputs, source, k - 1) + ContradictionAt(inputs, source, inputs.locales[k - 1])
  {
  }

  lemma DistinctNothing<T>()
    ensures AreDistinct<T>([])
  {
  }

  lemma LastIsNew<T>(s: seq<T>, k: nat)
    requires AreDistinct(s) && 0 < k <= |s|
    ensures s[k - 1] !in s[..k - 1]
  {
  }

  lemma AtMostOneHere(inputs: Inputs, source: string, locale: string)
    ensures AreDistinct(ContradictionAt(inputs, source, locale))
    ensures forall c :: c in ContradictionAt(inputs, source, locale) ==> c.locale == locale
  {
  }

  lemma DistinctAppend<T>(a: seq<T>, b: seq<T>)
    requires AreDistinct(a) && AreDistinct(b)
    requires forall i, j :: 0 <= i < |a| && 0 <= j < |b| ==> a[i] != b[j]
    ensures AreDistinct(a + b)
  {
  }

  lemma {:induction false} AllContradictionsOnce(inputs: Inputs, sources: seq<string>, k: nat)
    requires k <= |sources| && AreDistinct(inputs.locales) && AreDistinct(sources)
    ensures AreDistinct(AllContradictions(inputs, sources, k))
  {
    hide SourceContradictions, ContradictionAt, AllContradictions, AreDistinct;
    AllContradictionsStep(inputs, sources, k);
    if k == 0 {
      DistinctNothing<Contradiction>();
    } else {
      AllContradictionsOnce(inputs, sources, k - 1);
      SourceContradictionsOnce(inputs, sources[k - 1], |inputs.locales|);
      LastIsNew(sources, k);
      var before, here := AllContradictions(inputs, sources, k - 1), SourceContradictions(inputs, sources[k - 1], |inputs.locales|);
      forall i, j | 0 <= i < |before| && 0 <= j < |here| ensures before[i] != here[j] {
        AllContradictionsMembers(inputs, sources, k - 1, before[i]);
        SourceContradictionsMembers(inputs, sources[k - 1], |inputs.locales|, here[j]);
      }
      DistinctAppend(before, here);
    }
  }

  /** The report is in order; with distinct required locales it is strictly so, and no source and
      locale occurs twice. */
  lemma ContradictionsAreOrdered(inputs: Inputs, i: nat, j: nat)
    requires i < j < |Contradictions(inputs)|
    ensures var c, d := Contradictions(inputs)[i], Contradictions(inputs)[j];
            !IsBefore(d, c) && (AreDistinct(inputs.locales) ==> IsBefore(c, d))
  {
    hide Candidates, IncludedSources, SortedDistinct, SortBy, AllContradictions, CompareContradictions, IsBefore, Precedes;
    var sources := SortedDistinct(IncludedSources(inputs));
    var all := AllContradictions(inputs, sources, |sources|);
    var c, d := Contradictions(inputs)[i], Contradictions(inputs)[j];
    ContradictionOrderIsWeak();
    SortByOrders(CompareContradictions, all);
    InOrder(c, d);
    if AreDistinct(inputs.locales) {
      SourcesOnce(inputs);
      AllContradictionsOnce(inputs, sources, |sources|);
      DistinctBySort(CompareContradictions, all, i, j);
      ContradictionsAreConflicts(inputs, c);
      ContradictionsAreConflicts(inputs, d);
      if c.source == d.source && c.locale == d.locale {
        IncreasingIsUnique(c.translations, d.translations);
      }
    }
  }

  lemma InOrder(c: Contradiction, d: Contradiction)
    requires CompareContradictions(d, c) >= 0
    ensures !IsBefore(d, c)
    ensures c.source != d.source || c.locale != d.locale ==> IsBefore(c, d)
  {
    hide Precedes;
    PrecedesTotal(c.source, d.source);
    PrecedesTotal(c.locale, d.locale);
  }

  lemma SourcesOnce(inputs: Inputs)
    ensures AreDistinct(SortedDistinct(IncludedSources(inputs)))
  {
    hide SortedDistinct, Precedes, IncludedSources;
    SortedDistinctIncreases(IncludedSources(inputs));
    var sources := SortedDistinct(IncludedSources(inputs));
    forall i, j | 0 <= i < j < |sources| ensures sources[i] != sources[j] {
      PrecedesTotal(sources[i], sources[j]);
    }
  }

  // ---- what the candidates are ----

  /** An included entry with this id. */
  ghost predicate IsIncludedId(inputs: Inputs, id: string) {
    exists i :: 0 <= i < |inputs.entries| && inputs.entries[i].id == id && inputs.includes(inputs.entries[i])
  }

  /** The last entry with this id has this catalog source. */
  ghost predicate HasSource(inputs: Inputs, id: string, source: string) {
    exists i :: IsLastWithId(inputs.entries, id, i) && inputs.catalogValue(inputs.entries[i].source) == source
  }

  ghost predicate IsLastWithId(entries: seq<SourceEntry>, id: string, i: int) {
    0 <= i < |entries| && entries[i].id == id && forall j :: i < j < |entries| ==> entries[j].id != id
  }

  ghost predicate IsLastWithLocale(artifacts: seq<Artifact>, locale: string, i: int) {
    0 <= i < |artifacts| && artifacts[i].locale == locale && forall j :: i < j < |artifacts| ==> artifacts[j].locale != locale
  }

  /** A translation that contributes v to the candidates of a source: its id is included and known, and
      belongs to the source. */
  ghost predicate Contributes(inputs: Inputs, pair: (string, string), source: string, v: string) {
    IsIncludedId(inputs, pair.0) && HasSource(inputs, pair.0, source) && inputs.catalogValue(pair.1) == v
  }

  /** The number of contributions of v among the first k translations. */
  ghost function Contributions(inputs: Inputs, pairs: seq<(string, string)>, k: nat, source: string, v: string): nat
    requires k <= |pairs|
  {
    if k == 0 then 0
    else Contributions(inputs, pairs, k - 1, source, v) + if Contributes(inputs, pairs[k - 1], source, v) then 1 else 0
  }

  lemma {:induction false} EntryByIdIsLast(entries: seq<SourceEntry>, id: string, i: nat)
    requires IsLastWithId(entries, id, i)
    ensures EntryById(entries, id) == Some(entries[i])
  {
    var n := |entries|;
    if i < n - 1 {
      assert entries[n - 1].id != id;
      assert IsLastWithId(entries[..n - 1], id, i);
      EntryByIdIsLast(entries[..n - 1], id, i);
    }
  }

  lemma {:induction false} EntryByIdIsKnown(entries: seq<SourceEntry>, id: string) returns (i: int)
    ensures if EntryById(entries, id).Some? then IsLastWithId(entries, id, i) else forall j :: 0 <= j < |entries| ==> entries[j].id != id
  {
    if entries == [] {
      i := -1;
    } else if entries[|entries| - 1].id == id {
      i := |entries| - 1;
    } else {
      i := EntryByIdIsKnown(entries[..|entries| - 1], id);
    }
  }

  lemma {:induction false} FilterMember<T>(keep: T -> bool, s: seq<T>, x: T)
    ensures x in Filter(keep, s) <==> x in s && keep(x)
  {
    FilterCount(keep, s, x);
    assert x in Filter(keep, s) <==> x in multiset(Filter(keep, s));
    assert x in s <==> x in multiset(s);
  }

  lemma IncludedIds(inputs: Inputs, id: string)
    ensures id in Map((e: SourceEntry) => e.id, Filter(inputs.includes, inputs.entries)) <==> IsIncludedId(inputs, id)
  {
    var included := Filter(inputs.includes, inputs.entries);
    var ids := Map((e: SourceEntry) => e.id, included);
    if id in ids {
      var i :| 0 <= i < |ids| && ids[i] == id;
      FilterMember(inputs.includes, inputs.entries, included[i]);
    }
    if i :| 0 <= i < |inputs.entries| && inputs.entries[i].id == id && inputs.includes(inputs.entries[i]) {
      FilterMember(inputs.includes, inputs.entries, inputs.entries[i]);
      var j :| 0 <= j < |included| && included[j] == inputs.entries[i];
      assert ids[j] == id;
    }
  }

  /** The catalog's sources are those of the included entries. */
  lemma IncludedSourcesExactly(inputs: Inputs, source: string)
    ensures source in IncludedSources(inputs)
            <==> exists i :: 0 <= i < |inputs.entries| && inputs.includes(inputs.entries[i])
                             && inputs.catalogValue(inputs.entries[i].source) == source
  {
    var included := Filter(inputs.includes, inputs.entries);
    var sources := IncludedSources(inputs);
    if source in sources {
      var i :| 0 <= i < |sources| && sources[i] == source;
      FilterMember(inputs.includes, inputs.entries, included[i]);
    }
    if i :| 0 <= i < |inputs.entries| && inputs.includes(inputs.entries[i]) && inputs.catalogValue(inputs.entries[i].source) == source {
      FilterMember(inputs.includes, inputs.entries, inputs.entries[i]);
      var j :| 0 <= j < |included| && included[j] == inputs.entries[i];
      assert sources[j] == source;
    }
  }

  lemma SourceOfIdExactly(inputs: Inputs, id: string, source: string)
    ensures SourceOfId(inputs, id) == Some(source) <==> IsIncludedId(inputs, id) && HasSource(inputs, id, source)
  {
    hide EntryById;
    IncludedIds(inputs, id);
    var i := EntryByIdIsKnown(inputs.entries, id);
    if j :| IsLastWithId(inputs.entries, id, j) && inputs.catalogValue(inputs.entries[j].source) == source {
      EntryByIdIsLast(inputs.entries, id, j);
    }
    if SourceOfId(inputs, id) == Some(source) {
      EntryByIdIsLast(inputs.entries, id, i);
    }
  }

  lemma {:induction false} CandidatesAmongCount(inputs: Inputs, pairs: seq<(string, string)>, k: nat, source: string, v: string)
    requires k <= |pairs|
    ensures multiset(CandidatesAmong(inputs, pairs, k, source))[v] == Contributions(inputs, pairs, k, source, v)
  {
    if k > 0 {
      hide SourceOfId, HasSource, IsIncludedId;
      CandidatesAmongCount(inputs, pairs, k - 1, source, v);
      SourceOfIdExactly(inputs, pairs[k - 1].0, source);
    }
  }

  lemma {:induction false} ArtifactIsLast(artifacts: seq<Artifact>, k: nat, locale: string, i: nat)
    requires i < k <= |artifacts| && artifacts[i].locale == locale
    requires forall j :: i < j < k ==> artifacts[j].locale != locale
    ensures ArtifactByLocale(artifacts, k, locale) == Some(artifacts[i])
  {
    if i < k - 1 {
      ArtifactIsLast(artifacts, k - 1, locale, i);
    }
  }

  lemma {:induction false} NoArtifact(artifacts: seq<Artifact>, k: nat, locale: string)
    requires k <= |artifacts| && forall j :: 0 <= j < k ==> artifacts[j].locale != locale
    ensures ArtifactByLocale(artifacts, k, locale) == None
  {
    if k > 0 {
      NoArtifact(artifacts, k - 1, locale);
    }
  }

  /** The candidates of a source in a locale are, with their multiplicity, the contributions of the last
      artifact with that locale. */
  lemma CandidatesExactly(inputs: Inputs, locale: string, source: string, v: string, i: nat)
    requires IsLastWithLocale(inputs.artifacts, locale, i)
    ensures var pairs := inputs.artifacts[i].translations;
            multiset(Candidates(inputs, locale, source))[v] == Contributions(inputs, pairs, |pairs|, source, v)
  {
    var pairs := inputs.artifacts[i].translations;
    ArtifactIsLast(inputs.artifacts, |inputs.artifacts|, locale, i);
    CandidatesAmongCount(inputs, pairs, |pairs|, source, v);
  }

  lemma NoCandidates(inputs: Inputs, locale: string, source: string)
    requires forall j :: 0 <= j < |inputs.artifacts| ==> inputs.artifacts[j].locale != locale
    ensures Candidates(inputs, locale, source) == []
  {
    NoArtifact(inputs.artifacts, |inputs.artifacts|, locale);
  }

  lemma {:induction false} LastWithLocale(artifacts: seq<Artifact>, locale: string, j: nat) returns (i: nat)
    requires j < |artifacts| && artifacts[j].locale == locale
    ensures IsLastWithLocale(artifacts, locale, i)
    decreases |artifacts| - j
  {
    if l: nat :| j < l < |artifacts| && artifacts[l].locale == locale {
      i := LastWithLocale(artifacts, locale, l);
    } else {
      i := j;
    }
  }

  lemma {:induction false} SomeContribution(inputs: Inputs, pairs: seq<(string, string)>, k: nat, source: string, v: string)
    requires k <= |pairs|
    ensures Contributions(inputs, pairs, k, source, v) > 0 <==> exists p :: 0 <= p < k && Contributes(inputs, pairs[p], source, v)
  {
    if k > 0 {
      SomeContribution(inputs, pairs, k - 1, source, v);
    }
  }

  /** Translation p of artifact i, the last one with the locale, contributes v. */
  ghost predicate ContributesAt(inputs: Inputs, locale: string, source: string, v: string, i: int, p: int) {
    && IsLastWithLocale(inputs.artifacts, locale, i)
    && 0 <= p < |inputs.artifacts[i].translations|
    && Contributes(inputs, inputs.artifacts[i].translations[p], source, v)
  }

  /** A value is a candidate exactly if the last artifact with the locale has a translation of it. */
  lemma CandidateMembers(inputs: Inputs, locale: string, source: string, v: string)
    ensures v in Candidates(inputs, locale, source) <==> exists i, p :: ContributesAt(inputs, locale, source, v, i, p)
  {
    hide Candidates, Contributes;
    assert v in Candidates(inputs, locale, source) <==> v in multiset(Candidates(inputs, locale, source));
    if j: nat :| j < |inputs.artifacts| && inputs.artifacts[j].locale == locale {
      var i := LastWithLocale(inputs.artifacts, locale, j);
      var pairs := inputs.artifacts[i].translations;
      CandidatesExactly(inputs, locale, source, v, i);
      SomeContribution(inputs, pairs, |pairs|, source, v);
      if p :| 0 <= p < |pairs| && Contributes(inputs, pairs[p], source, v) {
        assert ContributesAt(inputs, locale, source, v, i, p);
      }
    } else {
      NoCandidates(inputs, locale, source);
    }
  }
}
