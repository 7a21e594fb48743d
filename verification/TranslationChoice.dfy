/** The two independently written selectors of a translation among candidates. */
module TranslationChoice {
  import opened Sequences
  import opened Text
  import opened Sorting

  datatype Tally = Tally(value: string, count: nat)

  function CompareText(left: string, right: string): int {
    if Precedes(left, right) then -1 else if Precedes(right, left) then 1 else 0
  }

  /** The order of the Android selector: frequent first, then by text. */
  function CompareByCount(left: Tally, right: Tally): int {
    if right.count != left.count then right.count - left.count else CompareText(left.value, right.value)
  }

  /** The order of the Apple selector: the source last, then frequent first, then by text. */
  function CompareByPenalty(source: string): (Tally, Tally) -> int {
    (left: Tally, right: Tally) =>
      var penalty := (if left.value == source then 1 else 0) - if right.value == source then 1 else 0;
      if penalty != 0 then penalty else CompareByCount(left, right)
  }

  /** The distinct values among the first k, in order of first appearance. */
  function Distinct(values: seq<string>, k: nat): (d: seq<string>)
    requires k <= |values|
    ensures forall v :: v in d <==> v in values[..k]
  {
    if k == 0 then []
    else
      assert values[..k] == values[..k - 1] + [values[k - 1]];
      var before := Distinct(values, k - 1);
      if values[k - 1] in before then before else before + [values[k - 1]]
  }

  /** The entries of the count map, in insertion order. */
  function Tallies(values: seq<string>): seq<Tally> {
    var distinct := Distinct(values, |values|);
    seq(|distinct|, i requires 0 <= i < |distinct| => Tally(distinct[i], multiset(values)[distinct[i]]))
  }

  function ChosenTranslation(source: string, translations: seq<string>): string {
    var sorted := SortBy(CompareByPenalty(source), Tallies(translations));
    if sorted == [] then source else sorted[0].value
  }

  function DeterministicTranslation(source: string, values: seq<string>): string {
    var translated := Filter(value => value != source, values);
    var sorted := SortBy(CompareByCount, Tallies(if |translated| > 0 then translated else values));
    if sorted == [] then [] else sorted[0].value
  }

  method CountValues(values: seq<string>) returns (tallies: seq<Tally>)
    ensures tallies == Tallies(values)
  {
    var keys: seq<string> := [];
    var counts: map<string, nat> := map[];
    for k := 0 to |values|
      invariant keys == Distinct(values, k)
      invariant forall v :: v in counts <==> v in keys
      invariant forall v :: v in counts ==> counts[v] == multiset(values[..k])[v]
    {
      var value := values[k];
      assert values[..k + 1] == values[..k] + [value];
      if value !in counts {
        keys := keys + [value];
      }
      counts := counts[value := (if value in counts then counts[value] else 0) + 1];
    }
    assert values[..|values|] == values;
    tallies := seq(|keys|, i requires 0 <= i < |keys| && keys[i] in counts => Tally(keys[i], counts[keys[i]]));
  }

  method ChooseTranslation(source: string, translations: seq<string>) returns (r: string)
    ensures r == ChosenTranslation(source, translations)
  {
    var counts := CountValues(translations);
    var sorted := SortBy(CompareByPenalty(source), counts);
    r := if sorted == [] then source else sorted[0].value;
  }

  method SelectDeterministicTranslation(source: string, values: seq<string>) returns (r: string)
    ensures r == DeterministicTranslation(source, values)
  {
    var translated := Filter(value => value != source, values);
    var candidates := if |translated| > 0 then translated else values;
    var counts := CountValues(candidates);
    var sorted := SortBy(CompareByCount, counts);
    r := if sorted == [] then [] else sorted[0].value;
  }

  // ---- what is chosen ----

  /** Value a is preferred to value b among the given candidates. */
  predicate Beats(source: string, values: multiset<string>, a: string, b: string) {
    if a == source || b == source then b == source && a != source
    else values[a] > values[b] || (values[a] == values[b] && Precedes(a, b))
  }

  /** The one candidate that is preferred to every other. */
  ghost predicate IsChoice(source: string, values: multiset<string>, r: string) {
    r in values && forall v :: v in values && v != r ==> Beats(source, values, r, v)
  }

  lemma ChoiceIsUnique(source: string, values: multiset<string>, r: string, r': string)
    requires IsChoice(source, values, r) && IsChoice(source, values, r')
    ensures r == r'
  {
    PrecedesTotal(r, r');
  }

  lemma TallyOf(values: seq<string>, t: Tally)
    ensures t in Tallies(values) <==> t.value in values && t.count == multiset(values)[t.value]
  {
    assert values[..|values|] == values;
    var distinct := Distinct(values, |values|);
    if t.value in values {
      assert t.value in distinct;
      var i :| 0 <= i < |distinct| && distinct[i] == t.value;
      assert Tallies(values)[i].value == t.value;
    }
  }

  lemma CompareTextLaws(a: string, b: string, c: string)
    ensures a != b ==> CompareText(a, b) < 0 || CompareText(b, a) < 0
    ensures CompareText(a, b) < 0 && CompareText(b, c) < 0 ==> CompareText(a, c) < 0
  {
    PrecedesTotal(a, b);
    if CompareText(a, b) < 0 && CompareText(b, c) < 0 {
      PrecedesTransitive(a, b, c);
    }
  }

  lemma PenaltyOrderIsTotal(source: string, tallies: seq<Tally>)
    ensures IsTotalOn(CompareByPenalty(source), tallies)
    ensures IsTotalOn(CompareByCount, tallies)
  {
    hide CompareText;
    forall x: Tally, y: Tally | x != y
      ensures CompareByPenalty(source)(x, y) < 0 || CompareByPenalty(source)(y, x) < 0
      ensures CompareByCount(x, y) < 0 || CompareByCount(y, x) < 0
    {
      CompareTextLaws(x.value, y.value, x.value);
    }
    forall x: Tally, y: Tally, z: Tally | CompareByCount(x, y) < 0 && CompareByCount(y, z) < 0
      ensures CompareByCount(x, z) < 0
    {
      CompareTextLaws(x.value, y.value, z.value);
    }
    forall x: Tally, y: Tally, z: Tally | CompareByPenalty(source)(x, y) < 0 && CompareByPenalty(source)(y, z) < 0
      ensures CompareByPenalty(source)(x, z) < 0
    {
      CompareTextLaws(x.value, y.value, z.value);
    }
  }

  /** The Apple selector returns the preferred candidate; it never returns the source if another candidate exists. */
  lemma ChosenIsChoice(source: string, translations: seq<string>)
    ensures translations == [] ==> ChosenTranslation(source, translations) == source
    ensures translations != [] ==> IsChoice(source, multiset(translations), ChosenTranslation(source, translations))
  {
    var tallies := Tallies(translations);
    if translations != [] {
      TallyOf(translations, Tally(translations[0], multiset(translations)[translations[0]]));
      PenaltyOrderIsTotal(source, tallies);
      HeadIsLeast(CompareByPenalty(source), tallies);
      var head := SortBy(CompareByPenalty(source), tallies)[0];
      TallyOf(translations, head);
      forall v | v in multiset(translations) && v != head.value ensures Beats(source, multiset(translations), head.value, v) {
        var other := Tally(v, multiset(translations)[v]);
        TallyOf(translations, other);
        assert CompareByPenalty(source)(head, other) < 0;
      }
    }
  }

  /** The Android selector makes the same choice. */
  lemma DeterministicIsChoice(source: string, values: seq<string>)
    ensures values == [] ==> DeterministicTranslation(source, values) == ""
    ensures values != [] ==> IsChoice(source, multiset(values), DeterministicTranslation(source, values))
  {
    if values != [] {
      var keep := (value: string) => value != source;
      var translated := Filter(keep, values);
      var candidates := if |translated| > 0 then translated else values;
      forall v ensures multiset(translated)[v] == if v != source then multiset(values)[v] else 0 {
        FilterCount(keep, values, v);
      }
      if |translated| == 0 {
        forall v | v in values ensures v == source {
          assert v in multiset(values);
          assert multiset(translated)[v] == 0;
        }
      }
      var tallies := Tallies(candidates);
      TallyOf(candidates, Tally(candidates[0], multiset(candidates)[candidates[0]]));
      PenaltyOrderIsTotal(source, tallies);
      HeadIsLeast(CompareByCount, tallies);
      var head := SortBy(CompareByCount, tallies)[0];
      TallyOf(candidates, head);
      assert head.value in multiset(candidates);
      forall v | v in multiset(values) && v != head.value ensures Beats(source, multiset(values), head.value, v) {
        if v != source {
          assert v in multiset(candidates);
          var other := Tally(v, multiset(candidates)[v]);
          TallyOf(candidates, other);
          assert CompareByCount(head, other) < 0;
        }
      }
      assert DeterministicTranslation(source, values) == head.value;
    }
  }

  /** The two selectors agree on every non-empty candidate list; on the empty one exactly when the source is empty. */
  lemma SelectorsAgree(source: string, values: seq<string>)
    ensures ChosenTranslation(source, values) == DeterministicTranslation(source, values) <==> values != [] || source == ""
  {
    hide ChosenTranslation, DeterministicTranslation, IsChoice;
    ChosenIsChoice(source, values);
    DeterministicIsChoice(source, values);
    if values != [] {
      ChoiceIsUnique(source, multiset(values), ChosenTranslation(source, values), DeterministicTranslation(source, values));
    }
  }

  /** The choice depends only on the multiset of candidates. */
  lemma ChoiceIgnoresOrder(source: string, values: seq<string>, values': seq<string>)
    requires multiset(values) == multiset(values')
    ensures ChosenTranslation(source, values) == ChosenTranslation(source, values')
    ensures DeterministicTranslation(source, values) == DeterministicTranslation(source, values')
  {
    hide ChosenTranslation, DeterministicTranslation, IsChoice;
    ChosenIsChoice(source, values);
    ChosenIsChoice(source, values');
    DeterministicIsChoice(source, values);
    DeterministicIsChoice(source, values');
    if values == [] || values' == [] {
      assert |values| == |multiset(values)| == |values'|;
    } else {
      ChoiceIsUnique(source, multiset(values), ChosenTranslation(source, values), ChosenTranslation(source, values'));
      ChoiceIsUnique(source, multiset(values), DeterministicTranslation(source, values), DeterministicTranslation(source, values'));
    }
  }

  /** The source is returned only when no candidate differs from it, by either selector. */
  lemma SourceOnlyAsLastResort(source: string, values: seq<string>, other: string)
    requires other in values && other != source
    ensures ChosenTranslation(source, values) != source
    ensures ChosenTranslation(source, values) in values
    ensures DeterministicTranslation(source, values) != source
    ensures DeterministicTranslation(source, values) in values
  {
    hide ChosenTranslation, DeterministicTranslation;
    ChosenIsChoice(source, values);
    SelectorsAgree(source, values);
    assert other in multiset(values);
  }
}
