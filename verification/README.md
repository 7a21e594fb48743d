# Verified models of the build, localisation and QA scripts

Each module models one component of the scripts and proves what that component is for. Code that
works by changing things is a method or a class, proved against a function or a relation; the laws of
that function are lemmas beside it.

| module | component |
|---|---|
| `AndroidEscape`, `KotlinInterpolations`, `KotlinTemplates`, `AndroidRenderer`, `AndroidFormat`, `AndroidMeaning`, `KotlinSegments`, `KotlinCode` | the Android resource renderer: escaping, interpolation scanning, positional formats, what a shipped resource reads as, delimiter scanning |
| `TranslationChoice`, `AppleCatalog`, `JsonString`, `JsonLiterals`, `InfoPlist`, `InfoPlistRoundTrip`, `StringsFiles` | the choice among translations, the Apple catalog rebuild, the localized InfoPlist files |
| `GreedyPartition`, `DeclarationPartitions` | the declaration build's entry partitions |
| `JsonEnvelope`, `OutputReservation`, `OutputIsolation`, `GuardedOutput` | the matrix runner: cutting a JSON envelope, reserving an output directory, keeping it apart from protected ones, and the two composed |
| `RestartProbe`, `SignalController`, `WorkerPool`, `HttpExchange`, `Percentile` | the gateway benchmarks and probes, as event and step machines |
| `LeastSquares`, `GlobMatcher`, `ArgumentScanner`, `CallArguments`, `DirectoryWalk` | the retained-memory slope, the policy glob matcher, the call-argument scanners, the directory walk |
| `Sequences`, `Sorting`, `Text`, `CodeText` | shared definitions: options and results, stable sorting, code units, trimming and `replaceAll`, and code as the character scanners see it |

Where the code does less than one would expect of it, the model keeps the code and a lemma says
exactly when it holds:

- Decoding an escaped Android value gives it back if and only if the value has no backslash directly
  followed by the letter n (`AndroidEscape.RoundTripExactly`). Each such pair comes back as a backslash
  and a line feed, because the decoder replaces `\n` before it replaces `\\`. So a shipped resource reads as
  its translation if and only if the translation has no such pair outside its interpolations
  (`AndroidMeaning.ShippedResourceMeansTranslation`).
- "Pattern A matches pattern B read as a path" shows that A covers B if and only if B has no `**`
  (`GlobMatcher.CoverageTestExactly`).
- The textual overlap test on paths never reports that the file system root overlaps another directory
  (`OutputIsolation.OverlapExactly`).
- An accepted and reserved output lies apart from a protected directory that was there at the check, the
  root excepted. One that was missing can still become a link to the output; `GuardedOutput.CanMeetExactly`
  says exactly when the two can meet.
- Rendering an InfoPlist file from the file just rendered changes nothing if and only if every entry that
  keeps an earlier translation repeats the last entry with its key, which distinct keys ensure. An entry
  keeps one if no candidate is a translation and the one there is belongs to its source, is not blank and
  is not the source itself. With repeated keys the output is fixed from the second rendering on
  (`InfoPlistRoundTrip.RenderIsFixedPoint`, `InfoPlistRoundTrip.SecondRenderingIsFixed`).
- An extension entry with an empty id, such as `extensions//x`, is in no declaration partition
  (`DeclarationPartitions.EntriesAreCovered`).
- The two translation selectors differ only on an empty candidate list: one returns the source, the
  other the empty string (`TranslationChoice.SelectorsAgree`).

Three guards in the code turn out to be dead: the `index ? … : token` fallback of the renderer
(`AndroidFormat.IndexIsDefined`), the zero-denominator guard of the slope
(`LeastSquares.SpreadIsPositive`), and the `parent === current` guard of the path canonicaliser
(`OutputIsolation.CanonicalFromDeepest`).

## Model

| member | source | states |
|---|---|---|
| AndroidEscape.EscapeIsSinglePass | scripts/android-app-i18n.ts:246-255 | the seven chained replacements equal one pass that expands each character by itself |
| AndroidEscape.DecodeAfterEscape | scripts/android-app-i18n.ts:122-139 | the chained decoder, applied to any quoted escaped value, gives the value with every backslash-n pair turned into backslash, line feed |
| AndroidEscape.DecodedFixes | scripts/android-app-i18n.ts:122-134 | that result is the value itself exactly when the value has no such pair |
| AndroidEscape.RoundTripExactly | scripts/android-app-i18n.ts:1134 | decoding the quoted escape returns the original value if and only if it has no backslash directly followed by n |
| AndroidEscape.PathIsDamaged | scripts/android-app-i18n.ts:122-139 | a value that is not returned: the path `C:\new` comes back with a line feed |
| AndroidEscape.DecodeUnquotedAfterEscape | scripts/android-app-i18n.ts:122-139 | an escaped value is decoded to the same in quotes and, if trimming leaves it alone, without, whatever white space is around either |
| AndroidEscape.QuotesAreStripped | scripts/android-app-i18n.ts:136-139 | white space around a raw value in quotes, and the quotes, are taken off before its text is decoded |
| AndroidEscape.UnquotedIsKept | scripts/android-app-i18n.ts:136-139 | any other raw value but a lone quote is decoded as it stands, white space around it apart |
| AndroidEscape.LoneQuoteIsEmpty | scripts/android-app-i18n.ts:136-139 | a lone quote is taken for an opening and a closing one, and decoded as the empty text |
| AndroidEscape.EntitiesAreDecoded | scripts/android-app-i18n.ts:122-134 | the four entities are decoded in every text without a backslash, with `&amp;lt;` read as `&lt;` |
| AndroidEscape.EscapedIsResourceText | scripts/android-app-i18n.ts:246-255 | an escaped value has no raw angle bracket, line feed or unescaped quote, every backslash starts an escape and every ampersand an entity |
| Text.ReplaceAllRejoins | scripts/android-app-i18n.ts:246-255 | `replaceAll` cuts the text at the leftmost occurrences of the pattern and joins the pieces with the replacement |
| KotlinInterpolations.ReadKotlinInterpolations | scripts/android-app-i18n.ts:147-197 | the index-and-depth loop computes the recursive scan, failing on the same unclosed braces |
| KotlinInterpolations.SpansAreExact | scripts/android-app-i18n.ts:147-197 | the scan returns some spans if and only if they are exactly the text's interpolations: in order, disjoint, in bounds, braces closed where the depth outside quotes first is zero, and none starting in a gap |
| KotlinInterpolations.SpansRebuildSource | scripts/android-app-i18n.ts:147-197 | the spans and the gaps between them rebuild the text |
| KotlinTemplates.WrittenTemplateIsRead | scripts/android-app-i18n.ts:147-197 | a template written from text, `$name`s and braced code with quotes, escapes and nested braces is scanned into exactly those interpolations |
| AndroidRenderer.CountTokens | scripts/android-app-i18n.ts:210-216 | the count map holds each token's number of occurrences, and no other key |
| AndroidRenderer.SameCounts | scripts/android-app-i18n.ts:217-221 | two count maps are equal exactly when the token multisets are |
| AndroidRenderer.IndexTokens | scripts/android-app-i18n.ts:223-228 | the index map lists for each source token its 1-based positions in order |
| AndroidRenderer.RenderPositional | scripts/android-app-i18n.ts:222-242 | the loop over spans emits each gap percent-escaped, and for the r-th occurrence of a token the r-th source position of it |
| AndroidRenderer.RenderAndroidResourceValue | scripts/android-app-i18n.ts:199-244 | refuses unclosed and changed placeholders, escapes texts without any, and otherwise escapes the positional rendering |
| AndroidRenderer.NumberOfDecimal | scripts/android-app-i18n.ts:237-238 | the decimal numeral of a position reads back as that position |
| AndroidFormat.IndexIsDefined | scripts/android-app-i18n.ts:234-238 | with equal multisets every token finds a source position, and the source token there is equal to it |
| AndroidFormat.EveryIndexUsedOnce | scripts/android-app-i18n.ts:223-238 | with equal multisets every position 1..n is used, by exactly one translated token |
| AndroidFormat.FormatInvertsRendering | scripts/android-app-i18n.ts:199-244 | with equal, non-empty multisets, formatting the pre-escape rendering with the source's interpolations gives back the translation exactly |
| AndroidMeaning.DecodedEscapesPercent | scripts/android-app-i18n.ts:233-241 | decoding and escaping percent signs commute |
| AndroidMeaning.FormatSeesDecodedGaps | scripts/android-app-i18n.ts:222-242 | decoded and formatted with the source's interpolations, the rendering gives the translation with the text between its interpolations decoded, for all texts with equal multisets |
| AndroidMeaning.SeenFixes | scripts/android-app-i18n.ts:122-134 | that text is the translation itself exactly when no gap between interpolations has a backslash directly followed by n |
| AndroidMeaning.ShippedResourceMeansTranslation | scripts/android-app-i18n.ts:1164 | for every accepted pair, the shipped resource, decoded and formatted, reads as the translation with decoded gaps, and as the translation itself if and only if no text outside its interpolations has a backslash directly followed by n |
| AndroidFormat.RefusedExactlyWhen | scripts/android-app-i18n.ts:201-221 | rendering succeeds if and only if both texts have closed interpolations and the same multiset of them; it reports unbalanced placeholders exactly if one of the texts has unclosed ones |
| KotlinSegments.FindClosingDelimiter | scripts/android-app-i18n.ts:591-627 | returns the least closing delimiter outside quotes that brings the depth to zero, and null exactly when there is none |
| KotlinSegments.SplitTopLevelSegments | scripts/android-app-i18n.ts:686-754 | the segments tile the range, with exactly one separating comma between neighbours and none inside a segment |
| KotlinSegments.ArgumentsAreBalanced | scripts/android-app-i18n.ts:901-947 | on the text the finder delimits, the splitter's parenthesis depth never goes negative, and it ends at zero and outside quotes: the two scanners agree |
| KotlinCode.WrittenGroupIsDelimited | scripts/android-app-i18n.ts:591-627 | a group written with strings, escapes and balanced delimiters in it is closed at the delimiter it was written with, for every pair of delimiters |
| KotlinCode.WrittenParametersAreSegments | scripts/android-app-i18n.ts:686-754 | parameters written with commas between them are split into exactly those parameters, whatever strings, brackets, type arguments and default values are in them, and arguments likewise |
| TranslationChoice.CountValues | scripts/android-app-i18n.ts:1051-1054 | the count map holds the distinct values in order of first appearance with their multiplicities |
| TranslationChoice.SelectDeterministicTranslation | scripts/android-app-i18n.ts:1048-1063 | computes the Android choice: non-source values if there are any, the most frequent first |
| TranslationChoice.ChooseTranslation | scripts/apple-app-i18n.ts:624-637 | computes the Apple choice: a sort by source penalty, count and text |
| TranslationChoice.DeterministicIsChoice | scripts/android-app-i18n.ts:1052-1063 | the Android choice is the one candidate preferred to all others, as a relation on the multiset of candidates |
| TranslationChoice.ChosenIsChoice | scripts/apple-app-i18n.ts:626-637 | so is the Apple choice |
| TranslationChoice.SelectorsAgree | scripts/apple-app-i18n.ts:624-637 | the two selectors agree on a list if and only if it is non-empty or the source is the empty string |
| TranslationChoice.ChoiceIgnoresOrder | scripts/android-app-i18n.ts:1048-1063 | both choices depend only on the multiset of candidates |
| TranslationChoice.SourceOnlyAsLastResort | scripts/apple-app-i18n.ts:624-637 | when some candidate differs from the source, the choice of either selector is a candidate and not the source |
| Text.PrecedesIsLexicographic | scripts/apple-app-i18n.ts:626-637 | the comparison of texts is the lexicographic order of their code units |
| Sorting.SortByIsStable | scripts/apple-app-i18n.ts:626-637 | sorting keeps the order of elements that tie |
| AppleCatalog.TranslationsBySource | scripts/apple-app-i18n.ts:656-667 | per artifact, the map holds every included source's candidate translations |
| AppleCatalog.TranslationsByLocale | scripts/apple-app-i18n.ts:654-669 | over all artifacts, looking up a locale and a source gives exactly that locale's candidates |
| AppleCatalog.BuildEntry | scripts/apple-app-i18n.ts:673-707 | one source's localizations and contradictions for all required locales |
| AppleCatalog.BuildAppleCatalog | scripts/apple-app-i18n.ts:639-718 | the nested loops compute the catalog and the sorted contradictions, whose laws follow |
| AppleCatalog.ContradictionsAreConflicts | scripts/apple-app-i18n.ts:670-680 | a contradiction is reported if and only if its source is included, its locale required, two candidates differ, and it lists exactly the candidates, each once, in increasing order |
| AppleCatalog.ContradictionsAreOrdered | scripts/apple-app-i18n.ts:713-716 | the report is ordered by source, then locale; with distinct required locales strictly, so that no source and locale occurs twice |
| AppleCatalog.IncreasingIsUnique | scripts/apple-app-i18n.ts:677 | an increasing list is determined by its members, so the listed translations are determined by the candidates |
| AppleCatalog.CandidatesExactly | scripts/apple-app-i18n.ts:656-667 | a value is as often a candidate of a source in a locale as the last artifact with that locale has translations that give it under an id of an included entry, the last entry with that id having this source |
| AppleCatalog.CandidateMembers | scripts/apple-app-i18n.ts:656-667 | so it is a candidate if and only if there is such a translation |
| AppleCatalog.NoCandidates | scripts/apple-app-i18n.ts:654-669 | a locale without an artifact has no candidates |
| AppleCatalog.IncludedSourcesExactly | scripts/apple-app-i18n.ts:645-650 | the catalog's sources are exactly the catalog values of the included entries |
| AppleCatalog.BuildCoversInputs | scripts/apple-app-i18n.ts:682-707 | the catalog has a unit exactly for each included source and required locale; a shipped unit is kept; a new one has the source in English or without candidates, and else the candidate preferred to all others; it is "new" exactly when it repeats the source outside English |
| AppleCatalog.RebuildIsFixedPoint | scripts/apple-app-i18n.ts:639-718 | building again from the built catalog with the same inputs changes nothing |
| AppleCatalog.ShippedNeverChanges | scripts/apple-app-i18n.ts:639-718 | over any series of builds with any changing inputs, a non-empty "translated" value never changes while its source stays included |
| JsonString.ParseInvertsQuote | scripts/apple-app-i18n.ts:430-432 | reading a printed string literal gives back the string, for every string of code units, with lone surrogates escaped and pairs not |
| JsonLiterals.LiteralIsRead | scripts/apple-app-i18n.ts:488-499 | every string literal of section 7 of RFC 8259, with either kind of escape, is read as what it means |
| JsonLiterals.OnlyLiteralsAreRead | scripts/apple-app-i18n.ts:488-499 | and reading succeeds if and only if the text is such a literal |
| JsonLiterals.QuoteIsShortest | scripts/apple-app-i18n.ts:430-432 | a string without surrogates is written as a shortest of the literals that mean it |
| InfoPlist.ParseStringsFile | scripts/apple-app-i18n.ts:488-499 | the matching loop computes the parse of a strings file, or throws on a literal that is not JSON |
| StringsFiles.FileIsParsed | scripts/apple-app-i18n.ts:488-499 | every file of assignments, with or without a source comment, with any white space around their parts and any literals, and of other lines without quotes, is parsed as the last assignment of each key |
| InfoPlistRoundTrip.LinesAreMatched | scripts/apple-app-i18n.ts:490-492 | in a rendered file the pattern matches exactly the rendered lines, whatever characters keys and values contain |
| InfoPlistRoundTrip.ParseInvertsRender | scripts/apple-app-i18n.ts:488-553 | parsing a rendered file gives back, for each key, the source and value of its last line |
| InfoPlistRoundTrip.RenderIsInjective | scripts/apple-app-i18n.ts:534-553 | different lines are rendered to different files |
| InfoPlistRoundTrip.SelectionExactly | scripts/apple-app-i18n.ts:501-513 | if some candidate is not blank and not the source up to trimming, the selected value is the preferred one of exactly those candidates; else the existing value if it belongs to the source and is not blank, and else the source |
| InfoPlistRoundTrip.TranslatedEntryIsRendered | scripts/apple-app-i18n.ts:515-553 | an entry that the artifact translates is rendered with that text |
| InfoPlistRoundTrip.UntranslatedEntryIsRendered | scripts/apple-app-i18n.ts:515-553 | any other is rendered with the existing translation of its source that is not blank, or else with its source |
| InfoPlistRoundTrip.TranslationsReachTheFile | scripts/apple-app-i18n.ts:488-553 | parsed again, the rendered file has for the last entry of each key the artifact's translation, if there is one |
| InfoPlistRoundTrip.RenderFailsExactly | scripts/apple-app-i18n.ts:534-553 | rendering throws if and only if the source of some entry has no native id, or an empty one |
| InfoPlistRoundTrip.SelectionIsStable | scripts/apple-app-i18n.ts:501-513 | the selected value is selected again once it is the existing one |
| InfoPlistRoundTrip.KeepsEarlierExactly | scripts/apple-app-i18n.ts:501-513 | an existing translation changes an entry's line if and only if every candidate is blank or the source itself up to trimming, and the existing one belongs to the source, is not blank and differs from the source |
| InfoPlistRoundTrip.RenderIsFixedPoint | scripts/apple-app-i18n.ts:488-553 | for all entries, render, parse, render is a fixed point if and only if every entry that keeps an earlier translation, by that guard, repeats the last entry with its key |
| InfoPlistRoundTrip.DistinctKeysAreSettled | scripts/apple-app-i18n.ts:534-553 | with distinct keys, or only whole entries repeated, this condition holds, so that every rendering is a fixed point |
| InfoPlistRoundTrip.SecondRenderingIsFixed | scripts/apple-app-i18n.ts:488-553 | for all entries, repeated keys included, the output is fixed from the second rendering on |
| InfoPlistRoundTrip.RepeatedKeyLosesTranslation | scripts/apple-app-i18n.ts:488-553 | a key with two sources whose first rendering is no fixed point |
| GreedyPartition.LeastLoadedAmong | tsdown.config.ts:607-628 | the target is the first of the partitions with the fewest entries |
| GreedyPartition.PartitionUnifiedEntryGroups | tsdown.config.ts:607-628 | the nested loops compute the least-loaded schedule, and throw exactly on groups without partitions |
| GreedyPartition.GroupsStayWhole | tsdown.config.ts:607-628 | each partition is the concatenation, in order, of the whole groups placed in it |
| GreedyPartition.EntriesAreConserved | tsdown.config.ts:607-628 | the partitions hold exactly the entries of the groups, as a multiset |
| GreedyPartition.GrahamBound | tsdown.config.ts:607-628 | m times any partition is at most the total plus m - 1 times the largest group |
| GreedyPartition.ApproximationRatio | tsdown.config.ts:607-628 | no partition exceeds (2 - 1/m) times the largest partition of any other assignment of whole groups |
| GreedyPartition.PartitionsAreBalanced | tsdown.config.ts:607-628 | any two partitions differ by at most one largest group |
| DeclarationPartitions.GroupByExtension | tsdown.config.ts:645-657 | the loop gathers each non-empty extension id's entries under that id, in order of first appearance |
| DeclarationPartitions.BuildUnifiedDeclarationPartitions | tsdown.config.ts:635-685 | returns the named partitions with their normalised sources, and throws exactly when there are more names than partitions |
| DeclarationPartitions.EntriesAreCovered | tsdown.config.ts:635-685 | every entry occurs in the partitions as often as in the input, except extension entries with an empty id, which do not occur |
| DeclarationPartitions.EmptyIdIsDropped | tsdown.config.ts:650-653 | an instance: the entry `extensions//x` is in no partition |
| DeclarationPartitions.EveryEntryInOnePartition | tsdown.config.ts:635-685 | an entry that occurs once is in exactly one partition, or in none if its extension id is empty |
| DeclarationPartitions.ExtensionsStayTogether | tsdown.config.ts:635-685 | all entries of an extension are in one partition |
| DeclarationPartitions.NamedPartitionsAre | tsdown.config.ts:639-670 | the first three partitions are, in sorted order, the entries outside the SDK and the extensions, the public SDK entries and the private ones |
| DeclarationPartitions.SameExtension | tsdown.config.ts:645-657 | an extension entry belongs to the extension that its directory names, up to the second slash |
| JsonEnvelope.ParseAgentExecOutput | scripts/code-mode-model-matrix.ts:781-820 | the depth-and-quote loop computes the cut, with both refusals |
| JsonEnvelope.ThroughValue | scripts/code-mode-model-matrix.ts:795-815 | the scanner crosses any JSON value inside an object without stopping, and leaves it in the state it entered |
| JsonEnvelope.CutAtClosingBrace | scripts/code-mode-model-matrix.ts:781-820 | for every JSON object and any following text, the cut is right after the object's closing brace |
| JsonEnvelope.EnvelopeIsExact | scripts/code-mode-model-matrix.ts:781-820 | after any white space, and before any trailing text, the envelope is the object's text and the rest is trimmed |
| JsonEnvelope.ProperPrefixIsRefused | scripts/code-mode-model-matrix.ts:781-820 | no proper prefix of an object's text is accepted |
| JsonEnvelope.OtherOutputIsRefused | scripts/code-mode-model-matrix.ts:781-794 | blank output, and output that does not begin with a brace, are refused with their own errors |
| OutputReservation.AcceptedExactlyInside | scripts/code-mode-model-matrix.ts:479-488 | the relative-path test accepts exactly the strict descendants of the repository, and the walk leads to the output |
| OutputReservation.NextKeepsInv | scripts/code-mode-model-matrix.ts:490-524 | every lstat, mkdir and outside creation keeps the invariant of all processes |
| OutputReservation.RunKeepsInv | scripts/code-mode-model-matrix.ts:490-524 | so it holds in every interleaving of any number of processes |
| OutputReservation.AtMostOneReserves | scripts/code-mode-model-matrix.ts:475-524 | of the processes with the same output at most one returns normally |
| OutputReservation.ReservationIsGenuine | scripts/code-mode-model-matrix.ts:475-524 | it is the one whose mkdir created the leaf, which was not there at the start, and every prefix of it is a real directory |
| OutputReservation.AtMostTwoLstatsPerSegment | scripts/code-mode-model-matrix.ts:492-522 | the retry loop makes at most two lstat calls for each segment |
| OutputReservation.RefusalsAreTrue | scripts/code-mode-model-matrix.ts:495-510 | the reason in each refusal (a link, an existing output, a parent that is no directory) is true of the file system |
| OutputReservation.SoloProcessReserves | scripts/code-mode-model-matrix.ts:475-524 | undisturbed, with a free output and no obstacle above it, there is a run that reserves it |
| OutputReservation.ExactlyOneReserves | scripts/code-mode-model-matrix.ts:475-524 | when any number of processes contend for one free output below directories, undisturbed, and all have finished without an unrelated error, exactly one has reserved it |
| OutputReservation.RunningCanStep | scripts/code-mode-model-matrix.ts:492-522 | in every reachable state a process that has not finished can take a step other than into an unrelated error |
| OutputIsolation.OverlapExactly | scripts/code-mode-model-matrix.ts:350-362 | the textual test reports an overlap if and only if some path lies at or below both directories and not exactly one of them is the root |
| OutputIsolation.RootOverlapIsMissed | scripts/code-mode-model-matrix.ts:350-362 | an overlap that is not reported: the root with a directory in it |
| OutputIsolation.CanonicalizeExistingPathPrefix | scripts/code-mode-model-matrix.ts:384-402 | the loop with its missing segments computes the canonical path, on a file system with symbolic links |
| OutputIsolation.CanonicalFromDeepest | scripts/code-mode-model-matrix.ts:384-402 | the canonical path is the real path of the longest prefix that is there, then the missing segments; running out of parents is impossible |
| OutputIsolation.CanonicalIsFixedPoint | scripts/code-mode-model-matrix.ts:384-402 | a canonical path is canonical already, dangling links included |
| GuardedOutput.CheckedPlaceIsReserved | scripts/code-mode-model-matrix.ts:1296-1303 | if the file system only grew between check and reservation, the reserved directory's real path is the path that was checked |
| GuardedOutput.CheckedPathsAreApart | scripts/code-mode-model-matrix.ts:430-473 | the two canonical paths of every accepted output share a path at or below both exactly when one of them is the root |
| GuardedOutput.ReservedStaysApart | scripts/code-mode-model-matrix.ts:1296-1303 | a protected directory that was there at the check keeps its real path, and in the later file system the reserved output meets it exactly when it is the root |
| GuardedOutput.CanMeetExactly | scripts/code-mode-model-matrix.ts:384-473 | some growth lets the reserved output meet the protected directory if and only if the protected one is the root, or was missing at the check and its lookup has a link to spare or leads through the output's place |
| GuardedOutput.MissingMayMeet | scripts/code-mode-model-matrix.ts:404-428 | an instance: a missing protected directory is accepted beside the output and later leads to it |
| GuardedOutput.ReservingProcessStaysApart | scripts/code-mode-model-matrix.ts:475-524 | the same for a process that has reserved its output in any run of concurrent creators that starts from the file system of the check |
| LeastSquares.Slope | scripts/bench-task-registry-sqlite-worker.ts:109-123 | the loops compute the quotient of co-deviation and spread |
| LeastSquares.SpreadIsPositive | scripts/bench-task-registry-sqlite-worker.ts:116-122 | the denominator is n(n² - 1)/12 and positive, so the zero guard is dead |
| LeastSquares.ResidualExcess | scripts/bench-task-registry-sqlite-worker.ts:109-123 | any line's summed squared residuals exceed the best line's by the spread times the squared slope error plus n times the squared intercept error |
| LeastSquares.SlopeIsUniqueMinimiser | scripts/bench-task-registry-sqlite-worker.ts:109-123 | the slope with its best intercept is the one minimiser of the summed squared residuals |
| LeastSquares.AffineDataGivesItsSlope | scripts/bench-task-registry-sqlite-worker.ts:109-123 | affine data gives its own slope |
| LeastSquares.NonDecreasingGivesNonNegativeSlope | scripts/bench-task-registry-sqlite-worker.ts:109-123 | non-decreasing data gives a slope that is not negative |
| LeastSquares.ShortSeriesHasNoSlope | scripts/bench-task-registry-sqlite-worker.ts:109-112 | a series of fewer than two values has slope 0 |
| GlobMatcher.ComputeMatchesParts | scripts/check-policy-config-coverage.ts:208-232 | the recursion with its search loop decides the matching relation |
| GlobMatcher.SinglePart | scripts/check-policy-config-coverage.ts:208-232 | a part by itself takes any run if it is `**`, any one part if it is `*`, and else its own text |
| GlobMatcher.MatchIsAlignment | scripts/check-policy-config-coverage.ts:208-232 | a value matches if and only if it can be cut into runs that the pattern's parts take one by one |
| GlobMatcher.MatchIsCompositional | scripts/check-policy-config-coverage.ts:208-232 | p ++ q matches a value if and only if it splits into a match of p and a match of q |
| GlobMatcher.JoinedPatterns | scripts/check-policy-config-coverage.ts:203-207 | in terms of strings: joining two patterns with a dot joins their languages |
| GlobMatcher.SplitIsExact | scripts/check-policy-config-coverage.ts:203-207 | a pattern or path is cut at every dot: no part has one, and joined with dots the parts are the text |
| GlobMatcher.LiteralMatchesItselfOnly | scripts/check-policy-config-coverage.ts:203-232 | a pattern without wildcard parts matches the path with the same text and no other |
| GlobMatcher.CoverageTestExactly | scripts/check-policy-config-coverage.ts:75-84 | matching a pattern read as a path implies matching all its paths, for every matcher, if and only if that pattern has no `**` |
| GlobMatcher.CoverageOfShallow | scripts/check-policy-config-coverage.ts:75-84 | for a pattern without `**`, being matched as a path and being covered are the same |
| GlobMatcher.DeepIsNotCovered | scripts/check-policy-config-coverage.ts:75-84 | an instance with `**`: `*` matches it as a path, but not the path `a.b` that it matches |
| GlobMatcher.ClassifyFindsMatch | scripts/check-policy-config-coverage.ts:86-93 | a path is classified exactly when some classification's pattern matches it |
| GlobMatcher.ClassifyFindsFirst | scripts/check-policy-config-coverage.ts:86-93 | and the classification is the first whose pattern matches |
| GlobMatcher.ExcusedPatternsAreClassified | scripts/check-policy-config-coverage.ts:75-93 | every path that an excused `**`-free monitored pattern will come to match is classified |
| RestartProbe.Probe.WaitForRestartProbe | scripts/bench-gateway-restart.ts:494-579 | for every sequence of attempts: when the loop ends, and each field of the result, ms being set exactly if the last attempt made was a 200, and downtime exactly if a 200 followed another outcome |
| RestartProbe.Probe.AttemptsHaveOneShape | scripts/bench-gateway-restart.ts:494-579 | before its last attempt the probe sees some 200s and from then on none |
| RestartProbe.Probe.DowntimeIsNonNegative | scripts/bench-gateway-restart.ts:494-579 | a recovery is a last 200 after a first other outcome, and with a clock that does not go back its downtime is not negative |
| RestartProbe.Probe.TransitionsCollapse | scripts/bench-gateway-restart.ts:494-579 | the transitions are the attempts with adjacent equal states collapsed into the first of them, none missing and none left over |
| SignalController.Controller.constructor | scripts/anthropic-prompt-probe.ts:697-701 | starts unattached with nothing received and nothing done |
| SignalController.Controller.KillAttached | scripts/anthropic-prompt-probe.ts:708-712 | force-kills the attachment if there is one |
| SignalController.Controller.Start | scripts/anthropic-prompt-probe.ts:713-730 | starts the shutdown once, if there are a signal and an attachment, with the pending force kill first |
| SignalController.Controller.Handle | scripts/anthropic-prompt-probe.ts:732-743 | the first signal is kept; later ones kill the attachment, or leave one force kill pending |
| SignalController.Controller.Attach | scripts/anthropic-prompt-probe.ts:748-751 | only the first attachment counts, and it starts a waiting shutdown |
| SignalController.Controller.Dispose | scripts/anthropic-prompt-probe.ts:702-707 | removes the handlers, so that later signals no longer reach the controller |
| SignalController.Controller.CallStop | scripts/anthropic-prompt-probe.ts:723-724 | the queued callback calls stop |
| SignalController.Controller.Finish | scripts/anthropic-prompt-probe.ts:725-729 | when stop settles the process exits with the kept code |
| SignalController.HistoryIsExact | scripts/anthropic-prompt-probe.ts:696-754 | after any events in any order, fields and effects are exactly what the history of handled signals and the first attach ask for |
| SignalController.StopsAndExitsOnce | scripts/anthropic-prompt-probe.ts:696-754 | stop at most once, exit at most once and only after it, with the first handled signal's code |
| SignalController.SignalIsNeverLost | scripts/anthropic-prompt-probe.ts:696-754 | the shutdown is under way if and only if a signal was handled and something attached, in either order; otherwise nothing was done |
| SignalController.EscalationsAreCounted | scripts/anthropic-prompt-probe.ts:696-754 | later signals before the attach coalesce into one force kill ahead of everything, each one after it gives exactly one, all on the first attachment |
| SignalController.ListeningExactly | scripts/anthropic-prompt-probe.ts:702-707 | signals reach a handler exactly until dispose is called or the process exits |
| SignalController.ExitCodesAreConventional | scripts/lib/managed-child-process.mts:77-80 | the exit codes are 129, 130 and 143 |
| SignalController.ShutdownCompletes | scripts/anthropic-prompt-probe.ts:723-730 | a shutdown under way ends in an exit with the first handled signal's code, once the callback has run and stop has settled, whatever happens in between |
| WorkerPool.NextKeepsInv | scripts/bench-gateway-concurrency.ts:1088-1120 | every claim, completion and failure keeps each claimed item in exactly one place |
| WorkerPool.RunKeepsInv | scripts/bench-gateway-concurrency.ts:1295-1318 | so it holds in every interleaving |
| WorkerPool.NoItemIsSharedEver | scripts/bench-gateway-concurrency.ts:1088-1120 | at every moment, even after failures, no item is processed twice, out of range, or held by two workers |
| WorkerPool.ReturnMeansAllClaimed | scripts/bench-gateway-concurrency.ts:1088-1120 | no worker returns while an item is unclaimed |
| WorkerPool.EveryItemExactlyOnce | scripts/bench-gateway-concurrency.ts:1295-1318 | once all workers have returned, each item was processed exactly once and the cursor stands at items + workers |
| WorkerPool.StepsAreBounded | scripts/bench-gateway-concurrency.ts:1088-1120 | every step of every run decreases a measure that is never negative, so no run goes on for ever |
| WorkerPool.UnfinishedCanStep | scripts/bench-gateway-concurrency.ts:1088-1120 | a pool without failures whose workers have not all returned can take a step |
| WorkerPool.MaximalRunProcessesAll | scripts/bench-gateway-concurrency.ts:1088-1120 | a run of a non-empty pool that cannot go on and in which nothing failed has processed each item exactly once |
| WorkerPool.LatchStep | scripts/bench-gateway-concurrency.ts:1189-1224 | the latch's counter and flags keep matching the turns |
| WorkerPool.LatchOpensExactly | scripts/bench-gateway-concurrency.ts:1189-1224 | the latch is open if and only if the turns have settled or all of at least one turn have started |
| HttpExchange.Exchange.constructor | scripts/bench-gateway-concurrency.ts:450-474 | starts unsettled with nothing received |
| HttpExchange.Exchange.Settle | scripts/bench-gateway-concurrency.ts:451-458 | clears the timer and runs its callback only the first time |
| HttpExchange.Exchange.Handle | scripts/bench-gateway-concurrency.ts:459-499 | one event of the response, the socket or the timer, with its whole new state |
| HttpExchange.FirstEventDecides | scripts/bench-gateway-concurrency.ts:450-502 | in every order of events the first one that can settle the request decides all effects, and later ones change nothing |
| HttpExchange.ResolvesExactly | scripts/bench-gateway-concurrency.ts:473-491 | the request resolves with a body if and only if the end of the response comes first and the body is every byte received, in order; then it is within the limit |
| Percentile.RankIsExact | scripts/bench-gateway-concurrency.ts:361-367 | for every percentage: the percentile of a sorted list is one of its values, with at least that share of the values at or below it and less than that share below it; the clamps give the least value, the greatest, and 0 without values |
| ArgumentScanner.QuoteScanState.constructor | scripts/check-temp-path-guardrails.ts:76 | starts outside quotes |
| ArgumentScanner.QuoteScanState.BeginQuotedSection | scripts/check-temp-path-guardrails.ts:48-54 | opens a section exactly on a quote |
| ArgumentScanner.QuoteScanState.ConsumeQuotedChar | scripts/check-temp-path-guardrails.ts:56-72 | consumes a character exactly inside a section, with escapes and the closing quote |
| ArgumentScanner.FindMatchingParen | scripts/check-temp-path-guardrails.ts:74-97 | returns the least index at which the parenthesis depth outside quotes reaches zero, or -1 exactly if there is none |
| ArgumentScanner.SplitTopLevelArguments | scripts/check-temp-path-guardrails.ts:99-163 | returns the trimmed pieces between top-level commas, without a blank last one |
| ArgumentScanner.PiecesLieBetweenCuts | scripts/check-temp-path-guardrails.ts:99-163 | the pieces are exactly the stretches between neighbouring top-level commas |
| ArgumentScanner.PiecesRejoin | scripts/check-temp-path-guardrails.ts:99-163 | joined with commas, the untrimmed pieces are the text |
| ArgumentScanner.CutsAreTheCommas | scripts/check-temp-path-guardrails.ts:152-156 | the cuts are exactly the top-level commas, in increasing order |
| ArgumentScanner.ArgumentsAreStretches | scripts/check-temp-path-guardrails.ts:99-163 | the arguments are the trimmed stretches between the cuts; only a blank last one is dropped, blank ones before it are kept |
| CallArguments.WrittenArgumentsAreRead | scripts/check-temp-path-guardrails.ts:99-163 | arguments written with commas between them, with three kinds of quotes, escapes, nested brackets and stray closing brackets in them, are read back trimmed, without a blank last one |
| CallArguments.WrittenCallIsDelimited | scripts/check-temp-path-guardrails.ts:74-97 | the parenthesis found for a written call is the one that closes it |
| ArgumentScanner.SplitterIsInStep | scripts/check-temp-path-guardrails.ts:74-163 | on the text that the matcher delimits, the splitter never clamps its parenthesis depth and ends outside quotes at depth zero |
| DirectoryWalk.CollectFilesSync | scripts/check-file-utils.ts:42-80 | the stack-based walk terminates on every tree and returns, as a multiset, the files of the recursive definition |
| DirectoryWalk.ListEntries | scripts/check-file-utils.ts:64-76 | listing one directory moves each entry to the files, to the stack, or out, and loses nothing |
| DirectoryWalk.WalkIsExact | scripts/check-file-utils.ts:42-80 | a path is found exactly once if it leads to an included file without entering a skipped directory, and otherwise not at all |
| DirectoryWalk.ListingIsExact | scripts/check-file-utils.ts:64-76 | the same for the paths below the entries of one directory |

## Left out

Modelling choices:

- Strings are sequences of UTF-16 code units. Dafny characters leave out the surrogates, so the 2048 characters from U+10000 on stand for them (`Text.CodeUnit`). There is no normalisation, locale collation or case folding: collation is an arbitrary comparator parameter, lower-casing an arbitrary character map that keeps the separator.
- Floating point is `real`: rounding, NaN and infinities are not modelled.
- `appleCatalogValue`, the rule for included entries, `normalizeDeclarationEntrySource`, and the `includeFile` callback are function parameters about which nothing is assumed. Comparing sorted count maps by their JSON text is comparing the maps.
- StringsFiles.FileIsParsed: lines that are no assignment have no quotes and are not blank; a blank line before an assignment without a comment belongs to its white space.
- AndroidFormat.FormatInvertsRendering: formatting covers `%%` and `%k$s`, the only directives the renderer writes, and refuses all other directives of java.util.Formatter.
- RestartProbe.Probe.WaitForRestartProbe: runs over the finitely many rounds until the clock passes the deadline; completion callbacks are one boolean for each round, and the parallel log of events is not modelled.
- RestartProbe.Probe.DowntimeIsNonNegative: assumes a clock that does not go back, as performance.now() promises.
- SignalController.HistoryIsExact: lets the queued stop callback come at any later time, which includes every order of the event loop; that a force kill throws or stop rejects is swallowed, as in the source.
- WorkerPool.EveryItemExactlyOnce: is a statement about a state machine over values, with claiming and completing as separate steps; it needs a pool with at least one worker.
- OutputReservation.AtMostOneReserves: takes lstat and mkdir as atomic and nothing as removed; other errors may refuse at any time, and the environment may create anything that is free.
- GuardedOutput.ReservedStaysApart: takes symbolic links with absolute, normalised targets, a bound on the links followed, and a file system that only grows between the check and the reservation. How the guard learns that case is ignored is left out.
- HttpExchange.Exchange.Handle: leaves out latency and status, which pass through unchanged, and takes the body as its bytes before UTF-8 decoding.
- DirectoryWalk.CollectFilesSync: takes a tree that does not change, and paths as sequences of names; a directory that cannot be read has no entries. The walk's order is not stated, only its multiset.

Not modelled:

- Processes, sockets, SQLite, git, file input and output, and the serialised order of object keys.
- The JSON.parse of a cut envelope, and parsing property lists.
- `retainedMemorySlopes` and `retainedMemoryDelta`: maps over the fields of samples, with `slope` for each.
- The regular-expression finders of unlocalised literals; only the scanners they call are modelled.
- Command-line parsing, usage text, reports, count summaries, and configuration tables.
