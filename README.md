# NER manager and locale helpers of nlp.js, in Dafny

This project models two parts of the nlp.js library: the named-entity
manager (`NerManager`) and the locale helpers of `NlpUtil`. The repository's
test suites are all there is of this code here. The model therefore follows
the behaviour those tests pin down, with a few choices where they are silent;
each choice is stated below.

- **Registry.** `Ner.NerManager` is a class with a `threshold` and a sequence
  `namedEntities`, kept in the order the entities were first added. Each entity
  (`NamedEntities.NamedEntity`) holds its options in order. Each option
  (`EntityOption`) maps a locale to its ordered list of surface texts.
  - The methods update the registry in place.
  - Each method states the whole new registry. It does so through small
    functions on the registry: `SetEntity`, `WithoutEntity`, `UpsertOption`
    and `RemoveOption`.
  - Each method also states that lookups under every other name are unchanged.
  - `Valid()` (unique entity names, and unique option names within an entity)
    holds before and after every method.
  - Adding or removing texts works over the cross product of locales and
    texts. Each is specified by a fold over the locales (`AddTexts`,
    `RemoveTexts`). The loops that do the work (`AppendTexts`, `DeleteTexts`)
    are proved equal to those folds. Lemmas then state, for every locale, what
    its list becomes.
- **Template scanner.** `GetEntitiesFromUtterance` returns the `%name%`
  placeholders of an utterance that name registered entities, in left-to-right
  order. `TemplateNamesOfTemplate` proves that scanning a rendered template
  gives back exactly its placeholders.
- **Fuzzy finder.** `FindEntities(utterance, locale)` works in these steps:
  - It splits the utterance into words: maximal runs of characters other than
    space, tab, newline and carriage return.
  - For every surface text of the locale, it considers each word-aligned span
    as a window (`Windows`). A window's length must be within 2 of the text's
    length.
  - It keeps the window with the least case-insensitive Levenshtein distance.
    The earliest such window wins a tie (`BestWindow`).
  - It scores that window as `accuracy = 1 − distance / max(|text|, |window|)`.
  - It keeps the match only if the accuracy is strictly above the threshold.
  - It sorts the matches by start, and by descending accuracy at equal start.
    The sort is a stable insertion sort.
  - It scans left to right and keeps each match that overlaps nothing already
    kept.
- **Levenshtein distance.** `SimilarSearch.Levenshtein` is the recursive
  definition. `LevenshteinDistance` is a row-by-row table method proved equal
  to it.
- **Locale helpers.**
  - `TruncatedLocale` is absent for a missing or empty locale. Otherwise it is
    the first two characters, lower-cased.
  - `GetStemmer` and `GetTokenizer` are decision tables. They map a locale to a
    tag naming the library algorithm.
  - The alternative-stemmer flags of the library's global map are a parameter
    here (`useAlternative`, the set of flagged locales).

The registry's accuracies are Dafny `real`s, which are exact rationals
(8/9, for example). Strings are sequences of characters. Lower-casing is ASCII
only.

Choices made where the tests are silent:

- **Strict gate.** The threshold gate is `accuracy > threshold`, not `≥`. In
  the several-entities case (test/nlp/ner-manager.test.js:345-364), the word
  `the` scores exactly 0.5 against `Thor` (`TheIsNotThor`). With `≥` at the
  default threshold of 0.5 that case would report three occurrences, not two.
- **Word-aligned windows.** Windows are word-aligned, within a length band of
  ±2. The tests do not fix a window scheme. This one gives the expected result
  in every find case, including the scores proved in `SpedermanScore` and
  `SperermanRejected`.
- **Tie order.** At equal start, higher accuracy comes first. This is why
  `Spiderman`, with accuracy 1, is reported rather than `Spider-man` (0.9) over
  the same word.
- **Idempotent option add.** `addNamedEntityOption` on an option that already
  exists returns it unchanged. It does not add a duplicate. Duplicates would
  break the unique lookup that `getNamedEntityOption` and the text operations
  rely on.
- **Indonesian tokenizer.** The tokenizer for `id` is the library's Indonesian
  aggressive tokenizer. The test only asks that one is defined.

## Model

| member | source | states |
|---|---|---|
| `Ner.NerManager.constructor` | test/nlp/ner-manager.test.js:32-41 | a new manager has no entities; its threshold is the given one, or 0.5 when none is given |
| `Ner.NerManager.AddNamedEntity` | test/nlp/ner-manager.test.js:45-63 | returns the entity registered under the name, first appending `{name, options: []}` when it is new; a second add changes nothing and returns the same entity; other names are unaffected |
| `Ner.NerManager.GetNamedEntity` | test/nlp/ner-manager.test.js:66-84 | without force, returns the registered entity or absent and changes nothing; with force, registers a missing entity with no options and returns it |
| `Ner.NerManager.RemoveNamedEntity` | test/nlp/ner-manager.test.js:87-101 | the entity is no longer found; the remaining names keep their order; every other entity is found as before, including when the name was missing |
| `NamedEntities.OptionsPositionFromEntity` | test/nlp/ner-manager.test.js:104-117 | the index of the first option with the name, or -1 exactly when no option has it |
| `NamedEntities.OptionFromEntity` | test/nlp/ner-manager.test.js:119-132 | the first option with that name: it is one of the entity's options and no option before it has the name; absent exactly when no option has the name |
| `Ner.NerManager.AddNamedEntityOption` | test/nlp/ner-manager.test.js:134-155 | creates the entity if needed and appends the option with empty texts if new; returns the option found afterwards under both names; nothing else changes |
| `Ner.NerManager.RemoveNamedEntityOption` | test/nlp/ner-manager.test.js:158-169 | the option is no longer found; sibling options and other entities are found as before; missing entities or options change nothing |
| `Ner.NerManager.GetNamedEntityOption` | test/nlp/ner-manager.test.js:172-201 | without force, returns the option or absent (missing option or missing entity) and changes nothing; with force, creates entity and option as needed and returns the option |
| `Ner.NerManager.AddNamedEntityText` | test/nlp/ner-manager.test.js:204-236 | creates entity, option and lists as needed; the option's texts become `AddTexts` of its old texts over the given locales and texts; nothing else changes |
| `Ner.AppendTexts` | test/nlp/ner-manager.test.js:224-236 | the loop over the locales, starting a missing list empty and appending the texts, computes exactly the fold `AddTexts` |
| `Ner.AppendToBucket` | test/nlp/ner-manager.test.js:214-223 | the loop that pushes each text yields the old list followed by the texts, in order |
| `NamedEntities.AddTextsBucket` | test/nlp/ner-manager.test.js:214-236 | afterwards a locale has a list exactly when it had one or was given; its list is the old list followed by the texts in order, once per time the locale was given |
| `NamedEntities.AddTextsDistinctLocales` | test/nlp/ner-manager.test.js:224-236 | with distinct locales, each given locale's list is its old list followed by the texts; any other locale is unchanged |
| `Ner.NerManager.RemoveNamedEntityText` | test/nlp/ner-manager.test.js:239-279 | when the option exists its texts become `RemoveTexts` of the old texts, and otherwise nothing changes; the option stays present; nothing else changes |
| `Ner.DeleteTexts` | test/nlp/ner-manager.test.js:268-279 | the loop over the locales, deleting the texts from each locale that has a list, computes exactly the fold `RemoveTexts` |
| `Ner.DeleteFromBucket` | test/nlp/ner-manager.test.js:240-267 | the loop that finds each text and splices out its first occurrence computes exactly `RemoveEach` of the list and the texts |
| `NamedEntities.RemoveTexts` | test/nlp/ner-manager.test.js:255-267 | removal never adds or drops locales, so a list that becomes empty stays present |
| `NamedEntities.RemoveTextsBucket` | test/nlp/ner-manager.test.js:240-279 | a present locale's list loses the first occurrence of each text, once per time the locale was given |
| `NamedEntities.RemoveTextsKeepsOrder` | test/nlp/ner-manager.test.js:240-279 | the remaining texts keep their order; the multiset of texts shrinks by exactly the removed ones; locales not given are unchanged |
| `Sequences.RemoveFirst` | test/nlp/ner-manager.test.js:240-254 | removing an absent value changes nothing; otherwise exactly the element at its first index goes |
| `Sequences.RemoveEachMultiset` | test/nlp/ner-manager.test.js:255-267 | each removed value takes away at most one element, and only one that is there |
| `Sequences.RemoveEachSubsequence` | test/nlp/ner-manager.test.js:240-254 | what remains after removals is a subsequence of the list: the order is kept |
| `NamedEntities.SetEntityFind` | test/nlp/ner-manager.test.js:51-63 | setting an entity keeps names unique; the entity is then found under its name; every other name is found as before; a new name is appended |
| `NamedEntities.WithoutEntityNames` | test/nlp/ner-manager.test.js:87-101 | with unique names, removing an entity removes the first occurrence of its name from the name list, and the names stay unique |
| `NamedEntities.WithoutEntityFind` | test/nlp/ner-manager.test.js:87-101 | removing an entity removes its name from the name list in order; it is then absent, and every other name is found as before |
| `NamedEntities.SetOptionFind` | test/nlp/ner-manager.test.js:134-155 | setting an option keeps option names unique; the option is then found under its name; its siblings are found as before |
| `NamedEntities.WithoutOptionNames` | test/nlp/ner-manager.test.js:158-169 | with unique option names, removing an option removes the first occurrence of its name from the option names, and they stay unique |
| `NamedEntities.WithoutOptionFind` | test/nlp/ner-manager.test.js:158-169 | removing an option removes its name from the option names in order; it is then absent, and its siblings are found as before |
| `NamedEntities.UpsertOptionFind` | test/nlp/ner-manager.test.js:172-201 | setting an option through the registry keeps it well formed; the option is then found under both names; other entities and sibling options are found as before |
| `NamedEntities.RemoveOptionFind` | test/nlp/ner-manager.test.js:158-169 | removing an option through the registry keeps it well formed; the option is then not found; other entities and sibling options are found as before |
| `NamedEntities.FindEntityAt` | test/nlp/ner-manager.test.js:67-71 | with unique names, looking up the name of a registered entity gives back that entity |
| `NamedEntities.FindOption` | test/nlp/ner-manager.test.js:172-190 | the option exists exactly when the entity exists and has an option with that name; the option is one of that entity's options |
| `NamedEntities.TemplateNames` | test/nlp/ner-manager.test.js:283-290 | no placeholder name it scans from an utterance contains a `%` marker |
| `NamedEntities.TemplateNamesOfTemplate` | test/nlp/ner-manager.test.js:283-298 | scanning a rendered template whose pieces and names contain no marker gives back exactly its names, in order |
| `NamedEntities.Registered` | test/nlp/ner-manager.test.js:291-298 | keeps the registered names in their order, each as many times as it occurs, and drops every other name |
| `Ner.NerManager.GetEntitiesFromUtterance` | test/nlp/ner-manager.test.js:282-298 | every result is a placeholder of the utterance naming a registered entity; each such placeholder is returned as many times as it occurs, in left-to-right order |
| `Ner.NerManager.FindEntities` | test/nlp/ner-manager.test.js:301-364 | the result is ordered by start and has no overlaps; each occurrence is the match of its own text, registered under its entity, option and locale; the match of every registered text is reported, or overlaps a reported occurrence that starts earlier, or at the same place with an accuracy no lower; an empty registry gives nothing |
| `EntityExtraction.FindEntities` | test/nlp/ner-manager.test.js:301-364 | the same over an entity list: ordered and non-overlapping; each occurrence is its own surface text's match; every surface text's match is reported or loses to an overlapping reported occurrence that starts earlier, or at the same place with an accuracy no lower |
| `EntityExtraction.MatchText` | test/nlp/ner-manager.test.js:302-318 | a match spans whole words, `utteranceText` is `utterance[start..end)`, its length is within the band, its distance and accuracy are the case-insensitive ones, and its accuracy is above the threshold; the fields name the entity, option and text |
| `EntityExtraction.MatchTextChosen` | test/nlp/ner-manager.test.js:302-335 | a match lies on the first window of least case-insensitive distance; when there is no match, there is no window or that first closest window scores at most the threshold |
| `EntityExtraction.BestWindow` | test/nlp/ner-manager.test.js:307-311 | the chosen window is one of the candidates, no candidate is closer, and it is the first of the closest |
| `EntityExtraction.Words` | test/nlp/ner-manager.test.js:307-311 | every span is a maximal non-blank run, and the spans are strictly increasing |
| `EntityExtraction.WordsCover` | test/nlp/ner-manager.test.js:307-311 | every non-blank character lies inside some word |
| `EntityExtraction.Windows` | test/nlp/ner-manager.test.js:307-311 | every window starts and ends on word boundaries and has a length within the band around the text's length; every span from the start of a word to the end of the same or a later word that fits the band is a window |
| `EntityExtraction.WindowsExactly` | test/nlp/ner-manager.test.js:307-311 | a span is a window of the utterance exactly when it is word-aligned and its length is within the band |
| `EntityExtraction.WindowPlaced` | test/nlp/ner-manager.test.js:302-318 | a word-aligned window within the band gives an occurrence placed on whole words whose text is that span of the utterance |
| `EntityExtraction.WindowScored` | test/nlp/ner-manager.test.js:302-318 | a window scored with the folded distance of its span, and an accuracy above the threshold, gives a scored occurrence |
| `EntityExtraction.FoldedSpanDistance` | test/nlp/ner-manager.test.js:302-318 | the distance of a span of the lower-cased utterance equals the distance of the lower-cased span |
| `EntityExtraction.OccurrenceScores` | test/nlp/ner-manager.test.js:310-317 | `end - start` is the length of `utteranceText`; accuracy lies in [0, 1]; the distance is 0 exactly for a case-insensitive equal text, and accuracy is 1 exactly then |
| `EntityExtraction.AccuracyRange` | test/nlp/ner-manager.test.js:312-313 | accuracy lies in [0, 1] and is 1 exactly when the strings are equal |
| `EntityExtraction.FoldedOneSubstitution` | test/nlp/ner-manager.test.js:319-335 | texts that agree, ignoring ASCII case, at every position but one are at folded distance exactly 1 |
| `EntityExtraction.FoldedTwoSubstitutions` | test/nlp/ner-manager.test.js:336-344 | texts that agree, ignoring ASCII case, at every position but two are at folded distance exactly 2 |
| `EntityExtraction.FoldedSubstituteAndAppend` | test/nlp/ner-manager.test.js:345-364 | a text one character longer, agreeing, ignoring case, except at the shorter one's last position, is at folded distance exactly 2 |
| `EntityExtraction.SpedermanScore` | test/nlp/ner-manager.test.js:319-335 | a window reading `spederman` matched against `Spiderman` has distance 1 and accuracy 8/9 |
| `EntityExtraction.SperermanRejected` | test/nlp/ner-manager.test.js:336-344 | a window reading `spererman` cannot be a match of `Spiderman` at threshold 0.8 (distance 2, accuracy 7/9) |
| `EntityExtraction.TheIsNotThor` | test/nlp/ner-manager.test.js:345-364 | the word `the` cannot be a match of `Thor` at the default threshold 0.5 |
| `EntityExtraction.SortByStart` | test/nlp/ner-manager.test.js:353-363 | the result is ordered by ascending start (better accuracy first at equal start) and is a permutation of the input |
| `EntityExtraction.Insert` | test/nlp/ner-manager.test.js:353-363 | inserting into an ordered list keeps it ordered and adds exactly the one element |
| `EntityExtraction.Resolve` | test/nlp/ner-manager.test.js:307-317 | the kept occurrences are ordered and pairwise non-overlapping; each came from the input; every candidate is kept or overlaps a kept one that it does not go before (one starting earlier, or at the same place with an accuracy no lower) |
| `EntityExtraction.EntityCandidates` | test/nlp/ner-manager.test.js:345-364 | every candidate is the match of its own registered surface text, and the match of every registered text is a candidate |
| `EntityExtraction.ExactTextMatched` | test/nlp/ner-manager.test.js:302-318 | a text equal, ignoring case, to a run of whole words is matched with distance 0 and accuracy 1, no later than that run, over a span that reads as the text |
| `EntityExtraction.ExactTextReported` | test/nlp/ner-manager.test.js:302-318 | such a registered text is reported at its exact match, or that match overlaps a reported occurrence that starts earlier, or at the same place with accuracy 1 |
| `EntityExtraction.FindEntitiesExactly` | test/nlp/ner-manager.test.js:301-364 | a chain of matches of registered texts that accounts for the match of every registered text is exactly what the finder reports |
| `EntityExtraction.ClosestWindowMatched` | test/nlp/ner-manager.test.js:319-335 | a window strictly closer to the text than every other window, scoring above the threshold, is where the text is matched |
| `Ner.FoundOccurrencesRegistered` | test/nlp/ner-manager.test.js:356-363 | in a well-formed registry, every occurrence found has its option found under its entity and option names, with its text listed for the locale |
| `Ner.RegisteredMatchesCovered` | test/nlp/ner-manager.test.js:345-364 | every qualifying match of a text listed under a found entity and option is reported or overlaps a reported occurrence |
| `Ner.SurfaceTextRegistered` | test/nlp/ner-manager.test.js:356-363 | in a well-formed registry a surface text of some entity and option is found under their names |
| `Ner.RegisteredTextCovered` | test/nlp/ner-manager.test.js:345-364 | a qualifying match of a text found under an entity and option is reported or overlaps a reported occurrence |
| `SimilarSearch.LevenshteinDistance` | test/nlp/ner-manager.test.js:319-335 | the table-filling loop computes exactly the recursive Levenshtein distance |
| `SimilarSearch.NextRow` | test/nlp/ner-manager.test.js:319-335 | from the distances of a string without its last character to every prefix of the other, the loop computes the distances of the whole string to every prefix |
| `SimilarSearch.LevenshteinZeroIffEqual` | test/nlp/ner-manager.test.js:312 | the distance is 0 exactly for equal strings |
| `SimilarSearch.LevenshteinAtMostMaxLength` | test/nlp/ner-manager.test.js:330 | the distance never exceeds the longer length, so accuracy is never negative |
| `SimilarSearch.LevenshteinAtLeastLengthDifference` | test/nlp/ner-manager.test.js:345-364 | the distance is at least the difference of the lengths |
| `SimilarSearch.LevenshteinSymmetric` | test/nlp/ner-manager.test.js:319-335 | the distance does not depend on the order of its arguments |
| `SimilarSearch.LevenshteinOneSubstitution` | test/nlp/ner-manager.test.js:329 | strings differing at exactly one position are at distance exactly 1 |
| `SimilarSearch.LevenshteinTwoSubstitutions` | test/nlp/ner-manager.test.js:336-344 | strings differing at exactly two positions are at distance exactly 2 |
| `SimilarSearch.LevenshteinAtLeastUnmatched` | test/nlp/ner-manager.test.js:302-318 | the distance is at least the number of characters of the first string occurring nowhere in the second, plus however much longer the second is |
| `SimilarSearch.LevenshteinAtLeastUnmatchedOfSecond` | test/nlp/ner-manager.test.js:302-318 | the same bound with the roles of the two strings swapped |
| `SimilarSearch.LevenshteinSubstituteAndAppend` | test/nlp/ner-manager.test.js:345-364 | a string one character longer that agrees except at the shorter one's last position, where neither of its last two characters matches, is at distance exactly 2 |
| `NerExamples.ThresholdExample` | test/nlp/ner-manager.test.js:32-41 | the default threshold is 0.5 and a given 0.6 is kept |
| `NerExamples.AddEntityExample` | test/nlp/ner-manager.test.js:45-63 | adding `entity1` twice gives the same `{entity1, []}`, and a second name gives a second entity |
| `NerExamples.GetEntityExample` | test/nlp/ner-manager.test.js:66-84 | an existing entity is returned, a missing one is absent, and a forced get creates `{entity2, []}` |
| `NerExamples.MisspeltRemovalExample` | test/nlp/ner-manager.test.js:88-94 | looking up `entiy1` is absent whether or not `entity1` was removed |
| `NerExamples.RemoveEntityExample` | test/nlp/ner-manager.test.js:88-101 | `entity1` is present before its removal and absent after; removing a missing name keeps `entity1` |
| `NerExamples.OptionPositionsExample` | test/nlp/ner-manager.test.js:104-132 | three pushed options are at positions 0, 1 and 2 and are found by name; a fourth name gives -1 and absent |
| `NerExamples.AddOptionExample` | test/nlp/ner-manager.test.js:134-155 | the added option is `{option1_1, {}}`, and the entity, existing or created, has exactly one option |
| `NerExamples.RemoveOptionExample` | test/nlp/ner-manager.test.js:158-169 | the option is found before removal and absent after, while its sibling remains |
| `NerExamples.GetOptionExample` | test/nlp/ner-manager.test.js:172-201 | plain gets of a missing option or entity are absent; forced gets create and return the option |
| `NerExamples.AddTextExample` | test/nlp/ner-manager.test.js:205-213 | one text for `en` gives `[Something]` |
| `NerExamples.AddTextsExample` | test/nlp/ner-manager.test.js:214-223 | two texts for `en` give `[Something, Anything]`, in that order |
| `NerExamples.AddTextsLocalesExample` | test/nlp/ner-manager.test.js:224-236 | two texts for `en` and `es` give `[Something, Anything]` in each |
| `NerExamples.RemoveTextExample` | test/nlp/ner-manager.test.js:240-254 | removing `Something` from `es` leaves `en` as `[Something, Anything]` and `es` as `[Anything]` |
| `NerExamples.RemoveTextsExample` | test/nlp/ner-manager.test.js:255-267 | removing both texts from `es` leaves `en` whole and `es` present but empty |
| `NerExamples.RemoveTextLocalesExample` | test/nlp/ner-manager.test.js:268-280 | removing `Something` from `en` and `es` leaves `[Anything]` in each |
| `NerExamples.ThreeEntities` | test/nlp/ner-manager.test.js:291-294 | adding three distinct names to a new manager gives exactly those entities, in the order added |
| `NerExamples.UtterancePlaceholders` | test/nlp/ner-manager.test.js:296 | the utterance "This is %entity1% with %entity4% from %entity3% yeah" scans to its three placeholders |
| `NerExamples.RegisteredPlaceholders` | test/nlp/ner-manager.test.js:291-297 | with `entity1`–`entity3` registered, the placeholders reduce to `[entity1, entity3]` |
| `NerExamples.TemplateExample` | test/nlp/ner-manager.test.js:291-298 | the manager returns `[entity1, entity3]` for that utterance |
| `FindExamples.FindsSpiderman` | test/nlp/ner-manager.test.js:302-318 | with the hero registry at threshold 0.5, `I saw spiderman in the city` gives exactly `Spiderman` at 6..15 with distance 0, accuracy 1 and text `spiderman` |
| `FindExamples.FindsSpederman` | test/nlp/ner-manager.test.js:319-335 | at threshold 0.8, `I saw spederman in the city` gives exactly `Spiderman` at 6..15 with distance 1, accuracy 8/9 and text `spederman` |
| `FindExamples.FindsNoSpererman` | test/nlp/ner-manager.test.js:336-344 | at threshold 0.8, `I saw spererman in the city` gives nothing |
| `FindExamples.FindsSpidermanAndSpaghetti` | test/nlp/ner-manager.test.js:345-364 | with heroes and food at threshold 0.5, `I saw spiderman eating spaghetti in the city` gives exactly `Spiderman` at 6..15 and then `spaghetti`, option `pasta`, at 23..32 |
| `NlpUtil.TruncatedLocale` | test/nlp/nlp-util.test.js:28-39 | absent exactly for a missing or empty locale; otherwise `min(2, length)` characters, each the lower-cased input character, so the result is lower case |
| `NlpUtil.TruncatedLocaleIdempotent` | test/nlp/nlp-util.test.js:34-38 | truncating a truncated locale changes nothing |
| `NlpUtil.TruncatedLocaleFixedPoints` | test/nlp/nlp-util.test.js:35-36 | a locale comes back unchanged exactly when it has one or two characters and is lower case |
| `Text.Lower` | test/nlp/nlp-util.test.js:37 | same length, each character lower-cased |
| `Text.LowerFixedPoints` | test/nlp/nlp-util.test.js:35-37 | lower-casing leaves a string alone exactly when it is already lower case |
| `NlpUtil.GetStemmer` | test/nlp/nlp-util.test.js:41-125 | unknown, empty and missing locales get Porter; a listed locale gets a stemmer written for that locale; the stemmer is an alternative one exactly when the locale has an alternative and its flag is set |
| `NlpUtil.DefaultStemmersTable` | test/nlp/nlp-util.test.js:42-61 | each default stemmer is written for the locale it is listed under and is not an alternative one |
| `NlpUtil.AlternativeStemmersTable` | test/nlp/nlp-util.test.js:67-104 | each alternative stemmer is an alternative one, written for the locale it is listed under |
| `NlpUtil.AlternativeLocalesHaveDefaults` | test/nlp/nlp-util.test.js:67-104 | every locale with an alternative stemmer also has a default one |
| `NlpUtil.AlternativeFlagOnlyForAlternativeLocales` | test/nlp/nlp-util.test.js:67-104 | setting the flag of a locale without an alternative stemmer (fa, id, ja, da, fi, de, hu, ro, tr) changes nothing |
| `NlpUtil.DefaultStemmersDistinct` | test/nlp/nlp-util.test.js:42-61 | without flags, different listed locales get different stemmers |
| `NlpUtil.GetTokenizer` | test/nlp/nlp-util.test.js:127-153 | the Treebank tokenizer exactly for unknown, empty and missing locales; otherwise a tokenizer written for that locale |

## Findings

| source | as written | input that shows it | evidently intended | confidence | as-written member | corrected member |
|---|---|---|---|---|---|---|
| test/nlp/ner-manager.test.js:92 | after removing `entity1`, the case looks up `entiy1` | a manager holding `entity1` with nothing removed: the lookup of `entiy1` is already absent | look up `entity1`, which is present before the removal and absent after | high (not executed) | `NerExamples.MisspeltRemovalExample` | `NerExamples.RemoveEntityExample` |

## Left out

- The library's implementation files are not part of this model. Only their test suites are, so every operation follows what the tests assert, plus the choices stated above.
- Object identity and aliasing: entities and options are values here. The tests' `toBe` checks become value equality. Pushing onto `entity.options` directly becomes building the entity with those options.
- The `SimilarSearch` instance held by the manager (test/nlp/ner-manager.test.js:36): only the Levenshtein distance it computes is modelled.
- The stemming and tokenizing algorithms of the `natural` library: a foreign library. Only the choice of algorithm is modelled, as a tag.
- The global `useAlternative` flag map and its mutation around a test: it is the explicit parameter `useAlternative`.
- Unicode case folding: lower-casing is ASCII-only.
- The logistic-regression classifier and its test suite: floating-point training and probabilities, outside this core.
- Ner.NerManager.FindEntities: the contracts fix the window scheme described above: the windows are exactly the word-aligned spans within ±2 of the text's length (`WindowsExactly`), and the match is the first window of least distance (`MatchTextChosen`). The library's own scheme may differ.
- Ner.NerManager.FindEntities: the threshold gate is strict (`>`), where a `≥` reading of "above the threshold" is also possible; the several-entities case requires the strict one under this window scheme.
- FindExamples.FindsSpiderman: it and its three siblings take the registries as the values the tests' `addNamedEntityText` calls build (`Hero`, `Food`), not as the result of running those calls on a manager.
- NlpUtil.GetTokenizer: for `id` the Indonesian tokenizer tag is chosen; the test only asks that some tokenizer is returned.
