# Kazakh suffix-stripping stemmer: a Dafny model

This project models the stemmer that reduces an inflected Kazakh word to its
dictionary lemma. The stemmer strips suffixes from four layers: predicative,
case, possessive and plural. It checks each base against a lemma set and
repairs two phonological changes on the way: devoicing of a final consonant
(кітаб → кітап) and elision of a vowel before the final consonant
(ауз → ауыз). The model also covers the data-side helpers that feed it:

- the flat-lookup stemmer and its ending list built from a JSON file;
- the `.lexc` stem extractor;
- the priority-list reader and the batching helper of the batch script.

Modules, one concept each:

- `Wrappers`: `Option` and `Result`.
- `Text`: the Python `str` operations used.
  - `endswith` and `startswith`;
  - `s[:-n]`, including the `s[:-0] == ""` case;
  - `strip()`, `split()` and `split(sep, 1)[0]`.
- `LengthSort`: Python's stable `sorted(key=len, reverse=True)`, as an insertion sort.
- `Suffixes`: the suffix tables, the vowel set and the reverse-mutation map.
- `Phonology`: elision and mutation repair, and the stem check (`_check_stem`).
- `Constraints`: the case-suffix constraint (`_can_use_case_suffix`).
- `Iteration`: the suffix iterator with the single-vowel safeguard, and the inflection probe.
- `Backtrack`: the depth-bounded, seen-set-guarded backtracking search, stated for any check and any successor function.
- `Stemmer`:
  - `_search`, which instantiates `Backtrack`;
  - `stem_kazakh_word`, with its exception set and early-return policy.
- `Scenarios`: the cases "аузы" → "ауыз" and "суы" → "сыу", worked through the whole stemmer.
- `FlatLookup`: `sorting_endings_from_json` (pure part) and the greedy `stem` loop.
- `Lexc`: the line loop of `parse_lexc`.
- `Priority`: the line loop of `parse_priority_file`, `int()` on a count field, and `chunked`.

The model follows the code of `_check_stem` and `_handle_vowel_elision`:

- The stem check tries direct membership first, then mutation, then elision.
- Elision repair, as written, applies to every stem of length at least 2.
  A stem with a harmony vowel (аоұыәеөүі) gets ы or і by the class of its
  last such vowel. A stem without one also gets ы, because the empty string
  is "in" every string in Python (see "## Findings"). So "су" is repaired
  to "сыу" when that is a lemma.
- `Phonology.CheckStem` and the whole stemmer use the repair as written.
  `Phonology.CheckStemIntended` is the check with the intended repair, and
  `Phonology.CheckStemAgreesWithIntended` says where the two differ.
- `_search` checks the word itself before it stops on depth 0 or on a word
  already seen.
- The seen-set is shared by sibling branches. A word expanded in one branch
  is not expanded again in a later branch of the same top-level call.

The search uses two lemma sets, because the source does.

- `lemmas` is the argument of `_search`.
- `global` is the module-wide `LEMMAS`, which the single-vowel safeguard consults.

The normalisation `nfc(word.lower())` is a function parameter. The
early-return policy is a parameter too; the source fixes it to
`if_looks_uninflected`, and the lemmas about the stemmer hold for every policy.

## Model

| member | source | states |
|---|---|---|
| Text.CutTail | prototype/stemmer_prototype.py:327 | `word[:-n]` is a prefix of the word, `n` characters shorter when `0 < n <= len`, and empty for `n == 0` or `n >= len` |
| Text.CutTailEndsWith | prototype/stemmer_prototype.py:327 | cutting a non-empty suffix the word ends with leaves the part that, followed by the suffix, is the word again |
| Text.Strip | data/scripts/parse_lexc.py:30 | `strip()` removes whitespace at the two ends only: the result is a slice of the line with nothing but whitespace before and after it, it has no whitespace at either end, and it is empty exactly when the line is all whitespace |
| Text.StripKeeps | data/scripts/parse_lexc.py:42 | every character of the stripped line occurs in the line |
| Text.StripIdempotent | data/scripts/parse_lexc.py:30 | stripping twice is stripping once |
| Text.StripAvoids | data/scripts/parse_lexc.py:42 | stripping never introduces a character that was not in the input |
| Text.Before | data/scripts/parse_lexc.py:42 | `split(':', 1)[0]` is a prefix without the separator, followed by the separator unless it is the whole line |
| Text.Split | data/scripts/llm_as_stemmer.py:36 | the fields of `split()` are the maximal runs of non-whitespace, in order: the line is the fields interleaved with whitespace gaps, non-empty between two fields; there are none exactly when the line is all whitespace |
| Text.SplitWords | data/scripts/llm_as_stemmer.py:36 | every field of `split()` is a non-empty run of non-whitespace |
| Text.SplitWord | data/scripts/parse_lexc.py:36 | a single word splits into itself |
| LengthSort.SortByLengthSorted | prototype/stemmer_prototype.py:268 | the sorted list is non-increasing in length, as long as the input, with the same members |
| LengthSort.SortByLengthPermutes | prototype/stemmer_prototype.py:268 | the sorted list is a permutation of the input |
| LengthSort.SortByLengthStable | prototype/stemmer_prototype.py:268 | strings of equal length keep their input order (the sort is stable) |
| LengthSort.InsertSorted | prototype/stemmer_prototype.py:268 | inserting into a sorted list keeps it sorted and adds exactly the new element |
| LengthSort.InsertPermutes | prototype/stemmer_prototype.py:268 | inserting adds one occurrence of the new element and keeps every other count |
| Suffixes.OrderedSuffixes | prototype/stemmer_prototype.py:261-268 | a group's suffixes are tried longest first, and exactly the group's table suffixes are tried |
| Suffixes.Rank | prototype/stemmer_prototype.py:261-266 | groups come in the order PRED, CASE, POSS, PLUR |
| Phonology.LastHarmonyVowel | prototype/stemmer_prototype.py:163-171 | the scan from the end finds the last vowel of аоұыәеөүі, and finds none exactly when the stem has none |
| Phonology.ElisionAsWritten | prototype/stemmer_prototype.py:155-190 | the elision repair as written returns only a lemma one letter longer than a stem of length at least 2 |
| Phonology.ElisionAsWrittenCounterexample | prototype/stemmer_prototype.py:167-179 | as written, "бр" is repaired to "быр" although it has no vowel; the intended repair gives nothing |
| Phonology.ElisionAsWrittenOnVowelless | prototype/stemmer_prototype.py:167-179 | as written, every vowel-less stem of length at least 2 gets ы inserted before its last letter |
| Phonology.ElisionAgreesWithVowel | prototype/stemmer_prototype.py:167-181 | on stems with a harmony vowel, the code as written and the intended repair agree |
| Phonology.Elision | prototype/stemmer_prototype.py:155-190 | the intended repair: nothing for stems shorter than 2 or without a harmony vowel; otherwise a lemma one letter longer |
| Phonology.ElisionSpec | prototype/stemmer_prototype.py:160-184 | the repair succeeds exactly when the restored form (ы after a back vowel, і after a front one, inserted before the last letter) is a lemma, and returns that form |
| Phonology.ElisionOfUnique | prototype/stemmer_prototype.py:168-181 | a stem has at most one restored form |
| Phonology.ElisionAsWrittenSpec | prototype/stemmer_prototype.py:160-184 | the repair as written succeeds exactly when some lemma is its restored form, where a stem with no harmony vowel gets ы before its last letter, and it returns that form |
| Phonology.ElisionAsWrittenOfUnique | prototype/stemmer_prototype.py:167-179 | a stem has at most one restored form as the code writes it |
| Phonology.Mutate | prototype/stemmer_prototype.py:201-202 | mutation applies exactly when the last letter is б, г, ғ or д, and changes only that letter, via the reverse-mutation map |
| Phonology.MutationOfUnique | prototype/stemmer_prototype.py:131 | a stem has at most one devoiced form |
| Phonology.CheckStem | prototype/stemmer_prototype.py:193-212 | the check as written, with the elision repair as written: every resolved stem is a lemma; the result is direct exactly when the stem is a lemma, and then it is the stem |
| Phonology.CheckStemPrecedence | prototype/stemmer_prototype.py:197-212 | mutated exactly when the stem is no lemma but its devoiced form is; elided exactly when neither is and a form restored as the code writes it is a lemma; each result is the repair its kind names |
| Phonology.CheckStemIntended | prototype/stemmer_prototype.py:193-212 | the check with the intended repair: resolved stems are lemmas, direct exactly when the stem is a lemma, and elided only for stems with a harmony vowel |
| Phonology.CheckStemAgreesWithIntended | prototype/stemmer_prototype.py:167-212 | the check as written and the intended one agree on every stem with a harmony vowel; where they differ, the intended check finds nothing and the written one returns the stem with ы before its last letter |
| Constraints.PossessiveTailIsFinalVowel | prototype/stemmer_prototype.py:240 | ending in ы, і, сы or сі is ending in ы or і |
| Constraints.CanUseCaseSuffix | prototype/stemmer_prototype.py:218-247 | ны/ні is allowed exactly when the word has at least three letters and the third from the end is a vowel; а/е exactly when the second letter from the end is ы or і; every other suffix is allowed |
| Constraints.AccusativeNeedsVowel | prototype/stemmer_prototype.py:224-236 | ны/ні is allowed exactly when the letter before it is a vowel, so only on words of three letters or more |
| Constraints.DativeNeedsPossessive | prototype/stemmer_prototype.py:238-245 | а/е is allowed exactly when the base ends in ы or і |
| Constraints.CanUseCaseSuffixSpec | prototype/stemmer_prototype.py:218-247 | the whole constraint: ны/ні after a vowel, а/е after a possessive tail, every other suffix allowed |
| Iteration.Matching | prototype/stemmer_prototype.py:268-274 | filtering a group's list keeps exactly the suffixes the filter accepts, tagged with the group |
| Iteration.SafeguardSkips | prototype/stemmer_prototype.py:276-289 | the safeguard holds a suffix back exactly when the suffix is one vowel, the word is a lemma, and the base left without it reaches no lemma: it is not one, its devoiced form is not one, and its restored form is not one |
| Iteration.SafeguardBase | prototype/stemmer_prototype.py:285-286 | the stem check of a base finds nothing exactly when neither the base, nor its devoiced form, nor its restored form is a lemma |
| Iteration.MatchingOrder | prototype/stemmer_prototype.py:268 | filtering a longest-first list keeps it longest first |
| Iteration.GroupPass | prototype/stemmer_prototype.py:267-297 | one group pass yields exactly the accepted suffixes of that group, longest first |
| Iteration.OrderConcat | prototype/stemmer_prototype.py:267 | the passes of earlier groups come before those of later groups |
| Iteration.IterateMembers | prototype/stemmer_prototype.py:261-297 | the iterator yields exactly the table suffixes the filter keeps |
| Iteration.IterateOrder | prototype/stemmer_prototype.py:261-268 | the iterator yields in group order, longest first within a group |
| Iteration.Candidates | prototype/stemmer_prototype.py:250-297 | the iterator yields exactly the table suffixes that are admissible for the word, in iteration order: the word ends with them, case suffixes pass the constraint, and the single-vowel safeguard does not hold them back |
| Iteration.CandidateShortens | prototype/stemmer_prototype.py:269-282 | every yielded suffix is non-empty and ends the word, so its base is a strictly shorter prefix |
| Iteration.LooksInflected | prototype/stemmer_prototype.py:300-306 | the probe holds exactly when some table suffix is admissible with the safeguard off |
| Backtrack.Explore | prototype/stemmer_prototype.py:312-349 | a hit on the word returns at once; depth 0 or a seen word with no hit returns nothing; the seen-set only grows |
| Backtrack.ExploreBases | prototype/stemmer_prototype.py:326-349 | the loop over the bases only grows the seen-set |
| Backtrack.ExploreSound | prototype/stemmer_prototype.py:312-349 | any result is the check of a word reached from the start within `depth` strips |
| Backtrack.ExploreBasesSound | prototype/stemmer_prototype.py:326-346 | any result of the base loop is the check of a word reached through one of the bases |
| Backtrack.ExploreFound | prototype/stemmer_prototype.py:312-349 | the same, as an existence statement |
| Backtrack.ExploreMisses | prototype/stemmer_prototype.py:312-349 | if the check never succeeds, the search finds nothing |
| Stemmer.Hit | prototype/stemmer_prototype.py:316-317 | `if hit:` accepts exactly a non-empty resolved stem |
| Stemmer.BasesOf | prototype/stemmer_prototype.py:326-327 | the bases are the word cut by each candidate's suffix length, in order |
| Stemmer.Bases | prototype/stemmer_prototype.py:326-327 | there is one base per candidate, in order; each is strictly shorter than the word and, followed by its candidate's suffix, gives the word |
| Stemmer.BasesShorten | prototype/stemmer_prototype.py:326-327 | every base is a strictly shorter prefix, and followed by its suffix it gives the word |
| Stemmer.Search | prototype/stemmer_prototype.py:312-349 | `_search` returns only non-empty lemmas, found by the check as written; a hit on the word is returned at once; a seen word or depth 0 returns just the word's own check |
| Stemmer.ReachesShortens | prototype/stemmer_prototype.py:326-341 | every word the search reaches is the start word or a strictly shorter prefix of it |
| Stemmer.StemNormalized | prototype/stemmer_prototype.py:359-389 | exceptions come back unchanged; any other result is the word itself or a non-empty lemma (found with the elision repair as written) |
| Stemmer.StemKazakhWord | prototype/stemmer_prototype.py:352-389 | the same after normalisation; with no lemmas the result is the normalised word |
| Stemmer.LemmaIsFixedPoint | prototype/stemmer_prototype.py:363-389 | a lemma comes back unchanged under every early-return policy |
| Stemmer.StemIdempotent | prototype/stemmer_prototype.py:352-389 | stemming a result again changes nothing, when normalisation leaves the result alone |
| Stemmer.StemSound | prototype/stemmer_prototype.py:383-389 | a changed result is the check of a word the search reached within depth 4 |
| Scenarios.SoleSuffixBase | prototype/stemmer_prototype.py:326-327 | when one table suffix alone ends a word, every base is the word without it |
| Scenarios.OnlyYEnds | prototype/stemmer_prototype.py:41-126 | of all the table suffixes, only the possessive ы ends a word ending in зы or уы |
| Scenarios.OffersY | prototype/stemmer_prototype.py:276-297 | the iterator offers the possessive ы for a word ending in ы that is not a lemma itself |
| Scenarios.YWordBases | prototype/stemmer_prototype.py:326-327 | a non-lemma word ending in зы or уы has bases, and each is the word without its final ы |
| Scenarios.AuzyChecks | prototype/stemmer_prototype.py:155-212 | "аузы" resolves to nothing, while "ауз" resolves to "ауыз" by restoring the elided vowel |
| Scenarios.FirstBaseHits | prototype/stemmer_prototype.py:333-339 | a non-lemma word whose first base resolves stems to that base's lemma |
| Scenarios.YWordStems | prototype/stemmer_prototype.py:312-389 | a word ending in зы or уы that is neither a lemma nor an exception and does not resolve itself, while the word without its final ы does, stems to that resolved lemma under every policy |
| Scenarios.AuzyStemsToAuyz | prototype/stemmer_prototype.py:404-407 | with the lemma set {ауыз}, "аузы" stems to "ауыз" under every policy, the expected pair of the test list |
| Scenarios.SuyChecks | prototype/stemmer_prototype.py:167-212 | "суы" resolves to nothing, while "су", which has no harmony vowel, resolves to "сыу" through the repair as written |
| Scenarios.SuyStemsToSyu | prototype/stemmer_prototype.py:352-389 | with the lemma set {сыу}, "суы" stems to "сыу" under every policy |
| FlatLookup.ListValuesMembers | prototype/flat_lookup_stemmer.py:14-17 | an item is collected from an object exactly when some entry's value is a list holding it |
| FlatLookup.CleanEndingsMembers | prototype/flat_lookup_stemmer.py:21 | the cleaned endings are exactly the stripped, non-empty string items |
| FlatLookup.Dedupe | prototype/flat_lookup_stemmer.py:22 | `set()` leaves each ending once, and keeps exactly the same endings |
| FlatLookup.SortingEndings | prototype/flat_lookup_stemmer.py:9-23 | the ending list is longest first, has no duplicates, its endings are non-empty and stripped, and it holds exactly the stripped non-empty strings found in the file |
| FlatLookup.ScanEndings | prototype/flat_lookup_stemmer.py:31-41 | a pass returns a known stem that prefixes the word, or a shorter prefix of length at least 2 to continue with |
| FlatLookup.ScanEndingsFirst | prototype/flat_lookup_stemmer.py:31-43 | a pass stops only when no ending applies, and otherwise acts on the first ending that applies |
| FlatLookup.Greedy | prototype/flat_lookup_stemmer.py:26-44 | the greedy loop gives a prefix of the word; words of at most 2 letters come back unchanged; the result is a known stem, at most 2 letters long, or a word no ending applies to |
| FlatLookup.Stem | prototype/flat_lookup_stemmer.py:25-44 | the loop computes the greedy reference; the result is a prefix of the lower-cased word; short words come back unchanged; the result is a known stem, at most 2 letters long, or a word no ending applies to |
| Lexc.Classify | data/scripts/parse_lexc.py:30-44 | a line is skipped exactly when it is blank or a comment; a header exactly when it otherwise starts with `LEXICON`, naming its second field or nothing when there is none; an entry exactly when it is neither and has a colon; an entry's stem is the stripped text before the first colon |
| Lexc.RunSection | data/scripts/parse_lexc.py:35-37 | the section in force is the name on the nearest `LEXICON` line above |
| Lexc.SectionBeforePrefix | data/scripts/parse_lexc.py:29-37 | later lines do not change the section in force at a line |
| Lexc.RunMembers | data/scripts/parse_lexc.py:25-46 | a stem is collected exactly when an entry line in a requested section yields it and it is not empty |
| Lexc.ParseLexc | data/scripts/parse_lexc.py:17-46 | a stem is collected exactly when some line is an entry yielding it, it is not empty, and the section in force at that line is requested |
| Lexc.BeforeColon | data/scripts/parse_lexc.py:42 | on a line with a colon, `split(':', 1)[0]` is the colon-free text that the line continues with a colon |
| Lexc.ParseLexcStems | data/scripts/parse_lexc.py:41-44 | every collected stem is non-empty, stripped and colon-free, and is the stripped text before the first colon of some entry line |
| Lexc.NoHeaderNoStems | data/scripts/parse_lexc.py:26-41 | a file with no `LEXICON` line yields nothing |
| Lexc.NoHeaderStart | data/scripts/parse_lexc.py:26-41 | lines with no `LEXICON` line among them leave the pass with no section and no stems |
| Lexc.RunFromStart | data/scripts/parse_lexc.py:29-41 | a pass back at its starting state goes on as if the earlier lines were absent |
| Lexc.EntriesBeforeHeaderIgnored | data/scripts/parse_lexc.py:26-41 | entry lines before the first `LEXICON` line are ignored: the result equals that of the rest of the file |
| Lexc.SkipRemovable | data/scripts/parse_lexc.py:31-32 | a blank or comment line can be removed from anywhere without changing the pass |
| Lexc.SkipLineRemovable | data/scripts/parse_lexc.py:30-32 | the same, over the raw lines |
| Priority.ShowNatValue | data/scripts/llm_as_stemmer.py:40 | the decimal digits of a number have that number as their value |
| Priority.ParseShowInt | data/scripts/llm_as_stemmer.py:40 | `int(str(n)) == n` for every integer, with no limit on the length of a conversion |
| Priority.ParseDigits | data/scripts/llm_as_stemmer.py:40 | a run of ASCII digits reads as its decimal value |
| Priority.ParseNegatedDigits | data/scripts/llm_as_stemmer.py:40 | a minus sign followed by digits reads as the negated value |
| Priority.ParseInt | data/scripts/llm_as_stemmer.py:40 | with no limit on the number of digits, `int()` accepts a field exactly when, after an optional sign, it is a digit group; only a minus sign gives a negative value; an accepted field has a digit first or right after its sign |
| Priority.ClassifyLine | data/scripts/llm_as_stemmer.py:33-39 | a line gives a row exactly when it is not blank, not a comment, and has at least two fields; the row is the first two fields of the stripped line, both words |
| Priority.UnlimitedSuccess | data/scripts/llm_as_stemmer.py:32-40 | with no limit, reading succeeds exactly when every row's count is a number, and then it yields one entry per row in file order (count, word) |
| Priority.UnlimitedFailure | data/scripts/llm_as_stemmer.py:39-40 | with no limit, a failure names the count field of the first row that is not a number |
| Priority.ParsePriority | data/scripts/llm_as_stemmer.py:28-43 | with no limit (`None` or `0`), reading succeeds exactly when every row's count is a number, and then gives one entry per row in file order; with a limit, it reads the rows up to the one that fills the limit (the first row when the limit is negative), succeeds exactly when those rows' counts are numbers, and then gives one entry for each of them, in order |
| Priority.LimitedCollect | data/scripts/llm_as_stemmer.py:33-42 | with a limit, the loop keeps the first `min(max(limit - n, 1), rows)` rows as entries, in order, and fails exactly when one of them has a count that is not a number |
| Priority.LimitBound | data/scripts/llm_as_stemmer.py:41-42 | with a positive limit, no more entries than the limit are kept |
| Priority.NegativeLimit | data/scripts/llm_as_stemmer.py:41-42 | a negative limit counts as true and stops reading after the first entry |
| Priority.StopsAtLimit | data/scripts/llm_as_stemmer.py:41-42 | once the limit is reached, the lines after it are never read |
| Priority.ParsePriorityStops | data/scripts/llm_as_stemmer.py:41-42 | the same, over the raw lines |
| Priority.ChunksConcat | data/scripts/llm_as_stemmer.py:45-48 | the chunks joined back together give the input |
| Priority.ChunksShape | data/scripts/llm_as_stemmer.py:47-48 | there are ceil(len / size) chunks; each is non-empty and at most `size` long; all but the last are exactly `size` long |
| Priority.ChunkAt | data/scripts/llm_as_stemmer.py:47-48 | chunk `i` is `xs[i*size : (i+1)*size]`, cut off at the end of the input |
| Priority.Chunked | data/scripts/llm_as_stemmer.py:45-48 | a zero size raises, a negative size gives no chunks, a positive size gives chunks that join back to the input, with ceil(len / size) of them |

## Left out

- Logging, tracing, `_log_codepoints` and the debug flags. They only write to the log.
- `nfc` and `str.lower()`. Unicode case mapping and composition are beyond this model. Both are a function parameter (`normalize`, `lower`).
- The `__main__` drivers and the module-level loading of the lemma data. The lemma sets, exceptions and policy are parameters.
- File, JSON and command-line input/output:
  - `load_stems_set`, `_load_resources` and `main` in the flat-lookup stemmer;
  - `main` and the argument parsing in the `.lexc` extractor;
  - the file reading in the priority-list reader.
  Files are sequences of lines or an already parsed JSON value.
- `splitting_by_words`, which depends on the Unicode `\w` class.
- The OpenAI client, `.env` loading, the LLM call and the output file of the batch script. All of these are network or file I/O.
- src/log_test/log_test.c is not part of this model: it is database extension glue with no stemming logic.
- tests/test_stemmer.py is not part of this model: its case data is not available. `Scenarios` proves the pair ("аузы", "ауыз") from the test list at prototype/stemmer_prototype.py:407, which is also the docstring example of the elision repair at line 158.
- The early-return policy is a three-valued datatype. Any other setting in the source behaves as `Never`.
- Priority.ParseInt: only ASCII digits are read. Python's `int()` also accepts other Unicode decimal digits; a count field using them is rejected by the model.
- Priority.ParseInt: the interpreter's limit on the length of integer/string conversions is not modelled. CPython since 3.11 (and 3.10.7, with backports to 3.7.14) refuses, by default, a decimal field of more than 4300 digits with `ValueError`; the model reads a digit group of any length. The limit is a setting of the running interpreter (`PYTHONINTMAXSTRDIGITS`, `sys.set_int_max_str_digits`), not of the program.
- Priority.ParseShowInt: for the same reason, the round trip is stated for every integer, while default CPython raises in `str(n)` for an `n` of more than 4300 digits.
- FlatLookup.SortingEndings: among endings of equal length, the order comes from iterating a Python `set`, which is unspecified. The model keeps first occurrences in file order, so the contract does not pin down the order among equal lengths.
- FlatLookup.ListValues: a JSON object is a list of entries with one entry per key. Duplicate keys, which `json.load` collapses to the last value, are not modelled.
- Stemmer.Search: the contract does not say which words end up in the seen-set. It only says the set grows and that every reached word is a shorter prefix of the start word (`ReachesShortens`).
- Priority.Chunked: `chunked` is a generator. The model returns the list of its chunks; a zero size raises only when the first chunk is requested, which the model does not distinguish.

## Findings

| source | as written | input that shows it | evidently intended | confidence | as-written member | corrected member |
|---|---|---|---|---|---|---|
| prototype/stemmer_prototype.py:167-179 | When the stem has no vowel from аоұыәеөүі, `last_vowel_in_stem` stays `""`. `"" in "аоұы"` is true in Python, so ы is inserted and the `else: return None` branch can never run. | stem "бр" with lemma set {"быр"}: the repair returns "быр" | a stem with no harmony vowel gets no elision repair (the `else: return None` branch) | not executed | Phonology.ElisionAsWrittenCounterexample | Phonology.ElisionSpec |

The stemmer itself keeps the repair as written, since that is what the code does (see `Scenarios.SuyStemsToSyu`). The corrected repair is `Phonology.Elision`, and `Phonology.CheckStemIntended` is the stem check built on it.
