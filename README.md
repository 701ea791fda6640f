# French Wordle word-list curation, in Dafny

This project models the offline pipeline that curates the French word
lists of a Wordle clone. It has three stages, one Dafny module each:

- **Extract** models `scripts/extract_from_libreoffice.py`.
  - `LibreOfficeExtractor` reads the entries of a Hunspell `.dic` file.
    The first line is an approximate entry count, and every later line
    is `word/flags`.
  - It keeps the lower-cased part before `/`.
  - It then keeps the words that are five letters long once the
    ligatures œ, æ, ﬁ and ﬂ are expanded, and whose original characters
    are all letters.
- **SmartFilter** models `scripts/smart_filter.py`.
  - `SmartFilterV2` loads the raw words.
  - It runs the short-circuiting heuristic rule chain of
    `_is_valid_word`:
    1. proper noun;
    2. length 3..5;
    3. a vowel;
    4. no doubled first letter;
    5. no bad ending;
    6. start shape.
  - Each failed rule bumps its own `rejected_*` counter.
  - An optional spell-checker may rescue words that the chain rejected.
  - Every accepted and rejected word is accent-normalised.
- **ProcessWords** models `process_words.py`.
  - The plural/conjugation classifier handles the `-s` and `-ez` endings,
    each with its exception table.
  - `main` turns the input lines into the sorted, duplicate-free
    `VALID_GUESSES` and `TARGET_WORDS` lists.

Three support modules are shared:

- **Text** holds the Python string built-ins the scripts use: `strip`,
  `lower`, `isupper`, `isalpha`, `endswith`, `split('/')[0]` and the
  `int()` literal test.
- **Sorting** holds code-point lexicographic order, which is what Python
  uses to compare `str` values. It also holds `sorted(set)`, proved to
  produce the unique strictly ascending sequence of a set.
- **SetFacts** holds the set filters and images the loops build, with
  their cardinality facts.

## How the model relates to the code

- Code that changes state stays imperative:
  - Both classes are Dafny classes with the Python fields. Their methods
    have `modifies` frames.
  - The loops over lines and over sets are `while` loops. They pick an
    arbitrary element of the remaining set, because Python's set
    iteration order is unspecified.
  - Each method is proved against a specification function: `Verdict`,
    `Normalize`, `Expand`, `DicWords`, `FiveLetterWords`,
    `HeuristicAccepted`, `ToSpellcheck`, `Validated`, `CleanWords`,
    `Guesses` and `Targets`.
  - The lemmas then state what those functions promise.
- `stats` in `SmartFilterV2` is Python's `defaultdict(int)`. The model
  uses a `map<Counter, nat>` read through `Get`, which defaults to 0.
  - `Counter` names the `rejected_*` keys by `Reason`, plus
    `initial_accepted` and `spellcheck_validated`.
  - The extractor uses only `total_extracted` and `five_letter`. These
    are two `nat` fields.
- The enchant dictionary is a value of type `SpellChecker`.
  - It is either `Unavailable`, meaning `_init_spellchecker` failed, or
    `Available(lookup)`.
  - `lookup` answers `Found(known)` or `Raised`. `Raised` stands for the
    exception that the bare `except` at `scripts/smart_filter.py:153`
    swallows.
- Input files are given as sequences of lines. Outputs that the scripts
  write `sorted(...)` are returned as strictly ascending sequences.

## Behaviour the model makes explicit

- `process_words.py:12` describes an `nt` rule for plural verbs such as
  "rient". The code has no such rule, so "rient" is not flagged
  (`ProcessWords.NtEndingNotFlagged`). The model follows the code.
- The entry "moisc" in the `-s` exception table never matters, because
  it does not end in `s` (`ProcessWords.ExceptionsNotFlagged`).
- `filter_words` normalises after it splits the words, so the normalised
  accepted and rejected sets can share a word. "porte" is accepted,
  "Porte" is rejected as a proper noun, and both become "porte"
  (`SmartFilter.NormalizedSetsMayOverlap`).
- `filter_5letter_words` checks letters on the word as written, not on
  its expansion. "c'est" expands to five characters and is still dropped
  (`Extract.ApostropheDropped`, `Extract.LetterTestOnOriginal`).
- Both counters can exceed the sizes of the sets they describe:
  - `total_extracted` counts duplicate entries;
  - `five_letter` counts source words, and distinct sources may expand to
    the same word.

  `Extract.NewWordsAtMostKept` and `Extract.FiveLetterCountBound` state
  these bounds.
- When spell-checking runs, `words_rejected` is extended rather than
  replaced. Without it, `words_rejected` is replaced by `to_spellcheck`.
  `SmartFilter.SmartFilterV2.FilterWords` states both cases, and
  `SmartFilter.DegradedModeOutcome` spells out the second.
- The count line of a `.dic` file goes through `int()`, which in CPython
  refuses a literal of more than 4300 digits by default
  (`sys.get_int_max_str_digits()`). Such a count line makes
  `extract_from_dic` fail like any other unparsable one
  (`Text.DigitRunLiteral`).

## Model

| member | source | states |
|---|---|---|
| Text.StripSpec | scripts/smart_filter.py:55 | `strip()` returns a slice of the line with no white space at either end. It drops only white space, and it is empty exactly when the line is all white space |
| Text.StripIdempotent | process_words.py:34 | stripping a stripped word changes nothing |
| Text.LowerIdempotent | scripts/smart_filter.py:141 | `lower()` is idempotent and leaves no upper-case character |
| Text.BeforeSlash | scripts/extract_from_libreoffice.py:115 | `split('/')[0]` is the longest prefix without `/`. If the line is longer, the next character is `/` |
| Text.IntLiteralExamples | scripts/extract_from_libreoffice.py:101 | the count line `int()` accepts: "73254" and "+1_000" are accepted; "", "abc", "1__0" and "12_" are rejected |
| Text.DigitCountOfDigits | scripts/extract_from_libreoffice.py:101 | in a run of digits every character counts toward the digit limit of `int()` |
| Text.DigitRunLiteral | scripts/extract_from_libreoffice.py:101 | a run of ASCII digits is accepted by `int()` exactly when it has between 1 and 4300 digits, CPython's default limit |
| Sorting.StrictlyAscendingDistinct | process_words.py:59-61 | a strictly ascending list has no duplicates |
| Sorting.AscendingUnique | process_words.py:60-61 | two strictly ascending lists with the same members are equal, so `sorted(set(...))` is determined by the set |
| Sorting.SortedSet | process_words.py:60-61 | `sorted(set)` is strictly ascending in code-point order and has exactly the members of the set |
| Extract.LigatureIndex | scripts/extract_from_libreoffice.py:153-158 | the position of a character in the ligature table, or past its end when the character is no ligature |
| Extract.ReplaceCharConcat | scripts/extract_from_libreoffice.py:162 | `str.replace` of one character works piecewise over a concatenation |
| Extract.ExpandLigatures | scripts/extract_from_libreoffice.py:151-164 | applying `replace` once per table entry, in order, gives the per-character expansion `Expand(word)` |
| Extract.ExpandConcat | scripts/extract_from_libreoffice.py:160-163 | expansion maps each character on its own and keeps the order: expanding a concatenation concatenates the expansions |
| Extract.ReplaceNextLigature | scripts/extract_from_libreoffice.py:161-162 | once the first k table entries have been replaced, replacing entry k also expands that ligature, wherever it occurs |
| Extract.ExpandOneChar | scripts/extract_from_libreoffice.py:153-158 | a ligature becomes its two-letter expansion, and any other character stays as it is |
| Extract.ExpansionsArePlain | scripts/extract_from_libreoffice.py:153-158 | no expansion in the table contains a ligature |
| Extract.ExpandHasNoLigature | scripts/extract_from_libreoffice.py:151-164 | the expanded word contains none of œ, æ, ﬁ or ﬂ |
| Extract.ExpandWithoutLigatures | scripts/extract_from_libreoffice.py:151-164 | a word without ligatures is its own expansion |
| Extract.ExpandIdempotent | scripts/extract_from_libreoffice.py:151-164 | expanding twice is the same as expanding once |
| Extract.ExpandLength | scripts/extract_from_libreoffice.py:151-164 | the expanded length is the original length plus the number of ligatures |
| Extract.DicWord | scripts/extract_from_libreoffice.py:115 | the word of a `.dic` line has no `/`, no upper-case character and no leading white space, and is no longer than the line |
| Extract.EntryStep | scripts/extract_from_libreoffice.py:108-119 | one more entry line adds its word and bumps the counter when the word is non-empty, and does neither otherwise |
| Extract.DistinctAtMostKept | scripts/extract_from_libreoffice.py:117-119 | the number of distinct words is at most the number of kept lines |
| Extract.NewWordsAtMostKept | scripts/extract_from_libreoffice.py:117-119 | `total_extracted` grows by at least the number of words new to the set |
| Extract.FiveLetterWordsShape | scripts/extract_from_libreoffice.py:132-146 | every word left by the five-letter filter has length 5 and contains no ligature |
| Extract.FiveLetterCountBound | scripts/extract_from_libreoffice.py:143-146 | the resulting set is no larger than the number of source words that passed |
| Extract.ApostropheDropped | scripts/extract_from_libreoffice.py:136-141 | "c'est" expands to five characters but fails the letter test |
| Extract.LigatureKept | scripts/extract_from_libreoffice.py:136-141 | "bœuf" passes the letter test and expands to "boeuf" |
| Extract.LetterTestOnOriginal | scripts/extract_from_libreoffice.py:132-146 | the letter test reads the original word: of "c'est" and "bœuf", the five-letter filter keeps only "boeuf" |
| Extract.LibreOfficeExtractor.constructor | scripts/extract_from_libreoffice.py:15-17 | the extractor starts with no words and both counters at zero |
| Extract.LibreOfficeExtractor.ExtractFromDic | scripts/extract_from_libreoffice.py:96-126 | succeeds exactly when the count line parses, with at most 4300 digits, or the file is empty. On success it adds the words of the later lines and counts the kept lines; an empty file adds nothing. On failure nothing changes |
| Extract.LibreOfficeExtractor.AddEntryWords | scripts/extract_from_libreoffice.py:108-119 | adds the non-empty words of the entry lines and counts them, duplicates included |
| Extract.LibreOfficeExtractor.Filter5LetterWords | scripts/extract_from_libreoffice.py:128-149 | replaces `words` by the expansions of the words that pass, counts the passing source words and returns true |
| SmartFilter.Bump | scripts/smart_filter.py:87 | a `defaultdict` increment raises one counter by one and leaves every other counter alone |
| SmartFilter.ShapeOfConsonantsThenVowel | scripts/smart_filter.py:122 | 1 to 3 consonants followed by a vowel match the start pattern |
| SmartFilter.ConsonantsThenVowelOfShape | scripts/smart_filter.py:122 | a word matching the start pattern with a consonant first has 1 to 3 consonants followed by a vowel |
| SmartFilter.StartShapeSpec | scripts/smart_filter.py:121-124 | the start pattern matches exactly when the word starts with a vowel, or with 1 to 3 consonants followed by a vowel |
| SmartFilter.Verdict | scripts/smart_filter.py:85-126 | a rejection names a rule the word breaks, and a word with no rejection passes all six rules |
| SmartFilter.FirstBrokenSpec | scripts/smart_filter.py:82-126 | the chain finds a broken rule exactly when some rule is broken, and the rule it finds is broken |
| SmartFilter.AcceptsIffAllHold | scripts/smart_filter.py:82-126 | a word is accepted exactly when it passes every rule |
| SmartFilter.FirstBrokenAt | scripts/smart_filter.py:82-126 | in a list of distinct rules, the search stops at rule k exactly when rule k is broken and every earlier rule holds |
| SmartFilter.VerdictIsFirstBrokenRule | scripts/smart_filter.py:85-124 | the rejection reason is the first rule, in chain order, that the word breaks |
| SmartFilter.AcceptedWordShape | scripts/smart_filter.py:85-126 | an accepted word: has length 3..5 and a non-upper-case first letter; contains a vowel; has `w[0] != w[1]`; has none of the bad endings; starts with a vowel or with 1 to 3 consonants followed by a vowel |
| SmartFilter.UppercaseStartRejected | scripts/smart_filter.py:86-88 | a capital first letter rejects the word as a proper noun, whatever follows |
| SmartFilter.PorteAccepted | scripts/smart_filter.py:85-126 | the lower-case word "porte" passes every rule of the chain |
| SmartFilter.SmartFilterV2.IsValidWord | scripts/smart_filter.py:82-126 | returns true exactly when the chain accepts the word. On acceptance no counter changes; on rejection only the counter of the first broken rule goes up, by one |
| SmartFilter.AccentTable | scripts/smart_filter.py:130-138 | every replacement is ASCII lower case, and only œ and æ become two letters |
| SmartFilter.NormalizeWord | scripts/smart_filter.py:128-144 | the loop appends `accent_map.get(c, c)` for each character of `word.lower()`, in order |
| SmartFilter.MapAccentsConcat | scripts/smart_filter.py:141-142 | the map works on each character independently and keeps the order |
| SmartFilter.MapAccentsPlain | scripts/smart_filter.py:141-142 | mapping a string with no upper-case character leaves no map key and no upper-case character |
| SmartFilter.MapAccentsOfPlain | scripts/smart_filter.py:141-142 | a string without map keys is unchanged by the map |
| SmartFilter.NormalizePlain | scripts/smart_filter.py:128-144 | the output contains no key of the accent map and no upper-case character |
| SmartFilter.NormalizeIdempotent | scripts/smart_filter.py:128-144 | normalising twice is the same as normalising once |
| SmartFilter.MapAccentsLength | scripts/smart_filter.py:141-142 | the mapped length is the input length plus the number of œ and æ |
| SmartFilter.NormalizeLength | scripts/smart_filter.py:128-144 | the normalised length is the input length plus the number of œ/æ after lower-casing |
| SmartFilter.PorteNormalizes | scripts/smart_filter.py:128-144 | "porte" and "Porte" both normalise to "porte" |
| SmartFilter.CheckSpellcheck | scripts/smart_filter.py:146-154 | true exactly when a dictionary is loaded and says it knows the word. No dictionary, or an exception, gives false |
| SmartFilter.ClassifyPartitions | scripts/smart_filter.py:160-167 | the rejected raw words (`to_spellcheck`) and the heuristically accepted ones are disjoint, and together they are all the raw words |
| SmartFilter.RescueSetsStep | scripts/smart_filter.py:181-187 | one spell-check iteration keeps the accepted, validated and rejected sets in step with the words checked so far |
| SmartFilter.RescueCountsStep | scripts/smart_filter.py:181-187 | one spell-check iteration raises `spellcheck_validated` only for a known word, and changes no other counter |
| SmartFilter.ValidatedSpec | scripts/smart_filter.py:173-187 | the validated words are a subset of `to_spellcheck`. They are exactly the raw words the chain rejects and a loaded dictionary knows |
| SmartFilter.DegradedModeRescuesNothing | scripts/smart_filter.py:148-149 | without a spell-checker no word is validated |
| SmartFilter.DegradedOrNothingToCheck | scripts/smart_filter.py:173 | with no spell-checker, or nothing to check, the validated set is empty |
| SmartFilter.ClassifyCountsStep | scripts/smart_filter.py:163-167 | classifying one more raw word raises the count of exactly its own rejection reason, and no counter when the word is accepted |
| SmartFilter.DegradedModeOutcome | scripts/smart_filter.py:173-191 | without a spell-checker, the accepted words before normalisation are the heuristic ones, the rejected words are `to_spellcheck`, and nothing is validated |
| SmartFilter.CountsAfterFilter | scripts/smart_filter.py:163-184 | after the filter: each `rejected_*` counter grew by the number of raw words rejected for that reason; `initial_accepted` is the size of the heuristic set; `spellcheck_validated` grew by the number of rescued words |
| SmartFilter.NormalizedSetsMayOverlap | scripts/smart_filter.py:160-208 | one normalised word can be both accepted and rejected: "porte" is accepted, "Porte" is rejected, and both become "porte" |
| SmartFilter.LoadedWordsStep | scripts/smart_filter.py:54-57 | one more line adds its stripped form when that is non-empty |
| SmartFilter.LoadedWordsAreStripped | scripts/smart_filter.py:54-57 | every loaded word is non-empty, has no white space at its ends, and is its own `strip()` |
| SmartFilter.NormalizeAll | scripts/smart_filter.py:195-208 | the normalisation loop yields the normalised form of every word of the set, and nothing else |
| SmartFilter.SmartFilterV2.constructor | scripts/smart_filter.py:17-24 | all word sets and counters start empty, with the spell-checker as `_init_spellchecker` left it |
| SmartFilter.SmartFilterV2.LoadWords | scripts/smart_filter.py:52-57 | `words_raw` gains the stripped non-blank lines |
| SmartFilter.SmartFilterV2.ClassifyRaw | scripts/smart_filter.py:160-169 | splits the raw words into the heuristically accepted and the rejected ones, and counts every rejection under its reason |
| SmartFilter.SmartFilterV2.RescueWithSpellchecker | scripts/smart_filter.py:176-187 | known words go to both `words_spellcheck_validated` and `words_accepted` and are counted. The other words go to `words_rejected` |
| SmartFilter.SmartFilterV2.SpellcheckStage | scripts/smart_filter.py:173-191 | runs the rescue only when a spell-checker is loaded and some word was rejected. Otherwise `words_rejected` becomes `to_spellcheck` |
| SmartFilter.SmartFilterV2.ClassifyAndRescue | scripts/smart_filter.py:160-191 | before normalisation, the accepted words are the heuristic ones plus the validated ones, with all counters as the filter leaves them |
| SmartFilter.SmartFilterV2.NormalizeResults | scripts/smart_filter.py:193-208 | both word sets are replaced by their normalised images |
| SmartFilter.SmartFilterV2.FilterWords | scripts/smart_filter.py:156-210 | `words_accepted` is the normalised image of the heuristic set plus the validated set, and `words_rejected` is the normalised image of the rejected words, extended or replaced as `SpellcheckStage` says. Every counter is as the rules say |
| SmartFilter.SmartFilterV2.GenerateJs | scripts/smart_filter.py:244-251 | `TARGET_WORDS` is `words_accepted` sorted, without duplicates, and `VALID_GUESSES` is the same list |
| SmartFilter.SmartFilterV2.SaveRejectedWords | scripts/smart_filter.py:278 | the lines written are `words_rejected`, strictly ascending |
| SmartFilter.SmartFilterV2.SaveValidatedWords | scripts/smart_filter.py:297 | the lines written are `words_spellcheck_validated`, strictly ascending |
| ProcessWords.IsLikelyProperNoun | process_words.py:4-6 | no word is classed as a proper noun |
| ProcessWords.IsLikelyPluralOrConjugated | process_words.py:8-26 | a flagged word ends in `s` or `z` |
| ProcessWords.PluralBySuffix | process_words.py:14-26 | a word ending in neither `s` nor `ez` is not flagged, so neither is one like "quartz" that ends in `z` after another letter. An `s` ending is flagged exactly when the word is not in the `-s` exception list, and an `ez` ending exactly when the word is not "assez" |
| ProcessWords.PluralExamples | process_words.py:14-24 | "pommes", "joues" and "jouez" are flagged |
| ProcessWords.SingularExamples | process_words.py:14-26 | "temps", "corps", "assez", "livre" and "quartz" are not flagged |
| ProcessWords.NtEndingNotFlagged | process_words.py:12-26 | "rient" is not flagged: the code has no rule for `nt` |
| ProcessWords.ExceptionsNotFlagged | process_words.py:14-18 | no listed `-s` exception is flagged, and the "moisc" entry has no effect |
| ProcessWords.CleanWordsConcat | process_words.py:34 | the cleaned words keep the order of the lines |
| ProcessWords.LowerKeepsEnds | process_words.py:34 | `lower()` does not move white space onto or off the ends of a stripped word |
| ProcessWords.CleanWordsMembers | process_words.py:34 | a word of the list is `strip().lower()` of a non-blank line, and every non-blank line gives one |
| ProcessWords.CleanWordsShape | process_words.py:34 | each word of the list is non-empty, lower case and stripped |
| ProcessWords.CleanWordsIdempotent | process_words.py:34 | cleaning an already cleaned list changes nothing |
| ProcessWords.GuessesMembers | process_words.py:39-54 | the guesses are exactly the words of length 5 |
| ProcessWords.TargetsMembers | process_words.py:39-57 | the targets are exactly the five-letter words not flagged as plural or conjugated, and there are no more of them than guesses |
| ProcessWords.BuildWordLists | process_words.py:34-61 | `VALID_GUESSES` is the sorted, duplicate-free list of five-letter cleaned words. `TARGET_WORDS` is the sorted, duplicate-free list of the guesses not flagged as plural or conjugated, and is contained in `VALID_GUESSES` |

## Left out

- `find_libreoffice_dict` (scripts/extract_from_libreoffice.py:19-78) is left out because it probes OS-specific paths on the file system.
- The file handling is left out and replaced by a sequence of lines:
  - path resolution;
  - the existence checks, with their "file not found" results;
  - opening and reading files, including UTF-8 decoding with `errors='ignore'`;
  - `readlines`, file iteration and `splitlines`.
- Any exception other than a failing `int()` on the count line in `extract_from_dic` comes from I/O and is not modelled.
- Writing files is not modelled: `generate_js`, the `save_*` methods, `save_to_file` and the writes in `main`. The model keeps only the sorted lists these methods write. `save_to_file` (scripts/extract_from_libreoffice.py:166-188) is not part of this model, beyond being the same `sorted(set)` that `Sorting.SortedSet` states.
- The JavaScript and JSON text around the word lists is left out because it is serialisation only.
- Progress messages, `print_stats` and the `run` drivers of both classes are left out because they only print or sequence the modelled steps.
- The placeholder methods at scripts/smart_filter.py:68-80 are left out because later definitions shadow them.
- The commented-out cluster rules at scripts/smart_filter.py:100-108 are left out because they are not live code.
- Loading the enchant library (scripts/smart_filter.py:26-39) is a foreign call. Its outcome is the `SpellChecker` passed to the constructor, and its `check` is the uninterpreted `lookup`.
- The character classes cover only the Latin script. Full Unicode tables are out of reach:
  - `lower()`/`isupper()` cover ASCII, Latin-1, Œ and Ÿ;
  - `isalpha()` covers ASCII, the Latin-1 letters, Latin Extended-A and -B and the ligatures U+FB00-U+FB06;
  - `int()` accepts only ASCII digits;
  - `strip()` uses Python's full white-space set.
- The word count that `extract_from_dic` parses is only printed, so the model keeps whether it parses and not its value.
- Python's order of set iteration is not modelled. The loops pick any remaining element, and every result is stated independently of that order.
