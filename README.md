# CEFR reading-level service: the analysis handler, modelled in Dafny

The repository is a small Flask service. It receives a text and reports:

- an estimated CEFR level (A1 to C2), taken from word lists;
- how many words fall into each level;
- the average sentence length;
- which of a fixed list of phrasal verbs occur in the text;
- two Flesch readability scores.

This project models the analysis itself: the `analyze` handler and the two constants it relies on, the level list and the phrase list. Properties of the model are proved in Dafny.

The model follows the handler stage by stage.

- **Levels** (`levels.dfy`): the six levels as a datatype, and their fixed order A1, A2, B1, B2, C1, C2. `Rank` gives a level's position in that order.
- **Tokenizer** (`tokenizer.dfy`): the tokens are the maximal runs of ASCII letters, apostrophes and hyphens, read left to right. `Words(text)` is the tokens of the ASCII-lowercased text.
  - In the source the pattern is written `r"\\b[a-zA-Z'-]+\\b"`. Read literally, a doubled backslash inside a raw string is a literal backslash.
  - The model instead reads it as the evidently intended word boundary `\b`. Whole runs of word characters approximate that boundary.
- **Sentences** (`sentences.dfy`): the text is split on runs of `.`, `!` and `?`, as `re.split` does (`Fragments`).
  - Fragments that are empty or contain only whitespace are dropped.
  - Each remaining fragment contributes its token count.
  - The average is kept as an exact pair `Ratio(wordSum, sentences)`. The pair `(0, 0)` stands for the 0 the source returns when no sentence remains.
- **Vocabulary** (`vocabulary.dfy`): the word sets per level are a `map<Level, set<string>>`. A level missing from the map counts as an empty set, the state left behind when its word file is missing.
  - The first level in order whose set contains a word claims it (`Classify`).
  - `CountLevels` is the source's nested loop. It leaves the inner loop at the first level that matches, and it is proved equal to the specification `Tally`.
- **Dominance** (`dominance.dfy`): a text with no words is "Unknown". Otherwise the result is the level with the largest count. Ties go to the earliest level, because Python's `max` replaces its candidate only on a strictly greater key.
- **Phrases** (`phrases.dfy`): a listed phrase is reported when it occurs anywhere in the lowercased text as a plain substring, with no word-boundary check. Reported phrases keep the list's order.
- **Analysis** (`analysis.dfy`): `Analyze` puts the stages together into a `Report`.
- **Scenarios** (`scenarios.dfy`): the same analysis on three concrete sample texts.

Main results:

- **Sentence words equal total words.** The word counts of the retained sentences add up to exactly `total_words` (`SumOfSentenceLengths`). The sentence split neither creates nor loses tokens, since delimiters are never word characters. Blank fragments contain no tokens. Lowercasing does not move token boundaries, because the model folds only ASCII letters; Python's full `str.lower` can move them (see "## Left out").
- **Order independence.** The per-level counts depend only on the multiset of words (`TallyPermutation`).
- **Counting bound.** The six per-level counts and the unmatched words together account for every word (`TallyTotal`).

## Model

| member | source | states |
|---|---|---|
| Levels.Rank | app.py:15 | each level has a position below 6 in the fixed order, and that position of the order holds the level |
| Levels.OrderIsPermutation | app.py:15 | the six listed levels are all the levels, each exactly once |
| Levels.Name | app.py:15 | a level's name is the entry of the name list at the level's position |
| Levels.NameInjective | app.py:15 | distinct levels have distinct names |
| Tokenizer.LowerChar | app.py:35 | an upper-case letter becomes the same letter in lower case; every other character is left alone; no upper-case letter remains |
| Tokenizer.Lower | app.py:35 | the lowercased text has the same length and is folded character by character |
| Tokenizer.WordRun | app.py:35 | the word-character run at the start of a string is maximal: it is followed by a non-word character or by the end |
| Tokenizer.Tokens | app.py:35 | every token is non-empty and made only of letters, apostrophes and hyphens |
| Tokenizer.Words | app.py:35-36 | the words are the tokens of the text, lowercased, and there are as many of them |
| Tokenizer.TokenChars | app.py:35 | every character of a token comes from the text |
| Tokenizer.WordShape | app.py:35 | every word of `text.lower()` is non-empty, has only word characters and no upper-case letter |
| Tokenizer.TokensSkip | app.py:35 | a leading non-word character is a separator and is dropped |
| Tokenizer.TokensOfWordThen | app.py:35 | a word followed by a separator is the first token, and the rest is tokenized on its own |
| Tokenizer.TokensOfJoin | app.py:35 | round trip: tokenizing well-formed words joined by single spaces gives back the same words |
| Tokenizer.TokensOfLower | app.py:35-38 | lowercasing before tokenizing gives the lowercased tokens, as many as before |
| Tokenizer.NoWordCharsNoTokens | app.py:38 | a string without word characters has no tokens |
| Sentences.Fragments | app.py:37 | `re.split` on runs of `.`, `!` and `?` always yields at least one fragment, no fragment contains a delimiter, and the first fragment is the text up to its first delimiter (a run of delimiters splitting once is `Sentences.SplitRun`) |
| Sentences.NoDelimiterOneFragment | app.py:37 | a text without delimiters is one fragment, the whole text |
| Sentences.SplitFirst | app.py:37 | a fragment followed by a single delimiter is split off first |
| Sentences.DelimiterRun | app.py:37 | a whole run of delimiters, however long, ends exactly one empty fragment |
| Sentences.SplitRun | app.py:37 | a fragment followed by a run of delimiters is split off once, with no empty fragments for the run's inner delimiters |
| Sentences.FragmentsOfJoin | app.py:37 | round trip: splitting delimiter-free fragments joined by one delimiter gives them back, provided no inner fragment is empty |
| Sentences.IsBlank | app.py:38 | a fragment is blank exactly when all its characters are whitespace; a blank fragment has no tokens |
| Sentences.Retained | app.py:38 | the kept fragments are all non-blank and never more than the fragments |
| Sentences.RetainedMultiset | app.py:38 | each non-blank fragment is kept as often as it occurs, and no blank one is |
| Sentences.Lengths | app.py:38 | one count per retained fragment, in order, each the fragment's token count |
| Sentences.LengthsSnoc | app.py:38 | one more fragment appends its token count, unless it is blank |
| Sentences.SentenceLengths | app.py:37-38 | `sentence_lengths` has one entry per non-blank fragment of the raw text: its token count |
| Sentences.LengthsSum | app.py:38 | dropping blank fragments loses no words |
| Sentences.FragmentTokens | app.py:37-38 | the fragments together hold as many tokens as the whole text |
| Sentences.SumOfSentenceLengths | app.py:35-38 | the sentence lengths add up to the number of words of the lowercased text |
| Sentences.AverageSentenceLength | app.py:38-39 | the denominator is the number of non-blank fragments, at most the number of fragments; the numerator is the total word count; with no sentence there are no words |
| Vocabulary.FirstMatch | app.py:44-47 | the index of the first level whose set holds the word: no earlier set holds it, and the set at that index does unless the index is past the end |
| Vocabulary.Classify | app.py:44-47 | a word assigned a level is in that level's set and in no earlier level's; a word is assigned no level exactly when no set holds it |
| Vocabulary.ClassifyIsFirstMatch | app.py:43-47 | a word is counted at level l if and only if l's set holds it and no earlier level's set does; it is counted at no level if and only if no set holds it |
| Vocabulary.Tally | app.py:42 | there is exactly one count per level |
| Vocabulary.CountLevels | app.py:42-47 | the nested loop, with its early exit, computes exactly `Tally`: one key per level, each the specified count |
| Vocabulary.TallyStep | app.py:45-47 | one more word adds 1 to the count of its first matching level and changes nothing else; a word in no set changes no count |
| Vocabulary.TallyTotal | app.py:36-47 | the six counts plus the unmatched words equal the number of words, so the counts never exceed `total_words` |
| Vocabulary.AllUnmatched | app.py:43-47 | words that are in no set are all left unmatched |
| Vocabulary.CountOfAppend | app.py:43-47 | counting is additive over concatenation |
| Vocabulary.TallyPermutation | app.py:43-47 | reordering the words leaves every count unchanged |
| Dominance.InOrder | app.py:50 | the counts listed in level order, as `level_counts.items()` yields them |
| Dominance.FirstMaxIndex | app.py:50 | `max` with a key returns a maximal item, and every earlier item is strictly smaller |
| Dominance.DominantLevel | app.py:50 | "Unknown" exactly when there are no words; otherwise a level with the largest count, strictly larger than every earlier level's |
| Dominance.EarliestMaximumIsChosen | app.py:50 | conversely, the earliest level with a maximal count is the one chosen |
| Dominance.NoMatchIsA1 | app.py:50 | words that are in no list give A1, since all counts tie at 0 |
| Dominance.Label | app.py:50 | the `cefr_level` string is "Unknown" exactly for the Unknown estimate, otherwise the name listed at the chosen level's position |
| Dominance.LabelInjective | app.py:50 | different estimates are reported under different strings |
| Phrases.Contains | app.py:53 | `phrase in text` holds if and only if the phrase occurs at some position of the text |
| Phrases.ShiftOccurrence | app.py:53 | a phrase not at the start of a text occurs in it exactly when it occurs in the text's tail |
| Phrases.PhraseListWellFormed | app.py:27 | the listed phrases are non-empty, in lower case and pairwise distinct |
| Phrases.Matching | app.py:53 | the result is a subsequence of the list; it holds each contained phrase as often as the list does and no other phrase; every reported phrase occurs |
| Phrases.FoundPhrases | app.py:53 | the reported phrases keep the list's order, and a phrase is reported if and only if it is listed and occurs in the lowercased text |
| Analysis.ReportOf | app.py:32-66 | the specified report: one count per level, counts bounded by the word count, average numerator equal to the word count, "Unknown" exactly for a text with no words, and the reported phrases exactly the listed ones occurring in the lowercased text |
| Analysis.UnlistedWordsGiveA1 | app.py:43-50 | a text with words, none of them in any list, is rated A1 |
| Analysis.Analyze | app.py:30-66 | the report is the stage-by-stage specification: one count per level, counts bounded by the word count, average numerator equal to the word count, and "Unknown" exactly for a text with no words |
| Analysis.EmptyTextReport | app.py:32-66 | the empty text (the default when "text" is missing) gives "Unknown", six zero counts, average 0 and no phrases |
| Analysis.NothingMatches | app.py:53 | a list none of whose phrases occurs yields no phrase |
| Scenarios.LookAfterIsFound | app.py:53 | in "I need to look after my dog" exactly "look after" is found |
| Scenarios.OnlyOneMatch | app.py:53 | when exactly one listed phrase occurs, and it is listed once, it alone is reported |
| Scenarios.TwoWordSentences | app.py:37-39 | three two-word sentences, each closed by a delimiter, give four fragments, the last one empty and not counted, and an average of 6 / 3 |
| Scenarios.CatsRunDogsJump | app.py:37-39 | "Cats run. Dogs jump! Birds fly?" has three sentences and an average of 6 / 3 |
| Scenarios.FiveWords | app.py:35 | five words separated by single spaces are the five tokens |
| Scenarios.CatAndDog | app.py:35-50 | with "cat" and "dog" listed at A1 only, "the cat and the dog" counts 2 at A1 and 0 elsewhere, and the text is rated A1 |

## Left out

- The HTTP layer is left out (routing, CORS, `request.get_json`, `jsonify`). The text is a parameter. A request without a "text" field is the empty text, which `Analysis.EmptyTextReport` covers.
- Loading the word lists from `data/<level>.txt` is left out, because it is file I/O. The lists are a parameter. A level whose file is missing is a missing or empty set.
- The two Flesch scores (app.py:56-57) are left out. They come from the external `textstat` library and use floating point.
- Sentences.AverageSentenceLength: `round(..., 2)` on the float quotient is not modelled. The average is the exact pair (sum, count), and (0, 0) stands for the 0 of an empty list.
- Tokenizer.Tokens: it is the intended `\b[a-zA-Z'-]+\b`, approximated by maximal runs of word characters. Python's `\b` places boundaries by Unicode word characters, which differ from the model's in two ways.
  - Digits, `_` and non-ASCII letters are word characters for `\b`, so text like `abc1` or `é-x` can tokenize differently there.
  - `'` and `-` are not word characters for `\b`. Python therefore drops the leading and trailing apostrophes and hyphens of a run, and finds no token in a run made only of them. For `a - b` the source finds `a`, `b`, where the model gives `a`, `-`, `b`. The text `-` has no word in the source, which rates it "Unknown"; the model finds one word and rates it A1. The raw-string pattern as written, with a literal backslash, is not modelled either.
- Tokenizer.Lower: only ASCII letters are folded. Python's `str.lower` also folds non-ASCII letters, and some of them become ASCII letters (the Kelvin sign U+212A becomes `k`). In the source, such a character is a token character in `text.lower()` but not in the raw fragments, so the sentence counts can fall short of `total_words`. The model's equality of the two (`Sentences.SumOfSentenceLengths`) rests on ASCII folding.
- Sentences.IsBlank: whitespace is Python's `str.isspace` restricted to ASCII. Non-ASCII spaces are not recognised.
- The JSON key order and the number formatting of the response are not modelled.
