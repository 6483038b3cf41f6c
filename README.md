# Textklassifikation in Dafny

A model of the core of Textklassifikation, a small word-frequency topic
classifier written in Python. The model has three parts, one module per
source file:

- **`Textverarbeitung`** covers text processing (`textverarbeitung.py`):
  - the `isValidWord` filter, with its three regular expressions written as
    character predicates;
  - the cleaning pipeline `cleanWordList`: lower-case, validate, split at
    hyphens, validate again, stem;
  - the exact-rational frequency map `wordListToFreqDict`;
  - the descending `(weight, word)` list `sortFreqDict`;
  - the filtering and composition steps `getFilteredTokens` and
    `makeWordFrequencyDictionary`;
  - the in-place merge `appendWordFreqDictToExistingDict`.
- **`Textimport`** covers text import (`textimport.py`):
  - the ASCII filter `remove_non_ascii_chars`;
  - the corpus reader `load_learning_data_from_file`. It reads
    `category|url` lines into a map from category to its URLs in line
    order.
- **`Classification`** covers the baseline classifier (`classification.py`):
  - the identity `DummyScaler`;
  - `SelfmadeNaive`. It sums the training vectors of each category in a
    sorted dictionary and keeps the sorted set of categories. It scores a
    vector by adding up the entries where a category's sum is positive, and
    predicts the category at the first largest score.

Two support modules hold shared operations:

- **`Strings`** has the Python string operations the code relies on:
  - `lower`, `split`, `join` and `strip`;
  - code-point string order and sorting.
- **`Wrappers`** has `Option`, `Result` and the two Python exceptions the
  code can raise: `ZeroDivisionError` and `ValueError`.

Foreign code is not modelled; it enters as parameters:

- The tokenizer's output becomes the raw token list.
- The Snowball stemmer becomes an uninterpreted function `stem`.
- NLTK's stop-word list becomes a set.
- A file becomes `Option<seq<string>>`: `None` for a file that does not
  exist, or else its lines, each with its line break, the last possibly
  without.

### Idealisations

- Python's `lower()`, `strip()` and the regular expression class `\d` are
  taken on ASCII:
  - `lower()` maps only `A`–`Z`;
  - `strip()` removes tab through carriage return, 0x1c–0x1f and space;
  - `\d` is `[0-9]`.
- A regular expression ending in `$` also matches in front of one final line
  break, as in Python (`DropFinalNewline`).
- `Fraction` becomes `real`, exactly.
- numpy arrays become `seq<real>`.
- Strings compare by code point; `(weight, word)` tuples compare
  lexicographically.

### Code and tests disagree

The cleaning tests in `tests/test_textverarbeitung.py` expect `"My"` and
`"whistle."` to come out unchanged. The code lower-cases and stems every
word. The model follows the code: `CleanWordsExample` states what the test
input gives under any stemmer.

### Properties of the code worth noting

- Duplicate URLs are kept: the same line twice gives its URL twice
  (`DuplicatesKept`).
- The classifier is only the summing baseline. Nothing in these files
  selects a basis, projects vectors or applies a cut-off decision rule, so
  none of that is modelled.

## Model

| member | source | states |
|---|---|---|
| Strings.Lower | textverarbeitung.py:25 | definition of `lower()`: every ASCII capital becomes its small letter, every other character is kept, in place |
| Strings.Split | textverarbeitung.py:34 | definition of `split(sep)`: the maximal separator-free runs, empty ones included; at least one piece and no piece holds the separator |
| Strings.JoinSplit | textverarbeitung.py:34 | joining the pieces of `split(sep)` with `sep` gives back the string |
| Strings.SplitJoin | textverarbeitung.py:34 | splitting a join of one or more separator-free pieces gives back those pieces |
| Strings.SplitCount | textimport.py:57 | `split(sep)` has one more piece than the string has separators |
| Strings.SplitAfterPiece | textverarbeitung.py:34 | a separator-free first piece is split off and the rest is split on |
| Strings.Strip | textimport.py:57 | definition of `strip()`: leading and then trailing ASCII whitespace removed |
| Strings.StripShape | textimport.py:57 | `strip()` returns a slice that starts and ends at a non-space, with only whitespace cut away on either side |
| Strings.StripIdempotent | textimport.py:57 | stripping twice is stripping once |
| Strings.StripEmpty | textimport.py:57-59 | a string strips to `""` exactly when it is all whitespace |
| Strings.SortStringsSorted | textverarbeitung.py:89 | `sorted` gives an ascending sequence |
| Strings.SortStrings | textverarbeitung.py:89 | `sorted` gives a permutation of its input |
| Strings.LexLess | textverarbeitung.py:68 | definition of `<` on `str`: code point by code point, a proper prefix before its extensions |
| Strings.LexLessTotal | textverarbeitung.py:68 | string order is total; with irreflexivity and transitivity it is a strict total order |
| Strings.SortedUnique | classification.py:36-48 | two strictly sorted sequences with the same members are equal, so the sorted dictionary's key order and the sorted set's order agree index by index |
| Textverarbeitung.DropFinalNewline | textverarbeitung.py:47-51 | definition of what `$` leaves to match: the word without one final line feed, if it has one |
| Textverarbeitung.StartsAlnum | textverarbeitung.py:43 | definition of the first test: the word is non-empty and its first character is an ASCII letter or digit |
| Textverarbeitung.MatchesHexLiteral | textverarbeitung.py:47 | definition of the second test: `0`, `x` or `X`, then one or more hex digits to the end, an optional final line break aside |
| Textverarbeitung.DigitRun | textverarbeitung.py:51 | the longest digit prefix: all digits, followed by a non-digit or the end |
| Textverarbeitung.DecimalMatchIsLanguage | textverarbeitung.py:51 | the hand-written matcher accepts exactly digits, at most one `.` or `,`, digits, before an optional final line break |
| Textverarbeitung.MatchesDecimalNumber | textverarbeitung.py:51 | definition of the third test as a greedy matcher; `DecimalMatchIsLanguage` proves it equal to the regular expression's language |
| Textverarbeitung.IsValidWord | textverarbeitung.py:42-54 | definition of `isValidWord`: the first test holds and neither of the other two does |
| Textverarbeitung.LetterFirstIsValid | textverarbeitung.py:42-54 | a word starting with an ASCII letter is valid, whatever follows |
| Textverarbeitung.InvalidWithoutAlnumStart | textverarbeitung.py:43-44 | the empty word and a word not starting with `[a-zA-Z0-9]` are invalid |
| Textverarbeitung.HexLiteralInvalid | textverarbeitung.py:47-48 | `0x`/`0X` followed by one or more hex digits is invalid |
| Textverarbeitung.DecimalNumberInvalid | textverarbeitung.py:51-52 | every decimal number is invalid |
| Textverarbeitung.DigitsInvalid | textverarbeitung.py:51-52 | a non-empty run of digits is invalid |
| Textverarbeitung.SeparatedDigitsInvalid | textverarbeitung.py:51-52 | digits, one `.` or `,`, then digits (possibly none) is invalid |
| Textverarbeitung.LowerKeepsValidity | textverarbeitung.py:25-29 | lower-casing never changes validity, so validating after lower-casing is validating the original word |
| Textverarbeitung.ValidWordExamples | tests/test_textverarbeitung.py:26-32 | `bit`, `32bit` and `32-times` are valid |
| Textverarbeitung.InvalidWordExamples | tests/test_textverarbeitung.py:30-38 | `32`, `0xbadc0ffee`, `325,24` and `345.6` are invalid |
| Textverarbeitung.CleanWord | textverarbeitung.py:29-38 | definition of what one token adds: nothing when its lower-cased form is invalid, else the stems of its valid hyphen pieces in order |
| Textverarbeitung.CleanWords | textverarbeitung.py:27-38 | definition of the returned list: the contributions of the tokens, concatenated in input order |
| Textverarbeitung.CleanWordList | textverarbeitung.py:21-40 | the nested loop produces exactly the word-by-word cleaning of the input, in input order |
| Textverarbeitung.AppendValidStems | textverarbeitung.py:34-38 | the inner loop appends exactly the stems of the valid pieces, in order, after what was there |
| Textverarbeitung.CleanWordsConcat | textverarbeitung.py:27-38 | cleaning works word by word: cleaning a concatenation is concatenating the cleanings |
| Textverarbeitung.CleanWordsMember | textverarbeitung.py:25-40 | a word is in the output exactly when it is the stem of a valid hyphen piece of a valid lower-cased input word |
| Textverarbeitung.CleanWordMember | textverarbeitung.py:29-38 | the same, for a single input word |
| Textverarbeitung.InvalidWordYieldsNothing | textverarbeitung.py:29-30 | an invalid word contributes nothing |
| Textverarbeitung.InvalidTokenContributesNothing | textverarbeitung.py:29-30 | `-ab` contributes nothing although its piece `ab` is valid |
| Textverarbeitung.PlainWordYieldsItsStem | textverarbeitung.py:25-38 | a letter-first word without hyphens yields exactly the stem of its lower-cased form |
| Textverarbeitung.TwoPieceWord | textverarbeitung.py:25-38 | a valid token whose lower-cased form is two pieces joined by one hyphen yields the stems of whichever of those lower-case pieces are valid, in order |
| Textverarbeitung.WordPair | textverarbeitung.py:25-38 | two lower-case letter-first words joined by a hyphen give both stems, in order |
| Textverarbeitung.NumberThenWord | textverarbeitung.py:29-38 | digits, a hyphen and a lower-case letter-first word form a valid token whose number piece is dropped: only the word's stem comes out |
| Textverarbeitung.CleanWordsExampleFront | tests/test_textverarbeitung.py:53-54 | `My 32` gives only the stem of `my` |
| Textverarbeitung.CleanWordsExampleBack | tests/test_textverarbeitung.py:53-54 | `pigs-whistle 32-times.` gives the stems of `pigs`, `whistle` and `times.` |
| Textverarbeitung.CleanWordsExample | tests/test_textverarbeitung.py:52-59 | `My 32 pigs-whistle 32-times.`, written as its two halves, gives the stems of `my`, `pigs`, `whistle` and `times.` |
| Textverarbeitung.Count | textverarbeitung.py:61 | definition of `list.count`: the number of positions holding the word |
| Textverarbeitung.CountsAreMultiplicities | textverarbeitung.py:61 | `list.count` is the multiplicity in the list |
| Textverarbeitung.WordListToFreqDict | textverarbeitung.py:58-62 | the keys are the distinct words, each weight is count / scale, and a scale of 0 with a non-empty list is a `ZeroDivisionError` |
| Textverarbeitung.FreqDictWeightsPositive | textverarbeitung.py:61 | with a positive scale every weight is positive |
| Textverarbeitung.FreqDictOfConcat | textverarbeitung.py:58-62 | for a non-zero scale, the frequency map of two word lists joined is the merge of their two maps |
| Textverarbeitung.Get | textverarbeitung.py:110 | definition of `dict.get(key, Fraction(0,1))`: the weight of the key, 0 when it is missing |
| Textverarbeitung.Merge | textverarbeitung.py:108-112 | definition of the merged dictionary: the union of the keys; a shared key gets the sum of both values, any other key keeps its own |
| Textverarbeitung.AppendWordFreqDictToExistingDict | textverarbeitung.py:108-112 | the same object is returned; its keys become the old keys plus the appended keys; appended keys hold the old value (0 if absent) plus the appended one; other keys are unchanged |
| Textverarbeitung.MergeEmptyRight | textverarbeitung.py:108-112 | merging an empty map changes nothing |
| Textverarbeitung.MergeEmptyLeft | textverarbeitung.py:108-112 | merging into an empty map gives the appended map |
| Textverarbeitung.MergeCommutative | textverarbeitung.py:110 | the merge does not depend on which map is the existing one |
| Textverarbeitung.MergeAssociative | textverarbeitung.py:108-112 | merging several maps one after the other does not depend on grouping |
| Textverarbeitung.EntryLess | textverarbeitung.py:68 | definition of `<` on `(weight, word)` tuples: by weight, then by word |
| Textverarbeitung.EntryLessTotal | textverarbeitung.py:68 | `(weight, word)` order is total |
| Textverarbeitung.EntryLessTransitive | textverarbeitung.py:68 | `(weight, word)` order is transitive |
| Textverarbeitung.SortEntries | textverarbeitung.py:68 | the in-place sort leaves the array ascending and a permutation of what it was |
| Textverarbeitung.InsertIntoPrefix | textverarbeitung.py:68 | one insertion step extends the ascending prefix and permutes the array |
| Textverarbeitung.ReverseEntries | textverarbeitung.py:69 | the in-place reverse puts entry `k` where entry `n-1-k` was |
| Textverarbeitung.ReverseOfAscending | textverarbeitung.py:68-69 | reversing an ascending list of distinct entries gives a strictly descending list of the same entries |
| Textverarbeitung.DescendingListing | textverarbeitung.py:66-70 | sorting a repeat-free listing of the map's pairs and reversing it gives a strictly descending listing of exactly those pairs |
| Textverarbeitung.ListEntries | textverarbeitung.py:67 | one `(weight, word)` pair per key, with no repeats |
| Textverarbeitung.SortFreqDict | textverarbeitung.py:66-70 | the result has one entry per key, holds exactly the map's `(weight, word)` pairs, and is strictly descending, so equal weights come in descending word order |
| Textverarbeitung.RemoveStopWords | textverarbeitung.py:93 | every stop word is removed and every other word keeps its multiplicity |
| Textverarbeitung.RemoveStopWordsSorted | textverarbeitung.py:89-93 | filtering keeps a sorted list sorted |
| Textverarbeitung.GetFilteredTokens | textverarbeitung.py:75-93 | second component is the raw token count; first is sorted, free of stop words, and holds each other cleaned word as often as cleaning produced it |
| Textverarbeitung.NoTokensNoWords | textverarbeitung.py:75-93 | no raw tokens gives no filtered words |
| Textverarbeitung.MakeWordFrequencyDictionary | textverarbeitung.py:98-105 | never divides by zero; holds exactly the filtered words weighted by count / raw token count, strictly descending, all weights positive |
| Textimport.RemoveNonAsciiChars | textimport.py:29-30 | definition of the ASCII filter: drops every character at or above 128, keeps the rest in order; never longer than its input |
| Textimport.RemoveNonAsciiCounts | textimport.py:29-30 | only ASCII remains, and each ASCII character keeps its multiplicity |
| Textimport.RemoveNonAsciiConcat | textimport.py:29-30 | the filter works character by character, so order is kept |
| Textimport.RemoveNonAsciiIdentity | textimport.py:29-30 | ASCII text is unchanged |
| Textimport.RemoveNonAsciiIdempotent | textimport.py:29-30 | filtering twice is filtering once |
| Textimport.ParseLine | textimport.py:56-59 | definition of one line's effect: nothing without a pipe, `ValueError` unless there is exactly one pipe, nothing for a blank URL, else the stripped pair |
| Textimport.AddUrl | textimport.py:61-64 | definition of adding a URL: appended to the category's list, or a new one-element list |
| Textimport.LoadLines | textimport.py:54-66 | definition of the fold over the lines: each parsed pair added in order; the first failing line's error ends it |
| Textimport.LoadLearningData | textimport.py:49-68 | definition of the whole function: a missing file is the empty dictionary, otherwise `LoadLines` of its lines |
| Textimport.LoadLearningDataFromFile | textimport.py:49-68 | the loop computes the fold over the lines; a missing file gives the empty map |
| Textimport.FailureSticks | textimport.py:57 | once a line raises, the rest of the file is not read |
| Textimport.LineWithOnePipe | textimport.py:56-59 | a line `k`, pipe, `u` gives the stripped key and URL, or is skipped when the URL strips to nothing |
| Textimport.BlankUrlIsSkipped | textimport.py:59 | a line whose URL is blank is skipped |
| Textimport.TwoPipesFail | textimport.py:57 | two or more pipe characters make the unpacking raise `ValueError` |
| Textimport.OnePipeNeverFails | textimport.py:56-57 | a line with exactly one pipe character never raises |
| Textimport.LoadLinesFails | textimport.py:55-66 | reading fails exactly when some line fails |
| Textimport.LoadLinesError | textimport.py:57 | the only error is `ValueError` |
| Textimport.LoadLinesContents | textimport.py:55-66 | a key is present exactly when some line contributes a URL to it, and its list is those URLs in line order, duplicates kept |
| Textimport.UrlsForConcat | textimport.py:61-64 | the URLs for a key from two runs of lines are those of the first run followed by those of the second |
| Textimport.LoadLinesStripped | textimport.py:57-64 | every key and URL is stripped, and no URL is empty |
| Textimport.LineWithoutPipeSkipped | textimport.py:56-66 | a line without a pipe character anywhere in the file changes nothing |
| Textimport.BlankUrlLineSkipped | textimport.py:59 | a line with a blank URL anywhere in the file changes nothing, and creates no key |
| Textimport.SkippedLineIrrelevant | textimport.py:56-66 | any skipped line anywhere in the file changes nothing |
| Textimport.FailingLineFails | textimport.py:57 | a failing line anywhere in the file makes reading fail with `ValueError` |
| Textimport.LoadThreeLines | textimport.py:55-66 | three parsed lines are added to the map in order |
| Textimport.ParseFileLine | textimport.py:57 | a line `k`, pipe, `u` with its line break parses to `(k, u)` when neither side is padded |
| Textimport.RepeatedCategoryExample | tests/test_textimport.py:26-32 | three lines `k1`-pipe-`u1`, `k2`-pipe-`u2`, `k3`-pipe-`u3`, fields without a pipe, URLs not blank, `k1` and `k3` stripping to the same category and `k2` to another: the first category gets the stripped `u1` then `u3`, the second the stripped `u2` |
| Textimport.DuplicatesKept | textimport.py:61-64 | a repeated line gives the URL twice |
| Classification.DummyScaler.FitTransform | classification.py:11-12 | returns its input |
| Classification.DummyScaler.Transform | classification.py:13-14 | returns its input |
| Classification.Zeros | classification.py:23 | definition of `zeros(n)`: n entries, all 0 |
| Classification.VecAdd | classification.py:23 | definition of `+` on two arrays of one shape: entry by entry |
| Classification.Sum | classification.py:37 | definition of `numpy.sum`: the sum of all entries |
| Classification.MaskedSum | classification.py:37 | definition of `numpy.sum((v > 0) * x)`: the sum of the entries of `x` where `v` is positive |
| Classification.MaskedSumIgnoresUnseen | classification.py:37 | entries where the category's sum is not positive do not affect the score |
| Classification.MaskedSumSignsOnly | classification.py:37 | only the sign pattern of the category's sum matters |
| Classification.MaskedSumFullSupport | classification.py:37 | when the vector's weight lies where the category is positive, the score is the vector's whole sum |
| Classification.MaskedSumBounds | classification.py:37 | on a non-negative vector the score lies between 0 and the vector's sum |
| Classification.ArgMax | classification.py:48 | `numpy.argmax`: an index of the largest entry with every earlier entry smaller |
| Classification.ArgMaxUnique | classification.py:48 | that index is unique |
| Classification.Zip | classification.py:22 | the pairs up to the shorter input |
| Classification.Prior | classification.py:23 | definition of `per_category_base.get(category, zeros(len(x)))`: the category's sum, or zeros of the vector's length when it is missing |
| Classification.AddSample | classification.py:23-24 | one step adds the sample's category to the keys |
| Classification.Accumulate | classification.py:21-24 | definition of the fold of `fit`: the pairs added one by one with `AddSample`; `None` when a vector does not have the length of its category's sum |
| Classification.AccumulateKeys | classification.py:21-24 | after fitting, the keys are the old keys plus every category the pairs name |
| Classification.AccumulateAt | classification.py:21-24 | each entry of a category's sum is its old value (0 for a new category) plus that entry of every vector tagged with it |
| Classification.UntaggedSumsToZero | classification.py:23 | a category that no pair names gains nothing |
| Classification.AccumulateConcat | classification.py:21-24 | fitting does not reset: fitting on two runs is fitting on the first, then on the second |
| Classification.AccumulatePrefixFits | classification.py:22-23 | a fit that succeeds succeeds on every prefix |
| Classification.FitStep | classification.py:22-24 | one iteration of the loop fits the sums so far, extends the fold by one pair, and keeps the set the sorted keys |
| Classification.AddSampleIndexes | classification.py:23-24 | adding a category to the set and a sample to the sums keeps the set the sorted keys of the sums |
| Classification.FoldIndexes | classification.py:18-24 | after the fold the set holds exactly the earlier categories and those the pairs name |
| Classification.FoldStep | classification.py:22-23 | one more pair of a successful fit fits the sums so far and extends them |
| Classification.SetAdd | classification.py:24 | `SortedSet.add` gives the old members plus the new one |
| Classification.SetAddSorted | classification.py:24 | and keeps the set strictly sorted |
| Classification.SortedKeys | classification.py:36 | a sorted dictionary iterates its keys strictly ascending, each once |
| Classification.Scores | classification.py:36-42 | one score per category, so the list is as long as the category list; entry j is the masked sum against category j |
| Classification.Predictions | classification.py:47-48 | one prediction per vector: the category at the first best score; an unfitted model fails with `ValueError` on any non-empty input |
| Classification.PredictionIsSmallestBest | classification.py:48 | the predicted category has the best score, and every other category with that score sorts after it |
| Classification.Matches | classification.py:27-28 | the number of correct predictions is at most the number of pairs |
| Classification.Accuracy | classification.py:26-29 | a share in [0, 1]; no pairs is a `ZeroDivisionError` |
| Classification.AllMatch | classification.py:27-28 | when every prediction is right, all pairs count |
| Classification.PerfectAccuracy | classification.py:26-29 | all predictions right scores exactly 1 |
| Classification.SelfmadeNaive.constructor | classification.py:17-19 | a new model has no sums and no categories |
| Classification.SelfmadeNaive.Fit | classification.py:21-24 | the new sums are the fold of the zipped pairs over the old sums; the categories stay sorted and equal to the keys, gaining exactly the categories named |
| Classification.SelfmadeNaive.PredictProba | classification.py:31-45 | one score list per vector, one score per category in sorted order: the masked sum against that category |
| Classification.SelfmadeNaive.Predict | classification.py:47-48 | equals `Predictions` on the model's sums and categories |
| Classification.SelfmadeNaive.Score | classification.py:26-29 | fails as `predict` does; otherwise the accuracy of the predictions against the tags |

## Left out

- Tokenisation, stemming and stop words (`textverarbeitung.py:4-17`, `76`) are NLTK library calls. The raw tokens, `stem` and the stop-word set are parameters.
- `load_text_from_url` and `is_visible` are left out. They fetch a page over the network and walk an HTML parse tree from other libraries.
- The file-system calls `os.path.exists` and `open` are left out. A file is given as `Option<seq<string>>` of lines.
- `main.py` is left out. It is a script that fetches a URL and prints.
- Logging and `pprint` in `predict_proba` are left out, as is the scikit-learn `BaseEstimator` base class.
- Floating point is not modelled: numpy floats are exact reals.
- Classification.SelfmadeNaive.Fit: does not model numpy broadcasting. The model requires every added vector to have the length of its category's sum, so the shape `ValueError` and the length-1 broadcast are not covered.
- Classification.SelfmadeNaive.PredictProba: requires every vector to have the length of every category's sum, for the same reason.
- Classification.SelfmadeNaive.Predict: carries the same equal-length requirement as `PredictProba`, for the same reason.
- Classification.SelfmadeNaive.Score: carries the same equal-length requirement as `PredictProba`, for the same reason.
- Unicode is not modelled. `lower()`, `strip()` and `\d` act on ASCII only.
- `tests/data/test_textimport.txt` is not part of this model, so its line order is unknown. `RepeatedCategoryExample` covers three lines `k1|u1`, `k2|u2`, `k3|u3` in that order, where `k1` and `k3` strip to the same category, with any whitespace around the fields.
- Textverarbeitung.MakeWordFrequencyDictionary: does not bound weights by 1. Hyphen splitting can produce more cleaned words than there were raw tokens.
- Textverarbeitung.WordListToFreqDict: the default `scale=1` is not modelled; the scale is always a parameter, and a caller that relies on the default passes 1.
- Python dictionaries keep insertion order; the model's `map` does not. This drops the first-appearance order of words from `wordListToFreqDict`, of categories from `load_learning_data_from_file`, and of new keys appended by `appendWordFreqDictToExistingDict`. Nothing in these files reads that order: `sortFreqDict` sorts, `SortedDict` reorders, and the tests compare dictionaries with `==`.
