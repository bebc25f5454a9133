# WanaKana tokenizer, modelled in Dafny

This project models the script-aware tokenizer of WanaKana (`src/tokenize.js`). The tokenizer has two parts:

- `getType` sorts a character into a token category. Full mode has eleven categories: `en`, `ja`, `englishNumeral`, `japaneseNumeral`, `englishPunctuation`, `japanesePunctuation`, `kanji`, `hiragana`, `katakana`, `space` and `other`. Compact mode has three: `en`, `ja` and `other`. Each mode is an ordered cascade of tests, and the first test that matches decides.
- `tokenize` makes one left-to-right pass over the characters of the input. It merges neighbouring characters of the same category into maximal runs. With `detailed`, it pairs each run with its category.

Everything is in `tokenize.dfy`, in module `Tokenize`:

- `Category` is the enumeration of token types.
- `CharTests` holds the seven imported character tests: English punctuation, Japanese punctuation, Romaji, Kanji, Hiragana, Katakana and Japanese. Each is a field of type `string -> bool`. Their code is not part of this model, so every lemma holds for *any* values of these tests.
- The four local tests (lines 11-14) are modelled exactly:
  - The two space tests compare the whole string for equality.
  - The two digit tests model `/[0-9]/.test` and `/[０-９]/.test`. Each holds when the range matches anywhere in the string (`MatchesRange`, with `MatchesRangeExactly` as its characterization).
- `GetType` is the cascade of lines 17-50, over a string, just as in JavaScript. `CharType(c)` is `GetType([c])`, which is the call made at line 86.
- The grouping is stated for any classifier `cat: char -> Category`. `Tokenize` uses `Classifier(t, compact)`, which is `CharType` in the chosen mode.
  - `Runs` is the specification of the fold at lines 84-96. Each character after the first either extends the last run or starts a new one. It extends the run when its category equals that of the character before it (`prevType`).
  - `IsMaximalRuns` is an independent description of a correct answer. The runs concatenate to the input, no run is empty, each run has one category, and neighbouring runs differ in category. `RunsAreMaximal` proves that `Runs` meets this description. `MaximalRunsUnique` proves that no other answer does.
- `Tokenize` is the method of lines 76-102. Its loop keeps a list of finished runs, the current run and `prevType`, and it is proved equal to `Runs`. An absent input (`null`/`undefined`) is `None`.
- `Detail` is the detailed mapping of line 99. It labels each run with the category of the run's first character (see the finding below).

Two points about the model's behaviour:

- The classifier follows the code exactly. One consequence: in compact mode, the ideographic space `'　'` is `ja` only if `isCharEnglishPunctuation('　')` is false, because line 27 tests English punctuation before line 28 tests for the ideographic space. `SpaceCategories` states this conditional form.
- The detailed output does not follow line 99. It labels each run with the category its characters share. Line 99 classifies the whole joined run text instead; that version is modelled separately as `DetailAsWritten`. The table under Findings below records the difference.

## Model

| member | source | states |
|---|---|---|
| Tokenize.GetType | src/tokenize.js:22-33 | Compact mode only ever gives En, Ja or Other, for every text and every value of the imported tests. |
| Tokenize.MatchesRangeExactly | src/tokenize.js:13-14 | The regular-expression digit tests hold exactly when some character of the text lies in the range. |
| Tokenize.SpaceCategories | src/tokenize.js:26-28 | Both `' '` and `'　'` are Space in full mode (lines 36-37). In compact mode `' '` is En whatever the imported tests say. `'　'` is Ja, or Other when English punctuation (tested earlier) accepts it. |
| Tokenize.JaNumCategory | src/tokenize.js:24 | A text containing a full-width digit is JaNum in full mode (line 38) and Other in compact mode. No punctuation, script or space category is ever reached. |
| Tokenize.EnNumCategory | src/tokenize.js:25 | A text containing a half-width digit is Other in compact mode. If it has no full-width digit, it is EnNum in full mode (line 39). |
| Tokenize.DigitCharCategories | src/tokenize.js:36-39 | A single full-width digit is JaNum (full) and Other (compact). A single half-width digit is EnNum (full) and Other (compact). |
| Tokenize.CompactCoarsensFull | src/tokenize.js:17-50 | Gives the compact category from the full category for every text. Numerals, punctuation and Other go to Other. Ja stays Ja and En stays En. Space goes to En, Ja or Other. Kanji and kana go to Ja only when the Japanese test accepts them. |
| Tokenize.Runs | src/tokenize.js:80-96 | The fold's runs: every run is non-empty. There are no runs exactly for empty input. There are never more runs than characters. |
| Tokenize.RunsAreMaximal | src/tokenize.js:84-96 | The runs concatenate to the input, every run has one category, and neighbouring runs differ in category. |
| Tokenize.MaximalRunsUnique | src/tokenize.js:84-96 | Any two decompositions of one text into non-empty, one-category, neighbour-distinct runs are equal. So the fold's answer is the only correct one. |
| Tokenize.UniformInputIsOneRun | src/tokenize.js:81-95 | An input whose characters share one category gives exactly one run, the whole input. A single character is one case of this. |
| Tokenize.Detail | src/tokenize.js:98-100 | Detailed output has as many tokens as the plain output. Its values are exactly the plain runs, in order. Each is labelled with its run's category. |
| Tokenize.DetailedTokensAreMaximal | src/tokenize.js:98-100 | In detailed output, the values reproduce the input. Every character of a token has the token's category, and neighbouring tokens have different categories. |
| Tokenize.DetailAsWritten | src/tokenize.js:99 | Line 99 as written: each run is labelled with `getType` of the whole run text. Values are the plain runs, in order. |
| Tokenize.DetailAsWrittenOnSingleCharacters | src/tokenize.js:99 | When every run is one character long, line 99 as written agrees with `Detail`. |
| Tokenize.SpaceOnlyForOneCharacter | src/tokenize.js:36-37 | In full mode `getType` gives Space to no text whose length is not one. Both Space cases are exact one-character equality tests. |
| Tokenize.TwoSpacesRun | src/tokenize.js:84-96 | In full mode, two ASCII spaces form one run, of category Space. |
| Tokenize.TwoSpacesAsWritten | src/tokenize.js:99 | In full mode, `Detail` labels the Space run `"  "` (two ASCII spaces) Space. Line 99 as written never labels it Space, whatever the imported tests answer. |
| Tokenize.Tokenize | src/tokenize.js:76-102 | Absent or empty input gives the empty sequence. Otherwise the result is `Runs` of the input, or with `detailed`, `Detail` of those runs. The loop's invariants tie the finished runs, the current run and `prevType` to `Runs` of the prefix scanned so far. |

## Left out

- The imported tests `isCharEnglishPunctuation`, `isCharJapanesePunctuation`, `isCharRomaji`, `isCharKanji`, `isCharHiragana`, `isCharKatakana` and `isCharJapanese` (lines 3-9). Their code is not part of this model. They are arbitrary parameters, and nothing assumes they are disjoint or cover given Unicode ranges.
- The label strings of `TOKEN_TYPES` (line 1). `./constants` is not part of this model, so the datatype `Category` stands for them.
- `isEmpty` (line 2) is modelled as length 0.
- The UTF-16 decoding done by `[...input]` (line 80). The input is already a sequence of Unicode scalar values.
- Default arguments (`compact = false`, `detailed = false`). The options object is modelled as two booleans, and all four option combinations are explicit parameters. Two JavaScript behaviours are therefore not modelled:
  - the destructuring at line 76 throws a `TypeError` for `tokenize(s, null)`;
  - lines 22 and 98 treat any truthy value as true.
- The doc-comment examples (lines 63-74). They depend on the imported tests, so they are not stated.
- Tokenize: for empty input the model returns `Plain([])` whether or not `detailed` is set. In JavaScript both outputs are the same empty array.
- Tokenize: the in-place `shift` (line 81) and the pop-and-re-append (lines 90-91) are modelled as indexing from position 1 and as a separate current-run buffer. The list of runs at each step is the same.
- Tokenize: with `detailed`, each run is labelled with its first character's category (`Detail`), not with `getType` of the joined run as line 99 does. The two agree on one-character runs (`DetailAsWrittenOnSingleCharacters`) and differ on `"  "` (`TwoSpacesAsWritten`). Line 99 as written is `DetailAsWritten`.
- Detail: it requires every run to be non-empty. That holds for every list of runs the fold produces.

## Findings

| source | as written | input that shows it | evidently intended | confidence | as-written member | corrected member |
|---|---|---|---|---|---|---|
| src/tokenize.js:99 | The detailed category comes from `getType` applied to the whole joined run text. The space tests at lines 11-12 (and so lines 36-37) only accept a one-character string. | `tokenize('  ', { detailed: true })` (two ASCII spaces). The run `'  '` is a space run, but its type is never `space`, whatever the imported tests return. | Label each run with the category its characters share, which is the category of its first character. | high, not executed | Tokenize.TwoSpacesAsWritten | Tokenize.DetailedTokensAreMaximal |
