# Vigenère cipher and Kasiski attack over the Russian alphabet, in Dafny

This project models the two pure modules of a Russian-alphabet Vigenère cipher and of a
ciphertext-only attack on it, and proves properties of the model.

- `src/vigenere-cipher.ts` holds the cipher. It normalises text to the 32 letters `а`–`я` (`ё` folds
  to `е`) and checks the key's character set. It encrypts and decrypts by adding or subtracting key
  indices modulo 32, recording one trace entry per character. It groups output into blocks of five
  and computes letter frequencies.
- `src/vigenere.ts` holds the cryptanalysis:
  - the repeated n-gram search with pairwise distances (Kasiski examination);
  - the divisor-based key-length scoring;
  - the average index of coincidence over interleaved columns;
  - the per-column key-letter recovery against a fixed Russian frequency table;
  - the attack pipeline, which chooses a key length with an index-of-coincidence fallback sweep.

Modules, one per concern:

- `Alphabet`: the shared alphabet and the letter/index bijection.
- `Normalize`: both `preprocess` functions.
- `Grouping`: `groupByFive`.
- `Cipher`: encryption, decryption and the trace.
- `Counting`: occurrences of a character in a text, shared by both files.
- `LetterFrequencies`: `calculateCharacterFrequencies`.
- `Dicts`: JavaScript objects used as insertion-ordered dictionaries.
- `Repeats`: `findRepeats`.
- `KeyLength`: `findKeyLength`.
- `Columns`: the strided columns.
- `Coincidence`: `averageIOC`.
- `FrequencyTable`: `frequency`.
- `KeyRecovery`: `findKey`.
- `Attack`: `kasiskiAttack`.
- `Reals` and `Wrappers`: helpers.

Modelling choices:

- Floating-point ratios are exact `real`s.
- Thrown errors become `Result` failures.
- Progress callbacks become returned lists of events.

Two behaviours of the code are worth stating:

- On ties, `findKey` keeps the later letter: it reduces with `scores[a] > scores[b] ? a : b`
  (src/vigenere.ts:149), so a column with no letters yields `я`.
- The "no key length" error at src/vigenere.ts:224-227 is unreachable: a length is always chosen
  (`Attack.ChosenLength`).

## Model

| member | source | states |
|---|---|---|
| Alphabet.AlphabetLettersDistinct | src/vigenere.ts:2-3 | the 32 alphabet members are distinct letters, and a character is a letter exactly when it is listed |
| Alphabet.IndexOf | src/vigenere-cipher.ts:74-76 | for every letter `а`–`я`, `ALPHABET.indexOf` gives a position below 32 that holds that letter |
| Alphabet.LetterAt | src/vigenere-cipher.ts:79 | index lookup returns a letter whose index is the given index (the lookup inverts `indexOf`) |
| Normalize.PreprocessClosed | src/vigenere.ts:20-24 | normalised text consists of alphabet letters only and is no longer than the input |
| Normalize.PreprocessIdempotent | src/vigenere.ts:20-24 | normalising twice equals normalising once |
| Normalize.PreprocessAgree | src/vigenere-cipher.ts:32-42 | removing white space first and then non-letters gives the same result as the cryptanalysis `preprocess`, on every input |
| Normalize.PreprocessAppend | src/vigenere.ts:20-24 | normalisation distributes over concatenation |
| Normalize.PreprocessChar | src/vigenere.ts:20-24 | one character survives exactly when its lower-cased, `ё`-folded form is in `а`–`я`; white space is dropped, upper case is lowered and `ё`/`Ё` become `е` |
| Normalize.Preprocess | src/vigenere.ts:20-24 | no contract of its own; its meaning is proved by `Normalize.PreprocessChar`, `Normalize.PreprocessClosed`, `Normalize.PreprocessIdempotent` and `Normalize.PreprocessAppend` |
| Normalize.PreprocessCipher | src/vigenere-cipher.ts:32-42 | no contract of its own; `Normalize.PreprocessAgree` proves it equal to `Normalize.Preprocess` on every input |
| Cipher.CheckedKeyLosesOnlyWhitespace | src/vigenere-cipher.ts:5-12 | a key passing the charset check loses exactly its white-space characters to normalisation |
| Cipher.CharKeptOrWhitespace | src/vigenere-cipher.ts:5-12 | one character either survives normalisation or is white space, never both; one of the two holds exactly when the charset class `[а-яА-ЯёЁ\s]` admits it |
| Cipher.CheckedKeyByLength | src/vigenere-cipher.ts:5-12 | for every key, normalisation removes at least the key's white-space characters, and it removes exactly those if and only if the key passes the charset check |
| Cipher.CheckCyrillicAndSpaces | src/vigenere-cipher.ts:5-12 | no contract of its own; `Cipher.CheckedKeyByLength` characterises passing and failing it as an if-and-only-if, and `Cipher.KeyCharsetRejected` gives the error that failing it raises |
| Grouping.GroupByFiveLayout | src/vigenere-cipher.ts:56-58 | on text with no spaces and no line terminators (every caller passes normalised letters), the output has n + (n-1)/5 characters; position i is a space iff i % 6 == 5, and every other position holds input letter (i/6)*5 + i%6 |
| Grouping.GroupByFiveBlocks | src/vigenere-cipher.ts:56-58 | deleting the spaces gives back the input; there are exactly (n-1)/5 spaces and no leading or trailing space |
| Grouping.GroupByFiveLastBlock | src/vigenere-cipher.ts:56-58 | the last block holds between 1 and 5 letters and is the tail of the input |
| Grouping.GroupByFiveOnlyAddsSpaces | src/vigenere-cipher.ts:56-58 | on any text, the output is the input with spaces inserted: every input character, spaces included, is kept in order and only spaces are added, so deleting spaces before or after grouping gives the same text |
| Grouping.GroupByFiveExample | src/vigenere-cipher.ts:56-58 | nine letters `абвгдежзи` become `абвгд ежзи` |
| Grouping.GroupByFive | src/vigenere-cipher.ts:56-58 | no contract of its own; characterised by `Grouping.GroupByFiveOnlyAddsSpaces`, `Grouping.GroupByFiveLayout` and `Grouping.GroupByFiveBlocks` |
| Cipher.EncryptVigenere | src/vigenere-cipher.ts:60-98 | the function fails exactly when the key charset, the empty normalised text or the empty normalised key rule fires, in that order. On success, letter i has index (p_i + k_{i mod len}) % 32, and the trace has one entry per letter with the step, the characters, the indices, the operation and the formula |
| Cipher.DecryptVigenere | src/vigenere-cipher.ts:100-138 | the same error order; on success, letter i has index (c_i - k_{i mod len} + 32) % 32, every output letter is in the alphabet, and the trace is complete |
| Cipher.RunOutput | src/vigenere-cipher.ts:72-93 | ungrouped output length equals the normalised text length; each output letter and each trace entry satisfies the per-index formula |
| Cipher.CombineInverse | src/vigenere-cipher.ts:78 | adding then subtracting a key index modulo 32 returns the letter index, and so does subtracting then adding |
| Cipher.RenormaliseGrouped | src/vigenere-cipher.ts:38-40 | normalising grouped letters strips the grouping spaces and returns the letters |
| Cipher.EncryptDecryptRoundTrip | src/vigenere-cipher.ts:60-138 | decrypting a successful encryption with the same key gives the grouped normalised plaintext |
| Cipher.DecryptEncryptRoundTrip | src/vigenere-cipher.ts:60-138 | encrypting a successful decryption with the same key gives the grouped normalised ciphertext |
| Cipher.EmptyTextRejected | src/vigenere-cipher.ts:44-47 | for every charset-valid key and every text that normalises to nothing, both encryption and decryption fail with the empty-text error |
| Cipher.EmptyKeyRejected | src/vigenere-cipher.ts:50-53 | for every charset-valid key that normalises to nothing and every text with letters, both directions fail with the empty-key error |
| Cipher.KeyCharsetRejected | src/vigenere-cipher.ts:8-12 | for every text, empty ones included, a key that fails the charset check makes both directions fail with the charset error |
| Cipher.LatinKeyRejected | src/vigenere-cipher.ts:8-12 | for every text, empty ones included, a key holding a Latin letter of either case or a digit makes both directions fail with the charset error |
| Cipher.RejectionExamples | src/vigenere-cipher.ts:60-67 | on concrete inputs: `("", "ключ")` gives the empty-text error, `("привет", "")` the empty-key error, and `("", "key")` the charset error |
| LetterFrequencies.CalculateCharacterFrequencies | src/vigenere-cipher.ts:141-171 | exactly the 32 letters are keys; all values are 0 for empty normalised text; otherwise each value is count/length, in [0, 1] |
| LetterFrequencies.CountTableCounts | src/vigenere-cipher.ts:154-164 | the counting scan holds each letter's number of occurrences |
| LetterFrequencies.FrequenciesSumToOne | src/vigenere-cipher.ts:166-168 | over non-empty normalised text the 32 frequencies sum to exactly 1 |
| LetterFrequencies.CountsSumToLength | src/vigenere-cipher.ts:159-164 | over text drawn from a list of distinct letters, their counts add up to the text length |
| Repeats.FindRepeats | src/vigenere.ts:53-56 | the search fails exactly on empty text and otherwise returns a well-formed dictionary |
| Repeats.PairDistances | src/vigenere.ts:69-75 | k positions give k(k-1)/2 distances |
| Repeats.PairDistancesMembers | src/vigenere.ts:69-75 | a distance is recorded iff it is pos[j] - pos[i] for some i < j |
| Repeats.PositionsForGramAreOccurrences | src/vigenere.ts:60-65 | a gram is grouped iff it occurs, and the positions grouped under it are exactly its occurrence positions in scanning order |
| Repeats.FindRepeatsExact | src/vigenere.ts:58-77 | given distinct positive lengths, a gram is a key iff it has a listed length and occurs at least twice; its distances are those of all its occurrence pairs, k(k-1)/2 of them |
| Repeats.FindRepeatsSound | src/vigenere.ts:58-77 | for any positive lengths, repeated ones included: every key has a listed length and occurs in the text; every distance d has d <= n - \|gram\| and the gram occurs at some i and again at i + d, with d >= 1 |
| Repeats.FindRepeatsExample | src/vigenere.ts:53-80 | in `абабаб` at length 3, `аба` and `баб` each recur once at distance 2 |
| KeyLength.Score | src/vigenere.ts:96-102 | a candidate's score is a fraction in [0, 1] |
| KeyLength.FindKeyLength | src/vigenere.ts:82-109 | with no distances the result is empty. Otherwise it holds exactly the c in [2, maxLen] whose divisible fraction reaches the threshold, once each, ordered by non-increasing score with ties in ascending order |
| KeyLength.SortByScoreRanked | src/vigenere.ts:104-107 | the stable sort of an ascending table is ranked: higher scores first, and equal scores keep ascending order |
| KeyLength.MultiplesOfSix | src/vigenere.ts:95-105 | when every distance is a multiple of 6, candidate 6 scores 1 and is returned |
| Columns.ColumnSnoc | src/vigenere.ts:132 | appending a character extends exactly the column whose stride contains its position |
| Coincidence.Parts | src/vigenere.ts:33-36 | the `parts` scan puts into part j exactly the characters at positions j, j + keyLen, j + 2·keyLen, ... |
| Coincidence.TallyCounts | src/vigenere.ts:38-41 | `freqMap` holds exactly the characters of the part, each with its number of occurrences |
| Coincidence.PutPairs | src/vigenere.ts:40 | raising one tally count by 1 raises the per-key sum of cnt·(cnt-1) by twice the old count, whether the key is new or already present |
| Coincidence.DictPairs | src/vigenere.ts:45-47 | summing cnt·(cnt-1) over `Object.values(freqMap)` equals summing it over the keys in insertion order |
| Coincidence.TallyPairs | src/vigenere.ts:44-47 | the sum of cnt·(cnt-1) over `freqMap` equals the number of ordered pairs of distinct positions holding equal characters |
| Coincidence.EqualPairsBound | src/vigenere.ts:44-48 | a part of length L has at most L(L-1) equal ordered pairs |
| Coincidence.ColumnIOC | src/vigenere.ts:37-49 | the index is 0 for parts shorter than 2; otherwise it is equal pairs over L(L-1), in [0, 1] |
| Coincidence.AverageIOC | src/vigenere.ts:32-51 | the result is the mean over the keyLen strided columns of their indices of coincidence, in [0, 1] |
| FrequencyTable.SumRawValue | src/vigenere.ts:5-14 | the 32 raw percentages are positive and total 83.9 |
| FrequencyTable.FrequenciesSumToOne | src/vigenere.ts:14-18 | the 32 frequencies are positive and sum to exactly 1 |
| FrequencyTable.FrequencyIsTenths | src/vigenere.ts:14-18 | each frequency is the raw value in tenths over 839, so it orders letters as the raw table does |
| KeyRecovery.Shift | src/vigenere.ts:137-138 | the plaintext index a letter decrypts to under a key index re-encrypts to that letter |
| KeyRecovery.ScoresAreDirect | src/vigenere.ts:121-147 | the table-driven score of each key letter equals the sum, over the column's letters, of the reference frequency of the letter each decrypts to; non-letters are skipped |
| KeyRecovery.Reduce | src/vigenere.ts:149 | the reduce returns a maximal score, and every later letter scores strictly less (ties go to the later letter) |
| KeyRecovery.LastBestUnique | src/vigenere.ts:149 | the tie rule determines the letter uniquely |
| KeyRecovery.FindKey | src/vigenere.ts:111-157 | an empty message is rejected. Otherwise the key has max(0, keyLen) letters, each the last best shift of its column, with one progress event per position carrying (pos, keyLen, key prefix of length pos + 1) |
| KeyRecovery.EmptyColumnGivesYa | src/vigenere.ts:143-150 | a column with no letters yields key letter `я` |
| KeyRecovery.ScoreShift | src/vigenere.ts:132-147 | scoring is shift-equivariant: key index j + k0 on a column encrypted with k0 scores what j scores on the plaintext |
| KeyRecovery.RecoversShift | src/vigenere.ts:120-150 | if the plaintext column scores strictly best unshifted, the letter recovered from its encryption under k0 is k0 |
| Attack.MaxLenToTry | src/vigenere.ts:205 | the sweep bound lies in [1, 20] and is at least 2 exactly when the cleaned text has at least 6 letters |
| Attack.SelectOverFirstMax | src/vigenere.ts:192-201 | the strict `ioc > bestIoc` loop starting from -1 keeps the first maximal length and its IOC |
| Attack.SelectByIocFirstBest | src/vigenere.ts:192-201 | over candidate lengths the loop holds the first length of maximal average IOC |
| Attack.ChosenLength | src/vigenere.ts:189-227 | a length is always chosen, so the error at line 224 is unreachable. It lies in [1, 20] and is the first maximal-IOC candidate, or 1 below 6 letters, or the first maximal-IOC length of the sweep |
| Attack.ChooseKeyLength | src/vigenere.ts:189-222 | no contract of its own; `Attack.ChosenLength` proves that it always chooses a length, in [1, 20], as `Attack.ValidChoice` describes |
| Attack.PadEnd | src/vigenere.ts:232 | padding keeps the text as a prefix, fills with the pad character and reaches the requested length |
| Attack.KasiskiAttackOutcome | src/vigenere.ts:159-237 | the attack fails exactly when no letter survives normalisation, and then only with the empty-text error. Otherwise the key has the chosen length in [1, 20], each letter is the last best shift of its column, the first event is preprocessing and the last announces the key |
| Attack.KasiskiAttackProgress | src/vigenere.ts:170-235 | a letterless text reports only preprocessing and its failure; any other text succeeds, and its run opens with preprocessing, the repeat search and the length scoring. It continues with the length-choice notifications `Attack.SelectionEvents`: the candidate count and one check per candidate, or the sweep announcement followed by the too-short message, the no-range message or one check per swept length. It closes with the chosen length, the start of key recovery, one notification per key position showing the key so far padded with `○`, and the finished key |
| Attack.SelectionEvents | src/vigenere.ts:191-214 | no contract of its own; it lists, in source order, the notifications of the length choice that `Attack.KasiskiAttackProgress` places between the search phases and the length announcement |
| Attack.Candidates | src/vigenere.ts:184-187 | the candidates of the 3-, 4- and 5-gram repeat search, scored up to length 20 at threshold 0.5, all lie in [2, 20] |
| Attack.AttackLengthChoice | src/vigenere.ts:184-222 | the chosen length follows the candidate, short-text and sweep rules |
| Attack.KasiskiAttack | src/vigenere.ts:159-237 | no contract of its own; its outcome is stated by `Attack.KasiskiAttackOutcome` and its notification order by `Attack.KasiskiAttackProgress` |

## Left out

- Asynchrony is not modelled: the `async`/`await` structure, the 150 ms `setTimeout` in `reportProgress`, and
  `console.error`. Progress is a returned list of events, and its Russian message strings are
  replaced by constructors carrying the interpolated numbers and strings.
- The `typeof messageRaw !== 'string'` guard is left out, because Dafny's types make it unreachable.
- Lower-casing covers only the Cyrillic letters (`А`–`Я` and `Ё`). Every other character is
  removed by normalisation whatever its case, so full Unicode `toLowerCase` is not modelled.
- Strings are sequences of code points, not UTF-16 code units; the two agree on Cyrillic text.
- Floating-point rounding is not modelled. The IOC values, frequency table, divisibility scores and
  letter frequencies are exact reals, so a sum that rounds differently in IEEE-754, or a tie that
  rounding would break, is not represented.
- The `formula` string is a structured record (operation, two indices, result), not rendered text.
- `Dicts.Dict` is not modelled with JavaScript's integer-like key reordering or with collisions of
  keys with `Object.prototype` properties. The keys used are Cyrillic n-grams and letters.
- Default and optional arguments are not modelled: `seqLens = [3, 4, 5]`, `maxLen = 20` and
  `threshold = 0.5` are always passed explicitly, and the optional `onProgress` callbacks are
  replaced by the returned event lists, which are always produced.
- Arguments are integers: non-integer `keyLen`, `maxLen` or sequence lengths are not represented.
- Coincidence.AverageIOC: requires `keyLen >= 1`. For 0 the source divides 0 by 0, but every caller
  passes a length of at least 2.
- The error message texts are left out; errors are constructors.
- `src/main.ts` is not part of this model. It is UI bootstrap code.
