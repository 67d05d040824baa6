# sanstem: the Sanskrit suffix stemmer, modelled in Dafny

This project models the stemmer class `SanskritStemmer` of the `sanstem`
package. The stemmer reduces an inflected Sanskrit verb or noun, written in
Devanagari, to an approximate stem:

1. Strip the surrounding whitespace (`str.strip()`).
2. Delete every danda and every Devanagari digit.
3. Transliterate to the Harvard-Kyoto convention.
4. Walk the configured suffix list in list order. Take the first suffix that
   ends the word and leaves a residue that passes the anti-overstemming guard.
   The guard accepts a residue that is longer than two characters or that
   contains one of the ten vowel letters.
5. If a suffix was taken, remove one trailing vowel from the residue, then one
   trailing future-tense fragment (`iSy`, `iSya`, `iSye`, `isyA`), and
   back-transliterate.
6. Otherwise return the stripped input unchanged.

`VerbStem` first asks the language detector about the stripped word. It fails
with `InputLanguageError` when the reported language is not in the configured
Devanagari list. `NounStem` never asks the detector.

Files:

- `wrappers.dfy`, module `Wrappers`: `Option` and `Result`.
- `pystr.dfy`, module `PyStr`: Python's `str.strip()` and `str.endswith`.
  Whitespace is the set of code points for which `str.isspace()` holds.
- `sanstem.dfy`, module `Sanstem`: the pure steps as functions. It also holds
  the class `SanskritStemmer`, with its constructor and the two entry points as
  methods.
  - The constructor builds the three configuration lists with a loop
    (`ReadFirstColumn`).
  - The suffix scan is a loop with an early `break` (`ScanSuffixes`). Both entry
    points call it, because they run the same scan over different lists.
  - Each method is proved against the specification functions `FirstAccepted`,
    `HkStem` and `SanskritStemmer.Stem`.
- `properties.dfy`, module `StemmerProperties`: lemmas and two client methods
  relating the pieces.

External services are function values given to the constructor, and nothing
is assumed about them:

- `DevaTrans.transliterate` and `DevaTrans.backTransliterate` stand for the
  DevaTrans library. They are not assumed to round-trip.
- `detectLanguage` stands for polyglot's `Detector(word).language.name`.

The three CSV files are given as their records (`seq<CsvRow>`).

The class has three helpers (`sanstem/SanskritStemmer.py:84-93`), and they
carry no contract of their own:

- `SanskritStemmer.IsDevanagariText` tests whether the detector's language
  name is in the configured Devanagari list (`sanstem/SanskritStemmer.py:86`).
- `TransliterateDevanagariToHk` applies `Normalize` and then the transliterator
  (`sanstem/SanskritStemmer.py:89-90`).
- `BackTransliterateHkToDevanagari` calls the back-transliterator
  (`sanstem/SanskritStemmer.py:93`).

Notes on what the code does:

- A suffix that ends the word but whose residue fails the guard does not stop
  the scan. The `break` sits inside the guard branch, so the next suffix is
  tried (`sanstem/SanskritStemmer.py:124-127`;
  `StemmerProperties.GuardRejectionContinuesScan`).
- When no suffix is accepted, the value returned is the whitespace-stripped
  input, not the raw input (`sanstem/SanskritStemmer.py:113`, `:134`).
- `remove_last_vowel` removes one trailing vowel and is called once, so a stem
  can still end in a vowel (`sanstem/SanskritStemmer.py:95-96`, `:130`;
  `StemmerProperties.StemMayEndInVowel`).
- The guard looks at the residue before the two trims, so the stem handed to
  back-transliteration can be empty (`sanstem/SanskritStemmer.py:124-131`;
  `StemmerProperties.StemMayBeEmpty`).

## Model

| member | source | states |
|---|---|---|
| `PyStr.SkipSpaceForward` | sanstem/SanskritStemmer.py:113 | the left scan of `strip()`: everything it passes over is whitespace, and it stops at the end or at a character that is not whitespace |
| `PyStr.SkipSpaceBackward` | sanstem/SanskritStemmer.py:152 | the right scan of `strip()`: everything it passes over is whitespace, and it stops at its lower bound or just after a character that is not whitespace |
| `PyStr.Strip` | sanstem/SanskritStemmer.py:113 | the stripped word is no longer than the input and neither starts nor ends with whitespace |
| `PyStr.StripKeepsSlice` | sanstem/SanskritStemmer.py:152 | the stripped word is a contiguous slice of the input with only whitespace before and after it |
| `StemmerProperties.StripWithoutSurroundingSpace` | sanstem/SanskritStemmer.py:152 | a word without leading or trailing whitespace is unchanged by stripping |
| `StemmerProperties.StripIdempotent` | sanstem/SanskritStemmer.py:113 | stripping twice equals stripping once |
| `PyStr.EndsWith` | sanstem/SanskritStemmer.py:122 | a word that ends with a suffix is the text before the suffix followed by the suffix |
| `PyStr.EndsWithConcat` | sanstem/SanskritStemmer.py:122 | conversely, any text followed by a suffix ends with that suffix |
| `Sanstem.Normalize` | sanstem/SanskritStemmer.py:89 | no danda or Devanagari digit is left, and a word without them is returned unchanged |
| `StemmerProperties.NormalizeConcat` | sanstem/SanskritStemmer.py:89 | normalisation distributes over concatenation, so kept characters stay in their order |
| `StemmerProperties.NormalizeCounts` | sanstem/SanskritStemmer.py:89 | every occurrence of the eleven glyphs is deleted, and every other character keeps its count |
| `Sanstem.RemoveLastVowel` | sanstem/SanskritStemmer.py:95-96 | the result is a prefix at most one shorter than the word, and it is shorter exactly when the last character is one of the ten vowels |
| `Sanstem.PassesGuard` | sanstem/SanskritStemmer.py:124 | every residue longer than two characters passes, the empty residue never does, and a residue of one or two characters passes exactly when one of its characters is a vowel |
| `Sanstem.RemoveFirstEnding` | sanstem/SanskritStemmer.py:131 | the result is a prefix; it equals the word exactly when no fragment ends it, and otherwise the word is the result followed by one fragment |
| `Sanstem.RemoveFutureFragment` | sanstem/SanskritStemmer.py:131 | the result is a prefix at most four characters shorter; it equals the word exactly when no future-tense fragment ends it, and otherwise the word is the result followed by one fragment |
| `StemmerProperties.FutureFragmentsExclusive` | sanstem/SanskritStemmer.py:131 | at most one of the four future-tense fragments ends any word, so the pattern's alternative order does not matter |
| `StemmerProperties.FutureFragmentRemoved` | sanstem/SanskritStemmer.py:131 | whichever fragment ends the word is the one removed |
| `Sanstem.FirstAccepted` | sanstem/SanskritStemmer.py:121-127 | the chosen index is a suffix that ends the word with a residue passing the guard, and every earlier suffix fails to end the word or fails the guard; `None` means no suffix is accepted |
| `Sanstem.FirstAcceptedIsFirst` | sanstem/SanskritStemmer.py:121-127 | an accepted suffix preceded only by rejected ones is exactly the one the scan chooses |
| `Sanstem.ScanSuffixes` | sanstem/SanskritStemmer.py:121-127 | the loop succeeds exactly when some suffix is accepted, and then stores the residue of the first accepted suffix, which passes the guard; otherwise the stored stem stays empty |
| `Sanstem.TrimStem` | sanstem/SanskritStemmer.py:130-131 | the trimmed stem is a prefix of the residue at most five characters shorter, and it equals the residue exactly when the residue neither ends in a vowel nor ends with a future-tense fragment |
| `Sanstem.HkStem` | sanstem/SanskritStemmer.py:121-131 | there is no stem exactly when no suffix is accepted; a stem is a prefix of the transliterated word, shorter by at least the length of some accepted suffix |
| `StemmerProperties.GuardRejectionContinuesScan` | sanstem/SanskritStemmer.py:121-127 | with `["ati", "ti"]` and `gati`, `ati` matches but leaves the bare `g`, so the scan goes on and takes `ti`, giving the stem `g` |
| `StemmerProperties.EarlierAcceptedSuffixWins` | sanstem/SanskritStemmer.py:121-127 | a suffix accepted at position a keeps every later suffix from being chosen: list order is priority |
| `StemmerProperties.StemIsTrimmedPrefix` | sanstem/SanskritStemmer.py:123-131 | on success the word is residue plus the chosen suffix, and the residue passes the guard; the stem is the residue minus at most one vowel and then at most one future fragment, so it is a prefix of the transliterated word |
| `StemmerProperties.StemMayEndInVowel` | sanstem/SanskritStemmer.py:130 | the residue `paa` becomes the stem `pa`: only one trailing vowel is removed |
| `StemmerProperties.StemMayBeEmpty` | sanstem/SanskritStemmer.py:124-131 | the residue `iSya` passes the guard and the trims reduce it to the empty stem |
| `StemmerProperties.UnstemmedWordComesBackStripped` | sanstem/SanskritStemmer.py:129-134 | when no suffix is accepted, the result is the stripped input whatever the transliteration does; a word without surrounding whitespace comes back exactly |
| `Sanstem.ReadFirstColumn` | sanstem/SanskritStemmer.py:75-82 | the list holds the first field of every record, in record order |
| `Sanstem.SanskritStemmer.constructor` | sanstem/SanskritStemmer.py:58-82 | the three lists are the first columns of their files in record order, and the transliterator and detector are the given ones |
| `Sanstem.SanskritStemmer.Stem` | sanstem/SanskritStemmer.py:113-134 | when no suffix is accepted the result is the stripped word; any other result is the back-transliteration of a prefix of the transliterated word |
| `Sanstem.SanskritStemmer.VerbStem` | sanstem/SanskritStemmer.py:98-136 | fails with `InputLanguageError` exactly when the detected language of the stripped word is not in the Devanagari list; otherwise returns the shared algorithm's result for the verb list |
| `Sanstem.SanskritStemmer.NounStem` | sanstem/SanskritStemmer.py:138-171 | returns the shared algorithm's result for the noun list, with no language check |
| `StemmerProperties.VerbAndNounAgree` | sanstem/SanskritStemmer.py:120-136 | with equal verb and noun lists and a word that passes the gate, the verb and noun stems are equal |
| `StemmerProperties.NounStemIgnoresDetector` | sanstem/SanskritStemmer.py:152-171 | two stemmers with the same transliterator and noun list stem every noun alike, whatever their detectors and language lists |

## Left out

- Transliteration and back-transliteration are function values with no
  contract. The model does not assume they round-trip, so it proves nothing
  about the Devanagari text returned on success beyond its being the
  back-transliteration of the Harvard-Kyoto stem.
- Language detection is a function value from text to a language name.
  polyglot's statistics, its exceptions for text it cannot classify, and the
  logger set-up are not modelled.
- File opening, CSV parsing and the package-relative paths are I/O. The
  constructor takes each file's records instead.
- `Sanstem.SanskritStemmer.constructor`: requires every record to have at
  least one field. On an empty record the source raises `IndexError` at
  `row[0]`, and that crash is not modelled.
- A regular expression's `$` also matches before a final newline. The model
  treats `$` as the end of the string.
- The model does not show that the transliteration step is skipped when the
  language check fails. Transliteration has no observable effect in the model.
