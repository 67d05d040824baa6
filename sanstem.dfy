/**
 * The suffix-stripping stemmer of `sanstem/SanskritStemmer.py`.
 *
 * A word goes through: strip surrounding whitespace, delete the danda and the
 * Devanagari digits, transliterate to Harvard-Kyoto, take the first suffix of
 * the configured list that ends the word and leaves a residue passing the
 * anti-overstemming guard, drop one trailing vowel and one trailing
 * future-tense fragment, and back-transliterate. When no suffix is accepted the
 * stripped input comes back unchanged. The verb entry point first asks a
 * language detector whether the word is Devanagari text.
 *
 * The transliteration library and the language detector are foreign code: they
 * are plain function values handed to the constructor, about which nothing is
 * assumed.
 */
module Sanstem {
  import opened Wrappers
  import opened PyStr

  // ---------------------------------------------------------------------------
  // Normalisation before transliteration
  // ---------------------------------------------------------------------------

  /** The danda and the ten Devanagari digits, which normalisation deletes. */
  const DroppedGlyphs: set<char> := {
    '\U{0964}',                                                 // danda
    '\U{0966}', '\U{0967}', '\U{0968}', '\U{0969}', '\U{096A}', // digits zero .. four
    '\U{096B}', '\U{096C}', '\U{096D}', '\U{096E}', '\U{096F}'  // digits five .. nine
  }

  /**
   * The regular-expression substitution applied before transliteration: every
   * dropped glyph is deleted, and a word without one is left as it is.
   */
  function Normalize(word: string): (r: string)
    ensures forall i :: 0 <= i < |r| ==> r[i] !in DroppedGlyphs
    ensures (forall i :: 0 <= i < |word| ==> word[i] !in DroppedGlyphs) ==> r == word
  {
    if word == [] then []
    else (if word[0] in DroppedGlyphs then [] else [word[0]]) + Normalize(word[1..])
  }

  // ---------------------------------------------------------------------------
  // Vowels and the anti-overstemming guard
  // ---------------------------------------------------------------------------

  /** The ten vowel letters of the stemmer, in both cases. */
  const Vowels: seq<char> := ['a', 'e', 'i', 'o', 'u', 'A', 'E', 'I', 'O', 'U']

  predicate IsVowel(c: char)
  {
    c in Vowels
  }

  /** Some letter of the vowel list occurs in `s`. */
  predicate HasVowel(s: string)
  {
    exists v :: v in Vowels && v in s
  }

  /**
   * The anti-overstemming guard on the residue left by a suffix: either it is
   * longer than two characters, or it contains a vowel.
   */
  predicate PassesGuard(residue: string)
    ensures |residue| > 2 ==> PassesGuard(residue)
    ensures residue == [] ==> !PassesGuard(residue)
    ensures |residue| <= 2 ==>
              (PassesGuard(residue) <==> exists i :: 0 <= i < |residue| && IsVowel(residue[i]))
  {
    (|residue| <= 2 && HasVowel(residue)) || |residue| > 2
  }

  /**
   * Deletes one trailing vowel. The result is the word itself or the word
   * without its last character, and it is the shorter one exactly when that
   * last character is a vowel.
   */
  function RemoveLastVowel(word: string): (r: string)
    ensures r <= word && |word| - 1 <= |r|
    ensures r != word <==> |word| > 0 && IsVowel(word[|word| - 1])
  {
    if |word| > 0 && IsVowel(word[|word| - 1]) then word[..|word| - 1] else word
  }

  // ---------------------------------------------------------------------------
  // Future-tense fragments
  // ---------------------------------------------------------------------------

  /** The trailing fragments removed after the vowel, in pattern order. */
  const FutureFragments: seq<string> := ["iSy", "iSya", "iSye", "isyA"]

  /**
   * Removes the first ending of `endings` that ends `word`, if any. The result
   * is a prefix of `word`; it is `word` itself exactly when no ending ends
   * `word`, and otherwise `word` is the result followed by one of the endings.
   */
  function RemoveFirstEnding(word: string, endings: seq<string>): (r: string)
    requires forall e :: e in endings ==> e != []
    ensures r <= word
    ensures r == word <==> forall e :: e in endings ==> !EndsWith(word, e)
    ensures r != word ==> exists e :: e in endings && word == r + e
  {
    if endings == [] then word
    else if EndsWith(word, endings[0]) then
      assert endings[0] in endings;
      word[..|word| - |endings[0]|]
    else
      assert forall e :: e in endings[1..] ==> e in endings;
      RemoveFirstEnding(word, endings[1..])
  }

  /**
   * The substitution that deletes one trailing future-tense fragment. The
   * result is a prefix at most four characters shorter than `word`; it is
   * `word` itself exactly when no fragment ends `word`, and otherwise `word` is
   * the result followed by one fragment.
   */
  function RemoveFutureFragment(word: string): (r: string)
    ensures r <= word && |word| - 4 <= |r|
    ensures r == word <==> forall e :: e in FutureFragments ==> !EndsWith(word, e)
    ensures r != word ==> exists e :: e in FutureFragments && word == r + e
  {
    RemoveFirstEnding(word, FutureFragments)
  }

  // ---------------------------------------------------------------------------
  // Suffix scan
  // ---------------------------------------------------------------------------

  /** What is left of `trans` once `suffix`, which ends it, is cut off. */
  function Residue(trans: string, suffix: string): string
    requires EndsWith(trans, suffix)
  {
    trans[..|trans| - |suffix|]
  }

  /** `suffix` ends `trans` and the residue it leaves passes the guard. */
  predicate Accepts(trans: string, suffix: string)
  {
    EndsWith(trans, suffix) && PassesGuard(Residue(trans, suffix))
  }

  /**
   * The index of the first suffix, from position `from` on, that `trans`
   * accepts. Every suffix before it, including one that ends `trans` but leaves
   * a residue the guard rejects, is passed over; `None` means no suffix from
   * `from` on is accepted.
   */
  function FirstAccepted(trans: string, suffixes: seq<string>, from: nat): (r: Option<nat>)
    requires from <= |suffixes|
    ensures r.Some? ==> from <= r.value < |suffixes| && Accepts(trans, suffixes[r.value])
    ensures r.Some? ==> forall j :: from <= j < r.value ==> !Accepts(trans, suffixes[j])
    ensures r.None? ==> forall j :: from <= j < |suffixes| ==> !Accepts(trans, suffixes[j])
    decreases |suffixes| - from
  {
    if from == |suffixes| then None
    else if Accepts(trans, suffixes[from]) then Some(from)
    else FirstAccepted(trans, suffixes, from + 1)
  }

  /** An accepted suffix preceded only by rejected ones is the one the scan picks. */
  lemma FirstAcceptedIsFirst(trans: string, suffixes: seq<string>, k: nat)
    requires k < |suffixes| && Accepts(trans, suffixes[k])
    requires forall j :: 0 <= j < k ==> !Accepts(trans, suffixes[j])
    ensures FirstAccepted(trans, suffixes, 0) == Some(k)
  {
  }

  /**
   * The scan loop of both entry points: walks the suffixes in list order and
   * stops at the first one that ends `trans` and leaves a residue passing the
   * guard. A suffix that ends `trans` but fails the guard does not stop the
   * scan. On success `transStemmed` is the residue of the chosen suffix; on
   * failure it is still empty.
   */
  method ScanSuffixes(trans: string, suffixes: seq<string>)
    returns (stemmingSuccess: bool, transStemmed: string)
    ensures stemmingSuccess <==> FirstAccepted(trans, suffixes, 0).Some?
    ensures stemmingSuccess ==>
      var k := FirstAccepted(trans, suffixes, 0).value;
      transStemmed == Residue(trans, suffixes[k]) && PassesGuard(transStemmed)
    ensures !stemmingSuccess ==> transStemmed == ""
  {
    transStemmed := "";
    stemmingSuccess := false;
    for k := 0 to |suffixes|
      invariant !stemmingSuccess && transStemmed == ""
      invariant forall j :: 0 <= j < k ==> !Accepts(trans, suffixes[j])
    {
      var suffix := suffixes[k];
      if EndsWith(trans, suffix) {
        var temp := trans[..|trans| - |suffix|];
        if PassesGuard(temp) {
          transStemmed := temp;
          stemmingSuccess := true;
          assert Accepts(trans, suffix) && temp == Residue(trans, suffix);
          FirstAcceptedIsFirst(trans, suffixes, k);
          break;
        }
      }
    }
  }

  /**
   * The two trims applied to an accepted residue: one vowel, then one
   * fragment. The result is a prefix of the residue at most five characters
   * shorter, and it is the residue itself exactly when the residue neither
   * ends in a vowel nor ends with a fragment.
   */
  function TrimStem(residue: string): (r: string)
    ensures r <= residue && |residue| - 5 <= |r|
    ensures r == residue <==>
              && (residue == [] || !IsVowel(residue[|residue| - 1]))
              && forall e :: e in FutureFragments ==> !EndsWith(residue, e)
  {
    RemoveFutureFragment(RemoveLastVowel(residue))
  }

  /**
   * The Harvard-Kyoto stem handed to back-transliteration, or `None` when no
   * suffix is accepted. A stem is a prefix of `trans` shorter by at least the
   * length of some accepted suffix.
   */
  function HkStem(trans: string, suffixes: seq<string>): (r: Option<string>)
    ensures r.None? <==> forall j :: 0 <= j < |suffixes| ==> !Accepts(trans, suffixes[j])
    ensures r.Some? ==> r.value <= trans
    ensures r.Some? ==> exists k :: 0 <= k < |suffixes| && Accepts(trans, suffixes[k])
                                   && |r.value| + |suffixes[k]| <= |trans|
  {
    match FirstAccepted(trans, suffixes, 0)
    case Some(k) => Some(TrimStem(Residue(trans, suffixes[k])))
    case None => None
  }

  // ---------------------------------------------------------------------------
  // The stemmer object
  // ---------------------------------------------------------------------------

  /** The transliteration library: Devanagari to Harvard-Kyoto and back. */
  datatype DevaTrans = DevaTrans(transliterate: string -> string, backTransliterate: string -> string)

  /** Raised by the verb entry point when the word is not taken for Devanagari text. */
  datatype InputLanguageError = InputLanguageError(message: string)

  /** One record of a configuration file, as its fields. */
  type CsvRow = seq<string>

  /** `column` holds the first field of every row, in row order. */
  ghost predicate IsFirstColumn(column: seq<string>, rows: seq<CsvRow>)
  {
    && |column| == |rows|
    && forall i :: 0 <= i < |rows| ==> |rows[i]| > 0 && column[i] == rows[i][0]
  }

  /** The loop that appends `row[0]` of every record to a configuration list. */
  method ReadFirstColumn(rows: seq<CsvRow>) returns (column: seq<string>)
    requires forall i :: 0 <= i < |rows| ==> |rows[i]| > 0
    ensures IsFirstColumn(column, rows)
  {
    column := [];
    for i := 0 to |rows|
      invariant |column| == i
      invariant forall j :: 0 <= j < i ==> column[j] == rows[j][0]
    {
      column := column + [rows[i][0]];
    }
  }

  class SanskritStemmer {
    const dt: DevaTrans
    const detectLanguage: string -> string
    const verbSuffixList: seq<string>
    const nounSuffixList: seq<string>
    const devanagariLanguageList: seq<string>

    /**
     * Builds the three configuration lists from the records of the verb-suffix,
     * noun-suffix and Devanagari-language files, keeping record order and the
     * first field of each record.
     */
    constructor (dt: DevaTrans, detectLanguage: string -> string,
                 verbRows: seq<CsvRow>, nounRows: seq<CsvRow>, languageRows: seq<CsvRow>)
      requires forall i :: 0 <= i < |verbRows| ==> |verbRows[i]| > 0
      requires forall i :: 0 <= i < |nounRows| ==> |nounRows[i]| > 0
      requires forall i :: 0 <= i < |languageRows| ==> |languageRows[i]| > 0
      ensures this.dt == dt && this.detectLanguage == detectLanguage
      ensures IsFirstColumn(verbSuffixList, verbRows)
      ensures IsFirstColumn(nounSuffixList, nounRows)
      ensures IsFirstColumn(devanagariLanguageList, languageRows)
    {
      this.dt := dt;
      this.detectLanguage := detectLanguage;
      var verbs := ReadFirstColumn(verbRows);
      var nouns := ReadFirstColumn(nounRows);
      var languages := ReadFirstColumn(languageRows);
      verbSuffixList, nounSuffixList, devanagariLanguageList := verbs, nouns, languages;
    }

    /** The detected language name is one of the configured Devanagari languages. */
    predicate IsDevanagariText(word: string)
    {
      detectLanguage(word) in devanagariLanguageList
    }

    function TransliterateDevanagariToHk(word: string): string
    {
      dt.transliterate(Normalize(word))
    }

    function BackTransliterateHkToDevanagari(word: string): string
    {
      dt.backTransliterate(word)
    }

    /**
     * The algorithm shared by both entry points, for a suffix list: the
     * back-transliterated stem when a suffix is accepted, the stripped word
     * otherwise.
     */
    function Stem(suffixes: seq<string>, word: string): (r: string)
      ensures (forall j :: 0 <= j < |suffixes| ==>
                 !Accepts(TransliterateDevanagariToHk(Strip(word)), suffixes[j])) ==> r == Strip(word)
      ensures r != Strip(word) ==>
                exists stem :: stem <= TransliterateDevanagariToHk(Strip(word))
                               && r == BackTransliterateHkToDevanagari(stem)
    {
      var stripped := Strip(word);
      match HkStem(TransliterateDevanagariToHk(stripped), suffixes)
      case Some(stem) => BackTransliterateHkToDevanagari(stem)
      case None => stripped
    }

    /**
     * Stems a verb. Fails with an `InputLanguageError` exactly when the
     * stripped word is not taken for Devanagari text; otherwise returns the
     * shared algorithm's result for the verb-suffix list.
     */
    method VerbStem(sanskritVerb: string) returns (result: Result<string, InputLanguageError>)
      ensures result.Failure? <==> !IsDevanagariText(Strip(sanskritVerb))
      ensures result.Success? ==> result.value == Stem(verbSuffixList, sanskritVerb)
    {
      var word := Strip(sanskritVerb);
      if !IsDevanagariText(word) {
        result := Failure(InputLanguageError("Please check if the input is a Devanagari string"));
      } else {
        var trans := TransliterateDevanagariToHk(word);
        var stemmingSuccess, transStemmed := ScanSuffixes(trans, verbSuffixList);
        var backTrans: string;
        if stemmingSuccess {
          transStemmed := RemoveLastVowel(transStemmed);
          transStemmed := RemoveFutureFragment(transStemmed);
          backTrans := BackTransliterateHkToDevanagari(transStemmed);
        } else {
          backTrans := word;
        }
        result := Success(backTrans);
      }
    }

    /**
     * Stems a noun: the shared algorithm for the noun-suffix list. The language
     * detector is never consulted.
     */
    method NounStem(sanskritNoun: string) returns (backTrans: string)
      ensures backTrans == Stem(nounSuffixList, sanskritNoun)
    {
      var word := Strip(sanskritNoun);
      var trans := TransliterateDevanagariToHk(word);
      var stemmingSuccess, transStemmed := ScanSuffixes(trans, nounSuffixList);
      if stemmingSuccess {
        transStemmed := RemoveLastVowel(transStemmed);
        transStemmed := RemoveFutureFragment(transStemmed);
        backTrans := BackTransliterateHkToDevanagari(transStemmed);
      } else {
        backTrans := word;
      }
    }
  }
}
