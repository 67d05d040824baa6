/**
 * Properties of the stemmer that relate several calls or hold for all inputs.
 */
module StemmerProperties {
  import opened Wrappers
  import opened PyStr
  import opened Sanstem

  // ---------------------------------------------------------------------------
  // Whitespace stripping
  // ---------------------------------------------------------------------------

  /** A word that neither starts nor ends with whitespace is its own strip. */
  lemma StripWithoutSurroundingSpace(s: string)
    requires s == [] || (!IsSpace(s[0]) && !IsSpace(s[|s| - 1]))
    ensures Strip(s) == s
  {
    assert SkipSpaceForward(s, 0) == 0;
    assert SkipSpaceBackward(s, 0, |s|) == |s|;
    assert s[0..|s|] == s;
  }

  /** Stripping twice is stripping once. */
  lemma StripIdempotent(s: string)
    ensures Strip(Strip(s)) == Strip(s)
  {
    StripWithoutSurroundingSpace(Strip(s));
  }

  // ---------------------------------------------------------------------------
  // Normalisation
  // ---------------------------------------------------------------------------

  /** Normalisation works character by character, so it keeps the order of what it keeps. */
  lemma {:induction false} NormalizeConcat(a: string, b: string)
    ensures Normalize(a + b) == Normalize(a) + Normalize(b)
  {
    if a == [] {
      assert a + b == b;
    } else {
      assert (a + b)[0] == a[0];
      assert (a + b)[1..] == a[1..] + b;
      NormalizeConcat(a[1..], b);
    }
  }

  /**
   * Every occurrence of a dropped glyph is deleted and every other character
   * keeps its number of occurrences.
   */
  lemma {:induction false} NormalizeCounts(word: string, c: char)
    ensures multiset(Normalize(word))[c] == if c in DroppedGlyphs then 0 else multiset(word)[c]
  {
    if word != [] {
      NormalizeCounts(word[1..], c);
      var head := if word[0] in DroppedGlyphs then [] else [word[0]];
      assert word == [word[0]] + word[1..];
      assert multiset(word) == multiset([word[0]]) + multiset(word[1..]);
      assert Normalize(word) == head + Normalize(word[1..]);
      assert multiset(Normalize(word)) == multiset(head) + multiset(Normalize(word[1..]));
    }
  }

  // ---------------------------------------------------------------------------
  // Future-tense fragments
  // ---------------------------------------------------------------------------

  /** A word ends in the last character of any non-empty suffix it ends with. */
  lemma LastOfEnding(word: string, suffix: string)
    requires EndsWith(word, suffix) && suffix != []
    ensures word[|word| - 1] == suffix[|suffix| - 1]
  {
    assert word[|word| - |suffix|..][|suffix| - 1] == word[|word| - 1];
  }

  /**
   * The four fragments end in four different letters, so at most one of them
   * ends a given word: which alternative of the pattern is tried first never
   * matters.
   */
  lemma FutureFragmentsExclusive(word: string, i: nat, j: nat)
    requires i < |FutureFragments| && j < |FutureFragments|
    requires EndsWith(word, FutureFragments[i]) && EndsWith(word, FutureFragments[j])
    ensures i == j
  {
    var fi, fj := FutureFragments[i], FutureFragments[j];
    LastOfEnding(word, fi);
    LastOfEnding(word, fj);
    assert fi[|fi| - 1] == fj[|fj| - 1];
  }

  /** Whichever fragment ends the word is the one removed. */
  lemma FutureFragmentRemoved(word: string, i: nat)
    requires i < |FutureFragments| && EndsWith(word, FutureFragments[i])
    ensures RemoveFutureFragment(word) + FutureFragments[i] == word
  {
    var r := RemoveFutureFragment(word);
    assert FutureFragments[i] in FutureFragments;
    assert r != word;
    var e :| e in FutureFragments && word == r + e;
    var j :| 0 <= j < |FutureFragments| && FutureFragments[j] == e;
    assert word[|word| - |e|..] == e;
    FutureFragmentsExclusive(word, i, j);
  }

  // ---------------------------------------------------------------------------
  // Suffix scan and guard
  // ---------------------------------------------------------------------------

  /**
   * A suffix that ends the word but leaves a residue the guard rejects does
   * not end the scan: with the list ["ati", "ti"] and the word "gati", "ati"
   * matches but leaves the bare "g", so "ti" is taken and the stem is "g"
   * (the residue "ga" without its vowel).
   */
  lemma GuardRejectionContinuesScan()
    ensures EndsWith("gati", "ati") && !PassesGuard(Residue("gati", "ati"))
    ensures FirstAccepted("gati", ["ati", "ti"], 0) == Some(1)
    ensures HkStem("gati", ["ati", "ti"]) == Some("g")
  {
    var suffixes := ["ati", "ti"];
    assert Residue("gati", "ati") == "g";
    assert !HasVowel("g") by {
      forall v | v in Vowels ensures v !in "g" { }
    }
    assert Residue("gati", "ti") == "ga";
    assert 'a' in Vowels && 'a' in "ga";
    assert Accepts("gati", suffixes[1]);
    FirstAcceptedIsFirst("gati", suffixes, 1);
    assert RemoveLastVowel("ga") == "g";
    assert RemoveFutureFragment("g") == "g";
  }

  /**
   * List order is priority: a suffix accepted at position `a` keeps every later
   * suffix, such as a shorter one that ends it, from being chosen.
   */
  lemma EarlierAcceptedSuffixWins(trans: string, suffixes: seq<string>, a: nat)
    requires a < |suffixes| && Accepts(trans, suffixes[a])
    ensures FirstAccepted(trans, suffixes, 0).Some?
    ensures FirstAccepted(trans, suffixes, 0).value <= a
  {
  }

  /** How the stem handed to back-transliteration is cut out of the residue. */
  predicate TrimmedBy(residue: string, stem: string, fragment: string, vowel: string)
  {
    && residue == stem + fragment + vowel
    && (vowel == [] || (|vowel| == 1 && IsVowel(vowel[0])))
    && (fragment == [] || fragment in FutureFragments)
  }

  /** The vowel step leaves the word as the trimmed word followed by at most one vowel. */
  lemma RemovedVowel(word: string) returns (vowel: string)
    ensures word == RemoveLastVowel(word) + vowel
    ensures vowel == [] || (|vowel| == 1 && IsVowel(vowel[0]))
  {
    vowel := word[|RemoveLastVowel(word)|..];
  }

  /** The fragment step leaves the word as the trimmed word followed by at most one fragment. */
  lemma RemovedFragment(word: string) returns (fragment: string)
    ensures word == RemoveFutureFragment(word) + fragment
    ensures fragment == [] || fragment in FutureFragments
  {
    var r := RemoveFutureFragment(word);
    if r == word {
      fragment := [];
    } else {
      fragment :| fragment in FutureFragments && word == r + fragment;
    }
  }

  /**
   * On success the transliterated word is the chosen suffix preceded by a
   * residue that passes the guard, and the stem is that residue with at most
   * one trailing vowel and then at most one future-tense fragment removed; in
   * particular the stem is a prefix of the transliterated word.
   */
  lemma StemIsTrimmedPrefix(trans: string, suffixes: seq<string>)
    requires HkStem(trans, suffixes).Some?
    ensures var k := FirstAccepted(trans, suffixes, 0).value;
            var residue := Residue(trans, suffixes[k]);
            var stem := HkStem(trans, suffixes).value;
            && trans == residue + suffixes[k]
            && PassesGuard(residue)
            && stem <= residue <= trans
            && exists fragment, vowel :: TrimmedBy(residue, stem, fragment, vowel)
  {
    var k := FirstAccepted(trans, suffixes, 0).value;
    var residue := Residue(trans, suffixes[k]);
    var stem := HkStem(trans, suffixes).value;
    assert trans == residue + suffixes[k];
    var vowel := RemovedVowel(residue);
    var fragment := RemovedFragment(RemoveLastVowel(residue));
    assert stem == RemoveFutureFragment(RemoveLastVowel(residue));
    assert TrimmedBy(residue, stem, fragment, vowel);
  }

  /**
   * Only one trailing vowel is removed: the residue "paa" left by "ti" in
   * "paati" becomes the stem "pa", which still ends in a vowel.
   */
  lemma StemMayEndInVowel()
    ensures HkStem("paati", ["ti"]) == Some("pa")
  {
    var trans, suffixes := "paati", ["ti"];
    assert EndsWith(trans, suffixes[0]);
    assert Residue(trans, suffixes[0]) == "paa";
    assert PassesGuard("paa");
    FirstAcceptedIsFirst(trans, suffixes, 0);
    assert RemoveLastVowel("paa") == "pa";
    forall e | e in FutureFragments
      ensures !EndsWith("pa", e)
    {
      assert |e| >= 3;
    }
    assert TrimStem("paa") == "pa";
  }

  /**
   * The guard looks at the residue before the trims: "iSyati" with the suffix
   * "ti" leaves "iSya", which passes, and the trims reduce it to nothing.
   */
  lemma StemMayBeEmpty()
    ensures HkStem("iSyati", ["ti"]) == Some("")
  {
    var trans, suffixes := "iSyati", ["ti"];
    assert EndsWith(trans, suffixes[0]);
    assert Residue(trans, suffixes[0]) == "iSya";
    assert PassesGuard("iSya");
    FirstAcceptedIsFirst(trans, suffixes, 0);
    assert RemoveLastVowel("iSya") == "iSy";
    assert EndsWith("iSy", FutureFragments[0]);
    assert RemoveFirstEnding("iSy", FutureFragments) == "";
    assert TrimStem("iSya") == "";
  }

  // ---------------------------------------------------------------------------
  // Whole-word behaviour
  // ---------------------------------------------------------------------------

  /**
   * When no suffix is accepted (none ends the transliterated word, or every
   * one that does leaves a residue the guard rejects) the result is the
   * stripped input, whatever the transliteration does; a word without
   * surrounding whitespace comes back exactly as given.
   */
  lemma UnstemmedWordComesBackStripped(stemmer: SanskritStemmer, suffixes: seq<string>, word: string)
    requires forall j :: 0 <= j < |suffixes| ==>
               !Accepts(stemmer.TransliterateDevanagariToHk(Strip(word)), suffixes[j])
    ensures stemmer.Stem(suffixes, word) == Strip(word)
    ensures word == [] || (!IsSpace(word[0]) && !IsSpace(word[|word| - 1])) ==>
              stemmer.Stem(suffixes, word) == word
  {
    var stripped := Strip(word);
    var trans := stemmer.TransliterateDevanagariToHk(stripped);
    assert FirstAccepted(trans, suffixes, 0).None?;
    assert HkStem(trans, suffixes).None?;
    assert stemmer.Stem(suffixes, word) == stripped;
    if word == [] || (!IsSpace(word[0]) && !IsSpace(word[|word| - 1])) {
      StripWithoutSurroundingSpace(word);
    }
  }

  /**
   * With the same list for verbs and nouns and a word the detector takes for
   * Devanagari text, the two entry points return the same stem.
   */
  method VerbAndNounAgree(stemmer: SanskritStemmer, word: string)
    returns (verb: Result<string, InputLanguageError>, noun: string)
    requires stemmer.verbSuffixList == stemmer.nounSuffixList
    requires stemmer.IsDevanagariText(Strip(word))
    ensures verb == Success(noun)
  {
    verb := stemmer.VerbStem(word);
    noun := stemmer.NounStem(word);
  }

  /**
   * Noun stemming does not depend on the detector or the language list: two
   * stemmers that share the transliteration library and the noun list stem
   * every noun alike.
   */
  method NounStemIgnoresDetector(first: SanskritStemmer, second: SanskritStemmer, word: string)
    returns (fromFirst: string, fromSecond: string)
    requires first.dt == second.dt && first.nounSuffixList == second.nounSuffixList
    ensures fromFirst == fromSecond
  {
    fromFirst := first.NounStem(word);
    fromSecond := second.NounStem(word);
  }
}
