/** The registry of supported locale codes and its membership test. */
module LanguageSupport {
  import opened Strings

  /** Every locale code the application routes, in declaration order. */
  const SUPPORTED_LANGUAGES: seq<string> :=
    ["en", "ar", "de", "es", "fr", "it", "ja", "ko", "pt", "ru", "sv", "th", "uk", "vi", "zh", "zh-hant"]

  /** The code every detector falls back to. */
  const DEFAULT_LANGUAGE: string := "en"

  /** `isLanguageSupported`: exact, case-sensitive membership in the registry. */
  predicate IsLanguageSupported(lang: string) {
    lang in SUPPORTED_LANGUAGES
  }

  predicate IsLowerLetter(c: char) {
    'a' <= c <= 'z'
  }

  /**
   * The shape every registered code has: two lower-case letters, optionally
   * followed by `-` and one or more lower-case letters.
   */
  predicate IsLocaleShape(lang: string) {
    && |lang| >= 2
    && IsLowerLetter(lang[0]) && IsLowerLetter(lang[1])
    && (|lang| == 2 || (|lang| >= 4 && lang[2] == '-' && forall k :: 3 <= k < |lang| ==> IsLowerLetter(lang[k])))
  }

  /** The registry has sixteen distinct entries, with the default first. */
  lemma RegistryShape()
    ensures |SUPPORTED_LANGUAGES| == 16
    ensures SUPPORTED_LANGUAGES[0] == DEFAULT_LANGUAGE && IsLanguageSupported(DEFAULT_LANGUAGE)
    ensures forall i, j :: 0 <= i < j < |SUPPORTED_LANGUAGES| ==> SUPPORTED_LANGUAGES[i] != SUPPORTED_LANGUAGES[j]
    ensures IsLanguageSupported("zh") && IsLanguageSupported("zh-hant")
  {
  }

  /** Every supported code is a locale-shaped path segment without upper-case letters. */
  lemma SupportedShape(lang: string)
    requires IsLanguageSupported(lang)
    ensures IsLocaleShape(lang)
    ensures lang != "" && '/' !in lang
    ensures forall k :: 0 <= k < |lang| ==> IsLowerLetter(lang[k]) || lang[k] == '-'
  {
    var i :| 0 <= i < |SUPPORTED_LANGUAGES| && SUPPORTED_LANGUAGES[i] == lang;
    if i == 15 {
      assert lang == "zh-hant";
    } else {
      assert forall j :: 0 <= j < 15 ==>
        |SUPPORTED_LANGUAGES[j]| == 2 && IsLowerLetter(SUPPORTED_LANGUAGES[j][0]) && IsLowerLetter(SUPPORTED_LANGUAGES[j][1]);
    }
  }

  /** Membership is case-sensitive: a code with an upper-case ASCII letter is never supported. */
  lemma UpperCaseNeverSupported(lang: string, k: nat)
    requires k < |lang| && 'A' <= lang[k] <= 'Z'
    ensures !IsLanguageSupported(lang)
  {
    if IsLanguageSupported(lang) {
      SupportedShape(lang);
      assert false;
    }
  }

  /** The cases the registry is usually mistaken about. */
  lemma NearMisses()
    ensures !IsLanguageSupported("EN") && !IsLanguageSupported("zh-Hant")
    ensures !IsLanguageSupported("zh-tw") && !IsLanguageSupported("") && !IsLanguageSupported("he")
  {
    UpperCaseNeverSupported("EN", 0);
    UpperCaseNeverSupported("zh-Hant", 3);
    NotTraditionalTaiwan();
  }

  lemma NotTraditionalTaiwan()
    ensures !IsLanguageSupported("zh-tw")
  {
    assert SUPPORTED_LANGUAGES[15] == "zh-hant";
  }
}
