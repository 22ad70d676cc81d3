/**
 * Locale-aware navigation: the active locale from the route parameter,
 * prefixing outgoing paths with it, and switching locale by rewriting the
 * current pathname.
 */
module LocalizedNavigate {
  import opened Wrappers
  import opened Strings
  import opened LanguageSupport
  import opened LanguageRouting

  /** `lang || 'en'`: the route's `lang` parameter, or `en` when it is absent or empty. */
  function CurrentLanguage(langParam: Option<string>): (lang: string)
    ensures lang != ""
    ensures langParam.Some? && langParam.value != "" ==> lang == langParam.value
    ensures langParam.None? || langParam.value == "" ==> lang == DEFAULT_LANGUAGE
  {
    if langParam.Some? && langParam.value != "" then langParam.value else DEFAULT_LANGUAGE
  }

  /** `navigate(path)`: `/${currentLanguage}${cleanPath}`, with one `/` added when `path` lacks it. */
  function NavigateTarget(currentLanguage: string, path: string): string {
    var cleanPath := if StartsWith(path, '/') then path else "/" + path;
    "/" + currentLanguage + cleanPath
  }

  /** Exactly one `/` separates the locale from the path, whether or not the path had one. */
  lemma NavigateInsertsOneSlash(currentLanguage: string, path: string)
    ensures NavigateTarget(currentLanguage, path)
      == "/" + currentLanguage + "/" + (if StartsWith(path, '/') then path[1..] else path)
  {
    if StartsWith(path, '/') {
      assert path == "/" + path[1..];
    }
  }

  /**
   * A navigation target always carries the current (supported) locale, and
   * stripping it gives the canonical form of the requested path.
   */
  lemma NavigateCarriesLocale(lang: string, path: string)
    requires IsLanguageSupported(lang)
    ensures ExtractLanguageFromPath(NavigateTarget(lang, path)) == Some(lang)
    ensures RemoveLanguageFromPath(NavigateTarget(lang, path)) == PathOf(Segments(path))
  {
    SupportedShape(lang);
    SegmentsOfNavigateTarget(lang, path);
  }

  /** The target's segments are the locale followed by the path's own segments. */
  lemma SegmentsOfNavigateTarget(lang: string, path: string)
    requires lang != "" && '/' !in lang
    ensures Segments(NavigateTarget(lang, path)) == [lang] + Segments(path)
  {
    var rest := if StartsWith(path, '/') then path[1..] else path;
    NavigateInsertsOneSlash(lang, path);
    SegmentsAfterLocale(lang, rest);
    if StartsWith(path, '/') {
      assert path == "/" + rest;
      SegmentsLeadingSlash(rest);
    }
  }

  /** A leading `/` adds no segment. */
  lemma SegmentsLeadingSlash(rest: string)
    ensures Segments("/" + rest) == Segments(rest)
  {
    assert "/" + rest == "" + ['/'] + rest;
    SplitAfter("", '/', rest);
    NonEmptyAppend([""], Split(rest, '/'));
    assert NonEmpty([""]) == [];
  }

  /** The segments of `/<lang>/<rest>`. */
  lemma SegmentsAfterLocale(lang: string, rest: string)
    requires lang != "" && '/' !in lang
    ensures Segments("/" + lang + "/" + rest) == [lang] + Segments(rest)
  {
    assert "/" + lang + "/" + rest == "" + "/" + (lang + "/" + rest);
    SegmentsAppend("", lang + "/" + rest);
    SegmentsAppend(lang, rest);
    SegmentsOfEmpty();
    SegmentsOfSegment(lang);
  }

  /**
   * The regular expression `^\/[a-z]{2}(-[a-z]+)?\/?` as a language: `/`, a
   * locale-shaped tag, and optionally one more `/`.
   */
  predicate MatchesLocalePattern(w: string) {
    && |w| >= 1 && w[0] == '/'
    && (IsLocaleShape(w[1..]) || (|w| >= 2 && w[|w| - 1] == '/' && IsLocaleShape(w[1..|w| - 1])))
  }

  /** The length of the run of lower-case letters starting at `i`. */
  function LowerRun(s: string, i: nat): (n: nat)
    requires i <= |s|
    ensures i + n <= |s|
    ensures forall k :: i <= k < i + n ==> IsLowerLetter(s[k])
    ensures i + n == |s| || !IsLowerLetter(s[i + n])
    decreases |s| - i
  {
    if i < |s| && IsLowerLetter(s[i]) then 1 + LowerRun(s, i + 1) else 0
  }

  /** A run that ends where the letters end has exactly that length. */
  lemma LowerRunExact(s: string, i: nat, j: nat)
    requires i <= j <= |s|
    requires forall k :: i <= k < j ==> IsLowerLetter(s[k])
    requires j == |s| || !IsLowerLetter(s[j])
    ensures LowerRun(s, i) == j - i
  {
  }

  /**
   * Where the greedy match of the pattern ends in `s`: the longest prefix of
   * `s` in the pattern's language, or none when no prefix is.
   */
  function LocalePrefixMatch(s: string): (m: Option<nat>)
    ensures m.Some? ==> m.value <= |s|
  {
    if |s| >= 3 && s[0] == '/' && IsLowerLetter(s[1]) && IsLowerLetter(s[2]) then
      var tagEnd := if |s| >= 5 && s[3] == '-' && IsLowerLetter(s[4]) then 4 + LowerRun(s, 4) else 3;
      Some(if tagEnd < |s| && s[tagEnd] == '/' then tagEnd + 1 else tagEnd)
    else
      None
  }

  /**
   * The greedy match is the longest prefix in the pattern's language; when
   * there is no match, no prefix is in the language.
   */
  lemma LocalePrefixMatchIsLongest(s: string)
    ensures var m := LocalePrefixMatch(s);
      && (m.Some? ==> MatchesLocalePattern(s[..m.value]))
      && (m.Some? ==> forall k :: m.value < k <= |s| ==> !MatchesLocalePattern(s[..k]))
      && (m.None? ==> forall k :: 0 <= k <= |s| ==> !MatchesLocalePattern(s[..k]))
  {
    if |s| >= 3 && s[0] == '/' && IsLowerLetter(s[1]) && IsLowerLetter(s[2]) {
      var tagEnd := if |s| >= 5 && s[3] == '-' && IsLowerLetter(s[4]) then 4 + LowerRun(s, 4) else 3;
      var m := if tagEnd < |s| && s[tagEnd] == '/' then tagEnd + 1 else tagEnd;
      LocalePrefixFacts(s, tagEnd, m);
    } else {
      forall k | 0 <= k <= |s|
        ensures !MatchesLocalePattern(s[..k])
      {
        NoMatchWithoutTwoLetters(s, k);
      }
    }
  }

  /** Without `/` and two lower-case letters at the start, no prefix matches. */
  lemma NoMatchWithoutTwoLetters(s: string, k: nat)
    requires !(|s| >= 3 && s[0] == '/' && IsLowerLetter(s[1]) && IsLowerLetter(s[2]))
    requires k <= |s|
    ensures !MatchesLocalePattern(s[..k])
  {
    var w := s[..k];
    if |w| >= 3 {
      assert w[0] == s[0] && w[1..][0] == s[1] && w[1..][1] == s[2];
    }
    if |w| >= 4 {
      assert w[1..|w| - 1][0] == s[1] && w[1..|w| - 1][1] == s[2];
    }
  }

  /** The proof obligations of `LocalePrefixMatch` when the two letters are there. */
  lemma LocalePrefixFacts(s: string, tagEnd: nat, m: nat)
    requires |s| >= 3 && s[0] == '/' && IsLowerLetter(s[1]) && IsLowerLetter(s[2])
    requires tagEnd == if |s| >= 5 && s[3] == '-' && IsLowerLetter(s[4]) then 4 + LowerRun(s, 4) else 3
    requires m == if tagEnd < |s| && s[tagEnd] == '/' then tagEnd + 1 else tagEnd
    ensures m <= |s| && MatchesLocalePattern(s[..m])
    ensures forall k :: m < k <= |s| ==> !MatchesLocalePattern(s[..k])
  {
    TagIsShape(s, tagEnd);
    var w := s[..m];
    if m == tagEnd {
      assert w[1..] == s[1..tagEnd];
    } else {
      assert w[1..|w| - 1] == s[1..tagEnd];
    }
    LongerPrefixesFail(s, tagEnd, m);
  }

  /** The stretch between the leading `/` and the greedy tag end is locale-shaped. */
  lemma TagIsShape(s: string, tagEnd: nat)
    requires |s| >= 3 && s[0] == '/' && IsLowerLetter(s[1]) && IsLowerLetter(s[2])
    requires tagEnd == if |s| >= 5 && s[3] == '-' && IsLowerLetter(s[4]) then 4 + LowerRun(s, 4) else 3
    ensures 3 <= tagEnd <= |s| && IsLocaleShape(s[1..tagEnd])
  {
    var t := s[1..tagEnd];
    assert t[0] == s[1] && t[1] == s[2];
    if tagEnd > 3 {
      assert t[2] == s[3];
      forall k | 3 <= k < |t|
        ensures IsLowerLetter(t[k])
      {
        assert t[k] == s[k + 1];
      }
    }
  }

  lemma LongerPrefixesFail(s: string, tagEnd: nat, m: nat)
    requires |s| >= 3 && s[0] == '/' && IsLowerLetter(s[1]) && IsLowerLetter(s[2])
    requires tagEnd == if |s| >= 5 && s[3] == '-' && IsLowerLetter(s[4]) then 4 + LowerRun(s, 4) else 3
    requires m == if tagEnd < |s| && s[tagEnd] == '/' then tagEnd + 1 else tagEnd
    ensures forall k :: m < k <= |s| ==> !MatchesLocalePattern(s[..k])
  {
    forall k | m < k <= |s|
      ensures !MatchesLocalePattern(s[..k])
    {
      ShapeEndsAtTag(s, tagEnd, k);
      ShapeEndsAtTag(s, tagEnd, k - 1);
      LongerPrefixFails(s, tagEnd, m, k);
    }
  }

  /** A prefix that runs past the greedy match is not in the pattern's language. */
  lemma LongerPrefixFails(s: string, tagEnd: nat, m: nat, k: nat)
    requires 3 <= tagEnd <= m < k <= |s| && s[0] == '/'
    requires m == if tagEnd < |s| && s[tagEnd] == '/' then tagEnd + 1 else tagEnd
    requires IsLocaleShape(s[1..k]) ==> k <= tagEnd
    requires IsLocaleShape(s[1..k - 1]) ==> k - 1 <= tagEnd
    ensures !MatchesLocalePattern(s[..k])
  {
    var w := s[..k];
    assert w[1..] == s[1..k];
    if w[|w| - 1] == '/' {
      assert w[1..|w| - 1] == s[1..k - 1];
    }
  }

  /** A locale-shaped stretch after the leading `/` never runs past the greedy tag end. */
  lemma ShapeEndsAtTag(s: string, tagEnd: nat, j: nat)
    requires |s| >= 3 && s[0] == '/' && IsLowerLetter(s[1]) && IsLowerLetter(s[2])
    requires tagEnd == if |s| >= 5 && s[3] == '-' && IsLowerLetter(s[4]) then 4 + LowerRun(s, 4) else 3
    requires 1 <= j <= |s|
    ensures IsLocaleShape(s[1..j]) ==> j <= tagEnd
  {
    if j >= 5 {
      assert forall x :: 4 <= x < j ==> s[1..j][x - 1] == s[x];
    }
  }

  /** `pathname.replace(/^\/[a-z]{2}(-[a-z]+)?\/?/, '/')`. */
  function StripLocalePattern(pathname: string): (r: string)
    ensures LocalePrefixMatch(pathname).None? ==> r == pathname
    ensures LocalePrefixMatch(pathname).Some? ==>
      r == "/" + pathname[LocalePrefixMatch(pathname).value..]
  {
    var m := LocalePrefixMatch(pathname);
    if m.Some? then "/" + pathname[m.value..] else pathname
  }

  predicate IsSuffix(a: string, b: string) {
    |a| <= |b| && b[|b| - |a|..] == a
  }

  /**
   * `switchLanguage(newLang)`: the new locale followed by the pathname with
   * its leading locale-like prefix replaced by `/`. `newLang` is not checked.
   */
  function SwitchLanguageTarget(pathname: string, newLang: string): string {
    "/" + newLang + StripLocalePattern(pathname)
  }

  /**
   * The switch target starts with `/<newLang>` and keeps the pathname, whole
   * or as a `/` followed by a suffix of it.
   */
  lemma SwitchTargetShape(pathname: string, newLang: string)
    ensures var target := SwitchLanguageTarget(pathname, newLang);
      && |target| >= |newLang| + 1 && target[..|newLang| + 1] == "/" + newLang
      && var rest := target[|newLang| + 1..];
         rest == pathname || (StartsWith(rest, '/') && IsSuffix(rest[1..], pathname))
  {
    var target := SwitchLanguageTarget(pathname, newLang);
    assert target[|newLang| + 1..] == StripLocalePattern(pathname);
  }

  /**
   * On a canonical path with a supported locale, the pattern strips exactly
   * what `removeLanguageFromPath` strips.
   */
  lemma SwitchAgreesWithRemove(lang: string, segs: seq<string>, newLang: string)
    requires IsLanguageSupported(lang) && ValidSegments(segs)
    ensures StripLocalePattern(PathOf([lang] + segs)) == PathOf(segs)
    ensures StripLocalePattern(PathOf([lang] + segs)) == RemoveLanguageFromPath(PathOf([lang] + segs))
    ensures SwitchLanguageTarget(PathOf([lang] + segs), newLang) == "/" + newLang + PathOf(segs)
  {
    LocaleRoundTrip(lang, segs);
    PathOfWithLocale(lang, segs);
    StripAfterSupported(lang, segs);
  }

  /** The tail that follows the locale in a canonical path. */
  function CanonicalTail(segs: seq<string>): string {
    if segs == [] then "" else "/" + Join(segs, "/")
  }

  lemma PathOfWithLocale(lang: string, segs: seq<string>)
    ensures PathOf([lang] + segs) == "/" + lang + CanonicalTail(segs)
  {
    var all := [lang] + segs;
    assert all[0] == lang && all[1..] == segs;
    if segs != [] {
      assert Join(all, "/") == lang + "/" + Join(segs, "/");
    }
  }

  lemma StripAfterSupported(lang: string, segs: seq<string>)
    requires IsLanguageSupported(lang)
    ensures StripLocalePattern("/" + lang + CanonicalTail(segs)) == PathOf(segs)
  {
    var tail := CanonicalTail(segs);
    LocalePrefixOfSupported(lang, tail);
    var p := "/" + lang + tail;
    if segs == [] {
      assert p[|lang| + 1..] == "";
    } else {
      assert p[|lang| + 2..] == Join(segs, "/");
    }
  }

  /** The pattern matches `/<lang>` and one following `/` for every supported code. */
  lemma LocalePrefixOfSupported(lang: string, tail: string)
    requires IsLanguageSupported(lang)
    requires tail == "" || StartsWith(tail, '/')
    ensures LocalePrefixMatch("/" + lang + tail) == Some(|lang| + 1 + (if tail == "" then 0 else 1))
  {
    SupportedShape(lang);
    var p := "/" + lang + tail;
    var n := |lang|;
    assert p[1..n + 1] == lang;
    assert p[1] == lang[0] && p[2] == lang[1];
    assert n + 1 == |p| || p[n + 1] == '/';
    if n > 2 {
      assert p[3] == '-' && IsLowerLetter(p[4]);
      assert forall k :: 4 <= k < n + 1 ==> p[k] == lang[k - 1];
      LowerRunExact(p, 4, n + 1);
    }
  }

  /** The pattern on locale-prefixed paths, including `zh-hant` and a bare locale. */
  lemma SwitchExamplesPrefixed()
    ensures SwitchLanguageTarget("/en/docs", "fr") == "/fr/docs"
    ensures SwitchLanguageTarget("/zh-hant/x", "fr") == "/fr/x"
    ensures SwitchLanguageTarget("/en", "fr") == "/fr/"
  {
    SwitchEnglishDocs();
    SwitchTraditionalChinese();
    SwitchBareEnglish();
  }

  lemma SwitchEnglishDocs()
    ensures SwitchLanguageTarget("/en/docs", "fr") == "/fr/docs"
  {
    LocalePrefixOfSupported("en", "/docs");
    assert "/" + "en" + "/docs" == "/en/docs";
  }

  lemma SwitchTraditionalChinese()
    ensures SwitchLanguageTarget("/zh-hant/x", "fr") == "/fr/x"
  {
    LocalePrefixOfSupported("zh-hant", "/x");
    assert "/" + "zh-hant" + "/x" == "/zh-hant/x";
  }

  lemma SwitchBareEnglish()
    ensures SwitchLanguageTarget("/en", "fr") == "/fr/"
  {
    LocalePrefixOfSupported("en", "");
    assert "/" + "en" + "" == "/en";
  }

  /** An upper-case prefix does not match and is kept; a two-letter start is eaten even when it is no locale. */
  lemma SwitchExamplesUnprefixed()
    ensures SwitchLanguageTarget("/EN/docs", "fr") == "/fr/EN/docs"
    ensures SwitchLanguageTarget("/docs", "fr") == "/fr/cs"
  {
  }
}
