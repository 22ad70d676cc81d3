/**
 * The runtime language detector behind the root redirect: stored preference
 * first, then the browser's language list, then `en`; and the locale-prefixed
 * redirect target built from it.
 */
module LanguageRedirect {
  import opened Wrappers
  import opened Strings
  import opened LanguageSupport
  import opened LanguageStorage
  import opened LanguageRouting

  /**
   * What the detector reads of `navigator`: the `languages` list (which a
   * browser may not provide) and the single `language` tag.
   */
  datatype Navigator = Navigator(languages: Option<seq<string>>, language: string)

  /** `navigator.languages || [navigator.language]`; an empty list is kept as it is. */
  function BrowserLanguages(nav: Navigator): seq<string> {
    if nav.languages.Some? then nav.languages.value else [nav.language]
  }

  /** Tags that stand for Traditional Chinese once the first `_` becomes `-`. */
  const TRADITIONAL_CHINESE_FORMS: set<string> := {"zh-hant", "zh-tw", "zh-hk"}

  /** `lang.toLowerCase().split('-')[0]`: the text before the first `-`. */
  function PrimarySubtag(tag: string): (code: string)
    ensures '-' !in code
    ensures |code| <= |tag| && code == Lower(tag)[..|code|]
    ensures |code| == |tag| || Lower(tag)[|code|] == '-'
  {
    Split(Lower(tag), '-')[0]
  }

  /** `s.replace('_', '-')`: only the first `_` is replaced. */
  function ReplaceFirstUnderscore(s: string): (r: string)
    ensures |r| == |s|
    ensures '_' !in s ==> r == s
    ensures '_' in s ==> r == s[..IndexOf(s, '_')] + "-" + s[IndexOf(s, '_') + 1..]
  {
    if '_' in s then
      var i := IndexOf(s, '_');
      s[..i] + "-" + s[i + 1..]
    else s
  }

  /**
   * The decision the loop body makes for one browser tag: its primary subtag
   * when supported, else `zh-hant` for a Traditional Chinese form, else none.
   */
  function TagLanguage(tag: string): (lang: Option<string>)
    ensures lang.Some? ==> IsLanguageSupported(lang.value)
    ensures IsLanguageSupported(PrimarySubtag(tag)) ==> lang == Some(PrimarySubtag(tag))
    ensures lang.Some? ==> lang.value == PrimarySubtag(tag) || lang.value == "zh-hant"
  {
    var code := PrimarySubtag(tag);
    if IsLanguageSupported(code) then Some(code)
    else if ReplaceFirstUnderscore(Lower(tag)) in TRADITIONAL_CHINESE_FORMS then Some("zh-hant")
    else None
  }

  /** The browser-list scan: the first tag that decides wins. */
  function FirstBrowserMatch(tags: seq<string>): (lang: Option<string>)
    ensures lang.None? <==> forall i :: 0 <= i < |tags| ==> TagLanguage(tags[i]).None?
    ensures lang.Some? ==> exists i :: (0 <= i < |tags| && TagLanguage(tags[i]) == lang
      && forall j :: 0 <= j < i ==> TagLanguage(tags[j]).None?)
    ensures lang.Some? ==> IsLanguageSupported(lang.value)
  {
    if tags == [] then None
    else if TagLanguage(tags[0]).Some? then TagLanguage(tags[0])
    else
      var rest := FirstBrowserMatch(tags[1..]);
      assert forall i :: 1 <= i < |tags| ==> tags[i] == tags[1..][i - 1];
      if rest.Some? then
        var i :| 0 <= i < |tags[1..]| && TagLanguage(tags[1..][i]) == rest
          && forall j :: 0 <= j < i ==> TagLanguage(tags[1..][j]).None?;
        assert TagLanguage(tags[i + 1]) == rest;
        rest
      else rest
  }

  /**
   * `detectLanguage`: a supported stored preference, else the first deciding
   * browser tag (when there is a navigator), else `en`.
   */
  function DetectLanguage(storage: StorageRead, navigator: Option<Navigator>): (lang: string)
    ensures IsLanguageSupported(lang)
    ensures StoredPreference(storage).Some? ==> lang == StoredPreference(storage).value
  {
    var stored := StoredPreference(storage);
    if stored.Some? then stored.value
    else
      var browser := if navigator.Some? then FirstBrowserMatch(BrowserLanguages(navigator.value)) else None;
      if browser.Some? then browser.value else DEFAULT_LANGUAGE
  }

  /** Without a stored preference the result is the first deciding tag, or `en`. */
  lemma DetectWithoutStoredPreference(storage: StorageRead, nav: Navigator)
    requires StoredPreference(storage).None?
    ensures DetectLanguage(storage, Some(nav)) ==
      (if FirstBrowserMatch(BrowserLanguages(nav)).Some? then FirstBrowserMatch(BrowserLanguages(nav)).value else DEFAULT_LANGUAGE)
    ensures (forall i :: 0 <= i < |BrowserLanguages(nav)| ==> TagLanguage(BrowserLanguages(nav)[i]).None?)
      ==> DetectLanguage(storage, Some(nav)) == DEFAULT_LANGUAGE
    ensures DetectLanguage(storage, None) == DEFAULT_LANGUAGE
  {
  }

  /**
   * `zh-hant` is produced only by the underscore forms `zh_hant`, `zh_tw` and
   * `zh_hk` (any case): the hyphenated forms already stop at the primary
   * subtag `zh`.
   */
  lemma TraditionalChineseOnlyFromUnderscoreForms(tag: string)
    ensures TagLanguage(tag) == Some("zh-hant") <==> Lower(tag) in UNDERSCORE_FORMS
  {
    var s := Lower(tag);
    if s in UNDERSCORE_FORMS {
      UnderscoreFormIsPrimary(s);
      UnderscoreFormReplaced(s);
    }
    if TagLanguage(tag) == Some("zh-hant") {
      assert '-' !in Split(s, '-')[0];
      DecisionIsUnderscoreForm(s);
    }
  }

  const UNDERSCORE_FORMS: set<string> := {"zh_hant", "zh_tw", "zh_hk"}

  lemma ReplaceUnderscoreAfter(a: string, b: string)
    requires '_' !in a
    ensures ReplaceFirstUnderscore(a + "_" + b) == a + "-" + b
  {
    IndexOfAfter(a, '_', b);
    assert (a + "_" + b)[..|a|] == a && (a + "_" + b)[|a| + 1..] == b;
  }

  /** An underscore form has no `-`, so it is its own primary subtag, and it is unsupported. */
  lemma UnderscoreFormIsPrimary(s: string)
    requires s in UNDERSCORE_FORMS
    ensures Split(s, '-') == [s] && !IsLanguageSupported(s)
  {
    assert s[2] == '_' && '-' !in s;
    if IsLanguageSupported(s) {
      SupportedShape(s);
      assert false;
    }
  }

  /** Replacing the first `_` of an underscore form gives a Traditional Chinese form. */
  lemma UnderscoreFormReplaced(s: string)
    requires s in UNDERSCORE_FORMS
    ensures ReplaceFirstUnderscore(s) in TRADITIONAL_CHINESE_FORMS
  {
    assert s == "zh" + "_" + s[3..];
    ReplaceUnderscoreAfter("zh", s[3..]);
    var r := "zh" + "-" + s[3..];
    if s == "zh_hant" {
      assert r == "zh-hant";
    } else if s == "zh_tw" {
      assert r == "zh-tw";
    } else {
      assert r == "zh-hk";
    }
  }

  /** A hyphenated Traditional Chinese form has the supported primary subtag `zh`. */
  lemma HyphenFormStopsAtZh(s: string)
    requires s in TRADITIONAL_CHINESE_FORMS
    ensures Split(s, '-')[0] == "zh" && IsLanguageSupported("zh")
  {
    assert s == "zh" + "-" + s[3..];
    SplitAfter("zh", '-', s[3..]);
  }

  /** The only `-` of a Traditional Chinese form is at index 2. */
  lemma HyphenPosition(full: string, i: nat)
    requires full in TRADITIONAL_CHINESE_FORMS && i < |full| && full[i] == '-'
    ensures i == 2
  {
  }

  /** The lower-cased tags for which the loop body returns `zh-hant`. */
  lemma DecisionIsUnderscoreForm(s: string)
    requires !IsLanguageSupported(Split(s, '-')[0])
    requires ReplaceFirstUnderscore(s) in TRADITIONAL_CHINESE_FORMS
    ensures s in UNDERSCORE_FORMS
  {
    var full := ReplaceFirstUnderscore(s);
    if '_' in s {
      var i := IndexOf(s, '_');
      assert full[i] == '-';
      HyphenPosition(full, i);
      assert s == full[..2] + "_" + full[3..];
      UnderscoreOfForm(full);
    } else {
      HyphenFormStopsAtZh(s);
      assert false;
    }
  }

  /** Putting `_` back in place of the `-` of a Traditional Chinese form gives an underscore form. */
  lemma UnderscoreOfForm(full: string)
    requires full in TRADITIONAL_CHINESE_FORMS
    ensures full[..2] + "_" + full[3..] in UNDERSCORE_FORMS
  {
    var u := full[..2] + "_" + full[3..];
    if full == "zh-hant" {
      assert u == "zh_hant";
    } else if full == "zh-tw" {
      assert u == "zh_tw";
    } else {
      assert u == "zh_hk";
    }
  }

  /** The primary subtag is the lower-cased text before the first `-`. */
  lemma PrimarySubtagBeforeHyphen(tag: string, primary: string, rest: string)
    requires Lower(tag) == primary + "-" + rest && '-' !in primary
    ensures PrimarySubtag(tag) == primary
  {
    SplitAfter(primary, '-', rest);
  }

  /** `zh_TW` gives `zh-hant`, but `zh-TW` gives `zh`. */
  lemma TraditionalChineseExamples()
    ensures TagLanguage("zh_TW") == Some("zh-hant")
    ensures TagLanguage("zh-TW") == Some("zh")
  {
    assert Lower("zh_TW") == "zh_tw" by {
      assert forall i | 0 <= i < 5 :: Lower("zh_TW")[i] == "zh_tw"[i];
    }
    TraditionalChineseOnlyFromUnderscoreForms("zh_TW");
    assert Lower("zh-TW") == "zh" + "-" + "tw" by {
      assert forall i | 0 <= i < 5 :: Lower("zh-TW")[i] == "zh-tw"[i];
    }
    PrimarySubtagBeforeHyphen("zh-TW", "zh", "tw");
  }

  /**
   * The redirect target `/${lang}${path}`, where the root pathname `/`
   * contributes nothing.
   */
  function RedirectTarget(lang: string, pathname: string): (target: string)
    ensures |target| >= |lang| + 1 && target[..|lang| + 1] == "/" + lang
    ensures pathname != "/" ==> target[|lang| + 1..] == pathname
    ensures pathname == "/" ==> target == "/" + lang
  {
    "/" + lang + (if pathname == "/" then "" else pathname)
  }

  /**
   * For a canonical pathname the redirect target carries the detected locale
   * and stripping it gives the pathname back.
   */
  lemma RedirectRoundTrip(lang: string, segs: seq<string>)
    requires IsLanguageSupported(lang) && ValidSegments(segs)
    ensures RedirectTarget(lang, PathOf(segs)) == PathOf([lang] + segs)
    ensures ExtractLanguageFromPath(RedirectTarget(lang, PathOf(segs))) == Some(lang)
    ensures RemoveLanguageFromPath(RedirectTarget(lang, PathOf(segs))) == PathOf(segs)
  {
    var all := [lang] + segs;
    assert all[0] == lang && all[1..] == segs;
    if segs != [] {
      assert Join(all, "/") == lang + "/" + Join(segs, "/");
      assert PathOf(all) == "/" + lang + PathOf(segs);
    }
    LocaleRoundTrip(lang, segs);
  }
}
