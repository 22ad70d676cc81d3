/**
 * The initial-language detector used when i18next is set up (path first,
 * then the stored preference, then `en`) and the once-only initialisation.
 */
module I18n {
  import opened Wrappers
  import opened Strings
  import opened LanguageSupport
  import opened LanguageStorage
  import opened LanguageRouting
  import LanguageRedirect

  /** What the detector reads of `window`: the location's pathname and the storage read. */
  datatype Window = Window(pathname: string, storage: StorageRead)

  /** `pathname.split('/')[1]`: the raw second piece, absent when there is no `/`. */
  function RawPathLanguage(pathname: string): (piece: Option<string>)
    ensures piece.Some? <==> '/' in pathname
  {
    var parts := Split(pathname, '/');
    if |parts| > 1 then Some(parts[1]) else None
  }

  /**
   * `detectLanguageFromPath`: `en` without a window; otherwise a supported raw
   * path piece, else a supported stored preference, else `en`.
   */
  function DetectLanguageFromPath(window: Option<Window>): (lang: string)
    ensures IsLanguageSupported(lang)
    ensures window.None? ==> lang == DEFAULT_LANGUAGE
  {
    if window.None? then DEFAULT_LANGUAGE
    else
      var pathLang := RawPathLanguage(window.value.pathname);
      if pathLang.Some? && pathLang.value != "" && IsLanguageSupported(pathLang.value) then pathLang.value
      else
        var stored := StoredPreference(window.value.storage);
        if stored.Some? then stored.value else DEFAULT_LANGUAGE
  }

  /**
   * A pathname `/<L>` or `/<L>/...` with supported `L` decides the language,
   * whatever the storage holds.
   */
  lemma PathLocaleWins(lang: string, rest: string, storage: StorageRead)
    requires IsLanguageSupported(lang)
    requires rest == "" || StartsWith(rest, '/')
    ensures DetectLanguageFromPath(Some(Window("/" + lang + rest, storage))) == lang
  {
    SupportedShape(lang);
    RawPieceAfterRoot(lang, rest);
  }

  /** The raw piece at index 1 of `/<a><rest>` is `a` when `rest` is empty or starts a new segment. */
  lemma RawPieceAfterRoot(a: string, rest: string)
    requires '/' !in a
    requires rest == "" || StartsWith(rest, '/')
    ensures RawPathLanguage("/" + a + rest) == Some(a)
  {
    assert "/" + a + rest == "" + ['/'] + (a + rest);
    SplitAfter("", '/', a + rest);
    FirstPiece(a, rest);
  }

  /** The first piece of `<a><rest>` is `a` when `rest` is empty or starts with `/`. */
  lemma FirstPiece(a: string, rest: string)
    requires '/' !in a
    requires rest == "" || StartsWith(rest, '/')
    ensures Split(a + rest, '/')[0] == a
  {
    if rest == "" {
      assert a + rest == a;
    } else {
      assert a + rest == a + ['/'] + rest[1..];
      SplitAfter(a, '/', rest[1..]);
    }
  }

  /**
   * Without a supported raw path piece, the stored preference decides; a
   * throwing read is swallowed and gives `en`.
   */
  lemma StoredPreferenceNext(pathname: string, storage: StorageRead)
    requires var p := RawPathLanguage(pathname); p.None? || !IsLanguageSupported(p.value)
    ensures DetectLanguageFromPath(Some(Window(pathname, storage)))
      == if StoredPreference(storage).Some? then StoredPreference(storage).value else DEFAULT_LANGUAGE
    ensures DetectLanguageFromPath(Some(Window(pathname, Throws))) == DEFAULT_LANGUAGE
  {
  }

  /** In `//en` the raw piece at index 1 is empty, so the path decides nothing. */
  lemma DoubleSlashFallsThrough(storage: StorageRead)
    ensures RawPathLanguage("//en") == Some("")
    ensures DetectLanguageFromPath(Some(Window("//en", storage)))
      == if StoredPreference(storage).Some? then StoredPreference(storage).value else DEFAULT_LANGUAGE
  {
    assert "//en" == "" + ['/'] + ("" + ['/'] + "en");
    SplitAfter("", '/', "" + ['/'] + "en");
    SplitAfter("", '/', "en");
  }

  /**
   * The two detectors disagree: with a supported stored preference `s` and a
   * supported path locale `p`, the redirect detector picks `s` and this one
   * picks `p`.
   */
  lemma DetectorsOrderPathAndStorageDifferently(
    stored: string, pathLang: string, rest: string, nav: Option<LanguageRedirect.Navigator>)
    requires IsLanguageSupported(stored) && IsLanguageSupported(pathLang)
    requires rest == "" || StartsWith(rest, '/')
    ensures LanguageRedirect.DetectLanguage(Read(Some(stored)), nav) == stored
    ensures DetectLanguageFromPath(Some(Window("/" + pathLang + rest, Read(Some(stored))))) == pathLang
  {
    SupportedShape(stored);
    PathLocaleWins(pathLang, rest, Read(Some(stored)));
  }

  /**
   * The module-level `initialized` flag and the i18next instance it guards:
   * `initCount` counts the initialisations performed and `language` records
   * the `lng` the one initialisation was given.
   */
  class I18nInitializer {
    var initialized: bool
    ghost var initCount: nat
    var language: Option<string>

    ghost predicate Valid()
      reads this
    {
      && initCount == (if initialized then 1 else 0)
      && (initialized <==> language.Some?)
      && (language.Some? ==> IsLanguageSupported(language.value))
    }

    constructor ()
      ensures Valid() && !initialized && initCount == 0
    {
      initialized := false;
      initCount := 0;
      language := None;
    }

    /**
     * `initializeI18n`: the first call initialises with the detected language;
     * every later call changes nothing. So initialisation happens at most once.
     */
    method InitializeI18n(window: Option<Window>)
      requires Valid()
      modifies this
      ensures Valid() && initialized && initCount == 1
      ensures old(initialized) ==> language == old(language)
      ensures !old(initialized) ==> language == Some(DetectLanguageFromPath(window))
    {
      if initialized {
        return;
      }
      initialized := true;
      initCount := initCount + 1;
      language := Some(DetectLanguageFromPath(window));
    }
  }
}
