/** The `lang` and `dir` attributes of the document element, kept in step with the current language. */
module DocumentLanguage {
  import opened LanguageSupport

  /** Languages written right to left. */
  const RTL_LANGUAGES: seq<string> := ["ar", "he", "fa", "ur"]

  /** `dir` for a language: `rtl` exactly for the right-to-left languages. */
  function Direction(lang: string): (dir: string)
    ensures dir == "rtl" <==> lang in RTL_LANGUAGES
    ensures dir == "ltr" <==> lang !in RTL_LANGUAGES
  {
    if lang in RTL_LANGUAGES then "rtl" else "ltr"
  }

  /** Of the supported codes only Arabic is written right to left. */
  lemma OnlyArabicIsRightToLeft(lang: string)
    requires IsLanguageSupported(lang)
    ensures Direction(lang) == "rtl" <==> lang == "ar"
  {
  }

  /** The `<html>` element's two attributes. */
  class DocumentElement {
    var lang: string
    var dir: string

    constructor (lang: string, dir: string)
      ensures this.lang == lang && this.dir == dir
    {
      this.lang := lang;
      this.dir := dir;
    }

    /**
     * The effect of `useDocumentLanguage`: an empty (or undefined) language
     * changes nothing; otherwise `lang` is the language verbatim and `dir`
     * follows it.
     */
    method SyncDocumentLanguage(currentLanguage: string)
      modifies this
      ensures currentLanguage == "" ==> lang == old(lang) && dir == old(dir)
      ensures currentLanguage != "" ==> lang == currentLanguage && dir == Direction(currentLanguage)
    {
      if currentLanguage == "" {
        return;
      }
      lang := currentLanguage;
      var isRtl := currentLanguage in RTL_LANGUAGES;
      dir := if isRtl then "rtl" else "ltr";
    }
  }
}
