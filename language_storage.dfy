/**
 * The persisted language preference (storage key `language`), read the way
 * both language detectors read it: a read that throws counts as no preference.
 */
module LanguageStorage {
  import opened Wrappers
  import opened LanguageSupport

  /** The persistence key both detectors read. */
  const LANGUAGE_KEY: string := "language"

  /**
   * The outcome of `localStorage.getItem('language')`: it throws (private
   * browsing, no storage), or it yields the stored string or null.
   */
  datatype StorageRead = Throws | Read(item: Option<string>)

  /**
   * The `try { stored && isLanguageSupported(stored) } catch {}` block: the
   * stored value when it is a supported code, otherwise none.
   */
  function StoredPreference(read: StorageRead): (pref: Option<string>)
    ensures pref.Some? <==> read.Read? && read.item.Some? && IsLanguageSupported(read.item.value)
    ensures pref.Some? ==> pref.value == read.item.value
  {
    match read
    case Throws => None
    case Read(item) =>
      if item.Some? && item.value != "" && IsLanguageSupported(item.value) then item else None
  }
}
