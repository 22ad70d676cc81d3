# Locale-prefix routing and breadcrumbs, modelled in Dafny

This project models the locale-prefix routing and breadcrumb subsystem of the
cravings app, a React single-page application. Every page lives under a
`/<locale>/…` prefix. The model covers the following parts:

- **Supported-locale registry** (`LanguageSupport`): the 16 supported codes and the
  case-sensitive membership test.
- **Path functions** (`LanguageRouting`): find the leading locale segment of a path,
  or strip it and return the canonical remainder. `split('/').filter(Boolean)` is
  modelled exactly.
- **Two language detectors** (`LanguageStorage`, `LanguageRedirect`, `I18n`):
  - The redirect detector reads the stored `language` preference first, then scans
    the browser's language tags in order, then falls back to `en`. It also builds
    the redirect target.
  - The start-up detector reads the raw path piece first, then the stored
    preference.
  - Initialisation (`initializeI18n`) is guarded so that it happens at most once.
- **Navigation targets** (`LocalizedNavigate`):
  - `navigate` prefixes the current locale.
  - `switchLanguage` replaces a leading match of `^\/[a-z]{2}(-[a-z]+)?\/?`, matched
    greedily as the regular expression engine does.
- **Document attributes** (`DocumentLanguage`): `lang` and `dir` on the document
  element.
- **Breadcrumbs** (`Breadcrumbs`): the breadcrumb builder.
  - Per-path title overrides, keyed by the normalised path.
  - The title lookup and its fallbacks: override, static key table, translated
    segment, humanised segment.
  - The trail of growing prefixes, and the rendered items.
  - Listener registration, notification and the version counter.
  - The singleton slot.
- **Build script** (`StaticFiles`):
  - placeholder substitution, with JavaScript's global-replace semantics;
  - the environment fallbacks;
  - the processed/skipped counting of its main loop.

Strings are `seq<char>`, and the translate function `t` is a parameter of type
`string -> string`. The following are inputs of the model, not environment
access:

- the stored preference (which may throw);
- the browser's language list;
- `window`;
- the environment variables;
- the date;
- the file system, as a map from path to content.

The model keeps these behaviours of the code:

- An empty path has an empty trail.
- An empty override is ignored.
- `zh-TW` resolves to `zh`, but `zh_TW` resolves to `zh-hant`.
- The two detectors order path and storage differently.
- `switchLanguage` turns `/docs` into `/<new>/cs`.
- Normalisation matches the locale before lowercasing, so `/EN/docs` normalises to
  `/en/docs`.

## Model

| member | source | states |
|---|---|---|
| LanguageSupport.IsLanguageSupported | src/config/constants.ts:82-84 | exact membership in the registry; what that implies is stated by RegistryShape, SupportedShape, UpperCaseNeverSupported and NearMisses below |
| LanguageSupport.RegistryShape | src/config/constants.ts:55-72 | the list has 16 pairwise-distinct codes; `en`, the default, is first and supported; `zh` and `zh-hant` are both members |
| LanguageSupport.SupportedShape | src/config/constants.ts:55-72 | every supported code is two lowercase letters, optionally followed by `-` and lowercase letters; it is non-empty and has no `/` |
| LanguageSupport.UpperCaseNeverSupported | src/config/constants.ts:82-84 | membership is exact and case-sensitive: a code containing any upper-case letter is not supported |
| LanguageSupport.NearMisses | src/config/constants.ts:82-84 | `EN`, `zh-Hant`, `zh-tw`, the empty string and `he` are not supported |
| Strings.Split | src/utils/languageRouting.ts:10 | `split(c)`: at least one part, and no part contains the separator |
| Strings.JoinSplit | src/utils/languageRouting.ts:10 | joining the parts of `split(c)` with `c` gives back the original string (partner of Split) |
| Strings.NonEmpty | src/utils/languageRouting.ts:10 | `filter(Boolean)`: the result holds exactly the non-empty parts and leaves an all-non-empty list unchanged; with NonEmptyAppend (it distributes over concatenation) this fixes the order too |
| LanguageRouting.Segments | src/utils/languageRouting.ts:10 | the segments of a path are non-empty and free of `/` |
| LanguageRouting.SegmentsAppend | src/utils/languageRouting.ts:10 | segments distribute over a `/`: `Segments(a + "/" + b) == Segments(a) + Segments(b)` |
| LanguageRouting.SegmentsOfPath | src/utils/languageRouting.ts:33 | the canonical path `/s1/…/sn` (or `/`) built from valid segments has exactly those segments |
| LanguageRouting.PathOfShape | src/utils/languageRouting.ts:33 | a canonical path starts with `/`, has no `//`, and ends with `/` only when it is `/` |
| LanguageRouting.ExtractLanguageFromPath | src/utils/languageRouting.ts:9-20 | on every path (also `//en/x`, `en/x` or `/en//x`): the locale is found exactly when the first non-empty segment is supported, and it is that segment; otherwise the result is none |
| LanguageRouting.RemoveLanguageFromPath | src/utils/languageRouting.ts:27-37 | when the first non-empty segment is not a supported code (or there is none), the path is returned unchanged, slashes included; otherwise the result is the canonical path of the remaining segments |
| LanguageRouting.RoutingOnCanonicalPaths | src/utils/languageRouting.ts:9-37 | on canonical paths, the locale is found exactly when the first segment is supported, and removal leaves the canonical path of the other segments (both directions) |
| LanguageRouting.LocaleRoundTrip | src/utils/languageRouting.ts:9-37 | extract of `/L/S…` is `L`, and remove of it is `/S…` |
| LanguageRouting.OnlyOneLocaleStripped | src/utils/languageRouting.ts:31-33 | `/L1/L2/S…` loses only `L1`, and `L2` is then the locale of the result |
| LanguageStorage.StoredPreference | src/components/layout/LanguageRedirect.tsx:10-17 | the stored value is used exactly when the read does not throw, the value is present and it is supported |
| LanguageRedirect.BrowserLanguages | src/components/layout/LanguageRedirect.tsx:21 | `navigator.languages` when the browser provides it, else the one-element list `[navigator.language]`; FirstBrowserMatch and DetectWithoutStoredPreference are stated over this list |
| LanguageRedirect.PrimarySubtag | src/components/layout/LanguageRedirect.tsx:23 | `toLowerCase().split('-')[0]`: the lowercased tag up to its first `-` (or the whole lowercased tag); it contains no `-` |
| LanguageRedirect.ReplaceFirstUnderscore | src/components/layout/LanguageRedirect.tsx:28 | `replace('_','-')` rewrites only the first underscore and keeps the length |
| LanguageRedirect.TagLanguage | src/components/layout/LanguageRedirect.tsx:23-31 | a tag whose primary subtag is supported yields exactly that subtag; the only other possible result is `zh-hant` (which TraditionalChineseOnlyFromUnderscoreForms pins to the underscore forms); every result is supported |
| LanguageRedirect.FirstBrowserMatch | src/components/layout/LanguageRedirect.tsx:21-32 | first-match search: none exactly when no tag matches; otherwise the result is the match of some tag, every earlier tag gives none, and the result is supported |
| LanguageRedirect.DetectLanguage | src/components/layout/LanguageRedirect.tsx:8-36 | the result is always supported, and a supported stored preference wins |
| LanguageRedirect.DetectWithoutStoredPreference | src/components/layout/LanguageRedirect.tsx:19-35 | without a usable stored value, the first browser match decides; with no match, or no navigator, the result is `en` |
| LanguageRedirect.TraditionalChineseOnlyFromUnderscoreForms | src/components/layout/LanguageRedirect.tsx:23-31 | a tag yields `zh-hant` if and only if its lowercase form is `zh_hant`, `zh_tw` or `zh_hk` |
| LanguageRedirect.TraditionalChineseExamples | src/components/layout/LanguageRedirect.tsx:23-31 | `zh_TW` gives `zh-hant`; `zh-TW` gives `zh` |
| LanguageRedirect.RedirectTarget | src/components/layout/LanguageRedirect.tsx:44-46 | the target starts with `/<lang>` and continues with the pathname, or with nothing when the pathname is `/` |
| LanguageRedirect.RedirectRoundTrip | src/components/layout/LanguageRedirect.tsx:44-46 | redirecting a canonical path gives the locale-prefixed canonical path, whose locale and remainder the routing functions recover |
| I18n.RawPathLanguage | src/i18n.ts:17 | the raw piece at index 1 of `split('/')` exists exactly when the path contains a `/` |
| I18n.DetectLanguageFromPath | src/i18n.ts:12-32 | the result is always supported; with no window it is `en` |
| I18n.PathLocaleWins | src/i18n.ts:17-20 | a supported locale right after the first `/` wins, whatever is stored |
| I18n.StoredPreferenceNext | src/i18n.ts:22-31 | without a path locale, a supported stored preference decides; otherwise, or on a throwing read, the result is `en` |
| I18n.DoubleSlashFallsThrough | src/i18n.ts:17-20 | for `//en` the raw piece is empty, so detection falls through to storage |
| I18n.DetectorsOrderPathAndStorageDifferently | src/i18n.ts:17-29 | with stored `s` and path locale `p`, both supported, the redirect detector picks `s` and the start-up detector picks `p` |
| I18n.I18nInitializer.constructor | src/i18n.ts:34 | starts uninitialised |
| I18n.I18nInitializer.InitializeI18n | src/i18n.ts:41-45 | initialisation happens at most once (the count stays 1); later calls leave the language unchanged |
| LocalizedNavigate.CurrentLanguage | src/hooks/useLocalizedNavigate.ts:14 | the route parameter when present and non-empty, else `en` |
| LocalizedNavigate.NavigateTarget | src/hooks/useLocalizedNavigate.ts:16-20 | `/${currentLanguage}${cleanPath}`; its meaning is stated by NavigateInsertsOneSlash, SegmentsOfNavigateTarget and NavigateCarriesLocale below |
| LocalizedNavigate.NavigateInsertsOneSlash | src/hooks/useLocalizedNavigate.ts:16-20 | the target is `/<lang>/` followed by the path without its leading `/`: exactly one separator |
| LocalizedNavigate.NavigateCarriesLocale | src/hooks/useLocalizedNavigate.ts:16-20 | for a supported current locale, the target's locale is that locale, and stripping it gives the canonical form of the requested path |
| LocalizedNavigate.SegmentsOfNavigateTarget | src/hooks/useLocalizedNavigate.ts:18-19 | the target's segments are the locale followed by the path's segments |
| LocalizedNavigate.LowerRun | src/hooks/useLocalizedNavigate.ts:27 | `[a-z]+` matched greedily: a maximal run of lowercase letters |
| LocalizedNavigate.LocalePrefixMatch | src/hooks/useLocalizedNavigate.ts:27 | where the greedy match of `^\/[a-z]{2}(-[a-z]+)?\/?` ends, never past the end of the string; LocalePrefixMatchIsLongest proves it is the longest matching prefix |
| LocalizedNavigate.LocalePrefixMatchIsLongest | src/hooks/useLocalizedNavigate.ts:27 | the computed match is the longest prefix in the pattern's language, and no prefix matches when none is found |
| LocalizedNavigate.StripLocalePattern | src/hooks/useLocalizedNavigate.ts:27 | the match is replaced by `/`; with no match, the pathname is unchanged |
| LocalizedNavigate.SwitchLanguageTarget | src/hooks/useLocalizedNavigate.ts:24-28 | `/${newLang}` followed by the pathname with the matched prefix replaced by `/`; stated by SwitchTargetShape, SwitchAgreesWithRemove and the two example lemmas below |
| LocalizedNavigate.SwitchTargetShape | src/hooks/useLocalizedNavigate.ts:24-28 | the target starts with `/<newLang>` (not validated), followed by the whole pathname or by `/` and a suffix of it |
| LocalizedNavigate.SwitchAgreesWithRemove | src/hooks/useLocalizedNavigate.ts:27-28 | on a canonical path with a supported locale, the pattern strips exactly what `removeLanguageFromPath` strips |
| LocalizedNavigate.SwitchExamplesPrefixed | src/hooks/useLocalizedNavigate.ts:27-28 | `/en/docs` becomes `/fr/docs`, `/zh-hant/x` becomes `/fr/x`, and `/en` becomes `/fr/` |
| LocalizedNavigate.SwitchExamplesUnprefixed | src/hooks/useLocalizedNavigate.ts:27 | `/EN/docs` is kept whole (`/fr/EN/docs`); `/docs` loses `do` (`/fr/cs`) |
| DocumentLanguage.Direction | src/hooks/useDocumentLanguage.ts:19-20 | `rtl` exactly for `ar`, `he`, `fa`, `ur`; `ltr` otherwise |
| DocumentLanguage.OnlyArabicIsRightToLeft | src/hooks/useDocumentLanguage.ts:5 | among the supported codes, only `ar` is right to left |
| DocumentLanguage.DocumentElement.SyncDocumentLanguage | src/hooks/useDocumentLanguage.ts:16-21 | an empty language leaves both attributes unchanged; otherwise `lang` is set verbatim and `dir` follows `Direction` |
| StaticFiles.OrDefault | scripts/process-static-files.ts:19-23 | `value \|\| fallback`: an unset or empty value gives the fallback |
| StaticFiles.ResolveVars | scripts/process-static-files.ts:19-23 | each variable or its fallback; the support address falls back to `support@` plus the resolved domain |
| StaticFiles.DefaultsWhenUnset | scripts/process-static-files.ts:19-23 | with nothing set: `localhost`, `Starter`, `Sudobility`, `support@localhost` |
| StaticFiles.ReplaceAll | scripts/process-static-files.ts:52-56 | `replace(/pat/g, rep)` for a literal pattern, scanning left to right; ReplaceAllAbsent and ReplaceAllJoin below state what it does for all inputs |
| StaticFiles.ReplaceAllAbsent | scripts/process-static-files.ts:52-56 | text without the pattern is unchanged by the global replace |
| StaticFiles.ReplaceAllJoin | scripts/process-static-files.ts:52-56 | every occurrence is replaced: pattern-free pieces joined by the pattern become the same pieces joined by the value |
| StaticFiles.ReplaceVariables | scripts/process-static-files.ts:48-59 | the five global replacements in source order; stated by NoPlaceholdersUnchanged, LaterPlaceholderInValueExpanded and EarlierPlaceholderInValueKept below |
| StaticFiles.NoPlaceholdersUnchanged | scripts/process-static-files.ts:48-59 | content containing none of the five placeholders is returned unchanged |
| StaticFiles.LaterPlaceholderInValueExpanded | scripts/process-static-files.ts:52-56 | a domain value that is the app-name placeholder is expanded by the later step |
| StaticFiles.EarlierPlaceholderInValueKept | scripts/process-static-files.ts:52-56 | an app-name value that is the domain placeholder stays in the output |
| StaticFiles.Step | scripts/process-static-files.ts:105-113 | an existing template is processed (its output path gets the substituted content, and the processed count rises); a missing one is skipped; no other path changes |
| StaticFiles.Run | scripts/process-static-files.ts:102-114 | the left fold of `Step` over the templates from zeroed counters; RunCounts, ProcessedIffPresent and RunOfFilesToProcess state its counts and outputs, and ProcessStaticFiles is proved equal to it |
| StaticFiles.ProcessStaticFiles | scripts/process-static-files.ts:102-114 | the loop computes the left fold of `Step`, and processed plus skipped equals the number of templates |
| StaticFiles.RunCounts | scripts/process-static-files.ts:102-114 | every template is counted exactly once |
| StaticFiles.ProcessedIffPresent | scripts/process-static-files.ts:105-113 | when no output overwrites a template, processed is the number of templates present and skipped is the rest |
| StaticFiles.RunOfFilesToProcess | scripts/process-static-files.ts:35-46 | for the two real templates, processed is the number present, the counts sum to 2, and each output holds its substituted template |
| Breadcrumbs.StripTrailingSlashes | src/utils/BreadcrumbBuilder.ts:53-55 | the trailing-slash step of normalisation: `/` is kept as it is; any other input loses its whole run of trailing slashes (so `//` becomes the empty string); the result is a prefix of the input and only `/` characters were removed |
| Breadcrumbs.TrimTrailingSlashes | src/utils/BreadcrumbBuilder.ts:54 | `/\/+$/` removal: the result is a prefix that does not end with `/`, and only slashes were removed |
| Breadcrumbs.NormalizePath | src/utils/BreadcrumbBuilder.ts:50-57 | a normal form has no upper-case ASCII letter and ends with `/` only when it is `/`; which locale it strips is stated by NormalizeStripsOneLocale, NormalizeUnprefixed, UppercaseLocaleIsKept and SpellingsOfDocs below |
| Breadcrumbs.NormalizeStripsOneLocale | src/utils/BreadcrumbBuilder.ts:50-57 | `/L/S…`, with or without a trailing `/`, normalises to the lowercased `/S…` |
| Breadcrumbs.NormalizeUnprefixed | src/utils/BreadcrumbBuilder.ts:50-57 | a canonical path without a supported first segment is only lowercased |
| Breadcrumbs.UppercaseLocaleIsKept | src/utils/BreadcrumbBuilder.ts:50-57 | the locale is matched before lowercasing: `/EN/docs` normalises to `/en/docs` |
| Breadcrumbs.SpellingsOfDocs | src/utils/BreadcrumbBuilder.ts:50-57 | `/fr/docs/`, `/en/Docs` and `/docs` share the normal form `/docs` |
| Breadcrumbs.Humanize | src/utils/BreadcrumbBuilder.ts:93-96 | split on `-`, capitalise each word, join with spaces; HumanizeByCharacter proves it equal to an independent character-wise definition |
| Breadcrumbs.HumanizeByCharacter | src/utils/BreadcrumbBuilder.ts:93-96 | split on `-`, capitalise, and join with spaces: every `-` becomes a space, and the first letter of each word is upper-cased (independent character-wise definition) |
| Breadcrumbs.HumanizeExample | src/utils/BreadcrumbBuilder.ts:93-96 | `my-custom-page` reads `My Custom Page` |
| Breadcrumbs.Breadcrumb | src/utils/BreadcrumbBuilder.ts:71-100 | the title lookup over an override map; its order of fallbacks is BreadcrumbPrecedence, and NoSegmentsMeansHome, BreadcrumbLocality and EmptyOverrideIgnored below complete it |
| Breadcrumbs.BreadcrumbPrecedence | src/utils/BreadcrumbBuilder.ts:71-100 | title order: non-empty override, then the static key table, then `t("breadcrumbs.<last>")` when it differs from the key, then the humanised last segment |
| Breadcrumbs.NoSegmentsMeansHome | src/utils/BreadcrumbBuilder.ts:84-99 | the final fallback (returning the normalised path) is unreachable: a path without segments normalises to a key of the table |
| Breadcrumbs.BreadcrumbLocality | src/utils/BreadcrumbBuilder.ts:72-77 | a title depends on the overrides only through the entry for its own normalised path |
| Breadcrumbs.EmptyOverrideIgnored | src/utils/BreadcrumbBuilder.ts:74-77 | an empty-string override behaves as no override |
| Breadcrumbs.OverrideSharedByNormalForm | src/utils/BreadcrumbBuilder.ts:72-77 | after a non-empty override is set for `p`, it is the title of every `q` with the same normal form |
| Breadcrumbs.Trail | src/utils/BreadcrumbBuilder.ts:102-144 | the specified trail, with the home title and the crumb title as parameters; TrailShape, TrailTitle, EmptyPathNoTrail and TrailOfLocalizedPath state its shape, and LocalizedBreadcrumbs is proved equal to it |
| Breadcrumbs.TrailShape | src/utils/BreadcrumbBuilder.ts:102-144 | for a non-empty path: the home crumb first (at `/<lang>` or `/`), then one crumb per segment after the locale, each path extending the previous one by `/segment` |
| Breadcrumbs.TrailTitle | src/utils/BreadcrumbBuilder.ts:134-140 | each crumb after home is titled by the title lookup applied to its own path |
| Breadcrumbs.EmptyPathNoTrail | src/utils/BreadcrumbBuilder.ts:106 | an empty path gives an empty trail |
| Breadcrumbs.TrailOfLocalizedPath | src/utils/BreadcrumbBuilder.ts:108-141 | for `/L/S…`, with or without a trailing `/`: the length is 1 plus the number of segments, home is at `/L`, the k-th crumb is at `/L/s1/…/sk`, and a bare `/L` gives home alone |
| Breadcrumbs.ItemsOf | src/utils/BreadcrumbBuilder.ts:146-154 | the trail mapped to rendered items; ItemsShape states labels, the current flag and links |
| Breadcrumbs.ItemsShape | src/utils/BreadcrumbBuilder.ts:146-154 | same length and labels as the trail; exactly the last item is current; the current item has no link; every other item links to its path |
| Breadcrumbs.NotifiedCounts | src/utils/BreadcrumbBuilder.ts:45-48 | a notification round calls every registered listener exactly once and no other listener |
| Breadcrumbs.BreadcrumbBuilder.constructor | src/utils/BreadcrumbBuilder.ts:11-15 | no overrides, no listeners, version 0 |
| Breadcrumbs.BreadcrumbBuilder.GetVersion | src/utils/BreadcrumbBuilder.ts:17-19 | returns the version counter |
| Breadcrumbs.BreadcrumbBuilder.NotifyListeners | src/utils/BreadcrumbBuilder.ts:45-48 | the version rises by 1; then every registered listener is called once and sees the new version; nothing else changes |
| Breadcrumbs.BreadcrumbBuilder.SetDynamicTitle | src/utils/BreadcrumbBuilder.ts:28-32 | the override for the normalised path is set, all other overrides are kept, the version rises by 1, and listeners are notified |
| Breadcrumbs.BreadcrumbBuilder.ClearDynamicTitle | src/utils/BreadcrumbBuilder.ts:34-38 | only the normalised path's override is removed; the version rises by 1 even when it was absent; listeners are notified |
| Breadcrumbs.BreadcrumbBuilder.Subscribe | src/utils/BreadcrumbBuilder.ts:40-41 | adds the listener to a set, so adding it twice registers it once; the version is unchanged |
| Breadcrumbs.BreadcrumbBuilder.Unsubscribe | src/utils/BreadcrumbBuilder.ts:42 | removes the listener, so later notifications no longer call it |
| Breadcrumbs.BreadcrumbBuilder.LocalizedBreadcrumb | src/utils/BreadcrumbBuilder.ts:71-100 | `Breadcrumb` over the builder's current overrides, so BreadcrumbPrecedence and OverrideSharedByNormalForm apply to it |
| Breadcrumbs.BreadcrumbBuilder.LocalizedBreadcrumbs | src/utils/BreadcrumbBuilder.ts:102-144 | the result is the specified trail: home titled `t("breadcrumbs.home")`, and every crumb titled by the lookup over the current overrides; so the trail lemmas above hold of it |
| Breadcrumbs.BreadcrumbBuilder.AppendCrumbs | src/utils/BreadcrumbBuilder.ts:133-141 | the loop appends one crumb per segment, for the growing prefix path |
| Breadcrumbs.BreadcrumbBuilder.GetLocalizedBreadcrumbItems | src/utils/BreadcrumbBuilder.ts:146-154 | the items are those of the specified trail |
| Breadcrumbs.BreadcrumbRegistry.GetInstance | src/utils/BreadcrumbBuilder.ts:21-26 | the first call creates a fresh, empty builder; every later call returns that same builder |

## Left out

- Case mapping is ASCII-only. `toLowerCase`/`toUpperCase` on non-ASCII text (for example the Kelvin sign, or `ß` becoming `SS`) is not modelled.
- Breadcrumbs.Breadcrumb: the static key table is a plain map. JavaScript object-prototype keys such as `constructor` are left out; they are reachable only for a normalised path without a leading `/`.
- Breadcrumbs.BreadcrumbBuilder.LocalizedBreadcrumbs: an `undefined` path is treated as the empty string. Both give `[]`.
- Breadcrumbs.BreadcrumbItem: the field the source calls `label` is named `caption`, because `label` is a Dafny keyword.
- Listeners are identities with call counts. Their side effects, re-entrant mutation of the builder during notification, and the order in which they are called are not modelled.
- StaticFiles.ReplaceAll: `$`-patterns in replacement strings (`$&`, `$1`, …) are not modelled. Values are inserted literally.
- StaticFiles.ProcessStaticFiles: file reads and writes cannot fail in the model. The `process.exit(1)` path, console output, `dotenv` loading and directory creation are left out. The date is a parameter, not the clock.
- React wiring (`useSyncExternalStore`, effects, routing components, `Navigate`), the pages, `formatDateTime`, and the i18next `.init` options and plugins are not part of this model. They are composition over external libraries.
- I18n.I18nInitializer.InitializeI18n: the i18next configuration is recorded only as the detected language, not as library state.
