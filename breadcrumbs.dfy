/**
 * Breadcrumb trails for locale-prefixed paths: the per-path title overrides,
 * the title lookup with its fallbacks, the trail of prefixes of a path, and
 * the builder object that holds the overrides and notifies subscribers.
 */
module Breadcrumbs {
  import opened Wrappers
  import opened Strings
  import opened LanguageSupport
  import opened LanguageRouting

  /** A crumb of the trail: its title and the path it links to. */
  datatype BreadcrumbPath = BreadcrumbPath(title: string, path: string)

  /** A crumb as rendered (the source calls `caption` `label`): the last one is current and has no link. */
  datatype BreadcrumbItem = BreadcrumbItem(caption: string, href: Option<string>, current: bool)

  const HOME_KEY: string := "breadcrumbs.home"

  /** The static translation keys of the known top-level pages. */
  const PATH_TRANSLATION_KEYS: map<string, string> := map[
    "" := HOME_KEY,
    "/" := HOME_KEY,
    "/docs" := "breadcrumbs.docs",
    "/histories" := "breadcrumbs.histories",
    "/settings" := "breadcrumbs.settings",
    "/sitemap" := "breadcrumbs.sitemap",
    "/login" := "breadcrumbs.login",
    "/privacy" := "breadcrumbs.privacy",
    "/terms" := "breadcrumbs.terms"
  ]

  /** `p.replace(/\/+$/, '')`: drops the whole run of trailing slashes. */
  function TrimTrailingSlashes(p: string): (r: string)
    ensures |r| <= |p| && r == p[..|r|]
    ensures !EndsWith(r, '/')
    ensures forall i :: |r| <= i < |p| ==> p[i] == '/'
  {
    if p != [] && p[|p| - 1] == '/' then TrimTrailingSlashes(p[..|p| - 1]) else p
  }

  /** Trailing slashes are dropped, except from the root path `/` itself. */
  function StripTrailingSlashes(p: string): (r: string)
    ensures |r| <= |p| && r == p[..|r|]
    ensures p == "/" ==> r == "/"
    ensures p != "/" ==> !EndsWith(r, '/')
    ensures forall i :: |r| <= i < |p| ==> p[i] == '/'
  {
    if p != "/" && EndsWith(p, '/') then TrimTrailingSlashes(p) else p
  }

  /** Text without a trailing slash is left alone. */
  lemma StripWithoutTrailingSlash(p: string)
    requires !EndsWith(p, '/')
    ensures StripTrailingSlashes(p) == p
  {
  }

  /**
   * `normalizePath`: drop one supported locale prefix (case-sensitively),
   * then the trailing slashes unless the result is `/`, then lowercase.
   */
  function NormalizePath(path: string): (r: string)
    ensures forall i :: 0 <= i < |r| ==> !('A' <= r[i] <= 'Z')
    ensures r == "/" || !EndsWith(r, '/')
  {
    Lower(StripTrailingSlashes(RemoveLanguageFromPath(path)))
  }

  /** A locale-prefixed path normalises to its lowercased canonical remainder. */
  lemma NormalizeStripsOneLocale(lang: string, segs: seq<string>, trailing: bool)
    requires IsLanguageSupported(lang) && ValidSegments(segs)
    ensures NormalizePath(PathOf([lang] + segs) + (if trailing then "/" else "")) == Lower(PathOf(segs))
  {
    var p := PathOf([lang] + segs);
    var q := p + (if trailing then "/" else "");
    LocaleRoundTrip(lang, segs);
    if trailing {
      SegmentsTrailingSlash(p);
      assert q == p + "/";
    } else {
      assert q == p;
    }
    PathOfShape(segs);
    if segs != [] {
      StripWithoutTrailingSlash(PathOf(segs));
    }
  }

  /** A canonical path whose first segment is not a supported code only gets lowercased. */
  lemma NormalizeUnprefixed(segs: seq<string>)
    requires ValidSegments(segs)
    requires segs != [] ==> !IsLanguageSupported(segs[0])
    ensures NormalizePath(PathOf(segs)) == Lower(PathOf(segs))
  {
    RoutingOnCanonicalPaths(segs);
    PathOfShape(segs);
    if segs != [] {
      StripWithoutTrailingSlash(PathOf(segs));
    }
  }

  /**
   * The locale is matched before lowercasing: `/EN/docs` keeps its first
   * segment and normalises to `/en/docs`, not to `/docs`.
   */
  lemma UppercaseLocaleIsKept()
    ensures NormalizePath("/EN/docs") == "/en/docs"
  {
    NearMisses();
    UppercaseLocalePath();
    NormalizeUnprefixed(["EN", "docs"]);
    LowerOfUppercaseLocalePath();
  }

  lemma UppercaseLocalePath()
    ensures PathOf(["EN", "docs"]) == "/EN/docs"
  {
    var segs := ["EN", "docs"];
    assert segs[1..] == ["docs"];
    assert Join(segs, "/") == "EN" + "/" + "docs";
  }

  lemma LowerOfUppercaseLocalePath()
    ensures Lower("/EN/docs") == "/en/docs"
  {
    forall i | 0 <= i < 8
      ensures Lower("/EN/docs")[i] == "/en/docs"[i]
    {
    }
  }

  /** `word.charAt(0).toUpperCase() + word.slice(1)`. */
  function Capitalize(word: string): string {
    if word == "" then "" else [UpperChar(word[0])] + word[1..]
  }

  function CapitalizeAll(words: seq<string>): (r: seq<string>)
    ensures |r| == |words|
    ensures forall i :: 0 <= i < |words| ==> r[i] == Capitalize(words[i])
  {
    if words == [] then [] else [Capitalize(words[0])] + CapitalizeAll(words[1..])
  }

  /** A slug made readable: hyphen-separated words, capitalised and joined by spaces. */
  function Humanize(segment: string): string {
    Join(CapitalizeAll(Split(segment, '-')), " ")
  }

  /**
   * The same transformation character by character: every `-` becomes a
   * space, and the first character and every character after a `-` is upper-cased.
   */
  function HumanizeChars(s: string): (r: string)
    ensures |r| == |s|
  {
    seq(|s|, i requires 0 <= i < |s| =>
      if s[i] == '-' then ' ' else if i == 0 || s[i - 1] == '-' then UpperChar(s[i]) else s[i])
  }

  lemma HumanizeCharsWord(a: string)
    requires '-' !in a
    ensures HumanizeChars(a) == Capitalize(a)
  {
  }

  lemma HumanizeCharsSplit(a: string, b: string)
    requires '-' !in a
    ensures HumanizeChars(a + "-" + b) == Capitalize(a) + " " + HumanizeChars(b)
  {
    var s := a + "-" + b;
    var lhs := HumanizeChars(s);
    var rhs := Capitalize(a) + " " + HumanizeChars(b);
    assert |lhs| == |rhs|;
    forall i | 0 <= i < |lhs|
      ensures lhs[i] == rhs[i]
    {
      if i < |a| {
        assert s[i] == a[i];
        if i > 0 {
          assert s[i - 1] == a[i - 1];
        }
      } else if i > |a| {
        assert s[i] == b[i - |a| - 1];
        if i > |a| + 1 {
          assert s[i - 1] == b[i - |a| - 2];
        }
      }
    }
  }

  /** `Humanize` agrees with the character-by-character description. */
  lemma {:induction false} HumanizeByCharacter(s: string)
    ensures Humanize(s) == HumanizeChars(s)
    decreases |s|
  {
    if '-' !in s {
      HumanizeCharsWord(s);
    } else {
      var i := IndexOf(s, '-');
      var a, b := s[..i], s[i + 1..];
      assert s == a + "-" + b;
      SplitAfter(a, '-', b);
      HumanizeByCharacter(b);
      var rest := CapitalizeAll(Split(b, '-'));
      assert CapitalizeAll([a] + Split(b, '-')) == [Capitalize(a)] + rest by {
        assert ([a] + Split(b, '-'))[1..] == Split(b, '-');
      }
      assert ([Capitalize(a)] + rest)[1..] == rest;
      HumanizeCharsSplit(a, b);
    }
  }

  lemma HumanizeCharsExample()
    ensures HumanizeChars("my-custom-page") == "My Custom Page"
  {
  }

  /** `my-custom-page` reads `My Custom Page`. */
  lemma HumanizeExample()
    ensures Humanize("my-custom-page") == "My Custom Page"
  {
    HumanizeByCharacter("my-custom-page");
    HumanizeCharsExample();
  }

  /**
   * `localizedBreadcrumb` over an explicit override map: a non-empty override
   * for the normalised path; else the static key table; else the translation
   * of `breadcrumbs.<last segment>` when `t` knows it (returns something
   * other than the key); else the humanised last segment; else the
   * normalised path itself.
   */
  function Breadcrumb(titles: map<string, string>, path: string, t: string -> string): string {
    var normalized := NormalizePath(path);
    if normalized in titles && titles[normalized] != "" then titles[normalized]
    else if normalized in PATH_TRANSLATION_KEYS then t(PATH_TRANSLATION_KEYS[normalized])
    else
      var segs := Segments(normalized);
      if segs != [] then
        var last := segs[|segs| - 1];
        var key := "breadcrumbs." + last;
        if t(key) != key then t(key) else Humanize(last)
      else normalized
  }

  /** The four sources of a title, in the order they are tried. */
  lemma BreadcrumbPrecedence(titles: map<string, string>, path: string, t: string -> string)
    ensures var n := NormalizePath(path);
      && (n in titles && titles[n] != "" ==> Breadcrumb(titles, path, t) == titles[n])
      && (!(n in titles && titles[n] != "") && n in PATH_TRANSLATION_KEYS ==>
            Breadcrumb(titles, path, t) == t(PATH_TRANSLATION_KEYS[n]))
      && (!(n in titles && titles[n] != "") && n !in PATH_TRANSLATION_KEYS && Segments(n) != [] ==>
            var last := Segments(n)[|Segments(n)| - 1];
            Breadcrumb(titles, path, t)
              == if t("breadcrumbs." + last) != "breadcrumbs." + last then t("breadcrumbs." + last) else Humanize(last))
  {
  }

  /**
   * The last fallback is never reached: a normalised path without segments
   * is `""` or `/`, and both are in the key table.
   */
  lemma NoSegmentsMeansHome(path: string)
    ensures Segments(NormalizePath(path)) == [] ==> NormalizePath(path) in PATH_TRANSLATION_KEYS
  {
    var r := RemoveLanguageFromPath(path);
    var stripped := StripTrailingSlashes(r);
    var n := Lower(stripped);
    if Segments(n) == [] {
      SlashesOnly(n);
      LowerKeepsSlashes(stripped);
      if stripped != "" && stripped != "/" {
        assert false;
      }
      assert n == stripped;
    }
  }

  /** A string without segments consists of slashes only. */
  lemma SlashesOnly(s: string)
    requires Segments(s) == []
    ensures forall i :: 0 <= i < |s| ==> s[i] == '/'
  {
    forall i | 0 <= i < |s|
      ensures s[i] == '/'
    {
      if s[i] != '/' {
        NotOnlySlashes(s, i);
      }
    }
  }

  lemma NotOnlySlashes(s: string, i: nat)
    requires i < |s| && s[i] != '/'
    ensures Segments(s) != []
  {
    var j := i;
    while j > 0 && s[j - 1] != '/'
      invariant 0 <= j <= i
      invariant forall k :: j <= k <= i ==> s[k] != '/'
    {
      j := j - 1;
    }
    if j == 0 {
      SegmentsAppendRight(s);
    } else {
      var a, b := s[..j - 1], s[j..];
      assert s == a + "/" + b;
      SegmentsAppend(a, b);
      SegmentsAppendRight(b);
    }
  }

  lemma SegmentsAppendRight(s: string)
    requires s != [] && s[0] != '/'
    ensures Segments(s) != []
  {
    if '/' in s {
      var i := IndexOf(s, '/');
      var a, b := s[..i], s[i + 1..];
      assert s == a + "/" + b;
      SegmentsAppend(a, b);
      assert a != "" && '/' !in a;
      SegmentsOfSegment(a);
    } else {
      SegmentsOfSegment(s);
    }
  }

  lemma LowerKeepsSlashes(s: string)
    ensures forall i :: 0 <= i < |s| ==> (Lower(s)[i] == '/' <==> s[i] == '/')
  {
  }

  /** The title of a path depends on the overrides only through its own normalised path. */
  lemma BreadcrumbLocality(titles: map<string, string>, other: map<string, string>, path: string, t: string -> string)
    requires NormalizePath(path) in titles <==> NormalizePath(path) in other
    requires NormalizePath(path) in titles ==> titles[NormalizePath(path)] == other[NormalizePath(path)]
    ensures Breadcrumb(titles, path, t) == Breadcrumb(other, path, t)
  {
  }

  /** An empty override is the same as no override. */
  lemma EmptyOverrideIgnored(titles: map<string, string>, path: string, t: string -> string)
    ensures Breadcrumb(titles[NormalizePath(path) := ""], path, t)
         == Breadcrumb(titles - {NormalizePath(path)}, path, t)
  {
  }

  /**
   * A non-empty override set through one spelling of a path is the title of
   * every path with the same normalised form.
   */
  lemma OverrideSharedByNormalForm(titles: map<string, string>, p: string, title: string, q: string, t: string -> string)
    requires title != "" && NormalizePath(q) == NormalizePath(p)
    ensures Breadcrumb(titles[NormalizePath(p) := title], q, t) == title
  {
  }

  /**
   * `/fr/docs/`, `/en/Docs` and `/docs` share one normal form, so they share
   * an override.
   */
  lemma SpellingsOfDocs()
    ensures NormalizePath("/fr/docs/") == "/docs"
    ensures NormalizePath("/en/Docs") == "/docs"
    ensures NormalizePath("/docs") == "/docs"
  {
    FrenchDocsWithSlash();
    EnglishCapitalDocs();
    PlainDocs();
  }

  lemma FrenchDocsWithSlash()
    ensures NormalizePath("/fr/docs/") == "/docs"
  {
    SupportedFrenchAndEnglish();
    DocsPaths();
    NormalizeStripsOneLocale("fr", ["docs"], true);
    LowerDocs();
  }

  lemma EnglishCapitalDocs()
    ensures NormalizePath("/en/Docs") == "/docs"
  {
    SupportedFrenchAndEnglish();
    DocsPaths();
    NormalizeStripsOneLocale("en", ["Docs"], false);
    assert PathOf(["en"] + ["Docs"]) + (if false then "/" else "") == "/en/Docs";
    LowerDocs();
  }

  lemma PlainDocs()
    ensures NormalizePath("/docs") == "/docs"
  {
    SupportedFrenchAndEnglish();
    DocsPaths();
    NormalizeUnprefixed(["docs"]);
    LowerDocs();
  }

  lemma SupportedFrenchAndEnglish()
    ensures IsLanguageSupported("fr") && IsLanguageSupported("en") && !IsLanguageSupported("docs")
  {
  }

  lemma DocsPaths()
    ensures PathOf(["fr", "docs"]) + "/" == "/fr/docs/"
    ensures PathOf(["en", "Docs"]) == "/en/Docs"
    ensures PathOf(["docs"]) == "/docs" && PathOf(["Docs"]) == "/Docs"
    ensures ["fr"] + ["docs"] == ["fr", "docs"] && ["en"] + ["Docs"] == ["en", "Docs"]
  {
    assert ["fr", "docs"][1..] == ["docs"];
    assert ["en", "Docs"][1..] == ["Docs"];
  }

  lemma LowerDocs()
    ensures Lower("/docs") == "/docs" && Lower("/Docs") == "/docs"
  {
    forall i | 0 <= i < 5
      ensures Lower("/Docs")[i] == "/docs"[i]
    {
    }
  }

  /** The home crumb links to `/<lang>` for a localized path, else to `/`. */
  function HomePath(lang: Option<string>): string {
    if lang.Some? then "/" + lang.value else "/"
  }

  /** The path the crumbs of the segments are appended to. */
  function BasePath(lang: Option<string>): string {
    if lang.Some? then "/" + lang.value else ""
  }

  /** `base` followed by `/segment` for each segment, in order. */
  function Accumulate(base: string, segs: seq<string>): string
    decreases |segs|
  {
    if segs == [] then base else Accumulate(base, segs[..|segs| - 1]) + "/" + segs[|segs| - 1]
  }

  lemma {:induction false} AccumulateJoin(base: string, segs: seq<string>)
    requires segs != []
    ensures Accumulate(base, segs) == base + "/" + Join(segs, "/")
    decreases |segs|
  {
    var init := segs[..|segs| - 1];
    if |segs| > 1 {
      AccumulateJoin(base, init);
      JoinSnoc(init, segs[|segs| - 1], "/");
      assert init + [segs[|segs| - 1]] == segs;
    } else {
      assert init == [];
    }
  }

  /** The title lookup for a fixed override map and translate function. */
  function TitleOf(titles: map<string, string>, t: string -> string): string -> string {
    p => Breadcrumb(titles, p, t)
  }

  /** A crumb for a path, titled by `title`. */
  function Crumb(title: string -> string, path: string): BreadcrumbPath {
    BreadcrumbPath(title(path), path)
  }

  /** One crumb per segment, for the growing prefixes of the path. */
  function Crumbs(title: string -> string, base: string, segs: seq<string>): seq<BreadcrumbPath> {
    seq(|segs|, k requires 0 <= k < |segs| => Crumb(title, Accumulate(base, segs[..k + 1])))
  }

  /** The segments that get a crumb of their own: those after the locale. */
  function TrailSegments(path: string): seq<string> {
    Segments(RemoveLanguageFromPath(StripTrailingSlashes(path)))
  }

  /**
   * `localizedBreadcrumbs`, for a home title and a title lookup (the
   * builder passes `t("breadcrumbs.home")` and `TitleOf` its overrides):
   * nothing for an empty path; otherwise the home crumb, then one crumb per segment left
   * once trailing slashes and the locale are removed. (The source returns
   * the home crumb alone when nothing is left; that is the case of no
   * segments here, see `LocalizedBreadcrumbs`.)
   */
  function Trail(homeTitle: string, title: string -> string, path: string): seq<BreadcrumbPath> {
    if path == "" then []
    else
      var lang := ExtractLanguageFromPath(StripTrailingSlashes(path));
      [BreadcrumbPath(homeTitle, HomePath(lang))] + Crumbs(title, BasePath(lang), TrailSegments(path))
  }

  lemma SegmentsOfRoot()
    ensures Segments("") == [] && Segments("/") == []
  {
    SegmentsOfEmpty();
    SegmentsTrailingSlash("");
    assert "" + "/" == "/";
  }

  /** Each crumb extends the previous crumb's path by its own segment. */
  lemma CrumbsShape(title: string -> string, base: string, segs: seq<string>)
    ensures var crumbs := Crumbs(title, base, segs);
      && |crumbs| == |segs|
      && (segs != [] ==> crumbs[0].path == base + "/" + segs[0])
      && (forall k :: 1 <= k < |crumbs| ==> crumbs[k].path == crumbs[k - 1].path + "/" + segs[k])
  {
    var crumbs := Crumbs(title, base, segs);
    if segs != [] {
      CrumbPath(title, base, segs, 0);
      AccumulateStep(base, segs, 0);
    }
    forall k | 1 <= k < |crumbs|
      ensures crumbs[k].path == crumbs[k - 1].path + "/" + segs[k]
    {
      CrumbPath(title, base, segs, k);
      CrumbPath(title, base, segs, k - 1);
      AccumulateStep(base, segs, k);
    }
  }

  lemma AccumulateStep(base: string, segs: seq<string>, k: nat)
    requires k < |segs|
    ensures Accumulate(base, segs[..k + 1]) == Accumulate(base, segs[..k]) + "/" + segs[k]
  {
    assert segs[..k + 1][..k] == segs[..k];
  }

  lemma CrumbPath(title: string -> string, base: string, segs: seq<string>, k: nat)
    requires k < |segs|
    ensures Crumbs(title, base, segs)[k].path == Accumulate(base, segs[..k + 1])
  {
  }

  /**
   * The trail of a non-empty path: the home crumb, then one crumb per
   * segment after the locale, each extending the previous path by
   * `/segment`.
   */
  lemma TrailShape(homeTitle: string, title: string -> string, path: string)
    requires path != ""
    ensures var trail := Trail(homeTitle, title, path);
      var segs := TrailSegments(path);
      var lang := ExtractLanguageFromPath(StripTrailingSlashes(path));
      && |trail| == |segs| + 1
      && trail[0] == BreadcrumbPath(homeTitle, HomePath(lang))
      && (segs != [] ==> trail[1].path == BasePath(lang) + "/" + segs[0])
      && (forall k :: 2 <= k < |trail| ==> trail[k].path == trail[k - 1].path + "/" + segs[k - 1])
  {
    var lang := ExtractLanguageFromPath(StripTrailingSlashes(path));
    var segs := TrailSegments(path);
    var crumbs := Crumbs(title, BasePath(lang), segs);
    var home := BreadcrumbPath(homeTitle, HomePath(lang));
    CrumbsShape(title, BasePath(lang), segs);
    TrailShapeOf(home, crumbs, segs, BasePath(lang));
  }

  /** Every crumb after home is titled by the lookup of its own path. */
  lemma TrailTitle(homeTitle: string, title: string -> string, path: string, k: nat)
    requires path != "" && 1 <= k < |Trail(homeTitle, title, path)|
    ensures Trail(homeTitle, title, path)[k].title == title(Trail(homeTitle, title, path)[k].path)
  {
    var lang := ExtractLanguageFromPath(StripTrailingSlashes(path));
    var crumbs := Crumbs(title, BasePath(lang), TrailSegments(path));
    var c := crumbs[k - 1];
    assert Trail(homeTitle, title, path)[k] == c;
    CrumbTitle(title, BasePath(lang), TrailSegments(path), k - 1);
  }

  lemma CrumbTitle(title: string -> string, base: string, segs: seq<string>, k: nat)
    requires k < |segs|
    ensures Crumbs(title, base, segs)[k].title == title(Crumbs(title, base, segs)[k].path)
  {
  }

  /** The shape facts, for a home crumb followed by crumbs of that shape. */
  lemma TrailShapeOf(home: BreadcrumbPath, crumbs: seq<BreadcrumbPath>, segs: seq<string>, base: string)
    requires |crumbs| == |segs|
    requires segs != [] ==> crumbs[0].path == base + "/" + segs[0]
    requires forall k :: 1 <= k < |crumbs| ==> crumbs[k].path == crumbs[k - 1].path + "/" + segs[k]
    ensures var trail := [home] + crumbs;
      && |trail| == |segs| + 1
      && trail[0] == home
      && (segs != [] ==> trail[1].path == base + "/" + segs[0])
      && (forall k :: 2 <= k < |trail| ==> trail[k].path == trail[k - 1].path + "/" + segs[k - 1])
  {
    var trail := [home] + crumbs;
    forall k | 1 <= k < |trail|
      ensures trail[k] == crumbs[k - 1]
    {
    }
  }

  /** An empty path has no trail at all. */
  lemma EmptyPathNoTrail(homeTitle: string, title: string -> string)
    ensures Trail(homeTitle, title, "") == []
  {
  }

  /**
   * The trail of a locale-prefixed canonical path, with or without a
   * trailing slash: home links to `/<lang>` and the k-th crumb to the path
   * of the locale and the first k segments. A locale-only path gives the
   * home crumb alone.
   */
  lemma TrailOfLocalizedPath(homeTitle: string, title: string -> string, lang: string, segs: seq<string>, trailing: bool)
    requires IsLanguageSupported(lang) && ValidSegments(segs)
    ensures var trail := Trail(homeTitle, title, PathOf([lang] + segs) + (if trailing then "/" else ""));
      && |trail| == |segs| + 1
      && trail[0] == BreadcrumbPath(homeTitle, "/" + lang)
      && forall k :: 1 <= k < |trail| ==> trail[k].path == PathOf([lang] + segs[..k])
  {
    LocalizedPathPieces(lang, segs, trailing);
    TrailFromPieces(homeTitle, title, PathOf([lang] + segs) + (if trailing then "/" else ""), lang, segs);
  }

  /** The trail of any path whose locale is `lang` and whose remaining segments are `segs`. */
  lemma TrailFromPieces(homeTitle: string, title: string -> string, path: string, lang: string, segs: seq<string>)
    requires path != ""
    requires ExtractLanguageFromPath(StripTrailingSlashes(path)) == Some(lang) && TrailSegments(path) == segs
    ensures var trail := Trail(homeTitle, title, path);
      && |trail| == |segs| + 1
      && trail[0] == BreadcrumbPath(homeTitle, "/" + lang)
      && forall k :: 1 <= k < |trail| ==> trail[k].path == PathOf([lang] + segs[..k])
  {
    TrailUnderLocale(homeTitle, title, path, lang);
    HomeAndCrumbsUnderLocale(homeTitle, title, lang, segs);
  }

  /** The trail of a path with locale `lang`: home at `/<lang>`, then the crumbs under `/<lang>`. */
  lemma TrailUnderLocale(homeTitle: string, title: string -> string, path: string, lang: string)
    requires path != ""
    requires ExtractLanguageFromPath(StripTrailingSlashes(path)) == Some(lang)
    ensures Trail(homeTitle, title, path)
         == [BreadcrumbPath(homeTitle, "/" + lang)] + Crumbs(title, "/" + lang, TrailSegments(path))
  {
    var l := ExtractLanguageFromPath(StripTrailingSlashes(path));
    assert HomePath(l) == "/" + lang && BasePath(l) == "/" + lang;
  }

  lemma HomeAndCrumbsUnderLocale(homeTitle: string, title: string -> string, lang: string, segs: seq<string>)
    ensures var trail := [BreadcrumbPath(homeTitle, "/" + lang)] + Crumbs(title, "/" + lang, segs);
      && |trail| == |segs| + 1
      && forall k :: 1 <= k < |trail| ==> trail[k].path == PathOf([lang] + segs[..k])
  {
    var crumbs := Crumbs(title, "/" + lang, segs);
    var trail := [BreadcrumbPath(homeTitle, "/" + lang)] + crumbs;
    forall k | 1 <= k < |trail|
      ensures trail[k].path == PathOf([lang] + segs[..k])
    {
      assert trail[k] == crumbs[k - 1];
      CrumbsUnderLocale(title, lang, segs, k);
    }
  }

  /** Under the base `/<lang>`, the crumb of the first k segments links to the path of the locale and those segments. */
  lemma CrumbsUnderLocale(title: string -> string, lang: string, segs: seq<string>, k: nat)
    requires 1 <= k <= |segs|
    ensures Crumbs(title, "/" + lang, segs)[k - 1].path == PathOf([lang] + segs[..k])
  {
    CrumbPath(title, "/" + lang, segs, k - 1);
    AccumulateJoin("/" + lang, segs[..k]);
    CanonicalWithLocale(lang, segs[..k]);
  }

  /** How the trail reads a locale-prefixed canonical path: its locale, and the segments after it. */
  lemma LocalizedPathPieces(lang: string, segs: seq<string>, trailing: bool)
    requires IsLanguageSupported(lang) && ValidSegments(segs)
    ensures var path := PathOf([lang] + segs) + (if trailing then "/" else "");
      && path != ""
      && ExtractLanguageFromPath(StripTrailingSlashes(path)) == Some(lang)
      && TrailSegments(path) == segs
  {
    var p := PathOf([lang] + segs);
    var path := p + (if trailing then "/" else "");
    PathOfShape([lang] + segs);
    SupportedShape(lang);
    assert StripTrailingSlashes(path) == p by {
      if trailing {
        assert path[..|p|] == p;
        assert p[|p| - 1] != '/';
        assert TrimTrailingSlashes(path) == TrimTrailingSlashes(p);
      }
      StripWithoutTrailingSlash(p);
    }
    LocaleRoundTrip(lang, segs);
    SegmentsOfPath(segs);
  }

  lemma CanonicalWithLocale(lang: string, segs: seq<string>)
    requires segs != []
    ensures PathOf([lang] + segs) == "/" + lang + "/" + Join(segs, "/")
  {
    assert ([lang] + segs)[1..] == segs;
  }

  /** Appending a segment appends its crumb. */
  lemma CrumbsSnoc(title: string -> string, base: string, segs: seq<string>, i: nat)
    requires i < |segs|
    ensures Crumbs(title, base, segs[..i + 1])
         == Crumbs(title, base, segs[..i]) + [Crumb(title, Accumulate(base, segs[..i + 1]))]
  {
    assert segs[..i + 1] == segs[..i] + [segs[i]];
    CrumbsAppend(title, base, segs[..i], segs[i]);
  }

  lemma CrumbsAppend(title: string -> string, base: string, segs: seq<string>, x: string)
    ensures Crumbs(title, base, segs + [x])
         == Crumbs(title, base, segs) + [Crumb(title, Accumulate(base, segs + [x]))]
  {
    var longer := Crumbs(title, base, segs + [x]);
    var shorter := Crumbs(title, base, segs);
    forall j | 0 <= j < |segs|
      ensures longer[j] == shorter[j]
    {
      assert (segs + [x])[..j + 1] == segs[..j + 1];
    }
    assert (segs + [x])[..|segs| + 1] == segs + [x];
  }

  /**
   * `getLocalizedBreadcrumbItems`: the trail as rendered items; the last is
   * the current page and carries no link.
   */
  function ItemsOf(trail: seq<BreadcrumbPath>): seq<BreadcrumbItem> {
    seq(|trail|, i requires 0 <= i < |trail| =>
      BreadcrumbItem(trail[i].title, if i == |trail| - 1 then None else Some(trail[i].path), i == |trail| - 1))
  }

  /**
   * Items and trail agree in length and labels; exactly the last item is
   * current, the current item has no link and every other item links to
   * its crumb's path.
   */
  lemma ItemsShape(trail: seq<BreadcrumbPath>)
    ensures var items := ItemsOf(trail);
      && |items| == |trail|
      && (forall i :: 0 <= i < |items| ==> items[i].caption == trail[i].title)
      && (forall i :: 0 <= i < |items| ==> (items[i].current <==> i == |items| - 1))
      && (forall i :: 0 <= i < |items| ==> (items[i].href.None? <==> items[i].current))
      && (forall i :: 0 <= i < |items| && !items[i].current ==> items[i].href == Some(trail[i].path))
  {
  }

  /** Subscribers are opaque identities; only how often each is called is modelled. */
  type ListenerId = nat

  /** Call counts after one notification round: every registered listener once more. */
  function Notified(calls: map<ListenerId, nat>, listeners: set<ListenerId>): map<ListenerId, nat> {
    map id | id in calls :: if id in listeners then calls[id] + 1 else calls[id]
  }

  /** A notification round calls each registered listener exactly once and no one else. */
  lemma NotifiedCounts(calls: map<ListenerId, nat>, listeners: set<ListenerId>, id: ListenerId)
    requires id in calls
    ensures id in Notified(calls, listeners)
    ensures id in listeners ==> Notified(calls, listeners)[id] == calls[id] + 1
    ensures id !in listeners ==> Notified(calls, listeners)[id] == calls[id]
  {
  }

  /**
   * `BreadcrumbBuilder`: the title overrides keyed by normalised path, the
   * registered listeners and a version counter that every change bumps.
   * The ghost fields `calls` and `seen` observe, per listener, how often it
   * was called and the version it could read when last called.
   */
  class BreadcrumbBuilder {
    var dynamicTitles: map<string, string>
    var listeners: set<ListenerId>
    var version: nat
    ghost var calls: map<ListenerId, nat>
    ghost var seen: map<ListenerId, nat>

    /** Every listener ever registered has a call count and a last-seen version. */
    ghost predicate Valid()
      reads this
    {
      listeners <= calls.Keys && calls.Keys == seen.Keys
    }

    constructor ()
      ensures Valid()
      ensures dynamicTitles == map[] && listeners == {} && version == 0
      ensures calls == map[] && seen == map[]
    {
      dynamicTitles := map[];
      listeners := {};
      version := 0;
      calls := map[];
      seen := map[];
    }

    function GetVersion(): (v: nat)
      reads this
      ensures v == version
    {
      version
    }

    /** Bump the version, then call every registered listener once. */
    method NotifyListeners()
      requires Valid()
      modifies this
      ensures Valid()
      ensures version == old(version) + 1
      ensures calls == Notified(old(calls), old(listeners))
      ensures forall id :: id in seen ==> seen[id] == if id in listeners then version else old(seen)[id]
      ensures seen.Keys == old(seen).Keys
      ensures listeners == old(listeners) && dynamicTitles == old(dynamicTitles)
    {
      version := version + 1;
      var pending := listeners;
      while pending != {}
        invariant pending <= listeners
        invariant Valid()
        invariant calls.Keys == old(calls).Keys && seen.Keys == old(seen).Keys
        invariant forall id :: id in calls ==>
          calls[id] == if id in listeners - pending then old(calls)[id] + 1 else old(calls)[id]
        invariant forall id :: id in seen ==>
          seen[id] == if id in listeners - pending then version else old(seen)[id]
        invariant listeners == old(listeners) && dynamicTitles == old(dynamicTitles)
        invariant version == old(version) + 1
        decreases pending
      {
        var id :| id in pending;
        calls := calls[id := calls[id] + 1];
        seen := seen[id := version];
        pending := pending - {id};
      }
    }

    /** Override the title of every spelling of `path`, then notify. */
    method SetDynamicTitle(path: string, title: string)
      requires Valid()
      modifies this
      ensures Valid()
      ensures dynamicTitles == old(dynamicTitles)[NormalizePath(path) := title]
      ensures version == old(version) + 1
      ensures listeners == old(listeners)
      ensures calls == Notified(old(calls), listeners)
      ensures forall id :: id in seen ==> seen[id] == if id in listeners then version else old(seen)[id]
      ensures seen.Keys == old(seen).Keys
    {
      var normalizedPath := NormalizePath(path);
      dynamicTitles := dynamicTitles[normalizedPath := title];
      NotifyListeners();
    }

    /** Drop the override of `path` (present or not), then notify. */
    method ClearDynamicTitle(path: string)
      requires Valid()
      modifies this
      ensures Valid()
      ensures dynamicTitles == old(dynamicTitles) - {NormalizePath(path)}
      ensures version == old(version) + 1
      ensures listeners == old(listeners)
      ensures calls == Notified(old(calls), listeners)
      ensures forall id :: id in seen ==> seen[id] == if id in listeners then version else old(seen)[id]
      ensures seen.Keys == old(seen).Keys
    {
      var normalizedPath := NormalizePath(path);
      dynamicTitles := dynamicTitles - {normalizedPath};
      NotifyListeners();
    }

    /** Register a listener; registering it again changes nothing. */
    method Subscribe(listener: ListenerId)
      requires Valid()
      modifies this
      ensures Valid()
      ensures listeners == old(listeners) + {listener}
      ensures calls == if listener in old(calls) then old(calls) else old(calls)[listener := 0]
      ensures seen == if listener in old(seen) then old(seen) else old(seen)[listener := old(version)]
      ensures dynamicTitles == old(dynamicTitles) && version == old(version)
    {
      listeners := listeners + {listener};
      if listener !in calls {
        calls := calls[listener := 0];
        seen := seen[listener := version];
      }
    }

    /** The function `subscribe` returns: the listener is not called again. */
    method Unsubscribe(listener: ListenerId)
      requires Valid()
      modifies this
      ensures Valid()
      ensures listeners == old(listeners) - {listener}
      ensures calls == old(calls) && seen == old(seen)
      ensures dynamicTitles == old(dynamicTitles) && version == old(version)
    {
      listeners := listeners - {listener};
    }

    /** `localizedBreadcrumb` with the current overrides. */
    function LocalizedBreadcrumb(path: string, t: string -> string): string
      reads this
    {
      Breadcrumb(dynamicTitles, path, t)
    }

    /** `localizedBreadcrumbs`: builds the trail crumb by crumb. */
    method LocalizedBreadcrumbs(path: string, t: string -> string) returns (result: seq<BreadcrumbPath>)
      ensures result == Trail(t(HOME_KEY), TitleOf(dynamicTitles, t), path)
    {
      if path == "" {
        return [];
      }
      var cleanPath := path;
      if cleanPath != "/" && EndsWith(cleanPath, '/') {
        cleanPath := TrimTrailingSlashes(cleanPath);
      }
      var lang := ExtractLanguageFromPath(cleanPath);
      var pathWithoutLang := RemoveLanguageFromPath(cleanPath);
      var home := BreadcrumbPath(t(HOME_KEY), if lang.Some? then "/" + lang.value else "/");
      if pathWithoutLang == "" || pathWithoutLang == "/" {
        SegmentsOfRoot();
        return [home];
      }
      var segments := Segments(pathWithoutLang);
      var crumbs := AppendCrumbs(if lang.Some? then "/" + lang.value else "", segments, t);
      result := [home] + crumbs;
    }

    /** The loop of `localizedBreadcrumbs`: one crumb per segment, for the growing path. */
    method AppendCrumbs(base: string, segments: seq<string>, t: string -> string) returns (crumbs: seq<BreadcrumbPath>)
      ensures crumbs == Crumbs(TitleOf(dynamicTitles, t), base, segments)
    {
      crumbs := [];
      var currentPath := base;
      var i := 0;
      while i < |segments|
        invariant 0 <= i <= |segments|
        invariant currentPath == Accumulate(base, segments[..i])
        invariant crumbs == Crumbs(TitleOf(dynamicTitles, t), base, segments[..i])
      {
        AccumulateStep(base, segments, i);
        CrumbsSnoc(TitleOf(dynamicTitles, t), base, segments, i);
        currentPath := currentPath + "/" + segments[i];
        var title := LocalizedBreadcrumb(currentPath, t);
        crumbs := crumbs + [BreadcrumbPath(title, currentPath)];
        i := i + 1;
      }
      assert segments[..i] == segments;
    }

    /** `getLocalizedBreadcrumbItems`: the trail rendered as items. */
    method GetLocalizedBreadcrumbItems(path: string, t: string -> string) returns (items: seq<BreadcrumbItem>)
      ensures items == ItemsOf(Trail(t(HOME_KEY), TitleOf(dynamicTitles, t), path))
    {
      var breadcrumbs := LocalizedBreadcrumbs(path, t);
      items := ItemsOf(breadcrumbs);
    }
  }

  /** The process-wide slot behind `getInstance`. */
  class BreadcrumbRegistry {
    var instance: BreadcrumbBuilder?

    constructor ()
      ensures instance == null
    {
      instance := null;
    }

    /** The first call creates the builder; later calls return that same builder. */
    method GetInstance() returns (builder: BreadcrumbBuilder)
      modifies this
      ensures old(instance) != null ==> builder == old(instance)
      ensures old(instance) == null ==>
        (fresh(builder) && builder.Valid() && builder.version == 0
         && builder.dynamicTitles == map[] && builder.listeners == {})
      ensures instance == builder
    {
      if instance == null {
        instance := new BreadcrumbBuilder();
      }
      builder := instance;
    }
  }
}
