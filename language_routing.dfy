/**
 * Locale-prefix routing: paths look like `/<locale>/<rest>`; these
 * functions find and strip the leading locale segment.
 */
module LanguageRouting {
  import opened Wrappers
  import opened Strings
  import opened LanguageSupport

  /** `path.split('/').filter(Boolean)`: the non-empty `/`-separated segments. */
  function Segments(path: string): (segs: seq<string>)
    ensures ValidSegments(segs)
  {
    var parts := Split(path, '/');
    var segs := NonEmpty(parts);
    assert forall k :: 0 <= k < |segs| ==> segs[k] in parts;
    segs
  }

  /** Segments as they appear in a path: non-empty and free of `/`. */
  predicate ValidSegments(segs: seq<string>) {
    forall k :: 0 <= k < |segs| ==> segs[k] != "" && '/' !in segs[k]
  }

  /** The canonical path of a list of segments: `/a/b/c`, or `/` for none. */
  function PathOf(segs: seq<string>): string {
    if segs == [] then "/" else "/" + Join(segs, "/")
  }

  /** A separator splits the segments: they distribute over `a + "/" + b`. */
  lemma {:induction false} SegmentsAppend(a: string, b: string)
    ensures Segments(a + "/" + b) == Segments(a) + Segments(b)
    decreases |a|
  {
    if '/' !in a {
      calc {
        Segments(a + "/" + b);
        NonEmpty(Split(a + ['/'] + b, '/'));
        { SplitAfter(a, '/', b); }
        NonEmpty([a] + Split(b, '/'));
        { NonEmptyAppend([a], Split(b, '/')); }
        NonEmpty([a]) + Segments(b);
      }
    } else {
      var i := IndexOf(a, '/');
      var head, tail := a[..i], a[i + 1..];
      assert a == head + ['/'] + tail;
      assert a + "/" + b == head + ['/'] + (tail + "/" + b);
      calc {
        Segments(a + "/" + b);
        NonEmpty(Split(head + ['/'] + (tail + "/" + b), '/'));
        { SplitAfter(head, '/', tail + "/" + b); }
        NonEmpty([head] + Split(tail + "/" + b, '/'));
        { NonEmptyAppend([head], Split(tail + "/" + b, '/')); }
        NonEmpty([head]) + Segments(tail + "/" + b);
        { SegmentsAppend(tail, b); }
        NonEmpty([head]) + Segments(tail) + Segments(b);
      }
      calc {
        Segments(a);
        NonEmpty(Split(head + ['/'] + tail, '/'));
        { SplitAfter(head, '/', tail); }
        NonEmpty([head] + Split(tail, '/'));
        { NonEmptyAppend([head], Split(tail, '/')); }
        NonEmpty([head]) + Segments(tail);
      }
    }
  }

  lemma SegmentsOfSegment(x: string)
    requires x != "" && '/' !in x
    ensures Segments(x) == [x]
  {
  }

  lemma SegmentsOfEmpty()
    ensures Segments("") == []
  {
  }

  /** Joining valid segments with `/` and splitting again gives them back. */
  lemma {:induction false} SegmentsOfJoin(segs: seq<string>)
    requires segs != [] && ValidSegments(segs)
    ensures Segments(Join(segs, "/")) == segs
  {
    if |segs| == 1 {
      SegmentsOfSegment(segs[0]);
    } else {
      SegmentsOfJoin(segs[1..]);
      SegmentsAppend(segs[0], Join(segs[1..], "/"));
      SegmentsOfSegment(segs[0]);
    }
  }

  /** The canonical path of valid segments has exactly those segments. */
  lemma SegmentsOfPath(segs: seq<string>)
    requires ValidSegments(segs)
    ensures Segments(PathOf(segs)) == segs
  {
    SegmentsOfEmpty();
    if segs == [] {
      SegmentsAppend("", "");
      assert "" + "/" + "" == "/";
    } else {
      SegmentsOfJoin(segs);
      SegmentsAppend("", Join(segs, "/"));
      assert "" + "/" + Join(segs, "/") == PathOf(segs);
    }
  }

  /** A trailing `/` adds no segment. */
  lemma SegmentsTrailingSlash(path: string)
    ensures Segments(path + "/") == Segments(path)
  {
    SegmentsAppend(path, "");
    SegmentsOfEmpty();
    assert path + "/" + "" == path + "/";
  }

  /**
   * A canonical path starts with `/`, has no empty segment (no `//`) and no
   * trailing `/` unless it is the root.
   */
  lemma {:induction false} PathOfShape(segs: seq<string>)
    requires ValidSegments(segs)
    ensures var p := PathOf(segs);
      && StartsWith(p, '/')
      && (p == "/" || !EndsWith(p, '/'))
      && forall i :: 0 <= i < |p| - 1 ==> !(p[i] == '/' && p[i + 1] == '/')
  {
    if |segs| > 1 {
      PathOfShape(segs[1..]);
      var rest := PathOf(segs[1..]);
      assert PathOf(segs) == "/" + segs[0] + rest;
      var p := PathOf(segs);
      forall i | 0 <= i < |p| - 1
        ensures !(p[i] == '/' && p[i + 1] == '/')
      {
        if i == 0 {
          assert p[1] == segs[0][0];
        } else if i <= |segs[0]| {
          if i < |segs[0]| {
            assert p[i] == segs[0][i - 1];
            assert segs[0][i - 1] in segs[0];
          } else {
            assert p[i] == segs[0][i - 1];
            assert segs[0][i - 1] in segs[0];
          }
        } else {
          assert p[i] == rest[i - 1 - |segs[0]|];
          assert p[i + 1] == rest[i - |segs[0]|];
        }
      }
    } else if |segs| == 1 {
      var p := PathOf(segs);
      assert p == "/" + segs[0];
      forall i | 0 <= i < |p| - 1
        ensures !(p[i] == '/' && p[i + 1] == '/')
      {
        assert p[i + 1] == segs[0][i];
        assert segs[0][i] in segs[0];
      }
      assert p[|p| - 1] == segs[0][|segs[0]| - 1];
      assert segs[0][|segs[0]| - 1] in segs[0];
    }
  }

  /**
   * `extractLanguageFromPath`: the first non-empty segment when it is a
   * supported code, otherwise none.
   */
  function ExtractLanguageFromPath(path: string): (lang: Option<string>)
    ensures lang.Some? ==> IsLanguageSupported(lang.value)
    ensures lang.Some? ==> Segments(path) != [] && Segments(path)[0] == lang.value
    ensures lang.None? <==> (Segments(path) == [] || !IsLanguageSupported(Segments(path)[0]))
  {
    var segs := Segments(path);
    if |segs| > 0 && IsLanguageSupported(segs[0]) then Some(segs[0]) else None
  }

  /**
   * `removeLanguageFromPath`: strips exactly one leading locale segment and
   * returns the canonical path of what is left; a path without a locale
   * prefix is returned unchanged, slashes and all.
   */
  function RemoveLanguageFromPath(path: string): (r: string)
    ensures ExtractLanguageFromPath(path).None? ==> r == path
    ensures ExtractLanguageFromPath(path).Some? ==> Segments(r) == Segments(path)[1..]
    ensures ExtractLanguageFromPath(path).Some? ==> r == PathOf(Segments(r))
  {
    var lang := ExtractLanguageFromPath(path);
    if lang.Some? then
      var segs := Segments(path)[1..];
      SegmentsOfPath(segs);
      if |segs| > 0 then "/" + Join(segs, "/") else "/"
    else path
  }

  /**
   * On a canonical path, the locale is the first segment exactly when that
   * segment is supported, and removing it leaves the canonical path of the
   * other segments. Only the first segment is ever looked at.
   */
  lemma RoutingOnCanonicalPaths(segs: seq<string>)
    requires ValidSegments(segs)
    ensures ExtractLanguageFromPath(PathOf(segs))
      == if segs != [] && IsLanguageSupported(segs[0]) then Some(segs[0]) else None
    ensures RemoveLanguageFromPath(PathOf(segs))
      == if segs != [] && IsLanguageSupported(segs[0]) then PathOf(segs[1..]) else PathOf(segs)
  {
    SegmentsOfPath(segs);
  }

  /** Round trip: prefixing `/L` to a canonical path and stripping it again. */
  lemma LocaleRoundTrip(lang: string, segs: seq<string>)
    requires IsLanguageSupported(lang) && ValidSegments(segs)
    ensures ExtractLanguageFromPath(PathOf([lang] + segs)) == Some(lang)
    ensures RemoveLanguageFromPath(PathOf([lang] + segs)) == PathOf(segs)
  {
    SupportedShape(lang);
    RoutingOnCanonicalPaths([lang] + segs);
    assert ([lang] + segs)[1..] == segs;
  }

  /** Only one locale is stripped, even when the next segment is a locale too. */
  lemma OnlyOneLocaleStripped(first: string, second: string, segs: seq<string>)
    requires IsLanguageSupported(first) && IsLanguageSupported(second) && ValidSegments(segs)
    ensures RemoveLanguageFromPath(PathOf([first, second] + segs)) == PathOf([second] + segs)
    ensures ExtractLanguageFromPath(RemoveLanguageFromPath(PathOf([first, second] + segs))) == Some(second)
  {
    SupportedShape(second);
    assert [first, second] + segs == [first] + ([second] + segs);
    LocaleRoundTrip(first, [second] + segs);
    LocaleRoundTrip(second, segs);
  }
}
