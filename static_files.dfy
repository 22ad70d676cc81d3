/**
 * The build script that fills the `{{…}}` placeholders of the static
 * templates (the HTML entry page and the sitemap) from the environment.
 * The environment, the clock-derived date and the file system are inputs.
 */
module StaticFiles {
  import opened Wrappers
  import opened Strings

  /** The four environment variables the script reads; `None` is unset. */
  datatype Env = Env(
    appDomain: Option<string>,
    appName: Option<string>,
    companyName: Option<string>,
    supportEmail: Option<string>)

  /** The five values substituted into the templates. */
  datatype Vars = Vars(domain: string, name: string, company: string, email: string, today: string)

  /** `value || fallback`: an unset or empty variable gives the fallback. */
  function OrDefault(value: Option<string>, fallback: string): (r: string)
    ensures value.Some? && value.value != "" ==> r == value.value
    ensures value.None? || value.value == "" ==> r == fallback
  {
    match value
    case Some(v) => if v != "" then v else fallback
    case None => fallback
  }

  /** The values with their fallbacks; the date is supplied by the caller. */
  function ResolveVars(env: Env, today: string): (vars: Vars)
    ensures vars.domain == OrDefault(env.appDomain, "localhost")
    ensures vars.name == OrDefault(env.appName, "Starter")
    ensures vars.company == OrDefault(env.companyName, "Sudobility")
    ensures vars.email == OrDefault(env.supportEmail, "support@" + vars.domain)
    ensures vars.today == today
  {
    var domain := OrDefault(env.appDomain, "localhost");
    Vars(domain, OrDefault(env.appName, "Starter"), OrDefault(env.companyName, "Sudobility"),
         OrDefault(env.supportEmail, "support@" + domain), today)
  }

  /** With nothing set, every value is its documented fallback. */
  lemma DefaultsWhenUnset(today: string)
    ensures ResolveVars(Env(None, None, None, None), today)
         == Vars("localhost", "Starter", "Sudobility", "support@localhost", today)
  {
  }

  const DOMAIN_PLACEHOLDER: string := "{{VITE_APP_DOMAIN}}"
  const NAME_PLACEHOLDER: string := "{{VITE_APP_NAME}}"
  const COMPANY_PLACEHOLDER: string := "{{VITE_COMPANY_NAME}}"
  const EMAIL_PLACEHOLDER: string := "{{VITE_SUPPORT_EMAIL}}"
  const TODAY_PLACEHOLDER: string := "{{TODAY}}"

  /** `pat` occurs in `s` at some position. */
  predicate Occurs(s: string, pat: string) {
    exists i :: 0 <= i <= |s| && OccursAt(s, pat, i)
  }

  /** `pat` occurs in `s` starting at index `i`. */
  predicate OccursAt(s: string, pat: string, i: int) {
    0 <= i && i + |pat| <= |s| && s[i..i + |pat|] == pat
  }

  /** No proper prefix of `pat` is also a suffix of it, so two occurrences never overlap. */
  predicate Unbordered(pat: string) {
    forall k :: 0 < k < |pat| ==> pat[k..] != pat[..|pat| - k]
  }

  /** A placeholder opens with `{{` and has no other `{`. */
  predicate IsPlaceholder(pat: string) {
    |pat| >= 3 && pat[0] == '{' && pat[1] == '{' && forall j :: 2 <= j < |pat| ==> pat[j] != '{'
  }

  lemma PlaceholderIsUnbordered(pat: string)
    requires IsPlaceholder(pat)
    ensures Unbordered(pat)
  {
    forall k | 0 < k < |pat|
      ensures pat[k..] != pat[..|pat| - k]
    {
      if k == 1 {
        assert pat[k..][1] != pat[..|pat| - k][1];
      } else {
        assert pat[k..][0] != pat[..|pat| - k][0];
      }
    }
  }

  lemma PlaceholdersAreWellFormed()
    ensures IsPlaceholder(DOMAIN_PLACEHOLDER) && IsPlaceholder(NAME_PLACEHOLDER)
    ensures IsPlaceholder(COMPANY_PLACEHOLDER) && IsPlaceholder(EMAIL_PLACEHOLDER)
    ensures IsPlaceholder(TODAY_PLACEHOLDER)
  {
  }

  /**
   * A placeholder occurs inside another placeholder only as its prefix,
   * since `{{` appears in a placeholder only at its start.
   */
  lemma PlaceholderInPlaceholder(p: string, q: string)
    requires IsPlaceholder(p) && IsPlaceholder(q)
    requires |p| > |q| || p != q[..|p|]
    ensures !Occurs(q, p)
  {
  }

  /**
   * `s.replace(/pat/g, rep)` for a pattern without special characters: the
   * occurrences are found left to right, and the scan resumes after each
   * replaced one.
   */
  function ReplaceAll(s: string, pat: string, rep: string): string
    requires pat != []
    decreases |s|
  {
    if |s| < |pat| then s
    else if s[..|pat|] == pat then rep + ReplaceAll(s[|pat|..], pat, rep)
    else [s[0]] + ReplaceAll(s[1..], pat, rep)
  }

  /** Text without the pattern passes through unchanged. */
  lemma {:induction false} ReplaceAllAbsent(s: string, pat: string, rep: string)
    requires pat != []
    requires !Occurs(s, pat)
    ensures ReplaceAll(s, pat, rep) == s
    decreases |s|
  {
    if |s| < |pat| {
    } else {
      assert s[0..|pat|] == s[..|pat|];
      assert !OccursAt(s, pat, 0);
      TailAbsent(s, pat);
      ReplaceAllAbsent(s[1..], pat, rep);
    }
  }

  /** Dropping the first character keeps text free of the pattern. */
  lemma TailAbsent(x: string, pat: string)
    requires x != [] && !Occurs(x, pat)
    ensures !Occurs(x[1..], pat)
  {
    if Occurs(x[1..], pat) {
      var i :| 0 <= i <= |x[1..]| && OccursAt(x[1..], pat, i);
      assert x[1..][i..i + |pat|] == pat;
      assert x[i + 1..i + 1 + |pat|] == pat;
      assert OccursAt(x, pat, i + 1);
      assert false;
    }
  }

  /** Non-empty pattern-free text followed by an unbordered pattern does not start with it. */
  lemma NoMatchAtStart(x: string, pat: string, y: string)
    requires pat != [] && Unbordered(pat)
    requires x != [] && !Occurs(x, pat)
    ensures (x + pat + y)[..|pat|] != pat
  {
    var s := x + pat + y;
    if |x| >= |pat| {
      assert s[..|pat|] == x[0..|pat|];
      assert !OccursAt(x, pat, 0);
    } else {
      var k := |x|;
      assert s[..|pat|][k..] == pat[..|pat| - k];
      assert pat[k..] != pat[..|pat| - k];
    }
  }

  /** An occurrence at the very start is replaced, and the scan resumes after it. */
  lemma ReplaceAllAtStart(pat: string, rep: string, y: string)
    requires pat != []
    ensures ReplaceAll(pat + y, pat, rep) == rep + ReplaceAll(y, pat, rep)
  {
    assert (pat + y)[..|pat|] == pat;
    assert (pat + y)[|pat|..] == y;
  }

  /** Text that does not start with the pattern keeps its first character. */
  lemma ReplaceAllSkip(s: string, pat: string, rep: string)
    requires pat != [] && |s| >= |pat| && s[..|pat|] != pat
    ensures ReplaceAll(s, pat, rep) == [s[0]] + ReplaceAll(s[1..], pat, rep)
  {
  }

  /** An occurrence right after pattern-free text is the next one replaced. */
  lemma {:induction false} ReplaceAllAfter(x: string, pat: string, rep: string, y: string)
    requires pat != [] && Unbordered(pat)
    requires !Occurs(x, pat)
    ensures ReplaceAll(x + pat + y, pat, rep) == x + rep + ReplaceAll(y, pat, rep)
    decreases |x|
  {
    var s := x + pat + y;
    if x == [] {
      ReplaceAllAtStart(pat, rep, y);
      assert s == pat + y;
    } else {
      TailAbsent(x, pat);
      ReplaceAllAfter(x[1..], pat, rep, y);
      ReplaceAllAfterStep(x, pat, rep, y);
    }
  }

  /** The step of `ReplaceAllAfter`: the first character of `x` is kept and the scan moves on. */
  lemma ReplaceAllAfterStep(x: string, pat: string, rep: string, y: string)
    requires pat != [] && Unbordered(pat)
    requires x != [] && !Occurs(x, pat)
    requires ReplaceAll(x[1..] + pat + y, pat, rep) == x[1..] + rep + ReplaceAll(y, pat, rep)
    ensures ReplaceAll(x + pat + y, pat, rep) == x + rep + ReplaceAll(y, pat, rep)
  {
    var s := x + pat + y;
    NoMatchAtStart(x, pat, y);
    assert s[1..] == x[1..] + pat + y;
    ReplaceAllSkip(s, pat, rep);
    calc {
      ReplaceAll(s, pat, rep);
      [s[0]] + ReplaceAll(s[1..], pat, rep);
      [x[0]] + (x[1..] + rep + ReplaceAll(y, pat, rep));
      { assert [x[0]] + x[1..] == x; }
      x + rep + ReplaceAll(y, pat, rep);
    }
  }

  /**
   * Every occurrence is replaced: text made of pattern-free pieces joined by
   * the pattern becomes the same pieces joined by the replacement.
   */
  lemma {:induction false} ReplaceAllJoin(parts: seq<string>, pat: string, rep: string)
    requires pat != [] && Unbordered(pat)
    requires forall k :: 0 <= k < |parts| ==> !Occurs(parts[k], pat)
    ensures ReplaceAll(Join(parts, pat), pat, rep) == Join(parts, rep)
    decreases |parts|
  {
    if |parts| == 0 {
    } else if |parts| == 1 {
      ReplaceAllAbsent(parts[0], pat, rep);
    } else {
      ReplaceAllJoin(parts[1..], pat, rep);
      ReplaceAllAfter(parts[0], pat, rep, Join(parts[1..], pat));
      assert parts[0] + pat + Join(parts[1..], pat) == Join(parts, pat);
    }
  }

  /** `replaceVariables`: the five global replacements, in this order. */
  function ReplaceVariables(content: string, vars: Vars): string {
    var s1 := ReplaceAll(content, DOMAIN_PLACEHOLDER, vars.domain);
    var s2 := ReplaceAll(s1, NAME_PLACEHOLDER, vars.name);
    var s3 := ReplaceAll(s2, COMPANY_PLACEHOLDER, vars.company);
    var s4 := ReplaceAll(s3, EMAIL_PLACEHOLDER, vars.email);
    ReplaceAll(s4, TODAY_PLACEHOLDER, vars.today)
  }

  /** No placeholder at all: the template is copied verbatim. */
  lemma NoPlaceholdersUnchanged(content: string, vars: Vars)
    requires !Occurs(content, DOMAIN_PLACEHOLDER) && !Occurs(content, NAME_PLACEHOLDER)
    requires !Occurs(content, COMPANY_PLACEHOLDER) && !Occurs(content, EMAIL_PLACEHOLDER)
    requires !Occurs(content, TODAY_PLACEHOLDER)
    ensures ReplaceVariables(content, vars) == content
  {
    ReplaceAllAbsent(content, DOMAIN_PLACEHOLDER, vars.domain);
    ReplaceAllAbsent(content, NAME_PLACEHOLDER, vars.name);
    ReplaceAllAbsent(content, COMPANY_PLACEHOLDER, vars.company);
    ReplaceAllAbsent(content, EMAIL_PLACEHOLDER, vars.email);
    ReplaceAllAbsent(content, TODAY_PLACEHOLDER, vars.today);
  }

  /** A lone pattern is replaced by the replacement. */
  lemma ReplaceWhole(pat: string, rep: string)
    requires IsPlaceholder(pat)
    ensures ReplaceAll(pat, pat, rep) == rep
  {
    PlaceholderIsUnbordered(pat);
    assert !Occurs([], pat);
    ReplaceAllAfter([], pat, rep, []);
    assert [] + pat + [] == pat;
  }

  /** Plain text: none of the five placeholders occurs in it. */
  predicate PlaceholderFree(s: string) {
    !Occurs(s, DOMAIN_PLACEHOLDER) && !Occurs(s, NAME_PLACEHOLDER) && !Occurs(s, COMPANY_PLACEHOLDER)
    && !Occurs(s, EMAIL_PLACEHOLDER) && !Occurs(s, TODAY_PLACEHOLDER)
  }

  /**
   * The domain is substituted first, so an app name placeholder inside the
   * domain value is expanded by the later step.
   */
  lemma LaterPlaceholderInValueExpanded(vars: Vars)
    requires vars.domain == NAME_PLACEHOLDER
    requires PlaceholderFree(vars.name)
    ensures ReplaceVariables(DOMAIN_PLACEHOLDER, vars) == vars.name
  {
    PlaceholdersAreWellFormed();
    ReplaceWhole(DOMAIN_PLACEHOLDER, vars.domain);
    ReplaceWhole(NAME_PLACEHOLDER, vars.name);
    ReplaceAllAbsent(vars.name, COMPANY_PLACEHOLDER, vars.company);
    ReplaceAllAbsent(vars.name, EMAIL_PLACEHOLDER, vars.email);
    ReplaceAllAbsent(vars.name, TODAY_PLACEHOLDER, vars.today);
  }

  /**
   * The app name is substituted after the domain, so a domain placeholder
   * inside the name value stays in the output.
   */
  lemma EarlierPlaceholderInValueKept(vars: Vars)
    requires vars.name == DOMAIN_PLACEHOLDER
    ensures ReplaceVariables(NAME_PLACEHOLDER, vars) == DOMAIN_PLACEHOLDER
  {
    PlaceholdersAreWellFormed();
    PlaceholderInPlaceholder(DOMAIN_PLACEHOLDER, NAME_PLACEHOLDER);
    ReplaceAllAbsent(NAME_PLACEHOLDER, DOMAIN_PLACEHOLDER, vars.domain);
    ReplaceWhole(NAME_PLACEHOLDER, vars.name);
    PlaceholderInPlaceholder(COMPANY_PLACEHOLDER, DOMAIN_PLACEHOLDER);
    ReplaceAllAbsent(DOMAIN_PLACEHOLDER, COMPANY_PLACEHOLDER, vars.company);
    PlaceholderInPlaceholder(EMAIL_PLACEHOLDER, DOMAIN_PLACEHOLDER);
    ReplaceAllAbsent(DOMAIN_PLACEHOLDER, EMAIL_PLACEHOLDER, vars.email);
    assert DOMAIN_PLACEHOLDER[..|TODAY_PLACEHOLDER|][2] != TODAY_PLACEHOLDER[2];
    PlaceholderInPlaceholder(TODAY_PLACEHOLDER, DOMAIN_PLACEHOLDER);
    ReplaceAllAbsent(DOMAIN_PLACEHOLDER, TODAY_PLACEHOLDER, vars.today);
  }

  /** A template and the file generated from it. */
  datatype FileTemplate = FileTemplate(template: string, output: string, description: string)

  const FILES_TO_PROCESS: seq<FileTemplate> := [
    FileTemplate("index_template.html", "index.html", "Main HTML file"),
    FileTemplate("public/sitemap.template.xml", "public/sitemap.xml", "Sitemap")
  ]

  /** The file system as a map from project-relative path to content. */
  type Files = map<string, string>

  /** The file system after one loop iteration, and the two counters. */
  datatype Outcome = Outcome(files: Files, processed: nat, skipped: nat)

  /**
   * One iteration of `main`'s loop: an existing template is processed
   * (`processFile` writes the substituted content to the output path),
   * a missing one is skipped.
   */
  function Step(o: Outcome, f: FileTemplate, vars: Vars): (o': Outcome)
    ensures f.template in o.files ==> o'.processed == o.processed + 1 && o'.skipped == o.skipped
    ensures f.template !in o.files ==> o'.processed == o.processed && o'.skipped == o.skipped + 1
    ensures f.template in o.files ==>
              f.output in o'.files && o'.files[f.output] == ReplaceVariables(o.files[f.template], vars)
    ensures f.template !in o.files ==> o'.files == o.files
    ensures forall p :: p != f.output ==> (p in o'.files <==> p in o.files)
    ensures forall p :: p != f.output && p in o.files ==> o'.files[p] == o.files[p]
  {
    if f.template in o.files then
      Outcome(o.files[f.output := ReplaceVariables(o.files[f.template], vars)], o.processed + 1, o.skipped)
    else
      Outcome(o.files, o.processed, o.skipped + 1)
  }

  /** The loop of `main` over a prefix of the templates, from zeroed counters. */
  function Run(files: Files, templates: seq<FileTemplate>, vars: Vars): Outcome
    decreases |templates|
  {
    if templates == [] then Outcome(files, 0, 0)
    else Step(Run(files, templates[..|templates| - 1], vars), templates[|templates| - 1], vars)
  }

  /** `main`'s loop, counting processed and skipped templates. */
  method ProcessStaticFiles(files: Files, templates: seq<FileTemplate>, vars: Vars)
    returns (files': Files, processedCount: nat, skippedCount: nat)
    ensures Outcome(files', processedCount, skippedCount) == Run(files, templates, vars)
    ensures processedCount + skippedCount == |templates|
  {
    files', processedCount, skippedCount := files, 0, 0;
    var i := 0;
    while i < |templates|
      invariant 0 <= i <= |templates|
      invariant Outcome(files', processedCount, skippedCount) == Run(files, templates[..i], vars)
    {
      var fileConfig := templates[i];
      if fileConfig.template in files' {
        files' := files'[fileConfig.output := ReplaceVariables(files'[fileConfig.template], vars)];
        processedCount := processedCount + 1;
      } else {
        skippedCount := skippedCount + 1;
      }
      assert templates[..i + 1][..i] == templates[..i];
      i := i + 1;
    }
    assert templates[..i] == templates;
    RunCounts(files, templates, vars);
  }

  /** Every template is counted exactly once. */
  lemma {:induction false} RunCounts(files: Files, templates: seq<FileTemplate>, vars: Vars)
    ensures Run(files, templates, vars).processed + Run(files, templates, vars).skipped == |templates|
    decreases |templates|
  {
    if templates != [] {
      RunCounts(files, templates[..|templates| - 1], vars);
    }
  }

  /** How many of the templates are present in `files`. */
  function CountPresent(files: Files, templates: seq<FileTemplate>): (n: nat)
    ensures n <= |templates|
    decreases |templates|
  {
    if templates == [] then 0
    else CountPresent(files, templates[..|templates| - 1]) + (if templates[|templates| - 1].template in files then 1 else 0)
  }

  /** No output path is also one of the template paths. */
  predicate OutputsApart(templates: seq<FileTemplate>) {
    forall i, j :: 0 <= i < |templates| && 0 <= j < |templates| ==> templates[i].output != templates[j].template
  }

  /** Writing outputs does not create or remove template paths. */
  lemma {:induction false} RunKeepsTemplates(files: Files, templates: seq<FileTemplate>, vars: Vars, p: string)
    requires forall i :: 0 <= i < |templates| ==> templates[i].output != p
    ensures p in Run(files, templates, vars).files <==> p in files
    decreases |templates|
  {
    if templates != [] {
      RunKeepsTemplates(files, templates[..|templates| - 1], vars, p);
    }
  }

  /**
   * When no output overwrites a template, a template is processed exactly
   * when it exists, so the processed count is the number present.
   */
  lemma {:induction false} ProcessedIffPresent(files: Files, templates: seq<FileTemplate>, vars: Vars)
    requires OutputsApart(templates)
    ensures Run(files, templates, vars).processed == CountPresent(files, templates)
    ensures Run(files, templates, vars).skipped == |templates| - CountPresent(files, templates)
    decreases |templates|
  {
    RunCounts(files, templates, vars);
    if templates != [] {
      var init := templates[..|templates| - 1];
      var last := templates[|templates| - 1];
      assert OutputsApart(init) by {
        forall i, j | 0 <= i < |init| && 0 <= j < |init|
          ensures init[i].output != init[j].template
        {
          assert init[i] == templates[i] && init[j] == templates[j];
        }
      }
      ProcessedIffPresent(files, init, vars);
      forall i | 0 <= i < |init|
        ensures init[i].output != last.template
      {
        assert init[i] == templates[i];
      }
      RunKeepsTemplates(files, init, vars, last.template);
    }
  }

  /** The script's own two templates never overwrite each other. */
  lemma FilesToProcessApart()
    ensures OutputsApart(FILES_TO_PROCESS)
  {
  }

  /**
   * The script run on its two templates: the counters, and `index.html`
   * holding the substituted entry-page template whenever that template exists.
   */
  lemma RunOfFilesToProcess(files: Files, vars: Vars)
    ensures Run(files, FILES_TO_PROCESS, vars).processed == CountPresent(files, FILES_TO_PROCESS)
    ensures Run(files, FILES_TO_PROCESS, vars).processed + Run(files, FILES_TO_PROCESS, vars).skipped == 2
    ensures "index_template.html" in files ==>
              "index.html" in Run(files, FILES_TO_PROCESS, vars).files
              && Run(files, FILES_TO_PROCESS, vars).files["index.html"] == ReplaceVariables(files["index_template.html"], vars)
    ensures "public/sitemap.template.xml" in files ==>
              "public/sitemap.xml" in Run(files, FILES_TO_PROCESS, vars).files
              && Run(files, FILES_TO_PROCESS, vars).files["public/sitemap.xml"]
                 == ReplaceVariables(files["public/sitemap.template.xml"], vars)
  {
    FilesToProcessApart();
    ProcessedIffPresent(files, FILES_TO_PROCESS, vars);
    RunCounts(files, FILES_TO_PROCESS, vars);
    assert FILES_TO_PROCESS[..1][..0] == [];
    assert FILES_TO_PROCESS[..2][..1] == FILES_TO_PROCESS[..1];
    assert FILES_TO_PROCESS[..2] == FILES_TO_PROCESS;
    assert "public/sitemap.xml" != "index.html";
    assert "public/sitemap.template.xml" != "index.html";
  }
}
