/**
 * The page assembler of tools/build.py: `build` concatenates the global head, one fragment per
 * configured section and the global footer scripts into one page; `build_all` builds a selection
 * of the preset pages one after another.
 *
 * Files are a `FileSystem` map. A configuration file is represented by its parsed value: it
 * exists exactly when its path is a key of `configs`. The dynamic step (running the social-links
 * generator in a subprocess) is represented by the text that generator writes, if any.
 */
module Assembler {
  import opened Wrappers
  import opened Text
  import opened Files

  /** A page-build descriptor: ordered section names, output path, optional body class. */
  datatype PageConfig = PageConfig(sections: seq<string>, output: string, bodyClass: Option<string>)

  /** What a successful build produced: the output path and text, and the sections it found or skipped. */
  datatype BuildReport = BuildReport(output: string, html: string, processed: seq<string>, missing: seq<string>)

  /** The whole effect of one `build` call: its verdict, the files afterwards, and its report. */
  datatype BuildOutcome = BuildOutcome(success: bool, files: FileSystem, report: Option<BuildReport>)

  const DefaultConfigPath := "tools/build.config.json"
  const HeadPath := "global/head.html"
  const FooterPath := "global/footer-scripts.html"
  /** Where the social-links generator writes its fragment. */
  const DynamicFragmentPath := "sections/links/links.html"
  const ScriptsMarker := "\n  <!-- ===== GLOBAL SCRIPTS ===== -->\n"

  // ---------------------------------------------------------------------------------------------
  // The assembled document, as functions

  /** The opening body tag, with a class attribute when the stripped body class is not empty. */
  function BodyTag(bodyClass: Option<string>): string {
    var c := Strip(bodyClass.GetOr(""));
    "<body" + (if c != [] then " class=\"" + c + "\"" else "") + ">\n"
  }

  function SectionMarker(name: string): string {
    "\n  <!-- ===== " + Upper(name) + " SECTION ===== -->\n"
  }

  predicate Present(fs: FileSystem, name: string) {
    SectionPath(name) in fs
  }

  /** What one configured section adds to the body: marker, fragment and a newline, or nothing. */
  function SectionText(fs: FileSystem, name: string): string {
    if Present(fs, name) then SectionMarker(name) + fs[SectionPath(name)] + "\n" else ""
  }

  function SectionsText(fs: FileSystem, sections: seq<string>): string {
    if sections == [] then ""
    else SectionsText(fs, sections[..|sections| - 1]) + SectionText(fs, sections[|sections| - 1])
  }

  /** The configured sections whose fragment exists, in configuration order. */
  function Processed(fs: FileSystem, sections: seq<string>): seq<string> {
    if sections == [] then []
    else
      var last := sections[|sections| - 1];
      Processed(fs, sections[..|sections| - 1]) + (if Present(fs, last) then [last] else [])
  }

  /** The configured sections whose fragment does not exist, in configuration order. */
  function Missing(fs: FileSystem, sections: seq<string>): seq<string> {
    if sections == [] then []
    else
      var last := sections[|sections| - 1];
      Missing(fs, sections[..|sections| - 1]) + (if Present(fs, last) then [] else [last])
  }

  /** Everything after the head: body tag, the sections found, scripts marker and footer scripts. */
  function BodyText(fs: FileSystem, config: PageConfig, footer: string): string {
    BodyTag(config.bodyClass) + SectionsText(fs, config.sections) + ScriptsMarker + footer
  }

  function PageHtml(head: string, footer: string, config: PageConfig, fs: FileSystem): string {
    head + BodyText(fs, config, footer)
  }

  /** The files after the optional dynamic step, which writes the generated links fragment. */
  function AfterDynamicStep(fs: FileSystem, runDynamic: bool, dynamicFragment: Option<string>): FileSystem {
    if runDynamic && dynamicFragment.Some? then fs[DynamicFragmentPath := dynamicFragment.value] else fs
  }

  /** One `build` call as a function of its inputs. */
  function BuildSpec(fs: FileSystem, configs: map<string, PageConfig>, configPath: Option<string>,
                     runDynamic: bool, dynamicFragment: Option<string>): BuildOutcome
  {
    var files := AfterDynamicStep(fs, runDynamic, dynamicFragment);
    var path := configPath.GetOr(DefaultConfigPath);
    if path !in configs || HeadPath !in files || FooterPath !in files then
      BuildOutcome(false, files, None)
    else
      var config := configs[path];
      var html := PageHtml(files[HeadPath], files[FooterPath], config, files);
      BuildOutcome(true, files[config.output := html],
                   Some(BuildReport(config.output, html, Processed(files, config.sections), Missing(files, config.sections))))
  }

  // ---------------------------------------------------------------------------------------------
  // build

  /**
   * `build(config_file_path, run_dynamic=...)`: fails, writing nothing but the dynamic fragment,
   * when the configuration, the head or the footer scripts are missing; otherwise writes
   * head + body tag + the sections found, in order + scripts marker + footer to the configured
   * output and reports the sections found and skipped.
   */
  method Build(fs: FileSystem, configs: map<string, PageConfig>, configPath: Option<string>,
               runDynamic: bool, dynamicFragment: Option<string>)
    returns (success: bool, files: FileSystem, report: Option<BuildReport>)
    ensures BuildOutcome(success, files, report) == BuildSpec(fs, configs, configPath, runDynamic, dynamicFragment)
  {
    files := fs;
    if runDynamic && dynamicFragment.Some? {
      files := files[DynamicFragmentPath := dynamicFragment.value];
    }

    var path := if configPath.Some? then configPath.value else DefaultConfigPath;
    if path !in configs {
      return false, files, None;
    }
    var config := configs[path];

    if HeadPath !in files {
      return false, files, None;
    }
    var head := files[HeadPath];

    if FooterPath !in files {
      return false, files, None;
    }
    var footerScripts := files[FooterPath];

    var body, sectionsProcessed, sectionsMissing := AssembleBody(files, config, footerScripts);
    var finalHtml := head + body;
    var outputFile := config.output;
    files := files[outputFile := finalHtml];
    success := true;
    report := Some(BuildReport(outputFile, finalHtml, sectionsProcessed, sectionsMissing));
  }

  /**
   * The body-assembly part of `build`: the body tag, then marker, fragment and newline for each
   * configured section whose fragment exists, then the scripts marker and the footer scripts.
   */
  method AssembleBody(files: FileSystem, config: PageConfig, footerScripts: string)
    returns (body: string, sectionsProcessed: seq<string>, sectionsMissing: seq<string>)
    ensures body == BodyText(files, config, footerScripts)
    ensures sectionsProcessed == Processed(files, config.sections)
    ensures sectionsMissing == Missing(files, config.sections)
  {
    var bodyClass := Strip(if config.bodyClass.Some? then config.bodyClass.value else "");
    var bodyAttr := if bodyClass != [] then " class=\"" + bodyClass + "\"" else "";
    var tag := "<body" + bodyAttr + ">\n";
    assert tag == BodyTag(config.bodyClass);
    var bodyParts := [tag];
    ConcatPush([], tag);

    sectionsProcessed := [];
    sectionsMissing := [];
    var sections := config.sections;
    var i := 0;
    while i < |sections|
      invariant 0 <= i <= |sections|
      invariant Concat(bodyParts) == tag + SectionsText(files, sections[..i])
      invariant sectionsProcessed == Processed(files, sections[..i])
      invariant sectionsMissing == Missing(files, sections[..i])
    {
      var section := sections[i];
      SectionsStep(files, sections, i);
      SeqAssoc(tag, SectionsText(files, sections[..i]), SectionText(files, section));
      var sectionFile := SectionPath(section);
      if sectionFile in files {
        var content := files[sectionFile];
        ConcatPush3(bodyParts, SectionMarker(section), content, "\n");
        bodyParts := bodyParts + [SectionMarker(section)];
        bodyParts := bodyParts + [content];
        bodyParts := bodyParts + ["\n"];
        sectionsProcessed := sectionsProcessed + [section];
      } else {
        sectionsMissing := sectionsMissing + [section];
      }
      i := i + 1;
    }
    assert sections[..i] == sections;

    ConcatPush2(bodyParts, ScriptsMarker, footerScripts);
    bodyParts := bodyParts + [ScriptsMarker];
    bodyParts := bodyParts + [footerScripts];
    body := Concat(bodyParts);
  }

  /** Extending the list of sections handled so far by the next one. */
  lemma SectionsStep(fs: FileSystem, sections: seq<string>, i: nat)
    requires i < |sections|
    ensures SectionsText(fs, sections[..i + 1]) == SectionsText(fs, sections[..i]) + SectionText(fs, sections[i])
    ensures Processed(fs, sections[..i + 1]) == Processed(fs, sections[..i]) + (if Present(fs, sections[i]) then [sections[i]] else [])
    ensures Missing(fs, sections[..i + 1]) == Missing(fs, sections[..i]) + (if Present(fs, sections[i]) then [] else [sections[i]])
  {
    assert sections[..i + 1][..i] == sections[..i];
  }

  // ---------------------------------------------------------------------------------------------
  // Properties of the assembled document

  /**
   * A build succeeds exactly when the configuration, the head and the footer scripts all exist
   * (after the dynamic step). A failed build reports nothing and changes no file beyond the
   * dynamic step; a successful one writes exactly one file, the configured output, whose text
   * starts with the head and ends with the footer scripts.
   */
  lemma BuildVerdict(fs: FileSystem, configs: map<string, PageConfig>, configPath: Option<string>,
                     runDynamic: bool, dynamicFragment: Option<string>)
    ensures var before := AfterDynamicStep(fs, runDynamic, dynamicFragment);
            var out := BuildSpec(fs, configs, configPath, runDynamic, dynamicFragment);
            && (out.success <==> configPath.GetOr(DefaultConfigPath) in configs && HeadPath in before && FooterPath in before)
            && (!out.success ==> out.report == None && out.files == before)
            && (out.success ==>
                  && out.report.Some?
                  && out.report.value.output == configs[configPath.GetOr(DefaultConfigPath)].output
                  && out.files == before[out.report.value.output := out.report.value.html]
                  && before[HeadPath] <= out.report.value.html
                  && EndsWith(out.report.value.html, before[FooterPath]))
  {
  }

  predicate EndsWith(s: string, suffix: string) {
    |suffix| <= |s| && s[|s| - |suffix|..] == suffix
  }

  /** The dynamic step writes the generated fragment and nothing else, and only when asked to. */
  lemma DynamicStepEffect(fs: FileSystem, runDynamic: bool, dynamicFragment: Option<string>)
    ensures var after := AfterDynamicStep(fs, runDynamic, dynamicFragment);
            && (forall path :: path != DynamicFragmentPath ==> (path in after <==> path in fs) && (path in fs ==> after[path] == fs[path]))
            && (runDynamic && dynamicFragment.Some? ==> DynamicFragmentPath in after && after[DynamicFragmentPath] == dynamicFragment.value)
            && (!runDynamic || dynamicFragment.None? ==> after == fs)
  {
  }

  /**
   * The body tag carries ` class="X"` exactly when the configured body class has a non-whitespace
   * character, X being that class stripped of surrounding whitespace; otherwise it is `<body>`.
   */
  lemma BodyTagClass(bodyClass: Option<string>)
    ensures AllSpace(bodyClass.GetOr("")) ==> BodyTag(bodyClass) == "<body>\n"
    ensures !AllSpace(bodyClass.GetOr("")) ==>
              var c := Strip(bodyClass.GetOr(""));
              && BodyTag(bodyClass) == "<body class=\"" + c + "\">\n"
              && c != [] && !IsSpace(c[0]) && !IsSpace(c[|c| - 1])
  {
    var c := Strip(bodyClass.GetOr(""));
    StripSpec(bodyClass.GetOr(""));
    if c != [] {
      var attr := " class=\"" + c + "\"";
      assert BodyTag(bodyClass) == "<body" + attr + ">\n";
      assert "<body" + attr + ">\n" == "<body class=\"" + c + "\">\n";
    }
  }

  /** Assembly follows configuration order: each part of the text comes from its part of the list. */
  lemma {:induction false} SectionsDistribute(fs: FileSystem, xs: seq<string>, ys: seq<string>)
    ensures SectionsText(fs, xs + ys) == SectionsText(fs, xs) + SectionsText(fs, ys)
    ensures Processed(fs, xs + ys) == Processed(fs, xs) + Processed(fs, ys)
    ensures Missing(fs, xs + ys) == Missing(fs, xs) + Missing(fs, ys)
    decreases |ys|
  {
    if ys == [] {
      assert xs + ys == xs;
    } else {
      var init := ys[..|ys| - 1];
      var last := ys[|ys| - 1];
      assert (xs + ys)[..|xs + ys| - 1] == xs + init;
      assert (xs + ys)[|xs + ys| - 1] == last;
      SectionsDistribute(fs, xs, init);
      SeqAssoc(SectionsText(fs, xs), SectionsText(fs, init), SectionText(fs, last));
      SeqAssoc(Processed(fs, xs), Processed(fs, init), if Present(fs, last) then [last] else []);
      SeqAssoc(Missing(fs, xs), Missing(fs, init), if Present(fs, last) then [] else [last]);
    }
  }

  /** A section whose fragment is missing contributes nothing: the text is that of the present ones. */
  lemma {:induction false} MissingContributesNothing(fs: FileSystem, xs: seq<string>)
    ensures SectionsText(fs, xs) == SectionsText(fs, Processed(fs, xs))
    decreases |xs|
  {
    if xs != [] {
      var init := xs[..|xs| - 1];
      var last := xs[|xs| - 1];
      MissingContributesNothing(fs, init);
      if Present(fs, last) {
        SectionsDistribute(fs, Processed(fs, init), [last]);
        assert [last][..0] == [];
      } else {
        assert Processed(fs, xs) == Processed(fs, init);
      }
    }
  }

  /**
   * The processed and the missing lists split the configured sections: every name lands in
   * exactly one of them according to whether its fragment exists, with its multiplicity, so a
   * duplicated name that exists is processed (and emitted) once per occurrence.
   */
  lemma {:induction false} PartitionSections(fs: FileSystem, xs: seq<string>)
    ensures forall x :: multiset(Processed(fs, xs))[x] == if Present(fs, x) then multiset(xs)[x] else 0
    ensures forall x :: multiset(Missing(fs, xs))[x] == if Present(fs, x) then 0 else multiset(xs)[x]
    decreases |xs|
  {
    if xs != [] {
      var init := xs[..|xs| - 1];
      var last := xs[|xs| - 1];
      PartitionSections(fs, init);
      assert xs == init + [last];
      assert multiset(xs) == multiset(init) + multiset{last};
      if Present(fs, last) {
        assert multiset(Processed(fs, xs)) == multiset(Processed(fs, init)) + multiset{last};
        assert multiset(Missing(fs, xs)) == multiset(Missing(fs, init));
      } else {
        assert multiset(Processed(fs, xs)) == multiset(Processed(fs, init));
        assert multiset(Missing(fs, xs)) == multiset(Missing(fs, init)) + multiset{last};
      }
    }
  }

  /** Consequences of the partition: the two lists together are the configured sections, reordered. */
  lemma PartitionSummary(fs: FileSystem, xs: seq<string>)
    ensures multiset(Processed(fs, xs)) + multiset(Missing(fs, xs)) == multiset(xs)
    ensures |Processed(fs, xs)| + |Missing(fs, xs)| == |xs|
    ensures forall x :: x in Processed(fs, xs) <==> x in xs && Present(fs, x)
    ensures forall x :: x in Missing(fs, xs) <==> x in xs && !Present(fs, x)
  {
    PartitionSections(fs, xs);
    var whole := multiset(Processed(fs, xs)) + multiset(Missing(fs, xs));
    assert forall x :: whole[x] == multiset(xs)[x];
    assert whole == multiset(xs);
    assert |whole| == |multiset(xs)|;
  }

  // ---------------------------------------------------------------------------------------------
  // build_all

  /** One entry of the preset page table. */
  datatype Page = Page(key: string, name: string, config: string, output: string, description: string)

  /** One entry of the per-page results `build_all` collects. */
  datatype PageResult = PageResult(name: string, output: string, success: bool)

  const Pages: seq<Page> := [
    Page("index", "Index", "tools/build.config.json", "index.html", "Main page"),
    Page("explore", "Explore", "tools/build.explore.config.json", "explore.html", "Explore page"),
    Page("solutions", "Solutions", "tools/build.solutions.config.json", "solutions.html", "Solutions page"),
    Page("compose", "Compose", "tools/build.compose.config.json", "compose.html", "Compose page"),
    Page("create", "Create", "tools/build.create.config.json", "create.html", "Create page")
  ]

  /** The pages of `pages` whose key is in `keys`, in table order. */
  function PagesWithKeys(pages: seq<Page>, keys: set<string>): seq<Page> {
    if pages == [] then []
    else
      var last := pages[|pages| - 1];
      PagesWithKeys(pages[..|pages| - 1], keys) + (if last.key in keys then [last] else [])
  }

  function LoweredKeys(pageKeys: seq<string>): set<string> {
    set k | k in pageKeys :: Lower(k)
  }

  /** The pages `build_all` builds, or None when a requested key (lower-cased) names no page. */
  function SelectPages(pageKeys: seq<string>): Option<seq<Page>> {
    if pageKeys == [] then Some(Pages)
    else
      var keySet := LoweredKeys(pageKeys);
      var pages := PagesWithKeys(Pages, keySet);
      if keySet - KeysOf(pages) != {} then None else Some(pages)
  }

  function KeysOf(pages: seq<Page>): set<string> {
    set p | p in pages :: p.key
  }

  /** The results of a batch of builds and the files after it. */
  datatype Batch = Batch(results: seq<PageResult>, files: FileSystem)

  /** The results and files after building `pages` in order; the dynamic step runs for the first page, or for every page when `always`. */
  function RunPages(fs: FileSystem, configs: map<string, PageConfig>, pages: seq<Page>,
                    dynamicFragment: Option<string>, always: bool): Batch
  {
    if pages == [] then Batch([], fs)
    else
      var before := RunPages(fs, configs, pages[..|pages| - 1], dynamicFragment, always);
      var page := pages[|pages| - 1];
      var out := BuildSpec(before.files, configs, Some(page.config), always || |pages| == 1, dynamicFragment);
      Batch(before.results + [PageResult(page.name, page.output, out.success)], out.files)
  }

  predicate AllSucceeded(results: seq<PageResult>) {
    forall i :: 0 <= i < |results| ==> results[i].success
  }

  /** `[r for r in results if not r["success"]]` */
  function Failed(results: seq<PageResult>): (r: seq<PageResult>)
    ensures r == [] <==> AllSucceeded(results)
  {
    if results == [] then []
    else
      var last := results[|results| - 1];
      Failed(results[..|results| - 1]) + (if last.success then [] else [last])
  }

  /**
   * `build_all(page_keys)`: an empty request builds every preset page; otherwise the lower-cased
   * keys select pages in table order, and an unknown key fails before anything is built. The
   * selected pages are all built in order (a failure does not stop the rest), only the first with
   * the dynamic step, and the result is true exactly when no page failed.
   */
  method BuildAll(fs: FileSystem, configs: map<string, PageConfig>, pageKeys: seq<string>, dynamicFragment: Option<string>)
    returns (success: bool, results: seq<PageResult>, files: FileSystem)
    ensures SelectPages(pageKeys).None? ==> !success && results == [] && files == fs
    ensures SelectPages(pageKeys).Some? ==>
              && Batch(results, files) == RunPages(fs, configs, SelectPages(pageKeys).value, dynamicFragment, false)
              && |results| == |SelectPages(pageKeys).value|
              && (success <==> AllSucceeded(results))
  {
    var selection := SelectPages(pageKeys);
    if selection.None? {
      return false, [], fs;
    }
    var pages := selection.value;
    if pages == [] {
      return true, [], fs;
    }
    results, files := BuildPages(fs, configs, pages, dynamicFragment);
    success := |Failed(results)| == 0;
  }

  /** The loop of `build_all`: each page in order, the dynamic step only for the first. */
  method BuildPages(fs: FileSystem, configs: map<string, PageConfig>, pages: seq<Page>, dynamicFragment: Option<string>)
    returns (results: seq<PageResult>, files: FileSystem)
    ensures Batch(results, files) == RunPages(fs, configs, pages, dynamicFragment, false)
    ensures |results| == |pages|
  {
    results := [];
    files := fs;
    var idx := 0;
    while idx < |pages|
      invariant 0 <= idx <= |pages|
      invariant Batch(results, files) == RunPages(fs, configs, pages[..idx], dynamicFragment, false)
      invariant |results| == idx
    {
      var page := pages[idx];
      assert pages[..idx + 1][..idx] == pages[..idx];
      var ok, next, _ := Build(files, configs, Some(page.config), idx == 0, dynamicFragment);
      results := results + [PageResult(page.name, page.output, ok)];
      files := next;
      idx := idx + 1;
    }
    assert pages[..idx] == pages;
  }

  // ---------------------------------------------------------------------------------------------
  // Properties of build_all

  /** The pages selected by a set of keys are the table's pages with those keys, in table order. */
  lemma {:induction false} PagesWithKeysSpec(pages: seq<Page>, keys: set<string>)
    ensures forall p :: p in PagesWithKeys(pages, keys) <==> p in pages && p.key in keys
    ensures forall xs, ys :: pages == xs + ys ==> PagesWithKeys(pages, keys) == PagesWithKeys(xs, keys) + PagesWithKeys(ys, keys)
    decreases |pages|
  {
    if pages != [] {
      PagesWithKeysSpec(pages[..|pages| - 1], keys);
      forall xs, ys | pages == xs + ys
        ensures PagesWithKeys(pages, keys) == PagesWithKeys(xs, keys) + PagesWithKeys(ys, keys)
      {
        PagesWithKeysAppend(xs, ys, keys);
      }
    }
  }

  lemma {:induction false} PagesWithKeysAppend(xs: seq<Page>, ys: seq<Page>, keys: set<string>)
    ensures PagesWithKeys(xs + ys, keys) == PagesWithKeys(xs, keys) + PagesWithKeys(ys, keys)
    decreases |ys|
  {
    if ys == [] {
      assert xs + ys == xs;
    } else {
      var init := ys[..|ys| - 1];
      assert (xs + ys)[..|xs + ys| - 1] == xs + init;
      PagesWithKeysAppend(xs, init, keys);
    }
  }

  /**
   * Key selection: the request fails exactly when some lower-cased key names no preset page;
   * otherwise it selects exactly the preset pages whose key was requested (in any case).
   * No keys at all selects the whole table.
   */
  lemma SelectPagesSpec(pageKeys: seq<string>)
    ensures pageKeys == [] ==> SelectPages(pageKeys) == Some(Pages)
    ensures pageKeys != [] ==>
              (SelectPages(pageKeys).None? <==> exists k :: k in pageKeys && Lower(k) !in KeysOf(Pages))
    ensures pageKeys != [] && SelectPages(pageKeys).Some? ==>
              forall p :: p in SelectPages(pageKeys).value <==> p in Pages && p.key in LoweredKeys(pageKeys)
  {
    if pageKeys == [] { return; }
    var keySet := LoweredKeys(pageKeys);
    var pages := PagesWithKeys(Pages, keySet);
    PagesWithKeysSpec(Pages, keySet);
    assert keySet - KeysOf(pages) == keySet - KeysOf(Pages) by {
      forall m | m in keySet && m in KeysOf(Pages) ensures m in KeysOf(pages) {
        var p :| p in Pages && p.key == m;
        assert p in pages;
      }
    }
    if exists k :: k in pageKeys && Lower(k) !in KeysOf(Pages) {
      var k :| k in pageKeys && Lower(k) !in KeysOf(Pages);
      assert Lower(k) in keySet - KeysOf(Pages);
    }
  }

  /** Every page of a batch is built and reported, in order, whatever the earlier pages did. */
  lemma {:induction false} RunPagesReportsEveryPage(fs: FileSystem, configs: map<string, PageConfig>, pages: seq<Page>,
                                                    dynamicFragment: Option<string>, always: bool)
    ensures var b := RunPages(fs, configs, pages, dynamicFragment, always);
            && |b.results| == |pages|
            && forall i :: 0 <= i < |pages| ==> b.results[i].name == pages[i].name && b.results[i].output == pages[i].output
    decreases |pages|
  {
    if pages != [] {
      RunPagesReportsEveryPage(fs, configs, pages[..|pages| - 1], dynamicFragment, always);
    }
  }

  /**
   * Running the dynamic step only before the first page gives the same results and files as
   * running it before every page, as long as no page writes its output over the generated
   * fragment; afterwards the generated fragment is in place.
   */
  lemma {:induction false} DynamicStepOnceSuffices(fs: FileSystem, configs: map<string, PageConfig>, pages: seq<Page>, fragment: string)
    requires pages != []
    requires forall path :: path in configs ==> configs[path].output != DynamicFragmentPath
    ensures RunPages(fs, configs, pages, Some(fragment), true) == RunPages(fs, configs, pages, Some(fragment), false)
    ensures var files := RunPages(fs, configs, pages, Some(fragment), false).files;
            DynamicFragmentPath in files && files[DynamicFragmentPath] == fragment
    decreases |pages|
  {
    var init := pages[..|pages| - 1];
    var page := pages[|pages| - 1];
    if init != [] {
      DynamicStepOnceSuffices(fs, configs, init, fragment);
      var before := RunPages(fs, configs, init, Some(fragment), false);
      DynamicStepRedundant(before.files, configs, page.config, fragment);
      BuildKeepsFragment(before.files, configs, page.config, false, fragment);
    } else {
      BuildKeepsFragment(fs, configs, page.config, true, fragment);
    }
  }

  /** When the generated fragment is already in place, running the dynamic step again changes nothing. */
  lemma DynamicStepRedundant(files: FileSystem, configs: map<string, PageConfig>, path: string, fragment: string)
    requires DynamicFragmentPath in files && files[DynamicFragmentPath] == fragment
    ensures BuildSpec(files, configs, Some(path), true, Some(fragment)) == BuildSpec(files, configs, Some(path), false, Some(fragment))
  {
    assert files[DynamicFragmentPath := fragment] == files;
  }

  /** A build whose output is not the fragment's path leaves the generated fragment in place. */
  lemma BuildKeepsFragment(files: FileSystem, configs: map<string, PageConfig>, path: string, runDynamic: bool, fragment: string)
    requires runDynamic || (DynamicFragmentPath in files && files[DynamicFragmentPath] == fragment)
    requires forall p :: p in configs ==> configs[p].output != DynamicFragmentPath
    ensures var after := BuildSpec(files, configs, Some(path), runDynamic, Some(fragment)).files;
            DynamicFragmentPath in after && after[DynamicFragmentPath] == fragment
  {
  }
}
