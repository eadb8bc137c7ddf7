/** The option resolution of the `wrap_html` decorator, the about-page link
    it derives, and the interferometer lookup of `write_summary`. */
module Wrap {
  import opened Results
  import opened Paths
  import opened Assets

  /** Keyword arguments the decorated function receives: `title`, `base`,
      `outdir` and `config` may each be absent. */
  datatype Options = Options(
    title: Option<string>,
    base: Option<string>,
    outdir: Option<string>,
    config: Option<seq<string>>)

  /** The arguments handed on to `init_page`. */
  datatype InitArgs = InitArgs(title: string, base: string)

  /** Everything one decorated call decides before it writes anything. */
  datatype Plan = Plan(
    init: InitArgs,
    outdir: string,
    aboutCall: Option<Options>,
    about: Option<string>,
    summary: bool,
    contentFile: string,
    index: string)

  const AboutDirName: string := "about"
  const IndexName: string := "index.html"
  const ContentName: string := "_inner.html"

  /** `'%s Qscan | %s' % (ifo, gpstime)`, with the time as its printed text. */
  function DefaultTitle(ifo: string, gps: string): string {
    ifo + " Qscan | " + gps
  }

  function Resolve(x: Option<string>, default: string): string {
    if x.Some? then x.value else default
  }

  /** `about[:-10]` when the basename of `about` is `index.html`. */
  function StripIndex(path: string): (r: string)
    ensures Basename(path) == IndexName ==> |r| + |IndexName| == |path| && r + IndexName == path
    ensures Basename(path) != IndexName ==> r == path
    ensures r <= path
  {
    BasenameShape(path);
    if Basename(path) == IndexName then path[..|path| - 10] else path
  }

  /** The plan of one decorated call. When `config` is given, the about page
      is itself produced by a decorated call, into `outdir/about`, with the
      same title, with the parent directory as base when the base is the
      current directory, and without `config`. */
  function PagePlan(ifo: string, gps: string, opts: Options): (p: Plan)
    decreases if opts.config.Some? then 1 else 0
  {
    var init := InitArgs(Resolve(opts.title, DefaultTitle(ifo, gps)), Resolve(opts.base, CurDir));
    var outdir := Resolve(opts.outdir, init.base);
    var aboutCall :=
      if opts.config.None? then None
      else Some(Options(Some(init.title),
                        Some(if init.base == CurDir then ParDir else init.base),
                        Some(Join(outdir, AboutDirName)),
                        None));
    var about :=
      if aboutCall.None? then None
      else Some(StripIndex(PagePlan(ifo, gps, aboutCall.value).index));
    Plan(init, outdir, aboutCall, about,
         about.Some? && about.value != [],
         Join(outdir, ContentName), Join(outdir, IndexName))
  }

  /** An about page is planned, and linked, exactly when a configuration is
      given; its own call carries none, so it has no about page itself. */
  lemma PlanAboutIffConfig(ifo: string, gps: string, opts: Options)
    ensures var p := PagePlan(ifo, gps, opts);
            (p.aboutCall.Some? <==> opts.config.Some?) &&
            (p.about.Some? <==> opts.config.Some?) &&
            (p.aboutCall.Some? ==> p.aboutCall.value.config.None? &&
                                   PagePlan(ifo, gps, p.aboutCall.value).aboutCall.None?)
  {
  }

  /** Defaults: the title names the interferometer and time, the base is the
      current directory, and the output directory is the resolved base
      (whether it was given or defaulted). */
  lemma PlanDefaults(ifo: string, gps: string, opts: Options)
    ensures var p := PagePlan(ifo, gps, opts);
            (opts.title.None? ==> p.init.title == DefaultTitle(ifo, gps)) &&
            (opts.title.Some? ==> p.init.title == opts.title.value) &&
            (opts.base.None? ==> p.init.base == CurDir) &&
            (opts.base.Some? ==> p.init.base == opts.base.value) &&
            (opts.outdir.None? ==> p.outdir == p.init.base) &&
            (opts.outdir.Some? ==> p.outdir == opts.outdir.value)
  {
  }

  /** The returned path is `index.html` inside the output directory, and
      the content file sits beside it. */
  lemma PlanIndex(ifo: string, gps: string, opts: Options)
    ensures var p := PagePlan(ifo, gps, opts);
            p.index == Join(p.outdir, IndexName) && Basename(p.index) == IndexName &&
            p.contentFile == Join(p.outdir, ContentName) && Basename(p.contentFile) == ContentName
  {
    var p := PagePlan(ifo, gps, opts);
    assert Sep !in IndexName && Sep !in ContentName;
    JoinBasename(p.outdir, IndexName);
    JoinBasename(p.outdir, ContentName);
  }

  /** The about page is written into `outdir/about`, keeps the title, takes
      the parent directory as base exactly when the base is the current
      directory, and gets no about page of its own. */
  lemma AboutCallShape(ifo: string, gps: string, opts: Options)
    requires opts.config.Some?
    ensures var p := PagePlan(ifo, gps, opts);
            p.aboutCall.Some? &&
            var a := p.aboutCall.value;
            a.outdir == Some(Join(p.outdir, AboutDirName)) &&
            a.title == Some(p.init.title) &&
            (p.init.base == CurDir ==> a.base == Some(ParDir)) &&
            (p.init.base != CurDir ==> a.base == Some(p.init.base)) &&
            PagePlan(ifo, gps, a).about.None? && !PagePlan(ifo, gps, a).summary
  {
  }

  /** The footer link points at the about directory itself: the about
      page's `index.html` with those ten characters stripped. */
  lemma AboutLinkIsDirectory(ifo: string, gps: string, opts: Options)
    requires opts.config.Some?
    ensures var p := PagePlan(ifo, gps, opts);
            p.about == Some(Join(p.outdir, AboutDirName) + [Sep])
  {
    var p := PagePlan(ifo, gps, opts);
    var dir := Join(p.outdir, AboutDirName);
    var a := p.aboutCall.value;
    PlanIndex(ifo, gps, a);
    var aboutIndex := PagePlan(ifo, gps, a).index;
    assert aboutIndex == Join(dir, IndexName);
    assert dir != [] && dir[|dir| - 1] != Sep by {
      JoinShape(p.outdir, AboutDirName);
      assert dir[|dir| - 1] == AboutDirName[|AboutDirName| - 1];
    }
    JoinShape(dir, IndexName);
    assert aboutIndex == dir + [Sep] + IndexName;
    var r := StripIndex(aboutIndex);
    assert r + IndexName == dir + [Sep] + IndexName;
    assert r == (r + IndexName)[..|r|];
  }

  /** The analysis summary is added exactly when a configuration is given:
      the about link is then never empty, and without one there is none. */
  lemma SummaryIffConfig(ifo: string, gps: string, opts: Options)
    ensures PagePlan(ifo, gps, opts).summary <==> opts.config.Some?
  {
    if opts.config.Some? {
      AboutLinkIsDirectory(ifo, gps, opts);
    }
  }

  // ---------------------------------------------------------------------
  // write_summary

  /** `OBSERVATORY_MAP` */
  const ObservatoryMap: map<string, string> := map[
    "G1" := "GEO",
    "H1" := "LIGO Hanford",
    "K1" := "KAGRA",
    "L1" := "LIGO Livingston",
    "V1" := "Virgo"]

  /** The interferometer cell of the summary table, `"%s (%s)" % (name, ifo)`;
      an unknown prefix raises `KeyError`. */
  function InterferometerCell(ifo: string): (r: Result<string>)
    ensures r.Ok? <==> ifo in ObservatoryMap
    ensures r.Err? ==> r.error == KeyError(ifo)
    ensures r.Ok? ==> EndsWith(r.value, " (" + ifo + ")")
  {
    if ifo in ObservatoryMap then Ok(ObservatoryMap[ifo] + " (" + ifo + ")")
    else Err(KeyError(ifo))
  }

  /** The five known prefixes and what the cell reads for them. */
  lemma KnownInterferometers()
    ensures InterferometerCell("G1") == Ok("GEO (G1)")
    ensures InterferometerCell("H1") == Ok("LIGO Hanford (H1)")
    ensures InterferometerCell("K1") == Ok("KAGRA (K1)")
    ensures InterferometerCell("L1") == Ok("LIGO Livingston (L1)")
    ensures InterferometerCell("V1") == Ok("Virgo (V1)")
    ensures forall ifo :: ifo !in ObservatoryMap ==> InterferometerCell(ifo) == Err(KeyError(ifo))
  {
    assert ObservatoryMap["G1"] + " (" + "G1" + ")" == "GEO (G1)";
    assert ObservatoryMap["H1"] + " (" + "H1" + ")" == "LIGO Hanford (H1)";
    assert ObservatoryMap["K1"] + " (" + "K1" + ")" == "KAGRA (K1)";
    assert ObservatoryMap["L1"] + " (" + "L1" + ")" == "LIGO Livingston (L1)";
    assert ObservatoryMap["V1"] + " (" + "V1" + ")" == "Virgo (V1)";
  }

  // ---------------------------------------------------------------------
  // One decorated call, end to end

  /** The files a decorated call writes, in order, what it returns, and the
      static-asset registries (`CSS_FILES`, `JS_FILES`) it leaves behind. */
  datatype Outcome = Outcome(written: seq<string>, result: Result<string>, css: seq<string>, js: seq<string>)

  /** `decorated_func(ifo, gpstime, ..., **kwargs)`, started with the
      registries `css` and `js`: the about page, itself a decorated call, is
      produced first; the rest of the page follows (`FinishPage`). */
  function WrapHtml(ifo: string, gps: string, opts: Options, css: seq<string>, js: seq<string>): (o: Outcome)
    ensures o.css == Register(css, Join(StaticDir, OmegaCssName))
    ensures o.js == Register(js, Join(StaticDir, OmegaJsName))
    decreases if opts.config.Some? then 1 else 0
  {
    var p := PagePlan(ifo, gps, opts);
    if p.aboutCall.None? then FinishPage(ifo, p, [], css, js)
    else
      var aboutPage := WrapHtml(ifo, gps, p.aboutCall.value, css, js);
      if aboutPage.result.Err? then aboutPage
      else FinishPage(ifo, p, aboutPage.written, aboutPage.css, aboutPage.js)
  }

  /** The page itself, after the files in `before`: `init_page` writes the
      static files not yet registered; then the summary lookup may raise;
      otherwise the content file and the index are written and the index
      is returned. */
  function FinishPage(ifo: string, p: Plan, before: seq<string>, css: seq<string>, js: seq<string>): (o: Outcome)
    ensures o.css == Register(css, Join(StaticDir, OmegaCssName))
    ensures o.js == Register(js, Join(StaticDir, OmegaJsName))
  {
    var written := before + StaticWrites(css, js, StaticDir);
    var css1 := Register(css, Join(StaticDir, OmegaCssName));
    var js1 := Register(js, Join(StaticDir, OmegaJsName));
    if p.summary && InterferometerCell(ifo).Err? then
      Outcome(written, Err(InterferometerCell(ifo).error), css1, js1)
    else
      Outcome(written + [p.contentFile, p.index], Ok(p.index), css1, js1)
  }

  /** What the page itself writes and returns: the static files still
      unregistered, then (unless the summary lookup raises `KeyError`) its
      content file and index, which it returns. */
  lemma FinishPageShape(ifo: string, p: Plan, before: seq<string>, css: seq<string>, js: seq<string>)
    ensures var o := FinishPage(ifo, p, before, css, js);
            var fails := p.summary && ifo !in ObservatoryMap;
            (o.result.Err? <==> fails) &&
            (fails ==> o.result == Err(KeyError(ifo)) &&
                       o.written == before + StaticWrites(css, js, StaticDir)) &&
            (!fails ==> o.result == Ok(p.index) &&
                        o.written == before + StaticWrites(css, js, StaticDir) + [p.contentFile, p.index])
  {
  }

  /** Without a configuration there is no about page: the call is the page
      itself. */
  lemma NoConfigPage(ifo: string, gps: string, opts: Options, css: seq<string>, js: seq<string>)
    requires opts.config.None?
    ensures var p := PagePlan(ifo, gps, opts);
            WrapHtml(ifo, gps, opts, css, js) == FinishPage(ifo, p, [], css, js) && !p.summary
  {
  }

  /** A call fails only through the summary lookup: exactly when a
      configuration is given and the interferometer is unknown; it then has
      not written its index. On success it returns `outdir/index.html`, the
      last file written. */
  lemma WrapHtmlOutcome(ifo: string, gps: string, opts: Options, css: seq<string>, js: seq<string>)
    ensures var o := WrapHtml(ifo, gps, opts, css, js);
            var p := PagePlan(ifo, gps, opts);
            (o.result.Err? <==> opts.config.Some? && ifo !in ObservatoryMap) &&
            (o.result.Err? ==> o.result.error == KeyError(ifo) && p.index !in o.written) &&
            (o.result.Ok? ==> o.result.value == p.index && o.written != [] &&
                              o.written[|o.written| - 1] == p.index)
  {
    SummaryIffConfig(ifo, gps, opts);
    var o := WrapHtml(ifo, gps, opts, css, js);
    if o.result.Err? && opts.config.Some? {
      AboutFiles(ifo, gps, opts, css, js);
      TopIndexOutsideAbout(ifo, gps, opts);
      IndexNotStatic(ifo, gps, opts);
    }
  }

  /** A page index is never one of the static files. */
  lemma IndexNotStatic(ifo: string, gps: string, opts: Options)
    ensures var p := PagePlan(ifo, gps, opts);
            p.index != Join(StaticDir, OmegaCssName) && p.index != Join(StaticDir, OmegaJsName)
  {
    PlanIndex(ifo, gps, opts);
    StaticBasenames(StaticDir);
  }

  /** With a configuration, the static files still unregistered are written
      first (by the about page's `init_page`), then the about page's content
      file and index; the main page writes no static file of its own, and
      adds its content file and index unless the summary lookup fails. */
  lemma AboutFiles(ifo: string, gps: string, opts: Options, css: seq<string>, js: seq<string>)
    requires opts.config.Some?
    ensures var p := PagePlan(ifo, gps, opts);
            var a := PagePlan(ifo, gps, p.aboutCall.value);
            var o := WrapHtml(ifo, gps, opts, css, js);
            var aboutWritten := StaticWrites(css, js, StaticDir) + [a.contentFile, a.index];
            a.outdir == Join(p.outdir, AboutDirName) &&
            WrapHtml(ifo, gps, p.aboutCall.value, css, js).written == aboutWritten &&
            o.written == aboutWritten + (if o.result.Ok? then [p.contentFile, p.index] else [])
  {
    var p := PagePlan(ifo, gps, opts);
    var inner := AboutPage(ifo, gps, opts, css, js);
    AfterAbout(ifo, gps, opts, css, js);
    StaticWritesOnce(css, js, StaticDir);
    FinishPageShape(ifo, p, inner.written, inner.css, inner.js);
    assert inner.written + [] == inner.written;
  }

  /** The about page never fails; it writes the unregistered static files and
      then its own two files. */
  lemma AboutPage(ifo: string, gps: string, opts: Options, css: seq<string>, js: seq<string>)
    returns (inner: Outcome)
    requires opts.config.Some?
    ensures var a := PagePlan(ifo, gps, PagePlan(ifo, gps, opts).aboutCall.value);
            inner == WrapHtml(ifo, gps, PagePlan(ifo, gps, opts).aboutCall.value, css, js) &&
            inner.result.Ok? &&
            inner.written == StaticWrites(css, js, StaticDir) + [a.contentFile, a.index]
  {
    var ao := PagePlan(ifo, gps, opts).aboutCall.value;
    var a := PagePlan(ifo, gps, ao);
    NoConfigPage(ifo, gps, ao, css, js);
    FinishPageShape(ifo, a, [], css, js);
    inner := WrapHtml(ifo, gps, ao, css, js);
    assert [] + StaticWrites(css, js, StaticDir) == StaticWrites(css, js, StaticDir);
  }

  /** After a successful about page, the main page continues from the files
      and registries the about page left. */
  lemma AfterAbout(ifo: string, gps: string, opts: Options, css: seq<string>, js: seq<string>)
    requires opts.config.Some?
    ensures var p := PagePlan(ifo, gps, opts);
            var inner := WrapHtml(ifo, gps, p.aboutCall.value, css, js);
            inner.result.Ok? ==>
              WrapHtml(ifo, gps, opts, css, js) == FinishPage(ifo, p, inner.written, inner.css, inner.js)
  {
  }

  /** On the first page of a process, before either static file is
      registered, the style sheet and the script are the first two files
      written. */
  lemma FirstPageWritesStatics(ifo: string, gps: string, opts: Options, css: seq<string>, js: seq<string>)
    requires Join(StaticDir, OmegaCssName) !in css && Join(StaticDir, OmegaJsName) !in js
    ensures var o := WrapHtml(ifo, gps, opts, css, js);
            |o.written| >= 2 &&
            o.written[0] == Join(StaticDir, OmegaCssName) && o.written[1] == Join(StaticDir, OmegaJsName)
  {
    var rest := StaticsFirst(ifo, gps, opts, css, js);
    var statics := StaticWrites(css, js, StaticDir);
    assert statics == [Join(StaticDir, OmegaCssName), Join(StaticDir, OmegaJsName)];
    assert (statics + rest)[0] == statics[0] && (statics + rest)[1] == statics[1];
  }

  /** Whatever else a call writes, it starts with the static files still
      unregistered. */
  lemma StaticsFirst(ifo: string, gps: string, opts: Options, css: seq<string>, js: seq<string>)
    returns (rest: seq<string>)
    ensures WrapHtml(ifo, gps, opts, css, js).written == StaticWrites(css, js, StaticDir) + rest
  {
    var statics := StaticWrites(css, js, StaticDir);
    var o := WrapHtml(ifo, gps, opts, css, js);
    if opts.config.Some? {
      AboutFiles(ifo, gps, opts, css, js);
      var p := PagePlan(ifo, gps, opts);
      var a := PagePlan(ifo, gps, p.aboutCall.value);
      var tail := if o.result.Ok? then [p.contentFile, p.index] else [];
      rest := [a.contentFile, a.index] + tail;
      Assoc(statics, [a.contentFile, a.index], tail);
    } else {
      var p := PagePlan(ifo, gps, opts);
      NoConfigPage(ifo, gps, opts, css, js);
      FinishPageShape(ifo, p, [], css, js);
      rest := if o.result.Ok? then [p.contentFile, p.index] else [];
      assert [] + statics == statics && statics + [] == statics;
    }
  }

  lemma Assoc<T>(x: seq<T>, y: seq<T>, z: seq<T>)
    ensures (x + y) + z == x + (y + z)
  {
  }

  /** Once a page has been written, a later page in the same process writes
      no static file: its registries already hold both. */
  lemma StaticFilesWrittenOnce(ifo: string, gps: string, opts: Options, css: seq<string>, js: seq<string>)
    ensures var o := WrapHtml(ifo, gps, opts, css, js);
            StaticWrites(o.css, o.js, StaticDir) == []
  {
    StaticWritesOnce(css, js, StaticDir);
  }

  /** The top-level index differs from both files of the about page. */
  lemma TopIndexOutsideAbout(ifo: string, gps: string, opts: Options)
    requires opts.config.Some?
    ensures var p := PagePlan(ifo, gps, opts);
            var a := PagePlan(ifo, gps, p.aboutCall.value);
            p.index != a.index && p.index != a.contentFile
  {
    var p := PagePlan(ifo, gps, opts);
    var a := PagePlan(ifo, gps, p.aboutCall.value);
    PlanIndex(ifo, gps, opts);
    PlanIndex(ifo, gps, p.aboutCall.value);
    AboutLinkIsDirectory(ifo, gps, opts);
    // The about index is one directory deeper: it contains `outdir/about/`.
    var dir := Join(p.outdir, AboutDirName);
    assert a.index == dir + [Sep] + IndexName;
  }
}
