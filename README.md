# Omega-scan HTML builder: registry, link merge, grid and page plan

This project models the rule-carrying core of `gwdetchar/omega/html.py`, the
module that writes the HTML result pages of a gwdetchar Omega scan. The HTML
itself is produced by the external `glue.markup` page builder. Here the
output is abstract: a token sequence (open row, open column, image, close)
for the plot grid, and lists of paths for the links and files. The model
covers:

- **`FancyPlot`** (`Plots.dfy`): an image path and caption pair. The
  caption is chosen by a three-way rule. `fancybox_img` turns a plot into
  the lightbox anchor that the grid embeds.
- **The static-asset registry** (`Assets.dfy`, class `Registry`):
  - the process-wide `CSS_FILES` and `JS_FILES` lists;
  - `write_static_files`, which writes `omega.css` and `omega.js` and appends
    their paths once only.
- **The head-link merge** of `init_page` (`Assets.MergeLinks`): the
  registry is walked backwards into a copy of the caller's list, and an entry
  is prepended only when no link already ends with its basename. The loop is
  proved against the recursive specification `Merged`, and the merge's
  properties are proved about `Merged`.
- **`scaffold_plots`** (`Scaffold.dfy`): the index-modulo loop that opens
  and closes bootstrap rows. It is proved equal to a row-by-row reference
  layout `Grid`, whose row count, column widths, balance and image order are
  lemmas.
- **The `wrap_html` decorator** (`Wrap.dfy`): title, base and output
  directory defaults; the about page, which is itself a decorated call; the
  stripped `index.html` of the about link; when the summary is added; the
  order of written files, including the static files `init_page` writes on
  a process's first page; and the returned index path.
- **The `OBSERVATORY_MAP` lookup** of `write_summary`, and its `KeyError`.

`Paths.dfy` models the POSIX `os.path.join`, `os.path.basename` and
`str.endswith` behaviour that these pieces rely on. `Results.dfy` holds
`Option`, `Result` and the Python exceptions the code can raise
(`KeyError`, `ZeroDivisionError`, `UnboundLocalError`).

Python values are modelled as follows:
- strings are `seq<char>`;
- integers are unbounded, which matches Python;
- `//` and `%` follow Python's floor semantics (`Scaffold.PyFloorDiv`,
  `Scaffold.PyMod`);
- the GPS time is taken as its printed text.

The Bootstrap and jQuery URLs at the head of the registries come from
`gwdetchar/io/html.py`, which is not part of this model. They are
parameters of the `Registry` constructor.

### Behaviour of the code worth knowing

- With an empty plot list `scaffold_plots` raises `UnboundLocalError` at
  line 448, where it reads the loop variable `i` that the loop never bound;
  it does not return an empty grid. With `nperrow == 0`, `12 // nperrow`
  raises `ZeroDivisionError`.
- `wrap_html` gives the about page the base `..` whenever the resolved base
  is `.`, whether `.` was the default or was passed explicitly.
- The summary guard `if about:` of `wrap_html` holds exactly when `config`
  is given: the about link is then always `outdir/about/`, which is never
  empty.
- Every decorated call runs `init_page`, which writes `./static/omega.css`
  and `./static/omega.js` when they are not yet registered. With a
  configuration the about page is opened first, so on the first page of a
  process these two files are written before any page file.

## Model

| member | source | states |
|---|---|---|
| Paths.JoinShape | gwdetchar/omega/html.py:152 | `os.path.join`: the result ends with the second part; a relative second part keeps the first as prefix, separated by exactly one `/` |
| Paths.LastSepShape | gwdetchar/omega/html.py:214 | the separator search finds a `/` with none after it before the end of the searched range, or reports that there is none |
| Paths.BasenameShape | gwdetchar/omega/html.py:214 | `os.path.basename`: a suffix of the path containing no `/`, preceded by `/` or equal to the whole path |
| Paths.BasenameUnique | gwdetchar/omega/html.py:214 | the three basename properties determine it uniquely |
| Paths.JoinBasename | gwdetchar/omega/html.py:152-157 | joining a plain file name onto any directory gives that name back as basename |
| Plots.NewFancyPlot | gwdetchar/omega/html.py:116-120 | image is `str(img)`; a non-empty caption wins, else a FancyPlot source's non-empty caption, else the image basename |
| Plots.CaptionEmptyOnlyForDirectory | gwdetchar/omega/html.py:120 | a constructed caption is empty only if the image path has an empty basename |
| Plots.FancyboxImg | gwdetchar/omega/html.py:381-419 | the anchor links the image path, shows it as source, carries the caption as title and joins the `qscan-image` gallery group |
| Plots.EmbedRoundTrip | gwdetchar/omega/html.py:402-417 | the anchor gives back its plot (image path and caption), so distinct plots give distinct anchors |
| Plots.EmbedAltShape | gwdetchar/omega/html.py:411-415 | the alt text is the basename of the image source: a separator-free suffix preceded by `/` or equal to the source |
| Plots.CopyPreservesPlot | gwdetchar/omega/html.py:116-123 | `FancyPlot(p)` without a caption equals `p`: `str()` keeps the path and the caption is inherited |
| Scaffold.PyMod | gwdetchar/omega/html.py:441 | Python `%`: the remainder lies in `[0, b)` for positive `b` and in `(b, 0]` for negative `b` |
| Scaffold.PyDivMod | gwdetchar/omega/html.py:438-441 | Python's `//` and `%` satisfy `a == b * (a // b) + a % b` for divisors of either sign |
| Scaffold.PyFloorDivPositive | gwdetchar/omega/html.py:438 | for a positive divisor, `//` agrees with Euclidean division |
| Scaffold.PyModPositive | gwdetchar/omega/html.py:441 | for a positive divisor, `%` agrees with the Euclidean remainder |
| Scaffold.ScaffoldPlots | gwdetchar/omega/html.py:422-450 | `ZeroDivisionError` for `nperrow == 0`; `UnboundLocalError` for no plots; otherwise success, and for `nperrow >= 1` exactly the reference layout of rows of `nperrow` columns of width `12 // nperrow` |
| Scaffold.EmittedRows | gwdetchar/omega/html.py:440-446 | after any number of passes the loop has written whole rows of `nperrow` plots followed by one open row of fewer plots, together the plots seen so far in order |
| Scaffold.EmittedLayout | gwdetchar/omega/html.py:440-449 | the loop's output plus the trailing close, written exactly when the last row is not full, is the reference layout |
| Scaffold.GridRowCount | gwdetchar/omega/html.py:441-442 | the layout opens ceil(N / nperrow) rows |
| Scaffold.GridColumns | gwdetchar/omega/html.py:443 | exactly one column div per plot, every column of the same width |
| Scaffold.GridBalanced | gwdetchar/omega/html.py:445-449 | every close matches an open and every open, including the trailing partial row, is closed |
| Scaffold.GridImages | gwdetchar/omega/html.py:440-444 | the images embedded are the plots, each once, in list order |
| Scaffold.SevenPlotsThreePerRow | gwdetchar/omega/html.py:438-449 | seven plots three per row: rows of 3, 3 and 1 of width 4; three rows; balanced |
| Assets.Register | gwdetchar/omega/html.py:153-156 | appends the path only when absent: the old list is a prefix, the path is present, at most one entry is added |
| Assets.StaticWrites | gwdetchar/omega/html.py:150-162 | `omega.css` and `omega.js` are written exactly when their paths are not registered, and nothing else is written |
| Assets.StaticWritesOnce | gwdetchar/omega/html.py:153-161 | once both paths are registered, writing the static files again writes nothing |
| Assets.RegisterKeepsDistinct | gwdetchar/omega/html.py:153-161 | registering never introduces a duplicate |
| Assets.RegisterIdempotent | gwdetchar/omega/html.py:153-161 | a second registration of the same path changes nothing |
| Assets.Registry.constructor | gwdetchar/omega/html.py:61-62 | the registries start as Bootstrap, fancybox and Lato stylesheets and jQuery, Bootstrap and fancybox scripts, without duplicates |
| Assets.Registry.WriteStaticFiles | gwdetchar/omega/html.py:150-162 | returns `static/omega.css` and `static/omega.js` whether or not written; writes each exactly when absent; registers each once; keeps both lists duplicate-free |
| Assets.StaticBasenames | gwdetchar/omega/html.py:152-157 | the written files have basenames `omega.css` and `omega.js` wherever the directory is |
| Assets.Inserted | gwdetchar/omega/html.py:213-216 | what the merge puts first are baseline entries, and no more of them than the baseline holds |
| Assets.Merged | gwdetchar/omega/html.py:212-224 | the caller's list is an unchanged suffix of the result, and no more entries are added than the baseline holds |
| Assets.MergedStep | gwdetchar/omega/html.py:213-216 | one pass of the reverse walk: the entry is put in front exactly when no link already in the list ends with its basename |
| Assets.AnyEndsWithLoop | gwdetchar/omega/html.py:215 | the generator test is true exactly when some link ends with the suffix |
| Assets.MergeLinks | gwdetchar/omega/html.py:212-216 | the reverse walk with `insert(0, ...)` computes `Merged` |
| Assets.InsertedInRegistryOrder | gwdetchar/omega/html.py:213-216 | the entries put before the caller's links are baseline entries in registry order |
| Assets.MergedCoversBaseline | gwdetchar/omega/html.py:213-216 | after the merge every baseline entry's basename is matched by some link |
| Assets.CallerOverrides | gwdetchar/omega/html.py:215-216 | a baseline entry whose basename a caller link already ends with is not inserted |
| Assets.MergedIndependent | gwdetchar/omega/html.py:212-216 | when no baseline basename shadows another, the result is the baseline entries the caller lacks, in order, then the caller's list |
| Assets.RegistryLinkedAsIs | gwdetchar/omega/html.py:212-224 | with no caller links and no shadowing, the page links exactly the registry in order |
| Assets.Registry.InitPageLinks | gwdetchar/omega/html.py:201-226 | `init_page` registers `./static/omega.css`/`.js`, then links the merged lists, which always include a link ending in `omega.css` / `omega.js` |
| Wrap.StripIndex | gwdetchar/omega/html.py:311-312 | a path whose basename is `index.html` loses exactly those ten characters and the result is a prefix; any other path is unchanged |
| Wrap.PlanAboutIffConfig | gwdetchar/omega/html.py:300-312 | an about page is planned, and an about link set, exactly when `config` is given; the about page's own call has no `config`, so it has no about page itself |
| Wrap.PlanDefaults | gwdetchar/omega/html.py:288-296 | the default title names the interferometer and the GPS time, the default base `.`, and `outdir` defaults to the resolved base |
| Wrap.PlanIndex | gwdetchar/omega/html.py:320-329 | the call returns `outdir/index.html` and writes its content to `outdir/_inner.html` |
| Wrap.AboutCallShape | gwdetchar/omega/html.py:305-310 | the about page goes to `outdir/about`, keeps the title, has base `..` exactly when the base is `.`, and has no about page or summary of its own |
| Wrap.AboutLinkIsDirectory | gwdetchar/omega/html.py:306-312 | the footer link is `outdir/about/` |
| Wrap.SummaryIffConfig | gwdetchar/omega/html.py:300-318 | the summary is added if and only if a configuration is given |
| Wrap.InterferometerCell | gwdetchar/omega/html.py:562 | a cell exists exactly for the five known prefixes and reads `NAME (IFO)`; otherwise `KeyError(ifo)` |
| Wrap.KnownInterferometers | gwdetchar/omega/html.py:42-48 | the cell text for G1, H1, K1, L1 and V1, and `KeyError` for every other prefix |
| Wrap.WrapHtml | gwdetchar/omega/html.py:286-329 | after any call, with or without an about page and even when it fails, both static files are registered |
| Wrap.FinishPageShape | gwdetchar/omega/html.py:313-329 | the page writes the unregistered static files, then fails with `KeyError(ifo)` exactly when a summary is due for an unknown prefix, and otherwise writes its content file and index and returns the index |
| Wrap.NoConfigPage | gwdetchar/omega/html.py:300-303 | without `config` there is no about page and no summary: the call is the page alone |
| Wrap.WrapHtmlOutcome | gwdetchar/omega/html.py:300-329 | fails, with `KeyError(ifo)` and without writing the index, exactly when a configuration is given and the prefix is unknown; otherwise returns the index, the last file written |
| Wrap.AboutFiles | gwdetchar/omega/html.py:305-329 | with a configuration: first the unregistered static files, then the about page's content file and index; the main page writes no static file and adds its own two files unless the summary lookup fails |
| Wrap.AboutPage | gwdetchar/omega/html.py:305-310 | the about page never fails and writes the unregistered static files, then its content file and index |
| Wrap.AfterAbout | gwdetchar/omega/html.py:309-314 | after the about page the main page continues from the files and registries the about page left |
| Wrap.FirstPageWritesStatics | gwdetchar/omega/html.py:150-162 | on a process's first page, with neither file registered, `./static/omega.css` and `./static/omega.js` are the first two files written |
| Wrap.StaticFilesWrittenOnce | gwdetchar/omega/html.py:153-161 | a later page in the same process, started from the registries a call leaves, writes no static file |
| Wrap.IndexNotStatic | gwdetchar/omega/html.py:327 | a page index is never one of the static files |
| Wrap.TopIndexOutsideAbout | gwdetchar/omega/html.py:306-327 | the returned index is neither of the about page's files |

## Left out

- HTML serialization (`glue.markup`), tag attributes and escaping: the grid is abstract tokens; the head, banner, footer, summary table and content markup are not modelled.
- File system effects (`os.makedirs`, the writes of `omega.css`, `omega.js`, `_inner.html` and `index.html`): a write is modelled only as a flag or as its path in a list of written files.
- The text of `OMEGA_CSS` and `OMEGA_JS` (gwdetchar/omega/html.py:64-99) is not modelled: a write of `omega.css` or `omega.js` is recorded only by its path.
- `BOOTSTRAP_CSS`, `JQUERY_JS` and `BOOTSTRAP_JS` come from `gwdetchar/io/html.py` (imported at line 34), which is not part of this model; they are parameters of the `Registry` constructor.
- `fancybox_img` markup is modelled as a record of its anchor and image fields (`Plots.FancyboxImg`), without the fixed `class`, `target` attributes and without caller-supplied `linkparams` or image attributes (`scaffold_plots` passes none).
- `tconvert`, `getuser()`, `datetime.now()` and `sys.argv` (UTC time, footer, about page text) are environmental; the GPS time enters only as its printed text.
- `highlight` in `write_config_html`, `write_toc`, `write_block` (including its `%.1f` formatting), `write_footer`, `write_qscan_page`, `write_null_page` and the body of `write_about_page` are page content, not modelled; the about page enters only as the decorated call that `wrap_html` makes.
- The `getattr(page, key)(value)` dispatch of extra `init_page` keywords and the jQuery `load` script are not modelled.
- Scaffold.ScaffoldPlots: for negative `nperrow` the contract states only that the call succeeds, not which tokens it emits.
- Wrap.WrapHtml: a keyword passed explicitly as `None` is not distinguished from a missing one. For `config` the source would then fail inside the about page; for `title`, `base` and `outdir` (lines 293-296) the source uses the `None` value itself, so `outdir=None` reaches `os.path.isdir(None)`. The model resolves all four to their defaults. The inner function's own errors are not modelled.
- Wrap.WrapHtml: the registries are threaded through the call as values (the lists `Assets.Registry` holds), not through the `Registry` object; `os.makedirs` and the failure of a write are not modelled.
- Aliasing of the mutable default arguments of `init_page` does not arise in the model: lists are values, so the caller's list is never changed, which the source ensures by copying it (lines 212 and 220).
