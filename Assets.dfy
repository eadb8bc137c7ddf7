/** The process-wide static-asset registry (`CSS_FILES`, `JS_FILES`),
    `write_static_files`, and the stylesheet/script merge of `init_page`. */
module Assets {
  import opened Paths

  const FancyboxCss: string := "//cdnjs.cloudflare.com/ajax/libs/fancybox/2.1.5/jquery.fancybox.min.css"
  const FancyboxJs: string := "//cdnjs.cloudflare.com/ajax/libs/fancybox/2.1.5/jquery.fancybox.min.js"
  const FontLatoCss: string := "//fonts.googleapis.com/css?family=Lato:300,700"

  const OmegaCssName: string := "omega.css"
  const OmegaJsName: string := "omega.js"

  /** `os.path.join(os.path.curdir, 'static')`, where `init_page` writes them. */
  const StaticDir: string := Join(CurDir, "static")

  /** The written files keep their own names as basenames, wherever the
      static directory is. */
  lemma StaticBasenames(staticDir: string)
    ensures Basename(Join(staticDir, OmegaCssName)) == OmegaCssName
    ensures Basename(Join(staticDir, OmegaJsName)) == OmegaJsName
  {
    assert Sep !in OmegaCssName && Sep !in OmegaJsName;
    JoinBasename(staticDir, OmegaCssName);
    JoinBasename(staticDir, OmegaJsName);
  }

  /** The registries at process start, around the Bootstrap and jQuery URLs
      that `gwdetchar.io.html` supplies. */
  function BaselineCss(bootstrapCss: string): seq<string> {
    [bootstrapCss, FancyboxCss, FontLatoCss]
  }

  function BaselineJs(jqueryJs: string, bootstrapJs: string): seq<string> {
    [jqueryJs, bootstrapJs, FancyboxJs]
  }

  predicate NoDuplicates(s: seq<string>) {
    forall i, j :: 0 <= i < j < |s| ==> s[i] != s[j]
  }

  // ---------------------------------------------------------------------
  // Registering a written file

  /** `if path not in files: files.append(path)` */
  function Register(files: seq<string>, path: string): (r: seq<string>)
    ensures path in r
    ensures files <= r && |r| <= |files| + 1
    ensures path in files ==> r == files
  {
    if path in files then files else files + [path]
  }

  /** The files `write_static_files(static)` writes, in order, given the
      registries it finds: each of the two only when its path is not yet
      registered. */
  function StaticWrites(css: seq<string>, js: seq<string>, staticDir: string): (r: seq<string>)
    ensures Join(staticDir, OmegaCssName) in r <==> Join(staticDir, OmegaCssName) !in css
    ensures Join(staticDir, OmegaJsName) in r <==> Join(staticDir, OmegaJsName) !in js
    ensures forall f :: f in r ==> f == Join(staticDir, OmegaCssName) || f == Join(staticDir, OmegaJsName)
    ensures |r| <= 2 && (Join(staticDir, OmegaCssName) in r ==> r[0] == Join(staticDir, OmegaCssName))
  {
    StaticBasenames(staticDir);
    var cssPath := Join(staticDir, OmegaCssName);
    var jsPath := Join(staticDir, OmegaJsName);
    (if cssPath in css then [] else [cssPath]) + (if jsPath in js then [] else [jsPath])
  }

  /** Once both files are registered, writing the static files again
      writes nothing. */
  lemma StaticWritesOnce(css: seq<string>, js: seq<string>, staticDir: string)
    ensures StaticWrites(Register(css, Join(staticDir, OmegaCssName)),
                         Register(js, Join(staticDir, OmegaJsName)), staticDir) == []
  {
  }

  /** Registering never introduces a duplicate. */
  lemma RegisterKeepsDistinct(files: seq<string>, path: string)
    requires NoDuplicates(files)
    ensures NoDuplicates(Register(files, path))
  {
    if path !in files {
      var r := files + [path];
      forall i, j | 0 <= i < j < |r| ensures r[i] != r[j] {
        if j == |files| {
          assert r[i] == files[i];
        }
      }
    }
  }

  /** Registering the same path twice changes nothing the second time. */
  lemma RegisterIdempotent(files: seq<string>, path: string)
    ensures Register(Register(files, path), path) == Register(files, path)
  {
  }

  // ---------------------------------------------------------------------
  // The head-link merge of init_page

  /** `any(f.endswith(suffix) for f in links)` */
  predicate AnyEndsWith(links: seq<string>, suffix: string) {
    exists k :: 0 <= k < |links| && EndsWith(links[k], suffix)
  }

  /** The entries the merge puts in front of the caller's list, taking the
      baseline one entry at a time from the last one to the first: an entry
      is put in front unless some link already in the list ends with its
      basename. */
  function Inserted(baseline: seq<string>, given: seq<string>): (r: seq<string>)
    ensures |r| <= |baseline|
    ensures forall c :: c in r ==> c in baseline
    decreases |baseline|
  {
    if baseline == [] then []
    else
      var ins := Inserted(baseline[1..], given);
      if AnyEndsWith(ins + given, Basename(baseline[0])) then ins else [baseline[0]] + ins
  }

  /** The merged list: the inserted baseline entries, then the caller's list. */
  function Merged(baseline: seq<string>, given: seq<string>): (r: seq<string>)
    ensures |given| <= |r| <= |given| + |baseline|
    ensures r[|r| - |given|..] == given
  {
    Inserted(baseline, given) + given
  }

  /** One step of the merge, seen on the whole list. */
  lemma MergedStep(baseline: seq<string>, given: seq<string>)
    requires baseline != []
    ensures var rest := Merged(baseline[1..], given);
            Merged(baseline, given) ==
              if AnyEndsWith(rest, Basename(baseline[0])) then rest else [baseline[0]] + rest
  {
    ConsAssoc(baseline[0], Inserted(baseline[1..], given), given);
  }

  /** `css = css[:]`, then `for cssf in CSS_FILES[::-1]: ... css.insert(0, cssf)`
      (and the same for scripts). */
  method MergeLinks(baseline: seq<string>, given: seq<string>) returns (links: seq<string>)
    ensures links == Merged(baseline, given)
  {
    links := given;
    var i := |baseline|;
    while i > 0
      invariant 0 <= i <= |baseline|
      invariant links == Merged(baseline[i..], given)
      decreases i
    {
      i := i - 1;
      var entry := baseline[i];
      var b := Basename(entry);
      var present := AnyEndsWithLoop(links, b);
      assert baseline[i..][1..] == baseline[i + 1..];
      MergedStep(baseline[i..], given);
      if !present {
        links := [entry] + links;
      }
    }
  }

  /** The generator test `any(f.endswith(b) for f in links)`. */
  method AnyEndsWithLoop(links: seq<string>, suffix: string) returns (found: bool)
    ensures found == AnyEndsWith(links, suffix)
  {
    found := false;
    var k := 0;
    while k < |links| && !found
      invariant 0 <= k <= |links|
      invariant found == (exists j :: 0 <= j < k && EndsWith(links[j], suffix))
    {
      found := EndsWith(links[k], suffix);
      k := k + 1;
    }
  }

  /** `a` occurs in `b` in order, possibly with gaps. */
  predicate Subsequence(a: seq<string>, b: seq<string>)
    decreases |b|
  {
    if a == [] then true
    else if b == [] then false
    else if a[0] == b[0] then Subsequence(a[1..], b[1..])
    else Subsequence(a, b[1..])
  }

  /** What the merge puts before the caller's list are baseline entries,
      in their registry order. */
  lemma {:induction false} InsertedInRegistryOrder(baseline: seq<string>, given: seq<string>)
    ensures Subsequence(Inserted(baseline, given), baseline)
    decreases |baseline|
  {
    if baseline != [] {
      var tail := baseline[1..];
      InsertedInRegistryOrder(tail, given);
      var ins := Inserted(tail, given);
      if Inserted(baseline, given) == ins {
        SubsequenceCons(ins, baseline);
      } else {
        assert ([baseline[0]] + ins)[1..] == ins;
      }
    }
  }

  lemma {:induction false} SubsequenceCons(a: seq<string>, b: seq<string>)
    requires b != [] && Subsequence(a, b[1..])
    ensures Subsequence(a, b)
    decreases |b|, 0
  {
    if a != [] && a[0] == b[0] {
      SubsequenceDrop(a, b[1..]);
    }
  }

  /** Dropping the head of a subsequence keeps a subsequence. */
  lemma {:induction false} SubsequenceDrop(a: seq<string>, b: seq<string>)
    requires a != [] && Subsequence(a, b)
    ensures Subsequence(a[1..], b)
    decreases |b|, 1
  {
    if b != [] {
      if a[0] == b[0] {
        SubsequenceCons(a[1..], b);
      } else {
        SubsequenceDrop(a, b[1..]);
        SubsequenceCons(a[1..], b);
      }
    }
  }

  /** Every baseline entry is represented in the result: some link ends with
      its basename (the entry itself, or a link that overrides it). */
  lemma {:induction false} MergedCoversBaseline(baseline: seq<string>, given: seq<string>)
    ensures forall c :: c in baseline ==> AnyEndsWith(Merged(baseline, given), Basename(c))
    decreases |baseline|
  {
    if baseline != [] {
      MergedCoversBaseline(baseline[1..], given);
      MergedStep(baseline, given);
      var rest := Merged(baseline[1..], given);
      var m := Merged(baseline, given);
      forall c | c in baseline ensures AnyEndsWith(m, Basename(c)) {
        var b := Basename(c);
        if c == baseline[0] {
          if !AnyEndsWith(rest, b) {
            BasenameShape(c);
            assert m == [c] + rest;
            HeadEndsWith(c, rest, b);
          }
        } else {
          assert c in baseline[1..];
          if m != rest {
            assert m == [baseline[0]] + rest;
            ConsKeepsAnyEndsWith(baseline[0], rest, b);
          }
        }
      }
    }
  }

  lemma HeadEndsWith(c: string, rest: seq<string>, b: string)
    requires EndsWith(c, b)
    ensures AnyEndsWith([c] + rest, b)
  {
    assert ([c] + rest)[0] == c;
  }

  lemma ConsKeepsAnyEndsWith(c: string, rest: seq<string>, b: string)
    requires AnyEndsWith(rest, b)
    ensures AnyEndsWith([c] + rest, b)
  {
    var k :| 0 <= k < |rest| && EndsWith(rest[k], b);
    assert ([c] + rest)[k + 1] == rest[k];
  }

  /** A link matched in a tail of the list is matched in the whole list. */
  lemma SuffixKeepsAnyEndsWith(m: seq<string>, tail: seq<string>, b: string)
    requires |tail| <= |m| && m[|m| - |tail|..] == tail
    requires AnyEndsWith(tail, b)
    ensures AnyEndsWith(m, b)
  {
    var k :| 0 <= k < |tail| && EndsWith(tail[k], b);
    assert m[k + |m| - |tail|] == tail[k];
  }

  /** A caller link that ends with a baseline entry's basename keeps that
      entry out: the caller's file takes precedence. */
  lemma {:induction false} CallerOverrides(baseline: seq<string>, given: seq<string>, c: string)
    requires AnyEndsWith(given, Basename(c))
    ensures c !in Inserted(baseline, given)
    decreases |baseline|
  {
    if baseline != [] {
      var tail := baseline[1..];
      CallerOverrides(tail, given, c);
      var rest := Merged(tail, given);
      SuffixKeepsAnyEndsWith(rest, given, Basename(c));
    }
  }

  // ---------------------------------------------------------------------
  // Closed form when no baseline entry shadows another

  /** No baseline entry ends with another one's basename. */
  predicate Independent(baseline: seq<string>) {
    forall i, j :: 0 <= i < |baseline| && 0 <= j < |baseline| && i != j ==>
      !EndsWith(baseline[j], Basename(baseline[i]))
  }

  /** The baseline entries the caller does not already provide by name. */
  function Missing(baseline: seq<string>, given: seq<string>): (r: seq<string>)
    ensures forall c :: c in r ==> c in baseline
    decreases |baseline|
  {
    if baseline == [] then []
    else (if AnyEndsWith(given, Basename(baseline[0])) then [] else [baseline[0]])
         + Missing(baseline[1..], given)
  }

  /** For a baseline whose basenames do not shadow each other, the merge is
      exactly the missing baseline entries, in registry order, followed by the
      caller's list. */
  lemma {:induction false} MergedIndependent(baseline: seq<string>, given: seq<string>)
    requires Independent(baseline)
    ensures Merged(baseline, given) == Missing(baseline, given) + given
    decreases |baseline|
  {
    if baseline != [] {
      var tail := baseline[1..];
      IndependentTail(baseline);
      MergedIndependent(tail, given);
      MissingNotMatched(baseline, given);
      MergedStepMissing(baseline, given);
    }
  }

  /** One step of the closed form: when the tail's merge is in closed form
      and only the caller's links decide the head, the whole merge is too. */
  lemma MergedStepMissing(baseline: seq<string>, given: seq<string>)
    requires baseline != []
    requires Merged(baseline[1..], given) == Missing(baseline[1..], given) + given
    requires AnyEndsWith(Missing(baseline[1..], given) + given, Basename(baseline[0])) ==
             AnyEndsWith(given, Basename(baseline[0]))
    ensures Merged(baseline, given) == Missing(baseline, given) + given
  {
    var tail := baseline[1..];
    var miss := Missing(tail, given);
    var rest := Merged(tail, given);
    MergedStep(baseline, given);
    if AnyEndsWith(given, Basename(baseline[0])) {
      assert Merged(baseline, given) == rest;
      assert Missing(baseline, given) == [] + miss;
      assert [] + miss == miss;
    } else {
      assert Merged(baseline, given) == [baseline[0]] + rest;
      assert Missing(baseline, given) == [baseline[0]] + miss;
      ConsAssoc(baseline[0], miss, given);
    }
  }

  lemma ConsAssoc<T>(x: T, a: seq<T>, b: seq<T>)
    ensures [x] + (a + b) == ([x] + a) + b
  {
  }

  /** With no caller links, as on every page the decorator opens, nothing
      is missing by name. */
  lemma {:induction false} NothingGivenAllMissing(baseline: seq<string>)
    ensures Missing(baseline, []) == baseline
    decreases |baseline|
  {
    if baseline != [] {
      NothingGivenAllMissing(baseline[1..]);
      assert [baseline[0]] + baseline[1..] == baseline;
    }
  }

  /** A page opened without caller links links the registry itself, in
      registry order, when no entry shadows another by basename. */
  lemma RegistryLinkedAsIs(baseline: seq<string>)
    requires Independent(baseline)
    ensures Merged(baseline, []) == baseline
  {
    MergedIndependent(baseline, []);
    NothingGivenAllMissing(baseline);
  }

  lemma IndependentTail(baseline: seq<string>)
    requires baseline != [] && Independent(baseline)
    ensures Independent(baseline[1..])
  {
    var tail := baseline[1..];
    forall i, j | 0 <= i < |tail| && 0 <= j < |tail| && i != j
      ensures !EndsWith(tail[j], Basename(tail[i]))
    {
      assert tail[j] == baseline[j + 1] && tail[i] == baseline[i + 1];
    }
  }

  /** Under independence, no entry the tail's merge inserted can match the
      head's basename, so only the caller's links decide the head. */
  lemma MissingNotMatched(baseline: seq<string>, given: seq<string>)
    requires baseline != [] && Independent(baseline)
    ensures var miss := Missing(baseline[1..], given);
            AnyEndsWith(miss + given, Basename(baseline[0])) ==
            AnyEndsWith(given, Basename(baseline[0]))
  {
    var miss := Missing(baseline[1..], given);
    var b := Basename(baseline[0]);
    MissingUnmatched(baseline, given);
    if AnyEndsWith(miss + given, b) {
      PastUnmatched(miss, given, b);
    }
    if AnyEndsWith(given, b) {
      SuffixKeepsAnyEndsWith(miss + given, given, b);
    }
  }

  /** A link matched in `front + back` but by nothing in `front` is matched in `back`. */
  lemma PastUnmatched(front: seq<string>, back: seq<string>, b: string)
    requires forall x :: x in front ==> !EndsWith(x, b)
    requires AnyEndsWith(front + back, b)
    ensures AnyEndsWith(back, b)
  {
    var all := front + back;
    var k :| 0 <= k < |all| && EndsWith(all[k], b);
    assert k >= |front|;
    assert back[k - |front|] == all[k];
  }

  lemma MissingUnmatched(baseline: seq<string>, given: seq<string>)
    requires baseline != [] && Independent(baseline)
    ensures forall x :: x in Missing(baseline[1..], given) ==> !EndsWith(x, Basename(baseline[0]))
  {
    var tail := baseline[1..];
    forall x | x in Missing(tail, given) ensures !EndsWith(x, Basename(baseline[0])) {
      assert x in tail;
      var j :| 0 <= j < |tail| && tail[j] == x;
      assert baseline[j + 1] == x;
    }
  }

  // ---------------------------------------------------------------------
  // The registry object

  /** `CSS_FILES` and `JS_FILES`: module-level lists that the static-file
      writer extends in place. */
  class Registry {
    var css: seq<string>
    var js: seq<string>

    ghost predicate Valid()
      reads this
    {
      NoDuplicates(css) && NoDuplicates(js)
    }

    constructor (bootstrapCss: string, jqueryJs: string, bootstrapJs: string)
      requires NoDuplicates(BaselineCss(bootstrapCss))
      requires NoDuplicates(BaselineJs(jqueryJs, bootstrapJs))
      ensures Valid()
      ensures css == BaselineCss(bootstrapCss) && js == BaselineJs(jqueryJs, bootstrapJs)
    {
      css := BaselineCss(bootstrapCss);
      js := BaselineJs(jqueryJs, bootstrapJs);
    }

    /** `write_static_files(static)`: the two files are written (reported in
        `wroteCss`, `wroteJs`) and registered only when their paths are not
        registered yet; the paths are returned either way. */
    method WriteStaticFiles(staticDir: string)
        returns (omegaCss: string, omegaJs: string, wroteCss: bool, wroteJs: bool)
      requires Valid()
      modifies this
      ensures Valid()
      ensures omegaCss == Join(staticDir, OmegaCssName) && omegaJs == Join(staticDir, OmegaJsName)
      ensures wroteCss == (omegaCss !in old(css)) && wroteJs == (omegaJs !in old(js))
      ensures css == Register(old(css), omegaCss) && js == Register(old(js), omegaJs)
      ensures omegaCss in css && omegaJs in js
      ensures (if wroteCss then [omegaCss] else []) + (if wroteJs then [omegaJs] else []) ==
              StaticWrites(old(css), old(js), staticDir)
    {
      omegaCss := Join(staticDir, OmegaCssName);
      wroteCss := omegaCss !in css;
      RegisterKeepsDistinct(css, omegaCss);
      if wroteCss {
        css := css + [omegaCss];
      }
      omegaJs := Join(staticDir, OmegaJsName);
      wroteJs := omegaJs !in js;
      RegisterKeepsDistinct(js, omegaJs);
      if wroteJs {
        js := js + [omegaJs];
      }
    }

    /** The head links of `init_page(ifo, gpstime, css, script, ...)`: the
        static files are written into `./static` first, then the registries
        are merged into copies of the caller's lists. */
    method InitPageLinks(callerCss: seq<string>, callerJs: seq<string>)
        returns (cssLinks: seq<string>, jsLinks: seq<string>)
      requires Valid()
      modifies this
      ensures Valid()
      ensures css == Register(old(css), Join(StaticDir, OmegaCssName))
      ensures js == Register(old(js), Join(StaticDir, OmegaJsName))
      ensures cssLinks == Merged(css, callerCss) && jsLinks == Merged(js, callerJs)
      ensures AnyEndsWith(cssLinks, OmegaCssName) && AnyEndsWith(jsLinks, OmegaJsName)
    {
      var omegaCss, omegaJs, _, _ := WriteStaticFiles(StaticDir);
      StaticBasenames(StaticDir);
      cssLinks := MergeLinks(css, callerCss);
      jsLinks := MergeLinks(js, callerJs);
      MergedCoversBaseline(css, callerCss);
      MergedCoversBaseline(js, callerJs);
    }
  }
}
