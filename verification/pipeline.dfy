/**
 * The pure skeleton of `MHTProcessor.process`: find the boundary, split the
 * archive, take the HTML part and its body, run the two document passes,
 * save every resource part, fold the saved files into the resource map,
 * rewrite the references and put the stylesheet into the head.
 *
 * The HTML parser, the decoders and `os.path.relpath` are parameters. The
 * worker pool is a fold over the jobs; the resource map does not depend on
 * the order of completion when locations are distinct.
 */
module Pipeline {
  import opened Results
  import opened Text
  import opened Document
  import Paths
  import Multipart
  import Resources
  import Messages
  import Styles
  import References

  /* ---------- the resource map ---------- */

  /** `resource_map[result[0]] = result[1]` for every non-`None` result, in
      the order the results arrive. */
  function ResourceMap(results: seq<Option<Resources.Saved>>): (r: map<string, string>)
    ensures forall loc :: loc in r <==>
      exists k :: 0 <= k < |results| && results[k].Some? && results[k].value.location == loc
    ensures forall loc :: loc in r ==>
      exists k :: 0 <= k < |results| && results[k].Some? && results[k].value.location == loc
        && results[k].value.path == r[loc]
    decreases |results|
  {
    if |results| == 0 then map[]
    else
      var front := results[..|results| - 1];
      var m := ResourceMap(front);
      assert forall k :: 0 <= k < |front| ==> front[k] == results[k];
      match results[|results| - 1]
      case None => m
      case Some(s) => m[s.location := s.path]
  }

  /** No two successful results share a location. */
  predicate DistinctLocations(results: seq<Option<Resources.Saved>>) {
    forall i, j :: 0 <= i < j < |results| && results[i].Some? && results[j].Some? ==>
      results[i].value.location != results[j].value.location
  }

  /** With distinct locations the map only depends on which results there
      are, not on the order in which the workers finish. */
  lemma ResourceMapOrderFree(a: seq<Option<Resources.Saved>>, b: seq<Option<Resources.Saved>>)
    requires multiset(a) == multiset(b)
    requires DistinctLocations(a)
    ensures ResourceMap(a) == ResourceMap(b)
  {
    DistinctCarries(a, b);
    var ma := ResourceMap(a);
    var mb := ResourceMap(b);
    forall loc | loc in ma ensures loc in mb && mb[loc] == ma[loc] {
      EntryCarriesOver(a, b, loc);
    }
    forall loc | loc in mb ensures loc in ma {
      EntryCarriesOver(b, a, loc);
    }
  }

  /** Reordering the results keeps their locations distinct. */
  lemma DistinctCarries(a: seq<Option<Resources.Saved>>, b: seq<Option<Resources.Saved>>)
    requires multiset(a) == multiset(b) && DistinctLocations(a)
    ensures DistinctLocations(b)
  {
    forall i, j | 0 <= i < j < |b| && b[i].Some? && b[j].Some?
      ensures b[i].value.location != b[j].value.location
    {
      CountTwice(b, i, j);
      AtMostOnce(a, b[i]);
      assert b[i] in multiset(a) && b[j] in multiset(a);
      var p :| 0 <= p < |a| && a[p] == b[i];
      var q :| 0 <= q < |a| && a[q] == b[j];
      if p < q {
        assert a[p].value.location != a[q].value.location;
      } else {
        assert a[q].value.location != a[p].value.location;
      }
    }
  }

  /** With distinct locations a successful result occurs at most once. */
  lemma {:induction false} AtMostOnce(a: seq<Option<Resources.Saved>>, x: Option<Resources.Saved>)
    requires x.Some? && DistinctLocations(a)
    ensures multiset(a)[x] <= 1
    decreases |a|
  {
    if |a| > 0 {
      var last := |a| - 1;
      var front := a[..last];
      assert a == front + [a[last]];
      assert forall k :: 0 <= k < |front| ==> front[k] == a[k];
      AtMostOnce(front, x);
      if a[last] == x {
        forall p | 0 <= p < |front| ensures front[p] != x {
          assert front[p] == a[p];
        }
      }
    }
  }

  /** An entry of the map of `a` is an entry of the map of any reordering
      `b` in which no two results share a location. */
  lemma EntryCarriesOver(a: seq<Option<Resources.Saved>>, b: seq<Option<Resources.Saved>>, loc: string)
    requires multiset(a) == multiset(b) && DistinctLocations(b)
    requires loc in ResourceMap(a)
    ensures loc in ResourceMap(b) && ResourceMap(b)[loc] == ResourceMap(a)[loc]
  {
    var ma := ResourceMap(a);
    var mb := ResourceMap(b);
    var i :| 0 <= i < |a| && a[i].Some? && a[i].value.location == loc && a[i].value.path == ma[loc];
    assert a[i] in multiset(b);
    var j :| 0 <= j < |b| && b[j] == a[i];
    var j' :| 0 <= j' < |b| && b[j'].Some? && b[j'].value.location == loc && b[j'].value.path == mb[loc];
    assert b[j].value.location == b[j'].value.location;
  }

  /** Two workers saving under the same location: the map keeps one of the
      two paths, whichever result comes last. */
  lemma SameLocationKeepsOne(s1: Resources.Saved, s2: Resources.Saved)
    requires s1.location == s2.location
    ensures ResourceMap([Some(s1), Some(s2)]) == map[s1.location := s2.path]
    ensures ResourceMap([Some(s2), Some(s1)]) == map[s1.location := s1.path]
  {
    assert [Some(s1), Some(s2)][..1] == [Some(s1)];
    assert [Some(s2), Some(s1)][..1] == [Some(s2)];
    assert [Some(s1)][..0] == [];
    assert [Some(s2)][..0] == [];
  }

  /* ---------- the stylesheet ---------- */

  /** `<style type="text/css">css</style>` at depth `d`. */
  function StyleNodes(d: nat, css: string): (r: Doc)
    ensures |r| == 2 && r[0].depth == d && r[1].depth == d + 1
  {
    [Element(d, "style", map["type" := "text/css"], []), Text(d + 1, css)]
  }

  /** No element with the given tag. */
  predicate Lacks(doc: Doc, tag: string) {
    forall k :: 0 <= k < |doc| ==> !IsElement(doc[k], tag)
  }

  /** The new nodes sit between `doc[..p]` and `doc[p..]`. */
  predicate InsertedAt(doc: Doc, p: nat, ins: Doc, r: Doc) {
    p <= |doc| && r == doc[..p] + ins + doc[p..]
  }

  /** Adding the stylesheet when it is not empty: as the last child of the
      first `head`, or, when there is none, inside a new `head` that becomes
      the first child of the first `html`. Without either there is nowhere
      to put it. */
  function InjectStylesheet(doc: Doc, css: string): (r: Option<Doc>)
    ensures css == "" ==> r == Some(doc)
    ensures r.None? <==> css != "" && Lacks(doc, "head") && Lacks(doc, "html")
    ensures css != "" && !Lacks(doc, "head") ==> (r.Some? &&
      var h := FirstElement(doc, "head");
      InsertedAt(doc, SubtreeEnd(doc, h), StyleNodes(doc[h].depth + 1, css), r.value))
    ensures css != "" && Lacks(doc, "head") && !Lacks(doc, "html") ==> (r.Some? &&
      var t := FirstElement(doc, "html");
      InsertedAt(doc, t + 1, [Element(doc[t].depth + 1, "head", map[], [])] + StyleNodes(doc[t].depth + 2, css), r.value))
  {
    if css == "" then Some(doc)
    else
      var h := FirstElement(doc, "head");
      if h < |doc| then
        assert !Lacks(doc, "head");
        var e := SubtreeEnd(doc, h);
        Some(doc[..e] + StyleNodes(doc[h].depth + 1, css) + doc[e..])
      else
        assert Lacks(doc, "head");
        var t := FirstElement(doc, "html");
        if t < |doc| then
          assert !Lacks(doc, "html");
          Some(doc[..t + 1] + ([Element(doc[t].depth + 1, "head", map[], [])] + StyleNodes(doc[t].depth + 2, css)) + doc[t + 1..])
        else
          assert Lacks(doc, "html");
          None
  }

  /** The style element and its text are the last children of a `head`. */
  predicate StyleInHead(r: Doc, css: string) {
    exists h :: 0 <= h < |r| && IsElement(r[h], "head") && h + 3 <= SubtreeEnd(r, h)
      && r[SubtreeEnd(r, h) - 2 .. SubtreeEnd(r, h)] == StyleNodes(r[h].depth + 1, css)
  }

  /** Inserting a run of deeper nodes right at the end of a subtree makes
      the subtree end after them. */
  lemma SubtreeGrows(doc: Doc, h: nat, e: nat, ins: Doc)
    requires h < e <= |doc| && e == SubtreeEnd(doc, h)
    requires forall k :: 0 <= k < |ins| ==> ins[k].depth > doc[h].depth
    ensures var r := doc[..e] + ins + doc[e..];
      h < |r| && r[h] == doc[h] && SubtreeEnd(r, h) == e + |ins|
  {
    var r := doc[..e] + ins + doc[e..];
    forall k | h < k < e + |ins| ensures r[k].depth > r[h].depth {
      if k < e {
        assert r[k] == doc[k];
      } else {
        assert r[k] == ins[k - e];
      }
    }
    if e + |ins| < |r| {
      assert r[e + |ins|] == doc[e];
    }
    SubtreeEndIs(r, h, e + |ins|);
  }

  /** The stylesheet, when there is one and a place for it, ends up as the
      last child of a `head`. */
  lemma StylesheetLandsInHead(doc: Doc, css: string)
    requires WellFormed(doc)
    requires css != "" && InjectStylesheet(doc, css).Some?
    ensures StyleInHead(InjectStylesheet(doc, css).value, css)
  {
    var r := InjectStylesheet(doc, css).value;
    var h := FirstElement(doc, "head");
    if h < |doc| {
      AppendedToHead(doc, h, css, r);
    } else {
      var t := FirstElement(doc, "html");
      NewHeadUnderHtml(doc, t, css, r);
    }
  }

  /** A `style` block closing the subtree of a `head` at `h`. */
  lemma InHeadWitness(r: Doc, h: nat, css: string)
    requires h < |r| && IsElement(r[h], "head") && h + 3 <= SubtreeEnd(r, h)
    requires r[SubtreeEnd(r, h) - 2 .. SubtreeEnd(r, h)] == StyleNodes(r[h].depth + 1, css)
    ensures StyleInHead(r, css)
  {
  }

  /** Appending to an existing `head`. */
  lemma AppendedToHead(doc: Doc, h: nat, css: string, r: Doc)
    requires h < |doc| && IsElement(doc[h], "head")
    requires r == doc[..SubtreeEnd(doc, h)] + StyleNodes(doc[h].depth + 1, css) + doc[SubtreeEnd(doc, h)..]
    ensures StyleInHead(r, css)
  {
    var e := SubtreeEnd(doc, h);
    var ins := StyleNodes(doc[h].depth + 1, css);
    SubtreeGrows(doc, h, e, ins);
    assert r[e..e + 2] == ins;
    InHeadWitness(r, h, css);
  }

  /** A new `head` right after the `html` element at `t`. */
  lemma NewHeadUnderHtml(doc: Doc, t: nat, css: string, r: Doc)
    requires WellFormed(doc) && t < |doc|
    requires r == doc[..t + 1] + ([Element(doc[t].depth + 1, "head", map[], [])] + StyleNodes(doc[t].depth + 2, css)) + doc[t + 1..]
    ensures StyleInHead(r, css)
  {
    var d := doc[t].depth;
    var ins := [Element(d + 1, "head", map[], [])] + StyleNodes(d + 2, css);
    var p := t + 1;
    assert r[p] == ins[0];
    assert r[p + 1..p + 3] == ins[1..];
    forall k | p < k < p + 3 ensures r[k].depth > r[p].depth {
      assert r[k] == ins[k - p];
    }
    if p + 3 < |r| {
      assert r[p + 3] == doc[p];
    }
    SubtreeEndIs(r, p, p + 3);
    InHeadWitness(r, p, css);
  }

  /** The same step as the converter writes it: without a `head` the chain
      `soup.html.insert(0, head).append(style)` calls `append` on the value
      of `insert`, which is `None`, and the conversion fails. */
  function InjectStylesheetAsWritten(doc: Doc, css: string): (r: Option<Doc>)
    ensures r.Some? ==> css == "" || !Lacks(doc, "head")
    ensures css != "" && Lacks(doc, "head") ==> r.None?
    ensures !Lacks(doc, "head") ==> r == InjectStylesheet(doc, css)
  {
    if css == "" then Some(doc)
    else if FirstElement(doc, "head") < |doc| then InjectStylesheet(doc, css)
    else None
  }

  /** A page with an `html` element but no `head`: the written step fails
      where the intended one creates the head and puts the stylesheet in it. */
  lemma HeadlessPageLosesStylesheet()
    ensures InjectStylesheetAsWritten([Element(0, "html", map[], [])], "x").None?
    ensures InjectStylesheet([Element(0, "html", map[], [])], "x") ==
      Some([Element(0, "html", map[], []), Element(1, "head", map[], []),
            Element(2, "style", map["type" := "text/css"], []), Text(3, "x")])
  {
    var doc := [Element(0, "html", map[], [])];
    assert !IsElement(doc[0], "head");
    assert doc[1..] == [];
    assert FirstElement(doc, "head") == 1;
    assert FirstElement(doc, "html") == 0;
    assert doc[..1] == doc;
    var ins := [Element(1, "head", map[], [])] + StyleNodes(2, "x");
    assert InjectStylesheet(doc, "x") == Some(doc[..1] + ins + doc[1..]);
    assert doc[..1] + ins + doc[1..] == [doc[0], ins[0], ins[1], ins[2]];
  }

  /* ---------- the conversion ---------- */

  /** What the converter gets from the outside world: the HTML parser, the
      two decoders and `os.path.relpath`. */
  datatype Env = Env(parse: string -> Doc, codec: Resources.Codec, relpath: References.RelPath)

  datatype Failure =
    | MissingBoundary   // no `boundary="..."` declaration
    | MissingHtmlPart   // no part holding `Content-Type: text/html`
    | MissingHtmlBody   // no blank line in that part
    | NestedMessage     // a message inside a replaced one: `insert_before` raises
    | MissingRoot       // a stylesheet but neither `head` nor `html`

  /** The outcome of one conversion: the resources written either way, and
      on success the page and the resource map it was rewritten with. */
  datatype Run =
    | Failed(failure: Failure, written: seq<Resources.Saved>)
    | Converted(page: Doc, written: seq<Resources.Saved>, resources: map<string, string>)

  /** `save_resource` for every job, in submission order. */
  function SaveAll(jobs: seq<Multipart.Job>, dir: string, codec: Resources.Codec): (r: seq<Option<Resources.Saved>>)
    ensures |r| == |jobs|
    ensures forall k :: 0 <= k < |jobs| ==>
      r[k] == Resources.SaveResource(jobs[k].location, jobs[k].contentType, jobs[k].data, jobs[k].encoding, dir, codec)
  {
    seq(|jobs|, k requires 0 <= k < |jobs| =>
      Resources.SaveResource(jobs[k].location, jobs[k].contentType, jobs[k].data, jobs[k].encoding, dir, codec))
  }

  /** The files actually written, in order. */
  function Written(results: seq<Option<Resources.Saved>>): (r: seq<Resources.Saved>)
    ensures forall s :: s in r <==> Some(s) in results
  {
    var r := Present(results, (x: Option<Resources.Saved>) => x);
    assert forall s :: Some(s) in results ==> s in r by {
      forall s | Some(s) in results ensures s in r {
        var i :| 0 <= i < |results| && results[i] == Some(s);
      }
    }
    r
  }

  /** Every file written comes from a job and is named after its content
      type. */
  lemma WrittenFromJobs(jobs: seq<Multipart.Job>, dir: string, codec: Resources.Codec)
    ensures forall s :: s in Written(SaveAll(jobs, dir, codec)) ==>
      exists j :: j in jobs && j.location == Some(s.location)
        && Paths.Basename(s.path) == Resources.FileName(s.location, j.contentType)
  {
    var results := SaveAll(jobs, dir, codec);
    forall s | s in Written(results)
      ensures exists j :: (j in jobs && j.location == Some(s.location)
        && Paths.Basename(s.path) == Resources.FileName(s.location, j.contentType))
    {
      var k :| 0 <= k < |results| && results[k] == Some(s);
      assert jobs[k] in jobs;
    }
  }

  /** The resource map holds exactly the locations of the files written. */
  lemma KeysAreWritten(results: seq<Option<Resources.Saved>>)
    ensures forall loc :: loc in ResourceMap(results) <==>
      exists s :: s in Written(results) && s.location == loc
  {
    var m := ResourceMap(results);
    forall loc ensures loc in m <==> exists s :: s in Written(results) && s.location == loc {
      if loc in m {
        var k :| 0 <= k < |results| && results[k].Some? && results[k].value.location == loc;
        assert Some(results[k].value) in results;
      }
      if exists s :: s in Written(results) && s.location == loc {
        var s :| s in Written(results) && s.location == loc;
        var k :| 0 <= k < |results| && results[k] == Some(s);
      }
    }
  }

  /** Each entry of the resource map is the path of a file written under
      that location. */
  lemma ValuesAreWritten(results: seq<Option<Resources.Saved>>)
    ensures forall loc :: loc in ResourceMap(results) ==>
      exists s :: s in Written(results) && s.location == loc && s.path == ResourceMap(results)[loc]
  {
    var m := ResourceMap(results);
    forall loc | loc in m
      ensures exists s :: s in Written(results) && s.location == loc && s.path == m[loc]
    {
      var k :| 0 <= k < |results| && results[k].Some? && results[k].value.location == loc
        && results[k].value.path == m[loc];
      assert Some(results[k].value) in results;
    }
  }

  /** Every job whose save succeeds has its file among those written. */
  lemma JobsAreSaved(jobs: seq<Multipart.Job>, dir: string, codec: Resources.Codec)
    ensures forall j :: j in jobs && Resources.SaveResource(j.location, j.contentType, j.data, j.encoding, dir, codec).Some? ==>
      Resources.SaveResource(j.location, j.contentType, j.data, j.encoding, dir, codec).value in Written(SaveAll(jobs, dir, codec))
  {
    var results := SaveAll(jobs, dir, codec);
    forall j | j in jobs && Resources.SaveResource(j.location, j.contentType, j.data, j.encoding, dir, codec).Some?
      ensures Resources.SaveResource(j.location, j.contentType, j.data, j.encoding, dir, codec).value in Written(results)
    {
      var k :| 0 <= k < |jobs| && jobs[k] == j;
      assert results[k] in results;
    }
  }

  /** There are styles to inject and neither a `head` nor an `html` to put
      them in: the one case in which the stylesheet step fails. */
  predicate NoPlaceForStyles(doc: Doc) {
    Styles.Restyle(doc).css != "" && Lacks(doc, "head") && Lacks(doc, "html")
  }

  /** Restyling and rewriting references change attributes and classes
      only, so the page has a `head` or an `html` exactly when it had one
      before. */
  lemma PassesKeepTags(doc: Doc, resources: map<string, string>, outputPath: string, relpath: References.RelPath, tag: string)
    ensures var out := References.UpdateReferences(Styles.Restyle(doc).doc, resources, outputPath, relpath);
      Lacks(out, tag) <==> Lacks(doc, tag)
  {
    var styled := Styles.Restyle(doc).doc;
    var out := References.UpdateReferences(styled, resources, outputPath, relpath);
    forall k | 0 <= k < |doc| ensures IsElement(out[k], tag) <==> IsElement(doc[k], tag) {
      assert Styles.Outcome(doc, k, styled[k]);
      assert IsElement(styled[k], tag) <==> IsElement(doc[k], tag);
    }
  }

  /** The passes after `empty_msg`: styles, references, stylesheet. There
      is no page exactly when there is a stylesheet and no `head` or `html`
      to hold it; otherwise the page is the restyled document, its
      references rewritten through the whole map, with the stylesheet
      injected. */
  function Page(cleaned: Doc, resources: map<string, string>, outputPath: string, env: Env): (r: Option<Doc>)
    ensures r.None? <==> NoPlaceForStyles(cleaned)
    ensures r.Some? ==> Some(r.value) == InjectStylesheet(
      References.UpdateReferences(Styles.Restyle(cleaned).doc, resources, outputPath, env.relpath),
      Styles.Restyle(cleaned).css)
  {
    var styled := Styles.Restyle(cleaned);
    var rewritten := References.UpdateReferences(styled.doc, resources, outputPath, env.relpath);
    PassesKeepTags(cleaned, resources, outputPath, env.relpath, "head");
    PassesKeepTags(cleaned, resources, outputPath, env.relpath, "html");
    InjectStylesheet(rewritten, styled.css)
  }

  /** The passes after the HTML body is found, given what `empty_msg` made
      of the parsed page (`None` when it raised). `empty_msg` runs before
      any resource is saved, so when it raises nothing has been written. */
  function Convert(cleaned: Option<Doc>, jobs: seq<Multipart.Job>, outputPath: string, dirName: string, env: Env): (r: Run)
    ensures r.Failed? ==> r.failure == NestedMessage || r.failure == MissingRoot
    ensures r == Failed(NestedMessage, []) <==> cleaned.None?
    ensures r.Failed? && r.failure == NestedMessage ==> cleaned.None? && r.written == []
    ensures r.Failed? && r.failure == MissingRoot <==> cleaned.Some? && NoPlaceForStyles(cleaned.value)
    ensures r.Converted? ==> cleaned.Some? && Page(cleaned.value, r.resources, outputPath, env) == Some(r.page)
    ensures r.Converted? ==> forall loc :: loc in r.resources <==>
      exists s :: s in r.written && s.location == loc
    ensures r.Converted? ==> forall loc :: loc in r.resources ==>
      exists s :: s in r.written && s.location == loc && s.path == r.resources[loc]
    ensures forall s :: s in r.written ==>
      exists j :: j in jobs && j.location == Some(s.location)
        && Paths.Basename(s.path) == Resources.FileName(s.location, j.contentType)
  {
    match cleaned
    case None => Failed(NestedMessage, [])
    case Some(doc) =>
      var dir := Paths.Join(Paths.Dirname(outputPath), dirName);
      var results := SaveAll(jobs, dir, env.codec);
      var resources := ResourceMap(results);
      WrittenFromJobs(jobs, dir, env.codec);
      KeysAreWritten(results);
      ValuesAreWritten(results);
      match Page(doc, resources, outputPath, env)
      case None => Failed(MissingRoot, Written(results))
      case Some(p) => Converted(p, Written(results), resources)
  }

  /** Once `empty_msg` has passed, every job whose save succeeds has its
      file written, under the resource directory next to the output page,
      whether or not the stylesheet then finds a place. */
  lemma ConvertSavesEveryJob(cleaned: Option<Doc>, jobs: seq<Multipart.Job>, outputPath: string, dirName: string, env: Env)
    ensures var r := Convert(cleaned, jobs, outputPath, dirName, env);
      var dir := Paths.Join(Paths.Dirname(outputPath), dirName);
      r != Failed(NestedMessage, []) ==>
        forall j :: j in jobs && Resources.SaveResource(j.location, j.contentType, j.data, j.encoding, dir, env.codec).Some? ==>
          Resources.SaveResource(j.location, j.contentType, j.data, j.encoding, dir, env.codec).value in r.written
  {
    JobsAreSaved(jobs, Paths.Join(Paths.Dirname(outputPath), dirName), env.codec);
  }

  /** `empty_msg` passes on the parsed body, and the stylesheet of what it
      leaves has nowhere to go. */
  predicate RootlessBody(html: string, env: Env) {
    var cleaned := Messages.EmptyMsg(env.parse(html));
    cleaned.Some? && NoPlaceForStyles(cleaned.value)
  }

  /** `MHTProcessor.process` once the HTML body is found: `empty_msg` on
      the parsed body, then the resources of all parts and the remaining
      passes. */
  function FromBody(html: string, jobs: seq<Multipart.Job>, outputPath: string, dirName: string, env: Env): (r: Run)
    ensures r.Failed? ==> r.failure == NestedMessage || r.failure == MissingRoot
    ensures r == Failed(NestedMessage, []) <==> Messages.EmptyMsg(env.parse(html)).None?
    ensures r.Failed? && r.failure != MissingRoot ==> r.written == []
    ensures r.Failed? && r.failure == MissingRoot <==> RootlessBody(html, env)
    ensures r.Converted? ==>
      && Messages.EmptyMsg(env.parse(html)).Some?
      && Page(Messages.EmptyMsg(env.parse(html)).value, r.resources, outputPath, env) == Some(r.page)
    ensures r.Converted? ==> forall loc :: loc in r.resources <==>
      exists s :: s in r.written && s.location == loc
    ensures r.Converted? ==> forall loc :: loc in r.resources ==>
      exists s :: s in r.written && s.location == loc && s.path == r.resources[loc]
    ensures forall s :: s in r.written ==>
      exists j :: j in jobs && j.location == Some(s.location)
        && Paths.Basename(s.path) == Resources.FileName(s.location, j.contentType)
  {
    Convert(Messages.EmptyMsg(env.parse(html)), jobs, outputPath, dirName, env)
  }

  /** The same, with the resources gathered from every part of the archive. */
  function FromHtml(html: string, parts: seq<string>, outputPath: string, dirName: string, env: Env): (r: Run)
    ensures r.Failed? ==> r.failure == NestedMessage || r.failure == MissingRoot
    ensures r == Failed(NestedMessage, []) <==> Messages.EmptyMsg(env.parse(html)).None?
    ensures r.Failed? && r.failure != MissingRoot ==> r.written == []
    ensures r.Failed? && r.failure == MissingRoot <==> RootlessBody(html, env)
    ensures r.Converted? ==>
      && Messages.EmptyMsg(env.parse(html)).Some?
      && Page(Messages.EmptyMsg(env.parse(html)).value, r.resources, outputPath, env) == Some(r.page)
    ensures r.Converted? ==> forall loc :: loc in r.resources <==>
      exists s :: s in r.written && s.location == loc
    ensures r.Converted? ==> forall loc :: loc in r.resources ==>
      exists s :: s in r.written && s.location == loc && s.path == r.resources[loc]
    ensures forall s :: s in r.written ==>
      exists j :: j in Multipart.Jobs(parts) && j.location == Some(s.location)
        && Paths.Basename(s.path) == Resources.FileName(s.location, j.contentType)
  {
    FromBody(html, Multipart.Jobs(parts), outputPath, dirName, env)
  }

  /** `MHTProcessor.process` once the archive is split: the HTML part, its
      body, `empty_msg`, then the resources and the remaining passes. */
  function FromParts(parts: seq<string>, outputPath: string, dirName: string, env: Env): (r: Run)
    ensures r != Failed(MissingBoundary, [])
    ensures r == Failed(MissingHtmlPart, []) <==> Multipart.FindHtmlPart(parts).None?
    ensures r == Failed(MissingHtmlBody, []) <==>
      && Multipart.FindHtmlPart(parts).Some?
      && Multipart.HtmlBody(parts[Multipart.FindHtmlPart(parts).value]).None?
    ensures r == Failed(NestedMessage, []) <==>
      && Multipart.FindHtmlPart(parts).Some?
      && var body := Multipart.HtmlBody(parts[Multipart.FindHtmlPart(parts).value]);
         && body.Some?
         && Messages.EmptyMsg(env.parse(body.value)).None?
    ensures r.Failed? && r.failure != MissingRoot ==> r.written == []
    ensures r.Failed? && r.failure == MissingRoot <==>
      && Multipart.FindHtmlPart(parts).Some?
      && var body := Multipart.HtmlBody(parts[Multipart.FindHtmlPart(parts).value]);
         && body.Some?
         && RootlessBody(body.value, env)
    ensures r.Converted? ==>
      && Multipart.FindHtmlPart(parts).Some?
      && var body := Multipart.HtmlBody(parts[Multipart.FindHtmlPart(parts).value]);
         && body.Some?
         && Messages.EmptyMsg(env.parse(body.value)).Some?
         && Page(Messages.EmptyMsg(env.parse(body.value)).value, r.resources, outputPath, env) == Some(r.page)
    ensures r.Converted? ==> forall loc :: loc in r.resources <==>
      exists s :: s in r.written && s.location == loc
    ensures r.Converted? ==> forall loc :: loc in r.resources ==>
      exists s :: s in r.written && s.location == loc && s.path == r.resources[loc]
    ensures forall s :: s in r.written ==>
      exists j :: j in Multipart.Jobs(parts) && j.location == Some(s.location)
        && Paths.Basename(s.path) == Resources.FileName(s.location, j.contentType)
  {
    match Multipart.FindHtmlPart(parts)
    case None => Failed(MissingHtmlPart, [])
    case Some(h) =>
      match Multipart.HtmlBody(parts[h])
      case None => Failed(MissingHtmlBody, [])
      case Some(html) => FromHtml(html, parts, outputPath, dirName, env)
  }

  /** `MHTProcessor.process` on the text of an archive. */
  function Process(content: string, outputPath: string, dirName: string, env: Env): (r: Run)
    ensures Multipart.FindBoundary(content).None? <==> r == Failed(MissingBoundary, [])
    ensures r == Failed(MissingHtmlPart, []) <==>
      && Multipart.FindBoundary(content).Some?
      && Multipart.FindHtmlPart(Multipart.SplitParts(content, Multipart.FindBoundary(content).value)).None?
    ensures r == Failed(MissingHtmlBody, []) <==>
      && Multipart.FindBoundary(content).Some?
      && var parts := Multipart.SplitParts(content, Multipart.FindBoundary(content).value);
         && Multipart.FindHtmlPart(parts).Some?
         && Multipart.HtmlBody(parts[Multipart.FindHtmlPart(parts).value]).None?
    ensures r == Failed(NestedMessage, []) <==>
      && Multipart.FindBoundary(content).Some?
      && var parts := Multipart.SplitParts(content, Multipart.FindBoundary(content).value);
         && Multipart.FindHtmlPart(parts).Some?
         && var body := Multipart.HtmlBody(parts[Multipart.FindHtmlPart(parts).value]);
            && body.Some?
            && Messages.EmptyMsg(env.parse(body.value)).None?
    ensures r.Failed? && r.failure != MissingRoot ==> r.written == []
    ensures r.Failed? && r.failure == MissingRoot <==>
      && Multipart.FindBoundary(content).Some?
      && var parts := Multipart.SplitParts(content, Multipart.FindBoundary(content).value);
         && Multipart.FindHtmlPart(parts).Some?
         && var body := Multipart.HtmlBody(parts[Multipart.FindHtmlPart(parts).value]);
            && body.Some?
            && RootlessBody(body.value, env)
    ensures r.Converted? ==>
      && Multipart.FindBoundary(content).Some?
      && var parts := Multipart.SplitParts(content, Multipart.FindBoundary(content).value);
         && Multipart.FindHtmlPart(parts).Some?
         && var body := Multipart.HtmlBody(parts[Multipart.FindHtmlPart(parts).value]);
            && body.Some?
            && Messages.EmptyMsg(env.parse(body.value)).Some?
            && Page(Messages.EmptyMsg(env.parse(body.value)).value, r.resources, outputPath, env) == Some(r.page)
    ensures r.Converted? ==> forall loc :: loc in r.resources <==>
      exists s :: s in r.written && s.location == loc
    ensures r.Converted? ==> forall loc :: loc in r.resources ==>
      exists s :: s in r.written && s.location == loc && s.path == r.resources[loc]
    ensures forall s :: s in r.written ==>
      && Multipart.FindBoundary(content).Some?
      && exists j :: j in Multipart.Jobs(Multipart.SplitParts(content, Multipart.FindBoundary(content).value))
           && j.location == Some(s.location)
           && Paths.Basename(s.path) == Resources.FileName(s.location, j.contentType)
  {
    match Multipart.FindBoundary(content)
    case None => Failed(MissingBoundary, [])
    case Some(b) => FromParts(Multipart.SplitParts(content, b), outputPath, dirName, env)
  }
}
