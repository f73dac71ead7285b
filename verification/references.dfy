/**
 * `update_references`: every `img`, `link` and `script` element whose
 * reference attribute (`src` for `img`, `href` for the other two) names a
 * saved resource is pointed at the saved file, relative to the directory of
 * the output page. `os.path.relpath` is a parameter: it depends on the
 * working directory.
 */
module References {
  import opened Results
  import opened Document
  import Paths

  /** `os.path.relpath(path, start)`. */
  type RelPath = (string, string) -> string

  /** `soup.find_all(["img", "link", "script"])` selects this node. */
  predicate IsReference(n: Node) {
    n.Element? && (n.tag == "img" || n.tag == "link" || n.tag == "script")
  }

  /** The attribute that holds the reference of a tag. */
  function RefAttr(tag: string): string {
    if tag == "img" then "src" else "href"
  }

  /** The saved file a node refers to: the value of
      `resource_map.get(tag.get(attr, ""))` when it is a non-empty path. */
  function Target(n: Node, resources: map<string, string>): Option<string> {
    if IsReference(n) then
      var v := AttrOr(n, RefAttr(n.tag));
      if v in resources && resources[v] != "" then Some(resources[v]) else None
    else None
  }

  /** `m` is `n` with at most the attribute `attr` changed. */
  predicate AgreeExcept(n: Node, m: Node, attr: string) {
    && n.Element? == m.Element?
    && n.depth == m.depth
    && (n.Text? ==> n == m)
    && (n.Element? ==> n.tag == m.tag && n.classes == m.classes)
    && (n.Element? ==> n.attrs - {attr} == m.attrs - {attr})
  }

  /** One node of the pass: a reference with a target gets the relative path
      of that target in its reference attribute. */
  function UpdateNode(n: Node, resources: map<string, string>, start: string, relpath: RelPath): (m: Node)
    ensures m.Element? == n.Element?
    ensures !IsReference(n) ==> m == n
    ensures IsReference(n) ==> AgreeExcept(n, m, RefAttr(n.tag))
    ensures m != n ==>
      && Target(n, resources).Some?
      && RefAttr(n.tag) in m.attrs
      && m.attrs[RefAttr(n.tag)] == relpath(Target(n, resources).value, start)
  {
    match Target(n, resources)
    case None => n
    case Some(path) => n.(attrs := n.attrs[RefAttr(n.tag) := relpath(path, start)])
  }

  /** The pass over the whole document. A node is either kept as it is or is
      a reference whose attribute now holds the relative path of the file
      its old value maps to; nothing else about any node changes. */
  function UpdateReferences(doc: Doc, resources: map<string, string>, outputPath: string,
                            relpath: RelPath): (r: Doc)
    ensures |r| == |doc|
    ensures forall i :: 0 <= i < |doc| ==> r[i].Element? == doc[i].Element?
    ensures forall i :: 0 <= i < |doc| && !IsReference(doc[i]) ==> r[i] == doc[i]
    ensures forall i :: 0 <= i < |doc| && IsReference(doc[i]) ==> AgreeExcept(doc[i], r[i], RefAttr(doc[i].tag))
    ensures forall i :: 0 <= i < |doc| && r[i] != doc[i] ==>
      && IsReference(doc[i])
      && var attr := RefAttr(doc[i].tag);
         var v := AttrOr(doc[i], attr);
         && v in resources && resources[v] != ""
         && attr in r[i].attrs
         && r[i].attrs[attr] == relpath(resources[v], Paths.Dirname(outputPath))
  {
    var start := Paths.Dirname(outputPath);
    seq(|doc|, i requires 0 <= i < |doc| => UpdateNode(doc[i], resources, start, relpath))
  }

  /** A reference whose value is a key with a non-empty path is rewritten. */
  lemma MappedRewritten(doc: Doc, resources: map<string, string>, outputPath: string,
                        relpath: RelPath, i: nat)
    requires i < |doc| && IsReference(doc[i])
    requires var v := AttrOr(doc[i], RefAttr(doc[i].tag)); v in resources && resources[v] != ""
    ensures var attr := RefAttr(doc[i].tag);
      var r := UpdateReferences(doc, resources, outputPath, relpath)[i];
      attr in r.attrs && r.attrs[attr] == relpath(resources[AttrOr(doc[i], attr)], Paths.Dirname(outputPath))
  {
  }

  /** A reference whose value is not a key, or maps to the empty path, is
      kept. */
  lemma UnmappedKept(doc: Doc, resources: map<string, string>, outputPath: string,
                     relpath: RelPath, i: nat)
    requires i < |doc|
    requires IsReference(doc[i]) ==>
      var v := AttrOr(doc[i], RefAttr(doc[i].tag)); v !in resources || resources[v] == ""
    ensures UpdateReferences(doc, resources, outputPath, relpath)[i] == doc[i]
  {
  }

  /** With no saved resources the pass changes nothing. */
  lemma NoResourcesNoChange(doc: Doc, outputPath: string, relpath: RelPath)
    ensures UpdateReferences(doc, map[], outputPath, relpath) == doc
  {
    var r := UpdateReferences(doc, map[], outputPath, relpath);
    forall i | 0 <= i < |doc| ensures r[i] == doc[i] {
      UnmappedKept(doc, map[], outputPath, relpath, i);
    }
  }

  /** An `img` without `src` reads as the empty string, so a resource saved
      under the empty location gives it a `src` it did not have. */
  lemma EmptyLocationAddsSource(path: string, outputPath: string, relpath: RelPath)
    requires path != ""
    ensures var r := UpdateReferences([Element(0, "img", map[], [])], map["" := path], outputPath, relpath);
      "src" in r[0].attrs && r[0].attrs["src"] == relpath(path, Paths.Dirname(outputPath))
  {
    MappedRewritten([Element(0, "img", map[], [])], map["" := path], outputPath, relpath, 0);
  }
}
