/**
 * The parsed HTML document, as the passes see it: the nodes of the tree in
 * document order (the order of `find_all`), each carrying its depth. The
 * subtree of a node is the node followed by the run of deeper nodes after it.
 * The class list is kept apart from the other attributes because the parser
 * treats `class` as a list.
 */
module Document {

  datatype Node =
    | Element(depth: nat, tag: string, attrs: map<string, string>, classes: seq<string>)
    | Text(depth: nat, text: string)

  type Doc = seq<Node>

  /** The first position at or after `j` whose node is not deeper than `d`. */
  function RunEnd(doc: Doc, d: nat, j: nat): (e: nat)
    requires j <= |doc|
    ensures j <= e <= |doc|
    ensures forall k :: j <= k < e ==> doc[k].depth > d
    ensures e < |doc| ==> doc[e].depth <= d
    decreases |doc| - j
  {
    if j == |doc| || doc[j].depth <= d then j else RunEnd(doc, d, j + 1)
  }

  /** One past the last descendant of `doc[i]`. */
  function SubtreeEnd(doc: Doc, i: nat): (e: nat)
    requires i < |doc|
    ensures i < e <= |doc|
    ensures forall k :: i < k < e ==> doc[k].depth > doc[i].depth
    ensures e < |doc| ==> doc[e].depth <= doc[i].depth
  {
    RunEnd(doc, doc[i].depth, i + 1)
  }

  /** The end of the run is the only position with its two properties. */
  lemma SubtreeEndIs(doc: Doc, i: nat, e: nat)
    requires i < e <= |doc|
    requires forall k :: i < k < e ==> doc[k].depth > doc[i].depth
    requires e < |doc| ==> doc[e].depth <= doc[i].depth
    ensures SubtreeEnd(doc, i) == e
  {
  }

  /** Subtrees nest: the subtree of a node inside another ends no later. */
  lemma SubtreeNested(doc: Doc, i: nat, j: nat)
    requires i < |doc| && i < j < SubtreeEnd(doc, i)
    ensures SubtreeEnd(doc, j) <= SubtreeEnd(doc, i)
  {
    var e := SubtreeEnd(doc, i);
    if e < |doc| {
      assert doc[e].depth <= doc[i].depth < doc[j].depth;
    }
  }

  /** Prepending nodes does not change where a later subtree ends. */
  lemma SubtreeEndShift(pre: Doc, doc: Doc, i: nat)
    requires i < |doc|
    ensures SubtreeEnd(pre + doc, |pre| + i) == |pre| + SubtreeEnd(doc, i)
  {
    var all := pre + doc;
    var e := SubtreeEnd(doc, i);
    forall k | |pre| + i < k < |pre| + e ensures all[k].depth > all[|pre| + i].depth {
      assert all[k] == doc[k - |pre|];
    }
    SubtreeEndIs(all, |pre| + i, |pre| + e);
  }

  /** Depths only ever grow by one from a node to the next, as they do in a
      document-order listing of a tree. */
  predicate WellFormed(doc: Doc) {
    forall k :: 0 < k < |doc| ==> doc[k].depth <= doc[k - 1].depth + 1
  }

  predicate IsElement(n: Node, tag: string) {
    n.Element? && n.tag == tag
  }

  /** `n.get(name, "")`: an attribute's value, empty when it is absent. */
  function AttrOr(n: Node, name: string): (r: string)
    ensures n.Element? && name in n.attrs ==> r == n.attrs[name]
    ensures !(n.Element? && name in n.attrs) ==> r == ""
  {
    if n.Element? && name in n.attrs then n.attrs[name] else ""
  }

  /** The first element with the given tag (`soup.head`, `soup.html`). */
  function FirstElement(doc: Doc, tag: string): (r: nat)
    ensures r <= |doc|
    ensures r < |doc| ==> IsElement(doc[r], tag)
    ensures forall k :: 0 <= k < r ==> !IsElement(doc[k], tag)
  {
    if |doc| == 0 then 0
    else if IsElement(doc[0], tag) then 0
    else FirstElement(doc[1..], tag) + 1
  }
}
