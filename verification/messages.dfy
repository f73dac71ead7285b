/**
 * `empty_msg`: a chat message is a `div` whose style is exactly
 * `padding-left:20px;`. A message without an image whose text is blank is
 * replaced, where it stands, by a message holding the notice that the message
 * type cannot be exported.
 *
 * `find_all` lists every message before the loop starts, so a message `div`
 * inside a replaced one is still visited after its ancestor has been
 * decomposed. Decomposing empties it: it has no image, no text and no parent,
 * so the loop tries to replace it and `insert_before` raises. The pass then
 * has no result.
 */
module Messages {
  import opened Results
  import opened Text
  import opened Document

  const MessageStyle := "padding-left:20px;"
  const FontStyle := "font-size:10pt;font-family:'宋体','MS Sans Serif',sans-serif;"
  const FontColor := "000000"
  const Notice := "[不支持导出的消息类型]"

  /** `find_all("div", style="padding-left:20px;")` selects this node. */
  predicate IsMessage(n: Node) {
    IsElement(n, "div") && "style" in n.attrs && n.attrs["style"] == MessageStyle
  }

  /** The node at `k` is an `img` element. */
  predicate ImageAt(doc: Doc, k: nat)
    requires k < |doc|
  {
    IsElement(doc[k], "img")
  }

  /** `div.find("img")`: some descendant is an `img` element. */
  predicate HasImage(doc: Doc, i: nat)
    requires i < |doc|
  {
    exists k :: i < k < SubtreeEnd(doc, i) && ImageAt(doc, k)
  }

  /** The node at `k` is no text, or whitespace only. */
  predicate BlankAt(doc: Doc, k: nat)
    requires k < |doc|
  {
    doc[k].Text? ==> AllSpace(doc[k].text)
  }

  /** `not div.get_text(strip=True)`: every text below the node strips to
      nothing, that is (by the contract of `Strip`), is whitespace only. */
  predicate IsBlank(doc: Doc, i: nat)
    requires i < |doc|
  {
    forall k :: i < k < SubtreeEnd(doc, i) ==> BlankAt(doc, k)
  }

  /** The message at `i` is replaced. */
  predicate Replaced(doc: Doc, i: nat)
    requires i < |doc|
  {
    IsMessage(doc[i]) && !HasImage(doc, i) && IsBlank(doc, i)
  }

  /** Some message lies inside the subtree of a replaced one: the case in
      which `insert_before` raises. */
  predicate NestedInReplaced(doc: Doc) {
    exists i, k :: 0 <= i < k < |doc| && Replaced(doc, i) && k < SubtreeEnd(doc, i) && IsMessage(doc[k])
  }

  /** The new message `div`. */
  function PlaceholderDiv(d: nat): Node {
    Element(d, "div", map["style" := MessageStyle], [])
  }

  /** The new message at depth `d`: the `div`, its `font` child and the
      notice inside the font. */
  function Placeholder(d: nat): (r: Doc)
    ensures |r| == 3 && r[0] == PlaceholderDiv(d) && IsMessage(r[0])
    ensures IsElement(r[1], "font") && r[1].depth == d + 1
      && r[1].attrs == map["style" := FontStyle, "color" := FontColor]
    ensures r[2].Text? && r[2].depth == d + 2 && r[2].text == Notice
    ensures forall k :: 0 < k < 3 ==> !IsMessage(r[k])
  {
    [ PlaceholderDiv(d),
      Element(d + 1, "font", map["style" := FontStyle, "color" := FontColor], []),
      Text(d + 2, Notice) ]
  }

  /** The font is the child of the new `div` and the notice the child of
      the font: the three form one subtree. */
  lemma PlaceholderIsOneSubtree(d: nat)
    ensures SubtreeEnd(Placeholder(d), 0) == 3 && SubtreeEnd(Placeholder(d), 1) == 3
  {
    var p := Placeholder(d);
    SubtreeEndIs(p, 0, 3);
    SubtreeEndIs(p, 1, 3);
  }

  /** The loop of `empty_msg` from position `i` on: a replaced message gives
      way, with everything below it, to the placeholder; every other node is
      kept. */
  function Scan(doc: Doc, i: nat): Doc
    requires i <= |doc|
    decreases |doc| - i
  {
    if i == |doc| then []
    else if Replaced(doc, i) then Placeholder(doc[i].depth) + Scan(doc, SubtreeEnd(doc, i))
    else [doc[i]] + Scan(doc, i + 1)
  }

  /** `empty_msg` over the whole document, `None` when it raises. */
  function EmptyMsg(doc: Doc): (r: Option<Doc>)
    ensures r.None? <==> NestedInReplaced(doc)
    ensures (forall i :: 0 <= i < |doc| ==> !Replaced(doc, i)) ==> r == Some(doc)
  {
    if NestedInReplaced(doc) then None
    else
      KeptWhenNothingReplaced(doc, 0);
      Some(Scan(doc, 0))
  }

  lemma {:induction false} KeptWhenNothingReplaced(doc: Doc, i: nat)
    requires i <= |doc|
    ensures (forall k :: i <= k < |doc| ==> !Replaced(doc, k)) ==> Scan(doc, i) == doc[i..]
    decreases |doc| - i
  {
    if i < |doc| {
      KeptWhenNothingReplaced(doc, i + 1);
      assert doc[i..] == [doc[i]] + doc[i + 1..];
    }
  }

  /** A message `div` directly inside a blank one: the pass raises. */
  lemma NestedBlankRaises()
    ensures EmptyMsg([PlaceholderDiv(0), PlaceholderDiv(1)]).None?
  {
    var doc := [PlaceholderDiv(0), PlaceholderDiv(1)];
    SubtreeEndIs(doc, 0, 2);
    assert Replaced(doc, 0);
    assert IsMessage(doc[1]);
  }

  /* ---------- the page, node by node ---------- */

  /** The node at `k` lies strictly inside the subtree of a replaced
      message. */
  ghost predicate Covered(doc: Doc, k: nat)
    requires k < |doc|
  {
    exists j :: 0 <= j < k && Replaced(doc, j) && k < SubtreeEnd(doc, j)
  }

  /** What the pass makes of the node at `k` on its own: a node inside a
      replaced message disappears, a replaced message becomes the
      placeholder, every other node stays as it is. */
  ghost function Fate(doc: Doc, k: nat): Doc
    requires k < |doc|
  {
    if Covered(doc, k) then []
    else if Replaced(doc, k) then Placeholder(doc[k].depth)
    else [doc[k]]
  }

  /** The fate of every node, in document order. */
  ghost function Fates(doc: Doc): (r: seq<Doc>)
    ensures |r| == |doc| && forall k :: 0 <= k < |doc| ==> r[k] == Fate(doc, k)
  {
    seq(|doc|, k requires 0 <= k < |doc| => Fate(doc, k))
  }

  /** Every replaced message before `i` has ended by `i`. */
  predicate Settled(doc: Doc, i: nat)
    requires i <= |doc|
  {
    forall j :: 0 <= j < i && Replaced(doc, j) ==> SubtreeEnd(doc, j) <= i
  }

  /** Past a replaced message the scan is settled again. */
  lemma SettledAfter(doc: Doc, i: nat)
    requires i < |doc| && Settled(doc, i) && Replaced(doc, i)
    ensures Settled(doc, SubtreeEnd(doc, i))
  {
    var e := SubtreeEnd(doc, i);
    forall j | 0 <= j < e && Replaced(doc, j) ensures SubtreeEnd(doc, j) <= e {
      if i < j {
        SubtreeNested(doc, i, j);
      }
    }
  }

  lemma {:induction false} ScanIsFates(doc: Doc, i: nat)
    requires i <= |doc| && Settled(doc, i)
    ensures Scan(doc, i) == Flatten(Fates(doc), i)
    decreases |doc| - i
  {
    if i < |doc| {
      if Replaced(doc, i) {
        SettledAfter(doc, i);
        ScanIsFates(doc, SubtreeEnd(doc, i));
        ReplacedFate(doc, i);
      } else {
        assert Settled(doc, i + 1);
        ScanIsFates(doc, i + 1);
        KeptFate(doc, i);
      }
    }
  }

  /** A replaced message that no earlier one covers: its placeholder, then
      whatever follows its subtree. */
  lemma ReplacedFate(doc: Doc, i: nat)
    requires i < |doc| && Settled(doc, i) && Replaced(doc, i)
    requires Scan(doc, SubtreeEnd(doc, i)) == Flatten(Fates(doc), SubtreeEnd(doc, i))
    ensures Scan(doc, i) == Flatten(Fates(doc), i)
  {
    var fates := Fates(doc);
    var e := SubtreeEnd(doc, i);
    var p := Placeholder(doc[i].depth);
    SettledFate(doc, i);
    assert fates[i] == p;
    CoveredInside(doc, i);
    forall k | i + 1 <= k < e ensures fates[k] == [] {
      assert fates[k] == Fate(doc, k);
    }
    FlattenSkip(fates, i + 1, e);
    assert Flatten(fates, i) == p + Flatten(fates, e);
    ScanAtReplaced(doc, i);
  }

  /** A replaced message no earlier one covers turns into the placeholder. */
  lemma SettledFate(doc: Doc, i: nat)
    requires i < |doc| && Settled(doc, i) && Replaced(doc, i)
    ensures Fate(doc, i) == Placeholder(doc[i].depth)
  {
    assert !Covered(doc, i);
  }

  /** Every node below a replaced message is dropped. */
  lemma CoveredInside(doc: Doc, i: nat)
    requires i < |doc| && Replaced(doc, i)
    ensures forall k :: i < k < SubtreeEnd(doc, i) ==> Fate(doc, k) == []
  {
    forall k | i < k < SubtreeEnd(doc, i) ensures Fate(doc, k) == [] {
      assert Covered(doc, k);
    }
  }

  /** A node that is neither replaced nor covered stays. */
  lemma KeptFate(doc: Doc, i: nat)
    requires i < |doc| && Settled(doc, i) && !Replaced(doc, i)
    requires Scan(doc, i + 1) == Flatten(Fates(doc), i + 1)
    ensures Scan(doc, i) == Flatten(Fates(doc), i)
  {
    var fates := Fates(doc);
    assert !Covered(doc, i);
    assert Flatten(fates, i) == fates[i] + Flatten(fates, i + 1);
  }

  /** The page after the pass is, in order, the fate of every node of the
      page before it: replaced messages become placeholders, their contents
      go, everything else stays where it was. */
  lemma EmptyMsgNodeByNode(doc: Doc)
    ensures EmptyMsg(doc) == if NestedInReplaced(doc) then None else Some(Flatten(Fates(doc), 0))
  {
    ScanIsFates(doc, 0);
  }

  /** A successful pass never replaces a message that lies inside another
      replaced one: there is none. */
  lemma ReplacedNotCovered(doc: Doc, i: nat)
    requires i < |doc| && Replaced(doc, i) && !NestedInReplaced(doc)
    ensures !Covered(doc, i)
  {
  }

  /** A blank message without an image gives way, where it stands, to the
      placeholder: the message `div`, the `font` and the notice. */
  lemma BlankMessageReplaced(doc: Doc, i: nat)
    requires i < |doc| && IsMessage(doc[i]) && !HasImage(doc, i) && IsBlank(doc, i)
    ensures EmptyMsg(doc).Some? ==>
      exists x, y :: EmptyMsg(doc).value == x + Placeholder(doc[i].depth) + y
  {
    if EmptyMsg(doc).Some? {
      var fates := Fates(doc);
      EmptyMsgNodeByNode(doc);
      ReplacedNotCovered(doc, i);
      FlattenSuffix(fates, 0, i);
      var x :| Flatten(fates, 0) == x + Flatten(fates, i);
      var y := Flatten(fates, i + 1);
      assert Flatten(fates, i) == Placeholder(doc[i].depth) + y;
      ConcatAssoc(x, Placeholder(doc[i].depth), y);
    }
  }

  /** A node that is neither replaced nor inside a replaced message is still
      on the page after a successful pass. */
  lemma UntouchedKept(doc: Doc, k: nat)
    requires k < |doc| && !Covered(doc, k) && !Replaced(doc, k)
    ensures EmptyMsg(doc).Some? ==> doc[k] in EmptyMsg(doc).value
  {
    if EmptyMsg(doc).Some? {
      var fates := Fates(doc);
      EmptyMsgNodeByNode(doc);
      FlattenSuffix(fates, 0, k);
      var x :| Flatten(fates, 0) == x + Flatten(fates, k);
      assert Flatten(fates, k) == [doc[k]] + Flatten(fates, k + 1);
      assert Flatten(fates, 0)[|x|] == doc[k];
    }
  }

  lemma {:induction false} KeptRun(doc: Doc, a: nat, i: nat)
    requires a <= i <= |doc|
    requires forall j :: a <= j < i ==> !Replaced(doc, j)
    ensures Scan(doc, a) == doc[a..i] + Scan(doc, i)
    decreases i - a
  {
    if a < i {
      KeptRun(doc, a + 1, i);
      assert !Replaced(doc, a);
      assert Scan(doc, a) == [doc[a]] + Scan(doc, a + 1);
      ConcatAssoc([doc[a]], doc[a + 1..i], Scan(doc, i));
      assert doc[a..i] == [doc[a]] + doc[a + 1..i];
    }
  }

  /** The first replaced message: everything before it is kept as it was,
      the placeholder takes its place, and the pass goes on after its
      subtree. */
  lemma FirstReplacedSplice(doc: Doc, i: nat)
    requires i < |doc| && Replaced(doc, i)
    requires forall j :: 0 <= j < i ==> !Replaced(doc, j)
    ensures EmptyMsg(doc).Some? ==>
      EmptyMsg(doc).value == doc[..i] + Placeholder(doc[i].depth) + Scan(doc, SubtreeEnd(doc, i))
  {
    EmptyMsgIsScan(doc);
    KeptRun(doc, 0, i);
    ScanAtReplaced(doc, i);
    Splice(doc, i, Placeholder(doc[i].depth), Scan(doc, SubtreeEnd(doc, i)), Scan(doc, 0), Scan(doc, i));
  }

  lemma EmptyMsgIsScan(doc: Doc)
    ensures EmptyMsg(doc).Some? ==> EmptyMsg(doc).value == Scan(doc, 0)
  {
  }

  /** At a replaced message the pass emits the placeholder and skips the
      message's subtree. */
  lemma ScanAtReplaced(doc: Doc, i: nat)
    requires i < |doc| && Replaced(doc, i)
    ensures Scan(doc, i) == Placeholder(doc[i].depth) + Scan(doc, SubtreeEnd(doc, i))
  {
  }

  /* ---------- the messages ---------- */

  /** The message nodes of a document, in order. */
  function Messages(doc: Doc): (r: Doc)
    ensures forall k :: 0 <= k < |r| ==> IsMessage(r[k])
  {
    if |doc| == 0 then []
    else (if IsMessage(doc[0]) then [doc[0]] else []) + Messages(doc[1..])
  }

  lemma {:induction false} MessagesAppend(a: Doc, b: Doc)
    ensures Messages(a + b) == Messages(a) + Messages(b)
    decreases |a|
  {
    if |a| > 0 {
      assert (a + b)[1..] == a[1..] + b;
      MessagesAppend(a[1..], b);
    } else {
      assert a + b == b;
    }
  }

  lemma PlaceholderMessages(d: nat)
    ensures Messages(Placeholder(d)) == [PlaceholderDiv(d)]
  {
    var p := Placeholder(d);
    assert p[1..][1..][1..] == [];
    assert Messages(p[1..][1..]) == [];
    assert Messages(p[1..]) == [];
  }

  /** What becomes of the message at `i`. */
  function Outcome(doc: Doc, i: nat): Node
    requires i < |doc|
  {
    if Replaced(doc, i) then PlaceholderDiv(doc[i].depth) else doc[i]
  }

  /** The outcome of every message from position `i` on, in order. */
  function Outcomes(doc: Doc, i: nat): Doc
    requires i <= |doc|
    decreases |doc| - i
  {
    if i == |doc| then []
    else (if IsMessage(doc[i]) then [Outcome(doc, i)] else []) + Outcomes(doc, i + 1)
  }

  lemma {:induction false} OutcomesSkip(doc: Doc, i: nat, e: nat)
    requires i <= e <= |doc|
    requires forall k :: i <= k < e ==> !IsMessage(doc[k])
    ensures Outcomes(doc, i) == Outcomes(doc, e)
    decreases e - i
  {
    if i < e {
      assert !IsMessage(doc[i]);
      assert Outcomes(doc, i) == [] + Outcomes(doc, i + 1);
      OutcomesSkip(doc, i + 1, e);
    }
  }

  lemma {:induction false} ScanMessages(doc: Doc, i: nat)
    requires i <= |doc|
    requires !NestedInReplaced(doc)
    ensures Messages(Scan(doc, i)) == Outcomes(doc, i)
    decreases |doc| - i
  {
    if i < |doc| {
      if Replaced(doc, i) {
        ScanMessages(doc, SubtreeEnd(doc, i));
        ReplacedStep(doc, i);
      } else {
        ScanMessages(doc, i + 1);
        KeptStep(doc, i);
      }
    }
  }

  /** A replaced message contributes the placeholder `div`, and nothing
      below it is a message. */
  lemma ReplacedStep(doc: Doc, i: nat)
    requires i < |doc| && !NestedInReplaced(doc) && Replaced(doc, i)
    requires Messages(Scan(doc, SubtreeEnd(doc, i))) == Outcomes(doc, SubtreeEnd(doc, i))
    ensures Messages(Scan(doc, i)) == Outcomes(doc, i)
  {
    var e := SubtreeEnd(doc, i);
    var d := doc[i].depth;
    var p := Placeholder(d);
    var rest := Scan(doc, e);
    assert Scan(doc, i) == p + rest;
    MessagesAppend(p, rest);
    PlaceholderMessages(d);
    forall k | i + 1 <= k < e ensures !IsMessage(doc[k]) {
      NoMessageInside(doc, i, k);
    }
    OutcomesSkip(doc, i + 1, e);
    assert Outcomes(doc, i) == [PlaceholderDiv(d)] + Outcomes(doc, i + 1);
  }

  lemma NoMessageInside(doc: Doc, i: nat, k: nat)
    requires i < |doc| && !NestedInReplaced(doc) && Replaced(doc, i)
    requires i < k < SubtreeEnd(doc, i)
    ensures !IsMessage(doc[k])
  {
  }

  /** A node that is not replaced is kept as it is. */
  lemma KeptStep(doc: Doc, i: nat)
    requires i < |doc| && !Replaced(doc, i)
    requires Messages(Scan(doc, i + 1)) == Outcomes(doc, i + 1)
    ensures Messages(Scan(doc, i)) == Outcomes(doc, i)
  {
    assert Scan(doc, i) == [doc[i]] + Scan(doc, i + 1);
    MessagesAppend([doc[i]], Scan(doc, i + 1));
    assert [doc[i]][1..] == [];
  }

  /** After a successful pass the messages are those before it, in the same
      order and number: each replaced one is now the placeholder `div`, every
      other one is unchanged. */
  lemma MessagesAfterEmptyMsg(doc: Doc)
    ensures EmptyMsg(doc).Some? ==> Messages(EmptyMsg(doc).value) == Outcomes(doc, 0)
  {
    if EmptyMsg(doc).Some? {
      ScanMessages(doc, 0);
    }
  }

  lemma {:induction false} OutcomeListed(doc: Doc, j: nat, i: nat)
    requires j <= i < |doc| && IsMessage(doc[i])
    ensures Outcome(doc, i) in Outcomes(doc, j)
    decreases i - j
  {
    if j < i {
      OutcomeListed(doc, j + 1, i);
    }
  }

  /** A message holding an image is never replaced: after a successful pass
      it is still among the messages, unchanged. */
  lemma ImageMessageKept(doc: Doc, i: nat)
    requires i < |doc| && IsMessage(doc[i]) && HasImage(doc, i)
    ensures EmptyMsg(doc).Some? ==> doc[i] in Messages(EmptyMsg(doc).value)
  {
    MessagesAfterEmptyMsg(doc);
    OutcomeListed(doc, 0, i);
  }

  /** The placeholder itself is not blank, so a second pass keeps it. */
  lemma PlaceholderNotBlank(pre: Doc, d: nat, post: Doc)
    requires |post| > 0 ==> post[0].depth <= d
    ensures !Replaced(pre + Placeholder(d) + post, |pre|)
  {
    var doc := pre + Placeholder(d) + post;
    var i := |pre|;
    forall k | i < k < i + 3 ensures doc[k].depth > doc[i].depth {
      assert doc[k] == Placeholder(d)[k - i];
    }
    SubtreeEndIs(doc, i, i + 3);
    assert doc[i + 2] == Text(d + 2, Notice);
    NoticeNotBlank();
    assert !BlankAt(doc, i + 2);
  }

  lemma NoticeNotBlank()
    ensures !AllSpace(Notice) && Strip(Notice) != ""
  {
    assert !IsSpace(Notice[0]);
  }
}
