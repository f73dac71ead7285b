/**
 * `process_styles`: every distinct non-empty inline style becomes a CSS class
 * `i-style-N`, numbered from 1 in order of first appearance; each styled
 * element loses its `style` attribute and gains that class, and the rules
 * are returned as one stylesheet.
 */
module Styles {
  import opened Results
  import opened Text
  import opened Document

  /** `element.get("style", "").strip()`; empty for text and unstyled nodes. */
  function StyleOf(n: Node): string {
    if n.Element? && "style" in n.attrs then Strip(n.attrs["style"]) else ""
  }

  const ClassPrefix := "i-style-"

  /** `f"i-style-{counter}"`. */
  function ClassName(k: nat): string {
    ClassPrefix + Decimal(k)
  }

  /** Different numbers give different class names. */
  lemma ClassNameInjective(m: nat, n: nat)
    ensures ClassName(m) == ClassName(n) <==> m == n
  {
    if ClassName(m) == ClassName(n) {
      assert ClassName(m)[|ClassPrefix|..] == Decimal(m);
      assert ClassName(n)[|ClassPrefix|..] == Decimal(n);
      DecimalInjective(m, n);
    }
  }

  /** `f".{class_name} {{ {original_style} }}"`. */
  function Rule(name: string, style: string): string {
    "." + name + " { " + style + " }"
  }

  predicate Distinct(xs: seq<string>) {
    forall i, j :: 0 <= i < j < |xs| ==> xs[i] != xs[j]
  }

  /** The stripped style of every node, in document order. */
  function StyleKeys(doc: Doc): (r: seq<string>)
    ensures |r| == |doc|
    ensures forall i {:trigger StyleOf(doc[i])} :: 0 <= i < |doc| ==> r[i] == StyleOf(doc[i])
    decreases |doc|
  {
    if |doc| == 0 then []
    else [StyleOf(doc[0])] + StyleKeys(doc[1..])
  }

  /** The distinct non-empty strings of `keys`, in order of first appearance. */
  function FirstSeen(keys: seq<string>): (r: seq<string>)
    ensures Distinct(r) && "" !in r
    ensures forall i :: 0 <= i < |keys| && keys[i] != "" ==> keys[i] in r
    ensures forall x :: x in r ==> x in keys
    decreases |keys|
  {
    if |keys| == 0 then []
    else
      var front := keys[..|keys| - 1];
      var seen := FirstSeen(front);
      var x := keys[|keys| - 1];
      assert forall i :: 0 <= i < |front| ==> front[i] == keys[i];
      if x == "" || x in seen then seen else seen + [x]
  }

  /** One more key extends the strings seen so far by that key when it is
      new and not empty. */
  lemma FirstSeenStep(keys: seq<string>, i: nat)
    requires i < |keys|
    ensures var seen := FirstSeen(keys[..i]); var x := keys[i];
      FirstSeen(keys[..i + 1]) == if x == "" || x in seen then seen else seen + [x]
  {
    assert keys[..i + 1][..i] == keys[..i];
  }

  /** The strings seen in a prefix are a prefix of the strings seen in all. */
  lemma {:induction false} FirstSeenPrefix(keys: seq<string>, i: nat, j: nat)
    requires i <= j <= |keys|
    ensures |FirstSeen(keys[..i])| <= |FirstSeen(keys[..j])|
    ensures FirstSeen(keys[..i]) == FirstSeen(keys[..j])[..|FirstSeen(keys[..i])|]
    decreases j - i
  {
    if i < j {
      FirstSeenPrefix(keys, i + 1, j);
      FirstSeenStep(keys, i);
    }
  }

  /** Position of `s` in `xs`. */
  function Rank(xs: seq<string>, s: string): (k: nat)
    requires s in xs
    ensures k < |xs| && xs[k] == s
    ensures forall j :: 0 <= j < k ==> xs[j] != s
  {
    if xs[0] == s then 0 else Rank(xs[1..], s) + 1
  }

  lemma RankIs(xs: seq<string>, k: nat)
    requires Distinct(xs) && k < |xs|
    ensures Rank(xs, xs[k]) == k
  {
  }

  /** The styled element `n` with its style replaced by class `cls`. */
  function Restyled(n: Node, cls: string): Node
    requires n.Element?
  {
    n.(attrs := n.attrs - {"style"}, classes := n.classes + [cls])
  }

  /** What the pass makes of a node whose stripped style is `key`, given
      the styles of the document in first-seen order. */
  function RestyleNode(n: Node, key: string, styles: seq<string>): Node
    requires n.Element? || key == ""
    requires key == "" || key in styles
  {
    if key == "" then n else Restyled(n, ClassName(Rank(styles, key) + 1))
  }

  /** One rule per style, numbered from 1. */
  function Rules(styles: seq<string>): (r: seq<string>)
    ensures |r| == |styles|
    ensures forall k :: 0 <= k < |r| ==> r[k] == Rule(ClassName(k + 1), styles[k])
  {
    seq(|styles|, k requires 0 <= k < |styles| => Rule(ClassName(k + 1), styles[k]))
  }

  datatype StyleResult = StyleResult(doc: Doc, css: string)

  lemma StyledIsElement(n: Node)
    ensures StyleOf(n) != "" ==> n.Element?
  {
  }

  /** Every node carrying a non-empty style is an element. */
  lemma KeyedAreElements(doc: Doc)
    ensures forall i :: 0 <= i < |doc| ==> doc[i].Element? || StyleKeys(doc)[i] == ""
  {
    var keys := StyleKeys(doc);
    forall i | 0 <= i < |doc| ensures doc[i].Element? || keys[i] == "" {
      assert keys[i] == StyleOf(doc[i]);
      StyledIsElement(doc[i]);
    }
  }

  /** `m` is what the pass makes of `doc[k]`: the node itself when its
      style is empty, otherwise the element restyled with the class numbered
      by the rank of its style among all styles in first-seen order. */
  ghost predicate Outcome(doc: Doc, k: nat, m: Node)
    requires k < |doc|
  {
    var keys := StyleKeys(doc);
    var all := FirstSeen(keys);
    if keys[k] == "" then m == doc[k]
    else doc[k].Element? && keys[k] in all && m == Restyled(doc[k], ClassName(Rank(all, keys[k]) + 1))
  }

  /** The outcome of `process_styles`, described node by node through the
      styles in order of first appearance. */
  function Restyle(doc: Doc): (r: StyleResult)
    ensures |r.doc| == |doc|
    ensures forall i :: 0 <= i < |doc| ==> Outcome(doc, i, r.doc[i])
    ensures r.css == Join(Rules(FirstSeen(StyleKeys(doc))), "\n")
  {
    var keys := StyleKeys(doc);
    var styles := FirstSeen(keys);
    KeyedAreElements(doc);
    var out := seq(|doc|, i requires 0 <= i < |doc| => RestyleNode(doc[i], keys[i], styles));
    assert forall i :: 0 <= i < |doc| ==> Outcome(doc, i, out[i]) by {
      forall i | 0 <= i < |doc| ensures Outcome(doc, i, out[i]) {
        NodeOutcome(doc, i);
      }
    }
    StyleResult(out, Join(Rules(styles), "\n"))
  }

  /** The node-level step has the outcome the pass promises. */
  lemma NodeOutcome(doc: Doc, i: nat)
    requires i < |doc|
    ensures var keys := StyleKeys(doc);
      && (doc[i].Element? || keys[i] == "")
      && (keys[i] == "" || keys[i] in FirstSeen(keys))
      && Outcome(doc, i, RestyleNode(doc[i], keys[i], FirstSeen(keys)))
  {
    var keys := StyleKeys(doc);
    var all := FirstSeen(keys);
    KeyedAreElements(doc);
    if keys[i] != "" {
      assert keys[i] in all;
      assert RestyleNode(doc[i], keys[i], all) == Restyled(doc[i], ClassName(Rank(all, keys[i]) + 1));
    }
  }

  /** A key not seen before is appended, and its rank among all the
      strings seen is the number of strings seen before it. */
  lemma NewKeyStep(keys: seq<string>, i: nat)
    requires i < |keys| && keys[i] != "" && keys[i] !in FirstSeen(keys[..i])
    ensures FirstSeen(keys[..i + 1]) == FirstSeen(keys[..i]) + [keys[i]]
    ensures keys[i] in FirstSeen(keys)
    ensures Rank(FirstSeen(keys), keys[i]) == |FirstSeen(keys[..i])|
  {
    var seen := FirstSeen(keys[..i]);
    var all := FirstSeen(keys);
    FirstSeenStep(keys, i);
    SeenPrefixOfAll(keys, i + 1);
    NextSeen(seen, keys[i], all);
    RankIs(all, |seen|);
  }

  /** The strings seen in a prefix are a prefix of all strings seen. */
  lemma SeenPrefixOfAll(keys: seq<string>, i: nat)
    requires i <= |keys|
    ensures |FirstSeen(keys[..i])| <= |FirstSeen(keys)|
    ensures FirstSeen(keys[..i]) == FirstSeen(keys)[..|FirstSeen(keys[..i])|]
  {
    FirstSeenPrefix(keys, i, |keys|);
    PrefixAll(keys);
  }

  lemma NextSeen(seen: seq<string>, x: string, all: seq<string>)
    requires |seen| + 1 <= |all| && seen + [x] == all[..|seen| + 1]
    ensures all[|seen|] == x
  {
    assert (seen + [x])[|seen|] == x;
  }

  /** An empty or already seen key changes nothing. */
  lemma OldKeyStep(keys: seq<string>, i: nat)
    requires i < |keys| && (keys[i] == "" || keys[i] in FirstSeen(keys[..i]))
    ensures FirstSeen(keys[..i + 1]) == FirstSeen(keys[..i])
  {
    FirstSeenStep(keys, i);
  }

  /** Everything seen in a prefix is seen in all. */
  lemma SeenInAll(keys: seq<string>, i: nat)
    requires i <= |keys|
    ensures forall x :: x in FirstSeen(keys[..i]) ==> x in FirstSeen(keys)
  {
    FirstSeenPrefix(keys, i, |keys|);
    assert keys[..|keys|] == keys;
    var seen := FirstSeen(keys[..i]);
    var all := FirstSeen(keys);
    forall x | x in seen ensures x in all {
      var k :| 0 <= k < |seen| && seen[k] == x;
      assert all[k] == x;
    }
  }

  lemma RulesSnoc(styles: seq<string>, x: string)
    ensures Rules(styles + [x]) == Rules(styles) + [Rule(ClassName(|styles| + 1), x)]
  {
  }

  /** The state of the loop of `process_styles` after the first `i` keys:
      the counter, the rules and the map agree with the strings seen so far,
      and the map sends each to its class among all strings seen. */
  ghost predicate LoopState(keys: seq<string>, i: nat, styleMap: map<string, string>,
                            rules: seq<string>, counter: nat)
    requires i <= |keys|
  {
    StateOf(FirstSeen(keys), FirstSeen(keys[..i]), styleMap, rules, counter)
  }

  /** The same for the strings `seen` so far out of `all`. */
  ghost predicate StateOf(all: seq<string>, seen: seq<string>, styleMap: map<string, string>,
                    rules: seq<string>, counter: nat)
  {
    && counter == |seen| + 1
    && rules == Rules(seen)
    && (forall s :: s in styleMap <==> s in seen)
    && (forall s :: s in styleMap ==> s in Classes(all) && styleMap[s] == Classes(all)[s])
  }

  /** The class each string of `all` is given: the one numbered by its rank. */
  function Classes(all: seq<string>): map<string, string> {
    map s | s in all :: ClassName(Rank(all, s) + 1)
  }

  lemma LoopStart(keys: seq<string>)
    ensures LoopState(keys, 0, map[], [], 1)
  {
    assert keys[..0] == [];
  }

  /** An empty or already seen style leaves the state as it is. */
  lemma LoopKeep(keys: seq<string>, i: nat, styleMap: map<string, string>, rules: seq<string>, counter: nat)
    requires i < |keys| && LoopState(keys, i, styleMap, rules, counter)
    requires keys[i] == "" || keys[i] in styleMap
    ensures LoopState(keys, i + 1, styleMap, rules, counter)
  {
    OldKeyStep(keys, i);
  }

  /** A new style gets the next class and the next rule. */
  lemma LoopAdd(keys: seq<string>, i: nat, styleMap: map<string, string>, rules: seq<string>, counter: nat)
    requires i < |keys| && LoopState(keys, i, styleMap, rules, counter)
    requires keys[i] != "" && keys[i] !in styleMap
    ensures LoopState(keys, i + 1, styleMap[keys[i] := ClassName(counter)],
                      rules + [Rule(ClassName(counter), keys[i])], counter + 1)
  {
    var x := keys[i];
    var seen := FirstSeen(keys[..i]);
    var all := FirstSeen(keys);
    NewKeyStep(keys, i);
    StateAdd(all, seen, x, styleMap, rules, counter);
  }

  /** A string of rank `|seen|` in `all` extends the state by one. */
  lemma StateAdd(all: seq<string>, seen: seq<string>, x: string, styleMap: map<string, string>,
                 rules: seq<string>, counter: nat)
    requires StateOf(all, seen, styleMap, rules, counter)
    requires x in all && Rank(all, x) == |seen|
    ensures StateOf(all, seen + [x], styleMap[x := ClassName(counter)],
                    rules + [Rule(ClassName(counter), x)], counter + 1)
  {
    RulesSnoc(seen, x);
    assert x in Classes(all) && Classes(all)[x] == ClassName(counter);
    MapAdd(Classes(all), seen, x, styleMap, ClassName(counter));
  }

  /** Adding the class of a new string keeps the map a part of `want` whose
      keys are the strings seen. */
  lemma MapAdd(want: map<string, string>, seen: seq<string>, x: string, styleMap: map<string, string>, v: string)
    requires x in want && v == want[x]
    requires forall s :: s in styleMap <==> s in seen
    requires forall s :: s in styleMap ==> s in want && styleMap[s] == want[s]
    ensures var m := styleMap[x := v];
      && (forall s :: s in m <==> s in seen + [x])
      && (forall s :: s in m ==> s in want && m[s] == want[s])
  {
  }

  /** One turn of the loop: the node at `i` and the state after it. */
  method Visit(doc: Doc, keys: seq<string>, i: nat, styleMap: map<string, string>,
               rules: seq<string>, counter: nat)
    returns (styleMap': map<string, string>, rules': seq<string>, counter': nat, m: Node)
    requires keys == StyleKeys(doc) && i < |doc|
    requires LoopState(keys, i, styleMap, rules, counter)
    ensures LoopState(keys, i + 1, styleMap', rules', counter')
    ensures m == Restyle(doc).doc[i]
  {
    var n := doc[i];
    var style := keys[i];
    assert style == StyleOf(n);
    StyledIsElement(n);
    if style == "" {
      LoopKeep(keys, i, styleMap, rules, counter);
      styleMap', rules', counter', m := styleMap, rules, counter, n;
    } else {
      if style !in styleMap {
        LoopAdd(keys, i, styleMap, rules, counter);
        styleMap' := styleMap[style := ClassName(counter)];
        rules' := rules + [Rule(ClassName(counter), style)];
        counter' := counter + 1;
      } else {
        LoopKeep(keys, i, styleMap, rules, counter);
        styleMap', rules', counter' := styleMap, rules, counter;
      }
      m := Restyled(n, styleMap'[style]);
    }
    OutcomeUnique(doc, i, m, Restyle(doc).doc[i]);
  }

  /** The loop of `process_styles`: one pass in document order, keeping the
      style-to-class map, the rules and the counter. */
  method ProcessStyles(doc: Doc) returns (r: StyleResult)
    ensures r == Restyle(doc)
  {
    var keys := StyleKeys(doc);
    var styleMap: map<string, string> := map[];
    var rules: seq<string> := [];
    var counter: nat := 1;
    var out: Doc := [];
    var i := 0;
    ghost var want := Restyle(doc).doc;
    LoopStart(keys);
    while i < |doc|
      invariant i <= |doc|
      invariant LoopState(keys, i, styleMap, rules, counter)
      invariant out == want[..i]
    {
      var m;
      styleMap, rules, counter, m := Visit(doc, keys, i, styleMap, rules, counter);
      PrefixStep(want, i);
      out := out + [m];
      i := i + 1;
    }
    Finish(doc, styleMap, rules, counter);
    PrefixAll(want);
    r := StyleResult(out, Join(rules, "\n"));
  }

  /** At the end of the loop the rules are those of all styles seen. */
  lemma Finish(doc: Doc, styleMap: map<string, string>, rules: seq<string>, counter: nat)
    requires LoopState(StyleKeys(doc), |doc|, styleMap, rules, counter)
    ensures Join(rules, "\n") == Restyle(doc).css
  {
    var keys := StyleKeys(doc);
    assert keys[..|doc|] == keys;
  }

  lemma OutcomeUnique(doc: Doc, k: nat, m1: Node, m2: Node)
    requires k < |doc| && Outcome(doc, k, m1) && Outcome(doc, k, m2)
    ensures m1 == m2
  {
  }

  /** A node without a non-empty style comes out of the pass unchanged. */
  lemma UnstyledKept(doc: Doc, i: nat)
    requires i < |doc| && StyleOf(doc[i]) == ""
    ensures Restyle(doc).doc[i] == doc[i]
  {
    assert StyleKeys(doc)[i] == StyleOf(doc[i]);
  }

  /** A styled element loses its `style` attribute, keeps every other
      attribute and class, and gains one class whose rule in the stylesheet
      carries the element's stripped style. */
  lemma StyledElementRestyled(doc: Doc, i: nat)
    requires i < |doc| && StyleOf(doc[i]) != ""
    ensures var m := Restyle(doc).doc[i];
      && m.Element? && doc[i].Element? && m.tag == doc[i].tag && m.depth == doc[i].depth
      && m.attrs == doc[i].attrs - {"style"}
      && exists k :: 1 <= k <= |Rules(FirstSeen(StyleKeys(doc)))|
           && m.classes == doc[i].classes + [ClassName(k)]
           && Rules(FirstSeen(StyleKeys(doc)))[k - 1] == Rule(ClassName(k), StyleOf(doc[i]))
  {
    assert StyleKeys(doc)[i] == StyleOf(doc[i]);
    KeyedRestyled(doc, i);
  }

  /** The same, in terms of the key of the node. */
  lemma KeyedRestyled(doc: Doc, i: nat)
    requires i < |doc| && StyleKeys(doc)[i] != ""
    ensures var m := Restyle(doc).doc[i];
      && m.Element? && doc[i].Element? && m.tag == doc[i].tag && m.depth == doc[i].depth
      && m.attrs == doc[i].attrs - {"style"}
      && exists k :: 1 <= k <= |Rules(FirstSeen(StyleKeys(doc)))|
           && m.classes == doc[i].classes + [ClassName(k)]
           && Rules(FirstSeen(StyleKeys(doc)))[k - 1] == Rule(ClassName(k), StyleKeys(doc)[i])
  {
    var keys := StyleKeys(doc);
    var all := FirstSeen(keys);
    assert Outcome(doc, i, Restyle(doc).doc[i]);
    var k := Rank(all, keys[i]) + 1;
    assert Rules(all)[k - 1] == Rule(ClassName(k), keys[i]);
  }

  /** Two styled elements get the same class exactly when their stripped
      styles are equal. */
  lemma SameClassIffSameStyle(doc: Doc, i: nat, j: nat)
    requires i < |doc| && j < |doc|
    requires StyleOf(doc[i]) != "" && StyleOf(doc[j]) != ""
    ensures Last(Restyle(doc).doc[i].classes) == Last(Restyle(doc).doc[j].classes)
      <==> StyleOf(doc[i]) == StyleOf(doc[j])
  {
    var all := FirstSeen(StyleKeys(doc));
    ClassNameInjective(Rank(all, StyleOf(doc[i])) + 1, Rank(all, StyleOf(doc[j])) + 1);
  }

  /** The first element carrying a style gets the class numbered one past
      the count of distinct styles seen before it. */
  lemma FirstSeenNumbering(doc: Doc, i: nat)
    requires i < |doc| && StyleOf(doc[i]) != ""
    requires StyleOf(doc[i]) !in FirstSeen(StyleKeys(doc)[..i])
    ensures Last(Restyle(doc).doc[i].classes) == ClassName(|FirstSeen(StyleKeys(doc)[..i])| + 1)
  {
    var keys := StyleKeys(doc);
    assert keys[i] == StyleOf(doc[i]);
    NewKeyStep(keys, i);
    assert Outcome(doc, i, Restyle(doc).doc[i]);
  }

  lemma JoinNonEmpty(xs: seq<string>, sep: string)
    requires |xs| > 0 && xs[0] != ""
    ensures Join(xs, sep) != ""
  {
    if |xs| > 1 {
      assert Join(xs, sep)[0] == xs[0][0];
    }
  }

  /** The stylesheet is empty exactly when no element has a non-empty style. */
  lemma EmptyStylesheetIff(doc: Doc)
    ensures Restyle(doc).css == "" <==> forall i :: 0 <= i < |doc| ==> StyleOf(doc[i]) == ""
  {
    var keys := StyleKeys(doc);
    var all := FirstSeen(keys);
    if |all| > 0 {
      assert Rules(all)[0] == Rule(ClassName(1), all[0]);
      assert Rules(all)[0][0] == '.';
      JoinNonEmpty(Rules(all), "\n");
      assert all[0] in keys;
      var i :| 0 <= i < |keys| && keys[i] == all[0];
    } else {
      forall i | 0 <= i < |doc| ensures StyleOf(doc[i]) == "" {
        assert keys[i] == StyleOf(doc[i]);
      }
    }
  }

  /** After the pass no element keeps a non-empty style, so running it again
      changes nothing and yields an empty stylesheet. */
  lemma RerunChangesNothing(doc: Doc)
    ensures Restyle(Restyle(doc).doc) == StyleResult(Restyle(doc).doc, "")
  {
    var once := Restyle(doc).doc;
    forall i | 0 <= i < |once| ensures StyleOf(once[i]) == "" {
    }
    EmptyStylesheetIff(once);
    var twice := Restyle(once).doc;
    assert twice == once;
  }
}
