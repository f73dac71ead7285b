/**
 * The MHT container: the `boundary="…"` declaration, the split of the text
 * into parts at `--boundary` lines, the choice of the HTML part and of its
 * body, and the selection of the parts that become resource files.
 */
module Multipart {
  import opened Results
  import opened Text
  import Headers

  /** The literal that opens a boundary declaration. */
  const BoundaryKey := "boundary=\""

  /** The match of `boundary="([^"]+)"` that starts at `i`, if any: the
      group is the non-empty run of non-quote characters up to the next quote. */
  function BoundaryAt(s: string, i: nat): (r: Option<string>)
    ensures r.Some? ==> |r.value| > 0 && '"' !in r.value
    ensures r.Some? ==> OccursAt(s, BoundaryKey + r.value + "\"", i)
  {
    if !OccursAt(s, BoundaryKey, i) then None
    else
      var rest := s[i + |BoundaryKey|..];
      match IndexOfChar(rest, '"')
      case None => None
      case Some(k) =>
        if k == 0 then None
        else
          DeclarationAt(s, i, rest, k);
          Some(rest[..k])
  }

  lemma DeclarationAt(s: string, i: nat, rest: string, k: nat)
    requires OccursAt(s, BoundaryKey, i)
    requires rest == s[i + |BoundaryKey|..] && k < |rest| && rest[k] == '"'
    ensures OccursAt(s, BoundaryKey + rest[..k] + "\"", i)
  {
    var m := BoundaryKey + rest[..k] + "\"";
    assert s[i..][..|m|] == s[i..][..|BoundaryKey|] + rest[..k] + "\"";
  }

  /** Every declaration `boundary="b"` at `i` with a non-empty, quote-free
      `b` is the match at `i`. */
  lemma BoundaryAtDeclaration(s: string, i: nat, b: string)
    requires |b| > 0 && '"' !in b
    requires OccursAt(s, BoundaryKey + b + "\"", i)
    ensures BoundaryAt(s, i) == Some(b)
  {
    var m := BoundaryKey + b + "\"";
    var n := |BoundaryKey|;
    assert s[i..][..n] == m[..n];
    var rest := s[i + n..];
    assert m[n..] == b + "\"";
    assert rest[..|b| + 1] == s[i..][..|m|][n..];
    assert rest[..|b|] == rest[..|b| + 1][..|b|];
    assert rest[|b|] == rest[..|b| + 1][|b|];
    IndexOfCharIs(rest, '"', |b|);
  }

  /** The first position at or after `from` where a declaration matches. */
  function BoundaryFrom(s: string, from: nat): (r: Option<nat>)
    requires from <= |s|
    ensures r.Some? ==> from <= r.value <= |s| && BoundaryAt(s, r.value).Some?
    ensures forall i :: from <= i <= |s| && (r.None? || i < r.value) ==> BoundaryAt(s, i).None?
    decreases |s| - from
  {
    if BoundaryAt(s, from).Some? then Some(from)
    else if from == |s| then None
    else BoundaryFrom(s, from + 1)
  }

  /** `re.search(r'boundary="([^"]+)"', content).group(1)`: the leftmost
      declaration's boundary, or nothing when there is none. */
  function FindBoundary(s: string): (r: Option<string>)
    ensures r.None? <==> forall i :: 0 <= i <= |s| ==> BoundaryAt(s, i).None?
    ensures r.Some? ==> exists i :: (0 <= i <= |s| && BoundaryAt(s, i) == r
      && forall j :: 0 <= j < i ==> BoundaryAt(s, j).None?)
  {
    match BoundaryFrom(s, 0)
    case None => None
    case Some(i) => BoundaryAt(s, i)
  }

  /** A header block without quotes before the declaration yields the
      declared boundary. */
  lemma DeclaredBoundary(pre: string, b: string, post: string)
    requires '"' !in pre
    requires |b| > 0 && '"' !in b
    ensures FindBoundary(pre + BoundaryKey + b + "\"" + post) == Some(b)
  {
    var s := pre + BoundaryKey + b + "\"" + post;
    var m := BoundaryKey + b + "\"";
    var rest := m + post;
    assert s == pre + rest;
    assert s[|pre|..][..|m|] == m;
    BoundaryAtDeclaration(s, |pre|, b);
    forall j | 0 <= j < |pre| ensures BoundaryAt(s, j).None? {
      NoDeclarationInQuoteFree(pre, rest, j);
    }
    FirstDeclaration(s, |pre|, b);
  }

  /** The leftmost declaration decides the boundary. */
  lemma FirstDeclaration(s: string, i: nat, b: string)
    requires i <= |s| && BoundaryAt(s, i) == Some(b)
    requires forall j :: 0 <= j < i ==> BoundaryAt(s, j).None?
    ensures FindBoundary(s) == Some(b)
  {
    var r := BoundaryFrom(s, 0);
    assert r.Some? && r.value <= i;
  }

  lemma NoDeclarationInQuoteFree(pre: string, rest: string, j: nat)
    requires '"' !in pre && j < |pre|
    requires StartsWith(rest, BoundaryKey)
    ensures !OccursAt(pre + rest, BoundaryKey, j)
  {
    var s := pre + rest;
    if j + 10 <= |s| {
      if j + 9 < |pre| {
        assert s[j + 9] == pre[j + 9];
      } else {
        assert s[j + 9] == rest[..10][j + 9 - |pre|];
      }
      assert s[j..][..10][9] == s[j + 9];
    }
  }

  /** `--b\n`, the delimiter before a part. */
  function Open(b: string): string {
    "--" + b + "\n"
  }

  /** `--b--\n`, the closing delimiter. */
  function Close(b: string): string {
    "--" + b + "--\n"
  }

  /** The delimiter `--b(?:--)?\n` matched at `i`: the optional `--` is
      greedy, so the closing form is tried first. */
  function DelimiterAt(s: string, b: string, i: nat): (r: Option<string>)
    ensures r.Some? ==> OccursAt(s, r.value, i) && (r.value == Open(b) || r.value == Close(b))
    ensures r.None? <==> !OccursAt(s, Open(b), i) && !OccursAt(s, Close(b), i)
    ensures !(OccursAt(s, Open(b), i) && OccursAt(s, Close(b), i))
  {
    OpenExcludesClose(s, b, i);
    if OccursAt(s, Close(b), i) then Some(Close(b))
    else if OccursAt(s, Open(b), i) then Some(Open(b))
    else None
  }

  /** The first position at or after `from` where a delimiter matches. */
  function DelimiterFrom(s: string, b: string, from: nat): (r: Option<nat>)
    requires from <= |s|
    ensures r.Some? ==> from <= r.value <= |s| && DelimiterAt(s, b, r.value).Some?
    ensures forall i :: from <= i <= |s| && (r.None? || i < r.value) ==> DelimiterAt(s, b, i).None?
    decreases |s| - from
  {
    if DelimiterAt(s, b, from).Some? then Some(from)
    else if from == |s| then None
    else DelimiterFrom(s, b, from + 1)
  }

  /** A piece of the split together with the delimiter that ended it (empty
      for the last piece). */
  datatype Chunk = Chunk(text: string, delimiter: string)

  /** Pieces and delimiters laid end to end again. */
  function Reassemble(cs: seq<Chunk>): string {
    if |cs| == 0 then "" else cs[0].text + cs[0].delimiter + Reassemble(cs[1..])
  }

  /** No delimiter occurs anywhere inside `t`. */
  predicate DelimiterFree(t: string, b: string) {
    forall j :: 0 <= j <= |t| ==> DelimiterAt(t, b, j).None?
  }

  /** `cs` is a split of `s` at delimiters of `b`: every piece but the last
      ends at a delimiter, no piece holds one, and laid end to end again the
      pieces and delimiters give back `s`. */
  predicate SplitOf(cs: seq<Chunk>, s: string, b: string) {
    && |cs| >= 1 && cs[|cs| - 1].delimiter == ""
    && (forall k :: 0 <= k < |cs| - 1 ==> cs[k].delimiter == Open(b) || cs[k].delimiter == Close(b))
    && (forall k :: 0 <= k < |cs| ==> DelimiterFree(cs[k].text, b))
    && Reassemble(cs) == s
  }

  /** Each piece ends at the leftmost delimiter of what remains of `s`: no
      delimiter starts anywhere inside the text of a piece. */
  predicate Leftmost(cs: seq<Chunk>, s: string, b: string)
    decreases |cs|
  {
    |cs| > 0 ==>
      var n := |cs[0].text| + |cs[0].delimiter|;
      && n <= |s|
      && (forall j :: 0 <= j < |cs[0].text| ==> DelimiterAt(s, b, j).None?)
      && Leftmost(cs[1..], s[n..], b)
  }

  /** `re.split(rf"--{b}(?:--)?\n", s)` with the delimiters kept: scanning
      left to right, each piece runs up to the leftmost delimiter. */
  function Chunks(s: string, b: string): (r: seq<Chunk>)
    ensures SplitOf(r, s, b)
    ensures Leftmost(r, s, b)
    decreases |s|
  {
    match DelimiterFrom(s, b, 0)
    case None =>
      FreeWhenNoDelimiter(s, b);
      [Chunk(s, "")]
    case Some(i) =>
      var d := DelimiterAt(s, b, i).value;
      var rest := Chunks(s[i + |d|..], b);
      FreeBeforeFirst(s, b, i);
      ConsSplit(s, b, i, d, rest);
      ConsLeftmost(s, b, i, d, rest);
      [Chunk(s[..i], d)] + rest
  }

  /** A delimiter-free piece and the delimiter after it, in front of a split
      of the remainder, split the whole. */
  lemma ConsSplit(s: string, b: string, i: nat, d: string, rest: seq<Chunk>)
    requires OccursAt(s, d, i) && (d == Open(b) || d == Close(b))
    requires DelimiterFree(s[..i], b)
    requires i + |d| <= |s| && SplitOf(rest, s[i + |d|..], b)
    ensures SplitOf([Chunk(s[..i], d)] + rest, s, b)
  {
    var r := [Chunk(s[..i], d)] + rest;
    assert s[i..][..|d|] == d;
    assert s == s[..i] + d + s[i + |d|..];
    assert r[1..] == rest;
    assert r[|r| - 1] == rest[|rest| - 1];
    forall k | 0 <= k < |r| ensures DelimiterFree(r[k].text, b) {
      if k > 0 {
        assert r[k] == rest[k - 1];
      }
    }
  }

  lemma ConsLeftmost(s: string, b: string, i: nat, d: string, rest: seq<Chunk>)
    requires i + |d| <= |s|
    requires forall j :: 0 <= j < i ==> DelimiterAt(s, b, j).None?
    requires Leftmost(rest, s[i + |d|..], b)
    ensures Leftmost([Chunk(s[..i], d)] + rest, s, b)
  {
    assert ([Chunk(s[..i], d)] + rest)[1..] == rest;
  }

  /** Open and close never match at one position: the character after the
      boundary is a newline for one and a dash for the other. */
  lemma OpenExcludesClose(s: string, b: string, i: nat)
    ensures !(OccursAt(s, Open(b), i) && OccursAt(s, Close(b), i))
  {
    if OccursAt(s, Open(b), i) {
      var k := |b| + 2;
      assert s[i..][..|Open(b)|] == Open(b);
      assert s[i + k] == s[i..][..|Open(b)|][k] == '\n';
      if i + |Close(b)| <= |s| {
        assert s[i..][..|Close(b)|][k] == s[i + k];
        assert Close(b)[k] == '-';
      }
    }
  }

  /** The leftmost split is the only split of `s` that cuts at the leftmost
      delimiter every time: `Chunks` is the one. */
  lemma {:induction false} LeftmostSplitUnique(cs: seq<Chunk>, s: string, b: string)
    requires SplitOf(cs, s, b) && Leftmost(cs, s, b)
    ensures cs == Chunks(s, b)
    decreases |cs|
  {
    var t := cs[0].text;
    var d := cs[0].delimiter;
    var n := |t| + |d|;
    assert Reassemble(cs) == t + d + Reassemble(cs[1..]);
    assert s[..|t|] == t;
    if |cs| == 1 {
      assert cs[1..] == [];
      assert s == t;
      assert DelimiterAt(s, b, |s|).None?;
      assert DelimiterFrom(s, b, 0).None?;
    } else {
      assert s[|t|..][..|d|] == d;
      assert OccursAt(s, d, |t|);
      if d == Open(b) {
        OpenExcludesClose(s, b, |t|);
      }
      assert DelimiterAt(s, b, |t|) == Some(d);
      assert DelimiterFrom(s, b, 0) == Some(|t|);
      assert s[n..] == Reassemble(cs[1..]);
      RestSplit(cs, s, b);
      LeftmostSplitUnique(cs[1..], s[n..], b);
      assert cs == [Chunk(s[..|t|], d)] + cs[1..];
    }
  }

  /** The pieces after the first split what follows the first delimiter. */
  lemma RestSplit(cs: seq<Chunk>, s: string, b: string)
    requires SplitOf(cs, s, b) && |cs| > 1
    requires s[|cs[0].text| + |cs[0].delimiter|..] == Reassemble(cs[1..])
    ensures SplitOf(cs[1..], s[|cs[0].text| + |cs[0].delimiter|..], b)
  {
    forall k | 0 <= k < |cs| - 2 ensures cs[1..][k].delimiter == Open(b) || cs[1..][k].delimiter == Close(b) {
      assert cs[1..][k] == cs[k + 1];
    }
    forall k | 0 <= k < |cs| - 1 ensures DelimiterFree(cs[1..][k].text, b) {
      assert cs[1..][k] == cs[k + 1];
    }
  }

  lemma FreeWhenNoDelimiter(s: string, b: string)
    requires forall i :: 0 <= i <= |s| ==> DelimiterAt(s, b, i).None?
    ensures DelimiterFree(s, b)
  {
  }

  /** The text before the leftmost delimiter holds none. */
  lemma FreeBeforeFirst(s: string, b: string, i: nat)
    requires i <= |s|
    requires forall j :: 0 <= j < i ==> DelimiterAt(s, b, j).None?
    ensures DelimiterFree(s[..i], b)
  {
    forall j | 0 <= j <= i ensures DelimiterAt(s[..i], b, j).None? {
      if j < i {
        assert DelimiterAt(s, b, j).None?;
      }
      PrefixKeepsAbsence(s, i, Open(b), j);
      PrefixKeepsAbsence(s, i, Close(b), j);
    }
  }

  /** A pattern absent at `j` stays absent in a prefix. */
  lemma PrefixKeepsAbsence(s: string, k: nat, pat: string, j: nat)
    requires j <= k <= |s| && |pat| > 0
    requires j < k ==> !OccursAt(s, pat, j)
    ensures !OccursAt(s[..k], pat, j)
  {
    if j + |pat| <= k {
      assert s[..k][j..][..|pat|] == s[j..][..|pat|];
    }
  }

  /** The parts of the archive, delimiters dropped. */
  function SplitParts(s: string, b: string): (r: seq<string>)
    ensures |r| == |Chunks(s, b)| >= 1
    ensures forall k :: 0 <= k < |r| ==> r[k] == Chunks(s, b)[k].text && DelimiterFree(r[k], b)
  {
    var cs := Chunks(s, b);
    seq(|cs|, k requires 0 <= k < |cs| => cs[k].text)
  }

  /** The literal that marks the HTML part. */
  const HtmlMarker := "Content-Type: text/html"

  /** `next((p for p in parts if "Content-Type: text/html" in p), None)`:
      the index of the first part holding the marker. */
  function FindHtmlPart(parts: seq<string>): (r: Option<nat>)
    ensures r.None? <==> forall k :: 0 <= k < |parts| ==> !Contains(parts[k], HtmlMarker)
    ensures r.Some? ==> r.value < |parts| && Contains(parts[r.value], HtmlMarker)
    ensures r.Some? ==> forall k :: 0 <= k < r.value ==> !Contains(parts[k], HtmlMarker)
  {
    HtmlPartFrom(parts, 0)
  }

  /** The first part at or after `from` holding the marker. */
  function HtmlPartFrom(parts: seq<string>, from: nat): (r: Option<nat>)
    requires from <= |parts|
    ensures r.Some? ==> from <= r.value < |parts| && Contains(parts[r.value], HtmlMarker)
    ensures forall k :: from <= k < |parts| && (r.None? || k < r.value) ==> !Contains(parts[k], HtmlMarker)
    decreases |parts| - from
  {
    if from == |parts| then None
    else if Contains(parts[from], HtmlMarker) then Some(from)
    else HtmlPartFrom(parts, from + 1)
  }

  /** Length of the blank line `\n\n` or `\r\n\r\n` at `i` (tried in that
      order), or 0 when there is none. */
  function SeparatorAt(s: string, i: nat): (r: nat)
    ensures r == 0 <==> !OccursAt(s, "\n\n", i) && !OccursAt(s, "\r\n\r\n", i)
    ensures r != 0 ==> i + r <= |s|
  {
    if OccursAt(s, "\n\n", i) then 2
    else if OccursAt(s, "\r\n\r\n", i) then 4
    else 0
  }

  /** The leftmost blank line at or after `from`. */
  function SeparatorFrom(s: string, from: nat): (r: Option<nat>)
    requires from <= |s|
    ensures r.Some? ==> from <= r.value <= |s| && SeparatorAt(s, r.value) > 0
    ensures forall i :: from <= i <= |s| && (r.None? || i < r.value) ==> SeparatorAt(s, i) == 0
    decreases |s| - from
  {
    if SeparatorAt(s, from) > 0 then Some(from)
    else if from == |s| then None
    else SeparatorFrom(s, from + 1)
  }

  /** The lookahead `(?=\n--|$)` succeeds at `e`: `$` matches at the end and
      just before a final newline. */
  predicate StopsAt(s: string, e: nat) {
    e <= |s| && (OccursAt(s, "\n--", e) || e == |s| || (e + 1 == |s| && s[e] == '\n'))
  }

  /** The lazy `(.*?)` stops at the first position where the lookahead holds. */
  function StopFrom(s: string, from: nat): (e: nat)
    requires from <= |s|
    ensures from <= e <= |s| && StopsAt(s, e)
    ensures forall j :: from <= j < e ==> !StopsAt(s, j)
    decreases |s| - from
  {
    if StopsAt(s, from) then from else StopFrom(s, from + 1)
  }

  /** The body of the HTML part: the text after the first blank line up to
      the next `\n--` or the end, stripped; nothing when the part has no
      blank line. */
  function HtmlBody(part: string): (r: Option<string>)
    ensures r.None? <==> !Contains(part, "\n\n") && !Contains(part, "\r\n\r\n")
  {
    match SeparatorFrom(part, 0)
    case None =>
      assert forall i :: 0 <= i <= |part| ==> !OccursAt(part, "\n\n", i) && !OccursAt(part, "\r\n\r\n", i) by {
        forall i | 0 <= i <= |part| ensures !OccursAt(part, "\n\n", i) && !OccursAt(part, "\r\n\r\n", i) {
          assert SeparatorAt(part, i) == 0;
        }
      }
      None
    case Some(i) =>
      assert SeparatorAt(part, i) > 0;
      var j := i + SeparatorAt(part, i);
      Some(Strip(part[j..StopFrom(part, j)]))
  }

  /** A part laid out as headers, blank line, body and either the end or the
      next `\n--` line yields exactly its stripped body. */
  lemma BodyOfWellFormedPart(h: string, body: string, tail: string)
    requires !Contains(h + "\n", "\n\n") && !Contains(h + "\n", "\r\n\r\n")
    requires !Contains(body, "\n--") && (body == "" || body[|body| - 1] != '\n')
    requires tail == "" || StartsWith(tail, "\n--")
    ensures HtmlBody(h + "\n\n" + body + tail) == Some(Strip(body))
  {
    var s := h + "\n\n" + body + tail;
    var j := |h| + 2;
    SeparatorAfterHead(h, body + tail);
    assert s == h + "\n\n" + (body + tail);
    var e := j + |body|;
    assert StopsAt(s, e) by {
      if tail != "" {
        assert s[e..][..3] == tail[..3];
      }
    }
    forall k | j <= k < e ensures !StopsAt(s, k) {
      NoStopInBody(h + "\n\n", body, tail, k);
    }
    assert StopFrom(s, j) == e by {
      var r := StopFrom(s, j);
    }
    assert s[j..e] == body;
  }

  /** The first blank line of `h + "\n\n" + rest` is the one after `h`. */
  lemma SeparatorAfterHead(h: string, rest: string)
    requires !Contains(h + "\n", "\n\n") && !Contains(h + "\n", "\r\n\r\n")
    ensures SeparatorFrom(h + "\n\n" + rest, 0) == Some(|h|)
    ensures SeparatorAt(h + "\n\n" + rest, |h|) == 2
  {
    var s := h + "\n\n" + rest;
    assert s[|h|..][..2] == "\n\n";
    forall i | 0 <= i < |h| ensures SeparatorAt(s, i) == 0 {
      NoSeparatorInHead(h, rest, i);
    }
    assert SeparatorAt(s, |h|) == 2;
    var r := SeparatorFrom(s, 0);
    assert r.Some? && r.value <= |h|;
  }

  lemma NoSeparatorInHead(h: string, rest: string, i: nat)
    requires !Contains(h + "\n", "\n\n") && !Contains(h + "\n", "\r\n\r\n")
    requires i < |h|
    ensures SeparatorAt(h + "\n\n" + rest, i) == 0
  {
    var s := h + "\n\n" + rest;
    var h1 := h + "\n";
    assert !OccursAt(h1, "\n\n", i) && !OccursAt(h1, "\r\n\r\n", i);
    assert s[i..][..2] == h1[i..][..2];
    if i + 4 <= |h1| {
      assert s[i..][..4] == h1[i..][..4];
    } else {
      assert s[i + 2] == '\n';
      if i + 4 <= |s| {
        assert s[i..][..4][2] == s[i + 2];
      }
    }
  }

  lemma NoStopInBody(head: string, body: string, tail: string, k: nat)
    requires !Contains(body, "\n--") && (body == "" || body[|body| - 1] != '\n')
    requires tail == "" || StartsWith(tail, "\n--")
    requires |head| <= k < |head| + |body|
    ensures !StopsAt(head + body + tail, k)
  {
    var s := head + body + tail;
    var b := k - |head|;
    assert s[k] == body[b];
    if b + 3 <= |body| {
      assert s[k..][..3] == body[b..][..3];
      assert !OccursAt(body, "\n--", b);
    } else if k + 3 <= |s| {
      assert tail[0] == tail[..3][0];
      if b + 2 == |body| {
        assert s[k + 2] == tail[0];
        assert s[k..][..3][2] == s[k + 2];
      } else {
        assert s[k + 1] == tail[0];
        assert s[k..][..3][1] == s[k + 1];
      }
    }
  }

  /** What `process` submits for one resource part. */
  datatype Job = Job(location: Option<string>, contentType: string, data: string, encoding: string)

  /** The content type of a header map, cut at the first `;`. */
  function ContentType(headers: map<string, string>): (r: string)
    ensures ';' !in r
    ensures StartsWith(Lookup(headers, "content-type").GetOr(""), r)
    ensures var full := Lookup(headers, "content-type").GetOr("");
      |r| < |full| ==> full[|r|] == ';'
  {
    var full := Lookup(headers, "content-type").GetOr("");
    var pieces := Split(full, ';');
    assert full == pieces[0] + (if |pieces| > 1 then [';'] + Join(pieces[1..], [';']) else "");
    pieces[0]
  }

  /** The resource job of one part, or nothing when the part is skipped: it
      lacks the literal `Content-Location:`, or its content type starts with
      `text/html`. Headers end at the first blank line; the body is stripped. */
  function JobOf(part: string): (r: Option<Job>)
    ensures var headers := Headers.ParseHeaders(Partition(part, "\n\n").0);
      r.Some? <==> Contains(part, "Content-Location:") && !StartsWith(ContentType(headers), "text/html")
    ensures r.Some? ==> r.value.contentType == ContentType(Headers.ParseHeaders(Partition(part, "\n\n").0))
    ensures r.Some? ==> (r.value.location ==
      Lookup(Headers.ParseHeaders(Partition(part, "\n\n").0), "content-location"))
    ensures r.Some? ==> (r.value.encoding ==
      Lookup(Headers.ParseHeaders(Partition(part, "\n\n").0), "content-transfer-encoding").GetOr("7bit"))
    ensures r.Some? ==> r.value.data == Strip(Partition(part, "\n\n").1)
  {
    if !Contains(part, "Content-Location:") then None
    else
      var (block, body) := Partition(part, "\n\n");
      var headers := Headers.ParseHeaders(block);
      var ct := ContentType(headers);
      if StartsWith(ct, "text/html") then None
      else
        Some(Job(Lookup(headers, "content-location"), ct, Strip(body),
                 Lookup(headers, "content-transfer-encoding").GetOr("7bit")))
  }

  /** The jobs of all parts, in part order. */
  function Jobs(parts: seq<string>): (r: seq<Job>)
    ensures |r| <= |parts|
    ensures forall k :: 0 <= k < |r| ==> exists i :: 0 <= i < |parts| && JobOf(parts[i]) == Some(r[k])
    ensures forall i :: 0 <= i < |parts| && JobOf(parts[i]).Some? ==> JobOf(parts[i]).value in r
  {
    Present(parts, JobOf)
  }
}
