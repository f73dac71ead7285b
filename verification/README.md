# mht2html, modelled in Dafny

A model of the converter in `mht2html.py`. The converter turns a QQ chat
archive saved as MHT (a MIME multipart document) into one HTML page plus a
directory of resource files. The model covers these steps, each as pure
functions over immutable data:

- finding the `boundary="..."` declaration and splitting the archive into parts;
- picking the first `text/html` part and cutting out its body;
- `parse_headers`;
- the naming and decoding logic of `save_resource`;
- the two document passes, `empty_msg` and `process_styles`;
- `update_references`;
- the fold of the saved files into the resource map;
- the head/style injection at the end of `process`.

The parsed HTML document is a flat sequence of nodes in document order. Each
node is an `Element` (tag, attributes, class list) or a `Text`, and each
carries its depth in the tree. The subtree of a node is that node plus the
run of deeper nodes after it. This is enough to state `div.find("img")`,
`get_text`, replacing a `div`, and appending a child to `head`.

Modules, one per file:

| module | file | what it holds |
|---|---|---|
| `Results` | results.dfy | `Option`, `dict.get`, and the "present results" of a partial function |
| `Text` | text.dfy | Python string operations: `strip`, `lower`, `split`, `partition`, `in`, and decimal rendering |
| `Paths` | paths.dfy | POSIX `basename`, `dirname`, `join` and `splitext` |
| `Headers` | headers.dfy | `parse_headers` |
| `Resources` | resources.dfy | `CONTENT_TYPE_MAP`, file names, decoder choice and `save_resource` |
| `Multipart` | multipart.dfy | boundary, split, HTML part, HTML body and resource jobs |
| `Document` | document.dfy | nodes, subtrees, `get`, and the first element with a tag |
| `Messages` | messages.dfy | `empty_msg` |
| `Styles` | styles.dfy | `process_styles`, both as a loop (`ProcessStyles`) and as a node-by-node description (`Restyle`), proved equal |
| `References` | references.dfy | `update_references` |
| `Pipeline` | pipeline.dfy | the resource map, the stylesheet injection and `process` |

The model takes these as parameters rather than modelling them:

- the HTML parser (`Env.parse`);
- the base64 and UTF-8 codecs (`Codec`);
- `os.path.relpath` (`RelPath`), because it depends on the working directory.

## Model

| member | source | states |
|---|---|---|
| Headers.ParseHeaders | mht2html.py:16-23 | The keys are exactly the stripped, lower-cased names of the lines that hold a colon. Each key holds the stripped value of the last line that sets it. An empty block gives the empty map. |
| Headers.FieldOfRendered | mht2html.py:20-22 | A line is cut at its first colon only, so the value keeps any later colons. The name is stripped and lower-cased and the value is stripped. |
| Headers.LaterDuplicateWins | mht2html.py:19-22 | Two lines whose names differ only in case or padding set one key, and the second value wins. |
| Headers.SameNameTwice | mht2html.py:21-22 | Two fields with the same name leave one entry, holding the later value. |
| Headers.EmptyBlockHasNoFields | mht2html.py:16-23 | An empty header block yields no field. |
| Text.Strip | mht2html.py:22 | The result is empty exactly when the input is all whitespace. Otherwise it starts and ends with non-whitespace and is the input minus whitespace runs at both ends. |
| Text.StripPadded | mht2html.py:22 | Stripping whitespace padding around a core that has no whitespace at its ends gives back the core. |
| Text.Split | mht2html.py:19 | The pieces hold no separator, there is at least one, and joining them with the separator gives back the input. |
| Text.SplitJoin | mht2html.py:19 | Splitting a join of separator-free pieces gives back the pieces. |
| Text.Partition | mht2html.py:164 | Without the separator the input comes back whole with an empty tail. Otherwise head + separator + tail is the input, and the head holds no earlier occurrence of the separator. |
| Text.SameLowerIff | mht2html.py:22 | Two strings lower-case alike exactly when they have the same length and, position by position, differ at most in the case of an ASCII letter. So header names match without regard to that case. |
| Text.LowerIdempotent | mht2html.py:22 | Lower-casing an already lower-cased string changes nothing. |
| Text.DecimalRoundTrip | mht2html.py:96 | Reading back the decimal rendering of a number gives the number. |
| Text.DecimalInjective | mht2html.py:96 | Different numbers render differently. |
| Paths.Basename | mht2html.py:36 | The base name is the longest suffix without `/`. |
| Paths.SplitExt | mht2html.py:37 | Root and extension concatenate to the input. The extension is non-empty exactly when the last component has a dot after a non-dot character. A non-empty extension is one dot followed by characters that are neither dots nor slashes. |
| Paths.SplitExtOfDotted | mht2html.py:37 | `stem.ext` splits into `stem` and `.ext`, when `ext` has no dot or slash and the base name of `stem` is not all dots. |
| Paths.Dirname | mht2html.py:119 | A path without `/` has the empty directory name, and a directory name is always a prefix of its path. |
| Paths.BasenameOfJoin | mht2html.py:47 | Joining a directory and a slash-free name and taking the base name gives back the name. |
| Paths.DirnameOfJoin | mht2html.py:47 | Taking the directory name of such a join gives back the directory, when it does not end in `/`. |
| Resources.KnownExtensions | mht2html.py:10-14 | JPEG, PNG and GIF images get `jpg`, `png` and `gif`. |
| Resources.Extension | mht2html.py:40-43 | A known type gets its table extension. Any other type gets its longest suffix without `/` or `+`. |
| Resources.LastTokenUnique | mht2html.py:42 | That suffix is unique, so the extension of an unknown type is fully determined. |
| Resources.StructuredSuffixExtension | mht2html.py:42 | A `+suffix` wins over the subtype (`image/svg+xml` gives `xml`). |
| Resources.PlainSubtypeExtension | mht2html.py:42 | A plain subtype is the extension (`application/octet-stream` gives `octet-stream`). |
| Resources.FileName | mht2html.py:36-46 | The file name has no `/` and ends in `.` followed by the extension of the content type. |
| Resources.OriginalExtensionDropped | mht2html.py:36-46 | `dir/stem.old` under content type `ct` is saved as `stem.<extension of ct>`: the old extension never survives. |
| Resources.NameWithoutExtensionKept | mht2html.py:36-46 | A base name without an extension is kept whole before the new extension. |
| Resources.SaveResource | mht2html.py:34-61 | A file is saved exactly when the part has a location and its body decodes. It records that location and the decoded bytes, under a path whose base name is the computed file name. |
| Resources.SavedInDirectory | mht2html.py:47 | The saved file lies directly in the resource directory. |
| Multipart.FindBoundary | mht2html.py:137-140 | There is no boundary exactly when no position starts a declaration with a non-empty, quote-free value. Otherwise the value is read from some declaration. |
| Multipart.DeclaredBoundary | mht2html.py:137-140 | When nothing before the declaration holds a quote, its value is the boundary found. |
| Multipart.DelimiterAt | mht2html.py:141 | A delimiter is found at a position exactly when `--B\n` or `--B--\n` occurs there, and the one found is the one that occurs. The two never occur at one position, so trying the closing one first changes nothing. |
| Multipart.Chunks | mht2html.py:141 | The archive is cut into delimiter-free texts, each followed by an opening or closing delimiter (the last by none), and joining them back gives the archive. Every cut is at the leftmost delimiter of what remains: no delimiter starts anywhere inside a chunk's text. |
| Multipart.SplitParts | mht2html.py:141 | The parts are the delimiter-free texts of that cut, in order. |
| Multipart.LeftmostSplitUnique | mht2html.py:141 | Any cut of the archive into delimiter-free texts that always cuts at the leftmost delimiter is the one `Chunks` computes, as `re.split` scans from the left. |
| Multipart.FindHtmlPart | mht2html.py:143-145 | The chosen part is the first one holding `Content-Type: text/html`. There is none exactly when no part holds it. |
| Multipart.HtmlBody | mht2html.py:147-150 | There is no body exactly when the part has neither `\n\n` nor `\r\n\r\n`. |
| Multipart.BodyOfWellFormedPart | mht2html.py:147-150 | For a part made of headers, a blank line, a body and an optional `\n--` tail, the body found is the stripped body. |
| Multipart.ContentType | mht2html.py:177 | The content type is the `content-type` header value up to its first `;`. It holds no `;` and starts the header value. Where it stops short of the whole value, a `;` comes next. A missing header gives the empty type. |
| Multipart.JobOf | mht2html.py:170-193 | A part yields a job exactly when it holds `Content-Location:` and its content type does not start with `text/html`. The job carries that content type, the location header, the encoding (default `7bit`) and the stripped body after the first blank line. |
| Multipart.Jobs | mht2html.py:170-193 | Every job comes from a part, and every part that yields a job has it in the list. |
| Document.FirstElement | mht2html.py:204 | This is the first element with the tag (`soup.head`, `soup.html`), or the end when there is none. |
| Document.SubtreeEnd | mht2html.py:71 | Every node strictly inside the subtree is deeper than its root, and the node right after it is not. |
| Messages.EmptyMsg | mht2html.py:67-81 | The pass fails exactly when a message lies inside a message it replaces: the inner `div` is still listed, is emptied when its ancestor is decomposed, and `insert_before` raises on it. A document with no message to replace comes back unchanged. |
| Messages.NestedBlankRaises | mht2html.py:69-81 | A blank message holding another blank message makes the pass fail. |
| Messages.EmptyMsgNodeByNode | mht2html.py:67-81 | When the pass succeeds, the page is pinned node by node. Each replaced message becomes the placeholder, each node inside a replaced message is dropped, and every other node is kept, all in document order. |
| Messages.FirstReplacedSplice | mht2html.py:69-81 | Before the first replaced message everything is kept as it was. The placeholder takes the message's place, and the pass goes on right after the message's subtree. |
| Messages.UntouchedKept | mht2html.py:69-81 | A node that is neither a replaced message nor inside one is still on the page after a successful pass. |
| Messages.Placeholder | mht2html.py:75-79 | The new message is a message `div`. Under it is a `font` carrying the source's style and colour `000000`, and under that the notice `[不支持导出的消息类型]`. Neither the font nor the notice is a message. |
| Messages.PlaceholderIsOneSubtree | mht2html.py:75-80 | The placeholder is one subtree: the font lies inside the `div` and the notice inside the font. |
| Messages.MessagesAfterEmptyMsg | mht2html.py:69-81 | When the pass succeeds, the messages after it are those before it, in the same order and number. Each replaced one is now the placeholder `div` and every other one is unchanged. |
| Messages.ImageMessageKept | mht2html.py:71-72 | A message holding an image is, after a successful pass, still among the messages, unchanged. |
| Messages.BlankMessageReplaced | mht2html.py:74-81 | A blank message without an image gives way, after a successful pass, to the three placeholder nodes at its depth. |
| Messages.PlaceholderNotBlank | mht2html.py:74-79 | The placeholder is not blank, so a second pass does not replace it. |
| Styles.StyleKeys | mht2html.py:91-92 | One key per node, in document order: the stripped `style`, or empty. |
| Styles.FirstSeen | mht2html.py:95-99 | The distinct non-empty keys appear without repeats and without the empty string. Every non-empty key is among them, and nothing else is. |
| Styles.FirstSeenPrefix | mht2html.py:95-99 | The styles seen in a prefix of the document are a prefix of those seen in all of it. |
| Styles.ClassNameInjective | mht2html.py:96 | `i-style-m` and `i-style-n` are equal exactly when `m = n`. |
| Styles.Restyle | mht2html.py:85-105 | Each node comes out unchanged when its style is empty. Otherwise it comes out restyled with the class numbered by the style's rank in first-seen order. The stylesheet joins one rule per style, in that order. |
| Styles.ProcessStyles | mht2html.py:85-105 | The loop with its map, rule list and counter computes exactly `Restyle`. |
| Styles.UnstyledKept | mht2html.py:92-93 | An element without a non-empty style is left as it is. |
| Styles.StyledElementRestyled | mht2html.py:98-102 | A styled element loses `style`, keeps its other attributes and classes, and gains one class whose rule in the stylesheet carries its stripped style. |
| Styles.SameClassIffSameStyle | mht2html.py:95-101 | Two styled elements get the same new class exactly when their stripped styles are equal. |
| Styles.FirstSeenNumbering | mht2html.py:95-99 | The first element with a new style gets the class numbered one more than the number of distinct styles before it. |
| Styles.EmptyStylesheetIff | mht2html.py:105 | The stylesheet is empty exactly when no element has a non-empty style. |
| Styles.RerunChangesNothing | mht2html.py:85-105 | A second pass changes nothing and yields an empty stylesheet. |
| References.UpdateReferences | mht2html.py:114-121 | Only `img`, `link` and `script` nodes can change, and only in `src` (img) or `href` (the others). A node that changes had a value mapped to a non-empty path, and now holds the relative path of that file from the page's directory. |
| References.MappedRewritten | mht2html.py:116-121 | A reference whose value maps to a non-empty path is rewritten to its relative path. |
| References.UnmappedKept | mht2html.py:116 | A reference whose value is unmapped, or maps to the empty path, is kept. |
| References.NoResourcesNoChange | mht2html.py:114-121 | With no saved resources the pass is the identity. |
| References.EmptyLocationAddsSource | mht2html.py:115-121 | An `img` without `src` reads as empty, so a resource saved under the empty location gives it a `src`. |
| Pipeline.ResourceMap | mht2html.py:195-197 | The keys are exactly the locations of the successful results. Each key holds the path of one of the results saved under it. |
| Pipeline.ResourceMapOrderFree | mht2html.py:195-197 | When the results in one order have distinct locations, every other order of the same results gives the same map. |
| Pipeline.SameLocationKeepsOne | mht2html.py:197 | Two results with one location leave one entry, holding the later arrival's path. |
| Pipeline.InjectStylesheet | mht2html.py:201-207 | An empty stylesheet changes nothing. Otherwise the style goes after the last descendant of the first `head`, or into a new `head` made the first child of the first `html`. It fails exactly when there is neither. |
| Pipeline.StylesheetLandsInHead | mht2html.py:201-207 | On a well-formed document the style element and its text end up as the last children of a `head`. |
| Pipeline.InjectStylesheetAsWritten | mht2html.py:204-207 | As written, a non-empty stylesheet with no `head` always fails. With a `head` it agrees with the intended step. |
| Pipeline.HeadlessPageLosesStylesheet | mht2html.py:207 | For `<html>` without `<head>`, the written step fails and the intended one builds head, style and text. |
| Pipeline.WrittenFromJobs | mht2html.py:183-193 | Every file written comes from a submitted job with that location and is named after that job's content type. |
| Pipeline.Page | mht2html.py:154-207 | There is no page exactly when the document `empty_msg` left has a non-empty stylesheet and neither a `head` nor an `html`. Otherwise the page is that document restyled, with its references rewritten through the resource map given, and the stylesheet injected into it. |
| Pipeline.PassesKeepTags | mht2html.py:85-121 | Restyling and rewriting references keep every node's tag, so the page has a `head` or an `html` exactly when the document before them had one. |
| Pipeline.Convert | mht2html.py:152-207 | When `empty_msg` raised it fails with `NestedMessage`, having written nothing. That is the only way to get that failure, and it never comes with written files. Otherwise it fails with `MissingRoot` exactly when the stylesheet is non-empty and the page has neither `head` nor `html`, and it converts in every other case. On success the page is `Page` of the document `empty_msg` left, rewritten through the very map returned, so no reference sees a partial map. That map's keys are exactly the written locations, and each key holds the path of a file written under it. Every written file comes from one of the jobs it is given and is named after that job's content type. |
| Pipeline.ConvertSavesEveryJob | mht2html.py:170-197 | Unless `empty_msg` raised, every job whose resource saves is among the files written. |
| Pipeline.Process | mht2html.py:137-218 | A missing boundary, HTML part or HTML body each fails, exactly when that is missing. A message inside a replaced one fails exactly when the parsed body holds one. All four fail before anything is written. The run fails for a missing root exactly when the body is found, `empty_msg` passes, and the stylesheet it leaves has neither `head` nor `html` to go in. Every other archive converts. Its page is then `Page` of what `empty_msg` left of the parsed body, rewritten through the returned map. That map's keys are exactly the written locations, each holding the path of a file written under it. Every written file comes from a resource part of the archive and is named after that part's content type. |

## Left out

- File reading and writing, `os.makedirs`, `print`, the `tqdm` progress bar and its callback: I/O and UI. A written file is a `Saved` record holding location, path and bytes.
- The resource count loop (mht2html.py:160-167): it only sizes the progress bar.
- `ThreadPoolExecutor`, `as_completed` and `executor.shutdown`: concurrency.
- The worker pool: `Convert` folds the results in submission order. `ResourceMapOrderFree` shows the map is the same for any completion order when locations are distinct.
- Duplicate locations: `SameLocationKeepsOne` shows that the last arrival wins. Which worker arrives last is not decided by the program.
- BeautifulSoup parsing and serialisation: a foreign library. The parser is the parameter `Env.parse` and the page is the node sequence.
- `base64.b64decode` and `str.encode("utf-8")`: library calls, passed in as `Codec`. Only the choice between them is modelled.
- `os.path.relpath`: it depends on the working directory, so it is the parameter `RelPath`.
- `argparse` and `main` (mht2html.py:222-244): command-line plumbing.
- Text.Lower: covers ASCII letters only. Python's `lower` also folds non-ASCII capitals, which only matters for header names with such letters.
- Multipart.SplitParts: the boundary is read as a literal string. The source puts it into a regular expression unescaped, so a boundary holding regular-expression metacharacters is not modelled.
- Messages.IsBlank: `get_text` is taken as the text of the subtree. Comments and other non-text strings, which BeautifulSoup may leave out, are not distinguished.
- Paths: POSIX path rules only, as on Linux and macOS.
- Exceptions, by the handler that catches them. The `except` of `save_resource` (mht2html.py:59-61) catches two modelled cases, each as a resource that is not saved: the `TypeError` of `basename` on a part without a location, and a base64 body that does not decode. A file it cannot write is I/O and not modelled. The `except` of `process` (mht2html.py:216-218) catches five modelled cases:
  - the three `ValueError`s for a missing boundary, HTML part or HTML body, as `MissingBoundary`, `MissingHtmlPart` and `MissingHtmlBody`;
  - the `ValueError` of `insert_before` on a message inside a replaced one, as `NestedMessage`;
  - the `AttributeError` of `soup.html.insert` when there is a stylesheet but neither `head` nor `html`, as `MissingRoot`.
  The archive or page file failing to be read or written there is I/O and not modelled.
- Pipeline.Page: applies the corrected stylesheet step `InjectStylesheet`, not the written one (see Findings). For a page with a non-empty stylesheet and no `head` but an `html`, the model's page gets a new `head` holding the style. The source instead fails after writing the resources (BeautifulSoup before 4.13) or writes the page without the style (4.13 on). `InjectStylesheetAsWritten` models the written step.
- Pipeline.StylesheetLandsInHead: requires a well-formed document, where depth grows by at most one from node to node, as in any listing of a tree.

## Findings

| source | as written | input that shows it | evidently intended | confidence | as-written member | corrected member |
|---|---|---|---|---|---|---|
| mht2html.py:207 | With no `head`, the converter calls `append` on the value `Tag.insert` returns instead of on the new `head`. Before BeautifulSoup 4.13 that value is `None`, so the call raises and the conversion fails after the resources are written. From 4.13 on the style is appended to a throwaway list and never reaches the page. | a page `<html>` with no `<head>`, with any element carrying a non-empty `style`, e.g. the node list `[Element(0, "html")]` with stylesheet `x` | create the `head` as the first child of `html` and append the `style` element to it | not executed; high | Pipeline.InjectStylesheetAsWritten, Pipeline.HeadlessPageLosesStylesheet | Pipeline.InjectStylesheet, Pipeline.StylesheetLandsInHead |
